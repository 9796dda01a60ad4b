/**
  Range positions in the index and the cursor that walks the leaf chain between two of them.
 */
module IxScan {
  import opened IxLevels
  import opened IxTower
  import opened IxIndex

  datatype Iid = Iid(page_no: int, slot_no: int)

  // ---------- positions ----------

  /** The page and slot of entry `g`. */
  ghost function Where(leaves: Level, g: nat): Iid
    requires g < |Pairs(leaves)|
  {
    var n := |leaves[0].node.pairs|;
    if g < n then Iid(leaves[0].page, g) else Where(leaves[1..], g - n)
  }

  lemma {:induction false} WhereIs(leaves: Level, c: nat, s: nat)
    requires c < |leaves| && s < |leaves[c].node.pairs|
    ensures Off(leaves, c) + s < |Pairs(leaves)|
    ensures Where(leaves, Off(leaves, c) + s) == Iid(leaves[c].page, s)
  {
    Entry(leaves, c, s);
    if c > 0 {
      WhereIs(leaves[1..], c - 1, s);
      assert leaves[..c] == [leaves[0]] + leaves[1..][..c - 1];
      PairsCat([leaves[0]], leaves[1..][..c - 1]);
      PairsOne(leaves[0]);
    } else {
      assert leaves[..0] == [];
    }
  }

  /** What stands for the position behind the last entry: it depends on whether `last_leaf_` is still known. */
  ghost function EndIid(leaves: Level, lastLeaf: int): Iid
    requires |leaves| > 0
  {
    if lastLeaf == IX_NO_PAGE then Iid(IX_LEAF_HEADER_PAGE, 0)
    else Iid(leaves[|leaves| - 1].page, |leaves[|leaves| - 1].node.pairs|)
  }

  ghost function Position(leaves: Level, lastLeaf: int, g: nat): Iid
    requires |leaves| > 0 && g <= |Pairs(leaves)|
  {
    if g < |Pairs(leaves)| then Where(leaves, g) else EndIid(leaves, lastLeaf)
  }

  ghost predicate LeavesFull(leaves: Level)
  {
    |leaves| > 0 && (|leaves| > 1 ==> NonEmpty(leaves))
  }

  /** The position reported for slot `pos` of leaf `j`, one past its end included. */
  lemma {:induction false} Reported(header: Node, leaves: Level, lastLeaf: int, j: nat, pos: nat)
    requires LeavesFull(leaves) && Chained(header, leaves) && Distinct(leaves) && LastOk(lastLeaf, leaves)
    requires j < |leaves| && pos <= |leaves[j].node.pairs|
    requires forall k :: 0 <= k < |leaves| ==> leaves[k].page >= IX_INIT_ROOT_PAGE
    ensures Off(leaves, j) + pos <= |Pairs(leaves)|
    ensures Position(leaves, lastLeaf, Off(leaves, j) + pos) ==
            if pos < |leaves[j].node.pairs| || leaves[j].page == lastLeaf then Iid(leaves[j].page, pos)
            else Iid(leaves[j].node.next, 0)
  {
    hide Chained;
    Around(leaves, j);
    Neighbours(header, leaves, j);
    if pos < |leaves[j].node.pairs| {
      WhereIs(leaves, j, pos);
    } else if j + 1 < |leaves| {
      WhereIs(leaves, j + 1, 0);
    } else {
      assert leaves[..j + 1] == leaves;
    }
  }

  lemma {:induction false} FullLeaves(order: nat, tower: Tower, root: int)
    requires Sound(order, tower, root)
    ensures LeavesFull(tower[0])
  {
    AllNonEmpty(tower, order);
  }

  // ---------- bounds ----------

  lemma {:induction false} UpperInLevel(level: Level, c: nat, key: Key, l: nat)
    requires Sorted(Pairs(level)) && Covers(level, c, key) && Upper(level[c].node.pairs, key, l)
    ensures Upper(Pairs(level), key, Off(level, c) + l)
  {
    hide Sorted;
    var s := level[c].node.pairs;
    var off := Off(level, c);
    CoversSplit(level, c, key);
    Around(level, c);
    var all := Pairs(level);
    forall i | 0 <= i < |all| ensures if i < off + l then all[i].key <= key else key < all[i].key {
      if off <= i < off + |s| {
        assert all[i] == s[i - off];
      }
    }
  }

  /** The facts about the leaves that positions rest on. */
  lemma {:induction false} LeafFacts(ih: IxIndexHandle)
    requires ih.Valid()
    ensures LeavesFull(ih.tower[0]) && Distinct(ih.tower[0]) && LastOk(ih.lastLeaf, ih.tower[0])
    ensures forall k :: 0 <= k < |ih.tower[0]| ==> CellOk(ih.pages, ih.levelOf, 0, ih.tower[0][k])
    ensures ih.lastLeaf != IX_NO_PAGE ==> ih.lastLeaf == PageAt(ih.tower[0], |ih.tower[0]| - 1)
  {
    FullLeaves(ih.order, ih.tower, ih.root);
    forall k | 0 <= k < |ih.tower[0]| ensures CellOk(ih.pages, ih.levelOf, 0, ih.tower[0][k]) {
      At(ih.order, ih.pages, ih.levelOf, ih.tower, ih.nextPage, 0, k);
    }
    At(ih.order, ih.pages, ih.levelOf, ih.tower, ih.nextPage, 0, 0);
  }

  /** Position of the first entry not below the key. */
  method LowerBoundIid(ih: IxIndexHandle, key: Key) returns (iid: Iid, ghost g: nat)
    requires ih.Valid()
    modifies ih`pins, ih`rootLatched
    ensures ih.Valid() && ih.pins == old(ih.pins)
    ensures IsLower(ih.Entries(), key, g) && iid == Position(ih.tower[0], ih.lastLeaf, g)
  {
    LeafFacts(ih);
    hide Placed, Sound, Chained, Covers, Pairs, Position, Pin, Unpin, IsLower, Off, Sorted, LeavesFull, LastOk,
        Distinct;
    var leaf, locked;
    ghost var j;
    leaf, locked, j := ih.FindLeafPage(key, FIND, false);
    SoundLeaves(ih.order, ih.tower, ih.root);
    SortedSlice(ih.tower[0], j);
    var pos := LowerBound(ih.pages[leaf].pairs, key);
    LowerInLevel(ih.tower[0], j, key, pos);
    LowerLength(ih.pages[leaf].pairs, key, pos);
    g := Off(ih.tower[0], j) + pos;
    Reported(ih.pages[IX_LEAF_HEADER_PAGE], ih.tower[0], ih.lastLeaf, j, pos);
    if pos == |ih.pages[leaf].pairs| {
      if leaf == ih.lastLeaf {
        iid := Iid(leaf, pos);
      } else {
        iid := Iid(ih.pages[leaf].next, 0);
      }
    } else {
      iid := Iid(leaf, pos);
    }
    ih.UnpinPage(leaf);
  }

  lemma {:induction false} LowerLength(s: seq<Pair>, key: Key, l: nat)
    requires IsLower(s, key, l)
    ensures l <= |s|
  {
  }

  lemma {:induction false} UpperLength(s: seq<Pair>, key: Key, l: nat)
    requires Upper(s, key, l)
    ensures l <= |s|
  {
  }

  lemma {:induction false} SoundLeaves(order: nat, tower: Tower, root: int)
    requires Sound(order, tower, root)
    ensures |tower| > 0 && Sorted(Pairs(tower[0]))
  {
  }

  /** Position of the first entry above the key. */
  method UpperBoundIid(ih: IxIndexHandle, key: Key) returns (iid: Iid, ghost g: nat)
    requires ih.Valid()
    modifies ih`pins, ih`rootLatched
    ensures ih.Valid() && ih.pins == old(ih.pins)
    ensures Upper(ih.Entries(), key, g) && iid == Position(ih.tower[0], ih.lastLeaf, g)
  {
    LeafFacts(ih);
    hide Placed, Sound, Chained, Covers, Pairs, Position, Pin, Unpin, Upper, Off, Sorted, LeavesFull, LastOk,
        Distinct;
    var leaf, locked;
    ghost var j;
    leaf, locked, j := ih.FindLeafPage(key, FIND, false);
    SoundLeaves(ih.order, ih.tower, ih.root);
    SortedSlice(ih.tower[0], j);
    var pos := UpperBound(ih.pages[leaf].pairs, key);
    UpperInLevel(ih.tower[0], j, key, pos);
    UpperLength(ih.pages[leaf].pairs, key, pos);
    g := Off(ih.tower[0], j) + pos;
    Reported(ih.pages[IX_LEAF_HEADER_PAGE], ih.tower[0], ih.lastLeaf, j, pos);
    if pos == |ih.pages[leaf].pairs| {
      if leaf == ih.lastLeaf {
        iid := Iid(leaf, pos);
      } else {
        iid := Iid(ih.pages[leaf].next, 0);
      }
    } else {
      iid := Iid(leaf, pos);
    }
    ih.UnpinPage(leaf);
  }

  // ---------- the cursor ----------

  /** The place of a position: a slot of a leaf, one past the last leaf, or the leaf header page. */
  lemma {:induction false} Place(header: Node, leaves: Level, lastLeaf: int, g: nat) returns (c: nat, s: nat)
    requires LeavesFull(leaves) && g <= |Pairs(leaves)|
    ensures g < |Pairs(leaves)| ==>
              && c < |leaves| && s < |leaves[c].node.pairs| && Off(leaves, c) + s == g
              && Position(leaves, lastLeaf, g) == Iid(leaves[c].page, s) && Pairs(leaves)[g] == leaves[c].node.pairs[s]
    ensures g == |Pairs(leaves)| && lastLeaf != IX_NO_PAGE ==>
              c == |leaves| - 1 && s == |leaves[c].node.pairs| &&
                  Position(leaves, lastLeaf, g) == Iid(leaves[c].page, s)
    ensures g == |Pairs(leaves)| && lastLeaf == IX_NO_PAGE ==>
        Position(leaves, lastLeaf, g) == Iid(IX_LEAF_HEADER_PAGE, 0)
  {
    if g < |Pairs(leaves)| {
      c, s := Locate(leaves, g);
      WhereIs(leaves, c, s);
    } else {
      c, s := |leaves| - 1, |leaves[|leaves| - 1].node.pairs|;
    }
  }

  /** The step from slot `s` of leaf `c` to the next entry. */
  lemma {:induction false} StepPosition(header: Node, leaves: Level, lastLeaf: int, c: nat, s: nat)
    requires LeavesFull(leaves) && Chained(header, leaves) && c < |leaves| && s < |leaves[c].node.pairs|
    ensures Off(leaves, c) + s + 1 <= |Pairs(leaves)|
    ensures s + 1 < |leaves[c].node.pairs| ==>
        Off(leaves, c) + s + 1 < |Pairs(leaves)| &&
        Position(leaves, lastLeaf, Off(leaves, c) + s + 1) == Iid(leaves[c].page, s + 1)
    ensures s + 1 == |leaves[c].node.pairs| && c + 1 < |leaves| ==>
              && Off(leaves, c) + s + 1 < |Pairs(leaves)| && leaves[c].node.next == leaves[c + 1].page
              && Position(leaves, lastLeaf, Off(leaves, c) + s + 1) == Iid(leaves[c + 1].page, 0)
    ensures s + 1 == |leaves[c].node.pairs| && c + 1 == |leaves| ==>
              Off(leaves, c) + s + 1 == |Pairs(leaves)| && leaves[c].node.next == IX_LEAF_HEADER_PAGE
  {
    hide Chained;
    Neighbours(header, leaves, c);
    Around(leaves, c);
    if s + 1 < |leaves[c].node.pairs| {
      WhereIs(leaves, c, s + 1);
    } else if c + 1 < |leaves| {
      WhereIs(leaves, c + 1, 0);
    } else {
      assert leaves[..c + 1] == leaves;
    }
  }

  class Cursor {
    const ih: IxIndexHandle
    const end: Iid
    var iid: Iid
    /** The page kept pinned between calls, or IX_NO_PAGE. */
    var cached: int
    ghost const base: multiset<int>

    ghost predicate Valid()
      reads this, ih
    {
      && ih.Valid()
      && (cached != IX_NO_PAGE ==> cached in ih.pages)
      && ih.pins == (if cached == IX_NO_PAGE then base else Pin(base, cached))
    }

    constructor (ih: IxIndexHandle, lower: Iid, upper: Iid)
      requires ih.Valid()
      ensures Valid() && this.ih == ih && iid == lower && end == upper && base == ih.pins && cached == IX_NO_PAGE
    {
      this.ih, iid, end, base, cached := ih, lower, upper, ih.pins, IX_NO_PAGE;
    }

    predicate IsEnd()
      reads this
    {
      iid == end
    }

    /** Keeps the page of the current position in the cache. */
    method Refresh()
      requires Valid() && iid.page_no in ih.pages && iid.page_no != IX_NO_PAGE
      modifies this`cached, ih`pins
      ensures Valid() && cached == iid.page_no
    {
      hide Placed, Sound, Chained, Pin, Unpin;
      if cached != iid.page_no {
        Release();
        ih.FetchNode(iid.page_no);
        cached := iid.page_no;
      }
    }

    /** Gives the cached page back, as the destructor does. */
    method Release()
      requires Valid()
      modifies this`cached, ih`pins
      ensures Valid() && cached == IX_NO_PAGE
    {
      hide Placed, Sound, Chained, Pin, Unpin;
      if cached != IX_NO_PAGE {
        ih.UnpinPage(cached);
        cached := IX_NO_PAGE;
      }
    }

    /** The record position at the cursor; there is none behind the last entry. */
    method CurrentRid(ghost g: nat) returns (found: bool, rid: Rid)
      requires Valid() && g <= |ih.Entries()| && iid == Position(ih.tower[0], ih.lastLeaf, g) && !IsEnd()
      modifies this`cached, ih`pins
      ensures Valid() && found == (g < |ih.Entries()|)
      ensures found ==> rid == ih.Entries()[g].rid
    {
      hide Placed, Sound, Chained, Pin, Unpin, Pairs, Off, Position;
      LeafFacts(ih);
      ghost var header, leaves := ih.pages[IX_LEAF_HEADER_PAGE], ih.tower[0];
      ghost var c, s := Place(header, leaves, ih.lastLeaf, g);
      HeaderEmpty(header, leaves);
      Refresh();
      var node := ih.pages[cached];
      found := node.isLeaf && 0 <= iid.slot_no < |node.pairs|;
      rid := if found then node.pairs[iid.slot_no].rid else Rid(0, 0);
    }

    /** Moves to page `next` of the chain, or to the end when the chain is back at its header. */
    method TurnTo(next: int)
      requires Valid() && next in ih.pages && next != IX_NO_PAGE
      modifies this`iid, this`cached, ih`pins
      ensures Valid()
      ensures if next != IX_LEAF_HEADER_PAGE then iid == Iid(next, 0) else iid == end
    {
      hide Placed, Sound, Chained, Pin, Unpin;
      Release();
      if next != IX_NO_PAGE && next != IX_LEAF_HEADER_PAGE {
        iid := Iid(next, 0);
        Refresh();
      } else {
        iid := end;
      }
    }

    /** Advances by one slot along the leaf chain. */
    method Next(ghost g: nat)
      requires Valid() && g <= |ih.Entries()| && iid == Position(ih.tower[0], ih.lastLeaf, g)
      requires !IsEnd() && |ih.Entries()| > 0
      modifies this`iid, this`cached, ih`pins
      ensures Valid()
      ensures g + 1 < |ih.Entries()| ==> iid == Position(ih.tower[0], ih.lastLeaf, g + 1)
      ensures g + 1 == |ih.Entries()| ==> iid == end
      ensures g == |ih.Entries()| ==>
          iid == if ih.lastLeaf == IX_NO_PAGE then Position(ih.tower[0], ih.lastLeaf, 0) else end
    {
      hide Placed, Sound, Chained, Pin, Unpin, Pairs, Off, Position;
      LeafFacts(ih);
      ghost var header, leaves := ih.pages[IX_LEAF_HEADER_PAGE], ih.tower[0];
      ghost var c, s := Place(header, leaves, ih.lastLeaf, g);
      if g < |Pairs(leaves)| {
        StepPosition(header, leaves, ih.lastLeaf, c, s);
      } else {
        FirstPosition(header, leaves, ih.lastLeaf);
      }
      Refresh();
      var node := ih.pages[cached];
      if iid.slot_no >= |node.pairs| {
        TurnTo(node.next);
      } else {
        iid := Iid(iid.page_no, iid.slot_no + 1);
        if iid.slot_no == |node.pairs| {
          TurnTo(node.next);
        }
      }
    }

    /** Delivers the entry at the cursor, if there is one, and advances. */
    method Step(ghost g: nat, ghost h: nat) returns (rids: seq<Rid>, ghost g': nat)
      requires Valid() && g <= |ih.Entries()| && h <= |ih.Entries()| && !IsEnd()
      requires iid == Position(ih.tower[0], ih.lastLeaf, g) && end == Position(ih.tower[0], ih.lastLeaf, h)
      modifies this`iid, this`cached, ih`pins
      ensures Valid() && g' <= |ih.Entries()|
      ensures IsEnd() ==> rids == Delivered(ih.Entries(), g, h, ih.lastLeaf == IX_NO_PAGE)
      ensures !IsEnd() ==>
          iid == Position(ih.tower[0], ih.lastLeaf, g') && Steps(|ih.Entries()|, g', h) < Steps(|ih.Entries()|, g, h)
      ensures !IsEnd() ==>
          var e, lost := ih.Entries(), ih.lastLeaf == IX_NO_PAGE;
          rids + Delivered(e, g', h, lost) == Delivered(e, g, h, lost)
    {
      hide Placed, Sound, Chained, Pin, Unpin, Position, Pairs, Delivered, Steps, LastOk;
      ghost var e, lost := ih.Entries(), ih.lastLeaf == IX_NO_PAGE;
      var found, rid := CurrentRid(g);
      rids := if found then [rid] else [];
      DeliverStep(e, g, h, lost);
      Next(g);
      g' := if g + 1 < |e| then g + 1 else 0;
      if iid == end {
        SamePosition(ih, g', h);
      }
    }
  }

  lemma {:induction false} SamePosition(ih: IxIndexHandle, g: nat, h: nat)
    requires ih.Valid() && g <= |ih.Entries()| && h <= |ih.Entries()|
    ensures Position(ih.tower[0], ih.lastLeaf, g) == Position(ih.tower[0], ih.lastLeaf, h) ==> g == h
  {
    hide Placed, Sound, Chained, Position, Pairs;
    if Position(ih.tower[0], ih.lastLeaf, g) == Position(ih.tower[0], ih.lastLeaf, h) {
      LeafFacts(ih);
      PositionInjective(ih.tower[0], ih.lastLeaf, g, h);
    }
  }

  /** Different positions are written differently. */
  lemma {:induction false} PositionInjective(leaves: Level, lastLeaf: int, g: nat, h: nat)
    requires LeavesFull(leaves) && Distinct(leaves) && g <= |Pairs(leaves)| && h <= |Pairs(leaves)|
    requires forall k :: 0 <= k < |leaves| ==> leaves[k].page >= IX_INIT_ROOT_PAGE
    requires Position(leaves, lastLeaf, g) == Position(leaves, lastLeaf, h)
    ensures g == h
  {
    hide Position;
    var header := Node(0, true, 0, 0, []);
    var c, s := Place(header, leaves, lastLeaf, g);
    var d, t := Place(header, leaves, lastLeaf, h);
  }

  lemma {:induction false} FirstPosition(header: Node, leaves: Level, lastLeaf: int)
    requires LeavesFull(leaves) && Chained(header, leaves) && |Pairs(leaves)| > 0
    ensures header.pairs == [] && header.next == leaves[0].page &&
        Position(leaves, lastLeaf, 0) == Iid(leaves[0].page, 0)
    ensures leaves[|leaves| - 1].node.next == IX_LEAF_HEADER_PAGE
  {
    assert ChainedAt(leaves, |leaves| - 1);
    if |leaves| == 1 {
      assert leaves == [leaves[0]];
      PairsOne(leaves[0]);
    }
    assert leaves[..0] == [];
    WhereIs(leaves, 0, 0);
  }

  lemma {:induction false} HeaderEmpty(header: Node, leaves: Level)
    requires Chained(header, leaves)
    ensures header.pairs == [] && header.isLeaf
  {
  }

  // ---------- range scans ----------

  function Rids(s: seq<Pair>): (r: seq<Rid>)
    ensures |r| == |s|
  {
    seq(|s|, i requires 0 <= i < |s| => s[i].rid)
  }

  /**
    What the cursor delivers between positions `g` and `h` of the entries `e`; `lost` says that `last_leaf_` is unknown.
   */
  ghost function Delivered(e: seq<Pair>, g: nat, h: nat, lost: bool): seq<Rid>
    requires g <= |e| && h <= |e|
  {
    if g <= h then Rids(e[g..h])
    else if g < |e| then Rids(e[g..])
    else if lost then Rids(e[..h])
    else []
  }

  ghost function Steps(n: nat, g: nat, h: nat): nat
    requires g <= n && h <= n
  {
    if g <= h then h - g else if g < n then n - g else n + 1
  }

  /** Runs a cursor from `lower` to `upper`, skipping positions without an entry as the index scan executor does. */
  method Run(ih: IxIndexHandle, lower: Iid, upper: Iid, ghost g1: nat, ghost g2: nat) returns (out: seq<Rid>)
    requires ih.Valid() && g1 <= |ih.Entries()| && g2 <= |ih.Entries()|
    requires lower == Position(ih.tower[0], ih.lastLeaf, g1) && upper == Position(ih.tower[0], ih.lastLeaf, g2)
    modifies ih`pins
    ensures ih.Valid() && ih.pins == old(ih.pins)
    ensures out == Delivered(ih.Entries(), g1, g2, ih.lastLeaf == IX_NO_PAGE)
  {
    hide Placed, Sound, Chained, Pin, Unpin, Position, Pairs, Delivered, Steps;
    ghost var e, lost := ih.Entries(), ih.lastLeaf == IX_NO_PAGE;
    DeliverNone(e, g2, lost);
    SamePosition(ih, g1, g2);
    var scan := new Cursor(ih, lower, upper);
    ghost var g: nat := g1;
    out := [];
    while !scan.IsEnd()
      invariant scan.Valid() && scan.ih == ih && scan.end == upper && scan.base == old(ih.pins) && g <= |e|
      invariant scan.IsEnd() ==> out == Delivered(e, g1, g2, lost)
      invariant !scan.IsEnd() ==> scan.iid == Position(ih.tower[0], ih.lastLeaf, g)
      invariant !scan.IsEnd() ==> out + Delivered(e, g, g2, lost) == Delivered(e, g1, g2, lost)
      decreases if scan.IsEnd() then 0 else 1 + Steps(|e|, g, g2)
    {
      var rids;
      rids, g := scan.Step(g, g2);
      out := out + rids;
    }
    scan.Release();
  }

  lemma {:induction false} DeliverNone(e: seq<Pair>, h: nat, lost: bool)
    requires h <= |e|
    ensures Delivered(e, h, h, lost) == []
  {
  }

  /** One step of the cursor delivers one entry, none past the end. */
  lemma {:induction false} DeliverStep(e: seq<Pair>, g: nat, h: nat, lost: bool)
    requires g <= |e| && h <= |e| && g != h
    ensures g + 1 < |e| ==> Delivered(e, g, h, lost) == [e[g].rid] + Delivered(e, g + 1, h, lost)
    ensures g + 1 == |e| ==> Delivered(e, g, h, lost) == [e[g].rid]
    ensures g == |e| ==> Delivered(e, g, h, lost) == if lost then Delivered(e, 0, h, lost) else []
    ensures Delivered(e, h, h, lost) == []
    ensures g + 1 < |e| ==> Steps(|e|, g + 1, h) < Steps(|e|, g, h)
    ensures g == |e| ==> Steps(|e|, 0, h) < Steps(|e|, g, h)
  {
  }

  /** How many leading entries are below a key. */
  ghost function Below(e: seq<Pair>, key: Key): (n: nat)
    ensures n <= |e|
  {
    if e == [] || e[0].key >= key then 0 else 1 + Below(e[1..], key)
  }

  lemma {:induction false} BelowIs(e: seq<Pair>, key: Key, n: nat)
    requires IsLower(e, key, n)
    ensures Below(e, key) == n
  {
    if n > 0 {
      BelowIs(e[1..], key, n - 1);
    }
  }

  /** What a scan from `lower_bound(a)` to `upper_bound(b)` delivers, whether or not `a <= b`. */
  ghost function Scanned(e: seq<Pair>, a: Key, b: Key, lost: bool): seq<Rid>
  {
    Delivered(e, Below(e, a), Below(e, b + 1), lost)
  }

  /** The entries with `a <= key <= b`, by looking at every one of them. */
  ghost function InRange(e: seq<Pair>, a: Key, b: Key): seq<Pair>
  {
    if e == [] then []
    else (if a <= e[0].key <= b then [e[0]] else []) + InRange(e[1..], a, b)
  }

  lemma {:induction false} RangeSlice(e: seq<Pair>, a: Key, b: Key, g: nat, h: nat)
    requires Sorted(e) && IsLower(e, a, g) && Upper(e, b, h)
    ensures InRange(e, a, b) == if g <= h then e[g..h] else []
  {
    if e != [] {
      BoundsTail(e, a, b, g, h);
      hide Sorted, IsLower, Upper;
      var g', h' := if g == 0 then 0 else g - 1, if h == 0 then 0 else h - 1;
      RangeSlice(e[1..], a, b, g', h');
      if g <= h {
        assert e[1..][g'..h'] == e[g' + 1..h' + 1];
        assert g == 0 < h ==> e[0..h] == [e[0]] + e[1..h];
      }
    }
  }

  lemma {:induction false} BoundsTail(e: seq<Pair>, a: Key, b: Key, g: nat, h: nat)
    requires e != [] && Sorted(e) && IsLower(e, a, g) && Upper(e, b, h)
    ensures g <= |e| && h <= |e| && (g == 0 <==> a <= e[0].key) && (h == 0 <==> b < e[0].key)
    ensures Sorted(e[1..]) && IsLower(e[1..], a, if g == 0 then 0 else g - 1)
    ensures Upper(e[1..], b, if h == 0 then 0 else h - 1)
  {
    var rest := e[1..];
    assert forall i :: 0 <= i < |rest| ==> rest[i] == e[i + 1];
  }

  /** When a scan from `lower_bound(a)` to `upper_bound(b)` delivers exactly the entries in range. */
  ghost predicate ScanExact(e: seq<Pair>, a: Key, b: Key, lost: bool)
  {
    || (forall i :: 0 <= i < |e| ==> !(b < e[i].key < a))
    || ((forall i :: 0 <= i < |e| ==> e[i].key < a) && (lost ==> forall i :: 0 <= i < |e| ==> b < e[i].key))
  }

  lemma {:induction false} DeliveredInRange(e: seq<Pair>, a: Key, b: Key, g: nat, h: nat, lost: bool)
    requires Sorted(e) && IsLower(e, a, g) && Upper(e, b, h)
    ensures a <= b ==> ScanExact(e, a, b, lost)
    ensures Delivered(e, g, h, lost) == Rids(InRange(e, a, b)) <==> ScanExact(e, a, b, lost)
  {
    RangeSlice(e, a, b, g, h);
    if g > h {
      assert b < e[h].key < a;
      if g < |e| {
        assert !(e[g].key < a);
        assert |Delivered(e, g, h, lost)| > 0;
      } else if lost && h > 0 {
        assert |Delivered(e, g, h, lost)| == h;
        assert !(b < e[0].key);
      }
    } else {
      forall i | 0 <= i < |e| ensures !(b < e[i].key < a) {
      }
    }
  }

  /** All record positions whose keys lie between `a` and `b`, in key order. */
  method ScanRange(ih: IxIndexHandle, a: Key, b: Key) returns (out: seq<Rid>)
    requires ih.Valid()
    modifies ih`pins, ih`rootLatched
    ensures ih.Valid() && ih.pins == old(ih.pins)
    ensures out == Scanned(ih.Entries(), a, b, ih.lastLeaf == IX_NO_PAGE)
    ensures a <= b ==> out == Rids(InRange(ih.Entries(), a, b))
    ensures out == Rids(InRange(ih.Entries(), a, b)) <==> ScanExact(ih.Entries(), a, b, ih.lastLeaf == IX_NO_PAGE)
    ensures forall r :: r in out ==> r in Rids(ih.Entries())
  {
    hide Placed, Sound, Chained, Position, Pairs, Delivered, ScanExact, InRange, IsLower, Upper;
    var lower, upper;
    ghost var g, h;
    lower, g := LowerBoundIid(ih, a);
    upper, h := UpperBoundIid(ih, b);
    BoundLengths(ih.Entries(), a, b, g, h);
    BelowIs(ih.Entries(), a, g);
    UpperBelow(ih.Entries(), b, h);
    out := Run(ih, lower, upper, g, h);
    SoundLeaves(ih.order, ih.tower, ih.root);
    DeliveredInRange(ih.Entries(), a, b, g, h, ih.lastLeaf == IX_NO_PAGE);
    DeliveredEntries(ih.Entries(), g, h, ih.lastLeaf == IX_NO_PAGE);
  }

  lemma {:induction false} UpperBelow(e: seq<Pair>, key: Key, n: nat)
    requires Upper(e, key, n)
    ensures Below(e, key + 1) == n
  {
    BelowIs(e, key + 1, n);
  }

  lemma {:induction false} DeliveredEntries(e: seq<Pair>, g: nat, h: nat, lost: bool)
    requires g <= |e| && h <= |e|
    ensures forall r :: r in Delivered(e, g, h, lost) ==> r in Rids(e)
  {
    var d := Delivered(e, g, h, lost);
    forall k | 0 <= k < |d| ensures d[k] in Rids(e) {
      assert d[k] == Rids(e)[if g <= h || g < |e| then g + k else k];
    }
  }

  lemma {:induction false} BoundLengths(e: seq<Pair>, a: Key, b: Key, g: nat, h: nat)
    requires IsLower(e, a, g) && Upper(e, b, h)
    ensures g <= |e| && h <= |e|
  {
  }

  // ---------- scanning everything ----------

  method LeafEnd(ih: IxIndexHandle) returns (iid: Iid)
    requires ih.Valid()
    modifies ih`pins
    ensures ih.Valid() && ih.pins == old(ih.pins)
    ensures iid == if ih.lastLeaf == IX_NO_PAGE then Iid(IX_NO_PAGE, 0) else EndIid(ih.tower[0], ih.lastLeaf)
  {
    LeafFacts(ih);
    hide Placed, Sound, Chained, Pin, Unpin;
    if ih.lastLeaf == IX_NO_PAGE {
      return Iid(IX_NO_PAGE, 0);
    }
    ih.FetchNode(ih.lastLeaf);
    iid := Iid(ih.lastLeaf, |ih.pages[ih.lastLeaf].pairs|);
    ih.UnpinPage(ih.lastLeaf);
  }

  method LeafBegin(ih: IxIndexHandle) returns (iid: Iid)
    requires ih.Valid()
    modifies ih`pins
    ensures ih.Valid() && ih.pins == old(ih.pins)
    ensures iid == if ih.firstLeaf == IX_NO_PAGE then Iid(IX_NO_PAGE, 0) else Iid(ih.tower[0][0].page, 0)
  {
    hide Placed, Sound, Chained;
    if ih.firstLeaf == IX_NO_PAGE {
      iid := LeafEnd(ih);
      return;
    }
    iid := Iid(ih.firstLeaf, 0);
  }

  /** A scan from `leaf_begin` to `leaf_end` sees every entry unless a root leaf was once emptied; then it sees none. */
  method ScanAll(ih: IxIndexHandle) returns (out: seq<Rid>)
    requires ih.Valid()
    modifies ih`pins
    ensures ih.Valid() && ih.pins == old(ih.pins)
    ensures out == if ih.firstLeaf == IX_NO_PAGE then [] else Rids(ih.Entries())
    ensures out == Rids(ih.Entries()) <==> ih.firstLeaf != IX_NO_PAGE || ih.Contents() == map[]
  {
    hide Placed, Chained, Position, Delivered, MapOf, Sorted, Pairs;
    var lower := LeafBegin(ih);
    var upper := LeafEnd(ih);
    NoEntries(ih.Entries());
    if lower == upper {
      ScanEmpty(ih);
      return [];
    }
    ghost var n := |ih.Entries()|;
    FullPositions(ih);
    out := Run(ih, lower, upper, 0, n);
    DeliverAll(ih.Entries(), ih.lastLeaf == IX_NO_PAGE);
  }

  lemma {:induction false} NoEntries(e: seq<Pair>)
    requires Sorted(e)
    ensures e == [] <==> MapOf(e) == map[]
    ensures Rids(e) == [] <==> e == []
  {
    hide MapOf, Sorted;
    if e == [] {
      forall k | k in MapOf(e) ensures false {
        var i := MapWhere(e, k);
      }
    } else {
      MapHas(e, 0);
    }
  }

  lemma {:induction false} DeliverAll(e: seq<Pair>, lost: bool)
    ensures Delivered(e, 0, |e|, lost) == Rids(e)
  {
  }

  /** `leaf_begin` and `leaf_end` differ: they are the two ends of the entries. */
  lemma {:induction false} FullPositions(ih: IxIndexHandle)
    requires ih.Valid() && ih.firstLeaf != IX_NO_PAGE
    requires Iid(ih.tower[0][0].page, 0) != EndIid(ih.tower[0], ih.lastLeaf)
    ensures ih.lastLeaf != IX_NO_PAGE && Iid(ih.tower[0][0].page, 0) == Position(ih.tower[0], ih.lastLeaf, 0)
    ensures EndIid(ih.tower[0], ih.lastLeaf) == Position(ih.tower[0], ih.lastLeaf, |ih.Entries()|)
  {
    hide Placed, Chained;
    LeafFacts(ih);
    var leaves := ih.tower[0];
    if |leaves| > 1 {
      Entry(leaves, 0, 0);
    } else {
      assert leaves == [leaves[0]];
      PairsOne(leaves[0]);
    }
    FirstPosition(ih.pages[IX_LEAF_HEADER_PAGE], leaves, ih.lastLeaf);
  }

  lemma {:induction false} ScanEmpty(ih: IxIndexHandle)
    requires ih.Valid()
    requires ih.firstLeaf != IX_NO_PAGE ==> Iid(ih.tower[0][0].page, 0) == EndIid(ih.tower[0], ih.lastLeaf)
    ensures ih.firstLeaf != IX_NO_PAGE ==> ih.Entries() == []
  {
    hide Placed, Chained;
    LeafFacts(ih);
    var leaves := ih.tower[0];
    if |leaves| == 1 {
      assert leaves == [leaves[0]];
      PairsOne(leaves[0]);
    }
  }
}

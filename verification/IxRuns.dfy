/**
  Whole runs of the index against a reference: a sorted association list searched from the front.
 */
module IxRuns {
  import opened Options
  import opened IxLevels
  import opened IxTower
  import opened IxIndex
  import opened IxScan

  // ---------- the reference ----------

  function PutSorted(e: seq<Pair>, key: Key, rid: Rid): seq<Pair>
  {
    if e == [] || key < e[0].key then [Pair(key, rid)] + e
    else if key == e[0].key then e
    else [e[0]] + PutSorted(e[1..], key, rid)
  }

  function DropKey(e: seq<Pair>, key: Key): seq<Pair>
  {
    if e == [] then [] else if e[0].key == key then e[1..] else [e[0]] + DropKey(e[1..], key)
  }

  function Find(e: seq<Pair>, key: Key): Option<Rid>
  {
    if e == [] then None else if e[0].key == key then Some(e[0].rid) else Find(e[1..], key)
  }

  datatype Op = Insert(key: Key, rid: Rid) | Delete(key: Key) | Lookup(key: Key) | Range(low: Key, high: Key)

  datatype Answer = Changed(done: bool) | Found(rid: Option<Rid>) | Rows(rids: seq<Rid>)

  /**
    What an operation answers; `lost` says that the first and the last leaf are unknown, which only a scan with its ends
    swapped can tell.
   */
  ghost function Answered(e: seq<Pair>, op: Op, lost: bool): Answer
  {
    match op
    case Insert(key, _) => Changed(Find(e, key).None?)
    case Delete(key) => Changed(Find(e, key).Some?)
    case Lookup(key) => Found(Find(e, key))
    case Range(low, high) => Rows(if low <= high then Rids(InRange(e, low, high)) else Scanned(e, low, high, lost))
  }

  function Applied(e: seq<Pair>, op: Op): seq<Pair>
  {
    match op
    case Insert(key, rid) => PutSorted(e, key, rid)
    case Delete(key) => DropKey(e, key)
    case Lookup(_) => e
    case Range(_, _) => e
  }

  /** The entries of the reference, whether they ever outgrew one leaf, and whether one leaf was ever emptied. */
  datatype Track = Track(entries: seq<Pair>, tall: bool, lost: bool)

  function Next(order: nat, t: Track, op: Op): Track
  {
    var e := Applied(t.entries, op);
    Track(e, t.tall || |e| > order, t.lost || (op.Delete? && t.entries != [] && e == [] && !t.tall))
  }

  /** Where a run from an empty reference ends. */
  function Tracked(order: nat, ops: seq<Op>): Track
  {
    if ops == [] then Track([], false, false) else Next(order, Tracked(order, ops[..|ops| - 1]), ops[|ops| - 1])
  }

  ghost function Answers(order: nat, ops: seq<Op>): seq<Answer>
  {
    if ops == [] then []
    else
      var n := |ops| - 1;
      var before := Tracked(order, ops[..n]);
      Answers(order, ops[..n]) + [Answered(before.entries, ops[n], before.lost)]
  }

  // ---------- the reference is a finite map ----------

  /** A finite map has only one strictly sorted list. */
  lemma {:induction false} SortedUnique(s: seq<Pair>, t: seq<Pair>)
    requires Sorted(s) && Sorted(t) && MapOf(s) == MapOf(t)
    ensures s == t
  {
    hide MapOf, Sorted, ErasePair;
    NoEntries(s);
    NoEntries(t);
    if s != [] {
      SameLeast(s, t);
      MapErase(s, 0);
      MapErase(t, 0);
      EndPairs(s, s[0]);
      EndPairs(t, t[0]);
      SortedUnique(s[1..], t[1..]);
      assert s == [s[0]] + s[1..] && t == [t[0]] + t[1..];
    }
  }

  lemma {:induction false} SameLeast(s: seq<Pair>, t: seq<Pair>)
    requires Sorted(s) && Sorted(t) && MapOf(s) == MapOf(t) && s != [] && t != []
    ensures s[0] == t[0]
  {
    hide MapOf, Sorted;
    MapHas(s, 0);
    MapHas(t, 0);
    var i := MapWhere(t, s[0].key);
    var j := MapWhere(s, t[0].key);
    if i > 0 {
      SortedAt(t, 0, i);
    }
    if j > 0 {
      SortedAt(s, 0, j);
    }
  }

  lemma {:induction false} LowerTail(e: seq<Pair>, key: Key, l: nat, pair: Pair)
    requires Sorted(e) && IsLower(e, key, l) && e != [] && e[0].key < key
    ensures l > 0 && Sorted(e[1..]) && IsLower(e[1..], key, l - 1)
    ensures l < |e| ==> e[l] == e[1..][l - 1]
    ensures InsertPairs(e, l, [pair]) == [e[0]] + InsertPairs(e[1..], l - 1, [pair])
    ensures l < |e| ==> ErasePair(e, l) == [e[0]] + ErasePair(e[1..], l - 1)
    ensures e == [e[0]] + e[1..]
  {
  }

  /** Searching and editing from the front does what a binary search and a shift do. */
  lemma {:induction false} FindAt(e: seq<Pair>, key: Key, rid: Rid, l: nat)
    requires Sorted(e) && IsLower(e, key, l)
    ensures Find(e, key) == if l < |e| && e[l].key == key then Some(e[l].rid) else None
    ensures PutSorted(e, key, rid) == if l < |e| && e[l].key == key then e else InsertPairs(e, l, [Pair(key, rid)])
    ensures DropKey(e, key) == if l < |e| && e[l].key == key then ErasePair(e, l) else e
  {
    if e == [] {
    } else if e[0].key < key {
      LowerTail(e, key, l, Pair(key, rid));
      hide Sorted, IsLower, InsertPairs, ErasePair;
      FindAt(e[1..], key, rid, l - 1);
    } else {
      assert l == 0;
      AbsentBelow(e, key);
      EndPairs(e, Pair(key, rid));
    }
  }

  lemma {:induction false} AbsentBelow(e: seq<Pair>, key: Key)
    requires Sorted(e)
    ensures e == [] || key < e[0].key ==> Find(e, key) == None && DropKey(e, key) == e
  {
    if e != [] && key < e[0].key {
      AbsentBelow(e[1..], key);
    }
  }

  lemma {:induction false} LowerExists(e: seq<Pair>, key: Key) returns (l: nat)
    requires Sorted(e)
    ensures IsLower(e, key, l)
    ensures l < |e| && e[l].key == key <==> key in MapOf(e)
    ensures l < |e| && e[l].key == key ==> MapOf(e)[key] == e[l].rid
  {
    hide MapOf;
    l := 0;
    while l < |e| && e[l].key < key
      invariant l <= |e| && forall i :: 0 <= i < l ==> e[i].key < key
    {
      l := l + 1;
    }
    if l < |e| {
      MapHas(e, l);
    }
    if key in MapOf(e) {
      var i := MapWhere(e, key);
    }
  }

  /** The reference operations act on the finite map that the list stands for. */
  lemma {:induction false} ReferenceIsMap(e: seq<Pair>, key: Key, rid: Rid)
    requires Sorted(e)
    ensures Find(e, key) == if key in MapOf(e) then Some(MapOf(e)[key]) else None
    ensures Sorted(PutSorted(e, key, rid)) && MapOf(PutSorted(e, key, rid)) == if key in MapOf(e) then MapOf(e)
        else MapOf(e)[key := rid]
    ensures Sorted(DropKey(e, key)) && MapOf(DropKey(e, key)) == MapOf(e) - {key}
  {
    hide MapOf, Sorted;
    var l := LowerExists(e, key);
    FindAt(e, key, rid, l);
    if key in MapOf(e) {
      MapErase(e, l);
    } else {
      MapInsert(e, l, key, rid);
      assert MapOf(e) - {key} == MapOf(e);
    }
  }

  // ---------- runs ----------

  /** The index holds the entries of the reference; it has one level and knows its first leaf as the reference says. */
  ghost predicate Follows(ih: IxIndexHandle, t: Track)
    requires ih.Valid()
    reads ih
  {
    ih.Entries() == t.entries && (t.tall <==> |ih.tower| > 1) && (t.lost <==> ih.firstLeaf == IX_NO_PAGE)
  }

  /** A tree of one level is one leaf, no larger than the order. */
  lemma {:induction false} OneLevel(ih: IxIndexHandle)
    requires ih.Valid() && |ih.tower| == 1
    ensures |ih.tower[0]| == 1 && ih.Entries() == ih.tower[0][0].node.pairs && |ih.Entries()| <= ih.order
  {
    hide Chained, Placed, Links;
    assert Sized(ih.tower[0], ih.order);
    assert ih.tower[0] == [ih.tower[0][0]];
    PairsOne(ih.tower[0][0]);
  }

  /** Performs one operation on the index. */
  method Perform(ih: IxIndexHandle, op: Op, ghost t: Track) returns (answer: Answer)
    requires ih.Valid() && Follows(ih, t)
    modifies ih
    ensures ih.Valid() && ih.pins == old(ih.pins)
    ensures answer == Answered(t.entries, op, t.lost) && Follows(ih, Next(ih.order, t, op))
  {
    hide Placed, Sound, Chained, Pairs, MapOf, Sorted, InRange, PutSorted, DropKey, Find, Scanned;
    ghost var e := ih.Entries();
    SoundLeaves(ih.order, ih.tower, ih.root);
    ghost var lost := t.lost;
    assert lost <==> ih.lastLeaf == IX_NO_PAGE by { KnownEnds(ih); }
    if |ih.tower| == 1 {
      OneLevel(ih);
    }
    match op {
      case Insert(key, rid) =>
        var page := ih.InsertEntry(key, rid);
        answer := Changed(page != IX_NO_PAGE);
        ReferenceIsMap(e, key, rid);
        Settle(ih, PutSorted(e, key, rid));
        if key !in MapOf(e) {
          HeldPage(ih, page, Pair(key, rid));
        }
        PutLength(e, key, rid);
      case Delete(key) =>
        var removed := ih.DeleteEntry(key);
        answer := Changed(removed);
        ReferenceIsMap(e, key, Rid(0, 0));
        assert key !in MapOf(e) ==> MapOf(e) - {key} == MapOf(e);
        Settle(ih, DropKey(e, key));
        DropLength(e, key);
        SoundLeaves(ih.order, ih.tower, ih.root);
        NoEntries(ih.Entries());
      case Lookup(key) =>
        var found := ih.GetValue(key);
        ReferenceIsMap(e, key, Rid(0, 0));
        answer := Found(if found == [] then None else Some(found[0]));
      case Range(low, high) =>
        var rids := ScanRange(ih, low, high);
        answer := Rows(rids);
    }
    if |ih.tower| == 1 {
      OneLevel(ih);
    }
  }

  lemma {:induction false} KnownEnds(ih: IxIndexHandle)
    requires ih.Valid()
    ensures ih.firstLeaf == IX_NO_PAGE <==> ih.lastLeaf == IX_NO_PAGE
    ensures ih.firstLeaf != IX_NO_PAGE ==>
        ih.firstLeaf == ih.tower[0][0].page && ih.lastLeaf == ih.tower[0][|ih.tower[0]| - 1].page
  {
    At(ih.order, ih.pages, ih.levelOf, ih.tower, ih.nextPage, 0, |ih.tower[0]| - 1);
  }

  lemma {:induction false} PutLength(e: seq<Pair>, key: Key, rid: Rid)
    ensures |PutSorted(e, key, rid)| <= |e| + 1
    ensures Find(e, key).None? ==> |PutSorted(e, key, rid)| == |e| + 1
  {
    if e != [] && e[0].key < key {
      PutLength(e[1..], key, rid);
    }
  }

  lemma {:induction false} DropLength(e: seq<Pair>, key: Key)
    ensures |DropKey(e, key)| <= |e|
    ensures Find(e, key).None? ==> DropKey(e, key) == e
  {
    if e != [] && e[0].key != key {
      DropLength(e[1..], key);
    }
  }

  lemma {:induction false} Settle(ih: IxIndexHandle, e: seq<Pair>)
    requires ih.Valid() && Sorted(e) && ih.Contents() == MapOf(e)
    ensures ih.Entries() == e
  {
    SortedUnique(ih.Entries(), e);
  }

  lemma {:induction false} HeldPage(ih: IxIndexHandle, page: int, pair: Pair)
    requires ih.Valid() && HeldIn(ih.tower[0], page, pair)
    ensures page != IX_NO_PAGE && page in ih.pages && ih.pages[page].isLeaf && pair in ih.pages[page].pairs
  {
    var k :| 0 <= k < |ih.tower[0]| && ih.tower[0][k].page == page && pair in ih.tower[0][k].node.pairs;
    At(ih.order, ih.pages, ih.levelOf, ih.tower, ih.nextPage, 0, k);
  }

  /**
    Every run of a fresh index answers as the reference does and leaves no page pinned. It ends with the first and the
    last leaf unknown exactly when a delete emptied the index before it ever outgrew one leaf.
   */
  method RunIndex(order: nat, ops: seq<Op>) returns (answers: seq<Answer>, ih: IxIndexHandle)
    requires order >= 3
    ensures answers == Answers(order, ops)
    ensures fresh(ih) && ih.Valid() && ih.Entries() == Tracked(order, ops).entries && ih.pins == multiset{}
    ensures Tracked(order, ops).lost <==> ih.firstLeaf == IX_NO_PAGE
    ensures !Tracked(order, ops).lost ==>
      ih.firstLeaf == ih.tower[0][0].page && ih.lastLeaf == ih.tower[0][|ih.tower[0]| - 1].page
  {
    hide Placed, Sound, Chained, Answered, Applied, InRange;
    ih := new IxIndexHandle(order);
    answers := [];
    SoundLeaves(ih.order, ih.tower, ih.root);
    NoEntries(ih.Entries());
    for i := 0 to |ops|
      invariant fresh(ih) && ih.Valid() && ih.order == order && ih.pins == multiset{}
      invariant answers == Answers(order, ops[..i]) && Follows(ih, Tracked(order, ops[..i]))
    {
      assert ops[..i + 1][..i] == ops[..i];
      var answer := Perform(ih, ops[i], Tracked(order, ops[..i]));
      answers := answers + [answer];
    }
    assert ops[..|ops|] == ops;
    KnownEnds(ih);
  }

  /** A scan from `leaf_begin` to `leaf_end` after any run. */
  method RunThenScanAll(order: nat, ops: seq<Op>) returns (out: seq<Rid>, ih: IxIndexHandle)
    requires order >= 3
    ensures fresh(ih) && ih.Valid() && ih.Entries() == Tracked(order, ops).entries
    ensures out == if Tracked(order, ops).lost then [] else Rids(Tracked(order, ops).entries)
  {
    hide Tracked, Placed, Sound, Chained;
    var answers;
    answers, ih := RunIndex(order, ops);
    out := ScanAll(ih);
  }

  /** A run in which no delete leaves the index empty keeps its first and last leaf. */
  lemma {:induction false} NeverEmptied(order: nat, ops: seq<Op>)
    requires forall n :: 0 <= n < |ops| && ops[n].Delete? ==>
        Tracked(order, ops[..n + 1]).entries != [] || Tracked(order, ops[..n]).entries == []
    ensures !Tracked(order, ops).lost
  {
    if ops != [] {
      var n := |ops| - 1;
      forall k | 0 <= k < n && ops[k].Delete?
        ensures Tracked(order, ops[..n][..k + 1]).entries != [] || Tracked(order, ops[..n][..k]).entries == []
      {
        assert ops[..n][..k + 1] == ops[..k + 1] && ops[..n][..k] == ops[..k];
      }
      NeverEmptied(order, ops[..n]);
      assert ops[..n + 1] == ops;
    }
  }

  /** Insert, delete, insert again: the index has an entry that the scan of everything does not see. */
  lemma {:induction false} EmptiedThenRefilled(order: nat, a: Key, b: Key, r: Rid, s: Rid)
    requires order >= 3
    ensures Tracked(order, [Insert(a, r), Delete(a), Insert(b, s)]) == Track([Pair(b, s)], false, true)
  {
    var ops := [Insert(a, r), Delete(a), Insert(b, s)];
    assert ops[..2][..1] == ops[..1] && ops[..1][..0] == [];
    assert Tracked(order, ops[..1]) == Next(order, Track([], false, false), ops[0]) == Track([Pair(a, r)], false,
        false);
    assert [Pair(a, r)][1..] == [];
    assert Tracked(order, ops[..2]) == Next(order, Tracked(order, ops[..1]), ops[1]) == Track([], false, true);
  }

  method RefilledButUnseen(order: nat, a: Key, b: Key, r: Rid, s: Rid) returns (out: seq<Rid>, ih: IxIndexHandle)
    requires order >= 3
    ensures fresh(ih) && ih.Valid() && ih.Entries() == [Pair(b, s)] && out == []
  {
    EmptiedThenRefilled(order, a, b, r, s);
    hide Tracked;
    out, ih := RunThenScanAll(order, [Insert(a, r), Delete(a), Insert(b, s)]);
  }
}

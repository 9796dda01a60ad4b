/**
  The index handle: search, insertion with recursive splitting, deletion with
  redistribution and merging, over the pages of the index file.
 */
module IxIndex {
  import opened IxLevels
  import opened IxTower

  // ---------- searching and editing the pairs of one node ----------

  /** First position whose key is not below the target. */
  method LowerBound(s: seq<Pair>, target: Key) returns (l: nat)
    requires Sorted(s)
    ensures IsLower(s, target, l)
  {
    l := 0;
    var r := |s|;
    while l < r
      invariant 0 <= l <= r <= |s|
      invariant forall i :: 0 <= i < l ==> s[i].key < target
      invariant forall i :: r <= i < |s| ==> target <= s[i].key
    {
      var mid := (l + r) / 2;
      if target <= s[mid].key {
        r := mid;
      } else {
        l := mid + 1;
      }
    }
  }

  /** First position whose key is above the target. */
  method UpperBound(s: seq<Pair>, target: Key) returns (l: nat)
    requires Sorted(s)
    ensures Upper(s, target, l)
  {
    l := 0;
    var r := |s|;
    while l < r
      invariant 0 <= l <= r <= |s|
      invariant forall i :: 0 <= i < l ==> s[i].key <= target
      invariant forall i :: r <= i < |s| ==> target < s[i].key
    {
      var mid := (l + r) / 2;
      if target < s[mid].key {
        r := mid;
      } else {
        l := mid + 1;
      }
    }
  }

  /** Position of a child in its parent. */
  method FindChild(pairs: seq<Pair>, child: int, ghost s: nat) returns (rank: nat)
    requires FirstChild(pairs, child, s)
    ensures rank == s
  {
    rank := 0;
    while rank < |pairs| && pairs[rank].rid.page_no != child
      invariant rank <= s
    {
      rank := rank + 1;
    }
  }

  // ---------- pin counts ----------

  function Unpin(pins: multiset<int>, p: int): multiset<int>
  {
    pins - multiset{p}
  }

  function Pin(pins: multiset<int>, p: int): (r: multiset<int>)
    ensures p in r && Unpin(r, p) == pins
  {
    pins + multiset{p}
  }

  lemma {:induction false} PinSwap(pins: multiset<int>, a: int, b: int)
    ensures a in Pin(Pin(pins, a), b) && Unpin(Pin(Pin(pins, a), b), a) == Pin(pins, b)
  {
  }

  datatype Operation = FIND | INSERT | DELETE

  /** The entry to follow: the first one, or the last one that does not start above the key, if any does not. */
  predicate Entered(pairs: seq<Pair>, key: Key, findFirst: bool, m: nat)
  {
    && m < |pairs|
    && if findFirst then m == 0
       else (m == 0 || pairs[m].key <= key) && (m + 1 < |pairs| ==> key < pairs[m + 1].key)
  }

  ghost predicate LeadsTo(pairs: seq<Pair>, key: Key, findFirst: bool, child: int)
  {
    exists m: nat :: Entered(pairs, key, findFirst, m) && pairs[m].rid.page_no == child
  }

  class IxIndexHandle {
    const order: nat

    // the pages of the file as seen through the buffer pool, and its pin counts
    var pages: map<int, Node>
    var pins: multiset<int>
    var nextPage: int

    // file header
    var root: int
    var firstLeaf: int
    var lastLeaf: int

    var rootLatched: bool

    ghost var tower: Tower
    ghost var levelOf: map<int, nat>

    /** `create_index` followed by `open_index`: the leaf header page and an empty root leaf. */
    constructor (order: nat)
      requires order >= 3
      ensures Valid() && this.order == order && Contents() == map[]
      ensures pins == multiset{} && firstLeaf == lastLeaf == IX_INIT_ROOT_PAGE && |tower| == 1
    {
      this.order := order;
      var leaf := Node(IX_NO_PAGE, true, IX_LEAF_HEADER_PAGE, IX_LEAF_HEADER_PAGE, []);
      pages := map[IX_LEAF_HEADER_PAGE := Node(IX_NO_PAGE, true, IX_INIT_ROOT_PAGE, IX_INIT_ROOT_PAGE, []),
                   IX_INIT_ROOT_PAGE := leaf];
      pins := multiset{};
      nextPage := 3;
      root, firstLeaf, lastLeaf := IX_INIT_ROOT_PAGE, IX_INIT_ROOT_PAGE, IX_INIT_ROOT_PAGE;
      rootLatched := false;
      tower := [[Cell(IX_INIT_ROOT_PAGE, leaf)]];
      levelOf := map[IX_INIT_ROOT_PAGE := 0];
      new;
      PairsOne(Cell(IX_INIT_ROOT_PAGE, leaf));
    }

    ghost predicate InPlace()
      reads this
    {
      && order >= 3 && |tower| > 0 && Inhabited(tower) && IX_LEAF_HEADER_PAGE in pages
      && Placed(order, pages, levelOf, tower, nextPage)
    }

    // ---------- buffer pool ----------

    method FetchNode(p: int)
      requires p in pages
      modifies `pins
      ensures pins == Pin(old(pins), p)
    {
      pins := Pin(pins, p);
    }

    method UnpinPage(p: int)
      requires p in pins
      modifies `pins
      ensures pins == Unpin(old(pins), p)
    {
      pins := Unpin(pins, p);
    }

    /** A zeroed page with a number that is not in use. */
    method CreateNode() returns (q: int)
      requires InPlace()
      modifies `pages, `pins, `nextPage
      ensures InPlace()
      ensures q !in old(pages) && q !in levelOf && q >= IX_INIT_ROOT_PAGE
      ensures pages == old(pages)[q := Node(0, false, 0, 0, [])]
      ensures pins == Pin(old(pins), q)
    {
      q := nextPage;
      AgreeOther(pages, levelOf, tower, q, Node(0, false, 0, 0, []));
      pages := pages[q := Node(0, false, 0, 0, [])];
      nextPage := nextPage + 1;
      pins := Pin(pins, q);
    }

    /** Writes a page that holds no node of the tower. */
    method WriteOther(p: int, n: Node)
      requires InPlace() && p in pages && (p < IX_INIT_ROOT_PAGE || p !in levelOf) && |n.pairs| <= order + 1
      modifies `pages
      ensures InPlace() && pages == old(pages)[p := n]
    {
      AgreeOther(pages, levelOf, tower, p, n);
      pages := pages[p := n];
    }

    /** A page becomes node `j` of level `i`. */
    ghost method AddCell(i: nat, j: nat, c: Cell)
      requires InPlace() && i < |tower| && j <= |tower[i]|
      requires c.page >= IX_INIT_ROOT_PAGE && c.page in pages && c.page !in levelOf
      requires pages[c.page] == c.node && c.node.isLeaf == (i == 0)
      modifies `tower, `levelOf
      ensures InPlace() && levelOf == old(levelOf)[c.page := i]
      ensures tower == old(tower)[i := InsertCell(old(tower)[i], j, c)]
    {
      AgreeInsert(pages, levelOf, tower, i, j, c);
      levelOf := levelOf[c.page := i];
      tower := tower[i := InsertCell(tower[i], j, c)];
    }

    /** A node leaves the tower; its page is no longer used. */
    ghost method DropCell(i: nat, j: nat)
      requires InPlace() && i < |tower| && j < |tower[i]| && |tower[i]| > 1
      modifies `tower
      ensures InPlace() && tower == old(tower)[i := Without(old(tower)[i], j)]
    {
      AgreeWithout(pages, levelOf, tower, i, j);
      tower := tower[i := Without(tower[i], j)];
    }

    /** A page becomes the new top of the tower. */
    ghost method AddRoot(c: Cell)
      requires InPlace()
      requires c.page >= IX_INIT_ROOT_PAGE && c.page in pages && c.page !in levelOf
      requires pages[c.page] == c.node && !c.node.isLeaf
      modifies `tower, `levelOf
      ensures InPlace() && levelOf == old(levelOf)[c.page := |old(tower)|]
      ensures tower == old(tower) + [[c]]
    {
      AgreeNewRoot(pages, levelOf, tower, c);
      levelOf := levelOf[c.page := |tower|];
      tower := tower + [[c]];
    }

    /** Writes node `j` of level `i` back to its page. */
    method WriteNode(p: int, n: Node, ghost i: nat, ghost j: nat)
      requires InPlace()
      requires i < |tower| && j < |tower[i]| && tower[i][j].page == p && n.isLeaf == (i == 0)
      requires |n.pairs| <= order + 1
      modifies `pages, `tower
      ensures InPlace()
      ensures pages == old(pages)[p := n] && tower == Put(old(tower), i, j, n)
    {
      AgreePut(pages, levelOf, tower, i, j, n);
      assert CellOk(pages, levelOf, i, tower[i][j]);
      pages := pages[p := n];
      tower := Put(tower, i, j, n);
    }

    method LockRoot()
      requires !rootLatched
      modifies `rootLatched
      ensures rootLatched
    {
      rootLatched := true;
    }

    /** Releasing a latch that is not held would be an error. */
    method UnlockRoot()
      requires rootLatched
      modifies `rootLatched
      ensures !rootLatched
    {
      rootLatched := false;
    }

    // ---------- search ----------

    /** The invariant between operations. */
    ghost predicate Valid()
      reads this
    {
      && InPlace() && Sound(order, tower, root)
      && Chained(pages[IX_LEAF_HEADER_PAGE], tower[0])
      && tower[0][0].page == IX_INIT_ROOT_PAGE
      && ( || (firstLeaf == lastLeaf == IX_NO_PAGE)
           || (firstLeaf == IX_INIT_ROOT_PAGE && lastLeaf == PageAt(tower[0], |tower[0]| - 1)))
      && !rootLatched
    }

    /** The child to enter on the way to `key`, or to the first leaf. */
    method InternalLookup(p: int, key: Key, findFirst: bool, ghost i: nat, ghost j: nat)
      returns (child: int, ghost j': nat)
      requires Placed(order, pages, levelOf, tower, nextPage) && Sound(order, tower, root)
      requires 0 < i < |tower| && j < |tower[i]| && tower[i][j].page == p
      requires if findFirst then j == 0 else Covers(tower[i], j, key)
      ensures j' < |tower[i - 1]| && tower[i - 1][j'].page == child
      ensures if findFirst then j' == 0 else Covers(tower[i - 1], j', key)
      ensures p in pages && LeadsTo(pages[p].pairs, key, findFirst, child)
    {
      At(order, pages, levelOf, tower, nextPage, i, j);
      hide Placed, Links, AllSized, Sorted, Chained;
      if findFirst {
        DescendFirst(order, tower, root, i);
        child, j' := pages[p].pairs[0].rid.page_no, 0;
        assert Entered(pages[p].pairs, key, true, 0);
      } else {
        AllSorted(tower, order, i);
        SortedSlice(tower[i], j);
        var pos := UpperBound(pages[p].pairs, key);
        var m := if pos == 0 then 0 else pos - 1;
        Descend(order, tower, root, i, j, key, pos, m);
        child, j' := pages[p].pairs[m].rid.page_no, Off(tower[i], j) + m;
        assert Entered(pages[p].pairs, key, false, m);
      }
    }

    method FindLeafPage(key: Key, operation: Operation, findFirst: bool)
      returns (p: int, isRootLocked: bool, ghost j: nat)
      requires Valid()
      modifies `pins, `rootLatched
      ensures isRootLocked == rootLatched == (operation != FIND)
      ensures p in pages && pins == Pin(old(pins), p)
      ensures j < |tower[0]| && tower[0][j] == Cell(p, pages[p]) && pages[p].isLeaf
      ensures if findFirst then j == 0 else Covers(tower[0], j, key)
    {
      hide Placed, Links, AllSized, Sorted, Chained, Pin, Unpin;
      isRootLocked := false;
      if operation == INSERT || operation == DELETE {
        LockRoot();
        isRootLocked := true;
      }
      p := root;
      ghost var i: nat := |tower| - 1;
      j := 0;
      At(order, pages, levelOf, tower, nextPage, i, j);
      FetchNode(p);
      while !pages[p].isLeaf
        invariant i < |tower| && j < |tower[i]|
        invariant CellOk(pages, levelOf, i, tower[i][j]) && tower[i][j].page == p
        invariant if findFirst then j == 0 else Covers(tower[i], j, key)
        invariant pins == Pin(old(pins), p) && rootLatched == isRootLocked
        decreases i
      {
        var child;
        child, j := InternalLookup(p, key, findFirst, i, j);
        i := i - 1;
        At(order, pages, levelOf, tower, nextPage, i, j);
        FetchNode(child);
        PinSwap(old(pins), p, child);
        UnpinPage(p);
        p := child;
      }
    }
    // ---------- maintenance of parents and children ----------

    /** Compares the entry of a node in its parent with the node's first key, and refreshes it. */
    method RefreshEntry(curr: int, ghost i: nat, ghost c: nat) returns (parent: int, same: bool, ghost d: nat)
      requires InPlace() && Topped(tower, root) && Links(tower, {i})
      requires i + 1 < |tower| && c < |tower[i]| && tower[i][c].page == curr && tower[i][c].node.pairs != []
      requires LinkedButKey(tower[i + 1], tower[i], c)
      modifies `pages, `tower, `pins
      ensures InPlace() && Topped(tower, root) && SameShape(old(tower), tower)
      ensures |tower| == |old(tower)| && tower[i] == old(tower)[i]
      ensures d < |tower[i + 1]| && tower[i + 1][d].page == parent && tower[i + 1][d].node.pairs != []
      ensures same ==> Links(tower, {})
      ensures !same ==> Links(tower, {i + 1}) && (i + 2 < |tower| ==> LinkedButKey(tower[i + 2], tower[i + 1], d))
      ensures i > 0 ==> tower[0] == old(tower)[0]
      ensures pages[IX_LEAF_HEADER_PAGE] == old(pages[IX_LEAF_HEADER_PAGE])
      ensures pins == Pin(old(pins), parent)
    {
      hide Placed, Links, LinkedButKey, SameShape, Off;
      At(order, pages, levelOf, tower, nextPage, i, c);
      SameShapeRefl(tower);
      ghost var s;
      d, s := ParentOf(order, pages, levelOf, tower, nextPage, i, c, tower[i]);
      parent := pages[curr].parent;
      FetchNode(parent);
      var pairs := pages[parent].pairs;
      var rank := FindChild(pairs, curr, s);
      var key := pages[curr].pairs[0].key;
      KeyStep(order, tower, root, i, c, d, s, key);
      same := pairs[rank].key == key;
      if !same {
        var n := pages[parent].(pairs := pairs[rank := pairs[rank].(key := key)]);
        SameShapePut(tower, tower, i + 1, d, n);
        At(order, pages, levelOf, tower, nextPage, i + 1, d);
        WriteNode(parent, n, i + 1, d);
      }
    }

    /** Copies the first key of a leaf upwards as long as it differs from the entry in the parent. */
    method MaintainParent(p: int, ghost j: nat)
      requires InPlace() && Topped(tower, root) && Links(tower, {0})
      requires j < |tower[0]| && tower[0][j].page == p && tower[0][j].node.pairs != []
      requires |tower| > 1 ==> LinkedButKey(tower[1], tower[0], j)
      modifies `pages, `tower, `pins
      ensures InPlace() && Topped(tower, root) && Links(tower, {})
      ensures tower[0] == old(tower)[0] && SameShape(old(tower), tower)
      ensures pages[IX_LEAF_HEADER_PAGE] == old(pages[IX_LEAF_HEADER_PAGE])
      ensures pins == old(pins)
    {
      hide Placed, Links, LinkedButKey, SameShape, Pin, Unpin;
      At(order, pages, levelOf, tower, nextPage, 0, j);
      SameShapeRefl(tower);
      var curr := p;
      ghost var i: nat, c: nat := 0, j;
      while pages[curr].parent != IX_NO_PAGE
        invariant i < |tower| && c < |tower[i]| && tower[i][c].page == curr && tower[i][c].node.pairs != []
        invariant CellOk(pages, levelOf, i, tower[i][c]) && (curr == p <==> i == 0)
        invariant InPlace() && Topped(tower, root) && Links(tower, {i})
        invariant i + 1 < |tower| ==> LinkedButKey(tower[i + 1], tower[i], c)
        invariant tower[0] == old(tower)[0] && SameShape(old(tower), tower)
        invariant pages[IX_LEAF_HEADER_PAGE] == old(pages[IX_LEAF_HEADER_PAGE])
        invariant pins == (if curr == p then old(pins) else Pin(old(pins), curr))
        decreases |tower| - i
      {
        ghost var before := tower;
        var parent, same;
        ghost var d;
        parent, same, d := RefreshEntry(curr, i, c);
        SameShapeTrans(old(tower), before, tower);
        At(order, pages, levelOf, tower, nextPage, i + 1, d);
        if curr != p {
          PinSwap(old(pins), curr, parent);
          UnpinPage(curr);
        }
        if same {
          At(order, pages, levelOf, tower, nextPage, i, c);
          UnpinPage(parent);
          break;
        }
        curr := parent;
        i, c := i + 1, d;
      }
      if curr != p && pages[curr].parent == IX_NO_PAGE {
        UnpinPage(curr);
      }
      if pages[curr].parent == IX_NO_PAGE {
        MaintainEnd(order, pages, levelOf, tower, nextPage, i, c);
      }
    }

    /** Sets the parent field of child `k` of a node to that node. */
    method MaintainChild(p: int, k: nat, ghost i: nat, ghost j: nat, ghost x: nat)
      requires InPlace()
      requires i < |tower| && j < |tower[i]| && tower[i][j].page == p && k < |tower[i][j].node.pairs|
      requires i > 0 ==> x < |tower[i - 1]| && tower[i - 1][x].page == tower[i][j].node.pairs[k].rid.page_no
      modifies `pages, `tower, `pins
      ensures InPlace() && pins == old(pins)
      ensures i == 0 ==> tower == old(tower) && pages == old(pages)
      ensures i > 0 ==> tower == Put(old(tower), i - 1, x, old(tower)[i - 1][x].node.(parent := p))
      ensures pages[IX_LEAF_HEADER_PAGE] == old(pages[IX_LEAF_HEADER_PAGE])
    {
      hide Placed;
      At(order, pages, levelOf, tower, nextPage, i, j);
      if !pages[p].isLeaf {
        var child := pages[p].pairs[k].rid.page_no;
        At(order, pages, levelOf, tower, nextPage, i - 1, x);
        FetchNode(child);
        WriteNode(child, pages[child].(parent := p), i - 1, x);
        UnpinPage(child);
      }
    }

    /** Adopts the children `from ..` of a node, as `split` and `coalesce` do. */
    method MaintainChildren(p: int, from: nat, ghost i: nat, ghost j: nat, ghost off: nat)
      requires InPlace()
      requires 0 < i < |tower| && j < |tower[i]| && tower[i][j].page == p
      requires from <= |tower[i][j].node.pairs| && off + |tower[i][j].node.pairs| <= |tower[i - 1]|
      requires forall k :: from <= k < |tower[i][j].node.pairs| ==>
                 tower[i][j].node.pairs[k].rid.page_no == tower[i - 1][off + k].page
      modifies `pages, `tower, `pins
      ensures InPlace() && pins == old(pins)
      ensures tower == old(tower)[i - 1 := Adopt(old(tower)[i - 1], off + from, off + |old(tower)[i][j].node.pairs|, p)]
      ensures pages[IX_LEAF_HEADER_PAGE] == old(pages[IX_LEAF_HEADER_PAGE])
    {
      hide Placed, Adopt;
      At(order, pages, levelOf, tower, nextPage, i, j);
      ghost var below := tower[i - 1];
      ghost var n := |tower[i][j].node.pairs|;
      AdoptNone(below, off + from, p);
      var k := from;
      while k < |pages[p].pairs|
        invariant from <= k <= n && InPlace() && pins == old(pins)
        invariant tower == old(tower)[i - 1 := Adopt(below, off + from, off + k, p)]
        invariant CellOk(pages, levelOf, i, tower[i][j])
        invariant pages[IX_LEAF_HEADER_PAGE] == old(pages[IX_LEAF_HEADER_PAGE])
      {
        AdoptMod(below, off + from, off + k, p);
        assert ModParentAt(below[off + k], tower[i - 1][off + k]);
        AdoptNext(below, off + from, off + k, p);
        MaintainChild(p, k, i, j, off + k);
        At(order, pages, levelOf, tower, nextPage, i, j);
        k := k + 1;
      }
    }

    // ---------- insertion ----------

    /** Links a new leaf page between a leaf and its successor in the chain. */
    method LinkNewLeaf(p: int, q: int, ghost j: nat)
      requires InPlace() && j < |tower[0]| && tower[0][j].page == p && Chained(pages[IX_LEAF_HEADER_PAGE], tower[0])
      requires q in pages && q !in levelOf && q >= IX_INIT_ROOT_PAGE
      modifies `pages, `tower, `pins
      ensures InPlace() && pins == old(pins) && pages.Keys == old(pages.Keys)
      ensures tower == old(tower)[0 := tower[0]] && SameEntries(old(tower)[0], tower[0])
      ensures pages[q] == old(pages[q]).(prev := p, next := old(pages)[p].next)
      ensures Chained(pages[IX_LEAF_HEADER_PAGE], InsertCell(tower[0], j + 1, Cell(q, pages[q])))
    {
      hide Placed, Chained, Pin, Unpin;
      At(order, pages, levelOf, tower, nextPage, 0, j);
      ghost var header, leaves := pages[IX_LEAF_HEADER_PAGE], tower[0];
      var nx := pages[p].next;
      Neighbours(header, leaves, j);
      Fits(order, pages, levelOf, tower, nextPage, q);
      WriteOther(q, pages[q].(prev := p, next := nx));
      WriteNode(p, pages[p].(next := q), 0, j);
      if j + 1 < |leaves| {
        At(order, pages, levelOf, tower, nextPage, 0, j + 1);
      }
      FetchNode(nx);
      if nx == IX_LEAF_HEADER_PAGE {
        Fits(order, pages, levelOf, tower, nextPage, nx);
        WriteOther(nx, pages[nx].(prev := q));
      } else {
        WriteNode(nx, pages[nx].(prev := q), 0, j + 1);
      }
      UnpinPage(nx);
      ChainInsert(header, leaves, j, q, pages[q], pages[IX_LEAF_HEADER_PAGE], tower[0]);
    }

    /** Moves the upper pairs of a full node to a new right sibling; its children are not told yet. */
    method SplitOff(p: int, ghost i: nat, ghost j: nat) returns (q: int, ghost level: Level, ghost right: Cell)
      requires InPlace() && i < |tower| && j < |tower[i]| && tower[i][j].page == p
      requires |tower[i][j].node.pairs| == order + 1
      requires Chained(pages[IX_LEAF_HEADER_PAGE], tower[0])
      modifies `pages, `tower, `levelOf, `nextPage, `pins
      ensures InPlace() && SameEntries(old(tower)[i], level)
      ensures j < |level| && |level[j].node.pairs| == order + 1
      ensures right.page == q && right.node.parent == level[j].node.parent
      ensures right.node.pairs == level[j].node.pairs[MinSize(order)..]
      ensures tower == old(tower)[i := SplitLevel(level, j, MinSize(order), right)]
      ensures Chained(pages[IX_LEAF_HEADER_PAGE], tower[0])
      ensures pins == Pin(old(pins), q)
    {
      hide Placed, Chained, Pin, Unpin, SameEntries;
      ghost var tower0 := tower;
      At(order, pages, levelOf, tower, nextPage, i, j);
      q := CreateNode();
      var splitPoint := MinSize(order);
      SameEntriesRefl(tower[i]);
      if pages[p].isLeaf {
        LinkNewLeaf(p, q, j);
      }
      level := tower[i];
      SameEntriesAt(tower0[i], level, j);
      At(order, pages, levelOf, tower, nextPage, i, j);
      var n := pages[q].(isLeaf := pages[p].isLeaf, parent := pages[p].parent, pairs := pages[p].pairs[splitPoint..]);
      right := Cell(q, n);
      ghost var chained := if i == 0 then InsertCell(tower[0], j + 1, Cell(q, pages[q])) else [];
      WriteOther(q, n);
      WriteNode(p, pages[p].(pairs := pages[p].pairs[..splitPoint]), i, j);
      AddCell(i, j + 1, right);
      if i == 0 {
        SameLinksChained(pages[IX_LEAF_HEADER_PAGE], chained, tower[0]);
      }
    }

    /** Splits a full node in two; the new right sibling stays pinned. */
    method Split(p: int, ghost i: nat, ghost j: nat) returns (q: int)
      requires InPlace() && Overfull(order, tower, root, i, j) && tower[i][j].page == p
      requires Chained(pages[IX_LEAF_HEADER_PAGE], tower[0])
      modifies `pages, `tower, `levelOf, `nextPage, `pins
      ensures InPlace() && Pending(order, tower, root, i, j)
      ensures SplitDone(old(tower), tower, i, j, p, q)
      ensures |tower[i][j].node.pairs| <= |tower[i][j + 1].node.pairs| <= |tower[i][j].node.pairs| + 1
      ensures Chained(pages[IX_LEAF_HEADER_PAGE], tower[0])
      ensures pins == Pin(old(pins), q)
    {
      hide Placed, Chained, Pin, Unpin, Pending, Links, AllSizedBut, SameEntries, Linked, Off, SplitDone, SplitLevel,
          Adopt;
      ghost var tower0 := tower;
      ghost var level, right;
      q, level, right := SplitOff(p, i, j);
      ghost var m := MinSize(order);
      if i > 0 {
        LinkAt(tower0, i - 1);
        SameEntriesPairs(tower0[i], level);
        LinkedSame(tower0[i], level, tower0[i - 1]);
        Kids(level, tower0[i - 1], j);
      }
      SplitPending(order, tower0, root, i, j, level, right);
      SplitSummary(tower0, level, i, j, m, right);
      SplitCells(level, j, m, right);
      At(order, pages, levelOf, tower, nextPage, i, j + 1);
      if !pages[q].isLeaf {
        SplitEntries(level, j, m, right);
        MaintainChildren(q, 0, i, j + 1, Off(level, j) + m);
        assert tower == SplitTower(tower0, level, i, j, m, right);
        if i == 1 {
          AdoptMod(tower0[0], Off(level, j) + m, Off(level, j) + |level[j].node.pairs|, q);
          ModParentChained(pages[IX_LEAF_HEADER_PAGE], tower0[0], tower[0]);
        }
      }
    }

    /** Puts a new root above the two halves of the old root. */
    method GrowRoot(old_: int, key: Key, new_: int, ghost i: nat)
      requires InPlace() && Pending(order, tower, root, i, 0) && i + 1 == |tower|
      requires tower[i][0].page == old_ && tower[i][1].page == new_ && key == tower[i][1].node.pairs[0].key
      requires Chained(pages[IX_LEAF_HEADER_PAGE], tower[0])
      modifies `pages, `tower, `levelOf, `nextPage, `pins, `root
      ensures InPlace() && Links(tower, {}) && Topped(tower, root) && AllSized(tower, order)
      ensures |tower| == |old(tower)| + 1
      ensures forall k :: 0 <= k < i ==> tower[k] == old(tower)[k]
      ensures ModParent(old(tower)[i], tower[i])
      ensures Chained(pages[IX_LEAF_HEADER_PAGE], tower[0])
      ensures pins == old(pins)
    {
      hide Placed, Chained, Pin, Unpin, Links, AllSized, Linked;
      ghost var tower0, header := tower, pages[IX_LEAF_HEADER_PAGE];
      At(order, pages, levelOf, tower, nextPage, i, 0);
      At(order, pages, levelOf, tower, nextPage, i, 1);
      var newRoot := CreateNode();
      var n := Node(IX_NO_PAGE, false, IX_NO_PAGE, IX_NO_PAGE,
                    [Pair(pages[old_].pairs[0].key, Rid(old_, -1)), Pair(key, Rid(new_, -1))]);
      WriteOther(newRoot, n);
      WriteNode(old_, pages[old_].(parent := newRoot), i, 0);
      At(order, pages, levelOf, tower, nextPage, i, 1);
      WriteNode(new_, pages[new_].(parent := newRoot), i, 1);
      NewRoot(order, tower0, root, i, Cell(newRoot, n), tower[i]);
      assert pages[IX_LEAF_HEADER_PAGE] == header;
      if i == 0 {
        ModParentChained(header, tower0[0], tower[0]);
      }
      AddRoot(Cell(newRoot, n));
      assert tower == tower0[i := tower[i]] + [[Cell(newRoot, n)]];
      root := newRoot;
      UnpinPage(newRoot);
    }

    /** Puts the entry of a new node behind the entry of the node it was split from. */
    method RegisterNode(parent: int, old_: int, key: Key, new_: int, ghost i: nat, ghost j: nat, ghost d: nat,
        ghost s: nat)
      requires InPlace() && Pending(order, tower, root, i, j) && i + 1 < |tower|
      requires tower[i][j].page == old_ && tower[i][j + 1].page == new_ && key == tower[i][j + 1].node.pairs[0].key
      requires d < |tower[i + 1]| && tower[i + 1][d].page == tower[i][j].node.parent == parent
      requires s < |tower[i + 1][d].node.pairs| && Off(tower[i + 1], d) + s == j &&
          FirstChild(tower[i + 1][d].node.pairs, old_, s)
      modifies `pages, `tower
      ensures InPlace() && Links(tower, {}) && Topped(tower, root)
      ensures |tower| == |old(tower)| && forall k :: 0 <= k < |tower| && k != i + 1 ==> tower[k] == old(tower)[k]
      ensures d < |tower[i + 1]| && parent in pages && tower[i + 1][d] == Cell(parent, pages[parent])
      ensures if |pages[parent].pairs| == order + 1 then Overfull(order, tower, root, i + 1, d)
          else AllSized(tower, order)
      ensures IX_LEAF_HEADER_PAGE in pages && pages[IX_LEAF_HEADER_PAGE] == old(pages)[IX_LEAF_HEADER_PAGE]
    {
      At(order, pages, levelOf, tower, nextPage, i + 1, d);
      hide Placed, Links, AllSized, Linked, Off, AllSizedBut;
      var rank := FindChild(pages[parent].pairs, old_, s);
      var pair := Pair(key, Rid(new_, -1));
      Register(order, tower, root, i, j, d, s, pair);
      WriteNode(parent, pages[parent].(pairs := InsertPairs(pages[parent].pairs, rank + 1, [pair])), i + 1, d);
      At(order, pages, levelOf, tower, nextPage, i + 1, d);
    }

    /** Registers a new right sibling with the parent, splitting upwards as long as parents fill up. */
    method InsertIntoParent(old_: int, key: Key, new_: int, ghost i: nat, ghost j: nat)
      requires InPlace() && Pending(order, tower, root, i, j)
      requires tower[i][j].page == old_ && tower[i][j + 1].page == new_ && key == tower[i][j + 1].node.pairs[0].key
      requires Chained(pages[IX_LEAF_HEADER_PAGE], tower[0])
      modifies `pages, `tower, `levelOf, `nextPage, `pins, `root
      ensures InPlace() && Links(tower, {}) && Topped(tower, root) && AllSized(tower, order)
      ensures |tower| >= |old(tower)|
      ensures forall k :: 0 <= k < i ==> tower[k] == old(tower)[k]
      ensures ModParent(old(tower)[i], tower[i])
      ensures Chained(pages[IX_LEAF_HEADER_PAGE], tower[0])
      ensures pins == old(pins)
      decreases |tower| - i
    {
      hide Placed, Chained, Pin, Unpin, Links, AllSized, Off, ModParent, Topped, Overfull, InsertPairs;
      At(order, pages, levelOf, tower, nextPage, i, j);
      if i + 1 < |tower| {
        ghost var d, s := PendingParent(order, pages, levelOf, tower, nextPage, root, i, j);
      }
      if pages[old_].parent == IX_NO_PAGE {
        GrowRoot(old_, key, new_, i);
      } else {
        ghost var d, s := PendingParent(order, pages, levelOf, tower, nextPage, root, i, j);
        ghost var tower0 := tower;
        var parent := pages[old_].parent;
        FetchNode(parent);
        RegisterNode(parent, old_, key, new_, i, j, d, s);
        ModParentRefl(tower[i]);
        if |pages[parent].pairs| == order + 1 {
          var sibling := Split(parent, i + 1, d);
          At(order, pages, levelOf, tower, nextPage, i + 1, d + 1);
          InsertIntoParent(parent, pages[sibling].pairs[0].key, sibling, i + 1, d);
          UnpinPage(sibling);
        }
        UnpinPage(parent);
      }
    }

    // ---------- the index as a finite map ----------

    ghost function Entries(): seq<Pair>
      requires Valid()
      reads this
    {
      Pairs(tower[0])
    }

    /** The keys and record positions that the index holds. */
    ghost function Contents(): map<Key, Rid>
      requires Valid()
      reads this
    {
      MapOf(Pairs(tower[0]))
    }

    /** Inserts into a leaf and maintains first keys; the leaf may end up one pair over its limit. */
    method InsertInLeaf(p: int, key: Key, rid: Rid, ghost j: nat) returns (inserted: bool)
      requires InPlace() && Sound(order, tower, root) && Chained(pages[IX_LEAF_HEADER_PAGE], tower[0])
      requires Covers(tower[0], j, key) && tower[0][j].page == p
      modifies `pages, `tower, `pins
      ensures inserted == (key !in MapOf(Pairs(old(tower)[0])))
      ensures !inserted ==> pages == old(pages) && tower == old(tower)
      ensures InPlace() && Links(tower, {}) && Topped(tower, root) && Sorted(Pairs(tower[0]))
      ensures Chained(pages[IX_LEAF_HEADER_PAGE], tower[0])
      ensures |tower| == |old(tower)| && SamePages(old(tower)[0], tower[0])
      ensures inserted ==> MapOf(Pairs(tower[0])) == MapOf(Pairs(old(tower)[0]))[key := rid]
      ensures inserted ==> j < |tower[0]| && AllSizedBut(tower, order, 0, j) && Pair(key, rid) in tower[0][j].node.pairs
      ensures inserted ==> j < |old(tower)[0]| && |tower[0][j].node.pairs| == |old(tower)[0][j].node.pairs| + 1
      ensures inserted ==>
          |tower[0][j].node.pairs| <= order + 1 && (|tower[0][j].node.pairs| <= order ==> AllSized(tower, order))
      ensures pins == old(pins)
    {
      hide Placed, Links, Sorted, AllSized, AllSizedBut, Linked, LinkedButKey, Off, MapOf, Chained, SameShape, Covers;
      ghost var tower0 := tower;
      ghost var leaves := tower[0];
      CoversCell(leaves, j, key);
      At(order, pages, levelOf, tower, nextPage, 0, j);
      SortedSlice(leaves, j);
      var pairs := pages[p].pairs;
      var pos := LowerBound(pairs, key);
      LookupInLevel(leaves, j, key, pos);
      if pos < |pairs| && pairs[pos].key == key {
        return false;
      }
      inserted := true;
      var n := pages[p].(pairs := InsertPairs(pairs, pos, [Pair(key, rid)]));
      LowerInLevel(leaves, j, key, pos);
      LevelInsert(leaves, j, pos, n, Pair(key, rid));
      MapInsert(Pairs(leaves), Off(leaves, j) + pos, key, rid);
      LeafEdit(tower, root, j, n);
      GrowSized(tower, order, 0, j, n);
      LeafLinks(pages[IX_LEAF_HEADER_PAGE], leaves, j, n);
      assert n.pairs[pos] == Pair(key, rid);
      WriteNode(p, n, 0, j);
      if pos == 0 {
        ghost var edited := tower;
        MaintainParent(p, j);
        SameShapeSized(edited, tower, order, 0, j);
        SameShapeAllSized(edited, tower, order);
      }
    }

    /** Splits a full leaf and registers the new one. */
    method SplitLeaf(p: int, ghost j: nat) returns (q: int)
      requires InPlace() && Overfull(order, tower, root, 0, j) && tower[0][j].page == p
      requires Chained(pages[IX_LEAF_HEADER_PAGE], tower[0])
      modifies `pages, `tower, `levelOf, `nextPage, `pins, `root, `lastLeaf
      ensures InPlace() && Links(tower, {}) && Topped(tower, root) && AllSized(tower, order)
      ensures Chained(pages[IX_LEAF_HEADER_PAGE], tower[0])
      ensures |tower[0]| == |old(tower)[0]| + 1 && tower[0][j].page == p && tower[0][j + 1].page == q
      ensures tower[0][j].node.pairs + tower[0][j + 1].node.pairs == old(tower)[0][j].node.pairs &&
          tower[0][j + 1].node.pairs != []
      ensures forall k :: 0 <= k < j ==> tower[0][k].page == old(tower)[0][k].page
      ensures forall k :: j + 1 < k < |tower[0]| ==> tower[0][k].page == old(tower)[0][k - 1].page
      ensures Pairs(tower[0]) == Pairs(old(tower)[0]) && |tower| >= |old(tower)|
      ensures lastLeaf == (if p == old(lastLeaf) then q else old(lastLeaf))
      ensures pins == Pin(old(pins), q)
    {
      hide Placed, Links, AllSized, AllSizedBut, Linked, Off, Chained, Pin, Unpin, ModParent;
      q := Split(p, 0, j);
      if p == lastLeaf {
        lastLeaf := q;
      }
      At(order, pages, levelOf, tower, nextPage, 0, j + 1);
      ghost var leaves := tower[0];
      InsertIntoParent(p, pages[q].pairs[0].key, q, 0, j);
      ModParentPairs(leaves, tower[0]);
      ModParentPages(leaves, tower[0]);
      ModParentCell(leaves, tower[0], j);
      ModParentCell(leaves, tower[0], j + 1);
    }

    /** Which of the two halves of a split leaf holds the pair. */
    method HalfWith(p: int, q: int, pair: Pair, ghost j: nat) returns (page: int)
      requires InPlace() && Sorted(Pairs(tower[0])) && j + 1 < |tower[0]|
      requires tower[0][j].page == p && tower[0][j + 1].page == q && tower[0][j + 1].node.pairs != []
      requires pair in tower[0][j].node.pairs + tower[0][j + 1].node.pairs
      ensures HeldIn(tower[0], page, pair)
    {
      hide Placed, Sorted;
      At(order, pages, levelOf, tower, nextPage, 0, j + 1);
      SortedSlice(tower[0], j + 1);
      var pos := LowerBound(pages[q].pairs, pair.key);
      WhichHalf(tower[0], j, pair, pos);
      page := if pages[q].pairs[pos].key == pair.key then q else p;
      assert tower[0][if page == q then j + 1 else j].page == page;
    }

    /** Inserts into a pinned leaf, splitting it when it fills up; returns the page that holds the pair. */
    method InsertAt(leaf: int, key: Key, rid: Rid, ghost j: nat) returns (page: int)
      requires InPlace() && Sound(order, tower, root) && Chained(pages[IX_LEAF_HEADER_PAGE], tower[0])
      requires Covers(tower[0], j, key) && tower[0][j].page == leaf && LastOk(lastLeaf, tower[0])
      modifies `pages, `tower, `levelOf, `nextPage, `pins, `root, `lastLeaf
      ensures InPlace() && Sound(order, tower, root) && Chained(pages[IX_LEAF_HEADER_PAGE], tower[0])
      ensures tower[0][0].page == old(tower)[0][0].page
      ensures LastOk(lastLeaf, tower[0]) && (lastLeaf == IX_NO_PAGE <==> old(lastLeaf) == IX_NO_PAGE)
      ensures key in MapOf(Pairs(old(tower)[0])) ==>
        && page == IX_NO_PAGE && pages == old(pages) && tower == old(tower) && root == old(root)
        && lastLeaf == old(lastLeaf)
      ensures key !in MapOf(Pairs(old(tower)[0])) ==>
        && MapOf(Pairs(tower[0])) == MapOf(Pairs(old(tower)[0]))[key := rid]
        && HeldIn(tower[0], page, Pair(key, rid))
      ensures pins == old(pins) && |tower| >= |old(tower)|
      ensures j < |old(tower)[0]| && |old(tower)[0][j].node.pairs| < order ==> |tower| == |old(tower)|
    {
      hide Placed, Links, Sorted, AllSized, AllSizedBut, Off, Chained, Pin, Unpin, Covers, MapOf, Pairs;
      var inserted := InsertInLeaf(leaf, key, rid, j);
      if !inserted {
        return IX_NO_PAGE;
      }
      At(order, pages, levelOf, tower, nextPage, 0, j);
      At(order, pages, levelOf, tower, nextPage, 0, |tower[0]| - 1);
      if |pages[leaf].pairs| == order + 1 {
        var sibling := SplitLeaf(leaf, j);
        At(order, pages, levelOf, tower, nextPage, 0, j + 1);
        page := HalfWith(leaf, sibling, Pair(key, rid), j);
        UnpinPage(sibling);
      } else {
        page := leaf;
        assert tower[0][j].page == page;
      }
    }

    /** The leaf that covers the key can take one more pair without a split. */
    ghost predicate LeafHasRoom(key: Key)
      requires |tower| > 0
      reads this
    {
      forall j: nat :: j < |tower[0]| && Covers(tower[0], j, key) ==> |tower[0][j].node.pairs| < order
    }

    /** Adds a pair unless its key is present; returns the leaf page that holds it, or IX_NO_PAGE. */
    method InsertEntry(key: Key, rid: Rid) returns (page: int)
      requires Valid()
      modifies this
      ensures Valid()
      ensures key in old(Contents()) ==> page == IX_NO_PAGE && Contents() == old(Contents())
      ensures key in old(Contents()) ==>
          pages == old(pages) && tower == old(tower) && root == old(root) && lastLeaf == old(lastLeaf)
      ensures key !in old(Contents()) ==>
          Contents() == old(Contents())[key := rid] && HeldIn(tower[0], page, Pair(key, rid))
      ensures |tower| >= |old(tower)| && (old(LeafHasRoom(key)) ==> |tower| == |old(tower)|)
      ensures pins == old(pins) && firstLeaf == old(firstLeaf) &&
          (lastLeaf == IX_NO_PAGE <==> old(lastLeaf) == IX_NO_PAGE)
    {
      hide Placed, Sound, Chained, Pin, Unpin, Covers, MapOf, Pairs, HeldIn;
      At(order, pages, levelOf, tower, nextPage, 0, |tower[0]| - 1);
      var leaf, isRootLocked;
      ghost var j;
      leaf, isRootLocked, j := FindLeafPage(key, INSERT, false);
      page := InsertAt(leaf, key, rid, j);
      UnpinPage(leaf);
      if isRootLocked {
        UnlockRoot();
      }
    }

    // ---------- deletion ----------

    /** Puts new pairs into two siblings and the first key of the right one into their parent. */
    method WriteSiblings(left: int, right: int, parent: int, rank: nat, x: seq<Pair>, y: seq<Pair>,
        ghost i: nat, ghost a: nat, ghost d: nat)
      requires InPlace() && Siblings(tower, i, a, d, rank)
      requires tower[i][a].page == left && tower[i][a + 1].page == right && tower[i + 1][d].page == parent
      requires |x| <= order + 1 && 0 < |y| <= order + 1
      modifies `pages, `tower
      ensures InPlace() && pages[IX_LEAF_HEADER_PAGE] == old(pages)[IX_LEAF_HEADER_PAGE]
      ensures var t, n := old(tower), old(tower)[i + 1][d].node;
              && i + 1 < |t| && a + 1 < |t[i]| && d < |t[i + 1]| && rank + 1 < |n.pairs|
              && tower == Put(Put(Put(t, i, a + 1, t[i][a + 1].node.(pairs := y)), i, a, t[i][a].node.(pairs := x)),
                              i + 1, d, n.(pairs := n.pairs[rank + 1 := n.pairs[rank + 1].(key := y[0].key)]))
    {
      At(order, pages, levelOf, tower, nextPage, i + 1, d);
      At(order, pages, levelOf, tower, nextPage, i, a);
      At(order, pages, levelOf, tower, nextPage, i, a + 1);
      hide Placed, Off;
      WriteNode(right, pages[right].(pairs := y), i, a + 1);
      WriteNode(left, pages[left].(pairs := x), i, a);
      var pairs := pages[parent].pairs;
      WriteNode(parent,
          pages[parent].(pairs := pairs[rank + 1 := pairs[rank + 1].(key := pages[right].pairs[0].key)]), i + 1, d);
    }

    /** The left of two siblings takes the first pair of the right one. */
    method BorrowFromRight(left: int, right: int, parent: int, rank: nat, ghost i: nat, ghost a: nat, ghost d: nat)
      requires InPlace() && Thin(order, tower, root, i, a) && Siblings(tower, i, a, d, rank)
      requires tower[i][a].page == left && tower[i][a + 1].page == right && tower[i + 1][d].page == parent
      requires |tower[i][a].node.pairs| < MinSize(order)
      requires |tower[i][a].node.pairs| + |tower[i][a + 1].node.pairs| >= 2 * MinSize(order)
      modifies `pages, `tower, `pins
      ensures InPlace() && Links(tower, {}) && Topped(tower, root) && AllSized(tower, order)
      ensures |tower| == |old(tower)| && Pairs(tower[0]) == Pairs(old(tower)[0]) && SamePages(old(tower)[0], tower[0])
      ensures Chained(old(pages[IX_LEAF_HEADER_PAGE]), old(tower)[0]) ==> Chained(pages[IX_LEAF_HEADER_PAGE], tower[0])
      ensures i < |tower| && MovedOne(old(tower)[i], tower[i], a, true)
      ensures pins == old(pins)
    {
      hide Placed, Links, Topped, AllSized, Chained, Thin, Off, Pairs, RechunkTower, InsertPairs, ErasePair, SamePages,
          MovedOne;
      ghost var t0: Tower, header: Node := tower, pages[IX_LEAF_HEADER_PAGE];
      ghost var x, y, from := ShiftLeft(order, tower, root, i, a, d, rank);
      At(order, pages, levelOf, tower, nextPage, i, a);
      At(order, pages, levelOf, tower, nextPage, i, a + 1);
      var l, r := pages[left].pairs, pages[right].pairs;
      EndPairs(l, r[0]);
      EndPairs(r, r[0]);
      WriteSiblings(left, right, parent, rank, InsertPairs(l, |l|, [r[0]]), ErasePair(r, 0), i, a, d);
      At(order, pages, levelOf, tower, nextPage, i, a);
      MaintainChild(left, |pages[left].pairs| - 1, i, a, from);
      ghost var n: Node := t0[i + 1][d].node;
      RechunkDone(t0, tower, i, a, x, y, d, n.(pairs := n.pairs[rank + 1 := n.pairs[rank + 1].(key := y[0].key)]),
          from, left, header, true);
    }

    /** The right of two siblings takes the last pair of the left one. */
    method BorrowFromLeft(left: int, right: int, parent: int, rank: nat, ghost i: nat, ghost a: nat, ghost d: nat)
      requires InPlace() && Thin(order, tower, root, i, a + 1) && Siblings(tower, i, a, d, rank)
      requires tower[i][a].page == left && tower[i][a + 1].page == right && tower[i + 1][d].page == parent
      requires |tower[i][a + 1].node.pairs| < MinSize(order)
      requires |tower[i][a].node.pairs| + |tower[i][a + 1].node.pairs| >= 2 * MinSize(order)
      modifies `pages, `tower, `pins
      ensures InPlace() && Links(tower, {}) && Topped(tower, root) && AllSized(tower, order)
      ensures |tower| == |old(tower)| && Pairs(tower[0]) == Pairs(old(tower)[0]) && SamePages(old(tower)[0], tower[0])
      ensures Chained(old(pages[IX_LEAF_HEADER_PAGE]), old(tower)[0]) ==> Chained(pages[IX_LEAF_HEADER_PAGE], tower[0])
      ensures i < |tower| && MovedOne(old(tower)[i], tower[i], a, false)
      ensures pins == old(pins)
    {
      hide Placed, Links, Topped, AllSized, Chained, Thin, Off, Pairs, RechunkTower, InsertPairs, ErasePair, SamePages,
          MovedOne;
      ghost var t0: Tower, header: Node := tower, pages[IX_LEAF_HEADER_PAGE];
      ghost var x, y, from := ShiftRight(order, tower, root, i, a, d, rank);
      At(order, pages, levelOf, tower, nextPage, i, a);
      At(order, pages, levelOf, tower, nextPage, i, a + 1);
      var l, r := pages[left].pairs, pages[right].pairs;
      var last := l[|l| - 1];
      EndPairs(r, last);
      EndPairs(l, last);
      WriteSiblings(left, right, parent, rank, ErasePair(l, |l| - 1), InsertPairs(r, 0, [last]), i, a, d);
      MaintainChild(right, 0, i, a + 1, from);
      ghost var n: Node := t0[i + 1][d].node;
      RechunkDone(t0, tower, i, a, x, y, d, n.(pairs := n.pairs[rank + 1 := n.pairs[rank + 1].(key := y[0].key)]),
          from, right, header, false);
    }

    /** Evens out a node that is one pair short with a sibling that can spare one. */
    method Redistribute(neighbor: int, node: int, parent: int, index: nat, ghost i: nat, ghost j: nat, ghost d: nat)
      requires InPlace() && Thin(order, tower, root, i, j) && tower[i][j].page == node
      requires |tower[i][j].node.pairs| < MinSize(order)
      requires index == 0 ==> && Siblings(tower, i, j, d, 0) && tower[i][j + 1].page == neighbor
                              && |tower[i][j].node.pairs| + |tower[i][j + 1].node.pairs| >= 2 * MinSize(order)
      requires index > 0 ==> && j > 0 && Siblings(tower, i, j - 1, d, index - 1) && tower[i][j - 1].page == neighbor
                             && |tower[i][j - 1].node.pairs| + |tower[i][j].node.pairs| >= 2 * MinSize(order)
      requires i + 1 < |tower| && d < |tower[i + 1]| && tower[i + 1][d].page == parent
      modifies `pages, `tower, `pins
      ensures InPlace() && Links(tower, {}) && Topped(tower, root) && AllSized(tower, order)
      ensures |tower| == |old(tower)| && Pairs(tower[0]) == Pairs(old(tower)[0]) && SamePages(old(tower)[0], tower[0])
      ensures Chained(old(pages[IX_LEAF_HEADER_PAGE]), old(tower)[0]) ==> Chained(pages[IX_LEAF_HEADER_PAGE], tower[0])
      ensures i < |tower| && MovedOne(old(tower)[i], tower[i], if index == 0 then j else j - 1, index == 0)
      ensures pins == old(pins)
    {
      hide *;
      if index == 0 {
        BorrowFromRight(node, neighbor, parent, index, i, j, d);
      } else {
        BorrowFromLeft(neighbor, node, parent, index - 1, i, j - 1, d);
      }
    }

    /** Takes a leaf out of the chain. */
    method EraseLeaf(leaf: int, ghost j: nat)
      requires InPlace() && 0 < j < |tower[0]| && tower[0][j].page == leaf &&
          Chained(pages[IX_LEAF_HEADER_PAGE], tower[0])
      modifies `pages, `tower, `pins
      ensures InPlace() && pins == old(pins)
      ensures tower == old(tower)[0 := tower[0]] && SameEntries(old(tower)[0], tower[0])
      ensures Chained(pages[IX_LEAF_HEADER_PAGE], Without(tower[0], j))
    {
      hide Placed, Chained, Pin, Unpin;
      ghost var header, leaves := pages[IX_LEAF_HEADER_PAGE], tower[0];
      Neighbours(header, leaves, j);
      At(order, pages, levelOf, tower, nextPage, 0, j);
      At(order, pages, levelOf, tower, nextPage, 0, j - 1);
      var prev, next := pages[leaf].prev, pages[leaf].next;
      if j + 1 < |leaves| {
        At(order, pages, levelOf, tower, nextPage, 0, j + 1);
      }
      assert prev != IX_NO_PAGE && next != IX_NO_PAGE;
      FetchNode(prev);
      WriteNode(prev, pages[prev].(next := next), 0, j - 1);
      UnpinPage(prev);
      if j + 1 < |leaves| {
        At(order, pages, levelOf, tower, nextPage, 0, j + 1);
      }
      FetchNode(next);
      if next == IX_LEAF_HEADER_PAGE {
        Fits(order, pages, levelOf, tower, nextPage, next);
        WriteOther(next, pages[next].(prev := prev));
      } else {
        WriteNode(next, pages[next].(prev := prev), 0, j + 1);
      }
      UnpinPage(next);
      ChainErase(header, leaves, j, pages[IX_LEAF_HEADER_PAGE], tower[0]);
    }

    /** Moves the pairs of the right sibling into the left one; the right one is given up, its entry stays. */
    method TakeOver(left: int, right: int, ghost i: nat, ghost a: nat, ghost from: nat) returns (ghost x: Level)
      requires InPlace() && Links(tower, {}) && i < |tower| && a + 1 < |tower[i]|
      requires tower[i][a].page == left && tower[i][a + 1].page == right && tower[i][a + 1].node.pairs != []
      requires |tower[i][a].node.pairs| + |tower[i][a + 1].node.pairs| <= order
      requires i > 0 ==> from == Off(tower[i], a)
      requires Chained(pages[IX_LEAF_HEADER_PAGE], tower[0]) && LastOk(lastLeaf, tower[0])
      modifies `pages, `tower, `pins, `lastLeaf
      ensures InPlace() && pins == old(pins) && |x| == |old(tower)[i]| && SameEntries(Absorb(old(tower)[i], a), x)
      ensures i > 0 ==> from + |x[a].node.pairs| <= |old(tower)[i - 1]|
      ensures var t := old(tower)[i := Without(x, a + 1)];
              tower == if i == 0 then t else t[i - 1 := Adopt(old(tower)[i - 1], from + |old(tower)[i][a].node.pairs|,
                  from + |x[a].node.pairs|, left)]
      ensures Chained(pages[IX_LEAF_HEADER_PAGE], tower[0])
      ensures LastOk(lastLeaf, tower[0]) && (lastLeaf == IX_NO_PAGE <==> old(lastLeaf) == IX_NO_PAGE)
    {
      hide Placed, Links, Chained, Off, Adopt, Pin, Unpin, SameEntries;
      At(order, pages, levelOf, tower, nextPage, i, a);
      At(order, pages, levelOf, tower, nextPage, i, a + 1);
      ghost var t0: Tower, header: Node := tower, pages[IX_LEAF_HEADER_PAGE];
      var prevSize := |pages[left].pairs|;
      if i > 0 {
        MergeRange(tower, i, a);
      } else {
        LeafLinks(header, tower[0], a, tower[0][a].node.(pairs := tower[0][a].node.pairs + tower[0][a + 1].node.pairs));
      }
      WriteNode(left, pages[left].(pairs := pages[left].pairs + pages[right].pairs), i, a);
      assert tower[i] == Absorb(t0[i], a);
      SameEntriesRefl(tower[i]);
      if !pages[right].isLeaf {
        MaintainChildren(left, prevSize, i, a, from);
        if i == 1 {
          AdoptLeaves(header, lastLeaf, t0[0], from + prevSize, from + |tower[1][a].node.pairs|, left);
        }
      } else {
        EraseLeaf(right, a + 1);
        LastAfterMerge(lastLeaf, t0[0], a, tower[0]);
        if right == lastLeaf {
          lastLeaf := left;
        }
      }
      x := tower[i];
      DropCell(i, a + 1);
    }

    /** Merges two siblings and removes the entry of the right one from the parent. */
    method MergeSiblings(left: int, right: int, parent: int, rank: nat, ghost i: nat, ghost a: nat, ghost d: nat,
        ghost e: nat)
      requires InPlace() && Thin(order, tower, root, i, e) && a <= e <= a + 1 && Siblings(tower, i, a, d, rank)
      requires tower[i][a].page == left && tower[i][a + 1].page == right && tower[i + 1][d].page == parent
      requires |tower[i][e].node.pairs| < MinSize(order)
      requires |tower[i][a].node.pairs| + |tower[i][a + 1].node.pairs| < 2 * MinSize(order)
      requires Chained(pages[IX_LEAF_HEADER_PAGE], tower[0]) && LastOk(lastLeaf, tower[0])
      modifies `pages, `tower, `pins, `lastLeaf
      ensures InPlace() && Thin(order, tower, root, i + 1, d) && tower[i + 1][d].page == parent
      ensures |tower| == |old(tower)| && Pairs(tower[0]) == Pairs(old(tower)[0])
      ensures |tower[0]| > 0 && tower[0][0].page == old(tower)[0][0].page
      ensures Chained(pages[IX_LEAF_HEADER_PAGE], tower[0])
      ensures LastOk(lastLeaf, tower[0]) && (lastLeaf == IX_NO_PAGE <==> old(lastLeaf) == IX_NO_PAGE)
      ensures tower[i + 1][d].node.parent == old(tower)[i + 1][d].node.parent && tower[i + 1][d].node.pairs != []
      ensures MergedInto(old(tower)[i], tower[i], a)
      ensures pins == old(pins)
    {
      hide Placed, Links, AllSizedBut, Chained, Off, Adopt, SameEntries, Pairs, LastOk, MergedInto;
      ghost var t0 := tower;
      ghost var from := Off(tower[i], a);
      ThinMerge(order, tower, root, i, a, e);
      if i > 0 {
        MergeRange(tower, i, a);
      }
      ghost var x := TakeOver(left, right, i, a, from);
      SameEntriesAt(Absorb(t0[i], a), x, a);
      ghost var lo, hi := from + |t0[i][a].node.pairs|, from + |x[a].node.pairs|;
      MergeSized(order, t0, root, i, a, d, rank, x, lo, hi, e);
      MergeLeaves(order, t0, root, i, a, d, rank, x, lo, hi);
      At(order, pages, levelOf, tower, nextPage, i + 1, d);
      WriteNode(parent, pages[parent].(pairs := ErasePair(pages[parent].pairs, rank + 1)), i + 1, d);
      assert tower == MergeTower(t0, i, a, d, rank, x, lo, hi);
      MergeMerged(t0, i, a, d, rank, x, lo, hi);
    }

    /** Called when the root has lost a pair. Only a root leaf gets here: see `CoalesceOrRedistribute`. */
    method AdjustRoot(node: int) returns (deleted: bool)
      requires InPlace() && |tower| == 1 && Topped(tower, root) && node == root && root == IX_INIT_ROOT_PAGE
      modifies `root, `firstLeaf, `lastLeaf
      ensures root == old(root) && deleted == (tower[0][0].node.pairs == []) && node in pages && pages[node].isLeaf
      ensures if deleted then firstLeaf == lastLeaf == IX_NO_PAGE
              else firstLeaf == old(firstLeaf) && lastLeaf == old(lastLeaf)
    {
      At(order, pages, levelOf, tower, nextPage, 0, 0);
      if pages[node].isLeaf && |pages[node].pairs| == 0 {
        root := IX_INIT_ROOT_PAGE;
        firstLeaf := IX_NO_PAGE;
        lastLeaf := IX_NO_PAGE;
        return true;
      }
      return false;
    }

    /** What restructuring after a removal leaves behind. */
    twostate predicate Settled()
      reads this
    {
      && InPlace() && Links(tower, {}) && Topped(tower, root) && AllSized(tower, order)
      && |tower| == |old(tower)| > 0 && Pairs(tower[0]) == Pairs(old(tower)[0])
      && old(|tower[0]| > 0 && IX_LEAF_HEADER_PAGE in pages) && tower[0][0].page == old(tower)[0][0].page
      && Chained(pages[IX_LEAF_HEADER_PAGE], tower[0])
      && LastOk(lastLeaf, tower[0])
      && root == old(root) && pins == old(pins)
      && (rootLatched ==> old(rootLatched))
    }

    /** Merges a thin node with its sibling and settles the parent. */
    method Coalesce(neighbor: int, node: int, parent: int, index: nat, rootIsLatched: bool,
    ghost i: nat, ghost j: nat, ghost d: nat) returns (latched: bool)
      requires InPlace() && Thin(order, tower, root, i, j) && tower[i][j].page == node
      requires |tower[i][j].node.pairs| < MinSize(order) && tower[0][0].page == IX_INIT_ROOT_PAGE
      requires index == 0 ==> && Siblings(tower, i, j, d, 0) && tower[i][j + 1].page == neighbor
                              && |tower[i][j].node.pairs| + |tower[i][j + 1].node.pairs| < 2 * MinSize(order)
      requires index > 0 ==> && j > 0 && Siblings(tower, i, j - 1, d, index - 1) && tower[i][j - 1].page == neighbor
                             && |tower[i][j - 1].node.pairs| + |tower[i][j].node.pairs| < 2 * MinSize(order)
      requires i + 1 < |tower| && d < |tower[i + 1]| && tower[i + 1][d].page == parent
      requires Chained(pages[IX_LEAF_HEADER_PAGE], tower[0]) && LastOk(lastLeaf, tower[0]) &&
          rootIsLatched == rootLatched
      modifies `pages, `tower, `pins, `lastLeaf, `firstLeaf, `root, `rootLatched
      ensures Settled() && latched == rootLatched && firstLeaf == old(firstLeaf)
      ensures lastLeaf == IX_NO_PAGE <==> old(lastLeaf) == IX_NO_PAGE
      decreases |tower| - i, 0
    {
      hide Placed, Links, AllSized, AllSizedBut, Chained, Off, Pairs, LastOk;
      latched := rootIsLatched;
      var left, right, rank := neighbor, node, index;
      ghost var a := j - 1;
      if index == 0 {
        left, right, rank := node, neighbor, 1;
        a := j;
      }
      MergeSiblings(left, right, parent, rank - 1, i, a, d, j);
      At(order, pages, levelOf, tower, nextPage, i + 1, d);
      assert |pages[parent].pairs| != 0;
      if |pages[parent].pairs| < MinSize(order) && pages[parent].parent != IX_NO_PAGE {
        ghost var t := tower;
        var deleted;
        deleted, latched := CoalesceOrRedistribute(parent, latched, i + 1, d);
      } else {
        TopThin(order, pages, levelOf, tower, nextPage, root, i + 1, d);
      }
    }

    /** Borrows from the sibling of a thin node, or merges with it; the left sibling is preferred. */
    method UseSibling(node: int, parent: int, index: nat, rootIsLatched: bool, ghost i: nat, ghost j: nat, ghost d: nat)
      returns (deleted: bool, latched: bool)
      requires InPlace() && Thin(order, tower, root, i, j) && tower[i][j].page == node
      requires |tower[i][j].node.pairs| < MinSize(order) && tower[0][0].page == IX_INIT_ROOT_PAGE
      requires i + 1 < |tower| && d < |tower[i + 1]| && tower[i + 1][d].page == parent
      requires index < |tower[i + 1][d].node.pairs| && |tower[i + 1][d].node.pairs| > 1
      requires index == 0 ==>
          Siblings(tower, i, j, d, 0) && tower[i][j + 1].page == tower[i + 1][d].node.pairs[1].rid.page_no
      requires index > 0 ==> j > 0 && Siblings(tower, i, j - 1, d, index - 1)
                             && tower[i][j - 1].page == tower[i + 1][d].node.pairs[index - 1].rid.page_no
      requires Chained(pages[IX_LEAF_HEADER_PAGE], tower[0]) && LastOk(lastLeaf, tower[0]) &&
          rootIsLatched == rootLatched
      modifies `pages, `tower, `pins, `lastLeaf, `firstLeaf, `root, `rootLatched
      ensures Settled() && latched == rootLatched && firstLeaf == old(firstLeaf)
      ensures lastLeaf == IX_NO_PAGE <==> old(lastLeaf) == IX_NO_PAGE
      ensures var n := if index == 0 then j + 1 else j - 1;
              && n < |old(tower)[i]|
              && (deleted <==>
                  |old(tower)[i][j].node.pairs| + |old(tower)[i][n].node.pairs| < 2 * MinSize(order))
      ensures !deleted ==> MovedOne(old(tower)[i], tower[i], if index == 0 then j else j - 1, index == 0)
      decreases |tower| - i, 1
    {
      hide MovedOne, Placed, Links, AllSized, AllSizedBut, Chained, Off, Pairs, Pin, Unpin;
      latched := rootIsLatched;
      At(order, pages, levelOf, tower, nextPage, i + 1, d);
      At(order, pages, levelOf, tower, nextPage, i, j);
      At(order, pages, levelOf, tower, nextPage, i, if index == 0 then j + 1 else j - 1);
      var neighbor := pages[parent].pairs[if index == 0 then 1 else index - 1].rid.page_no;
      FetchNode(neighbor);
      deleted := |pages[node].pairs| + |pages[neighbor].pairs| < 2 * MinSize(order);
      if deleted {
        latched := Coalesce(neighbor, node, parent, index, latched, i, j, d);
      } else {
        if latched {
          UnlockRoot();
          latched := false;
        }
        Redistribute(neighbor, node, parent, index, i, j, d);
      }
      UnpinPage(neighbor);
    }

    /** After a removal: leaves the node alone, borrows from a sibling, or merges with it. */
    method CoalesceOrRedistribute(node: int, rootIsLatched: bool, ghost i: nat, ghost j: nat) returns (deleted: bool,
        latched: bool)
      requires InPlace() && Thin(order, tower, root, i, j) && tower[i][j].page == node &&
          tower[0][0].page == IX_INIT_ROOT_PAGE
      requires i > 0 ==> i + 1 < |tower|
      requires Chained(pages[IX_LEAF_HEADER_PAGE], tower[0]) && LastOk(lastLeaf, tower[0]) &&
          rootIsLatched == rootLatched
      modifies `pages, `tower, `pins, `lastLeaf, `firstLeaf, `root, `rootLatched
      ensures Settled() && latched == rootLatched
      ensures if |old(tower)| == 1 && old(tower)[0][0].node.pairs == [] then firstLeaf == lastLeaf == IX_NO_PAGE
              else firstLeaf == old(firstLeaf) && (lastLeaf == IX_NO_PAGE <==> old(lastLeaf) == IX_NO_PAGE)
      ensures |old(tower)[i][j].node.pairs| >= MinSize(order) ==> !deleted && tower == old(tower) && pages == old(pages)
      decreases |tower| - i, 2
    {
      hide MovedOne, Placed, Links, AllSized, AllSizedBut, Chained, Off, Pairs, Pin, Unpin;
      deleted, latched := false, rootIsLatched;
      At(order, pages, levelOf, tower, nextPage, i, j);
      ghost var d, s: nat;
      if i + 1 < |tower| {
        d, s := FindSiblings(order, pages, levelOf, tower, nextPage, root, i, j);
      }
      if pages[node].parent == IX_NO_PAGE {
        deleted := AdjustRoot(node);
        TopThin(order, pages, levelOf, tower, nextPage, root, i, j);
        if latched {
          UnlockRoot();
          latched := false;
        }
        return;
      }
      if |pages[node].pairs| >= MinSize(order) {
        TopThin(order, pages, levelOf, tower, nextPage, root, i, j);
        return;
      }
      var parent := pages[node].parent;
      FetchNode(parent);
      var index := FindChild(pages[parent].pairs, node, s);
      if |pages[parent].pairs| > 1 {
        deleted, latched := UseSibling(node, parent, index, latched, i, j, d);
      }
      UnpinPage(parent);
    }

    /** Removes a key from a leaf and maintains first keys; the leaf may end up one pair short. */
    method RemoveFromLeaf(p: int, key: Key, ghost j: nat) returns (removed: bool)
      requires InPlace() && Sound(order, tower, root) && Chained(pages[IX_LEAF_HEADER_PAGE], tower[0])
      requires Covers(tower[0], j, key) && tower[0][j].page == p
      modifies `pages, `tower, `pins
      ensures removed == (key in MapOf(Pairs(old(tower)[0])))
      ensures !removed ==> pages == old(pages) && tower == old(tower)
      ensures InPlace() && Sorted(Pairs(tower[0])) && Chained(pages[IX_LEAF_HEADER_PAGE], tower[0])
      ensures |tower| == |old(tower)| && SamePages(old(tower)[0], tower[0])
      ensures removed ==> MapOf(Pairs(tower[0])) == MapOf(Pairs(old(tower)[0])) - {key}
      ensures removed ==> Thin(order, tower, root, 0, j)
      ensures pins == old(pins)
    {
      hide Placed, Links, Sorted, AllSized, AllSizedBut, Linked, LinkedButKey, Off, MapOf, Chained, SameShape, Covers,
          Pairs;
      ghost var tower0 := tower;
      ghost var leaves := tower[0];
      CoversCell(leaves, j, key);
      At(order, pages, levelOf, tower, nextPage, 0, j);
      SortedSlice(leaves, j);
      var pairs := pages[p].pairs;
      var pos := LowerBound(pairs, key);
      LookupInLevel(leaves, j, key, pos);
      if !(pos < |pairs| && pairs[pos].key == key) {
        return false;
      }
      removed := true;
      var n := pages[p].(pairs := ErasePair(pairs, pos));
      LowerInLevel(leaves, j, key, pos);
      LevelErase(leaves, j, pos, n);
      MapErase(Pairs(leaves), Off(leaves, j) + pos);
      LeafEdit(tower, root, j, n);
      ShrinkThin(order, tower, j, n);
      LeafLinks(pages[IX_LEAF_HEADER_PAGE], leaves, j, n);
      WriteNode(p, n, 0, j);
      if pos == 0 && |pages[p].pairs| > 0 {
        ghost var edited := tower;
        MaintainParent(p, j);
        SameShapeSized(edited, tower, order, 0, j);
        SameShapeAllSized(edited, tower, order);
      }
    }

    /** Removes a key; tells whether it was present. */
    method DeleteEntry(key: Key) returns (removed: bool)
      requires Valid()
      modifies this
      ensures Valid()
      ensures removed == (key in old(Contents()))
      ensures !removed ==> pages == old(pages) && tower == old(tower) && root == old(root) && lastLeaf == old(lastLeaf)
      ensures removed ==> Contents() == old(Contents()) - {key}
      ensures pins == old(pins) && |tower| == |old(tower)|
      ensures if removed && |tower| == 1 && Contents() == map[] then firstLeaf == lastLeaf == IX_NO_PAGE
              else firstLeaf == old(firstLeaf) && (lastLeaf == IX_NO_PAGE <==> old(lastLeaf) == IX_NO_PAGE)
    {
      hide Placed, Links, Sorted, AllSized, AllSizedBut, Off, Chained, Pin, Unpin, Covers, MapOf, Pairs;
      At(order, pages, levelOf, tower, nextPage, |tower| - 1, 0);
      At(order, pages, levelOf, tower, nextPage, 0, |tower[0]| - 1);
      assert root != IX_NO_PAGE;
      var leaf, isRootLocked;
      ghost var j;
      leaf, isRootLocked, j := FindLeafPage(key, DELETE, false);
      ghost var leaves := tower[0];
      removed := RemoveFromLeaf(leaf, key, j);
      if !removed {
        if isRootLocked {
          UnlockRoot();
        }
        UnpinPage(leaf);
        return;
      }
      SamePagesEnds(leaves, tower[0], lastLeaf);
      if |tower| == 1 {
        RootLeafEmpty(tower, root);
      }
      var deleted;
      deleted, isRootLocked := CoalesceOrRedistribute(leaf, isRootLocked, 0, j);
      UnpinPage(leaf);
      if isRootLocked {
        UnlockRoot();
      }
    }

    // ---------- point queries ----------

    method GetValue(key: Key) returns (result: seq<Rid>)
      requires Valid()
      modifies `pins, `rootLatched
      ensures Valid() && pins == old(pins)
      ensures result == if key in Contents() then [Contents()[key]] else []
    {
      hide Placed, Links, Sorted, AllSized, Off, Chained, Pin, Unpin, Covers, MapOf, Pairs;
      var leaf, isRootLocked;
      ghost var j;
      leaf, isRootLocked, j := FindLeafPage(key, FIND, false);
      SortedSlice(tower[0], j);
      var pairs := pages[leaf].pairs;
      var pos := LowerBound(pairs, key);
      LookupInLevel(tower[0], j, key, pos);
      if pos == |pairs| || pairs[pos].key != key {
        result := [];
      } else {
        result := [pairs[pos].rid];
      }
      UnpinPage(leaf);
    }

    /** A key is unique when the index does not hold it; otherwise the record that has it is reported. */
    method IsUnique(key: Key) returns (unique: bool, rid: Rid)
      requires Valid()
      modifies `pins, `rootLatched
      ensures Valid() && pins == old(pins)
      ensures Contents() == old(Contents())
      ensures unique <==> key !in Contents()
      ensures !unique ==> rid == Contents()[key]
    {
      var found := GetValue(key);
      unique := found == [];
      rid := if unique then Rid(0, 0) else found[0];
    }
  }
}

/**
  The shape of the index as seen from its root page: a recursive definition of the tree on
  the pages of the file, independent of the levels that the proofs work with.
 */
module IxShape {
  import opened Config
  import opened IxLevels
  import opened IxTower
  import opened IxIndex

  // ---------- page capacity ----------

  const IX_MAX_COL_LEN := 512
  const PAGE_HDR_SIZE := 24
  const RID_SIZE := 8

  function BtreeOrder(colTotLen: nat): int
  {
    (PAGE_SIZE - PAGE_HDR_SIZE) / (colTotLen + RID_SIZE) - 1
  }

  /** The order leaves room for one pair more than a node keeps, on the page and in the key area. */
  lemma {:induction false} OrderFits(colTotLen: nat)
    requires colTotLen <= IX_MAX_COL_LEN
    ensures BtreeOrder(colTotLen) >= 3
    ensures PAGE_HDR_SIZE + (BtreeOrder(colTotLen) + 1) * (colTotLen + RID_SIZE) <= PAGE_SIZE
    ensures PAGE_HDR_SIZE + (BtreeOrder(colTotLen) + 2) * (colTotLen + RID_SIZE) > PAGE_SIZE
  {
    var w := colTotLen + RID_SIZE;
    var q := (PAGE_SIZE - PAGE_HDR_SIZE) / w;
    assert q * w <= PAGE_SIZE - PAGE_HDR_SIZE < (q + 1) * w;
    assert q < 4 ==> (q + 1) * w <= 4 * w;
  }

  // ---------- the tree below a page ----------

  /** Child `k` of page `p`: it points back to its parent, which repeats its first key. */
  ghost predicate ChildOk(pages: map<int, Node>, p: int, k: nat)
    requires p in pages && k < |pages[p].pairs|
  {
    var c := pages[p].pairs[k].rid.page_no;
    && c in pages && pages[c].parent == p
    && (pages[c].pairs != [] ==> pages[c].pairs[0].key == pages[p].pairs[k].key)
  }

  ghost predicate NodeOk(pages: map<int, Node>, order: nat, p: int, height: nat, siblings: bool)
  {
    && p in pages && Sorted(pages[p].pairs) && |pages[p].pairs| <= order
    && (siblings ==> 2 * |pages[p].pairs| >= order)
    && pages[p].isLeaf == (height == 0)
    && (height > 0 ==> pages[p].pairs != [] && forall k: nat :: k < |pages[p].pairs| ==> ChildOk(pages, p, k))
  }

  /** A B+ tree of the given height: all leaves at depth `height`, nodes half full where they have siblings. */
  ghost predicate Subtree(pages: map<int, Node>, order: nat, p: int, height: nat, siblings: bool)
    decreases height
  {
    && NodeOk(pages, order, p, height, siblings)
    && (height > 0 ==> forall k: nat :: k < |pages[p].pairs| ==>
          Subtree(pages, order, pages[p].pairs[k].rid.page_no, height - 1, |pages[p].pairs| > 1))
  }

  /** The entries below a page, in order. */
  ghost function Traverse(pages: map<int, Node>, p: int, height: nat): seq<Pair>
    decreases height, 0, 0
  {
    if p !in pages then []
    else if height == 0 then pages[p].pairs
    else TraverseAll(pages, pages[p].pairs, height - 1)
  }

  ghost function TraverseAll(pages: map<int, Node>, children: seq<Pair>, height: nat): seq<Pair>
    decreases height, 1, |children|
  {
    if children == [] then []
    else Traverse(pages, children[0].rid.page_no, height) + TraverseAll(pages, children[1..], height)
  }

  // ---------- the index satisfies it ----------

  lemma {:induction false} NodeOkAt(ih: IxIndexHandle, i: nat, j: nat, siblings: bool)
    requires ih.Valid() && i < |ih.tower| && j < |ih.tower[i]| && (siblings ==> |ih.tower[i]| > 1)
    ensures NodeOk(ih.pages, ih.order, ih.tower[i][j].page, i, siblings)
    ensures i > 0 ==> Off(ih.tower[i], j) + |ih.tower[i][j].node.pairs| <= |ih.tower[i - 1]|
    ensures i > 0 ==> forall k :: 0 <= k < |ih.tower[i][j].node.pairs| ==>
              ih.tower[i][j].node.pairs[k].rid.page_no == ih.tower[i - 1][Off(ih.tower[i], j) + k].page
  {
    hide Placed, Chained, Sorted, Links, AllSized, Off, Pairs, SizeOk;
    var t, p := ih.tower, ih.tower[i][j].page;
    AllSorted(t, ih.order, i);
    SortedSlice(t[i], j);
    AllNonEmpty(t, ih.order);
    At(ih.order, ih.pages, ih.levelOf, t, ih.nextPage, i, j);
    SizeAt(t, ih.order, i, j);
    if i > 0 {
      LinkAt(t, i - 1);
      Kids(t[i], t[i - 1], j);
      forall k: nat | k < |ih.pages[p].pairs| ensures ChildOk(ih.pages, p, k) {
        ChildAt(t[i], t[i - 1], j, k);
        At(ih.order, ih.pages, ih.levelOf, t, ih.nextPage, i - 1, Off(t[i], j) + k);
      }
    }
  }

  lemma {:induction false} SizeAt(t: Tower, order: nat, i: nat, j: nat)
    requires AllSized(t, order) && i < |t| && j < |t[i]|
    ensures |t[i][j].node.pairs| <= order && (|t[i]| > 1 ==> |t[i][j].node.pairs| >= MinSize(order))
  {
    assert Sized(t[i], order) && SizeOk(t[i], order, t[i][j]);
  }

  lemma {:induction false} ChildAt(up: Level, low: Level, j: nat, k: nat)
    requires Linked(up, low) && j < |up| && k < |up[j].node.pairs|
    ensures Off(up, j) + k < |low|
    ensures low[Off(up, j) + k].node.parent == up[j].page && low[Off(up, j) + k].page == up[j].node.pairs[k].rid.page_no
    ensures low[Off(up, j) + k].node.pairs != [] ==> low[Off(up, j) + k].node.pairs[0].key == up[j].node.pairs[k].key
  {
    Entry(up, j, k);
    assert LinkedAt(up, low, Off(up, j) + k);
  }

  lemma {:induction false} SubtreeAt(ih: IxIndexHandle, i: nat, j: nat, siblings: bool)
    requires ih.Valid() && i < |ih.tower| && j < |ih.tower[i]| && (siblings ==> |ih.tower[i]| > 1)
    ensures Subtree(ih.pages, ih.order, ih.tower[i][j].page, i, siblings)
    decreases i
  {
    NodeOkAt(ih, i, j, siblings);
    At(ih.order, ih.pages, ih.levelOf, ih.tower, ih.nextPage, i, j);
    hide Placed, Sound, Chained, Off, NodeOk;
    if i > 0 {
      var n := ih.tower[i][j].node;
      forall k: nat | k < |n.pairs| ensures Subtree(ih.pages, ih.order, n.pairs[k].rid.page_no, i - 1, |n.pairs| > 1) {
        SubtreeAt(ih, i - 1, Off(ih.tower[i], j) + k, |n.pairs| > 1);
      }
    }
  }

  lemma {:induction false} TraverseCat(pages: map<int, Node>, a: seq<Pair>, b: seq<Pair>, height: nat)
    ensures TraverseAll(pages, a + b, height) == TraverseAll(pages, a, height) + TraverseAll(pages, b, height)
    decreases |a|
  {
    if a == [] {
      assert a + b == b;
    } else {
      assert (a + b)[1..] == a[1..] + b;
      TraverseCat(pages, a[1..], b, height);
    }
  }

  ghost function Faces(level: Level): seq<Pair>
  {
    seq(|level|, j requires 0 <= j < |level| => Pair(0, Rid(level[j].page, 0)))
  }

  /** Walking all nodes of an inner level is walking all nodes of the level below. */
  lemma {:induction false} TraverseDown(pages: map<int, Node>, level: Level, height: nat)
    requires forall j :: 0 <= j < |level| ==> level[j].page in pages && pages[level[j].page] == level[j].node
    requires height > 0
    ensures TraverseAll(pages, Faces(level), height) == TraverseAll(pages, Pairs(level), height - 1)
    decreases |level|
  {
    if level != [] {
      assert Faces(level)[1..] == Faces(level[1..]);
      TraverseDown(pages, level[1..], height);
      TraverseCat(pages, level[0].node.pairs, Pairs(level[1..]), height - 1);
    }
  }

  lemma {:induction false} TraverseSame(pages: map<int, Node>, a: seq<Pair>, b: seq<Pair>, height: nat)
    requires |a| == |b| && forall k :: 0 <= k < |a| ==> a[k].rid.page_no == b[k].rid.page_no
    ensures TraverseAll(pages, a, height) == TraverseAll(pages, b, height)
    decreases |a|
  {
    if a != [] {
      TraverseSame(pages, a[1..], b[1..], height);
    }
  }

  lemma {:induction false} TraverseLeaves(pages: map<int, Node>, leaves: Level)
    requires forall j :: 0 <= j < |leaves| ==> leaves[j].page in pages && pages[leaves[j].page] == leaves[j].node
    ensures TraverseAll(pages, Faces(leaves), 0) == Pairs(leaves)
    decreases |leaves|
  {
    if leaves != [] {
      assert Faces(leaves)[1..] == Faces(leaves[1..]);
      TraverseLeaves(pages, leaves[1..]);
    }
  }

  lemma {:induction false} TraverseLevel(ih: IxIndexHandle, i: nat)
    requires ih.Valid() && i < |ih.tower|
    ensures TraverseAll(ih.pages, Faces(ih.tower[i]), i) == ih.Entries()
    decreases i
  {
    forall j | 0 <= j < |ih.tower[i]|
      ensures ih.tower[i][j].page in ih.pages && ih.pages[ih.tower[i][j].page] == ih.tower[i][j].node
    {
      At(ih.order, ih.pages, ih.levelOf, ih.tower, ih.nextPage, i, j);
    }
    if i == 0 {
      TraverseLeaves(ih.pages, ih.tower[0]);
    } else {
      var up, low := ih.tower[i], ih.tower[i - 1];
      assert Joined(ih.tower, i - 1);
      forall k | 0 <= k < |low| ensures Pairs(up)[k].rid.page_no == low[k].page {
        assert LinkedAt(up, low, k);
      }
      hide Placed, Sound, Chained, Pairs;
      TraverseDown(ih.pages, up, i);
      TraverseSame(ih.pages, Pairs(up), Faces(low), i - 1);
      TraverseLevel(ih, i - 1);
    }
  }

  /** Between operations the root page carries a B+ tree whose in-order walk is the contents of the index. */
  lemma {:induction false} IndexShape(ih: IxIndexHandle)
    requires ih.Valid()
    ensures ih.root in ih.pages && ih.pages[ih.root].parent == IX_NO_PAGE
    ensures Subtree(ih.pages, ih.order, ih.root, |ih.tower| - 1, false)
    ensures Traverse(ih.pages, ih.root, |ih.tower| - 1) == ih.Entries()
    ensures Sorted(ih.Entries())
  {
    var h := |ih.tower| - 1;
    At(ih.order, ih.pages, ih.levelOf, ih.tower, ih.nextPage, h, 0);
    SubtreeAt(ih, h, 0, false);
    TraverseLevel(ih, h);
    hide Placed, Chained, Pairs;
    var faces := Faces(ih.tower[h]);
    assert faces[0].rid.page_no == ih.root && faces[1..] == [];
  }

  ghost predicate KeysBelow(a: seq<Pair>, b: seq<Pair>)
  {
    forall x, y :: 0 <= x < |a| && 0 <= y < |b| ==> a[x].key < b[y].key
  }

  /** The chain of leaves, followed from the header page, visits every leaf once and in key order. */
  lemma {:induction false} LeafChain(ih: IxIndexHandle, j: nat)
    requires ih.Valid() && j < |ih.tower[0]|
    ensures var leaves := ih.tower[0];
            && ih.pages[IX_LEAF_HEADER_PAGE].next == leaves[0].page
            && ih.pages[IX_LEAF_HEADER_PAGE].prev == leaves[|leaves| - 1].page
            && leaves[j].page in ih.pages
            && ih.pages[leaves[j].page].next in ih.pages && ih.pages[leaves[j].page].prev in ih.pages
            && ih.pages[ih.pages[leaves[j].page].next].prev == leaves[j].page
            && ih.pages[ih.pages[leaves[j].page].prev].next == leaves[j].page
            && (j + 1 < |leaves| ==> KeysBelow(leaves[j].node.pairs, leaves[j + 1].node.pairs))
  {
    var leaves := ih.tower[0];
    var header := ih.pages[IX_LEAF_HEADER_PAGE];
    At(ih.order, ih.pages, ih.levelOf, ih.tower, ih.nextPage, 0, j);
    Neighbours(header, leaves, j);
    if j + 1 < |leaves| {
      At(ih.order, ih.pages, ih.levelOf, ih.tower, ih.nextPage, 0, j + 1);
      Neighbours(header, leaves, j + 1);
      var a, b := leaves[j].node.pairs, leaves[j + 1].node.pairs;
      forall x, y | 0 <= x < |a| && 0 <= y < |b| ensures a[x].key < b[y].key {
        PairOrder(leaves, j, x, j + 1, y);
      }
    }
    if j > 0 {
      At(ih.order, ih.pages, ih.levelOf, ih.tower, ih.nextPage, 0, j - 1);
      Neighbours(header, leaves, j - 1);
    }
  }
}

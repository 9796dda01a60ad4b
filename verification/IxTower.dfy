/**
  The whole tree as a tower of levels, from the leaves (level 0) to the root, and its
  agreement with the pages of the index file.
 */
module IxTower {
  import opened IxLevels

  type Tower = seq<Level>

  function MinSize(order: nat): nat
  {
    (order + 1) / 2
  }

  // ---------- agreement with the pages ----------

  ghost predicate CellOk(pages: map<int, Node>, levelOf: map<int, nat>, i: nat, c: Cell)
  {
    && c.page >= IX_INIT_ROOT_PAGE
    && c.page in pages && pages[c.page] == c.node
    && c.page in levelOf && levelOf[c.page] == i
    && c.node.isLeaf == (i == 0)
  }

  /** Every node of the tower is what its page holds; a page serves one node of one level. */
  ghost predicate Agree(pages: map<int, Node>, levelOf: map<int, nat>, tower: Tower)
  {
    && (forall i, j :: 0 <= i < |tower| && 0 <= j < |tower[i]| ==> CellOk(pages, levelOf, i, tower[i][j]))
    && (forall i :: 0 <= i < |tower| ==> Distinct(tower[i]))
  }

  lemma {:induction false} CellAt(pages: map<int, Node>, levelOf: map<int, nat>, tower: Tower, i: nat, j: nat)
    requires Agree(pages, levelOf, tower) && i < |tower| && j < |tower[i]|
    ensures CellOk(pages, levelOf, i, tower[i][j]) && Distinct(tower[i])
  {
  }

  ghost function Put(tower: Tower, i: nat, j: nat, n: Node): Tower
    requires i < |tower| && j < |tower[i]|
  {
    tower[i := tower[i][j := Cell(tower[i][j].page, n)]]
  }

  lemma {:induction false} AgreePut(pages: map<int, Node>, levelOf: map<int, nat>, tower: Tower, i: nat, j: nat,
      n: Node)
    requires Agree(pages, levelOf, tower)
    requires i < |tower| && j < |tower[i]| && n.isLeaf == (i == 0)
    ensures Agree(pages[tower[i][j].page := n], levelOf, Put(tower, i, j, n))
  {
    var p := tower[i][j].page;
    var pages' := pages[p := n];
    var tower' := Put(tower, i, j, n);
    assert CellOk(pages, levelOf, i, tower[i][j]);
    forall a, b | 0 <= a < |tower'| && 0 <= b < |tower'[a]| ensures CellOk(pages', levelOf, a, tower'[a][b]) {
      assert CellOk(pages, levelOf, a, tower[a][b]);
      if a == i {
        assert Distinct(tower[i]);
      }
    }
    forall a | 0 <= a < |tower'| ensures Distinct(tower'[a]) {
      assert Distinct(tower[a]);
    }
  }

  /** A page outside the tower can be written freely. */
  lemma {:induction false} AgreeOther(pages: map<int, Node>, levelOf: map<int, nat>, tower: Tower, p: int, n: Node)
    requires Agree(pages, levelOf, tower)
    requires p < IX_INIT_ROOT_PAGE || p !in levelOf
    ensures Agree(pages[p := n], levelOf, tower)
  {
    forall a, b | 0 <= a < |tower| && 0 <= b < |tower[a]| ensures CellOk(pages[p := n], levelOf, a, tower[a][b]) {
      assert CellOk(pages, levelOf, a, tower[a][b]);
    }
  }

  ghost function InsertCell(level: Level, j: nat, c: Cell): Level
    requires j <= |level|
  {
    level[..j] + [c] + level[j..]
  }

  lemma {:induction false} AgreeInsert(pages: map<int, Node>, levelOf: map<int, nat>, tower: Tower, i: nat, j: nat,
      c: Cell)
    requires Agree(pages, levelOf, tower)
    requires i < |tower| && j <= |tower[i]|
    requires c.page >= IX_INIT_ROOT_PAGE && c.page in pages && pages[c.page] == c.node && c.node.isLeaf == (i == 0)
    requires c.page !in levelOf
    ensures Agree(pages, levelOf[c.page := i], tower[i := InsertCell(tower[i], j, c)])
  {
    var levelOf' := levelOf[c.page := i];
    var tower' := tower[i := InsertCell(tower[i], j, c)];
    forall a, b | 0 <= a < |tower'| && 0 <= b < |tower'[a]| ensures CellOk(pages, levelOf', a, tower'[a][b]) {
      if a != i || b < j {
        assert CellOk(pages, levelOf, a, tower[a][b]);
      } else if b > j {
        assert CellOk(pages, levelOf, a, tower[a][b - 1]);
      }
    }
    forall a | 0 <= a < |tower'| ensures Distinct(tower'[a]) {
      assert Distinct(tower[a]);
      if a == i {
        forall k, l | 0 <= k < l < |tower'[a]| ensures tower'[a][k].page != tower'[a][l].page {
          if k < j { assert CellOk(pages, levelOf, a, tower[a][k]); }
          if l > j { assert CellOk(pages, levelOf, a, tower[a][l - 1]); }
        }
      }
    }
  }

  lemma {:induction false} AgreeNewRoot(pages: map<int, Node>, levelOf: map<int, nat>, tower: Tower, c: Cell)
    requires Agree(pages, levelOf, tower) && |tower| > 0
    requires c.page >= IX_INIT_ROOT_PAGE && c.page in pages && pages[c.page] == c.node && !c.node.isLeaf
    requires c.page !in levelOf
    ensures Agree(pages, levelOf[c.page := |tower|], tower + [[c]])
  {
    var levelOf' := levelOf[c.page := |tower|];
    var tower' := tower + [[c]];
    forall a, b | 0 <= a < |tower'| && 0 <= b < |tower'[a]| ensures CellOk(pages, levelOf', a, tower'[a][b]) {
      if a < |tower| {
        assert CellOk(pages, levelOf, a, tower[a][b]);
      }
    }
    forall a | 0 <= a < |tower'| ensures Distinct(tower'[a]) {
      if a < |tower| {
        assert Distinct(tower[a]);
      }
    }
  }

  lemma {:induction false} AgreeWithout(pages: map<int, Node>, levelOf: map<int, nat>, tower: Tower, i: nat, j: nat)
    requires Agree(pages, levelOf, tower)
    requires i < |tower| && j < |tower[i]|
    ensures Agree(pages, levelOf, tower[i := Without(tower[i], j)])
  {
    var tower' := tower[i := Without(tower[i], j)];
    forall a, b | 0 <= a < |tower'| && 0 <= b < |tower'[a]| ensures CellOk(pages, levelOf, a, tower'[a][b]) {
      if a != i || b < j {
        assert CellOk(pages, levelOf, a, tower[a][b]);
      } else {
        assert CellOk(pages, levelOf, a, tower[a][b + 1]);
      }
    }
    forall a | 0 <= a < |tower'| ensures Distinct(tower'[a]) {
      assert Distinct(tower[a]);
    }
  }

  // ---------- links between levels ----------

  ghost predicate Joined(tower: Tower, k: nat)
    requires k + 1 < |tower|
  {
    Linked(tower[k + 1], tower[k])
  }

  /** All neighbouring levels are linked, except above the levels in `broken`. */
  ghost predicate Links(tower: Tower, broken: set<int>)
  {
    forall k: nat :: k + 1 < |tower| && k !in broken ==> Joined(tower, k)
  }

  lemma {:induction false} LinksUpdate(tower: Tower, broken: set<int>, i: nat, level: Level)
    requires Links(tower, broken) && i < |tower|
    ensures Links(tower[i := level], broken + {i - 1, i})
  {
    var tower' := tower[i := level];
    forall k: nat | k + 1 < |tower'| && k !in broken + {i - 1, i} ensures Joined(tower', k) {
      assert Joined(tower, k);
    }
  }

  lemma {:induction false} LinksMend(tower: Tower, broken: set<int>, k: nat)
    requires Links(tower, broken)
    requires k + 1 < |tower| ==> Linked(tower[k + 1], tower[k])
    ensures Links(tower, broken - {k})
  {
    forall m: nat | m + 1 < |tower| && m !in broken - {k} ensures Joined(tower, m) {
      if m != k {
        assert Joined(tower, m);
      }
    }
  }

  /** Same pages, parents and entries: only leaf links may differ. */
  ghost predicate SameEntries(a: Level, b: Level)
  {
    && |a| == |b|
    && forall j :: 0 <= j < |a| ==> SameEntry(a[j], b[j])
  }

  ghost predicate SameEntry(a: Cell, b: Cell)
  {
    a.page == b.page && a.node.parent == b.node.parent && a.node.pairs == b.node.pairs
  }

  lemma {:induction false} SameEntriesRefl(a: Level)
    ensures SameEntries(a, a)
  {
  }

  lemma {:induction false} SameEntriesAt(a: Level, b: Level, j: nat)
    requires SameEntries(a, b) && j < |a|
    ensures |a| == |b| && SameEntry(a[j], b[j])
  {
  }

  lemma {:induction false} SameEntriesPairs(a: Level, b: Level)
    requires SameEntries(a, b)
    ensures Pairs(a) == Pairs(b) && Owners(a) == Owners(b)
  {
    if a != [] {
      assert SameEntry(a[0], b[0]);
      forall j | 0 <= j < |a[1..]| ensures SameEntry(a[1..][j], b[1..][j]) {
        assert SameEntry(a[j + 1], b[j + 1]);
      }
      SameEntriesPairs(a[1..], b[1..]);
    }
  }

  lemma {:induction false} SameEntriesLinked(up: Level, low: Level, low': Level)
    requires Linked(up, low) && SameEntries(low, low')
    ensures Linked(up, low')
  {
    forall j | 0 <= j < |low'| ensures LinkedAt(up, low', j) {
      assert LinkedAt(up, low, j) && SameEntry(low[j], low'[j]);
    }
  }

  // ---------- sizes ----------

  ghost predicate SizeOk(level: Level, order: nat, c: Cell)
  {
    && |c.node.pairs| <= order
    && (|level| > 1 ==> |c.node.pairs| >= MinSize(order))
  }

  ghost predicate SizedBut(level: Level, order: nat, x: int)
  {
    forall j :: 0 <= j < |level| && j != x ==> SizeOk(level, order, level[j])
  }

  /** Every node holds at most `order` pairs, and at least half of that unless it is alone on its level. */
  ghost predicate Sized(level: Level, order: nat)
  {
    SizedBut(level, order, -1)
  }

  ghost predicate AllSizedBut(tower: Tower, order: nat, i: int, x: int)
  {
    forall k :: 0 <= k < |tower| ==> SizedBut(tower[k], order, if k == i then x else -1)
  }

  ghost predicate AllSized(tower: Tower, order: nat)
  {
    forall k :: 0 <= k < |tower| ==> Sized(tower[k], order)
  }

  ghost predicate Topped(tower: Tower, root: int)
  {
    && |tower| > 0 && |tower[|tower| - 1]| == 1
    && tower[|tower| - 1][0].page == root
    && tower[|tower| - 1][0].node.parent == IX_NO_PAGE
  }

  // ---------- the leaf chain ----------

  function PageAt(leaves: Level, j: int): int
  {
    if 0 <= j < |leaves| then leaves[j].page else IX_LEAF_HEADER_PAGE
  }

  ghost predicate ChainedAt(leaves: Level, j: nat)
    requires j < |leaves|
  {
    leaves[j].node.next == PageAt(leaves, j + 1) && leaves[j].node.prev == PageAt(leaves, j - 1)
  }

  /** The leaves form a circular doubly linked list through the leaf header page. */
  ghost predicate Chained(header: Node, leaves: Level)
  {
    && header.isLeaf && header.pairs == []
    && header.next == PageAt(leaves, 0) && header.prev == PageAt(leaves, |leaves| - 1)
    && forall j :: 0 <= j < |leaves| ==> ChainedAt(leaves, j)
  }

  // ---------- consequences ----------

  ghost predicate Inhabited(tower: Tower)
  {
    forall i :: 0 <= i < |tower| ==> |tower[i]| > 0
  }

  /** Inner nodes are never empty, and a leaf is empty only when it is the only leaf. */
  lemma {:induction false} InnerNonEmpty(tower: Tower, order: nat, i: nat)
    requires order >= 3 && Inhabited(tower) && i < |tower| && Sized(tower[i], order)
    requires i > 0 ==> |Pairs(tower[i])| > 0
    ensures i > 0 || |tower[i]| > 1 ==> NonEmpty(tower[i])
  {
    if i > 0 && |tower[i]| == 1 {
      PairsOne(tower[i][0]);
      assert tower[i] == [tower[i][0]];
    } else {
      forall j | 0 <= j < |tower[i]| && |tower[i]| > 1 ensures tower[i][j].node.pairs != [] {
        assert SizeOk(tower[i], order, tower[i][j]);
      }
    }
  }

  lemma {:induction false} AllNonEmpty(tower: Tower, order: nat)
    requires order >= 3 && Inhabited(tower) && AllSized(tower, order) && Links(tower, {})
    ensures forall i :: 0 <= i < |tower| && (i > 0 || |tower[i]| > 1) ==> NonEmpty(tower[i])
  {
    forall i | 0 <= i < |tower| && (i > 0 || |tower[i]| > 1) ensures NonEmpty(tower[i]) {
      if i > 0 {
        assert Joined(tower, i - 1);
      }
      InnerNonEmpty(tower, order, i);
    }
  }

  lemma {:induction false} AllSorted(tower: Tower, order: nat, i: nat)
    requires order >= 3 && Inhabited(tower) && AllSized(tower, order) && Links(tower, {})
    requires i < |tower| && Sorted(Pairs(tower[0]))
    ensures Sorted(Pairs(tower[i]))
  {
    if i > 0 {
      AllSorted(tower, order, i - 1);
      AllNonEmpty(tower, order);
      assert Joined(tower, i - 1);
      SortedUp(tower[i], tower[i - 1]);
    }
  }

  /** Same nodes with the same number of pairs each: key maintenance keeps this. */
  ghost predicate SameShape(a: Tower, b: Tower)
  {
    && |a| == |b|
    && forall i :: 0 <= i < |a| ==> SameSizes(a[i], b[i])
  }

  ghost predicate SameSizes(a: Level, b: Level)
  {
    && |a| == |b|
    && forall j :: 0 <= j < |a| ==> SameSize(a[j], b[j])
  }

  ghost predicate SameSize(a: Cell, b: Cell)
  {
    a.page == b.page && a.node.parent == b.node.parent && |a.node.pairs| == |b.node.pairs|
  }

  lemma {:induction false} SameShapeSized(a: Tower, b: Tower, order: nat, i: int, x: int)
    requires SameShape(a, b) && AllSizedBut(a, order, i, x)
    ensures AllSizedBut(b, order, i, x)
  {
    forall k | 0 <= k < |b| ensures SizedBut(b[k], order, if k == i then x else -1) {
      var e := if k == i then x else -1;
      assert SizedBut(a[k], order, e) && SameSizes(a[k], b[k]);
      forall j | 0 <= j < |b[k]| && j != e ensures SizeOk(b[k], order, b[k][j]) {
        assert SizeOk(a[k], order, a[k][j]) && SameSize(a[k][j], b[k][j]);
      }
    }
  }

  lemma {:induction false} SameShapeRefl(a: Tower)
    ensures SameShape(a, a)
  {
    forall i | 0 <= i < |a| ensures SameSizes(a[i], a[i]) {
    }
  }

  lemma {:induction false} SameShapeTrans(a: Tower, b: Tower, c: Tower)
    requires SameShape(a, b) && SameShape(b, c)
    ensures SameShape(a, c)
  {
    forall i | 0 <= i < |a| ensures SameSizes(a[i], c[i]) {
      assert SameSizes(a[i], b[i]) && SameSizes(b[i], c[i]);
      assert forall j :: 0 <= j < |a[i]| ==> SameSize(a[i][j], b[i][j]);
    }
  }

  lemma {:induction false} SameShapePut(a: Tower, b: Tower, i: nat, j: nat, n: Node)
    requires SameShape(a, b) && i < |b| && j < |b[i]|
    requires n.parent == b[i][j].node.parent && |n.pairs| == |b[i][j].node.pairs|
    ensures SameShape(a, Put(b, i, j, n))
  {
    var b' := Put(b, i, j, n);
    forall k | 0 <= k < |a| ensures SameSizes(a[k], b'[k]) {
      assert SameSizes(a[k], b[k]);
      forall l | 0 <= l < |a[k]| ensures SameSize(a[k][l], b'[k][l]) {
        assert SameSize(a[k][l], b[k][l]);
      }
    }
  }

  /** Equal up to the parent fields. */
  ghost predicate ModParent(a: Level, b: Level)
  {
    && |a| == |b|
    && forall j :: 0 <= j < |a| ==> ModParentAt(a[j], b[j])
  }

  ghost predicate ModParentAt(a: Cell, b: Cell)
  {
    a.page == b.page && a.node.(parent := b.node.parent) == b.node
  }

  lemma {:induction false} ModParentRefl(a: Level)
    ensures ModParent(a, a)
  {
  }

  lemma {:induction false} ModParentPairs(a: Level, b: Level)
    requires ModParent(a, b)
    ensures Pairs(a) == Pairs(b) && Owners(a) == Owners(b)
  {
    if a != [] {
      assert ModParentAt(a[0], b[0]);
      forall j | 0 <= j < |a[1..]| ensures ModParentAt(a[1..][j], b[1..][j]) {
        assert ModParentAt(a[j + 1], b[j + 1]);
      }
      ModParentPairs(a[1..], b[1..]);
    }
  }

  lemma {:induction false} ModParentSized(a: Level, b: Level, order: nat, x: int)
    requires ModParent(a, b) && SizedBut(a, order, x)
    ensures SizedBut(b, order, x)
  {
    forall j | 0 <= j < |b| && j != x ensures SizeOk(b, order, b[j]) {
      assert SizeOk(a, order, a[j]) && ModParentAt(a[j], b[j]);
    }
  }

  lemma {:induction false} ModParentChained(header: Node, a: Level, b: Level)
    requires ModParent(a, b) && Chained(header, a)
    ensures Chained(header, b)
  {
    assert forall j :: 0 <= j < |a| ==> ModParentAt(a[j], b[j]);
    forall j | 0 <= j < |b| ensures ChainedAt(b, j) {
      assert ChainedAt(a, j);
    }
  }

  // ---------- the invariants of the index file ----------

  /** What every step of an operation keeps. */
  ghost predicate Placed(order: nat, pages: map<int, Node>, levelOf: map<int, nat>, tower: Tower, nextPage: int)
  {
    && order >= 3 && Inhabited(tower) && |tower| > 0
    && Agree(pages, levelOf, tower)
    && IX_LEAF_HEADER_PAGE in pages
    && levelOf.Keys <= pages.Keys
    && (forall p :: p in pages ==> p < nextPage && |pages[p].pairs| <= order + 1)
    && nextPage > IX_INIT_ROOT_PAGE
  }

  /** What holds between operations. */
  ghost predicate Sound(order: nat, tower: Tower, root: int)
  {
    && order >= 3 && Inhabited(tower)
    && Links(tower, {}) && Topped(tower, root)
    && AllSized(tower, order)
    && Sorted(Pairs(tower[0]))
  }

  lemma {:induction false} SortedSlice(level: Level, c: nat)
    requires c < |level| && Sorted(Pairs(level))
    ensures Sorted(level[c].node.pairs)
  {
    var s := level[c].node.pairs;
    forall a, b | 0 <= a < b < |s| ensures s[a].key < s[b].key {
      Entry(level, c, a);
      Entry(level, c, b);
    }
  }

  ghost predicate Upper(s: seq<Pair>, key: Key, l: nat)
  {
    && l <= |s|
    && (forall i :: 0 <= i < l ==> s[i].key <= key)
    && (forall i :: l <= i < |s| ==> key < s[i].key)
  }

  /** The child entered by `find_leaf_page` covers the key one level further down. */
  lemma {:induction false} Descend(order: nat, tower: Tower, root: int, i: nat, j: nat, key: Key, pos: nat, m: nat)
    requires Sound(order, tower, root)
    requires 0 < i < |tower| && Covers(tower[i], j, key) && Upper(tower[i][j].node.pairs, key, pos)
    requires m == if pos == 0 then 0 else pos - 1
    ensures m < |tower[i][j].node.pairs|
    ensures Covers(tower[i - 1], Off(tower[i], j) + m, key)
    ensures tower[i - 1][Off(tower[i], j) + m].page == tower[i][j].node.pairs[m].rid.page_no
  {
    AllNonEmpty(tower, order);
    AllSorted(tower, order, i);
    SortedSlice(tower[i], j);
    assert Joined(tower, i - 1);
    assert tower[i][j].node.pairs != [];
    CoversDown(tower[i], tower[i - 1], j, m, key);
  }

  lemma {:induction false} DescendFirst(order: nat, tower: Tower, root: int, i: nat)
    requires Sound(order, tower, root)
    requires 0 < i < |tower|
    ensures tower[i][0].node.pairs != [] && |tower[i - 1]| > 0
    ensures tower[i - 1][0].page == tower[i][0].node.pairs[0].rid.page_no
  {
    AllNonEmpty(tower, order);
    assert Joined(tower, i - 1);
    Entry(tower[i], 0, 0);
    assert LinkedAt(tower[i], tower[i - 1], 0);
  }

  /** The parent of node `c` of level `i`: the node and the slot above that hold its entry. */
  lemma {:induction false} ParentOf(order: nat, pages: map<int, Node>, levelOf: map<int, nat>, tower: Tower,
      nextPage: int, i: nat, c: nat, low: Level)
    returns (d: nat, s: nat)
    requires Placed(order, pages, levelOf, tower, nextPage)
    requires i + 1 < |tower| && c < |low| && LinkedButKey(tower[i + 1], low, c) && Distinct(low)
    ensures d < |tower[i + 1]| && CellOk(pages, levelOf, i + 1, tower[i + 1][d])
    ensures tower[i + 1][d].page == low[c].node.parent && low[c].node.parent != IX_NO_PAGE
    ensures s < |tower[i + 1][d].node.pairs| && Off(tower[i + 1], d) + s == c
    ensures FirstChild(tower[i + 1][d].node.pairs, low[c].page, s)
  {
    var up := tower[i + 1];
    d, s := Locate(up, c);
    CellAt(pages, levelOf, tower, i + 1, d);
    forall k | 0 <= k < s ensures up[d].node.pairs[k].rid.page_no != low[c].page {
      Entry(up, d, k);
      assert LinkedAt(up, low, Off(up, d) + k);
    }
  }

  ghost predicate FirstChild(pairs: seq<Pair>, child: int, s: nat)
  {
    && s < |pairs| && pairs[s].rid.page_no == child
    && forall k :: 0 <= k < s ==> pairs[k].rid.page_no != child
  }

  /** One step of key maintenance. */
  lemma {:induction false} KeyStep(order: nat, tower: Tower, root: int, i: nat, c: nat, d: nat, s: nat, key: Key)
    requires Links(tower, {i}) && Topped(tower, root) && i + 1 < |tower|
    requires c < |tower[i]| && LinkedButKey(tower[i + 1], tower[i], c)
    requires tower[i][c].node.pairs != [] && key == tower[i][c].node.pairs[0].key
    requires d < |tower[i + 1]| && s < |tower[i + 1][d].node.pairs| && Off(tower[i + 1], d) + s == c
    ensures tower[i + 1][d].node.pairs[s].key == key ==> Links(tower, {})
    ensures var n := tower[i + 1][d].node; var tower' := Put(tower, i + 1, d,
        n.(pairs := n.pairs[s := n.pairs[s].(key := key)]));
            && Links(tower', {i + 1}) && Topped(tower', root)
            && (i + 2 < |tower'| ==> LinkedButKey(tower'[i + 2], tower'[i + 1], d))
  {
    var up := tower[i + 1];
    Entry(up, d, s);
    if up[d].node.pairs[s].key == key {
      assert Linked(up, tower[i]);
      LinksMend(tower, {i}, i);
    }
    var n := up[d].node;
    LinkedSetKey(up, tower[i], d, s, key);
    var up' := up[d := Cell(up[d].page, n.(pairs := n.pairs[s := n.pairs[s].(key := key)]))];
    LinksUpdate(tower, {i}, i + 1, up');
    var tower' := tower[i + 1 := up'];
    LinksMend(tower', {i} + {i, i + 1}, i);
    if i + 2 < |tower| {
      assert Joined(tower, i + 1);
      var upup := tower[i + 2];
      forall j | 0 <= j < |up'| && j != d ensures LinkedAt(upup, up', j) {
        assert LinkedAt(upup, up, j);
      }
      assert LinkedAt(upup, up, d);
      assert LinkedButKey(upup, up', d);
    }
  }

  lemma {:induction false} MaintainEnd(order: nat, pages: map<int, Node>, levelOf: map<int, nat>, tower: Tower,
      nextPage: int, i: nat, c: nat)
    requires Placed(order, pages, levelOf, tower, nextPage)
    requires i < |tower| && c < |tower[i]| && tower[i][c].node.parent == IX_NO_PAGE && Links(tower, {i})
    requires i + 1 < |tower| ==> LinkedButKey(tower[i + 1], tower[i], c)
    ensures Links(tower, {})
  {
    if i + 1 < |tower| {
      var d, s := ParentOf(order, pages, levelOf, tower, nextPage, i, c, tower[i]);
      assert false;
    }
    forall k: nat | k + 1 < |tower| ensures Joined(tower, k) {
    }
  }

  // ---------- re-parenting ----------

  /** Level with the parent of nodes `from .. to` set to `p`. */
  ghost function Adopt(level: Level, from: nat, to: nat, p: int): Level
    requires from <= to <= |level|
  {
    seq(|level|, j requires 0 <= j < |level| =>
      if from <= j < to then Cell(level[j].page, level[j].node.(parent := p)) else level[j])
  }

  lemma {:induction false} AdoptNone(level: Level, from: nat, p: int)
    requires from <= |level|
    ensures Adopt(level, from, from, p) == level
  {
  }

  lemma {:induction false} AdoptNext(level: Level, from: nat, to: nat, p: int)
    requires from <= to < |level|
    ensures var a := Adopt(level, from, to, p);
            Adopt(level, from, to + 1, p) == a[to := Cell(a[to].page, a[to].node.(parent := p))]
  {
  }

  lemma {:induction false} AdoptMod(level: Level, from: nat, to: nat, p: int)
    requires from <= to <= |level|
    ensures ModParent(level, Adopt(level, from, to, p))
  {
  }

  // ---------- splitting ----------

  /** Node `j` keeps its first `m` pairs; `right` becomes its right neighbour. */
  ghost function SplitLevel(level: Level, j: nat, m: nat, right: Cell): Level
    requires j < |level| && m <= |level[j].node.pairs|
  {
    InsertCell(level[j := Cell(level[j].page, level[j].node.(pairs := level[j].node.pairs[..m]))], j + 1, right)
  }

  lemma {:induction false} SplitEntries(level: Level, j: nat, m: nat, right: Cell)
    requires j < |level| && m <= |level[j].node.pairs| && right.node.pairs == level[j].node.pairs[m..]
    ensures Pairs(SplitLevel(level, j, m, right)) == Pairs(level)
    ensures |Owners(SplitLevel(level, j, m, right))| == |Owners(level)| == |Pairs(level)|
    ensures forall x :: 0 <= x < |Owners(level)| ==>
              (Owners(SplitLevel(level, j, m, right))[x] ==
               if Off(level, j) + m <= x < Off(level, j) + |level[j].node.pairs| then right.page else Owners(level)[x])
    ensures Off(SplitLevel(level, j, m, right), j + 1) == Off(level, j) + m
  {
    var split := SplitLevel(level, j, m, right);
    Around(level, j);
    AroundTwo(split, j);
    assert split[..j] == level[..j] && split[j + 2..] == level[j + 1..];
    assert level[j].node.pairs == split[j].node.pairs + split[j + 1].node.pairs;
    assert level[..j] == split[..j];
  }

  /** The children of the right half change parent. */
  lemma {:induction false} SplitBelow(level: Level, below: Level, j: nat, m: nat, right: Cell)
    requires Linked(level, below)
    requires j < |level| && m <= |level[j].node.pairs| && right.node.pairs == level[j].node.pairs[m..]
    ensures Off(level, j) + |level[j].node.pairs| <= |below|
    ensures Linked(SplitLevel(level, j, m, right),
                   Adopt(below, Off(level, j) + m, Off(level, j) + |level[j].node.pairs|, right.page))
  {
    Around(level, j);
    SplitEntries(level, j, m, right);
    var split := SplitLevel(level, j, m, right);
    var below' := Adopt(below, Off(level, j) + m, Off(level, j) + |level[j].node.pairs|, right.page);
    forall k | 0 <= k < |below'| ensures LinkedAt(split, below', k) {
      assert LinkedAt(level, below, k);
    }
  }

  /** The level above does not know the right half yet. */
  lemma {:induction false} SplitAbove(up: Level, level: Level, j: nat, m: nat, right: Cell)
    requires Linked(up, level) && j < |level| && 0 < m <= |level[j].node.pairs|
    ensures Linked(up, Without(SplitLevel(level, j, m, right), j + 1))
  {
    var left := Cell(level[j].page, level[j].node.(pairs := level[j].node.pairs[..m]));
    assert Without(SplitLevel(level, j, m, right), j + 1) == level[j := left];
    LinkedLowUpdate(up, level, j, left);
  }

  lemma {:induction false} SplitSized(level: Level, order: nat, j: nat, right: Cell)
    requires order >= 3 && j < |level| && |level[j].node.pairs| == order + 1 && SizedBut(level, order, j)
    requires right.node.pairs == level[j].node.pairs[MinSize(order)..]
    ensures Sized(SplitLevel(level, j, MinSize(order), right), order)
  {
    var split := SplitLevel(level, j, MinSize(order), right);
    forall k | 0 <= k < |split| ensures SizeOk(split, order, split[k]) {
      if k < j {
        assert SizeOk(level, order, level[k]);
      } else if k > j + 1 {
        assert SizeOk(level, order, level[k - 1]);
      }
    }
  }

  ghost predicate SameLinks(a: Level, b: Level)
  {
    && |a| == |b|
    && forall j :: 0 <= j < |a| ==>
        a[j].page == b[j].page && a[j].node.prev == b[j].node.prev && a[j].node.next == b[j].node.next
  }

  lemma {:induction false} SameLinksChained(header: Node, a: Level, b: Level)
    requires SameLinks(a, b) && Chained(header, a)
    ensures Chained(header, b)
  {
    forall j | 0 <= j < |b| ensures ChainedAt(b, j) {
      assert ChainedAt(a, j);
    }
  }

  lemma {:induction false} Neighbours(header: Node, leaves: Level, j: nat)
    requires Chained(header, leaves) && j < |leaves|
    ensures leaves[j].node.next == PageAt(leaves, j + 1) && leaves[j].node.prev == PageAt(leaves, j - 1)
  {
    assert ChainedAt(leaves, j);
  }

  /** Linking a new leaf behind leaf `j`. */
  lemma {:induction false} ChainInsert(header: Node, a: Level, j: nat, q: int, n: Node, header': Node, b: Level)
    requires Chained(header, a) && j < |a| && |b| == |a|
    requires n.prev == a[j].page && n.next == a[j].node.next
    requires forall k :: 0 <= k < |a| ==>
               (&& b[k].page == a[k].page
                && b[k].node.next == (if k == j then q else a[k].node.next)
                && b[k].node.prev == (if k == j + 1 then q else a[k].node.prev))
    requires header' == header.(prev := if j + 1 == |a| then q else header.prev)
    ensures Chained(header', InsertCell(b, j + 1, Cell(q, n)))
  {
    var c := InsertCell(b, j + 1, Cell(q, n));
    assert ChainedAt(a, j);
    forall k | 0 <= k < |c| ensures ChainedAt(c, k) {
      if k <= j {
        assert ChainedAt(a, k);
      } else if k > j + 1 {
        assert ChainedAt(a, k - 1);
      }
    }
  }

  /** After a split: node `j + 1` of level `i` is new and the level above does not know it yet. */
  ghost predicate Pending(order: nat, tower: Tower, root: int, i: nat, j: nat)
  {
    && i < |tower| && j + 1 < |tower[i]|
    && Links(tower, {i}) && AllSized(tower, order)
    && tower[i][j].node.pairs != [] && tower[i][j + 1].node.pairs != []
    && tower[i][j + 1].node.parent == tower[i][j].node.parent
    && (i + 1 < |tower| ==> Topped(tower, root) && Linked(tower[i + 1], Without(tower[i], j + 1)))
    && (i + 1 == |tower| ==> |tower[i]| == 2 && tower[i][0].page == root && tower[i][0].node.parent == IX_NO_PAGE)
  }

  /** A full node before its split. */
  ghost predicate Overfull(order: nat, tower: Tower, root: int, i: nat, j: nat)
  {
    && order >= 3 && Inhabited(tower) && i < |tower| && j < |tower[i]|
    && Links(tower, {}) && Topped(tower, root) && AllSizedBut(tower, order, i, j)
    && |tower[i][j].node.pairs| == order + 1
  }

  ghost function SplitTower(tower: Tower, level: Level, i: nat, j: nat, m: nat, right: Cell): Tower
    requires i < |tower| && j < |level| && m <= |level[j].node.pairs|
    requires i > 0 ==> Off(level, j) + |level[j].node.pairs| <= |tower[i - 1]|
  {
    var t := tower[i := SplitLevel(level, j, m, right)];
    if i == 0 then t
    else t[i - 1 := Adopt(tower[i - 1], Off(level, j) + m, Off(level, j) + |level[j].node.pairs|, right.page)]
  }

  /** Splitting a full node leaves one pending entry and nothing else out of place. */
  lemma {:induction false} SplitPending(order: nat, tower: Tower, root: int, i: nat, j: nat, level: Level, right: Cell)
    requires Overfull(order, tower, root, i, j) && SameEntries(tower[i], level)
    requires right.node.pairs == level[j].node.pairs[MinSize(order)..] && right.node.parent == level[j].node.parent
    requires i > 0 ==> Off(level, j) + |level[j].node.pairs| <= |tower[i - 1]|
    ensures Pending(order, SplitTower(tower, level, i, j, MinSize(order), right), root, i, j)
  {
    hide Linked, SizedBut, Off, SplitLevel, Adopt, Links, AllSizedBut;
    var m := MinSize(order);
    var split := SplitLevel(level, j, m, right);
    var tower' := SplitTower(tower, level, i, j, m, right);
    SplitCells(level, j, m, right);
    SplitLinks(order, tower, root, i, j, level, right);
    SplitSizes(order, tower, root, i, j, level, right);
    assert SameEntry(tower[i][j], level[j]);
    if i + 1 < |tower| {
      LinkAt(tower, i);
      SameEntriesLinked(tower[i + 1], tower[i], level);
      SplitAbove(tower[i + 1], level, j, m, right);
    }
  }

  lemma {:induction false} LinkAt(tower: Tower, k: nat)
    requires Links(tower, {}) && k + 1 < |tower|
    ensures Linked(tower[k + 1], tower[k])
  {
    assert Joined(tower, k);
  }

  lemma {:induction false} SplitCells(level: Level, j: nat, m: nat, right: Cell)
    requires j < |level| && m <= |level[j].node.pairs|
    ensures var s := SplitLevel(level, j, m, right);
            && |s| == |level| + 1 && s[j + 1] == right
            && s[j] == Cell(level[j].page, level[j].node.(pairs := level[j].node.pairs[..m]))
            && (forall k :: 0 <= k < j ==> s[k] == level[k])
            && (forall k :: j + 1 < k < |s| ==> s[k] == level[k - 1])
  {
  }

  lemma {:induction false} SplitLinks(order: nat, tower: Tower, root: int, i: nat, j: nat, level: Level, right: Cell)
    requires Overfull(order, tower, root, i, j) && SameEntries(tower[i], level)
    requires right.node.pairs == level[j].node.pairs[MinSize(order)..]
    requires i > 0 ==> Off(level, j) + |level[j].node.pairs| <= |tower[i - 1]|
    ensures Links(SplitTower(tower, level, i, j, MinSize(order), right), {i})
  {
    hide Linked, SplitLevel, Adopt, Off;
    var m := MinSize(order);
    var tower' := SplitTower(tower, level, i, j, m, right);
    SameEntriesPairs(tower[i], level);
    forall k: nat | k + 1 < |tower'| && k != i ensures Joined(tower', k) {
      LinkAt(tower, k);
      if k + 1 == i {
        LinkedSame(tower[i], level, tower[k]);
        SplitBelow(level, tower[k], j, m, right);
      } else if k + 2 == i {
        var below := tower[i - 1];
        AdoptMod(below, Off(level, j) + m, Off(level, j) + |level[j].node.pairs|, right.page);
        ModParentPairs(below, tower'[i - 1]);
        LinkedSame(below, tower'[i - 1], tower[k]);
      }
    }
  }

  lemma {:induction false} LinkedSame(up: Level, up': Level, low: Level)
    requires Linked(up, low) && Pairs(up) == Pairs(up') && Owners(up) == Owners(up')
    ensures Linked(up', low)
  {
    forall j | 0 <= j < |low| ensures LinkedAt(up', low, j) {
      assert LinkedAt(up, low, j);
    }
  }

  lemma {:induction false} SplitSizes(order: nat, tower: Tower, root: int, i: nat, j: nat, level: Level, right: Cell)
    requires Overfull(order, tower, root, i, j) && SameEntries(tower[i], level)
    requires right.node.pairs == level[j].node.pairs[MinSize(order)..]
    requires i > 0 ==> Off(level, j) + |level[j].node.pairs| <= |tower[i - 1]|
    ensures AllSized(SplitTower(tower, level, i, j, MinSize(order), right), order)
  {
    hide SizedBut, SplitLevel, Adopt, Off;
    var m := MinSize(order);
    var tower' := SplitTower(tower, level, i, j, m, right);
    forall k | 0 <= k < |tower'| ensures Sized(tower'[k], order) {
      assert SizedBut(tower[k], order, if k == i then j else -1);
      if k == i {
        SameEntriesSized(tower[i], level, order, j);
        assert SameEntry(tower[i][j], level[j]);
        SplitSized(level, order, j, right);
      } else if k + 1 == i {
        AdoptMod(tower[k], Off(level, j) + m, Off(level, j) + |level[j].node.pairs|, right.page);
        ModParentSized(tower[k], tower'[k], order, -1);
      }
    }
  }

  lemma {:induction false} SameEntriesSized(a: Level, b: Level, order: nat, x: int)
    requires SameEntries(a, b) && SizedBut(a, order, x)
    ensures SizedBut(b, order, x)
  {
    forall j | 0 <= j < |b| && j != x ensures SizeOk(b, order, b[j]) {
      assert SizeOk(a, order, a[j]) && SameEntry(a[j], b[j]);
    }
  }

  /** The pages below a node are the ones its entries name. */
  lemma {:induction false} Kids(level: Level, below: Level, c: nat)
    requires Linked(level, below) && c < |level|
    ensures Off(level, c) + |level[c].node.pairs| <= |below|
    ensures forall k :: 0 <= k < |level[c].node.pairs| ==>
        level[c].node.pairs[k].rid.page_no == below[Off(level, c) + k].page
  {
    Around(level, c);
    forall k | 0 <= k < |level[c].node.pairs| ensures level[c].node.pairs[k].rid.page_no == below[Off(level, c) +
        k].page {
      assert LinkedAt(level, below, Off(level, c) + k);
    }
  }

  /** What `split` promises about the tower. */
  ghost predicate SplitDone(before: Tower, after: Tower, i: nat, j: nat, p: int, q: int)
  {
    && |after| == |before| && i < |before| && j < |before[i]| && |after[i]| == |before[i]| + 1
    && (forall k :: 0 <= k < |after| && k != i && k != i - 1 ==> after[k] == before[k])
    && (i > 0 ==> ModParent(before[i - 1], after[i - 1]))
    && after[i][j].page == p && after[i][j + 1].page == q
    && after[i][j].node.pairs + after[i][j + 1].node.pairs == before[i][j].node.pairs
    && (forall k :: 0 <= k < j ==> after[i][k].page == before[i][k].page)
    && (forall k :: j + 1 < k < |after[i]| ==> after[i][k].page == before[i][k - 1].page)
    && Pairs(after[i]) == Pairs(before[i])
  }

  lemma {:induction false} SplitSummary(tower: Tower, level: Level, i: nat, j: nat, m: nat, right: Cell)
    requires i < |tower| && j < |level| && m <= |level[j].node.pairs| && SameEntries(tower[i], level)
    requires i > 0 ==> Off(level, j) + |level[j].node.pairs| <= |tower[i - 1]|
    requires right.node.pairs == level[j].node.pairs[m..]
    ensures SplitDone(tower, SplitTower(tower, level, i, j, m, right), i, j, tower[i][j].page, right.page)
    ensures |SplitTower(tower, level, i, j, m, right)[i][j].node.pairs| == m
  {
    hide Off, SplitLevel, Adopt, Pairs, Owners;
    SplitCells(level, j, m, right);
    SplitEntries(level, j, m, right);
    SameEntriesPairs(tower[i], level);
    forall k | 0 <= k < |level| ensures SameEntry(tower[i][k], level[k]) {
    }
    if i > 0 {
      AdoptMod(tower[i - 1], Off(level, j) + m, Off(level, j) + |level[j].node.pairs|, right.page);
    }
  }

  // ---------- registering a new node with its parent ----------

  /** Registering the new node restores the links; only the parent's size may be off. */
  lemma {:induction false} Register(order: nat, tower: Tower, root: int, i: nat, j: nat, d: nat, s: nat, pair: Pair)
    requires Pending(order, tower, root, i, j) && i + 1 < |tower|
    requires order >= 3 && Inhabited(tower)
    requires d < |tower[i + 1]| && s < |tower[i + 1][d].node.pairs| && Off(tower[i + 1], d) + s == j
    requires tower[i + 1][d].page == tower[i][j].node.parent
    requires pair.rid.page_no == tower[i][j + 1].page && pair.key == tower[i][j + 1].node.pairs[0].key
    ensures var n := tower[i + 1][d].node;
            var n' := n.(pairs := n.pairs[..s + 1] + [pair] + n.pairs[s + 1..]);
            var tower' := Put(tower, i + 1, d, n');
            && Links(tower', {}) && Topped(tower', root) && AllSizedBut(tower', order, i + 1, d)
            && Inhabited(tower') && |n'.pairs| == |n.pairs| + 1 <= order + 1
            && (|n'.pairs| <= order ==> AllSized(tower', order))
  {
    hide Linked, Off, SizedBut;
    var up := tower[i + 1];
    var n := up[d].node;
    var n' := n.(pairs := n.pairs[..s + 1] + [pair] + n.pairs[s + 1..]);
    var tower' := Put(tower, i + 1, d, n');
    var cell := Cell(up[d].page, n');
    LinkedInsert(up, tower[i], d, s, pair);
    LinksUpdate(tower, {i}, i + 1, up[d := cell]);
    LinksMend(tower', {i} + {i, i + 1}, i);
    if i + 2 < |tower| {
      assert Joined(tower, i + 1);
      LinkedLowUpdate(tower[i + 2], up, d, cell);
      LinksMend(tower', {i + 1}, i + 1);
    } else {
      LinksTop(tower', i + 1);
    }
    GrowSized(tower, order, i + 1, d, n');
  }

  lemma {:induction false} LinksTop(tower: Tower, i: nat)
    requires Links(tower, {i}) && i + 1 == |tower|
    ensures Links(tower, {})
  {
    forall k: nat | k + 1 < |tower| ensures Joined(tower, k) {
    }
  }

  lemma {:induction false} GrowSized(tower: Tower, order: nat, i: nat, d: nat, n: Node)
    requires AllSized(tower, order) && i < |tower| && d < |tower[i]|
    requires |n.pairs| == |tower[i][d].node.pairs| + 1
    ensures AllSizedBut(Put(tower, i, d, n), order, i, d)
    ensures |n.pairs| <= order + 1
    ensures |n.pairs| <= order ==> AllSized(Put(tower, i, d, n), order)
  {
    var tower' := Put(tower, i, d, n);
    forall k | 0 <= k < |tower| ensures SizedBut(tower'[k], order, if k == i then d else -1)
                                      && (|n.pairs| <= order ==> Sized(tower'[k], order)) {
      assert Sized(tower[k], order);
      forall l | 0 <= l < |tower[k]| ensures SizeOk(tower[k], order, tower[k][l]) {
      }
    }
    assert Sized(tower[i], order) && SizeOk(tower[i], order, tower[i][d]);
  }

  /** A new root above the two halves of the old one. */
  lemma {:induction false} NewRoot(order: nat, tower: Tower, root: int, i: nat, c: Cell, halves: Level)
    requires Pending(order, tower, root, i, 0) && i + 1 == |tower| && order >= 3
    requires ModParent(tower[i], halves)
    requires forall k :: 0 <= k < |halves| ==> halves[k].node.parent == c.page
    requires c.node.parent == IX_NO_PAGE && |c.node.pairs| == 2
    requires forall k :: 0 <= k < 2 ==>
        c.node.pairs[k].rid.page_no == tower[i][k].page && c.node.pairs[k].key == tower[i][k].node.pairs[0].key
    ensures var tower' := tower[i := halves] + [[c]];
            && Links(tower', {}) && Topped(tower', c.page) && AllSized(tower', order)
  {
    var tower' := tower[i := halves] + [[c]];
    PairsOne(c);
    assert forall k :: 0 <= k < |halves| ==> ModParentAt(tower[i][k], halves[k]);
    forall k | 0 <= k < |halves| ensures LinkedAt([c], halves, k) {
    }
    ModParentPairs(tower[i], halves);
    forall k: nat | k + 1 < |tower'| ensures Joined(tower', k) {
      if k < i {
        assert Joined(tower, k);
        if k + 1 == i {
          LinkedSame(tower[i], halves, tower[k]);
        }
      }
    }
    forall k | 0 <= k < |tower'| ensures Sized(tower'[k], order) {
      if k < |tower| {
        assert Sized(tower[k], order);
      }
      if k == i {
        ModParentSized(tower[i], halves, order, -1);
      }
    }
  }

  /** The parent of a node whose new sibling is still pending. */
  lemma {:induction false} PendingParent(order: nat, pages: map<int, Node>, levelOf: map<int, nat>, tower: Tower,
      nextPage: int, root: int, i: nat, j: nat)
    returns (d: nat, s: nat)
    requires Placed(order, pages, levelOf, tower, nextPage) && Pending(order, tower, root, i, j) && i + 1 < |tower|
    ensures d < |tower[i + 1]| && CellOk(pages, levelOf, i + 1, tower[i + 1][d])
    ensures tower[i + 1][d].page == tower[i][j].node.parent && tower[i][j].node.parent != IX_NO_PAGE
    ensures s < |tower[i + 1][d].node.pairs| && Off(tower[i + 1], d) + s == j
    ensures FirstChild(tower[i + 1][d].node.pairs, tower[i][j].page, s)
  {
    var low := Without(tower[i], j + 1);
    CellAt(pages, levelOf, tower, i, j);
    assert LinkedAt(tower[i + 1], low, j);
    d, s := ParentOf(order, pages, levelOf, tower, nextPage, i, j, low);
  }

  /** The node at a place of the tower is the content of its page. */
  lemma {:induction false} At(order: nat, pages: map<int, Node>, levelOf: map<int, nat>, tower: Tower, nextPage: int,
      i: nat, j: nat)
    requires Placed(order, pages, levelOf, tower, nextPage) && i < |tower| && j < |tower[i]|
    ensures CellOk(pages, levelOf, i, tower[i][j]) && Distinct(tower[i]) && IX_LEAF_HEADER_PAGE in pages
    ensures |tower[i][j].node.pairs| <= order + 1
  {
  }

  // ---------- contents ----------

  ghost predicate IsLower(s: seq<Pair>, key: Key, l: nat)
  {
    && l <= |s|
    && (forall i :: 0 <= i < l ==> s[i].key < key)
    && (forall i :: l <= i < |s| ==> key <= s[i].key)
  }

  function InsertPairs(s: seq<Pair>, pos: nat, ps: seq<Pair>): seq<Pair>
    requires pos <= |s|
  {
    s[..pos] + ps + s[pos..]
  }

  function ErasePair(s: seq<Pair>, pos: nat): seq<Pair>
    requires pos < |s|
  {
    s[..pos] + s[pos + 1..]
  }

  /** Adding and removing pairs at the ends of a node. */
  lemma {:induction false} EndPairs(s: seq<Pair>, p: Pair)
    ensures InsertPairs(s, |s|, [p]) == s + [p] && InsertPairs(s, 0, [p]) == [p] + s
    ensures s != [] ==> ErasePair(s, 0) == s[1..] && ErasePair(s, |s| - 1) == s[..|s| - 1]
  {
  }

  /** The finite map that a strictly sorted list of pairs stands for. */
  ghost function MapOf(s: seq<Pair>): map<Key, Rid>
    requires Sorted(s)
  {
    map i | 0 <= i < |s| :: s[i].key := s[i].rid
  }

  lemma {:induction false} MapHas(s: seq<Pair>, i: nat)
    requires Sorted(s) && i < |s|
    ensures s[i].key in MapOf(s) && MapOf(s)[s[i].key] == s[i].rid
  {
  }

  lemma {:induction false} MapWhere(s: seq<Pair>, key: Key) returns (i: nat)
    requires Sorted(s) && key in MapOf(s)
    ensures i < |s| && s[i].key == key && MapOf(s)[key] == s[i].rid
  {
    i :| i < |s| && s[i].key == key;
  }

  lemma {:induction false} SortedInsert(s: seq<Pair>, l: nat, key: Key, rid: Rid)
    requires Sorted(s) && IsLower(s, key, l) && (l < |s| ==> s[l].key != key)
    ensures Sorted(InsertPairs(s, l, [Pair(key, rid)]))
  {
  }

  lemma {:induction false} MapInsert(s: seq<Pair>, l: nat, key: Key, rid: Rid)
    requires Sorted(s) && IsLower(s, key, l) && (l < |s| ==> s[l].key != key)
    ensures key !in MapOf(s)
    ensures Sorted(InsertPairs(s, l, [Pair(key, rid)]))
    ensures MapOf(InsertPairs(s, l, [Pair(key, rid)])) == MapOf(s)[key := rid]
  {
    hide MapOf, Sorted;
    var t := InsertPairs(s, l, [Pair(key, rid)]);
    SortedInsert(s, l, key, rid);
    if key in MapOf(s) {
      var i := MapWhere(s, key);
      SortedAt(s, l, i);
    }
    var m := MapOf(s)[key := rid];
    forall k | k in MapOf(t) ensures k in m && MapOf(t)[k] == m[k] {
      var i := MapWhere(t, k);
      if i < l {
        MapHas(s, i);
      } else if i > l {
        MapHas(s, i - 1);
      }
    }
    forall k | k in m ensures k in MapOf(t) {
      if k == key {
        MapHas(t, l);
      } else {
        var i := MapWhere(s, k);
        MapHas(t, if i < l then i else i + 1);
      }
    }
  }

  lemma {:induction false} SortedAt(s: seq<Pair>, a: nat, b: nat)
    requires Sorted(s) && a < b < |s|
    ensures s[a].key < s[b].key
  {
  }

  lemma {:induction false} SortedErase(s: seq<Pair>, l: nat)
    requires Sorted(s) && l < |s|
    ensures Sorted(ErasePair(s, l))
  {
  }

  lemma {:induction false} MapErase(s: seq<Pair>, l: nat)
    requires Sorted(s) && l < |s|
    ensures s[l].key in MapOf(s)
    ensures Sorted(ErasePair(s, l))
    ensures MapOf(ErasePair(s, l)) == MapOf(s) - {s[l].key}
  {
    hide MapOf, Sorted;
    var t := ErasePair(s, l);
    SortedErase(s, l);
    MapHas(s, l);
    var m := MapOf(s) - {s[l].key};
    forall k | k in MapOf(t) ensures k in m && MapOf(t)[k] == m[k] {
      var i := MapWhere(t, k);
      if i < l {
        SortedAt(s, i, l);
        MapHas(s, i);
      } else {
        SortedAt(s, l, i + 1);
        MapHas(s, i + 1);
      }
    }
    forall k | k in m ensures k in MapOf(t) {
      var i := MapWhere(s, k);
      MapHas(t, if i < l then i else i - 1);
    }
  }

  /** A search in the covering node is a search in the whole level. */
  lemma {:induction false} LowerInLevel(level: Level, c: nat, key: Key, l: nat)
    requires Sorted(Pairs(level)) && Covers(level, c, key) && IsLower(level[c].node.pairs, key, l)
    ensures IsLower(Pairs(level), key, Off(level, c) + l)
    ensures l < |level[c].node.pairs| ==>
        Off(level, c) + l < |Pairs(level)| && Pairs(level)[Off(level, c) + l] == level[c].node.pairs[l]
    ensures l == |level[c].node.pairs| && Off(level, c) + l < |Pairs(level)| ==>
        key < Pairs(level)[Off(level, c) + l].key
  {
    hide Sorted;
    var s := level[c].node.pairs;
    var off := Off(level, c);
    CoversSplit(level, c, key);
    Around(level, c);
    var all := Pairs(level);
    forall i | 0 <= i < |all| ensures if i < off + l then all[i].key < key else key <= all[i].key {
      if off <= i < off + |s| {
        assert all[i] == s[i - off];
      }
    }
  }

  /** A leaf answers for the whole index. */
  lemma {:induction false} LookupInLevel(level: Level, c: nat, key: Key, l: nat)
    requires Sorted(Pairs(level)) && Covers(level, c, key) && IsLower(level[c].node.pairs, key, l)
    ensures key in MapOf(Pairs(level)) <==> l < |level[c].node.pairs| && level[c].node.pairs[l].key == key
    ensures key in MapOf(Pairs(level)) ==> MapOf(Pairs(level))[key] == level[c].node.pairs[l].rid
  {
    hide Sorted, MapOf;
    LowerInLevel(level, c, key, l);
    var all := Pairs(level);
    var g := Off(level, c) + l;
    if key in MapOf(all) {
      var i := MapWhere(all, key);
      if g < i {
        SortedAt(all, g, i);
      }
    }
    if l < |level[c].node.pairs| {
      MapHas(all, g);
    }
  }

  /** Replacing the pairs of one node. */
  lemma {:induction false} LevelEdit(level: Level, c: nat, n: Node)
    requires c < |level|
    ensures Pairs(level[c := Cell(level[c].page, n)]) == Pairs(level[..c]) + n.pairs + Pairs(level[c + 1..])
  {
    var level' := level[c := Cell(level[c].page, n)];
    Around(level', c);
    assert level'[..c] == level[..c] && level'[c + 1..] == level[c + 1..];
  }

  lemma {:induction false} EditMiddle(a: seq<Pair>, l: seq<Pair>, b: seq<Pair>, pos: nat, pair: Pair)
    requires pos <= |l|
    ensures InsertPairs(a + l + b, |a| + pos, [pair]) == a + InsertPairs(l, pos, [pair]) + b
    ensures pos < |l| ==> ErasePair(a + l + b, |a| + pos) == a + ErasePair(l, pos) + b
  {
  }

  lemma {:induction false} LevelInsert(level: Level, c: nat, pos: nat, n: Node, pair: Pair)
    requires c < |level| && pos <= |level[c].node.pairs| && n.pairs == InsertPairs(level[c].node.pairs, pos, [pair])
    ensures Off(level, c) + pos <= |Pairs(level)|
    ensures Pairs(level[c := Cell(level[c].page, n)]) == InsertPairs(Pairs(level), Off(level, c) + pos, [pair])
  {
    hide Pairs, Owners, Off, InsertPairs, Rep;
    Around(level, c);
    LevelEdit(level, c, n);
    OwnersLength(level[..c]);
    EditMiddle(Pairs(level[..c]), level[c].node.pairs, Pairs(level[c + 1..]), pos, pair);
  }

  lemma {:induction false} LevelErase(level: Level, c: nat, pos: nat, n: Node)
    requires c < |level| && pos < |level[c].node.pairs| && n.pairs == ErasePair(level[c].node.pairs, pos)
    ensures Off(level, c) + pos < |Pairs(level)|
    ensures Pairs(level[c := Cell(level[c].page, n)]) == ErasePair(Pairs(level), Off(level, c) + pos)
  {
    hide Pairs, Owners, Off, ErasePair, Rep;
    Around(level, c);
    LevelEdit(level, c, n);
    OwnersLength(level[..c]);
    EditMiddle(Pairs(level[..c]), level[c].node.pairs, Pairs(level[c + 1..]), pos, level[c].node.pairs[pos]);
  }

  /** Editing the pairs of a leaf disturbs at most its own entry in the parent. */
  lemma {:induction false} LeafEdit(tower: Tower, root: int, j: nat, n: Node)
    requires Links(tower, {}) && Topped(tower, root) && j < |tower[0]| && n.parent == tower[0][j].node.parent
    ensures var tower' := Put(tower, 0, j, n);
            && Links(tower', {0}) && Topped(tower', root)
            && (|tower'| > 1 ==> LinkedButKey(tower'[1], tower'[0], j))
            && (SameFace(tower[0][j], Cell(tower[0][j].page, n)) ==> Links(tower', {}))
  {
    var tower' := Put(tower, 0, j, n);
    LinksUpdate(tower, {}, 0, tower'[0]);
    assert {} + {-1, 0} - {-1} == {0};
    forall k: nat | k + 1 < |tower'| && k !in {0} ensures Joined(tower', k) {
      assert Joined(tower, k);
    }
    if |tower| > 1 {
      assert Joined(tower, 0);
      var up := tower[1];
      forall k | 0 <= k < |tower[0]| && k != j ensures LinkedAt(up, tower'[0], k) {
        assert LinkedAt(up, tower[0], k);
      }
      assert LinkedAt(up, tower[0], j);
      if SameFace(tower[0][j], Cell(tower[0][j].page, n)) {
        LinkedLowUpdate(up, tower[0], j, Cell(tower[0][j].page, n));
        LinksMend(tower', {0}, 0);
      }
    } else {
      LinksTop(tower', 0);
    }
  }

  ghost predicate SamePages(a: Level, b: Level)
  {
    && |a| == |b|
    && forall k :: 0 <= k < |a| ==> a[k].page == b[k].page
  }

  lemma {:induction false} LeafLinks(header: Node, leaves: Level, j: nat, n: Node)
    requires Chained(header, leaves) && j < |leaves|
    requires n.prev == leaves[j].node.prev && n.next == leaves[j].node.next
    ensures Chained(header, leaves[j := Cell(leaves[j].page, n)])
  {
    SameLinksChained(header, leaves, leaves[j := Cell(leaves[j].page, n)]);
  }

  lemma {:induction false} FitSized(tower: Tower, order: nat, i: nat, j: nat)
    requires AllSizedBut(tower, order, i, j) && i < |tower| && j < |tower[i]| && SizeOk(tower[i], order, tower[i][j])
    ensures AllSized(tower, order)
  {
    forall k | 0 <= k < |tower| ensures Sized(tower[k], order) {
      assert SizedBut(tower[k], order, if k == i then j else -1);
    }
  }

  lemma {:induction false} CoversCell(level: Level, c: nat, key: Key)
    requires Covers(level, c, key)
    ensures c < |level|
  {
  }

  lemma {:induction false} SameShapeAllSized(a: Tower, b: Tower, order: nat)
    requires SameShape(a, b)
    ensures AllSized(a, order) ==> AllSized(b, order)
    ensures |a| == |b|
  {
    if AllSized(a, order) {
      assert AllSizedBut(a, order, -1, -1);
      SameShapeSized(a, b, order, -1, -1);
      forall k | 0 <= k < |b| ensures Sized(b[k], order) {
        assert SizedBut(b[k], order, if k == -1 then -1 else -1);
      }
    }
  }

  /** After a leaf split, a search in the right half tells which half holds the key. */
  lemma {:induction false} WhichHalf(level: Level, j: nat, pair: Pair, l: nat)
    requires Sorted(Pairs(level)) && j + 1 < |level| && level[j + 1].node.pairs != []
    requires pair in level[j].node.pairs + level[j + 1].node.pairs && IsLower(level[j + 1].node.pairs, pair.key, l)
    ensures l < |level[j + 1].node.pairs|
    ensures if level[j + 1].node.pairs[l].key == pair.key then pair in level[j + 1].node.pairs
        else pair in level[j].node.pairs
  {
    hide Sorted, Pairs;
    var a, b := level[j].node.pairs, level[j + 1].node.pairs;
    if pair in a {
      var x :| 0 <= x < |a| && a[x] == pair;
      PairOrder(level, j, x, j + 1, 0);
      if l < |b| {
        PairOrder(level, j, x, j + 1, l);
      }
    } else {
      var x :| 0 <= x < |b| && b[x] == pair;
      SortedSlice(level, j + 1);
      if l < x {
        SortedAt(b, l, x);
      }
    }
  }

  /** Entries grow from node to node. */
  lemma {:induction false} PairOrder(level: Level, c: nat, x: nat, d: nat, y: nat)
    requires Sorted(Pairs(level)) && c < d < |level| && x < |level[c].node.pairs| && y < |level[d].node.pairs|
    ensures level[c].node.pairs[x].key < level[d].node.pairs[y].key
  {
    Entry(level, c, x);
    Entry(level, d, y);
    Around(level, c);
    OffMono(level, c + 1, d);
  }

  ghost predicate HeldIn(leaves: Level, page: int, pair: Pair)
  {
    exists k :: 0 <= k < |leaves| && leaves[k].page == page && pair in leaves[k].node.pairs
  }

  lemma {:induction false} ModParentCell(a: Level, b: Level, j: nat)
    requires ModParent(a, b) && j < |a|
    ensures |a| == |b| && ModParentAt(a[j], b[j])
  {
  }

  lemma {:induction false} ModParentPages(a: Level, b: Level)
    requires ModParent(a, b)
    ensures SamePages(a, b)
  {
    assert forall j :: 0 <= j < |a| ==> ModParentAt(a[j], b[j]);
  }

  // ---------- deletion ----------

  /** A node that may have lost one pair too many. */
  ghost predicate Thin(order: nat, tower: Tower, root: int, i: nat, j: nat)
  {
    && order >= 3 && Inhabited(tower) && i < |tower| && j < |tower[i]|
    && Links(tower, {}) && Topped(tower, root) && AllSizedBut(tower, order, i, j)
    && |tower[i][j].node.pairs| <= order
    && (|tower[i]| > 1 ==> |tower[i][j].node.pairs| + 1 >= MinSize(order))
  }

  /** Two neighbours `a` and `a + 1` of a level below the same parent `d`, in slots `s` and `s + 1`. */
  ghost predicate Siblings(tower: Tower, i: nat, a: nat, d: nat, s: nat)
  {
    && i + 1 < |tower| && a + 1 < |tower[i]| && d < |tower[i + 1]|
    && s + 1 < |tower[i + 1][d].node.pairs| && Off(tower[i + 1], d) + s == a
  }

  /** The two neighbours share their pairs out anew. */
  ghost function Rechunk(level: Level, a: nat, x: seq<Pair>, y: seq<Pair>): Level
    requires a + 1 < |level|
  {
    level[a := Cell(level[a].page, level[a].node.(pairs := x))][a +
        1 := Cell(level[a + 1].page, level[a + 1].node.(pairs := y))]
  }

  lemma {:induction false} RechunkEntries(level: Level, a: nat, x: seq<Pair>, y: seq<Pair>)
    requires a + 1 < |level| && x + y == level[a].node.pairs + level[a + 1].node.pairs
    ensures Pairs(Rechunk(level, a, x, y)) == Pairs(level)
    ensures |Owners(Rechunk(level, a, x, y))| == |Owners(level)| == |Pairs(level)|
    ensures forall k :: 0 <= k < |Owners(level)| ==>
              (Owners(Rechunk(level, a, x, y))[k] ==
               if k < Off(level, a) || k >= Off(level, a) + |x| + |y| then Owners(level)[k]
               else if k < Off(level, a) + |x| then level[a].page else level[a + 1].page)
    ensures forall k :: Off(level, a) <= k < Off(level, a) + |x| + |y| ==>
              (k < |Owners(level)| && Owners(level)[k] == if k < Off(level, a) + |level[a].node.pairs|
                  then level[a].page else level[a + 1].page)
  {
    var level' := Rechunk(level, a, x, y);
    AroundTwo(level, a);
    AroundTwo(level', a);
    assert level'[..a] == level[..a] && level'[a + 2..] == level[a + 2..];
    assert |x| + |y| == |level[a].node.pairs| + |level[a + 1].node.pairs|;
  }

  /** The children in `from .. to` of the two neighbours change parent. */
  lemma {:induction false} RechunkBelow(level: Level, below: Level, a: nat, x: seq<Pair>, y: seq<Pair>, from: nat,
      to: nat, page: int)
    requires Linked(level, below) && a + 1 < |level| && x + y == level[a].node.pairs + level[a + 1].node.pairs
    requires from <= to <= |below|
    requires |x| <= |level[a].node.pairs| ==>
        from == Off(level, a) + |x| && to == Off(level, a) + |level[a].node.pairs| && page == level[a + 1].page
    requires |x| > |level[a].node.pairs| ==>
        from == Off(level, a) + |level[a].node.pairs| && to == Off(level, a) + |x| && page == level[a].page
    ensures Linked(Rechunk(level, a, x, y), Adopt(below, from, to, page))
  {
    RechunkEntries(level, a, x, y);
    var level', below' := Rechunk(level, a, x, y), Adopt(below, from, to, page);
    AroundTwo(level, a);
    assert |x| + |y| == |level[a].node.pairs| + |level[a + 1].node.pairs|;
    forall k | 0 <= k < |below'| ensures LinkedAt(level', below', k) {
      assert LinkedAt(level, below, k);
    }
  }

  /** Seen from above, only the key of the right neighbour can have changed. */
  lemma {:induction false} RechunkAbove(up: Level, level: Level, a: nat, x: seq<Pair>, y: seq<Pair>)
    requires Linked(up, level) && a + 1 < |level| && x + y == level[a].node.pairs + level[a + 1].node.pairs
    requires level[a].node.pairs != [] && x != []
    ensures LinkedButKey(up, Rechunk(level, a, x, y), a + 1)
  {
    var level' := Rechunk(level, a, x, y);
    assert x[0] == (x + y)[0] == level[a].node.pairs[0];
    forall j | 0 <= j < |level'| && j != a + 1 ensures LinkedAt(up, level', j) {
      assert LinkedAt(up, level, j);
    }
    assert LinkedAt(up, level, a + 1);
  }

  ghost predicate AdoptRange(level: Level, below: Level, a: nat, x: seq<Pair>, from: nat, to: nat, page: int)
    requires a + 1 < |level|
  {
    && from <= to <= |below|
    && (|x| <= |level[a].node.pairs| ==>
        from == Off(level, a) + |x| && to == Off(level, a) + |level[a].node.pairs| && page == level[a + 1].page)
    && (|x| > |level[a].node.pairs| ==>
        from == Off(level, a) + |level[a].node.pairs| && to == Off(level, a) + |x| && page == level[a].page)
  }

  /** The tower after its two neighbours have shared out their pairs and adopted their children. */
  ghost function RechunkTower(tower: Tower, i: nat, a: nat, x: seq<Pair>, y: seq<Pair>, from: nat, to: nat,
      page: int): Tower
    requires i < |tower| && a + 1 < |tower[i]|
    requires i > 0 ==> from <= to <= |tower[i - 1]|
  {
    var t := tower[i := Rechunk(tower[i], a, x, y)];
    if i == 0 then t else t[i - 1 := Adopt(tower[i - 1], from, to, page)]
  }

  lemma {:induction false} RechunkLinks(tower: Tower, i: nat, a: nat, x: seq<Pair>, y: seq<Pair>, from: nat, to: nat,
      page: int)
    requires Links(tower, {}) && i < |tower| && a + 1 < |tower[i]|
    requires x + y == tower[i][a].node.pairs + tower[i][a + 1].node.pairs
    requires i > 0 ==> AdoptRange(tower[i], tower[i - 1], a, x, from, to, page)
    ensures Links(RechunkTower(tower, i, a, x, y, from, to, page), {i})
  {
    hide Linked, Rechunk, Adopt, Off;
    var tower' := RechunkTower(tower, i, a, x, y, from, to, page);
    forall k: nat | k + 1 < |tower'| && k != i ensures Joined(tower', k) {
      LinkAt(tower, k);
      if k + 1 == i {
        RechunkBelow(tower[i], tower[k], a, x, y, from, to, page);
      } else if k + 2 == i {
        var below := tower[i - 1];
        AdoptMod(below, from, to, page);
        ModParentPairs(below, tower'[i - 1]);
        LinkedSame(below, tower'[i - 1], tower[k]);
      }
    }
  }

  lemma {:induction false} RechunkSized(tower: Tower, order: nat, i: nat, a: nat, x: seq<Pair>, y: seq<Pair>, from: nat,
      to: nat, page: int, e: int)
    requires i < |tower| && a + 1 < |tower[i]| && a <= e <= a + 1 && AllSizedBut(tower, order, i, e)
    requires i > 0 ==> from <= to <= |tower[i - 1]|
    requires MinSize(order) <= |x| <= order && MinSize(order) <= |y| <= order
    ensures AllSized(RechunkTower(tower, i, a, x, y, from, to, page), order)
  {
    hide Adopt;
    var tower' := RechunkTower(tower, i, a, x, y, from, to, page);
    forall k | 0 <= k < |tower'| ensures Sized(tower'[k], order) {
      assert SizedBut(tower[k], order, if k == i then e else -1);
      if k + 1 == i {
        AdoptMod(tower[k], from, to, page);
        ModParentSized(tower[k], tower'[k], order, -1);
      }
      if k == i {
        forall l | 0 <= l < |tower'[k]| ensures SizeOk(tower'[k], order, tower'[k][l]) {
          if l != a && l != a + 1 {
            assert SizeOk(tower[k], order, tower[k][l]);
          }
        }
      }
    }
  }

  /** After redistribution and the new key in the parent, everything is in order. */
  lemma {:induction false} Redistributed(order: nat, tower: Tower, root: int, i: nat, a: nat, d: nat, s: nat, e: int,
                                         x: seq<Pair>, y: seq<Pair>, from: nat, to: nat, page: int)
    requires order >= 3 && Inhabited(tower) && Links(tower, {}) && Topped(tower, root) && Siblings(tower, i, a, d, s)
    requires a <= e <= a + 1 && AllSizedBut(tower, order, i, e)
    requires x + y == tower[i][a].node.pairs + tower[i][a + 1].node.pairs && tower[i][a].node.pairs != []
    requires MinSize(order) <= |x| <= order && MinSize(order) <= |y| <= order
    requires i > 0 ==> AdoptRange(tower[i], tower[i - 1], a, x, from, to, page)
    ensures var t := RechunkTower(tower, i, a, x, y, from, to, page);
            var n := tower[i + 1][d].node;
            var t' := Put(t, i + 1, d, n.(pairs := n.pairs[s + 1 := n.pairs[s + 1].(key := y[0].key)]));
            Links(t', {}) && Topped(t', root) && AllSized(t', order)
  {
    hide Linked, LinkedButKey, Rechunk, Adopt, Off, Links, AllSizedBut, AllSized;
    var t := RechunkTower(tower, i, a, x, y, from, to, page);
    RechunkLinks(tower, i, a, x, y, from, to, page);
    RechunkSized(tower, order, i, a, x, y, from, to, page, e);
    LinkAt(tower, i);
    RechunkAbove(tower[i + 1], tower[i], a, x, y);
    RechunkCell(tower[i], a, x, y);
    SiblingKey(order, t, root, i, a, d, s, y[0].key);
  }

  lemma {:induction false} RechunkCell(level: Level, a: nat, x: seq<Pair>, y: seq<Pair>)
    requires a + 1 < |level|
    ensures |Rechunk(level, a, x, y)| == |level|
    ensures Rechunk(level, a, x, y)[a].node.pairs == x && Rechunk(level, a, x, y)[a + 1].node.pairs == y
    ensures SamePages(level, Rechunk(level, a, x, y))
  {
  }

  /** Updating the key of the right one of two siblings in their parent. */
  lemma {:induction false} SiblingKey(order: nat, t: Tower, root: int, i: nat, a: nat, d: nat, s: nat, key: Key)
    requires Links(t, {i}) && Topped(t, root) && AllSized(t, order) && Siblings(t, i, a, d, s)
    requires LinkedButKey(t[i + 1], t[i], a + 1) && t[i][a + 1].node.pairs != [] && key == t[i][a + 1].node.pairs[0].key
    ensures var n := t[i + 1][d].node;
            var t' := Put(t, i + 1, d, n.(pairs := n.pairs[s + 1 := n.pairs[s + 1].(key := key)]));
            Links(t', {}) && Topped(t', root) && AllSized(t', order)
  {
    hide Linked, LinkedButKey, Off;
    var up := t[i + 1];
    var n := up[d].node;
    var cell := Cell(up[d].page, n.(pairs := n.pairs[s + 1 := n.pairs[s + 1].(key := key)]));
    var t' := Put(t, i + 1, d, cell.node);
    LinkedSetKey(up, t[i], d, s + 1, key);
    LinksUpdate(t, {i}, i + 1, up[d := cell]);
    LinksMend(t', {i} + {i, i + 1}, i);
    if i + 2 < |t| {
      assert Joined(t, i + 1);
      LinkedLowUpdate(t[i + 2], up, d, cell);
      LinksMend(t', {i + 1}, i + 1);
    } else {
      LinksTop(t', i + 1);
    }
    SameShapeRefl(t);
    SameShapePut(t, t, i + 1, d, cell.node);
    SameShapeAllSized(t, t', order);
  }

  // ---------- merging ----------

  /** The left neighbour takes over all pairs; the right one still stands beside it. */
  ghost function Absorb(level: Level, a: nat): Level
    requires a + 1 < |level|
  {
    level[a := Cell(level[a].page, level[a].node.(pairs := level[a].node.pairs + level[a + 1].node.pairs))]
  }

  /** Merging does not change the entries of a level; the right pairs get a new owner. */
  lemma {:induction false} MergeEntries(level: Level, a: nat, x: Level)
    requires a + 1 < |level| && SameEntries(Absorb(level, a), x)
    ensures var r := Rechunk(level, a, level[a].node.pairs + level[a + 1].node.pairs, []);
            Pairs(Without(x, a + 1)) == Pairs(r) == Pairs(level) && Owners(Without(x, a + 1)) == Owners(r)
  {
    var both := level[a].node.pairs + level[a + 1].node.pairs;
    var merged := Without(Absorb(level, a), a + 1);
    RechunkEntries(level, a, both, []);
    DropEmpty(Rechunk(level, a, both, []), a + 1);
    assert merged == Without(Rechunk(level, a, both, []), a + 1);
    hide Pairs, Owners, Rechunk;
    forall k | 0 <= k < |merged| ensures SameEntry(merged[k], Without(x, a + 1)[k]) {
      assert SameEntry(Absorb(level, a)[if k <= a then k else k + 1], x[if k <= a then k else k + 1]);
    }
    SameEntriesPairs(merged, Without(x, a + 1));
  }

  lemma {:induction false} DropEmpty(level: Level, c: nat)
    requires c < |level| && level[c].node.pairs == []
    ensures Pairs(Without(level, c)) == Pairs(level) && Owners(Without(level, c)) == Owners(level)
  {
    Around(level, c);
    PairsCat(level[..c], level[c + 1..]);
    OwnersCat(level[..c], level[c + 1..]);
  }

  ghost function MergeTower(tower: Tower, i: nat, a: nat, d: nat, s: nat, x: Level, from: nat, to: nat): Tower
    requires Siblings(tower, i, a, d, s) && |x| == |tower[i]|
    requires i > 0 ==> from <= to <= |tower[i - 1]|
  {
    var n := tower[i + 1][d].node;
    var t := Put(tower, i + 1, d, n.(pairs := ErasePair(n.pairs, s + 1)))[i := Without(x, a + 1)];
    if i == 0 then t else t[i - 1 := Adopt(tower[i - 1], from, to, tower[i][a].page)]
  }

  ghost predicate Mergeable(order: nat, tower: Tower, root: int, i: nat, a: nat, d: nat, s: nat, x: Level, from: nat,
      to: nat)
  {
    && order >= 3 && Inhabited(tower) && Links(tower, {}) && Topped(tower, root) && Siblings(tower, i, a, d, s)
    && SameEntries(Absorb(tower[i], a), x)
    && tower[i][a].node.pairs != [] && tower[i][a + 1].node.pairs != []
    && (i > 0 ==> AdoptRange(tower[i], tower[i - 1], a, tower[i][a].node.pairs + tower[i][a + 1].node.pairs, from, to,
        tower[i][a].page))
  }

  lemma {:induction false} MergeUp(order: nat, tower: Tower, root: int, i: nat, a: nat, d: nat, s: nat, x: Level,
      from: nat, to: nat)
    requires Mergeable(order, tower, root, i, a, d, s, x, from, to)
    ensures var t := MergeTower(tower, i, a, d, s, x, from, to); Linked(t[i + 1], t[i])
  {
    hide Linked, Off, SameEntries, Links;
    LinkAt(tower, i);
    var level, up := tower[i], tower[i + 1];
    LinkedLowUpdate(up, level, a, Absorb(level, a)[a]);
    SameEntriesLinked(up, Absorb(level, a), x);
    LinkedErase(up, x, d, s + 1);
  }

  lemma {:induction false} MergeDown(order: nat, tower: Tower, root: int, i: nat, a: nat, d: nat, s: nat, x: Level,
      from: nat, to: nat)
    requires Mergeable(order, tower, root, i, a, d, s, x, from, to) && i > 0
    ensures var t := MergeTower(tower, i, a, d, s, x, from, to); Linked(t[i], t[i - 1])
  {
    hide Linked, Off, SameEntries, Links, Adopt, Rechunk;
    LinkAt(tower, i - 1);
    MergeFacts(order, tower, root, i, a, d, s, x, from, to);
    var level, below := tower[i], tower[i - 1];
    var both := level[a].node.pairs + level[a + 1].node.pairs;
    MergeEntries(level, a, x);
    RechunkBelow(level, below, a, both, [], from, to, level[a].page);
    LinkedSame(Rechunk(level, a, both, []), Without(x, a + 1), Adopt(below, from, to, level[a].page));
  }

  lemma {:induction false} MergeLinks(order: nat, tower: Tower, root: int, i: nat, a: nat, d: nat, s: nat, x: Level,
      from: nat, to: nat)
    requires Mergeable(order, tower, root, i, a, d, s, x, from, to)
    ensures var t := MergeTower(tower, i, a, d, s, x, from, to); Links(t, {}) && Topped(t, root)
  {
    hide Linked, Off, SameEntries, Links, Adopt, Mergeable;
    MergeFacts(order, tower, root, i, a, d, s, x, from, to);
    var t := MergeTower(tower, i, a, d, s, x, from, to);
    var up := tower[i + 1];
    forall k: nat | k + 1 < |t| ensures Joined(t, k) {
      LinkAt(tower, k);
      if k == i {
        MergeUp(order, tower, root, i, a, d, s, x, from, to);
      } else if k + 1 == i {
        MergeDown(order, tower, root, i, a, d, s, x, from, to);
      } else if k == i + 1 {
        LinkedLowUpdate(tower[i + 2], up, d, t[i + 1][d]);
      } else if k + 2 == i {
        AdoptMod(tower[i - 1], from, to, tower[i][a].page);
        ModParentPairs(tower[i - 1], t[i - 1]);
        LinkedSame(tower[i - 1], t[i - 1], tower[k]);
      }
    }
    LinksIntro(t);
  }

  lemma {:induction false} LinksIntro(tower: Tower)
    requires forall k: nat :: k + 1 < |tower| ==> Joined(tower, k)
    ensures Links(tower, {})
  {
  }

  lemma {:induction false} MergeFacts(order: nat, tower: Tower, root: int, i: nat, a: nat, d: nat, s: nat, x: Level,
      from: nat, to: nat)
    requires Mergeable(order, tower, root, i, a, d, s, x, from, to)
    ensures Links(tower, {}) && Topped(tower, root) && Siblings(tower, i, a, d, s) && |x| == |tower[i]|
    ensures i > 0 ==> from <= to <= |tower[i - 1]|
  {
  }

  lemma {:induction false} MergeSized(order: nat, tower: Tower, root: int, i: nat, a: nat, d: nat, s: nat, x: Level,
      from: nat, to: nat, e: int)
    requires Mergeable(order, tower, root, i, a, d, s, x, from, to)
    requires a <= e <= a + 1 && AllSizedBut(tower, order, i, e)
    requires MinSize(order) <= |tower[i][a].node.pairs| + |tower[i][a + 1].node.pairs| <= order
    ensures Thin(order, MergeTower(tower, i, a, d, s, x, from, to), root, i + 1, d)
  {
    MergeLinks(order, tower, root, i, a, d, s, x, from, to);
    hide Linked, Off, Links, Adopt, LinkedAt;
    var t := MergeTower(tower, i, a, d, s, x, from, to);
    assert SizedBut(tower[i + 1], order, -1);
    assert SizeOk(tower[i + 1], order, tower[i + 1][d]);
    forall k | 0 <= k < |t| ensures SizedBut(t[k], order, if k == i + 1 then d else -1) {
      assert SizedBut(tower[k], order, if k == i then e else -1);
      if k == i {
        MergedLevelSized(tower[i], order, a, e, x);
      } else if k == i + 1 {
        assert forall l :: 0 <= l < |tower[k]| ==> SizeOk(tower[k], order, tower[k][l]);
      } else if k + 1 == i {
        AdoptMod(tower[k], from, to, tower[i][a].page);
        ModParentSized(tower[k], t[k], order, -1);
      }
    }
  }

  lemma {:induction false} MergedLevelSized(level: Level, order: nat, a: nat, e: int, x: Level)
    requires a + 1 < |level| && SameEntries(Absorb(level, a), x) && a <= e <= a + 1 && SizedBut(level, order, e)
    requires MinSize(order) <= |level[a].node.pairs| + |level[a + 1].node.pairs| <= order
    ensures Sized(Without(x, a + 1), order)
  {
    var m := Without(x, a + 1);
    forall l | 0 <= l < |m| ensures SizeOk(m, order, m[l]) {
      var k := if l <= a then l else l + 1;
      assert SameEntry(Absorb(level, a)[k], x[k]);
      if l != a {
        assert SizeOk(level, order, level[k]);
      }
    }
  }

  /** Unlinking the leaf behind leaf `j`. */
  lemma {:induction false} ChainErase(header: Node, a: Level, j: nat, header': Node, b: Level)
    requires Chained(header, a) && 0 < j < |a| && |b| == |a|
    requires forall k :: 0 <= k < |a| ==>
               (&& b[k].page == a[k].page
                && b[k].node.next == (if k == j - 1 then a[j].node.next else a[k].node.next)
                && b[k].node.prev == (if k == j + 1 then a[j].node.prev else a[k].node.prev))
    requires header' == header.(prev := if j + 1 == |a| then a[j].node.prev else header.prev)
    ensures Chained(header', Without(b, j))
  {
    var c := Without(b, j);
    assert ChainedAt(a, j);
    forall k | 0 <= k < |c| ensures ChainedAt(c, k) {
      if k < j {
        assert ChainedAt(a, k);
      } else {
        assert ChainedAt(a, k + 1);
      }
    }
  }

  /** Moving the first pair of the right neighbour to the left one. */
  lemma {:induction false} ShiftLeft(order: nat, tower: Tower, root: int, i: nat, a: nat, d: nat, s: nat)
    returns (x: seq<Pair>, y: seq<Pair>, from: nat)
    requires Thin(order, tower, root, i, a) && Siblings(tower, i, a, d, s)
    requires |tower[i][a].node.pairs| < MinSize(order)
    requires |tower[i][a].node.pairs| + |tower[i][a + 1].node.pairs| >= 2 * MinSize(order)
    ensures |tower[i][a + 1].node.pairs| > 1
    ensures x == tower[i][a].node.pairs + [tower[i][a + 1].node.pairs[0]] && y == tower[i][a + 1].node.pairs[1..] &&
        y != []
    ensures i > 0 ==> from < |tower[i - 1]| && tower[i - 1][from].page == x[|x| - 1].rid.page_no
    ensures var t := RechunkTower(tower, i, a, x, y, from, from + 1, tower[i][a].page);
            var n := tower[i + 1][d].node;
            var t' := Put(t, i + 1, d, n.(pairs := n.pairs[s + 1 := n.pairs[s + 1].(key := y[0].key)]));
            Links(t', {}) && Topped(t', root) && AllSized(t', order)
  {
    hide Linked, Links;
    var l, r := tower[i][a].node.pairs, tower[i][a + 1].node.pairs;
    assert SizedBut(tower[i], order, a);
    assert SizeOk(tower[i], order, tower[i][a + 1]);
    x, y, from := l + [r[0]], r[1..], Off(tower[i], a) + |l|;
    assert x + y == l + r;
    if i > 0 {
      LinkAt(tower, i - 1);
      Kids(tower[i], tower[i - 1], a + 1);
      Around(tower[i], a);
    }
    hide Off, AllSizedBut, AllSized, Rechunk, Adopt;
    Redistributed(order, tower, root, i, a, d, s, a, x, y, from, from + 1, tower[i][a].page);
  }

  /** Moving the last pair of the left neighbour to the right one. */
  lemma {:induction false} ShiftRight(order: nat, tower: Tower, root: int, i: nat, a: nat, d: nat, s: nat)
    returns (x: seq<Pair>, y: seq<Pair>, from: nat)
    requires Thin(order, tower, root, i, a + 1) && Siblings(tower, i, a, d, s)
    requires |tower[i][a + 1].node.pairs| < MinSize(order)
    requires |tower[i][a].node.pairs| + |tower[i][a + 1].node.pairs| >= 2 * MinSize(order)
    ensures |tower[i][a].node.pairs| > 1
    ensures var l := tower[i][a].node.pairs; x == l[..|l| - 1] && y == [l[|l| - 1]] + tower[i][a + 1].node.pairs
    ensures i > 0 ==> from < |tower[i - 1]| && tower[i - 1][from].page == y[0].rid.page_no
    ensures var t := RechunkTower(tower, i, a, x, y, from, from + 1, tower[i][a + 1].page);
            var n := tower[i + 1][d].node;
            var t' := Put(t, i + 1, d, n.(pairs := n.pairs[s + 1 := n.pairs[s + 1].(key := y[0].key)]));
            Links(t', {}) && Topped(t', root) && AllSized(t', order)
  {
    hide Linked, Links;
    var l, r := tower[i][a].node.pairs, tower[i][a + 1].node.pairs;
    assert SizedBut(tower[i], order, a + 1);
    assert SizeOk(tower[i], order, tower[i][a]);
    x, y, from := l[..|l| - 1], [l[|l| - 1]] + r, Off(tower[i], a) + |l| - 1;
    assert x + y == l + r;
    if i > 0 {
      LinkAt(tower, i - 1);
      Kids(tower[i], tower[i - 1], a);
    }
    hide Off, AllSizedBut, AllSized, Rechunk, Adopt;
    Redistributed(order, tower, root, i, a, d, s, a + 1, x, y, from, from + 1, tower[i][a + 1].page);
  }

  lemma {:induction false} AdoptOne(level: Level, from: nat, p: int)
    requires from < |level|
    ensures Adopt(level, from, from + 1, p) == level[from := Cell(level[from].page, level[from].node.(parent := p))]
  {
  }

  /** Redistribution moves no entry of the index and no leaf of the chain. */
  lemma {:induction false} RechunkLeaves(tower: Tower, i: nat, a: nat, x: seq<Pair>, y: seq<Pair>, from: nat, to: nat,
      page: int, header: Node)
    requires i < |tower| && a + 1 < |tower[i]| && x + y == tower[i][a].node.pairs + tower[i][a + 1].node.pairs
    requires i > 0 ==> from <= to <= |tower[i - 1]|
    ensures var t := RechunkTower(tower, i, a, x, y, from, to, page);
            && |t| == |tower| && Pairs(t[0]) == Pairs(tower[0]) && SamePages(tower[0], t[0])
            && (Chained(header, tower[0]) ==> Chained(header, t[0]))
  {
    hide Chained, Adopt;
    var t := RechunkTower(tower, i, a, x, y, from, to, page);
    if i == 0 {
      RechunkEntries(tower[0], a, x, y);
      if Chained(header, tower[0]) {
        SameLinksChained(header, tower[0], t[0]);
      }
    } else if i == 1 {
      AdoptMod(tower[0], from, to, page);
      ModParentPairs(tower[0], t[0]);
      ModParentPages(tower[0], t[0]);
      if Chained(header, tower[0]) {
        ModParentChained(header, tower[0], t[0]);
      }
    }
  }

  /** The page writes of a redistribution, in either order, put together. */
  lemma {:induction false} RechunkPuts(t0: Tower, i: nat, a: nat, x: seq<Pair>, y: seq<Pair>, d: nat, n: Node,
      from: nat, page: int)
    requires i + 1 < |t0| && a + 1 < |t0[i]| && d < |t0[i + 1]| && (i > 0 ==> from < |t0[i - 1]|)
    ensures var nx, ny := t0[i][a].node.(pairs := x), t0[i][a + 1].node.(pairs := y);
            var t := Put(Put(Put(t0, i, a, nx), i, a + 1, ny), i + 1, d, n);
            && t == Put(Put(Put(t0, i, a + 1, ny), i, a, nx), i + 1, d, n)
            && (if i == 0 then t else Put(t, i - 1, from, t0[i - 1][from].node.(parent := page)))
                == Put(RechunkTower(t0, i, a, x, y, from, from + 1, page), i + 1, d, n)
  {
    var nx, ny := t0[i][a].node.(pairs := x), t0[i][a + 1].node.(pairs := y);
    var t := Put(Put(Put(t0, i, a, nx), i, a + 1, ny), i + 1, d, n);
    assert t[i] == Rechunk(t0[i], a, x, y);
    var t2 := Put(Put(Put(t0, i, a + 1, ny), i, a, nx), i + 1, d, n);
    assert t2[i] == t[i];
    if i > 0 {
      AdoptOne(t0[i - 1], from, page);
    }
  }

  /** Merging moves no entry of the index and keeps the leftmost leaf. */
  lemma {:induction false} MergeLeaves(order: nat, tower: Tower, root: int, i: nat, a: nat, d: nat, s: nat, x: Level,
      from: nat, to: nat)
    requires Mergeable(order, tower, root, i, a, d, s, x, from, to)
    ensures var t := MergeTower(tower, i, a, d, s, x, from, to);
            && |t| == |tower| && Pairs(t[0]) == Pairs(tower[0]) && |t[0]| > 0 && t[0][0].page == tower[0][0].page
            && (i > 0 ==> ModParent(tower[0], t[0]))
  {
    hide Adopt, Linked, Links, Off;
    var t := MergeTower(tower, i, a, d, s, x, from, to);
    if i == 0 {
      MergeEntries(tower[0], a, x);
      SameEntriesAt(Absorb(tower[0], a), x, 0);
    } else if i == 1 {
      AdoptMod(tower[0], from, to, tower[1][a].page);
      ModParentPairs(tower[0], t[0]);
      ModParentPages(tower[0], t[0]);
    } else {
      ModParentRefl(tower[0]);
    }
  }

  /** One pair has moved between two neighbours of a level, to the left one or to the right one. */
  ghost predicate MovedOne(before: Level, after: Level, a: nat, toLeft: bool)
  {
    && |after| == |before| && a + 1 < |before|
    && (forall k :: 0 <= k < |before| ==> after[k].page == before[k].page)
    && (forall k :: 0 <= k < |before| && k != a && k != a + 1 ==> after[k] == before[k])
    && var l, r := before[a].node.pairs, before[a + 1].node.pairs;
       if toLeft
       then r != [] && after[a].node.pairs == l + [r[0]] && after[a + 1].node.pairs == r[1..]
       else l != [] && after[a].node.pairs == l[..|l| - 1] && after[a + 1].node.pairs == [l[|l| - 1]] + r
  }

  /** A node has taken over the pairs of its right neighbour, which is gone. */
  ghost predicate MergedInto(before: Level, after: Level, a: nat)
  {
    && |after| + 1 == |before| && a + 1 < |before|
    && (forall k :: 0 <= k < |after| ==> after[k].page == before[if k <= a then k else k + 1].page)
    && (forall k :: 0 <= k < |after| && k != a ==>
        after[k].node.pairs == before[if k <= a then k else k + 1].node.pairs)
    && after[a].node.pairs == before[a].node.pairs + before[a + 1].node.pairs
  }

  lemma {:induction false} RechunkMoved(tower: Tower, i: nat, a: nat, x: seq<Pair>, y: seq<Pair>, from: nat, page: int,
      d: nat, n: Node, toLeft: bool)
    requires i + 1 < |tower| && a + 1 < |tower[i]| && d < |tower[i + 1]| && (i > 0 ==> from < |tower[i - 1]|)
    requires var l, r := tower[i][a].node.pairs, tower[i][a + 1].node.pairs;
             if toLeft then r != [] && x == l + [r[0]] && y == r[1..]
             else l != [] && x == l[..|l| - 1] && y == [l[|l| - 1]] + r
    ensures var t := Put(RechunkTower(tower, i, a, x, y, from, from + 1, page), i + 1, d, n);
            MovedOne(tower[i], t[i], a, toLeft)
  {
    var t := Put(RechunkTower(tower, i, a, x, y, from, from + 1, page), i + 1, d, n);
    assert t[i] == Rechunk(tower[i], a, x, y);
  }

  /** The tower after two neighbours, their parent and the child that changed hands have been written. */
  lemma {:induction false} RechunkDone(t0: Tower, t: Tower, i: nat, a: nat, x: seq<Pair>, y: seq<Pair>, d: nat,
      n: Node, from: nat, page: int, header: Node, toLeft: bool)
    requires i + 1 < |t0| && a + 1 < |t0[i]| && d < |t0[i + 1]| && (i > 0 ==> from < |t0[i - 1]|)
    requires var l, r := t0[i][a].node.pairs, t0[i][a + 1].node.pairs;
             if toLeft then r != [] && x == l + [r[0]] && y == r[1..]
             else l != [] && x == l[..|l| - 1] && y == [l[|l| - 1]] + r
    requires var nx, ny := t0[i][a].node.(pairs := x), t0[i][a + 1].node.(pairs := y);
             var puts := Put(Put(Put(t0, i, a + 1, ny), i, a, nx), i + 1, d, n);
             t == if i == 0 then puts else Put(puts, i - 1, from, t0[i - 1][from].node.(parent := page))
    ensures t == Put(RechunkTower(t0, i, a, x, y, from, from + 1, page), i + 1, d, n)
    ensures |t| == |t0| && Pairs(t[0]) == Pairs(t0[0]) && SamePages(t0[0], t[0])
    ensures Chained(header, t0[0]) ==> Chained(header, t[0])
    ensures MovedOne(t0[i], t[i], a, toLeft)
  {
    RechunkPuts(t0, i, a, x, y, d, n, from, page);
    RechunkMoved(t0, i, a, x, y, from, page, d, n, toLeft);
    RechunkLeaves(t0, i, a, x, y, from, from + 1, page, header);
    hide RechunkTower, Chained, SamePages, MovedOne, Pairs;
  }

  lemma {:induction false} MergeMerged(tower: Tower, i: nat, a: nat, d: nat, s: nat, x: Level, from: nat, to: nat)
    requires Siblings(tower, i, a, d, s) && SameEntries(Absorb(tower[i], a), x)
    requires i > 0 ==> from <= to <= |tower[i - 1]|
    ensures MergedInto(tower[i], MergeTower(tower, i, a, d, s, x, from, to)[i], a)
  {
    var level := Absorb(tower[i], a);
    forall k | 0 <= k < |x| ensures SameEntry(level[k], x[k]) {
    }
    assert MergeTower(tower, i, a, d, s, x, from, to)[i] == Without(x, a + 1);
  }

  ghost predicate LastOk(lastLeaf: int, leaves: Level)
  {
    lastLeaf == IX_NO_PAGE || lastLeaf == PageAt(leaves, |leaves| - 1)
  }

  /** The range of children that the absorbing node adopts. */
  lemma {:induction false} MergeRange(tower: Tower, i: nat, a: nat)
    requires 0 < i < |tower| && a + 1 < |tower[i]| && Links(tower, {})
    ensures var l, both := tower[i][a].node.pairs, Absorb(tower[i], a)[a].node.pairs;
            && Off(tower[i], a) + |both| <= |tower[i - 1]|
            && (forall k :: |l| <= k < |both| ==> both[k].rid.page_no == tower[i - 1][Off(tower[i], a) + k].page)
            && (|both| > |l| ==> AdoptRange(tower[i], tower[i - 1], a, both, Off(tower[i], a) + |l|,
                Off(tower[i], a) + |both|, tower[i][a].page))
  {
    hide Linked;
    var l: seq<Pair>, r: seq<Pair> := tower[i][a].node.pairs, tower[i][a + 1].node.pairs;
    var both: seq<Pair> := l + r;
    LinkAt(tower, i - 1);
    Around(tower[i], a);
    Kids(tower[i], tower[i - 1], a + 1);
    var off := Off(tower[i], a);
    forall k | |l| <= k < |both| ensures both[k].rid.page_no == tower[i - 1][off + k].page {
      assert both[k] == r[k - |l|];
      assert r[k - |l|].rid.page_no == tower[i - 1][Off(tower[i], a + 1) + (k - |l|)].page;
    }
  }

  lemma {:induction false} AdoptLeaves(header: Node, lastLeaf: int, leaves: Level, from: nat, to: nat, p: int)
    requires from <= to <= |leaves| && Chained(header, leaves) && LastOk(lastLeaf, leaves)
    ensures Chained(header, Adopt(leaves, from, to, p)) && LastOk(lastLeaf, Adopt(leaves, from, to, p))
  {
    AdoptMod(leaves, from, to, p);
    ModParentChained(header, leaves, Adopt(leaves, from, to, p));
  }

  /** Merging the last leaf away makes its left neighbour the last leaf. */
  lemma {:induction false} LastAfterMerge(lastLeaf: int, leaves: Level, a: nat, x: Level)
    requires a + 1 < |leaves| && SameEntries(Absorb(leaves, a), x) && LastOk(lastLeaf, leaves) && Distinct(leaves)
    requires leaves[a + 1].page != IX_NO_PAGE
    ensures |x| == |leaves|
    ensures LastOk(if leaves[a + 1].page == lastLeaf then leaves[a].page else lastLeaf, Without(x, a + 1))
  {
    SameEntriesAt(Absorb(leaves, a), x, |leaves| - 1);
    SameEntriesAt(Absorb(leaves, a), x, a);
  }

  /** The slots of a thin node and its sibling in their common parent. */
  lemma {:induction false} FindSiblings(order: nat, pages: map<int, Node>, levelOf: map<int, nat>, tower: Tower,
      nextPage: int, root: int, i: nat, j: nat)
    returns (d: nat, s: nat)
    requires Placed(order, pages, levelOf, tower, nextPage) && Thin(order, tower, root, i, j) && i + 1 < |tower|
    ensures d < |tower[i + 1]| && CellOk(pages, levelOf, i + 1, tower[i + 1][d])
    ensures tower[i + 1][d].page == tower[i][j].node.parent && tower[i][j].node.parent != IX_NO_PAGE
    ensures s < |tower[i + 1][d].node.pairs| && FirstChild(tower[i + 1][d].node.pairs, tower[i][j].page, s)
    ensures s + 1 < |tower[i + 1][d].node.pairs| ==>
              Siblings(tower, i, j, d, s) && tower[i][j + 1].page == tower[i + 1][d].node.pairs[s + 1].rid.page_no
    ensures s > 0 ==>
              && j > 0 && Siblings(tower, i, j - 1, d, s - 1)
              && tower[i][j - 1].page == tower[i + 1][d].node.pairs[s - 1].rid.page_no
    ensures |tower[i + 1][d].node.pairs| == 1 ==> AllSized(tower, order)
  {
    hide Linked, AllSizedBut;
    LinkAt(tower, i);
    At(order, pages, levelOf, tower, nextPage, i, j);
    LinkedKeys(tower[i + 1], tower[i], j);
    d, s := ParentOf(order, pages, levelOf, tower, nextPage, i, j, tower[i]);
    Kids(tower[i + 1], tower[i], d);
    if |tower[i + 1][d].node.pairs| == 1 {
      OnlyChild(order, tower, root, i, j, d);
    }
  }

  lemma {:induction false} LinkedKeys(up: Level, low: Level, x: nat)
    requires Linked(up, low)
    ensures LinkedButKey(up, low, x)
  {
    if x < |low| {
      assert LinkedAt(up, low, x);
    }
  }

  /** A parent with one child is alone on its level, and so is the child. */
  lemma {:induction false} OnlyChild(order: nat, tower: Tower, root: int, i: nat, j: nat, d: nat)
    requires Thin(order, tower, root, i, j) && i + 1 < |tower| && d < |tower[i + 1]| &&
        |tower[i + 1][d].node.pairs| == 1
    ensures |tower[i + 1]| == 1 && |tower[i]| == 1 && AllSized(tower, order)
  {
    LinkAt(tower, i);
    assert SizedBut(tower[i + 1], order, -1);
    assert SizeOk(tower[i + 1], order, tower[i + 1][d]);
    PairsOne(tower[i + 1][0]);
    assert tower[i + 1] == [tower[i + 1][0]];
    FitSized(tower, order, i, j);
  }

  lemma {:induction false} ThinMerge(order: nat, tower: Tower, root: int, i: nat, a: nat, e: nat)
    requires Thin(order, tower, root, i, e) && a + 1 < |tower[i]| && a <= e <= a + 1
    requires |tower[i][e].node.pairs| < MinSize(order)
    requires |tower[i][a].node.pairs| + |tower[i][a + 1].node.pairs| < 2 * MinSize(order)
    ensures tower[i][a].node.pairs != [] && tower[i][a + 1].node.pairs != []
    ensures MinSize(order) <= |tower[i][a].node.pairs| + |tower[i][a + 1].node.pairs| <= order
  {
    assert SizedBut(tower[i], order, e);
    var o := if e == a then a + 1 else a;
    assert SizeOk(tower[i], order, tower[i][o]);
  }

  /** Only the root has no parent, and it is a leaf only in a tree of one level. */
  lemma {:induction false} RootHasNoParent(order: nat, pages: map<int, Node>, levelOf: map<int, nat>, tower: Tower,
      nextPage: int, root: int, i: nat, j: nat)
    requires Placed(order, pages, levelOf, tower, nextPage) && Links(tower, {}) && Topped(tower, root)
    requires i < |tower| && j < |tower[i]|
    ensures tower[i][j].page in pages && pages[tower[i][j].page] == tower[i][j].node
    ensures tower[i][j].node.parent == IX_NO_PAGE <==> tower[i][j].page == root
    ensures tower[i][j].page == root <==> i + 1 == |tower|
    ensures tower[i][j].page == root ==> (tower[i][j].node.isLeaf <==> |tower| == 1)
  {
    At(order, pages, levelOf, tower, nextPage, i, j);
    At(order, pages, levelOf, tower, nextPage, |tower| - 1, 0);
    if i + 1 < |tower| {
      LinkAt(tower, i);
      LinkedKeys(tower[i + 1], tower[i], j);
      var d, s := ParentOf(order, pages, levelOf, tower, nextPage, i, j, tower[i]);
    }
  }

  /** A node at the top of the tower, or one that is large enough, is not too thin. */
  lemma {:induction false} TopThin(order: nat, pages: map<int, Node>, levelOf: map<int, nat>, tower: Tower,
      nextPage: int, root: int, i: nat, j: nat)
    requires Placed(order, pages, levelOf, tower, nextPage) && Thin(order, tower, root, i, j)
    requires tower[i][j].node.parent == IX_NO_PAGE || |tower[i][j].node.pairs| >= MinSize(order)
    ensures AllSized(tower, order)
  {
    if i + 1 < |tower| {
      var d, s := FindSiblings(order, pages, levelOf, tower, nextPage, root, i, j);
    }
    FitSized(tower, order, i, j);
  }

  lemma {:induction false} ShrinkThin(order: nat, tower: Tower, j: nat, n: Node)
    requires AllSized(tower, order) && |tower| > 0 && j < |tower[0]|
    requires |n.pairs| + 1 == |tower[0][j].node.pairs|
    ensures AllSizedBut(Put(tower, 0, j, n), order, 0, j)
    ensures |n.pairs| <= order && (|tower[0]| > 1 ==> |n.pairs| + 1 >= MinSize(order))
  {
    var tower' := Put(tower, 0, j, n);
    assert Sized(tower[0], order) && SizeOk(tower[0], order, tower[0][j]);
    forall k | 0 <= k < |tower| ensures SizedBut(tower'[k], order, if k == 0 then j else -1) {
      assert Sized(tower[k], order);
      forall l | 0 <= l < |tower[k]| ensures SizeOk(tower[k], order, tower[k][l]) {
      }
    }
  }

  lemma {:induction false} SamePagesEnds(a: Level, b: Level, lastLeaf: int)
    requires SamePages(a, b) && |a| > 0
    ensures a[0].page == b[0].page && PageAt(a, |a| - 1) == PageAt(b, |b| - 1)
  {
  }

  /** The index holds nothing exactly when its only leaf is empty. */
  lemma {:induction false} RootLeafEmpty(tower: Tower, root: int)
    requires Topped(tower, root) && Sorted(Pairs(tower[0])) && |tower| == 1
    ensures tower[0][0].node.pairs == [] <==> MapOf(Pairs(tower[0])) == map[]
  {
    hide Sorted, MapOf;
    PairsOne(tower[0][0]);
    assert tower[0] == [tower[0][0]];
    if tower[0][0].node.pairs == [] {
      forall k | k in MapOf(Pairs(tower[0])) ensures false {
        var i := MapWhere(Pairs(tower[0]), k);
      }
    } else {
      MapHas(Pairs(tower[0]), 0);
    }
  }

  lemma {:induction false} Fits(order: nat, pages: map<int, Node>, levelOf: map<int, nat>, tower: Tower, nextPage: int,
      p: int)
    requires Placed(order, pages, levelOf, tower, nextPage) && p in pages
    ensures |pages[p].pairs| <= order + 1
  {
  }
}

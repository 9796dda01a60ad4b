/**
  Node contents of the B+ tree and the theory of one level of the tree.

  A level is the list of its nodes from left to right. The entries of an inner level,
  read from left to right across all its nodes, name exactly the nodes of the level
  below: their first keys, their page numbers and (as the page that holds the entry)
  their parent fields. `Linked` states this, and every structural step of the tree
  (split, merge, redistribution, key maintenance) is a small change of two linked levels.
 */
module IxLevels {

  const IX_NO_PAGE := -1
  const IX_LEAF_HEADER_PAGE := 1
  const IX_INIT_ROOT_PAGE := 2

  /** Keys are compared by `ix_compare`; `IxKeys.RankOrder` embeds them in the integers. */
  type Key = int

  datatype Rid = Rid(page_no: int, slot_no: int)

  datatype Pair = Pair(key: Key, rid: Rid)

  /** One index page: the page header and the key/rid pairs in use. */
  datatype Node = Node(parent: int, isLeaf: bool, prev: int, next: int, pairs: seq<Pair>)

  /** A node together with the number of the page it is stored in. */
  datatype Cell = Cell(page: int, node: Node)

  type Level = seq<Cell>

  predicate Sorted(s: seq<Pair>)
  {
    forall i, j :: 0 <= i < j < |s| ==> s[i].key < s[j].key
  }

  // ---------- entries of a level ----------

  ghost function Pairs(level: Level): seq<Pair>
  {
    if level == [] then [] else level[0].node.pairs + Pairs(level[1..])
  }

  /** For each entry of the level, the page that holds it. */
  ghost function Owners(level: Level): seq<int>
  {
    if level == [] then [] else Rep(|level[0].node.pairs|, level[0].page) + Owners(level[1..])
  }

  ghost function Rep(n: nat, page: int): seq<int>
  {
    seq(n, _ => page)
  }

  lemma {:induction false} PairsCat(a: Level, b: Level)
    ensures Pairs(a + b) == Pairs(a) + Pairs(b)
  {
    if a == [] {
      assert a + b == b;
    } else {
      assert (a + b)[1..] == a[1..] + b;
      PairsCat(a[1..], b);
      calc {
        Pairs(a + b);
        a[0].node.pairs + (Pairs(a[1..]) + Pairs(b));
        a[0].node.pairs + Pairs(a[1..]) + Pairs(b);
        Pairs(a) + Pairs(b);
      }
    }
  }

  lemma {:induction false} OwnersCat(a: Level, b: Level)
    ensures Owners(a + b) == Owners(a) + Owners(b)
  {
    if a == [] {
      assert a + b == b;
    } else {
      assert (a + b)[1..] == a[1..] + b;
      OwnersCat(a[1..], b);
      calc {
        Owners(a + b);
        Rep(|a[0].node.pairs|, a[0].page) + (Owners(a[1..]) + Owners(b));
        Rep(|a[0].node.pairs|, a[0].page) + Owners(a[1..]) + Owners(b);
        Owners(a) + Owners(b);
      }
    }
  }

  lemma {:induction false} OwnersLength(a: Level)
    ensures |Owners(a)| == |Pairs(a)|
  {
    if a != [] {
      OwnersLength(a[1..]);
    }
  }

  lemma {:induction false} PairsOne(c: Cell)
    ensures Pairs([c]) == c.node.pairs
    ensures Owners([c]) == Rep(|c.node.pairs|, c.page)
  {
  }

  ghost function Off(level: Level, c: nat): nat
    requires c <= |level|
  {
    |Pairs(level[..c])|
  }

  /** The entries of a level around its `c`-th node. */
  lemma {:induction false} Around(level: Level, c: nat)
    requires c < |level|
    ensures Pairs(level) == Pairs(level[..c]) + level[c].node.pairs + Pairs(level[c + 1..])
    ensures Owners(level) == Owners(level[..c]) + Rep(|level[c].node.pairs|, level[c].page) + Owners(level[c + 1..])
    ensures |Owners(level[..c])| == Off(level, c)
    ensures |Owners(level[c + 1..])| == |Pairs(level[c + 1..])|
    ensures |Owners(level)| == |Pairs(level)|
    ensures Off(level, c + 1) == Off(level, c) + |level[c].node.pairs|
  {
    assert level == level[..c] + [level[c]] + level[c + 1..];
    PairsCat(level[..c] + [level[c]], level[c + 1..]);
    PairsCat(level[..c], [level[c]]);
    OwnersCat(level[..c] + [level[c]], level[c + 1..]);
    OwnersCat(level[..c], [level[c]]);
    PairsOne(level[c]);
    OwnersLength(level);
    OwnersLength(level[..c]);
    OwnersLength(level[c + 1..]);
    assert level[..c + 1] == level[..c] + [level[c]];
  }

  /** The entries of a level around two neighbouring nodes. */
  lemma {:induction false} AroundTwo(level: Level, c: nat)
    requires c + 1 < |level|
    ensures Pairs(level) == Pairs(level[..c]) + (level[c].node.pairs + level[c + 1].node.pairs) + Pairs(level[c + 2..])
    ensures Owners(level) == Owners(level[..c]) +
        (Rep(|level[c].node.pairs|, level[c].page) + Rep(|level[c + 1].node.pairs|, level[c + 1].page)) +
        Owners(level[c + 2..])
    ensures |Owners(level[..c])| == Off(level, c) && |Owners(level[c + 2..])| == |Pairs(level[c + 2..])|
    ensures |Owners(level)| == |Pairs(level)|
    ensures Off(level, c + 1) == Off(level, c) + |level[c].node.pairs|
  {
    hide Rep;
    var rest := level[c + 1..];
    Around(level, c);
    assert rest[0] == level[c + 1] && rest[1..] == level[c + 2..];
    OwnersLength(level[c + 2..]);
    calc {
      Pairs(level);
      Pairs(level[..c]) + level[c].node.pairs + (level[c + 1].node.pairs + Pairs(level[c + 2..]));
      Pairs(level[..c]) + (level[c].node.pairs + level[c + 1].node.pairs) + Pairs(level[c + 2..]);
    }
    calc {
      Owners(level);
      Owners(level[..c]) + Rep(|level[c].node.pairs|, level[c].page) +
          (Rep(|level[c + 1].node.pairs|, level[c + 1].page) + Owners(level[c + 2..]));
      Owners(level[..c]) + (Rep(|level[c].node.pairs|, level[c].page) +
          Rep(|level[c + 1].node.pairs|, level[c + 1].page)) + Owners(level[c + 2..]);
    }
  }

  /** Every entry of a level lies in some slot of some node. */
  lemma {:induction false} Locate(level: Level, j: nat) returns (c: nat, s: nat)
    requires j < |Pairs(level)|
    ensures c < |level| && s < |level[c].node.pairs| && Off(level, c) + s == j
    ensures Pairs(level)[j] == level[c].node.pairs[s]
    ensures j < |Owners(level)| && Owners(level)[j] == level[c].page
  {
    var n := |level[0].node.pairs|;
    OwnersLength(level);
    if j < n {
      c, s := 0, j;
    } else {
      OwnersLength(level[1..]);
      c, s := Locate(level[1..], j - n);
      assert level[..c + 1] == [level[0]] + level[1..][..c];
      PairsCat([level[0]], level[1..][..c]);
      c := c + 1;
    }
  }

  /** The entry in slot `s` of node `c`. */
  lemma {:induction false} Entry(level: Level, c: nat, s: nat)
    requires c < |level| && s < |level[c].node.pairs|
    ensures Off(level, c) + s < |Pairs(level)| == |Owners(level)|
    ensures Pairs(level)[Off(level, c) + s] == level[c].node.pairs[s]
    ensures Owners(level)[Off(level, c) + s] == level[c].page
  {
    Around(level, c);
  }

  /** Positions grow from left to right. */
  lemma {:induction false} OffMono(level: Level, a: nat, b: nat)
    requires a <= b <= |level|
    ensures Off(level, a) <= Off(level, b) <= |Pairs(level)|
  {
    assert level[..b] == level[..a] + level[a..b];
    PairsCat(level[..a], level[a..b]);
    assert level == level[..b] + level[b..];
    PairsCat(level[..b], level[b..]);
  }

  // ---------- two neighbouring levels ----------

  ghost predicate LinkedAt(up: Level, low: Level, j: nat)
    requires j < |low| && j < |Pairs(up)| && j < |Owners(up)|
  {
    && Pairs(up)[j].rid.page_no == low[j].page
    && Owners(up)[j] == low[j].node.parent
    && (low[j].node.pairs != [] ==> Pairs(up)[j].key == low[j].node.pairs[0].key)
  }

  ghost predicate Linked(up: Level, low: Level)
  {
    && |Pairs(up)| == |low| == |Owners(up)|
    && forall j :: 0 <= j < |low| ==> LinkedAt(up, low, j)
  }

  /** Linked, except that the key stored for node `x` may be out of date. */
  ghost predicate LinkedButKey(up: Level, low: Level, x: nat)
  {
    && |Pairs(up)| == |low| == |Owners(up)|
    && (forall j :: 0 <= j < |low| && j != x ==> LinkedAt(up, low, j))
    && (x < |low| ==> Pairs(up)[x].rid.page_no == low[x].page && Owners(up)[x] == low[x].node.parent)
  }

  function Without(level: Level, x: nat): Level
    requires x < |level|
  {
    level[..x] + level[x + 1..]
  }

  ghost predicate Distinct(level: Level)
  {
    forall i, j :: 0 <= i < j < |level| ==> level[i].page != level[j].page
  }

  /** What a node shows to the level above. */
  ghost predicate SameFace(a: Cell, b: Cell)
  {
    && a.page == b.page && a.node.parent == b.node.parent
    && (b.node.pairs != [] ==> a.node.pairs != [] && a.node.pairs[0].key == b.node.pairs[0].key)
  }

  lemma {:induction false} LinkedLowUpdate(up: Level, low: Level, c: nat, cell: Cell)
    requires Linked(up, low) && c < |low| && SameFace(low[c], cell)
    ensures Linked(up, low[c := cell])
  {
    var low' := low[c := cell];
    forall j | 0 <= j < |low'| ensures LinkedAt(up, low', j) {
      assert LinkedAt(up, low, j);
    }
  }

  /** Adding the entry of a new right sibling behind the entry of the node it was split from. */
  lemma {:induction false} LinkedInsert(up: Level, low: Level, c: nat, s: nat, pair: Pair)
    requires c < |up| && s < |up[c].node.pairs|
    requires var j := Off(up, c) + s + 1;
             && j < |low| && Linked(up, Without(low, j))
             && low[j].node.parent == up[c].page && pair.rid.page_no == low[j].page
             && (low[j].node.pairs != [] ==> pair.key == low[j].node.pairs[0].key)
    ensures Linked(up[c := Cell(up[c].page,
        up[c].node.(pairs := up[c].node.pairs[..s + 1] + [pair] + up[c].node.pairs[s + 1..]))], low)
  {
    hide Pairs, Owners;
    var j := Off(up, c) + s + 1;
    var ps := up[c].node.pairs;
    var ps' := ps[..s + 1] + [pair] + ps[s + 1..];
    var up' := up[c := Cell(up[c].page, up[c].node.(pairs := ps'))];
    Around(up, c);
    Around(up', c);
    assert up'[..c] == up[..c] && up'[c + 1..] == up[c + 1..];
    var rest := Without(low, j);
    forall k | 0 <= k < |low| ensures LinkedAt(up', low, k) {
      if k < j {
        assert LinkedAt(up, rest, k);
      } else if k > j {
        assert LinkedAt(up, rest, k - 1);
      }
    }
  }

  /** Removing the entry of a node that has left the level below. */
  lemma {:induction false} LinkedErase(up: Level, low: Level, c: nat, s: nat)
    requires c < |up| && s < |up[c].node.pairs| && Linked(up, low)
    ensures Off(up, c) + s < |low|
    ensures Linked(up[c := Cell(up[c].page, up[c].node.(pairs := up[c].node.pairs[..s] + up[c].node.pairs[s + 1..]))],
                   Without(low, Off(up, c) + s))
  {
    hide Pairs, Owners;
    var j := Off(up, c) + s;
    var ps := up[c].node.pairs;
    var ps' := ps[..s] + ps[s + 1..];
    var up' := up[c := Cell(up[c].page, up[c].node.(pairs := ps'))];
    Around(up, c);
    Around(up', c);
    assert up'[..c] == up[..c] && up'[c + 1..] == up[c + 1..];
    var rest := Without(low, j);
    forall k | 0 <= k < |rest| ensures LinkedAt(up', rest, k) {
      if k < j {
        assert LinkedAt(up, low, k);
      } else {
        assert LinkedAt(up, low, k + 1);
      }
    }
  }

  /** Storing the first key of node `Off(up, c) + s` in its entry. */
  lemma {:induction false} LinkedSetKey(up: Level, low: Level, c: nat, s: nat, key: Key)
    requires c < |up| && s < |up[c].node.pairs|
    requires LinkedButKey(up, low, Off(up, c) + s) && Off(up, c) + s < |low|
    requires low[Off(up, c) + s].node.pairs != [] ==> key == low[Off(up, c) + s].node.pairs[0].key
    ensures Linked(up[c := Cell(up[c].page,
        up[c].node.(pairs := up[c].node.pairs[s := up[c].node.pairs[s].(key := key)]))], low)
  {
    hide Pairs, Owners;
    var j := Off(up, c) + s;
    var ps := up[c].node.pairs;
    var ps' := ps[s := ps[s].(key := key)];
    var up' := up[c := Cell(up[c].page, up[c].node.(pairs := ps'))];
    Around(up, c);
    Around(up', c);
    assert up'[..c] == up[..c] && up'[c + 1..] == up[c + 1..];
    forall k | 0 <= k < |low| ensures LinkedAt(up', low, k) {
      if k != j {
        assert LinkedAt(up, low, k);
      }
    }
  }

  // ---------- order ----------

  ghost predicate NonEmpty(level: Level)
  {
    forall j :: 0 <= j < |level| ==> level[j].node.pairs != []
  }

  /** First keys inherit the order of the entries below them. */
  lemma {:induction false} SortedUp(up: Level, low: Level)
    requires Linked(up, low) && Sorted(Pairs(low)) && (|low| > 1 ==> NonEmpty(low))
    ensures Sorted(Pairs(up))
  {
    forall i, j | 0 <= i < j < |Pairs(up)| ensures Pairs(up)[i].key < Pairs(up)[j].key {
      assert LinkedAt(up, low, i) && LinkedAt(up, low, j);
      Entry(low, i, 0);
      Entry(low, j, 0);
      OffMono(low, i + 1, j);
      Around(low, i);
    }
  }

  /** The node of a level in which `key` belongs. */
  ghost predicate Covers(level: Level, c: nat, key: Key)
  {
    && c < |level|
    && (c > 0 ==> level[c].node.pairs != [] && level[c].node.pairs[0].key <= key)
    && (c + 1 < |level| ==> level[c + 1].node.pairs != [] && key < level[c + 1].node.pairs[0].key)
  }

  /** Entries to the left of the covering node are below the key, entries to the right above it. */
  lemma {:induction false} CoversSplit(level: Level, c: nat, key: Key)
    requires Covers(level, c, key) && Sorted(Pairs(level))
    ensures forall i :: 0 <= i < Off(level, c) ==> i < |Pairs(level)| && Pairs(level)[i].key < key
    ensures forall i :: Off(level, c) + |level[c].node.pairs| <= i < |Pairs(level)| ==> key < Pairs(level)[i].key
  {
    OffMono(level, c, |level|);
    Around(level, c);
    if c > 0 {
      Entry(level, c, 0);
    }
    if c + 1 < |level| {
      Entry(level, c + 1, 0);
    } else {
      assert level[..c + 1] == level;
    }
  }

  /** One step of the descent: the child chosen by `internal_lookup` covers the key. */
  lemma {:induction false} CoversDown(up: Level, low: Level, c: nat, m: nat, key: Key)
    requires Linked(up, low) && Sorted(Pairs(up)) && Covers(up, c, key) && NonEmpty(up)
    requires |low| > 1 ==> NonEmpty(low)
    requires m < |up[c].node.pairs|
    requires m > 0 ==> up[c].node.pairs[m].key <= key
    requires m + 1 < |up[c].node.pairs| ==> key < up[c].node.pairs[m + 1].key
    requires m == 0 && key < up[c].node.pairs[0].key ==> c == 0
    ensures Covers(low, Off(up, c) + m, key)
    ensures low[Off(up, c) + m].page == up[c].node.pairs[m].rid.page_no
  {
    var j := Off(up, c) + m;
    Entry(up, c, m);
    Around(up, c);
    assert LinkedAt(up, low, j);
    if j > 0 {
      assert c == 0 ==> up[..c] == [];
      assert low[j].node.pairs != [];
      assert low[j].node.pairs[0].key == up[c].node.pairs[m].key;
    }
    if j + 1 < |low| {
      assert LinkedAt(up, low, j + 1);
      if m + 1 < |up[c].node.pairs| {
        Entry(up, c, m + 1);
      } else {
        Entry(up, c + 1, 0);
      }
    }
  }
}

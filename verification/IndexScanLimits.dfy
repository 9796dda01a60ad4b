/**
  Where the index scan executor goes wrong: its test on the constants is exact for conditions with constants.
 */
module IndexScanLimits {
  import opened Comparisons
  import opened Config
  import opened IxLevels
  import opened IxTower
  import opened IxScan
  import opened IndexRange
  import opened IndexScan
  import opened Options

  /** The executor delivers the qualifying rows in key order and nothing else, whatever the table holds. */
  ghost predicate AlwaysExact(idx: seq<string>, conds: seq<Condition>, lost: bool)
    requires IntConds(conds)
  {
    forall e, table :: Indexed(e, table, idx) ==> ExactOn(e, table, idx, conds, lost)
  }

  ghost predicate ExactOn(e: seq<Pair>, table: map<Rid, Row>, idx: seq<string>, conds: seq<Condition>, lost: bool)
    requires IntConds(conds)
  {
    Outcome(e, table, idx, conds, lost) == Rids(Matching(e, table, conds))
  }

  predicate ConstConds(conds: seq<Condition>)
  {
    forall i :: 0 <= i < |conds| ==> conds[i].isVal
  }

  predicate DistinctCols(idx: seq<string>)
  {
    forall i, j :: 0 <= i < j < |idx| ==> idx[i] != idx[j]
  }

  /** For conditions with constants, the executor is exact on every table if and only if the constants pass the test. */
  lemma {:induction false} ScanSafeIff(idx: seq<string>, conds: seq<Condition>, lost: bool)
    requires IntConds(conds) && ConstConds(conds) && DistinctCols(idx)
    ensures AlwaysExact(idx, conds, lost) <==> ScanSafe(idx, conds)
  {
    hide *;
    if ScanSafe(idx, conds) {
      SafeAlways(idx, conds, lost);
    } else {
      var e, table := Unsafe(idx, conds, lost);
      NotAlways(e, table, idx, conds, lost);
    }
  }

  lemma {:induction false} SafeAlways(idx: seq<string>, conds: seq<Condition>, lost: bool)
    requires IntConds(conds) && ConstConds(conds) && DistinctCols(idx) && ScanSafe(idx, conds)
    ensures AlwaysExact(idx, conds, lost)
  {
    hide Indexed, ScanSafe, Outcome, Matching, IntConds;
    forall e, table | Indexed(e, table, idx) ensures ExactOn(e, table, idx, conds, lost) {
      ExecuteExact(e, table, idx, conds, lost);
    }
  }

  lemma {:induction false} NotAlways(e: seq<Pair>, table: map<Rid, Row>, idx: seq<string>, conds: seq<Condition>,
      lost: bool)
    requires IntConds(conds) && Indexed(e, table, idx) && !ExactOn(e, table, idx, conds, lost)
    ensures !AlwaysExact(idx, conds, lost)
  {
  }

  // ---------- rows made to order ----------

  /** The columns that the index or a condition names. */
  ghost function Named(idx: seq<string>, conds: seq<Condition>): set<string>
  {
    (set i | 0 <= i < |idx| :: idx[i]) + (set i | 0 <= i < |conds| :: conds[i].col)
  }

  /** A value that the conditions on a column admit. */
  ghost function Pick(conds: seq<Condition>, col: string): (v: int)
    ensures INT_MIN <= v <= INT_MAX
    ensures Open(conds, col) ==> Passes(conds, col, v)
  {
    OpenIff(conds, col);
    if v :| Passes(conds, col, v) then v else INT_MIN
  }

  /** The value of a column in a key, or another one if the index does not have the column. */
  ghost function ValueIn(idx: seq<string>, key: seq<int>, col: string, other: int): (v: int)
    requires |key| == |idx|
    ensures IntSeq(key) && INT_MIN <= other <= INT_MAX ==> INT_MIN <= v <= INT_MAX
  {
    if idx == [] then other else if idx[0] == col then key[0] else ValueIn(idx[1..], key[1..], col, other)
  }

  lemma {:induction false} ValueInAt(idx: seq<string>, key: seq<int>, col: string, other: int)
    requires |key| == |idx| && DistinctCols(idx)
    ensures forall i :: 0 <= i < |idx| && idx[i] == col ==> ValueIn(idx, key, col, other) == key[i]
    ensures (forall i :: 0 <= i < |idx| ==> idx[i] != col) ==> ValueIn(idx, key, col, other) == other
  {
    if idx != [] {
      ValueInAt(idx[1..], key[1..], col, other);
      assert forall i :: 1 <= i < |idx| ==> idx[i] == idx[1..][i - 1] && key[i] == key[1..][i - 1];
    }
  }

  /** The row with the given key and admitted values elsewhere. */
  ghost function RowWith(idx: seq<string>, conds: seq<Condition>, key: seq<int>): (row: Row)
    requires |key| == |idx| && IntSeq(key)
    ensures IntRow(row)
  {
    map col | col in Named(idx, conds) :: ValueIn(idx, key, col, Pick(conds, col))
  }

  lemma {:induction false} RowHasKey(idx: seq<string>, conds: seq<Condition>, key: seq<int>)
    requires |key| == |idx| && IntSeq(key) && DistinctCols(idx)
    ensures KeyOf(RowWith(idx, conds, key), idx) == key
  {
    hide ValueIn, Pick, DistinctCols, IntSeq;
    forall i | 0 <= i < |idx| ensures KeyOf(RowWith(idx, conds, key), idx)[i] == key[i] {
      assert idx[i] in Named(idx, conds);
      ValueInAt(idx, key, idx[i], Pick(conds, idx[i]));
    }
  }

  /** The ends of the range on the covered columns, admitted values on the others. */
  ghost function Sample(idx: seq<string>, conds: seq<Condition>): (key: seq<int>)
    requires IntConds(conds)
    ensures |key| == |idx| && IntSeq(key)
  {
    var low := LowKey(idx, conds);
    seq(|idx|, i requires 0 <= i < |idx| => if i < CoverCount(idx, conds) then low[i] else Pick(conds, idx[i]))
  }

  /** Every remaining condition can be met on its column. */
  ghost predicate AllOpen(idx: seq<string>, conds: seq<Condition>)
  {
    forall i :: 0 <= i < |conds| && conds[i].col !in Covered(idx, conds) ==> Open(conds, conds[i].col)
  }

  lemma {:induction false} NotHopeless(idx: seq<string>, conds: seq<Condition>)
    requires ConstConds(conds) && !Hopeless(idx, conds)
    ensures AllOpen(idx, conds)
  {
  }

  /** A key with admitted values behind the covered columns passes the remaining conditions. */
  lemma {:induction false} SamplePasses(idx: seq<string>, conds: seq<Condition>, key: seq<int>)
    requires IntConds(conds) && ConstConds(conds) && DistinctCols(idx) && AllOpen(idx, conds) && |key| == |idx| &&
        IntSeq(key)
    requires forall i :: CoverCount(idx, conds) <= i < |idx| ==> key[i] == Pick(conds, idx[i])
    ensures CmpConds(RowWith(idx, conds, key), Residual(conds, Covered(idx, conds)))
  {
    var row := RowWith(idx, conds, key);
    ResidualHolds(conds, Covered(idx, conds), row);
    forall i | 0 <= i < |conds| && conds[i].col !in Covered(idx, conds) ensures CmpCond(row, conds[i]) {
      var col := conds[i].col;
      assert col in Named(idx, conds);
      ValueInAt(idx, key, col, Pick(conds, col));
      assert Field(row, col) == Pick(conds, col) by {
        if k :| 0 <= k < |idx| && idx[k] == col {
          assert k >= CoverCount(idx, conds);
        }
      }
      assert Passes(conds, col, Pick(conds, col)) && On(conds[i], col);
    }
  }

  // ---------- a dropped condition that the interval does not say ----------

  /** A column whose bounds are in use: its conditions admit only values between them. */
  lemma {:induction false} PickBetween(idx: seq<string>, conds: seq<Condition>, i: nat)
    requires IntConds(conds) && i < |idx| && AllOpen(idx, conds) && idx[i] !in Covered(idx, conds)
    ensures LowKey(idx, conds)[i] <= Pick(conds, idx[i]) <= HighKey(idx, conds)[i]
  {
    var col := idx[i];
    if k :| 0 <= k < |conds| && On(conds[k], col) {
      IntervalComplete(conds, col, Pick(conds, col));
    } else {
      NoBounds(conds, col);
    }
  }

  lemma {:induction false} NoBounds(conds: seq<Condition>, col: string)
    requires forall k :: 0 <= k < |conds| ==> !On(conds[k], col)
    ensures Low(conds, col) == INT_MIN && High(conds, col) == INT_MAX
  {
    forall op ensures LastOf(conds, col, op).None? {
      if LastOf(conds, col, op).Some? {
        var i := LastOfIn(conds, col, op);
      }
    }
  }

  lemma {:induction false} Uncovered(idx: seq<string>, conds: seq<Condition>, i: nat)
    requires DistinctCols(idx) && CoverCount(idx, conds) <= i < |idx|
    ensures idx[i] !in Covered(idx, conds)
  {
  }

  /** Covered columns use their bounds, and all but the last have only one value. */
  lemma {:induction false} CoveredBounds(idx: seq<string>, conds: seq<Condition>, k: nat)
    requires IntConds(conds) && k < CoverCount(idx, conds)
    ensures LowKey(idx, conds)[k] == Low(conds, idx[k]) && HighKey(idx, conds)[k] == High(conds, idx[k])
    ensures k + 1 < CoverCount(idx, conds) ==> LowKey(idx, conds)[k] == HighKey(idx, conds)[k]
  {
    CoveredEq(idx, conds, k);
    if k + 1 < CoverCount(idx, conds) {
      CoveredEq(idx, conds, k + 1);
    }
    assert Reached(idx, conds, k);
  }

  /** In an ordered range every covered column has its bounds in order. */
  lemma {:induction false} OrderedBounds(idx: seq<string>, conds: seq<Condition>, k: nat)
    requires IntConds(conds) && k < CoverCount(idx, conds) && LexLe(LowKey(idx, conds), HighKey(idx, conds))
    ensures LowKey(idx, conds)[k] <= HighKey(idx, conds)[k]
  {
    var a, b := LowKey(idx, conds), HighKey(idx, conds);
    forall j | 0 <= j < k ensures a[j] == b[j] {
      CoveredBounds(idx, conds, j);
    }
    LexPrefix(a, b, k);
  }

  lemma {:induction false} LexPrefix(a: seq<int>, b: seq<int>, k: nat)
    requires |a| == |b| && k < |a| && LexLe(a, b) && forall j :: 0 <= j < k ==> a[j] == b[j]
    ensures a[k] <= b[k]
  {
    if k > 0 {
      LexPrefix(a[1..], b[1..], k - 1);
    }
  }

  lemma {:induction false} UnfaithfulValue(conds: seq<Condition>, col: string) returns (v: int)
    requires IntConds(conds) && Low(conds, col) <= High(conds, col) && !RespectsAll(conds, col)
    ensures INT_MIN <= v <= INT_MAX && Low(conds, col) <= v <= High(conds, col) && !ColHolds(conds, col, v)
  {
    FaithfulIff(conds, col);
    v :| INT_MIN <= v <= INT_MAX && Low(conds, col) <= v <= High(conds, col) && !ColHolds(conds, col, v);
  }

  /** One row in the range that passes the remaining conditions and violates a dropped one is delivered wrongly. */
  lemma {:induction false} WrongInRange(idx: seq<string>, conds: seq<Condition>, lost: bool,
      k: nat) returns (e: seq<Pair>, table: map<Rid, Row>)
    requires IntConds(conds) && ConstConds(conds) && DistinctCols(idx) && AllOpen(idx, conds)
    requires LexLe(LowKey(idx, conds), HighKey(idx, conds)) && k < CoverCount(idx, conds) && !RespectsAll(conds, idx[k])
    ensures Indexed(e, table, idx) && !ExactOn(e, table, idx, conds, lost)
  {
    var a, b := LowKey(idx, conds), HighKey(idx, conds);
    CoveredBounds(idx, conds, k);
    OrderedBounds(idx, conds, k);
    var v := UnfaithfulValue(conds, idx[k]);
    var key := Sample(idx, conds)[k := v];
    forall i | 0 <= i < |idx| ensures a[i] <= key[i] <= b[i] {
      if i < CoverCount(idx, conds) {
        OrderedBounds(idx, conds, i);
      } else {
        Uncovered(idx, conds, i);
        PickBetween(idx, conds, i);
      }
    }
    PointwiseLex(a, key);
    PointwiseLex(key, b);
    SamplePasses(idx, conds, key);
    RowHasKey(idx, conds, key);
    var row := RowWith(idx, conds, key);
    ViolatedCond(conds, idx[k], row, v, idx, k);
    e, table := OneRow(idx, conds, lost, row);
  }

  lemma {:induction false} ViolatedCond(conds: seq<Condition>, col: string, row: Row, v: int, idx: seq<string>, k: nat)
    requires k < |idx| && idx[k] == col && KeyOf(row, idx)[k] == v && !ColHolds(conds, col, v)
    ensures !CmpConds(row, conds)
  {
    var i :| 0 <= i < |conds| && On(conds[i], col) && !Compare(v, conds[i].op, conds[i].val);
    assert !CmpCond(row, conds[i]);
  }

  /** The table with one row that is delivered but does not qualify. */
  lemma {:induction false} OneRow(idx: seq<string>, conds: seq<Condition>, lost: bool, row: Row) returns (e: seq<Pair>,
      table: map<Rid, Row>)
    requires IntConds(conds) && IntRow(row) && CmpConds(row, Residual(conds, Covered(idx, conds))) &&
        !CmpConds(row, conds)
    requires LexLe(LowKey(idx, conds), KeyOf(row, idx)) && LexLe(KeyOf(row, idx), HighKey(idx, conds))
    ensures Indexed(e, table, idx) && !ExactOn(e, table, idx, conds, lost)
    ensures e == [Pair(RowRank(row, idx), Rid(1, 0))] && table == map[Rid(1, 0) := row]
    ensures Outcome(e, table, idx, conds, lost) == [Rid(1, 0)] && Matching(e, table, conds) == []
  {
    var r := Rid(1, 0);
    RankBetween(row, idx, LowKey(idx, conds), HighKey(idx, conds));
    hide CmpConds, LexLe, KeyRank, Residual, Covered, LowKey, HighKey, Scanned, Matching, Kept, Indexed;
    e, table := [Pair(RowRank(row, idx), r)], map[r := row];
    OneIndexed(e, table, idx, row, r);
    OneScanned(e[0], KeyRank(LowKey(idx, conds)), KeyRank(HighKey(idx, conds)), lost);
    NoneMatching(e, table, conds);
    KeptOne(r, table, Residual(conds, Covered(idx, conds)));
  }

  lemma {:induction false} OneScanned(p: Pair, a: Key, b: Key, lost: bool)
    requires a <= p.key <= b
    ensures Scanned([p], a, b, lost) == [p.rid]
  {
    assert [p][1..] == [];
    assert Below([p], a) == 0 && Below([p], b + 1) == 1;
  }

  lemma {:induction false} KeptOne(r: Rid, table: map<Rid, Row>, conds: seq<Condition>)
    ensures Kept([r], table, conds) == if r in table && CmpConds(table[r], conds) then [r] else []
  {
    assert [r][..0] == [];
  }

  lemma {:induction false} OneIndexed(e: seq<Pair>, table: map<Rid, Row>, idx: seq<string>, row: Row, r: Rid)
    requires IntRow(row) && e == [Pair(RowRank(row, idx), r)] && table == map[r := row]
    ensures Indexed(e, table, idx)
  {
    hide KeyRank, MapOf;
    assert Sorted(e);
    MapHas(e, 0);
    forall k | k in MapOf(e) ensures MapOf(e)[k] in table && RowRank(table[MapOf(e)[k]], idx) == k {
      var i := MapWhere(e, k);
    }
  }

  // ---------- a range that is upside down ----------

  lemma {:induction false} LexFirst(a: seq<int>, b: seq<int>, j: nat)
    requires |a| == |b| && j < |a| && (forall i :: 0 <= i < j ==> a[i] == b[i]) && a[j] > b[j]
    ensures !LexLe(a, b)
  {
    if j > 0 {
      LexFirst(a[1..], b[1..], j - 1);
    }
  }

  /** A key strictly between the ends of an inverted range. */
  lemma {:induction false} GapKey(a: seq<int>, b: seq<int>) returns (key: seq<int>)
    requires |a| == |b| && IntSeq(a) && IntSeq(b) && !LexLe(a, b) && Gap(a, b)
    ensures |key| == |a| && IntSeq(key) && !LexLe(key, b) && !LexLe(a, key)
  {
    if a[0] == b[0] {
      var tail := GapKey(a[1..], b[1..]);
      key := [a[0]] + tail;
      assert key[1..] == tail;
    } else if a[0] > b[0] + 1 {
      key := b[0 := b[0] + 1];
      LexFirst(key, b, 0);
      LexFirst(a, key, 0);
    } else if j :| 0 < j < |b| && b[j] < INT_MAX {
      key := b[j := b[j] + 1];
      LexFirst(key, b, j);
      LexFirst(a, key, 0);
    } else {
      var j :| 0 < j < |a| && a[j] > INT_MIN;
      key := a[j := a[j] - 1];
      LexFirst(key, b, 0);
      LexFirst(a, key, j);
    }
  }

  /** A key between the ends hides the end of the scan, and a row behind it is delivered although nothing qualifies. */
  lemma {:induction false} WrongInverted(idx: seq<string>, conds: seq<Condition>, lost: bool) returns (e: seq<Pair>,
      table: map<Rid, Row>)
    requires IntConds(conds) && ConstConds(conds) && DistinctCols(idx) && AllOpen(idx, conds)
    requires !LexLe(LowKey(idx, conds), HighKey(idx, conds)) && Gap(LowKey(idx, conds), HighKey(idx, conds))
    ensures Indexed(e, table, idx) && !ExactOn(e, table, idx, conds, lost)
  {
    var a, b := LowKey(idx, conds), HighKey(idx, conds);
    var between := GapKey(a, b);
    var behind := Sample(idx, conds);
    forall i | 0 <= i < |idx| ensures a[i] <= behind[i] {
      if i >= CoverCount(idx, conds) {
        Uncovered(idx, conds, i);
        PickBetween(idx, conds, i);
      }
    }
    PointwiseLex(a, behind);
    SamplePasses(idx, conds, behind);
    RowHasKey(idx, conds, behind);
    RowHasKey(idx, conds, between);
    e, table := TwoRows(idx, conds, lost, RowWith(idx, conds, between), RowWith(idx, conds, behind));
  }

  lemma {:induction false} TwoRows(idx: seq<string>, conds: seq<Condition>, lost: bool, between: Row, behind: Row)
    returns (e: seq<Pair>, table: map<Rid, Row>)
    requires IntConds(conds) && IntRow(between) && IntRow(behind) &&
        CmpConds(behind, Residual(conds, Covered(idx, conds)))
    requires !LexLe(LowKey(idx, conds), HighKey(idx, conds)) && LexLe(LowKey(idx, conds), KeyOf(behind, idx))
    requires !LexLe(KeyOf(between, idx), HighKey(idx, conds)) && !LexLe(LowKey(idx, conds), KeyOf(between, idx))
    ensures Indexed(e, table, idx) && !ExactOn(e, table, idx, conds, lost)
    ensures table == map[Rid(1, 0) := between, Rid(1, 1) := behind]
    ensures Outcome(e, table, idx, conds, lost) == [Rid(1, 1)] && Matching(e, table, conds) == []
  {
    RankBetween(between, idx, LowKey(idx, conds), HighKey(idx, conds));
    RankBetween(behind, idx, LowKey(idx, conds), HighKey(idx, conds));
    hide CmpConds, LexLe, KeyRank, Residual, Covered, LowKey, HighKey;
    var p, q := Pair(RowRank(between, idx), Rid(1, 0)), Pair(RowRank(behind, idx), Rid(1, 1));
    e, table := [p, q], map[Rid(1, 0) := between, Rid(1, 1) := behind];
    TwoIndexed(e, table, idx, between, behind);
    var a, b := KeyRank(LowKey(idx, conds)), KeyRank(HighKey(idx, conds));
    assert e[1..] == [q] && [q][1..] == [];
    assert Below(e, a) == 1 && Below(e, b + 1) == 0;
    assert Scanned(e, a, b, lost) == [q.rid];
    KeptOne(q.rid, table, Residual(conds, Covered(idx, conds)));
    InvertedMatchesNone(e, table, idx, conds);
  }

  lemma {:induction false} TwoIndexed(e: seq<Pair>, table: map<Rid, Row>, idx: seq<string>, first: Row, second: Row)
    requires IntRow(first) && IntRow(second) && RowRank(first, idx) < RowRank(second, idx)
    requires e == [Pair(RowRank(first, idx), Rid(1, 0)), Pair(RowRank(second, idx), Rid(1, 1))]
    requires table == map[Rid(1, 0) := first, Rid(1, 1) := second]
    ensures Indexed(e, table, idx)
  {
    hide KeyRank, MapOf;
    assert Sorted(e);
    MapHas(e, 0);
    MapHas(e, 1);
    forall k | k in MapOf(e) ensures MapOf(e)[k] in table && RowRank(table[MapOf(e)[k]], idx) == k {
      var i := MapWhere(e, k);
    }
  }

  /** Constants that fail the test: a table on which the executor delivers too much. */
  lemma {:induction false} Unsafe(idx: seq<string>, conds: seq<Condition>, lost: bool) returns (e: seq<Pair>,
      table: map<Rid, Row>)
    requires IntConds(conds) && ConstConds(conds) && DistinctCols(idx) && !ScanSafe(idx, conds)
    ensures Indexed(e, table, idx) && !ExactOn(e, table, idx, conds, lost)
  {
    hide LexLe, Gap, Hopeless, AllOpen, RespectsAll, Indexed, ExactOn, LowKey, HighKey, CoverCount;
    NotHopeless(idx, conds);
    if LexLe(LowKey(idx, conds), HighKey(idx, conds)) {
      var k :| 0 <= k < CoverCount(idx, conds) && !RespectsAll(conds, idx[k]);
      e, table := WrongInRange(idx, conds, lost, k);
    } else {
      e, table := WrongInverted(idx, conds, lost);
    }
  }

  // ---------- what passes and what fails ----------

  /**
    One equality or at most one bound on each side of every covered column, and no empty interval among them: the test
    is passed.
   */
  lemma {:induction false} TidyIsSafe(idx: seq<string>, conds: seq<Condition>)
    requires IntConds(conds) && DistinctCols(idx)
    requires forall k :: 0 <= k < CoverCount(idx, conds) ==>
        Tidy(conds, idx[k]) && Low(conds, idx[k]) <= High(conds, idx[k])
    ensures ScanSafe(idx, conds)
  {
    forall k | 0 <= k < CoverCount(idx, conds) ensures RespectsAll(conds, idx[k]) {
      TidyFaithful(conds, idx[k]);
      FaithfulIff(conds, idx[k]);
    }
    if !LexLe(LowKey(idx, conds), HighKey(idx, conds)) {
      var m := LexGreater(LowKey(idx, conds), HighKey(idx, conds));
      EmptyColumn(idx, conds, m);
    }
  }

  /** An uncovered column with an empty interval has conditions that nothing meets. */
  lemma {:induction false} EmptyColumn(idx: seq<string>, conds: seq<Condition>, m: nat)
    requires IntConds(conds) && DistinctCols(idx) && m < |idx| && LowKey(idx, conds)[m] > HighKey(idx, conds)[m]
    requires forall k :: 0 <= k < CoverCount(idx, conds) ==> Low(conds, idx[k]) <= High(conds, idx[k])
    ensures Hopeless(idx, conds)
  {
    var col := idx[m];
    if m < CoverCount(idx, conds) {
      CoveredBounds(idx, conds, m);
    }
    Uncovered(idx, conds, m);
    if forall i :: 0 <= i < |conds| ==> !On(conds[i], col) {
      NoBounds(conds, col);
    }
    var i :| 0 <= i < |conds| && On(conds[i], col);
    OpenIff(conds, col);
    if v :| Passes(conds, col, v) {
      IntervalComplete(conds, col, v);
    }
  }

  /** On one column the test is: every condition respects the interval, or the interval is empty by one. */
  lemma {:induction false} OneColumn(conds: seq<Condition>, col: string)
    requires IntConds(conds) && conds != [] && forall i :: 0 <= i < |conds| ==> On(conds[i], col)
    ensures ScanSafe([col], conds) <==>
      if Low(conds, col) <= High(conds, col) then RespectsAll(conds, col) else Low(conds, col) == High(conds, col) + 1
  {
    var idx := [col];
    OneCovered(conds, col);
    assert !Hopeless(idx, conds);
    OneLex(Low(conds, col), High(conds, col));
    assert RespectsAll(conds, col) <==> forall k :: 0 <= k < CoverCount(idx, conds) ==> RespectsAll(conds, idx[k]) by {
      assert idx[0] == col;
    }
  }

  lemma {:induction false} OneLex(lo: int, hi: int)
    ensures LexLe([lo], [hi]) <==> lo <= hi
    ensures Gap([lo], [hi]) <==> lo != hi && lo > hi + 1
  {
    assert [lo][1..] == [] && [hi][1..] == [];
  }

  lemma {:induction false} LastOne(c: Condition, col: string)
    requires On(c, col)
    ensures forall op :: LastOf([c], col, op) == if c.op == op then Some(c.val) else None
  {
    forall op ensures LastOf([c], col, op) == if c.op == op then Some(c.val) else None {
      assert [c][..0] == [];
    }
  }

  lemma {:induction false} LastTwo(c: Condition, d: Condition, col: string)
    requires On(c, col) && On(d, col)
    ensures forall op :: LastOf([c, d], col, op) == if d.op == op then Some(d.val) else if c.op == op then Some(c.val)
        else None
  {
    LastOne(c, col);
    assert [c, d][..1] == [c];
  }

  function Test(col: string, op: CompOp, v: int): Condition
  {
    Condition(col, op, true, v, "")
  }

  /** One condition on one column: what the interval is and when the executor is exact. */
  lemma {:induction false} OneCondition(col: string, op: CompOp, v: int, lost: bool)
    requires INT_MIN <= v <= INT_MAX
    ensures AlwaysExact([col], [Test(col, op, v)], lost) <==>
      op != NE && !(op == GT && v == INT_MAX) && !(op == LT && v == INT_MIN)
  {
    hide AlwaysExact, ScanSafe;
    var conds := [Test(col, op, v)];
    LastOne(conds[0], col);
    OneColumn(conds, col);
    ScanSafeIff([col], conds, lost);
    assert On(conds[0], col);
  }

  /**
    Two equalities, a bound beside an equality, and two bounds on one side: exact only if the kept one is the tighter
    one.
   */
  lemma {:induction false} TwoConditions(col: string, v: int, w: int, lost: bool)
    requires INT_MIN <= v < w <= INT_MAX
    ensures !AlwaysExact([col], [Test(col, EQ, v), Test(col, EQ, w)], lost)
    ensures !AlwaysExact([col], [Test(col, EQ, v), Test(col, GE, w)], lost)
    ensures !AlwaysExact([col], [Test(col, GE, w), Test(col, GE, v)], lost)
    ensures AlwaysExact([col], [Test(col, GE, v), Test(col, GE, w)], lost)
  {
    hide AlwaysExact, ScanSafe;
    PairExact(col, Test(col, EQ, v), Test(col, EQ, w), lost);
    PairExact(col, Test(col, EQ, v), Test(col, GE, w), lost);
    PairExact(col, Test(col, GE, w), Test(col, GE, v), lost);
    PairExact(col, Test(col, GE, v), Test(col, GE, w), lost);
  }

  /** A lower bound above an upper one: exact exactly when the interval is empty by one. */
  lemma {:induction false} EmptyInterval(col: string, v: int, w: int, lost: bool)
    requires INT_MIN < v <= w + 1 && w < INT_MAX
    ensures AlwaysExact([col], [Test(col, GT, w), Test(col, LT, v)], lost) <==> v == w + 1
  {
    PairExact(col, Test(col, GT, w), Test(col, LT, v), lost);
  }

  lemma {:induction false} PairExact(col: string, c: Condition, d: Condition, lost: bool)
    requires On(c, col) && On(d, col) && INT_MIN <= c.val <= INT_MAX && INT_MIN <= d.val <= INT_MAX
    ensures var conds := [c, d]; var lo, hi := Low(conds, col), High(conds, col);
            AlwaysExact([col], conds, lost) <==>
                if lo <= hi then Respects(c, lo, hi) && Respects(d, lo, hi) else lo == hi + 1
    ensures forall op :: LastOf([c, d], col, op) == if d.op == op then Some(d.val) else if c.op == op then Some(c.val)
        else None
  {
    var conds := [c, d];
    LastTwo(c, d, col);
    OneColumn(conds, col);
    ScanSafeIff([col], conds, lost);
    assert conds[0] == c && conds[1] == d;
    assert forall i :: 0 <= i < |conds| ==> conds[i] == c || conds[i] == d;
  }

  /** `<> v`: the row with `v` itself is delivered. */
  lemma {:induction false} DroppedInequality(col: string, v: int, lost: bool) returns (e: seq<Pair>,
      table: map<Rid, Row>)
    requires INT_MIN <= v <= INT_MAX
    ensures table == map[Rid(1, 0) := map[col := v]] && Indexed(e, table, [col])
    ensures Outcome(e, table, [col], [Test(col, NE, v)], lost) == [Rid(1, 0)]
    ensures Matching(e, table, [Test(col, NE, v)]) == []
  {
    var idx, conds, row := [col], [Test(col, NE, v)], map[col := v];
    LastOne(conds[0], col);
    OneCovered(conds, col);
    ResidualHolds(conds, Covered(idx, conds), row);
    assert KeyOf(row, idx) == [v];
    OneLex(INT_MIN, v);
    OneLex(v, INT_MAX);
    assert !CmpCond(row, conds[0]);
    e, table := OneRow(idx, conds, lost, row);
  }

  /** `> w` and `< v` with `v <= w`: beside the row with `v`, the row with `w + 1` is delivered. */
  lemma {:induction false} InvertedInterval(col: string, v: int, w: int, lost: bool) returns (e: seq<Pair>,
      table: map<Rid, Row>)
    requires INT_MIN < v <= w < INT_MAX
    ensures table == map[Rid(1, 0) := map[col := v], Rid(1, 1) := map[col := w + 1]] && Indexed(e, table, [col])
    ensures Outcome(e, table, [col], [Test(col, GT, w), Test(col, LT, v)], lost) == [Rid(1, 1)]
    ensures Matching(e, table, [Test(col, GT, w), Test(col, LT, v)]) == []
  {
    var idx, conds := [col], [Test(col, GT, w), Test(col, LT, v)];
    var between, behind := map[col := v], map[col := w + 1];
    LastTwo(conds[0], conds[1], col);
    OneCovered(conds, col);
    ResidualHolds(conds, Covered(idx, conds), behind);
    assert KeyOf(between, idx) == [v] && KeyOf(behind, idx) == [w + 1];
    OneLex(w + 1, v - 1);
    OneLex(w + 1, w + 1);
    OneLex(v, v - 1);
    OneLex(w + 1, v);
    e, table := TwoRows(idx, conds, lost, between, behind);
  }

  lemma {:induction false} OneCovered(conds: seq<Condition>, col: string)
    requires IntConds(conds) && conds != [] && forall i :: 0 <= i < |conds| ==> On(conds[i], col)
    ensures CoverCount([col], conds) == 1 && Covered([col], conds) == {col}
    ensures LowKey([col], conds) == [Low(conds, col)] && HighKey([col], conds) == [High(conds, col)]
  {
    var idx := [col];
    assert On(conds[0], col);
    assert idx[1..] == [];
    assert CoverCount([], conds) == 0;
    assert idx[0] in Covered(idx, conds);
    assert Reached(idx, conds, 0);
  }
}

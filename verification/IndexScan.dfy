/**
  The index scan executor: reads the key range over the tree and checks the remaining conditions row by row.
 */
module IndexScan {
  import opened Comparisons
  import opened Config
  import opened IxLevels
  import opened IxTower
  import opened IxIndex
  import opened IxScan
  import opened Options
  import opened IndexRange

  // ---------- when the range and the remaining conditions are enough ----------

  predicate Passes(conds: seq<Condition>, col: string, v: int)
  {
    INT_MIN <= v <= INT_MAX && ColHolds(conds, col, v)
  }

  /**
    Some integer satisfies all the constant conditions on a column; only the constants and their successors need a look.
   */
  predicate Open(conds: seq<Condition>, col: string)
  {
    || Passes(conds, col, INT_MIN)
    || exists i :: 0 <= i < |conds| && (Passes(conds, col, conds[i].val) || Passes(conds, col, conds[i].val + 1))
  }

  lemma {:induction false} OpenIff(conds: seq<Condition>, col: string)
    ensures Open(conds, col) <==> exists v :: Passes(conds, col, v)
  {
    hide Passes;
    if v :| Passes(conds, col, v) {
      OpenBelow(conds, col, v);
    }
  }

  /** The smallest value that passes is the least integer, a constant, or the successor of one. */
  lemma {:induction false} OpenBelow(conds: seq<Condition>, col: string, v: int)
    requires Passes(conds, col, v)
    ensures Open(conds, col)
    decreases v - INT_MIN
  {
    if v > INT_MIN {
      if Passes(conds, col, v - 1) {
        OpenBelow(conds, col, v - 1);
      } else {
        var i := EdgeAt(conds, col, v);
        assert v == conds[i].val || v == conds[i].val + 1;
      }
    }
  }

  lemma {:induction false} EdgeAt(conds: seq<Condition>, col: string, v: int) returns (i: nat)
    requires v > INT_MIN && Passes(conds, col, v) && !Passes(conds, col, v - 1)
    ensures i < |conds| && (v == conds[i].val || v == conds[i].val + 1)
  {
    i :| 0 <= i < |conds| && On(conds[i], col) && !Compare(v - 1, conds[i].op, conds[i].val);
    assert Compare(v, conds[i].op, conds[i].val);
  }

  predicate RespectsAll(conds: seq<Condition>, col: string)
  {
    forall i :: 0 <= i < |conds| && On(conds[i], col) ==> Respects(conds[i], Low(conds, col), High(conds, col))
  }

  function LowKey(idx: seq<string>, conds: seq<Condition>): (r: seq<int>)
    requires IntConds(conds)
    ensures |r| == |idx| && IntSeq(r)
  {
    KeyBounds(idx, conds);
    seq(|idx|, i requires 0 <= i < |idx| => LowAt(idx, conds, i))
  }

  function HighKey(idx: seq<string>, conds: seq<Condition>): (r: seq<int>)
    requires IntConds(conds)
    ensures |r| == |idx| && IntSeq(r)
  {
    KeyBounds(idx, conds);
    seq(|idx|, i requires 0 <= i < |idx| => HighAt(idx, conds, i))
  }

  lemma {:induction false} KeyBounds(idx: seq<string>, conds: seq<Condition>)
    requires IntConds(conds)
    ensures forall i :: 0 <= i < |idx| ==>
      INT_MIN <= LowAt(idx, conds, i) <= INT_MAX && INT_MIN <= HighAt(idx, conds, i) <= INT_MAX
  {
    forall i | 0 <= i < |idx|
      ensures INT_MIN <= LowAt(idx, conds, i) <= INT_MAX && INT_MIN <= HighAt(idx, conds, i) <= INT_MAX
    {
      BoundsInt(conds, idx[i]);
    }
  }

  /** Some integer key lies strictly between `b` and the greater key `a`. */
  predicate Gap(a: seq<int>, b: seq<int>)
    requires |a| == |b|
  {
    && a != []
    && if a[0] == b[0] then Gap(a[1..], b[1..])
       else
         || a[0] > b[0] + 1
         || (exists j :: 0 < j < |b| && b[j] < INT_MAX)
         || (exists j :: 0 < j < |a| && a[j] > INT_MIN)
  }

  /** A remaining condition that no integer meets together with the others on its column. */
  predicate Hopeless(idx: seq<string>, conds: seq<Condition>)
  {
    exists i :: 0 <= i < |conds| && conds[i].isVal && conds[i].col !in Covered(idx, conds) && !Open(conds, conds[i].col)
  }

  /**
    The test on the constants that tells whether the executor is exact: the remaining conditions reject every row,
    or the range is in order and every dropped condition respects its interval,
    or the range is upside down and no key fits between its ends.
   */
  predicate ScanSafe(idx: seq<string>, conds: seq<Condition>)
    requires IntConds(conds)
  {
    || Hopeless(idx, conds)
    || if LexLe(LowKey(idx, conds), HighKey(idx, conds))
       then forall k :: 0 <= k < CoverCount(idx, conds) ==> RespectsAll(conds, idx[k])
       else !Gap(LowKey(idx, conds), HighKey(idx, conds))
  }

  lemma {:induction false} HopelessRejects(idx: seq<string>, conds: seq<Condition>, row: Row)
    requires IntRow(row) && Hopeless(idx, conds)
    ensures !CmpConds(row, Residual(conds, Covered(idx, conds)))
  {
    var i :| 0 <= i < |conds| && conds[i].isVal && conds[i].col !in Covered(idx, conds) && !Open(conds, conds[i].col);
    OpenIff(conds, conds[i].col);
    ResidualPasses(idx, conds, conds[i].col, row);
  }

  lemma {:induction false} ResidualPasses(idx: seq<string>, conds: seq<Condition>, col: string, row: Row)
    requires IntRow(row) && col !in Covered(idx, conds)
    ensures CmpConds(row, Residual(conds, Covered(idx, conds))) ==> Passes(conds, col, Field(row, col))
  {
    ResidualHolds(conds, Covered(idx, conds), row);
    if CmpConds(row, Residual(conds, Covered(idx, conds))) {
      forall k | 0 <= k < |conds| && On(conds[k], col) ensures Compare(Field(row, col), conds[k].op, conds[k].val) {
        assert CmpCond(row, conds[k]);
      }
    }
  }

  /** Without a gap no integer key lies strictly between the ends of an inverted range. */
  lemma {:induction false} NoGap(a: seq<int>, key: seq<int>, b: seq<int>)
    requires |a| == |key| == |b| && IntSeq(a) && IntSeq(key) && IntSeq(b) && !LexLe(a, b) && !Gap(a, b)
    ensures LexLe(key, b) || LexLe(a, key)
  {
    if a[0] == b[0] {
      if key[0] == a[0] {
        NoGap(a[1..], key[1..], b[1..]);
      }
    } else {
      forall j | 0 < j < |b| ensures b[j] == INT_MAX && a[j] == INT_MIN {
      }
      PointwiseLex(key[1..], b[1..]);
      PointwiseLex(a[1..], key[1..]);
    }
  }

  // ---------- the executor ----------

  function RowRank(row: Row, idx: seq<string>): int
    requires IntRow(row)
  {
    KeyRank(KeyOf(row, idx))
  }

  predicate IntTable(table: map<Rid, Row>)
  {
    forall r :: r in table ==> IntRow(table[r])
  }

  /** The index holds exactly the keys of the rows. */
  ghost predicate IndexedBy(index: map<Key, Rid>, table: map<Rid, Row>, idx: seq<string>)
    requires IntTable(table)
  {
    && (forall r :: r in table ==> RowRank(table[r], idx) in index && index[RowRank(table[r], idx)] == r)
    && (forall k :: k in index ==> index[k] in table && RowRank(table[index[k]], idx) == k)
  }

  /** The entries of the rows that satisfy the conditions, in key order. */
  ghost function Matching(e: seq<Pair>, table: map<Rid, Row>, conds: seq<Condition>): seq<Pair>
  {
    if e == [] then []
    else (if e[0].rid in table && CmpConds(table[e[0].rid], conds) then [e[0]] else []) + Matching(e[1..], table, conds)
  }

  function Kept(rids: seq<Rid>, table: map<Rid, Row>, conds: seq<Condition>): seq<Rid>
  {
    if rids == [] then []
    else
      var last := rids[|rids| - 1];
      Kept(rids[..|rids| - 1], table, conds) + if last in table && CmpConds(table[last], conds) then [last] else []
  }

  /** Checks the rows that the cursor delivers one by one. */
  method CheckRows(rids: seq<Rid>, table: map<Rid, Row>, conds: seq<Condition>) returns (out: seq<Rid>)
    ensures out == Kept(rids, table, conds)
  {
    out := [];
    for k := 0 to |rids|
      invariant out == Kept(rids[..k], table, conds)
    {
      assert rids[..k + 1][..k] == rids[..k];
      if rids[k] in table && CmpConds(table[rids[k]], conds) {
        out := out + [rids[k]];
      }
    }
    assert rids[..|rids|] == rids;
  }

  lemma {:induction false} KeptMembers(rids: seq<Rid>, table: map<Rid, Row>, conds: seq<Condition>, r: Rid)
    ensures r in Kept(rids, table, conds) <==> r in rids && r in table && CmpConds(table[r], conds)
  {
    if rids != [] {
      var n := |rids| - 1;
      KeptMembers(rids[..n], table, conds, r);
      assert rids == rids[..n] + [rids[n]];
    }
  }

  lemma {:induction false} KeptCons(r: Rid, rids: seq<Rid>, table: map<Rid, Row>, conds: seq<Condition>)
    ensures Kept([r] + rids, table, conds) == (if r in table && CmpConds(table[r], conds) then [r] else []) +
        Kept(rids, table, conds)
  {
    if rids != [] {
      var n := |rids| - 1;
      KeptCons(r, rids[..n], table, conds);
      assert ([r] + rids)[..n + 1] == [r] + rids[..n];
    } else {
      assert [r] + rids == [r];
      assert Kept([r][..0], table, conds) == [];
    }
  }

  ghost predicate RightlyKept(p: Pair, a: Key, b: Key, table: map<Rid, Row>, residual: seq<Condition>,
      conds: seq<Condition>)
  {
    p.rid in table && ((a <= p.key <= b && CmpConds(table[p.rid], residual)) <==> CmpConds(table[p.rid], conds))
  }

  /** Filtering the range by the residual conditions is filtering everything by all conditions. */
  lemma {:induction false} KeptInRange(e: seq<Pair>, a: Key, b: Key, table: map<Rid, Row>, residual: seq<Condition>,
      conds: seq<Condition>)
    requires forall i :: 0 <= i < |e| ==> RightlyKept(e[i], a, b, table, residual, conds)
    ensures Kept(Rids(InRange(e, a, b)), table, residual) == Rids(Matching(e, table, conds))
  {
    hide CmpConds;
    if e != [] {
      assert forall i :: 0 <= i < |e| - 1 ==> e[1..][i] == e[i + 1];
      KeptInRange(e[1..], a, b, table, residual, conds);
      assert RightlyKept(e[0], a, b, table, residual, conds);
      var rest, found := InRange(e[1..], a, b), Matching(e[1..], table, conds);
      assert Rids([e[0]] + rest) == [e[0].rid] + Rids(rest);
      assert Rids([e[0]] + found) == [e[0].rid] + Rids(found);
      assert [] + rest == rest && [] + found == found;
      KeptCons(e[0].rid, Rids(rest), table, residual);
    }
  }

  ghost predicate EntryOf(p: Pair, table: map<Rid, Row>, idx: seq<string>)
    requires IntTable(table)
  {
    p.rid in table && RowRank(table[p.rid], idx) == p.key
  }

  lemma {:induction false} EntriesOf(e: seq<Pair>, table: map<Rid, Row>, idx: seq<string>)
    requires Sorted(e) && IntTable(table) && IndexedBy(MapOf(e), table, idx)
    ensures forall i :: 0 <= i < |e| ==> EntryOf(e[i], table, idx)
    ensures forall r :: r in table ==> Pair(RowRank(table[r], idx), r) in e
  {
    hide MapOf, Sorted, KeyRank;
    forall i | 0 <= i < |e| ensures EntryOf(e[i], table, idx) {
      MapHas(e, i);
    }
    forall r | r in table ensures Pair(RowRank(table[r], idx), r) in e {
      var i := MapWhere(e, RowRank(table[r], idx));
      assert e[i] == Pair(RowRank(table[r], idx), r);
    }
  }

  lemma {:induction false} InRangeHas(e: seq<Pair>, a: Key, b: Key, p: Pair)
    requires p in e && a <= p.key <= b
    ensures p.rid in Rids(InRange(e, a, b))
  {
    var rest := InRange(e[1..], a, b);
    if e[0] == p {
      assert Rids([e[0]] + rest)[0] == p.rid;
    } else {
      InRangeHas(e[1..], a, b, p);
      var k :| 0 <= k < |rest| && Rids(rest)[k] == p.rid;
      assert Rids([e[0]] + rest)[k + 1] == p.rid;
      assert [] + rest == rest;
    }
  }

  /** The rows outside the range are exactly those whose keys are not between the ranks of its ends. */
  lemma {:induction false} RankBetween(row: Row, idx: seq<string>, lower: seq<int>, upper: seq<int>)
    requires IntRow(row) && |lower| == |upper| == |idx| && IntSeq(lower) && IntSeq(upper)
    ensures IntSeq(KeyOf(row, idx))
    ensures LexLe(lower, KeyOf(row, idx)) <==> KeyRank(lower) <= RowRank(row, idx)
    ensures LexLe(KeyOf(row, idx), upper) <==> RowRank(row, idx) <= KeyRank(upper)
    ensures LexLe(lower, upper) <==> KeyRank(lower) <= KeyRank(upper)
  {
    RankLex(lower, KeyOf(row, idx));
    RankLex(KeyOf(row, idx), upper);
    RankLex(lower, upper);
  }

  lemma {:induction false} ResidualWeaker(conds: seq<Condition>, covered: set<string>, row: Row)
    requires CmpConds(row, conds)
    ensures CmpConds(row, Residual(conds, covered))
  {
    ResidualHolds(conds, covered, row);
  }

  /** What the executor delivers from an index with entries `e`; `lost` says that the last leaf is unknown. */
  ghost function Outcome(e: seq<Pair>, table: map<Rid, Row>, idx: seq<string>, conds: seq<Condition>,
      lost: bool): seq<Rid>
    requires IntConds(conds)
  {
    Kept(Scanned(e, KeyRank(LowKey(idx, conds)), KeyRank(HighKey(idx, conds)), lost), table,
        Residual(conds, Covered(idx, conds)))
  }

  /** `e` are the entries of an index over the table. */
  ghost predicate Indexed(e: seq<Pair>, table: map<Rid, Row>, idx: seq<string>)
  {
    Sorted(e) && IntTable(table) && IndexedBy(MapOf(e), table, idx)
  }

  lemma {:induction false} KeysAreRange(idx: seq<string>, conds: seq<Condition>)
    requires IntConds(conds)
    ensures IsRange(idx, conds, LowKey(idx, conds), HighKey(idx, conds))
  {
  }

  lemma {:induction false} BelowLower(e: seq<Pair>, key: Key)
    requires Sorted(e)
    ensures IsLower(e, key, Below(e, key))
  {
    if e != [] {
      BelowLower(e[1..], key);
    }
  }

  lemma {:induction false} ScannedInRange(e: seq<Pair>, a: Key, b: Key, lost: bool)
    requires Sorted(e) && a <= b
    ensures Scanned(e, a, b, lost) == Rids(InRange(e, a, b))
  {
    BelowLower(e, a);
    BelowLower(e, b + 1);
    DeliveredInRange(e, a, b, Below(e, a), Below(e, b + 1), lost);
  }

  /** No qualifying row is lost. */
  lemma {:induction false} ExecuteComplete(e: seq<Pair>, table: map<Rid, Row>, idx: seq<string>, conds: seq<Condition>,
      lost: bool)
    requires IntConds(conds) && Indexed(e, table, idx)
    ensures forall r :: r in table && CmpConds(table[r], conds) ==> r in Outcome(e, table, idx, conds, lost)
  {
    var lower, upper := LowKey(idx, conds), HighKey(idx, conds);
    var rids := Scanned(e, KeyRank(lower), KeyRank(upper), lost);
    KeysAreRange(idx, conds);
    EntriesOf(e, table, idx);
    hide MapOf, Sorted, CmpConds, KeyRank, IndexedBy, InRange, Residual, LexLe, LowKey, HighKey, Scanned;
    forall r | r in table && CmpConds(table[r], conds) ensures r in Kept(rids, table,
        Residual(conds, Covered(idx, conds))) {
      RangeComplete(idx, conds, lower, upper, table[r]);
      RankBetween(table[r], idx, lower, upper);
      InRangeHas(e, KeyRank(lower), KeyRank(upper), Pair(RowRank(table[r], idx), r));
      ScannedInRange(e, KeyRank(lower), KeyRank(upper), lost);
      ResidualWeaker(conds, Covered(idx, conds), table[r]);
      KeptMembers(rids, table, Residual(conds, Covered(idx, conds)), r);
    }
  }

  /**
    Where the covered intervals are faithful, an entry lies in the range and passes the residual conditions exactly when
    its row passes them all.
   */
  lemma {:induction false} EntryKept(p: Pair, table: map<Rid, Row>, idx: seq<string>, conds: seq<Condition>,
      lower: seq<int>, upper: seq<int>)
    requires IntTable(table) && EntryOf(p, table, idx) && IntConds(conds)
    requires forall i, j :: 0 <= i < j < |idx| ==> idx[i] != idx[j]
    requires IsRange(idx, conds, lower, upper) && IntSeq(lower) && IntSeq(upper) && CoveredFaithful(idx, conds)
    ensures RightlyKept(p, KeyRank(lower), KeyRank(upper), table, Residual(conds, Covered(idx, conds)), conds)
  {
    hide CmpConds, KeyRank, Residual, LexLe, Covered, CoveredFaithful, IntConds;
    var row := table[p.rid];
    RankBetween(row, idx, lower, upper);
    if CmpConds(row, conds) {
      RangeComplete(idx, conds, lower, upper, row);
      ResidualWeaker(conds, Covered(idx, conds), row);
    } else if KeyRank(lower) <= p.key <= KeyRank(upper) && CmpConds(row, Residual(conds, Covered(idx, conds))) {
      RangeSound(idx, conds, lower, upper, row);
    }
  }

  /** Conditions that pass the test: the executor delivers the qualifying rows in key order and nothing else. */
  lemma {:induction false} ExecuteExact(e: seq<Pair>, table: map<Rid, Row>, idx: seq<string>, conds: seq<Condition>,
      lost: bool)
    requires IntConds(conds) && Indexed(e, table, idx) && ScanSafe(idx, conds)
    requires forall i, j :: 0 <= i < j < |idx| ==> idx[i] != idx[j]
    ensures Outcome(e, table, idx, conds, lost) == Rids(Matching(e, table, conds))
  {
    hide *;
    if Hopeless(idx, conds) {
      ExactHopeless(e, table, idx, conds, lost);
    } else if LexLe(LowKey(idx, conds), HighKey(idx, conds)) {
      SafeFaithful(idx, conds);
      ExactInOrder(e, table, idx, conds, lost);
    } else {
      SafeInverted(idx, conds);
      ExactInverted(e, table, idx, conds, lost);
    }
  }

  lemma {:induction false} SafeFaithful(idx: seq<string>, conds: seq<Condition>)
    requires IntConds(conds) && ScanSafe(idx, conds) && !Hopeless(idx, conds) &&
        LexLe(LowKey(idx, conds), HighKey(idx, conds))
    ensures CoveredFaithful(idx, conds)
  {
    forall k | 0 <= k < CoverCount(idx, conds) ensures Faithful(conds, idx[k]) {
      assert RespectsAll(conds, idx[k]);
      FaithfulIff(conds, idx[k]);
    }
  }

  lemma {:induction false} SafeInverted(idx: seq<string>, conds: seq<Condition>)
    requires IntConds(conds) && ScanSafe(idx, conds) && !Hopeless(idx, conds) &&
        !LexLe(LowKey(idx, conds), HighKey(idx, conds))
    ensures !Gap(LowKey(idx, conds), HighKey(idx, conds))
  {
  }

  lemma {:induction false} ExactHopeless(e: seq<Pair>, table: map<Rid, Row>, idx: seq<string>, conds: seq<Condition>,
      lost: bool)
    requires IntConds(conds) && Indexed(e, table, idx) && Hopeless(idx, conds)
    ensures Outcome(e, table, idx, conds, lost) == Rids(Matching(e, table, conds))
  {
    hide CmpConds, Covered, Hopeless, Residual, Scanned, KeyRank, LowKey, HighKey;
    forall r | r in table ensures !CmpConds(table[r], Residual(conds, Covered(idx, conds))) &&
        !CmpConds(table[r], conds) {
      HopelessRejects(idx, conds, table[r]);
      if CmpConds(table[r], conds) {
        ResidualWeaker(conds, Covered(idx, conds), table[r]);
      }
    }
    NoneKept(Scanned(e, KeyRank(LowKey(idx, conds)), KeyRank(HighKey(idx, conds)), lost), table,
        Residual(conds, Covered(idx, conds)));
    NoneMatching(e, table, conds);
  }

  lemma {:induction false} ExactInOrder(e: seq<Pair>, table: map<Rid, Row>, idx: seq<string>, conds: seq<Condition>,
      lost: bool)
    requires IntConds(conds) && Indexed(e, table, idx) && CoveredFaithful(idx, conds)
    requires forall i, j :: 0 <= i < j < |idx| ==> idx[i] != idx[j]
    requires LexLe(LowKey(idx, conds), HighKey(idx, conds))
    ensures Outcome(e, table, idx, conds, lost) == Rids(Matching(e, table, conds))
  {
    var lower, upper := LowKey(idx, conds), HighKey(idx, conds);
    KeysAreRange(idx, conds);
    RankLex(lower, upper);
    ScannedInRange(e, KeyRank(lower), KeyRank(upper), lost);
    EntriesOf(e, table, idx);
    hide CmpConds, KeyRank, Residual, LexLe, Covered, CoveredFaithful, IntConds, Scanned, LowKey, HighKey, Sorted,
        MapOf, IndexedBy, RightlyKept, IsRange, EntryOf;
    forall i | 0 <= i < |e| ensures RightlyKept(e[i], KeyRank(lower), KeyRank(upper), table,
        Residual(conds, Covered(idx, conds)), conds) {
      EntryKept(e[i], table, idx, conds, lower, upper);
    }
    KeptInRange(e, KeyRank(lower), KeyRank(upper), table, Residual(conds, Covered(idx, conds)), conds);
  }

  /** An inverted range without a gap delivers nothing, and nothing qualifies. */
  lemma {:induction false} ExactInverted(e: seq<Pair>, table: map<Rid, Row>, idx: seq<string>, conds: seq<Condition>,
      lost: bool)
    requires IntConds(conds) && Indexed(e, table, idx)
    requires !LexLe(LowKey(idx, conds), HighKey(idx, conds)) && !Gap(LowKey(idx, conds), HighKey(idx, conds))
    ensures Outcome(e, table, idx, conds, lost) == Rids(Matching(e, table, conds))
  {
    var lower, upper := LowKey(idx, conds), HighKey(idx, conds);
    EntriesOf(e, table, idx);
    RankLex(lower, upper);
    hide CmpConds, KeyRank, Residual, LexLe, Gap, Covered, IntConds, LowKey, HighKey, MapOf, IndexedBy;
    forall i | 0 <= i < |e| ensures e[i].key <= KeyRank(upper) || KeyRank(lower) <= e[i].key {
      assert EntryOf(e[i], table, idx);
      RankBetween(table[e[i].rid], idx, lower, upper);
      NoGap(lower, KeyOf(table[e[i].rid], idx), upper);
    }
    NothingBetween(e, KeyRank(lower), KeyRank(upper), lost);
    InvertedMatchesNone(e, table, idx, conds);
  }

  lemma {:induction false} NothingBetween(e: seq<Pair>, a: Key, b: Key, lost: bool)
    requires b < a && forall i :: 0 <= i < |e| ==> e[i].key <= b || a <= e[i].key
    ensures Scanned(e, a, b, lost) == []
  {
    BelowSame(e, a, b + 1);
  }

  lemma {:induction false} BelowSame(e: seq<Pair>, a: Key, b: Key)
    requires forall i :: 0 <= i < |e| ==> (e[i].key < a <==> e[i].key < b)
    ensures Below(e, a) == Below(e, b)
  {
    if e != [] {
      BelowSame(e[1..], a, b);
    }
  }

  /** No row satisfies conditions whose range is upside down. */
  lemma {:induction false} InvertedMatchesNone(e: seq<Pair>, table: map<Rid, Row>, idx: seq<string>,
      conds: seq<Condition>)
    requires IntConds(conds) && IntTable(table) && !LexLe(LowKey(idx, conds), HighKey(idx, conds))
    ensures forall r :: r in table ==> !CmpConds(table[r], conds)
    ensures Matching(e, table, conds) == []
  {
    var lower, upper := LowKey(idx, conds), HighKey(idx, conds);
    KeysAreRange(idx, conds);
    hide CmpConds, LexLe, LowKey, HighKey, IntConds, IsRange;
    forall r | r in table ensures !CmpConds(table[r], conds) {
      if CmpConds(table[r], conds) {
        RangeComplete(idx, conds, lower, upper, table[r]);
        LexTrans(lower, KeyOf(table[r], idx), upper);
      }
    }
    NoneMatching(e, table, conds);
  }

  lemma {:induction false} LexTrans(a: seq<int>, b: seq<int>, c: seq<int>)
    requires |a| == |b| == |c| && LexLe(a, b) && LexLe(b, c)
    ensures LexLe(a, c)
  {
    if a != [] && a[0] == b[0] == c[0] {
      LexTrans(a[1..], b[1..], c[1..]);
    }
  }

  lemma {:induction false} NoneKept(rids: seq<Rid>, table: map<Rid, Row>, conds: seq<Condition>)
    requires forall r :: r in table ==> !CmpConds(table[r], conds)
    ensures Kept(rids, table, conds) == []
  {
    if rids != [] {
      NoneKept(rids[..|rids| - 1], table, conds);
    }
  }

  lemma {:induction false} NoneMatching(e: seq<Pair>, table: map<Rid, Row>, conds: seq<Condition>)
    requires forall r :: r in table ==> !CmpConds(table[r], conds)
    ensures Matching(e, table, conds) == []
  {
    if e != [] {
      NoneMatching(e[1..], table, conds);
    }
  }

  // ---------- the outcome in terms of the rows ----------

  /** Every row has the columns that the conditions are about. */
  ghost predicate RowsHave(table: map<Rid, Row>, conds: seq<Condition>)
  {
    forall r, i :: r in table && 0 <= i < |conds| ==> HasColumns(table[r], conds[i])
  }

  /** A row of the table of which all the conditions are true. */
  ghost predicate Qualifies(table: map<Rid, Row>, conds: seq<Condition>, r: Rid)
    requires RowsHave(table, conds)
  {
    r in table && forall i :: 0 <= i < |conds| ==> Says(table[r], conds[i])
  }

  /** A row of the table of which the conditions on two columns are true. */
  ghost predicate ColumnsQualify(table: map<Rid, Row>, conds: seq<Condition>, r: Rid)
    requires RowsHave(table, conds)
  {
    r in table && forall i :: 0 <= i < |conds| && !conds[i].isVal ==> Says(table[r], conds[i])
  }

  ghost predicate NoConstants(conds: seq<Condition>)
  {
    forall i :: 0 <= i < |conds| ==> !conds[i].isVal
  }

  lemma {:induction false} QualifiesIff(table: map<Rid, Row>, conds: seq<Condition>, r: Rid)
    requires RowsHave(table, conds)
    ensures Qualifies(table, conds, r) <==> r in table && CmpConds(table[r], conds)
  {
    if r in table {
      forall i | 0 <= i < |conds| ensures CmpCond(table[r], conds[i]) <==> Says(table[r], conds[i]) {
        CmpCondSays(table[r], conds[i]);
      }
    }
  }

  lemma {:induction false} MatchingMembers(e: seq<Pair>, table: map<Rid, Row>, conds: seq<Condition>, r: Rid)
    requires r in Rids(Matching(e, table, conds))
    ensures r in table && CmpConds(table[r], conds)
  {
    hide CmpConds;
    var rest := Matching(e[1..], table, conds);
    var all := Matching(e, table, conds);
    var k :| 0 <= k < |all| && all[k].rid == r;
    if !(e[0].rid in table && CmpConds(table[e[0].rid], conds)) {
      assert all == rest;
      assert Rids(rest)[k] == r;
      MatchingMembers(e[1..], table, conds, r);
    } else if k > 0 {
      assert all == [e[0]] + rest;
      assert Rids(rest)[k - 1] == r;
      MatchingMembers(e[1..], table, conds, r);
    }
  }

  lemma {:induction false} NoConstantsSafe(idx: seq<string>, conds: seq<Condition>)
    requires IntConds(conds) && NoConstants(conds)
    ensures ScanSafe(idx, conds)
  {
    forall col, op ensures LastOf(conds, col, op) == None {
      if LastOf(conds, col, op).Some? { var i := LastOfIn(conds, col, op); }
    }
    PointwiseLex(LowKey(idx, conds), HighKey(idx, conds));
  }

  /**
    What is delivered, row by row: every qualifying row; only rows of which all the conditions on two columns are true;
    and just the qualifying rows if the conditions pass the test, as they do when there are no constants in them.
   */
  lemma {:induction false} OutcomeRows(e: seq<Pair>, table: map<Rid, Row>, idx: seq<string>, conds: seq<Condition>,
      lost: bool, r: Rid)
    requires IntConds(conds) && Indexed(e, table, idx) && RowsHave(table, conds)
    requires forall i, j :: 0 <= i < j < |idx| ==> idx[i] != idx[j]
    ensures var out := Outcome(e, table, idx, conds, lost);
            && (Qualifies(table, conds, r) ==> r in out)
            && (r in out ==> ColumnsQualify(table, conds, r))
            && (ScanSafe(idx, conds) || NoConstants(conds) ==> (r in out <==> Qualifies(table, conds, r)))
  {
    hide CmpConds, KeyRank, Residual, Matching, ScanSafe, Qualifies, RowsHave, Covered, Scanned, Indexed, IntConds,
        Kept, CmpCond, Says;
    var out, residual := Outcome(e, table, idx, conds, lost), Residual(conds, Covered(idx, conds));
    QualifiesIff(table, conds, r);
    ExecuteComplete(e, table, idx, conds, lost);
    KeptMembers(Scanned(e, KeyRank(LowKey(idx, conds)), KeyRank(HighKey(idx, conds)), lost), table, residual, r);
    if r in out {
      ResidualHolds(conds, Covered(idx, conds), table[r]);
      forall i | 0 <= i < |conds| && !conds[i].isVal
        ensures HasColumns(table[r], conds[i]) && Says(table[r], conds[i])
      {
        HasThem(table, conds, r, i);
        CmpCondSays(table[r], conds[i]);
      }
    }
    if NoConstants(conds) {
      NoConstantsSafe(idx, conds);
    }
    if ScanSafe(idx, conds) {
      ExecuteExact(e, table, idx, conds, lost);
      if r in out {
        MatchingMembers(e, table, conds, r);
      }
    }
  }

  lemma {:induction false} HasThem(table: map<Rid, Row>, conds: seq<Condition>, r: Rid, i: nat)
    requires RowsHave(table, conds) && r in table && i < |conds|
    ensures HasColumns(table[r], conds[i])
  {
  }

  /** Executes an index scan over the tree: reads the range, checks the residual conditions on each row. */
  method Execute(ih: IxIndexHandle, table: map<Rid, Row>, idx: seq<string>,
      conds: seq<Condition>) returns (out: seq<Rid>)
    requires ih.Valid() && IntTable(table) && IntConds(conds) && IndexedBy(ih.Contents(), table, idx)
    requires forall i, j :: 0 <= i < j < |idx| ==> idx[i] != idx[j]
    modifies ih`pins, ih`rootLatched
    ensures ih.Valid() && ih.pins == old(ih.pins)
    ensures out == Outcome(ih.Entries(), table, idx, conds, ih.lastLeaf == IX_NO_PAGE)
    ensures forall r :: r in table && CmpConds(table[r], conds) ==> r in out
    ensures ScanSafe(idx, conds) ==> out == Rids(Matching(ih.Entries(), table, conds))
    ensures RowsHave(table, conds) ==> forall r :: Qualifies(table, conds, r) ==> r in out
    ensures RowsHave(table, conds) ==> forall r :: r in out ==> ColumnsQualify(table, conds, r)
    ensures RowsHave(table, conds) && (ScanSafe(idx, conds) || NoConstants(conds)) ==>
        forall r :: r in out <==> Qualifies(table, conds, r)
  {
    hide Placed, Sound, Chained, Pairs, MapOf, Sorted, CmpConds, KeyRank, InRange, Residual, ScanSafe, IntConds, Kept,
        LowAt, HighAt, CoverCount, IntTable, IndexedBy, Scanned, Qualifies, ColumnsQualify, RowsHave,
        NoConstants;
    SoundLeaves(ih.order, ih.tower, ih.root);
    var lower, upper := BuildRange(idx, conds);
    assert lower == LowKey(idx, conds) && upper == HighKey(idx, conds);
    var covered := Cover(idx, conds);
    var rids := ScanRange(ih, KeyRank(lower), KeyRank(upper));
    out := CheckRows(rids, table, Residual(conds, covered));
    ExecuteComplete(ih.Entries(), table, idx, conds, ih.lastLeaf == IX_NO_PAGE);
    if ScanSafe(idx, conds) {
      ExecuteExact(ih.Entries(), table, idx, conds, ih.lastLeaf == IX_NO_PAGE);
    }
    if RowsHave(table, conds) {
      forall r
        ensures Qualifies(table, conds, r) ==> r in out
        ensures r in out ==> ColumnsQualify(table, conds, r)
        ensures ScanSafe(idx, conds) || NoConstants(conds) ==> (r in out <==> Qualifies(table, conds, r))
      {
        OutcomeRows(ih.Entries(), table, idx, conds, ih.lastLeaf == IX_NO_PAGE, r);
      }
    }
  }
}

/**
  Key ranges of the index scan: conditions on a prefix of the index columns become a lower and an upper key,
  and the conditions that the range is taken to cover are dropped.
 */
module IndexRange {
  import opened Comparisons
  import opened Config
  import opened Options
  import K = IxKeys

  /** A comparison of a column with a constant or with another column of the row. */
  datatype Condition = Condition(col: string, op: CompOp, isVal: bool, val: int, other: string)

  type Row = map<string, int>

  function Field(row: Row, col: string): int
  {
    if col in row then row[col] else 0
  }

  predicate IntRow(row: Row)
  {
    forall c :: c in row ==> INT_MIN <= row[c] <= INT_MAX
  }

  predicate Compare(a: int, op: CompOp, b: int)
  {
    CheckOp(a - b, op)
  }

  predicate CmpCond(row: Row, c: Condition)
  {
    Compare(Field(row, c.col), c.op, if c.isVal then c.val else Field(row, c.other))
  }

  predicate HasColumns(row: Row, c: Condition)
  {
    c.col in row && (c.isVal || c.other in row)
  }

  /** What a condition says of a row that has its columns. */
  predicate Says(row: Row, c: Condition)
    requires HasColumns(row, c)
  {
    var a, b := row[c.col], if c.isVal then c.val else row[c.other];
    match c.op
    case EQ => a == b
    case NE => a != b
    case LT => a < b
    case GT => a > b
    case LE => a <= b
    case GE => a >= b
  }

  /** The row test compares the left column with the constant or with the right column, as the operator says. */
  lemma {:induction false} CmpCondSays(row: Row, c: Condition)
    requires HasColumns(row, c)
    ensures CmpCond(row, c) <==> Says(row, c)
  {
    match c.op
    case EQ =>
    case NE =>
    case LT =>
    case GT =>
    case LE =>
    case GE =>
  }

  predicate CmpConds(row: Row, conds: seq<Condition>)
  {
    forall i :: 0 <= i < |conds| ==> CmpCond(row, conds[i])
  }

  // ---------- the interval of one column ----------

  predicate On(c: Condition, col: string)
  {
    c.isVal && c.col == col
  }

  /** The constant of the last condition with operator `op` on a column. */
  function LastOf(conds: seq<Condition>, col: string, op: CompOp): Option<int>
  {
    if conds == [] then None
    else
      var c := conds[|conds| - 1];
      if On(c, col) && c.op == op then Some(c.val) else LastOf(conds[..|conds| - 1], col, op)
  }

  predicate Bounded(conds: seq<Condition>, col: string)
  {
    || LastOf(conds, col, EQ).Some? || LastOf(conds, col, GE).Some? || LastOf(conds, col, GT).Some?
    || LastOf(conds, col, LE).Some? || LastOf(conds, col, LT).Some?
  }

  function Low(conds: seq<Condition>, col: string): int
  {
    if LastOf(conds, col, EQ).Some? then LastOf(conds, col, EQ).value
    else if LastOf(conds, col, GE).Some? then LastOf(conds, col, GE).value
    else if LastOf(conds, col, GT).Some? then
      var v := LastOf(conds, col, GT).value; if v < INT_MAX then v + 1 else v
    else INT_MIN
  }

  function High(conds: seq<Condition>, col: string): int
  {
    if LastOf(conds, col, EQ).Some? then LastOf(conds, col, EQ).value
    else if LastOf(conds, col, LE).Some? then LastOf(conds, col, LE).value
    else if LastOf(conds, col, LT).Some? then
      var v := LastOf(conds, col, LT).value; if v > INT_MIN then v - 1 else v
    else INT_MAX
  }

  /** The conditions on one column, as far as they compare with constants. */
  predicate ColHolds(conds: seq<Condition>, col: string, v: int)
  {
    forall i :: 0 <= i < |conds| && On(conds[i], col) ==> Compare(v, conds[i].op, conds[i].val)
  }

  predicate IntConds(conds: seq<Condition>)
  {
    forall i :: 0 <= i < |conds| && conds[i].isVal ==> INT_MIN <= conds[i].val <= INT_MAX
  }

  lemma {:induction false} LastOfIn(conds: seq<Condition>, col: string, op: CompOp) returns (i: nat)
    requires LastOf(conds, col, op).Some?
    ensures i < |conds| && On(conds[i], col) && conds[i].op == op && conds[i].val == LastOf(conds, col, op).value
  {
    var n := |conds| - 1;
    if On(conds[n], col) && conds[n].op == op {
      i := n;
    } else {
      i := LastOfIn(conds[..n], col, op);
    }
  }

  lemma {:induction false} LastOfNone(conds: seq<Condition>, col: string, op: CompOp, i: nat)
    requires i < |conds| && On(conds[i], col) && conds[i].op == op
    ensures LastOf(conds, col, op).Some?
  {
    var n := |conds| - 1;
    if i < n {
      LastOfNone(conds[..n], col, op, i);
    }
  }

  /** The interval never excludes a value that satisfies the conditions. */
  lemma {:induction false} IntervalComplete(conds: seq<Condition>, col: string, v: int)
    requires INT_MIN <= v <= INT_MAX && ColHolds(conds, col, v)
    ensures Low(conds, col) <= v <= High(conds, col)
  {
    if LastOf(conds, col, EQ).Some? { var i := LastOfIn(conds, col, EQ); }
    if LastOf(conds, col, GE).Some? { var i := LastOfIn(conds, col, GE); }
    if LastOf(conds, col, GT).Some? { var i := LastOfIn(conds, col, GT); }
    if LastOf(conds, col, LE).Some? { var i := LastOfIn(conds, col, LE); }
    if LastOf(conds, col, LT).Some? { var i := LastOfIn(conds, col, LT); }
  }

  /** The interval says exactly what the conditions on the column say. */
  ghost predicate Faithful(conds: seq<Condition>, col: string)
  {
    forall v :: INT_MIN <= v <= INT_MAX && Low(conds, col) <= v <= High(conds, col) ==> ColHolds(conds, col, v)
  }

  /** The condition respects the interval `lo .. hi`: dropping it loses nothing. */
  predicate Respects(c: Condition, lo: int, hi: int)
  {
    match c.op
    case EQ => lo == hi == c.val
    case NE => c.val < lo || c.val > hi
    case LT => hi < c.val
    case GT => lo > c.val
    case LE => hi <= c.val
    case GE => lo >= c.val
  }

  /** A test on the constants alone that tells whether the interval may replace the conditions. */
  lemma {:induction false} FaithfulIff(conds: seq<Condition>, col: string)
    requires IntConds(conds)
    ensures Faithful(conds, col) <==>
              || Low(conds, col) > High(conds, col)
              || (forall i :: 0 <= i < |conds| && On(conds[i], col) ==>
                  Respects(conds[i], Low(conds, col), High(conds, col)))
  {
    var lo, hi := Low(conds, col), High(conds, col);
    BoundsInt(conds, col);
    if Faithful(conds, col) && lo <= hi {
      assert ColHolds(conds, col, lo) && ColHolds(conds, col, hi);
      forall i | 0 <= i < |conds| && On(conds[i], col) ensures Respects(conds[i], lo, hi) {
        assert lo <= conds[i].val <= hi ==> ColHolds(conds, col, conds[i].val);
      }
    }
  }

  lemma {:induction false} BoundsInt(conds: seq<Condition>, col: string)
    requires IntConds(conds)
    ensures INT_MIN <= Low(conds, col) <= INT_MAX && INT_MIN <= High(conds, col) <= INT_MAX
  {
    if LastOf(conds, col, EQ).Some? { var i := LastOfIn(conds, col, EQ); }
    if LastOf(conds, col, GE).Some? { var i := LastOfIn(conds, col, GE); }
    if LastOf(conds, col, GT).Some? { var i := LastOfIn(conds, col, GT); }
    if LastOf(conds, col, LE).Some? { var i := LastOfIn(conds, col, LE); }
    if LastOf(conds, col, LT).Some? { var i := LastOfIn(conds, col, LT); }
  }

  /** One equality, or at most one lower and one upper bound, no `<>`, no strict bound at the edge of the integers. */
  predicate Tidy(conds: seq<Condition>, col: string)
  {
    && (forall i :: 0 <= i < |conds| && On(conds[i], col) ==>
          && conds[i].op != NE
          && !(conds[i].op == GT && conds[i].val == INT_MAX)
          && !(conds[i].op == LT && conds[i].val == INT_MIN))
    && (forall i, j :: 0 <= i < j < |conds| && On(conds[i], col) && On(conds[j], col) ==>
        !Clash(conds[i].op, conds[j].op))
  }

  /** Two conditions of which the range keeps only one. */
  predicate Clash(a: CompOp, b: CompOp)
  {
    a == EQ || b == EQ || (a in {GE, GT} && b in {GE, GT}) || (a in {LE, LT} && b in {LE, LT})
  }

  lemma {:induction false} TidyFaithful(conds: seq<Condition>, col: string)
    requires IntConds(conds) && Tidy(conds, col)
    ensures Faithful(conds, col)
  {
    FaithfulIff(conds, col);
    forall i | 0 <= i < |conds| && On(conds[i], col) ensures Respects(conds[i], Low(conds, col), High(conds, col)) {
      LastOfNone(conds, col, conds[i].op, i);
      TidyOnly(conds, col, conds[i].op, i);
      if conds[i].op != EQ && LastOf(conds, col, EQ).Some? { var k := LastOfIn(conds, col, EQ); }
      if conds[i].op == GT && LastOf(conds, col, GE).Some? { var k := LastOfIn(conds, col, GE); }
      if conds[i].op == LT && LastOf(conds, col, LE).Some? { var k := LastOfIn(conds, col, LE); }
    }
  }

  lemma {:induction false} TidyOnly(conds: seq<Condition>, col: string, op: CompOp, i: nat)
    requires Tidy(conds, col) && i < |conds| && On(conds[i], col) && conds[i].op == op
    ensures LastOf(conds, col, op) == Some(conds[i].val)
  {
    LastOfNone(conds, col, op, i);
    var k := LastOfIn(conds, col, op);
  }

  // ---------- composite keys ----------

  predicate LexLe(a: seq<int>, b: seq<int>)
    requires |a| == |b|
  {
    a == [] || a[0] < b[0] || (a[0] == b[0] && LexLe(a[1..], b[1..]))
  }

  predicate IntSeq(a: seq<int>)
  {
    forall i :: 0 <= i < |a| ==> INT_MIN <= a[i] <= INT_MAX
  }

  function Wrap(a: seq<int>): (r: seq<K.Value>)
    ensures |r| == |a|
  {
    seq(|a|, i requires 0 <= i < |a| => K.IntVal(a[i]))
  }

  function IntCols(n: nat): (r: seq<K.Col>)
    ensures |r| == n
  {
    seq(n, _ => K.IntCol)
  }

  function KeyRank(a: seq<int>): int
    requires IntSeq(a)
  {
    K.Rank(Wrap(a), IntCols(|a|))
  }

  lemma {:induction false} RankLex(a: seq<int>, b: seq<int>)
    requires |a| == |b| && IntSeq(a) && IntSeq(b)
    ensures LexLe(a, b) <==> KeyRank(a) <= KeyRank(b)
    ensures a == b <==> KeyRank(a) == KeyRank(b)
  {
    if a != [] {
      RankLex(a[1..], b[1..]);
      var cols := IntCols(|a|);
      assert cols[1..] == IntCols(|a| - 1) && Wrap(a)[1..] == Wrap(a[1..]) && Wrap(b)[1..] == Wrap(b[1..]);
      K.RankBound(Wrap(a[1..]), cols[1..]);
      K.RankBound(Wrap(b[1..]), cols[1..]);
      K.Digits(a[0] - INT_MIN, b[0] - INT_MIN, KeyRank(a[1..]), KeyRank(b[1..]), K.Width(cols[1..]));
      assert a == [a[0]] + a[1..] && b == [b[0]] + b[1..];
    }
  }

  function KeyOf(row: Row, idx: seq<string>): (r: seq<int>)
    ensures |r| == |idx|
  {
    seq(|idx|, i requires 0 <= i < |idx| => Field(row, idx[i]))
  }

  // ---------- building the range ----------

  /** The bounds of column `i` are set as long as every earlier column carries a bound. */
  predicate Reached(idx: seq<string>, conds: seq<Condition>, i: nat)
    requires i <= |idx|
  {
    forall j :: 0 <= j < i ==> Bounded(conds, idx[j])
  }

  function LowAt(idx: seq<string>, conds: seq<Condition>, i: nat): int
    requires i < |idx|
  {
    if Reached(idx, conds, i) then Low(conds, idx[i]) else INT_MIN
  }

  function HighAt(idx: seq<string>, conds: seq<Condition>, i: nat): int
    requires i < |idx|
  {
    if Reached(idx, conds, i) then High(conds, idx[i]) else INT_MAX
  }

  /** The last condition of each kind on a column. */
  method Classify(conds: seq<Condition>, col: string)
    returns (eq: Option<int>, ge: Option<int>, gt: Option<int>, le: Option<int>, lt: Option<int>)
    ensures eq == LastOf(conds, col, EQ) && ge == LastOf(conds, col, GE) && gt == LastOf(conds, col, GT)
    ensures le == LastOf(conds, col, LE) && lt == LastOf(conds, col, LT)
  {
    eq, ge, gt, le, lt := None, None, None, None, None;
    for k := 0 to |conds|
      invariant eq == LastOf(conds[..k], col, EQ) && ge == LastOf(conds[..k], col, GE) &&
          gt == LastOf(conds[..k], col, GT)
      invariant le == LastOf(conds[..k], col, LE) && lt == LastOf(conds[..k], col, LT)
    {
      assert conds[..k + 1][..k] == conds[..k];
      var c := conds[k];
      if c.col == col && c.isVal {
        match c.op {
          case EQ => eq := Some(c.val);
          case GE => ge := Some(c.val);
          case GT => gt := Some(c.val);
          case LE => le := Some(c.val);
          case LT => lt := Some(c.val);
          case NE =>
        }
      }
    }
    assert conds[..|conds|] == conds;
  }

  /** Fills the lower and the upper key column by column. */
  method BuildRange(idx: seq<string>, conds: seq<Condition>) returns (lower: seq<int>, upper: seq<int>)
    ensures |lower| == |upper| == |idx|
    ensures forall i :: 0 <= i < |idx| ==> lower[i] == LowAt(idx, conds, i) && upper[i] == HighAt(idx, conds, i)
  {
    lower := seq(|idx|, _ => INT_MIN);
    upper := seq(|idx|, _ => INT_MAX);
    var i := 0;
    while i < |idx|
      invariant 0 <= i <= |idx| == |lower| == |upper| && Reached(idx, conds, i)
      invariant forall k :: 0 <= k < i ==> lower[k] == LowAt(idx, conds, k) && upper[k] == HighAt(idx, conds, k)
      invariant forall k :: i <= k < |idx| ==> lower[k] == INT_MIN && upper[k] == INT_MAX
    {
      var eq, ge, gt, le, lt := Classify(conds, idx[i]);
      if eq.Some? {
        lower, upper := lower[i := eq.value], upper[i := eq.value];
      } else {
        if ge.Some? {
          lower := lower[i := ge.value];
        } else if gt.Some? {
          lower := lower[i := if gt.value < INT_MAX then gt.value + 1 else gt.value];
        }
        if le.Some? {
          upper := upper[i := le.value];
        } else if lt.Some? {
          upper := upper[i := if lt.value > INT_MIN then lt.value - 1 else lt.value];
        }
        if eq.None? && ge.None? && gt.None? && le.None? && lt.None? {
          assert !Bounded(conds, idx[i]);
          break;
        }
      }
      i := i + 1;
    }
  }

  // ---------- dropping covered conditions ----------

  predicate HasEq(conds: seq<Condition>, col: string)
  {
    exists i :: 0 <= i < |conds| && On(conds[i], col) && conds[i].op == EQ
  }

  predicate HasAny(conds: seq<Condition>, col: string)
  {
    exists i :: 0 <= i < |conds| && On(conds[i], col)
  }

  /** The covered columns: the leading columns with an equality, and one more that carries any condition. */
  function CoverCount(idx: seq<string>, conds: seq<Condition>): (n: nat)
    ensures n <= |idx|
  {
    if idx == [] then 0
    else if HasEq(conds, idx[0]) then 1 + CoverCount(idx[1..], conds)
    else if HasAny(conds, idx[0]) then 1
    else 0
  }

  /** The conditions that are still checked row by row. */
  function Residual(conds: seq<Condition>, covered: set<string>): seq<Condition>
  {
    if conds == [] then []
    else (if conds[0].isVal && conds[0].col in covered then [] else [conds[0]]) + Residual(conds[1..], covered)
  }

  method Cover(idx: seq<string>, conds: seq<Condition>) returns (covered: set<string>)
    ensures covered == set k | 0 <= k < CoverCount(idx, conds) :: idx[k]
  {
    covered := {};
    var prefixEq := true;
    var ci := 0;
    while ci < |idx|
      invariant 0 <= ci <= |idx| && prefixEq
      invariant covered == set k | 0 <= k < ci :: idx[k]
      invariant CoverCount(idx, conds) == ci + CoverCount(idx[ci..], conds)
    {
      var hasEq, hasRange := false, false;
      for k := 0 to |conds|
        invariant hasEq <==> exists i :: 0 <= i < k && On(conds[i], idx[ci]) && conds[i].op == EQ
        invariant hasRange <==> exists i :: 0 <= i < k && On(conds[i], idx[ci]) && conds[i].op != EQ
      {
        if conds[k].col == idx[ci] && conds[k].isVal {
          if conds[k].op == EQ { hasEq := true; } else { hasRange := true; }
        }
      }
      assert idx[ci..][0] == idx[ci] && idx[ci..][1..] == idx[ci + 1..];
      if prefixEq && hasEq {
        covered := covered + {idx[ci]};
      } else if hasRange || hasEq {
        covered := covered + {idx[ci]};
        assert covered == set k | 0 <= k < ci + 1 :: idx[k];
        prefixEq := false;
        return;
      } else {
        return;
      }
      ci := ci + 1;
    }
  }

  // ---------- what the range and the residual conditions amount to ----------

  lemma {:induction false} PointwiseLex(a: seq<int>, b: seq<int>)
    requires |a| == |b| && forall i :: 0 <= i < |a| ==> a[i] <= b[i]
    ensures LexLe(a, b)
  {
    if a != [] {
      PointwiseLex(a[1..], b[1..]);
    }
  }

  /** Between two keys with a common prefix, the next column lies between theirs. */
  lemma {:induction false} LexBetween(lower: seq<int>, key: seq<int>, upper: seq<int>, m: nat)
    requires |lower| == |key| == |upper| && m <= |key| && lower[..m] == upper[..m]
    requires LexLe(lower, key) && LexLe(key, upper)
    ensures key[..m] == lower[..m]
    ensures m < |key| ==> lower[m] <= key[m] <= upper[m]
  {
    if m > 0 {
      assert lower[0] == lower[..m][0] == upper[..m][0] == upper[0];
      assert lower[1..][..m - 1] == lower[..m][1..] && upper[1..][..m - 1] == upper[..m][1..];
      LexBetween(lower[1..], key[1..], upper[1..], m - 1);
      assert key[..m] == [key[0]] + key[1..][..m - 1] && lower[..m] == [lower[0]] + lower[1..][..m - 1];
    }
  }

  /** Keys that are out of order differ in some first column, the wrong way round. */
  lemma {:induction false} LexGreater(a: seq<int>, b: seq<int>) returns (m: nat)
    requires |a| == |b| && !LexLe(a, b)
    ensures m < |a| && a[m] > b[m] && a[..m] == b[..m]
  {
    if a[0] > b[0] {
      m := 0;
    } else {
      m := LexGreater(a[1..], b[1..]);
      assert a[..m + 1] == [a[0]] + a[1..][..m] && b[..m + 1] == [b[0]] + b[1..][..m];
      m := m + 1;
    }
  }

  ghost predicate IsRange(idx: seq<string>, conds: seq<Condition>, lower: seq<int>, upper: seq<int>)
  {
    && |lower| == |upper| == |idx|
    && forall i :: 0 <= i < |idx| ==> lower[i] == LowAt(idx, conds, i) && upper[i] == HighAt(idx, conds, i)
  }

  lemma {:induction false} CondsOnColumn(conds: seq<Condition>, row: Row, col: string)
    requires CmpConds(row, conds)
    ensures ColHolds(conds, col, Field(row, col))
  {
    forall i | 0 <= i < |conds| && On(conds[i], col) ensures Compare(Field(row, col), conds[i].op, conds[i].val) {
      assert CmpCond(row, conds[i]);
    }
  }

  /** No row that satisfies all conditions lies outside the range, whatever the conditions are. */
  lemma {:induction false} RangeComplete(idx: seq<string>, conds: seq<Condition>, lower: seq<int>, upper: seq<int>,
      row: Row)
    requires IsRange(idx, conds, lower, upper) && IntRow(row) && CmpConds(row, conds)
    ensures LexLe(lower, KeyOf(row, idx)) && LexLe(KeyOf(row, idx), upper)
  {
    var key := KeyOf(row, idx);
    forall i | 0 <= i < |idx| ensures lower[i] <= key[i] <= upper[i] {
      CondsOnColumn(conds, row, idx[i]);
      IntervalComplete(conds, idx[i], key[i]);
    }
    PointwiseLex(lower, key);
    PointwiseLex(key, upper);
  }

  /** Leading covered columns carry an equality, so their bounds coincide. */
  lemma {:induction false} CoveredEq(idx: seq<string>, conds: seq<Condition>, k: nat)
    requires k < CoverCount(idx, conds)
    ensures forall j :: 0 <= j < k ==>
        HasEq(conds, idx[j]) && Bounded(conds, idx[j]) && Low(conds, idx[j]) == High(conds, idx[j])
    ensures HasAny(conds, idx[k])
  {
    if HasEq(conds, idx[0]) {
      var i :| 0 <= i < |conds| && On(conds[i], idx[0]) && conds[i].op == EQ;
      LastOfNone(conds, idx[0], EQ, i);
      if k > 0 {
        CoveredEq(idx[1..], conds, k - 1);
        forall j | 0 <= j < k ensures HasEq(conds, idx[j]) && Bounded(conds, idx[j]) &&
            Low(conds, idx[j]) == High(conds, idx[j]) {
          if j > 0 {
            assert idx[j] == idx[1..][j - 1];
          }
        }
      }
    }
  }

  function Covered(idx: seq<string>, conds: seq<Condition>): set<string>
  {
    set k | 0 <= k < CoverCount(idx, conds) :: idx[k]
  }

  /** The interval of every covered column says what its conditions say. */
  ghost predicate CoveredFaithful(idx: seq<string>, conds: seq<Condition>)
  {
    forall k :: 0 <= k < CoverCount(idx, conds) ==> Faithful(conds, idx[k])
  }

  lemma {:induction false} CmpCondsCons(row: Row, c: Condition, rest: seq<Condition>)
    ensures CmpConds(row, [c] + rest) <==> CmpCond(row, c) && CmpConds(row, rest)
  {
    var all := [c] + rest;
    if CmpConds(row, all) {
      forall i | 0 <= i < |rest| ensures CmpCond(row, rest[i]) {
        assert all[i + 1] == rest[i];
      }
      assert all[0] == c;
    }
  }

  lemma {:induction false} ResidualHolds(conds: seq<Condition>, covered: set<string>, row: Row)
    ensures CmpConds(row, Residual(conds, covered)) <==>
              forall i :: 0 <= i < |conds| && !(conds[i].isVal && conds[i].col in covered) ==> CmpCond(row, conds[i])
  {
    if conds != [] {
      ResidualHolds(conds[1..], covered, row);
      var rest := Residual(conds[1..], covered);
      var all := Residual(conds, covered);
      assert forall i :: 0 <= i < |conds| - 1 ==> conds[1..][i] == conds[i + 1];
      CmpCondsCons(row, conds[0], rest);
      assert all == rest || all == [conds[0]] + rest;
    }
  }

  /** A row in the range that passes the residual conditions satisfies the dropped ones as well. */
  lemma {:induction false} RangeSound(idx: seq<string>, conds: seq<Condition>, lower: seq<int>, upper: seq<int>,
      row: Row)
    requires IsRange(idx, conds, lower, upper) && IntRow(row) && CoveredFaithful(idx, conds)
    requires LexLe(lower, KeyOf(row, idx)) && LexLe(KeyOf(row, idx), upper)
    requires CmpConds(row, Residual(conds, Covered(idx, conds)))
    ensures CmpConds(row, conds)
  {
    var covered := Covered(idx, conds);
    ResidualHolds(conds, covered, row);
    forall i | 0 <= i < |conds| ensures CmpCond(row, conds[i]) {
      if conds[i].isVal && conds[i].col in covered {
        var k :| 0 <= k < CoverCount(idx, conds) && idx[k] == conds[i].col;
        CoveredEq(idx, conds, k);
        forall j | 0 <= j < k ensures lower[j] == upper[j] {
          assert Reached(idx, conds, j);
        }
        assert lower[..k] == upper[..k];
        LexBetween(lower, KeyOf(row, idx), upper, k);
        assert Reached(idx, conds, k);
        assert ColHolds(conds, idx[k], Field(row, idx[k]));
      }
    }
  }
}

/**
  Which queries the executors answer in full: a nested-loop join as the left child of another one loses rows
  of every query that has an answer at all.
 */
module JoinLoss {
  import opened Comparisons
  import opened Conditions
  import opened NestedLoopJoin
  import opened JoinTree
  import opened MakeOneRel

  ghost predicate EmitsAll(p: Plan)
  {
    forall db :: Emitted(db, p) == Rows(db, p)
  }

  /** Some database has an answer to the query. */
  ghost predicate Satisfiable(tables: seq<string>, conds: seq<Condition>)
  {
    exists db, row :: InRange(db, tables, row) && SatAll(EnvOf(db, row), conds)
  }

  /**
    The executors deliver all rows of the plan on every database if and only if the join conditions are linked up, or
    nothing answers the query.
   */
  lemma {:induction false} EmitsAllIff(tables: seq<string>, conds: seq<Condition>, p: Plan)
    requires Query(tables, conds) && Planned(tables, conds, p)
    requires forall c :: c in conds && Selfish(c) ==> c.lhs.tab == tables[0]
    ensures EmitsAll(p) <==> LinkedUp(LeftOver(tables, conds)) || !Satisfiable(tables, conds)
  {
    hide LeftOver, LinkedUp, Emitted, Rows, Planned;
    if LinkedUp(LeftOver(tables, conds)) {
      forall db ensures Emitted(db, p) == Rows(db, p) {
        PlanAnswersQuery(db, tables, conds, p);
      }
    } else if !Satisfiable(tables, conds) {
      forall db ensures Emitted(db, p) == Rows(db, p) {
        PlanAnswersQuery(db, tables, conds, p);
        EmittedIn(db, p);
        NothingIn(db, p);
      }
    } else {
      var db, row :| InRange(db, tables, row) && SatAll(EnvOf(db, row), conds);
      LosesRows(db, row, tables, conds, p);
    }
  }

  lemma {:induction false} NothingIn(db: Db, p: Plan)
    requires (forall x :: x in Emitted(db, p) ==> x in Rows(db, p)) && forall x :: x !in Rows(db, p)
    ensures Emitted(db, p) == Rows(db, p)
  {
    hide Emitted, Rows;
    SomeIn(Rows(db, p));
    SomeIn(Emitted(db, p));
  }

  lemma {:induction false} SomeIn(s: seq<Row>)
    ensures s != [] ==> exists x :: x in s
  {
    if s != [] {
      assert s[0] in s;
    }
  }

  /** The executors never invent a row. */
  lemma {:induction false} EmittedIn(db: Db, p: Plan)
    ensures forall x :: x in Emitted(db, p) ==> x in Rows(db, p)
  {
    if p.Join? {
      EmittedIn(db, p.left);
      EmittedIn(db, p.right);
      var f := Filter(db, p.conds);
      var es, fs := Emitted(db, p.left), Emitted(db, p.right);
      JoinedIn(es, fs, Rows(db, p.left), Rows(db, p.right), f);
      GlueIn(Joined(es, fs, f), Joined(Rows(db, p.left), Rows(db, p.right), f));
      GlueIn(FirstPass(es, fs, f), Joined(Rows(db, p.left), Rows(db, p.right), f));
    }
  }

  lemma {:induction false} JoinedIn(es: seq<Row>, fs: seq<Row>, ls: seq<Row>, rs: seq<Row>, f: (Row, Row) -> bool)
    requires (forall x :: x in es ==> x in ls) && forall x :: x in fs ==> x in rs
    ensures forall x :: x in Joined(es, fs, f) ==> x in Joined(ls, rs, f)
    ensures forall x :: x in FirstPass(es, fs, f) ==> x in Joined(ls, rs, f)
  {
    JoinedExactly(es, fs, f);
    JoinedExactly(ls, rs, f);
    if fs != [] {
      JoinOneExactly(es, fs[0], f);
    }
  }

  lemma {:induction false} GlueIn(ps: seq<Pair>, qs: seq<Pair>)
    requires forall x :: x in ps ==> x in qs
    ensures forall x :: x in Glue(ps) ==> x in Glue(qs)
  {
    GlueExactly(ps);
    GlueExactly(qs);
    forall x | x in Glue(ps) ensures x in Glue(qs) {
      var i :| 0 <= i < |ps| && Glue(ps)[i] == x;
      assert ps[i] in qs;
      var k :| 0 <= k < |qs| && qs[k] == ps[i];
      assert Glue(qs)[k] == x;
    }
  }

  // ---------- every record of an answer, twice ----------

  ghost predicate Answer(db: Db, row: Row)
  {
    forall t :: t in row ==> t in db && row[t] < |db[t]|
  }

  ghost function Doubled(db: Db, row: Row): Db
    requires Answer(db, row)
  {
    map t | t in row :: [db[t][row[t]], db[t][row[t]]]
  }

  lemma {:induction false} DoubledCell(db: Db, row: Row, part: Row, c: TabCol)
    requires Answer(db, row) && c.tab in part && c.tab in row && part[c.tab] < 2
    ensures CellAt(Doubled(db, row), part, c) == CellAt(db, row, c)
  {
  }

  function Pow2(n: nat): nat
  {
    if n == 0 then 1 else 2 * Pow2(n - 1)
  }

  lemma {:induction false} Pow2Sum(a: nat, b: nat)
    ensures Pow2(a + b) == Pow2(a) * Pow2(b) && Pow2(a) >= 1
  {
    if a > 0 {
      Pow2Sum(a - 1, b);
      assert Pow2(a + b) == 2 * Pow2(a - 1 + b);
    }
  }

  /** A plan whose conditions the row satisfies. */
  ghost predicate Satisfies(db: Db, row: Row, p: Plan)
  {
    && Answer(db, row) && Placed(p) && (forall t :: t in Tables(p) ==> t in row)
    && SatAll(EnvOf(db, row), ScanConds(p)) && SatAll(EnvOf(db, row), JoinConds(p))
  }

  lemma {:induction false} SatisfiesParts(db: Db, row: Row, p: Plan)
    requires p.Join? && Satisfies(db, row, p)
    ensures Satisfies(db, row, p.left) && Satisfies(db, row, p.right) && SatAll(EnvOf(db, row), p.conds)
  {
    hide Sat;
    PlacedParts(p);
  }

  lemma {:induction false} DoubledScan(db: Db, row: Row, p: Plan)
    requires p.Scan? && Satisfies(db, row, p)
    ensures Rows(Doubled(db, row), p) == [map[p.tab := 0], map[p.tab := 1]]
  {
    var d, t := Doubled(db, row), p.tab;
    assert t in Tables(p);
    forall i: nat | i < 2 ensures SatAll(EnvOf(d, map[t := i]), p.conds) {
      forall c | c in p.conds ensures Sat(EnvOf(d, map[t := i]), c) {
        assert Local(t, c) && Sat(EnvOf(db, row), c);
        DoubledCell(db, row, map[t := i], c.lhs);
        if c.rhs.Column? {
          DoubledCell(db, row, map[t := i], c.rhs.col);
        }
      }
    }
    assert ScanRows(d, t, p.conds, 1) == [map[t := 0]];
    assert ScanRows(d, t, p.conds, 2) == [map[t := 0], map[t := 1]];
  }

  /** All pairs of rows of the two children match. */
  lemma {:induction false} DoubledMatch(db: Db, row: Row, p: Plan, l: Row, r: Row)
    requires p.Join? && Satisfies(db, row, p)
    requires InRange(Doubled(db, row), Tables(p.left), l) && InRange(Doubled(db, row), Tables(p.right), r)
    ensures Filter(Doubled(db, row), p.conds)(l, r)
  {
    SatisfiesParts(db, row, p);
    var d := Doubled(db, row);
    forall c | c in p.conds
      ensures c.rhs.Column? && CheckOp(CompareCell(CellAt(d, l, c.lhs), CellAt(d, r, c.rhs.col)), c.op)
    {
      assert Across(Tables(p.left), Tables(p.right), c) && Sat(EnvOf(db, row), c);
      DoubledCell(db, row, l, c.lhs);
      DoubledCell(db, row, r, c.rhs.col);
    }
  }

  lemma {:induction false} JoinOneCount(ls: seq<Row>, r: Row, f: (Row, Row) -> bool)
    requires forall l :: l in ls ==> f(l, r)
    ensures |JoinOne(ls, r, f)| == |ls|
  {
    if ls != [] {
      JoinOneCount(ls[1..], r, f);
    }
  }

  lemma {:induction false} JoinedCount(ls: seq<Row>, rs: seq<Row>, f: (Row, Row) -> bool)
    requires forall l, r :: l in ls && r in rs ==> f(l, r)
    ensures |Joined(ls, rs, f)| == |ls| * |rs|
    ensures rs != [] ==> |FirstPass(ls, rs, f)| == |ls|
  {
    hide JoinOne;
    if rs != [] {
      assert rs[0] in rs;
      JoinOneCount(ls, rs[0], f);
      JoinedCount(ls, rs[1..], f);
      OneMore(|ls|, |rs|);
    }
  }

  lemma {:induction false} OneMore(a: nat, b: nat)
    requires b > 0
    ensures a * b == a + a * (b - 1)
  {
  }

  /** Rows of a plan over the doubled database. */
  ghost predicate Ranged(d: Db, p: Plan, xs: seq<Row>)
  {
    forall x :: x in xs ==> InRange(d, Tables(p), x)
  }

  lemma {:induction false} GlueRanged(d: Db, p: Plan, ps: seq<Pair>, ls: seq<Row>, rs: seq<Row>, f: (Row, Row) -> bool)
    requires p.Join? && Placed(p) && Ranged(d, p.left, ls) && Ranged(d, p.right, rs)
    requires forall x :: x in ps ==> x in Joined(ls, rs, f)
    ensures Ranged(d, p, Glue(ps))
  {
    hide InRange, Placed;
    GlueExactly(ps);
    JoinedExactly(ls, rs, f);
    forall x | x in Glue(ps) ensures InRange(d, Tables(p), x) {
      var i :| 0 <= i < |ps| && Glue(ps)[i] == x;
      assert ps[i] in ps;
      GluedPart(d, p, ps[i].l, ps[i].r);
    }
  }

  /** The rows of a plan are all combinations, and a join on the left of a join costs at least half of them. */
  ghost predicate Counted(d: Db, p: Plan)
  {
    var all := Pow2(|Tables(p)|);
    && Ranged(d, p, Rows(d, p)) && Ranged(d, p, Emitted(d, p))
    && |Rows(d, p)| == all && 1 <= |Emitted(d, p)| <= all
    && (!LeftScans(p) ==> |Emitted(d, p)| < all)
  }

  lemma {:induction false} DoubledCount(db: Db, row: Row, p: Plan)
    requires Satisfies(db, row, p)
    ensures Counted(Doubled(db, row), p)
  {
    if p.Scan? {
      DoubledScan(db, row, p);
      assert p.tab in Tables(p);
      assert Pow2(1) == 2 * Pow2(0);
    } else {
      hide Counted;
      SatisfiesParts(db, row, p);
      DoubledCount(db, row, p.left);
      DoubledCount(db, row, p.right);
      JoinCounted(db, row, p);
    }
  }

  lemma {:induction false} JoinCounted(db: Db, row: Row, p: Plan)
    requires p.Join? && Satisfies(db, row, p) && Counted(Doubled(db, row), p.left) && Counted(Doubled(db, row), p.right)
    ensures Counted(Doubled(db, row), p)
  {
    hide Satisfies, Doubled, Rows, Emitted, Ranged, LeftScans, Pow2;
    RowsCounted(db, row, p);
    EmittedCounted(db, row, p);
  }

  lemma {:induction false} MatchAll(db: Db, row: Row, p: Plan, ls: seq<Row>, rs: seq<Row>)
    requires p.Join? && Satisfies(db, row, p) && Ranged(Doubled(db, row), p.left, ls) &&
        Ranged(Doubled(db, row), p.right, rs)
    ensures forall l, r :: l in ls && r in rs ==> Filter(Doubled(db, row), p.conds)(l, r)
  {
    assert Answer(db, row);
    hide Satisfies, Doubled, Filter, InRange;
    forall l, r | l in ls && r in rs ensures Filter(Doubled(db, row), p.conds)(l, r) {
      DoubledMatch(db, row, p, l, r);
    }
  }

  lemma {:induction false} RowsParts(d: Db, p: Plan)
    requires p.Join?
    ensures Rows(d, p) == Glue(Joined(Rows(d, p.left), Rows(d, p.right), Filter(d, p.conds)))
  {
  }

  /** Where every pair is accepted, a join has as many rows as its sides multiply up to. */
  lemma {:induction false} GluedAll(d: Db, p: Plan, ls: seq<Row>, rs: seq<Row>, f: (Row, Row) -> bool)
    requires p.Join? && Placed(p) && Ranged(d, p.left, ls) && Ranged(d, p.right, rs)
    requires forall l, r :: l in ls && r in rs ==> f(l, r)
    ensures Ranged(d, p, Glue(Joined(ls, rs, f))) && |Glue(Joined(ls, rs, f))| == |ls| * |rs|
  {
    hide *;
    JoinedCount(ls, rs, f);
    GlueExactly(Joined(ls, rs, f));
    GlueRanged(d, p, Joined(ls, rs, f), ls, rs, f);
  }

  lemma {:induction false} RowsCounted(db: Db, row: Row, p: Plan)
    requires p.Join? && Satisfies(db, row, p) && Counted(Doubled(db, row), p.left) && Counted(Doubled(db, row), p.right)
    ensures Ranged(Doubled(db, row), p, Rows(Doubled(db, row), p)) && |Rows(Doubled(db, row), p)| == Pow2(|Tables(p)|)
  {
    var d := Doubled(db, row);
    RowsParts(d, p);
    hide Doubled, Rows, Emitted, Ranged, LeftScans, Pow2, Joined, Filter, Placed, Tables, Glue, SatAll, Answer;
    assert Placed(p);
    hide Satisfies;
    var ls, rs := Rows(d, p.left), Rows(d, p.right);
    assert Ranged(d, p.left, ls) && Ranged(d, p.right, rs);
    assert |ls| == Pow2(|Tables(p.left)|) && |rs| == Pow2(|Tables(p.right)|);
    hide Counted;
    MatchAll(db, row, p, ls, rs);
    GluedAll(d, p, ls, rs, Filter(d, p.conds));
    SizesMultiply(p, |ls|, |rs|);
  }

  lemma {:induction false} SizesMultiply(p: Plan, m: nat, n: nat)
    requires p.Join? && m == Pow2(|Tables(p.left)|) && n == Pow2(|Tables(p.right)|)
    ensures m * n == Pow2(|Tables(p)|)
  {
    assert |Tables(p)| == |Tables(p.left)| + |Tables(p.right)|;
    hide Pow2, Tables;
    Pow2Sum(|Tables(p.left)|, |Tables(p.right)|);
  }

  lemma {:induction false} EmittedCounted(db: Db, row: Row, p: Plan)
    requires p.Join? && Satisfies(db, row, p) && Counted(Doubled(db, row), p.left) && Counted(Doubled(db, row), p.right)
    ensures var n := |Emitted(Doubled(db, row), p)|;
            && Ranged(Doubled(db, row), p, Emitted(Doubled(db, row), p)) && 1 <= n <= Pow2(|Tables(p)|)
            && (!LeftScans(p) ==> n < Pow2(|Tables(p)|))
  {
    var d := Doubled(db, row);
    var es, fs, f := Emitted(d, p.left), Emitted(d, p.right), Filter(d, p.conds);
    var ps := if p.left.Scan? then Joined(es, fs, f) else FirstPass(es, fs, f);
    assert Placed(p) && Emitted(d, p) == Glue(ps);
    assert p.left.Scan? ==> es == Rows(d, p.left) && LeftScans(p) == LeftScans(p.right);
    FirstIn(es, fs, f);
    hide Satisfies, Doubled, Rows, Emitted, Ranged, LeftScans, Pow2, Joined, FirstPass, Filter, Placed, Tables;
    MatchAll(db, row, p, es, fs);
    JoinedCount(es, fs, f);
    GlueExactly(ps);
    GlueRanged(d, p, ps, es, fs, f);
    SizeBounds(p, |es|, |fs|);
  }

  lemma {:induction false} SizeBounds(p: Plan, m: nat, n: nat)
    requires p.Join?
    requires 1 <= m <= Pow2(|Tables(p.left)|) && 1 <= n <= Pow2(|Tables(p.right)|)
    ensures m < Pow2(|Tables(p)|)
    ensures m == Pow2(|Tables(p.left)|) ==> 1 <= m * n <= Pow2(|Tables(p)|)
    ensures m == Pow2(|Tables(p.left)|) && n < Pow2(|Tables(p.right)|) ==> m * n < Pow2(|Tables(p)|)
  {
    SomeTable(p.right);
    assert |Tables(p)| == |Tables(p.left)| + |Tables(p.right)|;
    hide Pow2, Tables;
    Pow2Sum(|Tables(p.left)|, |Tables(p.right)|);
    Products(Pow2(|Tables(p.left)|), Pow2(|Tables(p.right)|), n);
  }

  lemma {:induction false} SomeTable(p: Plan)
    ensures |Tables(p)| >= 1 && Pow2(|Tables(p)|) >= 2
  {
    if p.Join? {
      SomeTable(p.left);
    }
    Pow2Sum(|Tables(p)| - 1, 0);
  }

  lemma {:induction false} FirstIn(ls: seq<Row>, rs: seq<Row>, f: (Row, Row) -> bool)
    ensures forall x :: x in FirstPass(ls, rs, f) ==> x in Joined(ls, rs, f)
  {
  }

  lemma {:induction false} Products(a: nat, b: nat, n: nat)
    requires a >= 1 && b >= 2 && 1 <= n <= b
    ensures 1 <= a * n <= a * b && a < a * b && (n < b ==> a * n < a * b)
  {
    Times(a, n, b);
    Times(a, 1, b);
    Times(a, 1, n);
  }

  lemma {:induction false} Times(a: nat, x: nat, y: nat)
    requires a >= 1 && x <= y
    ensures a * x <= a * y && (x < y ==> a * x < a * y)
  {
    var d := y - x;
    assert a * y == a * x + a * d;
    assert d >= 1 ==> a * d >= a;
  }

  /** An answer with every record doubled: rows are lost. */
  lemma {:induction false} LosesRows(db: Db, row: Row, tables: seq<string>, conds: seq<Condition>, p: Plan)
    requires Query(tables, conds) && Planned(tables, conds, p) && !LinkedUp(LeftOver(tables, conds))
    requires forall c :: c in conds && Selfish(c) ==> c.lhs.tab == tables[0]
    requires InRange(db, tables, row) && SatAll(EnvOf(db, row), conds)
    ensures Answer(db, row) && |Emitted(Doubled(db, row), p)| < |Rows(Doubled(db, row), p)|
    ensures !EmitsAll(p)
  {
    PlanPlacedIff(tables, conds, p);
    PlanMeans(db, tables, conds, p, row);
    assert Satisfies(db, row, p);
    DoubledCount(db, row, p);
  }

  // ---------- a query with four tables ----------

  function Equal(a: string, b: string): Condition
  {
    Condition(TabCol(a, "x"), EQ, Column(TabCol(b, "x")))
  }

  lemma {:induction false} NothingTaken(tables: seq<string>, conds: seq<Condition>)
    requires forall c :: c in conds ==> Crossing(c)
    ensures LeftOver(tables, conds) == conds
  {
    if tables != [] {
      AllLeft(tables[0], conds);
      NothingTaken(tables[1..], conds);
    }
  }

  lemma {:induction false} AllLeft(t: string, conds: seq<Condition>)
    requires forall c :: c in conds ==> Crossing(c)
    ensures Chosen(t, conds, false) == conds
  {
    if conds != [] {
      var n := |conds| - 1;
      AllLeft(t, conds[..n]);
      assert conds[n] in conds;
      assert conds == conds[..n] + [conds[n]];
    }
  }

  lemma {:induction false} FourConditions()
    ensures var tables, conds := ["a", "b", "c", "d"], [Equal("a", "b"), Equal("c", "d")];
            Query(tables, conds) && !LinkedUp(LeftOver(tables, conds)) && forall c :: c in conds ==> Crossing(c)
  {
    var tables, conds := ["a", "b", "c", "d"], [Equal("a", "b"), Equal("c", "d")];
    assert forall c :: c in conds ==> c == conds[0] || c == conds[1];
    NothingTaken(tables, conds);
    assert conds[..1] == [conds[0]];
    assert !Meets(conds[..1], conds[1]);
  }

  lemma {:induction false} FourRecords() returns (db: Db, row: Row)
    ensures InRange(db, ["a", "b", "c", "d"], row) && SatAll(EnvOf(db, row), [Equal("a", "b"), Equal("c", "d")])
  {
    var record: map<string, Cell> := map["x" := Num(0.0)];
    db := map["a" := [record], "b" := [record], "c" := [record], "d" := [record]];
    row := map["a" := 0, "b" := 0, "c" := 0, "d" := 0];
    var conds := [Equal("a", "b"), Equal("c", "d")];
    assert Sat(EnvOf(db, row), conds[0]) && Sat(EnvOf(db, row), conds[1]);
  }

  /** `a.x = b.x and c.x = d.x`: the executors do not deliver all rows. */
  lemma {:induction false} FourTables(p: Plan)
    requires Planned(["a", "b", "c", "d"], [Equal("a", "b"), Equal("c", "d")], p)
    ensures !EmitsAll(p)
  {
    hide Query, LinkedUp, LeftOver, Planned, InRange, SatAll, EmitsAll;
    FourConditions();
    var db, row := FourRecords();
    LosesRows(db, row, ["a", "b", "c", "d"], [Equal("a", "b"), Equal("c", "d")], p);
  }
}

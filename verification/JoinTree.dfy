/**
  Plans for the joins of a query: what a plan means, and how it is built from tables and conditions.
 */
module JoinTree {
  import opened Comparisons
  import opened Conditions
  import opened NestedLoopJoin

  datatype Plan = Scan(tab: string, conds: seq<Condition>) | Join(left: Plan, right: Plan, conds: seq<Condition>)

  // ---------- the parts of a plan ----------

  function Leaves(p: Plan): seq<Plan>
  {
    match p
    case Scan(_, _) => [p]
    case Join(l, r, _) => Leaves(l) + Leaves(r)
  }

  function Tables(p: Plan): seq<string>
  {
    match p
    case Scan(t, _) => [t]
    case Join(l, r, _) => Tables(l) + Tables(r)
  }

  function ScanConds(p: Plan): seq<Condition>
  {
    match p
    case Scan(_, cs) => cs
    case Join(l, r, _) => ScanConds(l) + ScanConds(r)
  }

  function JoinConds(p: Plan): seq<Condition>
  {
    match p
    case Scan(_, _) => []
    case Join(l, r, cs) => JoinConds(l) + JoinConds(r) + cs
  }

  /** A condition on columns of one table. */
  predicate Local(t: string, c: Condition)
  {
    c.lhs.tab == t && (c.rhs.Column? ==> c.rhs.col.tab == t)
  }

  predicate ScansPlaced(p: Plan)
  {
    match p
    case Scan(t, cs) => forall c :: c in cs ==> Local(t, c)
    case Join(l, r, _) => ScansPlaced(l) && ScansPlaced(r)
  }

  predicate Across(l: seq<string>, r: seq<string>, c: Condition)
  {
    c.rhs.Column? && c.lhs.tab in l && c.rhs.col.tab in r
  }

  /** Every join condition has its left column in the left subtree and its right column in the right one. */
  predicate JoinsPlaced(p: Plan)
  {
    match p
    case Scan(_, _) => true
    case Join(l, r, cs) => JoinsPlaced(l) && JoinsPlaced(r) && forall c :: c in cs ==> Across(Tables(l), Tables(r), c)
  }

  predicate LeftScans(p: Plan)
  {
    match p
    case Scan(_, _) => true
    case Join(l, r, _) => l.Scan? && LeftScans(r)
  }

  // ---------- what a plan delivers ----------

  type Db = map<string, seq<map<string, Cell>>>

  function CellAt(db: Db, row: Row, c: TabCol): Cell
  {
    if c.tab in row && c.tab in db && row[c.tab] < |db[c.tab]| && c.col in db[c.tab][row[c.tab]]
        then db[c.tab][row[c.tab]][c.col]
    else Num(0.0)
  }

  function EnvOf(db: Db, row: Row): Env
  {
    c => CellAt(db, row, c)
  }

  /** The filter of a join: left columns in the left row, right columns in the right row. */
  predicate DoPredict(db: Db, conds: seq<Condition>, l: Row, r: Row)
  {
    forall c :: c in conds ==>
        c.rhs.Column? && CheckOp(CompareCell(CellAt(db, l, c.lhs), CellAt(db, r, c.rhs.col)), c.op)
  }

  function Filter(db: Db, conds: seq<Condition>): (Row, Row) -> bool
  {
    (l, r) => DoPredict(db, conds, l, r)
  }

  function ScanRows(db: Db, t: string, conds: seq<Condition>, n: nat): seq<Row>
  {
    if n == 0 then [] else ScanRows(db, t, conds, n - 1) + if SatAll(EnvOf(db, map[t := n - 1]), conds)
        then [map[t := n - 1]] else []
  }

  function Glue(ps: seq<Pair>): seq<Row>
  {
    if ps == [] then [] else [ps[0].l + ps[0].r] + Glue(ps[1..])
  }

  /** The rows of a plan, if every executor does what it should. */
  function Rows(db: Db, p: Plan): seq<Row>
  {
    match p
    case Scan(t, cs) => if t in db then ScanRows(db, t, cs, |db[t]|) else []
    case Join(l, r, cs) => Glue(Joined(Rows(db, l), Rows(db, r), Filter(db, cs)))
  }

  /** The rows the executors emit: a scan restarts, a join does not. */
  function Emitted(db: Db, p: Plan): seq<Row>
  {
    match p
    case Scan(t, cs) => Rows(db, p)
    case Join(l, r, cs) =>
      Glue(if l.Scan? then Joined(Emitted(db, l), Emitted(db, r), Filter(db, cs))
          else FirstPass(Emitted(db, l), Emitted(db, r), Filter(db, cs)))
  }

  /** One position in range for each of the tables. */
  ghost predicate InRange(db: Db, tabs: seq<string>, row: Row)
  {
    && (forall t :: t in row <==> t in tabs)
    && (forall t :: t in row ==> t in db && row[t] < |db[t]|)
  }

  lemma {:induction false} ScanRowsExactly(db: Db, t: string, conds: seq<Condition>, n: nat)
    ensures forall row :: row in ScanRows(db, t, conds, n) <==>
        exists i :: 0 <= i < n && row == map[t := i] && SatAll(EnvOf(db, row), conds)
    ensures Distinct(ScanRows(db, t, conds, n))
  {
    hide SatAll;
    if n > 0 {
      ScanRowsExactly(db, t, conds, n - 1);
      var last := map[t := n - 1];
      var before := ScanRows(db, t, conds, n - 1);
      forall row | row in before ensures row != last {
        assert row[t] != last[t];
      }
      DistinctAppend(before, if SatAll(EnvOf(db, last), conds) then [last] else []);
    }
  }

  lemma {:induction false} GlueExactly(ps: seq<Pair>)
    ensures |Glue(ps)| == |ps|
    ensures forall i :: 0 <= i < |ps| ==> Glue(ps)[i] == ps[i].l + ps[i].r
  {
    if ps != [] {
      GlueExactly(ps[1..]);
      forall i | 0 <= i < |ps| ensures Glue(ps)[i] == ps[i].l + ps[i].r {
        assert i > 0 ==> Glue(ps)[i] == Glue(ps[1..])[i - 1];
      }
    }
  }

  ghost predicate Means(db: Db, p: Plan, row: Row)
  {
    InRange(db, Tables(p), row) && SatAll(EnvOf(db, row), ScanConds(p)) && SatAll(EnvOf(db, row), JoinConds(p))
  }

  function Part(row: Row, tabs: seq<string>): Row
  {
    map t | t in row && t in tabs :: row[t]
  }

  /** A condition reads only the positions of its own tables. */
  lemma {:induction false} SatPart(db: Db, part: Row, row: Row, c: Condition)
    requires c.lhs.tab in part && (c.rhs.Column? ==> c.rhs.col.tab in part)
    requires forall t :: t in part ==> t in row && row[t] == part[t]
    ensures Sat(EnvOf(db, part), c) <==> Sat(EnvOf(db, row), c)
  {
  }

  predicate Placed(p: Plan)
  {
    ScansPlaced(p) && JoinsPlaced(p) && Distinct(Tables(p))
  }

  lemma {:induction false} OwnTables(p: Plan, c: Condition)
    requires ScansPlaced(p) && JoinsPlaced(p) && (c in ScanConds(p) || c in JoinConds(p))
    ensures c.lhs.tab in Tables(p) && (c.rhs.Column? ==> c.rhs.col.tab in Tables(p))
  {
    if p.Join? {
      if c in ScanConds(p.left) || c in JoinConds(p.left) { OwnTables(p.left, c); }
      if c in ScanConds(p.right) || c in JoinConds(p.right) { OwnTables(p.right, c); }
    }
  }

  lemma {:induction false} PlacedParts(p: Plan)
    requires p.Join? && Placed(p)
    ensures Placed(p.left) && Placed(p.right)
    ensures forall t :: t in Tables(p.left) ==> t !in Tables(p.right)
  {
    var a, b := Tables(p.left), Tables(p.right);
    assert forall i :: 0 <= i < |a| ==> Tables(p)[i] == a[i];
    assert forall i :: 0 <= i < |b| ==> Tables(p)[|a| + i] == b[i];
  }

  lemma {:induction false} MeansPart(db: Db, p: Plan, row: Row, q: Plan)
    requires p.Join? && Placed(p) && InRange(db, Tables(p), row) && (q == p.left || q == p.right)
    ensures Means(db, q, Part(row, Tables(q))) <==>
        SatAll(EnvOf(db, row), ScanConds(q)) && SatAll(EnvOf(db, row), JoinConds(q))
  {
    hide Sat, Local;
    PlacedParts(p);
    var part := Part(row, Tables(q));
    assert InRange(db, Tables(q), part);
    forall c | c in ScanConds(q) || c in JoinConds(q) ensures Sat(EnvOf(db, part), c) <==> Sat(EnvOf(db, row), c) {
      OwnTables(q, c);
      SatPart(db, part, row, c);
    }
  }

  lemma {:induction false} FilterMeans(db: Db, p: Plan, row: Row)
    requires p.Join? && Placed(p) && InRange(db, Tables(p), row)
    ensures Filter(db, p.conds)(Part(row, Tables(p.left)), Part(row, Tables(p.right))) <==>
        SatAll(EnvOf(db, row), p.conds)
  {
    var l, r := Part(row, Tables(p.left)), Part(row, Tables(p.right));
    forall c | c in p.conds
      ensures c.rhs.Column? && (CheckOp(CompareCell(CellAt(db, l, c.lhs), CellAt(db, r, c.rhs.col)), c.op) <==>
          Sat(EnvOf(db, row), c))
    {
      assert Across(Tables(p.left), Tables(p.right), c);
    }
  }

  lemma {:induction false} SplitMeans(db: Db, p: Plan, row: Row)
    requires p.Join? && Placed(p)
    ensures Means(db, p, row) <==>
      && InRange(db, Tables(p), row)
      && Means(db, p.left, Part(row, Tables(p.left))) && Means(db, p.right, Part(row, Tables(p.right)))
      && Filter(db, p.conds)(Part(row, Tables(p.left)), Part(row, Tables(p.right)))
  {
    hide Sat, InRange, Placed, Filter;
    if InRange(db, Tables(p), row) {
      hide Means;
      MeansPart(db, p, row, p.left);
      MeansPart(db, p, row, p.right);
      FilterMeans(db, p, row);
      MeansJoin(db, p, row);
    }
  }

  lemma {:induction false} MeansJoin(db: Db, p: Plan, row: Row)
    requires p.Join?
    ensures var env := EnvOf(db, row); Means(db, p, row) <==>
      && InRange(db, Tables(p), row)
      && SatAll(env, ScanConds(p.left)) && SatAll(env, JoinConds(p.left))
      && SatAll(env, ScanConds(p.right)) && SatAll(env, JoinConds(p.right)) && SatAll(env, p.conds)
  {
    hide Sat, InRange;
  }

  lemma {:induction false} GluedPart(db: Db, p: Plan, l: Row, r: Row)
    requires p.Join? && Placed(p) && InRange(db, Tables(p.left), l) && InRange(db, Tables(p.right), r)
    ensures InRange(db, Tables(p), l + r) && Part(l + r, Tables(p.left)) == l && Part(l + r, Tables(p.right)) == r
  {
    PlacedParts(p);
  }

  lemma {:induction false} PartGlued(db: Db, p: Plan, row: Row)
    requires p.Join? && InRange(db, Tables(p), row)
    ensures Part(row, Tables(p.left)) + Part(row, Tables(p.right)) == row
  {
  }

  /** A well-placed plan delivers, once each, the combinations of records that satisfy all its conditions. */
  lemma {:induction false} PlanDenotes(db: Db, p: Plan)
    requires Placed(p)
    ensures Distinct(Rows(db, p))
    ensures forall row :: row in Rows(db, p) <==> Means(db, p, row)
    decreases p, 1
  {
    if p.Scan? {
      ScanDenotes(db, p);
    } else {
      JoinDenotes(db, p);
    }
  }

  lemma {:induction false} ScanDenotes(db: Db, p: Plan)
    requires p.Scan?
    ensures Distinct(Rows(db, p))
    ensures forall row :: row in Rows(db, p) <==> Means(db, p, row)
  {
    hide SatAll;
    var t := p.tab;
    if t in db {
      ScanRowsExactly(db, t, p.conds, |db[t]|);
    }
    forall row ensures row in Rows(db, p) <==> Means(db, p, row) {
      NoConds(EnvOf(db, row));
      if InRange(db, [t], row) {
        assert t in [t];
        assert row == map[t := row[t]];
      }
    }
  }

  lemma {:induction false} NoConds(env: Env)
    ensures SatAll(env, [])
  {
  }

  lemma {:induction false} JoinDenotes(db: Db, p: Plan)
    requires p.Join? && Placed(p)
    ensures Distinct(Rows(db, p))
    ensures forall row :: row in Rows(db, p) <==> Means(db, p, row)
    decreases p, 0
  {
    hide Placed, Means, Filter, Joined;
    PlacedParts(p);
    PlanDenotes(db, p.left);
    PlanDenotes(db, p.right);
    var ls, rs, f := Rows(db, p.left), Rows(db, p.right), Filter(db, p.conds);
    var ps := Joined(ls, rs, f);
    JoinedExactly(ls, rs, f);
    JoinedOnce(ls, rs, f);
    GlueExactly(ps);
    forall i | 0 <= i < |ps| ensures GoodPair(db, p, ps[i]) && Means(db, p, ps[i].l + ps[i].r) {
      assert ps[i] in ps;
      PairMeans(db, p, ps[i]);
    }
    forall row | row in Rows(db, p) ensures Means(db, p, row) {
      var i :| 0 <= i < |ps| && Glue(ps)[i] == row;
      assert GoodPair(db, p, ps[i]);
    }
    forall row | Means(db, p, row) ensures row in Rows(db, p) {
      MeansPair(db, p, row);
      var pair := Pair(Part(row, Tables(p.left)), Part(row, Tables(p.right)));
      assert pair in ps;
      var i :| 0 <= i < |ps| && ps[i] == pair;
      assert Glue(ps)[i] == row;
    }
    forall i, j | 0 <= i < j < |ps| ensures Glue(ps)[i] != Glue(ps)[j] {
      assert GoodPair(db, p, ps[i]) && GoodPair(db, p, ps[j]);
    }
  }

  /** A pair that its glued row determines. */
  ghost predicate GoodPair(db: Db, p: Plan, x: Pair)
    requires p.Join?
  {
    Part(x.l + x.r, Tables(p.left)) == x.l && Part(x.l + x.r, Tables(p.right)) == x.r
  }

  lemma {:induction false} PairMeans(db: Db, p: Plan, x: Pair)
    requires p.Join? && Placed(p) && Means(db, p.left, x.l) && Means(db, p.right, x.r) && Filter(db, p.conds)(x.l, x.r)
    ensures GoodPair(db, p, x) && Means(db, p, x.l + x.r)
  {
    hide Placed, Filter, SatAll;
    GluedPart(db, p, x.l, x.r);
    SplitMeans(db, p, x.l + x.r);
  }

  lemma {:induction false} MeansPair(db: Db, p: Plan, row: Row)
    requires p.Join? && Placed(p) && Means(db, p, row)
    ensures var l, r := Part(row, Tables(p.left)), Part(row, Tables(p.right));
            Means(db, p.left, l) && Means(db, p.right, r) && Filter(db, p.conds)(l, r) && l + r == row
  {
    hide Placed, Filter, SatAll;
    SplitMeans(db, p, row);
    PartGlued(db, p, row);
  }

  // ---------- the rows in terms of the stored cells ----------

  /** The row names a record of the table, and that record has the column. */
  predicate Readable(db: Db, row: Row, c: TabCol)
  {
    c.tab in row && c.tab in db && row[c.tab] < |db[c.tab]| && c.col in db[c.tab][row[c.tab]]
  }

  predicate CanSay(db: Db, row: Row, c: Condition)
  {
    Readable(db, row, c.lhs) && (c.rhs.Column? ==> Readable(db, row, c.rhs.col))
  }

  /** What a condition says of the records that a row names. */
  ghost predicate Says(db: Db, row: Row, c: Condition)
    requires CanSay(db, row, c)
  {
    var a := db[c.lhs.tab][row[c.lhs.tab]][c.lhs.col];
    match c.rhs
    case Column(r) => Stands(a, c.op, db[r.tab][row[r.tab]][r.col])
    case Const(IntVal(i)) => Stands(a, c.op, Num(i as real))
    case Const(FloatVal(f)) => Stands(a, c.op, Num(f))
    case Const(StrVal(s)) => Stands(a, c.op, Str(s))
  }

  lemma {:induction false} SatSays(db: Db, row: Row, c: Condition)
    requires CanSay(db, row, c)
    ensures Sat(EnvOf(db, row), c) <==> Says(db, row, c)
  {
    CompareCellStands(CellAt(db, row, c.lhs), c.op, Eval(EnvOf(db, row), c.rhs));
  }

  predicate Stored(db: Db, c: TabCol)
  {
    c.tab in db ==> forall i :: 0 <= i < |db[c.tab]| ==> c.col in db[c.tab][i]
  }

  /** All the records have the columns that the conditions are about. */
  ghost predicate AllStored(db: Db, conds: seq<Condition>)
  {
    forall c :: c in conds ==> Stored(db, c.lhs) && (c.rhs.Column? ==> Stored(db, c.rhs.col))
  }

  /** One record of each table, and all the conditions are true of them. */
  ghost predicate Answers(db: Db, tabs: seq<string>, conds: seq<Condition>, row: Row)
  {
    InRange(db, tabs, row) && forall c :: c in conds ==> CanSay(db, row, c) && Says(db, row, c)
  }

  lemma {:induction false} AnswersIff(db: Db, tabs: seq<string>, conds: seq<Condition>, row: Row)
    requires AllStored(db, conds)
    requires forall c :: c in conds ==> c.lhs.tab in tabs && (c.rhs.Column? ==> c.rhs.col.tab in tabs)
    ensures InRange(db, tabs, row) && SatAll(EnvOf(db, row), conds) <==> Answers(db, tabs, conds, row)
  {
    hide Sat, Says, Stored;
    if InRange(db, tabs, row) {
      forall c | c in conds ensures CanSay(db, row, c) && (Sat(EnvOf(db, row), c) <==> Says(db, row, c)) {
        StoredReadable(db, tabs, row, c);
        SatSays(db, row, c);
      }
    }
  }

  lemma {:induction false} StoredReadable(db: Db, tabs: seq<string>, row: Row, c: Condition)
    requires InRange(db, tabs, row) && Stored(db, c.lhs) && (c.rhs.Column? ==> Stored(db, c.rhs.col))
    requires c.lhs.tab in tabs && (c.rhs.Column? ==> c.rhs.col.tab in tabs)
    ensures CanSay(db, row, c)
  {
  }

  /** A well-placed plan delivers the combinations of records of whose cells all the conditions are true. */
  lemma {:induction false} PlanSays(db: Db, p: Plan)
    requires Placed(p) && AllStored(db, ScanConds(p) + JoinConds(p))
    ensures forall row :: row in Rows(db, p) <==> Answers(db, Tables(p), ScanConds(p) + JoinConds(p), row)
  {
    var conds := ScanConds(p) + JoinConds(p);
    PlanDenotes(db, p);
    forall c | c in conds ensures c.lhs.tab in Tables(p) && (c.rhs.Column? ==> c.rhs.col.tab in Tables(p)) {
      OwnTables(p, c);
    }
    hide Sat, Says, InRange, Placed, AllStored;
    forall row ensures Means(db, p, row) <==> Answers(db, Tables(p), conds, row) {
      AnswersIff(db, Tables(p), conds, row);
    }
  }

  predicate NumberIn(db: Db, t: string, col: string, i: nat)
  {
    t in db && i < |db[t]| && col in db[t][i] && db[t][i][col].Num?
  }

  lemma {:induction false} TwoScansRow(db: Db, t: string, u: string, c: Condition, i: nat, j: nat)
    requires t != u && t in db && u in db && i < |db[t]| && j < |db[u]|
    requires c.rhs.Column? && c.lhs.tab == t && c.rhs.col.tab == u
    ensures map[t := i, u := j] in Rows(db, Join(Scan(t, []), Scan(u, []), [c])) <==>
        Sat(EnvOf(db, map[t := i, u := j]), c)
  {
    var l, r, row := Scan(t, []), Scan(u, []), map[t := i, u := j];
    var p := Join(l, r, [c]);
    assert Tables(l) == [t] && Tables(r) == [u] && Tables(p) == [t] + [u];
    assert ScanConds(l) == ScanConds(r) == JoinConds(l) == JoinConds(r) == [];
    assert ScanConds(p) == [] && JoinConds(p) == [c];
    hide Rows, Sat, EnvOf, Tables, ScanConds, JoinConds;
    assert t in [t] && u in [u] && Across([t], [u], c);
    assert ScansPlaced(l) && ScansPlaced(r) && JoinsPlaced(l) && JoinsPlaced(r);
    assert JoinsPlaced(p);
    assert Distinct([t] + [u]);
    assert Placed(p);
    hide Placed;
    PlanDenotes(db, p);
    NoConds(EnvOf(db, row));
    assert [t] + [u] == [t, u] && InRange(db, [t, u], row);
    assert SatAll(EnvOf(db, row), [c]) <==> Sat(EnvOf(db, row), c) by {
      assert c in [c];
    }
  }

  /** Two scans and one join condition on number columns: the pairs of records whose cells are in that relation. */
  lemma {:induction false} TwoScans(db: Db, t: string, u: string, x: string, y: string, op: CompOp, i: nat, j: nat)
    requires t != u && t in db && u in db && NumberIn(db, t, x, i) && NumberIn(db, u, y, j)
    ensures var c := Condition(TabCol(t, x), op, Column(TabCol(u, y)));
            map[t := i, u := j] in Rows(db, Join(Scan(t, []), Scan(u, []), [c])) <==>
              var a, b := db[t][i][x].n, db[u][j][y].n;
              match op
              case EQ => a == b
              case NE => a != b
              case LT => a < b
              case GT => a > b
              case LE => a <= b
              case GE => a >= b
  {
    var c := Condition(TabCol(t, x), op, Column(TabCol(u, y)));
    TwoScansRow(db, t, u, c, i, j);
    hide Rows;
    SatSays(db, map[t := i, u := j], c);
  }

  /** A scan with a constant on a number column. */
  lemma {:induction false} OneScan(db: Db, t: string, x: string, op: CompOp, v: int, i: nat)
    requires t in db && NumberIn(db, t, x, i)
    ensures var c := Condition(TabCol(t, x), op, Const(IntVal(v)));
            map[t := i] in Rows(db, Scan(t, [c])) <==>
              var a, b := db[t][i][x].n, v as real;
              match op
              case EQ => a == b
              case NE => a != b
              case LT => a < b
              case GT => a > b
              case LE => a <= b
              case GE => a >= b
  {
    var c := Condition(TabCol(t, x), op, Const(IntVal(v)));
    var row := map[t := i];
    PlanDenotes(db, Scan(t, [c]));
    assert SatAll(EnvOf(db, row), []);
    assert c in [c];
    SatSays(db, row, c);
  }

  // ---------- what the executors make of a plan ----------

  /** Where every left child is a scan, the executors emit the rows of the plan. */
  lemma {:induction false} LeftScansEmitAll(db: Db, p: Plan)
    requires LeftScans(p)
    ensures Emitted(db, p) == Rows(db, p)
  {
    if p.Join? {
      LeftScansEmitAll(db, p.left);
      LeftScansEmitAll(db, p.right);
    }
  }

  /**
    A join whose left child is a join that delivers all its rows: pairs are lost exactly when a right row after the
    first has a match. For a cross product that is when the left child has a row and the right one has two.
   */
  lemma {:induction false} LeftJoinLoses(db: Db, l: Plan, r: Plan, conds: seq<Condition>)
    requires l.Join? && Emitted(db, l) == Rows(db, l) && Emitted(db, r) == Rows(db, r)
    ensures Emitted(db, Join(l, r, conds)) == Rows(db, Join(l, r, conds))
       <==> forall x, i :: x in Rows(db, l) && 0 < i < |Rows(db, r)| ==> !Filter(db, conds)(x, Rows(db, r)[i])
    ensures conds == [] ==>
      (Emitted(db, Join(l, r, conds)) == Rows(db, Join(l, r, conds)) <==> Rows(db, l) == [] || |Rows(db, r)| <= 1)
  {
    var ls, rs, f := Rows(db, l), Rows(db, r), Filter(db, conds);
    hide Rows, Emitted, Filter, Joined, FirstPass, LeftScans, Glue;
    EmittedParts(db, l, r, conds);
    FirstPassLoses(ls, rs, f);
    GlueExactly(Joined(ls, rs, f));
    GlueExactly(FirstPass(ls, rs, f));
    FirstPassShorter(ls, rs, f);
    NoFilter(db);
    if conds == [] && ls != [] && |rs| > 1 {
      assert ls[0] in ls && f(ls[0], rs[1]);
    }
  }

  lemma {:induction false} EmittedParts(db: Db, l: Plan, r: Plan, conds: seq<Condition>)
    requires l.Join?
    ensures Emitted(db, Join(l, r, conds)) == Glue(FirstPass(Emitted(db, l), Emitted(db, r), Filter(db, conds)))
    ensures Rows(db, Join(l, r, conds)) == Glue(Joined(Rows(db, l), Rows(db, r), Filter(db, conds)))
  {
  }

  lemma {:induction false} NoFilter(db: Db)
    ensures forall a, b :: Filter(db, [])(a, b)
  {
  }

  lemma {:induction false} FirstPassShorter(ls: seq<Row>, rs: seq<Row>, f: (Row, Row) -> bool)
    ensures FirstPass(ls, rs, f) != Joined(ls, rs, f) ==> |FirstPass(ls, rs, f)| < |Joined(ls, rs, f)|
  {
  }
}

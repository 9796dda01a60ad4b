/**
  Building the join tree of a query from its tables and its conditions.
 */
module MakeOneRel {
  import opened Comparisons
  import opened Conditions
  import opened NestedLoopJoin
  import opened JoinTree

  // ---------- the conditions of the scans ----------

  /** Whether the scan of table `t` takes a condition: a constant on `t`, or two columns of any one table. */
  predicate Taken(t: string, c: Condition)
  {
    if c.rhs.Const? then c.lhs.tab == t else c.lhs.tab == c.rhs.col.tab
  }

  function Chosen(t: string, conds: seq<Condition>, want: bool): seq<Condition>
  {
    if conds == [] then []
    else
      var n := |conds| - 1;
      Chosen(t, conds[..n], want) + if Taken(t, conds[n]) == want then [conds[n]] else []
  }

  lemma {:induction false} ChosenExactly(t: string, conds: seq<Condition>, want: bool)
    ensures forall c :: c in Chosen(t, conds, want) <==> c in conds && Taken(t, c) == want
  {
    if conds != [] {
      var n := |conds| - 1;
      ChosenExactly(t, conds[..n], want);
      assert conds == conds[..n] + [conds[n]];
    }
  }

  method PopConds(conds: seq<Condition>, t: string) returns (solved: seq<Condition>, rest: seq<Condition>)
    ensures solved == Chosen(t, conds, true) && rest == Chosen(t, conds, false)
  {
    solved, rest := [], [];
    for i := 0 to |conds|
      invariant solved == Chosen(t, conds[..i], true) && rest == Chosen(t, conds[..i], false)
    {
      assert conds[..i + 1][..i] == conds[..i];
      if Taken(t, conds[i]) {
        solved := solved + [conds[i]];
      } else {
        rest := rest + [conds[i]];
      }
    }
    assert conds[..|conds|] == conds;
  }

  /** The scans of the tables, each with what it takes from the conditions the earlier ones left. */
  function ScansFor(tables: seq<string>, conds: seq<Condition>): seq<Plan>
  {
    if tables == [] then []
    else [Scan(tables[0], Chosen(tables[0], conds, true))] + ScansFor(tables[1..], Chosen(tables[0], conds, false))
  }

  function LeftOver(tables: seq<string>, conds: seq<Condition>): seq<Condition>
  {
    if tables == [] then conds else LeftOver(tables[1..], Chosen(tables[0], conds, false))
  }

  /** Conditions on two columns of one table. */
  predicate Selfish(c: Condition)
  {
    c.rhs.Column? && c.lhs.tab == c.rhs.col.tab
  }

  predicate Crossing(c: Condition)
  {
    c.rhs.Column? && c.lhs.tab != c.rhs.col.tab
  }

  lemma {:induction false} LeftOverExactly(tables: seq<string>, conds: seq<Condition>)
    ensures forall c :: c in LeftOver(tables, conds) <==> c in conds && forall t :: t in tables ==> !Taken(t, c)
  {
    if tables != [] {
      var rest := Chosen(tables[0], conds, false);
      ChosenExactly(tables[0], conds, false);
      LeftOverExactly(tables[1..], rest);
      assert tables == [tables[0]] + tables[1..];
      forall c ensures c in LeftOver(tables, conds) <==> c in conds && forall t :: t in tables ==> !Taken(t, c) {
        if c in conds && forall t :: t in tables ==> !Taken(t, c) {
          assert !Taken(tables[0], c);
        }
      }
    }
  }

  lemma {:induction false} ScansForExactly(tables: seq<string>, conds: seq<Condition>, i: nat)
    requires i < |tables|
    ensures |ScansFor(tables, conds)| == |tables| && ScansFor(tables, conds)[i].Scan? &&
        ScansFor(tables, conds)[i].tab == tables[i]
    ensures forall c :: c in ScansFor(tables, conds)[i].conds <==>
      c in conds && Taken(tables[i], c) && forall j :: 0 <= j < i ==> !Taken(tables[j], c)
  {
    ScansForLength(tables, conds);
    ChosenExactly(tables[0], conds, true);
    ChosenExactly(tables[0], conds, false);
    if i > 0 {
      var rest := Chosen(tables[0], conds, false);
      ScansForExactly(tables[1..], rest, i - 1);
      var p := ScansFor(tables, conds)[i];
      assert p == ScansFor(tables[1..], rest)[i - 1];
      forall c ensures c in p.conds <==> c in conds && Taken(tables[i], c) && forall j :: 0 <= j < i ==>
          !Taken(tables[j], c) {
        if c in p.conds {
          forall j | 0 <= j < i ensures !Taken(tables[j], c) {
            assert j > 0 ==> tables[1..][j - 1] == tables[j];
          }
        } else if forall j :: 0 <= j < i ==> !Taken(tables[j], c) {
          assert !Taken(tables[0], c);
          assert forall j :: 0 <= j < i - 1 ==> tables[1..][j] == tables[j + 1];
        }
      }
    }
  }

  lemma {:induction false} ScansForLength(tables: seq<string>, conds: seq<Condition>)
    ensures |ScansFor(tables, conds)| == |tables|
  {
    if tables != [] {
      ScansForLength(tables[1..], Chosen(tables[0], conds, false));
    }
  }

  /** No condition is lost or doubled between the scans and what is left for the joins. */
  ghost function AllScanConds(scans: seq<Plan>): multiset<Condition>
  {
    if scans == [] then multiset{} else multiset(ScanConds(scans[0])) + AllScanConds(scans[1..])
  }

  lemma {:induction false} ChosenSplits(t: string, conds: seq<Condition>)
    ensures multiset(Chosen(t, conds, true)) + multiset(Chosen(t, conds, false)) == multiset(conds)
  {
    hide Taken, Chosen;
    if conds == [] {
      ChosenNone(t);
    } else {
      var n := |conds| - 1;
      var here, others := Chosen(t, conds[..n], true), Chosen(t, conds[..n], false);
      ChosenSplits(t, conds[..n]);
      ChosenLast(t, conds, true);
      ChosenLast(t, conds, false);
      assert conds == conds[..n] + [conds[n]];
      SplitOneMore(here, others, conds[..n], conds[n], Chosen(t, conds, true), Chosen(t, conds, false), conds);
    }
  }

  lemma {:induction false} ChosenNone(t: string)
    ensures Chosen(t, [], true) == [] && Chosen(t, [], false) == []
  {
  }

  lemma {:induction false} ChosenLast(t: string, conds: seq<Condition>, want: bool)
    requires conds != []
    ensures var n := |conds| - 1;
            Chosen(t, conds, want) == if Taken(t, conds[n]) == want then Chosen(t, conds[..n], want) + [conds[n]]
                else Chosen(t, conds[..n], want)
  {
  }

  lemma {:induction false} SplitOneMore(a: seq<Condition>, b: seq<Condition>, s: seq<Condition>, x: Condition,
                                        a': seq<Condition>, b': seq<Condition>, s': seq<Condition>)
    requires multiset(a) + multiset(b) == multiset(s) && s' == s + [x]
    requires (a' == a + [x] && b' == b) || (a' == a && b' == b + [x])
    ensures multiset(a') + multiset(b') == multiset(s')
  {
  }

  lemma {:induction false} NothingLost(tables: seq<string>, conds: seq<Condition>)
    ensures AllScanConds(ScansFor(tables, conds)) + multiset(LeftOver(tables, conds)) == multiset(conds)
  {
    if tables != [] {
      var rest := Chosen(tables[0], conds, false);
      ChosenSplits(tables[0], conds);
      NothingLost(tables[1..], rest);
      assert ScansFor(tables, conds)[1..] == ScansFor(tables[1..], rest);
    }
  }

  // ---------- pushing a condition into a tree ----------

  /** 3: put into a join; 1 or 2: the plan has the left or the right column; 0: it has neither. */
  function PushConds(c: Condition, p: Plan): (int, Plan)
    requires c.rhs.Column?
  {
    match p
    case Scan(t, _) => (if t == c.lhs.tab then 1 else if t == c.rhs.col.tab then 2 else 0, p)
    case Join(l, r, cs) =>
      var pl := PushConds(c, l);
      if pl.0 == 3 then (3, Join(pl.1, r, cs))
      else
        var pr := PushConds(c, r);
        if pr.0 == 3 then (3, Join(l, pr.1, cs))
        else if pl.0 == 0 || pr.0 == 0 then (pl.0 + pr.0, p)
        else (3, Join(l, r, cs + [if pl.0 == 2 then Flip(c) else c]))
  }

  /** The column of the other table decides what is in a subtree. */
  function Found(c: Condition, tabs: seq<string>): int
    requires c.rhs.Column?
  {
    if c.lhs.tab in tabs && c.rhs.col.tab in tabs then 3
    else if c.lhs.tab in tabs then 1 else if c.rhs.col.tab in tabs then 2 else 0
  }

  /** `q` is `p`, or `p` with the condition put into one of its joins. */
  ghost predicate Pushed(c: Condition, p: Plan, code: int, q: Plan)
    requires c.rhs.Column?
  {
    && code == Found(c, Tables(p))
    && JoinsPlaced(q) && Leaves(q) == Leaves(p) && Tables(q) == Tables(p) && LeftScans(q) == LeftScans(p) &&
        (q.Scan? <==> p.Scan?)
    && (if code == 3 then OneMore(JoinConds(p), c, JoinConds(q)) else q == p)
  }

  ghost predicate OneMore(old_: seq<Condition>, c: Condition, new_: seq<Condition>)
  {
    multiset(new_) == multiset(old_ + [c]) || multiset(new_) == multiset(old_ + [Flip(c)])
  }

  /** The condition lands once, in the join where its two tables meet, turned so that its sides fit. */
  lemma {:induction false} PushOnce(c: Condition, p: Plan)
    requires Crossing(c) && JoinsPlaced(p) && Distinct(Tables(p))
    ensures Pushed(c, p, PushConds(c, p).0, PushConds(c, p).1)
  {
    if p.Join? {
      hide Pushed;
      Halves(p);
      PushOnce(c, p.left);
      PushOnce(c, p.right);
      var pl, pr := PushConds(c, p.left), PushConds(c, p.right);
      if Found(c, Tables(p.left)) == 3 {
        PushLeft(c, p, pl.0, pl.1);
      } else if Found(c, Tables(p.right)) == 3 {
        CodeIsFound(c, p.left, pl.0, pl.1);
        PushRight(c, p, pr.0, pr.1);
      } else {
        CodeIsFound(c, p.left, pl.0, pl.1);
        CodeIsFound(c, p.right, pr.0, pr.1);
        PushHere(c, p);
      }
    }
  }

  lemma {:induction false} CodeIsFound(c: Condition, p: Plan, code: int, q: Plan)
    requires c.rhs.Column? && Pushed(c, p, code, q)
    ensures code == Found(c, Tables(p))
  {
  }

  lemma {:induction false} PushLeft(c: Condition, p: Plan, code: int, q: Plan)
    requires Crossing(c) && p.Join? && JoinsPlaced(p) && Pushed(c, p.left, code, q) && Found(c, Tables(p.left)) == 3
    ensures code == 3 && Pushed(c, p, 3, Join(q, p.right, p.conds))
  {
    ExtendRight(JoinConds(p.left), c, JoinConds(q), JoinConds(p.right), p.conds);
  }

  lemma {:induction false} PushRight(c: Condition, p: Plan, code: int, q: Plan)
    requires Crossing(c) && p.Join? && JoinsPlaced(p) && Pushed(c, p.right, code, q) && Found(c, Tables(p.right)) == 3
    ensures code == 3 && Pushed(c, p, 3, Join(p.left, q, p.conds))
  {
    Extend(JoinConds(p.right), c, JoinConds(q), JoinConds(p.left), p.conds);
  }

  /** Where one more condition is put does not matter for the multiset. */
  lemma {:induction false} Extend(before: seq<Condition>, c: Condition, after: seq<Condition>, l: seq<Condition>,
      r: seq<Condition>)
    requires OneMore(before, c, after)
    ensures OneMore(l + before + r, c, l + after + r)
  {
  }

  lemma {:induction false} ExtendRight(before: seq<Condition>, c: Condition, after: seq<Condition>, l: seq<Condition>,
      r: seq<Condition>)
    requires OneMore(before, c, after)
    ensures OneMore(before + l + r, c, after + l + r)
  {
  }

  lemma {:induction false} PushHere(c: Condition, p: Plan)
    requires Crossing(c) && p.Join? && JoinsPlaced(p) && Distinct(Tables(p))
    requires Found(c, Tables(p.left)) != 3 && Found(c, Tables(p.right)) != 3
    ensures var l, r := Found(c, Tables(p.left)), Found(c, Tables(p.right));
            && (l == 0 || r == 0 ==> Pushed(c, p, l + r, p))
            && (l != 0 && r != 0 ==> Pushed(c, p, 3, Join(p.left, p.right, p.conds + [if l == 2 then Flip(c) else c])))
  {
    Halves(p);
    var d := if Found(c, Tables(p.left)) == 2 then Flip(c) else c;
    assert JoinConds(Join(p.left, p.right, p.conds + [d])) == JoinConds(p) + [d];
  }

  lemma {:induction false} Halves(p: Plan)
    requires p.Join? && Distinct(Tables(p))
    ensures Distinct(Tables(p.left)) && Distinct(Tables(p.right))
    ensures forall t :: t in Tables(p.left) ==> t !in Tables(p.right)
    ensures forall t :: t in Tables(p) <==> t in Tables(p.left) || t in Tables(p.right)
  {
    var a, b := Tables(p.left), Tables(p.right);
    assert forall i :: 0 <= i < |a| ==> Tables(p)[i] == a[i];
    assert forall i :: 0 <= i < |b| ==> Tables(p)[|a| + i] == b[i];
  }

  // ---------- the tree ----------

  /** The conditions in the tree are those given, some of them turned around. */
  ghost predicate Turned(given: seq<Condition>, placed: seq<Condition>)
  {
    |given| == |placed| && forall i :: 0 <= i < |given| ==> placed[i] == given[i] || placed[i] == Flip(given[i])
  }

  /** A tree over some of the scans, in which the given conditions have been put. */
  ghost predicate Built(scans: seq<Plan>, p: Plan, given: seq<Condition>, placed: seq<Condition>)
  {
    && JoinsPlaced(p) && Distinct(Tables(p))
    && (forall x :: x in Leaves(p) ==> x in scans)
    && multiset(JoinConds(p)) == multiset(placed) && Turned(given, placed)
  }

  /** Which scans are in the tree. */
  ghost predicate Marked(tables: seq<string>, scantbl: seq<int>, p: Plan)
  {
    && |scantbl| == |tables|
    && (forall i :: 0 <= i < |tables| ==> scantbl[i] == if tables[i] in Tables(p) then 1 else -1)
    && (forall t :: t in Tables(p) ==> t in tables)
  }

  ghost predicate ScansOf(tables: seq<string>, scans: seq<Plan>)
  {
    |scans| == |tables| && forall i :: 0 <= i < |scans| ==> scans[i].Scan? && scans[i].tab == tables[i]
  }

  /** Finds the scan of a table, marks it and lists the table as joined. */
  method PopScan(scantbl: seq<int>, table: string, joined: seq<string>, scans: seq<Plan>, ghost tables: seq<string>)
    returns (i: nat, scantbl': seq<int>, joined': seq<string>)
    requires ScansOf(tables, scans) && |scantbl| == |tables| && table in tables
    ensures i < |tables| && tables[i] == table && scantbl' == scantbl[i := 1] && joined' == joined + [table]
  {
    ghost var k :| 0 <= k < |tables| && tables[k] == table;
    i := 0;
    while scans[i].tab != table
      invariant i <= k
      decreases k - i
    {
      i := i + 1;
    }
    scantbl', joined' := scantbl[i := 1], joined + [table];
  }

  ghost predicate Mentions(conds: seq<Condition>, t: string)
  {
    exists c :: c in conds && (c.lhs.tab == t || (c.rhs.Column? && c.rhs.col.tab == t))
  }

  /** Every condition after the first has a table in common with an earlier one. */
  ghost predicate LinkedUp(conds: seq<Condition>)
  {
    forall m :: 0 < m < |conds| ==> Meets(conds[..m], conds[m])
  }

  ghost predicate Meets(conds: seq<Condition>, c: Condition)
  {
    Mentions(conds, c.lhs.tab) || (c.rhs.Column? && Mentions(conds, c.rhs.col.tab))
  }

  /** The tree after some of the join conditions, with the bookkeeping that goes with it. */
  ghost predicate Grown(tables: seq<string>, scans: seq<Plan>, p: Plan, given: seq<Condition>, placed: seq<Condition>,
      scantbl: seq<int>, joined: seq<string>)
  {
    && Built(scans, p, given, placed) && Marked(tables, scantbl, p)
    && (forall t :: t in tables ==> (t in joined <==> t in Tables(p)))
    && (forall t :: t in Tables(p) <==> Mentions(given, t))
    && (LeftScans(p) <==> LinkedUp(given))
  }

  lemma {:induction false} MentionsMore(given: seq<Condition>, c: Condition, t: string)
    requires Crossing(c)
    ensures Mentions(given + [c], t) <==> Mentions(given, t) || c.lhs.tab == t || c.rhs.col.tab == t
  {
    if d :| d in given && (d.lhs.tab == t || (d.rhs.Column? && d.rhs.col.tab == t)) {
      assert d in given + [c];
    }
    assert c in given + [c];
  }

  lemma {:induction false} LinkedUpMore(given: seq<Condition>, c: Condition)
    ensures LinkedUp(given + [c]) <==> LinkedUp(given) && (given == [] || Meets(given, c))
  {
    hide Meets;
    var more := given + [c];
    assert more[..|given|] == given;
    forall m | 0 < m < |given| ensures Meets(more[..m], more[m]) <==> Meets(given[..m], given[m]) {
      assert more[..m] == given[..m];
    }
    assert given != [] ==> (LinkedUp(more) ==> Meets(more[..|given|], more[|given|]));
  }

  /** What joining a scan to a tree does to its parts. */
  lemma {:induction false} AddScan(tables: seq<string>, scans: seq<Plan>, i: nat, p: Plan, given: seq<Condition>,
      placed: seq<Condition>, scantbl: seq<int>, cs: seq<Condition>)
    requires ScansOf(tables, scans) && Distinct(tables) && i < |tables| && Built(scans, p, given, placed) &&
        Marked(tables, scantbl, p)
    requires tables[i] !in Tables(p) && forall c :: c in cs ==> Across([tables[i]], Tables(p), c)
    ensures var q := Join(scans[i], p, cs);
            && JoinsPlaced(q) && Distinct(Tables(q)) && (forall x :: x in Leaves(q) ==> x in scans)
            && multiset(JoinConds(q)) == multiset(placed + cs)
            && Tables(q) == [tables[i]] + Tables(p) && Marked(tables, scantbl[i := 1], q) &&
                LeftScans(q) == LeftScans(p)
  {
    var q := Join(scans[i], p, cs);
    assert JoinConds(q) == JoinConds(p) + cs;
    DistinctAppend([tables[i]], Tables(p));
    forall k | 0 <= k < |tables| ensures scantbl[i := 1][k] == if tables[k] in Tables(q) then 1 else -1 {
      assert tables[k] in Tables(q) <==> k == i || tables[k] in Tables(p);
    }
  }

  lemma {:induction false} TurnedMore(given: seq<Condition>, placed: seq<Condition>, c: Condition, d: Condition)
    requires Turned(given, placed) && (d == c || d == Flip(c))
    ensures Turned(given + [c], placed + [d])
  {
  }

  /**
    One table of the condition is new: its scan becomes the left child, the condition turned so that it starts there.
   */
  lemma {:induction false} GrowOne(tables: seq<string>, scans: seq<Plan>, i: nat, p: Plan, given: seq<Condition>,
      placed: seq<Condition>, scantbl: seq<int>, joined: seq<string>,
      c: Condition, d: Condition)
    requires ScansOf(tables, scans) && Distinct(tables) && i < |tables| &&
        Grown(tables, scans, p, given, placed, scantbl, joined)
    requires Crossing(c) && (d == c || d == Flip(c)) && d.lhs.tab == tables[i] && d.rhs.col.tab in Tables(p) &&
        tables[i] !in Tables(p)
    ensures Grown(tables, scans, Join(scans[i], p, [d]), given + [c], placed + [d], scantbl[i := 1],
        joined + [tables[i]])
  {
    hide LinkedUp, Mentions, Turned;
    AddScan(tables, scans, i, p, given, placed, scantbl, [d]);
    TurnedMore(given, placed, c, d);
    LinkedUpMore(given, c);
    forall t ensures t in Tables(Join(scans[i], p, [d])) <==> Mentions(given + [c], t) {
      MentionsMore(given, c, t);
    }
    assert Meets(given, c);
  }

  /** Both tables of the condition are new: they are joined, and the tree so far becomes the right child. */
  lemma {:induction false} GrowBoth(tables: seq<string>, scans: seq<Plan>, i: nat, j: nat, p: Plan,
      given: seq<Condition>, placed: seq<Condition>, scantbl: seq<int>, joined: seq<string>,
      c: Condition)
    requires ScansOf(tables, scans) && Distinct(tables) && i < |tables| && j < |tables| &&
        Grown(tables, scans, p, given, placed, scantbl, joined)
    requires Crossing(c) && c.lhs.tab == tables[i] && c.rhs.col.tab == tables[j] && tables[i] !in Tables(p) &&
        tables[j] !in Tables(p) && given != []
    ensures Grown(tables, scans, Join(Join(scans[i], scans[j], [c]), p, []), given + [c], placed + [c],
        scantbl[i := 1][j := 1], joined + [tables[i]] + [tables[j]])
  {
    hide LinkedUp, Mentions, Turned, LeftScans, Leaves;
    var pair := Join(scans[i], scans[j], [c]);
    var q := Join(pair, p, []);
    PairParts(tables, scans, i, j, c);
    PairJoined(pair, p);
    TurnedMore(given, placed, c, c);
    LinkedUpMore(given, c);
    forall t ensures t in Tables(q) <==> Mentions(given + [c], t) {
      MentionsMore(given, c, t);
    }
    assert !Meets(given, c);
    DistinctAppend(Tables(pair), Tables(p));
    SameMultiset(JoinConds(p), placed, c);
    forall k | 0 <= k < |tables| ensures scantbl[i := 1][j := 1][k] == if tables[k] in Tables(q) then 1 else -1 {
      assert tables[k] in Tables(q) <==> k == i || k == j || tables[k] in Tables(p);
    }
  }

  /** A cross product with a join on its left. */
  lemma {:induction false} PairJoined(pair: Plan, p: Plan)
    requires pair.Join?
    ensures var q := Join(pair, p, []);
            && Leaves(q) == Leaves(pair) + Leaves(p) && Tables(q) == Tables(pair) + Tables(p) &&
                JoinConds(q) == JoinConds(pair) + JoinConds(p)
            && !LeftScans(q) && (JoinsPlaced(q) <==> JoinsPlaced(pair) && JoinsPlaced(p))
  {
  }

  lemma {:induction false} SameMultiset(a: seq<Condition>, b: seq<Condition>, c: Condition)
    requires multiset(a) == multiset(b)
    ensures multiset([c] + a) == multiset(b + [c])
  {
  }

  lemma {:induction false} PairParts(tables: seq<string>, scans: seq<Plan>, i: nat, j: nat, c: Condition)
    requires ScansOf(tables, scans) && Distinct(tables) && i < |tables| && j < |tables|
    requires Crossing(c) && c.lhs.tab == tables[i] && c.rhs.col.tab == tables[j]
    ensures var q := Join(scans[i], scans[j], [c]);
            && JoinsPlaced(q) && Distinct(Tables(q)) && Tables(q) == [tables[i], tables[j]]
            && (forall x :: x in Leaves(q) ==> x in scans) && JoinConds(q) == [c]
  {
    DistinctAppend([tables[i]], [tables[j]]);
  }

  /** Both tables are in the tree: the condition is pushed to where they meet. */
  lemma {:induction false} GrowPush(tables: seq<string>, scans: seq<Plan>, p: Plan, given: seq<Condition>,
      placed: seq<Condition>, scantbl: seq<int>, joined: seq<string>,
      c: Condition) returns (d: Condition)
    requires ScansOf(tables, scans) && Grown(tables, scans, p, given, placed, scantbl, joined)
    requires Crossing(c) && c.lhs.tab in Tables(p) && c.rhs.col.tab in Tables(p)
    ensures Grown(tables, scans, PushConds(c, p).1, given + [c], placed + [d], scantbl, joined)
  {
    hide LinkedUp, Mentions, Turned, PushConds, JoinConds, Tables, Leaves, JoinsPlaced, LeftScans;
    PushOnce(c, p);
    var q := PushConds(c, p).1;
    d := if multiset(JoinConds(q)) == multiset(JoinConds(p) + [c]) then c else Flip(c);
    assert multiset(JoinConds(p) + [d]) == multiset(placed + [d]);
    TurnedMore(given, placed, c, d);
    LinkedUpMore(given, c);
    forall t ensures t in Tables(q) <==> Mentions(given + [c], t) {
      MentionsMore(given, c, t);
    }
    assert Meets(given, c);
  }

  /** What the binder guarantees of a query: distinct tables, and conditions on their columns. */
  ghost predicate Query(tables: seq<string>, conds: seq<Condition>)
  {
    && tables != [] && Distinct(tables) && "" !in tables
    && forall c :: c in conds ==> c.lhs.tab in tables && (c.rhs.Column? ==> c.rhs.col.tab in tables)
  }

  /** The conditions left for the joins compare columns of two different tables of the query. */
  lemma {:induction false} LeftOverCrosses(tables: seq<string>, conds: seq<Condition>)
    requires Query(tables, conds)
    ensures forall c :: c in LeftOver(tables, conds) <==> c in conds && Crossing(c)
  {
    LeftOverExactly(tables, conds);
    forall c | c in conds && Crossing(c) ensures forall t :: t in tables ==> !Taken(t, c) {
    }
    forall c | c in conds && !Crossing(c) ensures Taken(c.lhs.tab, c) && c.lhs.tab in tables {
    }
  }

  /** One more join condition. */
  method JoinNext(tables: seq<string>, scans: seq<Plan>, c: Condition, p: Plan, scantbl: seq<int>, joined: seq<string>,
                  ghost given: seq<Condition>, ghost placed: seq<Condition>)
    returns (p': Plan, scantbl': seq<int>, joined': seq<string>, ghost placed': seq<Condition>)
    requires ScansOf(tables, scans) && Distinct(tables) && Grown(tables, scans, p, given, placed, scantbl, joined) &&
        given != []
    requires Crossing(c) && c.lhs.tab in tables && c.rhs.col.tab in tables
    ensures Grown(tables, scans, p', given + [c], placed', scantbl', joined')
  {
    hide Grown, PushConds;
    GrownJoined(tables, scans, p, given, placed, scantbl, joined);
    scantbl', joined' := scantbl, joined;
    var i, j := 0, 0;
    var leftNew, rightNew := c.lhs.tab !in joined, c.rhs.col.tab !in joined;
    if leftNew {
      i, scantbl', joined' := PopScan(scantbl', c.lhs.tab, joined', scans, tables);
    }
    if c.rhs.col.tab !in joined' {
      j, scantbl', joined' := PopScan(scantbl', c.rhs.col.tab, joined', scans, tables);
    }
    if leftNew && rightNew {
      p' := Join(Join(scans[i], scans[j], [c]), p, []);
      placed' := placed + [c];
      GrowBoth(tables, scans, i, j, p, given, placed, scantbl, joined, c);
    } else if rightNew {
      p' := Join(scans[j], p, [Flip(c)]);
      placed' := placed + [Flip(c)];
      GrowOne(tables, scans, j, p, given, placed, scantbl, joined, c, Flip(c));
    } else if leftNew {
      p' := Join(scans[i], p, [c]);
      placed' := placed + [c];
      GrowOne(tables, scans, i, p, given, placed, scantbl, joined, c, c);
    } else {
      p' := PushConds(c, p).1;
      ghost var d := GrowPush(tables, scans, p, given, placed, scantbl, joined, c);
      placed' := placed + [d];
    }
  }

  lemma {:induction false} GrownJoined(tables: seq<string>, scans: seq<Plan>, p: Plan, given: seq<Condition>,
      placed: seq<Condition>, scantbl: seq<int>, joined: seq<string>)
    requires Grown(tables, scans, p, given, placed, scantbl, joined)
    ensures |scantbl| == |tables| && forall t :: t in tables ==> (t in joined <==> t in Tables(p))
  {
  }

  lemma {:induction false} GrowFirst(tables: seq<string>, scans: seq<Plan>, i: nat, j: nat, c: Condition,
      scantbl: seq<int>, joined: seq<string>)
    requires ScansOf(tables, scans) && Distinct(tables) && i < |tables| && j < |tables| && |scantbl| == |tables|
    requires Crossing(c) && c.lhs.tab == tables[i] && c.rhs.col.tab == tables[j]
    requires (forall k :: 0 <= k < |scantbl| ==> scantbl[k] == -1) && forall t :: t in tables ==> t !in joined
    ensures Grown(tables, scans, Join(scans[i], scans[j], [c]), [c], [c], scantbl[i := 1][j := 1],
        joined + [tables[i]] + [tables[j]])
  {
    var p := Join(scans[i], scans[j], [c]);
    DistinctAppend([tables[i]], [tables[j]]);
    assert JoinConds(p) == [c];
    forall t ensures t in Tables(p) <==> Mentions([c], t) {
      MentionsMore([], c, t);
      assert [] + [c] == [c];
    }
    forall k | 0 <= k < |tables| ensures scantbl[i := 1][j := 1][k] == if tables[k] in Tables(p) then 1 else -1 {
      assert tables[k] in Tables(p) <==> k == i || k == j;
    }
  }

  // ---------- the whole query ----------

  /** The plan of a query: every table once, its scan with its own conditions, every join condition once. */
  ghost predicate Planned(tables: seq<string>, conds: seq<Condition>, p: Plan)
  {
    && (exists placed :: Built(ScansFor(tables, conds), p, LeftOver(tables, conds), placed))
    && (forall t :: t in Tables(p) <==> t in tables)
    && (LeftScans(p) <==> LinkedUp(LeftOver(tables, conds)))
  }

  method MakeScans(tables: seq<string>, conds: seq<Condition>) returns (scans: seq<Plan>, rest: seq<Condition>)
    ensures scans == ScansFor(tables, conds) && rest == LeftOver(tables, conds) && ScansOf(tables, scans)
  {
    scans, rest := [], conds;
    assert tables[0..] == tables;
    for i := 0 to |tables|
      invariant |scans| == i && forall k :: 0 <= k < i ==> scans[k].Scan? && scans[k].tab == tables[k]
      invariant scans + ScansFor(tables[i..], rest) == ScansFor(tables, conds) &&
          LeftOver(tables[i..], rest) == LeftOver(tables, conds)
    {
      assert tables[i..][0] == tables[i] && tables[i..][1..] == tables[i + 1..];
      var solved;
      ghost var before := rest;
      solved, rest := PopConds(rest, tables[i]);
      assert scans + [Scan(tables[i], solved)] + ScansFor(tables[i + 1..], rest) == scans +
          ScansFor(tables[i..], before);
      scans := scans + [Scan(tables[i], solved)];
    }
  }

  method MakeOneRel(tables: seq<string>, conds: seq<Condition>) returns (p: Plan)
    requires Query(tables, conds)
    ensures Planned(tables, conds, p)
  {
    hide LeftOver, ScansFor, Grown, Built, Marked, LinkedUp;
    ghost var placed: seq<Condition>;
    var scans, cross := MakeScans(tables, conds);
    LeftOverCrosses(tables, conds);
    var scantbl := seq(|tables|, _ => -1);
    if |cross| >= 1 {
      var joined := seq(|tables|, _ => "");
      assert cross[0] in cross;
      var i, j;
      i, scantbl, joined := PopScan(scantbl, cross[0].lhs.tab, joined, scans, tables);
      j, scantbl, joined := PopScan(scantbl, cross[0].rhs.col.tab, joined, scans, tables);
      p := Join(scans[i], scans[j], [cross[0]]);
      placed := [cross[0]];
      GrowFirst(tables, scans, i, j, cross[0], seq(|tables|, _ => -1), seq(|tables|, _ => ""));
      assert cross[..1] == [cross[0]];
      for k := 1 to |cross|
        invariant Grown(tables, scans, p, cross[..k], placed, scantbl, joined)
      {
        assert cross[..k + 1] == cross[..k] + [cross[k]];
        p, scantbl, joined, placed := JoinNext(tables, scans, cross[k], p, scantbl, joined, cross[..k], placed);
      }
      assert cross[..|cross|] == cross;
      GrownBuilt(tables, scans, p, cross, placed, scantbl, joined);
    } else {
      p := scans[0];
      scantbl := scantbl[0 := 1];
      placed := [];
      StartWithScan(tables, scans);
      assert cross == [];
    }
    for i := 0 to |tables|
      invariant Built(scans, p, cross, placed) && Marked(tables, scantbl, p) && (LeftScans(p) <==> LinkedUp(cross))
      invariant forall k :: 0 <= k < i ==> tables[k] in Tables(p)
    {
      MarkedAt(tables, scantbl, p, i);
      if scantbl[i] == -1 {
        AddScan(tables, scans, i, p, cross, placed, scantbl, []);
        BuiltMore(scans, p, cross, placed, Join(scans[i], p, []));
        scantbl := scantbl[i := 1];
        p := Join(scans[i], p, []);
      }
    }
    MarkedIn(tables, scantbl, p);
  }

  lemma {:induction false} GrownBuilt(tables: seq<string>, scans: seq<Plan>, p: Plan, given: seq<Condition>,
      placed: seq<Condition>, scantbl: seq<int>, joined: seq<string>)
    requires Grown(tables, scans, p, given, placed, scantbl, joined)
    ensures Built(scans, p, given, placed) && Marked(tables, scantbl, p) && (LeftScans(p) <==> LinkedUp(given))
  {
  }

  lemma {:induction false} StartWithScan(tables: seq<string>, scans: seq<Plan>)
    requires ScansOf(tables, scans) && Distinct(tables) && tables != []
    ensures Built(scans, scans[0], [], []) && Marked(tables, seq(|tables|, _ => -1)[0 := 1], scans[0]) &&
        LeftScans(scans[0]) && LinkedUp([])
  {
  }

  lemma {:induction false} MarkedAt(tables: seq<string>, scantbl: seq<int>, p: Plan, i: nat)
    requires Marked(tables, scantbl, p) && i < |tables|
    ensures |scantbl| == |tables| && (scantbl[i] == -1 <==> tables[i] !in Tables(p))
  {
  }

  lemma {:induction false} MarkedIn(tables: seq<string>, scantbl: seq<int>, p: Plan)
    requires Marked(tables, scantbl, p)
    ensures forall t :: t in Tables(p) ==> t in tables
  {
  }

  lemma {:induction false} BuiltMore(scans: seq<Plan>, p: Plan, given: seq<Condition>, placed: seq<Condition>, q: Plan)
    requires Built(scans, p, given, placed) && JoinsPlaced(q) && Distinct(Tables(q)) && forall x :: x in Leaves(q) ==>
        x in scans
    requires multiset(JoinConds(q)) == multiset(placed + [])
    ensures Built(scans, q, given, placed)
  {
    assert placed + [] == placed;
  }

  // ---------- what the plan of a query means ----------

  lemma {:induction false} LeafParts(p: Plan)
    ensures forall x :: x in Leaves(p) ==> x.Scan? && x.tab in Tables(p)
    ensures forall t :: t in Tables(p) ==> exists x :: x in Leaves(p) && x.Scan? && x.tab == t
    ensures forall c :: c in ScanConds(p) <==> exists x :: x in Leaves(p) && x.Scan? && c in x.conds
    ensures ScansPlaced(p) <==> forall x :: x in Leaves(p) ==> ScansPlaced(x)
  {
    if p.Scan? {
      assert p in Leaves(p);
    } else {
      LeafParts(p.left);
      LeafParts(p.right);
      assert forall x :: x in Leaves(p) <==> x in Leaves(p.left) || x in Leaves(p.right);
    }
  }

  /** The leaves of the plan are the scans that the tables get. */
  lemma {:induction false} PlanLeaves(tables: seq<string>, conds: seq<Condition>, p: Plan)
    requires Query(tables, conds) && Planned(tables, conds, p)
    ensures forall x :: x in Leaves(p) <==> x in ScansFor(tables, conds)
  {
    hide LeftOver, ScansFor, LinkedUp, Turned;
    var scans := ScansFor(tables, conds);
    LeafParts(p);
    forall x | x in scans ensures x in Leaves(p) {
      var i :| 0 <= i < |scans| && scans[i] == x;
      ScansForTabs(tables, conds, i);
      assert tables[i] in tables && tables[i] in Tables(p);
      var y :| y in Leaves(p) && y.Scan? && y.tab == tables[i];
      var k :| 0 <= k < |scans| && scans[k] == y;
      ScansForTabs(tables, conds, k);
    }
  }

  lemma {:induction false} ScansForTabs(tables: seq<string>, conds: seq<Condition>, i: nat)
    requires i < |ScansFor(tables, conds)|
    ensures |ScansFor(tables, conds)| == |tables| && ScansFor(tables, conds)[i].Scan? &&
        ScansFor(tables, conds)[i].tab == tables[i]
  {
    ScansForLength(tables, conds);
    ScansForExactly(tables, conds, i);
  }

  /**
    The scans of a plan check the conditions with constants, each on its own table, and all conditions on two columns of
    one table.
   */
  lemma {:induction false} PlanScanConds(tables: seq<string>, conds: seq<Condition>, p: Plan)
    requires Query(tables, conds) && Planned(tables, conds, p)
    ensures forall x :: x in Leaves(p) ==> x.Scan? && forall c :: c in x.conds <==>
        c in conds && ScanTakes(tables, x.tab, c)
    ensures forall c :: c in ScanConds(p) <==> c in conds && !Crossing(c)
  {
    hide LeftOver, ScansFor, LinkedUp, Turned, Built, ScanConds;
    LeafParts(p);
    PlanLeaves(tables, conds, p);
    var scans := ScansFor(tables, conds);
    forall x | x in Leaves(p) ensures x.Scan? && forall c :: c in x.conds <==>
        c in conds && ScanTakes(tables, x.tab, c) {
      var i :| 0 <= i < |scans| && scans[i] == x;
      ScansForTabs(tables, conds, i);
      ScansForExactly(tables, conds, i);
      forall c ensures c in x.conds <==> c in conds && ScanTakes(tables, x.tab, c) {
        assert i > 0 ==> (Selfish(c) ==> Taken(tables[0], c));
        assert i > 0 ==> tables[0] != tables[i];
      }
    }
    forall c | c in conds && !Crossing(c) ensures c in ScanConds(p) {
      var t := if Selfish(c) then tables[0] else c.lhs.tab;
      assert t in Tables(p);
      var x :| x in Leaves(p) && x.Scan? && x.tab == t;
      assert c in x.conds;
    }
  }

  predicate ScanTakes(tables: seq<string>, t: string, c: Condition)
    requires tables != []
  {
    if Selfish(c) then t == tables[0] else c.rhs.Const? && c.lhs.tab == t
  }

  /**
    Every condition is where its columns are exactly when the ones on two columns of one table are on the first table.
   */
  lemma {:induction false} PlanPlacedIff(tables: seq<string>, conds: seq<Condition>, p: Plan)
    requires Query(tables, conds) && Planned(tables, conds, p)
    ensures Placed(p) <==> forall c :: c in conds && Selfish(c) ==> c.lhs.tab == tables[0]
  {
    hide LeftOver, ScansFor, LinkedUp, Turned, ScansPlaced, Leaves, Tables, JoinsPlaced, Local, ScanTakes;
    PlanScanConds(tables, conds, p);
    LeafParts(p);
    assert tables[0] in tables && tables[0] in Tables(p);
    var first :| first in Leaves(p) && first.Scan? && first.tab == tables[0];
    FirstTakes(tables, conds, first);
    LeafPlaced(first);
    if forall c :: c in conds && Selfish(c) ==> c.lhs.tab == tables[0] {
      forall x | x in Leaves(p) ensures ScansPlaced(x) {
        LeafPlaced(x);
        forall c | c in x.conds ensures Local(x.tab, c) {
          TakenLocal(tables, x.tab, c);
        }
      }
    }
  }

  lemma {:induction false} TakenLocal(tables: seq<string>, t: string, c: Condition)
    requires tables != [] && ScanTakes(tables, t, c) && (Selfish(c) ==> c.lhs.tab == tables[0])
    ensures Local(t, c)
  {
  }

  lemma {:induction false} FirstTakes(tables: seq<string>, conds: seq<Condition>, first: Plan)
    requires tables != [] && first.Scan? && first.tab == tables[0] && forall c :: c in first.conds <==>
        c in conds && ScanTakes(tables, first.tab, c)
    ensures forall c :: c in conds && Selfish(c) ==>
        c in first.conds && (Local(first.tab, c) <==> c.lhs.tab == tables[0])
  {
  }

  lemma {:induction false} LeafPlaced(x: Plan)
    requires x.Scan?
    ensures ScansPlaced(x) <==> forall c :: c in x.conds ==> Local(x.tab, c)
  {
  }

  lemma {:induction false} TurnedMeans(env: Env, given: seq<Condition>, placed: seq<Condition>, conds: seq<Condition>)
    requires Turned(given, placed) && multiset(conds) == multiset(placed)
    ensures SatAll(env, conds) <==> SatAll(env, given)
  {
    hide Sat;
    forall i | 0 <= i < |given| ensures Sat(env, given[i]) <==> Sat(env, placed[i]) {
      FlipSat(env, given[i]);
    }
    forall c ensures c in conds <==> c in placed {
      assert c in conds <==> c in multiset(conds);
      assert c in placed <==> c in multiset(placed);
    }
    assert SatAll(env, given) <==> forall i :: 0 <= i < |given| ==> Sat(env, given[i]);
    assert SatAll(env, placed) <==> forall i :: 0 <= i < |placed| ==> Sat(env, placed[i]);
  }

  /** The plan delivers, once each, the combinations of records that satisfy all the conditions of the query. */
  lemma {:induction false} PlanAnswersQuery(db: Db, tables: seq<string>, conds: seq<Condition>, p: Plan)
    requires Query(tables, conds) && Planned(tables, conds, p)
    requires forall c :: c in conds && Selfish(c) ==> c.lhs.tab == tables[0]
    ensures Distinct(Rows(db, p))
    ensures forall row :: row in Rows(db, p) <==> InRange(db, tables, row) && SatAll(EnvOf(db, row), conds)
    ensures AllStored(db, conds) ==> forall row :: row in Rows(db, p) <==> Answers(db, tables, conds, row)
    ensures LinkedUp(LeftOver(tables, conds)) ==> Emitted(db, p) == Rows(db, p)
  {
    hide Answers, AllStored;
    PlanPlacedIff(tables, conds, p);
    PlanDenotes(db, p);
    if LinkedUp(LeftOver(tables, conds)) {
      LeftScansEmitAll(db, p);
    }
    forall row ensures Means(db, p, row) <==> InRange(db, tables, row) && SatAll(EnvOf(db, row), conds) {
      PlanMeans(db, tables, conds, p, row);
    }
    if AllStored(db, conds) {
      forall row ensures row in Rows(db, p) <==> Answers(db, tables, conds, row) {
        AnswersIff(db, tables, conds, row);
      }
    }
  }

  lemma {:induction false} PlanMeans(db: Db, tables: seq<string>, conds: seq<Condition>, p: Plan, row: Row)
    requires Query(tables, conds) && Planned(tables, conds, p)
    ensures Means(db, p, row) <==> InRange(db, tables, row) && SatAll(EnvOf(db, row), conds)
  {
    hide LeftOver, ScansFor, LinkedUp, Turned, Sat, EnvOf, JoinConds, ScanConds;
    var env := EnvOf(db, row);
    var placed :| Built(ScansFor(tables, conds), p, LeftOver(tables, conds), placed);
    PlanScanConds(tables, conds, p);
    LeftOverCrosses(tables, conds);
    TurnedMeans(env, LeftOver(tables, conds), placed, JoinConds(p));
    assert forall t :: t in Tables(p) <==> t in tables;
    assert InRange(db, tables, row) <==> InRange(db, Tables(p), row);
    assert SatAll(env, conds) <==> SatAll(env, ScanConds(p)) && SatAll(env, LeftOver(tables, conds));
  }

  /**
    A condition on two columns of the second table is checked by the scan of the first one, which has neither column.
   */
  lemma {:induction false} SelfConditionMisplaced(p: Plan)
    requires var c := Condition(TabCol("b", "x"), EQ, Column(TabCol("b", "y")));
             Query(["a", "b"], [c]) && Planned(["a", "b"], [c], p)
    ensures !Placed(p)
    ensures exists x ::
      && x in Leaves(p) && x.Scan? && x.tab == "a"
      && Condition(TabCol("b", "x"), EQ, Column(TabCol("b", "y"))) in x.conds
  {
    var c := Condition(TabCol("b", "x"), EQ, Column(TabCol("b", "y")));
    PlanPlacedIff(["a", "b"], [c], p);
    PlanScanConds(["a", "b"], [c], p);
    LeafParts(p);
    assert "a" in Tables(p);
    assert c in [c] && Selfish(c);
    var x :| x in Leaves(p) && x.Scan? && x.tab == "a";
  }
}

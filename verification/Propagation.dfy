/**
  Propagation of equality constants over chains of equal columns.
 */
module Propagation {
  import opened Comparisons
  import opened Conditions

  /** The key under which a column is filed. */
  function MakeColKey(c: TabCol): string
  {
    c.tab + "." + c.col
  }

  /** Table names without a dot, as the lexer makes them, keep the keys of different columns apart. */
  lemma {:induction false} KeysIdentify(a: TabCol, b: TabCol)
    requires '.' !in a.tab && '.' !in b.tab
    ensures MakeColKey(a) == MakeColKey(b) <==> a == b
  {
    var x, y := MakeColKey(a), MakeColKey(b);
    if x == y {
      assert x[|a.tab|] == '.' && y[|b.tab|] == '.';
      assert forall i :: 0 <= i < |a.tab| ==> x[i] == a.tab[i] && a.tab[i] in a.tab;
      assert forall i :: 0 <= i < |b.tab| ==> y[i] == b.tab[i] && b.tab[i] in b.tab;
      assert |a.tab| == |b.tab|;
      assert a.tab == x[..|a.tab|] && b.tab == y[..|b.tab|];
      assert a.col == x[|a.tab| + 1..] && b.col == y[|b.tab| + 1..];
    }
  }

  // ---------- what is derivable ----------

  predicate Links(c: Condition, a: TabCol, b: TabCol)
  {
    c.op == EQ && c.rhs.Column? && ((c.lhs == a && c.rhs.col == b) || (c.lhs == b && c.rhs.col == a))
  }

  function Equals(a: TabCol, v: Value): Condition
  {
    Condition(a, EQ, Const(v))
  }

  ghost predicate Linked(conds: seq<Condition>, a: TabCol, b: TabCol)
  {
    exists c :: c in conds && Links(c, a, b)
  }

  /** A chain of columns, each equated to the next one. */
  ghost predicate Chain(conds: seq<Condition>, p: seq<TabCol>)
  {
    |p| > 0 && forall i :: 0 < i < |p| ==> Linked(conds, p[i - 1], p[i])
  }

  ghost predicate Connected(conds: seq<Condition>, a: TabCol, b: TabCol)
  {
    exists p :: Chain(conds, p) && p[0] == a && p[|p| - 1] == b
  }

  ghost predicate Derived(conds: seq<Condition>, c: Condition)
  {
    && c.op == EQ && c.rhs.Const?
    && exists b :: Connected(conds, c.lhs, b) && Equals(b, c.rhs.value) in conds
  }

  /** `out` is `conds` followed by the derivable conditions it lacks, once each. */
  ghost predicate Propagated(conds: seq<Condition>, out: seq<Condition>)
  {
    && |conds| <= |out| && out[..|conds|] == conds
    && (forall i, j :: 0 <= i < j < |out| && |conds| <= j ==> out[i] != out[j])
    && (forall c :: c in out <==> c in conds || Derived(conds, c))
  }

  lemma {:induction false} ConnectedSelf(conds: seq<Condition>, a: TabCol)
    ensures Connected(conds, a, a)
  {
    assert Chain(conds, [a]);
  }

  lemma {:induction false} ConnectedJoin(conds: seq<Condition>, a: TabCol, b: TabCol, c: TabCol)
    requires Connected(conds, a, b) && Connected(conds, b, c)
    ensures Connected(conds, a, c)
  {
    var p :| Chain(conds, p) && p[0] == a && p[|p| - 1] == b;
    var q :| Chain(conds, q) && q[0] == b && q[|q| - 1] == c;
    var r := p + q[1..];
    forall i | 0 < i < |r| ensures Linked(conds, r[i - 1], r[i]) {
      assert i < |p| ==> Linked(conds, p[i - 1], p[i]);
      assert i >= |p| ==> r[i] == q[i - |p| + 1] && r[i - 1] == q[i - |p|];
    }
    assert Chain(conds, r);
  }

  lemma {:induction false} ConnectedStep(conds: seq<Condition>, a: TabCol, b: TabCol, c: TabCol)
    requires Connected(conds, a, b) && Linked(conds, b, c)
    ensures Connected(conds, a, c)
  {
    assert Chain(conds, [b, c]);
    ConnectedJoin(conds, a, b, c);
  }

  lemma {:induction false} ConnectedBack(conds: seq<Condition>, a: TabCol, b: TabCol)
    requires Connected(conds, a, b)
    ensures Connected(conds, b, a)
  {
    var p :| Chain(conds, p) && p[0] == a && p[|p| - 1] == b;
    ChainBack(conds, p);
  }

  lemma {:induction false} ChainBack(conds: seq<Condition>, p: seq<TabCol>)
    requires Chain(conds, p)
    ensures Connected(conds, p[|p| - 1], p[0])
  {
    if |p| == 1 {
      ConnectedSelf(conds, p[0]);
    } else {
      ChainBack(conds, p[1..]);
      assert Linked(conds, p[0], p[1]);
      var c :| c in conds && Links(c, p[0], p[1]);
      assert Links(c, p[1], p[0]);
      ConnectedStep(conds, p[|p| - 1], p[1], p[0]);
    }
  }

  /** A set of columns that every equality keeps inside holds every column connected to one of its own. */
  lemma {:induction false} ChainStays(conds: seq<Condition>, p: seq<TabCol>, s: set<TabCol>)
    requires Chain(conds, p) && p[0] in s && forall a, b :: a in s && Linked(conds, a, b) ==> b in s
    ensures p[|p| - 1] in s
  {
    if |p| > 1 {
      assert Linked(conds, p[0], p[1]);
      ChainStays(conds, p[1..], s);
    }
  }

  // ---------- meaning ----------

  lemma {:induction false} ChainEqual(env: Env, conds: seq<Condition>, p: seq<TabCol>)
    requires SatAll(env, conds) && Chain(conds, p)
    ensures env(p[0]) == env(p[|p| - 1])
  {
    if |p| > 1 {
      assert Linked(conds, p[0], p[1]);
      var c :| c in conds && Links(c, p[0], p[1]);
      assert Sat(env, c);
      CompareCellLaws(env(c.lhs), env(c.rhs.col));
      ChainEqual(env, conds, p[1..]);
    }
  }

  lemma {:induction false} DerivedHolds(env: Env, conds: seq<Condition>, c: Condition)
    requires SatAll(env, conds) && Derived(conds, c)
    ensures Sat(env, c)
  {
    var b :| Connected(conds, c.lhs, b) && Equals(b, c.rhs.value) in conds;
    var p :| Chain(conds, p) && p[0] == c.lhs && p[|p| - 1] == b;
    ChainEqual(env, conds, p);
    assert Sat(env, Equals(b, c.rhs.value));
  }

  /** The extended list accepts the rows that the old one accepts. */
  lemma {:induction false} PropagationKeepsMeaning(env: Env, conds: seq<Condition>, out: seq<Condition>)
    requires Propagated(conds, out)
    ensures SatAll(env, out) <==> SatAll(env, conds)
  {
    if SatAll(env, conds) {
      forall c | c in out ensures Sat(env, c) {
        if c !in conds { DerivedHolds(env, conds, c); }
      }
    }
  }

  /** Every column that a chain equates to a column with a constant has that constant. */
  lemma {:induction false} PropagationComplete(conds: seq<Condition>, out: seq<Condition>, a: TabCol, b: TabCol,
      v: Value)
    requires Propagated(conds, out) && Connected(conds, a, b) && Equals(b, v) in conds
    ensures Equals(a, v) in out
  {
    assert Derived(conds, Equals(a, v));
  }

  lemma {:induction false} ChainInBoth(conds: seq<Condition>, out: seq<Condition>, p: seq<TabCol>)
    requires Propagated(conds, out) && Chain(out, p)
    ensures Chain(conds, p)
  {
    forall i | 0 < i < |p| ensures Linked(conds, p[i - 1], p[i]) {
      assert Linked(out, p[i - 1], p[i]);
      var c :| c in out && Links(c, p[i - 1], p[i]);
      assert c in conds;
    }
  }

  lemma {:induction false} DerivedOnce(conds: seq<Condition>, out: seq<Condition>, c: Condition)
    requires Propagated(conds, out) && Derived(out, c)
    ensures Derived(conds, c)
  {
    var b :| Connected(out, c.lhs, b) && Equals(b, c.rhs.value) in out;
    var p :| Chain(out, p) && p[0] == c.lhs && p[|p| - 1] == b;
    ChainInBoth(conds, out, p);
    assert Connected(conds, c.lhs, b);
    if Equals(b, c.rhs.value) !in conds {
      assert Derived(conds, Equals(b, c.rhs.value));
      var d :| Connected(conds, b, d) && Equals(d, c.rhs.value) in conds;
      ConnectedJoin(conds, c.lhs, b, d);
    }
  }

  /** A second pass adds nothing. */
  lemma {:induction false} PropagationIdempotent(conds: seq<Condition>, out: seq<Condition>, again: seq<Condition>)
    requires Propagated(conds, out) && Propagated(out, again)
    ensures again == out
  {
    forall c | Derived(out, c) ensures c in out {
      DerivedOnce(conds, out, c);
    }
    forall i | 0 <= i < |again| ensures again[i] in out && i < |out| {
      assert again[i] in again;
      var k :| 0 <= k < |out| && out[k] == again[i];
      assert again[k] == out[k];
    }
    assert again == [] || again[|again| - 1] in out;
    assert again == out;
  }

  // ---------- the pass ----------

  /** The columns, equalities and constants of the equality conditions. */
  ghost predicate Gathered(conds: seq<Condition>, cols: set<TabCol>, adjacency: map<TabCol, seq<TabCol>>,
      constants: map<TabCol, seq<Value>>)
  {
    && (forall a, b :: Adjacent(adjacency, a, b) <==> Linked(conds, a, b))
    && (forall a, v :: Constant(constants, a, v) <==> Equals(a, v) in conds)
    && (forall a, b :: Linked(conds, a, b) ==> a in cols)
  }

  predicate Adjacent(adjacency: map<TabCol, seq<TabCol>>, a: TabCol, b: TabCol)
  {
    a in adjacency && b in adjacency[a]
  }

  predicate Constant(constants: map<TabCol, seq<Value>>, a: TabCol, v: Value)
  {
    a in constants && v in constants[a]
  }

  /** `m[k].push_back(x)` on a map of vectors. */
  function Push<T>(m: map<TabCol, seq<T>>, k: TabCol, x: T): map<TabCol, seq<T>>
  {
    m[k := (if k in m then m[k] else []) + [x]]
  }

  method Gather(conds: seq<Condition>) returns (cols: set<TabCol>, adjacency: map<TabCol, seq<TabCol>>,
      constants: map<TabCol, seq<Value>>)
    ensures Gathered(conds, cols, adjacency, constants)
  {
    hide Gathered;
    cols, adjacency, constants := {}, map[], map[];
    GatheredNone();
    for i := 0 to |conds|
      invariant Gathered(conds[..i], cols, adjacency, constants)
    {
      var c := conds[i];
      assert conds[..i + 1] == conds[..i] + [c];
      GatheredOne(conds[..i], c, cols, adjacency, constants);
      if c.op != EQ { continue; }
      cols := cols + {c.lhs};
      if c.rhs.Const? {
        constants := Push(constants, c.lhs, c.rhs.value);
        continue;
      }
      cols := cols + {c.rhs.col};
      adjacency := Push(adjacency, c.lhs, c.rhs.col);
      adjacency := Push(adjacency, c.rhs.col, c.lhs);
    }
    assert conds[..|conds|] == conds;
  }

  lemma {:induction false} GatheredNone()
    ensures Gathered([], {}, map[], map[])
  {
  }

  lemma {:induction false} LinkedOne(conds: seq<Condition>, c: Condition, a: TabCol, b: TabCol)
    ensures Linked(conds + [c], a, b) <==> Linked(conds, a, b) || Links(c, a, b)
  {
    if Linked(conds, a, b) {
      var d :| d in conds && Links(d, a, b);
      assert d in conds + [c];
    }
    if Links(c, a, b) {
      assert c in conds + [c];
    }
  }

  lemma {:induction false} GatheredOne(conds: seq<Condition>, c: Condition, cols: set<TabCol>,
      adjacency: map<TabCol, seq<TabCol>>, constants: map<TabCol, seq<Value>>)
    requires Gathered(conds, cols, adjacency, constants)
    ensures c.op != EQ ==> Gathered(conds + [c], cols, adjacency, constants)
    ensures c.op == EQ && c.rhs.Const? ==>
        Gathered(conds + [c], cols + {c.lhs}, adjacency, Push(constants, c.lhs, c.rhs.value))
    ensures c.op == EQ && c.rhs.Column? ==>
      Gathered(conds + [c], cols + {c.lhs} + {c.rhs.col}, Push(Push(adjacency, c.lhs, c.rhs.col), c.rhs.col, c.lhs),
          constants)
  {
    hide Linked;
    forall a, b ensures Linked(conds + [c], a, b) <==> Linked(conds, a, b) || Links(c, a, b) {
      LinkedOne(conds, c, a, b);
    }
  }

  /** The columns reached from one column, and the constants found on them. */
  ghost predicate Reached(conds: seq<Condition>, start: TabCol, component: seq<TabCol>, values: seq<Value>)
  {
    && (forall a :: a in component <==> Connected(conds, start, a))
    && (forall v :: v in values <==> exists a :: a in component && Equals(a, v) in conds)
  }

  /** The state of the search: what is found hangs together, and what is expanded has its neighbours found. */
  ghost predicate Searching(conds: seq<Condition>, start: TabCol, before: set<TabCol>, visited: set<TabCol>,
      pending: seq<TabCol>, component: seq<TabCol>)
  {
    && (forall a :: a in visited <==> a in before || a in pending || a in component)
    && (forall a :: a in pending || a in component ==> Connected(conds, start, a) && a !in before)
    && (forall a :: a in pending ==> a !in component)
    && (forall i, j :: 0 <= i < j < |pending| ==> pending[i] != pending[j])
    && (forall a, b :: a in component && Linked(conds, a, b) ==> b in visited)
    && (start in pending || start in component)
  }

  /** All the columns connected to one that is in the set are in the set. */
  ghost predicate Closed(conds: seq<Condition>, s: set<TabCol>)
  {
    forall a, b :: a in s && Linked(conds, a, b) ==> b in s
  }

  lemma {:induction false} LinkedBack(conds: seq<Condition>, a: TabCol, b: TabCol)
    requires Linked(conds, a, b)
    ensures Linked(conds, b, a)
  {
    var c :| c in conds && Links(c, a, b);
    assert Links(c, b, a);
  }

  lemma {:induction false} SearchDone(conds: seq<Condition>, start: TabCol, before: set<TabCol>, visited: set<TabCol>,
      component: seq<TabCol>)
    requires Searching(conds, start, before, visited, [], component) && Closed(conds, before)
    ensures Closed(conds, visited)
    ensures forall a :: a in component <==> Connected(conds, start, a)
  {
    hide Linked, Connected;
    var s := set a | a in component;
    forall a, b | a in s && Linked(conds, a, b) ensures b in s {
      LinkedBack(conds, a, b);
    }
    forall a | Connected(conds, start, a) ensures a in component {
      ConnectedStays(conds, start, a, s);
    }
  }

  lemma {:induction false} ConnectedStays(conds: seq<Condition>, start: TabCol, a: TabCol, s: set<TabCol>)
    requires Connected(conds, start, a) && start in s && Closed(conds, s)
    ensures a in s
  {
    var p :| Chain(conds, p) && p[0] == start && p[|p| - 1] == a;
    ChainStays(conds, p, s);
  }

  /** Adds the constants of one column that are not yet in the list. */
  method AddConstants(values: seq<Value>, more: seq<Value>) returns (r: seq<Value>)
    ensures forall v :: v in r <==> v in values || v in more
  {
    r := values;
    for i := 0 to |more|
      invariant forall v :: v in r <==> v in values || v in more[..i]
    {
      if more[i] !in r {
        r := r + [more[i]];
      }
    }
  }

  /** Queues the neighbours that are not yet visited. */
  method Expand(ghost conds: seq<Condition>, ghost start: TabCol, ghost before: set<TabCol>,
                current: TabCol, neighbours: seq<TabCol>, visited0: set<TabCol>, pending0: seq<TabCol>,
                    ghost component: seq<TabCol>)
    returns (visited: set<TabCol>, pending: seq<TabCol>)
    requires forall b :: b in neighbours <==> Linked(conds, current, b)
    requires Searching(conds, start, before, visited0, [current] + pending0, component)
    ensures Searching(conds, start, before, visited, pending, component + [current])
    ensures visited0 <= visited && forall a :: a in visited ==> a in visited0 || a in neighbours
  {
    hide *;
    visited, pending := visited0, pending0;
    ExpandStart(conds, start, before, current, visited0, pending0, component);
    for i := 0 to |neighbours|
      invariant visited0 <= visited && forall a :: a in visited ==> a in visited0 || a in neighbours
      invariant Expanding(conds, start, before, current, visited, pending, component)
      invariant forall b :: b in neighbours[..i] ==> b in visited
    {
      var next := neighbours[i];
      if next !in visited {
        ExpandStep(conds, start, before, current, next, visited, pending, component);
        visited := visited + {next};
        pending := pending + [next];
      }
    }
    assert neighbours[..|neighbours|] == neighbours;
    ExpandDone(conds, start, before, current, visited, pending, component);
  }

  /** The state of the search while the neighbours of one column are looked at. */
  ghost predicate Expanding(conds: seq<Condition>, start: TabCol, before: set<TabCol>, current: TabCol,
      visited: set<TabCol>, pending: seq<TabCol>, component: seq<TabCol>)
  {
    && (forall a :: a in visited <==> a in before || a in pending || a in component || a == current)
    && (forall a :: a in pending ==> Connected(conds, start, a) && a !in before && a !in component && a != current)
    && (forall a :: a in component ==> Connected(conds, start, a) && a !in before)
    && (forall i, j :: 0 <= i < j < |pending| ==> pending[i] != pending[j])
    && (forall a, b :: a in component && Linked(conds, a, b) ==> b in visited)
    && (start == current || start in pending || start in component)
    && Connected(conds, start, current) && current !in before
  }

  lemma {:induction false} ExpandStart(conds: seq<Condition>, start: TabCol, before: set<TabCol>, current: TabCol,
      visited: set<TabCol>, pending: seq<TabCol>, component: seq<TabCol>)
    requires Searching(conds, start, before, visited, [current] + pending, component)
    ensures Expanding(conds, start, before, current, visited, pending, component)
  {
    hide Linked, Connected;
    var queue := [current] + pending;
    assert queue[0] == current && current in queue;
    assert forall i :: 0 <= i < |pending| ==> pending[i] == queue[i + 1];
  }

  lemma {:induction false} ExpandStep(conds: seq<Condition>, start: TabCol, before: set<TabCol>, current: TabCol,
      next: TabCol, visited: set<TabCol>, pending: seq<TabCol>, component: seq<TabCol>)
    requires Expanding(conds, start, before, current, visited, pending, component) && next !in visited &&
        Linked(conds, current, next)
    ensures Expanding(conds, start, before, current, visited + {next}, pending + [next], component)
  {
    hide Linked, Connected;
    ConnectedStep(conds, start, current, next);
  }

  lemma {:induction false} ExpandDone(conds: seq<Condition>, start: TabCol, before: set<TabCol>, current: TabCol,
      visited: set<TabCol>, pending: seq<TabCol>, component: seq<TabCol>)
    requires Expanding(conds, start, before, current, visited, pending, component)
    requires forall b :: Linked(conds, current, b) ==> b in visited
    ensures Searching(conds, start, before, visited, pending, component + [current])
  {
    hide Linked, Connected;
    assert (component + [current])[|component|] == current;
    assert forall a :: a in component + [current] <==> a in component || a == current;
  }

  /** The search from one column that has not been visited. */
  method Component(conds: seq<Condition>, start: TabCol, ghost cols: set<TabCol>, adjacency: map<TabCol, seq<TabCol>>,
      constants: map<TabCol, seq<Value>>, before: set<TabCol>)
    returns (visited: set<TabCol>, component: seq<TabCol>, values: seq<Value>)
    requires Gathered(conds, cols, adjacency, constants) && Closed(conds, before)
    requires start in cols && start !in before && before <= cols
    ensures Closed(conds, visited) && visited <= cols && before <= visited && start in visited
    ensures Reached(conds, start, component, values)
    ensures forall a :: a in visited ==> a in before || a in component
  {
    hide Linked, Connected;
    var pending := [start];
    visited, component, values := before + {start}, [], [];
    ConnectedSelf(conds, start);
    ghost var left := cols;
    while pending != []
      invariant Searching(conds, start, before, visited, pending, component)
      invariant visited <= cols && before <= visited && start in visited
      invariant forall v :: v in values <==> exists a :: a in component && Equals(a, v) in conds
      invariant forall a :: a in cols && a !in component ==> a in left
      invariant forall a :: a in component ==> a !in left
      decreases left
    {
      var current := pending[0];
      assert pending == [current] + pending[1..];
      assert current in pending;
      left := left - {current};
      values := Collect(conds, constants, component, current, values);
      var neighbours := if current in adjacency then adjacency[current] else [];
      forall b ensures b in neighbours <==> Linked(conds, current, b) {
        assert Adjacent(adjacency, current, b) <==> Linked(conds, current, b);
      }
      forall b | b in neighbours ensures b in cols {
        LinkedBack(conds, current, b);
      }
      visited, pending := Expand(conds, start, before, current, neighbours, visited, pending[1..], component);
      component := component + [current];
    }
    SearchDone(conds, start, before, visited, component);
  }

  method Collect(ghost conds: seq<Condition>, constants: map<TabCol, seq<Value>>, ghost component: seq<TabCol>,
      current: TabCol, values0: seq<Value>)
    returns (values: seq<Value>)
    requires forall a, v :: Constant(constants, a, v) <==> Equals(a, v) in conds
    requires forall v :: v in values0 <==> exists a :: a in component && Equals(a, v) in conds
    ensures forall v :: v in values <==> exists a :: a in component + [current] && Equals(a, v) in conds
  {
    values := values0;
    if current in constants {
      values := AddConstants(values, constants[current]);
    }
    forall v ensures v in values <==> exists a :: a in component + [current] && Equals(a, v) in conds {
      assert Constant(constants, current, v) <==> Equals(current, v) in conds;
      assert (exists a :: a in component + [current] && Equals(a, v) in conds) <==>
             (exists a :: a in component && Equals(a, v) in conds) || Equals(current, v) in conds by {
        if Equals(current, v) in conds {
          assert current in component + [current];
        }
        if a :| a in component && Equals(a, v) in conds {
          assert a in component + [current];
        }
      }
    }
  }

  /** What is added so far: derivable conditions that are missing, once each. */
  ghost predicate Additions(conds: seq<Condition>, added: seq<Condition>)
  {
    && (forall c :: c in added ==> Derived(conds, c) && c !in conds)
    && (forall i, j :: 0 <= i < j < |added| ==> added[i] != added[j])
  }

  /** Adds every constant of a component for every column of it, where it is missing. */
  method Emit(conds: seq<Condition>, ghost start: TabCol, component: seq<TabCol>, values: seq<Value>,
      added0: seq<Condition>) returns (added: seq<Condition>)
    requires Reached(conds, start, component, values) && Additions(conds, added0)
    ensures Additions(conds, added)
    ensures forall c :: c in added0 ==> c in added
    ensures forall a, v :: a in component && v in values ==> Equals(a, v) in conds || Equals(a, v) in added
  {
    hide Derived;
    added := added0;
    for i := 0 to |component|
      invariant Additions(conds, added)
      invariant forall c :: c in added0 ==> c in added
      invariant forall a, v :: a in component[..i] && v in values ==> Equals(a, v) in conds || Equals(a, v) in added
    {
      ghost var was := added;
      for j := 0 to |values|
        invariant Additions(conds, added)
        invariant forall c :: c in was ==> c in added
        invariant forall v :: v in values[..j] ==> Equals(component[i], v) in conds || Equals(component[i], v) in added
      {
        var c := Equals(component[i], values[j]);
        if c !in conds && c !in added {
          ReachedDerived(conds, start, component, values, component[i], values[j]);
          added := added + [c];
        }
      }
    }
  }

  lemma {:induction false} ReachedDerived(conds: seq<Condition>, start: TabCol, component: seq<TabCol>,
      values: seq<Value>, a: TabCol, v: Value)
    requires Reached(conds, start, component, values) && a in component && v in values
    ensures Derived(conds, Equals(a, v))
  {
    hide Connected;
    var b :| b in component && Equals(b, v) in conds;
    ConnectedBack(conds, start, a);
    ConnectedJoin(conds, a, start, b);
  }

  /** Everything derivable about the visited columns is there. */
  ghost predicate Covered(conds: seq<Condition>, visited: set<TabCol>, added: seq<Condition>)
  {
    forall c :: Derived(conds, c) && c.lhs in visited ==> c in conds || c in added
  }

  lemma {:induction false} CoverMore(conds: seq<Condition>, start: TabCol, before: set<TabCol>, visited: set<TabCol>,
      component: seq<TabCol>, values: seq<Value>,
      added0: seq<Condition>, added: seq<Condition>)
    requires Covered(conds, before, added0) && Reached(conds, start, component, values)
    requires forall a :: a in visited ==> a in before || a in component
    requires forall c :: c in added0 ==> c in added
    requires forall a, v :: a in component && v in values ==> Equals(a, v) in conds || Equals(a, v) in added
    ensures Covered(conds, visited, added)
  {
    hide Connected;
    forall c | Derived(conds, c) && c.lhs in visited ensures c in conds || c in added {
      if c.lhs in component {
        var b :| Connected(conds, c.lhs, b) && Equals(b, c.rhs.value) in conds;
        ConnectedJoin(conds, start, c.lhs, b);
        assert c == Equals(c.lhs, c.rhs.value);
      }
    }
  }

  /** The pass over a query: its conditions followed by the ones it adds. */
  method PropagateEqualityConstants(conds: seq<Condition>) returns (out: seq<Condition>)
    ensures Propagated(conds, out)
  {
    hide Gathered, Reached, Covered, Additions, Closed, Propagated;
    var cols, adjacency, constants := Gather(conds);
    var visited: set<TabCol> := {};
    var added: seq<Condition> := [];
    NothingYet(conds);
    var left := cols;
    while left != {}
      invariant left <= cols && visited <= cols && Closed(conds, visited) && forall a :: a in cols && a !in left ==>
          a in visited
      invariant Additions(conds, added) && Covered(conds, visited, added)
      decreases left
    {
      var start :| start in left;
      left := left - {start};
      if start in visited { continue; }
      ghost var before, added0 := visited, added;
      var component, values;
      visited, component, values := Component(conds, start, cols, adjacency, constants, visited);
      if values != [] {
        added := Emit(conds, start, component, values, added);
      }
      CoverMore(conds, start, before, visited, component, values, added0, added);
    }
    out := conds + added;
    AllCovered(conds, cols, adjacency, constants, visited, added);
  }

  lemma {:induction false} NothingYet(conds: seq<Condition>)
    ensures Closed(conds, {}) && Additions(conds, []) && Covered(conds, {}, [])
  {
  }

  lemma {:induction false} AllCovered(conds: seq<Condition>, cols: set<TabCol>, adjacency: map<TabCol, seq<TabCol>>,
      constants: map<TabCol, seq<Value>>,
      visited: set<TabCol>, added: seq<Condition>)
    requires Gathered(conds, cols, adjacency, constants) && cols <= visited
    requires Additions(conds, added) && Covered(conds, visited, added)
    ensures Propagated(conds, conds + added)
  {
    hide Linked;
    var out := conds + added;
    forall c ensures c in out <==> c in conds || Derived(conds, c) {
      if Derived(conds, c) {
        var b :| Connected(conds, c.lhs, b) && Equals(b, c.rhs.value) in conds;
        var p :| Chain(conds, p) && p[0] == c.lhs && p[|p| - 1] == b;
        assert |p| > 1 ==> Linked(conds, p[0], p[1]);
        assert c == Equals(c.lhs, c.rhs.value);
      }
    }
    forall i, j | 0 <= i < j < |out| && |conds| <= j ensures out[i] != out[j] {
      assert out[j] == added[j - |conds|] && out[j] in added;
      assert i < |conds| ==> out[i] in conds;
      assert i >= |conds| ==> out[i] == added[i - |conds|];
    }
  }
}

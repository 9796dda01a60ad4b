/**
  The nested-loop join: a cursor over two children, the left one restarted for every row of the right one.
 */
module NestedLoopJoin {

  /** A row of a join: for each of its tables the position of the record it is made of. */
  type Row = map<string, nat>

  datatype Pair = Pair(l: Row, r: Row)

  /** The accepted pairs of one right row. */
  function JoinOne(ls: seq<Row>, r: Row, accept: (Row, Row) -> bool): seq<Pair>
  {
    if ls == [] then [] else (if accept(ls[0], r) then [Pair(ls[0], r)] else []) + JoinOne(ls[1..], r, accept)
  }

  /** The accepted pairs, right row by right row. */
  function Joined(ls: seq<Row>, rs: seq<Row>, accept: (Row, Row) -> bool): seq<Pair>
  {
    if rs == [] then [] else JoinOne(ls, rs[0], accept) + Joined(ls, rs[1..], accept)
  }

  /** What a join emits whose left child stays at its end once it got there. */
  function FirstPass(ls: seq<Row>, rs: seq<Row>, accept: (Row, Row) -> bool): seq<Pair>
  {
    if rs == [] then [] else JoinOne(ls, rs[0], accept)
  }

  predicate Distinct<T(==)>(s: seq<T>)
  {
    forall i, j :: 0 <= i < j < |s| ==> s[i] != s[j]
  }

  lemma {:induction false} JoinOneExactly(ls: seq<Row>, r: Row, accept: (Row, Row) -> bool)
    ensures forall p: Pair :: p in JoinOne(ls, r, accept) <==> p.l in ls && p.r == r && accept(p.l, p.r)
  {
    if ls != [] {
      JoinOneExactly(ls[1..], r, accept);
      assert ls == [ls[0]] + ls[1..];
    }
  }

  /** A pair is emitted exactly when both rows are there and the filter accepts them. */
  lemma {:induction false} JoinedExactly(ls: seq<Row>, rs: seq<Row>, accept: (Row, Row) -> bool)
    ensures forall p: Pair :: p in Joined(ls, rs, accept) <==> p.l in ls && p.r in rs && accept(p.l, p.r)
  {
    if rs != [] {
      JoinOneExactly(ls, rs[0], accept);
      JoinedExactly(ls, rs[1..], accept);
      assert rs == [rs[0]] + rs[1..];
    }
  }

  lemma {:induction false} DistinctAppend<T>(a: seq<T>, b: seq<T>)
    requires Distinct(a) && Distinct(b) && forall x :: x in a ==> x !in b
    ensures Distinct(a + b)
  {
    forall i, j | 0 <= i < j < |a + b| ensures (a + b)[i] != (a + b)[j] {
      assert i < |a| <= j ==> a[i] in a && b[j - |a|] in b;
    }
  }

  lemma {:induction false} JoinOneOnce(ls: seq<Row>, r: Row, accept: (Row, Row) -> bool)
    requires Distinct(ls)
    ensures Distinct(JoinOne(ls, r, accept))
  {
    if ls != [] {
      JoinOneOnce(ls[1..], r, accept);
      JoinOneExactly(ls[1..], r, accept);
      DistinctAppend(if accept(ls[0], r) then [Pair(ls[0], r)] else [], JoinOne(ls[1..], r, accept));
    }
  }

  lemma {:induction false} JoinedNone(rs: seq<Row>, accept: (Row, Row) -> bool)
    ensures Joined([], rs, accept) == []
  {
    if rs != [] {
      JoinedNone(rs[1..], accept);
    }
  }

  lemma {:induction false} NotAgain<T>(s: seq<T>)
    requires Distinct(s) && s != []
    ensures s[0] !in s[1..]
  {
    assert forall i :: 0 <= i < |s| - 1 ==> s[1..][i] == s[i + 1];
  }

  /** Every pair is emitted once. */
  lemma {:induction false} JoinedOnce(ls: seq<Row>, rs: seq<Row>, accept: (Row, Row) -> bool)
    requires Distinct(ls) && Distinct(rs)
    ensures Distinct(Joined(ls, rs, accept))
  {
    if rs != [] {
      JoinOneOnce(ls, rs[0], accept);
      JoinedOnce(ls, rs[1..], accept);
      JoinOneExactly(ls, rs[0], accept);
      JoinedExactly(ls, rs[1..], accept);
      forall x: Pair | x in JoinOne(ls, rs[0], accept) ensures x !in Joined(ls, rs[1..], accept) {
        assert x.r == rs[0];
        NotAgain(rs);
      }
      DistinctAppend(JoinOne(ls, rs[0], accept), Joined(ls, rs[1..], accept));
    }
  }

  /** A left child that cannot restart loses pairs exactly when a right row after the first has a match. */
  lemma {:induction false} FirstPassLoses(ls: seq<Row>, rs: seq<Row>, accept: (Row, Row) -> bool)
    ensures FirstPass(ls, rs, accept) == Joined(ls, rs, accept)
       <==> forall l, i :: l in ls && 0 < i < |rs| ==> !accept(l, rs[i])
  {
    if rs != [] {
      var rest := rs[1..];
      JoinedExactly(ls, rest, accept);
      if Joined(ls, rest, accept) == [] {
        forall l, i | l in ls && 0 < i < |rs| ensures !accept(l, rs[i]) {
          assert rest[i - 1] in rest;
          assert Pair(l, rs[i]) !in Joined(ls, rest, accept);
        }
      } else {
        var p: Pair := Joined(ls, rest, accept)[0];
        assert p in Joined(ls, rest, accept) && p.r in rest;
        var k :| 0 <= k < |rest| && rest[k] == p.r;
        assert rs[k + 1] == p.r && accept(p.l, rs[k + 1]);
      }
    }
  }

  // ---------- the executor ----------

  /** What is still to be emitted from left position `li` and right position `ri` on. */
  function RestFrom(ls: seq<Row>, rs: seq<Row>, accept: (Row, Row) -> bool, restarts: bool, stuck: bool, li: nat,
      ri: nat): seq<Pair>
    requires li <= |ls| && ri <= |rs|
  {
    if ri == |rs| || stuck then []
    else JoinOne(ls[li..], rs[ri], accept) + if restarts then Joined(ls, rs[ri + 1..], accept) else []
  }

  lemma {:induction false} StepLeft(ls: seq<Row>, rs: seq<Row>, accept: (Row, Row) -> bool, restarts: bool, li: nat,
      ri: nat)
    requires li < |ls| && ri < |rs|
    ensures RestFrom(ls, rs, accept, restarts, false, li, ri) ==
      (if accept(ls[li], rs[ri]) then [Pair(ls[li], rs[ri])] else []) +
          RestFrom(ls, rs, accept, restarts, !restarts && li + 1 == |ls|, li + 1, ri)
  {
    hide Joined;
    assert ls[li..][0] == ls[li] && ls[li..][1..] == ls[li + 1..];
    var here, later := if accept(ls[li], rs[ri]) then [Pair(ls[li], rs[ri])] else [],
        JoinOne(ls[li + 1..], rs[ri], accept);
    var more := if restarts then Joined(ls, rs[ri + 1..], accept) else [];
    assert here + later + more == here + (later + more);
    assert li + 1 == |ls| ==> ls[li + 1..] == [];
  }

  lemma {:induction false} StepRight(ls: seq<Row>, rs: seq<Row>, accept: (Row, Row) -> bool, restarts: bool,
      stuck: bool,
      li: nat, ri: nat)
    requires li <= |ls| && ri < |rs| && (stuck || li == |ls|) && (restarts ==> !stuck) &&
        (!restarts && ls != [] ==> stuck)
    ensures RestFrom(ls, rs, accept, restarts, stuck, li, ri) == RestFrom(ls, rs, accept, restarts, stuck, 0, ri + 1)
  {
    assert ls[0..] == ls;
    assert rs[ri + 1..] != [] ==> rs[ri + 1..][0] == rs[ri + 1] && rs[ri + 1..][1..] == rs[ri + 2..];
  }

  lemma {:induction false} AtStart(ls: seq<Row>, rs: seq<Row>, accept: (Row, Row) -> bool, restarts: bool)
    ensures RestFrom(ls, rs, accept, restarts, false, 0, 0) == if restarts then Joined(ls, rs, accept)
        else FirstPass(ls, rs, accept)
    ensures ls == [] || rs == [] ==> RestFrom(ls, rs, accept, restarts, false, 0, 0) == []
  {
    assert ls[0..] == ls;
    if ls == [] && rs != [] {
      JoinedNone(rs[1..], accept);
    }
  }

  /** The rows a child delivers from its start, and whether `beginTuple` takes it back there. */
  class JoinExecutor {
    const ls: seq<Row>
    const rs: seq<Row>
    const accept: (Row, Row) -> bool
    const leftRestarts: bool

    var li: nat
    var ri: nat
    var leftStuck: bool
    var isEnd: bool

    ghost predicate Valid()
      reads this
    {
      && li <= |ls| && ri <= |rs| && (leftRestarts ==> !leftStuck)
      && (!leftRestarts && ls != [] && li == |ls| ==> leftStuck)
    }

    predicate LeftIsEnd()
      reads this
    {
      leftStuck || li >= |ls|
    }

    predicate RightIsEnd()
      reads this
    {
      ri >= |rs|
    }

    /** What is still to be emitted from the present position on. */
    ghost function Rest(): seq<Pair>
      requires Valid()
      reads this
    {
      RestFrom(ls, rs, accept, leftRestarts, leftStuck, li, ri)
    }

    /** What a run from the start emits. */
    ghost function Output(): seq<Pair>
    {
      if leftRestarts then Joined(ls, rs, accept) else FirstPass(ls, rs, accept)
    }

    constructor (ls: seq<Row>, rs: seq<Row>, accept: (Row, Row) -> bool, leftRestarts: bool)
      ensures Valid() && !isEnd && !leftStuck
      ensures this.ls == ls && this.rs == rs && this.accept == accept && this.leftRestarts == leftRestarts
    {
      this.ls, this.rs, this.accept, this.leftRestarts := ls, rs, accept, leftRestarts;
      li, ri, leftStuck, isEnd := 0, 0, false, false;
    }

    /** Moves the left child, and back to its start with the next right row when it is through. */
    method Advance()
      requires Valid() && !RightIsEnd()
      modifies this
      ensures Valid() && isEnd == old(isEnd) && (ri == old(ri) ==> li > old(li) && li < |ls|) &&
          old(ri) <= ri <= old(ri) + 1
      ensures Rest() == (if old(LeftIsEnd()) then old(Rest())
                         else if accept(ls[old(li)], rs[old(ri)]) then old(Rest())[1..] else old(Rest()))
      ensures !old(LeftIsEnd()) && accept(ls[old(li)], rs[old(ri)]) ==>
          old(Rest()) != [] && old(Rest())[0] == Pair(ls[old(li)], rs[old(ri)])
    {
      hide RestFrom;
      if !LeftIsEnd() {
        StepLeft(ls, rs, accept, leftRestarts, li, ri);
        li := li + 1;
        if li >= |ls| && !leftRestarts { leftStuck := true; }
      }
      if LeftIsEnd() {
        StepRight(ls, rs, accept, leftRestarts, leftStuck, li, ri);
        ri := ri + 1;
        li := 0;
      }
    }

    /** Goes on to the next accepted pair. */
    method FindRecord()
      requires Valid()
      modifies this
      ensures Valid() && Rest() == old(Rest())
      ensures RightIsEnd() ==> isEnd && Rest() == []
      ensures !RightIsEnd() ==> isEnd == old(isEnd) && !LeftIsEnd() && accept(ls[li], rs[ri])
    {
      while !RightIsEnd()
        invariant Valid() && isEnd == old(isEnd) && Rest() == old(Rest())
        decreases |rs| - ri, |ls| - li
      {
        if !LeftIsEnd() {
          if accept(ls[li], rs[ri]) { return; }
        }
        Advance();
      }
      isEnd := true;
    }

    /** `is_end_` is never cleared again: a join that has ended stays ended. */
    method BeginTuple()
      requires Valid()
      modifies this
      ensures Valid() && (old(isEnd) ==> isEnd)
      ensures !old(leftStuck) ==> Rest() == Output()
      ensures !isEnd ==> !RightIsEnd() && !LeftIsEnd() && accept(ls[li], rs[ri])
      ensures isEnd && !old(isEnd) && !old(leftStuck) ==> Rest() == []
    {
      hide RestFrom, Joined;
      li, ri := 0, 0;
      AtStart(ls, rs, accept, leftRestarts);
      if LeftIsEnd() || RightIsEnd() {
        isEnd := true;
        return;
      }
      FindRecord();
    }

    method NextTuple()
      requires Valid() && (!isEnd ==> !RightIsEnd() && !LeftIsEnd() && accept(ls[li], rs[ri]))
      modifies this
      ensures Valid() && (old(isEnd) ==> isEnd && Rest() == old(Rest()))
      ensures !old(isEnd) ==> old(Rest()) == [old(Pair(ls[li], rs[ri]))] + Rest()
      ensures !isEnd ==> !RightIsEnd() && !LeftIsEnd() && accept(ls[li], rs[ri])
      ensures isEnd && !old(isEnd) ==> Rest() == []
    {
      if isEnd { return; }
      Advance();
      FindRecord();
    }
  }

  lemma {:induction false} Onward(before: seq<Pair>, next: Pair, rest: seq<Pair>, later: seq<Pair>)
    requires rest == [next] + later
    ensures before + rest == before + [next] + later
  {
  }

  /** One run of a join from its start: what it emits, and that a second run would emit nothing. */
  method RunJoin(ls: seq<Row>, rs: seq<Row>, accept: (Row, Row) -> bool, leftRestarts: bool) returns (out: seq<Pair>,
      join: JoinExecutor)
    ensures out == if leftRestarts then Joined(ls, rs, accept) else FirstPass(ls, rs, accept)
    ensures fresh(join) && join.Valid() && join.isEnd
  {
    hide JoinExecutor.Rest, JoinExecutor.Valid, Joined, JoinOne;
    join := new JoinExecutor(ls, rs, accept, leftRestarts);
    join.BeginTuple();
    out := [];
    ghost var all := join.Rest();
    assert all == if leftRestarts then Joined(ls, rs, accept) else FirstPass(ls, rs, accept);
    hide JoinExecutor.Output, FirstPass;
    while !join.isEnd
      invariant fresh(join) && join.Valid() && all == out + if join.isEnd then [] else join.Rest()
      invariant !join.isEnd ==>
          !join.RightIsEnd() && !join.LeftIsEnd() && join.accept(join.ls[join.li], join.rs[join.ri])
      invariant join.ls == ls && join.rs == rs
      decreases if join.isEnd then 0 else |join.Rest()| + 1
    {
      ghost var before, rest := out, join.Rest();
      var next := Pair(join.ls[join.li], join.rs[join.ri]);
      out := out + [next];
      join.NextTuple();
      Onward(before, next, rest, join.Rest());
    }
  }
}

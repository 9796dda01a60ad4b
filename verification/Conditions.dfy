/**
  Conditions of a query: a column compared with a constant or with another column.
 */
module Conditions {
  import opened Comparisons

  datatype TabCol = TabCol(tab: string, col: string)

  /** A literal, with the type it was written in. */
  datatype Value = IntVal(int_val: int) | FloatVal(float_val: real) | StrVal(str_val: string)

  datatype Operand = Const(value: Value) | Column(col: TabCol)

  datatype Condition = Condition(lhs: TabCol, op: CompOp, rhs: Operand)

  /** What a column holds in a row. */
  datatype Cell = Num(n: real) | Str(s: string)

  type Env = TabCol -> Cell

  function Denote(v: Value): Cell
  {
    match v
    case IntVal(i) => Num(i as real)
    case FloatVal(f) => Num(f)
    case StrVal(s) => Str(s)
  }

  function CompareString(a: string, b: string): int
  {
    if a == [] then (if b == [] then 0 else -1)
    else if b == [] then 1
    else if a[0] != b[0] then (if a[0] < b[0] then -1 else 1)
    else CompareString(a[1..], b[1..])
  }

  /** Numbers by value, strings by character; a number and a string never come together in a checked query. */
  function CompareCell(a: Cell, b: Cell): int
  {
    match (a, b)
    case (Num(x), Num(y)) => if x < y then -1 else if x > y then 1 else 0
    case (Str(x), Str(y)) => CompareString(x, y)
    case (Num(_), Str(_)) => -1
    case (Str(_), Num(_)) => 1
  }

  function Eval(env: Env, x: Operand): Cell
  {
    match x
    case Const(v) => Denote(v)
    case Column(c) => env(c)
  }

  predicate Sat(env: Env, c: Condition)
  {
    CheckOp(CompareCell(env(c.lhs), Eval(env, c.rhs)), c.op)
  }

  predicate SatAll(env: Env, conds: seq<Condition>)
  {
    forall c :: c in conds ==> Sat(env, c)
  }

  lemma {:induction false} CompareStringLaws(a: string, b: string)
    ensures CompareString(a, b) == 0 <==> a == b
    ensures CompareString(b, a) == -CompareString(a, b)
  {
    if a != [] && b != [] && a[0] == b[0] {
      CompareStringLaws(a[1..], b[1..]);
      assert a == [a[0]] + a[1..] && b == [b[0]] + b[1..];
    }
  }

  lemma {:induction false} CompareCellLaws(a: Cell, b: Cell)
    ensures CompareCell(a, b) == 0 <==> a == b
    ensures CompareCell(b, a) == -CompareCell(a, b)
  {
    if a.Str? && b.Str? {
      CompareStringLaws(a.s, b.s);
    }
  }

  // ---------- what the comparison means ----------

  /** The strings agree up to position `k`, where the first one ends or has the smaller character. */
  predicate LessAt(a: string, b: string, k: nat)
  {
    k <= |a| && k < |b| && a[..k] == b[..k] && (k == |a| || a[k] < b[k])
  }

  lemma {:induction false} StringOrder(a: string, b: string)
    ensures CompareString(a, b) < 0 <==> exists k: nat :: LessAt(a, b, k)
  {
    if a != [] && b != [] && a[0] == b[0] {
      StringOrder(a[1..], b[1..]);
      if k: nat :| LessAt(a[1..], b[1..], k) {
        assert a[..k + 1] == [a[0]] + a[1..][..k] && b[..k + 1] == [b[0]] + b[1..][..k];
        assert LessAt(a, b, k + 1);
      }
      if k: nat :| LessAt(a, b, k) {
        assert a[1..][..k - 1] == a[..k][1..] && b[1..][..k - 1] == b[..k][1..];
        assert LessAt(a[1..], b[1..], k - 1);
      }
    } else if a == [] && b != [] {
      assert LessAt(a, b, 0);
    } else if a != [] && b != [] {
      assert LessAt(a, b, 0) <==> a[0] < b[0];
      assert forall k: nat :: k > 0 && LessAt(a, b, k) ==> a[..k][0] == b[..k][0];
    }
  }

  ghost predicate CellLess(a: Cell, b: Cell)
  {
    match (a, b)
    case (Num(x), Num(y)) => x < y
    case (Str(x), Str(y)) => exists k: nat :: LessAt(x, y, k)
    case (Num(_), Str(_)) => true
    case (Str(_), Num(_)) => false
  }

  ghost predicate Stands(a: Cell, op: CompOp, b: Cell)
  {
    match op
    case EQ => a == b
    case NE => a != b
    case LT => CellLess(a, b)
    case GT => CellLess(b, a)
    case LE => CellLess(a, b) || a == b
    case GE => CellLess(b, a) || a == b
  }

  /** Numbers are compared by value, strings by the first character that differs, a proper prefix being smaller. */
  lemma {:induction false} CompareCellStands(a: Cell, op: CompOp, b: Cell)
    ensures CompareCell(a, b) < 0 <==> CellLess(a, b)
    ensures CheckOp(CompareCell(a, b), op) <==> Stands(a, op, b)
  {
    CompareCellLaws(a, b);
    if a.Str? && b.Str? {
      StringOrder(a.s, b.s);
      StringOrder(b.s, a.s);
    }
  }

  // ---------- turning a condition around ----------

  function Flip(c: Condition): Condition
  {
    match c.rhs
    case Column(r) => Condition(r, SwapOp(c.op), Column(c.lhs))
    case Const(_) => c
  }

  /** A condition read from right to left says the same. */
  lemma {:induction false} FlipSat(env: Env, c: Condition)
    ensures Sat(env, Flip(c)) <==> Sat(env, c)
    ensures Flip(Flip(c)) == c
  {
    CompareCellLaws(env(c.lhs), Eval(env, c.rhs));
  }
}

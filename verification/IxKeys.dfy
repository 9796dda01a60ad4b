/**
  Composite index keys and their comparison, embedded in the integers in an order-preserving way.

  The tree modules use integer keys; `RankOrder` is what entitles them to.
 */
module IxKeys {
  import opened Config

  datatype Col = IntCol | StringCol(len: nat)

  datatype Value = IntVal(i: int) | StringVal(bytes: seq<int>)

  predicate HasType(v: Value, c: Col)
  {
    match c
    case IntCol => v.IntVal? && INT_MIN <= v.i <= INT_MAX
    case StringCol(len) => v.StringVal? && |v.bytes| == len && forall k :: 0 <= k < len ==> 0 <= v.bytes[k] < 256
  }

  predicate HasTypes(key: seq<Value>, cols: seq<Col>)
  {
    |key| == |cols| && forall k :: 0 <= k < |key| ==> HasType(key[k], cols[k])
  }

  // ---------- comparison ----------

  /** `memcmp` on byte strings of one length. */
  function MemCmp(a: seq<int>, b: seq<int>): int
    requires |a| == |b|
  {
    if a == [] then 0
    else if a[0] != b[0] then (if a[0] < b[0] then -1 else 1)
    else MemCmp(a[1..], b[1..])
  }

  function CompareCol(a: Value, b: Value, c: Col): int
    requires HasType(a, c) && HasType(b, c)
  {
    match c
    case IntCol => if a.i < b.i then -1 else if a.i > b.i then 1 else 0
    case StringCol(_) => MemCmp(a.bytes, b.bytes)
  }

  /** Lexicographic comparison, column by column. */
  method IxCompare(a: seq<Value>, b: seq<Value>, cols: seq<Col>) returns (res: int)
    requires HasTypes(a, cols) && HasTypes(b, cols)
    ensures res < 0 <==> Rank(a, cols) < Rank(b, cols)
    ensures res == 0 <==> Rank(a, cols) == Rank(b, cols)
    ensures res == 0 <==> a == b
  {
    var i := 0;
    RankBound(a, cols);
    while i < |cols|
      invariant 0 <= i <= |cols| && a[..i] == b[..i]
    {
      res := CompareCol(a[i], b[i], cols[i]);
      ColOrder(a[i], b[i], cols[i]);
      if res != 0 {
        FirstDifference(a, b, cols, i);
        return;
      }
      i := i + 1;
    }
    assert a == a[..i] && b == b[..i];
    res := 0;
  }

  // ---------- ranks ----------

  function BytesRank(s: seq<int>): int
  {
    if s == [] then 0 else s[0] * Pow256(|s| - 1) + BytesRank(s[1..])
  }

  function ColWidth(c: Col): (r: int)
    ensures r >= 1
  {
    match c
    case IntCol => 0x1_0000_0000
    case StringCol(len) => Pow256(len)
  }

  function ColRank(v: Value, c: Col): int
    requires HasType(v, c)
  {
    match c
    case IntCol => v.i - INT_MIN
    case StringCol(_) => BytesRank(v.bytes)
  }

  function Width(cols: seq<Col>): (r: int)
    ensures r >= 1
  {
    if cols == [] then 1
    else
      Positive(ColWidth(cols[0]), Width(cols[1..]));
      ColWidth(cols[0]) * Width(cols[1..])
  }

  lemma {:induction false} Positive(a: int, b: int)
    requires a >= 1 && b >= 1
    ensures a * b >= 1
  {
  }

  /** The position of a key among all keys of its type. */
  function Rank(key: seq<Value>, cols: seq<Col>): int
    requires HasTypes(key, cols)
  {
    if key == [] then 0
    else ColRank(key[0], cols[0]) * Width(cols[1..]) + Rank(key[1..], cols[1..])
  }

  lemma {:induction false} Below(x: int, y: int, u: int, v: int, w: int)
    requires 0 <= u < w && 0 <= v && x < y
    ensures x * w + u < y * w + v
  {
    assert (y - x - 1) * w >= 0;
    assert y * w == x * w + w + (y - x - 1) * w;
  }

  /** Two-digit numbers compare like their digits. */
  lemma {:induction false} Digits(x: int, y: int, u: int, v: int, w: int)
    requires 0 <= u < w && 0 <= v < w
    ensures x < y ==> x * w + u < y * w + v
    ensures x > y ==> x * w + u > y * w + v
    ensures x == y ==> (x * w + u < y * w + v <==> u < v) && (x * w + u == y * w + v <==> u == v)
  {
    if x < y {
      Below(x, y, u, v, w);
    } else if x > y {
      Below(y, x, v, u, w);
    }
  }

  lemma {:induction false} DigitBound(x: int, n: int, u: int, w: int)
    requires 0 <= x < n && 0 <= u < w
    ensures 0 <= x * w + u < n * w
  {
    assert (x + 1) * w <= n * w;
    assert 0 <= x * w;
  }

  lemma {:induction false} BytesBound(s: seq<int>)
    requires forall k :: 0 <= k < |s| ==> 0 <= s[k] < 256
    ensures 0 <= BytesRank(s) < Pow256(|s|)
  {
    if s != [] {
      BytesBound(s[1..]);
      DigitBound(s[0], 256, BytesRank(s[1..]), Pow256(|s| - 1));
    }
  }

  lemma {:induction false} BytesOrder(a: seq<int>, b: seq<int>)
    requires |a| == |b|
    requires forall k :: 0 <= k < |a| ==> 0 <= a[k] < 256 && 0 <= b[k] < 256
    ensures MemCmp(a, b) < 0 <==> BytesRank(a) < BytesRank(b)
    ensures MemCmp(a, b) == 0 <==> BytesRank(a) == BytesRank(b)
    ensures MemCmp(a, b) == 0 <==> a == b
  {
    if a != [] {
      BytesOrder(a[1..], b[1..]);
      BytesBound(a[1..]);
      BytesBound(b[1..]);
      Digits(a[0], b[0], BytesRank(a[1..]), BytesRank(b[1..]), Pow256(|a| - 1));
      assert a == [a[0]] + a[1..] && b == [b[0]] + b[1..];
    }
  }

  lemma {:induction false} ColOrder(a: Value, b: Value, c: Col)
    requires HasType(a, c) && HasType(b, c)
    ensures CompareCol(a, b, c) < 0 <==> ColRank(a, c) < ColRank(b, c)
    ensures CompareCol(a, b, c) == 0 <==> a == b
    ensures 0 <= ColRank(a, c) < ColWidth(c)
    ensures ColRank(a, c) == ColRank(b, c) <==> a == b
  {
    if c.StringCol? {
      BytesOrder(a.bytes, b.bytes);
      BytesBound(a.bytes);
    }
  }

  lemma {:induction false} RankBound(key: seq<Value>, cols: seq<Col>)
    requires HasTypes(key, cols)
    ensures 0 <= Rank(key, cols) < Width(cols)
  {
    if key != [] {
      RankBound(key[1..], cols[1..]);
      ColOrder(key[0], key[0], cols[0]);
      DigitBound(ColRank(key[0], cols[0]), ColWidth(cols[0]), Rank(key[1..], cols[1..]), Width(cols[1..]));
    }
  }

  /** The first differing column decides. */
  lemma {:induction false} FirstDifference(a: seq<Value>, b: seq<Value>, cols: seq<Col>, i: nat)
    requires HasTypes(a, cols) && HasTypes(b, cols)
    requires i < |cols| && a[..i] == b[..i] && a[i] != b[i]
    ensures Rank(a, cols) < Rank(b, cols) <==> CompareCol(a[i], b[i], cols[i]) < 0
    ensures Rank(a, cols) != Rank(b, cols)
  {
    RankBound(a[1..], cols[1..]);
    RankBound(b[1..], cols[1..]);
    ColOrder(a[0], b[0], cols[0]);
    ColOrder(b[0], a[0], cols[0]);
    Digits(ColRank(a[0], cols[0]), ColRank(b[0], cols[0]), Rank(a[1..], cols[1..]), Rank(b[1..], cols[1..]),
        Width(cols[1..]));
    if i > 0 {
      assert a[0] == a[..i][0] == b[..i][0] == b[0];
      assert a[1..][..i - 1] == a[..i][1..] == b[..i][1..] == b[1..][..i - 1];
      FirstDifference(a[1..], b[1..], cols[1..], i - 1);
    }
  }

  /** Ranks order keys lexicographically and tell different keys apart. */
  lemma {:induction false} RankOrder(a: seq<Value>, b: seq<Value>, cols: seq<Col>)
    requires HasTypes(a, cols) && HasTypes(b, cols)
    ensures Rank(a, cols) == Rank(b, cols) <==> a == b
    ensures Rank(a, cols) < Rank(b, cols) <==>
              exists i :: 0 <= i < |cols| && a[..i] == b[..i] && CompareCol(a[i], b[i], cols[i]) < 0
  {
    if a != b {
      var i := 0;
      assert a == a[..|cols|] && b == b[..|cols|];
      while a[i] == b[i]
        invariant 0 <= i < |cols| && a[..i] == b[..i]
        decreases |cols| - i
      {
        assert a[..i] + [a[i]] == a[..i + 1] && b[..i] + [b[i]] == b[..i + 1];
        i := i + 1;
      }
      FirstDifference(a, b, cols, i);
    }
    forall i | 0 <= i < |cols| && a[..i] == b[..i] &&
        CompareCol(a[i], b[i], cols[i]) < 0 ensures Rank(a, cols) < Rank(b, cols) {
      ColOrder(a[i], b[i], cols[i]);
      FirstDifference(a, b, cols, i);
    }
  }
}

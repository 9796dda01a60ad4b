/**
  The slot bitmap of a record page: bit 0 is the highest bit of byte 0.
 */
module RmBitmap {

  type Bytes = seq<bv8>

  function BitOf(k: nat): bv8
    requires k < 8
  {
    match k
    case 0 => 0x80 case 1 => 0x40 case 2 => 0x20 case 3 => 0x10
    case 4 => 0x08 case 5 => 0x04 case 6 => 0x02 case _ => 0x01
  }

  predicate TestByte(b: bv8, k: nat)
    requires k < 8
  {
    b & BitOf(k) != 0
  }

  function SetByte(b: bv8, k: nat): bv8
    requires k < 8
  {
    b | BitOf(k)
  }

  function ResetByte(b: bv8, k: nat): bv8
    requires k < 8
  {
    b & !BitOf(k)
  }

  predicate Fits(bm: Bytes, pos: nat)
  {
    pos / 8 < |bm|
  }

  predicate IsSet(bm: Bytes, pos: nat)
    requires Fits(bm, pos)
  {
    TestByte(bm[pos / 8], pos % 8)
  }

  function SetBit(bm: Bytes, pos: nat): (r: Bytes)
    requires Fits(bm, pos)
    ensures |r| == |bm|
  {
    bm[pos / 8 := SetByte(bm[pos / 8], pos % 8)]
  }

  function ResetBit(bm: Bytes, pos: nat): (r: Bytes)
    requires Fits(bm, pos)
    ensures |r| == |bm|
  {
    bm[pos / 8 := ResetByte(bm[pos / 8], pos % 8)]
  }

  lemma {:induction false} ByteBits(b: bv8, k: nat, m: nat)
    requires k < 8 && m < 8
    ensures TestByte(SetByte(b, k), m) <==> k == m || TestByte(b, m)
    ensures TestByte(ResetByte(b, k), m) <==> k != m && TestByte(b, m)
  {
    Masks(b, BitOf(k), BitOf(m));
    assert BitOf(k) & BitOf(m) == if k == m then BitOf(k) else 0;
    assert BitOf(k) != 0;
  }

  /** The bits of a byte are numbered from the highest one down. */
  lemma {:induction false} HighestFirst(k: nat)
    requires k < 8
    ensures BitOf(0) == 0x80 && (k > 0 ==> BitOf(k) == BitOf(k - 1) >> 1)
    ensures forall bm: Bytes, i: nat :: i < |bm| ==> (IsSet(bm, 8 * i) <==> bm[i] >= 0x80)
  {
    match k
    case 0 =>
    case 1 =>
    case 2 =>
    case 3 =>
    case 4 =>
    case 5 =>
    case 6 =>
    case 7 =>
  }

  lemma {:induction false} Masks(b: bv8, x: bv8, y: bv8)
    ensures x & y == 0 ==> (b | x) & y == b & y && (b & !x) & y == b & y
    ensures (b | x) & x == x && (b & !x) & x == 0
  {
  }

  lemma {:induction false} SamePosition(p: nat, q: nat)
    ensures p == q <==> p / 8 == q / 8 && p % 8 == q % 8
  {
    assert p == 8 * (p / 8) + p % 8 && q == 8 * (q / 8) + q % 8;
  }

  /** Setting and resetting a bit changes that bit and no other. */
  lemma {:induction false} BitChange(bm: Bytes, pos: nat, q: nat)
    requires Fits(bm, pos) && Fits(bm, q)
    ensures IsSet(SetBit(bm, pos), q) <==> q == pos || IsSet(bm, q)
    ensures IsSet(ResetBit(bm, pos), q) <==> q != pos && IsSet(bm, q)
  {
    hide TestByte, SetByte, ResetByte;
    SamePosition(pos, q);
    ByteBits(bm[pos / 8], pos % 8, q % 8);
  }

  /** The first position after `curr` and below `maxN` whose bit is `bit`, or `maxN`. */
  method NextBit(bit: bool, bm: Bytes, maxN: nat, curr: int) returns (r: nat)
    requires -1 <= curr && curr < maxN && maxN <= 8 * |bm|
    ensures curr < r <= maxN
    ensures r < maxN ==> IsSet(bm, r) == bit
    ensures forall i :: curr < i < r ==> IsSet(bm, i) != bit
  {
    r := curr + 1;
    while r < maxN && IsSet(bm, r) != bit
      invariant curr < r <= maxN
      invariant forall i :: curr < i < r ==> IsSet(bm, i) != bit
    {
      r := r + 1;
    }
  }

  // ---------- counting ----------

  function Count(bm: Bytes, n: nat): (c: nat)
    requires n <= 8 * |bm|
    ensures c <= n
  {
    if n == 0 then 0 else Count(bm, n - 1) + if IsSet(bm, n - 1) then 1 else 0
  }

  lemma {:induction false} CountSet(bm: Bytes, n: nat, pos: nat)
    requires n <= 8 * |bm| && pos < 8 * |bm| && !IsSet(bm, pos)
    ensures Count(SetBit(bm, pos), n) == Count(bm, n) + if pos < n then 1 else 0
  {
    hide IsSet, SetBit;
    if n > 0 {
      CountSet(bm, n - 1, pos);
      BitChange(bm, pos, n - 1);
    }
  }

  lemma {:induction false} CountReset(bm: Bytes, n: nat, pos: nat)
    requires n <= 8 * |bm| && pos < 8 * |bm| && IsSet(bm, pos)
    ensures Count(ResetBit(bm, pos), n) == Count(bm, n) - if pos < n then 1 else 0
  {
    hide IsSet, ResetBit;
    if n > 0 {
      CountReset(bm, n - 1, pos);
      BitChange(bm, pos, n - 1);
    }
  }

  /** A bitmap that is not full has a clear bit, and conversely. */
  lemma {:induction false} CountFull(bm: Bytes, n: nat)
    requires n <= 8 * |bm|
    ensures Count(bm, n) == n <==> forall i :: 0 <= i < n ==> IsSet(bm, i)
  {
    hide IsSet;
    if n > 0 {
      CountFull(bm, n - 1);
    }
  }

  lemma {:induction false} CountZero(bm: Bytes, n: nat)
    requires n <= 8 * |bm|
    ensures Count(bm, n) == 0 <==> forall i :: 0 <= i < n ==> !IsSet(bm, i)
  {
    hide IsSet;
    if n > 0 {
      CountZero(bm, n - 1);
    }
  }

  lemma {:induction false} ZeroByte(k: nat)
    requires k < 8
    ensures !TestByte(0, k)
  {
    Masks(0, 0, BitOf(k));
  }

  lemma {:induction false} ZeroBits(n: nat, pos: nat)
    requires pos < 8 * n
    ensures !IsSet(seq(n, _ => 0 as bv8), pos)
  {
    ZeroByte(pos % 8);
  }
}

/**
  The bytes of log records: writing a record at a moving offset, and reading it back.
 */
module LogRecords {
  import opened Config
  import opened Options
  import opened IxLevels

  type Octet = b: int | 0 <= b < 256
  type Octets = seq<Octet>

  const LOG_HEADER_SIZE := 20
  const OFFSET_LSN := 4
  const OFFSET_LOG_TOT_LEN := 8
  const OFFSET_LOG_TID := 12
  const OFFSET_PREV_LSN := 16
  const OFFSET_LOG_DATA := 20

  // ---------- numbers ----------

  /** `w` bytes, the lowest one first. */
  function ToBytes(u: nat, w: nat): (r: Octets)
    ensures |r| == w
  {
    if w == 0 then [] else [u % 256] + ToBytes(u / 256, w - 1)
  }

  function FromBytes(s: Octets): nat
  {
    if s == [] then 0 else s[0] + 256 * FromBytes(s[1..])
  }

  lemma {:induction false} BytesRoundTrip(u: nat, w: nat)
    requires u < Pow256(w)
    ensures FromBytes(ToBytes(u, w)) == u
  {
    if w > 0 {
      BytesRoundTrip(u / 256, w - 1);
      assert ToBytes(u, w)[1..] == ToBytes(u / 256, w - 1);
    }
  }

  const TWO31 := 0x8000_0000
  const TWO32 := 0x1_0000_0000

  lemma {:induction false} Widths()
    ensures Pow256(4) == TWO32 && Pow256(8) == TWO32 * TWO32
  {
    assert Pow256(1) == 256 && Pow256(2) == 65536 && Pow256(3) == 16777216;
    assert Pow256(5) == 256 * TWO32 && Pow256(6) == 65536 * TWO32 && Pow256(7) == 16777216 * TWO32;
  }

  predicate Int32(x: int)
  {
    -TWO31 <= x < TWO31
  }

  /** An `int`: two's complement in four bytes. */
  function OfInt(x: int): (r: Octets)
    ensures |r| == 4
  {
    ToBytes(x % TWO32, 4)
  }

  function ToInt(s: Octets): int
  {
    var u := FromBytes(s);
    if u >= TWO31 then u - TWO32 else u
  }

  lemma {:induction false} IntRoundTrip(x: int)
    requires Int32(x)
    ensures ToInt(OfInt(x)) == x
  {
    Widths();
    BytesRoundTrip(x % TWO32, 4);
  }

  // ---------- records ----------

  datatype Body =
    | Begin
    | Commit
    | Abort
    | Checkpoint
    | Insert(value: Octets, rid: Rid, table: Octets)
    | Delete(value: Octets, rid: Rid, table: Octets, firstFree: int, numPages: int)
    | Update(oldValue: Octets, newValue: Octets, rid: Rid, table: Octets, firstFree: int, numPages: int)

  datatype LogRecord = LogRecord(lsn: int, tid: int, prevLsn: int, body: Body)

  function LogType(b: Body): int
  {
    match b
    case Update(_, _, _, _, _, _) => 0
    case Insert(_, _, _) => 1
    case Delete(_, _, _, _, _) => 2
    case Begin => 3
    case Commit => 4
    case Abort => 5
    case Checkpoint => 6
  }

  /** `log_tot_len_` as the constructors of the records add it up. */
  function TotLen(b: Body): nat
  {
    match b
    case Insert(v, _, t) => LOG_HEADER_SIZE + 4 + |v| + 8 + 8 + |t|
    case Delete(v, _, t, _, _) => LOG_HEADER_SIZE + 4 + |v| + 8 + 8 + |t| + 4 + 4
    case Update(o, n, _, t, _, _) => LOG_HEADER_SIZE + 4 * 2 + |o| + |n| + 8 + 8 + |t| + 4 + 4
    case _ => LOG_HEADER_SIZE
  }

  predicate RidOk(r: Rid)
  {
    Int32(r.page_no) && Int32(r.slot_no)
  }

  /** The fields are values of their C types. */
  predicate BodyOk(b: Body)
  {
    && TotLen(b) < TWO31
    && match b
       case Insert(_, r, _) => RidOk(r)
       case Delete(_, r, _, f, n) => RidOk(r) && Int32(f) && Int32(n)
       case Update(_, _, r, _, f, n) => RidOk(r) && Int32(f) && Int32(n)
       case _ => true
  }

  predicate RecordOk(r: LogRecord)
  {
    Int32(r.lsn) && Int32(r.tid) && Int32(r.prevLsn) && BodyOk(r.body)
  }

  // ---------- writing ----------

  function RidBytes(r: Rid): (s: Octets)
    ensures |s| == 8
  {
    OfInt(r.page_no) + OfInt(r.slot_no)
  }

  function Header(r: LogRecord): (s: Octets)
    ensures |s| == LOG_HEADER_SIZE
  {
    OfInt(LogType(r.body)) + (OfInt(r.lsn) + (ToBytes(TotLen(r.body), 4) + (OfInt(r.tid) + OfInt(r.prevLsn))))
  }

  function SizedBytes(v: Octets): (s: Octets)
    ensures |s| == 4 + |v|
  {
    OfInt(|v|) + v
  }

  function RidTableBytes(r: Rid, t: Octets): (s: Octets)
    ensures |s| == 16 + |t|
  {
    RidBytes(r) + (ToBytes(|t|, 8) + t)
  }

  function CountsBytes(f: int, n: int): (s: Octets)
    ensures |s| == 8
  {
    OfInt(f) + OfInt(n)
  }

  function Payload(b: Body): Octets
  {
    match b
    case Insert(v, r, t) => SizedBytes(v) + RidTableBytes(r, t)
    case Delete(v, r, t, f, n) => SizedBytes(v) + (RidTableBytes(r, t) + CountsBytes(f, n))
    case Update(o, m, r, t, f, n) => SizedBytes(o) + (SizedBytes(m) + (RidTableBytes(r, t) + CountsBytes(f, n)))
    case _ => []
  }

  function Serialized(r: LogRecord): (s: Octets)
    ensures |s| == TotLen(r.body)
  {
    Header(r) + Payload(r.body)
  }

  /** `memcpy(dest + offset, src, size)` followed by `offset += size`. */
  method Put(dest: array<Octet>, offset: nat, src: Octets) returns (end: nat)
    requires offset + |src| <= dest.Length
    modifies dest
    ensures end == offset + |src| && dest[..end] == old(dest[..offset]) + src
  {
    for i := 0 to |src|
      invariant dest[..offset + i] == old(dest[..offset]) + src[..i]
    {
      dest[offset + i] := src[i];
    }
    end := offset + |src|;
  }

  method PutHeader(r: LogRecord, dest: array<Octet>, at: nat) returns (end: nat)
    requires at + LOG_HEADER_SIZE <= dest.Length
    modifies dest
    ensures end == at + LOG_HEADER_SIZE && dest[..end] == old(dest[..at]) + Header(r)
  {
    hide OfInt, ToBytes;
    end := Put(dest, at, OfInt(LogType(r.body)));
    end := Put(dest, end, OfInt(r.lsn));
    end := Put(dest, end, ToBytes(TotLen(r.body), 4));
    end := Put(dest, end, OfInt(r.tid));
    end := Put(dest, end, OfInt(r.prevLsn));
  }

  method PutValue(dest: array<Octet>, at: nat, v: Octets) returns (end: nat)
    requires at + 4 + |v| <= dest.Length
    modifies dest
    ensures end == at + 4 + |v| && dest[..end] == old(dest[..at]) + SizedBytes(v)
  {
    hide OfInt;
    end := Put(dest, at, OfInt(|v|));
    end := Put(dest, end, v);
  }

  method PutRidTable(dest: array<Octet>, at: nat, r: Rid, t: Octets) returns (end: nat)
    requires at + 16 + |t| <= dest.Length
    modifies dest
    ensures end == at + 16 + |t| && dest[..end] == old(dest[..at]) + RidTableBytes(r, t)
  {
    hide RidBytes, ToBytes;
    end := Put(dest, at, RidBytes(r));
    end := Put(dest, end, ToBytes(|t|, 8));
    end := Put(dest, end, t);
  }

  method PutCounts(dest: array<Octet>, at: nat, f: int, n: int) returns (end: nat)
    requires at + 8 <= dest.Length
    modifies dest
    ensures end == at + 8 && dest[..end] == old(dest[..at]) + CountsBytes(f, n)
  {
    hide OfInt;
    end := Put(dest, at, OfInt(f));
    end := Put(dest, end, OfInt(n));
  }

  method PutTail(dest: array<Octet>, at: nat, r: Rid, t: Octets, f: int, n: int) returns (end: nat)
    requires at + 24 + |t| <= dest.Length
    modifies dest
    ensures end == at + 24 + |t| && dest[..end] == old(dest[..at]) + (RidTableBytes(r, t) + CountsBytes(f, n))
  {
    hide RidTableBytes, CountsBytes;
    end := PutRidTable(dest, at, r, t);
    end := PutCounts(dest, end, f, n);
  }

  method PutPayload(b: Body, dest: array<Octet>, at: nat)
    requires at + TotLen(b) - LOG_HEADER_SIZE <= dest.Length
    modifies dest
    ensures dest[..at + TotLen(b) - LOG_HEADER_SIZE] == old(dest[..at]) + Payload(b)
  {
    hide SizedBytes, RidTableBytes, CountsBytes;
    var end := at;
    match b
    case Insert(v, rid, t) =>
      end := PutValue(dest, end, v);
      end := PutRidTable(dest, end, rid, t);
    case Delete(v, rid, t, f, n) =>
      end := PutValue(dest, end, v);
      end := PutTail(dest, end, rid, t, f, n);
    case Update(o, m, rid, t, f, n) =>
      end := PutValue(dest, end, o);
      end := PutValue(dest, end, m);
      end := PutTail(dest, end, rid, t, f, n);
    case _ =>
  }

  /** Writes a record behind what is already in the buffer. */
  method Serialize(r: LogRecord, dest: array<Octet>, at: nat)
    requires at + TotLen(r.body) <= dest.Length
    modifies dest
    ensures dest[..at + TotLen(r.body)] == old(dest[..at]) + Serialized(r)
  {
    hide Header, Payload;
    var end := PutHeader(r, dest, at);
    PutPayload(r.body, dest, end);
  }

  // ---------- reading ----------


  /** `n` bytes at an offset; nothing where the stream does not have them. */
  function Bytes(src: Octets, off: int, n: int): Octets
  {
    if 0 <= off <= off + n <= |src| then src[off..off + n] else []
  }

  function IntAt(src: Octets, off: int): int
  {
    ToInt(Bytes(src, off, 4))
  }

  function RidAt(src: Octets, off: int): Rid
  {
    Rid(IntAt(src, off), IntAt(src, off + 4))
  }

  function TotLenAt(src: Octets): nat
  {
    FromBytes(Bytes(src, OFFSET_LOG_TOT_LEN, 4))
  }

  function Deserialize(src: Octets): Option<LogRecord>
  {
    var lsn, tid, prevLsn := IntAt(src, OFFSET_LSN), IntAt(src, OFFSET_LOG_TID), IntAt(src, OFFSET_PREV_LSN);
    match IntAt(src, 0)
    case 0 =>
      var oldSize := IntAt(src, OFFSET_LOG_DATA);
      var newAt := OFFSET_LOG_DATA + 4 + oldSize;
      var newSize := IntAt(src, newAt);
      var ridAt := newAt + 4 + newSize;
      var size := FromBytes(Bytes(src, ridAt + 8, 8));
      var tableAt := ridAt + 8 + 8;
      Some(LogRecord(lsn, tid, prevLsn, Update(
        Bytes(src, OFFSET_LOG_DATA + 4, oldSize), Bytes(src, newAt + 4, newSize), RidAt(src, ridAt),
            Bytes(src, tableAt, size),
        IntAt(src, tableAt + size), IntAt(src, tableAt + size + 4))))
    case 1 =>
      var size1 := IntAt(src, OFFSET_LOG_DATA);
      var ridAt := OFFSET_LOG_DATA + 4 + size1;
      var size := FromBytes(Bytes(src, ridAt + 8, 8));
      Some(LogRecord(lsn, tid, prevLsn, Insert(
        Bytes(src, OFFSET_LOG_DATA + 4, size1), RidAt(src, ridAt), Bytes(src, ridAt + 8 + 8, size))))
    case 2 =>
      var size1 := IntAt(src, OFFSET_LOG_DATA);
      var ridAt := OFFSET_LOG_DATA + 4 + size1;
      var size := FromBytes(Bytes(src, ridAt + 8, 8));
      var tableAt := ridAt + 8 + 8;
      Some(LogRecord(lsn, tid, prevLsn, Delete(
        Bytes(src, OFFSET_LOG_DATA + 4, size1), RidAt(src, ridAt), Bytes(src, tableAt, size),
        IntAt(src, tableAt + size), IntAt(src, tableAt + size + 4))))
    case 3 => Some(LogRecord(lsn, tid, prevLsn, Begin))
    case 4 => Some(LogRecord(lsn, tid, prevLsn, Commit))
    case 5 => Some(LogRecord(lsn, tid, prevLsn, Abort))
    case 6 => Some(LogRecord(lsn, tid, prevLsn, Checkpoint))
    case _ => None
  }

  /** `f` stands at an offset of the stream. */
  predicate At(src: Octets, off: nat, f: Octets)
  {
    off + |f| <= |src| && src[off..off + |f|] == f
  }

  lemma {:induction false} AtSplit(src: Octets, off: nat, a: Octets, b: Octets)
    requires At(src, off, a + b)
    ensures At(src, off, a) && At(src, off + |a|, b)
  {
    var whole := src[off..off + |a + b|];
    assert src[off..off + |a|] == whole[..|a|];
    assert src[off + |a|..off + |a| + |b|] == whole[|a|..];
  }

  lemma {:induction false} ReadInt(src: Octets, off: nat, x: int)
    requires At(src, off, OfInt(x)) && Int32(x)
    ensures IntAt(src, off) == x
  {
    IntRoundTrip(x);
  }

  lemma {:induction false} ReadSize(src: Octets, off: nat, u: nat, w: nat)
    requires At(src, off, ToBytes(u, w)) && u < Pow256(w)
    ensures FromBytes(Bytes(src, off, w)) == u
  {
    BytesRoundTrip(u, w);
  }

  lemma {:induction false} ReadRid(src: Octets, off: nat, r: Rid)
    requires At(src, off, RidBytes(r)) && RidOk(r)
    ensures RidAt(src, off) == r
  {
    AtSplit(src, off, OfInt(r.page_no), OfInt(r.slot_no));
    ReadInt(src, off, r.page_no);
    ReadInt(src, off + 4, r.slot_no);
  }

  lemma {:induction false} ReadHeader(src: Octets, r: LogRecord)
    requires At(src, 0, Header(r)) && RecordOk(r)
    ensures IntAt(src, 0) == LogType(r.body) && IntAt(src, OFFSET_LSN) == r.lsn && TotLenAt(src) == TotLen(r.body)
    ensures IntAt(src, OFFSET_LOG_TID) == r.tid && IntAt(src, OFFSET_PREV_LSN) == r.prevLsn
  {
    hide OfInt, ToBytes, IntAt;
    Widths();
    var tail := OfInt(r.tid) + OfInt(r.prevLsn);
    AtSplit(src, 0, OfInt(LogType(r.body)), OfInt(r.lsn) + (ToBytes(TotLen(r.body), 4) + tail));
    AtSplit(src, 4, OfInt(r.lsn), ToBytes(TotLen(r.body), 4) + tail);
    AtSplit(src, 8, ToBytes(TotLen(r.body), 4), tail);
    AtSplit(src, 12, OfInt(r.tid), OfInt(r.prevLsn));
    ReadInt(src, 0, LogType(r.body));
    ReadInt(src, 4, r.lsn);
    ReadSize(src, 8, TotLen(r.body), 4);
    ReadInt(src, 12, r.tid);
    ReadInt(src, 16, r.prevLsn);
  }

  lemma {:induction false} ReadValue(src: Octets, off: nat, v: Octets)
    requires At(src, off, SizedBytes(v)) && |v| < TWO31
    ensures IntAt(src, off) == |v| && Bytes(src, off + 4, |v|) == v
  {
    AtSplit(src, off, OfInt(|v|), v);
    ReadInt(src, off, |v|);
  }

  lemma {:induction false} ReadRidTable(src: Octets, off: nat, r: Rid, t: Octets)
    requires At(src, off, RidTableBytes(r, t)) && RidOk(r) && |t| < TWO31
    ensures RidAt(src, off) == r && FromBytes(Bytes(src, off + 8, 8)) == |t| && Bytes(src, off + 16, |t|) == t
  {
    hide OfInt, ToBytes, RidBytes, RidAt;
    Widths();
    AtSplit(src, off, RidBytes(r), ToBytes(|t|, 8) + t);
    AtSplit(src, off + 8, ToBytes(|t|, 8), t);
    ReadRid(src, off, r);
    ReadSize(src, off + 8, |t|, 8);
  }

  lemma {:induction false} ReadCounts(src: Octets, off: nat, f: int, n: int)
    requires At(src, off, CountsBytes(f, n)) && Int32(f) && Int32(n)
    ensures IntAt(src, off) == f && IntAt(src, off + 4) == n
  {
    AtSplit(src, off, OfInt(f), OfInt(n));
    ReadInt(src, off, f);
    ReadInt(src, off + 4, n);
  }

  lemma {:induction false} ReadPayload(src: Octets, r: LogRecord)
    requires At(src, 0, Header(r)) && At(src, LOG_HEADER_SIZE, Payload(r.body)) && RecordOk(r)
    ensures Deserialize(src) == Some(r)
  {
    hide SizedBytes, RidTableBytes, CountsBytes, Header, IntAt, RidAt, Bytes, At, FromBytes;
    ReadHeader(src, r);
    var at := LOG_HEADER_SIZE;
    match r.body
    case Insert(v, rid, t) =>
      AtSplit(src, at, SizedBytes(v), RidTableBytes(rid, t));
      ReadValue(src, at, v);
      ReadRidTable(src, at + 4 + |v|, rid, t);
    case Delete(v, rid, t, f, n) =>
      AtSplit(src, at, SizedBytes(v), RidTableBytes(rid, t) + CountsBytes(f, n));
      AtSplit(src, at + 4 + |v|, RidTableBytes(rid, t), CountsBytes(f, n));
      ReadValue(src, at, v);
      ReadRidTable(src, at + 4 + |v|, rid, t);
      ReadCounts(src, at + 4 + |v| + 16 + |t|, f, n);
    case Update(o, m, rid, t, f, n) =>
      AtSplit(src, at, SizedBytes(o), SizedBytes(m) + (RidTableBytes(rid, t) + CountsBytes(f, n)));
      AtSplit(src, at + 4 + |o|, SizedBytes(m), RidTableBytes(rid, t) + CountsBytes(f, n));
      AtSplit(src, at + 8 + |o| + |m|, RidTableBytes(rid, t), CountsBytes(f, n));
      ReadValue(src, at, o);
      ReadValue(src, at + 4 + |o|, m);
      ReadRidTable(src, at + 8 + |o| + |m|, rid, t);
      ReadCounts(src, at + 8 + |o| + |m| + 16 + |t|, f, n);
    case _ =>
  }

  /** A record reads back as it was written, whatever follows it, and its length says where the next one starts. */
  lemma {:induction false} RecordRoundTrip(r: LogRecord, rest: Octets)
    requires RecordOk(r)
    ensures Deserialize(Serialized(r) + rest) == Some(r)
    ensures TotLenAt(Serialized(r) + rest) == |Serialized(r)|
  {
    hide Header, Payload, Deserialize, TotLenAt;
    var src := Serialized(r) + rest;
    assert src[0..|Serialized(r)|] == Serialized(r);
    AtSplit(src, 0, Header(r), Payload(r.body));
    ReadHeader(src, r);
    ReadPayload(src, r);
  }

  // ---------- streams ----------

  function Stream(rs: seq<LogRecord>): Octets
  {
    if rs == [] then [] else Stream(rs[..|rs| - 1]) + Serialized(rs[|rs| - 1])
  }

  /** Reads records until the stream ends, stepping over each by its length. */
  function Decode(src: Octets): seq<LogRecord>
    decreases |src|
  {
    var n := TotLenAt(src);
    var r := Deserialize(src);
    if 0 < n <= |src| && r.Some? then [r.value] + Decode(src[n..]) else []
  }

  lemma {:induction false} StreamMore(rs: seq<LogRecord>, r: LogRecord)
    ensures Stream(rs + [r]) == Stream(rs) + Serialized(r)
  {
    hide Serialized;
    assert (rs + [r])[..|rs|] == rs;
  }

  lemma {:induction false} StreamNone()
    ensures Stream([]) == []
  {
  }

  lemma {:induction false} StreamJoin(a: seq<LogRecord>, b: seq<LogRecord>)
    ensures Stream(a + b) == Stream(a) + Stream(b)
    decreases |b|
  {
    hide Stream, Serialized;
    if b == [] {
      StreamNone();
      assert a + b == a;
    } else {
      var n := |b| - 1;
      var init, last := b[..n], b[n];
      StreamJoin(a, init);
      StreamMore(init, last);
      StreamMore(a + init, last);
      assert init + [last] == b && a + b == a + init + [last];
      assert Stream(a) + Stream(init) + Serialized(last) == Stream(a) + (Stream(init) + Serialized(last));
    }
  }

  lemma {:induction false} StreamOne(r: LogRecord)
    ensures Stream([r]) == Serialized(r)
  {
    assert [r][..0] == [];
  }

  lemma {:induction false} DecodeEmpty()
    ensures Decode([]) == []
  {
  }

  /** Decoding a stream of records gives back exactly the records. */
  lemma {:induction false} StreamRoundTrip(rs: seq<LogRecord>)
    requires forall i :: 0 <= i < |rs| ==> RecordOk(rs[i])
    ensures Decode(Stream(rs)) == rs
  {
    if rs == [] {
      DecodeEmpty();
    } else {
      hide Deserialize, Serialized, TotLenAt, RecordOk;
      var tail := Stream(rs[1..]);
      StreamRoundTrip(rs[1..]);
      StreamJoin([rs[0]], rs[1..]);
      StreamOne(rs[0]);
      assert [rs[0]] + rs[1..] == rs;
      RecordRoundTrip(rs[0], tail);
      var src := Serialized(rs[0]) + tail;
      assert src[|Serialized(rs[0])|..] == tail;
      LenPositive(rs[0]);
      assert Stream(rs) == src;
    }
  }

  lemma {:induction false} LenPositive(r: LogRecord)
    ensures 0 < |Serialized(r)|
  {
  }
}

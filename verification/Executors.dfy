/**
  The insert and update executors: a table, its record file and its indexes kept in step.
 */
module Executors {
  import opened RmBitmap
  import opened IxLevels
  import opened RmFile
  import opened IxIndex
  import opened RecordLayout

  // ---------- one index ----------

  /** The index maps the key of every record to its position, and nothing else. */
  ghost predicate Agrees(c: map<Key, Rid>, records: map<Rid, Bytes>, m: IndexMeta)
  {
    && (forall r :: r in records ==> KeyOf(m, records[r]) in c && c[KeyOf(m, records[r])] == r)
    && (forall k :: k in c ==> c[k] in records && KeyOf(m, records[c[k]]) == k)
  }

  lemma {:induction false} AgreesInsert(c: map<Key, Rid>, records: map<Rid, Bytes>, m: IndexMeta, rid: Rid, rec: Bytes)
    requires Agrees(c, records, m) && rid !in records && KeyOf(m, rec) !in c
    ensures Agrees(c[KeyOf(m, rec) := rid], records[rid := rec], m)
  {
    hide KeyOf;
  }

  lemma {:induction false} AgreesSame(c: map<Key, Rid>, records: map<Rid, Bytes>, m: IndexMeta, rid: Rid, rec: Bytes)
    requires Agrees(c, records, m) && rid in records && KeyOf(m, rec) == KeyOf(m, records[rid])
    ensures Agrees(c, records[rid := rec], m)
  {
    hide KeyOf;
  }

  lemma {:induction false} AgreesUpdate(c: map<Key, Rid>, records: map<Rid, Bytes>, m: IndexMeta, rid: Rid, rec: Bytes)
    requires Agrees(c, records, m) && rid in records && KeyOf(m, rec) !in c - {KeyOf(m, records[rid])}
    ensures Agrees((c - {KeyOf(m, records[rid])})[KeyOf(m, rec) := rid], records[rid := rec], m)
  {
    hide KeyOf;
    var old_ := KeyOf(m, records[rid]);
    forall r | r in records && r != rid ensures KeyOf(m, records[r]) != old_ {
    }
  }

  // ---------- which records are in the way ----------

  /** Keys of the right length have different places. */
  ghost predicate OneToOne(m: IndexMeta)
  {
    forall a: Bytes, b: Bytes :: |a| == |b| == Width(m.cols) && m.rank(a) == m.rank(b) ==> a == b
  }

  /** The records have the columns of the index. */
  ghost predicate Plain(m: IndexMeta, records: map<Rid, Bytes>, rec: Bytes)
  {
    OneToOne(m) && HasColumns(m.cols, rec) && forall r :: r in records ==> HasColumns(m.cols, records[r])
  }

  /** A record has the bytes of `rec` in all the columns of the index. */
  ghost predicate Twin(m: IndexMeta, records: map<Rid, Bytes>, rec: Bytes)
  {
    exists r :: r in records && Alike(m, records[r], rec)
  }

  predicate Alike(m: IndexMeta, a: Bytes, b: Bytes)
  {
    HasColumns(m.cols, a) && HasColumns(m.cols, b) && SameColumns(m.cols, a, b)
  }

  ghost predicate AllPlain(metas: seq<IndexMeta>, records: map<Rid, Bytes>, rec: Bytes)
  {
    forall k :: 0 <= k < |metas| ==> Plain(metas[k], records, rec)
  }

  ghost predicate AnyTwin(metas: seq<IndexMeta>, records: map<Rid, Bytes>, rec: Bytes)
  {
    exists k :: 0 <= k < |metas| && Twin(metas[k], records, rec)
  }

  lemma {:induction false} KeyOfSame(m: IndexMeta, a: Bytes, b: Bytes)
    requires OneToOne(m) && HasColumns(m.cols, a) && HasColumns(m.cols, b)
    ensures KeyOf(m, a) == KeyOf(m, b) <==> Alike(m, a, b)
  {
    KeyLayout(m.cols, a);
    KeyLayout(m.cols, b);
    SameKey(m.cols, a, b);
  }

  /** The key of a record is taken exactly when a record agrees with it on the columns of the index. */
  lemma {:induction false} TakenIff(c: map<Key, Rid>, records: map<Rid, Bytes>, m: IndexMeta, rec: Bytes)
    requires Agrees(c, records, m) && Plain(m, records, rec)
    ensures KeyOf(m, rec) in c <==> Twin(m, records, rec)
  {
    hide KeyOf, Alike, OneToOne, HasColumns;
    forall r | r in records ensures KeyOf(m, records[r]) == KeyOf(m, rec) <==> Alike(m, records[r], rec) {
      KeyOfSame(m, records[r], rec);
    }
  }

  /** The new key of a record clashes exactly when another record agrees with the new one on the columns. */
  lemma {:induction false} ClashIff(c: map<Key, Rid>, records: map<Rid, Bytes>, m: IndexMeta, rid: Rid, now: Bytes)
    requires Agrees(c, records, m) && rid in records && Plain(m, records, now)
    ensures Clashes(m, c, rid, records[rid], now) <==> Twin(m, records - {rid}, now)
  {
    var was := records[rid];
    assert KeyBytes(m.cols, was) == KeyBytes(m.cols, now) ==> KeyOf(m, was) == KeyOf(m, now);
    hide KeyOf, Alike, OneToOne, HasColumns, KeyBytes;
    forall r | r in records ensures KeyOf(m, records[r]) == KeyOf(m, now) <==> Alike(m, records[r], now) {
      KeyOfSame(m, records[r], now);
    }
    if r :| r in records - {rid} && Alike(m, records[r], now) {
      assert c[KeyOf(m, now)] == r;
      assert c[KeyOf(m, was)] == rid;
    }
    if Clashes(m, c, rid, was, now) {
      var r := c[KeyOf(m, now)];
      assert r in records - {rid} && (records - {rid})[r] == records[r];
    }
  }

  // ---------- taking keys out ----------

  /** What an index holds once the old key of the record is taken out, if its key changes at all. */
  ghost predicate KeyOut(m: IndexMeta, c: map<Key, Rid>, before: map<Key, Rid>, was: Bytes, now: Bytes)
  {
    if KeyBytes(m.cols, was) == KeyBytes(m.cols, now) then c == before
    else c == before - {KeyOf(m, was)} && KeyOf(m, now) !in c
  }

  /** Another record has the new key. */
  ghost predicate Clashes(m: IndexMeta, c: map<Key, Rid>, rid: Rid, was: Bytes, now: Bytes)
  {
    KeyBytes(m.cols, was) != KeyBytes(m.cols, now) && KeyOf(m, now) in c && c[KeyOf(m, now)] != rid
  }

  /**
    An update refused by index `b`, the first with a clash: the ones before it have lost the old key, the others are as
    they were.
   */
  ghost predicate RefusedBy(metas: seq<IndexMeta>, befores: seq<map<Key, Rid>>, afters: seq<map<Key, Rid>>, b: nat,
      rid: Rid, was: Bytes, now: Bytes)
    requires |metas| == |befores| == |afters|
  {
    && b < |metas| && Clashes(metas[b], befores[b], rid, was, now)
    && (forall k :: 0 <= k < b ==>
        !Clashes(metas[k], befores[k], rid, was, now) && KeyOut(metas[k], afters[k], befores[k], was, now))
    && (forall k :: b <= k < |metas| ==> afters[k] == befores[k])
  }

  ghost predicate Refused(metas: seq<IndexMeta>, befores: seq<map<Key, Rid>>, afters: seq<map<Key, Rid>>,
      rid: Rid, was: Bytes, now: Bytes)
    requires |metas| == |befores| == |afters|
  {
    exists b :: RefusedBy(metas, befores, afters, b, rid, was, now)
  }

  /**
    A refused update leaves every index as it was exactly when none before the first clashing one has a changed key.
   */
  lemma {:induction false} RefusedUnchangedIff(metas: seq<IndexMeta>, befores: seq<map<Key, Rid>>,
      afters: seq<map<Key, Rid>>, b: nat,
      records: map<Rid, Bytes>, rid: Rid, was: Bytes, now: Bytes)
    requires |metas| == |befores| == |afters| && RefusedBy(metas, befores, afters, b, rid, was, now)
    requires rid in records && records[rid] == was && forall k :: 0 <= k < |metas| ==>
        Agrees(befores[k], records, metas[k])
    ensures afters == befores <==> forall k :: 0 <= k < b ==>
        KeyBytes(metas[k].cols, was) == KeyBytes(metas[k].cols, now)
    ensures forall k :: 0 <= k < |metas| ==>
      (Agrees(afters[k], records, metas[k]) <==>
          !(k < b && KeyBytes(metas[k].cols, was) != KeyBytes(metas[k].cols, now)))
  {
    hide KeyOf, KeyBytes;
    forall k | 0 <= k < |metas|
      ensures Agrees(afters[k], records, metas[k]) <==>
          !(k < b && KeyBytes(metas[k].cols, was) != KeyBytes(metas[k].cols, now))
      ensures k < b && KeyBytes(metas[k].cols, was) != KeyBytes(metas[k].cols, now) ==> afters[k] != befores[k]
    {
      assert Agrees(befores[k], records, metas[k]) && KeyOf(metas[k], was) in befores[k];
      if k < b {
        assert KeyOut(metas[k], afters[k], befores[k], was, now);
      }
    }
    if forall k :: 0 <= k < b ==> KeyBytes(metas[k].cols, was) == KeyBytes(metas[k].cols, now) {
      forall k | 0 <= k < |metas| ensures afters[k] == befores[k] {
        if k < b {
          assert KeyOut(metas[k], afters[k], befores[k], was, now);
        }
      }
    }
  }

  // ---------- the table ----------

  class Table {
    const file: RmFileHandle
    const indexes: seq<IxIndexHandle>
    const metas: seq<IndexMeta>

    ghost predicate Shape()
    {
      |metas| == |indexes| && forall i, j :: 0 <= i < j < |indexes| ==> indexes[i] != indexes[j]
    }

    ghost predicate Sound()
      reads file, indexes
    {
      file.Valid() && forall i :: 0 <= i < |indexes| ==> indexes[i].Valid()
    }

    /** Every index holds exactly the keys of the live records. */
    ghost predicate Valid()
      reads file, indexes
    {
      && Shape() && Sound()
      && forall i :: 0 <= i < |indexes| ==> Agrees(indexes[i].Contents(), file.contents, metas[i])
    }

    /** A new table: an empty file and an empty index for each of the column lists. */
    constructor (recordSize: nat, order: nat, metas: seq<IndexMeta>)
      requires 1 <= recordSize <= RM_MAX_RECORD_SIZE && order >= 3
      ensures Valid() && file.contents == map[] && this.metas == metas
      ensures fresh(file) && forall i :: 0 <= i < |indexes| ==> fresh(indexes[i])
    {
      hide IxIndexHandle.Valid, IxIndexHandle.Contents, RmFileHandle.Valid;
      var f := new RmFileHandle(recordSize);
      var ixs: seq<IxIndexHandle> := [];
      for i := 0 to |metas|
        invariant |ixs| == i && fresh(f) && f.Valid() && f.contents == map[]
        invariant forall k :: 0 <= k < i ==> fresh(ixs[k]) && ixs[k].Valid() && ixs[k].Contents() == map[]
        invariant forall j, k :: 0 <= j < k < i ==> ixs[j] != ixs[k]
      {
        var ix := new IxIndexHandle(order);
        ixs := ixs + [ix];
      }
      file, indexes := f, ixs;
      this.metas := metas;
    }

    /** The contents of the indexes. */
    ghost function Snapshot(): (s: seq<map<Key, Rid>>)
      requires Shape() && Sound()
      reads file, indexes
      ensures |s| == |indexes| && forall k :: 0 <= k < |s| ==> s[k] == indexes[k].Contents()
    {
      seq(|indexes|, k requires 0 <= k < |indexes| && Shape() && Sound() reads file, indexes => indexes[k].Contents())
    }

    /** Whether a key of the record is already taken in one of the indexes. */
    ghost predicate Taken(rec: Bytes)
      requires Shape() && Sound()
      reads file, indexes
    {
      exists i :: 0 <= i < |indexes| && KeyOf(metas[i], rec) in indexes[i].Contents()
    }

    lemma {:induction false} TakenTwins(rec: Bytes)
      requires Valid()
      ensures AllPlain(metas, file.contents, rec) ==> (Taken(rec) <==> AnyTwin(metas, file.contents, rec))
    {
      hide IxIndexHandle.Valid, IxIndexHandle.Contents, RmFileHandle.Valid, Agrees, KeyOf, Plain, Twin;
      if AllPlain(metas, file.contents, rec) {
        forall k | 0 <= k < |metas|
          ensures KeyOf(metas[k], rec) in indexes[k].Contents() <==> Twin(metas[k], file.contents, rec)
        {
          TakenIff(indexes[k].Contents(), file.contents, metas[k], rec);
        }
      }
    }

    /** Inserts a record and its keys, or rejects it before anything is changed. */
    method Insert(rec: Bytes) returns (ok: bool, rid: Rid)
      requires Valid()
      modifies file, indexes
      ensures Valid() && ok == !old(Taken(rec))
      ensures AllPlain(metas, old(file.contents), rec) ==> (ok <==> !AnyTwin(metas, old(file.contents), rec))
      ensures ok ==> rid !in old(file.contents) && file.contents == old(file.contents)[rid := rec]
      ensures !ok ==> file.contents == old(file.contents) && forall i :: 0 <= i < |indexes| ==>
          indexes[i].Contents() == old(indexes[i].Contents())
    {
      hide IxIndexHandle.Valid, IxIndexHandle.Contents, RmFileHandle.Valid, Agrees, KeyOf, AllPlain, AnyTwin;
      TakenTwins(rec);
      rid := Rid(0, 0);
      for i := 0 to |indexes|
        invariant Sound() && file.contents == old(file.contents)
        invariant forall k :: 0 <= k < |indexes| ==> indexes[k].Contents() == old(indexes[k].Contents())
        invariant forall k :: 0 <= k < i ==> KeyOf(metas[k], rec) !in indexes[k].Contents()
      {
        var key := MakeKey(metas[i].cols, rec);
        RankIsKey(metas[i], rec);
        var unique, uniqueRid := indexes[i].IsUnique(metas[i].rank(key));
        if !unique { return false, rid; }
      }
      rid := file.InsertRecord(rec);
      for i := 0 to |indexes|
        invariant Sound() && rid !in old(file.contents) && file.contents == old(file.contents)[rid := rec]
        invariant forall k :: i <= k < |indexes| ==> indexes[k].Contents() == old(indexes[k].Contents())
        invariant forall k :: 0 <= k < i ==> Agrees(indexes[k].Contents(), file.contents, metas[k])
      {
        AgreesInsert(indexes[i].Contents(), old(file.contents), metas[i], rid, rec);
        PutKey(i, rid, rec);
      }
      ok := true;
    }

    /** Whether a SET clause names a column of an index. */
    method ComputeNeedUpdateIndex(sets: seq<SetClause>) returns (need: bool)
      ensures need <==> exists i :: 0 <= i < |metas| && Touches(metas[i], sets)
    {
      for i := 0 to |metas|
        invariant forall k :: 0 <= k < i ==> !Touches(metas[k], sets)
      {
        for s := 0 to |sets|
          invariant forall j, k :: 0 <= j < |metas[i].cols| && 0 <= k < s ==> metas[i].cols[j].name != sets[k].lhs.name
        {
          for j := 0 to |metas[i].cols|
            invariant forall k :: 0 <= k < j ==> metas[i].cols[k].name != sets[s].lhs.name
          {
            if metas[i].cols[j].name == sets[s].lhs.name { return true; }
          }
        }
      }
      need := false;
    }

    ghost predicate Blocked(rid: Rid, sets: seq<SetClause>)
      requires Shape() && Sound() && rid in file.contents
      reads file, indexes
    {
      var was := file.contents[rid];
      exists k :: 0 <= k < |indexes| && Clashes(metas[k], indexes[k].Contents(), rid, was, ApplySets(was, sets))
    }

    /** The indexes whose key changes, and nothing else. */
    ghost predicate Pending(todo: seq<nat>, was: Bytes, now: Bytes, upTo: nat)
      requires upTo <= |metas|
    {
      && (forall k: nat :: k in todo <==> k < upTo && KeyBytes(metas[k].cols, was) != KeyBytes(metas[k].cols, now))
      && (forall i, j :: 0 <= i < j < |todo| ==> todo[i] != todo[j])
    }

    lemma {:induction false} NonePending(was: Bytes, now: Bytes)
      ensures Pending([], was, now, 0)
    {
    }

    lemma {:induction false} MorePending(todo: seq<nat>, was: Bytes, now: Bytes, i: nat)
      requires i < |metas| && Pending(todo, was, now, i)
      ensures var kept := KeyBytes(metas[i].cols, was) == KeyBytes(metas[i].cols, now);
              Pending(if kept then todo else todo + [i], was, now, i + 1)
    {
      hide KeyBytes;
      forall j | 0 <= j < |todo| ensures todo[j] < i {
        assert todo[j] in todo;
      }
    }

    /** Takes the old keys out of the indexes, unless a new one is taken by another record. */
    method TakeOutKeys(rid: Rid, was: Bytes, now: Bytes) returns (ok: bool, todo: seq<nat>)
      requires Valid() && rid in file.contents && file.contents[rid] == was
      modifies indexes
      ensures Shape() && Sound()
      ensures ok <==> forall k :: 0 <= k < |indexes| ==> !Clashes(metas[k], old(indexes[k].Contents()), rid, was, now)
      ensures !ok ==> Refused(metas, old(Snapshot()), Snapshot(), rid, was, now)
      ensures ok ==> Pending(todo, was, now, |metas|)
      ensures ok ==> forall k :: 0 <= k < |indexes| ==>
          KeyOut(metas[k], indexes[k].Contents(), old(indexes[k].Contents()), was, now)
    {
      hide IxIndexHandle.Valid, IxIndexHandle.Contents, RmFileHandle.Valid, KeyOf, KeyOut, Agrees, Clashes, Pending,
          KeyBytes;
      todo := [];
      NonePending(was, now);
      for i := 0 to |indexes|
        invariant Sound() && Pending(todo, was, now, i)
        invariant forall k :: 0 <= k < i ==> !Clashes(metas[k], old(indexes[k].Contents()), rid, was, now)
        invariant forall k :: i <= k < |indexes| ==> indexes[k].Contents() == old(indexes[k].Contents())
        invariant forall k :: 0 <= k < i ==>
            KeyOut(metas[k], indexes[k].Contents(), old(indexes[k].Contents()), was, now)
      {
        var changed;
        ok, changed := TakeOutKey(i, rid, was, now, file.contents);
        if !ok {
          assert RefusedBy(metas, old(Snapshot()), Snapshot(), i, rid, was, now);
          return;
        }
        MorePending(todo, was, now, i);
        if !changed { continue; }
        todo := todo + [i];
      }
      ok := true;
    }

    lemma {:induction false} OutSame(k: nat, c: map<Key, Rid>, was: Bytes, now: Bytes)
      requires k < |metas|
      ensures KeyBytes(metas[k].cols, was) == KeyBytes(metas[k].cols, now) ==> KeyOut(metas[k], c, c, was, now)
    {
    }

    lemma {:induction false} OutOne(k: nat, c: map<Key, Rid>, records: map<Rid, Bytes>, rid: Rid, was: Bytes,
        now: Bytes)
      requires k < |metas| && Agrees(c, records, metas[k]) && rid in records && records[rid] == was
      requires KeyBytes(metas[k].cols, was) != KeyBytes(metas[k].cols, now)
      requires KeyOf(metas[k], now) in c ==> c[KeyOf(metas[k], now)] == rid
      ensures KeyOf(metas[k], was) in c
      ensures KeyOut(metas[k], c - {KeyOf(metas[k], was)}, c, was, now)
    {
      hide KeyOf;
    }

    /** Puts the new keys into the indexes they are due in. */
    method PutInKeys(rid: Rid, was: Bytes, now: Bytes, todo: seq<nat>, ghost records: map<Rid, Bytes>,
        ghost befores: seq<map<Key, Rid>>)
      requires Shape() && Sound() && Pending(todo, was, now, |metas|)
      requires rid in records && records[rid] == was && |befores| == |indexes|
      requires forall k :: 0 <= k < |indexes| ==>
          Agrees(befores[k], records, metas[k]) && KeyOut(metas[k], indexes[k].Contents(), befores[k], was, now)
      modifies indexes
      ensures Shape() && Sound()
      ensures forall k :: 0 <= k < |indexes| ==> Agrees(indexes[k].Contents(), records[rid := now], metas[k])
    {
      hide IxIndexHandle.Valid, IxIndexHandle.Contents, RmFileHandle.Valid, KeyOf, KeyOut, Agrees;
      ghost var mids := Snapshot();
      ghost var fins: seq<map<Key, Rid>> := seq(|indexes|, k requires 0 <= k < |indexes| => if k in todo
          then mids[k][KeyOf(metas[k], now) := rid] else mids[k]);
      forall k: nat | k < |indexes|
        ensures Agrees(fins[k], records[rid := now], metas[k]) && (k in todo ==> KeyOf(metas[k], now) !in mids[k])
      {
        if k in todo {
          PutOne(k, mids[k], befores[k], records, rid, was, now);
        } else {
          KeptIn(k, mids[k], befores[k], records, rid, was, now);
        }
      }
      TodoIn(todo, was, now);
      PutAll(rid, now, todo, mids, fins);
    }

    /** Puts the new keys in, one index after the other. */
    method PutAll(rid: Rid, now: Bytes, todo: seq<nat>, ghost mids: seq<map<Key, Rid>>, ghost fins: seq<map<Key, Rid>>)
      requires Shape() && Sound() && |mids| == |fins| == |indexes|
      requires forall j :: 0 <= j < |todo| ==> todo[j] < |indexes| && KeyOf(metas[todo[j]], now) !in mids[todo[j]]
      requires forall i, j :: 0 <= i < j < |todo| ==> todo[i] != todo[j]
      requires forall k :: 0 <= k < |indexes| ==> indexes[k].Contents() == mids[k]
      requires forall k :: 0 <= k < |indexes| ==>
          fins[k] == if k in todo then mids[k][KeyOf(metas[k], now) := rid] else mids[k]
      modifies indexes
      ensures Shape() && Sound()
      ensures forall k :: 0 <= k < |indexes| ==> indexes[k].Contents() == fins[k]
    {
      hide IxIndexHandle.Valid, IxIndexHandle.Contents, RmFileHandle.Valid, KeyOf;
      for i := 0 to |todo|
        invariant Sound()
        invariant forall k :: 0 <= k < |indexes| ==>
            indexes[k].Contents() == if k in todo[i..] then mids[k] else fins[k]
      {
        var k := todo[i];
        assert todo[i..] == [k] + todo[i + 1..];
        assert k in todo && k !in todo[i + 1..];
        PutKey(k, rid, now);
      }
    }

    lemma {:induction false} TodoIn(todo: seq<nat>, was: Bytes, now: Bytes)
      requires Pending(todo, was, now, |metas|)
      ensures forall j :: 0 <= j < |todo| ==>
          todo[j] < |metas| && KeyBytes(metas[todo[j]].cols, was) != KeyBytes(metas[todo[j]].cols, now)
      ensures forall i, j :: 0 <= i < j < |todo| ==> todo[i] != todo[j]
    {
      assert forall j :: 0 <= j < |todo| ==> todo[j] in todo;
    }

    method PutKey(k: nat, rid: Rid, now: Bytes)
      requires Shape() && k < |indexes| && indexes[k].Valid() && KeyOf(metas[k], now) !in indexes[k].Contents()
      modifies indexes[k]
      ensures indexes[k].Valid() && indexes[k].Contents() == old(indexes[k].Contents())[KeyOf(metas[k], now) := rid]
    {
      hide IxIndexHandle.Valid, IxIndexHandle.Contents, KeyOf;
      var key := MakeKey(metas[k].cols, now);
      RankIsKey(metas[k], now);
      var page := indexes[k].InsertEntry(metas[k].rank(key), rid);
    }

    /** Takes the old key out of one index, unless the new one is taken by another record. */
    method TakeOutKey(k: nat, rid: Rid, was: Bytes, now: Bytes, ghost records: map<Rid, Bytes>)
      returns (ok: bool, changed: bool)
      requires Shape() && k < |indexes| && indexes[k].Valid() && Agrees(indexes[k].Contents(), records, metas[k])
      requires rid in records && records[rid] == was
      modifies indexes[k]
      ensures indexes[k].Valid()
      ensures changed == (KeyBytes(metas[k].cols, was) != KeyBytes(metas[k].cols, now))
      ensures ok ==> KeyOut(metas[k], indexes[k].Contents(), old(indexes[k].Contents()), was, now)
      ensures ok == !Clashes(metas[k], old(indexes[k].Contents()), rid, was, now)
      ensures !ok ==> indexes[k].Contents() == old(indexes[k].Contents())
    {
      hide IxIndexHandle.Valid, IxIndexHandle.Contents, KeyOf, KeyOut, Agrees;
      var oldKey := MakeKey(metas[k].cols, was);
      var newKey := MakeKey(metas[k].cols, now);
      OutSame(k, indexes[k].Contents(), was, now);
      if oldKey == newKey { return true, false; }
      RankIsKey(metas[k], was);
      RankIsKey(metas[k], now);
      var unique, uniqueRid := indexes[k].IsUnique(metas[k].rank(newKey));
      if !unique && rid != uniqueRid { return false, true; }
      OutOne(k, indexes[k].Contents(), records, rid, was, now);
      var _ := indexes[k].DeleteEntry(metas[k].rank(oldKey));
      return true, true;
    }

    lemma {:induction false} KeptIn(k: nat, c: map<Key, Rid>, before: map<Key, Rid>, records: map<Rid, Bytes>, rid: Rid,
        was: Bytes, now: Bytes)
      requires k < |metas| && Agrees(before, records, metas[k]) && rid in records && records[rid] == was
      requires KeyOut(metas[k], c, before, was, now) && KeyBytes(metas[k].cols, was) == KeyBytes(metas[k].cols, now)
      ensures Agrees(c, records[rid := now], metas[k])
    {
      AgreesSame(c, records, metas[k], rid, now);
    }

    lemma {:induction false} PutOne(k: nat, c: map<Key, Rid>, before: map<Key, Rid>, records: map<Rid, Bytes>, rid: Rid,
        was: Bytes, now: Bytes)
      requires k < |metas| && Agrees(before, records, metas[k]) && rid in records && records[rid] == was
      requires KeyOut(metas[k], c, before, was, now) && KeyBytes(metas[k].cols, was) != KeyBytes(metas[k].cols, now)
      ensures KeyOf(metas[k], now) !in c
      ensures Agrees(c[KeyOf(metas[k], now) := rid], records[rid := now], metas[k])
    {
      AgreesUpdate(before, records, metas[k], rid, now);
    }

    /** Evaluates the SET clauses in turn, each over what the earlier ones left. */
    method EvaluateSets(rec: Bytes, sets: seq<SetClause>) returns (now: Bytes)
      ensures now == ApplySets(rec, sets)
    {
      now := rec;
      for i := 0 to |sets|
        invariant now == ApplySets(rec, sets[..i])
      {
        assert sets[..i + 1][..i] == sets[..i];
        now := SetField(now, sets[i].lhs, sets[i].value(now));
      }
      assert sets[..|sets|] == sets;
    }

    lemma {:induction false} BlockedTwins(rid: Rid, sets: seq<SetClause>)
      requires Valid() && rid in file.contents
      ensures var now := ApplySets(file.contents[rid], sets);
              AllPlain(metas, file.contents, now) ==>
                (Blocked(rid, sets) <==> AnyTwin(metas, file.contents - {rid}, now))
    {
      hide IxIndexHandle.Valid, IxIndexHandle.Contents, RmFileHandle.Valid, Agrees, Plain, Twin, Clashes, ApplySets;
      var now := ApplySets(file.contents[rid], sets);
      if AllPlain(metas, file.contents, now) {
        forall k | 0 <= k < |metas|
          ensures Clashes(metas[k], indexes[k].Contents(), rid, file.contents[rid], now) <==>
              Twin(metas[k], file.contents - {rid}, now)
        {
          ClashIff(indexes[k].Contents(), file.contents, metas[k], rid, now);
        }
      }
    }

    /** An update that touches no index has nothing to take out or to put in. */
    lemma {:induction false} NotBlocked(rid: Rid, sets: seq<SetClause>)
      requires Valid() && rid in file.contents && LaidOut(metas, sets)
      requires forall i :: 0 <= i < |metas| ==> !Touches(metas[i], sets)
      ensures !Blocked(rid, sets)
      ensures var was, now := file.contents[rid], ApplySets(file.contents[rid], sets);
              && Pending([], was, now, |metas|)
              && forall k :: 0 <= k < |indexes| ==>
                  KeyOut(metas[k], indexes[k].Contents(), indexes[k].Contents(), was, now)
    {
      hide IxIndexHandle.Valid, IxIndexHandle.Contents, RmFileHandle.Valid, Agrees, KeyOf, KeyBytes, LaidOut, Touches,
          ApplySets;
      forall k | 0 <= k < |metas|
        ensures KeyBytes(metas[k].cols, file.contents[rid]) ==
            KeyBytes(metas[k].cols, ApplySets(file.contents[rid], sets))
      {
        UntouchedKey(metas, sets, k, file.contents[rid]);
      }
    }

    /** Updates one record and its keys; `need` says whether the indexes are looked at. */
    method UpdateOne(rid: Rid, sets: seq<SetClause>, need: bool) returns (ok: bool)
      requires Valid() && rid.page_no != 0 && 0 <= rid.slot_no < file.perPage && LaidOut(metas, sets)
      requires (exists i :: 0 <= i < |metas| && Touches(metas[i], sets)) ==> need
      modifies file, indexes
      ensures Shape() && Sound() && (!ok ==> file.contents == old(file.contents))
      ensures ok <==> rid in old(file.contents) && !old(Blocked(rid, sets))
      ensures !ok && rid in old(file.contents) ==>
        Refused(metas, old(Snapshot()), Snapshot(), rid, old(file.contents)[rid],
            ApplySets(old(file.contents)[rid], sets))
      ensures rid !in old(file.contents) ==> Snapshot() == old(Snapshot())
      ensures ok ==> Valid() && file.contents == old(file.contents)[rid := ApplySets(old(file.contents)[rid], sets)]
      ensures ok && Fitting(old(file.contents)[rid], sets) ==>
        SetTo(old(file.contents)[rid], file.contents[rid], sets)
      ensures rid in old(file.contents) ==>
        var now := ApplySets(old(file.contents)[rid], sets);
        AllPlain(metas, old(file.contents), now) ==> (ok <==> !AnyTwin(metas, old(file.contents) - {rid}, now))
    {
      hide IxIndexHandle.Valid, IxIndexHandle.Contents, RmFileHandle.Valid, Agrees, KeyOf, KeyOut, LaidOut, Touches,
          ApplySets, AllPlain, AnyTwin, Clashes, SetTo, Fitting;
      var found, was := file.GetRecord(rid);
      if !found { return false; }
      var now := EvaluateSets(was, sets);
      BlockedTwins(rid, sets);
      if Fitting(was, sets) {
        ApplySetsBytes(was, sets);
      }
      ghost var records := file.contents;
      ghost var befores := Snapshot();
      var todo: seq<nat> := [];
      if need {
        ok, todo := TakeOutKeys(rid, was, now);
        if !ok { return; }
      } else {
        NotBlocked(rid, sets);
      }
      var updated := file.UpdateRecord(rid, now);
      PutInKeys(rid, was, now, todo, records, befores);
      ok := true;
    }

    /**
      An update that failed on row `j`: the rows before it are updated and indexed, that row and the ones after it are
      not.
     */
    ghost predicate Stopped(records: map<Rid, Bytes>, rids: seq<Rid>, visible: set<Rid>, sets: seq<SetClause>, j: nat,
        befores: seq<map<Key, Rid>>)
      requires Shape() && Sound()
      reads file, indexes
    {
      && j < |rids| && rids[j] in visible && file.contents == Updated(records, rids[..j], visible, sets)
      && |befores| == |metas| && (forall k :: 0 <= k < |metas| ==> Agrees(befores[k], file.contents, metas[k]))
      && if rids[j] in file.contents
         then Refused(metas, befores, Snapshot(), rids[j], file.contents[rids[j]],
             ApplySets(file.contents[rids[j]], sets))
         else Snapshot() == befores
    }

    /** Updates the records of a scan, those among them that the transaction sees. */
    method Update(rids: seq<Rid>, visible: set<Rid>, sets: seq<SetClause>) returns (ok: bool)
      requires Valid() && LaidOut(metas, sets) && forall r :: r in rids ==>
          r.page_no != 0 && 0 <= r.slot_no < file.perPage
      modifies file, indexes
      ensures Shape() && Sound()
      ensures ok ==> Valid() && file.contents == Updated(old(file.contents), rids, visible, sets)
      ensures ok && (forall i, j :: 0 <= i < j < |rids| ==> rids[i] != rids[j]) ==>
        ChangedOnly(old(file.contents), file.contents, rids, visible, sets)
      ensures !ok ==> exists j, befores :: Stopped(old(file.contents), rids, visible, sets, j, befores)
    {
      hide IxIndexHandle.Valid, IxIndexHandle.Contents, RmFileHandle.Valid, Agrees, KeyOf, LaidOut, Touches, ApplySets,
          ChangedOnly;
      var need := ComputeNeedUpdateIndex(sets);
      for i := 0 to |rids|
        invariant Valid() && file.contents == Updated(old(file.contents), rids[..i], visible, sets)
      {
        assert rids[..i + 1][..i] == rids[..i];
        if rids[i] !in visible { continue; }
        assert rids[i] in rids;
        ghost var befores := Snapshot();
        ok := UpdateOne(rids[i], sets, need);
        if !ok {
          assert Stopped(old(file.contents), rids, visible, sets, i, befores);
          return;
        }
      }
      assert rids[..|rids|] == rids;
      if forall i, j :: 0 <= i < j < |rids| ==> rids[i] != rids[j] {
        UpdatedOnly(old(file.contents), rids, visible, sets);
      }
      ok := true;
    }
  }

  /** The records after an update of the visible ones among `rids`. */
  ghost function Updated(records: map<Rid, Bytes>, rids: seq<Rid>, visible: set<Rid>,
      sets: seq<SetClause>): map<Rid, Bytes>
  {
    if rids == [] then records
    else
      var before := Updated(records, rids[..|rids| - 1], visible, sets);
      var r := rids[|rids| - 1];
      if r in visible && r in before then before[r := ApplySets(before[r], sets)] else before
  }

  /** The visible records among `rids` are changed, each to what the clauses make of it, and no others. */
  ghost predicate ChangedOnly(records: map<Rid, Bytes>, after: map<Rid, Bytes>, rids: seq<Rid>, visible: set<Rid>,
      sets: seq<SetClause>)
  {
    && after.Keys == records.Keys
    && forall r :: r in records ==> Changed(records[r], after[r], r in rids && r in visible, sets)
  }

  ghost predicate Changed(was: Bytes, now: Bytes, chosen: bool, sets: seq<SetClause>)
  {
    if chosen then now == ApplySets(was, sets) && (Fitting(was, sets) ==> SetTo(was, now, sets)) else now == was
  }

  /** An update that visits every position once changes exactly the visible records there. */
  lemma {:induction false} UpdatedOnly(records: map<Rid, Bytes>, rids: seq<Rid>, visible: set<Rid>,
      sets: seq<SetClause>)
    requires forall i, j :: 0 <= i < j < |rids| ==> rids[i] != rids[j]
    ensures ChangedOnly(records, Updated(records, rids, visible, sets), rids, visible, sets)
  {
    hide Fitting, SetTo, ApplySets;
    if rids != [] {
      var n := |rids| - 1;
      var last := rids[n];
      UpdatedOnly(records, rids[..n], visible, sets);
      assert rids == rids[..n] + [last] && last !in rids[..n];
      var before := Updated(records, rids[..n], visible, sets);
      if last in records {
        assert Changed(records[last], before[last], false, sets);
        if Fitting(records[last], sets) {
          ApplySetsBytes(records[last], sets);
        }
      }
      var after := Updated(records, rids, visible, sets);
      forall r | r in records ensures Changed(records[r], after[r], r in rids && r in visible, sets) {
        assert Changed(records[r], before[r], r in rids[..n] && r in visible, sets);
      }
    }
  }

  // ---------- a refused update that leaves a trace ----------

  const LETTER := ColMeta("letter", 0, 1)
  const DIGIT := ColMeta("digit", 1, 1)

  /** Some order of one-byte keys. */
  function ByteRank(key: Bytes): Key
  {
    if key == [1] then 1 else if key == [2] then 2 else 3
  }

  function ByteIndex(c: ColMeta): IndexMeta
  {
    IndexMeta([c], ByteRank)
  }

  function ByteSets(): seq<SetClause>
  {
    [SetClause(LETTER, _ => [3]), SetClause(DIGIT, _ => [2])]
  }

  lemma {:induction false} ByteKey(c: ColMeta, rec: Bytes)
    ensures KeyBytes([c], rec) == Field(rec, c) && KeyOf(ByteIndex(c), rec) == ByteRank(Field(rec, c))
  {
    assert [c][..0] == [];
  }

  lemma {:induction false} ByteUpdate()
    ensures ApplySets([1, 1], ByteSets()) == [3, 2]
  {
    var sets := ByteSets();
    assert sets[..1] == [sets[0]] && sets[..1][..0] == [];
    assert ApplySets([1, 1], []) == [1, 1];
    var one: Bytes := [1, 1];
    assert one[1..] == [1] && one[..0] == [];
    assert ApplySets(one, sets[..1]) == [3, 1];
    var two: Bytes := [3, 1];
    assert two[..1] == [3] && two[2..] == [];
  }

  lemma {:induction false} ByteKeys(c: ColMeta)
    requires c == LETTER || c == DIGIT
    ensures var m := ByteIndex(c);
            && KeyOf(m, [1, 1]) == 1 && KeyOf(m, [2, 2]) == 2 && KeyOf(m, [3, 2]) == (if c == LETTER then 3 else 2)
            && KeyBytes(m.cols, [1, 1]) == [1] && KeyBytes(m.cols, [3, 2]) == (if c == LETTER then [3] else [2])
  {
    var one: Bytes, two: Bytes, now: Bytes := [1, 1], [2, 2], [3, 2];
    ByteKey(c, one);
    ByteKey(c, two);
    ByteKey(c, now);
    assert Field(one, c) == [1] && Field(two, c) == [2] && Field(now, c) == [if c == LETTER then 3 else 2];
  }

  ghost predicate TwoLetters(records: map<Rid, Bytes>, rid: Rid, other: Rid)
  {
    rid != other && records == map[rid := [1, 1], other := [2, 2]]
  }

  /** The second index refuses, the first one is left without the old key. */
  lemma {:induction false} ByteRefusal(befores: seq<map<Key, Rid>>, afters: seq<map<Key, Rid>>,
      records: map<Rid, Bytes>, rid: Rid, other: Rid)
    requires TwoLetters(records, rid, other) && |befores| == |afters| == 2
    requires Agrees(befores[0], records, ByteIndex(LETTER)) && Agrees(befores[1], records, ByteIndex(DIGIT))
    ensures Clashes(ByteIndex(DIGIT), befores[1], rid, [1, 1], [3, 2])
    ensures Refused([ByteIndex(LETTER), ByteIndex(DIGIT)], befores, afters, rid, [1, 1], [3, 2]) ==>
        KeyOf(ByteIndex(LETTER), [1, 1]) !in afters[0]
  {
    hide KeyOf, KeyBytes, ByteIndex;
    ByteKeys(LETTER);
    ByteKeys(DIGIT);
    var metas := [ByteIndex(LETTER), ByteIndex(DIGIT)];
    assert 2 in befores[1] && befores[1][2] == other by {
      assert other in records;
    }
    assert 3 !in befores[0];
    if Refused(metas, befores, afters, rid, [1, 1], [3, 2]) {
      var b :| RefusedBy(metas, befores, afters, b, rid, [1, 1], [3, 2]);
      assert !Clashes(metas[0], befores[0], rid, [1, 1], [3, 2]);
      assert KeyOut(metas[0], afters[0], befores[0], [1, 1], [3, 2]);
    }
  }

  lemma {:induction false} ByteLayout()
    ensures LaidOut([ByteIndex(LETTER), ByteIndex(DIGIT)], ByteSets())
  {
  }

  /**
    Two rows, two indexes: the update clashes in the second index, and the first one has lost the key of a live record.
   */
  method RefusedUpdateLosesKey(order: nat) returns (t: Table, rid: Rid, ok: bool)
    requires order >= 3
    ensures fresh(t) && t.Shape() && t.Sound() && !ok && |t.metas| == |t.indexes| == 2
    ensures rid in t.file.contents && KeyOf(t.metas[0], t.file.contents[rid]) !in t.indexes[0].Contents()
  {
    hide IxIndexHandle.Valid, IxIndexHandle.Contents, RmFileHandle.Valid, KeyBytes, KeyOf, ByteRank, ByteIndex,
        Clashes, Refused, LaidOut, Agrees, ByteSets, ApplySets;
    ByteKeys(LETTER);
    ByteKeys(DIGIT);
    t := new Table(2, order, [ByteIndex(LETTER), ByteIndex(DIGIT)]);
    var other;
    NotTaken(t, [1, 1]);
    ok, rid := t.Insert([1, 1]);
    NotTaken(t, [2, 2]);
    ok, other := t.Insert([2, 2]);
    assert t.file.contents == map[rid := [1, 1], other := [2, 2]];
    InFile(t.file, rid);
    ByteLayout();
    ByteUpdate();
    ghost var befores, records := t.Snapshot(), t.file.contents;
    ok := t.UpdateOne(rid, ByteSets(), true);
    ByteRefusal(befores, t.Snapshot(), records, rid, other);
  }

  lemma {:induction false} NotTaken(t: Table, rec: Bytes)
    requires t.Valid() && forall r, k :: r in t.file.contents && 0 <= k < |t.metas| ==>
        KeyOf(t.metas[k], t.file.contents[r]) != KeyOf(t.metas[k], rec)
    ensures !t.Taken(rec)
  {
    hide IxIndexHandle.Valid, IxIndexHandle.Contents, RmFileHandle.Valid, KeyOf;
  }

  lemma {:induction false} InFile(f: RmFileHandle, rid: Rid)
    requires f.Valid() && rid in f.contents
    ensures rid.page_no != 0 && 0 <= rid.slot_no < f.perPage
  {
    HoldsThere(f.pages, f.perPage, f.contents, rid);
  }
}

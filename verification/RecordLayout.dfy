/**
  Records as bytes: the columns of a record, the keys made of them, and the SET clauses of an update.
 */
module RecordLayout {
  import opened RmBitmap
  import opened RmFile
  import opened IxLevels

  datatype ColMeta = ColMeta(name: string, offset: nat, len: nat)

  /** The columns of an index, and the place of a key among all keys of the index. */
  datatype IndexMeta = IndexMeta(cols: seq<ColMeta>, rank: Bytes -> Key)

  /** A column and the expression it is set to, over the record as it stands. */
  datatype SetClause = SetClause(lhs: ColMeta, value: Bytes -> Bytes)

  function Field(rec: Bytes, c: ColMeta): Bytes
  {
    if c.offset + c.len <= |rec| then rec[c.offset..c.offset + c.len] else []
  }

  function KeyBytes(cols: seq<ColMeta>, rec: Bytes): Bytes
  {
    if cols == [] then [] else KeyBytes(cols[..|cols| - 1], rec) + Field(rec, cols[|cols| - 1])
  }

  function KeyOf(m: IndexMeta, rec: Bytes): Key
  {
    m.rank(KeyBytes(m.cols, rec))
  }

  lemma {:induction false} RankIsKey(m: IndexMeta, rec: Bytes)
    ensures KeyOf(m, rec) == m.rank(KeyBytes(m.cols, rec))
  {
  }

  /** The key of a record, copied column by column. */
  method MakeKey(cols: seq<ColMeta>, rec: Bytes) returns (key: Bytes)
    ensures key == KeyBytes(cols, rec)
    ensures HasColumns(cols, rec) ==> Laid(key, cols, rec)
  {
    key := [];
    for i := 0 to |cols|
      invariant key == KeyBytes(cols[..i], rec)
    {
      assert cols[..i + 1][..i] == cols[..i];
      key := key + Field(rec, cols[i]);
    }
    assert cols[..|cols|] == cols;
    if HasColumns(cols, rec) {
      KeyLayout(cols, rec);
    }
  }

  function SetField(rec: Bytes, c: ColMeta, v: Bytes): Bytes
  {
    if c.offset + c.len <= |rec| && |v| == c.len then rec[..c.offset] + v + rec[c.offset + c.len..] else rec
  }

  function ApplySets(rec: Bytes, sets: seq<SetClause>): Bytes
  {
    if sets == [] then rec
    else
      var before := ApplySets(rec, sets[..|sets| - 1]);
      var s := sets[|sets| - 1];
      SetField(before, s.lhs, s.value(before))
  }

  predicate Apart(c: ColMeta, d: ColMeta)
  {
    c.offset + c.len <= d.offset || d.offset + d.len <= c.offset
  }

  /** Columns of different names do not overlap. */
  predicate LaidOut(metas: seq<IndexMeta>, sets: seq<SetClause>)
  {
    forall i, j, s ::
      0 <= i < |metas| && 0 <= j < |metas[i].cols| && 0 <= s < |sets| && metas[i].cols[j].name != sets[s].lhs.name ==>
      Apart(metas[i].cols[j], sets[s].lhs)
  }

  predicate Touches(m: IndexMeta, sets: seq<SetClause>)
  {
    exists j, s :: 0 <= j < |m.cols| && 0 <= s < |sets| && m.cols[j].name == sets[s].lhs.name
  }

  lemma {:induction false} FieldKept(rec: Bytes, c: ColMeta, v: Bytes, d: ColMeta)
    requires Apart(d, c)
    ensures Field(SetField(rec, c, v), d) == Field(rec, d)
  {
    var r := SetField(rec, c, v);
    if r != rec && d.offset + d.len <= |rec| {
      assert forall i :: d.offset <= i < d.offset + d.len ==> r[i] == rec[i];
      assert r[d.offset..d.offset + d.len] == rec[d.offset..d.offset + d.len];
    }
  }

  lemma {:induction false} KeyKeptOnce(cols: seq<ColMeta>, rec: Bytes, c: ColMeta, v: Bytes)
    requires forall j :: 0 <= j < |cols| ==> Apart(cols[j], c)
    ensures KeyBytes(cols, SetField(rec, c, v)) == KeyBytes(cols, rec)
  {
    if cols != [] {
      KeyKeptOnce(cols[..|cols| - 1], rec, c, v);
      FieldKept(rec, c, v, cols[|cols| - 1]);
    }
  }

  /** An update that sets no column of an index keeps the key of the record in it. */
  lemma {:induction false} UntouchedKey(metas: seq<IndexMeta>, sets: seq<SetClause>, i: nat, rec: Bytes)
    requires i < |metas| && LaidOut(metas, sets) && !Touches(metas[i], sets)
    ensures KeyBytes(metas[i].cols, ApplySets(rec, sets)) == KeyBytes(metas[i].cols, rec)
  {
    if sets != [] {
      var n := |sets| - 1;
      var before := ApplySets(rec, sets[..n]);
      assert LaidOut(metas, sets[..n]) && !Touches(metas[i], sets[..n]);
      UntouchedKey(metas, sets[..n], i, rec);
      KeyKeptOnce(metas[i].cols, before, sets[n].lhs, sets[n].value(before));
    }
  }

  // ---------- records byte by byte ----------

  predicate InColumn(c: ColMeta, p: int)
  {
    c.offset <= p < c.offset + c.len
  }

  /** The record is long enough for the column. */
  predicate Inside(c: ColMeta, rec: Bytes)
  {
    c.offset + c.len <= |rec|
  }

  predicate HasColumns(cols: seq<ColMeta>, rec: Bytes)
  {
    forall i :: 0 <= i < |cols| ==> Inside(cols[i], rec)
  }

  /** The length of the columns together. */
  function Width(cols: seq<ColMeta>): nat
  {
    if cols == [] then 0 else Width(cols[..|cols| - 1]) + cols[|cols| - 1].len
  }

  /** From position `at` on, the key repeats the bytes of the column. */
  predicate Repeats(key: Bytes, at: nat, c: ColMeta, rec: Bytes)
  {
    && Inside(c, rec) && at + c.len <= |key|
    && forall k :: at <= k < at + c.len ==> key[k] == rec[k - at + c.offset]
  }

  /** The key is made of the bytes of its columns, one column behind the other. */
  predicate Laid(key: Bytes, cols: seq<ColMeta>, rec: Bytes)
  {
    |key| == Width(cols) && forall i :: 0 <= i < |cols| ==> LaidAt(key, cols, rec, i)
  }

  /** Column `i` stands behind the columns before it. */
  predicate LaidAt(key: Bytes, cols: seq<ColMeta>, rec: Bytes, i: nat)
    requires i < |cols|
  {
    Repeats(key, Width(cols[..i]), cols[i], rec)
  }

  /** The key of a record is laid out so. */
  lemma {:induction false} KeyLayout(cols: seq<ColMeta>, rec: Bytes)
    requires HasColumns(cols, rec)
    ensures Laid(KeyBytes(cols, rec), cols, rec)
  {
    if cols != [] {
      var n := |cols| - 1;
      assert forall i :: 0 <= i < n ==> cols[..n][i] == cols[i];
      KeyLayout(cols[..n], rec);
      LaidMore(KeyBytes(cols[..n], rec), cols, rec);
    }
  }

  lemma {:induction false} LaidMore(front: Bytes, cols: seq<ColMeta>, rec: Bytes)
    requires cols != [] && HasColumns(cols, rec) && Laid(front, cols[..|cols| - 1], rec)
    ensures Laid(front + Field(rec, cols[|cols| - 1]), cols, rec)
  {
    var n := |cols| - 1;
    RepeatsLast(front, cols[n], rec);
    hide Repeats, Field, LaidAt;
    forall i | 0 <= i < |cols| ensures LaidAt(front + Field(rec, cols[n]), cols, rec, i) {
      if i < n {
        assert LaidAt(front, cols[..n], rec, i);
        LaidStill(front, cols, rec, i, Field(rec, cols[n]));
      } else {
        LaidLast(front, cols, rec);
      }
    }
  }

  lemma {:induction false} LaidLast(front: Bytes, cols: seq<ColMeta>, rec: Bytes)
    requires cols != [] && HasColumns(cols, rec) && |front| == Width(cols[..|cols| - 1])
    ensures LaidAt(front + Field(rec, cols[|cols| - 1]), cols, rec, |cols| - 1)
  {
    hide Width;
    RepeatsLast(front, cols[|cols| - 1], rec);
  }

  lemma {:induction false} LaidStill(front: Bytes, cols: seq<ColMeta>, rec: Bytes, i: nat, more: Bytes)
    requires i < |cols| - 1 && LaidAt(front, cols[..|cols| - 1], rec, i)
    ensures LaidAt(front + more, cols, rec, i)
  {
    hide Width;
    var shorter := cols[..|cols| - 1];
    assert shorter[i] == cols[i] && shorter[..i] == cols[..i];
    RepeatsMore(front, Width(cols[..i]), cols[i], rec, more);
  }

  lemma {:induction false} RepeatsLast(front: Bytes, c: ColMeta, rec: Bytes)
    requires Inside(c, rec)
    ensures |front + Field(rec, c)| == |front| + c.len && Repeats(front + Field(rec, c), |front|, c, rec)
  {
  }

  lemma {:induction false} RepeatsMore(front: Bytes, at: nat, c: ColMeta, rec: Bytes, more: Bytes)
    requires Repeats(front, at, c, rec)
    ensures Repeats(front + more, at, c, rec)
  {
  }

  predicate SameBytes(c: ColMeta, a: Bytes, b: Bytes)
    requires Inside(c, a) && Inside(c, b)
  {
    forall p :: c.offset <= p < c.offset + c.len ==> a[p] == b[p]
  }

  /** The records have the same bytes in every one of the columns. */
  predicate SameColumns(cols: seq<ColMeta>, a: Bytes, b: Bytes)
    requires HasColumns(cols, a) && HasColumns(cols, b)
  {
    forall i :: 0 <= i < |cols| ==> SameBytes(cols[i], a, b)
  }

  lemma {:induction false} SameField(c: ColMeta, a: Bytes, b: Bytes)
    requires Inside(c, a) && Inside(c, b)
    ensures Field(a, c) == Field(b, c) <==> SameBytes(c, a, b)
  {
    var x, y := Field(a, c), Field(b, c);
    if x == y {
      forall p | c.offset <= p < c.offset + c.len ensures a[p] == b[p] {
        assert x[p - c.offset] == y[p - c.offset];
      }
    }
  }

  /** Two records have the same key exactly when they agree on every byte of every column of it. */
  lemma {:induction false} SameKey(cols: seq<ColMeta>, a: Bytes, b: Bytes)
    requires HasColumns(cols, a) && HasColumns(cols, b)
    ensures KeyBytes(cols, a) == KeyBytes(cols, b) <==> SameColumns(cols, a, b)
  {
    hide Field, SameBytes, Inside;
    if cols != [] {
      var n := |cols| - 1;
      var c := cols[n];
      assert forall i :: 0 <= i < n ==> cols[..n][i] == cols[i];
      SameKey(cols[..n], a, b);
      SameField(c, a, b);
      FieldLength(c, a);
      FieldLength(c, b);
      var x, y := KeyBytes(cols[..n], a), KeyBytes(cols[..n], b);
      Cut(x, Field(a, c), y, Field(b, c));
    }
  }

  lemma {:induction false} FieldLength(c: ColMeta, rec: Bytes)
    requires Inside(c, rec)
    ensures |Field(rec, c)| == c.len
  {
  }

  lemma {:induction false} Cut(x: Bytes, u: Bytes, y: Bytes, v: Bytes)
    requires |u| == |v|
    ensures x + u == y + v <==> x == y && u == v
  {
    if x + u == y + v {
      assert |x| == |y|;
      assert (x + u)[..|x|] == x && (y + v)[..|y|] == y;
      assert (x + u)[|x|..] == u && (y + v)[|y|..] == v;
    }
  }

  /** The value stands in the column. */
  predicate Stands(rec: Bytes, c: ColMeta, v: Bytes)
  {
    Inside(c, rec) && |v| == c.len && forall k :: 0 <= k < c.len ==> rec[c.offset + k] == v[k]
  }

  /** Writing a value that fits changes the bytes of its column to those of the value, and no others. */
  lemma {:induction false} SetFieldBytes(rec: Bytes, c: ColMeta, v: Bytes)
    requires Inside(c, rec) && |v| == c.len
    ensures |SetField(rec, c, v)| == |rec| && Stands(SetField(rec, c, v), c, v)
    ensures forall p :: 0 <= p < |rec| && !InColumn(c, p) ==> SetField(rec, c, v)[p] == rec[p]
  {
  }

  /** Every clause sets a column of the record and gives a value of its length. */
  ghost predicate Fitting(rec: Bytes, sets: seq<SetClause>)
  {
    forall s :: 0 <= s < |sets| ==> FittingOne(rec, sets[s])
  }

  ghost predicate FittingOne(rec: Bytes, s: SetClause)
  {
    Inside(s.lhs, rec) && forall x: Bytes :: |x| == |rec| ==> |s.value(x)| == s.lhs.len
  }

  /** No later clause writes to the column of clause `s`. */
  predicate LastWord(sets: seq<SetClause>, s: nat)
    requires s < |sets|
  {
    forall t :: s < t < |sets| ==> Apart(sets[s].lhs, sets[t].lhs)
  }

  predicate Outside(sets: seq<SetClause>, p: nat)
  {
    forall s :: 0 <= s < |sets| ==> !InColumn(sets[s].lhs, p)
  }

  /**
    The record after the clauses: each column that no later clause writes to holds what its clause gave for the record
    as it then was, and the bytes outside the columns are as they were.
   */
  ghost predicate SetTo(was: Bytes, now: Bytes, sets: seq<SetClause>)
  {
    && |now| == |was|
    && (forall p :: 0 <= p < |was| && Outside(sets, p) ==> now[p] == was[p])
    && (forall s :: 0 <= s < |sets| && LastWord(sets, s) ==> ClauseDone(was, now, sets, s))
  }

  predicate ClauseDone(was: Bytes, now: Bytes, sets: seq<SetClause>, s: nat)
    requires s < |sets|
  {
    Stands(now, sets[s].lhs, sets[s].value(ApplySets(was, sets[..s])))
  }

  /** What the SET clauses do to a record. */
  lemma {:induction false} ApplySetsBytes(rec: Bytes, sets: seq<SetClause>)
    requires Fitting(rec, sets)
    ensures SetTo(rec, ApplySets(rec, sets), sets)
  {
    if sets != [] {
      var n := |sets| - 1;
      var front, last := sets[..n], sets[n];
      assert forall s :: 0 <= s < n ==> front[s] == sets[s];
      ApplySetsBytes(rec, front);
      assert FittingOne(rec, last);
      var before, now := ApplySets(rec, front), ApplySets(rec, sets);
      var v := last.value(before);
      assert now == SetField(before, last.lhs, v);
      SetFieldBytes(before, last.lhs, v);
      hide ApplySets, SetField, Fitting, FittingOne, Stands, InColumn, Inside, Apart;
      forall p | 0 <= p < |rec| && Outside(sets, p) ensures now[p] == rec[p] {
        assert Outside(front, p) && !InColumn(last.lhs, p);
      }
      forall s | 0 <= s < |sets| && LastWord(sets, s)
        ensures ClauseDone(rec, now, sets, s)
      {
        if s < n {
          assert ClauseDone(rec, before, front, s) by {
            assert LastWord(front, s);
          }
          assert front[..s] == sets[..s] && Apart(sets[s].lhs, sets[n].lhs);
          StandsStill(before, now, sets[s].lhs, last.lhs, sets[s].value(ApplySets(rec, sets[..s])));
        }
      }
    }
  }

  /** What the first clauses did is still there where the last one does not write. */
  lemma {:induction false} StandsStill(before: Bytes, now: Bytes, c: ColMeta, d: ColMeta, v: Bytes)
    requires Stands(before, c, v) && Apart(c, d) && |now| == |before|
    requires forall p :: 0 <= p < |before| && !InColumn(d, p) ==> now[p] == before[p]
    ensures Stands(now, c, v)
  {
    forall k | 0 <= k < c.len ensures now[c.offset + k] == v[k] {
      assert !InColumn(d, c.offset + k);
    }
  }
}

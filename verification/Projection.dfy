/**
  Projection by runs: neighbouring columns are copied together.
 */
module Projection {
  import opened RmBitmap

  /** Where a column stands in the records of the child. */
  datatype Column = Column(offset: nat, len: nat)

  datatype Run = Run(src: nat, dst: nat, len: nat)

  predicate Selects(cols: seq<Column>, sel: seq<nat>)
  {
    forall i :: 0 <= i < |sel| ==> sel[i] < |cols|
  }

  /** A record that has all the columns. */
  predicate Covers(rec: Bytes, cols: seq<Column>)
  {
    forall i :: 0 <= i < |cols| ==> cols[i].offset + cols[i].len <= |rec|
  }

  function Width(cols: seq<Column>, sel: seq<nat>): nat
    requires Selects(cols, sel)
  {
    if sel == [] then 0 else Width(cols, sel[..|sel| - 1]) + cols[sel[|sel| - 1]].len
  }

  /** The selected columns, each copied by itself. */
  function Separate(cols: seq<Column>, sel: seq<nat>, rec: Bytes): (r: Bytes)
    requires Selects(cols, sel) && Covers(rec, cols)
    ensures |r| == Width(cols, sel)
  {
    if sel == [] then []
    else
      var c := cols[sel[|sel| - 1]];
      Separate(cols, sel[..|sel| - 1], rec) + rec[c.offset..c.offset + c.len]
  }

  /** Runs that fill the output without a gap from 0 to `end`. */
  predicate Fills(runs: seq<Run>, end: nat)
  {
    if runs == [] then end == 0
    else
      var last := runs[|runs| - 1];
      last.dst + last.len == end && Fills(runs[..|runs| - 1], last.dst)
  }

  predicate Within(runs: seq<Run>, rec: Bytes)
  {
    forall i :: 0 <= i < |runs| ==> runs[i].src + runs[i].len <= |rec|
  }

  function Gather(runs: seq<Run>, rec: Bytes): Bytes
    requires Within(runs, rec)
  {
    if runs == [] then []
    else
      var last := runs[|runs| - 1];
      Gather(runs[..|runs| - 1], rec) + rec[last.src..last.src + last.len]
  }

  /** The runs copy what the selected columns say, from any record. */
  ghost predicate Copies(runs: seq<Run>, cols: seq<Column>, sel: seq<nat>)
    requires Selects(cols, sel)
  {
    && Fills(runs, Width(cols, sel))
    && forall rec: Bytes :: Covers(rec, cols) ==> CopiesFrom(runs, cols, sel, rec)
  }

  ghost predicate CopiesFrom(runs: seq<Run>, cols: seq<Column>, sel: seq<nat>, rec: Bytes)
    requires Selects(cols, sel) && Covers(rec, cols)
  {
    Within(runs, rec) && Gather(runs, rec) == Separate(cols, sel, rec)
  }

  lemma {:induction false} OneRun(cols: seq<Column>, i: nat)
    requires i < |cols|
    ensures Copies([Run(cols[i].offset, 0, cols[i].len)], cols, [i])
  {
    var runs := [Run(cols[i].offset, 0, cols[i].len)];
    NoRuns(cols);
    Append([], cols, [], i);
    assert [] + runs == runs && [] + [i] == [i];
  }

  /** A column that starts where the last run ends makes that run longer. */
  lemma {:induction false} Extend(runs: seq<Run>, cur: Run, cols: seq<Column>, sel: seq<nat>, i: nat)
    requires Selects(cols, sel) && Copies(runs + [cur], cols, sel) && i < |cols| && cur.src + cur.len == cols[i].offset
    ensures Copies(runs + [cur.(len := cur.len + cols[i].len)], cols, sel + [i])
  {
    var longer := cur.(len := cur.len + cols[i].len);
    FillsMore(runs, cur, Width(cols, sel), cols[i].len);
    WidthMore(cols, sel, i);
    forall rec: Bytes | Covers(rec, cols) ensures CopiesFrom(runs + [longer], cols, sel + [i], rec) {
      assert CopiesFrom(runs + [cur], cols, sel, rec);
      ExtendFrom(runs, cur, cols, sel, i, rec);
    }
  }

  lemma {:induction false} FillsMore(runs: seq<Run>, cur: Run, end: nat, len: nat)
    requires Fills(runs + [cur], end)
    ensures Fills(runs + [cur.(len := cur.len + len)], end + len)
  {
    assert (runs + [cur])[..|runs|] == runs && (runs + [cur.(len := cur.len + len)])[..|runs|] == runs;
  }

  lemma {:induction false} GatherMore(runs: seq<Run>, run: Run, rec: Bytes)
    ensures Within(runs + [run], rec) <==> Within(runs, rec) && run.src + run.len <= |rec|
    ensures Within(runs + [run], rec) ==>
        Gather(runs + [run], rec) == Gather(runs, rec) + rec[run.src..run.src + run.len]
  {
    var more := runs + [run];
    assert more[..|runs|] == runs;
    assert forall k :: 0 <= k < |runs| ==> more[k] == runs[k];
    assert more[|runs|] == run;
  }

  lemma {:induction false} SeparateMore(cols: seq<Column>, sel: seq<nat>, i: nat, rec: Bytes)
    requires Selects(cols, sel) && Covers(rec, cols) && i < |cols|
    ensures Separate(cols, sel + [i], rec) == Separate(cols, sel, rec) +
        rec[cols[i].offset..cols[i].offset + cols[i].len]
  {
    assert (sel + [i])[..|sel|] == sel;
  }

  lemma {:induction false} Joint(x: Bytes, rec: Bytes, a: nat, b: nat, c: nat)
    requires a <= b <= c <= |rec|
    ensures x + rec[a..b] + rec[b..c] == x + rec[a..c]
  {
    assert rec[a..b] + rec[b..c] == rec[a..c];
  }

  lemma {:induction false} ExtendFrom(runs: seq<Run>, cur: Run, cols: seq<Column>, sel: seq<nat>, i: nat, rec: Bytes)
    requires Selects(cols, sel) && Covers(rec, cols) && i < |cols| && cur.src + cur.len == cols[i].offset &&
        CopiesFrom(runs + [cur], cols, sel, rec)
    ensures CopiesFrom(runs + [cur.(len := cur.len + cols[i].len)], cols, sel + [i], rec)
  {
    hide Gather, Within, Separate;
    GatherMore(runs, cur, rec);
    GatherMore(runs, cur.(len := cur.len + cols[i].len), rec);
    SeparateMore(cols, sel, i, rec);
    Joint(Gather(runs, rec), rec, cur.src, cur.src + cur.len, cur.src + cur.len + cols[i].len);
  }

  /** Any other column starts a run of its own. */
  lemma {:induction false} Append(runs: seq<Run>, cols: seq<Column>, sel: seq<nat>, i: nat)
    requires Selects(cols, sel) && Copies(runs, cols, sel) && i < |cols|
    ensures Copies(runs + [Run(cols[i].offset, Width(cols, sel), cols[i].len)], cols, sel + [i])
  {
    hide Gather, Within, Separate, Width;
    var next := Run(cols[i].offset, Width(cols, sel), cols[i].len);
    assert (runs + [next])[..|runs|] == runs;
    WidthMore(cols, sel, i);
    forall rec: Bytes | Covers(rec, cols) ensures CopiesFrom(runs + [next], cols, sel + [i], rec) {
      assert CopiesFrom(runs, cols, sel, rec);
      GatherMore(runs, next, rec);
      SeparateMore(cols, sel, i, rec);
    }
  }

  class ProjectionExecutor {
    const cols: seq<Column>
    const sel: seq<nat>
    const runs: seq<Run>
    const buf: array<bv8>

    ghost predicate Valid()
    {
      Selects(cols, sel) && Copies(runs, cols, sel) && buf.Length == Width(cols, sel)
    }

    /** Merges columns that are neighbours in the record of the child and in the selection. */
    constructor (cols: seq<Column>, sel: seq<nat>)
      requires Selects(cols, sel)
      ensures Valid() && this.cols == cols && this.sel == sel && fresh(buf)
    {
      hide Copies, Width;
      var done: seq<Run> := [];
      var length := 0;
      NoRuns(cols);
      if sel != [] {
        var cur := Run(cols[sel[0]].offset, 0, cols[sel[0]].len);
        OneRun(cols, sel[0]);
        assert sel[..1] == [sel[0]] && done + [cur] == [cur] && [] + [sel[0]] == [sel[0]];
        length := cols[sel[0]].len;
        WidthMore(cols, [], sel[0]);
        for i := 1 to |sel|
          invariant Selects(cols, sel[..i]) && Copies(done + [cur], cols, sel[..i]) && length == Width(cols, sel[..i])
          invariant cur.src + cur.len == cols[sel[i - 1]].offset + cols[sel[i - 1]].len
        {
          var prev, next := cols[sel[i - 1]], cols[sel[i]];
          assert sel[..i + 1] == sel[..i] + [sel[i]];
          WidthMore(cols, sel[..i], sel[i]);
          if prev.offset + prev.len == next.offset {
            Extend(done, cur, cols, sel[..i], sel[i]);
            cur := cur.(len := cur.len + next.len);
          } else {
            Append(done + [cur], cols, sel[..i], sel[i]);
            done := done + [cur];
            cur := Run(next.offset, length, next.len);
          }
          length := length + next.len;
        }
        assert sel[..|sel|] == sel;
        done := done + [cur];
      }
      this.cols, this.sel, runs := cols, sel, done;
      buf := new bv8[length];
    }

    /** One `memcpy`. */
    method CopyRun(run: Run, rec: Bytes)
      requires run.dst + run.len <= buf.Length && run.src + run.len <= |rec|
      modifies buf
      ensures buf[..run.dst + run.len] == old(buf[..run.dst]) + rec[run.src..run.src + run.len]
    {
      for i := 0 to run.len
        invariant buf[..run.dst + i] == old(buf[..run.dst]) + rec[run.src..run.src + i]
      {
        buf[run.dst + i] := rec[run.src + i];
      }
    }

    /** All the runs, each behind the ones before it. */
    method CopyRuns(rec: Bytes)
      requires Fills(runs, buf.Length) && Within(runs, rec)
      modifies buf
      ensures buf[..] == Gather(runs, rec)
    {
      hide *;
      FillsUp(runs, buf.Length);
      NoGather(rec);
      ghost var done: nat := 0;
      for k := 0 to |runs|
        invariant Fills(runs[..k], done) && Within(runs[..k], rec) && (k == |runs| ==> done == buf.Length)
        invariant done <= buf.Length && buf[..done] == Gather(runs[..k], rec)
      {
        NextRun(runs, buf.Length, k, done, rec);
        CopyRun(runs[k], rec);
        done := runs[k].dst + runs[k].len;
      }
      assert runs[..|runs|] == runs && buf[..done] == buf[..];
    }

    /** The projected record, in the buffer that every call reuses. */
    method Next(rec: Bytes)
      requires Valid() && Covers(rec, cols)
      modifies buf
      ensures buf[..] == Separate(cols, sel, rec)
    {
      assert CopiesFrom(runs, cols, sel, rec);
      CopyRuns(rec);
    }
  }

  lemma {:induction false} NextRun(runs: seq<Run>, end: nat, k: nat, done: nat, rec: Bytes)
    requires Fills(runs, end) && Within(runs, rec) && k < |runs| && Fills(runs[..k], done) && Within(runs[..k], rec)
    ensures var run := runs[k];
            && run.dst == done && done + run.len <= end && run.src + run.len <= |rec| &&
                (k + 1 == |runs| ==> done + run.len == end)
            && Fills(runs[..k + 1], done + run.len) && Within(runs[..k + 1], rec)
            && Gather(runs[..k + 1], rec) == Gather(runs[..k], rec) + rec[run.src..run.src + run.len]
  {
    hide Fills, Gather, Within;
    assert runs[..k + 1] == runs[..k] + [runs[k]];
    FillsUp(runs, end);
    FillsAt(runs, end, k, done);
    WithinAt(runs, rec, k);
    GatherMore(runs[..k], runs[k], rec);
  }

  lemma {:induction false} NoGather(rec: Bytes)
    ensures Fills([], 0) && Within([], rec) && Gather([], rec) == []
  {
  }

  lemma {:induction false} WithinAt(runs: seq<Run>, rec: Bytes, k: nat)
    requires Within(runs, rec) && k < |runs|
    ensures runs[k].src + runs[k].len <= |rec|
  {
  }

  lemma {:induction false} NoRuns(cols: seq<Column>)
    ensures Copies([], cols, []) && Width(cols, []) == 0
  {
  }

  lemma {:induction false} WidthMore(cols: seq<Column>, sel: seq<nat>, i: nat)
    requires Selects(cols, sel) && i < |cols|
    ensures Width(cols, sel + [i]) == Width(cols, sel) + cols[i].len
  {
    assert (sel + [i])[..|sel|] == sel;
  }

  lemma {:induction false} FillsUp(runs: seq<Run>, end: nat)
    requires Fills(runs, end)
    ensures forall k :: 0 <= k < |runs| ==> runs[k].dst + runs[k].len <= end
    ensures runs == [] ==> end == 0
  {
    if runs != [] {
      var n := |runs| - 1;
      FillsUp(runs[..n], runs[n].dst);
    }
  }

  /** A run starts where the ones before it end, and the last one ends at the end. */
  lemma {:induction false} FillsAt(runs: seq<Run>, end: nat, k: nat, done: nat)
    requires Fills(runs, end) && k < |runs| && Fills(runs[..k], done)
    ensures runs[k].dst == done && (k == |runs| - 1 ==> done + runs[k].len == end)
    ensures Fills(runs[..k + 1], done + runs[k].len)
  {
    var n := |runs| - 1;
    if k < n {
      assert runs[..n][..k] == runs[..k] && runs[..n][..k + 1] == runs[..k + 1];
      FillsAt(runs[..n], runs[n].dst, k, done);
    } else {
      FillsSame(runs[..n], done, runs[n].dst);
      assert runs[..k + 1] == runs;
    }
  }

  lemma {:induction false} FillsSame(runs: seq<Run>, a: nat, b: nat)
    requires Fills(runs, a) && Fills(runs, b)
    ensures a == b
  {
  }
}

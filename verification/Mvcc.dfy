/**
  Visibility of uncommitted records: a map from slot numbers to the transactions at work on them.
 */
module Mvcc {
  import opened Config
  import opened Options
  import opened IxLevels

  datatype RCInfo = Success | RecordInvisible | LockedConflict

  datatype HeapTupleFields = HeapTupleFields(xmin: int, xmax: int)

  class MvccMap {
    var entries: map<int, HeapTupleFields>

    /** Every entry is an insert or an update that is not committed. */
    ghost predicate Valid()
      reads this
    {
      forall s :: s in entries ==> entries[s].xmin < 0
    }

    constructor ()
      ensures Valid() && entries == map[]
    {
      entries := map[];
    }

    /** Only the transaction of the entry sees the record; without an entry everyone does. */
    method VisitRecord(slot: int, id: int, readOnly: bool) returns (r: RCInfo)
      requires Valid()
      ensures r == Success <==> slot !in entries || entries[slot].xmin == -id
      ensures r != LockedConflict
    {
      if slot !in entries { return Success; }
      var xmin, xmax := entries[slot].xmin, entries[slot].xmax;
      if xmin > 0 && xmax > 0 {
        return if id >= xmin && id <= xmax then Success else RecordInvisible;
      } else if xmin < 0 {
        return if -xmin == id then Success else RecordInvisible;
      } else if xmax < 0 {
        if readOnly {
          return if -xmax == id then Success else RecordInvisible;
        } else {
          return if -xmax != id then LockedConflict else RecordInvisible;
        }
      }
      return Success;
    }

    method InsertRecord(slot: int, id: int)
      requires Valid() && id > 0
      modifies this
      ensures Valid() && entries == old(entries)[slot := HeapTupleFields(-id, INT_MAX)]
    {
      entries := entries[slot := HeapTupleFields(-id, INT_MAX)];
    }

    method DeleteRecord(slot: int, id: int) returns (r: RCInfo)
      requires Valid()
      modifies this
      ensures Valid() && r == (if slot in old(entries) then Success else RecordInvisible)
      ensures entries == if slot in old(entries) then old(entries)[slot := old(entries)[slot].(xmax := -id)]
          else old(entries)
    {
      if slot in entries {
        entries := entries[slot := entries[slot].(xmax := -id)];
        return Success;
      }
      return RecordInvisible;
    }

    /** Ends the entry of a slot, whichever transaction commits. */
    method Commit(slot: int, id: int) returns (r: RCInfo)
      requires Valid()
      modifies this
      ensures Valid() && entries == old(entries) - {slot} && (r == Success <==> slot in old(entries))
    {
      if slot in entries {
        entries := entries - {slot};
        return Success;
      }
      return RecordInvisible;
    }
  }

  // ---------- slots of a file ----------

  function SlotOf(perPage: nat, r: Rid): int
  {
    r.page_no * perPage + r.slot_no
  }

  /** A position of the file whose number is an `int`. */
  predicate InFile(perPage: nat, r: Rid)
  {
    0 <= r.page_no && 0 <= r.slot_no < perPage && SlotOf(perPage, r) <= INT_MAX
  }

  /** Different positions have different numbers. */
  lemma {:induction false} SlotsDistinct(perPage: nat, a: Rid, b: Rid)
    requires InFile(perPage, a) && InFile(perPage, b)
    ensures SlotOf(perPage, a) == SlotOf(perPage, b) <==> a == b
    ensures SlotOf(perPage, a) / perPage == a.page_no && SlotOf(perPage, a) % perPage == a.slot_no
  {
    Parts(a.page_no, a.slot_no, perPage);
    if a.page_no < b.page_no {
      PagesApart(a.page_no, b.page_no, perPage);
    } else if b.page_no < a.page_no {
      PagesApart(b.page_no, a.page_no, perPage);
    }
  }

  lemma {:induction false} Parts(p: nat, s: nat, n: nat)
    requires s < n
    ensures (p * n + s) / n == p && (p * n + s) % n == s
  {
    var q, r := (p * n + s) / n, (p * n + s) % n;
    assert q * n + r == p * n + s;
    if q < p {
      PagesApart(q, p, n);
    } else if p < q {
      PagesApart(p, q, n);
    }
  }

  lemma {:induction false} PagesApart(p: int, q: int, n: nat)
    requires p < q
    ensures q * n >= p * n + n
  {
    var d := q - p - 1;
    assert q * n == p * n + n + d * n;
    assert d * n >= 0;
  }

  datatype Step = Write(rid: Rid, id: int) | Delete(rid: Rid, id: int) | Commit(rid: Rid, id: int)

  /** The transaction of the last insert or update of a record since the last commit on it. */
  function Pending(steps: seq<Step>, rid: Rid): Option<int>
  {
    if steps == [] then None
    else
      var n := |steps| - 1;
      match steps[n]
      case Write(r, id) => if r == rid then Some(id) else Pending(steps[..n], rid)
      case Delete(_, _) => Pending(steps[..n], rid)
      case Commit(r, _) => if r == rid then None else Pending(steps[..n], rid)
  }

  ghost predicate Tracks(m: map<int, HeapTupleFields>, perPage: nat, steps: seq<Step>)
  {
    forall r :: InFile(perPage, r) ==> TracksAt(m, perPage, steps, r)
  }

  ghost predicate TracksAt(m: map<int, HeapTupleFields>, perPage: nat, steps: seq<Step>, r: Rid)
  {
    if SlotOf(perPage, r) in m then Pending(steps, r) == Some(-m[SlotOf(perPage, r)].xmin)
        else Pending(steps, r) == None
  }

  lemma {:induction false} TrackStep(m: map<int, HeapTupleFields>, m': map<int, HeapTupleFields>, perPage: nat,
      steps: seq<Step>, step: Step)
    requires Tracks(m, perPage, steps) && InFile(perPage, step.rid)
    requires match step
             case Write(r, id) => m' == m[SlotOf(perPage, r) := HeapTupleFields(-id, INT_MAX)]
             case Delete(r, _) => m'.Keys == m.Keys && forall s :: s in m ==> m'[s].xmin == m[s].xmin
             case Commit(r, _) => m' == m - {SlotOf(perPage, r)}
    ensures Tracks(m', perPage, steps + [step])
  {
    hide InFile, SlotOf;
    forall r | InFile(perPage, r) ensures TracksAt(m', perPage, steps + [step], r) {
      SlotsDistinct(perPage, r, step.rid);
      assert TracksAt(m, perPage, steps, r);
      assert (steps + [step])[..|steps|] == steps;
    }
  }

  /** Over any run, a record is visible to a transaction exactly when no other transaction has it pending. */
  method RunVisit(perPage: nat, steps: seq<Step>, rid: Rid, id: int) returns (visible: bool)
    requires InFile(perPage, rid) && forall i :: 0 <= i < |steps| ==> InFile(perPage, steps[i].rid) && steps[i].id > 0
    ensures visible <==> Pending(steps, rid) == None || Pending(steps, rid) == Some(id)
  {
    hide InFile, SlotOf, Tracks;
    var m := new MvccMap();
    NoneTracked(perPage);
    for i := 0 to |steps|
      invariant fresh(m) && m.Valid() && Tracks(m.entries, perPage, steps[..i])
    {
      ghost var before := m.entries;
      var slot := SlotOf(perPage, steps[i].rid);
      match steps[i] {
        case Write(_, t) => m.InsertRecord(slot, t);
        case Delete(_, t) => var _ := m.DeleteRecord(slot, t);
        case Commit(_, t) => var _ := m.Commit(slot, t);
      }
      TrackStep(before, m.entries, perPage, steps[..i], steps[i]);
      assert steps[..i] + [steps[i]] == steps[..i + 1];
    }
    assert steps[..|steps|] == steps;
    TrackedAt(m.entries, perPage, steps, rid);
    var r := m.VisitRecord(SlotOf(perPage, rid), id, false);
    visible := r == Success;
  }

  lemma {:induction false} NoneTracked(perPage: nat)
    ensures Tracks(map[], perPage, [])
  {
  }

  lemma {:induction false} TrackedAt(m: map<int, HeapTupleFields>, perPage: nat, steps: seq<Step>, rid: Rid)
    requires Tracks(m, perPage, steps) && InFile(perPage, rid)
    ensures TracksAt(m, perPage, steps, rid)
  {
  }
}

/**
  The clock replacer: which frame of the buffer pool is given up next.
 */
module ClockReplacement {

  datatype FrameStatus = FrameStatus(inReplacer: bool, ref: bool)

  function Evictable(frames: seq<FrameStatus>): nat
  {
    if frames == [] then 0 else Evictable(frames[..|frames| - 1]) + if frames[|frames| - 1].inReplacer then 1 else 0
  }

  /** Changing one frame changes the count by that frame. */
  lemma {:induction false} EvictableUpdate(frames: seq<FrameStatus>, i: nat, f: FrameStatus)
    requires i < |frames|
    ensures Evictable(frames[i := f]) == Evictable(frames) - (if frames[i].inReplacer then 1 else 0) +
        (if f.inReplacer then 1 else 0)
  {
    var n := |frames| - 1;
    if i < n {
      EvictableUpdate(frames[..n], i, f);
      assert frames[i := f][..n] == frames[..n][i := f];
    } else {
      assert frames[i := f][..n] == frames[..n];
    }
  }

  lemma {:induction false} EvictableSome(frames: seq<FrameStatus>)
    ensures Evictable(frames) > 0 <==> exists i :: 0 <= i < |frames| && frames[i].inReplacer
  {
    if frames != [] {
      var n := |frames| - 1;
      EvictableSome(frames[..n]);
      if i :| 0 <= i < |frames| && frames[i].inReplacer {
        assert i < n ==> frames[..n][i].inReplacer;
      }
    }
  }

  // ---------- the clock ----------

  /** The frame `k` steps of the hand away. */
  function Ahead(hand: nat, k: nat, size: nat): (i: nat)
    requires hand < size && k <= size
    ensures i < size
  {
    if hand + k < size then hand + k else hand + k - size
  }

  predicate Clear(frames: seq<FrameStatus>, i: nat)
    requires i < |frames|
  {
    frames[i].inReplacer && !frames[i].ref
  }

  /** The frame `k` steps away is the first evictable one on the way that has its reference bit clear. */
  ghost predicate FirstClear(frames: seq<FrameStatus>, hand: nat, k: nat)
    requires hand < |frames|
  {
    && k < |frames| && Clear(frames, Ahead(hand, k, |frames|))
    && forall j :: 0 <= j < k ==> !Clear(frames, Ahead(hand, j, |frames|))
  }

  /** No evictable frame has its reference bit clear, and the frame `k` steps away is the first evictable one. */
  ghost predicate FirstOfAll(frames: seq<FrameStatus>, hand: nat, k: nat)
    requires hand < |frames|
  {
    && k < |frames| && frames[Ahead(hand, k, |frames|)].inReplacer
    && (forall i :: 0 <= i < |frames| ==> !Clear(frames, i))
    && forall j :: 0 <= j < k ==> !frames[Ahead(hand, j, |frames|)].inReplacer
  }

  /**
    The frame `k` steps away is chosen, and of the other frames exactly those lose their reference bit at which the hand
    stopped: the evictable ones before it, or all evictable ones if the hand went a full round.
   */
  ghost predicate Chosen(frames: seq<FrameStatus>, hand: nat, frame: nat, next: nat, after: seq<FrameStatus>)
  {
    && hand < |frames| == |after|
    && exists k :: ChosenAt(frames, hand, k, frame, next) && Cleared(frames, after, hand, k)
  }

  ghost predicate Cleared(frames: seq<FrameStatus>, after: seq<FrameStatus>, hand: nat, k: nat)
    requires hand < |frames| == |after|
  {
    forall d :: 0 <= d < |frames| && d != k ==>
      after[Ahead(hand, d, |frames|)] == ClearedFrame(frames[Ahead(hand, d, |frames|)],
          d < k || FirstOfAll(frames, hand, k))
  }

  function ClearedFrame(f: FrameStatus, passed: bool): FrameStatus
  {
    if f.inReplacer && passed then FrameStatus(true, false) else f
  }

  ghost predicate ChosenAt(frames: seq<FrameStatus>, hand: nat, k: nat, frame: nat, next: nat)
    requires hand < |frames|
  {
    && k < |frames| && frame == Ahead(hand, k, |frames|) && next == Ahead(hand, k + 1, |frames|)
    && (FirstClear(frames, hand, k) || FirstOfAll(frames, hand, k))
  }

  lemma {:induction false} EveryFrameAhead(hand: nat, size: nat, i: nat) returns (k: nat)
    requires hand < size && i < size
    ensures k < size && Ahead(hand, k, size) == i
  {
    k := if i >= hand then i - hand else i + size - hand;
  }

  lemma {:induction false} NextAhead(hand: nat, k: nat, size: nat)
    requires hand < size && k < size
    ensures (Ahead(hand, k, size) + 1) % size == Ahead(hand, k + 1, size)
    ensures Ahead(hand, size, size) == Ahead(hand, 0, size) == hand
  {
    var x := Ahead(hand, k, size) + 1;
    assert x == size ==> x % size == 0;
  }

  /**
    The frames after `n` stops of the hand: the first round clears the bits it passes, the second changes nothing more.
   */
  ghost predicate Passed(frames0: seq<FrameStatus>, frames: seq<FrameStatus>, hand: nat, n: nat)
  {
    && |frames| == |frames0| && hand < |frames0|
    && forall k :: 0 <= k < |frames0| ==> PassedAt(frames0, frames, hand, n, k)
  }

  ghost predicate PassedAt(frames0: seq<FrameStatus>, frames: seq<FrameStatus>, hand: nat, n: nat, k: nat)
    requires |frames| == |frames0| && hand < |frames0| && k < |frames0|
  {
    var i := Ahead(hand, k, |frames0|);
    frames[i] == if k < n then FrameStatus(frames0[i].inReplacer, frames0[i].ref && !frames0[i].inReplacer)
        else frames0[i]
  }

  lemma {:induction false} PassOne(frames0: seq<FrameStatus>, frames: seq<FrameStatus>, hand: nat, n: nat)
    requires Passed(frames0, frames, hand, n) && n < 2 * |frames0|
    ensures var k := if n < |frames0| then n else n - |frames0|;
            var i := Ahead(hand, k, |frames0|);
            && frames[i].inReplacer == frames0[i].inReplacer
            && (n < |frames0| ==> frames[i] == frames0[i])
            && (n >= |frames0| && frames[i].inReplacer ==> !frames[i].ref)
            && Passed(frames0, if frames[i].inReplacer then frames[i := FrameStatus(true, false)] else frames, hand,
                n + 1)
  {
    var k := if n < |frames0| then n else n - |frames0|;
    var i := Ahead(hand, k, |frames0|);
    assert PassedAt(frames0, frames, hand, n, k);
    var frames' := frames;
    if frames[i].inReplacer {
      frames' := frames[i := FrameStatus(true, false)];
    }
    var m := n + 1;
    forall j | 0 <= j < |frames0| ensures PassedAt(frames0, frames', hand, m, j) {
      assert PassedAt(frames0, frames, hand, n, j);
    }
  }

  lemma {:induction false} PassedKeeps(frames0: seq<FrameStatus>, frames: seq<FrameStatus>, hand: nat, n: nat)
    requires Passed(frames0, frames, hand, n)
    ensures forall i :: 0 <= i < |frames0| ==>
        frames[i].inReplacer == frames0[i].inReplacer && (frames[i].ref ==> frames0[i].ref)
  {
    forall i | 0 <= i < |frames0| ensures frames[i].inReplacer == frames0[i].inReplacer &&
        (frames[i].ref ==> frames0[i].ref) {
      var k := EveryFrameAhead(hand, |frames0|, i);
      assert PassedAt(frames0, frames, hand, n, k);
    }
  }

  /** Nothing was found in `n` stops. */
  ghost predicate NotFound(frames: seq<FrameStatus>, hand: nat, n: nat)
    requires hand < |frames|
  {
    && (forall j :: 0 <= j < n && j < |frames| ==> !Clear(frames, Ahead(hand, j, |frames|)))
    && (forall j :: 0 <= j < n - |frames| && j < |frames| ==> !frames[Ahead(hand, j, |frames|)].inReplacer)
  }

  lemma {:induction false} NoneClear(frames: seq<FrameStatus>, hand: nat, n: nat)
    requires hand < |frames| && NotFound(frames, hand, n)
    ensures n >= |frames| ==> forall i :: 0 <= i < |frames| ==> !Clear(frames, i)
    ensures n >= 2 * |frames| ==> forall i :: 0 <= i < |frames| ==> !frames[i].inReplacer
  {
    forall i | 0 <= i < |frames|
      ensures n >= |frames| ==> !Clear(frames, i)
      ensures n >= 2 * |frames| ==> !frames[i].inReplacer
    {
      var k := EveryFrameAhead(hand, |frames|, i);
    }
  }

  class ClockReplacer {
    var frames: seq<FrameStatus>
    var hand: nat
    var count: nat

    ghost predicate Valid()
      reads this
    {
      && (frames != [] ==> hand < |frames|)
      && count == Evictable(frames)
      && forall i :: 0 <= i < |frames| && frames[i].ref ==> frames[i].inReplacer
    }

    constructor (num: nat)
      ensures Valid() && |frames| == num && count == 0
    {
      frames := seq(num, _ => FrameStatus(false, false));
      hand, count := 0, 0;
      new;
      EvictableSome(frames);
    }

    method Pin(frame: nat)
      requires Valid()
      modifies this
      ensures Valid() && frames == if frame < |old(frames)| then old(frames)[frame := FrameStatus(false, false)]
          else old(frames)
      ensures hand == old(hand)
    {
      if frame >= |frames| { return; }
      if frames[frame].inReplacer {
        EvictableUpdate(frames, frame, FrameStatus(false, false));
        frames := frames[frame := FrameStatus(false, false)];
        count := count - 1;
      }
    }

    method Unpin(frame: nat)
      requires Valid()
      modifies this
      ensures Valid() && frames == if frame < |old(frames)| then old(frames)[frame := FrameStatus(true, true)]
          else old(frames)
      ensures hand == old(hand)
    {
      if frame >= |frames| { return; }
      EvictableUpdate(frames, frame, FrameStatus(true, true));
      if !frames[frame].inReplacer {
        frames := frames[frame := frames[frame].(inReplacer := true)];
        count := count + 1;
      }
      frames := frames[frame := frames[frame].(ref := true)];
      assert frames == old(frames)[frame := FrameStatus(true, true)];
    }

    /** The search has made `n` stops since it began with the frames and the hand as given, and has found nothing. */
    ghost predicate Searching(frames0: seq<FrameStatus>, hand0: nat, n: nat)
      reads this
    {
      && |frames| == |frames0| && hand0 < |frames0| && n <= 2 * |frames0|
      && Passed(frames0, frames, hand0, n) && NotFound(frames0, hand0, n)
      && hand == Ahead(hand0, if n < |frames0| then n else n - |frames0|, |frames0|)
      && count == Evictable(frames) == Evictable(frames0)
    }

    /** What a search that began with the given state ends with when it gives up `frame`. */
    ghost predicate GaveUp(frames0: seq<FrameStatus>, hand0: nat, frame: nat)
      reads this
    {
      && |frames| == |frames0| && frame < |frames| && hand < |frames| && Chosen(frames0, hand0, frame, hand, frames)
      && frames0[frame].inReplacer && frames[frame] == FrameStatus(false, false)
      && count == Evictable(frames) == Evictable(frames0) - 1
      && forall i :: 0 <= i < |frames| && i != frame ==>
          frames[i].inReplacer == frames0[i].inReplacer && (frames[i].ref ==> frames0[i].ref)
    }

    /** One stop of the hand. */
    method Stop(ghost frames0: seq<FrameStatus>, ghost hand0: nat, ghost n: nat) returns (found: bool, frame: nat)
      requires Searching(frames0, hand0, n) && n < 2 * |frames0|
      modifies this
      ensures if found then GaveUp(frames0, hand0, frame) else Searching(frames0, hand0, n + 1)
    {
      hide Chosen, Passed, NotFound, Ahead, Evictable;
      PassOne(frames0, frames, hand0, n);
      PassedKeeps(frames0, frames, hand0, n);
      NextAhead(hand0, if n < |frames| then n else n - |frames|, |frames|);
      StopAt(frames0, frames, hand0, n);
      found, frame := false, 0;
      if frames[hand].inReplacer {
        if frames[hand].ref {
          EvictableUpdate(frames, hand, FrameStatus(true, false));
          frames := frames[hand := frames[hand].(ref := false)];
        } else {
          EvictableUpdate(frames, hand, FrameStatus(false, false));
          found, frame := true, hand;
          frames := frames[hand := frames[hand].(inReplacer := false)];
          count := count - 1;
        }
      }
      hand := (hand + 1) % |frames|;
    }

    /**
      Gives up a frame if one is evictable: the first on the way with its bit clear, or the first one if all bits are
      set.
     */
    method Victim() returns (found: bool, frame: nat)
      requires Valid()
      modifies this
      ensures Valid()
      ensures found <==> exists i :: 0 <= i < |old(frames)| && old(frames)[i].inReplacer
      ensures if found then GaveUp(old(frames), old(hand), frame) else frames == old(frames)
    {
      hide Chosen, Passed, NotFound, Ahead, Evictable;
      EvictableSome(frames);
      if count == 0 { return false, 0; }
      found, frame := false, 0;
      var scanned := 0;
      ghost var frames0, hand0 := frames, hand;
      StartRound(frames, hand);
      NextAhead(hand, 0, |frames|);
      while scanned < |frames| * 2
        invariant Searching(frames0, hand0, scanned)
      {
        found, frame := Stop(frames0, hand0, scanned);
        if found { return; }
        scanned := scanned + 1;
      }
      NoneClear(frames0, hand0, scanned);
      found := false;
    }
  }

  lemma {:induction false} StartRound(frames: seq<FrameStatus>, hand: nat)
    requires hand < |frames|
    ensures Passed(frames, frames, hand, 0) && NotFound(frames, hand, 0)
  {
  }

  /** The frame under the hand is given up, or the search goes on. */
  lemma {:induction false} StopAt(frames0: seq<FrameStatus>, frames: seq<FrameStatus>, hand: nat, n: nat)
    requires Passed(frames0, frames, hand, n) && NotFound(frames0, hand, n) && n < 2 * |frames0|
    ensures var k := if n < |frames0| then n else n - |frames0|;
            var i := Ahead(hand, k, |frames0|);
            if Clear(frames, i)
            then Chosen(frames0, hand, i, Ahead(hand, k + 1, |frames0|), frames[i := FrameStatus(false, false)])
            else NotFound(frames0, hand, n + 1)
  {
    PassOne(frames0, frames, hand, n);
    NoneClear(frames0, hand, n);
    var k := if n < |frames0| then n else n - |frames0|;
    var i := Ahead(hand, k, |frames0|);
    if Clear(frames, i) {
      assert ChosenAt(frames0, hand, k, i, Ahead(hand, k + 1, |frames0|));
      assert FirstOfAll(frames0, hand, k) <==> n >= |frames0| by {
        assert n < |frames0| ==> Clear(frames0, i);
      }
      var after := frames[i := FrameStatus(false, false)];
      forall d | 0 <= d < |frames0| && d != k
        ensures after[Ahead(hand, d, |frames0|)] == ClearedFrame(frames0[Ahead(hand, d, |frames0|)],
            d < k || FirstOfAll(frames0, hand, k))
      {
        assert PassedAt(frames0, frames, hand, n, d);
      }
    }
  }
}

/**
  One index page as it lies in memory: two arrays and the number of slots in use, edited in place.
  The tree works with the list of pairs that `View` reads from the arrays.
 */
module IxNode {
  import opened IxLevels
  import opened IxTower
  import opened IxIndex

  /** `memmove` within one array. */
  method MemMove<T>(a: array<T>, dst: nat, src: nat, n: nat)
    requires dst + n <= a.Length && src + n <= a.Length
    modifies a
    ensures a[..] == old(a[..dst]) + old(a[src..src + n]) + old(a[dst + n..])
  {
    forall i | 0 <= i < n {
      a[dst + i] := a[src + i];
    }
  }

  /** `memcpy` from outside the page. */
  method MemCpy<T>(a: array<T>, dst: nat, from: seq<T>)
    requires dst + |from| <= a.Length
    modifies a
    ensures a[..] == old(a[..dst]) + from + old(a[dst + |from|..])
  {
    forall i | 0 <= i < |from| {
      a[dst + i] := from[i];
    }
  }

  /** Shifts the used slots from `pos` on and fills the gap. */
  method OpenGap<T>(a: array<T>, used: nat, pos: nat, from: seq<T>)
    requires pos <= used && used + |from| <= a.Length
    modifies a
    ensures a[..used + |from|] == old(a[..pos]) + from + old(a[pos..used])
  {
    ghost var tail := a[pos..used];
    if pos < used {
      MemMove(a, pos + |from|, pos, used - pos);
    }
    assert a[..pos] == old(a[..pos]);
    assert a[pos + |from|..used + |from|] == tail;
    MemCpy(a, pos, from);
    assert a[pos..pos + |from|] == from && a[pos + |from|..used + |from|] == tail;
  }

  class NodePage {
    const keys: array<Key>
    const rids: array<Rid>
    var numKey: nat

    ghost predicate Valid()
      reads this
    {
      numKey <= keys.Length == rids.Length
    }

    ghost function View(): (r: seq<Pair>)
      reads this, keys, rids
      requires Valid()
      ensures |r| == numKey
    {
      Zip(keys[..numKey], rids[..numKey])
    }

    constructor (keys: array<Key>, rids: array<Rid>)
      requires keys.Length == rids.Length
      ensures Valid() && View() == [] && this.keys == keys && this.rids == rids
    {
      this.keys, this.rids, numKey := keys, rids, 0;
    }

    /** Opens a gap at `pos` and copies the new pairs into it; fails when `pos` is no position. */
    method InsertPairsAt(pos: int, newKeys: seq<Key>, newRids: seq<Rid>) returns (ok: bool)
      requires Valid() && |newKeys| == |newRids| && numKey + |newKeys| <= keys.Length
      modifies this`numKey, keys, rids
      ensures Valid() && ok == (0 <= pos <= old(numKey))
      ensures View() == if ok then InsertPairs(old(View()), pos, Zip(newKeys, newRids)) else old(View())
    {
      ok := 0 <= pos <= numKey;
      if !ok {
        return;
      }
      var n := |newKeys|;
      ghost var ks, rs := keys[..numKey], rids[..numKey];
      OpenGap(keys, numKey, pos, newKeys);
      OpenGap(rids, numKey, pos, newRids);
      numKey := numKey + n;
      ZipInsert(ks, rs, pos, newKeys, newRids);
    }

    /** Closes the gap of the pair at `pos`. */
    method ErasePairAt(pos: int) returns (ok: bool)
      requires Valid()
      modifies this`numKey, keys, rids
      ensures Valid() && ok == (0 <= pos < old(numKey))
      ensures View() == if ok then ErasePair(old(View()), pos) else old(View())
    {
      ok := 0 <= pos < numKey;
      if !ok {
        return;
      }
      ghost var ks, rs := keys[..numKey], rids[..numKey];
      MemMove(keys, pos, pos + 1, numKey - pos - 1);
      MemMove(rids, pos, pos + 1, numKey - pos - 1);
      numKey := numKey - 1;
      assert keys[..numKey] == ks[..pos] + ks[pos + 1..];
      assert rids[..numKey] == rs[..pos] + rs[pos + 1..];
      ZipErase(ks, rs, pos);
    }
  }

  function Zip(ks: seq<Key>, rs: seq<Rid>): seq<Pair>
    requires |ks| == |rs|
  {
    seq(|ks|, i requires 0 <= i < |ks| => Pair(ks[i], rs[i]))
  }

  lemma {:induction false} ZipInsert(ks: seq<Key>, rs: seq<Rid>, pos: nat, newKeys: seq<Key>, newRids: seq<Rid>)
    requires |ks| == |rs| && pos <= |ks| && |newKeys| == |newRids|
    ensures Zip(ks[..pos] + newKeys + ks[pos..], rs[..pos] + newRids + rs[pos..]) == InsertPairs(Zip(ks, rs), pos,
        Zip(newKeys, newRids))
  {
  }

  lemma {:induction false} ZipErase(ks: seq<Key>, rs: seq<Rid>, pos: nat)
    requires |ks| == |rs| && pos < |ks|
    ensures Zip(ks[..pos] + ks[pos + 1..], rs[..pos] + rs[pos + 1..]) == ErasePair(Zip(ks, rs), pos)
  {
  }
}

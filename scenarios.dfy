/** Callers of TempKey: the documentation example, and a write through
    deref_mut followed by a comparison. */
module Scenarios {
  import opened MemSec
  import opened SecKey
  import opened Core

  /** Wrap `[8u8; 8]`; it equals `[8u8; 8]` and not `[1u8; 8]`; a second
      guard over another `[8u8; 8]` equals the first. The second guard is a
      temporary and is dropped before the first. */
  method DocExample(locks: MemoryLocks) returns (key: array<byte>, key2: array<byte>)
    modifies locks
    ensures fresh(key) && fresh(key2)
    ensures locks.requests == old(locks.requests) + [Lock(key, 8), Lock(key2, 8), Unlock(key2, 8), Unlock(key, 8)]
  {
    key := new byte[8](_ => 8);
    var guard := new TempKey(key, locks);
    assert guard.Eq(seq(8, _ => 8));
    assert !guard.Eq(seq(8, _ => 1)) by {
      assert key[0] != seq(8, _ => 1 as byte)[0];
    }
    key2 := new byte[8](_ => 8);
    var guard2 := new TempKey(key2, locks);
    assert guard.EqKey(guard2) by {
      assert key[..] == key2[..];
    }
    guard2.Drop();
    guard.Drop();
  }

  /** A whole guard lifetime over any value: construction, the comparisons,
      then drop. The lock table receives exactly one lock of the value's
      address and length followed by exactly one unlock of the same pair,
      nothing in between, and the value's bytes are left as they were. */
  method Lifetime(t: array<byte>, locks: MemoryLocks, rhs: seq<byte>)
    returns (same: bool, order: Ordering)
    requires |rhs| == t.Length
    modifies locks
    ensures locks.requests == old(locks.requests) + [Lock(t, t.Length), Unlock(t, t.Length)]
    ensures unchanged(t)
    ensures same <==> t[..] == rhs
    ensures order == Equal <==> same
  {
    var guard := new TempKey(t, locks);
    same := guard.Eq(rhs);
    var cmp := guard.PartialCmp(rhs);
    order := cmp.value;
    guard.Drop();
  }

  /** A byte written through deref_mut is what a later eq compares, and the
      guard and the lock table are left as they were. */
  method WriteThroughDerefMut(guard: TempKey, i: nat, v: byte, rhs: seq<byte>) returns (same: bool)
    requires guard.Live()
    requires i < guard.target.Length && |rhs| == guard.target.Length
    modifies guard.target
    ensures guard.target[..] == old(guard.target[..])[i := v]
    ensures same <==> old(guard.target[..])[i := v] == rhs
    ensures guard.Live() && unchanged(guard.locks)
  {
    var value := guard.DerefMut();
    value[i] := v;
    same := guard.Eq(rhs);
  }
}

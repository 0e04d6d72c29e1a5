/** TempKey: a guard that pins a caller-owned secret in memory for as long as
    the guard lives and compares it byte by byte through memeq/memcmp. */
module SecKey {
  import opened MemSec
  import opened Core

  /** Locked from construction until drop; Released afterwards, for good. */
  datatype State = Locked | Released

  class TempKey {
    /** The borrowed value: its `size_of::<T>()` bytes, owned by the caller. */
    const target: array<byte>
    /** The memory-lock table the guard's requests go to. */
    const locks: MemoryLocks
    ghost var state: State

    /** The guard has been constructed and not yet dropped. */
    ghost predicate Live()
      reads this
    {
      state == Locked
    }

    /** new: lock the value's bytes, then hold a reference to the value. */
    constructor (t: array<byte>, locks: MemoryLocks)
      modifies locks
      ensures target == t && this.locks == locks
      ensures Live()
      ensures locks.requests == old(locks.requests) + [Lock(t, t.Length)]
      ensures unchanged(t)
    {
      locks.MLock(t, t.Length);
      target := t;
      this.locks := locks;
      state := Locked;
    }

    /** deref: the wrapped value itself, not a copy of it. */
    function Deref(): (r: array<byte>)
      requires Live()
      reads this
      ensures r == target
    {
      target
    }

    /** deref_mut: mutable access to the wrapped value itself. */
    method DerefMut() returns (r: array<byte>)
      requires Live()
      ensures r == target
    {
      r := target;
    }

    /** Debug: the tag and the formatted address of the value. `pointer`
        stands for `{:p}`; as a total function of the reference alone it
        cannot see the bytes, and neither does this function (it reads
        only the guard). */
    function Fmt(pointer: array<byte> -> string): (s: string)
      requires Live()
      reads this
      ensures s == "TempKey(" + pointer(target) + ")"
    {
      "TempKey(" + pointer(target) + ")"
    }

    /** eq against a raw value: all `size_of::<T>()` bytes agree. */
    function Eq(rhs: seq<byte>): (r: bool)
      requires Live() && |rhs| == target.Length
      reads this, target
      ensures r <==> forall i :: 0 <= i < |rhs| ==> target[i] == rhs[i]
    {
      MemEq(target[..], rhs)
    }

    /** eq against another guard: eq against the value it wraps. */
    function EqKey(other: TempKey): (r: bool)
      requires Live() && other.Live() && other.target.Length == target.Length
      reads this, target, other, other.target
      ensures r <==> target[..] == other.target[..]
    {
      Eq(other.Deref()[..])
    }

    /** partial_cmp against a raw value: the sign of memcmp, always Some. */
    function PartialCmp(rhs: seq<byte>): (r: Option<Ordering>)
      requires Live() && |rhs| == target.Length
      reads this, target
      ensures r.Some?
      ensures r == Some(Less) <==> LexLess(target[..], rhs)
      ensures r == Some(Equal) <==> target[..] == rhs
      ensures r == Some(Greater) <==> LexLess(rhs, target[..])
    {
      MemCmpIsLexicographic(target[..], rhs);
      MemCmpIsLexicographic(rhs, target[..]);
      MemCmpAntisymmetric(target[..], rhs);
      Some(CmpZero(MemCmp(target[..], rhs)))
    }

    /** partial_cmp against another guard: partial_cmp against its value. */
    function PartialCmpKey(other: TempKey): (r: Option<Ordering>)
      requires Live() && other.Live() && other.target.Length == target.Length
      reads this, target, other, other.target
      ensures r.Some?
      ensures r == Some(Less) <==> LexLess(target[..], other.target[..])
      ensures r == Some(Equal) <==> target[..] == other.target[..]
      ensures r == Some(Greater) <==> LexLess(other.target[..], target[..])
    {
      PartialCmp(other.Deref()[..])
    }

    /** cmp: partial_cmp unwrapped; the unwrap cannot fail. */
    function Cmp(other: TempKey): (r: Ordering)
      requires Live() && other.Live() && other.target.Length == target.Length
      reads this, target, other, other.target
      ensures Some(r) == PartialCmpKey(other)
    {
      PartialCmpKey(other).value
    }

    /** drop: unlock the same bytes that construction locked. */
    method Drop()
      requires Live()
      modifies this, locks
      ensures state == Released
      ensures locks.requests == old(locks.requests) + [Unlock(target, target.Length)]
      ensures unchanged(target)
    {
      locks.MUnlock(target, target.Length);
      state := Released;
    }
  }

  /** Writing the value's bytes leaves the debug text as it was. */
  twostate lemma FmtIgnoresBytes(k: TempKey, pointer: array<byte> -> string)
    requires old(k.Live()) && unchanged(k)
    ensures k.Live() && k.Fmt(pointer) == old(k.Fmt(pointer))
  {
  }

  /** Equality of guards is an equivalence: reflexive, symmetric, transitive. */
  lemma EqKeyIsEquivalence(a: TempKey, b: TempKey, c: TempKey)
    requires a.Live() && b.Live() && c.Live()
    requires a.target.Length == b.target.Length == c.target.Length
    ensures a.EqKey(a)
    ensures a.EqKey(b) == b.EqKey(a)
    ensures a.EqKey(b) && b.EqKey(c) ==> a.EqKey(c)
  {
  }

  /** Ordering agrees with equality, as Eq and Ord together promise. */
  lemma CmpConsistentWithEq(a: TempKey, b: TempKey)
    requires a.Live() && b.Live() && a.target.Length == b.target.Length
    ensures a.Cmp(b) == Equal <==> a.EqKey(b)
  {
  }

  /** Swapping the operands reverses the ordering. */
  lemma CmpAntisymmetric(a: TempKey, b: TempKey)
    requires a.Live() && b.Live() && a.target.Length == b.target.Length
    ensures a.Cmp(b) == b.Cmp(a).Reverse()
  {
  }

  /** The ordering of guards is transitive. Only the Less case is stated: the
      Greater case is this one with the operands reversed (CmpAntisymmetric),
      and the Equal case is transitivity of equality (CmpConsistentWithEq and
      EqKeyIsEquivalence). */
  lemma CmpTransitive(a: TempKey, b: TempKey, c: TempKey)
    requires a.Live() && b.Live() && c.Live()
    requires a.target.Length == b.target.Length == c.target.Length
    requires a.Cmp(b) == Less && b.Cmp(c) == Less
    ensures a.Cmp(c) == Less
  {
    var x, y, z := a.target[..], b.target[..], c.target[..];
    MemCmpIsLexicographic(x, y);
    MemCmpIsLexicographic(y, z);
    MemCmpIsLexicographic(x, z);
    MemCmpTransitive(x, y, z);
  }
}

/** The memory primitives the guard depends on: pinning a byte region in RAM
    (mlock/munlock) and comparing two byte regions of the same length
    (memeq/memcmp). Their implementations and the system calls behind them
    are outside this model; they are described by what they promise. */
module MemSec {

  /** A byte of memory. Comparison of bv8 values is unsigned, as memcmp requires. */
  type byte = bv8

  /** A request issued to the operating system's memory-lock table. A region
      is identified by the array that holds it (its address) and its length. */
  datatype Request = Lock(region: array<byte>, len: nat) | Unlock(region: array<byte>, len: nat)

  /** The process-wide memory-lock table, seen through the requests it receives.
      Whether the operating system honours a request is not modelled: callers
      ignore the outcome. */
  class MemoryLocks {
    ghost var requests: seq<Request>

    constructor ()
      ensures requests == []
    {
      requests := [];
    }

    /** mlock: ask that `len` bytes starting at `region` stay resident. */
    method MLock(region: array<byte>, len: nat)
      modifies this
      ensures requests == old(requests) + [Lock(region, len)]
    {
      requests := requests + [Lock(region, len)];
    }

    /** munlock: release the residency request on `len` bytes at `region`. */
    method MUnlock(region: array<byte>, len: nat)
      modifies this
      ensures requests == old(requests) + [Unlock(region, len)]
    {
      requests := requests + [Unlock(region, len)];
    }
  }

  /** Reference order: `a` comes strictly before `b` when they agree on a
      prefix and `a` holds the smaller byte at the first position where they
      differ (unsigned lexicographic order, ISO/IEC 9899:2011 section 7.24.4.1). */
  ghost predicate LexLess(a: seq<byte>, b: seq<byte>)
    requires |a| == |b|
  {
    exists k :: 0 <= k < |a| && a[..k] == b[..k] && a[k] < b[k]
  }

  /** memeq: whether two regions of the same length hold the same bytes. */
  function MemEq(a: seq<byte>, b: seq<byte>): (r: bool)
    requires |a| == |b|
    ensures r <==> forall i :: 0 <= i < |a| ==> a[i] == b[i]
  {
    a == b
  }

  /** memcmp: a three-way comparison whose sign orders the two regions; the
      value is the difference of the first pair of bytes that differ, and
      zero when there is none. */
  function MemCmp(a: seq<byte>, b: seq<byte>): (r: int)
    requires |a| == |b|
    ensures r == 0 <==> a == b
    decreases |a|
  {
    if |a| == 0 then 0
    else if a[0] != b[0] then a[0] as int - b[0] as int
    else
      assert a == [a[0]] + a[1..] && b == [b[0]] + b[1..];
      MemCmp(a[1..], b[1..])
  }

  /** Swapping the operands negates the comparison. */
  lemma {:induction false} MemCmpAntisymmetric(a: seq<byte>, b: seq<byte>)
    requires |a| == |b|
    ensures MemCmp(a, b) == -MemCmp(b, a)
    decreases |a|
  {
    if |a| > 0 && a[0] == b[0] {
      MemCmpAntisymmetric(a[1..], b[1..]);
    }
  }

  /** The strict order given by a negative comparison is transitive. */
  lemma {:induction false} MemCmpTransitive(a: seq<byte>, b: seq<byte>, c: seq<byte>)
    requires |a| == |b| == |c|
    requires MemCmp(a, b) < 0 && MemCmp(b, c) < 0
    ensures MemCmp(a, c) < 0
    decreases |a|
  {
    if a[0] == b[0] && b[0] == c[0] {
      MemCmpTransitive(a[1..], b[1..], c[1..]);
    }
  }

  /** Where the first bytes differ, they alone decide the order. */
  lemma LexLessAtHead(a: seq<byte>, b: seq<byte>)
    requires |a| == |b| > 0 && a[0] != b[0]
    ensures LexLess(a, b) <==> a[0] < b[0]
  {
    if a[0] < b[0] {
      assert a[..0] == b[..0];
    } else {
      forall k | 0 < k <= |a|
        ensures a[..k] != b[..k]
      {
        assert a[..k][0] == a[0] && b[..k][0] == b[0];
      }
    }
  }

  /** Where the first bytes agree, the rest decides the order. */
  lemma LexLessAfterHead(a: seq<byte>, b: seq<byte>)
    requires |a| == |b| > 0 && a[0] == b[0]
    ensures LexLess(a, b) <==> LexLess(a[1..], b[1..])
  {
    var a', b' := a[1..], b[1..];
    if LexLess(a, b) {
      var k :| 0 <= k < |a| && a[..k] == b[..k] && a[k] < b[k];
      assert k > 0;
      assert a'[..k - 1] == a[..k][1..] && b'[..k - 1] == b[..k][1..];
      assert a'[k - 1] < b'[k - 1];
    }
    if LexLess(a', b') {
      var k :| 0 <= k < |a'| && a'[..k] == b'[..k] && a'[k] < b'[k];
      assert a[..k + 1] == [a[0]] + a'[..k] && b[..k + 1] == [b[0]] + b'[..k];
      assert a[k + 1] < b[k + 1];
    }
  }

  /** A negative comparison means exactly that `a` precedes `b` in the
      reference lexicographic order. */
  lemma {:induction false} MemCmpIsLexicographic(a: seq<byte>, b: seq<byte>)
    requires |a| == |b|
    ensures MemCmp(a, b) < 0 <==> LexLess(a, b)
    decreases |a|
  {
    if |a| == 0 {
    } else if a[0] != b[0] {
      LexLessAtHead(a, b);
    } else {
      MemCmpIsLexicographic(a[1..], b[1..]);
      LexLessAfterHead(a, b);
    }
  }

  /** Unsigned lexicographic order is a strict total order on regions of one
      length: exactly one of less, equal and greater holds. */
  lemma LexLessTotal(a: seq<byte>, b: seq<byte>)
    requires |a| == |b|
    ensures a == b || LexLess(a, b) || LexLess(b, a)
    ensures !(LexLess(a, b) && LexLess(b, a))
    ensures !LexLess(a, a)
  {
    MemCmpIsLexicographic(a, b);
    MemCmpIsLexicographic(b, a);
    MemCmpIsLexicographic(a, a);
    MemCmpAntisymmetric(a, b);
  }
}

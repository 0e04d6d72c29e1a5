# seckey TempKey, modelled in Dafny

`TempKey` is a guard around a caller-owned secret of a fixed-size, copyable
type `T`. Constructing it asks the operating system, through memsec's
`mlock`, to keep the `size_of::<T>()` bytes of the value resident in RAM.
Dropping it asks, through `munlock`, to release the same bytes. While it
lives it gives read and write access to the value. It compares the value
byte by byte with a raw `T` or with another guard, using memsec's
constant-time `memeq` and `memcmp`. Its debug text shows only the value's
address.

The model has four modules:

- `MemSec` (memsec.dfy) stands for the memsec primitives. A byte is a `bv8`.
  `MemoryLocks` is the process-wide memory-lock table. It records the
  `Lock`/`Unlock` requests it receives in a ghost log. A region is named by
  the array that holds it (its address) and a length. `MemEq` is byte-wise
  equality. `MemCmp` is a three-way comparison whose sign follows the
  reference unsigned lexicographic order `LexLess`, which is the `memcmp`
  contract of ISO/IEC 9899:2011 section 7.24.4.1. The lemmas prove that this
  order is antisymmetric, transitive and total.
- `Core` (core.dfy) holds what the guard returns: `Option`, `Ordering`, and
  `CmpZero`, which is `i32::cmp(&0)`.
- `SecKey` (tempkey.dfy) holds the class `TempKey`. A guard holds the
  caller's `array<bv8>` (the borrowed `&mut T`; its length is
  `size_of::<T>()`) and the lock table. Its ghost `state` is `Locked` or
  `Released`. Construction sends the table one lock request and makes the
  guard `Locked`; drop, allowed only on a `Locked` guard, sends one unlock
  request of the same bytes and makes it `Released`. Nothing else touches
  the table or the state. The comparison operators are functions over the
  bytes. Lemmas give the laws that `Eq` and `Ord` promise.
- `Scenarios` (scenarios.dfy) holds three callers: the documentation
  example, a whole guard lifetime over any value, and a write through
  `deref_mut` followed by a comparison.

## Model

| member | source | states |
|---|---|---|
| `SecKey.TempKey.constructor` | src/tempkey.rs:22-25 | issues exactly one lock request, on the wrapped value's address with length `size_of::<T>()`; the guard is Locked, wraps that value, and the value's bytes are unchanged |
| `SecKey.TempKey.Drop` | src/tempkey.rs:98-103 | only a Locked guard can be dropped; it issues exactly one unlock request, with the wrapped value's address and `size_of::<T>()` as length (the pair the constructor locked), and the guard becomes Released; for the lock-then-unlock order over a whole life see `Scenarios.Lifetime` |
| `Scenarios.Lifetime` | src/tempkey.rs:22-103 | for any value and operand, a guard's whole life (construction, `eq`, `partial_cmp`, drop) adds to the lock table exactly one lock of the value's address and length followed by exactly one unlock of the same pair and nothing else; the value is unchanged, and the comparisons report byte equality, with `Equal` exactly when `eq` holds |
| `SecKey.TempKey.Deref` | src/tempkey.rs:32-34 | read access returns the caller's value itself (the same array), not a copy |
| `SecKey.TempKey.DerefMut` | src/tempkey.rs:39-41 | write access returns the caller's value itself and changes nothing |
| `Scenarios.WriteThroughDerefMut` | src/tempkey.rs:38-41 | a byte written through `deref_mut` is exactly the change to the value, a later `eq` sees it, and the guard and the lock table are unchanged |
| `SecKey.TempKey.Fmt` | src/tempkey.rs:44-49 | the debug text is exactly `TempKey(` followed by the formatted address and `)`; it reads only the guard, not the value's bytes |
| `SecKey.FmtIgnoresBytes` | src/tempkey.rs:44-49 | writing the value's bytes leaves the debug text the same: it depends on the address, never on the secret |
| `SecKey.TempKey.Eq` | src/tempkey.rs:52-58 | `eq` against a raw value is true exactly when all `size_of::<T>()` bytes agree |
| `SecKey.TempKey.EqKey` | src/tempkey.rs:61-68 | `eq` against another guard is `eq` against the value it wraps, so it is true exactly when the two values hold the same bytes |
| `SecKey.EqKeyIsEquivalence` | src/tempkey.rs:61-71 | equality of guards is reflexive, symmetric and transitive, as `Eq` promises |
| `SecKey.TempKey.PartialCmp` | src/tempkey.rs:73-81 | `partial_cmp` never returns `None`; it returns `Less`, `Equal` or `Greater` exactly when the value comes before, equals or comes after the raw value in unsigned lexicographic byte order |
| `SecKey.TempKey.PartialCmpKey` | src/tempkey.rs:84-88 | `partial_cmp` against another guard is `partial_cmp` against its value: always `Some`, and `Less`/`Equal`/`Greater` follow the byte order of the two values |
| `Core.CmpZero` | src/tempkey.rs:80 | `order.cmp(&0)` is `Less`, `Equal` or `Greater` exactly when the integer is negative, zero or positive |
| `SecKey.TempKey.Cmp` | src/tempkey.rs:91-95 | `cmp` is `partial_cmp` unwrapped, and the unwrap cannot fail |
| `SecKey.CmpConsistentWithEq` | src/tempkey.rs:71-95 | `cmp` returns `Equal` exactly when `eq` holds, as implementing both `Eq` and `Ord` promises |
| `SecKey.CmpAntisymmetric` | src/tempkey.rs:91-95 | `cmp(a, b)` is the reverse of `cmp(b, a)` |
| `SecKey.CmpTransitive` | src/tempkey.rs:91-95 | `cmp(a, b) == Less` and `cmp(b, c) == Less` give `cmp(a, c) == Less` |
| `Scenarios.DocExample` | src/tempkey.rs:9-18 | a guard over `[8u8; 8]` equals `[8u8; 8]`, differs from `[1u8; 8]` and equals a second guard over another `[8u8; 8]`; the lock table sees lock, lock, then the two unlocks in reverse order |
| `MemSec.MemoryLocks.MLock` | src/tempkey.rs:23 | an `mlock` appends exactly one lock request for the given address and length to the lock table |
| `MemSec.MemoryLocks.MUnlock` | src/tempkey.rs:101 | an `munlock` appends exactly one unlock request for the given address and length to the lock table |
| `MemSec.MemEq` | src/tempkey.rs:57 | `memeq` is true exactly when every byte of the two regions agrees |
| `MemSec.MemCmp` | src/tempkey.rs:79 | `memcmp` is zero exactly when the two regions hold the same bytes |
| `MemSec.MemCmpIsLexicographic` | src/tempkey.rs:78-80 | `memcmp` is negative exactly when the first region comes before the second in unsigned lexicographic order |
| `MemSec.MemCmpAntisymmetric` | src/tempkey.rs:79 | swapping the operands of `memcmp` negates its result |
| `MemSec.MemCmpTransitive` | src/tempkey.rs:79 | a negative `memcmp` of a with b and of b with c gives a negative `memcmp` of a with c |
| `MemSec.LexLessTotal` | src/tempkey.rs:91-95 | unsigned lexicographic order on regions of one length is a strict total order: irreflexive, asymmetric, and any two regions are equal or ordered one way |

## Left out

- The implementations of `mlock`, `munlock`, `memeq` and `memcmp`, and the system calls behind them, are not part of this model. These are calls into code outside the crate. They are described by their contracts: a request log, byte-wise equality, and the sign of an unsigned lexicographic comparison.
- `MemSec.MemCmp`: only the sign of the result is specified. The model returns the difference of the first pair of differing bytes. Its exact value may differ from memsec's.
- The results of `mlock` and `munlock` are discarded by the code, so the model has no failure path. A request is recorded whether or not the operating system honours it.
- The constant-time guarantee of `memeq` and `memcmp` (no dependence of running time on the bytes) cannot be stated in a functional model. It is an assumption on the primitives.
- Lifetimes, borrowing, moves and the `Sized + Copy` bound are not modelled as a type-system proof. The guard holds a reference to a caller-owned byte array of fixed length. A raw `T` operand is a byte sequence of that length.
- `SecKey.TempKey.Drop`: that drop runs exactly once on every exit from scope comes from the language's destructor semantics, which the model does not have. The model calls `Drop` explicitly. Its precondition `Live()` rules out a second drop and any use after drop. The code has no explicit guard against a second release; it relies on the language running `drop` once per value, which the `Live()` precondition stands for.
- `SecKey.TempKey.Fmt`: the text of `{:p}` and the `fmt::Formatter` machinery (including the alternate `{:#?}` layout) are left out. The pointer formatter is a parameter: a function of the address alone.
- Concurrency: the code has none. External synchronisation is the caller's duty.
- `SecKey.TempKey.Drop`: the model assumes that `munlock` does not write the region it releases (`MemoryLocks.MUnlock` modifies only the lock table), so `Drop` and `Scenarios.Lifetime` promise the value's bytes unchanged after release. src/tempkey.rs itself does not establish this: whether the `munlock` it calls also clears the bytes is decided inside memsec, which is not part of this model.

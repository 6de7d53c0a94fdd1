/**
 The C++ environment the vector code runs in: 32-bit size_t and ssize_t, the
 status codes, overflow-checked arithmetic, aborts, and an allocator whose
 answers are given from outside and which knows what it has handed out.
 */
module Machine {

  const SIZE_MAX: nat := 0xFFFF_FFFF
  const SSIZE_MAX: nat := 0x7FFF_FFFF

  /** sizeof(SharedBuffer): a reference count, a size and two reserved words. */
  const HEADER_SIZE: nat := 16

  const NO_ERROR: int := 0
  const NAME_NOT_FOUND: int := -2
  const NO_MEMORY: int := -12
  const BAD_VALUE: int := -22
  const BAD_INDEX: int := -75

  /** unsigned char */
  type Byte = b: int | 0 <= b < 256

  /** size_t */
  type Size = n: nat | n <= SIZE_MAX

  /** The value a size_t has once it is converted to ssize_t. */
  function ToSsize(n: Size): (r: int)
    ensures 0 <= r <==> n <= SSIZE_MAX
    ensures (r - n) % (SIZE_MAX + 1) == 0
  {
    if n <= SSIZE_MAX then n else n - (SIZE_MAX + 1)
  }

  /** A product or a sum as the hardware stores it in a size_t. */
  function Wrap(n: nat): nat {
    n % (SIZE_MAX + 1)
  }

  /** A call either comes back with a value or ends the process. */
  datatype Outcome<+A> = Aborted | Returned(value: A) {
    predicate IsFailure() {
      Aborted?
    }

    function PropagateFailure<B>(): Outcome<B>
      requires Aborted?
    {
      Aborted
    }

    function Extract(): A
      requires Returned?
    {
      value
    }
  }

  // safe_add, safe_sub and safe_mul, each wrapped in LOG_ALWAYS_FATAL_IF(!...).

  function SafeAdd(a: nat, b: nat): Outcome<nat> {
    if a + b <= SIZE_MAX then Returned(a + b) else Aborted
  }

  function SafeSub(a: nat, b: nat): Outcome<nat> {
    if b <= a then Returned(a - b) else Aborted
  }

  function SafeMul(a: nat, b: nat): Outcome<nat> {
    if a * b <= SIZE_MAX then Returned(a * b) else Aborted
  }

  /** How many items of `itemSize` bytes fit in `size` bytes: size / itemSize. */
  function Fit(size: nat, itemSize: nat): nat
    requires 1 <= itemSize
    decreases size
  {
    if size < itemSize then 0 else 1 + Fit(size - itemSize, itemSize)
  }

  lemma {:induction false} FitMonotone(a: nat, b: nat, itemSize: nat)
    requires a <= b && 1 <= itemSize
    ensures Fit(a, itemSize) <= Fit(b, itemSize)
    decreases a
  {
    if itemSize <= a {
      FitMonotone(a - itemSize, b - itemSize, itemSize);
    }
  }

  /** A block of n * itemSize bytes has room for exactly n items. */
  lemma {:induction false} FitOfProduct(n: nat, itemSize: nat)
    requires 1 <= itemSize
    ensures Fit(n * itemSize, itemSize) == n
  {
    if 0 < n {
      assert n * itemSize - itemSize == (n - 1) * itemSize;
      FitOfProduct(n - 1, itemSize);
      assert itemSize <= n * itemSize;
    }
  }

  /** Every item that fits ends inside the block. */
  lemma {:induction false} FitBounds(size: nat, itemSize: nat)
    requires 1 <= itemSize
    ensures Fit(size, itemSize) * itemSize <= size < (Fit(size, itemSize) + 1) * itemSize
    decreases size
  {
    if itemSize <= size {
      FitBounds(size - itemSize, itemSize);
    }
  }

  lemma MulMonotone(a: nat, b: nat, d: nat)
    requires a <= b
    ensures a * d <= b * d
  {
    assert b * d == a * d + (b - a) * d;
  }

  lemma FitIsQuotient(size: nat, itemSize: nat)
    requires 1 <= itemSize
    ensures Fit(size, itemSize) == size / itemSize
  {
    var fit, quotient := Fit(size, itemSize), size / itemSize;
    FitBounds(size, itemSize);
    assert size == quotient * itemSize + size % itemSize;
    if fit < quotient {
      MulMonotone(fit + 1, quotient, itemSize);
    }
    if quotient < fit {
      MulMonotone(quotient + 1, fit, itemSize);
    }
  }

  /** One of the requests numbered from `lo` up to `hi` is refused. */
  ghost predicate DeniedIn(grants: nat -> bool, lo: nat, hi: nat) {
    exists n :: lo <= n < hi && !grants(n)
  }

  /** malloc, realloc and free. `grants(n)` is the answer to the n-th request. */
  class Allocator {
    const grants: nat -> bool
    var requests: nat
    /** All blocks that have ever been handed out... */
    ghost var blocks: set<object>
    /** ...and the temporaries that have not come back. */
    ghost var temps: set<object>

    constructor (grants: nat -> bool)
      ensures this.grants == grants && requests == 0 && blocks == {} && temps == {}
    {
      this.grants := grants;
      requests := 0;
      blocks, temps := {}, {};
    }

    method Ask() returns (ok: bool)
      modifies this`requests
      ensures requests == old(requests) + 1
      ensures ok == grants(old(requests))
    {
      ok := grants(requests);
      requests := requests + 1;
    }

    /** Something was asked for since request number `from`, and all of it was refused. */
    ghost predicate Refused(from: nat)
      reads this
    {
      from < requests && forall n :: from <= n < requests ==> !grants(n)
    }

    /** Since request number `from` something was asked for and refused. */
    ghost predicate Denied(from: nat)
      reads this
    {
      DeniedIn(grants, from, requests)
    }

    lemma RefusedIsDenied(from: nat)
      ensures Refused(from) ==> Denied(from) && !grants(from)
    {
      assert Refused(from) ==> !grants(from);
    }
  }
}

/** The record the collector keeps for one tracked allocation (gc_details.h),
    together with the machine-word facts the rest of the model needs.
    Addresses are integers; 0 stands for the null pointer. */
module Details {

  /** Largest value of a 32-bit `unsigned`. */
  const UINT_MAX: int := 0xFFFF_FFFF

  /** Largest value of a 32-bit `int`; the template's `size` argument is an `int`. */
  const INT_MAX: int := 0x7FFF_FFFF

  /** A template `size` argument; negative arguments are not part of this model. */
  type Size = n: int | 0 <= n <= INT_MAX

  /** The value a C++ conversion of `x` to a 32-bit `unsigned` stores. */
  function Unsigned(x: int): (r: nat)
    ensures r <= UINT_MAX
    ensures 0 <= x <= UINT_MAX ==> r == x
    ensures (x - r) % (UINT_MAX + 1) == 0
  {
    x % (UINT_MAX + 1)
  }

  /** `refcount--` on an `unsigned` counter: zero wraps around to UINT_MAX. */
  function Decrement(c: nat): nat
  {
    if c == 0 then UINT_MAX else c - 1
  }

  /** `PtrDetails<T>`: the allocation's address, its reference count, and
      whether (and how long) it was allocated as an array. */
  datatype PtrDetails = PtrDetails(refcount: nat, memPtr: int, isArray: bool, arraySize: nat)

  /** The record `PtrDetails(ptr, size)` builds for a newly tracked allocation. */
  function NewDetails(ptr: int, size: nat): (d: PtrDetails)
    ensures d.refcount == 1
    ensures d.memPtr == ptr
    ensures d.isArray <==> size > 0
    ensures d.arraySize == size
  {
    PtrDetails(1, ptr, size > 0, size)
  }

  /** `operator==` on records: two records are equal iff they track the same address. */
  function SameAddress(a: PtrDetails, b: PtrDetails): (r: bool)
    ensures r <==> a.memPtr == b.memPtr
  {
    a.memPtr == b.memPtr
  }

  /** Record equality ignores the count and the array bookkeeping. */
  lemma SameAddressIgnoresBookkeeping(d: PtrDetails, count: nat, isArray: bool, arraySize: nat)
    ensures SameAddress(d, d.(refcount := count, isArray := isArray, arraySize := arraySize))
  {
  }
}

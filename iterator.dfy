/** The bounds-checked cursor `Iter<T>` of gc_iterator.h. Positions are
    element addresses (integers); the memory an iterator reads is passed in
    as a function from address to element. Iterators never touch the
    collector's list. */
module Cursor {
  import opened Details

  /** The outcome of a checked dereference: the element (or address), or the
      `OutOfRangeExc` the source throws, with its message. */
  datatype Deref<T> = Ok(value: T) | OutOfRangeExc(message: string)

  class Iter {
    var ptr: int
    var end: int
    var begin: int
    var length: nat   // `unsigned` in the source

    /** `Iter()`: a null iterator over an empty range. */
    constructor Default()
      ensures ptr == 0 && begin == 0 && end == 0 && length == 0
    {
      ptr, end, begin := 0, 0, 0;
      length := 0;
    }

    /** `Iter(p, first, last)`: the length is `last - first`, stored unsigned. */
    constructor (p: int, first: int, last: int)
      ensures ptr == p && begin == first && end == last
      ensures length == Unsigned(last - first)
      ensures first <= last <= first + UINT_MAX ==> length == last - first
    {
      ptr := p;
      end := last;
      begin := first;
      length := Unsigned(last - first);
    }

    /** The implicit copy constructor: every field copied as is. */
    constructor Clone(other: Iter)
      ensures ptr == other.ptr && begin == other.begin && end == other.end
      ensures length == other.length
    {
      ptr, end, begin, length := other.ptr, other.end, other.begin, other.length;
    }

    /** `size()`: the length recorded at construction. */
    function Size(): nat
      reads this
    {
      length
    }

    /** The position lies in `[begin, end)`. */
    predicate InRange()
      reads this
    {
      begin <= ptr < end
    }

    /** `operator*`: the element at `ptr`, or `OutOfRangeExc` when `ptr` is
        below `begin` or at or past `end`. */
    function Star<T>(heap: int -> T): (r: Deref<T>)
      reads this
      ensures r.Ok? <==> InRange()
      ensures r.Ok? ==> r.value == heap(ptr)
      ensures r.OutOfRangeExc? ==> r.message == "Iterator out of range in operator*"
    {
      if ptr >= end || ptr < begin then OutOfRangeExc("Iterator out of range in operator*")
      else Ok(heap(ptr))
    }

    /** `operator->`: the address `ptr`, under the same bounds check. */
    function Arrow(): (r: Deref<int>)
      reads this
      ensures r.Ok? <==> InRange()
      ensures r.Ok? ==> r.value == ptr
      ensures r.OutOfRangeExc? ==> r.message == "Iterator out of range in operator->"
    {
      if ptr >= end || ptr < begin then OutOfRangeExc("Iterator out of range in operator->")
      else Ok(ptr)
    }

    /** Prefix `++`: one element forward; the receiver itself is returned. */
    method Next() returns (self: Iter)
      modifies this`ptr
      ensures self == this
      ensures ptr == old(ptr) + 1
    {
      ptr := ptr + 1;
      self := this;
    }

    /** Postfix `++`: a new iterator at the old position over the same bounds;
        the receiver moves one element forward. */
    method PostIncrement() returns (before: Iter)
      modifies this`ptr
      ensures fresh(before)
      ensures before.ptr == old(ptr) && before.begin == begin && before.end == end
      ensures before.length == Unsigned(end - begin)
      ensures ptr == old(ptr) + 1
    {
      var tmp := ptr;
      ptr := ptr + 1;
      before := new Iter(tmp, begin, end);
    }

    /** Postfix `--`: as postfix `++`, moving one element back. */
    method PostDecrement() returns (before: Iter)
      modifies this`ptr
      ensures fresh(before)
      ensures before.ptr == old(ptr) && before.begin == begin && before.end == end
      ensures before.length == Unsigned(end - begin)
      ensures ptr == old(ptr) - 1
    {
      var tmp := ptr;
      ptr := ptr - 1;
      before := new Iter(tmp, begin, end);
    }

    /** `operator+(n)`: moves the receiver itself by `n`, then returns a copy of it. */
    method Plus(n: int) returns (r: Iter)
      modifies this`ptr
      ensures ptr == old(ptr) + n
      ensures fresh(r)
      ensures r.ptr == ptr && r.begin == begin && r.end == end && r.length == length
    {
      ptr := ptr + n;
      r := new Iter.Clone(this);
    }

    /** `operator-(n)`: moves the receiver itself by `-n`, then returns a copy of it. */
    method Minus(n: int) returns (r: Iter)
      modifies this`ptr
      ensures ptr == old(ptr) - n
      ensures fresh(r)
      ensures r.ptr == ptr && r.begin == begin && r.end == end && r.length == length
    {
      ptr := ptr - n;
      r := new Iter.Clone(this);
    }

    /** `operator-(itr2)`: the signed number of elements from `other` to this one. */
    function Distance(other: Iter): (d: int)
      reads this, other
      ensures other.ptr + d == ptr
    {
      ptr - other.ptr
    }

    // The six comparisons look at positions only, never at bounds; each is
    // stated through the signed distance between the two positions.

    function Equal(other: Iter): (r: bool)
      reads this, other
      ensures r <==> Distance(other) == 0
    {
      ptr == other.ptr
    }

    function NotEqual(other: Iter): (r: bool)
      reads this, other
      ensures r <==> Distance(other) != 0
    {
      ptr != other.ptr
    }

    function Less(other: Iter): (r: bool)
      reads this, other
      ensures r <==> Distance(other) < 0
    {
      ptr < other.ptr
    }

    function AtMost(other: Iter): (r: bool)
      reads this, other
      ensures r <==> Distance(other) <= 0
    {
      ptr <= other.ptr
    }

    function Greater(other: Iter): (r: bool)
      reads this, other
      ensures r <==> Distance(other) > 0
    {
      ptr > other.ptr
    }

    function AtLeast(other: Iter): (r: bool)
      reads this, other
      ensures r <==> Distance(other) >= 0
    {
      ptr >= other.ptr
    }
  }

  /** The traversal `for (; ; ++it) use(*it)` from `begin` over `[begin, end)`:
      the first `end - begin` dereferences succeed and yield the elements in
      order, the next one fails, and the cursor stops exactly at `end`. */
  method Traverse<T>(it: Iter, heap: int -> T) returns (elems: seq<T>, stop: Deref<T>)
    requires it.ptr == it.begin <= it.end
    modifies it`ptr
    ensures it.ptr == it.end
    ensures |elems| == it.end - it.begin
    ensures forall k :: 0 <= k < |elems| ==> elems[k] == heap(it.begin + k)
    ensures stop == OutOfRangeExc("Iterator out of range in operator*")
  {
    elems := [];
    stop := it.Star(heap);
    while stop.Ok?
      invariant it.begin <= it.ptr <= it.end
      invariant it.ptr == it.begin + |elems|
      invariant forall k :: 0 <= k < |elems| ==> elems[k] == heap(it.begin + k)
      invariant stop == it.Star(heap)
      decreases it.end - it.ptr
    {
      elems := elems + [stop.value];
      var _ := it.Next();
      stop := it.Star(heap);
    }
  }
}

/** The reference-counting handle `Pointer<T, size>` of gc_pointer.h and the
    static state its instantiation shares: the list of records, the `first`
    flag, and (as ghost state) the log of what `delete`/`delete[]` freed and
    the multiset of addresses held by live handles. Every method updates the
    list in place and is proved to agree with the functions of Container. */
module Collector {
  import opened Details
  import opened Container
  import opened Cursor

  /** The static members of one instantiation `Pointer<T, size>`. */
  class Registry {
    const size: Size
    var recs: Records
    var first: bool
    ghost var freed: seq<(int, bool)>  // (address, used delete[]), in order of freeing
    ghost var live: multiset<int>      // one occurrence per live non-null handle

    /** The list between two handle events. */
    ghost predicate Valid()
      reads this
    {
      WellFormed(recs)
    }

    /** Every record's count is the number of live handles on its address. */
    ghost predicate Exact()
      reads this
    {
      Tracks(recs, live)
    }

    /** The static initialisation: an empty list and `first == true`. */
    constructor (size: Size)
      ensures this.size == size && recs == [] && first
      ensures freed == [] && live == multiset{}
      ensures Valid() && Exact()
    {
      this.size := size;
      recs := [];
      first := true;
      freed := [];
      live := multiset{};
    }

    /** `findPtrInfo`: a linear scan for the first record of `ptr`; `|recs|`
        stands for the list's end. */
    method FindPtrInfo(ptr: int) returns (p: nat)
      ensures p == Find(recs, ptr)
    {
      p := 0;
      while p < |recs|
        invariant p <= |recs|
        invariant forall j :: 0 <= j < p ==> recs[j].memPtr != ptr
      {
        if recs[p].memPtr == ptr {
          return;
        }
        p := p + 1;
      }
    }

    /** The lookup-and-decrement that opens the destructor and both
        assignments: `if (a != NULL) { p = findPtrInfo(a); if (found) p->refcount--; }`. */
    method LetGo(a: int)
      modifies this`recs
      ensures recs == Unbind(old(recs), a)
    {
      if a != 0 {
        var p := FindPtrInfo(a);
        if p < |recs| {
          recs := recs[p := recs[p].(refcount := Decrement(recs[p].refcount))];
        }
      }
    }

    /** The lookup-and-increment-or-`push_back` of raw construction and
        `operator=(T*)`, for a non-null `t`. */
    method Enroll(t: int)
      modifies this`recs
      ensures recs == BindRaw(old(recs), t, size)
    {
      if t != 0 {
        var p := FindPtrInfo(t);
        if p < |recs| {
          recs := recs[p := recs[p].(refcount := recs[p].refcount + 1)];
        } else {
          recs := recs + [NewDetails(t, size)];
        }
      }
    }

    /** The lookup-and-increment of copying: `p = findPtrInfo(a); if (found) p->refcount++;`. */
    method Share(a: int)
      modifies this`recs
      ensures recs == Retain(old(recs), a)
    {
      var p := FindPtrInfo(a);
      if p < |recs| {
        recs := recs[p := recs[p].(refcount := recs[p].refcount + 1)];
      }
    }

    /** `refContainerSize()`. */
    function RefContainerSize(): nat
      reads this
    {
      |recs|
    }

    /** `collect()`: erases every zero-count record, freeing it with `delete[]`
        or `delete` as its own flag says, and keeps the others in order;
        reports whether anything was freed. */
    method Collect() returns (memFreed: bool)
      modifies this`recs, this`freed
      ensures recs == Sweep(old(recs))
      ensures freed == old(freed) + Reclaimed(old(recs))
      ensures memFreed <==> |recs| < |old(recs)|
    {
      ghost var orig := recs;
      ghost var k := 0;
      memFreed := false;
      var p := 0;
      while p < |recs|
        invariant p <= |recs| && k <= |orig|
        invariant recs[..p] == Sweep(orig[..k])
        invariant recs[p..] == orig[k..]
        invariant freed == old(freed) + Reclaimed(orig[..k])
        invariant memFreed <==> Reclaimed(orig[..k]) != []
        decreases |recs| - p
      {
        assert orig[..k + 1][..k] == orig[..k];
        assert orig[k] == recs[p];
        if recs[p].refcount <= 0 {
          freed := freed + [(recs[p].memPtr, recs[p].isArray)];
          recs := recs[..p] + recs[p + 1..];
          memFreed := true;
        } else {
          p := p + 1;
        }
        k := k + 1;
      }
      assert orig[..k] == orig;
      SweepCount(orig);
    }

    /** `shutdown()`: unless the list is already empty, forces every count to
        zero and collects, freeing every record in order. */
    method Shutdown()
      modifies this`recs, this`freed
      ensures recs == [] && RefContainerSize() == 0
      ensures freed == old(freed) + FreeAll(old(recs))
    {
      if RefContainerSize() == 0 {
        assert FreeAll(recs) == [];
        assert freed + [] == freed;
        return;
      }
      var i := 0;
      while i < |recs|
        invariant i <= |recs| == |old(recs)| && freed == old(freed)
        invariant forall j :: 0 <= j < i ==> recs[j] == old(recs)[j].(refcount := 0)
        invariant forall j :: i <= j < |recs| ==> recs[j] == old(recs)[j]
      {
        recs := recs[i := recs[i].(refcount := 0)];
        i := i + 1;
      }
      ghost var zeroed := recs;
      SweepAllZero(zeroed);
      assert FreeAll(zeroed) == FreeAll(old(recs));
      var _ := Collect();
    }
  }

  /** A `Pointer<T, size>` handle of the instantiation whose static state is `reg`. */
  class Pointer {
    const reg: Registry
    var addr: int
    var isArray: bool
    var arraySize: Size
    ghost var alive: bool  // constructed and not yet destroyed

    /** The handle is alive and the registry accounts for its address. */
    ghost predicate Held()
      reads this, reg
    {
      alive && Hold(addr) <= reg.live
    }

    /** `Pointer()`: the null handle; clears `first`. */
    constructor Empty(reg: Registry)
      modifies reg`first
      ensures this.reg == reg && addr == 0 && !isArray && arraySize == 0 && alive
      ensures !reg.first
    {
      this.reg := reg;
      addr, isArray, arraySize := 0, false, 0;
      alive := true;
      new;
      reg.first := false;
    }

    /** `Pointer(T *t)`: takes the instantiation's size, clears `first`, and
        for a non-null `t` increments its record or appends one. Never collects. */
    constructor FromRaw(reg: Registry, t: int)
      modifies reg`first, reg`recs, reg`live
      ensures this.reg == reg && addr == t && alive
      ensures isArray == (reg.size > 0) && arraySize == reg.size
      ensures !reg.first
      ensures reg.recs == BindRaw(old(reg.recs), t, reg.size)
      ensures reg.live == old(reg.live) + Hold(t)
      ensures old(reg.Valid()) ==> reg.Valid()
      ensures old(reg.Exact()) ==> reg.Exact()
    {
      this.reg := reg;
      addr, isArray, arraySize := t, reg.size > 0, reg.size;
      alive := true;
      new;
      reg.first := false;
      ghost var s := reg.recs;
      reg.Enroll(addr);
      reg.live := reg.live + Hold(t);
      RawConstructionKeeps(s, old(reg.live), t, reg.size);
    }

    /** `Pointer(const Pointer &ob)`: copies the three fields and increments
        the record of `ob.addr` if there is one. Never appends, never collects. */
    constructor Copy(ob: Pointer)
      requires ob.alive
      modifies ob.reg`recs, ob.reg`live
      ensures reg == ob.reg && alive
      ensures addr == ob.addr && isArray == ob.isArray && arraySize == ob.arraySize
      ensures reg.recs == Retain(old(ob.reg.recs), ob.addr)
      ensures reg.live == old(ob.reg.live) + Hold(ob.addr)
      ensures old(ob.reg.Valid()) ==> reg.Valid()
      ensures old(ob.reg.Exact()) && old(ob.Held()) ==> reg.Exact()
    {
      reg := ob.reg;
      addr, isArray, arraySize := ob.addr, ob.isArray, ob.arraySize;
      alive := true;
      new;
      ghost var s := reg.recs;
      ghost var live := reg.live;
      reg.Share(ob.addr);
      reg.live := reg.live + Hold(addr);
      CopyConstructionKeeps(s, live, addr);
    }

    /** `~Pointer()`: decrements the record of a non-null address if there is
        one, then always collects. */
    method Destroy()
      requires alive
      modifies this`alive, reg`recs, reg`freed, reg`live
      ensures !alive
      ensures reg.recs == Sweep(Unbind(old(reg.recs), addr))
      ensures reg.freed == old(reg.freed) + Reclaimed(Unbind(old(reg.recs), addr))
      ensures reg.live == old(reg.live) - Hold(addr)
      ensures old(reg.Valid()) ==> reg.Valid()
      ensures old(reg.Exact()) && old(Held()) ==> reg.Exact()
    {
      ghost var s := reg.recs;
      ghost var live := reg.live;
      reg.LetGo(addr);
      var _ := reg.Collect();
      reg.live := reg.live - Hold(addr);
      DestructionKeeps(s, live, addr);
      alive := false;
    }

    /** `operator=(T *t)`: lets go of the old address, increments or appends
        the record of a non-null `t` (with the instantiation's size), points
        at `t` and collects. `isArray` and `arraySize` stay as they were. */
    method AssignRaw(t: int)
      requires alive
      modifies this`addr, reg`recs, reg`freed, reg`live
      ensures addr == t
      ensures reg.recs == Sweep(BindRaw(Unbind(old(reg.recs), old(addr)), t, reg.size))
      ensures reg.freed == old(reg.freed) + Reclaimed(BindRaw(Unbind(old(reg.recs), old(addr)), t, reg.size))
      ensures reg.live == old(reg.live) - Hold(old(addr)) + Hold(t)
      ensures old(reg.Valid()) ==> reg.Valid()
      ensures old(reg.Exact()) && old(Held()) ==> reg.Exact()
    {
      ghost var s := reg.recs;
      ghost var live := reg.live;
      reg.LetGo(addr);
      reg.Enroll(t);
      reg.live := live - Hold(addr) + Hold(t);
      RawAssignmentKeeps(s, live, addr, t, reg.size);
      addr := t;
      var _ := reg.Collect();
    }

    /** `operator=(Pointer &rv)`: nothing at all on self-assignment; otherwise
        lets go of the old address, increments the record of `rv`'s non-null
        address if there is one (never appending), copies the three fields and
        collects. */
    method Assign(rv: Pointer)
      requires alive && rv.alive && rv.reg == reg
      modifies this`addr, this`isArray, this`arraySize, reg`recs, reg`freed, reg`live
      ensures rv == this ==>
        addr == old(addr) && isArray == old(isArray) && arraySize == old(arraySize) &&
        reg.recs == old(reg.recs) && reg.freed == old(reg.freed) && reg.live == old(reg.live)
      ensures rv != this ==>
        addr == old(rv.addr) && isArray == old(rv.isArray) && arraySize == old(rv.arraySize)
      ensures rv != this ==>
        reg.recs == Sweep(BindCopy(Unbind(old(reg.recs), old(addr)), old(rv.addr))) &&
        reg.freed == old(reg.freed) + Reclaimed(BindCopy(Unbind(old(reg.recs), old(addr)), old(rv.addr))) &&
        reg.live == old(reg.live) - Hold(old(addr)) + Hold(old(rv.addr))
      ensures old(reg.Valid()) ==> reg.Valid()
      ensures old(reg.Exact()) && rv != this && old(Hold(addr) + Hold(rv.addr) <= reg.live) ==> reg.Exact()
    {
      if rv == this {
        return;
      }
      ghost var s := reg.recs;
      ghost var live := reg.live;
      reg.LetGo(addr);
      if rv.addr != 0 {
        reg.Share(rv.addr);
      }
      reg.live := live - Hold(addr) + Hold(rv.addr);
      HandleAssignmentKeeps(s, live, addr, rv.addr);
      addr := rv.addr;
      arraySize := rv.arraySize;
      isArray := rv.isArray;
      var _ := reg.Collect();
    }

    /** The number of elements `begin()` and `end()` span: the array length
        for an array handle, one otherwise. */
    function Span(): int
      reads this
    {
      if isArray then arraySize else 1
    }

    /** `begin()`: a cursor at `addr` over `[addr, addr + Span())`. */
    method Begin() returns (it: Iter)
      ensures fresh(it)
      ensures it.ptr == addr && it.begin == addr && it.end == addr + Span()
      ensures it.Size() == Span()
    {
      var n := if isArray then arraySize as int else 1;
      it := new Iter(addr, addr, addr + n);
    }

    /** `end()`: a cursor one past the last element of the same range. */
    method End() returns (it: Iter)
      ensures fresh(it)
      ensures it.ptr == addr + Span() && it.begin == addr && it.end == addr + Span()
      ensures it.Size() == Span()
    {
      var n := if isArray then arraySize as int else 1;
      it := new Iter(addr + n, addr, addr + n);
    }
  }

  /** Letting go keeps addresses distinct and non-null, and keeps the counts
      exact when the handle was accounted for. */
  lemma {:induction false} UnbindKeepsShape(s: Records, live: multiset<int>, a: int)
    ensures Distinct(s) && NoNull(s) ==> Distinct(Unbind(s, a)) && NoNull(Unbind(s, a))
    ensures Tracks(s, live) && Hold(a) <= live ==> Tracks(Unbind(s, a), live - Hold(a))
  {
    if a != 0 {
      ReleaseShape(s, a);
      SameAddressesKeepShape(s, Release(s, a));
      if Tracks(s, live) && Hold(a) <= live {
        ReleaseTracks(s, live, a);
      }
    } else {
      assert live - Hold(a) == live;
    }
  }

  /** Raw construction keeps the list well formed and the counts exact. */
  lemma {:induction false} RawConstructionKeeps(s: Records, live: multiset<int>, t: int, size: Size)
    ensures WellFormed(s) ==> WellFormed(BindRaw(s, t, size))
    ensures Tracks(s, live) ==> Tracks(BindRaw(s, t, size), live + Hold(t))
  {
    if t != 0 {
      if WellFormed(s) {
        RegisterWellFormed(s, t, size);
      }
      if Tracks(s, live) {
        RegisterTracks(s, live, t, size);
      }
    } else {
      assert live + Hold(t) == live;
    }
  }

  /** Copy construction keeps the list well formed, and the counts exact when
      the source handle was accounted for. */
  lemma {:induction false} CopyConstructionKeeps(s: Records, live: multiset<int>, a: int)
    ensures WellFormed(s) ==> WellFormed(Retain(s, a))
    ensures Tracks(s, live) && Hold(a) <= live ==> Tracks(Retain(s, a), live + Hold(a))
  {
    if WellFormed(s) {
      RetainWellFormed(s, a);
    }
    if Tracks(s, live) && Hold(a) <= live {
      if a == 0 {
        RetainNull(s);
        assert live + Hold(a) == live;
      } else {
        RetainTracks(s, live, a);
      }
    }
  }

  /** Destruction keeps the list well formed, and the counts exact when the
      handle was accounted for. */
  lemma {:induction false} DestructionKeeps(s: Records, live: multiset<int>, a: int)
    ensures WellFormed(s) ==> WellFormed(Sweep(Unbind(s, a)))
    ensures Tracks(s, live) && Hold(a) <= live ==> Tracks(Sweep(Unbind(s, a)), live - Hold(a))
  {
    UnbindKeepsShape(s, live, a);
    var u := Unbind(s, a);
    if WellFormed(s) {
      SweepWellFormed(u);
    }
    if Tracks(s, live) && Hold(a) <= live {
      SweepTracks(u, live - Hold(a));
    }
  }

  /** `operator=(T*)` keeps the list well formed, and the counts exact when the
      handle was accounted for. */
  lemma {:induction false} RawAssignmentKeeps(s: Records, live: multiset<int>, a: int, t: int, size: Size)
    ensures WellFormed(s) ==> WellFormed(Sweep(BindRaw(Unbind(s, a), t, size)))
    ensures Tracks(s, live) && Hold(a) <= live ==>
      Tracks(Sweep(BindRaw(Unbind(s, a), t, size)), live - Hold(a) + Hold(t))
  {
    UnbindKeepsShape(s, live, a);
    var u := Unbind(s, a);
    var b := BindRaw(u, t, size);
    if WellFormed(s) {
      if t != 0 {
        RegisterWellFormed(u, t, size);
      }
      SweepWellFormed(b);
    }
    if Tracks(s, live) && Hold(a) <= live {
      RawConstructionKeeps(u, live - Hold(a), t, size);
      SweepTracks(b, live - Hold(a) + Hold(t));
    }
  }

  /** `operator=(Pointer&)` between two handles keeps the list well formed,
      and the counts exact when both handles were accounted for separately. */
  lemma {:induction false} HandleAssignmentKeeps(s: Records, live: multiset<int>, a: int, b: int)
    ensures WellFormed(s) ==> WellFormed(Sweep(BindCopy(Unbind(s, a), b)))
    ensures Tracks(s, live) && Hold(a) + Hold(b) <= live ==>
      Tracks(Sweep(BindCopy(Unbind(s, a), b)), live - Hold(a) + Hold(b))
  {
    UnbindKeepsShape(s, live, a);
    var u := Unbind(s, a);
    var c := BindCopy(u, b);
    if WellFormed(s) {
      if b != 0 {
        RetainWellFormed(u, b);
      }
      SweepWellFormed(c);
    }
    if Tracks(s, live) && Hold(a) + Hold(b) <= live {
      var rest := live - Hold(a);
      assert Hold(b) <= rest;
      if b != 0 {
        RetainTracks(u, rest, b);
      } else {
        assert rest + Hold(b) == rest;
      }
      SweepTracks(c, rest + Hold(b));
    }
  }

  /** `end() - begin()` is the span of the handle: its array length, or one. */
  method BeginEndDistance(h: Pointer) returns (n: int)
    ensures n == h.Span()
  {
    var b := h.Begin();
    var e := h.End();
    n := e.Distance(b);
  }
}

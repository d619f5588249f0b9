# Reference-counting `Pointer<T, size>` collector: a Dafny model

This project models the core of a small C++ reference-counting "garbage collector".

- **Records.** Each tracked allocation has a record, `PtrDetails`. A record holds the address, an unsigned reference count, an array flag and an array size (gc_details.h).
- **The list.** Each template instantiation `Pointer<T, size>` keeps one static list of records, `refContainer`.
- **Handles.** A handle is a `Pointer`. Construction, copying, destruction and both assignment forms update the list in place.
  - The destructor and both assignments then run `collect()`.
  - `collect()` erases and frees every record whose count is zero. It uses `delete[]` or `delete`, as the record's own array flag says.
  - `shutdown()` forces every count to zero and collects.
- **Iterators.** `Iter<T>` is a bounds-checked iterator that handles produce with `begin()` and `end()` (gc_iterator.h).

Modules:

- `Details` (details.dfy): the record, its constructor, its address-only equality, and the 32-bit conversions the source relies on.
- `Container` (container.dfy): the list as a value.
  - Functions give what each step does to it: lookup (`Find`), increment-or-append (`Register`), increment-only (`Retain`), decrement (`Release`), and the sweep (`Sweep`, with the free log `Reclaimed`).
  - The lemmas state what the source promises about these steps.
  - `Tracks` is the reference-count invariant: every record's count equals the number of alive handles on its address.
- `Cursor` (iterator.dfy): `Iter` as a class whose `ptr` the increment and arithmetic operators update in place. Dereference returns an `OutOfRangeExc` value instead of throwing.
- `Collector` (pointer.dfy): `Registry` and `Pointer`.
  - `Registry` is the static state of one instantiation: the list, the `first` flag, and two ghost fields. The ghost log `freed` replaces `delete`/`delete[]`. The ghost multiset `live` holds one address per alive non-null handle (see `Pointer` below).
  - `Pointer` is a handle with `addr`, `isArray` and `arraySize`, plus a ghost flag `alive`. The constructors set `alive`. `Destroy` requires it and clears it. The copy constructor's source and both assignments' handles must be alive. So the model rules out destroying a handle twice, and using one after its destruction, both undefined behaviour in C++. With that rule, `live` holds exactly one occurrence of the address of each alive non-null handle.
  - Every method that changes the list does so in place. Each one is proved to leave the list as the matching `Container` function, or composition of functions, says.
  - The handle events are the raw constructor `FromRaw`, the copy constructor `Copy`, the destructor `Destroy`, and the two assignments `AssignRaw` and `Assign`. Each is proved to keep the list well formed (`Valid`: distinct non-null addresses, positive counts).
  - Each handle event also keeps the counts exact (`Exact`), provided the handles involved are alive and accounted for in `live` (`Held`).
  - `Registry.LetGo`, `Registry.Enroll` and `Registry.Share` are steps inside those events: the lookup-and-decrement, and the two lookup-and-increment steps. Their contracts give only the new list. Between them a count may be zero, or no longer match `live`, so they keep neither property on their own.
  - `Registry.Collect` keeps both properties only through the lemmas `SweepWellFormed` and `SweepTracks`, not by its own contract.
  - `Registry.Shutdown` leaves an empty list, which is well formed, but it does not keep exact counts (see "Left out").

Addresses are integers, with 0 as the null pointer. The memory an iterator reads is passed in as a function from address to element.

Two behaviours of the code a caller may not expect:
- The copy constructor looks up `ob.addr` even when it is null, and has no null check (gc_pointer.h:130-134). No record ever tracks the null address, so nothing changes.
- `operator=(T*)` leaves the handle's `isArray` and `arraySize` as they were (gc_pointer.h:175-197). A default-constructed `Pointer<T, n>` that is then assigned `new T[n]` therefore keeps `isArray == false`. Its `begin()`/`end()` span one element, although its record says array of `n`.

## Model

| member | source | states |
|---|---|---|
| `Details.NewDetails` | gc_details.h:12-15 | a new record has count 1, the given address, `isArray` iff the size is positive, and that size |
| `Details.SameAddress` | gc_details.h:19-24 | two records are equal iff their addresses are equal |
| `Details.SameAddressIgnoresBookkeeping` | gc_details.h:19-24 | record equality ignores the count, the array flag and the array size |
| `Details.Unsigned` | gc_iterator.h:43 | the stored `unsigned` is congruent to the value modulo 2^32, fits in 32 bits, and equals the value when the value already fits |
| `Container.Find` | gc_pointer.h:254-263 | the position of the first record with the queried address, or the end position when no record has it |
| `Collector.Registry.FindPtrInfo` | gc_pointer.h:254-263 | the linear scan returns exactly `Find` of the current list and changes nothing |
| `Container.FindHolds` | gc_pointer.h:256-263 | the lookup succeeds iff some record tracks the address |
| `Container.FindBySameAddress` | gc_pointer.h:254-263 | the lookup is `std::find` under the records' `operator==` (gc_details.h:19-24): it returns the first position whose record equals a record of the address, and the end iff no record does |
| `Container.FindSameAddresses` | gc_pointer.h:256-263 | the lookup depends only on the addresses, not on the counts |
| `Collector.Registry.constructor` | gc_pointer.h:101-106 | an instantiation starts with an empty list and `first` set |
| `Collector.Registry.LetGo` | gc_pointer.h:178-183 | the guarded lookup-and-decrement leaves the list as `Unbind` says |
| `Collector.Registry.Enroll` | gc_pointer.h:185-192 | the guarded lookup-and-increment-or-append leaves the list as `BindRaw` says |
| `Collector.Registry.Share` | gc_pointer.h:130-134 | the lookup-and-increment of copying leaves the list as `Retain` says |
| `Collector.Pointer.Empty` | gc_pointer.h:42-46 | an alive null handle with no array flag and size 0; `first` becomes false; the list is untouched |
| `Collector.Pointer.FromRaw` | gc_pointer.h:109-125 | an alive handle takes the address and the instantiation's size; a non-null address is incremented or appended, with no collection; well-formedness and exact counts are kept |
| `Container.RegisterShape` | gc_pointer.h:116-124 | a tracked address gets its count raised by one and nothing else changes; an untracked one gets exactly one new record with count 1 at the back |
| `Container.RegisterTwice` | gc_pointer.h:116-124 | two constructions over one fresh address give one record with count 2 |
| `Container.RegisterWellFormed` | gc_pointer.h:116-124 | appends follow only a failed lookup, so addresses stay distinct and non-null |
| `Collector.Pointer.Copy` | gc_pointer.h:126-135 | from an alive source, an alive handle with the three fields copied; only a matching record is incremented, nothing is appended, no collection; exact counts are kept when the source handle is accounted for |
| `Container.RetainShape` | gc_pointer.h:130-134 | copying keeps every address, raises the matched count by one and leaves every other record as it was, and leaves an untracked address's list unchanged |
| `Container.RetainWellFormed` | gc_pointer.h:130-134 | copying keeps the list well formed |
| `Container.RetainNull` | gc_pointer.h:130-131 | the unguarded lookup of a null source changes nothing |
| `Collector.Pointer.Destroy` | gc_pointer.h:138-148 | an alive handle's non-null address has its record decremented if found, then the list is swept and the sweep's frees are logged; the handle is no longer alive; well-formedness and exact counts are kept |
| `Container.ReleaseShape` | gc_pointer.h:140-146 | a decrement keeps every address and leaves every other record as it was; on a well-formed list it lowers the matched count by exactly one, never wrapping |
| `Container.ReleaseLastReference` | gc_pointer.h:139-148 | when the last handle lets go, the record is freed once in its recorded form and erased, and the list shrinks by exactly one |
| `Container.ReleaseShared` | gc_pointer.h:139-148 | when a shared address is let go, its count drops by one and nothing is freed or erased |
| `Collector.Registry.Collect` | gc_pointer.h:152-171 | the erase-and-advance loop leaves `Sweep` of the list, logs `Reclaimed` of it, and reports true iff the list shrank |
| `Container.SweepMembers` | gc_pointer.h:157-169 | a record survives the sweep iff it was in the list with a nonzero count |
| `Container.SweepAppend` | gc_pointer.h:157-169 | the sweep and the free log of a concatenation are concatenations, so survivors and frees keep list order |
| `Container.SweepOfLive` | gc_pointer.h:157-169 | a list without zero counts is left as it is, and nothing is freed |
| `Container.SweepCount` | gc_pointer.h:157-169 | every record is either kept or freed |
| `Container.ReclaimedMembers` | gc_pointer.h:158-163 | an address is freed with `delete[]` (or `delete`) iff a zero-count record tracks it with the array flag set (or clear) |
| `Container.ReclaimedEmpty` | gc_pointer.h:154-170 | the free log is empty iff no count is zero |
| `Container.SweepShape` | gc_pointer.h:157-169 | the sweep keeps addresses distinct and non-null |
| `Container.SweepWellFormed` | gc_pointer.h:157-169 | after any count changes, the sweep restores distinct non-null addresses with positive counts |
| `Container.SweepSplice` | gc_pointer.h:157-169 | a single zero-count record between zero-free stretches is the only one erased and freed |
| `Container.SweepOneZero` | gc_pointer.h:157-169 | a list whose only zero count is at one position loses exactly that record and frees exactly its address |
| `Collector.Pointer.AssignRaw` | gc_pointer.h:174-197 | on an alive handle, the old address is decremented, then the new one is incremented or appended with the instantiation's size; the handle points at the new address with its flags unchanged; then the list is swept; well-formedness and exact counts are kept |
| `Container.ReassignSame` | gc_pointer.h:175-229 | re-targeting a handle at the address it already holds, by raw address or from another handle, is count-neutral and frees nothing |
| `Collector.Pointer.Assign` | gc_pointer.h:200-229 | for two alive handles, self-assignment changes nothing; otherwise the old address is decremented and the source's matching record incremented without insertion, the three fields are copied, and the list is swept; exact counts are kept when both handles are accounted for |
| `Collector.Registry.Shutdown` | gc_pointer.h:265-276 | afterwards the list is empty, so `RefContainerSize()` (gc_pointer.h:93-94) is 0, and every former record has been freed in order in its recorded form; an empty list is left alone |
| `Container.SweepAllZero` | gc_pointer.h:270-275 | with every count forced to zero the sweep empties the list and frees every record in order |
| `Container.FreeAll` | gc_pointer.h:270-275 | the log has one entry per record, with its address and array flag, in order |
| `Container.RegisterTracks` | gc_pointer.h:116-124 | constructing a handle over a non-null address keeps every count equal to the number of live handles on it |
| `Container.RetainTracks` | gc_pointer.h:130-134 | copying a live handle keeps every count equal to the number of live handles on it |
| `Container.ReleaseTracks` | gc_pointer.h:140-146 | a live handle letting go keeps every count equal to the number of live handles on it |
| `Container.SweepTracks` | gc_pointer.h:152-171 | the sweep erases exactly the addresses no live handle holds and keeps the counts exact |
| `Collector.RawConstructionKeeps` | gc_pointer.h:116-124 | raw construction keeps the list well formed and the counts exact |
| `Collector.CopyConstructionKeeps` | gc_pointer.h:130-134 | copy construction keeps the list well formed, and the counts exact for an accounted source |
| `Collector.DestructionKeeps` | gc_pointer.h:139-147 | destruction keeps the list well formed, and the counts exact for an accounted handle |
| `Collector.RawAssignmentKeeps` | gc_pointer.h:178-195 | raw assignment keeps the list well formed, and the counts exact for an accounted handle |
| `Collector.HandleAssignmentKeeps` | gc_pointer.h:206-226 | handle assignment keeps the list well formed, and the counts exact when both handles are accounted separately |
| `Collector.UnbindKeepsShape` | gc_pointer.h:178-183 | letting go keeps addresses distinct and non-null, and the counts exact |
| `Container.SharedLifecycleSteps` | gc_pointer.h:110-148 | for a fresh non-null address, construct (`BindRaw`), copy (`Retain`), destroy the copy, destroy the original (`Unbind` then sweep): counts 1, 2, 1, then one free in the instantiation's form and the list is back as it was |
| `Collector.Pointer.Begin` | gc_pointer.h:75-82 | an iterator at `addr` over `[addr, addr + n)`, where n is `arraySize` for an array handle and 1 otherwise; its `size()` (gc_iterator.h:46) is n |
| `Collector.Pointer.End` | gc_pointer.h:84-91 | an iterator at `addr + n` over the same range; its `size()` (gc_iterator.h:46) is n |
| `Collector.BeginEndDistance` | gc_pointer.h:75-91 | `end() - begin()` is n |
| `Cursor.Iter.Default` | gc_iterator.h:33-37 | the default iterator has null position and bounds and length 0 |
| `Cursor.Iter.constructor` | gc_iterator.h:38-44 | the position and bounds are as given; the length is `last - first` stored unsigned, and equals `last - first` when that fits |
| `Cursor.Iter.Star` | gc_iterator.h:48-53 | dereference succeeds iff `begin <= ptr < end`, and then yields the element at `ptr`; otherwise it is `OutOfRangeExc` with the operator's message |
| `Cursor.Iter.Arrow` | gc_iterator.h:54-59 | `->` succeeds iff `begin <= ptr < end`, and then yields `ptr`; otherwise it is `OutOfRangeExc` |
| `Cursor.Iter.Next` | gc_iterator.h:61-65 | prefix `++` moves `ptr` forward by one, leaves the bounds and length alone, and returns the receiver |
| `Cursor.Iter.PostIncrement` | gc_iterator.h:67-73 | postfix `++` returns a new iterator at the old position over the same bounds, and the receiver moves forward by one |
| `Cursor.Iter.PostDecrement` | gc_iterator.h:74-80 | postfix `--` returns a new iterator at the old position over the same bounds, and the receiver moves back by one |
| `Cursor.Iter.Minus` | gc_iterator.h:105-110 | `- n` moves the receiver back by n in place and returns a copy equal to the moved receiver |
| `Cursor.Iter.Plus` | gc_iterator.h:111-116 | `+ n` moves the receiver forward by n in place and returns a copy equal to the moved receiver |
| `Cursor.Iter.Distance` | gc_iterator.h:117-121 | the difference is the signed distance: the other position plus it gives this one |
| `Cursor.Iter.Equal` | gc_iterator.h:81-84 | equal iff the distance is zero, whatever the bounds |
| `Cursor.Iter.NotEqual` | gc_iterator.h:85-88 | unequal iff the distance is nonzero |
| `Cursor.Iter.Less` | gc_iterator.h:89-92 | less iff the distance is negative |
| `Cursor.Iter.AtMost` | gc_iterator.h:93-96 | at most iff the distance is not positive |
| `Cursor.Iter.Greater` | gc_iterator.h:97-100 | greater iff the distance is positive |
| `Cursor.Iter.AtLeast` | gc_iterator.h:101-104 | at least iff the distance is not negative |
| `Cursor.Traverse` | gc_iterator.h:48-65 | starting at `begin`, the first `end - begin` dereference-then-`++` steps succeed and yield the elements in order; the next dereference fails and the cursor stops at `end`; only the position moves |

## Left out

- The leak-instrumentation header and the `new` macro (gc_pointer.h:1-12) are not part of this model. They are an external allocation facility.
- `atexit(shutdown)` (gc_pointer.h:43-44, 112-113) is a call into the C runtime. Only the `first` flag becoming false is modelled. `Shutdown` is an ordinary method a caller invokes.
- `showlist()` (gc_pointer.h:232-252) is left out. It only writes to the console.
- The message the `OutOfRangeExc` constructor prints (gc_iterator.h:8-11) is left out. It is console output. The exception becomes the `OutOfRangeExc` result value, carrying the message.
- `Pointer`'s `operator*`, `operator->`, `operator[]` and `operator T*` (gc_pointer.h:61-73) are left out. They are unchecked raw accesses, and misuse is undefined behaviour.
- Memory itself is not modelled. `delete`/`delete[]` become entries in the ghost log `freed`. What a freed address held, and dangling handles or iterators, are outside the model.
- Per-(T, size) static storage and template instantiation are left out. Each instantiation is one `Registry` object that its handles share. gc_implementation.cpp only instantiates templates.
- Cycles and concurrent access are left out. The code handles neither.
- The template argument `size` is taken as `0..INT_MAX`. A negative `size` would make the record's flag (computed on the `unsigned`) differ from the handle's (computed on the `int`). That case is not modelled.
- Container.Register: the count is an unbounded natural when incremented. The wrap of the 32-bit `unsigned` after 2^32 live handles on one address is not modelled. Decrement does model the unsigned wrap from 0, and `ReleaseShape` shows it cannot happen on a well-formed list.
- Cursor.Iter.Distance: the source returns an `int`. Truncation of a pointer difference beyond 32 bits is not modelled, nor is overflow in `Plus`/`Minus` pointer arithmetic.
- Collector.Registry.Shutdown: it does not promise exact counts afterwards. Handles still alive at shutdown keep their now untracked addresses, so the `live` multiset no longer matches the list.

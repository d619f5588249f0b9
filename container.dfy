/** The collector's list of records (`refContainer` in gc_pointer.h) as a value,
    and what each handle event does to it. The classes in module Collector
    update their list in place and are proved to agree with these functions;
    the lemmas here state what the source promises about them. */
module Container {
  import opened Details

  type Records = seq<PtrDetails>

  /** Some record tracks address `a`. */
  predicate Holds(s: Records, a: int)
  {
    exists i :: 0 <= i < |s| && s[i].memPtr == a
  }

  /** No two records track the same address. */
  predicate Distinct(s: Records)
  {
    forall i, j :: 0 <= i < j < |s| ==> s[i].memPtr != s[j].memPtr
  }

  /** No record tracks the null address. */
  predicate NoNull(s: Records)
  {
    forall i :: 0 <= i < |s| ==> s[i].memPtr != 0
  }

  /** The shape of the list between two handle events: distinct non-null
      addresses, every count positive (zero counts are swept at once). */
  predicate WellFormed(s: Records)
  {
    Distinct(s) && NoNull(s) && forall i :: 0 <= i < |s| ==> s[i].refcount > 0
  }

  /** `t` and `s` hold the same addresses in the same order; only counts may differ. */
  predicate SameAddresses(s: Records, t: Records)
  {
    |s| == |t| && forall i :: 0 <= i < |s| ==> s[i].memPtr == t[i].memPtr
  }

  /** `findPtrInfo`: the position of the first record for `ptr`, or `|s|`
      (the list's end) when no record tracks it. */
  function Find(s: Records, ptr: int): (i: nat)
    ensures i <= |s|
    ensures i < |s| ==> s[i].memPtr == ptr
    ensures forall j :: 0 <= j < i ==> s[j].memPtr != ptr
  {
    if s == [] then 0
    else if s[0].memPtr == ptr then 0
    else 1 + Find(s[1..], ptr)
  }

  /** `p->refcount++` on the record at position `i`. */
  function Bump(s: Records, i: nat): Records
    requires i < |s|
  {
    s[i := s[i].(refcount := s[i].refcount + 1)]
  }

  /** Construction from, or assignment of, a raw address: increment the
      record for `t`, or append a new record with this instantiation's size. */
  function Register(s: Records, t: int, size: Size): Records
  {
    var i := Find(s, t);
    if i < |s| then Bump(s, i) else s + [NewDetails(t, size)]
  }

  /** Copying a handle onto address `a`: increment its record if there is one. */
  function Retain(s: Records, a: int): Records
  {
    var i := Find(s, a);
    if i < |s| then Bump(s, i) else s
  }

  /** A handle leaving address `a`: decrement its record if there is one. */
  function Release(s: Records, a: int): Records
  {
    var i := Find(s, a);
    if i < |s| then s[i := s[i].(refcount := Decrement(s[i].refcount))] else s
  }

  /** A handle on `a` letting go, as the destructor and both assignments do
      it: nothing happens for the null address. */
  function Unbind(s: Records, a: int): Records
  {
    if a != 0 then Release(s, a) else s
  }

  /** Binding a handle to raw address `t` (construction, `operator=(T*)`):
      nothing happens for the null address. */
  function BindRaw(s: Records, t: int, size: Size): Records
  {
    if t != 0 then Register(s, t, size) else s
  }

  /** Binding a handle to another handle's address `b` in `operator=(Pointer&)`:
      nothing happens for the null address, and nothing is ever appended. */
  function BindCopy(s: Records, b: int): Records
  {
    if b != 0 then Retain(s, b) else s
  }

  /** The list that `collect` leaves: the records whose count is not zero, in order. */
  function Sweep(s: Records): Records
  {
    if s == [] then []
    else
      var last := s[|s| - 1];
      Sweep(s[..|s| - 1]) + (if last.refcount <= 0 then [] else [last])
  }

  /** What `collect` frees, in order: each zero-count record's address, with
      `true` for `delete[]` and `false` for `delete`. */
  function Reclaimed(s: Records): seq<(int, bool)>
  {
    if s == [] then []
    else
      var last := s[|s| - 1];
      Reclaimed(s[..|s| - 1]) + (if last.refcount <= 0 then [(last.memPtr, last.isArray)] else [])
  }

  /** Every record's address and deallocation form, in order. */
  function FreeAll(s: Records): (log: seq<(int, bool)>)
    ensures |log| == |s|
    ensures forall i :: 0 <= i < |s| ==> log[i] == (s[i].memPtr, s[i].isArray)
  {
    if s == [] then [] else FreeAll(s[..|s| - 1]) + [(s[|s| - 1].memPtr, s[|s| - 1].isArray)]
  }

  // ---------------------------------------------------------------------------
  // findPtrInfo

  /** `findPtrInfo` is `std::find` under the records' `operator==`: the
      position it returns for `d.memPtr` is the first whose record equals `d`,
      or the end when no record does. */
  lemma {:induction false} FindBySameAddress(s: Records, d: PtrDetails)
    ensures Find(s, d.memPtr) < |s| <==> exists i :: 0 <= i < |s| && SameAddress(s[i], d)
    ensures Find(s, d.memPtr) < |s| ==> SameAddress(s[Find(s, d.memPtr)], d)
    ensures forall j :: 0 <= j < Find(s, d.memPtr) ==> !SameAddress(s[j], d)
  {
    var i := Find(s, d.memPtr);
    if i == |s| {
      forall j | 0 <= j < |s|
        ensures !SameAddress(s[j], d)
      {
      }
    }
  }

  /** Whether a record was found is exactly whether the address is tracked. */
  lemma {:induction false} FindHolds(s: Records, a: int)
    ensures Find(s, a) < |s| <==> Holds(s, a)
  {
  }

  /** A lookup depends only on the addresses, not on the counts. */
  lemma {:induction false} FindSameAddresses(s: Records, t: Records, a: int)
    requires SameAddresses(s, t)
    ensures Find(s, a) == Find(t, a)
  {
  }

  /** Changing counts only keeps the list's shape. */
  lemma {:induction false} SameAddressesKeepShape(s: Records, t: Records)
    requires SameAddresses(s, t)
    ensures Distinct(s) ==> Distinct(t)
    ensures NoNull(s) ==> NoNull(t)
    ensures forall a :: Holds(s, a) ==> Holds(t, a)
  {
    forall a | Holds(s, a) ensures Holds(t, a) {
      var i :| 0 <= i < |s| && s[i].memPtr == a;
      assert t[i].memPtr == a;
    }
  }

  // ---------------------------------------------------------------------------
  // Construction: increment-or-append

  /** Registering a tracked address increments its record and nothing else;
      registering an untracked one appends one record with count 1 at the back. */
  lemma {:induction false} RegisterShape(s: Records, t: int, size: Size)
    ensures Holds(s, t) ==>
      var i := Find(s, t);
      SameAddresses(s, Register(s, t, size)) &&
      Register(s, t, size)[i].refcount == s[i].refcount + 1 &&
      forall j :: 0 <= j < |s| && j != i ==> Register(s, t, size)[j] == s[j]
    ensures !Holds(s, t) ==> Register(s, t, size) == s + [NewDetails(t, size)]
  {
    FindHolds(s, t);
  }

  /** Two constructions over the same fresh address give one record with count 2. */
  lemma {:induction false} RegisterTwice(s: Records, t: int, size: Size)
    requires !Holds(s, t)
    ensures Register(Register(s, t, size), t, size) == s + [NewDetails(t, size).(refcount := 2)]
  {
    var s1 := s + [NewDetails(t, size)];
    FindHolds(s, t);
    assert Register(s, t, size) == s1;
    assert forall j :: 0 <= j < |s| ==> s1[j] == s[j];
    assert s1[|s|].memPtr == t;
  }

  /** Copying only ever increments: the list keeps its addresses. */
  lemma {:induction false} RetainShape(s: Records, a: int)
    ensures SameAddresses(s, Retain(s, a))
    ensures Holds(s, a) ==> Retain(s, a)[Find(s, a)].refcount == s[Find(s, a)].refcount + 1
    ensures forall j :: 0 <= j < |s| && j != Find(s, a) ==> Retain(s, a)[j] == s[j]
    ensures !Holds(s, a) ==> Retain(s, a) == s
  {
    FindHolds(s, a);
  }

  /** Releasing keeps the addresses, and on a well-formed list it is a plain
      decrement (the unsigned counter never wraps). */
  lemma {:induction false} ReleaseShape(s: Records, a: int)
    ensures SameAddresses(s, Release(s, a))
    ensures WellFormed(s) && Holds(s, a) ==>
      Release(s, a)[Find(s, a)].refcount == s[Find(s, a)].refcount - 1
    ensures forall j :: 0 <= j < |s| && j != Find(s, a) ==> Release(s, a)[j] == s[j]
    ensures !Holds(s, a) ==> Release(s, a) == s
  {
    FindHolds(s, a);
  }

  /** Registration keeps the list well formed: appends only follow a failed
      lookup, so addresses stay distinct. */
  lemma {:induction false} RegisterWellFormed(s: Records, t: int, size: Size)
    requires Distinct(s) && NoNull(s) && t != 0
    ensures Distinct(Register(s, t, size)) && NoNull(Register(s, t, size))
    ensures WellFormed(s) ==> WellFormed(Register(s, t, size))
  {
    var r := Register(s, t, size);
    FindHolds(s, t);
    if Holds(s, t) {
      SameAddressesKeepShape(s, r);
    } else {
      assert r == s + [NewDetails(t, size)];
      forall i, j | 0 <= i < j < |r| ensures r[i].memPtr != r[j].memPtr {
        if j == |s| {
          assert r[i] == s[i];
        }
      }
    }
  }

  /** Copying keeps the list well formed. */
  lemma {:induction false} RetainWellFormed(s: Records, a: int)
    requires Distinct(s) && NoNull(s)
    ensures Distinct(Retain(s, a)) && NoNull(Retain(s, a))
    ensures WellFormed(s) ==> WellFormed(Retain(s, a))
  {
    RetainShape(s, a);
    SameAddressesKeepShape(s, Retain(s, a));
  }

  /** The copy constructor looks up even the null address; nothing tracks it. */
  lemma {:induction false} RetainNull(s: Records)
    requires NoNull(s)
    ensures Retain(s, 0) == s
  {
    FindHolds(s, 0);
  }

  // ---------------------------------------------------------------------------
  // collect

  /** The sweep of a concatenation is the concatenation of the sweeps: the
      survivors keep their original order. */
  lemma {:induction false} SweepAppend(a: Records, b: Records)
    ensures Sweep(a + b) == Sweep(a) + Sweep(b)
    ensures Reclaimed(a + b) == Reclaimed(a) + Reclaimed(b)
    decreases |b|
  {
    if b == [] {
      assert a + b == a;
    } else {
      var b' := b[..|b| - 1];
      assert (a + b)[..|a + b| - 1] == a + b';
      SweepAppend(a, b');
    }
  }

  /** A record survives the sweep iff it was in the list with a nonzero count. */
  lemma {:induction false} SweepMembers(s: Records, x: PtrDetails)
    ensures x in Sweep(s) <==> x in s && x.refcount != 0
  {
    if s != [] {
      var init := s[..|s| - 1];
      SweepMembers(init, x);
      assert s == init + [s[|s| - 1]];
    }
  }

  /** A list without zero counts is left as it is, and nothing is freed. */
  lemma {:induction false} SweepOfLive(s: Records)
    requires forall i :: 0 <= i < |s| ==> s[i].refcount > 0
    ensures Sweep(s) == s
    ensures Reclaimed(s) == []
  {
    if s != [] {
      var init, last := s[..|s| - 1], s[|s| - 1];
      assert forall i :: 0 <= i < |init| ==> init[i].refcount > 0 by {
        forall i | 0 <= i < |init| ensures init[i].refcount > 0 {
          assert init[i] == s[i];
        }
      }
      SweepOfLive(init);
      assert last.refcount > 0;
      assert s == init + [last];
    }
  }

  /** With every count at zero the sweep empties the list and frees every
      record in order, each in its recorded form. */
  lemma {:induction false} SweepAllZero(s: Records)
    requires forall i :: 0 <= i < |s| ==> s[i].refcount == 0
    ensures Sweep(s) == []
    ensures Reclaimed(s) == FreeAll(s)
  {
    if s != [] {
      SweepAllZero(s[..|s| - 1]);
    }
  }

  /** Every record is either kept or freed, never both and never neither. */
  lemma {:induction false} SweepCount(s: Records)
    ensures |Sweep(s)| + |Reclaimed(s)| == |s|
  {
    if s != [] {
      SweepCount(s[..|s| - 1]);
    }
  }

  /** An address is freed, in a given form, iff some zero-count record tracks
      it with that array flag. */
  lemma {:induction false} ReclaimedMembers(s: Records, a: int, isArray: bool)
    ensures (a, isArray) in Reclaimed(s) <==>
      exists i :: 0 <= i < |s| && s[i].refcount == 0 && s[i].memPtr == a && s[i].isArray == isArray
  {
    if s != [] {
      var init := s[..|s| - 1];
      ReclaimedMembers(init, a, isArray);
      if (a, isArray) in Reclaimed(init) {
        var i :| 0 <= i < |init| && init[i].refcount == 0 && init[i].memPtr == a && init[i].isArray == isArray;
        assert s[i] == init[i];
      }
      if exists i :: 0 <= i < |s| && s[i].refcount == 0 && s[i].memPtr == a && s[i].isArray == isArray {
        var i :| 0 <= i < |s| && s[i].refcount == 0 && s[i].memPtr == a && s[i].isArray == isArray;
        if i < |init| {
          assert init[i] == s[i];
        }
      }
    }
  }

  /** `collect` reports a free iff some record had a zero count. */
  lemma {:induction false} ReclaimedEmpty(s: Records)
    ensures Reclaimed(s) == [] <==> forall i :: 0 <= i < |s| ==> s[i].refcount != 0
  {
    if s != [] {
      var init := s[..|s| - 1];
      ReclaimedEmpty(init);
      assert forall i :: 0 <= i < |init| ==> init[i] == s[i];
    }
  }

  /** The sweep keeps addresses distinct and non-null. */
  lemma {:induction false} SweepShape(s: Records)
    ensures Distinct(s) ==> Distinct(Sweep(s))
    ensures NoNull(s) ==> NoNull(Sweep(s))
  {
    if s != [] {
      var init := s[..|s| - 1];
      var last := s[|s| - 1];
      SweepShape(init);
      var k := Sweep(init);
      if Distinct(s) && last.refcount != 0 {
        forall i | 0 <= i < |k| ensures k[i].memPtr != last.memPtr {
          SweepMembers(init, k[i]);
          var j :| 0 <= j < |init| && init[j] == k[i];
          assert s[j] == k[i];
        }
      }
      if NoNull(s) {
        forall i | 0 <= i < |k| ensures k[i].memPtr != 0 {
          SweepMembers(init, k[i]);
        }
      }
    }
  }

  /** After any count changes, the sweep restores the between-events shape. */
  lemma {:induction false} SweepWellFormed(s: Records)
    requires Distinct(s) && NoNull(s)
    ensures WellFormed(Sweep(s))
  {
    SweepShape(s);
    var k := Sweep(s);
    forall i | 0 <= i < |k| ensures k[i].refcount > 0 {
      SweepMembers(s, k[i]);
    }
  }

  // ---------------------------------------------------------------------------
  // Destruction and assignment

  /** Sweeping a zero-count record between two zero-free stretches erases
      exactly that record and frees exactly its address. */
  lemma {:induction false} SweepSplice(pre: Records, x: PtrDetails, post: Records)
    requires x.refcount == 0
    requires forall j :: 0 <= j < |pre| ==> pre[j].refcount > 0
    requires forall j :: 0 <= j < |post| ==> post[j].refcount > 0
    ensures Sweep(pre + [x] + post) == pre + post
    ensures Reclaimed(pre + [x] + post) == [(x.memPtr, x.isArray)]
  {
    SweepOfLive(pre);
    SweepOfLive(post);
    SweepAppend(pre, [x]);
    SweepAppend(pre + [x], post);
    assert [x][..0] == [];
  }

  /** Sweeping a list whose only zero count is at position `i` erases exactly
      that record and frees exactly its address. */
  lemma {:induction false} SweepOneZero(s: Records, i: nat)
    requires i < |s| && s[i].refcount == 0
    requires forall j :: 0 <= j < |s| && j != i ==> s[j].refcount > 0
    ensures Sweep(s) == s[..i] + s[i + 1..]
    ensures Reclaimed(s) == [(s[i].memPtr, s[i].isArray)]
  {
    var pre, post := s[..i], s[i + 1..];
    assert forall j :: 0 <= j < |pre| ==> pre[j].refcount > 0 by {
      forall j | 0 <= j < |pre| ensures pre[j].refcount > 0 {
        assert pre[j] == s[j];
      }
    }
    assert forall j :: 0 <= j < |post| ==> post[j].refcount > 0 by {
      forall j | 0 <= j < |post| ensures post[j].refcount > 0 {
        assert post[j] == s[i + 1 + j];
      }
    }
    assert s == pre + [s[i]] + post by {
      assert s[i..] == [s[i]] + post;
      assert s == pre + s[i..];
    }
    SweepSplice(pre, s[i], post);
  }

  /** The last handle on an address lets go: its record is freed in its
      recorded form and erased, and the list shrinks by exactly one. */
  lemma {:induction false} ReleaseLastReference(s: Records, a: int)
    requires WellFormed(s) && Holds(s, a)
    requires s[Find(s, a)].refcount == 1
    ensures |Sweep(Release(s, a))| == |s| - 1
    ensures !Holds(Sweep(Release(s, a)), a)
    ensures Reclaimed(Release(s, a)) == [(a, s[Find(s, a)].isArray)]
  {
    FindHolds(s, a);
    var i := Find(s, a);
    var r := Release(s, a);
    assert forall j :: 0 <= j < |s| && j != i ==> r[j] == s[j];
    SweepOneZero(r, i);
    var k := Sweep(r);
    assert k == s[..i] + s[i + 1..];
  }

  /** A handle lets go of a shared address: its count drops by one and
      nothing is freed or erased. */
  lemma {:induction false} ReleaseShared(s: Records, a: int)
    requires WellFormed(s) && Holds(s, a)
    requires s[Find(s, a)].refcount > 1
    ensures Sweep(Release(s, a)) == Release(s, a)
    ensures Reclaimed(Release(s, a)) == []
    ensures SameAddresses(s, Release(s, a))
    ensures Release(s, a)[Find(s, a)].refcount == s[Find(s, a)].refcount - 1
  {
    ReleaseShape(s, a);
    var r := Release(s, a);
    var i := Find(s, a);
    forall j | 0 <= j < |r| ensures r[j].refcount > 0 {
      if j != i {
        assert r[j] == s[j];
      }
    }
    SweepOfLive(r);
  }

  /** Re-targeting a handle at the address it already holds (by raw address
      or from another handle on it) is count-neutral and frees nothing. */
  lemma {:induction false} ReassignSame(s: Records, a: int, size: Size)
    requires WellFormed(s) && Holds(s, a)
    ensures Register(Release(s, a), a, size) == s
    ensures Retain(Release(s, a), a) == s
    ensures Sweep(s) == s && Reclaimed(s) == []
  {
    FindHolds(s, a);
    var i := Find(s, a);
    var x := s[i];
    var r := s[i := x.(refcount := x.refcount - 1)];
    assert Release(s, a) == r;
    FindSameAddresses(s, r, a);
    assert r[i := r[i].(refcount := r[i].refcount + 1)] == s[i := x];
    assert s[i := x] == s;
    SweepOfLive(s);
  }

  /** Lookups on a list with one record appended for an untracked address. */
  lemma {:induction false} FindAppended(s: Records, d: PtrDetails)
    requires !Holds(s, d.memPtr)
    ensures Find(s + [d], d.memPtr) == |s|
    ensures Release(s + [d], d.memPtr) == s + [d.(refcount := Decrement(d.refcount))]
    ensures Retain(s + [d], d.memPtr) == s + [d.(refcount := d.refcount + 1)]
  {
    var s1 := s + [d];
    assert forall j :: 0 <= j < |s| ==> s1[j] == s[j];
    assert s1[|s|] == d;
  }

  /** One fresh allocation, two handles: construct (count 1), copy (count 2),
      destroy the copy (count 1, nothing freed), destroy the original (freed
      once, in the instantiation's form, and the list is back as it was). */
  lemma {:induction false} SharedLifecycleSteps(s: Records, t: int, size: Size)
    requires WellFormed(s) && t != 0 && !Holds(s, t)
    ensures BindRaw(s, t, size) == s + [NewDetails(t, size)]
    ensures Retain(BindRaw(s, t, size), t) == s + [NewDetails(t, size).(refcount := 2)]
    ensures Sweep(Unbind(s + [NewDetails(t, size).(refcount := 2)], t)) == s + [NewDetails(t, size)]
    ensures Reclaimed(Unbind(s + [NewDetails(t, size).(refcount := 2)], t)) == []
    ensures Sweep(Unbind(s + [NewDetails(t, size)], t)) == s
    ensures Reclaimed(Unbind(s + [NewDetails(t, size)], t)) == [(t, size > 0)]
  {
    var d := NewDetails(t, size);
    FindHolds(s, t);
    FindAppended(s, d);
    FindAppended(s, d.(refcount := 2));
    assert d.(refcount := 2).(refcount := Decrement(2)) == d;
    SweepAppend(s, [d]);
    SweepAppend(s, [d.(refcount := 0)]);
    assert [d][..0] == [];
    assert [d.(refcount := 0)][..0] == [];
    SweepOfLive(s);
  }

  // ---------------------------------------------------------------------------
  // Reference counts agree with the live handles

  /** The multiset of the addresses held by live non-null handles; one
      occurrence per handle. */
  function Hold(a: int): multiset<int>
  {
    if a == 0 then multiset{} else multiset{a}
  }

  /** Every record's count is the number of live handles on its address,
      every address a live handle holds is tracked, and the addresses are
      distinct and non-null. */
  ghost predicate Tracks(s: Records, live: multiset<int>)
  {
    Distinct(s) && NoNull(s) &&
    (forall i :: 0 <= i < |s| ==> s[i].refcount == live[s[i].memPtr]) &&
    (forall a :: a in live ==> Holds(s, a))
  }

  /** Constructing a handle over a non-null raw address keeps the counts exact. */
  lemma {:induction false} RegisterTracks(s: Records, live: multiset<int>, t: int, size: Size)
    requires Tracks(s, live) && t != 0
    ensures Tracks(Register(s, t, size), live + multiset{t})
  {
    var r := Register(s, t, size);
    var live' := live + multiset{t};
    FindHolds(s, t);
    var i := Find(s, t);
    if Holds(s, t) {
      SameAddressesKeepShape(s, r);
      forall j | 0 <= j < |r| ensures r[j].refcount == live'[r[j].memPtr] {
        if j != i {
          assert r[j] == s[j];
        }
      }
    } else {
      assert r == s + [NewDetails(t, size)];
      assert live[t] == 0;
      forall j, k | 0 <= j < k < |r| ensures r[j].memPtr != r[k].memPtr {
        if k == |s| {
          assert r[j] == s[j];
        }
      }
      forall j | 0 <= j < |r| ensures r[j].refcount == live'[r[j].memPtr] {
        if j < |s| {
          assert r[j] == s[j];
        }
      }
      forall a | a in live' ensures Holds(r, a) {
        if a == t {
          assert r[|s|].memPtr == t;
        } else {
          var k :| 0 <= k < |s| && s[k].memPtr == a;
          assert r[k] == s[k];
        }
      }
    }
  }

  /** Copying a live handle keeps the counts exact. */
  lemma {:induction false} RetainTracks(s: Records, live: multiset<int>, a: int)
    requires Tracks(s, live) && a in live
    ensures Tracks(Retain(s, a), live + multiset{a})
  {
    var r := Retain(s, a);
    var live' := live + multiset{a};
    FindHolds(s, a);
    RetainShape(s, a);
    SameAddressesKeepShape(s, r);
    var i := Find(s, a);
    forall j | 0 <= j < |r| ensures r[j].refcount == live'[r[j].memPtr] {
      if j != i {
        assert r[j] == s[j];
      }
    }
  }

  /** A live handle letting go keeps the counts exact (before the sweep). */
  lemma {:induction false} ReleaseTracks(s: Records, live: multiset<int>, a: int)
    requires Tracks(s, live) && a in live
    ensures Tracks(Release(s, a), live - multiset{a})
  {
    var r := Release(s, a);
    var live' := live - multiset{a};
    FindHolds(s, a);
    ReleaseShape(s, a);
    SameAddressesKeepShape(s, r);
    var i := Find(s, a);
    forall j | 0 <= j < |r| ensures r[j].refcount == live'[r[j].memPtr] {
      if j != i {
        assert r[j] == s[j];
      }
    }
    forall b | b in live' ensures Holds(r, b) {
      assert b in live;
    }
  }

  /** The sweep keeps the counts exact and leaves a well-formed list: exactly
      the addresses no live handle holds are erased. */
  lemma {:induction false} SweepTracks(s: Records, live: multiset<int>)
    requires Tracks(s, live)
    ensures Tracks(Sweep(s), live)
    ensures WellFormed(Sweep(s))
  {
    var k := Sweep(s);
    SweepWellFormed(s);
    forall i | 0 <= i < |k| ensures k[i].refcount == live[k[i].memPtr] {
      SweepMembers(s, k[i]);
    }
    forall a | a in live ensures Holds(k, a) {
      var j :| 0 <= j < |s| && s[j].memPtr == a;
      SweepMembers(s, s[j]);
      var m :| 0 <= m < |k| && k[m] == s[j];
    }
  }
}

/** The deterministic tests of the crate, replayed against the model, and
    the history that shows what `remove` without a tombstone does. */
module Scenarios {
  import opened PowerOfTwo
  import opened Probing
  import opened HashTable

  /** `empty_hashmap`: a new table has no capacity and finds nothing. */
  method EmptyHashmap() returns (cap: nat, got: Option<real>)
    ensures cap == 0 && got == None
  {
    var m := new HashMap<real>();
    cap := m.Capacity();
    got := m.Get(0);
  }

  /** `resize`: a table of one slot grows to two when a second key comes,
      and both keys are found afterwards. */
  method ResizeOnInsert() returns (cap: nat, got0: Option<real>, got1: Option<real>)
    ensures cap == 2 && got0 == Some(0.1) && got1 == Some(0.2)
  {
    assert NextPow2(1) == 1 && NextPow2(2) == 2 by {
      assert Pow2(0) == 1 && Pow2(1) == 2;
      NextPow2OfPow2(1);
      NextPow2OfPow2(2);
    }
    var m := new HashMap<real>.WithCapacity(1);
    var _ := m.Insert(0, 0.1);
    var _ := m.Insert(1, 0.2);
    cap := m.Capacity();
    got0 := m.Get(0);
    got1 := m.Get(1);
  }

  /** `capacity`: `with_capacity(12)` allocates 16 slots, and one insert
      does not grow them. */
  method CapacityRoundsUp() returns (before: nat, after: nat)
    ensures before == 16 && after == 16
  {
    NextPow2OfTwelve();
    var m := new HashMap<real>.WithCapacity(12);
    before := m.Capacity();
    var _ := m.Insert(15, 0.21);
    after := m.Capacity();
  }

  /** `collision`: two keys with the same hash both stay reachable; the
      second one takes the next slot of the probe sequence. */
  method Collision() returns (got2: Option<real>, got4: Option<real>, layout: seq<Slot<real>>)
    ensures got2 == Some(0.1) && got4 == Some(0.2)
    ensures layout == [Taken(2, 0.1), Taken(4, 0.2)]
  {
    assert NextPow2(2) == 2 by {
      assert Pow2(1) == 2;
      NextPow2OfPow2(2);
    }
    var m := new HashMap<real>.WithCapacity(2);
    assert ProbeIndex(0, 0, 2) == 0 && ProbeIndex(0, 1, 2) == 1;
    var _ := m.Insert(2, 0.1);
    assert m.slots[..] == [Taken(2, 0.1), Empty];
    var _ := m.Insert(4, 0.2);
    assert m.slots[..] == [Taken(2, 0.1), Taken(4, 0.2)];
    got2 := m.Get(2);
    got4 := m.Get(4);
    layout := m.slots[..];
  }

  /** `double_insert`: inserting a stored key returns the old value,
      replaces it, and does not add an item. */
  method DoubleInsert() returns (previous: Option<real>, got: Option<real>, len: nat)
    ensures previous == Some(0.1) && got == Some(0.2) && len == 1
  {
    var m := new HashMap<real>();
    var _ := m.Insert(10, 0.1);
    previous := m.Insert(10, 0.2);
    got := m.Get(10);
    len := m.Len();
  }

  /** The scans the history below runs, on the four buffers it passes
      through from an all-EMPTY buffer of four slots. */
  lemma ReinsertScans(s0: seq<Slot<real>>)
    requires |s0| == 4 && forall i :: 0 <= i < 4 ==> s0[i] == Empty
    ensures FindIn(s0, 0) == None && FirstEmptyIn(s0, 0) == Some(0)
    ensures var s1 := s0[0 := Taken(0, 0.1)];
            && FindIn(s1, 4) == None && FirstEmptyIn(s1, 0) == Some(1)
            && var s2 := s1[1 := Taken(4, 0.2)];
               && FindIn(s2, 0) == Some(0)
               && var s3 := s2[0 := Empty];
                  FindIn(s3, 4) == None && FirstEmptyIn(s3, 0) == Some(0)
  {
    assert ProbeIndex(0, 0, 4) == 0 && ProbeIndex(0, 1, 4) == 1;
  }

  /** Insert 0, insert 4, remove 0, insert 4 in a table of four slots: the
      removal empties the head of key 4's probe chain, so the second insert
      of 4 no longer finds it and stores the key a second time. */
  method RemoveThenReinsert() returns (removed: Option<real>, second: Option<real>, layout: seq<Slot<real>>, len: nat)
    ensures removed == Some(0.1) && second == None && len == 2
    ensures layout == [Taken(4, 0.3), Taken(4, 0.2), Empty, Empty]
  {
    assert NextPow2(4) == 4 by {
      assert Pow2(2) == 4;
      NextPow2OfPow2(4);
    }
    var m := new HashMap<real>.WithCapacity(4);
    ghost var s0 := m.slots[..];
    ReinsertScans(s0);
    var _ := m.Insert(0, 0.1);
    var _ := m.Insert(4, 0.2);
    removed := m.Remove(0);
    second := m.Insert(4, 0.3);
    layout := m.slots[..];
    len := m.Len();
  }

  /** The buffer after insert 0, insert 4 in a table of four slots. */
  function TwoChained<V>(a: V, b: V): (s: seq<Slot<V>>)
    ensures |s| == 4
  {
    [Taken(0, a), Taken(4, b), Empty, Empty]
  }

  lemma TwoChainedEntries<V>(a: V, b: V)
    ensures Entries(TwoChained(a, b)) == multiset{(0, a), (4, b)}
  {
    var front, back := [Taken(0, a), Taken(4, b)], [Empty, Empty];
    assert TwoChained(a, b) == front + back;
    EntriesConcat(front, back);
    EntriesAllEmpty(back);
    assert front[..1] == [Taken(0, a)] && front[..1][..0] == [];
  }

  lemma TwoChainedIsChained<V>(a: V, b: V)
    ensures Chained(TwoChained(a, b))
  {
    var s := TwoChained(a, b);
    forall i | 0 <= i < |s| && s[i].Taken? ensures OnChain(s, i) {
      assert i == 0 || i == 1;
      assert ProbeIndex(0, 0, 4) == 0;
    }
  }

  /** The buffer is clean and `get(4)` finds the second pair. */
  lemma HiddenKeyBufferClean<V>(a: V, b: V)
    ensures Clean(TwoChained(a, b)) && LookupIn(TwoChained(a, b), 4) == Some(b)
  {
    var s := TwoChained(a, b);
    TwoChainedEntries(a, b);
    TwoChainedIsChained(a, b);
    assert ProbeIndex(0, 1, 4) == 1;
    assert FindFrom(s, 4, 0, 1) == Some(1);
  }

  /** The same cut, on buffers: a clean buffer that finds key 4 stops
      finding it once slot 0 is emptied, although its pair is still
      stored, and the chain property is lost. */
  lemma RemoveCanHideKey<V>(a: V, b: V)
    ensures var t := RemoveIn(TwoChained(a, b), 0);
            && (4, b) in Entries(t) && LookupIn(t, 4) == None && !Chained(t)
  {
    var s := TwoChained(a, b);
    assert ProbeIndex(0, 0, 4) == 0;
    assert FindIn(s, 0) == Some(0);
    var t := RemoveIn(s, 0);
    assert t == [Empty, Taken(4, b), Empty, Empty];
    EntriesHasSlot(t, 1);
    assert t[1].key % |t| == 0 && ProbeOffset(0, 1, 4) == 1;
    assert !OnChain(t, 1);
  }
}

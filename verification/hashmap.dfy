/** The table: an open-addressing hash map keyed by naturals, whose hash
    is the key modulo the capacity, over one buffer of slots that its
    methods update in place. */
module HashTable {
  import opened PowerOfTwo
  import opened Probing

  /** `std::mem::swap` of two slots held by two different buffers. */
  method Swap<V>(a: array<Slot<V>>, i: nat, b: array<Slot<V>>, j: nat)
    requires a != b && i < a.Length && j < b.Length
    modifies a, b
    ensures a[..] == old(a[..])[i := old(b[j])]
    ensures b[..] == old(b[..])[j := old(a[i])]
  {
    a[i], b[j] := b[j], a[i];
  }

  class HashMap<V> {
    /** The slot buffer; its length is the capacity (zero before the first
        allocation). */
    var slots: array<Slot<V>>
    var items: nat
    var capacity: nat

    ghost predicate Valid()
      reads this, slots
    {
      && slots.Length == capacity
      && (capacity == 0 || IsPow2(capacity))
      && items == |Entries(slots[..])|
      && items <= capacity
    }

    /** The (key, value) pairs the table holds. */
    ghost function Contents(): multiset<(nat, V)>
      reads this, slots
    {
      Entries(slots[..])
    }

    /** `new`: no buffer, nothing stored, and `get` finds nothing. */
    constructor ()
      ensures Valid() && Clean(slots[..]) && fresh(slots)
      ensures capacity == 0 && items == 0 && Contents() == multiset{}
      ensures forall key :: LookupIn(slots[..], key) == None
    {
      slots := new Slot<V>[0];
      items, capacity := 0, 0;
    }

    /** `with_capacity` and `new_inner`: a fresh all-EMPTY buffer of
        `NextPow2(n)` slots. */
    constructor WithCapacity(n: nat)
      ensures Valid() && Clean(slots[..]) && fresh(slots)
      ensures capacity == NextPow2(n) && items == 0 && Contents() == multiset{}
      ensures forall i :: 0 <= i < slots.Length ==> slots[i] == Empty
      ensures forall key :: LookupIn(slots[..], key) == None
    {
      var cap := NextPow2(n);
      slots := new Slot<V>[cap](_ => Empty);
      items, capacity := 0, cap;
      new;
      AllEmptyIsClean(slots[..]);
      forall key ensures LookupIn(slots[..], key) == None {
        LookupAbsent(slots[..], key);
      }
    }

    function Capacity(): (c: nat)
      reads this, slots
      requires Valid()
      ensures c == slots.Length && (c == 0 || IsPow2(c))
    {
      capacity
    }

    function Len(): (n: nat)
      reads this, slots
      requires Valid()
      ensures n == |Contents()| && n <= Capacity()
    {
      items
    }

    /** `find`: scans the probe sequence from `key % capacity`, giving up
        at the first EMPTY slot or after `capacity` steps. */
    method Find(key: nat) returns (r: Option<nat>)
      requires Valid()
      ensures r == FindIn(slots[..], key)
      ensures r.Some? ==> r.value < capacity && slots[r.value].Taken? && slots[r.value].key == key
    {
      if capacity == 0 {
        return None;
      }
      var hash := key % capacity;
      var idx := 0;
      while idx < capacity
        invariant idx <= capacity
        invariant FindFrom(slots[..], key, hash, idx) == FindIn(slots[..], key)
      {
        var i := ProbeIndex(hash, idx, capacity);
        match slots[i] {
          case Empty =>
            return None;
          case Taken(k, _) =>
            if k == key {
              return Some(i);
            }
        }
        idx := idx + 1;
      }
      return None;
    }

    /** `find_insert_slot`: the first EMPTY slot on the probe sequence from
        `hash`. Its callers first make sure a slot is EMPTY, so the scan
        never runs off the end. */
    method FindInsertSlot(hash: nat) returns (idx: nat)
      requires Valid() && hash < capacity && items < capacity
      ensures FirstEmptyIn(slots[..], hash) == Some(idx)
      ensures idx < capacity && slots[idx] == Empty
    {
      var d := 0;
      while d < capacity
        invariant d <= capacity
        invariant FirstEmptyFrom(slots[..], hash, d) == FirstEmptyIn(slots[..], hash)
      {
        var i := ProbeIndex(hash, d, capacity);
        if slots[i] == Empty {
          return i;
        }
        d := d + 1;
      }
      assert false;
    }

    /** `get` (and `get_mut`): the value of the slot `find` locates. */
    method Get(key: nat) returns (r: Option<V>)
      requires Valid()
      ensures r == LookupIn(slots[..], key)
      ensures Clean(slots[..]) ==> forall v :: r == Some(v) <==> (key, v) in Contents()
    {
      var found := Find(key);
      match found {
        case None =>
          r := None;
        case Some(i) =>
          r := Some(slots[i].value);
      }
      if Clean(slots[..]) {
        forall v ensures r == Some(v) <==> (key, v) in Contents() {
          LookupMatchesEntries(slots[..], key, v);
        }
      }
    }

    /** `insert_inner`: writes the pair into the first EMPTY slot on the
        key's probe sequence and counts it. The caller has reserved room. */
    method InsertInner(key: nat, value: V)
      requires Valid() && items < capacity
      modifies this, slots
      ensures Valid() && slots == old(slots) && capacity == old(capacity)
      ensures items == old(items) + 1
      ensures slots[..] == old(slots[..])[old(FirstEmptyIn(slots[..], key % capacity)).value := Taken(key, value)]
      ensures Contents() == old(Contents()) + multiset{(key, value)}
      ensures old(Chained(slots[..])) ==> Chained(slots[..])
    {
      ghost var s := slots[..];
      var hash := key % capacity;
      var index := FindInsertSlot(hash);
      FillSlot(s, key, value, index);
      slots[index] := Taken(key, value);
      items := items + 1;
      assert slots[..] == s[index := Taken(key, value)];
    }

    /** `reserve`: grows the table only when `items + additional` exceeds
        the capacity, to `NextPow2(items + additional)` slots. */
    method Reserve(additional: nat)
      requires Valid()
      modifies this, slots
      ensures Valid() && items == old(items) && Contents() == old(Contents())
      ensures items + additional <= capacity
      ensures old(items) + additional <= old(capacity) ==>
                slots == old(slots) && capacity == old(capacity) && slots[..] == old(slots[..])
      ensures old(items) + additional > old(capacity) ==>
                fresh(slots) && capacity == NextPow2(old(items) + additional) && Chained(slots[..])
      ensures old(Chained(slots[..])) ==> Chained(slots[..])
    {
      if additional + items > capacity {
        Resize(additional + items);
      }
    }

    /** A TAKEN slot `idx` of the old buffer `from` changes places with the
        first EMPTY slot of its key's probe sequence in this (new) table. */
    method MoveTaken(from: array<Slot<V>>, idx: nat)
      requires Valid() && Chained(slots[..])
      requires from != slots && idx < from.Length && from[idx].Taken?
      requires items + |Entries(from[..])| <= capacity
      modifies this, slots, from
      ensures Valid() && Chained(slots[..])
      ensures slots == old(slots) && capacity == old(capacity)
      ensures from[..] == old(from[..])[idx := Empty]
      ensures Contents() + Entries(from[..]) == old(Contents() + Entries(from[..]))
      ensures items + |Entries(from[..])| == old(items + |Entries(from[..])|)
    {
      ghost var s, t := from[..], slots[..];
      assert old(Contents() + Entries(from[..])) == Entries(t) + Entries(s);
      EntriesHasSlot(s, idx);
      var hash := from[idx].key % capacity;
      var index := FindInsertSlot(hash);
      MoveSlot(s, t, idx, index);
      items := items + 1;
      Swap(slots, index, from, idx);
    }

    /** One step of `resize`: a TAKEN slot of the old buffer moves in, an
        EMPTY one stays as it is. */
    method MoveIn(from: array<Slot<V>>, idx: nat)
      requires Valid() && Chained(slots[..])
      requires from != slots && idx < from.Length
      requires items + |Entries(from[..])| <= capacity
      modifies this, slots, from
      ensures Valid() && Chained(slots[..])
      ensures slots == old(slots) && capacity == old(capacity)
      ensures from[..] == old(from[..])[idx := Empty]
      ensures Contents() + Entries(from[..]) == old(Contents() + Entries(from[..]))
      ensures items + |Entries(from[..])| == old(items + |Entries(from[..])|)
    {
      if from[idx].Taken? {
        MoveTaken(from, idx);
      } else {
        assert from[..][idx := Empty] == from[..];
      }
    }

    /** The loop of `resize`, run on the new table: every TAKEN slot of the
        old buffer `from` moves in, leaving only EMPTY slots behind. */
    method Absorb(from: array<Slot<V>>)
      requires Valid() && Chained(slots[..])
      requires from != slots && items + |Entries(from[..])| <= capacity
      modifies this, slots, from
      ensures Valid() && Chained(slots[..])
      ensures slots == old(slots) && capacity == old(capacity)
      ensures forall j :: 0 <= j < from.Length ==> from[j] == Empty
      ensures Entries(from[..]) == multiset{}
      ensures Contents() == old(Contents() + Entries(from[..]))
    {
      ghost var total, count := Contents() + Entries(from[..]), items + |Entries(from[..])|;
      var idx := 0;
      while idx < from.Length
        invariant idx <= from.Length
        invariant Valid() && Chained(slots[..])
        invariant slots == old(slots) && capacity == old(capacity)
        invariant forall j :: 0 <= j < idx ==> from[..][j] == Empty
        invariant Contents() + Entries(from[..]) == total
        invariant items + |Entries(from[..])| == count
      {
        MoveIn(from, idx);
        idx := idx + 1;
      }
      EntriesAllEmpty(from[..]);
    }

    /** `resize`: moves every TAKEN slot into a fresh table of
        `newSize.next_power_of_two()` slots, at the first EMPTY slot of its
        key's probe sequence there, and leaves only EMPTY slots behind. */
    method Resize(newSize: nat)
      requires Valid()
      requires newSize >= items
      modifies this, slots
      ensures Valid() && fresh(slots)
      ensures capacity == NextPow2(newSize) && items == old(items)
      ensures Contents() == old(Contents())
      ensures Chained(slots[..])
      ensures forall i :: 0 <= i < old(slots).Length ==> old(slots)[i] == Empty
      ensures Entries(old(slots)[..]) == multiset{}
    {
      var grown := new HashMap<V>.WithCapacity(newSize);
      grown.Absorb(slots);
      // `std::mem::swap(self, &mut map)`: the table takes the new buffer; the
      // old one, left to `map` and dropped with it, holds no pair to release.
      slots, capacity, items := grown.slots, grown.capacity, grown.items;
    }

    /** The branch of `insert` for a key `find` locates at slot `i`: the
        `std::mem::replace` of the slot's value, which returns the old one. */
    method ReplaceValue(i: nat, key: nat, value: V) returns (previous: V)
      requires Valid() && FindIn(slots[..], key) == Some(i)
      modifies slots
      ensures Valid() && Some(previous) == old(LookupIn(slots[..], key))
      ensures slots[..] == old(slots[..])[i := Taken(key, value)]
      ensures Contents() == old(Contents()) - multiset{(key, previous)} + multiset{(key, value)}
      ensures LookupIn(slots[..], key) == Some(value)
      ensures old(Clean(slots[..])) ==> Clean(slots[..])
    {
      ghost var s0 := slots[..];
      ReplaceSlot(s0, key, value);
      previous := slots[i].value;
      slots[i] := Taken(key, value);
      assert slots[..] == s0[i := Taken(key, value)];
    }

    /** The branch of `insert` for a key `find` misses: reserves room for
        one more item, growing the table when it is full, and stores the
        pair at the first EMPTY slot of the key's probe sequence, where
        `find` then locates it. */
    method InsertMissing(key: nat, value: V)
      requires Valid() && FindIn(slots[..], key) == None
      modifies this, slots
      ensures Valid() && items == old(items) + 1
      ensures Contents() == old(Contents()) + multiset{(key, value)}
      ensures LookupIn(slots[..], key) == Some(value)
      ensures old(Chained(slots[..])) ==> Chained(slots[..])
      ensures old(items) < old(capacity) ==>
                && capacity == old(capacity) && slots == old(slots)
                && slots[..] == old(slots[..])[old(FirstEmptyIn(slots[..], key % capacity)).value := Taken(key, value)]
      ensures old(items) >= old(capacity) ==>
                && fresh(slots) && capacity == NextPow2(old(items) + 1) && Chained(slots[..])
                && exists t: seq<Slot<V>> ::
                     && |t| == capacity > 0 && Chained(t) && Entries(t) == old(Contents())
                     && FirstEmptyIn(t, key % capacity).Some?
                     && slots[..] == t[FirstEmptyIn(t, key % capacity).value := Taken(key, value)]
    {
      ghost var s0 := slots[..];
      if items >= capacity {
        assert |Entries(s0)| == |s0|;
        Reserve(1);
        FullMissRehashed(s0, slots[..], key);
      } else {
        Reserve(1);
      }
      ghost var s1 := slots[..];
      FreshInsertFound(s1, key, value);
      InsertInner(key, value);
      if old(items) >= old(capacity) {
        assert slots[..] == s1[FirstEmptyIn(s1, key % capacity).value := Taken(key, value)];
      }
    }

    /** `insert`: replaces the value of a key `find` locates and returns the
        old one; otherwise reserves room for one more item and stores the
        pair at the first EMPTY slot of the key's probe sequence. */
    method Insert(key: nat, value: V) returns (r: Option<V>)
      requires Valid()
      modifies this, slots
      ensures Valid()
      ensures r == old(LookupIn(slots[..], key))
      ensures r.Some? ==> && items == old(items) && capacity == old(capacity) && slots == old(slots)
                          && slots[..] == old(slots[..])[old(FindIn(slots[..], key)).value := Taken(key, value)]
                          && Contents() == old(Contents()) - multiset{(key, r.value)} + multiset{(key, value)}
                          && LookupIn(slots[..], key) == Some(value)
      ensures r.None? ==> && items == old(items) + 1
                          && Contents() == old(Contents()) + multiset{(key, value)}
      ensures r.None? && old(items) < old(capacity) ==>
                && capacity == old(capacity) && slots == old(slots)
                && slots[..] == old(slots[..])[old(FirstEmptyIn(slots[..], key % capacity)).value := Taken(key, value)]
      ensures r.None? ==> LookupIn(slots[..], key) == Some(value)
      ensures r.None? && old(items) >= old(capacity) ==>
                && fresh(slots) && capacity == NextPow2(old(items) + 1) && Chained(slots[..])
                && exists t: seq<Slot<V>> ::
                     && |t| == capacity > 0 && Chained(t) && Entries(t) == old(Contents())
                     && FirstEmptyIn(t, key % capacity).Some?
                     && slots[..] == t[FirstEmptyIn(t, key % capacity).value := Taken(key, value)]
      ensures old(Clean(slots[..])) ==>
                && Clean(slots[..])
                && LookupIn(slots[..], key) == Some(value)
                && forall k :: k != key ==> LookupIn(slots[..], k) == old(LookupIn(slots[..], k))
    {
      ghost var s0 := slots[..];
      var found := Find(key);
      match found {
        case Some(i) =>
          assert StoredFor(s0, key) == multiset{(key, s0[i].value)};
          var previous := ReplaceValue(i, key, value);
          r := Some(previous);
        case None =>
          assert Entries(s0) - StoredFor(s0, key) == Entries(s0);
          InsertMissing(key, value);
          r := None;
      }
      if Clean(s0) {
        PutKeepsClean(s0, slots[..], key, value);
      }
    }

    /** `remove`: empties the slot `find` locates, without a tombstone, and
        returns its value. Keys stay unique, but the probe chain through the
        emptied slot may be cut, so the table need not stay clean. */
    method Remove(key: nat) returns (r: Option<V>)
      requires Valid()
      modifies slots, this
      ensures Valid() && slots == old(slots) && capacity == old(capacity)
      ensures r == old(LookupIn(slots[..], key))
      ensures slots[..] == old(RemoveIn(slots[..], key))
      ensures items == if r.Some? then old(items) - 1 else old(items)
    {
      ghost var s0 := slots[..];
      RemoveInEntries(s0, key);
      var found := Find(key);
      match found {
        case None =>
          r := None;
        case Some(i) =>
          r := Some(slots[i].value);
          slots[i] := Empty;
          items := items - 1;
          assert slots[..] == RemoveIn(s0, key);
      }
    }

    /** `Drop::drop`: runs the destructor of the value of every TAKEN slot,
        and of nothing else, when the value type has one (`needsDrop`). It
        reads only the flags, so it also runs on the table `resize` drops,
        whose item count is stale. */
    method Drop(needsDrop: bool) returns (released: seq<(nat, V)>)
      requires slots.Length == capacity
      ensures !needsDrop ==> released == []
      ensures needsDrop ==> multiset(released) == Contents() && |released| == |Contents()|
      ensures needsDrop && Valid() ==> |released| == Len()
    {
      released := [];
      if capacity != 0 && needsDrop {
        var idx := 0;
        while idx < capacity
          invariant idx <= capacity
          invariant multiset(released) == Entries(slots[..idx])
        {
          assert slots[..idx + 1][..idx] == slots[..idx];
          match slots[idx] {
            case Empty =>
            case Taken(k, v) =>
              released := released + [(k, v)];
          }
          idx := idx + 1;
        }
        assert slots[..capacity] == slots[..];
      }
      if needsDrop && capacity == 0 {
        EntriesAllEmpty(slots[..]);
      }
    }
  }
}

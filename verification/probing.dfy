/** The slot buffer of the table as a value: the slot states, the linear
    probe sequence, the two scans the table performs over it (`find` and
    `find_insert_slot`) and the invariants under which `find` is complete. */
module Probing {

  datatype Option<T> = None | Some(value: T)

  /** One cell of the buffer. An EMPTY slot holds no value: its memory is
      zeroed when allocated and never read, so the model gives it none. */
  datatype Slot<V> = Empty | Taken(key: nat, value: V)

  // ---------------------------------------------------------------------
  // The stored entries

  /** The entry a slot contributes to the table: nothing, or one pair. */
  ghost function SlotEntry<V>(x: Slot<V>): multiset<(nat, V)>
  {
    match x
    case Empty => multiset{}
    case Taken(k, v) => multiset{(k, v)}
  }

  /** The (key, value) pairs held by the TAKEN slots of `s`. A multiset,
      so that a value stored twice would show up twice. */
  ghost function Entries<V>(s: seq<Slot<V>>): multiset<(nat, V)>
    decreases |s|
  {
    if s == [] then multiset{} else Entries(s[..|s| - 1]) + SlotEntry(s[|s| - 1])
  }

  /** No key occurs twice, and no pair is stored twice. */
  ghost predicate UniqueKeys<V>(m: multiset<(nat, V)>)
  {
    && (forall p :: p in m ==> m[p] == 1)
    && (forall p, q :: p in m && q in m && p.0 == q.0 ==> p == q)
  }

  /** The entries of two buffers laid end to end. */
  lemma {:induction false} EntriesConcat<V>(a: seq<Slot<V>>, b: seq<Slot<V>>)
    ensures Entries(a + b) == Entries(a) + Entries(b)
    decreases |b|
  {
    if b == [] {
      assert a + b == a;
    } else {
      var c := b[..|b| - 1];
      assert (a + b)[..|a + b| - 1] == a + c;
      EntriesConcat(a, c);
    }
  }

  /** Overwriting slot `i` with `x` trades the entry of the old slot for
      the entry of `x`. */
  lemma EntriesUpdate<V>(s: seq<Slot<V>>, i: nat, x: Slot<V>)
    requires i < |s|
    ensures Entries(s[i := x]) + SlotEntry(s[i]) == Entries(s) + SlotEntry(x)
  {
    var front, back := s[..i], s[i + 1..];
    assert s == front + [s[i]] + back;
    assert s[i := x] == front + [x] + back;
    EntriesConcat(front + [s[i]], back);
    EntriesConcat(front, [s[i]]);
    EntriesConcat(front + [x], back);
    EntriesConcat(front, [x]);
    assert Entries([s[i]]) == SlotEntry(s[i]) by { assert [s[i]][..0] == []; }
    assert Entries([x]) == SlotEntry(x) by { assert [x][..0] == []; }
  }

  /** There are at most as many entries as slots, and exactly as many
      only when every slot is TAKEN. */
  lemma {:induction false} EntriesSize<V>(s: seq<Slot<V>>)
    ensures |Entries(s)| <= |s|
    ensures |Entries(s)| == |s| <==> forall i :: 0 <= i < |s| ==> s[i].Taken?
    decreases |s|
  {
    if s != [] {
      var n := |s|;
      var p := s[..n - 1];
      EntriesSize(p);
      assert Entries(s) == Entries(p) + SlotEntry(s[n - 1]);
      assert forall i :: 0 <= i < n - 1 ==> p[i] == s[i];
      if s[n - 1].Taken? {
        assert |Entries(s)| == |Entries(p)| + 1;
      } else {
        assert |Entries(s)| == |Entries(p)|;
      }
    }
  }

  /** A buffer with no TAKEN slot holds no entry. */
  lemma {:induction false} EntriesAllEmpty<V>(s: seq<Slot<V>>)
    requires forall i :: 0 <= i < |s| ==> s[i] == Empty
    ensures Entries(s) == multiset{}
    decreases |s|
  {
    if s != [] {
      EntriesAllEmpty(s[..|s| - 1]);
    }
  }

  /** Every TAKEN slot contributes its pair. */
  lemma EntriesHasSlot<V>(s: seq<Slot<V>>, i: nat)
    requires i < |s| && s[i].Taken?
    ensures (s[i].key, s[i].value) in Entries(s)
  {
    EntriesUpdate(s, i, Empty);
    var rest := Entries(s[i := Empty]);
    assert rest + multiset{(s[i].key, s[i].value)} == Entries(s);
  }

  /** Two distinct TAKEN slots contribute two entries. */
  lemma EntriesHasTwoSlots<V>(s: seq<Slot<V>>, i: nat, j: nat)
    requires i < |s| && j < |s| && i != j && s[i].Taken? && s[j].Taken?
    ensures (s[i].key, s[i].value) in Entries(s) && (s[j].key, s[j].value) in Entries(s)
    ensures (s[i].key, s[i].value) == (s[j].key, s[j].value) ==> Entries(s)[(s[i].key, s[i].value)] >= 2
  {
    var p, q := (s[i].key, s[i].value), (s[j].key, s[j].value);
    var t := s[i := Empty];
    EntriesUpdate(s, i, Empty);
    assert Entries(s) == Entries(t) + multiset{p};
    EntriesHasSlot(t, j);
    assert q in Entries(t);
    assert Entries(s)[p] == Entries(t)[p] + 1;
  }

  /** Every entry comes from some TAKEN slot. */
  lemma {:induction false} EntryAt<V>(s: seq<Slot<V>>, p: (nat, V)) returns (i: nat)
    requires p in Entries(s)
    ensures i < |s| && s[i] == Taken(p.0, p.1)
    decreases |s|
  {
    var n := |s|;
    if p in Entries(s[..n - 1]) {
      i := EntryAt(s[..n - 1], p);
    } else {
      i := n - 1;
    }
  }

  /** Under unique keys, two TAKEN slots with the same key are one slot. */
  lemma SameKeySameSlot<V>(s: seq<Slot<V>>, i: nat, j: nat)
    requires UniqueKeys(Entries(s))
    requires i < |s| && j < |s| && s[i].Taken? && s[j].Taken? && s[i].key == s[j].key
    ensures i == j
  {
    if i != j {
      EntriesHasTwoSlots(s, i, j);
    }
  }

  // ---------------------------------------------------------------------
  // The probe sequence

  /** The `idx`-th slot visited from `hash`: linear probing with step one. */
  function ProbeIndex(hash: nat, idx: nat, cap: nat): (i: nat)
    requires cap > 0
    ensures i < cap
  {
    (hash + idx) % cap
  }

  /** How many steps the probe sequence from `hash` takes to reach slot `i`. */
  function ProbeOffset(hash: nat, i: nat, cap: nat): (d: nat)
    requires hash < cap && i < cap
    ensures d < cap && ProbeIndex(hash, d, cap) == i
  {
    if hash <= i then
      i - hash
    else
      ModWrapsOnce(cap + i, cap);
      cap - hash + i
  }

  /** `ProbeOffset` inverts `ProbeIndex`: the first `cap` probes visit
      every slot exactly once. */
  lemma ProbeOffsetOfIndex(hash: nat, d: nat, cap: nat)
    requires hash < cap && d < cap
    ensures ProbeOffset(hash, ProbeIndex(hash, d, cap), cap) == d
  {
    var x := hash + d;
    if x < cap {
      assert x % cap == x;
    } else {
      ModWrapsOnce(x, cap);
    }
  }

  /** A sum below twice the modulus wraps around at most once. */
  lemma ModWrapsOnce(x: nat, cap: nat)
    requires 0 < cap <= x < 2 * cap
    ensures x % cap == x - cap
  {
    var y := x - cap;
    assert x == y + cap;
    assert (y + cap) % cap == y;
  }

  /** Distinct probe steps below `cap` visit distinct slots. */
  lemma ProbeIndexInjective(hash: nat, d1: nat, d2: nat, cap: nat)
    requires hash < cap && d1 < cap && d2 < cap && d1 != d2
    ensures ProbeIndex(hash, d1, cap) != ProbeIndex(hash, d2, cap)
  {
    ProbeOffsetOfIndex(hash, d1, cap);
    ProbeOffsetOfIndex(hash, d2, cap);
  }

  // ---------------------------------------------------------------------
  // The two scans

  /** `find` from probe step `d` on: stops with nothing at the first EMPTY
      slot, with that slot at the first TAKEN slot holding `key`, and with
      nothing after `|s|` steps. */
  function FindFrom<V>(s: seq<Slot<V>>, key: nat, hash: nat, d: nat): (r: Option<nat>)
    requires 0 < |s| && d <= |s|
    ensures r.Some? ==> r.value < |s| && s[r.value].Taken? && s[r.value].key == key
    decreases |s| - d
  {
    if d == |s| then None
    else
      var i := ProbeIndex(hash, d, |s|);
      match s[i]
      case Empty => None
      case Taken(k, _) => if k == key then Some(i) else FindFrom(s, key, hash, d + 1)
  }

  /** `find`: an empty buffer finds nothing; otherwise the scan starts at
      the ideal index `key % |s|`. */
  function FindIn<V>(s: seq<Slot<V>>, key: nat): (r: Option<nat>)
    ensures r.Some? ==> r.value < |s| && s[r.value].Taken? && s[r.value].key == key
  {
    if |s| == 0 then None else FindFrom(s, key, key % |s|, 0)
  }

  /** `get`: the value of the slot `find` locates. */
  function LookupIn<V>(s: seq<Slot<V>>, key: nat): (r: Option<V>)
    ensures r.Some? <==> FindIn(s, key).Some?
    ensures r.Some? ==> s[FindIn(s, key).value] == Taken(key, r.value)
  {
    match FindIn(s, key)
    case None => None
    case Some(i) => Some(s[i].value)
  }

  /** `find_insert_slot` from probe step `d` on: the first EMPTY slot. */
  function FirstEmptyFrom<V>(s: seq<Slot<V>>, hash: nat, d: nat): (r: Option<nat>)
    requires hash < |s| && d <= |s|
    ensures r.Some? ==> && r.value < |s| && s[r.value] == Empty
                        && d <= ProbeOffset(hash, r.value, |s|)
                        && forall j :: d <= j < ProbeOffset(hash, r.value, |s|) ==> s[ProbeIndex(hash, j, |s|)].Taken?
    ensures r.None? ==> forall j :: d <= j < |s| ==> s[ProbeIndex(hash, j, |s|)].Taken?
    decreases |s| - d
  {
    if d == |s| then None
    else
      var i := ProbeIndex(hash, d, |s|);
      ProbeOffsetOfIndex(hash, d, |s|);
      if s[i] == Empty then Some(i) else FirstEmptyFrom(s, hash, d + 1)
  }

  /** `find_insert_slot`: the first EMPTY slot on the probe sequence from
      `hash`. It finds one whenever some slot is EMPTY, that is whenever
      there are fewer entries than slots. */
  function FirstEmptyIn<V>(s: seq<Slot<V>>, hash: nat): (r: Option<nat>)
    requires hash < |s|
    ensures r.Some? ==> && r.value < |s| && s[r.value] == Empty
                        && forall j :: 0 <= j < ProbeOffset(hash, r.value, |s|) ==> s[ProbeIndex(hash, j, |s|)].Taken?
    ensures r.None? <==> |Entries(s)| == |s|
  {
    var r := FirstEmptyFrom(s, hash, 0);
    EntriesSize(s);
    assert r.None? ==> forall i :: 0 <= i < |s| ==> s[i].Taken? by {
      if r.None? {
        forall i | 0 <= i < |s| ensures s[i].Taken? {
          assert ProbeIndex(hash, ProbeOffset(hash, i, |s|), |s|) == i;
        }
      }
    }
    r
  }

  // ---------------------------------------------------------------------
  // The probe-chain invariant

  /** Every slot the probe sequence of slot `i`'s key passes before reaching
      `i` is TAKEN, so a scan for that key cannot stop short of `i`. */
  ghost predicate OnChain<V>(s: seq<Slot<V>>, i: nat)
    requires i < |s| && s[i].Taken?
  {
    var h := s[i].key % |s|;
    forall d :: 0 <= d < ProbeOffset(h, i, |s|) ==> s[ProbeIndex(h, d, |s|)].Taken?
  }

  ghost predicate Chained<V>(s: seq<Slot<V>>)
  {
    forall i {:trigger OnChain(s, i)} :: 0 <= i < |s| && s[i].Taken? ==> OnChain(s, i)
  }

  /** The invariant of a table whose history has no `remove`. */
  ghost predicate Clean<V>(s: seq<Slot<V>>)
  {
    UniqueKeys(Entries(s)) && Chained(s)
  }

  /** An all-EMPTY buffer is clean and holds nothing. */
  lemma AllEmptyIsClean<V>(s: seq<Slot<V>>)
    requires forall i :: 0 <= i < |s| ==> s[i] == Empty
    ensures Entries(s) == multiset{} && Clean(s)
  {
    EntriesAllEmpty(s);
  }

  // ---------------------------------------------------------------------
  // What `find` returns

  /** Probe steps over TAKEN slots with other keys do not change the
      outcome of the scan. */
  lemma {:induction false} FindSkips<V>(s: seq<Slot<V>>, key: nat, hash: nat, d: nat, e: nat)
    requires 0 < |s| && d <= e <= |s|
    requires forall j :: d <= j < e ==> s[ProbeIndex(hash, j, |s|)].Taken? && s[ProbeIndex(hash, j, |s|)].key != key
    ensures FindFrom(s, key, hash, d) == FindFrom(s, key, hash, e)
    decreases e - d
  {
    if d < e {
      FindSkips(s, key, hash, d + 1, e);
    }
  }

  /** `find` gives up at the first EMPTY slot of the probe sequence, and
      after `|s|` steps, even when `key` is stored further on. */
  lemma FindStopsAtEmpty<V>(s: seq<Slot<V>>, key: nat, e: nat)
    requires 0 < |s| && e <= |s|
    requires e < |s| ==> s[ProbeIndex(key % |s|, e, |s|)] == Empty
    requires forall j :: 0 <= j < e ==> s[ProbeIndex(key % |s|, j, |s|)].Taken? && s[ProbeIndex(key % |s|, j, |s|)].key != key
    ensures FindIn(s, key) == None
  {
    FindSkips(s, key, key % |s|, 0, e);
  }

  /** `find` returns the first slot of the probe sequence holding `key`
      when no EMPTY slot comes before it. */
  lemma FindStopsAtKey<V>(s: seq<Slot<V>>, key: nat, e: nat)
    requires 0 < |s| && e < |s|
    requires s[ProbeIndex(key % |s|, e, |s|)].Taken? && s[ProbeIndex(key % |s|, e, |s|)].key == key
    requires forall j :: 0 <= j < e ==> s[ProbeIndex(key % |s|, j, |s|)].Taken? && s[ProbeIndex(key % |s|, j, |s|)].key != key
    ensures FindIn(s, key) == Some(ProbeIndex(key % |s|, e, |s|))
  {
    FindSkips(s, key, key % |s|, 0, e);
  }

  /** A scan that missed `key` passed no slot holding it: every TAKEN
      step it went over holds another key. */
  lemma {:induction false} MissSkipsKey<V>(s: seq<Slot<V>>, key: nat, hash: nat, d: nat, e: nat)
    requires 0 < |s| && d <= e <= |s| && FindFrom(s, key, hash, d) == None
    requires forall j :: d <= j < e ==> s[ProbeIndex(hash, j, |s|)].Taken?
    ensures forall j :: d <= j < e ==> s[ProbeIndex(hash, j, |s|)].key != key
    decreases e - d
  {
    if d < e {
      MissSkipsKey(s, key, hash, d + 1, e);
    }
  }

  /** When every slot is TAKEN and `find` misses `key`, no pair for `key`
      is stored: the scan went over every slot. */
  lemma FullMissAbsent<V>(s: seq<Slot<V>>, key: nat)
    requires FindIn(s, key) == None && |Entries(s)| == |s|
    ensures forall w :: (key, w) !in Entries(s)
  {
    EntriesSize(s);
    if |s| > 0 {
      var h := key % |s|;
      forall w ensures (key, w) !in Entries(s) {
        if (key, w) in Entries(s) {
          var i := EntryAt(s, (key, w));
          var d := ProbeOffset(h, i, |s|);
          MissSkipsKey(s, key, h, 0, |s|);
        }
      }
    }
  }

  /** A key `find` misses in a full buffer is missed again in any buffer
      holding the same pairs: none of them is for that key. */
  lemma FullMissRehashed<V>(s: seq<Slot<V>>, t: seq<Slot<V>>, key: nat)
    requires FindIn(s, key) == None && |Entries(s)| == |s| && Entries(t) == Entries(s)
    ensures FindIn(t, key) == None
  {
    FullMissAbsent(s, key);
    LookupAbsent(t, key);
  }

  /** What `insert` of a key `find` misses promises with or without the
      clean invariant: when a slot is EMPTY, the pair written into the first
      EMPTY slot of the key's probe sequence is what `get` then returns. */
  lemma FreshInsertFound<V>(s: seq<Slot<V>>, key: nat, v: V)
    requires 0 < |s| && FindIn(s, key) == None && |Entries(s)| < |s|
    ensures FirstEmptyIn(s, key % |s|).Some?
    ensures LookupIn(s[FirstEmptyIn(s, key % |s|).value := Taken(key, v)], key) == Some(v)
  {
    var n, h := |s|, key % |s|;
    var i := FirstEmptyIn(s, h).value;
    var t := s[i := Taken(key, v)];
    var e := ProbeOffset(h, i, n);
    MissSkipsKey(s, key, h, 0, e);
    forall j | 0 <= j < e
      ensures t[ProbeIndex(h, j, n)].Taken? && t[ProbeIndex(h, j, n)].key != key
    {
      ProbeIndexInjective(h, j, e, n);
    }
    FindStopsAtKey(t, key, e);
  }

  /** In a clean buffer `find` locates every stored key at its slot. */
  lemma FindComplete<V>(s: seq<Slot<V>>, i: nat)
    requires Clean(s) && i < |s| && s[i].Taken?
    ensures FindIn(s, s[i].key) == Some(i)
  {
    var n, k := |s|, s[i].key;
    var h := k % n;
    var e := ProbeOffset(h, i, n);
    assert OnChain(s, i);
    forall j | 0 <= j < e
      ensures s[ProbeIndex(h, j, n)].Taken? && s[ProbeIndex(h, j, n)].key != k
    {
      var t := ProbeIndex(h, j, n);
      ProbeOffsetOfIndex(h, j, n);
      if s[t].key == k {
        SameKeySameSlot(s, i, t);
      }
    }
    FindStopsAtKey(s, k, e);
  }

  /** In a clean buffer `get` answers from the stored entries: it returns
      `v` for `key` exactly when the pair (key, v) is stored. */
  lemma LookupMatchesEntries<V>(s: seq<Slot<V>>, key: nat, v: V)
    requires Clean(s)
    ensures LookupIn(s, key) == Some(v) <==> (key, v) in Entries(s)
  {
    if LookupIn(s, key) == Some(v) {
      EntriesHasSlot(s, FindIn(s, key).value);
    }
    if (key, v) in Entries(s) {
      var i := EntryAt(s, (key, v));
      FindComplete(s, i);
    }
  }

  /** Two clean buffers that store the same pairs for `key` answer `get`
      for `key` alike, however their slots are laid out. */
  lemma LookupAgrees<V>(s: seq<Slot<V>>, t: seq<Slot<V>>, key: nat)
    requires Clean(s) && Clean(t)
    requires forall v :: (key, v) in Entries(s) <==> (key, v) in Entries(t)
    ensures LookupIn(s, key) == LookupIn(t, key)
  {
    if LookupIn(s, key).Some? {
      LookupMatchesEntries(s, key, LookupIn(s, key).value);
      LookupMatchesEntries(t, key, LookupIn(s, key).value);
    } else if LookupIn(t, key).Some? {
      LookupMatchesEntries(t, key, LookupIn(t, key).value);
      LookupMatchesEntries(s, key, LookupIn(t, key).value);
    }
  }

  /** A buffer that stores no pair for `key` has `get` return nothing for
      it, whatever the layout of its slots. */
  lemma LookupAbsent<V>(s: seq<Slot<V>>, key: nat)
    requires forall v :: (key, v) !in Entries(s)
    ensures LookupIn(s, key) == None
  {
    if LookupIn(s, key).Some? {
      EntriesHasSlot(s, FindIn(s, key).value);
    }
  }

  // ---------------------------------------------------------------------
  // How the writes of the table affect the scans and the invariants

  /** Replacing the value of a TAKEN slot leaves every scan unchanged. */
  lemma {:induction false} FindFromIgnoresValues<V>(s: seq<Slot<V>>, i: nat, v: V, key: nat, hash: nat, d: nat)
    requires 0 < |s| && d <= |s| && i < |s| && s[i].Taken?
    ensures FindFrom(s[i := Taken(s[i].key, v)], key, hash, d) == FindFrom(s, key, hash, d)
    decreases |s| - d
  {
    if d < |s| {
      FindFromIgnoresValues(s, i, v, key, hash, d + 1);
    }
  }

  /** So after a value is replaced, `get` of its key returns the new value. */
  lemma LookupAfterReplace<V>(s: seq<Slot<V>>, key: nat, v: V)
    requires FindIn(s, key).Some?
    ensures LookupIn(s[FindIn(s, key).value := Taken(key, v)], key) == Some(v)
  {
    var i := FindIn(s, key).value;
    FindFromIgnoresValues(s, i, v, key, key % |s|, 0);
  }

  /** Replacing a value keeps the probe chains. */
  lemma ReplaceKeepsChained<V>(s: seq<Slot<V>>, i: nat, v: V)
    requires Chained(s) && i < |s| && s[i].Taken?
    ensures Chained(s[i := Taken(s[i].key, v)])
  {
    var t := s[i := Taken(s[i].key, v)];
    forall j | 0 <= j < |t| && t[j].Taken? ensures OnChain(t, j) {
      assert OnChain(s, j);
    }
  }

  /** Writing a new pair into the first EMPTY slot of its key's probe
      sequence keeps the probe chains: every slot before it is TAKEN. */
  lemma FillKeepsChained<V>(s: seq<Slot<V>>, key: nat, v: V)
    requires Chained(s) && 0 < |s| && FirstEmptyIn(s, key % |s|).Some?
    ensures Chained(s[FirstEmptyIn(s, key % |s|).value := Taken(key, v)])
  {
    var i := FirstEmptyIn(s, key % |s|).value;
    var t := s[i := Taken(key, v)];
    forall j | 0 <= j < |t| && t[j].Taken? ensures OnChain(t, j) {
      if j != i {
        assert OnChain(s, j);
      }
    }
  }

  /** What `insert_inner` does to the buffer: writing the pair into the
      first EMPTY slot of its key's probe sequence adds exactly that pair,
      one more entry than before, and keeps the probe chains. */
  lemma FillSlot<V>(s: seq<Slot<V>>, key: nat, v: V, i: nat)
    requires 0 < |s| && FirstEmptyIn(s, key % |s|) == Some(i)
    ensures Entries(s[i := Taken(key, v)]) == Entries(s) + multiset{(key, v)}
    ensures |Entries(s[i := Taken(key, v)])| == |Entries(s)| + 1 <= |s|
    ensures Chained(s) ==> Chained(s[i := Taken(key, v)])
  {
    EntriesUpdate(s, i, Taken(key, v));
    EntriesSize(s[i := Taken(key, v)]);
    if Chained(s) {
      FillKeepsChained(s, key, v);
    }
  }

  /** What `remove` does to the buffer: emptying a TAKEN slot drops
      exactly its pair, and when keys were unique no pair for its key is
      left, so `find` no longer locates the key. */
  lemma ClearSlot<V>(s: seq<Slot<V>>, i: nat)
    requires i < |s| && s[i].Taken?
    ensures Entries(s[i := Empty]) == Entries(s) - multiset{(s[i].key, s[i].value)}
    ensures |Entries(s[i := Empty])| + 1 == |Entries(s)|
    ensures UniqueKeys(Entries(s)) ==> UniqueKeys(Entries(s[i := Empty])) && LookupIn(s[i := Empty], s[i].key) == None
  {
    var p := (s[i].key, s[i].value);
    EntriesUpdate(s, i, Empty);
    assert Entries(s[i := Empty]) + multiset{p} == Entries(s);
    if UniqueKeys(Entries(s)) {
      RemoveKeepsUnique(Entries(s), s[i].key, s[i].value);
      LookupAbsent(s[i := Empty], s[i].key);
    }
  }

  /** The buffer `remove` leaves behind: the slot `find` locates for `key`
      becomes EMPTY, with no tombstone. */
  ghost function RemoveIn<V>(s: seq<Slot<V>>, key: nat): (t: seq<Slot<V>>)
    ensures |t| == |s|
  {
    match FindIn(s, key)
    case None => s
    case Some(i) => s[i := Empty]
  }

  /** `remove` takes out exactly the pair `get` returns, or nothing when it
      returns nothing, and with unique keys the key is then gone. */
  lemma RemoveInEntries<V>(s: seq<Slot<V>>, key: nat)
    ensures LookupIn(s, key).None? ==> RemoveIn(s, key) == s
    ensures LookupIn(s, key).Some? ==>
              && Entries(RemoveIn(s, key)) == Entries(s) - multiset{(key, LookupIn(s, key).value)}
              && |Entries(RemoveIn(s, key))| + 1 == |Entries(s)|
    ensures UniqueKeys(Entries(s)) ==>
              UniqueKeys(Entries(RemoveIn(s, key))) && LookupIn(RemoveIn(s, key), key) == None
  {
    if FindIn(s, key).Some? {
      ClearSlot(s, FindIn(s, key).value);
    }
  }

  /** One step of `resize`: moving a TAKEN slot of the old buffer `s` into
      the first EMPTY slot of its probe sequence in the new buffer `t`
      moves its pair and nothing else, and keeps the new buffer's chains. */
  lemma MoveSlot<V>(s: seq<Slot<V>>, t: seq<Slot<V>>, i: nat, j: nat)
    requires i < |s| && s[i].Taken? && 0 < |t|
    requires FirstEmptyIn(t, s[i].key % |t|) == Some(j) && Chained(t)
    ensures Entries(t[j := s[i]]) + Entries(s[i := Empty]) == Entries(t) + Entries(s)
    ensures |Entries(t[j := s[i]])| == |Entries(t)| + 1 <= |t|
    ensures |Entries(s[i := Empty])| + 1 == |Entries(s)|
    ensures Chained(t[j := s[i]])
  {
    FillSlot(t, s[i].key, s[i].value, j);
    ClearSlot(s, i);
    assert t[j := s[i]] == t[j := Taken(s[i].key, s[i].value)];
    EntriesHasSlot(s, i);
  }

  /** Multiset bookkeeping for a slot overwrite: if adding `p` to `a`
      gives `b` plus `q`, and `p` is in `b`, then `a` is `b` with `p`
      traded for `q`. */
  lemma TradeEntry<V>(a: multiset<(nat, V)>, b: multiset<(nat, V)>, p: (nat, V), q: (nat, V))
    requires a + multiset{p} == b + multiset{q} && p in b
    ensures a == b - multiset{p} + multiset{q} && |a| == |b|
  {
    assert forall x :: a[x] == (b - multiset{p} + multiset{q})[x] by {
      forall x ensures a[x] == (b - multiset{p} + multiset{q})[x] {
        assert (a + multiset{p})[x] == (b + multiset{q})[x];
      }
    }
  }

  /** What `insert` does to the buffer when `find` locates the key:
      the pair with the old value gives way to the pair with the new one,
      `get` of the key returns the new value, and a clean buffer stays clean. */
  lemma ReplaceSlot<V>(s: seq<Slot<V>>, key: nat, v: V)
    requires FindIn(s, key).Some?
    ensures var i := FindIn(s, key).value;
            && Entries(s[i := Taken(key, v)]) == Entries(s) - multiset{(key, s[i].value)} + multiset{(key, v)}
            && |Entries(s[i := Taken(key, v)])| == |Entries(s)|
            && LookupIn(s[i := Taken(key, v)], key) == Some(v)
            && (Clean(s) ==> Clean(s[i := Taken(key, v)]))
  {
    var i := FindIn(s, key).value;
    var t := s[i := Taken(key, v)];
    EntriesUpdate(s, i, Taken(key, v));
    EntriesHasSlot(s, i);
    TradeEntry(Entries(t), Entries(s), (key, s[i].value), (key, v));
    LookupAfterReplace(s, key, v);
    if Clean(s) {
      ReplaceKeepsUnique(Entries(s), key, s[i].value, v);
      ReplaceKeepsChained(s, i, v);
    }
  }

  /** The pair `get` returns for `key`, if any, as a multiset. */
  ghost function StoredFor<V>(s: seq<Slot<V>>, key: nat): multiset<(nat, V)>
  {
    match LookupIn(s, key)
    case None => multiset{}
    case Some(w) => multiset{(key, w)}
  }

  /** What `insert` promises under the clean invariant, whichever way it
      went: a chained buffer `t` holding the pairs of `s` with the pair of
      `key`, if any, traded for `(key, v)` is clean, `get` returns `v` for
      `key` in it, and it answers every other key as `s` does. */
  lemma PutKeepsClean<V>(s: seq<Slot<V>>, t: seq<Slot<V>>, key: nat, v: V)
    requires Clean(s) && Chained(t)
    requires Entries(t) == Entries(s) - StoredFor(s, key) + multiset{(key, v)}
    ensures Clean(t) && LookupIn(t, key) == Some(v)
    ensures forall k :: k != key ==> LookupIn(t, k) == LookupIn(s, k)
  {
    match LookupIn(s, key) {
      case None =>
        assert Entries(t) == Entries(s) + multiset{(key, v)};
        forall w ensures (key, w) !in Entries(s) {
          LookupMatchesEntries(s, key, w);
        }
        AddKeepsUnique(Entries(s), key, v);
      case Some(w) =>
        assert Entries(t) == Entries(s) - multiset{(key, w)} + multiset{(key, v)};
        LookupMatchesEntries(s, key, w);
        ReplaceKeepsUnique(Entries(s), key, w, v);
    }
    LookupMatchesEntries(t, key, v);
    forall k | k != key ensures LookupIn(t, k) == LookupIn(s, k) {
      LookupAgrees(t, s, k);
    }
  }

  /** Replacing the value stored under a key keeps the keys unique. */
  lemma ReplaceKeepsUnique<V>(m: multiset<(nat, V)>, key: nat, old_v: V, v: V)
    requires UniqueKeys(m) && (key, old_v) in m
    ensures UniqueKeys(m - multiset{(key, old_v)} + multiset{(key, v)})
  {
  }

  /** Adding a pair for a key not yet stored keeps the keys unique. */
  lemma AddKeepsUnique<V>(m: multiset<(nat, V)>, key: nat, v: V)
    requires UniqueKeys(m) && forall w :: (key, w) !in m
    ensures UniqueKeys(m + multiset{(key, v)})
  {
  }

  /** Removing a stored pair keeps the keys unique, and leaves no pair
      for its key. */
  lemma RemoveKeepsUnique<V>(m: multiset<(nat, V)>, key: nat, v: V)
    requires UniqueKeys(m) && (key, v) in m
    ensures UniqueKeys(m - multiset{(key, v)})
    ensures forall w :: (key, w) !in m - multiset{(key, v)}
  {
  }
}

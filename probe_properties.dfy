/**
 * Properties of the linear-probe model in probe_spec.dfy: the load-factor rule, that `Put`
 * resizes at most once, the probing invariant, and what `Put`, `Get` and `Delete` promise.
 */
module ProbeProperties {
  import opened Wrappers
  import opened ProbeSpec

  // ---------------------------------------------------------------------------
  // Resizing

  /** After `resize` the optimistic branch of the recursive `Put` always succeeds. */
  lemma PutAfterResizeFits<V>(st: Probe<V>, hasher: string -> nat, key: string, value: V)
    requires |st.slots| > 0
    ensures PutInPlace(Resized(st, hasher), hasher, key, value).Some?
  {
    EntriesBound(st.slots);
    PlaceFits(Resized(st, hasher), hasher, key, value);
  }

  /** `Put`'s first two branches: the home slot is nil or a tombstone and is overwritten. */
  lemma PutAtHome<V>(st: Probe<V>, hasher: string -> nat, key: string, value: V)
    requires |st.slots| > 0 && !ShouldResize(st.count, |st.slots|)
    requires var h := Home(hasher, key, |st.slots|); st.slots[h].None? || st.slots[h].value.expunge
    ensures Inserted(st, hasher, key, value)
      == Probe(st.slots[Home(hasher, key, |st.slots|) := Some(Record(key, value, false))], st.count + 1)
  {
  }

  /** `Put`'s probe loop: the record goes to the first nil slot after an occupied live home slot. */
  lemma PutAtProbe<V>(st: Probe<V>, hasher: string -> nat, key: string, value: V, i: nat)
    requires |st.slots| > 0 && !ShouldResize(st.count, |st.slots|)
    requires var h := Home(hasher, key, |st.slots|); st.slots[h].Some? && !st.slots[h].value.expunge
    requires 1 <= i < |st.slots| && FirstNil(st.slots, Home(hasher, key, |st.slots|), 1) == i
    ensures Inserted(st, hasher, key, value)
      == Probe(st.slots[ProbeIndex(Home(hasher, key, |st.slots|), i, |st.slots|) := Some(Record(key, value, false))], st.count + 1)
  {
  }

  /** `Put`'s last resort: `resize`, then a recursive `Put` that stores without resizing. */
  lemma PutViaResize<V>(st: Probe<V>, hasher: string -> nat, key: string, value: V)
    requires |st.slots| > 0
    requires
      || ShouldResize(st.count, |st.slots|)
      || (var h := Home(hasher, key, |st.slots|);
          st.slots[h].Some? && !st.slots[h].value.expunge && FirstNil(st.slots, h, 1) == |st.slots|)
    ensures PutInPlace(st, hasher, key, value).None?
    ensures PutInPlace(Resized(st, hasher), hasher, key, value).Some?
    ensures Inserted(st, hasher, key, value) == Inserted(Resized(st, hasher), hasher, key, value)
  {
    PutAfterResizeFits(st, hasher, key, value);
  }

  /** One round of `resize`'s loop: skip a nil slot, or `Put` its record without resizing. */
  lemma ReinsertStep<V>(hasher: string -> nat, rest: seq<Slot<V>>, acc: Probe<V>)
    requires Roomy(acc, rest) && rest != []
    ensures rest[0].None? ==> Roomy(acc, rest[1..]) && Reinsert(hasher, rest, acc) == Reinsert(hasher, rest[1..], acc)
    ensures rest[0].Some? ==>
      var rec := rest[0].value;
      && PutInPlace(acc, hasher, rec.key, rec.value).Some?
      && Roomy(Inserted(acc, hasher, rec.key, rec.value), rest[1..])
      && Reinsert(hasher, rest, acc) == Reinsert(hasher, rest[1..], Inserted(acc, hasher, rec.key, rec.value))
  {
    if rest[0].Some? {
      PlaceFits(acc, hasher, rest[0].value.key, rest[0].value.value);
    }
  }

  /** The state `resize` starts its loop from: an empty table of twice the length. */
  lemma ResizeStart<V>(st: Probe<V>, hasher: string -> nat)
    requires |st.slots| > 0
    ensures var empty := Probe(Nils(GrownLength(|st.slots|)), 0);
      Reachable(empty.slots, hasher) && Resizing(hasher, empty, st.slots, Resized(st, hasher))
  {
    EntriesBound(st.slots);
  }

  /**
   * `resize`'s loop invariant: the new table `acc` has room for the records still to come, and
   * putting them yields the result `target`.
   */
  ghost predicate Resizing<V>(hasher: string -> nat, acc: Probe<V>, rest: seq<Slot<V>>, target: Probe<V>) {
    && Roomy(acc, rest)
    && Reinsert(hasher, rest, acc) == target
  }

  /** One round of `resize`'s loop keeps its invariant. */
  lemma ResizingStep<V>(hasher: string -> nat, acc: Probe<V>, rest: seq<Slot<V>>, target: Probe<V>)
    requires Resizing(hasher, acc, rest, target) && rest != []
    ensures rest[0].None? ==> Resizing(hasher, acc, rest[1..], target)
    ensures rest[0].Some? ==>
      && PutInPlace(acc, hasher, rest[0].value.key, rest[0].value.value).Some?
      && Resizing(hasher, Inserted(acc, hasher, rest[0].value.key, rest[0].value.value), rest[1..], target)
  {
    ReinsertStep(hasher, rest, acc);
  }

  /** When no old record is left, `resize`'s new table is its result. */
  lemma ResizingDone<V>(hasher: string -> nat, acc: Probe<V>, target: Probe<V>)
    requires Resizing(hasher, acc, [], target)
    ensures acc == target
  {
  }

  // ---------------------------------------------------------------------------
  // The probing invariant

  /** Turning nil slots into records keeps every occupied probe run occupied. */
  lemma RunOccupiedGrows<V>(s: seq<Slot<V>>, t: seq<Slot<V>>, h: nat, d: nat)
    requires |s| == |t| && forall i :: 0 <= i < |s| && s[i].Some? ==> t[i].Some?
    requires RunOccupied(s, h, d)
    ensures RunOccupied(t, h, d)
  {
  }

  /** The optimistic branch of `Put` keeps every record reachable from its home slot. */
  lemma TryPlaceReachable<V>(s: seq<Slot<V>>, hasher: string -> nat, key: string, value: V)
    requires Reachable(s, hasher) && TryPlace(s, hasher, key, value).Some?
    ensures Reachable(TryPlace(s, hasher, key, value).value, hasher)
  {
    var p := PlaceIndex(s, hasher, key).value;
    var t := TryPlace(s, hasher, key, value).value;
    assert t == s[p := Some(Record(key, value, false))];
    forall j | 0 <= j < |t| && t[j].Some?
      ensures RunOccupied(t, Home(hasher, t[j].value.key, |t|), Distance(Home(hasher, t[j].value.key, |t|), j, |t|))
    {
      if j != p {
        assert t[j] == s[j];
      }
      var h := Home(hasher, t[j].value.key, |t|);
      RunOccupiedGrows(s, t, h, Distance(h, j, |t|));
    }
  }

  /** `resize`'s re-insertion loop keeps every record reachable. */
  lemma {:induction false} ReinsertReachable<V>(hasher: string -> nat, rest: seq<Slot<V>>, acc: Probe<V>)
    requires Roomy(acc, rest) && Reachable(acc.slots, hasher)
    ensures Reachable(Reinsert(hasher, rest, acc).slots, hasher)
    decreases |rest|
  {
    if rest != [] {
      match rest[0]
      case None =>
        ReinsertReachable(hasher, rest[1..], acc);
      case Some(rec) =>
        PlaceFits(acc, hasher, rec.key, rec.value);
        TryPlaceReachable(acc.slots, hasher, rec.key, rec.value);
        ReinsertReachable(hasher, rest[1..], PutInPlace(acc, hasher, rec.key, rec.value).value);
    }
  }

  /** The table `resize` builds satisfies the probing invariant. */
  lemma ResizedReachable<V>(st: Probe<V>, hasher: string -> nat)
    requires |st.slots| > 0
    ensures Reachable(Resized(st, hasher).slots, hasher)
  {
    var empty: seq<Slot<V>> := Nils(GrownLength(|st.slots|));
    EntriesBound(st.slots);
    assert Reachable(empty, hasher);
    ReinsertReachable(hasher, st.slots, Probe(empty, 0));
  }

  /** `Put` preserves the probing invariant, whether or not it resizes. */
  lemma PutReachable<V>(st: Probe<V>, hasher: string -> nat, key: string, value: V)
    requires Reachable(st.slots, hasher)
    ensures Reachable(Inserted(st, hasher, key, value).slots, hasher)
  {
    match PutInPlace(st, hasher, key, value)
    case Some(_) =>
      TryPlaceReachable(st.slots, hasher, key, value);
    case None =>
      var grown := Resized(st, hasher);
      ResizedReachable(st, hasher);
      PutAfterResizeFits(st, hasher, key, value);
      TryPlaceReachable(grown.slots, hasher, key, value);
  }

  /** Two tables with the same nil slots and the same key in every other slot. */
  ghost predicate SameShape<V>(s: seq<Slot<V>>, t: seq<Slot<V>>) {
    |s| == |t| &&
    forall i :: 0 <= i < |s| ==> s[i].Some? == t[i].Some? && (s[i].Some? ==> s[i].value.key == t[i].value.key)
  }

  lemma ReachableSameShape<V>(s: seq<Slot<V>>, t: seq<Slot<V>>, hasher: string -> nat)
    requires SameShape(s, t) && Reachable(s, hasher)
    ensures Reachable(t, hasher)
  {
    forall j | 0 <= j < |t| && t[j].Some?
      ensures RunOccupied(t, Home(hasher, t[j].value.key, |t|), Distance(Home(hasher, t[j].value.key, |t|), j, |t|))
    {
      var h := Home(hasher, t[j].value.key, |t|);
      RunOccupiedGrows(s, t, h, Distance(h, j, |t|));
    }
  }

  lemma {:induction false} FindFromSameShape<V>(s: seq<Slot<V>>, t: seq<Slot<V>>, key: string, h: nat, i: nat)
    requires |s| > 0 && i <= |s| && SameShape(s, t)
    ensures FindFrom(s, key, h, i) == FindFrom(t, key, h, i)
    decreases |s| - i
  {
    if i < |s| {
      FindFromSameShape(s, t, key, h, i + 1);
    }
  }

  /** `getRecord` looks only at nil-ness and keys, never at the tombstone flag. */
  lemma FindSameShape<V>(s: seq<Slot<V>>, t: seq<Slot<V>>, hasher: string -> nat, key: string)
    requires |s| > 0 && SameShape(s, t)
    ensures Find(s, hasher, key) == Find(t, hasher, key)
  {
    FindFromSameShape(s, t, key, Home(hasher, key, |s|), 0);
  }

  /** `Delete` never turns a slot nil or changes a key, so every record stays reachable. */
  lemma DeleteReachable<V>(st: Probe<V>, hasher: string -> nat, key: string)
    requires Reachable(st.slots, hasher)
    ensures SameShape(st.slots, Deleted(st, hasher, key).0.slots)
    ensures Reachable(Deleted(st, hasher, key).0.slots, hasher)
  {
    ReachableSameShape(st.slots, Deleted(st, hasher, key).0.slots, hasher);
  }

  // ---------------------------------------------------------------------------
  // Get after Put

  /** Only an existing record can be found. */
  lemma FoundIsPresent<V>(s: seq<Slot<V>>, hasher: string -> nat, key: string)
    requires |s| > 0
    ensures Find(s, hasher, key).Some? ==> !KeyAbsent(s, key)
  {
    if Find(s, hasher, key).Some? {
      InEntries(s, Find(s, hasher, key).value);
    }
  }

  /** Probing from step `i` passes other keys only and then meets `key` at step `d`. */
  lemma {:induction false} FindReaches<V>(s: seq<Slot<V>>, key: string, h: nat, i: nat, d: nat)
    requires |s| > 0 && i <= d < |s|
    requires forall m :: i <= m < d ==> s[ProbeIndex(h, m, |s|)].Some? && s[ProbeIndex(h, m, |s|)].value.key != key
    requires s[ProbeIndex(h, d, |s|)].Some? && s[ProbeIndex(h, d, |s|)].value.key == key
    ensures FindFrom(s, key, h, i) == Some(ProbeIndex(h, d, |s|))
    decreases d - i
  {
    if i < d {
      FindReaches(s, key, h, i + 1, d);
    }
  }

  /** Probing from step `i` over non-nil slots reaches a record with `key` at step `d`, so the search stops. */
  lemma {:induction false} FindFromStops<V>(s: seq<Slot<V>>, key: string, h: nat, i: nat, d: nat)
    requires |s| > 0 && i <= d < |s|
    requires forall m :: i <= m < d ==> s[ProbeIndex(h, m, |s|)].Some?
    requires s[ProbeIndex(h, d, |s|)].Some? && s[ProbeIndex(h, d, |s|)].value.key == key
    ensures FindFrom(s, key, h, i).Some?
    decreases d - i
  {
    if i < d && s[ProbeIndex(h, i, |s|)].value.key != key {
      FindFromStops(s, key, h, i + 1, d);
    }
  }

  /** In a reachable table `getRecord` finds a record, the same or an earlier one, for every stored key. */
  lemma ReachableFinds<V>(s: seq<Slot<V>>, hasher: string -> nat, j: nat)
    requires Reachable(s, hasher) && j < |s| && s[j].Some?
    ensures Find(s, hasher, s[j].value.key).Some?
  {
    var n := |s|;
    var key := s[j].value.key;
    var h := Home(hasher, key, n);
    var d := Distance(h, j, n);
    ProbeDistance(h, j, n);
    ModNear(h, n);
    assert ProbeIndex(h, 0, n) == h;
    if d > 0 && s[h].value.key != key {
      FindFromStops(s, key, h, 0, d);
    }
  }

  /** A key stored by the optimistic branch of `Put` into a table without it is found by `Get`. */
  lemma TryPlaceFound<V>(s: seq<Slot<V>>, hasher: string -> nat, key: string, value: V)
    requires |s| > 0 && KeyAbsent(s, key) && TryPlace(s, hasher, key, value).Some?
    ensures Lookup(TryPlace(s, hasher, key, value).value, hasher, key) == Some(value)
  {
    var n := |s|;
    var p := PlaceIndex(s, hasher, key).value;
    var t := TryPlace(s, hasher, key, value).value;
    assert t == s[p := Some(Record(key, value, false))];
    var h := Home(hasher, key, n);
    var d := Distance(h, p, n);
    ProbeDistance(h, p, n);
    ModNear(h, n);
    assert ProbeIndex(h, 0, n) == h;
    forall m | 0 <= m < d
      ensures t[ProbeIndex(h, m, n)].Some? && t[ProbeIndex(h, m, n)].value.key != key
    {
      var q := ProbeIndex(h, m, n);
      DistanceProbe(h, m, n);
      assert t[q] == s[q];
      InEntries(s, q);
    }
    if p != h {
      FindReaches(t, key, h, 0, d);
    }
  }

  /**
   * `Put` of a key the table does not hold, live or tombstoned, makes `Get` return its value,
   * for every fixed hasher (a constant one included) and whether or not `Put` resizes.
   */
  lemma PutThenGet<V>(st: Probe<V>, hasher: string -> nat, key: string, value: V)
    requires |st.slots| > 0 && KeyAbsent(st.slots, key)
    ensures Lookup(Inserted(st, hasher, key, value).slots, hasher, key) == Some(value)
  {
    match PutInPlace(st, hasher, key, value)
    case Some(_) =>
      TryPlaceFound(st.slots, hasher, key, value);
    case None =>
      var grown := Resized(st, hasher);
      PutAfterResizeFits(st, hasher, key, value);
      TryPlaceFound(grown.slots, hasher, key, value);
  }

  /** Without tombstones, `Put` adds exactly one (key, value) pair and creates no tombstone. */
  lemma PutAddsOneEntry<V>(st: Probe<V>, hasher: string -> nat, key: string, value: V)
    requires |st.slots| > 0 && NoTombstones(st.slots)
    ensures var r := Inserted(st, hasher, key, value);
      NoTombstones(r.slots) && Entries(r.slots) == Entries(st.slots) + multiset{(key, value)}
  {
    match PutInPlace(st, hasher, key, value)
    case Some(_) =>
      TryPlaceEntries(st.slots, hasher, key, value);
    case None =>
      EntriesBound(st.slots);
      PlaceFits(Resized(st, hasher), hasher, key, value);
  }

  /** Without tombstones and with an exact counter, `Put` increases `Size()` by exactly one. */
  lemma PutGrowsSize<V>(st: Probe<V>, hasher: string -> nat, key: string, value: V)
    requires |st.slots| > 0 && NoTombstones(st.slots) && st.count == |Entries(st.slots)|
    ensures var r := Inserted(st, hasher, key, value);
      r.count == st.count + 1 && r.count == |Entries(r.slots)|
  {
    PutAddsOneEntry(st, hasher, key, value);
    if PutInPlace(st, hasher, key, value).None? {
      EntriesBound(st.slots);
      PlaceFits(Resized(st, hasher), hasher, key, value);
    }
  }

  /** `Put` does not look for the key first: putting a stored key keeps both records. */
  lemma PutKeepsDuplicates<V>(st: Probe<V>, hasher: string -> nat, key: string, prior: V, value: V)
    requires |st.slots| > 0 && NoTombstones(st.slots) && (key, prior) in Entries(st.slots)
    ensures var r := Inserted(st, hasher, key, value);
      (key, prior) in Entries(r.slots) && (key, value) in Entries(r.slots)
      && (prior == value ==> Entries(r.slots)[(key, value)] >= 2)
  {
    PutAddsOneEntry(st, hasher, key, value);
  }

  /** Whatever the table, a live record survives `Put`: the new record never lands on its slot. */
  lemma LiveSurvivesPut<V>(st: Probe<V>, hasher: string -> nat, key: string, value: V, j: nat)
    requires |st.slots| > 0 && j < |st.slots| && st.slots[j].Some? && !st.slots[j].value.expunge
    ensures (st.slots[j].value.key, st.slots[j].value.value) in Entries(Inserted(st, hasher, key, value).slots)
  {
    InEntries(st.slots, j);
    match PutInPlace(st, hasher, key, value)
    case Some(placed) =>
      var p := PlaceIndex(st.slots, hasher, key).value;
      assert placed.slots == st.slots[p := Some(Record(key, value, false))];
      InEntries(placed.slots, j);
    case None =>
      EntriesBound(st.slots);
      PlaceFits(Resized(st, hasher), hasher, key, value);
  }

  // ---------------------------------------------------------------------------
  // Delete

  /** `Delete` of a key never stored returns `(nil, false)` and changes nothing. */
  lemma DeleteAbsent<V>(st: Probe<V>, hasher: string -> nat, key: string)
    requires |st.slots| > 0 && KeyAbsent(st.slots, key)
    ensures Deleted(st, hasher, key) == (st, None)
  {
    FoundIsPresent(st.slots, hasher, key);
  }

  /**
   * `Delete` of a key `Get` finds returns its value, tombstones that one slot and nothing else,
   * decrements the counter, hides the key from `Get` and leaves `Get` of every other key as it was.
   */
  lemma DeleteLive<V>(st: Probe<V>, hasher: string -> nat, key: string, value: V)
    requires |st.slots| > 0 && Lookup(st.slots, hasher, key) == Some(value)
    ensures Find(st.slots, hasher, key).Some?
    ensures var j := Find(st.slots, hasher, key).value;
      var (after, r) := Deleted(st, hasher, key);
      && r == Some(value)
      && after.count == Decrement(st.count)
      && |after.slots| == |st.slots|
      && after.slots[j] == Some(Record(key, value, true))
      && (forall i :: 0 <= i < |st.slots| && i != j ==> after.slots[i] == st.slots[i])
      && Lookup(after.slots, hasher, key) == None
      && (forall other :: other != key ==> Lookup(after.slots, hasher, other) == Lookup(st.slots, hasher, other))
  {
    var after := Deleted(st, hasher, key).0;
    assert SameShape(st.slots, after.slots);
    FindSameShape(st.slots, after.slots, hasher, key);
    forall other | other != key
      ensures Lookup(after.slots, hasher, other) == Lookup(st.slots, hasher, other)
    {
      FindSameShape(st.slots, after.slots, hasher, other);
    }
  }

  /**
   * `getRecord` also returns tombstoned records, so deleting a deleted key once more returns
   * its value again and decrements the counter again.
   */
  lemma DeleteTwice<V>(st: Probe<V>, hasher: string -> nat, key: string, value: V)
    requires |st.slots| > 0 && Lookup(st.slots, hasher, key) == Some(value)
    ensures var once := Deleted(st, hasher, key).0;
      var twice := Deleted(once, hasher, key);
      twice.1 == Some(value) && twice.0.count == Decrement(Decrement(st.count)) && twice.0.slots == once.slots
  {
    var once := Deleted(st, hasher, key).0;
    assert SameShape(st.slots, once.slots);
    FindSameShape(st.slots, once.slots, hasher, key);
  }

  // ---------------------------------------------------------------------------
  // The table as a map: no tombstones and one record per key

  /** No key occurs in two pairs, and no pair occurs twice. */
  ghost predicate UniqueKeys<V>(m: multiset<(string, V)>) {
    forall e, f :: e in m && f in m && e.0 == f.0 ==> e == f && m[e] == 1
  }

  /** A table without tombstones or duplicate keys whose records are all reachable. */
  ghost predicate Clean<V>(s: seq<Slot<V>>, hasher: string -> nat) {
    Reachable(s, hasher) && NoTombstones(s) && UniqueKeys(Entries(s))
  }

  lemma {:induction false} EntriesWitness<V>(s: seq<Slot<V>>, e: (string, V)) returns (i: nat)
    requires e in Entries(s)
    ensures i < |s| && s[i].Some? && (s[i].value.key, s[i].value.value) == e
    decreases |s|
  {
    if e in EntryOf(s[0]) {
      i := 0;
    } else {
      var k := EntriesWitness(s[1..], e);
      i := k + 1;
    }
  }

  /** Two distinct slots holding the same pair make it occur twice. */
  lemma {:induction false} TwoSlots<V>(s: seq<Slot<V>>, i: nat, j: nat)
    requires i < |s| && j < |s| && s[i].Some? && s[j].Some?
    ensures var e := (s[i].value.key, s[i].value.value);
      i != j && e == (s[j].value.key, s[j].value.value) ==> Entries(s)[e] >= 2
    decreases |s|
  {
    var e := (s[i].value.key, s[i].value.value);
    if i != j && e == (s[j].value.key, s[j].value.value) {
      if i == 0 {
        InEntries(s[1..], j - 1);
      } else if j == 0 {
        InEntries(s[1..], i - 1);
      } else {
        TwoSlots(s[1..], i - 1, j - 1);
      }
    }
  }

  /** With unique keys a key sits in one slot only. */
  lemma SameKeySameSlot<V>(s: seq<Slot<V>>, i: nat, j: nat)
    requires UniqueKeys(Entries(s)) && i < |s| && j < |s| && s[i].Some? && s[j].Some?
    ensures s[i].value.key == s[j].value.key ==> i == j
  {
    InEntries(s, i);
    InEntries(s, j);
    TwoSlots(s, i, j);
  }

  /** In a clean table `Get` returns exactly the value paired with the key. */
  lemma CleanLookup<V>(s: seq<Slot<V>>, hasher: string -> nat, key: string, value: V)
    requires Clean(s, hasher)
    ensures Lookup(s, hasher, key) == Some(value) <==> (key, value) in Entries(s)
  {
    var f := Find(s, hasher, key);
    if f.Some? {
      InEntries(s, f.value);
    }
    if (key, value) in Entries(s) {
      var n := |s|;
      var i := EntriesWitness(s, (key, value));
      var h := Home(hasher, key, n);
      var d := Distance(h, i, n);
      ProbeDistance(h, i, n);
      ModNear(h, n);
      assert ProbeIndex(h, 0, n) == h;
      forall m | 0 <= m < d
        ensures s[ProbeIndex(h, m, n)].Some? && s[ProbeIndex(h, m, n)].value.key != key
      {
        DistanceProbe(h, m, n);
        SameKeySameSlot(s, ProbeIndex(h, m, n), i);
      }
      if i != h {
        FindReaches(s, key, h, 0, d);
      }
    }
  }

  lemma CleanLookupAll<V>(s: seq<Slot<V>>, hasher: string -> nat, key: string)
    requires Clean(s, hasher)
    ensures forall v :: Lookup(s, hasher, key) == Some(v) <==> (key, v) in Entries(s)
  {
    forall v ensures Lookup(s, hasher, key) == Some(v) <==> (key, v) in Entries(s) {
      CleanLookup(s, hasher, key, v);
    }
  }

  /** Adding a pair under a new key keeps the keys unique. */
  lemma UniqueAfterAdd<V>(m: multiset<(string, V)>, key: string, value: V)
    requires UniqueKeys(m) && forall e :: e in m ==> e.0 != key
    ensures UniqueKeys(m + multiset{(key, value)})
  {
    var m' := m + multiset{(key, value)};
    forall e, f | e in m' && f in m' && e.0 == f.0 ensures e == f && m'[e] == 1 {
      if e.0 != key {
        assert e in m && f in m;
      }
    }
  }

  /** Two clean tables whose pairs differ only in one under `key` answer `Get` alike for `other`. */
  lemma LookupAfterAdd<V>(s: seq<Slot<V>>, r: seq<Slot<V>>, hasher: string -> nat, key: string, value: V, other: string)
    requires Clean(s, hasher) && Clean(r, hasher) && Entries(r) == Entries(s) + multiset{(key, value)}
    requires other != key
    ensures Lookup(r, hasher, other) == Lookup(s, hasher, other)
  {
    CleanLookupAll(s, hasher, other);
    CleanLookupAll(r, hasher, other);
    forall v ensures (other, v) in Entries(r) <==> (other, v) in Entries(s) {
      assert (other, v) != (key, value);
    }
  }

  /**
   * A reachable table without tombstones that holds one more pair than a clean table, under a
   * key the clean table lacks, is clean and answers `Get` like it for every other key.
   */
  lemma AddToCleanTable<V>(s: seq<Slot<V>>, r: seq<Slot<V>>, hasher: string -> nat, key: string, value: V)
    requires Clean(s, hasher) && KeyAbsent(s, key)
    requires Reachable(r, hasher) && NoTombstones(r) && Entries(r) == Entries(s) + multiset{(key, value)}
    ensures Clean(r, hasher)
    ensures forall other :: other != key ==> Lookup(r, hasher, other) == Lookup(s, hasher, other)
  {
    var m := Entries(s);
    var m' := Entries(r);
    UniqueAfterAdd(m, key, value);
    assert Clean(r, hasher);
    forall other | other != key
      ensures Lookup(r, hasher, other) == Lookup(s, hasher, other)
    {
      LookupAfterAdd(s, r, hasher, key, value, other);
    }
  }

  /**
   * `Put` of a fresh key into a clean table keeps it clean, makes `Get` of the key return its
   * value, and leaves `Get` of every other key as it was.
   */
  lemma PutKeepsMap<V>(st: Probe<V>, hasher: string -> nat, key: string, value: V)
    requires |st.slots| > 0 && Clean(st.slots, hasher) && KeyAbsent(st.slots, key)
    ensures var r := Inserted(st, hasher, key, value).slots;
      && Clean(r, hasher)
      && Entries(r) == Entries(st.slots) + multiset{(key, value)}
      && Lookup(r, hasher, key) == Some(value)
      && forall other :: other != key ==> Lookup(r, hasher, other) == Lookup(st.slots, hasher, other)
  {
    var r := Inserted(st, hasher, key, value).slots;
    PutReachable(st, hasher, key, value);
    PutAddsOneEntry(st, hasher, key, value);
    PutThenGet(st, hasher, key, value);
    AddToCleanTable(st.slots, r, hasher, key, value);
  }

  /** The tests' loop: `Put` the pairs of `kvs` one after another. */
  ghost function InsertAll<V>(st: Probe<V>, hasher: string -> nat, kvs: seq<(string, V)>): (r: Probe<V>)
    requires |st.slots| > 0
    ensures |r.slots| > 0
    decreases |kvs|
  {
    if kvs == [] then st else InsertAll(Inserted(st, hasher, kvs[0].0, kvs[0].1), hasher, kvs[1..])
  }

  /** No key occurs twice in `kvs`. */
  ghost predicate DistinctKeys<V>(kvs: seq<(string, V)>) {
    forall i, j :: 0 <= i < j < |kvs| ==> kvs[i].0 != kvs[j].0
  }

  /** `key` is not among the keys of `kvs`. */
  ghost predicate NotAmong<V>(kvs: seq<(string, V)>, key: string) {
    forall i :: 0 <= i < |kvs| ==> kvs[i].0 != key
  }

  /** No key of `kvs` is stored in `s`. */
  ghost predicate AllAbsent<V>(s: seq<Slot<V>>, kvs: seq<(string, V)>) {
    forall i :: 0 <= i < |kvs| ==> KeyAbsent(s, kvs[i].0)
  }

  /** What `kvs` tells about its tail. */
  lemma SplitPairs<V>(s: seq<Slot<V>>, kvs: seq<(string, V)>, key: string)
    requires kvs != []
    ensures DistinctKeys(kvs) ==> DistinctKeys(kvs[1..]) && NotAmong(kvs[1..], kvs[0].0)
    ensures AllAbsent(s, kvs) ==> KeyAbsent(s, kvs[0].0) && AllAbsent(s, kvs[1..])
    ensures NotAmong(kvs, key) <==> kvs[0].0 != key && NotAmong(kvs[1..], key)
  {
    assert forall i :: 0 <= i < |kvs[1..]| ==> kvs[1..][i] == kvs[i + 1];
  }

  /** A table gaining one pair under `k` still lacks every other absent key. */
  lemma AbsentAfterAdd<V>(s: seq<Slot<V>>, r: seq<Slot<V>>, k: string, v: V, kvs: seq<(string, V)>)
    requires Entries(r) == Entries(s) + multiset{(k, v)}
    requires AllAbsent(s, kvs) && NotAmong(kvs, k)
    ensures AllAbsent(r, kvs)
  {
    forall i | 0 <= i < |kvs| ensures KeyAbsent(r, kvs[i].0) {
      assert KeyAbsent(s, kvs[i].0) && kvs[i].0 != k;
    }
  }

  /**
   * Putting pairs with distinct fresh keys into a clean table, then getting each key, returns
   * its value; keys not put keep their old result. This holds for every fixed hasher.
   */
  lemma {:induction false} InsertAllThenGet<V>(st: Probe<V>, hasher: string -> nat, kvs: seq<(string, V)>)
    requires |st.slots| > 0 && Clean(st.slots, hasher)
    requires DistinctKeys(kvs) && AllAbsent(st.slots, kvs)
    ensures var r := InsertAll(st, hasher, kvs).slots;
      && Clean(r, hasher)
      && (forall i :: 0 <= i < |kvs| ==> Lookup(r, hasher, kvs[i].0) == Some(kvs[i].1))
      && (forall key :: NotAmong(kvs, key) ==> Lookup(r, hasher, key) == Lookup(st.slots, hasher, key))
    decreases |kvs|
  {
    if kvs != [] {
      var (k, v) := kvs[0];
      var rest := kvs[1..];
      var st1 := Inserted(st, hasher, k, v);
      SplitPairs(st.slots, kvs, k);
      PutKeepsMap(st, hasher, k, v);
      AbsentAfterAdd(st.slots, st1.slots, k, v, rest);
      InsertAllThenGet(st1, hasher, rest);
      var r := InsertAll(st1, hasher, rest).slots;
      assert r == InsertAll(st, hasher, kvs).slots;
      forall i | 0 <= i < |kvs| ensures Lookup(r, hasher, kvs[i].0) == Some(kvs[i].1) {
        if i > 0 {
          assert kvs[i] == rest[i - 1];
        }
      }
      forall key | NotAmong(kvs, key)
        ensures Lookup(r, hasher, key) == Lookup(st.slots, hasher, key)
      {
        SplitPairs(st.slots, kvs, key);
      }
    }
  }

  // ---------------------------------------------------------------------------
  // A run of deletes from a clean table

  /** `u` is the clean table `t` with exactly the records of the keys in `gone` tombstoned. */
  ghost predicate Tombstoned<V>(t: seq<Slot<V>>, u: seq<Slot<V>>, gone: seq<string>) {
    |u| == |t| &&
    forall i :: 0 <= i < |t| ==>
      u[i] == if t[i].Some? && t[i].value.key in gone then Some(t[i].value.(expunge := true)) else t[i]
  }

  /** In a clean table every stored key is found at its own slot. */
  lemma CleanFinds<V>(t: seq<Slot<V>>, hasher: string -> nat, i: nat)
    requires Clean(t, hasher) && i < |t| && t[i].Some?
    ensures Find(t, hasher, t[i].value.key) == Some(i)
  {
    var key := t[i].value.key;
    InEntries(t, i);
    CleanLookup(t, hasher, key, t[i].value.value);
    SameKeySameSlot(t, i, Find(t, hasher, key).value);
  }

  /**
   * One `Delete` on a clean table with some keys already deleted returns what `Get` returned
   * before any delete, and tombstones the record of that key (if it has one) and nothing else.
   */
  lemma DeleteStep<V>(t: seq<Slot<V>>, hasher: string -> nat, st: Probe<V>, gone: seq<string>, key: string)
    requires Clean(t, hasher) && Tombstoned(t, st.slots, gone)
    ensures Tombstoned(t, Deleted(st, hasher, key).0.slots, gone + [key])
    ensures Deleted(st, hasher, key).1 == Lookup(t, hasher, key)
  {
    assert SameShape(t, st.slots);
    FindSameShape(t, st.slots, hasher, key);
    match Find(t, hasher, key)
    case None =>
      forall i | 0 <= i < |t| && t[i].Some? ensures t[i].value.key != key {
        CleanFinds(t, hasher, i);
      }
    case Some(j) =>
      forall i | 0 <= i < |t| && i != j && t[i].Some? ensures t[i].value.key != key {
        SameKeySameSlot(t, i, j);
      }
  }

  /** After some deletes, `Get` misses the deleted keys and returns the old result for the others. */
  lemma TombstonedLookup<V>(t: seq<Slot<V>>, u: seq<Slot<V>>, hasher: string -> nat, gone: seq<string>, key: string)
    requires Clean(t, hasher) && Tombstoned(t, u, gone)
    ensures Lookup(u, hasher, key) == if key in gone then None else Lookup(t, hasher, key)
  {
    assert SameShape(t, u);
    FindSameShape(t, u, hasher, key);
  }

  /** The state after deleting `keys` one after another, and what each `Delete` returned. */
  function DeleteAll<V>(st: Probe<V>, hasher: string -> nat, keys: seq<string>): (r: (Probe<V>, seq<Option<V>>))
    requires |st.slots| > 0
    ensures |r.0.slots| == |st.slots| && |r.1| == |keys|
    decreases |keys|
  {
    if keys == [] then (st, [])
    else
      var step := Deleted(st, hasher, keys[0]);
      var rest := DeleteAll(step.0, hasher, keys[1..]);
      (rest.0, [step.1] + rest.1)
  }

  lemma {:induction false} DeleteAllFrom<V>(t: seq<Slot<V>>, hasher: string -> nat, st: Probe<V>, gone: seq<string>, keys: seq<string>)
    requires Clean(t, hasher) && Tombstoned(t, st.slots, gone)
    ensures Tombstoned(t, DeleteAll(st, hasher, keys).0.slots, gone + keys)
    ensures forall j :: 0 <= j < |keys| ==> DeleteAll(st, hasher, keys).1[j] == Lookup(t, hasher, keys[j])
    decreases |keys|
  {
    if keys == [] {
      assert gone + keys == gone;
    } else {
      DeleteStep(t, hasher, st, gone, keys[0]);
      var after := Deleted(st, hasher, keys[0]);
      DeleteAllFrom(t, hasher, after.0, gone + [keys[0]], keys[1..]);
      assert gone + [keys[0]] + keys[1..] == gone + keys;
      var xs := DeleteAll(st, hasher, keys).1;
      assert xs == [after.1] + DeleteAll(after.0, hasher, keys[1..]).1;
      forall j | 1 <= j < |keys| ensures keys[j] == keys[1..][j - 1] && xs[j] == DeleteAll(after.0, hasher, keys[1..]).1[j - 1] {
      }
    }
  }

  /**
   * Deleting any keys, repeats allowed, from a clean table: each `Delete` returns what `Get`
   * returned before the first one, and afterwards `Get` misses exactly the deleted keys.
   */
  lemma DeleteAllThenGet<V>(st: Probe<V>, hasher: string -> nat, keys: seq<string>)
    requires Clean(st.slots, hasher)
    ensures forall j :: 0 <= j < |keys| ==> DeleteAll(st, hasher, keys).1[j] == Lookup(st.slots, hasher, keys[j])
    ensures forall key ::
      Lookup(DeleteAll(st, hasher, keys).0.slots, hasher, key) == if key in keys then None else Lookup(st.slots, hasher, key)
  {
    assert Tombstoned(st.slots, st.slots, []);
    DeleteAllFrom(st.slots, hasher, st, [], keys);
    assert [] + keys == keys;
    var final := DeleteAll(st, hasher, keys).0;
    forall key ensures Lookup(final.slots, hasher, key) == if key in keys then None else Lookup(st.slots, hasher, key) {
      TombstonedLookup(st.slots, final.slots, hasher, keys, key);
    }
  }
}

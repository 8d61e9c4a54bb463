/**
 * The linear-probe table of hashtable/linear_probe.go as values: a table state is the
 * sequence of its slots together with its record counter, and every operation of the
 * table is a function from the old state to the new one. The class in linear_probe.dfy
 * is proved to compute exactly these functions.
 */
module ProbeSpec {
  import opened Wrappers

  /** A stored record: key, value and the tombstone flag `expunge`. */
  datatype Record<V> = Record(key: string, value: V, expunge: bool)

  /** A slot is nil (`None`) or holds a record. */
  type Slot<V> = Option<Record<V>>

  /** The fields of a table that its operations change: the slots and `recordCount`. */
  datatype Probe<V> = Probe(slots: seq<Slot<V>>, count: nat)

  /** `recordCount` is a uint64: decrementing zero wraps to the largest value. */
  const Uint64Modulus: nat := 0x1_0000_0000_0000_0000

  /** The default load factor 0.5, as a fraction. */
  const LoadNumerator: nat := 1
  const LoadDenominator: nat := 2

  /** `hashFunc`: the home slot of a key, its hash modulo the table length. */
  function Home(hasher: string -> nat, key: string, n: nat): (index: nat)
    requires n > 0
    ensures index < n
  {
    hasher(key) % n
  }

  /** The slot visited `i` steps after slot `h` when probing forward with wrap-around. */
  function ProbeIndex(h: nat, i: nat, n: nat): (k: nat)
    requires n > 0
    ensures k < n
  {
    (h + i) % n
  }

  /** How many probing steps lead from slot `h` to slot `j`. */
  function Distance(h: nat, j: nat, n: nat): (d: nat)
    requires n > 0
    ensures d < n
  {
    (j - h) % n
  }

  /** Euclidean remainder of a number less than `n` steps away from `[0, n)`. */
  lemma ModNear(x: int, n: nat)
    requires n > 0 && 0 <= x + n && x < 2 * n
    ensures x % n == if x < 0 then x + n else if x < n then x else x - n
  {
  }

  lemma ProbeDistance(h: nat, j: nat, n: nat)
    requires h < n && j < n
    ensures ProbeIndex(h, Distance(h, j, n), n) == j
    ensures Distance(h, j, n) == 0 <==> h == j
  {
    ModNear(j - h, n);
    ModNear(h + Distance(h, j, n), n);
  }

  lemma DistanceProbe(h: nat, d: nat, n: nat)
    requires h < n && d < n
    ensures Distance(h, ProbeIndex(h, d, n), n) == d
  {
    ModNear(h + d, n);
    ModNear(ProbeIndex(h, d, n) - h, n);
  }

  /**
   * `shoudlResize`: the count exceeds the length times the load factor, truncated to an integer.
   * With load factor 0.5 that is exactly when twice the count exceeds the length.
   */
  predicate ShouldResize(count: nat, n: nat): (b: bool)
    ensures b <==> 2 * count > n
  {
    count > n * LoadNumerator / LoadDenominator
  }

  /** The length `resize` allocates: the old length divided by the load factor, so twice it. */
  function GrownLength(n: nat): (m: nat)
    ensures m == 2 * n
  {
    n * LoadDenominator / LoadNumerator
  }

  /** `recordCount--` on a uint64. */
  function Decrement(count: nat): (r: nat)
    ensures count < Uint64Modulus ==> r < Uint64Modulus && (r + 1) % Uint64Modulus == count
  {
    if count == 0 then Uint64Modulus - 1 else count - 1
  }

  // ---------------------------------------------------------------------------
  // Counting what a table holds

  /** The (key, value) pair a slot contributes, tombstoned or not. */
  ghost function EntryOf<V>(x: Slot<V>): multiset<(string, V)> {
    match x
    case None => multiset{}
    case Some(r) => multiset{(r.key, r.value)}
  }

  /** The (key, value) pairs of all non-nil slots, tombstones included. */
  ghost function Entries<V>(s: seq<Slot<V>>): multiset<(string, V)>
    decreases |s|
  {
    if s == [] then multiset{} else EntryOf(s[0]) + Entries(s[1..])
  }

  ghost predicate NoTombstones<V>(s: seq<Slot<V>>) {
    forall i :: 0 <= i < |s| && s[i].Some? ==> !s[i].value.expunge
  }

  /** No record of the table carries `key`, live or tombstoned. */
  ghost predicate KeyAbsent<V>(s: seq<Slot<V>>, key: string) {
    forall e :: e in Entries(s) ==> e.0 != key
  }

  lemma {:induction false} EntriesBound<V>(s: seq<Slot<V>>)
    ensures |Entries(s)| <= |s|
    ensures |Entries(s)| == |s| <==> forall i :: 0 <= i < |s| ==> s[i].Some?
    decreases |s|
  {
    if s != [] {
      EntriesBound(s[1..]);
      assert forall i :: 1 <= i < |s| ==> s[i] == s[1..][i - 1];
      if forall i :: 0 <= i < |s| ==> s[i].Some? {
        assert forall i :: 0 <= i < |s[1..]| ==> s[1..][i] == s[i + 1];
      }
    }
  }

  lemma {:induction false} EntriesOfEmpty<V>(s: seq<Slot<V>>)
    requires forall i :: 0 <= i < |s| ==> s[i].None?
    ensures Entries(s) == multiset{}
    decreases |s|
  {
    if s != [] {
      assert forall i :: 0 <= i < |s[1..]| ==> s[1..][i] == s[i + 1];
      EntriesOfEmpty(s[1..]);
    }
  }

  /** `make([]*record, n)`: `n` nil slots, holding nothing. */
  function Nils<V>(n: nat): (s: seq<Slot<V>>)
    ensures |s| == n && (forall i :: 0 <= i < n ==> s[i].None?) && Entries(s) == multiset{}
  {
    var s := seq(n, _ => None);
    EntriesOfEmpty(s);
    s
  }

  lemma {:induction false} EntriesUpdate<V>(s: seq<Slot<V>>, j: nat, x: Slot<V>)
    requires j < |s|
    ensures Entries(s[j := x]) + EntryOf(s[j]) == Entries(s) + EntryOf(x)
    decreases |s|
  {
    var t := s[j := x];
    if j == 0 {
      assert t[1..] == s[1..];
    } else {
      assert t[1..] == s[1..][j - 1 := x];
      assert s[1..][j - 1] == s[j];
      EntriesUpdate(s[1..], j - 1, x);
      assert Entries(t) == EntryOf(s[0]) + Entries(t[1..]);
      calc {
        Entries(t) + EntryOf(s[j]);
        EntryOf(s[0]) + (Entries(s[1..][j - 1 := x]) + EntryOf(s[1..][j - 1]));
        EntryOf(s[0]) + (Entries(s[1..]) + EntryOf(x));
      }
    }
  }

  lemma {:induction false} InEntries<V>(s: seq<Slot<V>>, i: nat)
    requires i < |s| && s[i].Some?
    ensures (s[i].value.key, s[i].value.value) in Entries(s)
    decreases |s|
  {
    if i > 0 {
      assert s[1..][i - 1] == s[i];
      InEntries(s[1..], i - 1);
    }
  }

  // ---------------------------------------------------------------------------
  // Put

  /** Slots `h`, `h+1`, ... up to `d` steps (exclusive) are all non-nil. */
  ghost predicate RunOccupied<V>(s: seq<Slot<V>>, h: nat, d: nat) {
    |s| > 0 && forall m :: 0 <= m < d ==> s[ProbeIndex(h, m, |s|)].Some?
  }

  /** The first step `j >= i` at which the probe from `h` meets a nil slot, or `|s|` if none. */
  function FirstNil<V>(s: seq<Slot<V>>, h: nat, i: nat): (j: nat)
    requires |s| > 0 && i <= |s|
    ensures i <= j <= |s|
    ensures j < |s| ==> s[ProbeIndex(h, j, |s|)].None?
    ensures forall m :: i <= m < j ==> s[ProbeIndex(h, m, |s|)].Some?
    decreases |s| - i
  {
    if i == |s| then |s|
    else if s[ProbeIndex(h, i, |s|)].None? then i
    else FirstNil(s, h, i + 1)
  }

  /**
   * The slot the optimistic branch of `Put` writes: the home slot if it is nil or a tombstone,
   * otherwise the first nil slot among the next `len - 1` probes; `None` if there is none.
   */
  function PlaceIndex<V>(s: seq<Slot<V>>, hasher: string -> nat, key: string): (p: Option<nat>)
    requires |s| > 0
    ensures p.Some? ==> p.value < |s|
    ensures p.Some? ==> s[p.value].None? || (p.value == Home(hasher, key, |s|) && s[p.value].value.expunge)
    ensures p.Some? ==> RunOccupied(s, Home(hasher, key, |s|), Distance(Home(hasher, key, |s|), p.value, |s|))
    ensures p.None? <==> (forall i :: 0 <= i < |s| ==> s[i].Some?) && !s[Home(hasher, key, |s|)].value.expunge
  {
    var h := Home(hasher, key, |s|);
    if s[h].None? || s[h].value.expunge then
      ProbeDistance(h, h, |s|);
      Some(h)
    else
      var j := FirstNil(s, h, 1);
      if j < |s| then
        RunToFirstNil(s, h, j);
        Some(ProbeIndex(h, j, |s|))
      else
        NoNilAnywhere(s, h);
        None
  }

  /** The probe from an occupied slot `h` passes only occupied slots before its first nil. */
  lemma RunToFirstNil<V>(s: seq<Slot<V>>, h: nat, j: nat)
    requires h < |s| && s[h].Some? && 1 <= j < |s| && j == FirstNil(s, h, 1)
    ensures RunOccupied(s, h, Distance(h, ProbeIndex(h, j, |s|), |s|))
  {
    DistanceProbe(h, j, |s|);
    ModNear(h, |s|);
    assert ProbeIndex(h, 0, |s|) == h;
  }

  /** When no probe from an occupied slot `h` meets nil, every slot is occupied. */
  lemma NoNilAnywhere<V>(s: seq<Slot<V>>, h: nat)
    requires h < |s| && s[h].Some? && FirstNil(s, h, 1) == |s|
    ensures forall i :: 0 <= i < |s| ==> s[i].Some?
  {
    forall i | 0 <= i < |s| ensures s[i].Some? {
      ProbeDistance(h, i, |s|);
    }
  }

  /** The slots after the optimistic branch of `Put` stores a live record for `key`, if it can. */
  function TryPlace<V>(s: seq<Slot<V>>, hasher: string -> nat, key: string, value: V): (r: Option<seq<Slot<V>>>)
    requires |s| > 0
    ensures r.Some? <==> PlaceIndex(s, hasher, key).Some?
    ensures r.Some? ==> |r.value| == |s|
  {
    match PlaceIndex(s, hasher, key)
    case None => None
    case Some(p) => Some(s[p := Some(Record(key, value, false))])
  }

  /** The branch of `Put` taken when `shoudlResize` is false; `None` when `Put` must resize. */
  function PutInPlace<V>(st: Probe<V>, hasher: string -> nat, key: string, value: V): (r: Option<Probe<V>>)
    requires |st.slots| > 0
    ensures r.Some? ==> |r.value.slots| == |st.slots| && r.value.count == st.count + 1
    ensures r.Some? ==> 2 * st.count <= |st.slots|
  {
    if ShouldResize(st.count, |st.slots|) then None
    else
      match TryPlace(st.slots, hasher, key, value)
      case None => None
      case Some(s) => Some(Probe(s, st.count + 1))
  }

  /** A table into which `rest` can be re-inserted without another resize. */
  ghost predicate Roomy<V>(acc: Probe<V>, rest: seq<Slot<V>>) {
    && |acc.slots| > 0
    && NoTombstones(acc.slots)
    && acc.count == |Entries(acc.slots)|
    && 2 * (acc.count + |Entries(rest)|) <= |acc.slots|
  }

  /** In a table with no tombstones and at most half full, `Put` succeeds without resizing. */
  lemma PlaceFits<V>(acc: Probe<V>, hasher: string -> nat, key: string, value: V)
    requires |acc.slots| > 0 && NoTombstones(acc.slots)
    requires acc.count == |Entries(acc.slots)| && 2 * acc.count <= |acc.slots|
    ensures PutInPlace(acc, hasher, key, value).Some?
    ensures var r := PutInPlace(acc, hasher, key, value).value;
      && NoTombstones(r.slots)
      && Entries(r.slots) == Entries(acc.slots) + multiset{(key, value)}
      && r.count == |Entries(r.slots)|
  {
    EntriesBound(acc.slots);
    TryPlaceEntries(acc.slots, hasher, key, value);
  }

  /** Storing into a table with no tombstones adds exactly one pair and no tombstone. */
  lemma TryPlaceEntries<V>(s: seq<Slot<V>>, hasher: string -> nat, key: string, value: V)
    requires |s| > 0 && NoTombstones(s) && TryPlace(s, hasher, key, value).Some?
    ensures var s' := TryPlace(s, hasher, key, value).value;
      NoTombstones(s') && Entries(s') == Entries(s) + multiset{(key, value)}
  {
    var p := PlaceIndex(s, hasher, key).value;
    EntriesUpdate(s, p, Some(Record(key, value, false)));
  }

  /** `resize`'s loop: `Put` every non-nil record of `rest`, in order, into `acc`. */
  function Reinsert<V>(hasher: string -> nat, rest: seq<Slot<V>>, acc: Probe<V>): (r: Probe<V>)
    requires Roomy(acc, rest)
    ensures |r.slots| == |acc.slots| && NoTombstones(r.slots)
    ensures r.count == |Entries(r.slots)| == acc.count + |Entries(rest)|
    ensures Entries(r.slots) == Entries(acc.slots) + Entries(rest)
    decreases |rest|
  {
    if rest == [] then acc
    else
      match rest[0]
      case None => Reinsert(hasher, rest[1..], acc)
      case Some(rec) =>
        PlaceFits(acc, hasher, rec.key, rec.value);
        Reinsert(hasher, rest[1..], PutInPlace(acc, hasher, rec.key, rec.value).value)
  }

  /**
   * `resize`: a table of twice the length whose counter restarts at zero, into which every
   * non-nil old record, tombstoned or not, is put again as a live record.
   */
  function Resized<V>(st: Probe<V>, hasher: string -> nat): (r: Probe<V>)
    requires |st.slots| > 0
    ensures |r.slots| == 2 * |st.slots|
    ensures NoTombstones(r.slots) && r.count == |Entries(st.slots)| == |Entries(r.slots)|
    ensures Entries(r.slots) == Entries(st.slots)
  {
    EntriesBound(st.slots);
    Reinsert(hasher, st.slots, Probe(Nils(GrownLength(|st.slots|)), 0))
  }

  /** `Put(key, value)`: the optimistic branch, or else `resize` followed by the recursive `Put`. */
  function Inserted<V>(st: Probe<V>, hasher: string -> nat, key: string, value: V): (r: Probe<V>)
    requires |st.slots| > 0
    ensures |r.slots| == |st.slots| || |r.slots| == 2 * |st.slots|
  {
    match PutInPlace(st, hasher, key, value)
    case Some(placed) => placed
    case None =>
      var grown := Resized(st, hasher);
      EntriesBound(st.slots);
      PlaceFits(grown, hasher, key, value);
      PutInPlace(grown, hasher, key, value).value
  }

  // ---------------------------------------------------------------------------
  // getRecord, Get and Delete

  /** `getRecord`'s loop: from step `i` on, the first slot that is nil (None) or holds `key`. */
  function FindFrom<V>(s: seq<Slot<V>>, key: string, h: nat, i: nat): (r: Option<nat>)
    requires |s| > 0 && i <= |s|
    ensures r.Some? ==> r.value < |s| && s[r.value].Some? && s[r.value].value.key == key
    decreases |s| - i
  {
    if i == |s| then None
    else
      var k := ProbeIndex(h, i, |s|);
      if s[k].None? then None
      else if s[k].value.key == key then Some(k)
      else FindFrom(s, key, h, i + 1)
  }

  /** `getRecord`: the index of the record it returns, tombstoned or not; `None` for nil. */
  function Find<V>(s: seq<Slot<V>>, hasher: string -> nat, key: string): (r: Option<nat>)
    requires |s| > 0
    ensures r.Some? ==> r.value < |s| && s[r.value].Some? && s[r.value].value.key == key
  {
    var h := Home(hasher, key, |s|);
    if s[h].None? then None
    else if s[h].value.key == key then Some(h)
    else FindFrom(s, key, h, 0)
  }

  /** `Get`: `Some(value)` for `(value, true)`, `None` for `(nil, false)`. */
  function Lookup<V>(s: seq<Slot<V>>, hasher: string -> nat, key: string): (r: Option<V>)
    requires |s| > 0
    ensures Find(s, hasher, key).None? ==> r.None?
    ensures r.Some? ==> Find(s, hasher, key).Some? && s[Find(s, hasher, key).value] == Some(Record(key, r.value, false))
  {
    match Find(s, hasher, key)
    case None => None
    case Some(j) => if s[j].value.expunge then None else Some(s[j].value.value)
  }

  /** `Delete`: the new state and the returned value (`None` for `(nil, false)`). */
  function Deleted<V>(st: Probe<V>, hasher: string -> nat, key: string): (r: (Probe<V>, Option<V>))
    requires |st.slots| > 0
    ensures |r.0.slots| == |st.slots|
    ensures r.1.Some? <==> Find(st.slots, hasher, key).Some?
    ensures r.1.None? ==> r.0 == st
    ensures r.1.Some? ==> r.0.count == Decrement(st.count)
    ensures r.1.Some? ==> var j := Find(st.slots, hasher, key).value;
      && r.0.slots[j] == Some(Record(key, r.1.value, true)) && st.slots[j].value.value == r.1.value
      && forall i :: 0 <= i < |st.slots| && i != j ==> r.0.slots[i] == st.slots[i]
  {
    match Find(st.slots, hasher, key)
    case None => (st, None)
    case Some(j) =>
      var rec := st.slots[j].value;
      (Probe(st.slots[j := Some(rec.(expunge := true))], Decrement(st.count)), Some(rec.value))
  }

  // ---------------------------------------------------------------------------
  // The probing invariant

  /** Every record can be reached from its home slot by probing forward over non-nil slots only. */
  ghost predicate Reachable<V>(s: seq<Slot<V>>, hasher: string -> nat) {
    |s| > 0 &&
    forall j :: 0 <= j < |s| && s[j].Some? ==>
      RunOccupied(s, Home(hasher, s[j].value.key, |s|), Distance(Home(hasher, s[j].value.key, |s|), j, |s|))
  }
}

/**
 * The scenarios of hashtable/linear_probe_test.go, stated for every fixed hasher (the constant-zero
 * hasher of the collision test included) and every positive initial length: the `kv` pairs
 * `0 .. n-1` are put into a new table, then got back and deleted.
 */
module ProbeScenarios {
  import opened Wrappers
  import opened ProbeSpec
  import opened ProbeProperties
  import Misc

  /** The pairs `kv(0), …, kv(n-1)`, in the order the tests put them. */
  function KvPairs(n: nat): (kvs: seq<(string, string)>)
    ensures |kvs| == n && forall i :: 0 <= i < n ==> kvs[i] == Misc.Kv(i)
  {
    seq(n, i => Misc.Kv(i))
  }

  /** A new table of length `size` after putting `KvPairs(n)`. */
  ghost function KvTable(size: nat, hasher: string -> nat, n: nat): (t: Probe<string>)
    requires size > 0
    ensures |t.slots| > 0
  {
    InsertAll(Probe(Nils(size), 0), hasher, KvPairs(n))
  }

  lemma KvKeysDistinct(n: nat)
    ensures DistinctKeys(KvPairs(n))
  {
    forall i, j | 0 <= i < j < n ensures KvPairs(n)[i].0 != KvPairs(n)[j].0 {
      Misc.KvInjective(i, j);
    }
  }

  /** Every key put is got back with its value; every other `kv` key is absent. */
  lemma KvPutThenGet(size: nat, hasher: string -> nat, n: nat)
    requires size > 0
    ensures Clean(KvTable(size, hasher, n).slots, hasher)
    ensures forall i :: 0 <= i < n ==> Lookup(KvTable(size, hasher, n).slots, hasher, Misc.Kv(i).0) == Some(Misc.Kv(i).1)
    ensures forall j :: (j < 0 || j >= n) ==> Lookup(KvTable(size, hasher, n).slots, hasher, Misc.Kv(j).0) == None
  {
    var empty: seq<Slot<string>> := Nils(size);
    KvKeysDistinct(n);
    assert AllAbsent(empty, KvPairs(n));
    InsertAllThenGet(Probe(empty, 0), hasher, KvPairs(n));
    forall j | j < 0 || j >= n
      ensures Lookup(KvTable(size, hasher, n).slots, hasher, Misc.Kv(j).0) == None
    {
      forall i | 0 <= i < n ensures KvPairs(n)[i].0 != Misc.Kv(j).0 {
        Misc.KvInjective(i, j);
      }
      assert NotAmong(KvPairs(n), Misc.Kv(j).0);
      FoundIsPresent(empty, hasher, Misc.Kv(j).0);
    }
  }

  /** Deleting a `kv` key that was never put reports absence and changes nothing. */
  lemma KvDeleteAbsent(size: nat, hasher: string -> nat, n: nat, j: int)
    requires size > 0 && (j < 0 || j >= n)
    ensures Deleted(KvTable(size, hasher, n), hasher, Misc.Kv(j).0) == (KvTable(size, hasher, n), None)
  {
    var t := KvTable(size, hasher, n);
    KvPutThenGet(size, hasher, n);
    CleanLookupAll(t.slots, hasher, Misc.Kv(j).0);
    DeleteAbsent(t, hasher, Misc.Kv(j).0);
  }

  /**
   * Deleting a `kv` key that was put returns its value; afterwards that key is absent and every
   * other key put still returns its value.
   */
  lemma KvDeletePresent(size: nat, hasher: string -> nat, n: nat, i: nat)
    requires size > 0 && i < n
    ensures var (after, r) := Deleted(KvTable(size, hasher, n), hasher, Misc.Kv(i).0);
      && r == Some(Misc.Kv(i).1)
      && Lookup(after.slots, hasher, Misc.Kv(i).0) == None
      && forall k :: 0 <= k < n && k != i ==> Lookup(after.slots, hasher, Misc.Kv(k).0) == Some(Misc.Kv(k).1)
  {
    var t := KvTable(size, hasher, n);
    KvPutThenGet(size, hasher, n);
    DeleteLive(t, hasher, Misc.Kv(i).0, Misc.Kv(i).1);
    forall k | 0 <= k < n && k != i ensures Misc.Kv(k).0 != Misc.Kv(i).0 {
      Misc.KvInjective(k, i);
    }
  }

  /** The keys `kv(ns[0]).key, kv(ns[1]).key, …` of a run of drawn numbers. */
  function KvKeys(ns: seq<int>): (keys: seq<string>)
    ensures |keys| == |ns| && forall j :: 0 <= j < |ns| ==> keys[j] == Misc.Kv(ns[j]).0
  {
    seq(|ns|, j requires 0 <= j < |ns| => Misc.Kv(ns[j]).0)
  }

  /** A `kv` key is among the keys of the drawn numbers exactly when its number was drawn. */
  lemma KvKeysMember(ns: seq<int>, i: int)
    ensures Misc.Kv(i).0 in KvKeys(ns) <==> i in ns
  {
    if i in ns {
      var j :| 0 <= j < |ns| && ns[j] == i;
      assert KvKeys(ns)[j] == Misc.Kv(i).0;
    }
    if Misc.Kv(i).0 in KvKeys(ns) {
      var j :| 0 <= j < |ns| && KvKeys(ns)[j] == Misc.Kv(i).0;
      if ns[j] != i {
        Misc.KvInjective(ns[j], i);
      }
    }
  }

  /**
   * The whole delete test: after putting `kv(0) … kv(n-1)`, deleting keys drawn outside the range
   * reports each one absent; deleting keys drawn from `[0, n)`, repeats allowed, returns each
   * one's value every time; afterwards `Get` misses exactly the drawn keys and finds every other
   * key put with its value.
   */
  lemma KvInsertDeleteGet(size: nat, hasher: string -> nat, n: nat, outside: seq<int>, picks: seq<int>)
    requires size > 0
    requires forall j :: 0 <= j < |outside| ==> outside[j] >= n
    requires forall j :: 0 <= j < |picks| ==> 0 <= picks[j] < n
    ensures var t1 := DeleteAll(KvTable(size, hasher, n), hasher, KvKeys(outside));
      var t2 := DeleteAll(t1.0, hasher, KvKeys(picks));
      && (forall j :: 0 <= j < |outside| ==> t1.1[j].None?)
      && (forall j :: 0 <= j < |picks| ==> t2.1[j] == Some(Misc.Kv(picks[j]).1))
      && (forall i :: 0 <= i < n ==>
            Lookup(t2.0.slots, hasher, Misc.Kv(i).0) == if i in picks then None else Some(Misc.Kv(i).1))
  {
    var t := KvTable(size, hasher, n);
    KvPutThenGet(size, hasher, n);
    var t1 := DeleteAll(t, hasher, KvKeys(outside)).0;
    var t2 := DeleteAll(t1, hasher, KvKeys(picks)).0;
    KvDeleteRuns(size, hasher, n, outside, picks);
    forall i | 0 <= i < n
      ensures Lookup(t2.slots, hasher, Misc.Kv(i).0) == if i in picks then None else Some(Misc.Kv(i).1)
    {
      TombstonedLookup(t.slots, t2.slots, hasher, KvKeys(outside) + KvKeys(picks), Misc.Kv(i).0);
      KvKeysMember(outside, i);
      KvKeysMember(picks, i);
    }
  }

  /** The two runs of deletes of the test tombstone exactly the drawn keys' records. */
  lemma KvDeleteRuns(size: nat, hasher: string -> nat, n: nat, outside: seq<int>, picks: seq<int>)
    requires size > 0
    ensures var t := KvTable(size, hasher, n);
      var t1 := DeleteAll(t, hasher, KvKeys(outside));
      var t2 := DeleteAll(t1.0, hasher, KvKeys(picks));
      && (forall j :: 0 <= j < |outside| ==> t1.1[j] == Lookup(t.slots, hasher, Misc.Kv(outside[j]).0))
      && (forall j :: 0 <= j < |picks| ==> t2.1[j] == Lookup(t.slots, hasher, Misc.Kv(picks[j]).0))
      && Tombstoned(t.slots, t2.0.slots, KvKeys(outside) + KvKeys(picks))
  {
    var t := KvTable(size, hasher, n);
    KvPutThenGet(size, hasher, n);
    assert Tombstoned(t.slots, t.slots, []);
    DeleteAllFrom(t.slots, hasher, t, [], KvKeys(outside));
    assert [] + KvKeys(outside) == KvKeys(outside);
    var t1 := DeleteAll(t, hasher, KvKeys(outside)).0;
    DeleteAllFrom(t.slots, hasher, t1, KvKeys(outside), KvKeys(picks));
  }

  /** The hasher of the collision test: every key's home slot is slot 0. */
  function ZeroHash(key: string): nat {
    0
  }

  /** The tables of the scenario below. */
  function A(): Slot<int> { Some(Record("a", 1, false)) }
  function T1(): Probe<int> { Probe([A(), None, None, None], 1) }
  function T2(): Probe<int> { Probe([A(), Some(Record("b", 2, false)), None, None], 2) }
  function T3(): Probe<int> { Probe([A(), Some(Record("b", 2, true)), None, None], 1) }
  function T4(): Probe<int> { Probe([A(), Some(Record("b", 2, true)), Some(Record("b", 3, false)), None], 2) }

  lemma PutFirstKey()
    ensures Inserted(Probe(Nils(4), 0), ZeroHash, "a", 1) == T1()
  {
    var t0: Probe<int> := Probe(Nils(4), 0);
    PutAtHome(t0, ZeroHash, "a", 1);
    assert t0.slots[0 := A()] == T1().slots;
  }

  lemma PutSecondKey()
    ensures Inserted(T1(), ZeroHash, "b", 2) == T2()
  {
    assert FirstNil(T1().slots, 0, 1) == 1;
    PutAtProbe(T1(), ZeroHash, "b", 2, 1);
  }

  lemma DeleteSecondKey()
    ensures Lookup(T2().slots, ZeroHash, "b") == Some(2)
    ensures Deleted(T2(), ZeroHash, "b") == (T3(), Some(2))
  {
    assert "a" != "b";
    assert FindFrom(T2().slots, "b", 0, 0) == Some(1);
    assert T2().slots[1 := Some(Record("b", 2, true))] == T3().slots;
  }

  lemma PutSecondKeyAgain()
    ensures Inserted(T3(), ZeroHash, "b", 3) == T4()
  {
    assert FirstNil(T3().slots, 0, 1) == 2;
    PutAtProbe(T3(), ZeroHash, "b", 3, 2);
  }

  lemma GetShadowed()
    ensures Lookup(T4().slots, ZeroHash, "b") == None
  {
    assert "a" != "b";
    assert FindFrom(T4().slots, "b", 0, 0) == Some(1);
  }

  /**
   * `Put` does not reuse a tombstone past the home slot and `getRecord` stops at the first
   * record with the key, tombstoned or not: with every key at slot 0 of a four-slot table,
   * putting "a" and "b", deleting "b" and putting "b" again leaves `Get("b")` at `(nil, false)`
   * while `Size()` counts two records.
   */
  lemma PutAfterDeleteShadowed()
    ensures Inserted(Probe(Nils(4), 0), ZeroHash, "a", 1) == T1()
    ensures Inserted(T1(), ZeroHash, "b", 2) == T2() && Lookup(T2().slots, ZeroHash, "b") == Some(2)
    ensures Deleted(T2(), ZeroHash, "b") == (T3(), Some(2))
    ensures Inserted(T3(), ZeroHash, "b", 3) == T4() && T4().count == 2
    ensures Lookup(T4().slots, ZeroHash, "b") == None
  {
    PutFirstKey();
    PutSecondKey();
    DeleteSecondKey();
    PutSecondKeyAgain();
    GetShadowed();
  }
}

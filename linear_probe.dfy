/**
 * The `LinearProbe` table of hashtable/linear_probe.go: an array of slots written in place,
 * a record counter, and a fixed hasher. Every method is proved to compute the function of
 * probe_spec.dfy that models it, and to keep the probing invariant.
 */
module LinearProbeTable {
  import opened Wrappers
  import opened ProbeSpec
  import ProbeProperties

  /** `make([]*record, n)`: a new array of `n` nil slots. */
  method NewSlots<V>(n: nat) returns (a: array<Slot<V>>)
    ensures fresh(a) && a[..] == Nils(n)
  {
    a := new Slot<V>[n](_ => None);
    assert a[..] == Nils(n);
  }

  class LinearProbe<V> {
    var recordCount: nat
    var table: array<Slot<V>>
    const hasher: string -> nat

    /** The state as a value of the functional model. */
    ghost function Model(): Probe<V>
      reads this, table
    {
      Probe(table[..], recordCount)
    }

    /** A usable table: non-empty, and every record reachable from its home slot. */
    ghost predicate Valid()
      reads this, table
    {
      table.Length > 0 && Reachable(table[..], hasher)
    }

    /** `NewLinearProbe(size, LBWithHasher(hasher))` with the default load factor 0.5. */
    constructor (size: nat, hasher: string -> nat)
      ensures this.hasher == hasher && fresh(table)
      ensures Model() == Probe(Nils(size), 0)
      ensures size > 0 ==> Valid()
    {
      this.hasher := hasher;
      var slots := NewSlots(size);
      table := slots;
      recordCount := 0;
    }

    /** `hashFunc`: the home slot of `key`. */
    function HashFunc(key: string): (index: nat)
      reads this
      requires table.Length > 0
      ensures index < table.Length
    {
      Home(hasher, key, table.Length)
    }

    /** `shoudlResize`: more records than half the length. */
    predicate ShouldResize(): (b: bool)
      reads this
      ensures b <==> 2 * recordCount > table.Length
    {
      ProbeSpec.ShouldResize(recordCount, table.Length)
    }

    /** `Size`. */
    function Size(): (size: nat)
      reads this
      ensures size == Model().count
    {
      recordCount
    }

    /** `getRecord`: the index of the first slot of the probe run from the home slot holding `key`. */
    method GetRecord(key: string) returns (index: Option<nat>)
      requires Valid()
      ensures index == Find(table[..], hasher, key)
    {
      var home := HashFunc(key);
      if table[home].None? {
        return None;
      }
      if table[home].value.key == key {
        return Some(home);
      }
      var i := 0;
      while i < table.Length
        invariant 0 <= i <= table.Length
        invariant FindFrom(table[..], key, home, i) == Find(table[..], hasher, key)
      {
        var k := (home + i) % table.Length;
        if table[k].None? {
          return None;
        }
        if table[k].value.key == key {
          return Some(k);
        }
        i := i + 1;
      }
      return None;
    }

    /** `Get`: `Some(value)` for `(value, true)` and `None` for `(nil, false)`. */
    method Get(key: string) returns (value: Option<V>)
      requires Valid()
      ensures value == Lookup(table[..], hasher, key)
    {
      var found := GetRecord(key);
      if found.None? {
        return None;
      }
      var rec := table[found.value].value;
      if !rec.expunge {
        return Some(rec.value);
      }
      return None;
    }

    /** `Delete`: tombstones the record `getRecord` returns and decrements the counter. */
    method Delete(key: string) returns (value: Option<V>)
      requires Valid()
      modifies this`recordCount, table
      ensures Valid()
      ensures (Model(), value) == Deleted(old(Model()), hasher, key)
    {
      var found := GetRecord(key);
      if found.None? {
        return None;
      }
      var j := found.value;
      var rec := table[j].value;
      table[j] := Some(rec.(expunge := true));
      recordCount := Decrement(recordCount);
      value := Some(rec.value);
      ProbeProperties.DeleteReachable(old(Model()), hasher, key);
    }

    /**
     * `Put`: stores a live record at the home slot if it is nil or a tombstone, otherwise at the
     * first nil slot probing forward; when the table must resize, or no nil slot exists, it
     * calls `resize` and then itself. The recursive call never resizes again.
     */
    method Put(key: string, value: V)
      requires Valid()
      modifies this, table
      ensures Valid()
      ensures table == old(table) || fresh(table)
      ensures PutInPlace(old(Model()), hasher, key, value).Some? ==> table == old(table)
      ensures Model() == Inserted(old(Model()), hasher, key, value)
      decreases if PutInPlace(Model(), hasher, key, value).Some? then 0 else 2
    {
      ProbeProperties.PutReachable(Model(), hasher, key, value);
      if !ShouldResize() {
        var index := HashFunc(key);
        if table[index].None? {
          ProbeProperties.PutAtHome(Model(), hasher, key, value);
          table[index] := Some(Record(key, value, false));
          recordCount := recordCount + 1;
          return;
        } else if table[index].value.expunge {
          ProbeProperties.PutAtHome(Model(), hasher, key, value);
          table[index] := Some(Record(key, value, false));
          recordCount := recordCount + 1;
          return;
        }
        var i := 1;
        while i < table.Length
          invariant 1 <= i <= table.Length
          invariant FirstNil(table[..], index, i) == FirstNil(table[..], index, 1)
          invariant Model() == old(Model())
        {
          var k := (index + i) % table.Length;
          if table[k].None? {
            ProbeProperties.PutAtProbe(Model(), hasher, key, value, i);
            table[k] := Some(Record(key, value, false));
            recordCount := recordCount + 1;
            return;
          }
          i := i + 1;
        }
      }
      ProbeProperties.PutViaResize(Model(), hasher, key, value);
      Resize();
      Put(key, value);
    }

    /**
     * `resize`: allocates a table of twice the length, restarts the counter at zero and puts
     * every non-nil old record, tombstoned or not, into it.
     */
    method Resize()
      requires Valid()
      modifies this
      ensures Valid() && fresh(table)
      ensures Model() == Resized(old(Model()), hasher)
      decreases 1
    {
      var oldTable := table[..];
      ProbeProperties.ResizeStart(old(Model()), hasher);
      var grown := NewSlots(GrownLength(table.Length));
      recordCount, table := 0, grown;
      assert oldTable[0..] == oldTable;
      ghost var target := Resized(old(Model()), hasher);
      ghost var acc := Model();
      for i := 0 to |oldTable|
        invariant fresh(table)
        invariant Model() == acc && Valid()
        invariant ProbeProperties.Resizing(hasher, acc, oldTable[i..], target)
      {
        assert oldTable[i..][1..] == oldTable[i + 1..];
        ProbeProperties.ResizingStep(hasher, acc, oldTable[i..], target);
        if oldTable[i].None? {
          continue;
        }
        var rec := oldTable[i].value;
        Put(rec.key, rec.value);
        acc := Inserted(acc, hasher, rec.key, rec.value);
      }
      assert oldTable[|oldTable|..] == [];
      ProbeProperties.ResizingDone(hasher, acc, target);
    }
  }
}

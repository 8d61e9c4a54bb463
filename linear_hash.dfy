/**
 * The `LinearHash` type of hashtable/linear_hash.go. Only its two-tier address function and
 * `split`'s advance of the split pointer do work; `Put` computes an address and stores nothing,
 * `Get` and `Delete` return constants.
 */
module LinearHashTable {
  import opened Wrappers
  import opened ProbeSpec

  /** Go's `%` on `int`: truncates toward zero, so the remainder has the sign of the dividend. */
  function GoRem(a: int, b: int): (r: int)
    requires b != 0
    ensures a >= 0 ==> 0 <= r < if b > 0 then b else -b
    ensures a < 0 ==> r <= 0
  {
    var m := (if a >= 0 then a else -a) % (if b > 0 then b else -b);
    if a >= 0 then m else -m
  }

  /** Go's conversion `uint64(x)` of an `int`: two's complement. */
  function AsUint64(x: int): (r: nat)
    ensures 0 <= x < Uint64Modulus ==> r == x
  {
    x % Uint64Modulus
  }

  lemma {:induction false} MulAtLeast(a: int, n: nat)
    requires a >= 1
    ensures a * n >= n
    decreases a
  {
    if a > 1 {
      MulAtLeast(a - 1, n);
      assert a * n == (a - 1) * n + n;
    }
  }

  /** The remainder is the only `r < n` with `h == q * n + r`. */
  lemma ModUnique(h: nat, n: nat, q: nat, r: nat)
    requires n > 0 && r < n && h == q * n + r
    ensures h % n == r
  {
    var q', r' := h / n, h % n;
    assert h == q' * n + r';
    assert (q - q') * n == r' - r by {
      assert (q - q') * n == q * n - q' * n;
    }
    if q > q' {
      MulAtLeast(q - q', n);
    } else if q < q' {
      MulAtLeast(q' - q, n);
    }
  }

  /**
   * `hashFunc`'s two tiers: hashes below the split pointer are taken modulo the table length,
   * the others modulo twice the length. Both tiers agree modulo the length.
   */
  function Address(hash: nat, splitPointer: int, n: nat): (index: nat)
    requires n > 0
    ensures hash < AsUint64(splitPointer) ==> index < n
    ensures index < 2 * n
    ensures index % n == hash % n
  {
    if hash < AsUint64(splitPointer) then hash % n
    else
      TiersAgree(hash, n);
      hash % (2 * n)
  }

  /** Subtracting the modulus does not change the remainder. */
  lemma ModSub(x: nat, m: nat)
    requires m > 0 && x >= m
    ensures x % m == (x - m) % m
  {
    var q, r := x / m, x % m;
    assert x == q * m + r;
    assert (q - 1) * m == q * m - m;
    ModUnique(x - m, m, q - 1, r);
  }

  /** A hash modulo twice the length, taken modulo the length, is the hash modulo the length. */
  lemma {:induction false} TiersAgree(hash: nat, n: nat)
    requires n > 0
    ensures (hash % (2 * n)) % n == hash % n
    decreases hash
  {
    if hash >= 2 * n {
      ModSub(hash, 2 * n);
      ModSub(hash, n);
      ModSub(hash - n, n);
      TiersAgree(hash - 2 * n, n);
    } else {
      ModUnique(hash, 2 * n, 0, hash);
    }
  }

  /**
   * `split`'s new split pointer. A non-negative pointer lands in `[0, |bucketCounter|)`, and one
   * below the last bucket moves on by one; Go's `%` leaves a negative sum negative or zero.
   */
  function NextSplit(splitPointer: int, bucketCounter: int): (next: int)
    requires bucketCounter != 0
    ensures splitPointer + 1 >= 0 ==> 0 <= next < if bucketCounter > 0 then bucketCounter else -bucketCounter
    ensures 0 <= splitPointer + 1 < bucketCounter ==> next == splitPointer + 1
    ensures splitPointer + 1 < 0 ==> next <= 0
  {
    GoRem(splitPointer + 1, bucketCounter)
  }

  /** With a positive bucket counter the split pointer steps through `[0, bucketCounter)` and wraps. */
  lemma SplitStaysInRange(splitPointer: int, bucketCounter: int)
    requires 0 <= splitPointer < bucketCounter
    ensures 0 <= NextSplit(splitPointer, bucketCounter) < bucketCounter
    ensures splitPointer < bucketCounter - 1 ==> NextSplit(splitPointer, bucketCounter) == splitPointer + 1
    ensures splitPointer == bucketCounter - 1 ==> NextSplit(splitPointer, bucketCounter) == 0
  {
  }

  class LinearHash<V> {
    var recordCount: nat
    var table: seq<Slot<V>>
    const hasher: string -> nat
    var bucketCounter: int
    var splitPointer: int
    var overflowTH: int

    /** `NewLinearHash(size, LHWithHasher(hasher))`: `size` is ignored and the table stays empty. */
    constructor (size: int, hasher: string -> nat)
      ensures this.hasher == hasher && table == [] && recordCount == 0
      ensures bucketCounter == 0 && splitPointer == 0 && overflowTH == 0
    {
      this.hasher := hasher;
      table := [];
      recordCount := 0;
      bucketCounter, splitPointer, overflowTH := 0, 0, 0;
    }

    /** `hashFunc`: reads the table and changes none of its fields. */
    function HashFunc(key: string): (index: nat)
      reads this
      requires |table| > 0
      ensures hasher(key) < AsUint64(splitPointer) ==> index < |table|
      ensures index < 2 * |table|
    {
      Address(hasher(key), splitPointer, |table|)
    }

    /** `Put`: computes the address of `key` (which the source prints) and stores nothing. */
    method Put(key: string, value: V) returns (index: nat)
      requires |table| > 0
      ensures index == HashFunc(key) && index < 2 * |table|
    {
      index := HashFunc(key);
    }

    /** `Get`: always `(nil, false)`. */
    function Get(key: string): (r: Option<V>)
      ensures r.None?
    {
      None
    }

    /** `Delete`: always `(false, nil)`, found-flag first. */
    function Delete(key: string): (r: (bool, Option<V>))
      ensures !r.0 && r.1.None?
    {
      (false, None)
    }

    /** `Size`: the counter, which nothing in the type changes. */
    function Size(): (size: nat)
      reads this
      ensures size == recordCount
    {
      recordCount
    }

    /** `split`: advances the split pointer modulo the bucket counter; Go panics on a zero counter. */
    method Split()
      requires bucketCounter != 0
      modifies this`splitPointer
      ensures splitPointer == NextSplit(old(splitPointer), bucketCounter)
      ensures 0 <= old(splitPointer) < bucketCounter ==> 0 <= splitPointer < bucketCounter
    {
      splitPointer := GoRem(splitPointer + 1, bucketCounter);
      if 0 <= old(splitPointer) < bucketCounter {
        SplitStaysInRange(old(splitPointer), bucketCounter);
      }
    }
  }
}

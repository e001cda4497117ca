/** The Robin Hood hash map of pkg/rhh/rhh.go: byte-string keys to values in
    one open-addressing table whose probe distances never drop by more than
    one from a slot to the next. */
module Rhh {
  import opened Bits
  import opened Slots
  import opened ByteOrder
  import opened Probe
  import opened Scan

  /** Initialisation options of NewHashMap. */
  datatype Options = Options(capacity: int, loadFactor: int)

  /** The default options: 256 slots, 90% load factor. */
  const DefaultOptions := Options(256, 90)

  /** Above this, pow2 runs out of candidates and panics. */
  const Pow2Limit := 0x2000_0000_0000_0000

  /** pow2: the least power of two that is at least `v` and at least 2. */
  method Pow2(v: int) returns (r: int)
    requires v <= Pow2Limit
    ensures IsPow2(r) && r >= 2 && r >= v
    ensures forall p :: IsPow2(p) && p >= 2 && p >= v ==> r <= p
    ensures IsPow2(v) && v >= 2 ==> r == v
    ensures v <= 2 ==> r == 2
  {
    var i := 2;
    assert IsPow2(i / 2);
    while i < 0x4000_0000_0000_0000
      invariant 2 <= i <= 0x4000_0000_0000_0000 && IsPow2(i)
      invariant i == 2 || i / 2 < v
      invariant forall p :: IsPow2(p) && p >= 2 && p >= v ==> i <= p
    {
      if i >= v {
        return i;
      }
      forall p | IsPow2(p) && p >= 2 && p >= v
        ensures 2 * i <= p
      {
        PowersAreSpaced(i, p);
      }
      DoubleIsPow2(i);
      i := i * 2;
    }
    assert false;
  }

  class HashMap<V> {
    var hashes: array<Hash>
    var elems: array<HashElem<V>>
    var n: int
    var capacity: int
    var threshold: int
    var mask: nat
    var loadFactor: int

    /** The raw 64-bit hash function (xxhash.Sum64 in the source). */
    const sum64: Key -> Hash

    /** The abstract contents: each stored key with its value. */
    ghost var contents: map<Key, Option<V>>

    /** The table invariant, which holds between operations and also while
        Put has counted a key it has not yet inserted. */
    ghost predicate Table()
      reads this, hashes, elems
    {
      hashes.Length == capacity && elems.Length == capacity &&
      IsPow2(capacity) && capacity >= 2 && mask == capacity - 1 &&
      0 <= loadFactor <= 100 && threshold == capacity * loadFactor / 100 &&
      WellFormed(sum64, hashes[..], elems[..], contents)
    }

    /** The object invariant: the table, with `n` counting its entries. */
    ghost predicate Valid()
      reads this, hashes, elems
    {
      Table() && n == |contents|
    }

    /** NewHashMap: a map with `pow2(opt.capacity)` empty slots. */
    constructor (opt: Options, sum64: Key -> Hash)
      requires opt.capacity <= Pow2Limit && 0 <= opt.loadFactor <= 100
      ensures Valid() && contents == map[] && fresh(hashes) && fresh(elems)
      ensures IsPow2(capacity) && capacity >= 2 && capacity >= opt.capacity
      ensures forall p :: IsPow2(p) && p >= 2 && p >= opt.capacity ==> capacity <= p
      ensures loadFactor == opt.loadFactor && this.sum64 == sum64
    {
      var c := Pow2(opt.capacity);
      capacity, loadFactor, this.sum64 := c, opt.loadFactor, sum64;
      // The slot arrays stay unallocated until alloc runs.
      hashes := new Hash[0];
      elems := new HashElem<V>[0](_ => EmptyElem());
      n, threshold, mask := 0, 0, 0;
      contents := map[];
      new;
      Alloc();
    }

    /** alloc: fresh empty slot arrays of the current capacity, with the
        threshold and mask that go with it. */
    method Alloc()
      requires IsPow2(capacity) && capacity >= 2 && 0 <= loadFactor <= 100
      modifies this
      ensures Table() && contents == map[] && fresh(hashes) && fresh(elems)
      ensures capacity == old(capacity) && loadFactor == old(loadFactor) && n == old(n)
    {
      elems := new HashElem<V>[capacity](_ => EmptyElem());
      hashes := new Hash[capacity](_ => 0);
      threshold := capacity * loadFactor / 100;
      mask := capacity - 1;
      contents := map[];
      EmptyTable(sum64, hashes[..], elems[..]);
    }

    /** Get: the value stored under `key`, or nil. */
    method Get(key: Key) returns (val: Option<V>)
      requires Valid()
      ensures val == if key in contents then contents[key] else None
    {
      var i := Index(key);
      if i == -1 {
        return None;
      }
      return elems[i].value;
    }

    /** Put: stores `val` under `key`. The count is raised first, and the
        table grows if that passes the threshold, before it is known whether
        the key is new; an overwrite then takes the count back. */
    method Put(key: Key, val: Option<V>)
      requires Valid()
      modifies this, hashes, elems
      ensures Valid()
      ensures contents == old(contents)[key := val]
      ensures n == old(n) + (if key in old(contents) then 0 else 1)
      ensures capacity == if old(n) + 1 > old(threshold) then 2 * old(capacity) else old(capacity)
      ensures old(n) + 1 > old(threshold) ==> fresh(hashes) && fresh(elems)
      ensures old(n) + 1 <= old(threshold) ==> hashes == old(hashes) && elems == old(elems)
      ensures loadFactor == old(loadFactor)
    {
      n := n + 1;
      if n > threshold {
        Grow();
      } else {
        ThresholdAtMostCapacity(capacity, loadFactor);
      }
      var overwritten := Insert(HashKey(sum64, key), key, val);
      if overwritten {
        n := n - 1;
      }
    }

    /** threshold never exceeds capacity while the load factor is at most 100. */
    static lemma ThresholdAtMostCapacity(capacity: int, loadFactor: int)
      requires capacity >= 0 && 0 <= loadFactor <= 100
      ensures capacity * loadFactor / 100 <= capacity
    {
      assert capacity * loadFactor <= capacity * 100;
    }

    /** insert: places `(hash, key, val)` by Robin Hood probing, starting at
        the key's home slot, and reports whether it replaced an entry. It
        needs a free slot to stop; the table it leaves is well formed and
        holds the old entries with `key` now mapped to `val`. */
    method Insert(hash: Hash, key: Key, val: Option<V>) returns (overwritten: bool)
      requires Table()
      requires hash == HashKey(sum64, key)
      requires |contents| < capacity
      modifies this`contents, hashes, elems
      ensures Table()
      ensures overwritten == (key in old(contents))
      ensures contents == old(contents)[key := val]
    {
      InsertSettles(sum64, hashes[..], elems[..], contents, key, val);
      AndLowMask(hash, capacity);
      overwritten := ProbeSlots(And(hash, mask), 0, hash, key, val, capacity);
      contents := contents[key := val];
    }

    /** The loop of insert, from slot `pos` with `(h, k, v)` carried at probe
        distance `dist`. Each occupant displaced less than the carried entry
        trades places with it; the loop ends at an empty slot or at the slot
        already holding `k`, whose entry is replaced. */
    method ProbeSlots(pos: int, dist: int, h: Hash, k: Key, v: Option<V>, ghost fuel: nat) returns (overwritten: bool)
      requires hashes.Length == capacity == elems.Length && IsPow2(capacity) && mask == capacity - 1
      requires 0 <= pos < capacity
      requires ProbeFrom(Cursor(hashes[..], elems[..], pos, dist, h, k, v), fuel).Some?
      modifies hashes, elems
      ensures ProbeFrom(Cursor(old(hashes[..]), old(elems[..]), pos, dist, h, k, v), fuel)
              == Some(Inserted(hashes[..], elems[..], overwritten))
    {
      // The loop writes array slots only, so the fields can be read once.
      var hs, es, cap, msk := hashes, elems, capacity, mask;
      ghost var R := ProbeFrom(Cursor(hs[..], es[..], pos, dist, h, k, v), fuel);
      var p, d, ch, ck, cv := pos, dist, h, k, v;
      ghost var f := fuel;
      while true
        invariant 0 <= p < cap
        invariant ProbeFrom(Cursor(hs[..], es[..], p, d, ch, ck, cv), f) == R
        decreases f
      {
        ghost var c := Cursor(hs[..], es[..], p, d, ch, ck, cv);
        if hs[p] == 0 || es[p].key == ck {
          overwritten := hs[p] != 0;
          hs[p] := ch;
          es[p] := HashElem(ck, cv, ch);
          assert hs[..] == c.hashes[p := ch] && es[..] == c.elems[p := HashElem(ck, cv, ch)];
          return;
        }

        var elemDist := Dist(hs[p], p, cap);
        if elemDist < d {
          // Swap with the occupant, which is nearer its home.
          var occupant := es[p];
          ch, hs[p] := hs[p], ch;
          ck, cv, es[p] := occupant.key, occupant.value, occupant.(key := ck, value := cv);
          d := elemDist;
          assert hs[..] == c.hashes[p := c.h] && es[..] == c.elems[p := occupant.(key := c.k, value := c.v)];
        }
        NextSlot(p, cap);
        p := And(p + 1, msk);
        d := d + 1;
        f := f - 1;
        assert Cursor(hs[..], es[..], p, d, ch, ck, cv) == Step(c);
      }
    }

    /** grow: doubles the capacity and reinserts every occupied slot of the
        old arrays into new ones. */
    method Grow()
      requires Table()
      modifies this
      ensures Table() && fresh(hashes) && fresh(elems)
      ensures capacity == 2 * old(capacity) && contents == old(contents)
      ensures n == old(n) && loadFactor == old(loadFactor)
    {
      var oldHashes, oldElems := hashes, elems;
      ghost var M0 := contents;
      DoubleIsPow2(capacity);
      capacity := capacity * 2;
      Alloc();
      Reinsert(oldHashes, oldElems);
      EntriesComplete(oldHashes[..], oldElems[..], M0);
    }

    /** The loop of grow: inserts the entry of each occupied slot of the old
        arrays, in index order, into the empty new table. */
    method Reinsert(oldHashes: array<Hash>, oldElems: array<HashElem<V>>)
      requires Table() && contents == map[]
      requires oldHashes != hashes && oldElems != elems
      requires oldHashes.Length == oldElems.Length < capacity
      requires KeysHashed(sum64, oldHashes[..], oldElems[..]) && UniqueKeys(oldHashes[..], oldElems[..])
      modifies this`contents, hashes, elems
      ensures Table() && contents == Entries(oldHashes[..], oldElems[..], oldHashes.Length)
    {
      ghost var H0, E0 := oldHashes[..], oldElems[..];
      var i := 0;
      while i < oldHashes.Length
        invariant 0 <= i <= oldHashes.Length
        invariant Table() && oldHashes[..] == H0 && oldElems[..] == E0
        invariant contents == Entries(H0, E0, i)
      {
        EntriesNext(H0, E0, i);
        if oldHashes[i] != 0 {
          var el := oldElems[i];
          assert HashedAt(sum64, H0, E0, i);
          var _ := Insert(oldHashes[i], el.key, el.value);
        }
        i := i + 1;
      }
    }

    /** index: the slot holding `key`, or -1. The probe stops at an empty slot
        or at a slot displaced less than the distance probed so far. */
    method Index(key: Key) returns (i: int)
      requires Valid()
      ensures i == -1 <==> key !in contents
      ensures i != -1 ==>
        0 <= i < capacity && hashes[i] != 0 && elems[i].key == key && elems[i].value == contents[key]
    {
      ghost var H, E := hashes[..], elems[..];
      assert |H| == capacity && mask == capacity - 1;
      var hash := HashKey(sum64, key);
      AndLowMask(hash, capacity);
      ghost var home := Home(hash, capacity);
      var pos: int := And(hash, mask);
      var dist := 0;
      while true
        invariant 0 <= dist <= capacity && pos == Fwd(home, dist, capacity)
        invariant Missed(H, E, key, home, dist)
        decreases capacity - dist
      {
        if hashes[pos] == 0 || dist > Dist(hashes[pos], pos, capacity) {
          NotFurther(sum64, H, E, key, pos, dist);
          assert HeldIfIn(H, E, contents, key);
          return -1;
        } else if hashes[pos] == hash && elems[pos].key == key {
          assert StoredAt(H, E, contents, pos);
          return pos;
        }
        ProbePast(sum64, H, E, key, pos, dist);
        NextSlot(pos, capacity);
        assert And(pos + 1, mask) == Fwd(home, dist + 1, capacity);
        pos := And(pos + 1, mask);
        dist := dist + 1;
      }
    }

    /** Elem: the key and value of slot `i`; nil and nil past the end of the
        table and in an empty slot. */
    function Elem(i: int): (kv: (Key, Option<V>))
      requires Valid() && 0 <= i
      reads this, hashes, elems
      ensures i >= capacity || hashes[i] == 0 ==> kv == ([], None)
      ensures i < capacity && hashes[i] != 0 ==> kv.0 in contents && contents[kv.0] == kv.1
    {
      if i >= elems.Length then ([], None)
      else
        assert ZeroAt(hashes[..], elems[..], i) && StoredAt(hashes[..], elems[..], contents, i);
        (elems[i].key, elems[i].value)
    }

    /** Len: the number of keys stored. */
    function Len(): (r: int)
      requires Valid()
      reads this, hashes, elems
      ensures r == |contents|
    {
      n
    }

    /** Cap: the number of slots, a power of two. */
    function Cap(): (r: int)
      requires Valid()
      reads this, hashes, elems
      ensures IsPow2(r) && r >= 2 && r == hashes.Length
    {
      capacity
    }

    /** AverageProbeCount: the mean number of probes a lookup of a stored
        key takes, one more than the mean probe distance. With no entries
        the float division gives NaN, modelled as `None`. */
    method AverageProbeCount() returns (avg: Option<real>)
      requires Valid()
      ensures n == 0 ==> avg == None
      ensures n > 0 ==> avg == Some(TotalDisp(hashes[..]) as real / n as real + 1.0)
      ensures n > 0 ==> 1.0 <= avg.value <= capacity as real
    {
      ghost var H := hashes[..];
      var sum := 0;
      var i := 0;
      while i < capacity
        invariant 0 <= i <= capacity && sum == SumDisp(H, i)
      {
        var hash := hashes[i];
        if hash != 0 {
          sum := sum + Dist(hash, i, capacity);
        }
        i := i + 1;
      }
      if n == 0 {
        return None;
      }
      SumDispBound(H, capacity);
      assert H[..capacity] == H;
      MeanBound(sum, n, capacity);
      return Some(sum as real / n as real + 1.0);
    }

    /** A sum of `n` distances below `capacity` averages below `capacity`. */
    static lemma MeanBound(sum: int, n: int, capacity: int)
      requires n > 0 && capacity >= 1 && 0 <= sum <= n * (capacity - 1)
      ensures 1.0 <= sum as real / n as real + 1.0 <= capacity as real
    {
      var s, m := sum as real, n as real;
      assert s <= m * (capacity - 1) as real;
      assert s / m <= (capacity - 1) as real;
    }

    /** Keys: the keys whose value is not nil, in increasing byte order. */
    method Keys() returns (keys: seq<Key>)
      requires Valid()
      ensures StrictlyIncreasing(keys)
      ensures forall x :: x in keys <==> x in contents && contents[x].Some?
    {
      var a: seq<Key> := [];
      var i := 0;
      while i < Cap()
        invariant 0 <= i <= capacity && a == LiveKeys(elems[..i])
      {
        var kv := Elem(i);
        assert elems[..i + 1][..i] == elems[..i];
        if kv.1.Some? {
          a := a + [kv.0];
        }
        i := i + 1;
      }
      assert elems[..i] == elems[..];
      LiveKeysOf(hashes[..], elems[..], contents);
      keys := SortKeys(a);
      assert forall x :: x in keys <==> x in multiset(keys);
      OrderedUniqueIsStrict(keys);
    }
  }

  /** Puts `key` twice into one map, then reads it back: the value read is
      the second one, and the key is counted once. */
  method PutTwiceThenGet<V>(m: HashMap<V>, key: Key, v1: Option<V>, v2: Option<V>) returns (got: Option<V>)
    requires m.Valid()
    modifies m, m.hashes, m.elems
    ensures m.Valid() && got == v2
    ensures m.contents == old(m.contents)[key := v2]
    ensures m.Len() == old(m.Len()) + (if key in old(m.contents) then 0 else 1)
  {
    m.Put(key, v1);
    m.Put(key, v2);
    got := m.Get(key);
  }
}

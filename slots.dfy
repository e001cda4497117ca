/** The slot table of the Robin Hood hash map in pkg/rhh/rhh.go, as values:
    the parallel `hashes` and `elems` arrays seen as sequences, probe
    distances on the ring of slots, and the invariants that the map's
    operations keep. */
module Slots {
  import opened Bits

  newtype byte = x: int | 0 <= x < 256

  /** A key is a byte string. */
  type Key = seq<byte>

  /** Go's uint64. */
  type Hash = h: int | 0 <= h < 0x1_0000_0000_0000_0000

  /** `None` stands for Go's nil value. */
  datatype Option<T> = None | Some(value: T)

  /** One slot of `elems`. `hash` is a cached copy that the map never reads;
      the `hashes` array is the authoritative one. */
  datatype HashElem<V> = HashElem(key: Key, value: Option<V>, hash: Hash)

  /** The zero `hashElem`: what an empty slot holds. */
  function EmptyElem<V>(): HashElem<V>
  {
    HashElem([], None, 0)
  }

  /** HashKey: the raw 64-bit hash `sum64(key)`, with 0 remapped to 1 so that
      0 can mark an empty slot. */
  function HashKey(sum64: Key -> Hash, key: Key): (h: Hash)
    ensures h != 0
    ensures h == sum64(key) || sum64(key) == 0
  {
    if sum64(key) == 0 then 1 else sum64(key)
  }

  // ---------------------------------------------------------------------
  // Positions on a ring of `cap` slots

  /** The home slot of a hash: where its probe sequence starts. */
  function Home(h: Hash, cap: int): (i: int)
    requires cap > 0
    ensures 0 <= i < cap
  {
    h % cap
  }

  /** The slot `d` steps forward from `from`, wrapping around. */
  function Fwd(from: int, d: int, cap: int): (i: int)
    requires 0 <= from < cap && 0 <= d <= cap
    ensures 0 <= i < cap
  {
    if from + d < cap then from + d else from + d - cap
  }

  /** The slot `t` steps back from `i`, wrapping around. */
  function Back(i: int, t: int, cap: int): (j: int)
    requires 0 <= i < cap && 0 <= t <= cap
    ensures 0 <= j < cap && Fwd(j, t, cap) == i
  {
    if t <= i then i - t else i + cap - t
  }

  /** The slot before `i`. */
  function Prev(i: int, cap: int): (j: int)
    requires 0 <= i < cap
    ensures 0 <= j < cap && Fwd(j, 1, cap) == i
  {
    if i == 0 then cap - 1 else i - 1
  }

  /** The number of forward steps from `from` to `to`. */
  function Gap(from: int, to: int, cap: int): (d: int)
    requires 0 <= from < cap && 0 <= to < cap
    ensures 0 <= d < cap && Fwd(from, d, cap) == to
  {
    if from <= to then to - from else to + cap - from
  }

  /** `x & (m - 1)` for `x < 2m` is `x` folded once into `[0, m)`. */
  lemma MaskFolds(x: nat, m: int)
    requires IsPow2(m) && x < 2 * m
    ensures And(x, m - 1) == if x < m then x else x - m
  {
    AndLowMask(x, m);
    if x < m {
      ModUnique(x, m, 0, x);
    } else {
      ModUnique(x, m, 1, x - m);
    }
  }

  /** `(pos + 1) & mask`: the next slot, wrapping around. */
  lemma NextSlot(pos: int, cap: int)
    requires IsPow2(cap) && 0 <= pos < cap
    ensures And(pos + 1, cap - 1) == Fwd(pos, 1, cap)
  {
    MaskFolds(pos + 1, cap);
  }

  /** Dist: the probe distance of a slot `i` holding `hash`, computed with
      the mask as the source does; it is the forward gap from the hash's
      home slot to `i`. */
  function Dist(hash: Hash, i: int, capacity: int): (d: int)
    requires IsPow2(capacity) && 0 <= i < capacity
    ensures 0 <= d < capacity
    ensures d == Gap(Home(hash, capacity), i, capacity)
    ensures Fwd(Home(hash, capacity), d, capacity) == i
  {
    var mask := capacity - 1;
    AndLowMask(hash, capacity);
    var home := And(hash, mask);
    MaskFolds(i + capacity - home, capacity);
    And(i + capacity - home, mask)
  }

  /** A hash sits at distance 0 in its own home slot, `hash & mask`. */
  lemma DistAtHome(hash: Hash, capacity: int)
    requires IsPow2(capacity)
    ensures And(hash, capacity - 1) < capacity
    ensures Dist(hash, And(hash, capacity - 1), capacity) == 0
  {
    AndLowMask(hash, capacity);
  }

  // ---------------------------------------------------------------------
  // The table as sequences

  /** Probe distance of occupied slot `i` of `H`. */
  ghost function Disp(H: seq<Hash>, i: int): int
    requires 0 <= i < |H|
  {
    Gap(Home(H[i], |H|), i, |H|)
  }

  /** Number of occupied slots. */
  ghost function Occupied(H: seq<Hash>): (c: nat)
    ensures c <= |H|
  {
    if H == [] then 0 else Occupied(H[..|H| - 1]) + (if H[|H| - 1] != 0 then 1 else 0)
  }

  /** The Robin Hood condition at slot `i`: if it is occupied and displaced
      from its home, the slot before it is occupied and displaced by at least
      one less. */
  ghost predicate SlotInOrder(H: seq<Hash>, i: int)
    requires 0 <= i < |H|
  {
    H[i] != 0 && Disp(H, i) > 0 ==>
      H[Prev(i, |H|)] != 0 && Disp(H, Prev(i, |H|)) >= Disp(H, i) - 1
  }

  /** The Robin Hood invariant: the condition holds at every slot. */
  ghost predicate RobinHood(H: seq<Hash>)
  {
    |H| > 0 && forall i :: 0 <= i < |H| ==> SlotInOrder(H, i)
  }

  /** Every occupied slot's hash is the hash of its key. */
  ghost predicate KeysHashed<V>(sum64: Key -> Hash, H: seq<Hash>, E: seq<HashElem<V>>)
  {
    |H| == |E| &&
    forall i :: 0 <= i < |H| ==> HashedAt(sum64, H, E, i)
  }

  /** Slot `i`, if occupied, holds the hash of its key. */
  ghost predicate HashedAt<V>(sum64: Key -> Hash, H: seq<Hash>, E: seq<HashElem<V>>, i: int)
    requires 0 <= i < |H| == |E|
  {
    H[i] != 0 ==> H[i] == HashKey(sum64, E[i].key)
  }

  /** No two occupied slots hold equal keys. */
  ghost predicate UniqueKeys<V>(H: seq<Hash>, E: seq<HashElem<V>>)
  {
    |H| == |E| &&
    forall i, j :: 0 <= i < |H| && 0 <= j < |H| ==> DistinctAt(H, E, i, j)
  }

  /** Slots `i` and `j`, if different and both occupied, hold different keys. */
  ghost predicate DistinctAt<V>(H: seq<Hash>, E: seq<HashElem<V>>, i: int, j: int)
    requires 0 <= i < |H| == |E| && 0 <= j < |H|
  {
    i != j && H[i] != 0 && H[j] != 0 ==> E[i].key != E[j].key
  }

  /** Empty slots hold the zero element. */
  ghost predicate EmptyAreZero<V>(H: seq<Hash>, E: seq<HashElem<V>>)
  {
    |H| == |E| &&
    forall i :: 0 <= i < |H| ==> ZeroAt(H, E, i)
  }

  /** Slot `i`, if empty, holds the zero element. */
  ghost predicate ZeroAt<V>(H: seq<Hash>, E: seq<HashElem<V>>, i: int)
    requires 0 <= i < |H| == |E|
  {
    H[i] == 0 ==> E[i] == EmptyElem()
  }

  /** Some occupied slot holds `key`. */
  ghost predicate Holds<V>(H: seq<Hash>, E: seq<HashElem<V>>, key: Key)
  {
    exists i :: 0 <= i < |H| && i < |E| && H[i] != 0 && E[i].key == key
  }

  /** The occupied slots hold exactly the entries of `M`. */
  ghost predicate Represents<V>(H: seq<Hash>, E: seq<HashElem<V>>, M: map<Key, Option<V>>)
  {
    |H| == |E| &&
    (forall i :: 0 <= i < |H| ==> StoredAt(H, E, M, i)) &&
    (forall key :: HeldIfIn(H, E, M, key))
  }

  /** Slot `i`, if occupied, holds an entry of `M`. */
  ghost predicate StoredAt<V>(H: seq<Hash>, E: seq<HashElem<V>>, M: map<Key, Option<V>>, i: int)
    requires 0 <= i < |H| == |E|
  {
    H[i] != 0 ==> E[i].key in M && M[E[i].key] == E[i].value
  }

  /** If `key` is in `M`, some slot holds it. */
  ghost predicate HeldIfIn<V>(H: seq<Hash>, E: seq<HashElem<V>>, M: map<Key, Option<V>>, key: Key)
  {
    key in M ==> Holds(H, E, key)
  }

  /** Everything the map keeps true of its slots and abstract contents. */
  ghost predicate WellFormed<V>(sum64: Key -> Hash, H: seq<Hash>, E: seq<HashElem<V>>, M: map<Key, Option<V>>)
  {
    RobinHood(H) && KeysHashed(sum64, H, E) && UniqueKeys(H, E) &&
    EmptyAreZero(H, E) && Represents(H, E, M) && Occupied(H) == |M|
  }

  // ---------------------------------------------------------------------
  // Counting occupied slots

  /** Writing one slot changes the count by what was there and what is put. */
  lemma {:induction false} OccupiedUpdate(H: seq<Hash>, p: int, x: Hash)
    requires 0 <= p < |H|
    ensures Occupied(H[p := x]) ==
      Occupied(H) - (if H[p] != 0 then 1 else 0) + (if x != 0 then 1 else 0)
    decreases |H|
  {
    var last := |H| - 1;
    if p == last {
      assert H[p := x][..last] == H[..last];
    } else {
      assert H[p := x][..last] == H[..last][p := x];
      OccupiedUpdate(H[..last], p, x);
    }
  }

  /** Fewer occupied slots than slots means some slot is empty. */
  lemma {:induction false} EmptySlotExists(H: seq<Hash>)
    requires Occupied(H) < |H|
    ensures exists e :: 0 <= e < |H| && H[e] == 0
    decreases |H|
  {
    var last := |H| - 1;
    if H[last] != 0 {
      EmptySlotExists(H[..last]);
      var e :| 0 <= e < last && H[..last][e] == 0;
      assert H[e] == 0;
    }
  }

  /** A table of empty slots counts none. */
  lemma {:induction false} OccupiedNone(H: seq<Hash>)
    requires forall i :: 0 <= i < |H| ==> H[i] == 0
    ensures Occupied(H) == 0
    decreases |H|
  {
    if H != [] {
      OccupiedNone(H[..|H| - 1]);
    }
  }

  /** A freshly allocated table represents the empty map. */
  lemma EmptyTable<V>(sum64: Key -> Hash, H: seq<Hash>, E: seq<HashElem<V>>)
    requires |H| == |E| > 0
    requires forall i :: 0 <= i < |H| ==> H[i] == 0 && E[i] == EmptyElem()
    ensures WellFormed(sum64, H, E, map[])
  {
    OccupiedNone(H);
  }

  // ---------------------------------------------------------------------
  // Consequences of the Robin Hood invariant

  /** Walking back from an occupied slot with distance `d`, the `t <= d`
      slots passed are occupied and displaced by at least `d - t`. */
  lemma {:induction false} RunBefore(H: seq<Hash>, j: int, t: int)
    requires RobinHood(H) && 0 <= j < |H| && H[j] != 0 && 0 <= t <= Disp(H, j)
    ensures H[Back(j, t, |H|)] != 0 && Disp(H, Back(j, t, |H|)) >= Disp(H, j) - t
    decreases t
  {
    if t > 0 {
      RunBefore(H, j, t - 1);
      var b := Back(j, t - 1, |H|);
      assert SlotInOrder(H, b);
      assert Prev(b, |H|) == Back(j, t, |H|);
    }
  }

  /** No slot less than `dist` steps from `home` holds `key`. */
  ghost predicate Missed<V>(H: seq<Hash>, E: seq<HashElem<V>>, key: Key, home: int, dist: int)
    requires |H| == |E| && 0 <= home < |H|
  {
    forall j :: 0 <= j < |H| && Gap(home, j, |H|) < dist ==> H[j] == 0 || E[j].key != key
  }

  /** The early exit of a probe for `key`: when the slots at distance below
      `dist` from the key's home do not hold it, and the slot at distance
      `dist` is empty or less displaced than `dist`, no slot holds `key`. */
  lemma NotFurther<V>(sum64: Key -> Hash, H: seq<Hash>, E: seq<HashElem<V>>, key: Key, pos: int, dist: int)
    requires RobinHood(H) && KeysHashed(sum64, H, E)
    requires 0 <= dist <= |H| && pos == Fwd(Home(HashKey(sum64, key), |H|), dist, |H|)
    requires Missed(H, E, key, Home(HashKey(sum64, key), |H|), dist)
    requires H[pos] == 0 || Disp(H, pos) < dist
    ensures !Holds(H, E, key)
  {
    var home := Home(HashKey(sum64, key), |H|);
    forall s | 0 <= s < |H| && H[s] != 0 && E[s].key == key
      ensures false
    {
      var ds := Disp(H, s);
      assert HashedAt(sum64, H, E, s);
      assert ds == Gap(home, s, |H|);
      if ds < dist {
        assert false;
      } else {
        assert pos == Back(s, ds - dist, |H|);
        RunBefore(H, s, ds - dist);
        assert false;
      }
    }
  }

  /** One step of a probe for `key` past slot `pos`, which does not hold it:
      the next slot is one further from home, and the slots passed still do
      not hold the key. */
  lemma ProbePast<V>(sum64: Key -> Hash, H: seq<Hash>, E: seq<HashElem<V>>, key: Key, pos: int, dist: int)
    requires KeysHashed(sum64, H, E) && 0 <= dist < |H|
    requires pos == Fwd(Home(HashKey(sum64, key), |H|), dist, |H|)
    requires Missed(H, E, key, Home(HashKey(sum64, key), |H|), dist)
    requires H[pos] == 0 || H[pos] != HashKey(sum64, key) || E[pos].key != key
    ensures Fwd(pos, 1, |H|) == Fwd(Home(HashKey(sum64, key), |H|), dist + 1, |H|)
    ensures Missed(H, E, key, Home(HashKey(sum64, key), |H|), dist + 1)
  {
    var home := Home(HashKey(sum64, key), |H|);
    forall j | 0 <= j < |H| && Gap(home, j, |H|) < dist + 1
      ensures H[j] == 0 || E[j].key != key
    {
      if Gap(home, j, |H|) == dist {
        assert j == pos && HashedAt(sum64, H, E, pos);
      }
    }
  }

  /** An item carried `d` steps past the occupied slot `p` (which is displaced
      by at least `d - 1`) cannot have gone round the whole table while some
      slot `e` is empty. */
  lemma CarryBound(H: seq<Hash>, p: int, d: int, e: int)
    requires RobinHood(H) && 0 <= p < |H| && H[p] != 0
    requires 1 <= d && Disp(H, p) >= d - 1
    requires 0 <= e < |H| && H[e] == 0
    ensures d < |H|
  {
    if d >= |H| {
      var t := Gap(e, p, |H|);
      assert Back(p, t, |H|) == e;
      RunBefore(H, p, t);
      assert false;
    }
  }

  /** Putting hash `h`, displaced by `dist`, at slot `pos` keeps the invariant
      when `pos` was empty or held a less displaced hash, provided the slot
      before `pos` is displaced by at least `dist - 1`. */
  lemma PlaceKeepsRobinHood(H: seq<Hash>, pos: int, h: Hash, dist: int)
    requires RobinHood(H) && 0 <= pos < |H| && h != 0
    requires Gap(Home(h, |H|), pos, |H|) == dist
    requires H[pos] == 0 || Disp(H, pos) < dist
    requires dist > 0 ==> H[Prev(pos, |H|)] != 0 && Disp(H, Prev(pos, |H|)) >= dist - 1
    ensures RobinHood(H[pos := h])
  {
    var H' := H[pos := h];
    forall i | 0 <= i < |H'|
      ensures SlotInOrder(H', i)
    {
      if i != pos {
        assert SlotInOrder(H, i);
        assert Disp(H', i) == Disp(H, i);
        if Prev(i, |H|) != pos {
          assert Disp(H', Prev(i, |H|)) == Disp(H, Prev(i, |H|));
        }
      }
    }
  }

  // ---------------------------------------------------------------------
  // What the slots hold

  /** Writing a slot with a hashed key keeps hashes and empty slots right. */
  lemma WriteSlot<V>(sum64: Key -> Hash, H: seq<Hash>, E: seq<HashElem<V>>, pos: int, h: Hash, el: HashElem<V>)
    requires KeysHashed(sum64, H, E) && EmptyAreZero(H, E) && 0 <= pos < |H|
    requires h != 0 && h == HashKey(sum64, el.key)
    ensures KeysHashed(sum64, H[pos := h], E[pos := el])
    ensures EmptyAreZero(H[pos := h], E[pos := el])
  {
    var H', E' := H[pos := h], E[pos := el];
    forall i | 0 <= i < |H'|
      ensures HashedAt(sum64, H', E', i) && ZeroAt(H', E', i)
    {
      if i != pos {
        assert HashedAt(sum64, H, E, i) && ZeroAt(H, E, i);
      }
    }
  }

  /** The carried entry `(k, v)` of `M`, absent from the slots, is placed in
      the empty slot `pos`: the slots then hold all of `M`. */
  lemma PlaceInEmpty<V>(H: seq<Hash>, E: seq<HashElem<V>>, M: map<Key, Option<V>>, h: Hash, k: Key, v: Option<V>, pos: int)
    requires Represents(H, E, M - {k}) && UniqueKeys(H, E) && k in M && M[k] == v
    requires 0 <= pos < |H| && H[pos] == 0 && h != 0
    ensures Represents(H[pos := h], E[pos := HashElem(k, v, h)], M)
    ensures UniqueKeys(H[pos := h], E[pos := HashElem(k, v, h)])
  {
    var H', E' := H[pos := h], E[pos := HashElem(k, v, h)];
    forall i | 0 <= i < |H'|
      ensures StoredAt(H', E', M, i)
    {
      if i != pos {
        assert StoredAt(H, E, M - {k}, i);
      }
    }
    forall key
      ensures HeldIfIn(H', E', M, key)
    {
      if key == k {
        assert H'[pos] != 0 && E'[pos].key == key;
      } else if key in M {
        assert HeldIfIn(H, E, M - {k}, key);
        var i :| 0 <= i < |H| && i < |E| && H[i] != 0 && E[i].key == key;
        assert H'[i] != 0 && E'[i].key == key;
      }
    }
    forall i, j | 0 <= i < |H'| && 0 <= j < |H'|
      ensures DistinctAt(H', E', i, j)
    {
      if i != pos && j != pos {
        assert DistinctAt(H, E, i, j);
      } else if i != pos {
        assert StoredAt(H, E, M - {k}, i);
      } else if j != pos {
        assert StoredAt(H, E, M - {k}, j);
      }
    }
  }

  /** Swapping the carried entry `(k, v)` into occupied slot `pos`: the
      occupant becomes the carried entry, and the slots hold everything of
      `M` but it. */
  lemma SwapCarried<V>(H: seq<Hash>, E: seq<HashElem<V>>, M: map<Key, Option<V>>, h: Hash, k: Key, v: Option<V>, pos: int)
    requires Represents(H, E, M - {k}) && UniqueKeys(H, E) && k in M && M[k] == v
    requires 0 <= pos < |H| && H[pos] != 0 && h != 0
    ensures E[pos].key in M && M[E[pos].key] == E[pos].value && E[pos].key != k
    ensures Represents(H[pos := h], E[pos := E[pos].(key := k, value := v)], M - {E[pos].key})
    ensures UniqueKeys(H[pos := h], E[pos := E[pos].(key := k, value := v)])
  {
    var k1 := E[pos].key;
    var H', E' := H[pos := h], E[pos := E[pos].(key := k, value := v)];
    assert StoredAt(H, E, M - {k}, pos);
    forall i | 0 <= i < |H'|
      ensures StoredAt(H', E', M - {k1}, i)
    {
      if i != pos {
        assert StoredAt(H, E, M - {k}, i) && DistinctAt(H, E, i, pos);
      }
    }
    forall key
      ensures HeldIfIn(H', E', M - {k1}, key)
    {
      if key == k {
        assert H'[pos] != 0 && E'[pos].key == key;
      } else if key in M - {k1} {
        assert HeldIfIn(H, E, M - {k}, key);
        var i :| 0 <= i < |H| && i < |E| && H[i] != 0 && E[i].key == key;
        assert H'[i] != 0 && E'[i].key == key;
      }
    }
    forall i, j | 0 <= i < |H'| && 0 <= j < |H'|
      ensures DistinctAt(H', E', i, j)
    {
      if i != pos && j != pos {
        assert DistinctAt(H, E, i, j);
      } else if i != pos {
        assert StoredAt(H, E, M - {k}, i);
      } else if j != pos {
        assert StoredAt(H, E, M - {k}, j);
      }
    }
  }

  /** Overwriting the value of the slot `pos` that holds `k`. */
  lemma Overwrite<V>(H: seq<Hash>, E: seq<HashElem<V>>, M: map<Key, Option<V>>, h: Hash, k: Key, v: Option<V>, pos: int)
    requires Represents(H, E, M) && UniqueKeys(H, E)
    requires 0 <= pos < |H| && H[pos] != 0 && E[pos].key == k
    ensures k in M
    ensures Represents(H, E[pos := HashElem(k, v, h)], M[k := v])
    ensures UniqueKeys(H, E[pos := HashElem(k, v, h)])
  {
    var E', M' := E[pos := HashElem(k, v, h)], M[k := v];
    assert StoredAt(H, E, M, pos);
    forall i | 0 <= i < |H|
      ensures StoredAt(H, E', M', i)
    {
      if i != pos {
        assert StoredAt(H, E, M, i) && DistinctAt(H, E, i, pos);
      }
    }
    forall key
      ensures HeldIfIn(H, E', M', key)
    {
      if key == k {
        assert H[pos] != 0 && E'[pos].key == key;
      } else if key in M {
        assert HeldIfIn(H, E, M, key);
        var i :| 0 <= i < |H| && i < |E| && H[i] != 0 && E[i].key == key;
        assert H[i] != 0 && E'[i].key == key;
      }
    }
    forall i, j | 0 <= i < |H| && 0 <= j < |H|
      ensures DistinctAt(H, E', i, j)
    {
      assert DistinctAt(H, E, i, j);
    }
  }
}

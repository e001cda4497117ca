/** The two phases of `insert`'s probe loop in pkg/rhh/rhh.go, as states of
    the slot sequences, and the steps between them. Before the first swap
    the loop is still looking for its own key; after it, the loop carries an
    entry of the map that is in no slot. */
module Probe {
  import opened Slots

  /** The slot before `pos` is occupied and displaced by at least `dist - 1`:
      what reaching `pos` at distance `dist` leaves behind. */
  ghost predicate PrevInOrder(H: seq<Hash>, pos: int, dist: int)
    requires 0 <= pos < |H|
  {
    dist > 0 ==> H[Prev(pos, |H|)] != 0 && Disp(H, Prev(pos, |H|)) >= dist - 1
  }

  /** The probe for hash `h` has reached slot `pos`, `dist` steps from the
      hash's home, past slots displaced at least as far. */
  ghost predicate Reached(H: seq<Hash>, h: Hash, pos: int, dist: int)
  {
    0 <= pos < |H| && Gap(Home(h, |H|), pos, |H|) == dist && PrevInOrder(H, pos, dist)
  }

  /** Looking for `key` in the well-formed table for `M`: `pos` lies `dist`
      steps from the key's home and the slots passed do not hold it. */
  ghost predicate Probing<V>(sum64: Key -> Hash, H: seq<Hash>, E: seq<HashElem<V>>, M: map<Key, Option<V>>,
                             key: Key, pos: int, dist: int)
  {
    WellFormed(sum64, H, E, M) && Reached(H, HashKey(sum64, key), pos, dist) &&
    Missed(H, E, key, Home(HashKey(sum64, key), |H|), dist)
  }

  /** The slots hold all of `T` but the entry `(k, v)`, whose hash is `h`. */
  ghost predicate Holding<V>(sum64: Key -> Hash, H: seq<Hash>, E: seq<HashElem<V>>, T: map<Key, Option<V>>,
                             h: Hash, k: Key, v: Option<V>)
  {
    RobinHood(H) && KeysHashed(sum64, H, E) && UniqueKeys(H, E) && EmptyAreZero(H, E) &&
    h == HashKey(sum64, k) && k in T && T[k] == v && Represents(H, E, T - {k}) && Occupied(H) + 1 == |T|
  }

  /** Carrying the entry `(k, v)` of `T`, with hash `h`, at slot `pos`,
      `dist` steps from its home: the slots hold the rest of `T`. */
  ghost predicate Carrying<V>(sum64: Key -> Hash, H: seq<Hash>, E: seq<HashElem<V>>, T: map<Key, Option<V>>,
                              h: Hash, k: Key, v: Option<V>, pos: int, dist: int)
  {
    Holding(sum64, H, E, T, h, k, v) && Reached(H, h, pos, dist)
  }

  /** The probe starts at the key's home slot. */
  lemma StartProbe<V>(sum64: Key -> Hash, H: seq<Hash>, E: seq<HashElem<V>>, M: map<Key, Option<V>>, key: Key)
    requires WellFormed(sum64, H, E, M)
    ensures Probing(sum64, H, E, M, key, Home(HashKey(sum64, key), |H|), 0)
  {
  }

  /** A probe that meets an empty slot or a less displaced entry before its
      key has shown the key absent; from then on it carries the new entry. */
  lemma StartCarrying<V>(sum64: Key -> Hash, H: seq<Hash>, E: seq<HashElem<V>>, M: map<Key, Option<V>>,
                         key: Key, val: Option<V>, pos: int, dist: int)
    requires Probing(sum64, H, E, M, key, pos, dist)
    requires H[pos] == 0 || Disp(H, pos) < dist
    ensures key !in M
    ensures Carrying(sum64, H, E, M[key := val], HashKey(sum64, key), key, val, pos, dist)
  {
    NotFurther(sum64, H, E, key, pos, dist);
    assert HeldIfIn(H, E, M, key);
    assert M[key := val] - {key} == M;
    assert M[key := val].Keys == M.Keys + {key};
  }

  /** The probe passes a slot that is occupied by another key displaced at
      least as far as the probe: the invariant moves one slot on, and the
      probe is one step nearer the empty slot `e`. */
  lemma ProbeOn<V>(sum64: Key -> Hash, H: seq<Hash>, E: seq<HashElem<V>>, M: map<Key, Option<V>>,
                   key: Key, pos: int, dist: int, e: int)
    requires Probing(sum64, H, E, M, key, pos, dist)
    requires H[pos] != 0 && E[pos].key != key && Disp(H, pos) >= dist
    requires 0 <= e < |H| && H[e] == 0
    ensures Probing(sum64, H, E, M, key, Fwd(pos, 1, |H|), dist + 1)
    ensures Gap(Fwd(pos, 1, |H|), e, |H|) < Gap(pos, e, |H|)
  {
    CarryBound(H, pos, dist + 1, e);
    ProbePast(sum64, H, E, key, pos, dist);
  }

  /** The carried entry, absent from the slots, is not the occupant of any. */
  lemma CarriedNotStored<V>(sum64: Key -> Hash, H: seq<Hash>, E: seq<HashElem<V>>, T: map<Key, Option<V>>,
                            h: Hash, k: Key, v: Option<V>, pos: int, dist: int)
    requires |E| == |H| && Carrying(sum64, H, E, T, h, k, v, pos, dist) && H[pos] != 0
    ensures E[pos].key != k
  {
    assert StoredAt(H, E, T - {k}, pos);
  }

  /** The probe finds its own key at `pos`: overwriting the slot's entry
      stores `val` under it, and the slot's hash is already the key's. */
  lemma Replace<V>(sum64: Key -> Hash, H: seq<Hash>, E: seq<HashElem<V>>, M: map<Key, Option<V>>,
                   key: Key, val: Option<V>, pos: int, dist: int)
    requires Probing(sum64, H, E, M, key, pos, dist)
    requires H[pos] != 0 && E[pos].key == key
    ensures key in M && H[pos] == HashKey(sum64, key)
    ensures WellFormed(sum64, H, E[pos := HashElem(key, val, H[pos])], M[key := val])
  {
    var h := H[pos];
    assert HashedAt(sum64, H, E, pos);
    Overwrite(H, E, M, h, key, val, pos);
    WriteSlot(sum64, H, E, pos, h, HashElem(key, val, h));
    assert H[pos := h] == H;
    assert M[key := val].Keys == M.Keys;
  }

  /** The carried entry goes into the empty slot `pos`: the slots then hold
      all of `T`. */
  lemma Fill<V>(sum64: Key -> Hash, H: seq<Hash>, E: seq<HashElem<V>>, T: map<Key, Option<V>>,
                h: Hash, k: Key, v: Option<V>, pos: int, dist: int)
    requires Carrying(sum64, H, E, T, h, k, v, pos, dist) && H[pos] == 0
    ensures WellFormed(sum64, H[pos := h], E[pos := HashElem(k, v, h)], T)
  {
    PlaceKeepsRobinHood(H, pos, h, dist);
    PlaceInEmpty(H, E, T, h, k, v, pos);
    WriteSlot(sum64, H, E, pos, h, HashElem(k, v, h));
    OccupiedUpdate(H, pos, h);
  }

  /** The carried entry displaces the occupant of `pos`, which is less far
      from its home: the occupant is carried on from there, and the slot is
      left more displaced than the occupant was. */
  lemma Swap<V>(sum64: Key -> Hash, H: seq<Hash>, E: seq<HashElem<V>>, T: map<Key, Option<V>>,
                h: Hash, k: Key, v: Option<V>, pos: int, dist: int)
    requires Carrying(sum64, H, E, T, h, k, v, pos, dist)
    requires H[pos] != 0 && Disp(H, pos) < dist
    ensures Carrying(sum64, H[pos := h], E[pos := E[pos].(key := k, value := v)], T,
                     H[pos], E[pos].key, E[pos].value, pos, Disp(H, pos))
    ensures Disp(H[pos := h], pos) >= Disp(H, pos)
  {
    var H', E' := H[pos := h], E[pos := E[pos].(key := k, value := v)];
    assert HashedAt(sum64, H, E, pos);
    PlaceKeepsRobinHood(H, pos, h, dist);
    SwapCarried(H, E, T, h, k, v, pos);
    WriteSlot(sum64, H, E, pos, h, E'[pos]);
    OccupiedUpdate(H, pos, h);
    var k1 := E[pos].key;
    assert T - {k1} - {k} == T - {k} - {k1};
    assert (T - {k1}).Keys + {k1} == T.Keys;
    if dist > 1 {
      assert Prev(pos, |H|) != pos;
    }
  }

  /** The carried entry passes a slot displaced at least as far as itself:
      the invariant moves one slot on, and the probe is one step nearer the
      empty slot `e`. */
  lemma CarryOn<V>(sum64: Key -> Hash, H: seq<Hash>, E: seq<HashElem<V>>, T: map<Key, Option<V>>,
                   h: Hash, k: Key, v: Option<V>, pos: int, dist: int, e: int)
    requires Carrying(sum64, H, E, T, h, k, v, pos, dist)
    requires H[pos] != 0 && Disp(H, pos) >= dist
    requires 0 <= e < |H| && H[e] == 0
    ensures Carrying(sum64, H, E, T, h, k, v, Fwd(pos, 1, |H|), dist + 1)
    ensures Gap(Fwd(pos, 1, |H|), e, |H|) < Gap(pos, e, |H|)
  {
    CarryBound(H, pos, dist + 1, e);
  }

  // ---------------------------------------------------------------------
  // The insert loop on values

  /** The state of `insert`'s loop: the slots, the slot `pos` it is at, the
      probe distance `dist` there, and the entry `(h, k, v)` it carries. */
  datatype Cursor<V> = Cursor(hashes: seq<Hash>, elems: seq<HashElem<V>>, pos: int, dist: int,
                              h: Hash, k: Key, v: Option<V>)

  /** The two slot sequences are parallel and `pos` is one of the slots. */
  ghost predicate InRange<V>(c: Cursor<V>)
  {
    |c.hashes| == |c.elems| && 0 <= c.pos < |c.hashes|
  }

  /** One pass of the loop past the occupied slot `pos`: when its occupant is
      displaced less than `dist`, the carried entry takes the slot and the
      occupant is carried on; either way the loop moves to the next slot. */
  ghost function Step<V>(c: Cursor<V>): (n: Cursor<V>)
    requires InRange(c)
    ensures InRange(n) && |n.hashes| == |c.hashes|
  {
    var H, E, pos := c.hashes, c.elems, c.pos;
    var elemDist := Disp(H, pos);
    var next := Fwd(pos, 1, |H|);
    if elemDist < c.dist then
      Cursor(H[pos := c.h], E[pos := E[pos].(key := c.k, value := c.v)], next, elemDist + 1,
             H[pos], E[pos].key, E[pos].value)
    else
      c.(pos := next, dist := c.dist + 1)
  }

  /** What `insert` leaves: the slot arrays, and whether it overwrote. */
  datatype Inserted<V> = Inserted(hashes: seq<Hash>, elems: seq<HashElem<V>>, overwritten: bool)

  /** The loop of `insert` run from `c` for at most `fuel` slots (`None`
      when it runs out): it stops at an empty slot or at the slot holding
      the carried key, and writes the carried entry there. */
  ghost function ProbeFrom<V>(c: Cursor<V>, fuel: nat): (r: Option<Inserted<V>>)
    requires InRange(c)
    ensures r.Some? ==> |r.value.hashes| == |r.value.elems| == |c.hashes|
    decreases fuel
  {
    if fuel == 0 then None
    else if c.hashes[c.pos] == 0 || c.elems[c.pos].key == c.k then
      Some(Inserted(c.hashes[c.pos := c.h], c.elems[c.pos := HashElem(c.k, c.v, c.h)], c.hashes[c.pos] != 0))
    else ProbeFrom(Step(c), fuel - 1)
  }

  /** `r` is a finished insert that leaves a well-formed table for `T`. */
  ghost predicate Stores<V>(sum64: Key -> Hash, r: Option<Inserted<V>>, T: map<Key, Option<V>>, overwritten: bool)
  {
    r.Some? && WellFormed(sum64, r.value.hashes, r.value.elems, T) && r.value.overwritten == overwritten
  }

  /** Carrying an entry of `T` past an occupied slot keeps carrying it, one
      step nearer the empty slot `e`. */
  lemma CarryStep<V>(sum64: Key -> Hash, T: map<Key, Option<V>>, c: Cursor<V>, e: int)
    requires InRange(c) && Carrying(sum64, c.hashes, c.elems, T, c.h, c.k, c.v, c.pos, c.dist)
    requires c.hashes[c.pos] != 0 && 0 <= e < |c.hashes| && c.hashes[e] == 0
    ensures var n := Step(c); Carrying(sum64, n.hashes, n.elems, T, n.h, n.k, n.v, n.pos, n.dist)
    ensures var n := Step(c); n.hashes[e] == 0 && Gap(n.pos, e, |n.hashes|) < Gap(c.pos, e, |c.hashes|)
  {
    var H, E, pos := c.hashes, c.elems, c.pos;
    if Disp(H, pos) < c.dist {
      var H', E' := H[pos := c.h], E[pos := E[pos].(key := c.k, value := c.v)];
      Swap(sum64, H, E, T, c.h, c.k, c.v, pos, c.dist);
      CarryOn(sum64, H', E', T, H[pos], E[pos].key, E[pos].value, pos, Disp(H, pos), e);
      assert Step(c) == Cursor(H', E', Fwd(pos, 1, |H|), Disp(H, pos) + 1, H[pos], E[pos].key, E[pos].value);
    } else {
      CarryOn(sum64, H, E, T, c.h, c.k, c.v, pos, c.dist, e);
      assert Step(c) == c.(pos := Fwd(pos, 1, |H|), dist := c.dist + 1);
    }
  }

  /** Carrying an entry of `T` with more fuel than slots before the empty
      slot `e`, the loop ends by filling an empty slot, and the table it
      leaves is well formed for `T`. */
  lemma {:induction false} CarryingSettles<V>(sum64: Key -> Hash, T: map<Key, Option<V>>, c: Cursor<V>, e: int, fuel: nat)
    requires InRange(c) && Carrying(sum64, c.hashes, c.elems, T, c.h, c.k, c.v, c.pos, c.dist)
    requires 0 <= e < |c.hashes| && c.hashes[e] == 0 && fuel > Gap(c.pos, e, |c.hashes|)
    ensures Stores(sum64, ProbeFrom(c, fuel), T, false)
    decreases fuel
  {
    if c.hashes[c.pos] == 0 {
      Fill(sum64, c.hashes, c.elems, T, c.h, c.k, c.v, c.pos, c.dist);
    } else {
      CarriedNotStored(sum64, c.hashes, c.elems, T, c.h, c.k, c.v, c.pos, c.dist);
      CarryStep(sum64, T, c, e);
      CarryingSettles(sum64, T, Step(c), e, fuel - 1);
    }
  }

  /** The probe for `key` stops at an empty slot, where it puts the new
      entry, or at the slot holding `key`, whose value it overwrites. */
  lemma ProbeStops<V>(sum64: Key -> Hash, M: map<Key, Option<V>>, c: Cursor<V>, fuel: nat)
    requires InRange(c) && Probing(sum64, c.hashes, c.elems, M, c.k, c.pos, c.dist) && c.h == HashKey(sum64, c.k)
    requires fuel > 0 && (c.hashes[c.pos] == 0 || c.elems[c.pos].key == c.k)
    ensures Stores(sum64, ProbeFrom(c, fuel), M[c.k := c.v], c.k in M)
  {
    var H, E, pos := c.hashes, c.elems, c.pos;
    if H[pos] == 0 {
      StartCarrying(sum64, H, E, M, c.k, c.v, pos, c.dist);
      Fill(sum64, H, E, M[c.k := c.v], c.h, c.k, c.v, pos, c.dist);
    } else {
      Replace(sum64, H, E, M, c.k, c.v, pos, c.dist);
      assert H[pos := c.h] == H;
    }
  }

  /** Looking for `key` with more fuel than slots before the empty slot `e`,
      the loop ends, overwriting exactly when `key` is stored, and the table
      it leaves is well formed for `M` with `key` mapped to `val`. */
  lemma {:induction false} ProbingSettles<V>(sum64: Key -> Hash, M: map<Key, Option<V>>, c: Cursor<V>, e: int, fuel: nat)
    requires InRange(c) && Probing(sum64, c.hashes, c.elems, M, c.k, c.pos, c.dist) && c.h == HashKey(sum64, c.k)
    requires 0 <= e < |c.hashes| && c.hashes[e] == 0 && fuel > Gap(c.pos, e, |c.hashes|)
    ensures Stores(sum64, ProbeFrom(c, fuel), M[c.k := c.v], c.k in M)
    decreases fuel
  {
    var H, E, pos := c.hashes, c.elems, c.pos;
    if H[pos] == 0 || E[pos].key == c.k {
      ProbeStops(sum64, M, c, fuel);
    } else if Disp(H, pos) < c.dist {
      StartCarrying(sum64, H, E, M, c.k, c.v, pos, c.dist);
      CarryingSettles(sum64, M[c.k := c.v], c, e, fuel);
    } else {
      ProbeOn(sum64, H, E, M, c.k, pos, c.dist, e);
      ProbingSettles(sum64, M, Step(c), e, fuel - 1);
    }
  }

  /** The loop started at the key's home slot with as much fuel as there are
      slots, on a well-formed table with a free slot, ends, overwriting
      exactly when `key` is stored, and leaves a well-formed table for `M`
      with `key` mapped to `val`. */
  lemma InsertSettles<V>(sum64: Key -> Hash, H: seq<Hash>, E: seq<HashElem<V>>, M: map<Key, Option<V>>,
                         key: Key, val: Option<V>)
    requires WellFormed(sum64, H, E, M) && |M| < |H|
    ensures var h := HashKey(sum64, key);
      Stores(sum64, ProbeFrom(Cursor(H, E, Home(h, |H|), 0, h, key, val), |H|), M[key := val], key in M)
  {
    EmptySlotExists(H);
    var e :| 0 <= e < |H| && H[e] == 0;
    StartProbe(sum64, H, E, M, key);
    var h := HashKey(sum64, key);
    ProbingSettles(sum64, M, Cursor(H, E, Home(h, |H|), 0, h, key, val), e, |H|);
  }
}

/** Whole-table scans of pkg/rhh/rhh.go, as functions of the slot sequences:
    the entries `grow` reinserts, the keys `Keys` collects and the probe
    distances `AverageProbeCount` adds up. */
module Scan {
  import opened Slots
  import opened ByteOrder

  // ---------------------------------------------------------------------
  // grow

  /** The entries of the occupied slots among the first `i`, in slot order. */
  ghost function Entries<V>(H: seq<Hash>, E: seq<HashElem<V>>, i: int): (r: map<Key, Option<V>>)
    requires 0 <= i <= |H| == |E|
    ensures |r| <= i
  {
    if i == 0 then map[]
    else if H[i - 1] != 0 then Entries(H, E, i - 1)[E[i - 1].key := E[i - 1].value]
    else Entries(H, E, i - 1)
  }

  /** The keys of the entries of the first `i` slots are the keys those
      slots hold. */
  lemma {:induction false} EntriesKeys<V>(H: seq<Hash>, E: seq<HashElem<V>>, i: int)
    requires 0 <= i <= |H| == |E|
    ensures forall key :: key in Entries(H, E, i) <==>
      exists j :: 0 <= j < i && H[j] != 0 && E[j].key == key
  {
    if i > 0 {
      EntriesKeys(H, E, i - 1);
    }
  }

  /** With no key in two slots, each occupied slot among the first `i` gives
      its key its value. */
  lemma {:induction false} EntriesValues<V>(H: seq<Hash>, E: seq<HashElem<V>>, i: int)
    requires 0 <= i <= |H| && UniqueKeys(H, E)
    ensures forall j :: 0 <= j < i && H[j] != 0 ==>
      E[j].key in Entries(H, E, i) && Entries(H, E, i)[E[j].key] == E[j].value
  {
    if i > 0 {
      EntriesValues(H, E, i - 1);
      forall j | 0 <= j < i && H[j] != 0
        ensures E[j].key in Entries(H, E, i) && Entries(H, E, i)[E[j].key] == E[j].value
      {
        if j < i - 1 && H[i - 1] != 0 {
          assert DistinctAt(H, E, j, i - 1);
        }
      }
    }
  }

  /** With no key in two slots, there is one entry per occupied slot. */
  lemma {:induction false} EntriesSize<V>(H: seq<Hash>, E: seq<HashElem<V>>, i: int)
    requires 0 <= i <= |H| && UniqueKeys(H, E)
    ensures |Entries(H, E, i)| == Occupied(H[..i])
  {
    if i > 0 {
      EntriesSize(H, E, i - 1);
      assert H[..i][..i - 1] == H[..i - 1];
      if H[i - 1] != 0 {
        EntriesKeys(H, E, i - 1);
        forall j | 0 <= j < i - 1 && H[j] != 0
          ensures E[j].key != E[i - 1].key
        {
          assert DistinctAt(H, E, j, i - 1);
        }
        assert E[i - 1].key !in Entries(H, E, i - 1);
        assert Occupied(H[..i]) == Occupied(H[..i - 1]) + 1;
      }
    }
  }

  /** The next slot's key, if it is occupied, is not among the entries so far. */
  lemma EntriesNext<V>(H: seq<Hash>, E: seq<HashElem<V>>, i: int)
    requires 0 <= i < |H| && UniqueKeys(H, E)
    ensures H[i] != 0 ==> E[i].key !in Entries(H, E, i)
    ensures |Entries(H, E, i)| <= i
  {
    EntriesKeys(H, E, i);
    EntriesSize(H, E, i);
    if H[i] != 0 {
      forall j | 0 <= j < i && H[j] != 0
        ensures E[j].key != E[i].key
      {
        assert DistinctAt(H, E, j, i);
      }
    }
  }

  /** The entries of all the slots of a table that represents `M` are `M`. */
  lemma EntriesComplete<V>(H: seq<Hash>, E: seq<HashElem<V>>, M: map<Key, Option<V>>)
    requires Represents(H, E, M) && UniqueKeys(H, E)
    ensures Entries(H, E, |H|) == M
  {
    EntriesKeys(H, E, |H|);
    EntriesValues(H, E, |H|);
    forall key | key in M
      ensures key in Entries(H, E, |H|) && Entries(H, E, |H|)[key] == M[key]
    {
      assert HeldIfIn(H, E, M, key);
      var j :| 0 <= j < |H| && j < |E| && H[j] != 0 && E[j].key == key;
      assert StoredAt(H, E, M, j);
    }
    forall key | key in Entries(H, E, |H|)
      ensures key in M
    {
      var j :| 0 <= j < |H| && H[j] != 0 && E[j].key == key;
      assert StoredAt(H, E, M, j);
    }
  }

  // ---------------------------------------------------------------------
  // Keys

  /** The keys of the slots in `E` whose value is not nil, in slot order. */
  function LiveKeys<V>(E: seq<HashElem<V>>): (r: seq<Key>)
    ensures |r| <= |E|
  {
    if E == [] then []
    else LiveKeys(E[..|E| - 1]) + (if E[|E| - 1].value.Some? then [E[|E| - 1].key] else [])
  }

  /** A key is live in `E` when some slot holds it with a value. */
  lemma {:induction false} LiveKeysMembers<V>(E: seq<HashElem<V>>)
    ensures forall x :: x in LiveKeys(E) <==> exists j :: 0 <= j < |E| && E[j].key == x && E[j].value.Some?
  {
    if E != [] {
      var last := |E| - 1;
      LiveKeysMembers(E[..last]);
      forall x | x in LiveKeys(E)
        ensures exists j :: 0 <= j < |E| && E[j].key == x && E[j].value.Some?
      {
        if x in LiveKeys(E[..last]) {
          var j :| 0 <= j < last && E[..last][j].key == x && E[..last][j].value.Some?;
          assert E[j] == E[..last][j];
        }
      }
      forall x, j | 0 <= j < |E| && E[j].key == x && E[j].value.Some?
        ensures x in LiveKeys(E)
      {
        if j < last {
          assert E[..last][j] == E[j];
        }
      }
    }
  }

  /** The live keys of a table with no key in two slots are distinct. */
  lemma {:induction false} LiveKeysDistinct<V>(H: seq<Hash>, E: seq<HashElem<V>>)
    requires UniqueKeys(H, E) && EmptyAreZero(H, E)
    ensures NoDuplicates(LiveKeys(E))
    decreases |E|
  {
    if E != [] {
      var last := |E| - 1;
      var H', E' := H[..last], E[..last];
      forall i, j | 0 <= i < last && 0 <= j < last
        ensures DistinctAt(H', E', i, j)
      {
        assert DistinctAt(H, E, i, j);
      }
      forall i | 0 <= i < last
        ensures ZeroAt(H', E', i)
      {
        assert ZeroAt(H, E, i);
      }
      LiveKeysDistinct(H', E');
      if E[last].value.Some? {
        LiveKeysMembers(E');
        forall j | 0 <= j < last && E'[j].value.Some?
          ensures E'[j].key != E[last].key
        {
          assert E'[j] == E[j] && ZeroAt(H, E, j) && ZeroAt(H, E, last) && DistinctAt(H, E, j, last);
        }
        NoDuplicatesAppend(LiveKeys(E'), E[last].key);
      }
    }
  }

  /** Appending a key that does not occur keeps the keys distinct. */
  lemma NoDuplicatesAppend(s: seq<Key>, x: Key)
    requires NoDuplicates(s) && x !in s
    ensures NoDuplicates(s + [x])
  {
    var r := s + [x];
    forall i, j | 0 <= i < j < |r|
      ensures r[i] != r[j]
    {
      assert r[i] == s[i];
      if j < |s| {
        assert r[j] == s[j];
      }
    }
  }

  /** The live keys of a table for `M` are the keys `M` maps to a value,
      each once. */
  lemma LiveKeysOf<V>(H: seq<Hash>, E: seq<HashElem<V>>, M: map<Key, Option<V>>)
    requires Represents(H, E, M) && UniqueKeys(H, E) && EmptyAreZero(H, E)
    ensures forall x :: x in LiveKeys(E) <==> x in M && M[x].Some?
    ensures NoDuplicates(LiveKeys(E))
  {
    LiveKeysMembers(E);
    LiveKeysDistinct(H, E);
    forall x | x in M && M[x].Some?
      ensures x in LiveKeys(E)
    {
      assert HeldIfIn(H, E, M, x);
      var j :| 0 <= j < |H| && j < |E| && H[j] != 0 && E[j].key == x;
      assert StoredAt(H, E, M, j);
    }
    forall x | x in LiveKeys(E)
      ensures x in M && M[x].Some?
    {
      var j :| 0 <= j < |E| && E[j].key == x && E[j].value.Some?;
      assert ZeroAt(H, E, j) && StoredAt(H, E, M, j);
    }
  }

  // ---------------------------------------------------------------------
  // AverageProbeCount

  /** The sum of the probe distances of the occupied slots. */
  ghost function TotalDisp(H: seq<Hash>): int
  {
    SumDisp(H, |H|)
  }

  /** The sum of the probe distances of the occupied slots among the first `i`. */
  ghost function SumDisp(H: seq<Hash>, i: int): (r: int)
    requires 0 <= i <= |H|
    ensures 0 <= r
  {
    if i == 0 then 0
    else SumDisp(H, i - 1) + (if H[i - 1] != 0 then Disp(H, i - 1) else 0)
  }

  /** Each occupied slot adds at most `|H| - 1`, so the sum is at most that
      many times the number of occupied slots. */
  lemma {:induction false} SumDispBound(H: seq<Hash>, i: int)
    requires 0 <= i <= |H|
    ensures 0 <= SumDisp(H, i) <= Occupied(H[..i]) * (|H| - 1)
  {
    if i > 0 {
      SumDispBound(H, i - 1);
      assert H[..i][..i - 1] == H[..i - 1];
      var o, n := Occupied(H[..i - 1]), |H| - 1;
      if H[i - 1] != 0 {
        assert Occupied(H[..i]) == o + 1;
        MulSucc(o, n);
      } else {
        assert Occupied(H[..i]) == o;
      }
    }
  }

  /** One more summand of `n` adds `n` to the product. */
  lemma MulSucc(o: int, n: int)
    ensures (o + 1) * n == o * n + n
  {
  }
}

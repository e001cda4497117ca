/** The order `Keys` sorts by: `bytes.Compare` on unsigned bytes, as used by
    `byteSlices.Less`, and a sort that stands in for `sort.Sort`. */
module ByteOrder {
  import opened Slots

  /** bytes.Compare: -1, 0 or +1 by lexicographic order of unsigned bytes, a
      proper prefix ordering first. */
  function Compare(a: Key, b: Key): (c: int)
    ensures -1 <= c <= 1
    ensures c == 0 <==> a == b
  {
    if a == [] then (if b == [] then 0 else -1)
    else if b == [] then 1
    else if a[0] < b[0] then -1
    else if a[0] > b[0] then 1
    else
      assert a == [a[0]] + a[1..] && b == [b[0]] + b[1..];
      Compare(a[1..], b[1..])
  }

  /** byteSlices.Less. */
  predicate Less(a: Key, b: Key): (r: bool)
    ensures r ==> a != b
    ensures r <==> Compare(b, a) == 1
  {
    CompareFlips(a, b);
    Compare(a, b) == -1
  }

  /** Swapping the arguments negates the comparison. */
  lemma {:induction false} CompareFlips(a: Key, b: Key)
    ensures Compare(b, a) == -Compare(a, b)
  {
    if a != [] && b != [] && a[0] == b[0] {
      CompareFlips(a[1..], b[1..]);
    }
  }

  /** The order is transitive. */
  lemma {:induction false} CompareTransitive(a: Key, b: Key, c: Key)
    requires Compare(a, b) <= 0 && Compare(b, c) <= 0
    ensures Compare(a, c) <= 0
  {
    if a != [] && b != [] && c != [] && a[0] == b[0] == c[0] {
      CompareTransitive(a[1..], b[1..], c[1..]);
    }
  }

  /** `Less` is a strict total order. */
  lemma LessIsStrictTotalOrder(a: Key, b: Key, c: Key)
    ensures !Less(a, a)
    ensures a != b ==> (Less(a, b) <==> !Less(b, a))
    ensures Less(a, b) && Less(b, c) ==> Less(a, c)
  {
    CompareFlips(a, b);
    if Less(a, b) && Less(b, c) {
      CompareTransitive(a, b, c);
      CompareFlips(a, c);
    }
  }

  /** Non-decreasing by `Compare`. */
  ghost predicate Ordered(s: seq<Key>)
  {
    forall i, j :: 0 <= i < j < |s| ==> Compare(s[i], s[j]) <= 0
  }

  /** Strictly increasing by `Less`. */
  ghost predicate StrictlyIncreasing(s: seq<Key>)
  {
    forall i, j :: 0 <= i < j < |s| ==> Less(s[i], s[j])
  }

  ghost predicate NoDuplicates(s: seq<Key>)
  {
    forall i, j :: 0 <= i < j < |s| ==> s[i] != s[j]
  }

  /** Prepending a key no greater than every element keeps the order. */
  lemma OrderedCons(x: Key, s: seq<Key>)
    requires Ordered(s)
    requires forall y :: y in s ==> Compare(x, y) <= 0
    ensures Ordered([x] + s)
  {
    var r := [x] + s;
    forall i, j | 0 <= i < j < |r|
      ensures Compare(r[i], r[j]) <= 0
    {
      if i == 0 {
        assert r[j] == s[j - 1];
      } else {
        assert r[i] == s[i - 1] && r[j] == s[j - 1];
      }
    }
  }

  /** An ordered sequence with no repeated key is strictly increasing. */
  lemma OrderedUniqueIsStrict(s: seq<Key>)
    requires Ordered(s) && NoDuplicates(s)
    ensures StrictlyIncreasing(s)
  {
  }

  /** Prepending a key that does not occur keeps the keys distinct. */
  lemma ConsNoDuplicates(x: Key, s: seq<Key>)
    requires x !in s && NoDuplicates(s)
    ensures NoDuplicates([x] + s)
  {
    var r := [x] + s;
    forall i, j | 0 <= i < j < |r|
      ensures r[i] != r[j]
    {
      assert r[j] == s[j - 1];
      if i > 0 {
        assert r[i] == s[i - 1];
      }
    }
  }

  /** What the tail of a non-empty sequence inherits from it. */
  lemma Tail(s: seq<Key>)
    requires s != []
    ensures multiset(s) == multiset{s[0]} + multiset(s[1..])
    ensures Ordered(s) ==> Ordered(s[1..])
    ensures NoDuplicates(s) ==> NoDuplicates(s[1..]) && s[0] !in s[1..]
  {
    assert s == [s[0]] + s[1..];
  }

  /** `x` goes in front of an ordered `s` whose head is not below it. */
  lemma InsertInFront(x: Key, s: seq<Key>)
    requires Ordered(s) && s != [] && Compare(x, s[0]) <= 0
    ensures Ordered([x] + s)
  {
    forall y | y in s ensures Compare(x, y) <= 0 {
      var j :| 0 <= j < |s| && s[j] == y;
      if j > 0 {
        CompareTransitive(x, s[0], y);
      }
    }
    OrderedCons(x, s);
  }

  /** The head of `s`, below `x`, goes in front of `rest`: the tail of `s`
      with `x` inserted. */
  lemma InsertBehindHead(x: Key, s: seq<Key>, rest: seq<Key>)
    requires Ordered(s) && s != [] && Compare(x, s[0]) > 0
    requires Ordered(rest) && multiset(rest) == multiset(s[1..]) + multiset{x}
    ensures Ordered([s[0]] + rest)
  {
    CompareFlips(x, s[0]);
    forall y | y in rest ensures Compare(s[0], y) <= 0 {
      assert y in multiset(rest);
      if y != x {
        assert y in multiset(s[1..]);
        var j :| 0 <= j < |s[1..]| && s[1..][j] == y;
        assert s[j + 1] == y;
      }
    }
    OrderedCons(s[0], rest);
  }

  /** Keys stay distinct when the head of `s` goes in front of `rest`, the
      tail of `s` with a new key `x` inserted. */
  lemma BehindHeadDistinct(x: Key, s: seq<Key>, rest: seq<Key>)
    requires s != [] && multiset(rest) == multiset(s[1..]) + multiset{x}
    requires x !in s && NoDuplicates(s) && NoDuplicates(rest)
    ensures NoDuplicates([s[0]] + rest)
  {
    Tail(s);
    assert s[0] !in multiset(rest);
    ConsNoDuplicates(s[0], rest);
  }

  /** Inserts `x` into the ordered `s` before the first element not below it. */
  function InsertSorted(x: Key, s: seq<Key>): (r: seq<Key>)
    requires Ordered(s)
    ensures Ordered(r)
    ensures multiset(r) == multiset(s) + multiset{x}
    ensures x !in s && NoDuplicates(s) ==> NoDuplicates(r)
  {
    if s == [] then [x]
    else if Compare(x, s[0]) <= 0 then
      InsertInFront(x, s);
      assert x !in s && NoDuplicates(s) ==> NoDuplicates([x] + s) by {
        if x !in s && NoDuplicates(s) {
          ConsNoDuplicates(x, s);
        }
      }
      [x] + s
    else
      Tail(s);
      var rest := InsertSorted(x, s[1..]);
      InsertBehindHead(x, s, rest);
      assert x !in s && NoDuplicates(s) ==> NoDuplicates([s[0]] + rest) by {
        if x !in s && NoDuplicates(s) {
          BehindHeadDistinct(x, s, rest);
        }
      }
      [s[0]] + rest
  }

  /** Insertion sort: a stand-in for `sort.Sort(byteSlices(a))`. */
  function SortKeys(s: seq<Key>): (r: seq<Key>)
    ensures Ordered(r)
    ensures multiset(r) == multiset(s)
    ensures NoDuplicates(s) ==> NoDuplicates(r)
  {
    if s == [] then []
    else
      Tail(s);
      var sorted := SortKeys(s[1..]);
      assert NoDuplicates(s) ==> s[0] !in multiset(sorted);
      InsertSorted(s[0], sorted)
  }
}

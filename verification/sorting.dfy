/** The ORDER BY of the store, modelled as a sort on a two-part key: the primary column
    (zero when the query has none) and the id tie-break, each already negated for a
    descending direction. Ids are unique, so keys are distinct and the order is total. */
module Sorting {

  datatype SortKey = SortKey(primary: int, tieBreak: int)

  predicate Before(a: SortKey, b: SortKey) {
    a.primary < b.primary || (a.primary == b.primary && a.tieBreak < b.tieBreak)
  }

  predicate StrictlySorted<T>(s: seq<T>, key: T -> SortKey) {
    forall i, j :: 0 <= i < j < |s| ==> Before(key(s[i]), key(s[j]))
  }

  predicate DistinctKeys<T>(s: seq<T>, key: T -> SortKey) {
    forall i, j :: 0 <= i < j < |s| ==> key(s[i]) != key(s[j])
  }

  /** Insertion into a sorted sequence. */
  function Insert<T(==)>(x: T, s: seq<T>, key: T -> SortKey): (r: seq<T>)
    requires StrictlySorted(s, key)
    requires forall i :: 0 <= i < |s| ==> key(s[i]) != key(x)
    ensures StrictlySorted(r, key)
    ensures multiset(r) == multiset(s) + multiset{x}
  {
    if |s| == 0 then [x]
    else if Before(key(x), key(s[0])) then [x] + s
    else
      var rest := Insert(x, s[1..], key);
      InsertHeadFirst(x, s, rest, key);
      [s[0]] + rest
  }

  lemma InsertHeadFirst<T>(x: T, s: seq<T>, rest: seq<T>, key: T -> SortKey)
    requires |s| > 0 && StrictlySorted(s, key) && StrictlySorted(rest, key)
    requires key(s[0]) != key(x) && !Before(key(x), key(s[0]))
    requires multiset(rest) == multiset(s[1..]) + multiset{x}
    ensures StrictlySorted([s[0]] + rest, key)
    ensures multiset([s[0]] + rest) == multiset(s) + multiset{x}
  {
    forall k | 0 <= k < |rest|
      ensures Before(key(s[0]), key(rest[k]))
    {
      assert rest[k] in multiset(rest);
      if rest[k] != x {
        assert rest[k] in multiset(s[1..]);
        var m :| 0 <= m < |s[1..]| && s[1..][m] == rest[k];
        assert s[m + 1] == rest[k];
      }
    }
    assert s == [s[0]] + s[1..];
  }

  /** Sorting a sequence whose elements have distinct keys yields the same elements in
      strictly ascending key order. */
  function Sort<T(==)>(s: seq<T>, key: T -> SortKey): (r: seq<T>)
    requires DistinctKeys(s, key)
    ensures StrictlySorted(r, key)
    ensures multiset(r) == multiset(s)
  {
    if |s| == 0 then []
    else
      var rest := Sort(s[1..], key);
      HeadKeyFresh(s, rest, key);
      Insert(s[0], rest, key)
  }

  /** The key of the head of a sequence with distinct keys differs from the key of every
      element of any rearrangement of its tail. */
  lemma HeadKeyFresh<T>(s: seq<T>, rest: seq<T>, key: T -> SortKey)
    requires |s| > 0 && DistinctKeys(s, key)
    requires multiset(rest) == multiset(s[1..])
    ensures forall i :: 0 <= i < |rest| ==> key(rest[i]) != key(s[0])
    ensures multiset(s) == multiset(rest) + multiset{s[0]}
  {
    forall i | 0 <= i < |rest| ensures key(rest[i]) != key(s[0]) {
      assert rest[i] in multiset(s[1..]);
      var m :| 0 <= m < |s[1..]| && s[1..][m] == rest[i];
      assert s[m + 1] == rest[i];
    }
    assert s == [s[0]] + s[1..];
  }

  lemma NoElementsMeansEmpty<T>(s: seq<T>)
    ensures |s| == 0 <==> forall x :: x !in s
  {
    if |s| > 0 {
      assert s[0] in s;
    }
  }

  /** A strictly sorted sequence is determined by its set of elements: two strictly sorted
      sequences holding the same elements are equal. */
  lemma {:induction false} StrictlySortedUnique<T>(a: seq<T>, b: seq<T>, key: T -> SortKey)
    requires StrictlySorted(a, key) && StrictlySorted(b, key)
    requires forall x :: x in a <==> x in b
    ensures a == b
  {
    if |a| == 0 || |b| == 0 {
      NoElementsMeansEmpty(a);
      NoElementsMeansEmpty(b);
    } else {
      assert b[0] in a && a[0] in b;
      var i :| 0 <= i < |a| && a[i] == b[0];
      var j :| 0 <= j < |b| && b[j] == a[0];
      if i != 0 {
        assert false;
      }
      forall x
        ensures x in a[1..] <==> x in b[1..]
      {
        if x in a[1..] {
          var k :| 1 <= k < |a| && a[k] == x;
          assert x in b;
          assert x != b[0] by {
            assert Before(key(a[0]), key(a[k]));
          }
          assert b == [b[0]] + b[1..];
        }
        if x in b[1..] {
          var k :| 1 <= k < |b| && b[k] == x;
          assert x in a;
          assert x != a[0] by {
            assert Before(key(b[0]), key(b[k]));
          }
          assert a == [a[0]] + a[1..];
        }
      }
      StrictlySortedUnique(a[1..], b[1..], key);
      assert a == [a[0]] + a[1..];
      assert b == [b[0]] + b[1..];
    }
  }
}

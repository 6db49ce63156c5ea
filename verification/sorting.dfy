/** The stable sort behind `Array.prototype.sort(versionCmp)`, the `filter` that drops
    versions named in a parent list, and an ascending enumeration of a set of versions. */
module Sorting {
  import opened Versions

  /** Every earlier element's key may stand before every later element's key. */
  ghost predicate SortedBy<T>(s: seq<T>, key: T -> Version)
  {
    forall i, j | 0 <= i < j < |s| :: VersionLe(key(s[i]), key(s[j]))
  }

  /** Elements with the same key are the same element. */
  ghost predicate KeyFaithful<T>(s: seq<T>, key: T -> Version)
  {
    forall a, b | a in s && b in s && key(a) == key(b) :: a == b
  }

  /** Inserts `x` before the first element it may precede, keeping `s` sorted. */
  function InsertBy<T>(x: T, s: seq<T>, key: T -> Version): (r: seq<T>)
    requires SortedBy(s, key)
    ensures SortedBy(r, key)
    ensures multiset(r) == multiset(s) + multiset{x}
  {
    if |s| == 0 then [x]
    else if VersionLe(key(x), key(s[0])) then
      assert SortedBy([x] + s, key) by {
        forall j | 0 < j < |s| + 1
          ensures VersionLe(key(x), key(([x] + s)[j]))
        {
          VersionLeTotalOrder(key(x), key(s[0]), key(s[j - 1]));
        }
      }
      [x] + s
    else
      var rest := InsertBy(x, s[1..], key);
      VersionLeTotalOrder(key(x), key(s[0]), key(s[0]));
      assert s == [s[0]] + s[1..];
      assert SortedBy([s[0]] + rest, key) by {
        forall j | 0 <= j < |rest|
          ensures VersionLe(key(s[0]), key(rest[j]))
        {
          assert rest[j] in multiset(rest);
          if rest[j] != x {
            assert rest[j] in multiset(s[1..]);
            var k :| 0 <= k < |s[1..]| && s[1..][k] == rest[j];
            assert s[k + 1] == rest[j];
          }
        }
      }
      [s[0]] + rest
  }

  /** A stable insertion sort: sorted, and a permutation of its input. */
  function SortBy<T>(s: seq<T>, key: T -> Version): (r: seq<T>)
    ensures SortedBy(r, key)
    ensures multiset(r) == multiset(s)
  {
    if |s| == 0 then []
    else
      assert s == [s[0]] + s[1..];
      InsertBy(s[0], SortBy(s[1..], key), key)
  }

  /** Two sorted lists holding the same elements are equal when a key names one element.
      This is why every replica that holds the same pairs lists them in the same order. */
  lemma {:induction false} SortedUnique<T>(a: seq<T>, b: seq<T>, key: T -> Version)
    requires SortedBy(a, key) && SortedBy(b, key)
    requires multiset(a) == multiset(b)
    requires KeyFaithful(a, key)
    ensures a == b
  {
    if |a| == 0 {
      assert |multiset(b)| == 0;
    } else {
      assert |b| == |multiset(b)| > 0;
      SortedHeadsEqual(a, b, key);
      SortedTails(a, b, key);
      SortedUnique(a[1..], b[1..], key);
      assert a == [a[0]] + a[1..];
      assert b == [b[0]] + b[1..];
    }
  }

  /** The first element of a sorted list is a least one. */
  lemma SortedHeadLeast<T>(a: seq<T>, key: T -> Version, x: T)
    requires SortedBy(a, key) && x in a
    ensures VersionLe(key(a[0]), key(x))
  {
    var i :| 0 <= i < |a| && a[i] == x;
    if i == 0 {
      VersionLeTotalOrder(key(x), key(x), key(x));
    }
  }

  lemma SortedHeadsEqual<T>(a: seq<T>, b: seq<T>, key: T -> Version)
    requires SortedBy(a, key) && SortedBy(b, key)
    requires multiset(a) == multiset(b) && |a| > 0 && |b| > 0
    requires KeyFaithful(a, key)
    ensures a[0] == b[0]
  {
    assert a[0] in multiset(b) && b[0] in multiset(a);
    SortedHeadLeast(a, key, b[0]);
    SortedHeadLeast(b, key, a[0]);
    VersionLeTotalOrder(key(a[0]), key(b[0]), key(a[0]));
  }

  lemma SortedTails<T>(a: seq<T>, b: seq<T>, key: T -> Version)
    requires SortedBy(a, key) && SortedBy(b, key)
    requires multiset(a) == multiset(b) && |a| > 0 && |b| > 0 && a[0] == b[0]
    requires KeyFaithful(a, key)
    ensures SortedBy(a[1..], key) && SortedBy(b[1..], key)
    ensures multiset(a[1..]) == multiset(b[1..])
    ensures KeyFaithful(a[1..], key)
  {
    SortedTail(a, key);
    SortedTail(b, key);
    TailMultiset(a);
    TailMultiset(b);
    forall z ensures multiset(a[1..])[z] == multiset(b[1..])[z] {
      assert multiset(a)[z] == multiset{a[0]}[z] + multiset(a[1..])[z];
      assert multiset(b)[z] == multiset{b[0]}[z] + multiset(b[1..])[z];
    }
    forall x, y | x in a[1..] && y in a[1..] && key(x) == key(y) ensures x == y {
      assert x in a && y in a;
    }
  }

  lemma SortedTail<T>(a: seq<T>, key: T -> Version)
    requires SortedBy(a, key) && |a| > 0
    ensures SortedBy(a[1..], key)
  {
    var t := a[1..];
    forall i, j | 0 <= i < j < |t| ensures VersionLe(key(t[i]), key(t[j])) {
      assert t[i] == a[i + 1] && t[j] == a[j + 1];
    }
  }

  lemma TailMultiset<T>(a: seq<T>)
    requires |a| > 0
    ensures multiset(a) == multiset{a[0]} + multiset(a[1..])
  {
    assert a == [a[0]] + a[1..];
  }

  lemma SortedUniquePointwise<T>(a: seq<T>, b: seq<T>, key: T -> Version)
    requires SortedBy(a, key) && SortedBy(b, key)
    requires forall x :: multiset(a)[x] == multiset(b)[x]
    requires KeyFaithful(a, key)
    ensures a == b
  {
    assert multiset(a) == multiset(b);
    SortedUnique(a, b, key);
  }

  /** Some element of `ps` is equal to `v` (`ps.some(p => versionEq(v, p))`). */
  predicate NamedIn(v: Version, ps: seq<Version>)
  {
    exists i | 0 <= i < |ps| :: VersionEq(v, ps[i])
  }

  /** The elements whose key is not named in `ps`, in their original order. */
  function Without<T(!new)>(s: seq<T>, key: T -> Version, ps: seq<Version>): (r: seq<T>)
    ensures forall x :: multiset(r)[x] == if key(x) in ps then 0 else multiset(s)[x]
    ensures forall x :: x in r <==> x in s && key(x) !in ps
  {
    if |s| == 0 then []
    else
      var rest := Without(s[1..], key, ps);
      assert s == [s[0]] + s[1..];
      assert NamedIn(key(s[0]), ps) <==> key(s[0]) in ps;
      if NamedIn(key(s[0]), ps) then rest else [s[0]] + rest
  }

  /** The least element of a non-empty set of versions. */
  function Least(s: set<Version>): (m: Version)
    requires s != {}
    ensures m in s
    ensures forall y | y in s :: VersionLe(m, y)
  {
    LeastExists(s);
    assert forall a, b | VersionLe(a, b) && VersionLe(b, a) :: a == b by {
      forall a, b | VersionLe(a, b) && VersionLe(b, a) ensures a == b {
        VersionLeTotalOrder(a, b, a);
      }
    }
    var m :| m in s && forall y | y in s :: VersionLe(m, y);
    m
  }

  lemma {:induction false} LeastExists(s: set<Version>)
    requires s != {}
    ensures exists m :: m in s && forall y | y in s :: VersionLe(m, y)
    decreases |s|
  {
    var x :| x in s;
    if s == {x} {
      VersionLeTotalOrder(x, x, x);
      assert forall y | y in s :: VersionLe(x, y);
    } else {
      LeastExists(s - {x});
      var m :| m in s - {x} && forall y | y in s - {x} :: VersionLe(m, y);
      VersionLeTotalOrder(m, x, m);
      if VersionLe(m, x) {
        assert forall y | y in s :: VersionLe(m, y);
      } else {
        forall y | y in s ensures VersionLe(x, y) {
          if y != x {
            VersionLeTotalOrder(x, m, y);
          } else {
            VersionLeTotalOrder(x, x, x);
          }
        }
      }
    }
  }

  /** The elements of `s` in ascending order, each once. */
  function SortedIds(s: set<Version>): (r: seq<Version>)
    ensures forall v :: v in r <==> v in s
    ensures |r| == |s|
    decreases s
  {
    if s == {} then []
    else
      var m := Least(s);
      [m] + SortedIds(s - {m})
  }
}

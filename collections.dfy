/** Sequence helpers shared by the table model: filtering (a query's WHERE
    clause), lookup by a condition, uniqueness of a key across the rows of a
    table, and sorting by a total preorder (a query's ORDER BY). */
module Collections {

  datatype Option<T> = None | Some(value: T)

  /** The elements of `s` that satisfy `p`, in their original order. */
  function Filter<T(==,!new)>(s: seq<T>, p: T -> bool): (r: seq<T>)
    ensures forall x :: multiset(r)[x] == if p(x) then multiset(s)[x] else 0
    ensures forall x :: x in r <==> x in s && p(x)
    ensures |r| <= |s|
  {
    if s == [] then []
    else
      var rest := Filter(s[1..], p);
      assert s == [s[0]] + s[1..];
      if p(s[0]) then [s[0]] + rest else rest
  }

  /** The position of the first element of `s` that satisfies `p`, if any. */
  function Find<T>(s: seq<T>, p: T -> bool): (r: Option<nat>)
    ensures r.Some? ==> r.value < |s| && p(s[r.value])
    ensures r.None? <==> forall i :: 0 <= i < |s| ==> !p(s[i])
  {
    if s == [] then None
    else if p(s[0]) then Some(0)
    else match Find(s[1..], p)
      case None => None
      case Some(i) => Some(i + 1)
  }

  /** No row occurs twice and no two different rows share a key: a primary key
      or a unique_together constraint over the rows of one table. */
  ghost predicate UniqueBy<T(!new), K>(s: seq<T>, key: T -> K)
  {
    (forall x :: multiset(s)[x] <= 1) &&
    (forall a, b :: a in s && b in s && key(a) == key(b) ==> a == b)
  }

  /** Any rows taken from a table with a unique key still have a unique key. */
  lemma UniqueBySubMultiset<T(!new), K>(s: seq<T>, t: seq<T>, key: T -> K)
    requires UniqueBy(s, key)
    requires multiset(t) <= multiset(s)
    ensures UniqueBy(t, key)
  {
    forall a | a in t ensures a in s {
      assert multiset(t)[a] > 0;
    }
  }

  /** Appending a row whose key is new keeps the key unique. */
  lemma UniqueByAppend<T(!new), K>(s: seq<T>, x: T, key: T -> K)
    requires UniqueBy(s, key)
    requires forall y :: y in s ==> key(y) != key(x)
    ensures UniqueBy(s + [x], key)
  {
    assert x !in s;
    forall y ensures multiset(s + [x])[y] <= 1 {
      assert multiset(s + [x]) == multiset(s) + multiset{x};
    }
  }

  /** Two tables with unique keys, no key shared between them, concatenate to a
      table with a unique key. */
  lemma UniqueByConcat<T(!new), K>(s: seq<T>, t: seq<T>, key: T -> K)
    requires UniqueBy(s, key) && UniqueBy(t, key)
    requires forall a, b :: a in s && b in t ==> key(a) != key(b)
    ensures UniqueBy(s + t, key)
  {
    assert multiset(s + t) == multiset(s) + multiset(t);
    forall y ensures multiset(s + t)[y] <= 1 {
      if y in s { assert y !in t; }
    }
  }

  /** Keys that differ position by position make a unique key. */
  lemma {:induction false} DistinctKeysUnique<T(!new), K>(s: seq<T>, key: T -> K)
    requires forall i, j :: 0 <= i < j < |s| ==> key(s[i]) != key(s[j])
    ensures UniqueBy(s, key)
  {
    if s != [] {
      var rest := s[1..];
      forall i, j | 0 <= i < j < |rest| ensures key(rest[i]) != key(rest[j]) {
        assert rest[i] == s[i + 1] && rest[j] == s[j + 1];
      }
      DistinctKeysUnique(rest, key);
      forall y | y in rest ensures key(y) != key(s[0]) {
        var k :| 0 <= k < |rest| && rest[k] == y;
        assert s[k + 1] == y;
      }
      UniqueByAppend(rest, s[0], key);
      assert multiset(s) == multiset(rest + [s[0]]) by {
        assert s == [s[0]] + rest;
      }
      UniqueBySubMultiset(rest + [s[0]], s, key);
    }
  }

  /** In a sequence without repeated elements, two positions hold different
      elements. */
  lemma DistinctPositions<T(!new)>(s: seq<T>, a: nat, b: nat)
    requires forall y :: multiset(s)[y] <= 1
    requires a < b < |s|
    ensures s[a] != s[b]
  {
    assert s == s[..a] + [s[a]] + s[a + 1..b] + [s[b]] + s[b + 1..];
    assert multiset(s)[s[a]] <= 1;
  }

  /** A unique key differs between any two positions of the table. */
  lemma UniqueKeysDistinct<T(!new), K>(s: seq<T>, key: T -> K, i: nat, j: nat)
    requires UniqueBy(s, key)
    requires i < j < |s|
    ensures key(s[i]) != key(s[j])
  {
    DistinctPositions(s, i, j);
  }

  /** Two rows of a table with a unique key that share the key are the same. */
  lemma UniqueKeysSame<T(!new), K>(s: seq<T>, key: T -> K, a: T, b: T)
    requires UniqueBy(s, key) && a in s && b in s && key(a) == key(b)
    ensures a == b
  {
  }

  /** Overwriting position `i` of a sequence without repeated elements: the
      old element there is gone, `x` is in, everything else stays. */
  lemma ReplaceAtMembers<T(!new)>(s: seq<T>, i: nat, x: T)
    requires forall y :: multiset(s)[y] <= 1
    requires i < |s|
    ensures forall y :: y in s[i := x] <==> y == x || (y in s && y != s[i])
  {
    assert s[i := x][i] == x;
    forall y | y in s && y != s[i] ensures y in s[i := x] {
      var k :| 0 <= k < |s| && s[k] == y;
      assert s[i := x][k] == y;
    }
    forall y | y in s[i := x] && y != x ensures y in s && y != s[i] {
      var k :| 0 <= k < |s| && s[i := x][k] == y;
      assert k != i && s[k] == y;
      if k < i { DistinctPositions(s, k, i); } else { DistinctPositions(s, i, k); }
    }
  }

  /** Two sequences with the same multiset have the same members. */
  lemma SameMembers<T>(a: seq<T>, b: seq<T>)
    requires multiset(a) == multiset(b)
    ensures forall x :: x in a <==> x in b
  {
    forall x ensures x in a <==> x in b {
      assert x in a <==> x in multiset(a);
      assert x in b <==> x in multiset(b);
    }
  }

  /** `le` is total and transitive: what ORDER BY needs to sort by it. */
  ghost predicate TotalPreorder<T(!new)>(le: (T, T) -> bool)
  {
    (forall a, b :: le(a, b) || le(b, a)) &&
    (forall a, b, c :: le(a, b) && le(b, c) ==> le(a, c))
  }

  ghost predicate SortedBy<T>(s: seq<T>, le: (T, T) -> bool)
  {
    forall i, j :: 0 <= i < j < |s| ==> le(s[i], s[j])
  }

  /** Larger key first: ORDER BY key DESC. */
  function Descending<T>(key: T -> int): (T, T) -> bool
  {
    (a: T, b: T) => key(a) >= key(b)
  }

  lemma DescendingIsPreorder<T(!new)>(key: T -> int)
    ensures TotalPreorder(Descending(key))
  {
  }

  function Insert<T(==,!new)>(x: T, s: seq<T>, le: (T, T) -> bool): (r: seq<T>)
    ensures multiset(r) == multiset(s) + multiset{x}
  {
    if s == [] then [x]
    else if le(x, s[0]) then [x] + s
    else
      assert s == [s[0]] + s[1..];
      [s[0]] + Insert(x, s[1..], le)
  }

  /** A sorted sequence stays sorted with an element in front that is `le`
      every element of it. */
  lemma ConsSorted<T>(h: T, t: seq<T>, le: (T, T) -> bool)
    requires SortedBy(t, le)
    requires forall y :: y in t ==> le(h, y)
    ensures SortedBy([h] + t, le)
  {
    var r := [h] + t;
    forall i, j | 0 <= i < j < |r| ensures le(r[i], r[j]) {
      if i == 0 {
        assert r[j] == t[j - 1] && r[j] in t;
      } else {
        assert r[i] == t[i - 1] && r[j] == t[j - 1];
      }
    }
  }

  lemma {:induction false} InsertSorted<T(!new)>(x: T, s: seq<T>, le: (T, T) -> bool)
    requires TotalPreorder(le) && SortedBy(s, le)
    ensures SortedBy(Insert(x, s, le), le)
  {
    if s == [] {
    } else if le(x, s[0]) {
      forall y | y in s ensures le(x, y) {
        var k :| 0 <= k < |s| && s[k] == y;
        if k > 0 { assert le(s[0], s[k]); }
      }
      ConsSorted(x, s, le);
    } else {
      var tail := Insert(x, s[1..], le);
      InsertSorted(x, s[1..], le);
      assert le(s[0], x);
      forall y | y in tail ensures le(s[0], y) {
        assert multiset(tail)[y] > 0;
        if y != x {
          assert y in s[1..];
          var k :| 0 <= k < |s[1..]| && s[1..][k] == y;
          assert s[k + 1] == y;
        }
      }
      ConsSorted(s[0], tail, le);
    }
  }

  /** Inserting the head of `s` into a permutation of its tail gives a
      permutation of `s`. */
  lemma InsertHeadPermutes<T(!new)>(s: seq<T>, rest: seq<T>, le: (T, T) -> bool)
    requires s != [] && multiset(rest) == multiset(s[1..])
    ensures multiset(Insert(s[0], rest, le)) == multiset(s)
    ensures |Insert(s[0], rest, le)| == |s|
  {
    var r := Insert(s[0], rest, le);
    assert s == [s[0]] + s[1..];
    assert |r| == |multiset(r)| == |multiset(s)| == |s|;
  }

  /** `s` rearranged so that `le` holds between every element and each one
      after it (insertion sort). */
  function SortBy<T(==,!new)>(s: seq<T>, le: (T, T) -> bool): (r: seq<T>)
    requires TotalPreorder(le)
    ensures multiset(r) == multiset(s)
    ensures SortedBy(r, le)
    ensures |r| == |s|
  {
    if s == [] then []
    else
      var rest := SortBy(s[1..], le);
      InsertSorted(s[0], rest, le);
      InsertHeadPermutes(s, rest, le);
      Insert(s[0], rest, le)
  }
}

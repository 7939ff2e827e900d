/** The two library sorts the code relies on: sort.Strings, whose result depends
    only on the multiset sorted, and a stable sort by an integer key. */
module Sorting {

  // ---- What a permutation keeps ----------------------------------------------

  predicate Distinct<T(==)>(s: seq<T>) {
    forall i, j :: 0 <= i < j < |s| ==> s[i] != s[j]
  }

  lemma SameElements<T>(a: seq<T>, b: seq<T>)
    requires multiset(a) == multiset(b)
    ensures forall x :: x in a <==> x in b
  {
    forall x ensures x in a <==> x in b {
      assert x in a <==> x in multiset(a);
      assert x in b <==> x in multiset(b);
    }
  }

  lemma {:induction false} CountOfDistinct<T>(a: seq<T>, x: T)
    requires Distinct(a)
    ensures multiset(a)[x] <= 1
  {
    if a != [] {
      assert a == [a[0]] + a[1..];
      CountOfDistinct(a[1..], x);
      if x == a[0] { assert x !in a[1..]; }
    }
  }

  lemma CountOf<T>(a: seq<T>, x: T)
    requires Distinct(a)
    ensures multiset(a)[x] == if x in a then 1 else 0
  {
    CountOfDistinct(a, x);
    assert x in a <==> x in multiset(a);
  }

  /** Lists without repetition are permutations as soon as they share elements. */
  lemma DistinctSameElements<T>(a: seq<T>, b: seq<T>)
    requires Distinct(a) && Distinct(b) && forall x :: x in a <==> x in b
    ensures multiset(a) == multiset(b)
  {
    forall x ensures multiset(a)[x] == multiset(b)[x] {
      CountOf(a, x);
      CountOf(b, x);
    }
  }

  lemma DistinctByMultiset<T>(a: seq<T>, b: seq<T>)
    requires multiset(a) == multiset(b) && Distinct(a)
    ensures Distinct(b)
  {
    forall i, j | 0 <= i < j < |b| ensures b[i] != b[j] {
      CountOfDistinct(a, b[i]);
      assert b == b[..i] + [b[i]] + b[i + 1..j] + [b[j]] + b[j + 1..];
    }
  }

  // ---- Strings, in code point order ------------------------------------------

  predicate Le(a: string, b: string) {
    a == "" || (b != "" && (a[0] < b[0] || (a[0] == b[0] && Le(a[1..], b[1..]))))
  }

  /** By the first character that differs; a prefix comes first. */
  lemma {:induction false} LeMeans(a: string, b: string)
    ensures Le(a, b) <==> a <= b || exists i :: 0 <= i < |a| && i < |b| && a[..i] == b[..i] && a[i] < b[i]
  {
    if a != "" && b != "" {
      assert a == [a[0]] + a[1..] && b == [b[0]] + b[1..];
      LeMeans(a[1..], b[1..]);
      forall i | 0 < i <= |a| && i <= |b| && a[..i] == b[..i] ensures a[0] == b[0] { assert a[..i][0] == b[..i][0]; }
      if a[0] == b[0] {
        if i :| 0 <= i < |a[1..]| && i < |b[1..]| && a[1..][..i] == b[1..][..i] && a[1..][i] < b[1..][i] {
          assert a[..i + 1] == [a[0]] + a[1..][..i] && b[..i + 1] == [b[0]] + b[1..][..i];
          assert a[i + 1] < b[i + 1];
        }
        if i :| 0 <= i < |a| && i < |b| && a[..i] == b[..i] && a[i] < b[i] {
          assert i > 0;
          assert a[1..][..i - 1] == a[..i][1..] && b[1..][..i - 1] == b[..i][1..];
          assert a[1..][i - 1] < b[1..][i - 1];
        }
      } else if a[0] < b[0] {
        assert a[..0] == b[..0] && a[0] < b[0];
      }
    }
  }

  lemma {:induction false} LeTotal(a: string, b: string)
    ensures Le(a, b) || Le(b, a)
  {
    if a != "" && b != "" && a[0] == b[0] { LeTotal(a[1..], b[1..]); }
  }

  lemma {:induction false} LeAntisymmetric(a: string, b: string)
    requires Le(a, b) && Le(b, a)
    ensures a == b
  {
    if a != "" {
      LeAntisymmetric(a[1..], b[1..]);
      assert a == [a[0]] + a[1..] && b == [b[0]] + b[1..];
    }
  }

  lemma {:induction false} LeTransitive(a: string, b: string, c: string)
    requires Le(a, b) && Le(b, c)
    ensures Le(a, c)
  {
    if a != "" && a[0] == b[0] == c[0] { LeTransitive(a[1..], b[1..], c[1..]); }
  }

  predicate Sorted(s: seq<string>) {
    forall i, j :: 0 <= i < j < |s| ==> Le(s[i], s[j])
  }

  function Insert(x: string, s: seq<string>): seq<string> {
    if s == [] || Le(x, s[0]) then [x] + s else [s[0]] + Insert(x, s[1..])
  }

  function Sort(s: seq<string>): seq<string> {
    if s == [] then [] else Insert(s[0], Sort(s[1..]))
  }

  lemma {:induction false} InsertPermutes(x: string, s: seq<string>)
    ensures multiset(Insert(x, s)) == multiset(s) + multiset{x}
  {
    if s != [] && !Le(x, s[0]) {
      assert s == [s[0]] + s[1..];
      InsertPermutes(x, s[1..]);
    }
  }

  lemma {:induction false} SortPermutes(s: seq<string>)
    ensures multiset(Sort(s)) == multiset(s)
  {
    if s != [] {
      assert s == [s[0]] + s[1..];
      SortPermutes(s[1..]);
      InsertPermutes(s[0], Sort(s[1..]));
    }
  }

  lemma {:induction false} InsertSorted(x: string, s: seq<string>)
    requires Sorted(s)
    ensures Sorted(Insert(x, s))
  {
    if s == [] {
    } else if Le(x, s[0]) {
      forall i | 0 <= i < |s| ensures Le(x, s[i]) {
        if i > 0 { LeTransitive(x, s[0], s[i]); }
      }
    } else {
      LeTotal(x, s[0]);
      InsertSorted(x, s[1..]);
      var r := Insert(x, s[1..]);
      InsertPermutes(x, s[1..]);
      forall y | y in r ensures Le(s[0], y) {
        assert y in multiset(r);
        assert y == x || y in s[1..];
      }
    }
  }

  lemma {:induction false} SortSorted(s: seq<string>)
    ensures Sorted(Sort(s))
  {
    if s != [] {
      SortSorted(s[1..]);
      InsertSorted(s[0], Sort(s[1..]));
    }
  }

  lemma TailMultiset<T>(s: seq<T>)
    requires s != []
    ensures multiset(s[1..]) == multiset(s) - multiset{s[0]}
  {
    assert s == [s[0]] + s[1..];
  }

  lemma SmallestFirst(a: seq<string>, b: seq<string>)
    requires Sorted(a) && multiset(a) == multiset(b) && a != []
    ensures b != [] && Le(a[0], b[0])
  {
    assert a[0] in multiset(b) && |b| == |multiset(b)|;
    assert b[0] in multiset(a);
    var j :| 0 <= j < |a| && a[j] == b[0];
    LeTotal(a[0], a[0]);
  }

  lemma {:induction false} SortedUnique(a: seq<string>, b: seq<string>)
    requires Sorted(a) && Sorted(b) && multiset(a) == multiset(b)
    ensures a == b
  {
    if a == [] {
      assert |b| == |multiset(b)|;
    } else {
      SameHead(a, b);
      TailMultiset(a);
      TailMultiset(b);
      SortedUnique(a[1..], b[1..]);
      assert a == [a[0]] + a[1..] && b == [b[0]] + b[1..];
    }
  }

  lemma SameHead(a: seq<string>, b: seq<string>)
    requires Sorted(a) && Sorted(b) && multiset(a) == multiset(b) && a != []
    ensures b != [] && a[0] == b[0]
  {
    SmallestFirst(a, b);
    SmallestFirst(b, a);
    LeAntisymmetric(a[0], b[0]);
  }

  /** Sorting is a canonical form: it forgets the order and nothing else. */
  lemma SortIsCanonical(a: seq<string>, b: seq<string>)
    ensures Sort(a) == Sort(b) <==> multiset(a) == multiset(b)
  {
    SortPermutes(a);
    SortPermutes(b);
    if multiset(a) == multiset(b) {
      SortSorted(a);
      SortSorted(b);
      SortedUnique(Sort(a), Sort(b));
    }
  }

  // ---- Stable sort by key ----------------------------------------------------

  predicate Ascending<T>(s: seq<T>, key: T -> int) {
    forall i, j :: 0 <= i < j < |s| ==> key(s[i]) <= key(s[j])
  }

  /** The elements of one key, in the order they stand. */
  function WithKey<T>(s: seq<T>, key: T -> int, k: int): seq<T> {
    if s == [] then []
    else (if key(s[0]) == k then [s[0]] else []) + WithKey(s[1..], key, k)
  }

  function InsertBy<T>(x: T, s: seq<T>, key: T -> int): (r: seq<T>)
    ensures multiset(r) == multiset(s) + multiset{x}
  {
    if s == [] || key(x) <= key(s[0]) then [x] + s
    else
      assert s == [s[0]] + s[1..];
      [s[0]] + InsertBy(x, s[1..], key)
  }

  function StableSort<T>(s: seq<T>, key: T -> int): (r: seq<T>)
    ensures multiset(r) == multiset(s)
  {
    if s == [] then [] else assert s == [s[0]] + s[1..]; InsertBy(s[0], StableSort(s[1..], key), key)
  }

  lemma {:induction false} InsertByAscends<T>(x: T, s: seq<T>, key: T -> int)
    requires Ascending(s, key)
    ensures Ascending(InsertBy(x, s, key), key)
  {
    if s != [] && key(x) > key(s[0]) {
      InsertByAscends(x, s[1..], key);
      var r := InsertBy(x, s[1..], key);
      forall i | 0 <= i < |r| ensures key(s[0]) <= key(r[i]) {
        assert r[i] in multiset(r);
        assert r[i] == x || r[i] in s[1..];
      }
    }
  }

  lemma WithKeyCons<T>(x: T, s: seq<T>, key: T -> int, k: int)
    ensures WithKey([x] + s, key, k) == if key(x) == k then [x] + WithKey(s, key, k) else WithKey(s, key, k)
  {
    assert ([x] + s)[1..] == s;
  }

  lemma {:induction false} InsertByIsStable<T>(x: T, s: seq<T>, key: T -> int, k: int)
    ensures WithKey(InsertBy(x, s, key), key, k) == WithKey([x] + s, key, k)
  {
    if s != [] && key(x) > key(s[0]) {
      var y, rest := s[0], s[1..];
      InsertByIsStable(x, rest, key, k);
      WithKeyCons(y, InsertBy(x, rest, key), key, k);
      WithKeyCons(x, rest, key, k);
      WithKeyCons(x, s, key, k);
      WithKeyCons(y, rest, key, k);
      assert s == [y] + rest;
    }
  }

  /** The result ascends, and elements of equal key keep their order ... */
  lemma {:induction false} StableSortKeeps<T>(s: seq<T>, key: T -> int, k: int)
    ensures Ascending(StableSort(s, key), key)
    ensures WithKey(StableSort(s, key), key, k) == WithKey(s, key, k)
  {
    if s != [] {
      StableSortKeeps(s[1..], key, k);
      var r := StableSort(s[1..], key);
      InsertByAscends(s[0], r, key);
      InsertByIsStable(s[0], r, key, k);
      WithKeyCons(s[0], r, key, k);
      WithKeyCons(s[0], s[1..], key, k);
      assert s == [s[0]] + s[1..];
    }
  }

  lemma {:induction false} WithKeyHas<T>(s: seq<T>, key: T -> int, k: int, x: T)
    ensures x in WithKey(s, key, k) <==> x in s && key(x) == k
  {
    if s != [] {
      WithKeyHas(s[1..], key, k, x);
      assert s == [s[0]] + s[1..];
    }
  }

  ghost predicate SameByKey<T>(a: seq<T>, b: seq<T>, key: T -> int) {
    forall k :: WithKey(a, key, k) == WithKey(b, key, k)
  }

  lemma LeastKeyFirst<T>(a: seq<T>, b: seq<T>, key: T -> int)
    requires a != [] && Ascending(a, key) && SameByKey(a, b, key)
    ensures b != [] && key(a[0]) <= key(b[0])
  {
    WithKeyHas(a, key, key(a[0]), a[0]);
    WithKeyHas(b, key, key(a[0]), a[0]);
    WithKeyHas(a, key, key(b[0]), b[0]);
    WithKeyHas(b, key, key(b[0]), b[0]);
    var j :| 0 <= j < |a| && a[j] == b[0];
  }

  lemma TailsSameByKey<T>(x: T, a: seq<T>, y: T, b: seq<T>, key: T -> int)
    requires key(x) == key(y) && SameByKey([x] + a, [y] + b, key)
    ensures x == y && SameByKey(a, b, key)
  {
    forall k ensures WithKey(a, key, k) == WithKey(b, key, k) && (k == key(x) ==> x == y) {
      WithKeyCons(x, a, key, k);
      WithKeyCons(y, b, key, k);
      if k == key(x) {
        var u, v := WithKey(a, key, k), WithKey(b, key, k);
        assert ([x] + u)[0] == x && ([y] + v)[0] == y && ([x] + u)[1..] == u && ([y] + v)[1..] == v;
      }
    }
  }

  /** ... and together these determine it: any ascending list that agrees key by
      key is the same list. */
  lemma {:induction false} StableSortIsUnique<T>(a: seq<T>, b: seq<T>, key: T -> int)
    requires Ascending(a, key) && Ascending(b, key) && SameByKey(a, b, key)
    ensures a == b
  {
    if a == [] {
      if b != [] { LeastKeyFirst(b, a, key); }
    } else {
      LeastKeyFirst(a, b, key);
      LeastKeyFirst(b, a, key);
      assert a == [a[0]] + a[1..] && b == [b[0]] + b[1..];
      TailsSameByKey(a[0], a[1..], b[0], b[1..], key);
      StableSortIsUnique(a[1..], b[1..], key);
    }
  }
}

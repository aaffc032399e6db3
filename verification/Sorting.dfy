/** `Array.prototype.sort` with string keys: a stable sort by JavaScript string order. */
module Sorting {
  import opened Strings

  ghost predicate Sorted<T>(xs: seq<T>, key: T -> string) {
    forall i, j :: 0 <= i < j < |xs| ==> !Less(key(xs[j]), key(xs[i]))
  }

  /** The key of the default sort. */
  function Itself(s: string): string {
    s
  }

  function Insert<T>(x: T, xs: seq<T>, key: T -> string): seq<T> {
    if xs == [] || !Less(key(xs[0]), key(x)) then [x] + xs
    else [xs[0]] + Insert(x, xs[1..], key)
  }

  function SortBy<T>(xs: seq<T>, key: T -> string): seq<T> {
    if xs == [] then [] else Insert(xs[0], SortBy(xs[1..], key), key)
  }

  lemma {:induction false} InsertAddsOne<T>(x: T, xs: seq<T>, key: T -> string)
    ensures multiset(Insert(x, xs, key)) == multiset(xs) + multiset{x}
  {
    if xs != [] && Less(key(xs[0]), key(x)) {
      InsertAddsOne(x, xs[1..], key);
      assert xs == [xs[0]] + xs[1..];
    }
  }

  lemma {:induction false} InsertKeepsSorted<T>(x: T, xs: seq<T>, key: T -> string)
    requires Sorted(xs, key)
    ensures Sorted(Insert(x, xs, key), key)
  {
    hide Less;
    if xs != [] && Less(key(xs[0]), key(x)) {
      var rest := Insert(x, xs[1..], key);
      InsertKeepsSorted(x, xs[1..], key);
      InsertAddsOne(x, xs[1..], key);
      LessIsTotal(key(xs[0]), key(x));
      forall j | 0 <= j < |rest|
        ensures !Less(key(rest[j]), key(xs[0]))
      {
        assert rest[j] in multiset(rest);
        assert rest[j] == x || rest[j] in xs[1..];
      }
    } else if xs != [] {
      forall j | 0 <= j < |xs|
        ensures !Less(key(xs[j]), key(x))
      {
        LessIsTotal(key(xs[0]), key(xs[0]));
        NotLessChain(key(x), key(xs[0]), key(xs[j]));
      }
    }
  }

  /** "Not after" is transitive. */
  lemma NotLessChain(a: string, b: string, c: string)
    requires !Less(b, a) && !Less(c, b)
    ensures !Less(c, a)
  {
    LessIsTotal(a, b);
    LessIsTotal(b, c);
    if Less(c, a) && Less(a, b) {
      LessIsTransitive(c, a, b);
    }
  }

  lemma {:induction false} SortByIsSortedPermutation<T>(xs: seq<T>, key: T -> string)
    ensures Sorted(SortBy(xs, key), key)
    ensures multiset(SortBy(xs, key)) == multiset(xs)
  {
    if xs != [] {
      SortByIsSortedPermutation(xs[1..], key);
      InsertKeepsSorted(xs[0], SortBy(xs[1..], key), key);
      InsertAddsOne(xs[0], SortBy(xs[1..], key), key);
      assert xs == [xs[0]] + xs[1..];
    }
  }

  /** The elements with one key, in order. */
  function WithKey<T>(xs: seq<T>, key: T -> string, k: string): seq<T> {
    if xs == [] then [] else (if key(xs[0]) == k then [xs[0]] else []) + WithKey(xs[1..], key, k)
  }

  lemma WithKeyStep<T>(x: T, xs: seq<T>, key: T -> string, k: string)
    ensures WithKey([x] + xs, key, k) == (if key(x) == k then [x] else []) + WithKey(xs, key, k)
  {
    assert ([x] + xs)[1..] == xs;
  }

  lemma {:induction false} InsertIsStable<T>(x: T, xs: seq<T>, key: T -> string, k: string)
    ensures WithKey(Insert(x, xs, key), key, k) == (if key(x) == k then [x] else []) + WithKey(xs, key, k)
  {
    if xs == [] || !Less(key(xs[0]), key(x)) {
      WithKeyStep(x, xs, key, k);
    } else {
      LessIsTotal(key(xs[0]), key(x));
      InsertIsStable(x, xs[1..], key, k);
      WithKeyStep(xs[0], Insert(x, xs[1..], key), key, k);
    }
  }

  /** Elements with equal keys keep their order. */
  lemma {:induction false} SortByIsStable<T>(xs: seq<T>, key: T -> string, k: string)
    ensures WithKey(SortBy(xs, key), key, k) == WithKey(xs, key, k)
  {
    if xs != [] {
      SortByIsStable(xs[1..], key, k);
      InsertIsStable(xs[0], SortBy(xs[1..], key), key, k);
    }
  }

  lemma TailOfMultiset<T>(s: seq<T>)
    requires s != []
    ensures multiset(s[1..]) == multiset(s) - multiset{s[0]}
  {
    assert s == [s[0]] + s[1..];
  }

  /** An arrangement of the same elements holds the first one somewhere; without it the rest still agree. */
  lemma FindAndRemove<T>(a: seq<T>, b: seq<T>) returns (m: nat)
    requires a != [] && multiset(a) == multiset(b)
    ensures m < |b| && b[m] == a[0]
    ensures multiset(a[1..]) == multiset(b[..m] + b[m + 1..])
  {
    assert a[0] in multiset(b);
    m :| 0 <= m < |b| && b[m] == a[0];
    assert b == b[..m] + ([b[m]] + b[m + 1..]);
    TailOfMultiset(a);
  }

  /** When equal keys mean equal elements, a multiset has one sorted arrangement. */
  lemma {:induction false} SortedIsUnique<T>(a: seq<T>, b: seq<T>, key: T -> string)
    requires Sorted(a, key) && Sorted(b, key)
    requires multiset(a) == multiset(b)
    requires forall x <- a, y <- a :: key(x) == key(y) ==> x == y
    ensures a == b
  {
    hide Less, Sorted;
    SameLength(a, b);
    if a != [] {
      SmallestComesFirst(a, b, key);
      TailOfMultiset(a);
      TailOfMultiset(b);
      SortedTail(a, key);
      SortedTail(b, key);
      assert forall x <- a[1..] :: x in a;
      SortedIsUnique(a[1..], b[1..], key);
      assert a == [a[0]] + a[1..] && b == [b[0]] + b[1..];
    }
  }

  lemma SameLength<T>(a: seq<T>, b: seq<T>)
    requires multiset(a) == multiset(b)
    ensures |a| == |b|
  {
    assert |a| == |multiset(a)| == |multiset(b)| == |b|;
  }

  lemma SortedTail<T>(xs: seq<T>, key: T -> string)
    requires xs != [] && Sorted(xs, key)
    ensures Sorted(xs[1..], key)
  {
    hide Less;
  }

  lemma SmallestComesFirst<T>(a: seq<T>, b: seq<T>, key: T -> string)
    requires a != [] && b != [] && Sorted(a, key) && Sorted(b, key)
    requires multiset(a) == multiset(b)
    requires forall x <- a, y <- a :: key(x) == key(y) ==> x == y
    ensures a[0] == b[0]
  {
    hide Less;
    assert a[0] in multiset(b) && b[0] in multiset(a);
    var i :| 0 <= i < |a| && a[i] == b[0];
    var j :| 0 <= j < |b| && b[j] == a[0];
    LessIsTotal(key(a[0]), key(b[0]));
  }
}

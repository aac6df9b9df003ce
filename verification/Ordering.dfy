/** Comparators, sorting and the iteration order of ordered containers.
    `std::sort` and the traversal of `std::map`/`std::set` are modelled by SortBy and
    SortedKeys; SortIsTheOnlySorting shows that nothing depends on the algorithm chosen. */
module Ordering {
  import opened Types

  ghost predicate StrictOrder<T(!new)>(less: (T, T) -> bool) {
    && (forall x :: !less(x, x))
    && (forall x, y, z :: less(x, y) && less(y, z) ==> less(x, z))
  }

  /** Incomparability is transitive: the requirement of `std::sort` on its comparator. */
  ghost predicate WeakOrder<T(!new)>(less: (T, T) -> bool) {
    && StrictOrder(less)
    && (forall x, y, z :: less(x, z) ==> less(x, y) || less(y, z))
  }

  /** Any two different elements of `s` are comparable. */
  ghost predicate TotalOn<T>(less: (T, T) -> bool, s: multiset<T>) {
    forall x, y :: x in s && y in s ==> x == y || less(x, y) || less(y, x)
  }

  ghost predicate TotalOrder<T(!new)>(less: (T, T) -> bool) {
    StrictOrder(less) && forall x, y :: x == y || less(x, y) || less(y, x)
  }

  ghost predicate Sorted<T>(less: (T, T) -> bool, s: seq<T>) {
    forall i, j :: 0 <= i < j < |s| ==> !less(s[j], s[i])
  }

  ghost predicate StrictlySorted<T>(less: (T, T) -> bool, s: seq<T>) {
    forall i, j :: 0 <= i < j < |s| ==> less(s[i], s[j])
  }

  function Insert<T>(less: (T, T) -> bool, x: T, s: seq<T>): (r: seq<T>)
    ensures multiset(r) == multiset([x]) + multiset(s)
    ensures |r| == |s| + 1
  {
    if s == [] then [x]
    else if !less(s[0], x) then [x] + s
    else
      assert s == [s[0]] + s[1..];
      [s[0]] + Insert(less, x, s[1..])
  }

  function SortBy<T>(less: (T, T) -> bool, s: seq<T>): (r: seq<T>)
    ensures multiset(r) == multiset(s)
    ensures |r| == |s|
  {
    if s == [] then []
    else
      assert s == [s[0]] + s[1..];
      Insert(less, s[0], SortBy(less, s[1..]))
  }

  lemma {:induction false} InsertKeepsSorted<T(!new)>(less: (T, T) -> bool, x: T, s: seq<T>)
    requires WeakOrder(less) && Sorted(less, s)
    ensures Sorted(less, Insert(less, x, s))
  {
    var r := Insert(less, x, s);
    if s == [] {
    } else if !less(s[0], x) {
      forall j | 0 < j < |r| ensures !less(r[j], r[0]) {
        assert r[j] == s[j - 1];
      }
    } else {
      var t := Insert(less, x, s[1..]);
      InsertKeepsSorted(less, x, s[1..]);
      forall j | 0 < j < |r| ensures !less(r[j], r[0]) {
        assert r[j] == t[j - 1] && t[j - 1] in multiset(t);
        assert r[j] == x || r[j] in s[1..];
      }
    }
  }

  /** The sorting function sorts, for every comparator `std::sort` admits. */
  lemma {:induction false} SortBySorts<T(!new)>(less: (T, T) -> bool, s: seq<T>)
    requires WeakOrder(less)
    ensures Sorted(less, SortBy(less, s))
  {
    if s != [] {
      SortBySorts(less, s[1..]);
      InsertKeepsSorted(less, s[0], SortBy(less, s[1..]));
    }
  }

  lemma SameMultisetTail<T>(a: seq<T>, b: seq<T>)
    requires a != [] && b != [] && a[0] == b[0] && multiset(a) == multiset(b)
    ensures multiset(a[1..]) == multiset(b[1..])
  {
    assert a == [a[0]] + a[1..] && b == [b[0]] + b[1..];
    assert multiset(a[1..]) == multiset(a) - multiset([a[0]]);
    assert multiset(b[1..]) == multiset(b) - multiset([b[0]]);
  }

  lemma SortedHeadsAgree<T(!new)>(less: (T, T) -> bool, a: seq<T>, b: seq<T>)
    requires Sorted(less, a) && Sorted(less, b) && a != [] && b != []
    requires multiset(a) == multiset(b) && TotalOn(less, multiset(a))
    ensures a[0] == b[0]
  {
    assert a[0] in multiset(b) && b[0] in multiset(a);
    var i :| 0 <= i < |b| && b[i] == a[0];
    var j :| 0 <= j < |a| && a[j] == b[0];
  }

  lemma TotalOnTail<T(!new)>(less: (T, T) -> bool, a: seq<T>)
    requires a != [] && TotalOn(less, multiset(a))
    ensures TotalOn(less, multiset(a[1..]))
  {
    assert a == [a[0]] + a[1..];
    assert forall x :: x in multiset(a[1..]) ==> x in multiset(a);
  }

  /** A sorted arrangement of given elements is unique when different elements compare. */
  lemma {:induction false} SortingIsUnique<T(!new)>(less: (T, T) -> bool, a: seq<T>, b: seq<T>)
    requires Sorted(less, a) && Sorted(less, b)
    requires multiset(a) == multiset(b) && TotalOn(less, multiset(a))
    ensures a == b
  {
    if a == [] {
      assert |multiset(b)| == 0;
    } else {
      assert |multiset(b)| == |b| && |multiset(a)| == |a|;
      SortedHeadsAgree(less, a, b);
      SameMultisetTail(a, b);
      TotalOnTail(less, a);
      SortingIsUnique(less, a[1..], b[1..]);
      assert a == [a[0]] + a[1..] && b == [b[0]] + b[1..];
    }
  }

  /** Whatever algorithm produced `r`, it is SortBy's answer; and arrival order is forgotten. */
  lemma SortIsTheOnlySorting<T(!new)>(less: (T, T) -> bool, s: seq<T>, r: seq<T>)
    requires WeakOrder(less) && TotalOn(less, multiset(s))
    requires multiset(r) == multiset(s)
    ensures SortBy(less, r) == SortBy(less, s)
    ensures Sorted(less, r) ==> r == SortBy(less, s)
  {
    SortBySorts(less, s);
    SortBySorts(less, r);
    SortingIsUnique(less, SortBy(less, r), SortBy(less, s));
    if Sorted(less, r) {
      SortingIsUnique(less, r, SortBy(less, s));
    }
  }

  lemma TotalOrderIsWeak<T(!new)>(less: (T, T) -> bool)
    requires TotalOrder(less)
    ensures WeakOrder(less)
  {
  }

  /** Some enumeration of a finite set. */
  ghost function Enumerate<T>(s: set<T>): (r: seq<T>)
    ensures multiset(r) == multiset(s) && |r| == |s|
  {
    if s == {} then []
    else
      var x :| x in s;
      assert multiset(s) == multiset([x]) + multiset(s - {x});
      [x] + Enumerate(s - {x})
  }

  /** The elements of an ordered set, or the keys of an ordered map, in traversal order. */
  ghost function SortedKeys<T(!new)>(less: (T, T) -> bool, s: set<T>): (r: seq<T>)
    ensures multiset(r) == multiset(s) && |r| == |s|
    ensures forall x :: x in r <==> x in s
  {
    var r := SortBy(less, Enumerate(s));
    assert forall x :: x in r <==> x in multiset(r);
    r
  }

  lemma TwoOccurrences<T>(r: seq<T>, i: nat, j: nat)
    requires i < j < |r| && r[i] == r[j]
    ensures multiset(r)[r[i]] >= 2
  {
    assert r == r[..i] + [r[i]] + r[i + 1..j] + [r[j]] + r[j + 1..];
  }

  lemma DistinctFromSet<T>(s: set<T>, r: seq<T>)
    requires multiset(r) == multiset(s)
    ensures forall i, j :: 0 <= i < j < |r| ==> r[i] != r[j]
  {
    forall i, j | 0 <= i < j < |r| ensures r[i] != r[j] {
      if r[i] == r[j] {
        TwoOccurrences(r, i, j);
        assert false;
      }
    }
  }

  lemma SortedKeysSorted<T(!new)>(less: (T, T) -> bool, s: set<T>)
    requires TotalOrder(less)
    ensures StrictlySorted(less, SortedKeys(less, s))
  {
    TotalOrderIsWeak(less);
    SortBySorts(less, Enumerate(s));
    DistinctFromSet(s, SortedKeys(less, s));
  }

  lemma SortedKeysUnique<T(!new)>(less: (T, T) -> bool, s: set<T>, r: seq<T>)
    requires TotalOrder(less)
    requires StrictlySorted(less, r)
    requires forall x :: x in r <==> x in s
    ensures r == SortedKeys(less, s)
  {
    var k := SortedKeys(less, s);
    SortedKeysSorted(less, s);
    StrictlySortedDistinct(less, r);
    DistinctMultiset(r, s);
    SortingIsUnique(less, r, k);
  }

  lemma StrictlySortedDistinct<T(!new)>(less: (T, T) -> bool, r: seq<T>)
    requires StrictOrder(less) && StrictlySorted(less, r)
    ensures forall i, j :: 0 <= i < j < |r| ==> r[i] != r[j]
    ensures Sorted(less, r)
  {
  }

  lemma {:induction false} DistinctMultiset<T>(r: seq<T>, s: set<T>)
    requires forall i, j :: 0 <= i < j < |r| ==> r[i] != r[j]
    requires forall x :: x in r <==> x in s
    ensures multiset(r) == multiset(s)
  {
    if r == [] {
      assert s == {};
    } else {
      var h, t := r[0], r[1..];
      assert r == [h] + t;
      forall x ensures x in t <==> x in s - {h} {
        if x in t { assert x in r; }
        if x in s - {h} { assert x in r; }
      }
      DistinctMultiset(t, s - {h});
      assert multiset(s) == multiset([h]) + multiset(s - {h});
    }
  }

  /** Traversal of an ordered set, as code sees it. */
  method KeysInOrder<T(!new, ==)>(less: (T, T) -> bool, s: set<T>) returns (ks: seq<T>)
    requires TotalOrder(less)
    ensures ks == SortedKeys(less, s)
  {
    var rest := s;
    ks := [];
    while rest != {}
      invariant rest <= s && multiset(ks) + multiset(rest) == multiset(s)
      decreases rest
    {
      var x :| x in rest;
      assert multiset(rest) == multiset([x]) + multiset(rest - {x});
      ks := ks + [x];
      rest := rest - {x};
    }
    TotalOrderIsWeak(less);
    SortIsTheOnlySorting(less, Enumerate(s), ks);
    ks := SortBy(less, ks);
  }

  // ---- the comparators

  predicate IntLess(a: int, b: int) { a < b }

  predicate U64Less(a: u64, b: u64) { a < b }

  lemma IntLessTotal()
    ensures TotalOrder(IntLess)
  {
  }

  /** `operator<` of byte strings: lexicographic on unsigned bytes. */
  predicate BytesLess(a: Bytes, b: Bytes)
    decreases |a|
  {
    if b == [] then false
    else if a == [] then true
    else a[0] < b[0] || (a[0] == b[0] && BytesLess(a[1..], b[1..]))
  }

  lemma {:induction false} BytesLessIrreflexive(a: Bytes)
    ensures !BytesLess(a, a)
    decreases |a|
  {
    if a != [] { BytesLessIrreflexive(a[1..]); }
  }

  lemma {:induction false} BytesLessTransitive(a: Bytes, b: Bytes, c: Bytes)
    requires BytesLess(a, b) && BytesLess(b, c)
    ensures BytesLess(a, c)
    decreases |a|
  {
    if a != [] && a[0] == b[0] && b[0] == c[0] {
      BytesLessTransitive(a[1..], b[1..], c[1..]);
    }
  }

  lemma {:induction false} BytesLessComparable(a: Bytes, b: Bytes)
    ensures a == b || BytesLess(a, b) || BytesLess(b, a)
    decreases |a|
  {
    if a != [] && b != [] {
      BytesLessComparable(a[1..], b[1..]);
      assert a == [a[0]] + a[1..] && b == [b[0]] + b[1..];
    }
  }

  /** One string comes before another at the first difference, or by being its proper prefix. */
  ghost predicate DiffersAt(a: Bytes, b: Bytes, i: nat) {
    && i <= |a| && i < |b| && a[..i] == b[..i]
    && (i == |a| || a[i] < b[i])
  }

  lemma SameHead(a: Bytes, b: Bytes, i: nat)
    requires DiffersAt(a, b, i) && i > 0
    ensures a[0] == b[0]
  {
    assert a[..i][0] == b[..i][0];
  }

  lemma {:induction false} BytesLessIsLexicographic(a: Bytes, b: Bytes)
    ensures BytesLess(a, b) <==> exists i: nat :: DiffersAt(a, b, i)
    decreases |a|
  {
    if a == [] || b == [] {
      if b != [] { assert DiffersAt(a, b, 0); }
    } else if a[0] != b[0] {
      if a[0] < b[0] { assert DiffersAt(a, b, 0); }
      forall i: nat | DiffersAt(a, b, i) ensures i == 0 {
        if i > 0 { SameHead(a, b, i); }
      }
    } else {
      BytesLessIsLexicographic(a[1..], b[1..]);
      forall i: nat ensures DiffersAt(a[1..], b[1..], i) <==> DiffersAt(a, b, i + 1) { ShiftDifference(a, b, i); }
      if i: nat :| DiffersAt(a, b, i) {
        assert i > 0;
        assert DiffersAt(a[1..], b[1..], i - 1);
      }
    }
  }

  lemma PrefixOfRest(a: Bytes, i: nat)
    requires i < |a|
    ensures a[..i + 1] == [a[0]] + a[1..][..i] && a[..i + 1][1..] == a[1..][..i]
  {
  }

  lemma ShiftDifference(a: Bytes, b: Bytes, i: nat)
    requires a != [] && b != [] && a[0] == b[0]
    ensures DiffersAt(a[1..], b[1..], i) <==> DiffersAt(a, b, i + 1)
  {
    if i < |a| && i < |b| {
      PrefixOfRest(a, i);
      PrefixOfRest(b, i);
      assert a[1..][..i] == b[1..][..i] <==> a[..i + 1] == b[..i + 1];
      if i < |a| - 1 { assert a[1..][i] == a[i + 1]; }
      if i < |b| - 1 { assert b[1..][i] == b[i + 1]; }
    }
  }

  lemma BytesLessTotal()
    ensures TotalOrder(BytesLess)
  {
    forall a: Bytes ensures !BytesLess(a, a) { BytesLessIrreflexive(a); }
    forall a: Bytes, b: Bytes, c: Bytes | BytesLess(a, b) && BytesLess(b, c) ensures BytesLess(a, c) {
      BytesLessTransitive(a, b, c);
    }
    forall a: Bytes, b: Bytes ensures a == b || BytesLess(a, b) || BytesLess(b, a) { BytesLessComparable(a, b); }
  }
}

/** Go's ordering of strings and the in-place sorts (sort.Strings,
    sort.Slice) the generator applies, modelled on sequence values. */
module Sorting {

  /** Go's `<` on strings: lexicographic by character, a proper prefix first. */
  predicate StrLess(a: string, b: string)
    decreases |a|
  {
    |b| > 0 && (|a| == 0 || a[0] < b[0] || (a[0] == b[0] && StrLess(a[1..], b[1..])))
  }

  lemma {:induction false} StrLessIrreflexive(a: string)
    ensures !StrLess(a, a)
  {
    if |a| > 0 {
      StrLessIrreflexive(a[1..]);
    }
  }

  lemma {:induction false} StrLessTransitive(a: string, b: string, c: string)
    requires StrLess(a, b) && StrLess(b, c)
    ensures StrLess(a, c)
    decreases |a|
  {
    if |a| > 0 && a[0] == b[0] && b[0] == c[0] {
      StrLessTransitive(a[1..], b[1..], c[1..]);
    }
  }

  lemma {:induction false} StrLessTotal(a: string, b: string)
    ensures a == b || StrLess(a, b) || StrLess(b, a)
    decreases |a|
  {
    if |a| > 0 && |b| > 0 && a[0] == b[0] {
      StrLessTotal(a[1..], b[1..]);
      if a[1..] == b[1..] {
        assert a == [a[0]] + a[1..] && b == [b[0]] + b[1..];
      }
    }
  }

  /** Strictly ascending strings: no repeats, and none less than one before it. */
  predicate Ascending(s: seq<string>) {
    Distinct(s) && forall i, j :: 0 <= i < j < |s| ==> !StrLess(s[j], s[i])
  }

  /** Two lists with the same elements are empty together. */
  lemma SameElementsEmpty<T>(a: seq<T>, b: seq<T>)
    requires forall x :: x in a <==> x in b
    ensures |a| == 0 <==> |b| == 0
  {
    if |a| > 0 {
      assert a[0] in b;
    }
    if |b| > 0 {
      assert b[0] in a;
    }
  }

  /** A set of strings has one ascending listing: two ascending lists with
      the same elements are equal, so sort.Strings on a list without
      repeats fixes the result. */
  lemma {:induction false} AscendingUnique(a: seq<string>, b: seq<string>)
    requires Ascending(a) && Ascending(b)
    requires forall x :: x in a <==> x in b
    ensures a == b
  {
    SameElementsEmpty(a, b);
    if |a| > 0 {
      assert a[0] in b;
      var j :| 0 <= j < |b| && b[j] == a[0];
      assert b[0] in a;
      var i :| 0 <= i < |a| && a[i] == b[0];
      if a[0] != b[0] {
        assert i > 0 && j > 0;
        assert !StrLess(b[0], a[0]) && !StrLess(a[0], b[0]);
        StrLessTotal(a[0], b[0]);
        assert false;
      }
      forall x ensures x in a[1..] <==> x in b[1..] {
        assert x in a[1..] <==> x in a && x != a[0];
        assert x in b[1..] <==> x in b && x != b[0];
      }
      assert Ascending(a[1..]) && Ascending(b[1..]);
      AscendingUnique(a[1..], b[1..]);
      assert a == [a[0]] + a[1..] && b == [b[0]] + b[1..];
    }
  }

  /** What sort.Slice needs of its less function here: irreflexive and transitive. */
  ghost predicate StrictOrder<T(!new)>(less: (T, T) -> bool) {
    && (forall x :: !less(x, x))
    && (forall x, y, z :: less(x, y) && less(y, z) ==> less(x, z))
  }

  /** No element is less than one placed before it. */
  predicate SortedBy<T>(s: seq<T>, less: (T, T) -> bool) {
    forall i, j :: 0 <= i < j < |s| ==> !less(s[j], s[i])
  }

  lemma {:induction false} StrLessIsStrictOrder()
    ensures StrictOrder((a: string, b: string) => StrLess(a, b))
  {
    forall a: string { StrLessIrreflexive(a); }
    forall a: string, b: string, c: string | StrLess(a, b) && StrLess(b, c)
      ensures StrLess(a, c)
    {
      StrLessTransitive(a, b, c);
    }
  }

  /** Inserts `x` before the first element it is less than. */
  function Insert<T>(s: seq<T>, x: T, less: (T, T) -> bool): (r: seq<T>)
    ensures multiset(r) == multiset(s) + multiset{x}
  {
    if |s| == 0 then [x]
    else if less(x, s[0]) then [x] + s
    else
      assert s == [s[0]] + s[1..];
      [s[0]] + Insert(s[1..], x, less)
  }

  lemma {:induction false} InsertSorted<T(!new)>(s: seq<T>, x: T, less: (T, T) -> bool)
    requires StrictOrder(less) && SortedBy(s, less)
    ensures SortedBy(Insert(s, x, less), less)
  {
    if |s| > 0 && !less(x, s[0]) {
      var tail := Insert(s[1..], x, less);
      InsertSorted(s[1..], x, less);
      forall j | 0 <= j < |tail| ensures !less(tail[j], s[0]) {
        assert tail[j] in multiset(tail);
        if tail[j] != x {
          assert tail[j] in s[1..];
        }
      }
      assert Insert(s, x, less) == [s[0]] + tail;
    }
  }

  predicate Distinct<T(==)>(s: seq<T>) {
    forall i, j :: 0 <= i < j < |s| ==> s[i] != s[j]
  }

  lemma {:induction false} InsertFresh<T>(s: seq<T>, x: T, less: (T, T) -> bool)
    requires Distinct(s) && x !in s
    ensures Distinct(Insert(s, x, less))
  {
    if |s| > 0 && !less(x, s[0]) {
      assert Distinct(s[1..]);
      InsertFresh(s[1..], x, less);
      var tail := Insert(s[1..], x, less);
      forall j | 0 <= j < |tail| ensures tail[j] != s[0] {
        assert tail[j] in multiset(tail);
      }
      var r := [s[0]] + tail;
      assert Insert(s, x, less) == r;
      forall i, j | 0 <= i < j < |r| ensures r[i] != r[j] {
        if i > 0 {
          assert r[i] == tail[i - 1] && r[j] == tail[j - 1];
        }
      }
    }
  }

  /** Inserting the next input element keeps the sorted prefix free of repeats. */
  lemma {:induction false} InsertNext<T>(s: seq<T>, i: nat, r: seq<T>, less: (T, T) -> bool)
    requires i < |s| && Distinct(s) && Distinct(r) && multiset(r) == multiset(s[..i])
    ensures Distinct(Insert(r, s[i], less))
  {
    assert s[i] !in s[..i];
    assert s[i] !in multiset(r);
    InsertFresh(r, s[i], less);
  }

  /** sort.Slice / sort.Strings: the result is ordered by `less` and holds
      exactly the input's elements. */
  method SortSlice<T(==,!new)>(s: seq<T>, less: (T, T) -> bool) returns (r: seq<T>)
    requires StrictOrder(less)
    ensures SortedBy(r, less)
    ensures multiset(r) == multiset(s)
    ensures Distinct(s) ==> Distinct(r)
  {
    r := [];
    var i := 0;
    while i < |s|
      invariant 0 <= i <= |s|
      invariant SortedBy(r, less)
      invariant multiset(r) == multiset(s[..i])
      invariant Distinct(s) ==> Distinct(r)
    {
      assert s[..i + 1] == s[..i] + [s[i]];
      if Distinct(s) {
        InsertNext(s, i, r, less);
      }
      InsertSorted(r, s[i], less);
      r := Insert(r, s[i], less);
      i := i + 1;
    }
    assert s[..i] == s;
  }

  /** sort.Strings. */
  method SortStrings(s: seq<string>) returns (r: seq<string>)
    ensures forall i, j :: 0 <= i < j < |r| ==> !StrLess(r[j], r[i])
    ensures multiset(r) == multiset(s)
    ensures Distinct(s) ==> Distinct(r)
  {
    StrLessIsStrictOrder();
    r := SortSlice(s, (a: string, b: string) => StrLess(a, b));
  }
}

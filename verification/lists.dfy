/** The order-preserving list helpers of the generator: uniqueStrings,
    sliceUnion and the de-duplication of discovered root-module paths. */
module Lists {
  import opened Sorting

  /** The elements of `s` in the order of their first occurrence. */
  function Unique(s: seq<string>): (r: seq<string>)
    ensures Distinct(r)
    ensures forall x :: x in r <==> x in s
    ensures |r| <= |s|
  {
    if |s| == 0 then []
    else
      var init := s[..|s| - 1];
      var x := s[|s| - 1];
      assert s == init + [x];
      if x in init then Unique(init) else Unique(init) + [x]
  }

  /** Position of the first occurrence of `x` in `s`. */
  function FirstIndex(s: seq<string>, x: string): (i: nat)
    requires x in s
    ensures i < |s| && s[i] == x
    ensures forall k :: 0 <= k < i ==> s[k] != x
  {
    if s[0] == x then 0 else 1 + FirstIndex(s[1..], x)
  }

  lemma {:induction false} FirstIndexOfPrefix(s: seq<string>, n: nat, x: string)
    requires n <= |s| && x in s[..n]
    ensures FirstIndex(s, x) == FirstIndex(s[..n], x)
  {
    var i := FirstIndex(s[..n], x);
    var j := FirstIndex(s, x);
    assert s[..n][i] == s[i];
  }

  /** Unique keeps first occurrences in their original relative order. */
  lemma {:induction false} UniqueFirstOccurrenceOrder(s: seq<string>)
    ensures forall i, j :: 0 <= i < j < |Unique(s)| ==>
      FirstIndex(s, Unique(s)[i]) < FirstIndex(s, Unique(s)[j])
  {
    if |s| > 0 {
      var init := s[..|s| - 1];
      var x := s[|s| - 1];
      UniqueFirstOccurrenceOrder(init);
      var u := Unique(init);
      forall y | y in init ensures FirstIndex(s, y) == FirstIndex(init, y) {
        FirstIndexOfPrefix(s, |s| - 1, y);
      }
      if x !in init {
        assert Unique(s) == u + [x];
        assert FirstIndex(s, x) == |s| - 1;
      }
    }
  }

  /** A list without duplicates is its own Unique. */
  lemma {:induction false} UniqueOfNoDup(s: seq<string>)
    requires Distinct(s)
    ensures Unique(s) == s
  {
    if |s| > 0 {
      var init := s[..|s| - 1];
      assert s[|s| - 1] !in init;
      UniqueOfNoDup(init);
      assert s == init + [s[|s| - 1]];
    }
  }

  lemma {:induction false} UniqueIdempotent(s: seq<string>)
    ensures Unique(Unique(s)) == Unique(s)
  {
    UniqueOfNoDup(Unique(s));
  }

  /** Unique of a concatenation starts with Unique of its first part. */
  lemma {:induction false} UniqueOfAppendHasPrefix(a: seq<string>, b: seq<string>)
    ensures |Unique(a)| <= |Unique(a + b)|
    ensures Unique(a + b)[..|Unique(a)|] == Unique(a)
  {
    if |b| > 0 {
      var b' := b[..|b| - 1];
      UniqueOfAppendHasPrefix(a, b');
      assert (a + b)[..|a + b| - 1] == a + b';
    } else {
      assert a + b == a;
    }
  }

  lemma {:induction false} UniqueSnoc(s: seq<string>, x: string)
    ensures Unique(s + [x]) == if x in s then Unique(s) else Unique(s) + [x]
  {
    assert (s + [x])[..|s|] == s;
  }

  /** uniqueStrings. */
  method UniqueStrings(str: seq<string>) returns (list: seq<string>)
    ensures list == Unique(str)
  {
    var keys: set<string> := {};
    list := [];
    var i := 0;
    while i < |str|
      invariant 0 <= i <= |str|
      invariant list == Unique(str[..i])
      invariant forall x :: x in keys <==> x in str[..i]
    {
      var entry := str[i];
      assert str[..i + 1][..i] == str[..i];
      if entry !in keys {
        keys := keys + {entry};
        list := list + [entry];
      }
      i := i + 1;
    }
    assert str[..i] == str;
  }

  /** The elements of `b` that are not in `a`, in order, repeats kept. */
  function Missing(b: seq<string>, a: seq<string>): (r: seq<string>)
    ensures forall x :: x in r <==> x in b && x !in a
    ensures |r| <= |b|
  {
    if |b| == 0 then []
    else
      var init := b[..|b| - 1];
      var x := b[|b| - 1];
      assert b == init + [x];
      if x in a then Missing(init, a) else Missing(init, a) + [x]
  }

  /** sliceUnion(a, b): `a` unchanged, then the elements of `b` not in `a`. */
  method SliceUnion(a: seq<string>, b: seq<string>) returns (r: seq<string>)
    ensures r == a + Missing(b, a)
  {
    var m := ElementSet(a);
    r := a;
    ghost var added: seq<string> := [];
    var j := 0;
    while j < |b|
      invariant 0 <= j <= |b|
      invariant r == a + added
      invariant added == Missing(b[..j], a)
    {
      assert b[..j + 1][..j] == b[..j];
      if b[j] !in m {
        r := r + [b[j]];
        added := added + [b[j]];
      }
      j := j + 1;
    }
    assert b[..j] == b;
  }

  /** The set sliceUnion fills from its first slice. */
  method ElementSet(a: seq<string>) returns (m: set<string>)
    ensures forall x :: x in m <==> x in a
  {
    m := {};
    var i := 0;
    while i < |a|
      invariant 0 <= i <= |a|
      invariant forall x :: x in m <==> x in a[..i]
    {
      m := m + {a[i]};
      i := i + 1;
    }
    assert a[..i] == a;
  }

  /** Nothing of `b` is in `a`: all of `b` is appended, repeats included. */
  lemma {:induction false} MissingDisjoint(b: seq<string>, a: seq<string>)
    requires forall x :: x in b ==> x !in a
    ensures Missing(b, a) == b
  {
    if |b| > 0 {
      MissingDisjoint(b[..|b| - 1], a);
      assert b == b[..|b| - 1] + [b[|b| - 1]];
    }
  }

  /** Duplicate-free inputs give a duplicate-free union. */
  lemma {:induction false} SliceUnionNoDup(a: seq<string>, b: seq<string>)
    requires Distinct(a) && Distinct(b)
    ensures Distinct(a + Missing(b, a))
  {
    if |b| > 0 {
      var init := b[..|b| - 1];
      assert Distinct(init);
      SliceUnionNoDup(a, init);
      var x := b[|b| - 1];
      assert x !in init;
      assert x !in Missing(init, a);
      assert Missing(b, a) == if x in a then Missing(init, a) else Missing(init, a) + [x];
      if x !in a {
        var u := a + Missing(init, a);
        assert x !in u;
        assert a + Missing(b, a) == u + [x];
      }
    }
  }

  /** The concatenation of the walk results, in order. */
  function Flatten(batches: seq<seq<string>>): (r: seq<string>)
    ensures forall x :: x in r <==> exists k :: 0 <= k < |batches| && x in batches[k]
  {
    if |batches| == 0 then []
    else Flatten(batches[..|batches| - 1]) + batches[|batches| - 1]
  }

  /** The de-duplication of root-module paths in getAllTerraformRootModules:
      each path once, in the order it was first discovered across the
      working paths. */
  method DedupRootModulePaths(batches: seq<seq<string>>) returns (ordered: seq<string>)
    ensures ordered == Unique(Flatten(batches))
  {
    var seen: set<string> := {};
    ordered := [];
    ghost var done: seq<string> := [];
    var w := 0;
    while w < |batches|
      invariant 0 <= w <= |batches|
      invariant done == Flatten(batches[..w])
      invariant ordered == Unique(done)
      invariant forall x :: x in seen <==> x in done
    {
      ordered, seen := DedupBatch(batches[w], ordered, seen, done);
      done := done + batches[w];
      assert batches[..w + 1][..w] == batches[..w];
      w := w + 1;
    }
    assert batches[..w] == batches;
  }

  /** One batch of the walk: each path not seen before is appended, once. */
  method DedupBatch(paths: seq<string>, ordered0: seq<string>, seen0: set<string>, ghost done: seq<string>)
    returns (ordered: seq<string>, seen: set<string>)
    requires ordered0 == Unique(done)
    requires forall x :: x in seen0 <==> x in done
    ensures ordered == Unique(done + paths)
    ensures forall x :: x in seen <==> x in done + paths
  {
    ordered, seen := ordered0, seen0;
    var k := 0;
    assert done + paths[..0] == done;
    while k < |paths|
      invariant 0 <= k <= |paths|
      invariant ordered == Unique(done + paths[..k])
      invariant forall x :: x in seen <==> x in done + paths[..k]
    {
      var p := paths[k];
      UniqueSnoc(done + paths[..k], p);
      if p !in seen {
        ordered := ordered + [p];
        seen := seen + {p};
      }
      assert done + paths[..k + 1] == (done + paths[..k]) + [p];
      k := k + 1;
    }
    assert paths[..k] == paths;
  }
}

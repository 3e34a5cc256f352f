/** Slash-separated paths as in Go's path/filepath on a Unix host:
    Clean, Join, Dir, Rel and IsAbs, and the few strings helpers the
    generator uses.  filepath.ToSlash is the identity on such a host. */
module Paths {
  import opened Wrappers

  predicate IsAbs(p: string) {
    |p| > 0 && p[0] == '/'
  }

  predicate HasPrefix(s: string, prefix: string) {
    |prefix| <= |s| && s[..|prefix|] == prefix
  }

  predicate HasSuffix(s: string, suffix: string) {
    |suffix| <= |s| && s[|s| - |suffix|..] == suffix
  }

  /** strings.Contains: `sub` occurs somewhere in `s` (the empty string occurs everywhere). */
  predicate Contains(s: string, sub: string) {
    exists i | 0 <= i <= |s| - |sub| :: OccursAt(s, sub, i)
  }

  predicate OccursAt(s: string, sub: string, i: int)
    requires 0 <= i <= |s| - |sub|
  {
    s[i..i + |sub|] == sub
  }

  function TrimPrefix(s: string, prefix: string): (r: string)
    ensures HasPrefix(s, prefix) ==> s == prefix + r
    ensures !HasPrefix(s, prefix) ==> r == s
  {
    if HasPrefix(s, prefix) then s[|prefix|..] else s
  }

  function TrimSuffix(s: string, suffix: string): (r: string)
    ensures HasSuffix(s, suffix) ==> s == r + suffix
    ensures !HasSuffix(s, suffix) ==> r == s
  {
    if HasSuffix(s, suffix) then s[..|s| - |suffix|] else s
  }

  /** The '/'-separated fields of `s` (strings.Split with separator "/"). */
  function Split(s: string): (r: seq<string>)
    ensures |r| >= 1
  {
    if |s| == 0 then [""]
    else
      var rest := Split(s[1..]);
      if s[0] == '/' then [""] + rest
      else [[s[0]] + rest[0]] + rest[1..]
  }

  /** Segments that are non-empty and hold no separator. */
  predicate Segments(segs: seq<string>) {
    forall i :: 0 <= i < |segs| ==> segs[i] != "" && '/' !in segs[i]
  }

  predicate NoSlash(segs: seq<string>) {
    forall i :: 0 <= i < |segs| ==> '/' !in segs[i]
  }

  lemma {:induction false} SplitNoSlash(s: string)
    ensures NoSlash(Split(s))
  {
    if |s| > 0 {
      SplitNoSlash(s[1..]);
    }
  }

  /** strings.Join with separator "/". */
  function JoinSegments(segs: seq<string>): string {
    if |segs| == 0 then ""
    else if |segs| == 1 then segs[0]
    else segs[0] + "/" + JoinSegments(segs[1..])
  }

  /** The lexical processing of Clean: drop empty and "." elements, let ".."
      cancel the previous real element, and keep a leading ".." only on a
      relative path. */
  function Resolve(stack: seq<string>, segs: seq<string>, rooted: bool): (r: seq<string>)
    ensures |r| <= |stack| + |segs|
    decreases |segs|
  {
    if |segs| == 0 then stack
    else
      var s := segs[0];
      if s == "" || s == "." then Resolve(stack, segs[1..], rooted)
      else if s == ".." then
        if |stack| > 0 && stack[|stack| - 1] != ".." then Resolve(stack[..|stack| - 1], segs[1..], rooted)
        else if rooted then Resolve(stack, segs[1..], rooted)
        else Resolve(stack + [".."], segs[1..], rooted)
      else Resolve(stack + [s], segs[1..], rooted)
  }

  /** Resolve keeps elements non-empty and free of separators, and a rooted
      path never gains a "..". */
  lemma {:induction false} ResolveWellFormed(stack: seq<string>, segs: seq<string>, rooted: bool)
    requires Segments(stack) && NoSlash(segs)
    ensures Segments(Resolve(stack, segs, rooted))
    ensures rooted && ".." !in stack ==> ".." !in Resolve(stack, segs, rooted)
    decreases |segs|
  {
    if |segs| > 0 {
      var s := segs[0];
      assert NoSlash(segs[1..]) by {
        forall i | 0 <= i < |segs[1..]| ensures '/' !in segs[1..][i] {
          assert segs[1..][i] == segs[i + 1];
        }
      }
      if s == "" || s == "." {
        ResolveWellFormed(stack, segs[1..], rooted);
      } else if s == ".." {
        if |stack| > 0 && stack[|stack| - 1] != ".." {
          ResolveWellFormed(stack[..|stack| - 1], segs[1..], rooted);
        } else if rooted {
          ResolveWellFormed(stack, segs[1..], rooted);
        } else {
          ResolveWellFormed(stack + [".."], segs[1..], rooted);
        }
      } else {
        assert '/' !in segs[0];
        ResolveWellFormed(stack + [s], segs[1..], rooted);
      }
    }
  }

  /** The elements of the cleaned form of `p`. */
  function CleanSegments(p: string): seq<string> {
    Resolve([], Split(p), IsAbs(p))
  }

  lemma CleanSegmentsWellFormed(p: string)
    ensures Segments(CleanSegments(p))
    ensures IsAbs(p) ==> ".." !in CleanSegments(p)
  {
    SplitNoSlash(p);
    ResolveWellFormed([], Split(p), IsAbs(p));
  }

  /** filepath.Clean. */
  function Clean(p: string): (r: string)
    ensures r != ""
    ensures IsAbs(r) <==> IsAbs(p)
  {
    if p == "" then "."
    else
      var body := JoinSegments(CleanSegments(p));
      if IsAbs(p) then "/" + body
      else if body == "" then "."
      else (CleanSegmentsWellFormed(p); JoinFirstChar(CleanSegments(p)); body)
  }

  lemma {:induction false} JoinFirstChar(segs: seq<string>)
    requires Segments(segs)
    ensures JoinSegments(segs) != "" ==> JoinSegments(segs)[0] != '/'
  {
    if |segs| > 1 {
      assert JoinSegments(segs) == segs[0] + ("/" + JoinSegments(segs[1..]));
      assert JoinSegments(segs)[0] == segs[0][0];
    } else if |segs| == 1 {
      assert segs[0] != "" && '/' !in segs[0];
    }
  }

  /** filepath.Join of two elements: empty elements are ignored and the
      result is cleaned. */
  function Join(a: string, b: string): (r: string)
    ensures r == "" <==> a == "" && b == ""
    ensures IsAbs(a) ==> IsAbs(r)
  {
    if a != "" then Clean(a + "/" + b)
    else if b != "" then Clean(b)
    else ""
  }

  /** Index of the last '/' in `p`, or -1. */
  function LastSlash(p: string): (i: int)
    ensures -1 <= i < |p|
    ensures i >= 0 ==> p[i] == '/'
    ensures forall k :: i < k < |p| ==> p[k] != '/'
  {
    if |p| == 0 then -1
    else if p[|p| - 1] == '/' then |p| - 1
    else LastSlash(p[..|p| - 1])
  }

  /** filepath.Dir: everything up to the last separator, cleaned. */
  function Dir(p: string): (r: string)
    ensures r != ""
  {
    Clean(p[..LastSlash(p) + 1])
  }

  function CommonPrefixLength(a: seq<string>, b: seq<string>): (k: nat)
    ensures k <= |a| && k <= |b|
    ensures a[..k] == b[..k]
    ensures k < |a| && k < |b| ==> a[k] != b[k]
  {
    if |a| == 0 || |b| == 0 || a[0] != b[0] then 0
    else 1 + CommonPrefixLength(a[1..], b[1..])
  }

  function Ups(n: nat): (r: seq<string>)
    ensures |r| == n
  {
    if n == 0 then [] else [".."] + Ups(n - 1)
  }

  /** filepath.Rel: a path that, joined to `base`, names `target`; None where
      Go reports an error (one path absolute and the other not, or `base`
      climbing above what `target` shares with it). */
  function Rel(base: string, target: string): (r: Option<string>)
    ensures IsAbs(base) && IsAbs(target) ==> r.Some?
  {
    var b := Clean(base);
    var t := Clean(target);
    if t == b then Some(".")
    else if IsAbs(base) != IsAbs(target) then None
    else
      var bs := CleanSegments(base);
      var ts := CleanSegments(target);
      var k := CommonPrefixLength(bs, ts);
      if k < |bs| && bs[k] == ".." then (CleanSegmentsWellFormed(base); None)
      else
        var rel := JoinSegments(Ups(|bs| - k) + ts[k..]);
        Some(if rel == "" then "." else rel)
  }
}

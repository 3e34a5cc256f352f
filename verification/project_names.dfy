/** The project and workspace name derived from a project directory
    (cmd/generate.go:202-203). */
module ProjectNames {

  /** The characters the project-name regex keeps: [a-zA-Z0-9_-]. */
  predicate NameChar(c: char) {
    ('a' <= c <= 'z') || ('A' <= c <= 'Z') || ('0' <= c <= '9') || c == '_' || c == '-'
  }

  predicate AllNameChars(s: string) {
    forall i :: 0 <= i < |s| ==> NameChar(s[i])
  }

  predicate NoNameChars(s: string) {
    forall i :: 0 <= i < |s| ==> !NameChar(s[i])
  }

  /** `s` without its leading run of characters the regex replaces. */
  function DropRun(s: string): (r: string)
    ensures |r| <= |s|
    ensures r == "" || NameChar(r[0])
  {
    if |s| == 0 || NameChar(s[0]) then s else DropRun(s[1..])
  }

  /** regexp `[^a-zA-Z0-9_-]+` replaced by "_": each maximal run of other
      characters becomes a single underscore. */
  function ProjectName(s: string): (r: string)
    ensures |r| <= |s|
    decreases |s|
  {
    if |s| == 0 then ""
    else if NameChar(s[0]) then [s[0]] + ProjectName(s[1..])
    else "_" + ProjectName(DropRun(s))
  }

  /** A name made only of kept characters is left as it is. */
  lemma {:induction false} ProjectNameKeepsValidNames(s: string)
    requires AllNameChars(s)
    ensures ProjectName(s) == s
  {
    if |s| > 0 {
      ProjectNameKeepsValidNames(s[1..]);
    }
  }

  /** Only kept characters appear in a project name. */
  lemma {:induction false} ProjectNameChars(s: string)
    ensures AllNameChars(ProjectName(s))
    decreases |s|
  {
    if |s| > 0 {
      if NameChar(s[0]) {
        ProjectNameChars(s[1..]);
      } else {
        ProjectNameChars(DropRun(s));
      }
    }
  }

  lemma {:induction false} ProjectNameIdempotent(s: string)
    ensures ProjectName(ProjectName(s)) == ProjectName(s)
  {
    ProjectNameChars(s);
    ProjectNameKeepsValidNames(ProjectName(s));
  }

  lemma {:induction false} DropRunOfRun(run: string, y: string)
    requires NoNameChars(run)
    requires y == "" || NameChar(y[0])
    ensures DropRun(run + y) == y
  {
    if |run| > 0 {
      assert (run + y)[1..] == run[1..] + y;
      DropRunOfRun(run[1..], y);
    } else {
      assert run + y == y;
    }
  }

  lemma {:induction false} DropRunOfPrefix(x: string, rest: string)
    requires |x| > 0 && NameChar(x[|x| - 1])
    ensures DropRun(x + rest) == DropRun(x) + rest
  {
    if !NameChar(x[0]) {
      assert (x + rest)[1..] == x[1..] + rest;
      DropRunOfPrefix(x[1..], rest);
    }
  }

  /** A whole run of replaced characters, between kept characters, becomes
      exactly one underscore. */
  lemma {:induction false} CollapseStepKept(x: string, run: string, y: string)
    requires |x| > 0 && NameChar(x[0])
    requires ProjectName(x[1..] + run + y) == ProjectName(x[1..]) + "_" + ProjectName(y)
    ensures ProjectName(x + run + y) == ProjectName(x) + "_" + ProjectName(y)
  {
    var s := x + run + y;
    assert s[0] == x[0];
    assert s[1..] == x[1..] + run + y;
    var a, b := ProjectName(x[1..]), ProjectName(y);
    calc {
      ProjectName(s);
      [x[0]] + ProjectName(s[1..]);
      [x[0]] + (a + "_" + b);
      { SeqAssoc([x[0]], a, "_", b); }
      ([x[0]] + a) + "_" + b;
      ProjectName(x) + "_" + b;
    }
  }

  lemma ConcatAssoc(a: string, b: string, c: string)
    ensures a + (b + c) == a + b + c
  {
  }

  lemma SeqAssoc(p: string, a: string, u: string, b: string)
    ensures p + (a + u + b) == (p + a) + u + b
  {
  }

  lemma {:induction false} CollapseStepDropped(x: string, run: string, y: string)
    requires |x| > 0 && !NameChar(x[0]) && NameChar(x[|x| - 1])
    requires ProjectName(DropRun(x) + run + y) == ProjectName(DropRun(x)) + "_" + ProjectName(y)
    ensures ProjectName(x + run + y) == ProjectName(x) + "_" + ProjectName(y)
  {
    var s := x + run + y;
    var d, ry := DropRun(x), run + y;
    ConcatAssoc(x, run, y);
    assert s[0] == x[0];
    DropRunOfPrefix(x, ry);
    assert DropRun(s) == d + ry;
    ConcatAssoc(d, run, y);
    var a, b := ProjectName(d), ProjectName(y);
    calc {
      ProjectName(s);
      "_" + ProjectName(DropRun(s));
      "_" + ProjectName(d + run + y);
      "_" + (a + "_" + b);
      { SeqAssoc("_", a, "_", b); }
      ("_" + a) + "_" + b;
      ProjectName(x) + "_" + b;
    }
  }

  lemma {:induction false} DropRunKeepsLast(x: string)
    requires |x| > 0 && NameChar(x[|x| - 1])
    ensures |DropRun(x)| > 0 && DropRun(x)[|DropRun(x)| - 1] == x[|x| - 1]
  {
    if !NameChar(x[0]) {
      DropRunKeepsLast(x[1..]);
    }
  }

  /** A whole run of replaced characters, between kept characters, becomes
      exactly one underscore. */
  lemma {:induction false} ProjectNameCollapsesRun(x: string, run: string, y: string)
    requires x == "" || NameChar(x[|x| - 1])
    requires |run| > 0 && NoNameChars(run)
    requires y == "" || NameChar(y[0])
    ensures ProjectName(x + run + y) == ProjectName(x) + "_" + ProjectName(y)
    decreases |x|
  {
    if |x| == 0 {
      assert x + run + y == run + y;
      DropRunOfRun(run, y);
    } else if NameChar(x[0]) {
      ProjectNameCollapsesRun(x[1..], run, y);
      CollapseStepKept(x, run, y);
    } else {
      var d := DropRun(x);
      DropRunKeepsLast(x);
      ProjectNameCollapsesRun(d, run, y);
      CollapseStepDropped(x, run, y);
    }
  }
}

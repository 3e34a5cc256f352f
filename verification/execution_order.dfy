/** The execution_order_group solver of the generate command
    (cmd/generate.go:390-430), stated over plain indices.

    A project is an index into the sorted project list.  `ow[k]` lists the
    indices of the projects that project k depends on (one entry per
    recognised when_modified entry, in order), `tg[k]` is the index the
    solver writes project k's group to (the last project with k's
    directory, because the directory map keeps the last pointer it was
    given), and `g` holds the current groups. */
module ExecutionOrder {

  /** The sizes agree and every index is in range. */
  predicate Instance(g: seq<int>, ow: seq<seq<nat>>, tg: seq<nat>) {
    |ow| == |g| && |tg| == |g| && IndicesBelow(ow, tg, |g|)
  }

  predicate IndicesBelow(ow: seq<seq<nat>>, tg: seq<nat>, n: nat) {
    && (forall k :: 0 <= k < |tg| ==> tg[k] < n)
    && (forall k, j :: 0 <= k < |ow| && 0 <= j < |ow[k]| ==> ow[k][j] < n)
  }

  predicate InRange(g: seq<int>, os: seq<nat>) {
    forall j :: 0 <= j < |os| ==> os[j] < |g|
  }

  /** The group a project asks for: one more than the largest group among
      the projects it depends on, or 0 when it depends on none. */
  function Candidate(g: seq<int>, os: seq<nat>): (c: int)
    requires InRange(g, os)
    ensures c >= 0
  {
    if |os| == 0 then 0
    else
      var c0 := Candidate(g, os[..|os| - 1]);
      var d := g[os[|os| - 1]] + 1;
      if d > c0 then d else c0
  }

  /** The candidate is the maximum of 0 and the dependencies' groups plus one. */
  lemma {:induction false} CandidateIsMax(g: seq<int>, os: seq<nat>)
    requires InRange(g, os)
    ensures forall j :: 0 <= j < |os| ==> g[os[j]] + 1 <= Candidate(g, os)
    ensures Candidate(g, os) == 0 || exists j :: 0 <= j < |os| && Candidate(g, os) == g[os[j]] + 1
  {
    if |os| > 0 {
      var init := os[..|os| - 1];
      CandidateIsMax(g, init);
      assert forall j :: 0 <= j < |init| ==> init[j] == os[j];
    }
  }

  /** Changing a group that `os` does not mention leaves the candidate alone. */
  lemma {:induction false} CandidateFrame(g: seq<int>, os: seq<nat>, k: nat, v: int)
    requires InRange(g, os) && k < |g|
    requires forall j :: 0 <= j < |os| ==> os[j] != k
    ensures Candidate(g[k := v], os) == Candidate(g, os)
  {
    if |os| > 0 {
      CandidateFrame(g, os[..|os| - 1], k, v);
    }
  }

  datatype PassResult = PassResult(groups: seq<int>, changed: bool)

  /** One pass over projects k, k+1, ...: each computes its candidate from
      the groups as they are at that moment (earlier writes in the same
      pass are seen) and writes it if it differs. */
  function Pass(g: seq<int>, ow: seq<seq<nat>>, tg: seq<nat>, k: nat): (r: PassResult)
    requires Instance(g, ow, tg) && k <= |g|
    ensures |r.groups| == |g|
    ensures !r.changed ==> r.groups == g
    decreases |g| - k
  {
    if k == |g| then PassResult(g, false)
    else
      var c := Candidate(g, ow[k]);
      if g[tg[k]] != c then
        PassResult(Pass(g[tg[k] := c], ow, tg, k + 1).groups, true)
      else Pass(g, ow, tg, k + 1)
  }

  /** A pass that changes nothing has found every remaining project at its
      candidate. */
  lemma {:induction false} PassUnchanged(g: seq<int>, ow: seq<seq<nat>>, tg: seq<nat>, k: nat)
    requires Instance(g, ow, tg) && k <= |g|
    requires !Pass(g, ow, tg, k).changed
    ensures forall j :: k <= j < |g| ==> g[tg[j]] == Candidate(g, ow[j])
    decreases |g| - k
  {
    if k < |g| {
      PassUnchanged(g, ow, tg, k + 1);
    }
  }

  datatype Outcome = Outcome(groups: seq<int>, warned: bool, passes: nat)

  /** The outer loop from pass number i on: passes run while the previous
      one changed something and at most |g| + 1 of them in all; `warned`
      is the hasChanges flag left when the loop ends. */
  function Solve(g: seq<int>, ow: seq<seq<nat>>, tg: seq<nat>, i: nat): (r: Outcome)
    requires Instance(g, ow, tg)
    ensures |r.groups| == |g|
    ensures i <= |g| + 1 ==> r.passes <= |g| + 1
    ensures r.warned ==> r.passes == |g| + 1 || i > |g| + 1
    decreases |g| + 1 - i
  {
    if i > |g| then Outcome(g, true, i)
    else
      var p := Pass(g, ow, tg, 0);
      if !p.changed then Outcome(p.groups, false, i + 1)
      else Solve(p.groups, ow, tg, i + 1)
  }

  /** One step of the outer loop. */
  lemma SolveStep(g: seq<int>, ow: seq<seq<nat>>, tg: seq<nat>, i: nat)
    requires Instance(g, ow, tg) && i <= |g|
    ensures var p := Pass(g, ow, tg, 0);
      && Instance(p.groups, ow, tg)
      && Solve(g, ow, tg, i) == if p.changed then Solve(p.groups, ow, tg, i + 1) else Outcome(p.groups, false, i + 1)
  {
  }

  /** When the solver ends without the warning, every project's group is
      its candidate: the groups are a fixed point of the pass. */
  lemma {:induction false} SolveFixedPoint(g: seq<int>, ow: seq<seq<nat>>, tg: seq<nat>, i: nat)
    requires Instance(g, ow, tg)
    requires !Solve(g, ow, tg, i).warned
    ensures var h := Solve(g, ow, tg, i).groups;
      forall k :: 0 <= k < |h| ==> h[tg[k]] == Candidate(h, ow[k])
    decreases |g| + 1 - i
  {
    var p := Pass(g, ow, tg, 0);
    if !p.changed {
      PassUnchanged(g, ow, tg, 0);
    } else {
      SolveFixedPoint(p.groups, ow, tg, i + 1);
    }
  }

  /** `v` is one more than the largest group among `os`, or 0 when `os` is empty. */
  predicate AtDepth(g: seq<int>, os: seq<nat>, v: int)
    requires InRange(g, os)
  {
    && (forall j :: 0 <= j < |os| ==> g[os[j]] + 1 <= v)
    && (v == 0 || exists j :: 0 <= j < |os| && v == g[os[j]] + 1)
  }

  /** At a fixed point where every project writes its own group, each group
      is one more than the largest group among the project's dependencies,
      or 0 when it has none. */
  lemma FixedPointIsDepth(g: seq<int>, ow: seq<seq<nat>>, tg: seq<nat>)
    requires Instance(g, ow, tg) && OwnTargets(tg)
    requires forall k :: 0 <= k < |g| ==> g[tg[k]] == Candidate(g, ow[k])
    ensures forall k :: 0 <= k < |g| ==> AtDepth(g, ow[k], g[k])
  {
    forall k | 0 <= k < |g|
      ensures AtDepth(g, ow[k], g[k])
    {
      assert tg[k] == k;
      CandidateIsMax(g, ow[k]);
    }
  }

  /** Every project writes its own group (the directories are distinct). */
  predicate OwnTargets(tg: seq<nat>) {
    forall k :: 0 <= k < |tg| ==> tg[k] == k
  }

  /** The dependency graph is acyclic: some ranking below the number of
      projects puts every dependency strictly below its dependent. */
  predicate Ranked(ow: seq<seq<nat>>, rank: seq<nat>) {
    && |rank| == |ow|
    && (forall k :: 0 <= k < |rank| ==> rank[k] < |rank|)
    && (forall k, j :: 0 <= k < |ow| && 0 <= j < |ow[k]| ==> ow[k][j] < |rank| && rank[ow[k][j]] < rank[k])
  }

  /** Project k is at its candidate. */
  predicate Settled(g: seq<int>, ow: seq<seq<nat>>, tg: seq<nat>, k: nat)
    requires Instance(g, ow, tg) && k < |g|
  {
    g[k] == Candidate(g, ow[k])
  }

  /** Within a pass: the projects ranked below q are settled, and so are the
      ones ranked q that the pass has already visited. */
  predicate SettledUpTo(g: seq<int>, ow: seq<seq<nat>>, tg: seq<nat>, rank: seq<nat>, k: nat, q: nat)
    requires Instance(g, ow, tg) && |rank| == |g|
  {
    forall i :: 0 <= i < |g| && (rank[i] < q || (i < k && rank[i] == q)) ==> Settled(g, ow, tg, i)
  }

  /** Writing project k's candidate keeps every project settled that k is
      not a dependency of, and settles k itself when k does not depend on
      itself. */
  lemma WriteKeepsSettled(g: seq<int>, ow: seq<seq<nat>>, tg: seq<nat>, rank: seq<nat>, k: nat, q: nat)
    requires Instance(g, ow, tg) && Ranked(ow, rank) && OwnTargets(tg) && k < |g|
    requires SettledUpTo(g, ow, tg, rank, k, q) && rank[k] >= q
    ensures SettledUpTo(g[k := Candidate(g, ow[k])], ow, tg, rank, k + 1, q)
  {
    var c := Candidate(g, ow[k]);
    var h := g[k := c];
    forall i | 0 <= i < |g| && (rank[i] < q || (i < k + 1 && rank[i] == q))
      ensures Settled(h, ow, tg, i)
    {
      assert forall j :: 0 <= j < |ow[i]| ==> rank[ow[i][j]] < rank[i];
      if i == k {
        CandidateFrame(g, ow[k], k, c);
      } else {
        assert rank[i] <= q && Settled(g, ow, tg, i);
        CandidateFrame(g, ow[i], k, c);
      }
    }
  }

  /** A pass started with every project ranked below q settled ends with
      every project ranked q or below settled. */
  lemma {:induction false} PassSettles(g: seq<int>, ow: seq<seq<nat>>, tg: seq<nat>, rank: seq<nat>, k: nat, q: nat)
    requires Instance(g, ow, tg) && Ranked(ow, rank) && OwnTargets(tg) && k <= |g|
    requires SettledUpTo(g, ow, tg, rank, k, q)
    ensures SettledUpTo(Pass(g, ow, tg, k).groups, ow, tg, rank, 0, q + 1)
    decreases |g| - k
  {
    if k == |g| {
      assert SettledUpTo(g, ow, tg, rank, 0, q + 1) by {
        forall i | 0 <= i < |g| && rank[i] < q + 1 ensures Settled(g, ow, tg, i) {
          assert rank[i] < q || (i < k && rank[i] == q);
        }
      }
    } else {
      var c := Candidate(g, ow[k]);
      if rank[k] < q {
        assert Settled(g, ow, tg, k);
        assert SettledUpTo(g, ow, tg, rank, k + 1, q);
        PassSettles(g, ow, tg, rank, k + 1, q);
      } else {
        WriteKeepsSettled(g, ow, tg, rank, k, q);
        if g[tg[k]] != c {
          PassSettles(g[tg[k] := c], ow, tg, rank, k + 1, q);
        } else {
          assert g[k := c] == g;
          PassSettles(g, ow, tg, rank, k + 1, q);
        }
      }
    }
  }

  /** A pass over groups that are all settled changes nothing. */
  lemma {:induction false} PassOfSettled(g: seq<int>, ow: seq<seq<nat>>, tg: seq<nat>, k: nat)
    requires Instance(g, ow, tg) && OwnTargets(tg) && k <= |g|
    requires forall i :: 0 <= i < |g| ==> Settled(g, ow, tg, i)
    ensures !Pass(g, ow, tg, k).changed
    decreases |g| - k
  {
    if k < |g| {
      assert Settled(g, ow, tg, k);
      PassOfSettled(g, ow, tg, k + 1);
    }
  }

  /** From pass number i on, with everything ranked below i settled, the
      solver ends without the warning. */
  lemma {:induction false} SolveSettles(g: seq<int>, ow: seq<seq<nat>>, tg: seq<nat>, rank: seq<nat>, i: nat)
    requires Instance(g, ow, tg) && Ranked(ow, rank) && OwnTargets(tg) && i <= |g|
    requires SettledUpTo(g, ow, tg, rank, 0, i)
    ensures !Solve(g, ow, tg, i).warned
    decreases |g| - i
  {
    var p := Pass(g, ow, tg, 0);
    if i == |g| {
      assert forall k :: 0 <= k < |g| ==> Settled(g, ow, tg, k) by {
        forall k | 0 <= k < |g| ensures Settled(g, ow, tg, k) {
          assert rank[k] < i;
        }
      }
      PassOfSettled(g, ow, tg, 0);
    } else if p.changed {
      PassSettles(g, ow, tg, rank, 0, i);
      SolveSettles(p.groups, ow, tg, rank, i + 1);
    }
  }

  /** The loop's own comment calls the warning unreachable: for an acyclic
      dependency graph over distinct directories the solver always
      converges, whatever groups it starts from. */
  lemma AcyclicConverges(g: seq<int>, ow: seq<seq<nat>>, tg: seq<nat>, rank: seq<nat>)
    requires Instance(g, ow, tg) && Ranked(ow, rank) && OwnTargets(tg)
    ensures !Solve(g, ow, tg, 0).warned
  {
    SolveSettles(g, ow, tg, rank, 0);
  }

  /** A project depending on another: the dependency stays in group 0 and
      the dependent moves to group 1. */
  lemma ChainExample()
    ensures Solve([0, 0], [[1], []], [0, 1], 0) == Outcome([1, 0], false, 2)
  {
    var ow: seq<seq<nat>> := [[1], []];
    var tg: seq<nat> := [0, 1];
    var g0: seq<int> := [0, 0];
    var g1: seq<int> := [1, 0];
    assert Candidate(g0, ow[0]) == 1 by {
      assert ow[0][..0] == [];
    }
    assert Candidate(g1, ow[0]) == 1 by {
      assert ow[0][..0] == [];
    }
    assert Candidate(g1, ow[1]) == 0;
    assert g0[tg[0] := 1] == g1;
    assert Pass(g1, ow, tg, 2) == PassResult(g1, false);
    assert Pass(g1, ow, tg, 1) == PassResult(g1, false);
    assert Pass(g0, ow, tg, 0) == PassResult(g1, true);
    assert Pass(g1, ow, tg, 0) == PassResult(g1, false);
    assert Solve(g1, ow, tg, 1) == Outcome(g1, false, 2);
  }

  /** Two projects depending on each other: every pass raises both groups,
      so all passes change something and the warning is reached. */
  lemma CycleExample()
    ensures Solve([0, 0], [[1], [0]], [0, 1], 0).warned
  {
    CycleSolve(0, 0, [[1], [0]], [0, 1], 0);
  }

  /** The two-project cycle warns from any pass number and any start. */
  lemma {:induction false} CycleSolve(a: nat, b: nat, ow: seq<seq<nat>>, tg: seq<nat>, i: nat)
    requires ow == [[1], [0]] && tg == [0, 1]
    ensures Solve([a, b], ow, tg, i).warned
    decreases 3 - i
  {
    if i <= 2 {
      CyclePass(a, b, ow, tg);
      CycleSolve(b + 1, b + 2, ow, tg, i + 1);
    }
  }

  /** One pass over the two-project cycle: the second project always sees
      the first one's group and moves past it, whether or not the first
      project was already one above the second. */
  lemma CyclePass(a: nat, b: nat, ow: seq<seq<nat>>, tg: seq<nat>)
    requires ow == [[1], [0]] && tg == [0, 1]
    ensures Pass([a, b], ow, tg, 0) == PassResult([b + 1, b + 2], true)
  {
    var g0: seq<int> := [a, b];
    var g1: seq<int> := [b + 1, b];
    var g2: seq<int> := [b + 1, b + 2];
    assert ow[0][..0] == [] && ow[1][..0] == [];
    assert Candidate(g0, ow[0]) == b + 1;
    assert g0[tg[0] := b + 1] == g1;
    assert Candidate(g1, ow[1]) == b + 2;
    assert g1[tg[1] := b + 2] == g2;
    assert Pass(g2, ow, tg, 2) == PassResult(g2, false);
    assert Pass(g1, ow, tg, 1) == PassResult(g2, true);
    if a == b + 1 {
      assert g0 == g1;
    }
  }
}

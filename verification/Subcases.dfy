/** Re-entering a test case until every subcase has run (external/argh/doctest.h, Subcase and the
    loop of Context::run). */
module Subcases {
  import opened SubcaseTrees
  import opened Wildcard

  /** Run `k` starts exactly the subcases on the way to `ends[k]`. */
  ghost predicate GoThrough(runs: seq<seq<Stack>>, ends: seq<Stack>) {
    |runs| == |ends| && forall k :: 0 <= k < |runs| ==> runs[k] == Descent(ends[k], 0)
  }

  lemma ThroughLeaves(runs: seq<seq<Stack>>, t: Test)
    requires GoThrough(runs, Ends(PlanOf(t, {}), []))
    ensures GoThrough(runs, Leaves(t, [])) <==> Distinct(t)
  {
    EndsAreLeaves(t, {}, []);
    var ends, leaves := Ends(PlanOf(t, {}), []), Leaves(t, []);
    if GoThrough(runs, leaves) {
      forall k | 0 <= k < |runs| ensures ends[k] == leaves[k] {
        DescentTells(ends[k], leaves[k]);
      }
    }
  }

  /** Some run starts the subcase with this stack. */
  ghost predicate Started(runs: seq<seq<Stack>>, q: Stack) {
    exists k :: 0 <= k < |runs| && q in runs[k]
  }

  /** Only subcases of the test that the filters admit, all the way down, are ever started. */
  lemma StartedIsAdmitted(runs: seq<seq<Stack>>, t: Test, f: Filters, q: Stack)
    requires GoThrough(runs, Ends(PlanOf(Prune(t, f, 0), {}), [])) && Started(runs, q)
    ensures q in Paths(t, []) && AllAdmitted(f, q, 0)
  {
    var u := Prune(t, f, 0);
    var v := PlanOf(u, {});
    var k :| 0 <= k < |runs| && q in runs[k];
    var end := Ends(v, [])[k];
    DescentIs(end, 0, q);
    EndIsStack(v, [], k);
    PlannedPaths(u, {}, []);
    PathPrefix(u, [], end, |q|);
    assert end[..|q|] == q;
    PrunedPaths(t, f, [], q);
  }

  /** If no two siblings have the same signature, every one of them is. */
  lemma AdmittedIsStarted(runs: seq<seq<Stack>>, t: Test, f: Filters, q: Stack)
    requires GoThrough(runs, Ends(PlanOf(Prune(t, f, 0), {}), [])) && Distinct(Prune(t, f, 0))
    requires q in Paths(t, []) && AllAdmitted(f, q, 0)
    ensures Started(runs, q)
  {
    var u := Prune(t, f, 0);
    var v := PlanOf(u, {});
    PrunedPaths(t, f, [], q);
    PlanOfDistinct(u, {}, []);
    var i := EndBelow(v, [], q);
    PathsExtend(u, [], q);
    DescentIs(Ends(v, [])[i], 0, q);
    assert q in runs[i];
  }

  /** Only subcases that are admitted, together with those around them, are started; all of them are if no two
      visible siblings have the same signature. */
  ghost predicate Filtered(runs: seq<seq<Stack>>, t: Test, f: Filters) {
    && (forall q :: Started(runs, q) ==> q in Paths(t, []) && AllAdmitted(f, q, 0))
    && (Distinct(Prune(t, f, 0)) ==> forall q :: q in Paths(t, []) && AllAdmitted(f, q, 0) ==> Started(runs, q))
  }

  lemma FilteredRuns(runs: seq<seq<Stack>>, t: Test, f: Filters)
    requires var u := Prune(t, f, 0); if u.End? then runs == [[]] else GoThrough(runs, Ends(PlanOf(u, {}), []))
    ensures Filtered(runs, t, f)
  {
    var u := Prune(t, f, 0);
    forall q | Started(runs, q) ensures q in Paths(t, []) && AllAdmitted(f, q, 0) {
      if u.Subcase? {
        StartedIsAdmitted(runs, t, f, q);
      }
    }
    forall q | Distinct(u) && q in Paths(t, []) && AllAdmitted(f, q, 0) ensures Started(runs, q) {
      PrunedPaths(t, f, [], q);
      if u.Subcase? {
        AdmittedIsStarted(runs, t, f, q);
      }
    }
  }

  /** Below the level limit, nothing that matches an unwanted filter is started. */
  lemma UnwantedNeverStarts(runs: seq<seq<Stack>>, t: Test, f: Filters, q: Stack, level: nat, w: string)
    requires Filtered(runs, t, f) && Started(runs, q)
    requires level < |q| && level < f.levels && w in f.unwanted
    ensures !Matches(q[level].name, w, f.caseSensitive)
  {
    assert Admitted(f, q[level].name, level);
  }

  /** Something that matches a wanted filter and no unwanted one is started when it is the whole test. */
  lemma WantedAlone(runs: seq<seq<Stack>>, sig: Signature, f: Filters, w: string)
    requires Filtered(runs, Subcase(sig, End, End), f)
    requires w in f.wanted && Matches(sig.name, w, f.caseSensitive)
    requires forall x :: x in f.unwanted ==> !Matches(sig.name, x, f.caseSensitive)
    ensures Started(runs, [sig])
  {
    var t := Subcase(sig, End, End);
    var root: Stack := [];
    assert root + [sig] == [sig] && [sig] in Paths(t, []);
    PruneDistinct(t, f, 0);
    assert AllAdmitted(f, [sig], 0);
  }

  class Context {
    const filters: Filters
    var stack: Stack
    var passed: set<Stack>
    var maxLevel: nat
    var shouldReenter: bool
    /** The stacks reported by `subcase_start`. */
    var started: seq<Stack>

    constructor (filters: Filters)
      ensures this.filters == filters
    {
      this.filters := filters;
      stack, passed, maxLevel, shouldReenter, started := [], {}, 0, false, [];
    }

    /** The constructor of `Subcase`. */
    method Enter(sig: Signature) returns (entered: bool)
      modifies this
      ensures entered <==>
        Visible(filters, sig, |old(stack)|) && |old(stack)| >= old(maxLevel) && old(stack) + [sig] !in passed
      ensures passed == old(passed)
      ensures entered ==> stack == old(stack) + [sig] && maxLevel == |stack| && started == old(started) + [stack]
      ensures !entered ==> stack == old(stack) && maxLevel == old(maxLevel) && started == old(started)
      ensures shouldReenter <==>
        old(shouldReenter) || (Visible(filters, sig, |old(stack)|) && |old(stack)| < old(maxLevel))
    {
      if |stack| < filters.levels {
        var included := MatchesAny(sig.name, filters.wanted, true, filters.caseSensitive);
        if !included {
          return false;
        }
        var excluded := MatchesAny(sig.name, filters.unwanted, false, filters.caseSensitive);
        if excluded {
          return false;
        }
      }
      if |stack| < maxLevel {
        shouldReenter := true;
        return false;
      }
      stack := stack + [sig];
      if stack in passed {
        stack := stack[..|stack| - 1];
        return false;
      }
      maxLevel := |stack|;
      started := started + [stack];
      return true;
    }

    /** The destructor of an entered `Subcase`. */
    method Leave()
      requires stack != []
      modifies this`passed, this`stack
      ensures passed == if shouldReenter then old(passed) else old(passed) + {old(stack)}
      ensures stack == old(stack)[..|old(stack)| - 1]
    {
      if !shouldReenter {
        passed := passed + {stack};
      }
      stack := stack[..|stack| - 1];
    }

    /** The first `k` runs of `v`, below the current stack, are done; so are the siblings already `seen`. */
    ghost predicate Ready(v: Plan, seen: set<Signature>, k: nat)
      reads this
    {
      && maxLevel == |stack| && !shouldReenter
      && Proper(v) && (v.Over? || k < Count(v))
      && Agrees(v, stack, k, passed)
      && forall sig :: sig in seen ==> stack + [sig] in passed
    }

    ghost function PlanHere(t: Test, seen: set<Signature>): Plan
      reads this
    {
      PlanOf(Prune(t, filters, |stack|), seen)
    }

    /** One execution of the test function, from `t` on. `k` counts the runs already finished. */
    method Execute(t: Test, ghost seen: set<Signature>, ghost k: nat)
      requires maxLevel > |stack| || Ready(PlanHere(t, seen), seen, k)
      modifies this
      ensures stack == old(stack) && maxLevel >= old(maxLevel)
      ensures var v := PlanHere(t, seen);
              old(maxLevel) > |stack| || v.Over? ==>
                && passed == old(passed) && started == old(started) && maxLevel == old(maxLevel)
                && shouldReenter == (old(shouldReenter) || !v.Over?)
      ensures var v := PlanHere(t, seen);
              old(maxLevel) <= |stack| && !v.Over? ==>
                Ran(v, stack, k, old(passed), old(started), passed, started, shouldReenter)
      decreases t, 1
    {
      if t.End? {
        return;
      }
      ghost var v, p := PlanHere(t, seen), stack;
      ghost var visible, running := Visible(filters, t.sig, |stack|), maxLevel == |stack|;
      ghost var counts := visible && t.sig !in seen;
      if counts && running {
        if k < Own(v.inner) {
          AgreesInner(v, p, k, passed);
        } else {
          AgreesNext(v, p, k, passed);
          EndInNext(v, p, k);
        }
      }
      var entered := Enter(t.sig);
      if entered {
        ExecuteInner(t, v, p, k, old(started));
        Execute(t.next, seen + {t.sig}, 0);
      } else {
        Execute(t.next, if counts then seen + {t.sig} else seen, if counts && running then k - Own(v.inner) else k);
        if counts && running {
          RanInNext(v, p, k, old(passed), old(started), passed, started, shouldReenter);
        }
      }
    }

    /** The body of a subcase just entered, and its destructor. */
    method ExecuteInner(t: Test, ghost v: Plan, ghost p: Stack, ghost k: nat, ghost started0: seq<Stack>)
      requires t.Subcase? && stack == p + [t.sig] && started == started0 + [stack]
      requires v.Enter? && v.sig == t.sig && v.inner == PlanHere(t.inner, {})
      requires k < Own(v.inner) && Ready(v.inner, {}, k)
      modifies this
      ensures stack == p && maxLevel > |p|
      ensures shouldReenter == (k + 1 < Own(v.inner))
      ensures Ran(v, p, k, old(passed), started0, passed, started, shouldReenter || !v.next.Over?)
      decreases t, 0
    {
      DoneStep(v, p, k);
      EndInInner(v, p, k);
      Execute(t.inner, {}, k);
      Leave();
    }

    /** One turn of the loop around a test case, after `k` of them. */
    method RunOnce(t: Test, ghost v: Plan, ghost k: nat)
      requires v == PlanOf(Prune(t, filters, 0), {}) && passed == Done(v, [], k) && (v.Over? || k < Count(v))
      modifies this
      ensures v.Over? ==> started == [] && !shouldReenter
      ensures !v.Over? ==> k < |Ends(v, [])| && started == Descent(Ends(v, [])[k], 0)
      ensures !v.Over? ==> passed == Done(v, [], k + 1) && (shouldReenter <==> k + 1 < Count(v))
    {
      PlanIsProper(Prune(t, filters, 0), {});
      shouldReenter, maxLevel, stack, started := false, 0, [], [];
      Execute(t, {}, k);
      if !v.Over? {
        DoneGrows(v, [], k);
      }
    }

    /** The do-while loop around a test case. `runs` holds what each run started. */
    method RunTestCase(t: Test) returns (runs: seq<seq<Stack>>)
      modifies this
      ensures var u := Prune(t, filters, 0);
              if u.End? then runs == [[]]
              else GoThrough(runs, Ends(PlanOf(u, {}), [])) && (GoThrough(runs, Leaves(u, [])) <==> Distinct(u))
      ensures Filtered(runs, t, filters)
    {
      ghost var u := Prune(t, filters, 0);
      ghost var v := PlanOf(u, {});
      NoMoreEnds(u, {}, []);
      CountIsLength(v, []);
      DoneEnds(v, [], 0);
      passed := {};
      runs := [];
      var runTest := true;
      while runTest
        invariant runTest ==> v.Over? || |runs| < Count(v)
        invariant runTest ==> passed == Done(v, [], |runs|)
        invariant v.Over? ==> runs == if runTest then [] else [[]]
        invariant !v.Over? ==> |runs| <= Count(v) && (runTest || |runs| == Count(v))
        invariant !v.Over? ==> GoThrough(runs, Ends(v, [])[..|runs|])
        decreases runTest, Count(v) - |runs|
      {
        RunOnce(t, v, |runs|);
        runs := runs + [started];
        if !shouldReenter {
          runTest := false;
        }
      }
      if u.Subcase? {
        assert Ends(v, [])[..|runs|] == Ends(v, []);
        ThroughLeaves(runs, u);
      }
      FilteredRuns(runs, t, filters);
    }
  }
}

/** The subcases of a test case (external/argh/doctest.h, SUBCASE): the order in which they are meant to
    run, and the order in which the re-entering loop does run them. */
module SubcaseTrees {
  import opened Wildcard

  datatype Signature = Signature(name: string, file: string, line: int)

  type Stack = seq<Signature>

  /** A test body as far as subcases are concerned: `SUBCASE(sig) { inner }` followed by `next`. */
  datatype Test = End | Subcase(sig: Signature, inner: Test, next: Test)

  datatype Filters = Filters(wanted: seq<string>, unwanted: seq<string>, levels: nat, caseSensitive: bool)

  ghost predicate Visible(f: Filters, sig: Signature, level: nat) {
    level < f.levels ==>
      && MatchesSome(sig.name, f.wanted, true, f.caseSensitive)
      && !MatchesSome(sig.name, f.unwanted, false, f.caseSensitive)
  }

  /** The test without the subcases the filters hide. */
  ghost function Prune(t: Test, f: Filters, level: nat): Test {
    match t
    case End => End
    case Subcase(sig, inner, next) =>
      if Visible(f, sig, level) then Subcase(sig, Prune(inner, f, level + 1), Prune(next, f, level))
      else Prune(next, f, level)
  }

  // ----- the leaves

  /** Every subcase, as the stack that is in force inside it. */
  ghost function Paths(t: Test, p: Stack): set<Stack> {
    match t
    case End => {}
    case Subcase(sig, inner, next) => {p + [sig]} + Paths(inner, p + [sig]) + Paths(next, p)
  }

  /** The root-to-leaf paths in depth-first order. */
  ghost function Leaves(t: Test, p: Stack): seq<Stack> {
    match t
    case End => []
    case Subcase(sig, inner, next) =>
      (if inner.End? then [p + [sig]] else Leaves(inner, p + [sig])) + Leaves(next, p)
  }

  ghost function Heads(t: Test): set<Signature> {
    match t
    case End => {}
    case Subcase(sig, _, next) => {sig} + Heads(next)
  }

  /** Sibling subcases have distinct signatures. */
  ghost predicate Distinct(t: Test) {
    match t
    case End => true
    case Subcase(sig, inner, next) => sig !in Heads(next) && Distinct(inner) && Distinct(next)
  }

  // ----- what the runs do go through

  /** The subcases that get entered. A sibling that repeats a signature never is; when nothing but such
      siblings follows, they still cost one run, which goes no further than the enclosing subcase: `Again`. */
  datatype Plan = Over | Again | Enter(sig: Signature, inner: Plan, next: Plan)

  ghost function PlanOf(t: Test, seen: set<Signature>): Plan
    decreases t
  {
    match t
    case End => Over
    case Subcase(sig, inner, next) =>
      if sig in seen then
        var rest := PlanOf(next, seen);
        if rest.Over? then Again else rest
      else Enter(sig, PlanOf(inner, {}), PlanOf(next, seen + {sig}))
  }

  /** Every planned subcase, as the stack that is in force inside it. */
  ghost function Stacks(t: Plan, p: Stack): set<Stack> {
    match t
    case Over => {}
    case Again => {}
    case Enter(sig, inner, next) => {p + [sig]} + Stacks(inner, p + [sig]) + Stacks(next, p)
  }

  /** The stack at which each run goes no deeper, in the order of the runs. */
  ghost function Ends(t: Plan, p: Stack): seq<Stack> {
    match t
    case Over => []
    case Again => [p]
    case Enter(sig, inner, next) =>
      (if inner.Over? then [p + [sig]] else Ends(inner, p + [sig])) + Ends(next, p)
  }

  ghost function Count(t: Plan): nat
    decreases t, 0
  {
    match t
    case Over => 0
    case Again => 1
    case Enter(_, inner, next) => Own(inner) + Count(next)
  }

  /** The runs that a subcase with body `inner` needs. */
  ghost function Own(inner: Plan): nat
    decreases inner, 1
  {
    if inner.Over? then 1 else Count(inner)
  }

  ghost function PlannedHeads(t: Plan): set<Signature> {
    match t
    case Over => {}
    case Again => {}
    case Enter(sig, _, next) => {sig} + PlannedHeads(next)
  }

  ghost predicate Proper(t: Plan) {
    t.Enter? ==> t.sig !in PlannedHeads(t.next) && Proper(t.inner) && Proper(t.next)
  }

  lemma {:induction false} PlanIsProper(t: Test, seen: set<Signature>)
    ensures Proper(PlanOf(t, seen)) && PlannedHeads(PlanOf(t, seen)) !! seen
    decreases t
  {
    if t.End? {
    } else {
      PlanIsProper(t.inner, {});
      PlanIsProper(t.next, seen);
      PlanIsProper(t.next, seen + {t.sig});
    }
  }

  /** The subcases all of whose runs are among the first `k`. */
  ghost function Done(t: Plan, p: Stack, k: nat): set<Stack> {
    match t
    case Over => {}
    case Again => {}
    case Enter(sig, inner, next) =>
      if k < Own(inner) then Done(inner, p + [sig], k)
      else {p + [sig]} + Stacks(inner, p + [sig]) + Done(next, p, k - Own(inner))
  }

  lemma {:induction false} CountPositive(t: Plan)
    requires !t.Over?
    ensures Count(t) > 0
  {
    if !t.Enter? || t.inner.Over? {
    } else {
      CountPositive(t.inner);
    }
  }

  lemma {:induction false} CountIsLength(t: Plan, p: Stack)
    ensures |Ends(t, p)| == Count(t)
  {
    if !t.Enter? {
    } else {
      CountIsLength(t.inner, p + [t.sig]);
      CountIsLength(t.next, p);
    }
  }

  lemma {:induction false} StacksExtend(t: Plan, p: Stack, q: Stack)
    requires q in Stacks(t, p)
    ensures |p| < |q| && q[..|p|] == p && q[|p|] in PlannedHeads(t)
  {
    if q in Stacks(t.inner, p + [t.sig]) {
      StacksExtend(t.inner, p + [t.sig], q);
      assert q[..|p| + 1][..|p|] == p && q[..|p| + 1][|p|] == t.sig;
    } else if q in Stacks(t.next, p) {
      StacksExtend(t.next, p, q);
    }
  }

  lemma {:induction false} DoneEnds(t: Plan, p: Stack, k: nat)
    ensures Done(t, p, 0) == {}
    ensures Done(t, p, Count(t)) == Stacks(t, p)
    ensures Done(t, p, k) <= Stacks(t, p)
  {
    if !t.Enter? {
    } else {
      DoneEnds(t.inner, p + [t.sig], k);
      DoneEnds(t.next, p, if k < Own(t.inner) then 0 else k - Own(t.inner));
      if !t.inner.Over? {
        CountPositive(t.inner);
      }
    }
  }

  lemma {:induction false} DoneGrows(t: Plan, p: Stack, k: nat)
    ensures Done(t, p, k) <= Done(t, p, k + 1)
  {
    if !t.Enter? {
    } else {
      if k < Own(t.inner) {
        DoneGrows(t.inner, p + [t.sig], k);
        DoneEnds(t.inner, p + [t.sig], k);
      } else {
        DoneGrows(t.next, p, k - Own(t.inner));
      }
    }
  }

  /** What the stacks of one sibling say about those of the following ones: nothing. */
  lemma SiblingsApart(t: Plan, p: Stack, q: Stack)
    requires t.Enter? && Proper(t) && q in Stacks(t.next, p)
    ensures q != p + [t.sig] && q !in Stacks(t.inner, p + [t.sig])
  {
    StacksExtend(t.next, p, q);
    assert (p + [t.sig])[|p|] == t.sig;
    assert q[|p|] == q[..|p| + 1][|p|];
    if q in Stacks(t.inner, p + [t.sig]) {
      StacksExtend(t.inner, p + [t.sig], q);
    }
  }

  lemma OwnStackNotInside(t: Plan, p: Stack)
    requires t.Enter?
    ensures p + [t.sig] !in Stacks(t.inner, p + [t.sig])
  {
    if p + [t.sig] in Stacks(t.inner, p + [t.sig]) {
      StacksExtend(t.inner, p + [t.sig], p + [t.sig]);
    }
  }

  lemma {:induction false} EndsExtend(t: Plan, p: Stack, i: nat)
    requires i < |Ends(t, p)|
    ensures p <= Ends(t, p)[i]
  {
    if !t.Enter? {
    } else {
      var own := if t.inner.Over? then [p + [t.sig]] else Ends(t.inner, p + [t.sig]);
      if i >= |own| {
        EndsExtend(t.next, p, i - |own|);
      } else if !t.inner.Over? {
        EndsExtend(t.inner, p + [t.sig], i);
      }
    }
  }

  /** No two runs end at the same stack. */
  lemma {:induction false} EndsDistinct(t: Plan, p: Stack, i: nat, j: nat)
    requires Proper(t) && i < j < |Ends(t, p)|
    ensures Ends(t, p)[i] != Ends(t, p)[j]
  {
    var own := if t.inner.Over? then [p + [t.sig]] else Ends(t.inner, p + [t.sig]);
    if j < |own| {
      EndsDistinct(t.inner, p + [t.sig], i, j);
    } else if i >= |own| {
      EndsDistinct(t.next, p, i - |own|, j - |own|);
    } else {
      if !t.inner.Over? {
        EndsExtend(t.inner, p + [t.sig], i);
      }
      var a, b := Ends(t, p)[i], Ends(t, p)[j];
      assert a[|p|] == a[..|p| + 1][|p|] == t.sig;
      NextEnds(t.next, p, j - |own|);
    }
  }

  /** An end is the stack itself or starts with one of the planned subcases. */
  lemma {:induction false} NextEnds(t: Plan, p: Stack, i: nat)
    requires i < |Ends(t, p)|
    ensures p <= Ends(t, p)[i] && (|Ends(t, p)[i]| > |p| ==> Ends(t, p)[i][|p|] in PlannedHeads(t))
  {
    EndsExtend(t, p, i);
    if !t.Enter? {
    } else {
      var own := if t.inner.Over? then [p + [t.sig]] else Ends(t.inner, p + [t.sig]);
      if i >= |own| {
        NextEnds(t.next, p, i - |own|);
      } else {
        if !t.inner.Over? {
          EndsExtend(t.inner, p + [t.sig], i);
        }
        assert Ends(t, p)[i][|p|] == Ends(t, p)[i][..|p| + 1][|p|];
      }
    }
  }

  ghost predicate NoAgain(t: Plan) {
    !t.Again? && (t.Enter? ==> NoAgain(t.inner) && NoAgain(t.next))
  }

  lemma {:induction false} EndsInStacks(t: Plan, p: Stack, i: nat)
    requires NoAgain(t) && i < |Ends(t, p)|
    ensures Ends(t, p)[i] in Stacks(t, p)
  {
    var own := if t.inner.Over? then [p + [t.sig]] else Ends(t.inner, p + [t.sig]);
    if i >= |own| {
      EndsInStacks(t.next, p, i - |own|);
    } else if !t.inner.Over? {
      EndsInStacks(t.inner, p + [t.sig], i);
    }
  }

  lemma {:induction false} EndHasNothingBelow(t: Plan, p: Stack, i: nat, q: Stack)
    requires Proper(t) && NoAgain(t) && i < |Ends(t, p)| && q in Stacks(t, p)
    ensures !(Ends(t, p)[i] < q)
  {
    var own := if t.inner.Over? then [p + [t.sig]] else Ends(t.inner, p + [t.sig]);
    var end := Ends(t, p)[i];
    if i < |own| {
      if !t.inner.Over? {
        EndsExtend(t.inner, p + [t.sig], i);
      }
      assert end[|p|] == end[..|p| + 1][|p|] == t.sig;
      if q in Stacks(t.next, p) {
        StacksExtend(t.next, p, q);
      } else if q in Stacks(t.inner, p + [t.sig]) {
        EndHasNothingBelow(t.inner, p + [t.sig], i, q);
      }
    } else {
      EndsInStacks(t.next, p, i - |own|);
      StacksExtend(t.next, p, end);
      if q in Stacks(t.next, p) {
        EndHasNothingBelow(t.next, p, i - |own|, q);
      } else if q in Stacks(t.inner, p + [t.sig]) {
        StacksExtend(t.inner, p + [t.sig], q);
        assert q[|p|] == q[..|p| + 1][|p|];
      }
    }
  }

  /** Below every subcase there is an end. */
  lemma {:induction false} EndBelow(t: Plan, p: Stack, q: Stack) returns (i: nat)
    requires NoAgain(t) && q in Stacks(t, p)
    ensures i < |Ends(t, p)| && q <= Ends(t, p)[i]
  {
    var own := if t.inner.Over? then [p + [t.sig]] else Ends(t.inner, p + [t.sig]);
    if q in Stacks(t.next, p) {
      i := EndBelow(t.next, p, q);
      i := i + |own|;
    } else if t.inner.Over? {
      i := 0;
    } else if q in Stacks(t.inner, p + [t.sig]) {
      i := EndBelow(t.inner, p + [t.sig], q);
    } else {
      i := EndBelow(t.inner, p + [t.sig], p + [t.sig] + [t.inner.sig]);
    }
  }

  /** The stacks entered on the way to `path`, below `level`. */
  ghost function Descent(path: Stack, level: nat): seq<Stack>
    requires level <= |path|
    decreases |path| - level
  {
    if level == |path| then [] else [path[..level + 1]] + Descent(path, level + 1)
  }

  lemma {:induction false} DescentEnds(path: Stack, level: nat)
    requires level <= |path|
    ensures |Descent(path, level)| == |path| - level
    ensures level < |path| ==> Descent(path, level)[|path| - level - 1] == path
    decreases |path| - level
  {
    if level == |path| {
    } else {
      DescentEnds(path, level + 1);
    }
  }

  lemma DescentTells(a: Stack, b: Stack)
    requires Descent(a, 0) == Descent(b, 0)
    ensures a == b
  {
    DescentEnds(a, 0);
    DescentEnds(b, 0);
  }

  // ----- what the set of passed stacks tells the two parts of a subcase

  /** `passed` agrees, inside `t`, with the first `k` runs being done. */
  ghost predicate Agrees(t: Plan, p: Stack, k: nat, passed: set<Stack>) {
    forall q :: q in Stacks(t, p) ==> (q in passed <==> q in Done(t, p, k))
  }

  lemma AgreesInner(t: Plan, p: Stack, k: nat, passed: set<Stack>)
    requires t.Enter? && Proper(t) && Agrees(t, p, k, passed) && k < Own(t.inner)
    ensures p + [t.sig] !in passed
    ensures Agrees(t.inner, p + [t.sig], k, passed)
    ensures t.inner.Over? || k < Count(t.inner)
  {
    OwnStackNotInside(t, p);
    DoneEnds(t.inner, p + [t.sig], k);
    assert p + [t.sig] in Stacks(t, p);
    forall q | q in Stacks(t.inner, p + [t.sig]) ensures q in passed <==> q in Done(t.inner, p + [t.sig], k) {
      assert q in Stacks(t, p);
    }
  }

  lemma AgreesNext(t: Plan, p: Stack, k: nat, passed: set<Stack>)
    requires t.Enter? && Proper(t) && Agrees(t, p, k, passed) && k >= Own(t.inner)
    ensures p + [t.sig] in passed
    ensures passed + Done(t, p, k + 1) == passed + Done(t.next, p, k + 1 - Own(t.inner))
    ensures Agrees(t.next, p, k - Own(t.inner), passed)
  {
    assert p + [t.sig] in Stacks(t, p);
    forall q | q in Stacks(t.inner, p + [t.sig]) ensures q in passed {
      assert q in Stacks(t, p);
    }
    forall q | q in Stacks(t.next, p) ensures q in passed <==> q in Done(t.next, p, k - Own(t.inner)) {
      assert q in Stacks(t, p);
      SiblingsApart(t, p, q);
    }
  }

  /** Entering and leaving `t` marks exactly what one more run completes. */
  lemma DoneStep(t: Plan, p: Stack, k: nat)
    requires t.Enter? && k < Own(t.inner)
    ensures Done(t, p, k + 1) == Done(t.inner, p + [t.sig],
        k + 1) + (if k + 1 < Own(t.inner) then {} else {p + [t.sig]})
    ensures k + 1 < Count(t) <==> k + 1 < Own(t.inner) || !t.next.Over?
  {
    DoneEnds(t.next, p, 0);
    DoneEnds(t.inner, p + [t.sig], k + 1);
    if !t.next.Over? {
      CountPositive(t.next);
    }
  }

  lemma EndInInner(t: Plan, p: Stack, k: nat)
    requires t.Enter? && k < Own(t.inner)
    ensures k < |Ends(t, p)| && |p| + 1 <= |Ends(t, p)[k]|
    ensures Descent(Ends(t, p)[k], |p|) == [p + [t.sig]] + Descent(Ends(t, p)[k], |p| + 1)
    ensures if t.inner.Over? then Ends(t, p)[k] == p + [t.sig]
            else k < |Ends(t.inner, p + [t.sig])| && Ends(t, p)[k] == Ends(t.inner, p + [t.sig])[k]
  {
    CountIsLength(t.inner, p + [t.sig]);
    var end := Ends(t, p)[k];
    if !t.inner.Over? {
      EndsExtend(t.inner, p + [t.sig], k);
    }
    assert end[..|p| + 1] == p + [t.sig];
  }

  lemma EndInNext(t: Plan, p: Stack, k: nat)
    requires t.Enter? && Own(t.inner) <= k < Count(t)
    ensures k - Own(t.inner) < Count(t.next)
    ensures k < |Ends(t, p)| && k - Own(t.inner) < |Ends(t.next, p)|
    ensures Ends(t, p)[k] == Ends(t.next, p)[k - Own(t.inner)]
  {
    CountIsLength(t.inner, p + [t.sig]);
    CountIsLength(t.next, p);
  }

  /** The effect of running up to and including run `k` of `t`, and skipping the rest. */
  ghost predicate Ran(t: Plan, p: Stack, k: nat, passed0: set<Stack>, started0: seq<Stack>,
                      passed: set<Stack>, started: seq<Stack>, reenter: bool) {
    && passed == passed0 + Done(t, p, k + 1)
    && reenter == (k + 1 < Count(t))
    && k < |Ends(t, p)| && |p| <= |Ends(t, p)[k]|
    && started == started0 + Descent(Ends(t, p)[k], |p|)
  }

  lemma RanInNext(t: Plan, p: Stack, k: nat, passed0: set<Stack>, started0: seq<Stack>,
                  passed: set<Stack>, started: seq<Stack>, reenter: bool)
    requires t.Enter? && Proper(t) && Agrees(t, p, k, passed0) && Own(t.inner) <= k < Count(t)
    requires Ran(t.next, p, k - Own(t.inner), passed0, started0, passed, started, reenter)
    ensures Ran(t, p, k, passed0, started0, passed, started, reenter)
  {
    AgreesNext(t, p, k, passed0);
    EndInNext(t, p, k);
  }

  // ----- when the two agree

  lemma {:induction false} NoMoreEnds(t: Test, seen: set<Signature>, p: Stack)
    ensures |Ends(PlanOf(t, seen), p)| <= |Leaves(t, p)|
    ensures PlanOf(t, seen).Over? <==> t.End?
    decreases t
  {
    if t.End? {
    } else {
      NoMoreEnds(t.inner, {}, p + [t.sig]);
      NoMoreEnds(t.next, seen, p);
      NoMoreEnds(t.next, seen + {t.sig}, p);
      SomeLeaf(t, p);
    }
  }

  lemma {:induction false} SomeLeaf(t: Test, p: Stack)
    requires t.Subcase?
    ensures |Leaves(t, p)| > |Leaves(t.next, p)|
  {
    if t.inner.End? {
    } else {
      SomeLeaf(t.inner, p + [t.sig]);
    }
  }

  lemma {:induction false} LeafLonger(t: Test, p: Stack, i: nat)
    requires i < |Leaves(t, p)|
    ensures |Leaves(t, p)[i]| > |p|
  {
    var own := if t.inner.End? then [p + [t.sig]] else Leaves(t.inner, p + [t.sig]);
    if i >= |own| {
      LeafLonger(t.next, p, i - |own|);
    } else if t.inner.Subcase? {
      LeafLonger(t.inner, p + [t.sig], i);
    }
  }

  /** The runs go through the leaves exactly when no two siblings have the same signature. */
  lemma {:induction false} EndsAreLeaves(t: Test, seen: set<Signature>, p: Stack)
    ensures Ends(PlanOf(t, seen), p) == Leaves(t, p) <==> Distinct(t) && Heads(t) !! seen
    decreases t
  {
    if t.End? {
    } else {
      NoMoreEnds(t.inner, {}, p + [t.sig]);
      if t.sig in seen {
        NoMoreEnds(t.next, seen, p);
        SomeLeaf(t, p);
        if Ends(PlanOf(t, seen), p) == Leaves(t, p) {
          assert Ends(PlanOf(t, seen), p)[0] == p;
          LeafLonger(t, p, 0);
        }
      } else {
        NoMoreEnds(t.next, seen + {t.sig}, p);
        EndsAreLeaves(t.inner, {}, p + [t.sig]);
        EndsAreLeaves(t.next, seen + {t.sig}, p);
        var own := if t.inner.End? then [p + [t.sig]] else Leaves(t.inner, p + [t.sig]);
        var own' := if t.inner.End? then [p + [t.sig]] else Ends(PlanOf(t.inner, {}), p + [t.sig]);
        SameParts(own', Ends(PlanOf(t.next, seen + {t.sig}), p), own, Leaves(t.next, p));
      }
    }
  }

  lemma SameParts<T>(a': seq<T>, b': seq<T>, a: seq<T>, b: seq<T>)
    requires |a'| <= |a| && |b'| <= |b|
    ensures a' + b' == a + b <==> a' == a && b' == b
  {
    if a' + b' == a + b {
      assert |a'| == |a| && |b'| == |b|;
      assert a' == (a' + b')[..|a|] && a == (a + b)[..|a|];
      assert b' == (a' + b')[|a|..] && b == (a + b)[|a|..];
    }
  }

  lemma {:induction false} PlanOfDistinct(t: Test, seen: set<Signature>, p: Stack)
    requires Distinct(t) && Heads(t) !! seen
    ensures NoAgain(PlanOf(t, seen)) && Stacks(PlanOf(t, seen), p) == Paths(t, p)
    decreases t
  {
    if t.End? {
    } else {
      PlanOfDistinct(t.inner, {}, p + [t.sig]);
      PlanOfDistinct(t.next, seen + {t.sig}, p);
    }
  }

  /** No root-to-leaf path is listed twice. */
  lemma LeavesDistinct(t: Test, p: Stack, i: nat, j: nat)
    requires Distinct(t) && i < j < |Leaves(t, p)|
    ensures Leaves(t, p)[i] != Leaves(t, p)[j]
  {
    EndsAreLeaves(t, {}, p);
    PlanIsProper(t, {});
    EndsDistinct(PlanOf(t, {}), p, i, j);
  }

  /** The listed paths are exactly the subcases that have no subcase inside them. */
  lemma LeavesExact(t: Test, p: Stack, q: Stack)
    requires Distinct(t)
    ensures q in Leaves(t, p) <==> q in Paths(t, p) && forall r :: r in Paths(t, p) ==> !(q < r)
  {
    var v := PlanOf(t, {});
    EndsAreLeaves(t, {}, p);
    PlanIsProper(t, {});
    PlanOfDistinct(t, {}, p);
    if q in Leaves(t, p) {
      var i :| 0 <= i < |Ends(v, p)| && Ends(v, p)[i] == q;
      EndsInStacks(v, p, i);
      forall r | r in Stacks(v, p) ensures !(q < r) {
        EndHasNothingBelow(v, p, i, r);
      }
    } else if q in Paths(t, p) {
      var i := EndBelow(v, p, q);
      EndsInStacks(v, p, i);
      var end := Ends(v, p)[i];
      assert end in Leaves(t, p);
      assert |q| == |end| ==> q == end;
    }
  }

  /** Two siblings with one signature: the second is never entered, and costs a run that enters nothing. */
  lemma RepeatedSibling(sig: Signature)
    ensures var t := Subcase(sig, End, Subcase(sig, End, End));
            Leaves(t, []) == [[sig], [sig]] && Ends(PlanOf(t, {}), []) == [[sig], []]
  {
    var t := Subcase(sig, End, Subcase(sig, End, End));
    var root: Stack := [];
    assert root + [sig] == [sig];
    var none: set<Signature> := {};
    assert none + {sig} == {sig};
    assert PlanOf(t.next, none + {sig}) == Again;
    assert PlanOf(t.inner, none) == Over;
    assert Ends(PlanOf(t, {}), root) == [[sig]] + Ends(Again, root);
    assert Leaves(t.next, root) == [[sig]] + Leaves(End, root) == [[sig]];
    assert Leaves(t, root) == [[sig]] + Leaves(t.next, root);
  }

  // ----- what the filters let through

  /** Below the level limit a name must match some wanted filter, if there is one, and no unwanted filter. */
  ghost predicate Admitted(f: Filters, name: string, level: nat) {
    level < f.levels ==>
      && (f.wanted != [] ==> exists w :: w in f.wanted && Matches(name, w, f.caseSensitive))
      && (forall w :: w in f.unwanted ==> !Matches(name, w, f.caseSensitive))
  }

  /** So it is with every subcase of the stack that is nested at least `from` deep. */
  ghost predicate AllAdmitted(f: Filters, q: Stack, from: nat) {
    forall l :: from <= l < |q| ==> Admitted(f, q[l].name, l)
  }

  lemma AdmittedStep(f: Filters, q: Stack, from: nat)
    requires from < |q|
    ensures AllAdmitted(f, q, from) <==> Admitted(f, q[from].name, from) && AllAdmitted(f, q, from + 1)
  {
  }

  lemma VisibleIsAdmitted(f: Filters, sig: Signature, level: nat)
    ensures Visible(f, sig, level) <==> Admitted(f, sig.name, level)
  {
  }

  lemma {:induction false} PathsExtend(t: Test, p: Stack, q: Stack)
    requires q in Paths(t, p)
    ensures |p| < |q| && q[..|p|] == p
  {
    if q in Paths(t.inner, p + [t.sig]) {
      PathsExtend(t.inner, p + [t.sig], q);
      assert q[..|p| + 1][..|p|] == p;
    } else if q in Paths(t.next, p) {
      PathsExtend(t.next, p, q);
    }
  }

  lemma InnerPath(t: Test, p: Stack, q: Stack)
    requires t.Subcase? && q in Paths(t.inner, p + [t.sig])
    ensures |p| + 1 < |q| && q[|p|] == t.sig
  {
    PathsExtend(t.inner, p + [t.sig], q);
    assert q[|p|] == q[..|p| + 1][|p|];
  }

  /** What is left of a test are the subcases that are admitted together with all those around them. */
  lemma {:induction false} PrunedPaths(t: Test, f: Filters, p: Stack, q: Stack)
    ensures q in Paths(Prune(t, f, |p|), p) <==> q in Paths(t, p) && AllAdmitted(f, q, |p|)
    decreases t
  {
    if t.End? {
    } else {
      PrunedPaths(t.inner, f, p + [t.sig], q);
      PrunedPaths(t.next, f, p, q);
      VisibleIsAdmitted(f, t.sig, |p|);
      if q in Paths(t.inner, p + [t.sig]) {
        InnerPath(t, p, q);
        AdmittedStep(f, q, |p|);
      } else if q == p + [t.sig] {
        AdmittedStep(f, q, |p|);
      }
    }
  }

  lemma {:induction false} PruneHeads(t: Test, f: Filters, level: nat)
    ensures Heads(Prune(t, f, level)) <= Heads(t)
  {
    if t.End? {
    } else {
      PruneHeads(t.next, f, level);
    }
  }

  lemma {:induction false} PruneDistinct(t: Test, f: Filters, level: nat)
    requires Distinct(t)
    ensures Distinct(Prune(t, f, level))
    decreases t
  {
    if t.End? {
    } else {
      PruneDistinct(t.inner, f, level + 1);
      PruneDistinct(t.next, f, level);
      PruneHeads(t.next, f, level);
    }
  }

  /** Without filters, or from the level limit on, nothing is hidden. */
  lemma {:induction false} NothingHidden(t: Test, f: Filters, level: nat)
    requires (f.wanted == [] && f.unwanted == []) || level >= f.levels
    ensures Prune(t, f, level) == t
    decreases t
  {
    if t.End? {
    } else {
      NothingHidden(t.inner, f, level + 1);
      NothingHidden(t.next, f, level);
    }
  }

  lemma {:induction false} PlannedPaths(t: Test, seen: set<Signature>, p: Stack)
    ensures Stacks(PlanOf(t, seen), p) <= Paths(t, p)
    decreases t
  {
    if t.End? {
    } else {
      PlannedPaths(t.inner, {}, p + [t.sig]);
      PlannedPaths(t.next, seen, p);
      PlannedPaths(t.next, seen + {t.sig}, p);
    }
  }

  lemma {:induction false} EndIsStack(t: Plan, p: Stack, i: nat)
    requires i < |Ends(t, p)|
    ensures Ends(t, p)[i] == p || Ends(t, p)[i] in Stacks(t, p)
  {
    if !t.Enter? {
    } else {
      var own := if t.inner.Over? then [p + [t.sig]] else Ends(t.inner, p + [t.sig]);
      if i >= |own| {
        EndIsStack(t.next, p, i - |own|);
      } else if !t.inner.Over? {
        EndIsStack(t.inner, p + [t.sig], i);
      }
    }
  }

  /** The prefixes of a path are paths. */
  lemma {:induction false} PathPrefix(t: Test, p: Stack, q: Stack, n: nat)
    requires q in Paths(t, p) && |p| < n <= |q|
    ensures q[..n] in Paths(t, p)
    decreases t
  {
    if q == p + [t.sig] {
      assert q[..n] == q;
    } else if q in Paths(t.inner, p + [t.sig]) {
      PathsExtend(t.inner, p + [t.sig], q);
      if n == |p| + 1 {
        assert q[..n] == p + [t.sig];
      } else {
        PathPrefix(t.inner, p + [t.sig], q, n);
      }
    } else {
      PathPrefix(t.next, p, q, n);
    }
  }

  lemma {:induction false} DescentIs(path: Stack, level: nat, q: Stack)
    requires level <= |path|
    ensures q in Descent(path, level) <==> level < |q| && q <= path
    decreases |path| - level
  {
    if level == |path| {
    } else {
      DescentIs(path, level + 1, q);
      if q <= path && |q| == level + 1 {
        assert q == path[..level + 1];
      }
    }
  }
}

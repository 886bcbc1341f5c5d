/** A counter spread over several atomic lanes (external/argh/doctest.h, MultiLaneAtomic). */
module MultiLaneAtomics {

  const LANES: nat := 32

  ghost function Total(lanes: seq<int>): int {
    if lanes == [] then 0 else Total(lanes[..|lanes| - 1]) + lanes[|lanes| - 1]
  }

  lemma {:induction false} TotalUpdate(lanes: seq<int>, i: nat, x: int)
    requires i < |lanes|
    ensures Total(lanes[i := x]) == Total(lanes) - lanes[i] + x
  {
    var k := |lanes| - 1;
    if i < k {
      TotalUpdate(lanes[..k], i, x);
      assert lanes[i := x][..k] == lanes[..k][i := x];
    } else {
      assert lanes[i := x][..k] == lanes[..k];
    }
  }

  // ----- sequential use

  class MultiLaneAtomic {
    const lanes: array<int>

    constructor ()
      ensures fresh(lanes) && lanes.Length == LANES && Total(lanes[..]) == 0
    {
      lanes := new int[LANES](_ => 0);
      new;
      ZeroTotal(lanes[..]);
    }

    /** The calling thread's lane is `lane`; what comes back is that lane's previous value. */
    method FetchAdd(lane: nat, arg: int) returns (r: int)
      requires lane < lanes.Length
      modifies lanes
      ensures r == old(lanes[lane])
      ensures lanes[..] == old(lanes[..])[lane := r + arg]
      ensures Total(lanes[..]) == old(Total(lanes[..])) + arg
    {
      r := lanes[lane];
      TotalUpdate(lanes[..], lane, r + arg);
      lanes[lane] := r + arg;
      assert lanes[..] == old(lanes[..])[lane := r + arg];
    }

    method Load() returns (result: int)
      ensures result == Total(lanes[..])
    {
      result := 0;
      for i := 0 to lanes.Length
        invariant result == Total(lanes[..i])
      {
        assert lanes[..i + 1][..i] == lanes[..i];
        result := result + lanes[i];
      }
      assert lanes[..lanes.Length] == lanes[..];
    }

    method Store(desired: int)
      requires lanes.Length > 0
      modifies lanes
      ensures Total(lanes[..]) == desired
      ensures lanes[0] == desired && forall i :: 0 < i < lanes.Length ==> lanes[i] == 0
    {
      var d := desired;
      for i := 0 to lanes.Length
        invariant Total(lanes[..i]) + d == desired
        invariant if i == 0 then d == desired else d == 0 && lanes[0] == desired
        invariant forall j :: 0 < j < i ==> lanes[j] == 0
      {
        ghost var before := lanes[..i];
        lanes[i] := d;
        assert lanes[..i + 1][..i] == before;
        d := 0;
      }
      assert lanes[..lanes.Length] == lanes[..];
    }
  }

  lemma {:induction false} ZeroTotal(lanes: seq<int>)
    requires forall i :: 0 <= i < |lanes| ==> lanes[i] == 0
    ensures Total(lanes) == 0
  {
    if lanes == [] {
    } else {
      ZeroTotal(lanes[..|lanes| - 1]);
    }
  }

  // ----- one scanning load among any number of adding threads

  /** An atomic step: some thread adds to its lane, or the load reads its next lane. */
  datatype Step = Add(lane: nat, arg: int) | Scan

  datatype State = State(lanes: seq<int>, next: nat, acc: int) {
    predicate Enabled(step: Step) {
      match step
      case Add(lane, _) => lane < |lanes|
      case Scan => next < |lanes|
    }

    function Do(step: Step): State
      requires Enabled(step)
    {
      match step
      case Add(lane, arg) => this.(lanes := lanes[lane := lanes[lane] + arg])
      case Scan => this.(next := next + 1, acc := acc + lanes[next])
    }
  }

  predicate Possible(s: State, steps: seq<Step>)
    decreases |steps|
  {
    steps == [] || (s.Enabled(steps[0]) && Possible(s.Do(steps[0]), steps[1..]))
  }

  function Run(s: State, steps: seq<Step>): State
    requires Possible(s, steps)
    decreases |steps|
  {
    if steps == [] then s else Run(s.Do(steps[0]), steps[1..])
  }

  /** What the load will have returned if nothing is added from now on. */
  ghost function Pending(s: State): int
    requires s.next <= |s.lanes|
  {
    s.acc + Total(s.lanes) - Total(s.lanes[..s.next])
  }

  /** The adds that hit lanes the load had not read yet. */
  ghost function Seen(s: State, steps: seq<Step>): int
    requires Possible(s, steps)
    decreases |steps|
  {
    if steps == [] then 0
    else (if steps[0].Add? && s.next <= steps[0].lane then steps[0].arg else 0) + Seen(s.Do(steps[0]), steps[1..])
  }

  lemma StepPending(s: State, step: Step)
    requires s.next <= |s.lanes| && s.Enabled(step)
    ensures s.Do(step).next <= |s.Do(step).lanes|
    ensures Pending(s.Do(step)) == Pending(s) + (if step.Add? && s.next <= step.lane then step.arg else 0)
    ensures Total(s.Do(step).lanes) == Total(s.lanes) + (if step.Add? then step.arg else 0)
  {
    match step
    case Add(lane, arg) =>
      TotalUpdate(s.lanes, lane, s.lanes[lane] + arg);
      if lane < s.next {
        TotalUpdate(s.lanes[..s.next], lane, s.lanes[lane] + arg);
        assert s.lanes[lane := s.lanes[lane] + arg][..s.next] == s.lanes[..s.next][lane := s.lanes[lane] + arg];
      } else {
        assert s.lanes[lane := s.lanes[lane] + arg][..s.next] == s.lanes[..s.next];
      }
    case Scan =>
      assert s.lanes[..s.next + 1][..s.next] == s.lanes[..s.next];
  }

  lemma {:induction false} RunPending(s: State, steps: seq<Step>)
    requires s.next <= |s.lanes| && Possible(s, steps)
    ensures Run(s, steps).next <= |Run(s, steps).lanes| == |s.lanes|
    ensures Pending(Run(s, steps)) == Pending(s) + Seen(s, steps)
    decreases |steps|
  {
    if steps == [] {
    } else {
      StepPending(s, steps[0]);
      RunPending(s.Do(steps[0]), steps[1..]);
    }
  }

  ghost predicate NonNegative(steps: seq<Step>) {
    forall i :: 0 <= i < |steps| ==> steps[i].Add? ==> steps[i].arg >= 0
  }

  lemma {:induction false} SeenBounds(s: State, steps: seq<Step>)
    requires s.next <= |s.lanes| && Possible(s, steps) && NonNegative(steps)
    ensures 0 <= Seen(s, steps) <= Total(Run(s, steps).lanes) - Total(s.lanes)
    decreases |steps|
  {
    if steps == [] {
    } else {
      StepPending(s, steps[0]);
      SeenBounds(s.Do(steps[0]), steps[1..]);
    }
  }

  /** A load that starts in `lanes` and reads every lane during `steps`. */
  ghost predicate CompleteLoad(lanes: seq<int>, steps: seq<Step>) {
    Possible(State(lanes, 0, 0), steps) && Run(State(lanes, 0, 0), steps).next == |lanes|
  }

  ghost function LoadResult(lanes: seq<int>, steps: seq<Step>): int
    requires CompleteLoad(lanes, steps)
  {
    Run(State(lanes, 0, 0), steps).acc
  }

  ghost function LanesAfter(lanes: seq<int>, steps: seq<Step>): seq<int>
    requires Possible(State(lanes, 0, 0), steps)
  {
    Run(State(lanes, 0, 0), steps).lanes
  }

  /** The load returns the initial total plus exactly the adds that overtook it. */
  lemma LoadExact(lanes: seq<int>, steps: seq<Step>)
    requires CompleteLoad(lanes, steps)
    ensures LoadResult(lanes, steps) == Total(lanes) + Seen(State(lanes, 0, 0), steps)
  {
    var s := State(lanes, 0, 0);
    RunPending(s, steps);
    assert lanes[..0] == [];
    var e := Run(s, steps);
    assert e.lanes[..e.next] == e.lanes;
  }

  lemma LoadBounds(lanes: seq<int>, steps: seq<Step>)
    requires CompleteLoad(lanes, steps) && NonNegative(steps)
    ensures Total(lanes) <= LoadResult(lanes, steps) <= Total(LanesAfter(lanes, steps))
  {
    LoadExact(lanes, steps);
    SeenBounds(State(lanes, 0, 0), steps);
  }

  // ----- when the result is a value the counter really had

  ghost predicate AddsFrom(steps: seq<Step>, amounts: iset<int>) {
    forall i :: 0 <= i < |steps| ==> steps[i].Add? ==> steps[i].arg in amounts
  }

  /** What the load returns was the total at some instant while it ran. */
  ghost predicate AtSomeInstant(lanes: seq<int>, steps: seq<Step>)
    requires CompleteLoad(lanes, steps)
  {
    exists m: nat :: m <= |steps| && TotalAt(lanes, steps, m, LoadResult(lanes, steps))
  }

  ghost predicate TotalAt(lanes: seq<int>, steps: seq<Step>, m: nat, total: int)
    requires m <= |steps|
  {
    Possible(State(lanes, 0, 0), steps[..m]) && Total(LanesAfter(lanes, steps[..m])) == total
  }

  /** With `n` lanes and adds of these amounts, every load in every interleaving is linearizable. */
  ghost predicate Linearizable(n: nat, amounts: iset<int>) {
    forall lanes: seq<int>, steps: seq<Step> ::
      |lanes| == n && CompleteLoad(lanes, steps) && AddsFrom(steps, amounts) ==> AtSomeInstant(lanes, steps)
  }

  /** Apart from zero there is one amount at most. */
  ghost predicate OneAmount(amounts: iset<int>) {
    forall a, b :: a in amounts && b in amounts && a != 0 && b != 0 ==> a == b
  }

  lemma {:induction false} PossiblePrefix(s: State, steps: seq<Step>, m: nat)
    requires Possible(s, steps) && m <= |steps|
    ensures Possible(s, steps[..m])
    ensures m < |steps| ==> Run(s, steps[..m]).Enabled(steps[m])
    ensures m < |steps| ==> Possible(s, steps[..m + 1]) && Run(s, steps[..m + 1]) == Run(s, steps[..m]).Do(steps[m])
    decreases |steps|
  {
    if m > 0 {
      PossiblePrefix(s.Do(steps[0]), steps[1..], m - 1);
      assert steps[..m][1..] == steps[1..][..m - 1];
      if m < |steps| {
        assert steps[..m + 1][1..] == steps[1..][..m];
      }
    } else if steps != [] {
      assert steps[..1][1..] == [];
    }
  }

  ghost predicate Counts(step: Step) {
    step.Add? && step.arg != 0
  }

  ghost function AddCount(steps: seq<Step>): nat {
    if steps == [] then 0 else (if Counts(steps[0]) then 1 else 0) + AddCount(steps[1..])
  }

  ghost function SeenCount(s: State, steps: seq<Step>): nat
    requires Possible(s, steps)
    decreases |steps|
  {
    if steps == [] then 0
    else (if Counts(steps[0]) && s.next <= steps[0].lane then 1 else 0) + SeenCount(s.Do(steps[0]), steps[1..])
  }

  /** `k` times `c`, added up. */
  ghost function Sum(c: int, k: nat): int {
    if k == 0 then 0 else c + Sum(c, k - 1)
  }

  lemma {:induction false} SeenIsMultiple(s: State, steps: seq<Step>, c: int)
    requires Possible(s, steps) && AddsFrom(steps, iset{0, c})
    ensures Seen(s, steps) == Sum(c, SeenCount(s, steps)) && SeenCount(s, steps) <= AddCount(steps)
    decreases |steps|
  {
    if steps == [] {
    } else {
      SeenIsMultiple(s.Do(steps[0]), steps[1..], c);
    }
  }

  /** With one amount the totals go through every multiple of it up to the last. */
  lemma {:induction false} InstantOf(s: State, steps: seq<Step>, c: int, k: nat) returns (m: nat)
    requires s.next <= |s.lanes| && Possible(s, steps) && AddsFrom(steps, iset{0, c}) && k <= AddCount(steps)
    ensures m <= |steps| && Possible(s, steps[..m])
    ensures Total(Run(s, steps[..m]).lanes) == Total(s.lanes) + Sum(c, k)
    decreases |steps|
  {
    if k == 0 {
      m := 0;
    } else {
      StepPending(s, steps[0]);
      var rest := if Counts(steps[0]) then k - 1 else k;
      m := InstantOf(s.Do(steps[0]), steps[1..], c, rest);
      m := m + 1;
      assert steps[..m][1..] == steps[1..][..m - 1];
    }
  }

  lemma OneAmountLinearizable(lanes: seq<int>, steps: seq<Step>, c: int)
    requires CompleteLoad(lanes, steps) && AddsFrom(steps, iset{0, c})
    ensures AtSomeInstant(lanes, steps)
  {
    var s := State(lanes, 0, 0);
    LoadExact(lanes, steps);
    SeenIsMultiple(s, steps, c);
    var m := InstantOf(s, steps, c, SeenCount(s, steps));
    assert TotalAt(lanes, steps, m, LoadResult(lanes, steps));
  }

  // ----- two amounts

  ghost function Scans(k: nat): (r: seq<Step>)
    ensures |r| == k
  {
    seq(k, _ => Scan)
  }

  lemma {:induction false} ScanRest(s: State, k: nat)
    requires s.next + k <= |s.lanes|
    ensures Possible(s, Scans(k)) && Run(s, Scans(k)).next == s.next + k && Seen(s, Scans(k)) == 0
    decreases k
  {
    if k == 0 {
    } else {
      assert Scans(k)[1..] == Scans(k - 1);
      ScanRest(s.Do(Scan), k - 1);
    }
  }

  /** Between two reads of the load, one add hits a lane already read and another a lane not yet read. */
  ghost function Overtaking(n: nat, a: int, b: int): seq<Step>
    requires n >= 2
  {
    [Scan, Add(0, a), Add(1, b)] + Scans(n - 1)
  }

  ghost function Zeros(n: nat): (r: seq<int>)
    ensures |r| == n
  {
    seq(n, _ => 0)
  }

  lemma OvertakingResult(n: nat, a: int, b: int)
    requires n >= 2
    ensures CompleteLoad(Zeros(n), Overtaking(n, a, b)) && LoadResult(Zeros(n), Overtaking(n, a, b)) == b
  {
    var s, steps := State(Zeros(n), 0, 0), Overtaking(n, a, b);
    var s1 := s.Do(Scan);
    var s2 := s1.Do(Add(0, a));
    var s3 := s2.Do(Add(1, b));
    ScanRest(s3, n - 1);
    assert steps[1..][1..][1..] == Scans(n - 1);
    assert steps[1..][0] == Add(0, a) && steps[1..][1..][0] == Add(1, b);
    assert Possible(s2, steps[1..][1..]) && Seen(s2, steps[1..][1..]) == b && Run(s2, steps[1..][1..]).next == n;
    assert Possible(s1, steps[1..]) && Seen(s1, steps[1..]) == b && Run(s1, steps[1..]).next == n;
    LoadExact(Zeros(n), steps);
    ZeroTotal(Zeros(n));
  }

  lemma {:induction false} OvertakingTotals(n: nat, a: int, b: int, m: nat)
    requires n >= 2 && m <= |Overtaking(n, a, b)|
    ensures TotalAt(Zeros(n), Overtaking(n, a, b), m, if m <= 1 then 0 else if m == 2 then a else a + b)
    ensures Run(State(Zeros(n), 0, 0), Overtaking(n, a, b)[..m]).next <= n
    ensures |LanesAfter(Zeros(n), Overtaking(n, a, b)[..m])| == n
  {
    var s, steps := State(Zeros(n), 0, 0), Overtaking(n, a, b);
    if m == 0 {
      ZeroTotal(Zeros(n));
    } else {
      OvertakingTotals(n, a, b, m - 1);
      OvertakingResult(n, a, b);
      PossiblePrefix(s, steps, m - 1);
      StepPending(Run(s, steps[..m - 1]), steps[m - 1]);
    }
  }

  /** With two different amounts other than zero, the counter need never have had the value that a load returns. */
  lemma TwoAmountsNotLinearizable(n: nat, a: int, b: int)
    requires n >= 2 && a != 0 && b != 0 && a != b
    ensures CompleteLoad(Zeros(n), Overtaking(n, a, b)) && AddsFrom(Overtaking(n, a, b), iset{a, b})
    ensures !AtSomeInstant(Zeros(n), Overtaking(n, a, b))
  {
    OvertakingResult(n, a, b);
    forall m: nat | m <= |Overtaking(n, a, b)| ensures !TotalAt(Zeros(n), Overtaking(n, a, b), m, b) {
      OvertakingTotals(n, a, b, m);
    }
  }

  /** Loads are linearizable exactly when no two amounts other than zero are added. */
  lemma LinearizableIffOneAmount(n: nat, amounts: iset<int>)
    requires n >= 2
    ensures Linearizable(n, amounts) <==> OneAmount(amounts)
  {
    if OneAmount(amounts) {
      var c := if exists a :: a in amounts && a != 0 then var a :| a in amounts && a != 0; a else 0;
      forall lanes: seq<int>, steps: seq<Step>
        | |lanes| == n && CompleteLoad(lanes, steps) && AddsFrom(steps, amounts)
        ensures AtSomeInstant(lanes, steps)
      {
        assert AddsFrom(steps, iset{0, c});
        OneAmountLinearizable(lanes, steps, c);
      }
    } else {
      var a, b :| a in amounts && b in amounts && a != 0 && b != 0 && a != b;
      TwoAmountsNotLinearizable(n, a, b);
      assert AddsFrom(Overtaking(n, a, b), amounts);
    }
  }
}

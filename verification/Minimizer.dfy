/** The minimizer and its self-check (external/minbool/minbool.h, minimize_boolean and check_solution). */
module Minimizer {
  import opened MinTerms
  import opened ImplicantTables
  import opened PrimeImplicants
  import opened Charts
  import opened PrimeCharts
  import opened Trails
  import Grids
  import opened Powers

  // ----- integers as bit sets, for the descending loop of check_solution

  /** The one bits of the `n`-bit integer `k`. */
  function Decode(k: nat, n: nat): Value
    requires k < Pow2(n)
  {
    if n == 0 then {}
    else if k < Pow2(n - 1) then Decode(k, n - 1)
    else Decode(k - Pow2(n - 1), n - 1) + {n - 1}
  }

  function Encode(v: Value, n: nat): (k: nat)
    ensures k < Pow2(n)
  {
    if n == 0 then 0 else Encode(v, n - 1) + (if n - 1 in v then Pow2(n - 1) else 0)
  }

  lemma {:induction false} DecodeEncode(v: Value, n: nat)
    ensures Decode(Encode(v, n), n) == v * Bits(n)
  {
    if n == 0 {
    } else {
      DecodeEncode(v, n - 1);
      assert Bits(n) == Bits(n - 1) + {n - 1};
    }
  }

  lemma {:induction false} DecodeBits(k: nat, n: nat)
    requires k < Pow2(n)
    ensures Decode(k, n) <= Bits(n)
    ensures Decode(0, n) == {}
  {
    if n == 0 {
    } else {
      DecodeBits(0, n - 1);
      DecodeBits(if k < Pow2(n - 1) then k else k - Pow2(n - 1), n - 1);
    }
  }

  /** True on every on-value, false on every value in neither list. */
  ghost predicate Correct(solution: seq<MinTerm>, on: seq<Value>, dc: seq<Value>, n: nat) {
    && (forall v :: v in on ==> Eval(solution, v))
    && (forall v :: v <= Bits(n) && v !in on && v !in dc ==> !Eval(solution, v))
  }

  method CheckSolution(solution: seq<MinTerm>, on: seq<Value>, dc: seq<Value>, n: nat) returns (ok: bool)
    requires forall t :: t in solution ==> t.Valid(n)
    requires forall v :: v in on || v in dc ==> v <= Bits(n)
    ensures ok <==> Correct(solution, on, dc, n)
  {
    var notOff := Elements(on) + Elements(dc);
    for j := 0 to |on|
      invariant forall k :: 0 <= k < j ==> Eval(solution, on[k])
    {
      var r := EvalBoolean(solution, n, on[j]);
      if !r {
        return false;
      }
    }
    var i := Pow2(n) - 1;
    while i > 0
      invariant 0 <= i < Pow2(n)
      invariant forall k: nat :: i < k < Pow2(n) ==> Decode(k, n) in notOff || !Eval(solution, Decode(k, n))
    {
      DecodeBits(i, n);
      var v := Decode(i, n);
      if v !in notOff {
        var r := EvalBoolean(solution, n, v);
        if r {
          return false;
        }
      }
      i := i - 1;
    }
    DecodeBits(0, n);
    var r0 := EvalBoolean(solution, n, {});
    ok := {} in notOff || !r0;
    forall v | ok && v <= Bits(n) && v !in on && v !in dc ensures !Eval(solution, v) {
      DecodeEncode(v, n);
      assert v * Bits(n) == v;
      if Encode(v, n) == 0 {
        assert v == {};
      }
    }
  }

  // ----- one pass of the reduction loop

  lemma SizeMonotone(c: Chart, c': Chart)
    requires Rows(c') <= Rows(c) && c'.Keys <= c.Keys
    ensures Size(c') <= Size(c)
    ensures |c'| < |c| ==> Size(c') < Size(c)
  {
    SubsetCard(Rows(c'), Rows(c));
    SubsetCard(c'.Keys, c.Keys);
  }

  lemma TakesThose(c: Chart, c': Chart, solution: seq<MinTerm>, res: seq<MinTerm>)
    requires solution <= res
    requires var news := res[|solution|..]; TheEssentials(c, news) && StruckBy(c, c', Elements(news))
    ensures TakesEssentials(Stage(c, solution), Stage(c', res))
  {
    assert res == solution + res[|solution|..];
  }

  lemma SubchartSize(c: Chart, c': Chart, n: nat)
    requires WellFormed(c, n) && forall v :: v in c' ==> v in c && c'[v] == c[v]
    ensures WellFormed(c', n) && c'.Keys <= c.Keys
    ensures Size(c') <= Size(c) && (|c'| < |c| ==> Size(c') < Size(c))
  {
    SubchartWellFormed(c, c', n);
    SizeMonotone(c, c');
  }

  lemma AnyTaken(c: Chart, c': Chart, news: seq<MinTerm>)
    requires TheEssentials(c, news) && StruckBy(c, c', Elements(news))
    ensures (exists t :: Essential(c, t)) <==> news != []
    ensures news == [] ==> c' == c
  {
    if news == [] {
      assert Elements(news) == {};
    } else {
      assert news[0] in news;
    }
  }

  /** The exact reductions: essential primes, then dominance. */
  method ReduceExactly(chart: PrimeChart, solution: seq<MinTerm>) returns (res: seq<MinTerm>, change: bool)
    requires WellFormed(chart.columns, chart.n)
    modifies chart
    ensures WellFormed(chart.columns, chart.n)
    ensures Reduces(Stage(old(chart.columns), solution), Stage(chart.columns, res))
    ensures Size(chart.columns) <= Size(old(chart.columns))
    ensures change ==> Size(chart.columns) < Size(old(chart.columns))
    ensures change <==> Reducible(old(chart.columns))
    ensures chart.columns.Keys <= old(chart.columns).Keys
    ensures !change ==> chart.columns.Keys == old(chart.columns).Keys
  {
    res, change := chart.RemoveEssentials(solution);
    ghost var c1 := chart.columns;
    TakesThose(old(chart.columns), c1, solution, res);
    SubchartSize(old(chart.columns), c1, chart.n);
    AnyTaken(old(chart.columns), c1, res[|solution|..]);
    var change2 := chart.Simplify();
    change := change || change2;
    SizeMonotone(c1, chart.columns);
    assert TakesEssentials(Stage(old(chart.columns), solution), Stage(c1, res));
  }

  lemma FellBack(c: Chart, c': Chart, solution: seq<MinTerm>, res: seq<MinTerm>, n: nat)
    requires WellFormed(c, n) && |res| == |solution| + 1 && solution <= res
    requires var t := res[|solution|]; MostListed(c, t) && StruckBy(c, c', {t})
    requires |c'| < |c|
    ensures FallsBack(Stage(c, solution), Stage(c', res)) && WellFormed(c', n) && Size(c') < Size(c)
  {
    assert res == solution + [res[|solution|]];
    SubchartWellFormed(c, c', n);
    SizeMonotone(c, c');
  }

  /** The body of the do-while loop. `greedy` records whether the fallback was used. */
  method ReduceOnce(chart: PrimeChart, solution: seq<MinTerm>) returns (res: seq<MinTerm>, ghost greedy: bool)
    requires WellFormed(chart.columns, chart.n)
    modifies chart
    ensures WellFormed(chart.columns, chart.n)
    ensures Pass(Stage(old(chart.columns), solution), Stage(chart.columns, res))
    ensures Since(Stage(old(chart.columns), solution), Stage(chart.columns, res), greedy)
    ensures chart.columns == map[] || Size(chart.columns) < Size(old(chart.columns))
    ensures greedy <==> Stuck(old(chart.columns))
  {
    var change;
    res, change := ReduceExactly(chart, solution);
    greedy := false;
    if !change && |chart.columns| > 0 {
      ghost var c1, res1 := chart.columns, res;
      res := chart.RemoveHeuristic(res);
      greedy := true;
      FellBack(c1, chart.columns, res1, res, chart.n);
    }
    PassStep(Stage(old(chart.columns), solution), Stage(chart.columns, res), chart.n);
  }

  /** The loop so far. */
  ghost predicate Solving(trail: seq<Stage>, c0: Chart, c: Chart, solution: seq<MinTerm>, greedy: bool) {
    && Trail(trail) && trail[0] == Stage(c0, []) && trail[|trail| - 1] == Stage(c, solution)
    && (greedy <==> MetStuck(trail))
  }

  lemma SolvingStart(c: Chart)
    ensures Solving([Stage(c, [])], c, c, [], false)
  {
  }

  lemma SolvingMore(trail: seq<Stage>, c0: Chart, c: Chart, solution: seq<MinTerm>, greedy: bool, s: Stage)
    requires Solving(trail, c0, c, solution, greedy) && Pass(Stage(c, solution), s)
    ensures Solving(trail + [s], c0, s.chart, s.solution, greedy || Stuck(c))
  {
    TrailMore(trail, s);
    MetStuckMore(trail, s);
  }

  /** One turn of the loop, seen from its start. */
  method SolveStep(chart: PrimeChart, solution: seq<MinTerm>, ghost c0: Chart, ghost greedy: bool,
                   ghost trail: seq<Stage>)
    returns (res: seq<MinTerm>, ghost greedy': bool, ghost trail': seq<Stage>)
    requires WellFormed(chart.columns, chart.n) && Solving(trail, c0, chart.columns, solution, greedy)
    modifies chart
    ensures WellFormed(chart.columns, chart.n) && Solving(trail', c0, chart.columns, res, greedy')
    ensures chart.columns == map[] || Size(chart.columns) < Size(old(chart.columns))
  {
    ghost var stuck;
    res, stuck := ReduceOnce(chart, solution);
    SolvingMore(trail, c0, old(chart.columns), solution, greedy, Stage(chart.columns, res));
    greedy', trail' := greedy || stuck, trail + [Stage(chart.columns, res)];
  }

  /** The do-while loop: a cover of the whole chart, smallest possible unless the fallback was used. That depends on
      the first chart alone: the fallback is used if and only if no order of exact reductions empties it. */
  method SolveChart(chart: PrimeChart) returns (solution: seq<MinTerm>, ghost greedy: bool, ghost trail: seq<Stage>)
    requires WellFormed(chart.columns, chart.n)
    modifies chart
    ensures Complete(trail, old(chart.columns), solution) && (greedy <==> MetStuck(trail))
    ensures Solved(old(chart.columns), solution, greedy)
    ensures greedy <==> !ExactlySolvable(old(chart.columns))
  {
    ghost var c0 := chart.columns;
    SolvingStart(c0);
    solution, greedy, trail := SolveStep(chart, [], c0, false, [Stage(c0, [])]);
    while |chart.columns| > 0
      invariant WellFormed(chart.columns, chart.n)
      invariant Solving(trail, c0, chart.columns, solution, greedy)
      decreases Size(chart.columns)
    {
      solution, greedy, trail := SolveStep(chart, solution, c0, greedy, trail);
    }
    TrailSolves(trail, c0, solution, chart.n);
  }

  // ----- the whole minimizer

  /** The values a solution must be true on; values listed as don't-care are dropped from the chart. */
  ghost function Target(on: seq<Value>, dc: seq<Value>): set<Value> {
    if |on| <= 1 then Elements(on) else Elements(on) - Elements(dc)
  }

  /** `x` is a sum of implicants of `allowed` that is true on all of `target`. */
  ghost predicate Solves(x: set<MinTerm>, target: set<Value>, allowed: set<Value>, n: nat) {
    && (forall t :: t in x ==> Implicant(t, allowed, n))
    && (forall v :: v in target ==> CoveredBy(x, v))
  }

  ghost predicate CoveredBy(x: set<MinTerm>, v: Value) {
    exists t :: t in x && Covers(t, v)
  }

  /** The chart after `fill` and `remove_columns`. */
  ghost predicate ChartFor(c: Chart, target: set<Value>, allowed: set<Value>, n: nat) {
    && c.Keys == target
    && forall v :: v in c ==> ListsPrimes(c[v], v, allowed, n)
  }

  ghost predicate ListsPrimes(ps: seq<MinTerm>, v: Value, allowed: set<Value>, n: nat) {
    forall p :: p in ps <==> Prime(p, allowed, n) && Covers(p, v)
  }

  lemma MintermPrime(v: Value, allowed: set<Value>, n: nat) returns (p: MinTerm)
    requires v in allowed && v <= Bits(n)
    ensures Prime(p, allowed, n) && Covers(p, v)
  {
    var t := MinTerm(v, {});
    forall w | Covers(t, w) ensures w in allowed {
      assert w == v;
    }
    p := PrimeAbove(t, allowed, n);
    assert Covers(t, v);
  }

  lemma ChartForWellFormed(c: Chart, target: set<Value>, allowed: set<Value>, n: nat)
    requires ChartFor(c, target, allowed, n) && target <= allowed
    requires forall v :: v in allowed ==> v <= Bits(n)
    ensures WellFormed(c, n)
    ensures forall p :: p in Rows(c) ==> Prime(p, allowed, n)
  {
    forall p | p in Rows(c) ensures Prime(p, allowed, n) {
      var v :| v in c && p in c[v];
      assert ListsPrimes(c[v], v, allowed, n);
    }
    forall v | v in c ensures c[v] != [] {
      assert ListsPrimes(c[v], v, allowed, n);
      var p := MintermPrime(v, allowed, n);
    }
    forall v, p | v in c ensures p in c[v] <==> p in Rows(c) && Covers(p, v) {
      assert ListsPrimes(c[v], v, allowed, n);
    }
  }

  lemma InitialChart(full: Chart, c: Chart, primes: seq<MinTerm>, on: seq<Value>, dc: seq<Value>, n: nat)
    requires forall v :: v in on || v in dc ==> v <= Bits(n)
    requires forall p :: p in primes <==> Prime(p, Elements(on + dc), n)
    requires ChartOf(full, primes)
    requires c == map v | v in full && v !in dc :: full[v]
    ensures ChartFor(c, Elements(on) - Elements(dc), Elements(on + dc), n)
  {
    var allowed := Elements(on + dc);
    forall v ensures v in c <==> v in on && v !in dc {
      if v in c {
        assert Eval(primes, v);
        var p :| p in primes && Covers(p, v);
        assert v in allowed;
      }
      if v in on {
        var p := MintermPrime(v, allowed, n);
        assert Eval(primes, v);
      }
    }
    forall v | v in c ensures ListsPrimes(c[v], v, allowed, n) {
      forall p ensures p in c[v] <==> Prime(p, allowed, n) && Covers(p, v) {
        CoveringListed(full[v], primes, v, p);
      }
    }
  }

  /** Each implicant replaced by a prime above it. */
  lemma {:induction false} RaiseToPrimes(x: set<MinTerm>, allowed: set<Value>, n: nat)
    returns (up: map<MinTerm, MinTerm>)
    requires forall t :: t in x ==> Implicant(t, allowed, n)
    ensures up.Keys == x
    ensures forall t :: t in x ==> Prime(up[t], allowed, n) && Contains(up[t], t)
  {
    up := map[];
    if x == {} {
    } else {
      var t :| t in x;
      up := RaiseToPrimes(x - {t}, allowed, n);
      var p := PrimeAbove(t, allowed, n);
      up := up[t := p];
    }
  }

  /** Covering the chart with primes needs no more terms than any sum of implicants does. */
  lemma SumToCover(c: Chart, x: set<MinTerm>, target: set<Value>, allowed: set<Value>, n: nat) returns (y: set<MinTerm>)
    requires ChartFor(c, target, allowed, n) && Solves(x, target, allowed, n)
    ensures IsCover(y, c) && |y| <= |x|
  {
    var up := RaiseToPrimes(x, allowed, n);
    y := Image(x, up);
    ImageCard(x, up);
    forall v | v in c ensures Hits(y, c[v]) {
      assert CoveredBy(x, v);
      var t :| t in x && Covers(t, v);
      assert Prime(up[t], allowed, n) && Covers(up[t], v);
      assert ListsPrimes(c[v], v, allowed, n);
      assert up[t] in y;
    }
  }

  lemma CoverToSum(c: Chart, s: set<MinTerm>, target: set<Value>, allowed: set<Value>, n: nat)
    requires ChartFor(c, target, allowed, n) && IsCover(s, c)
    requires forall p :: p in s ==> Prime(p, allowed, n)
    ensures Solves(s, target, allowed, n)
  {
    forall v | v in target ensures CoveredBy(s, v) {
      assert Hits(s, c[v]);
      assert ListsPrimes(c[v], v, allowed, n);
      var p :| p in s && p in c[v];
      assert Covers(p, v);
    }
  }

  /** A minterm is listed as often as its value was given, any other prime once. */
  ghost predicate Multiplicities(c: Chart, values: seq<Value>) {
    forall v, p :: v in c && p in c[v] ==> Count(c[v], p) == if p.dash == {} then Count(values, v) else 1
  }

  /** The chart the loop starts with. */
  ghost predicate Initial(c: Chart, on: seq<Value>, dc: seq<Value>, n: nat) {
    ChartFor(c, Elements(on) - Elements(dc), Elements(on + dc), n) && Multiplicities(c, on + dc)
  }

  lemma InitialColumn(c: Chart, c': Chart, on: seq<Value>, dc: seq<Value>, n: nat, v: Value)
    requires Initial(c, on, dc, n) && Initial(c', on, dc, n) && v in c && v in c'
    ensures multiset(c[v]) == multiset(c'[v])
  {
    forall p ensures multiset(c[v])[p] == multiset(c'[v])[p] {
      assert ListsPrimes(c[v], v, Elements(on + dc), n) && ListsPrimes(c'[v], v, Elements(on + dc), n);
      assert p in c[v] <==> p in c'[v];
      assert multiset(c[v])[p] == Count(c[v], p) && multiset(c'[v])[p] == Count(c'[v], p);
    }
  }

  /** The lists decide the first chart, up to the order in its columns, and so whether the fallback is needed. */
  lemma InitialDecided(c: Chart, c': Chart, on: seq<Value>, dc: seq<Value>, n: nat)
    requires Initial(c, on, dc, n) && Initial(c', on, dc, n)
    ensures GridOf(c) == GridOf(c') && (ExactlySolvable(c) <==> ExactlySolvable(c'))
  {
    assert c.Keys == c'.Keys;
    forall v | v in c ensures multiset(c[v]) == multiset(c'[v]) {
      InitialColumn(c, c', on, dc, n, v);
    }
    assert GridOf(c) == GridOf(c');
  }

  function MintermsOf(values: seq<Value>): (r: seq<MinTerm>)
    ensures |r| == |values| && forall i :: 0 <= i < |r| ==> r[i] == MinTerm(values[i], {})
  {
    seq(|values|, i requires 0 <= i < |values| => MinTerm(values[i], {}))
  }

  lemma MintermsOfValues(values: seq<Value>, n: nat)
    requires forall v :: v in values ==> v <= Bits(n)
    ensures forall t :: t in MintermsOf(values) ==> t.Valid(n) && t.dash == {}
    ensures Minterms(MintermsOf(values)) == Elements(values)
  {
    var init := MintermsOf(values);
    forall t | t in init ensures t.Valid(n) && t.dash == {} {
      var i :| 0 <= i < |init| && init[i] == t;
      assert values[i] in values;
    }
    forall v | v in values ensures v in Minterms(init) {
      var i :| 0 <= i < |values| && values[i] == v;
      assert init[i] in init;
    }
  }

  lemma {:induction false} MintermCount(values: seq<Value>, v: Value)
    ensures Count(MintermsOf(values), MinTerm(v, {})) == Count(values, v)
  {
    if values == [] {
    } else {
      var k := |values| - 1;
      MintermCount(values[..k], v);
      assert values == values[..k] + [values[k]];
      assert MintermsOf(values) == MintermsOf(values[..k]) + [MinTerm(values[k], {})];
    }
  }

  lemma InitialMultiplicity(ps: seq<MinTerm>, primes: seq<MinTerm>, values: seq<Value>, v: Value, p: MinTerm)
    requires ListsCovering(ps, primes, v) && p in ps
    requires p in primes ==> Count(primes, p) == Multiplicity(MintermsOf(values), p)
    ensures Count(ps, p) == if p.dash == {} then Count(values, v) else 1
  {
    CoveringListed(ps, primes, v, p);
    if p.dash == {} {
      assert p == MinTerm(v, {});
      MintermCount(values, v);
    }
  }

  lemma InitialMultiplicities(full: Chart, c: Chart, primes: seq<MinTerm>, values: seq<Value>)
    requires ChartOf(full, primes) && forall v :: v in c ==> v in full && c[v] == full[v]
    requires forall p :: p in primes ==> Count(primes, p) == Multiplicity(MintermsOf(values), p)
    ensures Multiplicities(c, values)
  {
    forall v, p | v in c && p in c[v] ensures Count(c[v], p) == if p.dash == {} then Count(values, v) else 1 {
      InitialMultiplicity(c[v], primes, values, v, p);
    }
  }

  method BuildChart(on: seq<Value>, dc: seq<Value>, n: nat) returns (chart: PrimeChart)
    requires forall v :: v in on || v in dc ==> v <= Bits(n)
    ensures fresh(chart) && chart.n == n && WellFormed(chart.columns, n)
    ensures Initial(chart.columns, on, dc, n)
  {
    var init := MintermsOf(on + dc);
    MintermsOfValues(on + dc, n);
    var primes, _ := FindPrimes(init, n);
    chart := new PrimeChart(n);
    chart.Fill(primes);
    ghost var full := chart.columns;
    chart.RemoveColumns(dc);
    InitialChart(full, chart.columns, primes, on, dc, n);
    InitialMultiplicities(full, chart.columns, primes, on + dc);
    ChartForWellFormed(chart.columns, Elements(on) - Elements(dc), Elements(on + dc), n);
  }

  // ----- a value listed twice

  function Flip(v: Value, bit: nat): Value {
    if bit in v then v - {bit} else v + {bit}
  }

  /** No allowed value differs from `v` in just one bit. */
  ghost predicate Isolated(v: Value, allowed: set<Value>, n: nat) {
    forall bit: nat {:trigger Flip(v, bit)} :: bit < n ==> Flip(v, bit) !in allowed
  }

  lemma IsolatedImplicant(t: MinTerm, v: Value, allowed: set<Value>, n: nat)
    requires Implicant(t, allowed, n) && Covers(t, v) && Isolated(v, allowed, n)
    ensures t == MinTerm(v, {})
  {
    forall bit | bit in t.dash ensures false {
      assert Covers(t, Flip(v, bit));
    }
  }

  /** The column of an isolated value given twice lists one prime twice. */
  lemma RepeatedIsDoubled(c: Chart, on: seq<Value>, dc: seq<Value>, n: nat, v: Value)
    requires Initial(c, on, dc, n)
    requires Count(on, v) >= 2 && v !in dc && v <= Bits(n) && Isolated(v, Elements(on + dc), n)
    ensures Grids.Doubled(GridOf(c), v, MinTerm(v, {}))
  {
    var allowed, p, g := Elements(on + dc), MinTerm(v, {}), GridOf(c);
    assert v in on && v in c && ListsPrimes(c[v], v, allowed, n);
    forall t | t in g[v] ensures t == p {
      assert t in c[v];
      IsolatedImplicant(t, v, allowed, n);
    }
    var q := MintermPrime(v, allowed, n);
    assert q in c[v] && q in g[v];
    assert Count(on + dc, v) == Count(on, v) + Count(dc, v);
    assert g[v][p] == Count(c[v], p);
    forall w | w in g && p in g[w] ensures w == v {
      assert p in c[w];
      assert ListsPrimes(c[w], w, allowed, n);
    }
  }

  /** Some isolated on-value, not a don't-care, is given twice. */
  ghost predicate Repeats(on: seq<Value>, dc: seq<Value>, n: nat) {
    exists v :: Count(on, v) >= 2 && v !in dc && Isolated(v, Elements(on + dc), n)
  }

  lemma RepeatsNeedFallback(c: Chart, on: seq<Value>, dc: seq<Value>, n: nat)
    requires Initial(c, on, dc, n) && WellFormed(c, n)
    requires Repeats(on, dc, n) && forall v :: v in on ==> v <= Bits(n)
    ensures !ExactlySolvable(c)
  {
    var v :| Count(on, v) >= 2 && v !in dc && Isolated(v, Elements(on + dc), n);
    assert v in on;
    RepeatedIsDoubled(c, on, dc, n, v);
    DoubledNeedsFallback(c, v, MinTerm(v, {}), n);
  }

  lemma SingleIsMinimal(v: Value, allowed: set<Value>, n: nat)
    requires v in allowed && v <= Bits(n)
    ensures Solves({MinTerm(v, {})}, {v}, allowed, n)
    ensures forall x :: Solves(x, {v}, allowed, n) ==> 1 <= |x|
  {
    var t := MinTerm(v, {});
    forall w | Covers(t, w) ensures w in allowed {
      assert w == v;
    }
    assert CoveredBy({t}, v) by {
      assert Covers(t, v);
    }
    forall x | Solves(x, {v}, allowed, n) ensures 1 <= |x| {
      assert CoveredBy(x, v);
    }
  }

  lemma SolvesIsCorrect(solution: seq<MinTerm>, on: seq<Value>, dc: seq<Value>, n: nat)
    requires Solves(Elements(solution), Target(on, dc), Elements(on + dc), n)
    requires |on| <= 1 || Elements(on) !! Elements(dc)
    ensures Correct(solution, on, dc, n)
  {
    assert Target(on, dc) == Elements(on);
    forall v | v in on ensures Eval(solution, v) {
      assert CoveredBy(Elements(solution), v);
    }
    forall v | Eval(solution, v) ensures v in on || v in dc {
      var t :| t in solution && Covers(t, v);
      assert Implicant(t, Elements(on + dc), n);
    }
  }

  /** The solution is a sum of implicants true on all of `target`, and a smallest one unless `greedy`. */
  ghost predicate Minimizes(solution: seq<MinTerm>, greedy: bool, target: set<Value>, allowed: set<Value>, n: nat) {
    && Solves(Elements(solution), target, allowed, n)
    && (!greedy ==> forall x :: Solves(x, target, allowed, n) ==> |solution| <= |x|)
  }

  lemma CoverMinimizes(solution: seq<MinTerm>, greedy: bool, c: Chart, target: set<Value>, allowed: set<Value>, n: nat)
    requires ChartFor(c, target, allowed, n) && target <= allowed && forall v :: v in allowed ==> v <= Bits(n)
    requires Elements(solution) <= Rows(c) && IsCover(Elements(solution), c)
    requires !greedy ==> forall x :: IsCover(x, c) ==> |solution| <= |x|
    ensures Minimizes(solution, greedy, target, allowed, n)
  {
    ChartForWellFormed(c, target, allowed, n);
    CoverToSum(c, Elements(solution), target, allowed, n);
    forall x | !greedy && Solves(x, target, allowed, n) ensures |solution| <= |x| {
      var y := SumToCover(c, x, target, allowed, n);
    }
  }

  /** The lists decide whether the fallback is used. */
  ghost predicate FallbackDecided(greedy: bool, on: seq<Value>, dc: seq<Value>, n: nat) {
    && (forall c :: Initial(c, on, dc, n) ==> (greedy <==> !ExactlySolvable(c)))
    && (forall c :: Initial(c, on, dc, n) && EssentialsCover(c) ==> !greedy)
    && (Repeats(on, dc, n) ==> greedy)
  }

  lemma FallbackIsDecided(c: Chart, greedy: bool, on: seq<Value>, dc: seq<Value>, n: nat)
    requires forall v :: v in on || v in dc ==> v <= Bits(n)
    requires Initial(c, on, dc, n) && (greedy <==> !ExactlySolvable(c))
    ensures FallbackDecided(greedy, on, dc, n)
  {
    forall c' | Initial(c', on, dc, n)
      ensures (greedy <==> !ExactlySolvable(c')) && (EssentialsCover(c') ==> !greedy)
    {
      InitialDecided(c, c', on, dc, n);
      ChartForWellFormed(c', Elements(on) - Elements(dc), Elements(on + dc), n);
      if EssentialsCover(c') {
        EssentialsSuffice(c', n);
      }
    }
    if Repeats(on, dc, n) {
      ChartForWellFormed(c, Elements(on) - Elements(dc), Elements(on + dc), n);
      RepeatsNeedFallback(c, on, dc, n);
    }
  }

  /** The case of two or more on-values. */
  method MinimizeLists(on: seq<Value>, dc: seq<Value>, n: nat)
    returns (solution: seq<MinTerm>, ghost greedy: bool, ghost trail: seq<Stage>)
    requires forall v :: v in on || v in dc ==> v <= Bits(n)
    ensures trail != [] && Initial(trail[0].chart, on, dc, n)
    ensures Complete(trail, trail[0].chart, solution) && (greedy <==> MetStuck(trail))
    ensures Solved(trail[0].chart, solution, greedy)
    ensures FallbackDecided(greedy, on, dc, n)
    ensures Minimizes(solution, greedy, Elements(on) - Elements(dc), Elements(on + dc), n)
  {
    var chart := BuildChart(on, dc, n);
    ghost var c := chart.columns;
    solution, greedy, trail := SolveChart(chart);
    CoverMinimizes(solution, greedy, c, Elements(on) - Elements(dc), Elements(on + dc), n);
    FallbackIsDecided(c, greedy, on, dc, n);
  }

  method MinimizeOne(on: seq<Value>, dc: seq<Value>, n: nat) returns (solution: seq<MinTerm>)
    requires |on| <= 1 && forall v :: v in on || v in dc ==> v <= Bits(n)
    ensures Minimizes(solution, false, Elements(on), Elements(on + dc), n)
    ensures solution == if on == [] then [] else [MinTerm(on[0], {})]
  {
    if |on| == 1 {
      solution := [MinTerm(on[0], {})];
      SingleIsMinimal(on[0], Elements(on + dc), n);
      assert Elements(on) == {on[0]} && Elements(solution) == {MinTerm(on[0], {})};
    } else {
      solution := [];
    }
  }

  lemma MinimizesValid(solution: seq<MinTerm>, greedy: bool, target: set<Value>, allowed: set<Value>, n: nat)
    requires Minimizes(solution, greedy, target, allowed, n)
    ensures forall t :: t in solution ==> t.Valid(n)
  {
    forall t | t in solution ensures t.Valid(n) {
      assert t in Elements(solution);
    }
  }

  lemma FewRepeatNothing(on: seq<Value>, dc: seq<Value>, n: nat)
    requires |on| <= 1
    ensures !Repeats(on, dc, n)
  {
    forall v ensures Count(on, v) <= 1 {
      assert on == [] || on == [on[0]];
    }
  }

  /** With every on-value also a don't-care, nothing is left to cover. */
  lemma NothingToCover(solution: seq<MinTerm>, greedy: bool, c: Chart, on: seq<Value>, dc: seq<Value>, n: nat)
    requires Solved(c, solution, greedy) && ChartFor(c, Elements(on) - Elements(dc), Elements(on + dc), n)
    requires on != [] && Elements(on) <= Elements(dc)
    ensures solution == [] && !Correct(solution, on, dc, n)
  {
    assert c.Keys == {};
    assert on[0] in on && !Eval([], on[0]);
  }

  /** The result is a sum of implicants true on every value it must be true on, with the fewest terms possible
      unless the greedy fallback was used; on disjoint lists the final assertion cannot fail. Whether the fallback is
      used is decided by the lists: exactly if no order of exact reductions empties the chart they give. */
  method MinimizeBoolean(on: seq<Value>, dc: seq<Value>, n: nat)
    returns (solution: seq<MinTerm>, ghost greedy: bool, ghost trail: seq<Stage>)
    requires forall v :: v in on || v in dc ==> v <= Bits(n)
    ensures Minimizes(solution, greedy, Target(on, dc), Elements(on + dc), n)
    ensures |on| <= 1 ==> !greedy && solution == if on == [] then [] else [MinTerm(on[0], {})]
    ensures |on| >= 2 ==> trail != [] && Initial(trail[0].chart, on, dc, n)
    ensures |on| >= 2 ==> Complete(trail, trail[0].chart, solution) && (greedy <==> MetStuck(trail))
    ensures |on| >= 2 ==> FallbackDecided(greedy, on, dc, n)
    ensures Repeats(on, dc, n) ==> greedy
    ensures |on| <= 1 || Elements(on) !! Elements(dc) ==> Correct(solution, on, dc, n)
    ensures |on| >= 2 && Elements(on) <= Elements(dc) ==> solution == [] && !Correct(solution, on, dc, n)
  {
    if |on| <= 1 {
      solution := MinimizeOne(on, dc, n);
      greedy, trail := false, [];
      SolvesIsCorrect(solution, on, dc, n);
      FewRepeatNothing(on, dc, n);
      return;
    }
    solution, greedy, trail := MinimizeLists(on, dc, n);
    if Elements(on) !! Elements(dc) {
      SolvesIsCorrect(solution, on, dc, n);
    }
    if Elements(on) <= Elements(dc) {
      NothingToCover(solution, greedy, trail[0].chart, on, dc, n);
    }
    MinimizesValid(solution, greedy, Elements(on) - Elements(dc), Elements(on + dc), n);
    var ok := CheckSolution(solution, on, dc, n);
    assert Elements(on) !! Elements(dc) ==> ok;
  }

  // ----- lists that overlap in part

  const ON: seq<Value> := [{}, {0}]
  const DC: seq<Value> := [{0}, {1}]

  lemma EdgePrime(x: nat, y: nat)
    requires {x, y} == {0, 1} && x != y
    ensures Prime(MinTerm({}, {x}), Elements(ON + DC), 2)
  {
    var t, allowed := MinTerm({}, {x}), Elements(ON + DC);
    assert allowed == {{}, {0}, {1}};
    assert Bits(2) == {0, 1};
    forall v | Covers(t, v) ensures v in allowed {
      assert v == {} || v == {x};
    }
    var both: Value := {0, 1};
    assert both !in allowed by {
      assert 0 in both && 1 in both;
    }
    forall u | Implicant(u, allowed, 2) && Contains(u, t) ensures u == t {
      ContainsBySets(u, t);
      assert y in u.dash ==> Covers(u, both);
      assert u.dash == {x};
    }
  }

  lemma EdgesOnly(p: MinTerm)
    requires Prime(p, Elements(ON + DC), 2) && Covers(p, {})
    ensures p == MinTerm({}, {0}) || p == MinTerm({}, {1})
  {
    var allowed := Elements(ON + DC);
    assert allowed == {{}, {0}, {1}};
    var both: Value := {0, 1};
    assert both !in allowed by {
      assert 0 in both && 1 in both;
    }
    assert Bits(2) == {0, 1};
    assert !Covers(p, both);
    assert !({0, 1} <= p.dash);
    assert p.dash <= {0, 1};
    if p.dash == {} {
      EdgePrime(0, 1);
      assert Contains(MinTerm({}, {0}), p);
    }
    assert p.dash == {0} || p.dash == {1};
  }

  lemma OverlapTied(c: Chart)
    requires Initial(c, ON, DC, 2)
    ensures Tied(c, {}, MinTerm({}, {0}), MinTerm({}, {1}))
  {
    var a, b := MinTerm({}, {0}), MinTerm({}, {1});
    EdgePrime(0, 1);
    EdgePrime(1, 0);
    OverlapTarget();
    assert ListsPrimes(c[{}], {}, Elements(ON + DC), 2);
    forall p ensures multiset(c[{}])[p] == multiset{a, b}[p] {
      assert multiset(c[{}])[p] == Count(c[{}], p);
      if p in c[{}] {
        EdgesOnly(p);
      }
    }
  }

  lemma OverlapRuns(c: Chart)
    requires Initial(c, ON, DC, 2)
    ensures CanEnd(c, [MinTerm({}, {0})]) && CanEnd(c, [MinTerm({}, {1})])
  {
    OverlapTied(c);
    EitherOfTwo(c, {}, MinTerm({}, {0}), MinTerm({}, {1}));
    EitherOfTwo(c, {}, MinTerm({}, {1}), MinTerm({}, {0}));
  }

  lemma OverlapTarget()
    ensures Target(ON, DC) == {{}}
  {
    assert Elements(ON) == {{}, {0}} && Elements(DC) == {{0}, {1}};
    var none: Value := {};
    assert 0 !in none && 1 !in none;
  }

  lemma OverlapResults()
    ensures Correct([MinTerm({}, {0})], ON, DC, 2) && !Correct([MinTerm({}, {1})], ON, DC, 2)
  {
    var a, b := MinTerm({}, {0}), MinTerm({}, {1});
    assert !Covers(b, {0});
    assert {0} in ON && !Eval([b], {0});
    forall v ensures Eval([a], v) <==> v == {} || v == {0} {
      assert a in [a];
    }
  }

  /** Whether the final assertion holds is not decided by the lists: one run ends with a solution that passes it, and
      another run, on the same chart, with one that misses an on-value that is also a don't-care. */
  lemma OverlapUndecided(c: Chart)
    requires ChartFor(c, Target(ON, DC), Elements(ON + DC), 2)
    ensures IsCover({MinTerm({}, {0})}, c) && IsCover({MinTerm({}, {1})}, c)
    ensures forall x :: IsCover(x, c) ==> 1 <= |x|
    ensures Multiplicities(c, ON + DC) ==> CanEnd(c, [MinTerm({}, {0})]) && CanEnd(c, [MinTerm({}, {1})])
    ensures Correct([MinTerm({}, {0})], ON, DC, 2) && !Correct([MinTerm({}, {1})], ON, DC, 2)
  {
    OverlapResults();
    var a, b := MinTerm({}, {0}), MinTerm({}, {1});
    EdgePrime(0, 1);
    EdgePrime(1, 0);
    OverlapTarget();
    assert ListsPrimes(c[{}], {}, Elements(ON + DC), 2);
    assert a in c[{}] && b in c[{}];
    forall x | IsCover(x, c) ensures 1 <= |x| {
      assert Hits(x, c[{}]);
    }
    if Multiplicities(c, ON + DC) {
      OverlapRuns(c);
    }
  }
}

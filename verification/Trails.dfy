/** The charts that the reduction loop can pass through (external/minbool/minbool.h, minimize_boolean), and when it
    has to fall back on the greedy choice. */
module Trails {
  import opened MinTerms
  import opened ImplicantTables
  import opened Charts
  import opened Elimination
  import opened PrimeCharts
  import Grids

  // ----- a chart as a grid: the order in its lists does not matter

  ghost function GridOf(c: Chart): Grids.Grid<Value, MinTerm> {
    map v | v in c :: multiset(c[v])
  }

  /** The exact reductions alone, in a suitable order, leave nothing to cover. */
  ghost predicate ExactlySolvable(c: Chart) {
    Grids.Solvable(GridOf(c))
  }

  lemma GridNoEmpty(c: Chart, n: nat)
    requires WellFormed(c, n)
    ensures Grids.NoEmpty(GridOf(c))
  {
    forall v | v in c ensures multiset(c[v]) != multiset{} {
      assert c[v][0] in multiset(c[v]);
    }
  }

  lemma GridListed(c: Chart)
    ensures Grids.Listed(GridOf(c)) == Rows(c)
  {
    var g := GridOf(c);
    forall p | p in Rows(c) ensures p in Grids.Listed(g) {
      var v :| v in c && p in c[v];
      assert p in g[v];
    }
    forall p | p in Grids.Listed(g) ensures p in Rows(c) {
      var v :| v in g && p in g[v];
      assert p in c[v];
    }
  }

  lemma OneEntry<T>(s: seq<T>, t: T)
    ensures s == [t] <==> multiset(s) == multiset{t}
  {
    if multiset(s) == multiset{t} {
      assert |s| == |multiset(s)| == 1;
      assert s == [s[0]] && s[0] in multiset{t};
    }
  }

  lemma EssentialAlone(c: Chart, t: MinTerm)
    ensures Essential(c, t) <==> Grids.Alone(GridOf(c), t)
  {
    var g := GridOf(c);
    if v :| v in c && c[v] == [t] {
      assert g[v] == multiset{t};
    }
    if v :| v in g && g[v] == multiset{t} {
      OneEntry(c[v], t);
    }
  }

  ghost predicate AllEssential(c: Chart, ts: set<MinTerm>) {
    forall t :: t in ts ==> Essential(c, t)
  }

  lemma EssentialsAlive(c: Chart, ts: set<MinTerm>)
    requires AllEssential(c, ts)
    ensures ts <= Rows(c)
  {
    forall t | t in ts ensures t in Rows(c) {
      var v :| v in c && c[v] == [t];
      assert t in c[v];
    }
  }

  lemma ColumnStruck(c: Chart, ts: set<MinTerm>, v: Value, n: nat)
    requires WellFormed(c, n) && ts <= Rows(c) && v in c
    ensures (forall t :: t in ts ==> !Covers(t, v)) <==> multiset(c[v]) * multiset(ts) == multiset{}
  {
    Grids.Disjoint(multiset(c[v]), ts);
    forall t | t in ts ensures t in multiset(c[v]) <==> Covers(t, v) {
      assert t in c[v] <==> t in Rows(c) && Covers(t, v);
    }
  }

  lemma StruckFromGrid(c: Chart, c': Chart, ts: set<MinTerm>)
    requires forall v :: v in c' ==> v in c && c'[v] == c[v]
    requires forall v :: v in c ==> (v in c' <==> multiset(c[v]) * multiset(ts) == multiset{})
    ensures GridOf(c') == Grids.StruckAll(GridOf(c), ts)
  {
  }

  /** Striking primes out of the chart is striking them out of the grid. */
  lemma StruckGrid(c: Chart, c': Chart, ts: set<MinTerm>, n: nat)
    requires WellFormed(c, n) && ts <= Rows(c) && StruckBy(c, c', ts)
    ensures GridOf(c') == Grids.StruckAll(GridOf(c), ts)
  {
    forall v | v in c ensures v in c' <==> multiset(c[v]) * multiset(ts) == multiset{} {
      ColumnStruck(c, ts, v, n);
    }
    StruckFromGrid(c, c', ts);
  }

  lemma AloneDecideNothing(c: Chart, ts: set<MinTerm>, n: nat)
    requires WellFormed(c, n) && AllEssential(c, ts)
    ensures ExactlySolvable(c) <==> Grids.Solvable(Grids.StruckAll(GridOf(c), ts))
  {
    GridNoEmpty(c, n);
    forall t | t in ts ensures Grids.Alone(GridOf(c), t) {
      EssentialAlone(c, t);
    }
    Grids.RowsTaken(GridOf(c), ts);
  }

  lemma EssentialsDecideNothing(c: Chart, c': Chart, ts: set<MinTerm>, n: nat)
    requires WellFormed(c, n) && StruckBy(c, c', ts) && AllEssential(c, ts)
    ensures ExactlySolvable(c) <==> ExactlySolvable(c')
  {
    EssentialsAlive(c, ts);
    StruckGrid(c, c', ts, n);
    AloneDecideNothing(c, ts, n);
  }

  lemma ColumnsDecideNothing(c: Chart, c': Chart, n: nat)
    requires WellFormed(c, n) && ColumnPass(c, c')
    ensures ExactlySolvable(c) <==> ExactlySolvable(c')
  {
    var kept :| KeepsColumns(c, kept) && c' == Restrict(c, kept);
    KeepsColumnsEliminates(c, kept);
    var g := GridOf(c);
    GridNoEmpty(c, n);
    forall v | v in g && v !in kept ensures Grids.IncludesKept(g, kept, v) {
      assert Beaten(kept, ColumnBeats(c), v);
      var w :| w in kept && ColumnBeats(c)(w, v);
      assert Includes(c[v], c[w]) && g[v] == multiset(c[v]) && g[w] == multiset(c[w]);
    }
    Grids.ColumnsGone(g, kept);
    assert GridOf(c') == Grids.Kept(g, kept);
  }

  lemma RowsDecideNothing(c: Chart, c': Chart, n: nat)
    requires WellFormed(c, n) && RowPass(c, c')
    ensures ExactlySolvable(c) <==> ExactlySolvable(c')
  {
    var kept :| KeepsRows(c, kept) && OnlyRows(c, c', kept);
    KeepsRowsEliminates(c, kept);
    var g, h := GridOf(c), GridOf(c');
    GridNoEmpty(c, n);
    GridListed(c);
    forall p | p in Grids.Listed(g) && p !in kept ensures Grids.BelowKept(g, kept, p) {
      assert Beaten(kept, RowRule(c), p);
      var q :| q in kept && RowRule(c)(q, p);
      ListedMoreBelow(c, q, p);
    }
    GridOnlyRows(c, c', kept);
    Grids.RowsGone(g, h, kept);
  }

  lemma ListedMoreBelow(c: Chart, q: MinTerm, p: MinTerm)
    ensures ListedMore(c, q, p) <==> Grids.Below(GridOf(c), p, q)
  {
    var g := GridOf(c);
    if ListedMore(c, q, p) {
      forall v | v in g ensures g[v][p] <= g[v][q] {
        assert Count(c[v], p) <= Count(c[v], q);
      }
    }
    if Grids.Below(g, p, q) {
      forall v | v in c ensures Count(c[v], p) <= Count(c[v], q) {
        assert g[v][p] <= g[v][q];
      }
    }
  }

  lemma GridOnlyRows(c: Chart, c': Chart, kept: set<MinTerm>)
    requires OnlyRows(c, c', kept)
    ensures Grids.OnlyRows(GridOf(c), GridOf(c'), kept)
  {
    forall v, p | v in c ensures multiset(c'[v])[p] == if p in kept then multiset(c[v])[p] else 0 {
      assert OnlyTerms(c[v], c'[v], kept);
      assert Count(c'[v], p) == if p in kept then Count(c[v], p) else 0;
    }
  }

  // ----- charts that only the fallback makes smaller

  /** Some column lists just one prime, or some column or row includes another. */
  ghost predicate Reducible(c: Chart) {
    (exists t :: Essential(c, t)) || !ColumnsIrreducible(c) || !RowsIrreducible(c)
  }

  /** A chart that only the fallback can make smaller. */
  ghost predicate Stuck(c: Chart) {
    c != map[] && !Reducible(c)
  }

  lemma RowReduces(c: Chart, q: MinTerm, p: MinTerm)
    requires q != p && p in Rows(c) && Grids.Below(GridOf(c), p, q)
    ensures !RowsIrreducible(c)
  {
    ListedMoreBelow(c, q, p);
    var v :| v in c && p in c[v];
    assert Count(c[v], p) <= Count(c[v], q);
    assert q in c[v] && q in Rows(c);
  }

  lemma MoveReduces(c: Chart, m: Grids.Move<Value, MinTerm>)
    requires Grids.Enabled(GridOf(c), m)
    ensures Reducible(c)
  {
    match m {
      case Column(w, v) => assert Includes(c[v], c[w]);
      case Row(q, p) =>
        GridListed(c);
        RowReduces(c, q, p);
      case Take(u, t) =>
        assert Grids.Alone(GridOf(c), t);
        EssentialAlone(c, t);
    }
  }

  lemma StuckUnsolvable(c: Chart)
    requires Stuck(c)
    ensures !ExactlySolvable(c)
  {
    var g := GridOf(c);
    assert g.Keys == c.Keys;
    forall m ensures !Grids.Enabled(g, m) {
      if Grids.Enabled(g, m) {
        MoveReduces(c, m);
      }
    }
    Grids.NoMoveNoSolution(g);
  }

  ghost predicate ListsEssential(c: Chart, v: Value)
    requires v in c
  {
    exists t :: t in c[v] && Essential(c, t)
  }

  /** Every column lists a prime that is the only entry of some column. */
  ghost predicate EssentialsCover(c: Chart) {
    forall v :: v in c ==> ListsEssential(c, v)
  }

  ghost function EssentialsOf(c: Chart): (ts: set<MinTerm>)
    ensures AllEssential(c, ts)
  {
    set t | t in Rows(c) && Essential(c, t)
  }

  lemma EssentialsStrikeAll(c: Chart, n: nat)
    requires WellFormed(c, n) && EssentialsCover(c)
    ensures StruckBy(c, map[], EssentialsOf(c))
  {
    forall v | v in c ensures exists t :: t in EssentialsOf(c) && Covers(t, v) {
      assert ListsEssential(c, v);
      var t :| t in c[v] && Essential(c, t);
      assert t in Rows(c) && Covers(t, v);
    }
  }

  /** Where the essential primes cover everything, the fallback is not needed. */
  lemma EssentialsSuffice(c: Chart, n: nat)
    requires WellFormed(c, n) && EssentialsCover(c)
    ensures ExactlySolvable(c)
  {
    EssentialsStrikeAll(c, n);
    EssentialsDecideNothing(c, map[], EssentialsOf(c), n);
    Grids.EmptySolvable(GridOf(map[]));
  }

  // ----- what a run of passes achieves

  /** What a pass, or a run of passes, has achieved since chart `c0`. */
  ghost predicate Progress(c0: Chart, c: Chart, taken: seq<MinTerm>, greedy: bool) {
    && Rows(c) <= Rows(c0)
    && Elements(taken) <= Rows(c0)
    && Keeps(c0, c, Elements(taken))
    && (!greedy ==> NoWorse(c0, c, |taken|))
  }

  lemma ElementsAppend<T>(s: seq<T>, t: seq<T>)
    ensures Elements(s + t) == Elements(s) + Elements(t)
  {
  }

  lemma ProgressCompose(c0: Chart, c1: Chart, c2: Chart, t1: seq<MinTerm>, t2: seq<MinTerm>, g1: bool, g2: bool)
    requires Progress(c0, c1, t1, g1) && Progress(c1, c2, t2, g2)
    ensures Progress(c0, c2, t1 + t2, g1 || g2)
  {
    KeepsCompose(c0, c1, c2, Elements(t1), Elements(t2));
    ElementsAppend(t1, t2);
    if !g1 && !g2 {
      NoWorseCompose(c0, c1, c2, |t1|, |t2|);
    }
  }

  lemma NoProgress(c: Chart)
    ensures Progress(c, c, [], false)
  {
    assert Elements<MinTerm>([]) == {};
    forall x: set<MinTerm> | IsCover(x, c) ensures IsCover(x + {}, c) && CoverWithin(c, |x| - 0) {
      assert x + {} == x;
    }
  }

  lemma CoveredWhenEmpty(c0: Chart, taken: seq<MinTerm>, greedy: bool)
    requires Progress(c0, map[], taken, greedy)
    ensures IsCover(Elements(taken), c0)
    ensures !greedy ==> forall x :: IsCover(x, c0) ==> |taken| <= |x|
  {
    assert IsCover({}, map[]);
    assert {} + Elements(taken) == Elements(taken);
    forall x | !greedy && IsCover(x, c0) ensures |taken| <= |x| {
      var y := NoWorseAt(c0, map[], |taken|, x);
    }
  }

  /** A chart, and the solution so far. */
  datatype Stage = Stage(chart: Chart, solution: seq<MinTerm>)

  ghost predicate Since(s: Stage, s': Stage, greedy: bool) {
    exists taken :: s'.solution == s.solution + taken && Progress(s.chart, s'.chart, taken, greedy)
  }

  lemma SinceCompose(s0: Stage, s1: Stage, s2: Stage, g1: bool, g2: bool)
    requires Since(s0, s1, g1) && Since(s1, s2, g2)
    ensures Since(s0, s2, g1 || g2)
  {
    var t1 :| s1.solution == s0.solution + t1 && Progress(s0.chart, s1.chart, t1, g1);
    var t2 :| s2.solution == s1.solution + t2 && Progress(s1.chart, s2.chart, t2, g2);
    ProgressCompose(s0.chart, s1.chart, s2.chart, t1, t2, g1, g2);
    assert s2.solution == s0.solution + (t1 + t2);
  }

  // ----- one pass of the loop

  /** Every essential prime is taken, once. */
  ghost predicate TheEssentials(c: Chart, news: seq<MinTerm>) {
    NoDuplicates(news) && forall t :: t in news <==> Essential(c, t)
  }

  ghost predicate TakesEssentials(s: Stage, s': Stage) {
    exists news :: TheEssentials(s.chart, news) && s'.solution == s.solution + news
                   && StruckBy(s.chart, s'.chart, Elements(news))
  }

  /** The exact reductions: essential primes, then dominance. */
  ghost predicate Reduces(s: Stage, s': Stage) {
    exists s1 :: TakesEssentials(s, s1) && Simplifies(s1.chart, s'.chart) && s'.solution == s1.solution
  }

  /** No row is listed more often. */
  ghost predicate MostListed(c: Chart, t: MinTerm) {
    t in Rows(c) && forall p :: p in Rows(c) ==> Occurrences(c, p) <= Occurrences(c, t)
  }

  ghost predicate FallsBack(s: Stage, s': Stage) {
    exists t :: MostListed(s.chart, t) && s'.solution == s.solution + [t] && StruckBy(s.chart, s'.chart, {t})
  }

  /** `s'` is what one pass can make of `s`: the fallback follows if the reductions left the chart as it was. */
  ghost predicate Pass(s: Stage, s': Stage) {
    exists s1 :: Reduces(s, s1) && if Stuck(s.chart) then FallsBack(s1, s') else s' == s1
  }

  lemma {:induction false} DistinctCard<T>(s: seq<T>)
    requires NoDuplicates(s)
    ensures |Elements(s)| == |s|
  {
    if s == [] {
    } else {
      var k := |s| - 1;
      DistinctCard(s[..k]);
      assert s == s[..k] + [s[k]];
      assert Elements(s) == Elements(s[..k]) + {s[k]};
      assert s[k] !in s[..k];
    }
  }

  lemma EssentialsAre(c: Chart, news: seq<MinTerm>)
    requires TheEssentials(c, news)
    ensures AllEssential(c, Elements(news)) && |Elements(news)| == |news|
  {
    DistinctCard(news);
  }

  lemma EssentialsProgress(c: Chart, c': Chart, news: seq<MinTerm>, n: nat)
    requires WellFormed(c, n) && StruckBy(c, c', Elements(news))
    requires AllEssential(c, Elements(news)) && |Elements(news)| == |news|
    ensures WellFormed(c', n) && Progress(c, c', news, false)
  {
    EssentialsAlive(c, Elements(news));
    SubchartWellFormed(c, c', n);
    StruckKeeps(c, c', Elements(news), n);
    EssentialsNoWorse(c, c', Elements(news), n);
  }

  lemma EssentialsStep(s: Stage, s': Stage, n: nat)
    requires WellFormed(s.chart, n) && TakesEssentials(s, s')
    ensures WellFormed(s'.chart, n) && Since(s, s', false)
    ensures ExactlySolvable(s.chart) <==> ExactlySolvable(s'.chart)
  {
    var news :| TheEssentials(s.chart, news) && s'.solution == s.solution + news
                && StruckBy(s.chart, s'.chart, Elements(news));
    EssentialsAre(s.chart, news);
    EssentialsProgress(s.chart, s'.chart, news, n);
    EssentialsDecideNothing(s.chart, s'.chart, Elements(news), n);
  }

  lemma SimplifyKeeps(c: Chart, c': Chart, n: nat)
    requires WellFormed(c, n) && Simplifies(c, c')
    ensures WellFormed(c', n) && Rows(c') <= Rows(c) && Keeps(c, c', {}) && NoWorse(c, c', 0)
    ensures ExactlySolvable(c) <==> ExactlySolvable(c')
  {
    var c1 :| ColumnPass(c, c1) && RowPass(c1, c');
    ColumnPassKeeps(c, c1, n);
    RowPassKeeps(c1, c', n);
    KeepsCompose(c, c1, c', {}, {});
    NoWorseCompose(c, c1, c', 0, 0);
    ColumnsDecideNothing(c, c1, n);
    RowsDecideNothing(c1, c', n);
  }

  lemma SimplifyStep(s: Stage, s': Stage, n: nat)
    requires WellFormed(s.chart, n) && Simplifies(s.chart, s'.chart) && s'.solution == s.solution
    ensures WellFormed(s'.chart, n) && Since(s, s', false)
    ensures ExactlySolvable(s.chart) <==> ExactlySolvable(s'.chart)
  {
    SimplifyKeeps(s.chart, s'.chart, n);
    assert Elements<MinTerm>([]) == {};
    assert Progress(s.chart, s'.chart, [], false) && s'.solution == s.solution + [];
  }

  lemma ReduceStep(s: Stage, s': Stage, n: nat)
    requires WellFormed(s.chart, n) && Reduces(s, s')
    ensures WellFormed(s'.chart, n) && Since(s, s', false)
    ensures ExactlySolvable(s.chart) <==> ExactlySolvable(s'.chart)
  {
    var s1 :| TakesEssentials(s, s1) && Simplifies(s1.chart, s'.chart) && s'.solution == s1.solution;
    EssentialsStep(s, s1, n);
    SimplifyStep(s1, s', n);
    SinceCompose(s, s1, s', false, false);
  }

  lemma FallbackStep(s: Stage, s': Stage, n: nat)
    requires WellFormed(s.chart, n) && FallsBack(s, s')
    ensures WellFormed(s'.chart, n) && Since(s, s', true)
  {
    var t :| MostListed(s.chart, t) && s'.solution == s.solution + [t] && StruckBy(s.chart, s'.chart, {t});
    SubchartWellFormed(s.chart, s'.chart, n);
    StruckKeeps(s.chart, s'.chart, {t}, n);
    assert Elements([t]) == {t};
    assert Progress(s.chart, s'.chart, [t], true);
  }

  /** A pass without the fallback costs nothing, and decides nothing about the rest. */
  lemma PassStep(s: Stage, s': Stage, n: nat)
    requires WellFormed(s.chart, n) && Pass(s, s')
    ensures WellFormed(s'.chart, n) && Since(s, s', Stuck(s.chart))
    ensures !Stuck(s.chart) ==> (ExactlySolvable(s.chart) <==> ExactlySolvable(s'.chart))
  {
    var s1 :| Reduces(s, s1) && if Stuck(s.chart) then FallsBack(s1, s') else s' == s1;
    ReduceStep(s, s1, n);
    if Stuck(s.chart) {
      FallbackStep(s1, s', n);
      SinceCompose(s, s1, s', false, true);
    }
  }

  // ----- all the passes

  /** A run of the loop: each stage is what a pass can make of the one before. */
  ghost predicate Trail(trail: seq<Stage>) {
    trail != [] && forall i :: 0 < i < |trail| ==> Pass(trail[i - 1], trail[i])
  }

  /** Some pass started with a chart that only the fallback can make smaller. */
  ghost predicate MetStuck(trail: seq<Stage>) {
    exists i :: 0 <= i < |trail| - 1 && Stuck(trail[i].chart)
  }

  /** A run from `c` until no column was left. */
  ghost predicate Complete(trail: seq<Stage>, c: Chart, solution: seq<MinTerm>) {
    Trail(trail) && trail[0] == Stage(c, []) && trail[|trail| - 1] == Stage(map[], solution)
  }

  lemma TrailMore(trail: seq<Stage>, s: Stage)
    requires Trail(trail) && Pass(trail[|trail| - 1], s)
    ensures Trail(trail + [s])
  {
  }

  lemma MetStuckMore(trail: seq<Stage>, s: Stage)
    requires trail != []
    ensures MetStuck(trail + [s]) <==> MetStuck(trail) || Stuck(trail[|trail| - 1].chart)
  {
    var more := trail + [s];
    if MetStuck(trail) {
      var i :| 0 <= i < |trail| - 1 && Stuck(trail[i].chart);
      assert Stuck(more[i].chart);
    }
    if Stuck(trail[|trail| - 1].chart) {
      assert Stuck(more[|trail| - 1].chart);
    }
    if MetStuck(more) {
      var i :| 0 <= i < |more| - 1 && Stuck(more[i].chart);
      assert Stuck(trail[i].chart);
    }
  }

  lemma TrailLess(trail: seq<Stage>)
    requires Trail(trail) && |trail| > 1
    ensures var k := |trail| - 1;
            && Trail(trail[..k]) && Pass(trail[k - 1], trail[k])
            && (MetStuck(trail) <==> MetStuck(trail[..k]) || Stuck(trail[k - 1].chart))
  {
    var k := |trail| - 1;
    MetStuckMore(trail[..k], trail[k]);
    assert trail[..k] + [trail[k]] == trail;
  }

  /** What holds of the first and the last stage of any run. */
  ghost predicate Related(s: Stage, s': Stage, stuck: bool, n: nat) {
    && WellFormed(s'.chart, n) && Since(s, s', stuck)
    && if stuck then !ExactlySolvable(s.chart) else ExactlySolvable(s.chart) <==> ExactlySolvable(s'.chart)
  }

  lemma RelatedStart(s: Stage, n: nat)
    requires WellFormed(s.chart, n)
    ensures Related(s, s, false, n)
  {
    NoProgress(s.chart);
    assert s.solution == s.solution + [];
  }

  lemma RelatedMore(s: Stage, s1: Stage, s2: Stage, stuck: bool, n: nat)
    requires Related(s, s1, stuck, n) && Pass(s1, s2)
    ensures Related(s, s2, stuck || Stuck(s1.chart), n)
  {
    PassStep(s1, s2, n);
    SinceCompose(s, s1, s2, stuck, Stuck(s1.chart));
    if Stuck(s1.chart) {
      StuckUnsolvable(s1.chart);
    }
  }

  lemma {:induction false} TrailRelated(trail: seq<Stage>, n: nat)
    requires Trail(trail) && WellFormed(trail[0].chart, n)
    ensures Related(trail[0], trail[|trail| - 1], MetStuck(trail), n)
    decreases |trail|
  {
    if |trail| == 1 {
      RelatedStart(trail[0], n);
    } else {
      var k := |trail| - 1;
      TrailLess(trail);
      TrailRelated(trail[..k], n);
      RelatedMore(trail[0], trail[k - 1], trail[k], MetStuck(trail[..k]), n);
    }
  }

  /** What the result of a run is worth. */
  ghost predicate Solved(c: Chart, solution: seq<MinTerm>, greedy: bool) {
    && Elements(solution) <= Rows(c) && IsCover(Elements(solution), c)
    && (!greedy ==> forall x :: IsCover(x, c) ==> |solution| <= |x|)
    && (c == map[] ==> solution == [])
  }

  lemma SinceStart(c: Chart, s: Stage, greedy: bool)
    requires Since(Stage(c, []), s, greedy)
    ensures Progress(c, s.chart, s.solution, greedy)
  {
    var taken :| s.solution == [] + taken && Progress(c, s.chart, taken, greedy);
    assert taken == s.solution;
  }

  lemma SolvedEnd(c: Chart, solution: seq<MinTerm>, greedy: bool)
    requires Progress(c, map[], solution, greedy)
    ensures Solved(c, solution, greedy)
  {
    CoveredWhenEmpty(c, solution, greedy);
    if c == map[] && solution != [] {
      assert solution[0] in Elements(solution);
    }
  }

  /** Every complete run ends in a cover. Whatever keys its loops happened to visit first, it needed the fallback
      if and only if no order of exact reductions empties the chart; if it did not, the cover is a smallest one. */
  lemma TrailSolves(trail: seq<Stage>, c: Chart, solution: seq<MinTerm>, n: nat)
    requires WellFormed(c, n) && Complete(trail, c, solution)
    ensures Solved(c, solution, MetStuck(trail))
    ensures MetStuck(trail) <==> !ExactlySolvable(c)
  {
    TrailRelated(trail, n);
    SinceStart(c, Stage(map[], solution), MetStuck(trail));
    SolvedEnd(c, solution, MetStuck(trail));
    Grids.EmptySolvable(GridOf(map[]));
  }

  lemma {:induction false} ElementsCard<T>(s: seq<T>)
    ensures |Elements(s)| <= |s|
  {
    if s == [] {
    } else {
      var k := |s| - 1;
      ElementsCard(s[..k]);
      assert s == s[..k] + [s[k]];
      assert Elements(s) == Elements(s[..k]) + {s[k]};
    }
  }

  /** Two runs on one chart, however they chose: both need the fallback or neither does, and without it their
      solutions have the same number of terms. */
  lemma RunsAgree(trail: seq<Stage>, trail': seq<Stage>, c: Chart, solution: seq<MinTerm>, solution': seq<MinTerm>,
                  n: nat)
    requires WellFormed(c, n) && Complete(trail, c, solution) && Complete(trail', c, solution')
    ensures MetStuck(trail) <==> MetStuck(trail')
    ensures !MetStuck(trail) ==> |solution| == |solution'|
  {
    TrailSolves(trail, c, solution, n);
    TrailSolves(trail', c, solution', n);
    ElementsCard(solution);
    ElementsCard(solution');
  }

  /** A value listed by one prime alone, but more than once, cannot be covered without the fallback. */
  lemma DoubledNeedsFallback(c: Chart, v: Value, p: MinTerm, n: nat)
    requires WellFormed(c, n) && Grids.Doubled(GridOf(c), v, p)
    ensures !ExactlySolvable(c)
  {
    GridNoEmpty(c, n);
    forall moves ensures !Grids.Solves(GridOf(c), moves) {
      Grids.DoubledUnsolvable(GridOf(c), v, p, moves);
    }
  }

  // ----- a chart with two outcomes

  /** Some run on `c` ends with this solution. */
  ghost predicate CanEnd(c: Chart, solution: seq<MinTerm>) {
    exists trail :: Complete(trail, c, solution)
  }

  ghost predicate Tied(c: Chart, v: Value, p: MinTerm, q: MinTerm) {
    c.Keys == {v} && p != q && multiset(c[v]) == multiset{p, q}
  }

  lemma TiedRows(c: Chart, v: Value, p: MinTerm, q: MinTerm)
    requires Tied(c, v, p, q)
    ensures Rows(c) == {p, q} && RowRule(c)(p, q) && !RowsIrreducible(c) && forall t :: !Essential(c, t)
  {
    assert |c[v]| == |multiset(c[v])| == 2;
    assert p in multiset(c[v]) && q in multiset(c[v]);
    assert p in c[v] && q in c[v];
    forall t | t in c[v] ensures t == p || t == q {
      assert t in multiset(c[v]);
    }
    assert Count(c[v], p) == 1 && Count(c[v], q) == 1;
  }

  lemma OneColumnStays(c: Chart, v: Value)
    requires c.Keys == {v}
    ensures ColumnPass(c, c)
  {
    var beats := ColumnBeats(c);
    assert !Wins({v}, beats, v);
    assert {v} - {v} == {};
    assert CanLeaveAt({v}, {v}, beats, {v}, v);
    assert KeepsColumns(c, {v}) && Restrict(c, {v}) == c;
  }

  lemma EitherRowStays(c: Chart, v: Value, p: MinTerm, q: MinTerm)
    requires Tied(c, v, p, q)
    ensures RowPass(c, map[v := [p]])
  {
    TiedRows(c, v, p, q);
    var beats := RowRule(c);
    assert Wins({p, q}, beats, p);
    assert {p, q} - {p} - {q} == {} && {p, q} - {q} == {p};
    assert CanLeave({p, q} - {p} - {q}, {p, q} - {q}, beats, {p});
    assert CanLeaveAt({p, q}, {p, q}, beats, {p}, p);
    assert KeepsRows(c, {p});
    var c' := map[v := [p]];
    assert OnlyTerms(c[v], c'[v], {p}) by {
      forall t ensures Count([p], t) == if t in {p} then Count(c[v], t) else 0 {
      }
    }
    assert OnlyRows(c, c', {p});
  }

  lemma NoEssentials(c: Chart)
    requires forall t :: !Essential(c, t)
    ensures TakesEssentials(Stage(c, []), Stage(c, []))
  {
    var none: seq<MinTerm> := [];
    assert TheEssentials(c, none) && Elements(none) == {} && none == none + none;
    assert StruckBy(c, c, Elements(none));
  }

  lemma ExactPass(s: Stage, s1: Stage, c: Chart)
    requires TakesEssentials(s, s1) && Simplifies(s1.chart, c) && Reducible(s.chart)
    ensures Pass(s, Stage(c, s1.solution))
  {
    assert Reduces(s, Stage(c, s1.solution));
  }

  lemma TiedPass(c: Chart, v: Value, p: MinTerm, q: MinTerm)
    requires Tied(c, v, p, q)
    ensures Pass(Stage(c, []), Stage(map[v := [p]], []))
  {
    TiedRows(c, v, p, q);
    NoEssentials(c);
    OneColumnStays(c, v);
    EitherRowStays(c, v, p, q);
    assert Simplifies(c, map[v := [p]]);
    ExactPass(Stage(c, []), Stage(c, []), map[v := [p]]);
  }

  lemma NothingToDrop()
    ensures Simplifies(map[], map[])
  {
    var c: Chart := map[];
    assert c.Keys == {} && Rows(c) == {};
    assert KeepsColumns(c, {}) && Restrict(c, {}) == c;
    assert KeepsRows(c, {}) && OnlyRows(c, c, {});
    assert ColumnPass(c, c) && RowPass(c, c);
  }

  lemma SinglePass(v: Value, p: MinTerm)
    requires Covers(p, v)
    ensures Pass(Stage(map[v := [p]], []), Stage(map[], [p]))
  {
    var c: Chart := map[v := [p]];
    var s, s' := Stage(c, []), Stage(map[], [p]);
    assert v in c && c[v] == [p];
    forall t ensures t in [p] <==> Essential(c, t) {
      assert Essential(c, t) ==> c[v] == [t];
    }
    assert TheEssentials(c, [p]) && Elements([p]) == {p};
    assert StruckBy(c, map[], Elements([p])) && s'.solution == s.solution + [p];
    assert TakesEssentials(s, s') && Essential(c, p);
    NothingToDrop();
    ExactPass(s, s', map[]);
  }

  lemma TwoPasses(s: Stage, s1: Stage, s2: Stage)
    requires Pass(s, s1) && Pass(s1, s2) && s.solution == [] && s2.chart == map[]
    ensures CanEnd(s.chart, s2.solution)
  {
    var trail := [s, s1, s2];
    forall i | 0 < i < 3 ensures Pass(trail[i - 1], trail[i]) {
      assert i == 1 || i == 2;
    }
    assert Complete(trail, s.chart, s2.solution);
  }

  /** Where two primes are tied, either can be the one that is taken. */
  lemma EitherOfTwo(c: Chart, v: Value, p: MinTerm, q: MinTerm)
    requires Tied(c, v, p, q) && Covers(p, v)
    ensures CanEnd(c, [p])
  {
    TiedPass(c, v, p, q);
    SinglePass(v, p);
    TwoPasses(Stage(c, []), Stage(map[v := [p]], []), Stage(map[], [p]));
  }
}

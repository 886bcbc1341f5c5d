/** The exact reductions of a covering problem, and that their order does not matter. */
module Grids {
  import ImplicantTables

  /** For every column, how often each row is listed in it. */
  type Grid<V, P> = map<V, multiset<P>>

  ghost predicate NoEmpty<V(!new), P>(g: Grid<V, P>) {
    forall v :: v in g ==> g[v] != multiset{}
  }

  ghost function Listed<V, P>(g: Grid<V, P>): set<P> {
    set v, p | v in g && p in g[v] :: p
  }

  /** Row `p` is listed nowhere more often than row `q`. */
  ghost predicate Below<V(!new), P>(g: Grid<V, P>, p: P, q: P) {
    forall v :: v in g ==> g[v][p] <= g[v][q]
  }

  ghost function WithoutRow<V, P>(g: Grid<V, P>, p: P): Grid<V, P> {
    map v | v in g :: g[v][p := 0]
  }

  /** Only the columns that do not list `p`. */
  ghost function Struck<V, P>(g: Grid<V, P>, p: P): Grid<V, P> {
    map v | v in g && p !in g[v] :: g[v]
  }

  /** Drop a column that includes `w`, drop a row that is below `q`, or take the one row of a column. */
  datatype Move<V, P> = Column(w: V, v: V) | Row(q: P, p: P) | Take(u: V, t: P)

  ghost predicate Enabled<V(!new), P>(g: Grid<V, P>, m: Move<V, P>) {
    match m
    case Column(w, v) => w in g && v in g && w != v && g[w] <= g[v]
    case Row(q, p) => p != q && p in Listed(g) && Below(g, p, q)
    case Take(u, t) => u in g && g[u] == multiset{t}
  }

  ghost function Do<V, P>(g: Grid<V, P>, m: Move<V, P>): Grid<V, P> {
    match m
    case Column(_, v) => g - {v}
    case Row(_, p) => WithoutRow(g, p)
    case Take(_, t) => Struck(g, t)
  }

  /** These moves can be made one after the other, and leave nothing to cover. */
  ghost predicate Solves<V(!new), P(!new)>(g: Grid<V, P>, moves: seq<Move<V, P>>) {
    if moves == [] then g == map[] else Enabled(g, moves[0]) && Solves(Do(g, moves[0]), moves[1..])
  }

  /** Some sequence of moves leaves nothing to cover. */
  ghost predicate Solvable<V(!new), P(!new)>(g: Grid<V, P>) {
    exists moves :: Solves(g, moves)
  }

  // ----- moves make a grid smaller

  ghost function Size<V, P>(g: Grid<V, P>): nat {
    |g| + |Listed(g)|
  }

  lemma MoveShrinks<V(!new), P(!new)>(g: Grid<V, P>, m: Move<V, P>)
    requires NoEmpty(g) && Enabled(g, m)
    ensures NoEmpty(Do(g, m)) && Size(Do(g, m)) < Size(g)
  {
    var h := Do(g, m);
    forall p | p in Listed(h) ensures p in Listed(g) {
      var v :| v in h && p in h[v];
      assert p in g[v];
    }
    assert h.Keys <= g.Keys;
    ImplicantTables.SubsetCard(Listed(h), Listed(g));
    ImplicantTables.SubsetCard(h.Keys, g.Keys);
    match m {
      case Column(w, v) => assert v in g.Keys && v !in h.Keys;
      case Row(q, p) =>
        RowGone(g, q, p);
      case Take(u, t) => assert u in g.Keys && u !in h.Keys;
    }
  }

  lemma RowGone<V(!new), P(!new)>(g: Grid<V, P>, q: P, p: P)
    requires NoEmpty(g) && Enabled(g, Row(q, p))
    ensures NoEmpty(WithoutRow(g, p)) && p !in Listed(WithoutRow(g, p))
  {
    forall v | v in g ensures g[v][p := 0] != multiset{} {
      var x :| x in g[v];
      if x == p {
        assert g[v][p := 0][q] > 0;
      } else {
        assert g[v][p := 0][x] > 0;
      }
    }
  }

  // ----- renaming

  ghost predicate Involution<T(!new)>(f: T -> T) {
    forall x :: f(f(x)) == x
  }

  /** `h` is `g` with its columns and rows renamed. */
  ghost predicate Renamed<V(!new), P(!new)>(g: Grid<V, P>, h: Grid<V, P>, f: V -> V, r: P -> P) {
    && Involution(f) && Involution(r)
    && (forall v :: v in h <==> f(v) in g)
    && (forall v, x :: v in h ==> h[v][x] == g[f(v)][r(x)])
  }

  ghost function RenamedMove<V(!new), P(!new)>(m: Move<V, P>, f: V -> V, r: P -> P): Move<V, P> {
    match m
    case Column(w, v) => Column(f(w), f(v))
    case Row(q, p) => Row(r(q), r(p))
    case Take(u, t) => Take(f(u), r(t))
  }

  lemma RenamedColumn<V(!new), P(!new)>(g: Grid<V, P>, h: Grid<V, P>, f: V -> V, r: P -> P, w: V, v: V)
    requires Renamed(g, h, f, r) && Enabled(g, Column(w, v))
    ensures Enabled(h, Column(f(w), f(v))) && Renamed(g - {v}, h - {f(v)}, f, r)
  {
    assert f(f(w)) == w && f(f(v)) == v;
    forall x ensures h[f(w)][x] <= h[f(v)][x] {
      assert g[w][r(x)] <= g[v][r(x)];
    }
  }

  lemma RenamedRow<V(!new), P(!new)>(g: Grid<V, P>, h: Grid<V, P>, f: V -> V, r: P -> P, q: P, p: P)
    requires Renamed(g, h, f, r) && Enabled(g, Row(q, p))
    ensures Enabled(h, Row(r(q), r(p))) && Renamed(WithoutRow(g, p), WithoutRow(h, r(p)), f, r)
  {
    assert r(r(p)) == p && r(r(q)) == q;
    var v :| v in g && p in g[v];
    assert f(f(v)) == v && h[f(v)][r(p)] == g[v][p];
    assert r(p) in h[f(v)];
    forall u | u in h ensures h[u][r(p)] <= h[u][r(q)] {
      assert g[f(u)][p] <= g[f(u)][q];
    }
    var g', h' := WithoutRow(g, p), WithoutRow(h, r(p));
    forall u, x | u in h' ensures h'[u][x] == g'[f(u)][r(x)] {
      assert x == r(p) <==> r(x) == p;
    }
  }

  lemma RenamedTake<V(!new), P(!new)>(g: Grid<V, P>, h: Grid<V, P>, f: V -> V, r: P -> P, u: V, t: P)
    requires Renamed(g, h, f, r) && Enabled(g, Take(u, t))
    ensures Enabled(h, Take(f(u), r(t))) && Renamed(Struck(g, t), Struck(h, r(t)), f, r)
  {
    assert f(f(u)) == u && r(r(t)) == t;
    forall x ensures h[f(u)][x] == multiset{r(t)}[x] {
      assert h[f(u)][x] == g[u][r(x)] == multiset{t}[r(x)];
      assert r(x) == t <==> x == r(t);
    }
    forall v | v in h ensures r(t) in h[v] <==> t in g[f(v)] {
      assert h[v][r(t)] == g[f(v)][t];
    }
  }

  lemma RenamedStep<V(!new), P(!new)>(g: Grid<V, P>, h: Grid<V, P>, f: V -> V, r: P -> P, m: Move<V, P>)
    requires Renamed(g, h, f, r) && Enabled(g, m)
    ensures Enabled(h, RenamedMove(m, f, r)) && Renamed(Do(g, m), Do(h, RenamedMove(m, f, r)), f, r)
  {
    match m {
      case Column(w, v) => RenamedColumn(g, h, f, r, w, v);
      case Row(q, p) => RenamedRow(g, h, f, r, q, p);
      case Take(u, t) => RenamedTake(g, h, f, r, u, t);
    }
  }

  lemma SolvesFrom<V(!new), P(!new)>(g: Grid<V, P>, m: Move<V, P>, moves: seq<Move<V, P>>)
    requires Enabled(g, m) && Solves(Do(g, m), moves)
    ensures Solves(g, [m] + moves)
  {
    assert ([m] + moves)[1..] == moves;
  }

  /** A renamed grid can be solved as well. */
  lemma {:induction false} RenamedSolvable<V(!new), P(!new)>(g: Grid<V, P>, h: Grid<V, P>, f: V -> V, r: P -> P,
                                                             moves: seq<Move<V, P>>)
    returns (renamed: seq<Move<V, P>>)
    requires Renamed(g, h, f, r) && Solves(g, moves)
    ensures Solves(h, renamed)
    decreases |moves|
  {
    if moves == [] {
      renamed := [];
      assert h.Keys == {};
    } else {
      var m := moves[0];
      RenamedStep(g, h, f, r, m);
      renamed := RenamedSolvable(Do(g, m), Do(h, RenamedMove(m, f, r)), f, r, moves[1..]);
      SolvesFrom(h, RenamedMove(m, f, r), renamed);
      renamed := [RenamedMove(m, f, r)] + renamed;
    }
  }

  // ----- any two moves can be joined again

  /** `h` is `g`, or one move away from it. */
  ghost predicate Near<V(!new), P(!new)>(g: Grid<V, P>, h: Grid<V, P>) {
    g == h || exists m :: Enabled(g, m) && Do(g, m) == h
  }

  ghost predicate Meet<V(!new), P(!new)>(a: Grid<V, P>, b: Grid<V, P>) {
    exists e :: Near(a, e) && Near(b, e)
  }

  /** Both lead to the same grid, or one is the other renamed. */
  ghost predicate Joined<V(!new), P(!new)>(a: Grid<V, P>, b: Grid<V, P>) {
    Meet(a, b) || exists f: V -> V, r: P -> P :: Renamed(a, b, f, r)
  }

  lemma MeetAt<V(!new), P(!new)>(a: Grid<V, P>, b: Grid<V, P>, e: Grid<V, P>)
    requires Near(a, e) && Near(b, e)
    ensures Meet(a, b) && Meet(b, a)
  {
  }

  ghost function Swap<T(!new)>(a: T, b: T): T -> T {
    x => if x == a then b else if x == b then a else x
  }

  ghost function Same<T(!new)>(): T -> T {
    x => x
  }

  lemma SwapInvolution<T(!new)>(a: T, b: T)
    ensures Involution(Swap(a, b)) && Involution<T>(Same())
  {
  }

  /** Drop column `v` or column `y`. */
  lemma TwoColumns<V(!new), P(!new)>(g: Grid<V, P>, w: V, v: V, x: V, y: V)
    requires Enabled(g, Column(w, v)) && Enabled(g, Column(x, y))
    ensures Joined(g - {v}, g - {y})
  {
    var a, b, e := g - {v}, g - {y}, g - {v} - {y};
    if v == y {
      MeetAt(a, b, a);
    } else if w == y && x == v {
      assert g[v] == g[y];
      SwapInvolution(v, y);
      assert Renamed(a, b, Swap(v, y), Same());
    } else {
      assert e == b - {v};
      assert Enabled(a, Column(if x == v then w else x, y));
      assert Enabled(b, Column(if w == y then x else w, v));
      assert Do(a, Column(if x == v then w else x, y)) == e && Do(b, Column(if w == y then x else w, v)) == e;
      MeetAt(a, b, e);
    }
  }

  lemma RowsCommute<V(!new), P(!new)>(g: Grid<V, P>, p: P, s: P)
    ensures WithoutRow(WithoutRow(g, p), s) == WithoutRow(WithoutRow(g, s), p)
  {
    forall v | v in g ensures g[v][p := 0][s := 0] == g[v][s := 0][p := 0] {
      var a, b := g[v][p := 0][s := 0], g[v][s := 0][p := 0];
      assert forall x :: a[x] == b[x];
    }
  }

  /** Drop row `p` or row `s`. */
  lemma TwoRows<V(!new), P(!new)>(g: Grid<V, P>, q: P, p: P, t: P, s: P)
    requires Enabled(g, Row(q, p)) && Enabled(g, Row(t, s))
    ensures Joined(WithoutRow(g, p), WithoutRow(g, s))
  {
    var a, b := WithoutRow(g, p), WithoutRow(g, s);
    if p == s {
      MeetAt(a, b, a);
    } else if q == s && t == p {
      SwapInvolution(p, s);
      assert Renamed<V, P>(a, b, Same(), Swap(p, s));
    } else {
      StillBelow(g, if t == p then q else t, s, p);
      StillBelow(g, if q == s then t else q, p, s);
      var e := WithoutRow(a, s);
      RowsCommute(g, p, s);
      assert Do(a, Row(if t == p then q else t, s)) == e && Do(b, Row(if q == s then t else q, p)) == e;
      MeetAt(a, b, e);
    }
  }

  /** Dropping another row leaves `s` listed and below `q`. */
  lemma StillBelow<V(!new), P(!new)>(g: Grid<V, P>, q: P, s: P, p: P)
    requires Enabled(g, Row(q, s)) && p != q && p != s
    ensures Enabled(WithoutRow(g, p), Row(q, s))
  {
    var v :| v in g && s in g[v];
    assert s in WithoutRow(g, p)[v];
  }

  lemma ColumnAndRow<V(!new), P(!new)>(g: Grid<V, P>, w: V, v: V, q: P, p: P)
    requires Enabled(g, Column(w, v)) && Enabled(g, Row(q, p))
    ensures Meet(g - {v}, WithoutRow(g, p)) && Meet(WithoutRow(g, p), g - {v})
  {
    var a, b := g - {v}, WithoutRow(g, p);
    var e := b - {v};
    assert Enabled(b, Column(w, v)) && Do(b, Column(w, v)) == e;
    assert e == WithoutRow(a, p);
    if p in Listed(a) {
      assert Enabled(a, Row(q, p)) && Do(a, Row(q, p)) == e;
    } else {
      Unlisted(a, p);
    }
    MeetAt(a, b, e);
  }

  lemma Unlisted<V(!new), P(!new)>(g: Grid<V, P>, p: P)
    requires p !in Listed(g)
    ensures WithoutRow(g, p) == g
  {
    forall v | v in g ensures g[v][p := 0] == g[v] {
      assert p !in g[v];
    }
  }

  lemma TakeAndColumn<V(!new), P(!new)>(g: Grid<V, P>, u: V, t: P, w: V, v: V)
    requires NoEmpty(g) && Enabled(g, Take(u, t)) && Enabled(g, Column(w, v))
    ensures Meet(Struck(g, t), g - {v}) && Meet(g - {v}, Struck(g, t))
  {
    var a, b := Struck(g, t), g - {v};
    if t in g[v] {
      assert Struck(b, t) == a;
      var z := if u == v then w else u;
      if u == v {
        OnlyTaken(g[w], t);
      }
      assert Enabled(b, Take(z, t)) && Do(b, Take(z, t)) == a;
      MeetAt(a, b, a);
    } else {
      var e := a - {v};
      assert t !in g[w] by {
        assert g[w][t] <= g[v][t];
      }
      assert Enabled(a, Column(w, v)) && Do(a, Column(w, v)) == e;
      assert u != v && Enabled(b, Take(u, t)) && Struck(b, t) == e && Do(b, Take(u, t)) == e;
      MeetAt(a, b, e);
    }
  }

  lemma OnlyTaken<P>(m: multiset<P>, t: P)
    requires m != multiset{} && m <= multiset{t}
    ensures m == multiset{t}
  {
    var x :| x in m;
    assert m[x] <= multiset{t}[x];
  }

  lemma TakeAndRow<V(!new), P(!new)>(g: Grid<V, P>, u: V, t: P, q: P, p: P)
    requires Enabled(g, Take(u, t)) && Enabled(g, Row(q, p))
    ensures Meet(Struck(g, t), WithoutRow(g, p)) && Meet(WithoutRow(g, p), Struck(g, t))
  {
    var a, b := Struck(g, t), WithoutRow(g, p);
    assert p != t by {
      assert g[u][p] <= g[u][q];
    }
    var e := Struck(b, t);
    assert e == WithoutRow(a, p);
    assert b[u] == multiset{t};
    assert Enabled(b, Take(u, t)) && Do(b, Take(u, t)) == e;
    if p in Listed(a) {
      assert Enabled(a, Row(q, p)) && Do(a, Row(q, p)) == e;
    } else {
      Unlisted(a, p);
    }
    MeetAt(a, b, e);
  }

  lemma TwoTakes<V(!new), P(!new)>(g: Grid<V, P>, u: V, t: P, w: V, s: P)
    requires Enabled(g, Take(u, t)) && Enabled(g, Take(w, s))
    ensures Meet(Struck(g, t), Struck(g, s)) && Meet(Struck(g, s), Struck(g, t))
  {
    var a, b := Struck(g, t), Struck(g, s);
    if s == t {
      MeetAt(a, b, a);
    } else {
      var e := Struck(a, s);
      assert e == Struck(b, t);
      assert Enabled(a, Take(w, s)) && Do(a, Take(w, s)) == e;
      assert Enabled(b, Take(u, t)) && Do(b, Take(u, t)) == e;
      MeetAt(a, b, e);
    }
  }

  lemma Diamond<V(!new), P(!new)>(g: Grid<V, P>, m: Move<V, P>, n: Move<V, P>)
    requires NoEmpty(g) && Enabled(g, m) && Enabled(g, n)
    ensures Joined(Do(g, m), Do(g, n))
  {
    match (m, n) {
      case (Column(w, v), Column(x, y)) => TwoColumns(g, w, v, x, y);
      case (Column(w, v), Row(q, p)) => ColumnAndRow(g, w, v, q, p);
      case (Column(w, v), Take(u, t)) => TakeAndColumn(g, u, t, w, v);
      case (Row(q, p), Column(w, v)) => ColumnAndRow(g, w, v, q, p);
      case (Row(q, p), Row(s, z)) => TwoRows(g, q, p, s, z);
      case (Row(q, p), Take(u, t)) => TakeAndRow(g, u, t, q, p);
      case (Take(u, t), Column(w, v)) => TakeAndColumn(g, u, t, w, v);
      case (Take(u, t), Row(q, p)) => TakeAndRow(g, u, t, q, p);
      case (Take(u, t), Take(w, s)) => TwoTakes(g, u, t, w, s);
    }
  }

  // ----- no move spoils the solution

  lemma SolvableBack<V(!new), P(!new)>(g: Grid<V, P>, m: Move<V, P>)
    requires Enabled(g, m) && Solvable(Do(g, m))
    ensures Solvable(g)
  {
    var moves :| Solves(Do(g, m), moves);
    SolvesFrom(g, m, moves);
  }

  lemma SolvableNear<V(!new), P(!new)>(g: Grid<V, P>, h: Grid<V, P>)
    requires Near(g, h) && Solvable(h)
    ensures Solvable(g)
  {
    if g != h {
      var m :| Enabled(g, m) && Do(g, m) == h;
      SolvableBack(g, m);
    }
  }

  lemma NotYetEmpty<V(!new), P(!new)>(g: Grid<V, P>, m: Move<V, P>)
    requires Enabled(g, m)
    ensures g != map[]
  {
    if m.Row? {
      var v :| v in g && m.p in g[v];
    }
  }

  lemma FirstMove<V(!new), P(!new)>(g: Grid<V, P>, m: Move<V, P>) returns (n: Move<V, P>)
    requires Enabled(g, m) && Solvable(g)
    ensures Enabled(g, n) && Solvable(Do(g, n))
  {
    NotYetEmpty(g, m);
    var moves :| Solves(g, moves);
    n := moves[0];
    assert Solves(Do(g, n), moves[1..]);
  }

  lemma RenamedKept<V(!new), P(!new)>(g: Grid<V, P>, h: Grid<V, P>, f: V -> V, r: P -> P)
    requires Renamed(g, h, f, r) && Solvable(g)
    ensures Solvable(h)
  {
    var moves :| Solves(g, moves);
    var renamed := RenamedSolvable(g, h, f, r, moves);
  }

  /** Whatever move is made, a solvable grid stays solvable. */
  lemma {:induction false} SolvableKept<V(!new), P(!new)>(g: Grid<V, P>, m: Move<V, P>)
    requires NoEmpty(g) && Solvable(g) && Enabled(g, m)
    ensures Solvable(Do(g, m))
    decreases Size(g)
  {
    var n := FirstMove(g, m);
    var a, b := Do(g, n), Do(g, m);
    MoveShrinks(g, n);
    Diamond(g, n, m);
    if Meet(a, b) {
      var e :| Near(a, e) && Near(b, e);
      if a != e {
        var x :| Enabled(a, x) && Do(a, x) == e;
        SolvableKept(a, x);
      }
      SolvableNear(b, e);
    } else {
      var f: V -> V, r: P -> P :| Renamed(a, b, f, r);
      RenamedKept(a, b, f, r);
    }
  }

  /** Solvable or not: no move changes it. */
  lemma MoveEquisolvable<V(!new), P(!new)>(g: Grid<V, P>, m: Move<V, P>)
    requires NoEmpty(g) && Enabled(g, m)
    ensures Solvable(g) <==> Solvable(Do(g, m))
  {
    if Solvable(g) {
      SolvableKept(g, m);
    }
    if Solvable(Do(g, m)) {
      SolvableBack(g, m);
    }
  }

  /** Where no move is left, there is no solution. */
  lemma NoMoveNoSolution<V(!new), P(!new)>(g: Grid<V, P>)
    requires g != map[] && forall m :: !Enabled(g, m)
    ensures !Solvable(g)
  {
    forall moves ensures !Solves(g, moves) {
      if moves != [] {
        assert !Enabled(g, moves[0]);
      }
    }
  }

  lemma EmptySolvable<V(!new), P(!new)>(g: Grid<V, P>)
    requires g == map[]
    ensures Solvable(g)
  {
    assert Solves(g, []);
  }

  // ----- many moves at once

  ghost function Kept<V, P>(g: Grid<V, P>, kept: set<V>): Grid<V, P> {
    map v | v in g && v in kept :: g[v]
  }

  ghost predicate IncludesKept<V(!new), P>(g: Grid<V, P>, kept: set<V>, v: V)
    requires v in g
  {
    exists w :: w in g && w in kept && g[w] <= g[v]
  }

  /** Drop any columns that include a kept one. */
  lemma {:induction false} ColumnsGone<V(!new), P(!new)>(g: Grid<V, P>, kept: set<V>)
    requires NoEmpty(g) && forall v :: v in g && v !in kept ==> IncludesKept(g, kept, v)
    ensures Solvable(g) <==> Solvable(Kept(g, kept))
    decreases g.Keys - kept
  {
    var gone := g.Keys - kept;
    if gone == {} {
      forall v | v in g ensures v in kept {
        assert v in kept || v in gone;
      }
      assert Kept(g, kept) == g;
    } else {
      var v :| v in gone;
      assert IncludesKept(g, kept, v);
      var w :| w in g && w in kept && g[w] <= g[v];
      var m: Move<V, P> := Column(w, v);
      MoveEquisolvable(g, m);
      var g' := g - {v};
      assert g'.Keys - kept == gone - {v};
      forall x | x in g' && x !in kept ensures IncludesKept(g', kept, x) {
        assert IncludesKept(g, kept, x);
        var y :| y in g && y in kept && g[y] <= g[x];
        assert y in g';
      }
      ColumnsGone(g', kept);
      assert Kept(g', kept) == Kept(g, kept);
    }
  }

  /** `h` is `g` with the rows `kept` only. */
  ghost predicate OnlyRows<V(!new), P(!new)>(g: Grid<V, P>, h: Grid<V, P>, kept: set<P>) {
    h.Keys == g.Keys && forall v, p :: v in g ==> h[v][p] == if p in kept then g[v][p] else 0
  }

  lemma AllRowsKept<V(!new), P(!new)>(g: Grid<V, P>, h: Grid<V, P>, kept: set<P>)
    requires OnlyRows(g, h, kept) && Listed(g) - kept == {}
    ensures h == g
  {
    forall v | v in g ensures h[v] == g[v] {
      forall p ensures h[v][p] == g[v][p] {
        assert h[v][p] == if p in kept then g[v][p] else 0;
        if p in g[v] {
          assert p in Listed(g);
          assert p in Listed(g) - kept || p in kept;
        }
      }
    }
  }

  ghost predicate BelowKept<V(!new), P(!new)>(g: Grid<V, P>, kept: set<P>, p: P) {
    exists q :: q in kept && Below(g, p, q)
  }

  lemma OneRowGone<V(!new), P(!new)>(g: Grid<V, P>, h: Grid<V, P>, kept: set<P>, q: P, p: P)
    requires OnlyRows(g, h, kept) && forall s :: s in Listed(g) && s !in kept ==> BelowKept(g, kept, s)
    requires p in Listed(g) && p !in kept && q in kept
    ensures OnlyRows(WithoutRow(g, p), h, kept) && Listed(WithoutRow(g, p)) - kept < Listed(g) - kept
    ensures forall s :: s in Listed(WithoutRow(g, p)) && s !in kept ==> BelowKept(WithoutRow(g, p), kept, s)
  {
    var g' := WithoutRow(g, p);
    forall s | s in Listed(g') ensures s in Listed(g) && s != p {
      var v :| v in g' && s in g'[v];
      assert s in g[v];
    }
    forall s | s in Listed(g') && s !in kept ensures BelowKept(g', kept, s) {
      assert BelowKept(g, kept, s);
      var t :| t in kept && Below(g, s, t);
      assert Below(g', s, t);
    }
    assert p in Listed(g) - kept;
  }

  /** Drop any rows that are below a kept one. */
  lemma {:induction false} RowsGone<V(!new), P(!new)>(g: Grid<V, P>, h: Grid<V, P>, kept: set<P>)
    requires NoEmpty(g) && OnlyRows(g, h, kept)
    requires forall p :: p in Listed(g) && p !in kept ==> BelowKept(g, kept, p)
    ensures Solvable(g) <==> Solvable(h)
    decreases Listed(g) - kept
  {
    var gone := Listed(g) - kept;
    if gone == {} {
      AllRowsKept(g, h, kept);
    } else {
      var p :| p in gone;
      assert BelowKept(g, kept, p);
      var q :| q in kept && Below(g, p, q);
      var m: Move<V, P> := Row(q, p);
      MoveEquisolvable(g, m);
      MoveShrinks(g, m);
      OneRowGone(g, h, kept, q, p);
      RowsGone(WithoutRow(g, p), h, kept);
    }
  }

  ghost function StruckAll<V(!new), P(!new)>(g: Grid<V, P>, ts: set<P>): Grid<V, P> {
    map v | v in g && g[v] * multiset(ts) == multiset{} :: g[v]
  }

  ghost predicate Alone<V(!new), P(!new)>(g: Grid<V, P>, t: P) {
    exists u :: u in g && g[u] == multiset{t}
  }

  lemma StruckMore<V(!new), P(!new)>(g: Grid<V, P>, t: P, ts: set<P>)
    requires t in ts
    ensures StruckAll(Struck(g, t), ts - {t}) == StruckAll(g, ts)
  {
    forall v | v in g
      ensures g[v] * multiset(ts) == multiset{} <==> t !in g[v] && g[v] * multiset(ts - {t}) == multiset{}
    {
      Disjoint(g[v], ts);
      Disjoint(g[v], ts - {t});
    }
  }

  lemma Disjoint<P(!new)>(m: multiset<P>, ts: set<P>)
    ensures m * multiset(ts) == multiset{} <==> forall t :: t in ts ==> t !in m
  {
    if m * multiset(ts) == multiset{} {
      forall t | t in ts ensures t !in m {
        assert t !in m * multiset(ts);
      }
    }
  }

  /** Take any rows that are alone in a column. */
  lemma {:induction false} RowsTaken<V(!new), P(!new)>(g: Grid<V, P>, ts: set<P>)
    requires NoEmpty(g) && forall t :: t in ts ==> Alone(g, t)
    ensures Solvable(g) <==> Solvable(StruckAll(g, ts))
    decreases ts
  {
    if ts == {} {
      assert StruckAll(g, ts) == g;
    } else {
      var t :| t in ts;
      var u :| u in g && g[u] == multiset{t};
      var m: Move<V, P> := Take(u, t);
      MoveEquisolvable(g, m);
      forall s | s in ts - {t} ensures Alone(Struck(g, t), s) {
        var w :| w in g && g[w] == multiset{s};
        assert w in Struck(g, t);
      }
      RowsTaken(Struck(g, t), ts - {t});
      StruckMore(g, t, ts);
    }
  }

  // ----- a row listed twice

  /** Column `v` lists `p` alone, but twice or more, and `p` is listed nowhere else. */
  ghost predicate Doubled<V(!new), P(!new)>(g: Grid<V, P>, v: V, p: P) {
    && v in g && g[v][p] >= 2
    && (forall t :: t in g[v] ==> t == p)
    && (forall w :: w in g && p in g[w] ==> w == v)
  }

  lemma DoubledStays<V(!new), P(!new)>(g: Grid<V, P>, m: Move<V, P>, v: V, p: P)
    requires NoEmpty(g) && Doubled(g, v, p) && Enabled(g, m)
    ensures Doubled(Do(g, m), v, p)
  {
    match m {
      case Column(w, x) =>
        var t :| t in g[w];
        assert g[w][t] <= g[x][t];
      case Row(q, s) =>
        assert g[v][s] <= g[v][q];
        var h := WithoutRow(g, s);
        forall w, t | w in h && t in h[w] ensures t in g[w] {
        }
      case Take(u, t) =>
        assert multiset{t}[p] <= 1;
    }
  }

  /** Such a grid cannot be solved by moves. */
  lemma {:induction false} DoubledUnsolvable<V(!new), P(!new)>(g: Grid<V, P>, v: V, p: P, moves: seq<Move<V, P>>)
    requires NoEmpty(g) && Doubled(g, v, p)
    ensures !Solves(g, moves)
    decreases |moves|
  {
    if moves == [] {
    } else if Enabled(g, moves[0]) {
      DoubledStays(g, moves[0], v, p);
      MoveShrinks(g, moves[0]);
      DoubledUnsolvable(Do(g, moves[0]), v, p, moves[1..]);
    }
  }
}

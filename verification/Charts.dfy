/** Covers of a prime chart, and what its reductions do to them. */
module Charts {
  import opened MinTerms
  import opened ImplicantTables

  /** For every value still to be covered, the alive primes that cover it. */
  type Chart = map<Value, seq<MinTerm>>

  /** No column is empty, and a column lists exactly the alive primes covering its value. */
  ghost predicate WellFormed(c: Chart, n: nat) {
    && (forall v :: v in c ==> c[v] != [])
    && (forall p :: p in Rows(c) ==> p.Valid(n))
    && (forall v, p :: v in c ==> (p in c[v] <==> p in Rows(c) && Covers(p, v)))
  }

  /** The primes that are still alive. */
  ghost function Rows(c: Chart): set<MinTerm> {
    set v, p | v in c && p in c[v] :: p
  }

  lemma SubchartWellFormed(c: Chart, c': Chart, n: nat)
    requires WellFormed(c, n)
    requires forall v :: v in c' ==> v in c && c'[v] == c[v]
    ensures WellFormed(c', n) && Rows(c') <= Rows(c)
  {
    forall p | p in Rows(c') ensures p in Rows(c) {
      var v :| v in c' && p in c'[v];
      assert p in c[v];
    }
    forall v, p | v in c' ensures p in c'[v] <==> p in Rows(c') && Covers(p, v) {
      assert p in c[v] <==> p in Rows(c) && Covers(p, v);
    }
  }

  ghost function Size(c: Chart): nat {
    |c| + |Rows(c)|
  }

  ghost predicate Hits(x: set<MinTerm>, ps: seq<MinTerm>) {
    exists p :: p in x && p in ps
  }

  ghost predicate IsCover(x: set<MinTerm>, c: Chart) {
    forall v :: v in c ==> Hits(x, c[v])
  }

  /** Any cover of `c'`, together with `extra`, covers `c`. */
  ghost predicate Keeps(c: Chart, c': Chart, extra: set<MinTerm>) {
    forall x :: IsCover(x, c') ==> IsCover(x + extra, c)
  }

  /** From any cover of `c`, a cover of `c'` with at least `k` fewer terms can be made. */
  ghost predicate NoWorse(c: Chart, c': Chart, k: nat) {
    forall x :: IsCover(x, c) ==> CoverWithin(c', |x| - k)
  }

  ghost predicate CoverWithin(c: Chart, size: int) {
    exists y :: IsCover(y, c) && |y| <= size
  }

  lemma KeepsCompose(c0: Chart, c1: Chart, c2: Chart, e1: set<MinTerm>, e2: set<MinTerm>)
    requires Keeps(c0, c1, e1) && Keeps(c1, c2, e2)
    ensures Keeps(c0, c2, e1 + e2)
  {
    forall x | IsCover(x, c2) ensures IsCover(x + (e1 + e2), c0) {
      assert IsCover(x + e2 + e1, c0);
      assert x + e2 + e1 == x + (e1 + e2);
    }
  }

  lemma NoWorseAt(c: Chart, c': Chart, k: nat, x: set<MinTerm>) returns (y: set<MinTerm>)
    requires NoWorse(c, c', k) && IsCover(x, c)
    ensures IsCover(y, c') && |y| <= |x| - k
  {
    assert CoverWithin(c', |x| - k);
    y :| IsCover(y, c') && |y| <= |x| - k;
  }

  lemma NoWorseCompose(c0: Chart, c1: Chart, c2: Chart, k1: nat, k2: nat)
    requires NoWorse(c0, c1, k1) && NoWorse(c1, c2, k2)
    ensures NoWorse(c0, c2, k1 + k2)
  {
    forall x | IsCover(x, c0) ensures CoverWithin(c2, |x| - (k1 + k2)) {
      var y := NoWorseAt(c0, c1, k1, x);
      var z := NoWorseAt(c1, c2, k2, y);
    }
  }

  // ----- taking primes and striking out what they cover

  ghost predicate StruckBy(c: Chart, c': Chart, ts: set<MinTerm>) {
    && (forall v :: v in c' <==> v in c && forall t :: t in ts ==> !Covers(t, v))
    && (forall v :: v in c' ==> c'[v] == c[v])
  }

  lemma StruckCover(c: Chart, c': Chart, ts: set<MinTerm>, n: nat, x: set<MinTerm>)
    requires WellFormed(c, n) && StruckBy(c, c', ts) && ts <= Rows(c)
    requires IsCover(x, c')
    ensures IsCover(x + ts, c)
  {
    forall v | v in c ensures Hits(x + ts, c[v]) {
      if v in c' {
        assert Hits(x, c'[v]);
        var p :| p in x && p in c[v];
        assert p in x + ts;
      } else {
        var t :| t in ts && Covers(t, v);
        assert t in Rows(c);
        assert t in x + ts;
      }
    }
  }

  lemma StruckKeeps(c: Chart, c': Chart, ts: set<MinTerm>, n: nat)
    requires WellFormed(c, n) && StruckBy(c, c', ts) && ts <= Rows(c)
    ensures WellFormed(c', n) && Keeps(c, c', ts)
  {
    SubchartWellFormed(c, c', n);
    forall x | IsCover(x, c') ensures IsCover(x + ts, c) {
      StruckCover(c, c', ts, n, x);
    }
  }

  ghost predicate Essential(c: Chart, t: MinTerm) {
    exists v :: v in c && c[v] == [t]
  }

  lemma EssentialCover(c: Chart, c': Chart, ts: set<MinTerm>, n: nat, x: set<MinTerm>)
    requires WellFormed(c, n) && StruckBy(c, c', ts) && IsCover(x, c)
    requires forall t :: t in ts ==> Essential(c, t)
    ensures ts <= x && IsCover(x - ts, c')
  {
    forall t | t in ts ensures t in x {
      var v :| v in c && c[v] == [t];
      assert Hits(x, c[v]);
    }
    forall v | v in c' ensures Hits(x - ts, c'[v]) {
      assert Hits(x, c[v]);
      var p :| p in x && p in c[v];
      assert p in x - ts;
    }
  }

  lemma EssentialsNoWorse(c: Chart, c': Chart, ts: set<MinTerm>, n: nat)
    requires WellFormed(c, n) && StruckBy(c, c', ts)
    requires forall t :: t in ts ==> Essential(c, t)
    ensures NoWorse(c, c', |ts|)
  {
    forall x | IsCover(x, c) ensures CoverWithin(c', |x| - |ts|) {
      EssentialCover(c, c', ts, n, x);
      assert |x - ts| == |x| - |ts|;
    }
  }

  // ----- column dominance

  ghost predicate Included(ps: seq<MinTerm>, qs: seq<MinTerm>) {
    forall p :: p in ps ==> p in qs
  }

  /** Some kept column has a list included in that of `v`. */
  ghost predicate StillImplied(c: Chart, c': Chart, v: Value)
    requires v in c
  {
    exists w :: w in c' && Included(c'[w], c[v])
  }

  ghost predicate ColumnsDropped(c: Chart, c': Chart) {
    && (forall v :: v in c' ==> v in c && c'[v] == c[v])
    && (forall v {:trigger StillImplied(c, c', v)} :: v in c ==> StillImplied(c, c', v))
  }

  lemma DroppedColumnsCover(c: Chart, c': Chart, x: set<MinTerm>)
    requires ColumnsDropped(c, c')
    ensures IsCover(x, c) <==> IsCover(x, c')
  {
    if IsCover(x, c') {
      forall v | v in c ensures Hits(x, c[v]) {
        assert StillImplied(c, c', v);
        var w :| w in c' && Included(c'[w], c[v]);
        assert Hits(x, c'[w]);
      }
    }
    if IsCover(x, c) {
      forall v | v in c' ensures Hits(x, c'[v]) {
        assert Hits(x, c[v]);
      }
    }
  }

  lemma DroppedColumnsKeep(c: Chart, c': Chart, n: nat)
    requires WellFormed(c, n) && ColumnsDropped(c, c')
    ensures WellFormed(c', n) && Keeps(c, c', {}) && NoWorse(c, c', 0)
  {
    SubchartWellFormed(c, c', n);
    forall x | IsCover(x, c') ensures IsCover(x + {}, c) {
      assert x + {} == x;
      DroppedColumnsCover(c, c', x);
    }
    forall x | IsCover(x, c) ensures CoverWithin(c', |x| - 0) {
      DroppedColumnsCover(c, c', x);
    }
  }

  // ----- row dominance

  /** Wherever `p` was listed, `q` still is. */
  ghost predicate StandsInFor(c: Chart, c': Chart, p: MinTerm, q: MinTerm)
    requires c'.Keys == c.Keys
  {
    forall v :: v in c && p in c[v] ==> q in c'[v]
  }

  /** `dom` sends every alive prime to a kept one that covers at least the same columns. */
  ghost predicate RowsDropped(c: Chart, c': Chart, dom: map<MinTerm, MinTerm>) {
    && c'.Keys == c.Keys
    && dom.Keys == Rows(c)
    && (forall p :: p in dom.Keys ==> StandsInFor(c, c', p, dom[p]))
    && (forall v, p :: v in c' && p in c'[v] ==> p in c[v])
  }

  ghost function Image(x: set<MinTerm>, f: map<MinTerm, MinTerm>): set<MinTerm>
    requires x <= f.Keys
  {
    set p | p in x :: f[p]
  }

  lemma {:induction false} ImageCard(x: set<MinTerm>, f: map<MinTerm, MinTerm>)
    requires x <= f.Keys
    ensures |Image(x, f)| <= |x|
  {
    if x == {} {
    } else {
      var q :| q in x;
      ImageCard(x - {q}, f);
      assert Image(x, f) == Image(x - {q}, f) + {f[q]};
    }
  }

  lemma StandInHits(c: Chart, c': Chart, dom: map<MinTerm, MinTerm>, x: set<MinTerm>, v: Value)
    requires RowsDropped(c, c', dom) && v in c && Hits(x, c[v])
    ensures Hits(Image(x * dom.Keys, dom), c'[v])
  {
    var p :| p in x && p in c[v];
    assert p in Rows(c);
    assert StandsInFor(c, c', p, dom[p]) && dom[p] in Image(x * dom.Keys, dom);
  }

  lemma DroppedRowsCover(c: Chart, c': Chart, dom: map<MinTerm, MinTerm>, x: set<MinTerm>) returns (y: set<MinTerm>)
    requires RowsDropped(c, c', dom) && IsCover(x, c)
    ensures IsCover(y, c') && |y| <= |x|
  {
    var alive := x * dom.Keys;
    y := Image(alive, dom);
    ImageCard(alive, dom);
    SubsetCard(alive, x);
    forall v | v in c' ensures Hits(y, c'[v]) {
      assert Hits(x, c[v]);
      StandInHits(c, c', dom, x, v);
    }
  }

  lemma DroppedRowsKeep(c: Chart, c': Chart, dom: map<MinTerm, MinTerm>)
    requires RowsDropped(c, c', dom)
    ensures Keeps(c, c', {}) && NoWorse(c, c', 0)
  {
    forall x | IsCover(x, c') ensures IsCover(x + {}, c) {
      assert x + {} == x;
      forall v | v in c ensures Hits(x, c[v]) {
        assert Hits(x, c'[v]);
        var p :| p in x && p in c'[v];
      }
    }
    forall x | IsCover(x, c) ensures CoverWithin(c', |x| - 0) {
      var y := DroppedRowsCover(c, c', dom, x);
    }
  }
}

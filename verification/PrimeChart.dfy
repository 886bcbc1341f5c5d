/** What the two halves of `simplify` share (external/minbool/minbool.h, PrimeChart::simplify):
    a pass that eliminates keys by inclusion between their lists, and a transposition. Hash-map
    iteration is an arbitrary choice among the keys not yet visited. */
module Elimination {
  import opened MinTerms

  /** `std::includes` on two lists sorted by the same order. */
  predicate Includes<E(==)>(big: seq<E>, small: seq<E>) {
    multiset(small) <= multiset(big)
  }

  lemma IncludesElements<E>(big: seq<E>, small: seq<E>)
    requires Includes(big, small)
    ensures forall x :: x in small ==> x in big
  {
    forall x | x in small ensures x in big {
      assert x in multiset(small);
      assert x in multiset(big);
    }
  }

  ghost predicate Transitive<K(!new)>(beats: (K, K) -> bool) {
    forall a, b, c :: beats(a, b) && beats(b, c) ==> beats(a, c)
  }

  ghost predicate Beaten<K(!new)>(kept: set<K>, beats: (K, K) -> bool, k: K) {
    exists j :: j in kept && beats(j, k)
  }

  /** Whatever is gone is beaten by something kept. */
  ghost predicate Eliminated<K(!new)>(keys: set<K>, kept: set<K>, beats: (K, K) -> bool) {
    kept <= keys && forall k :: k in keys && k !in kept ==> Beaten(kept, beats, k)
  }

  /** Nothing beats anything else. */
  ghost predicate Irreducible<K(!new)>(keys: set<K>, beats: (K, K) -> bool) {
    forall a, b :: a in keys && b in keys && a != b ==> !beats(a, b)
  }

  /** What the double loop can make of `kept`, with the keys `outer` still to come. */
  ghost predicate CanLeave<K(!new)>(outer: set<K>, kept: set<K>, beats: (K, K) -> bool, result: set<K>)
    decreases |outer|, 1
  {
    if outer == {} then result == kept else exists v :: v in outer && CanLeaveAt(outer, kept, beats, result, v)
  }

  /** The same with `v` the next key: if it beats any other key, one of those goes. */
  ghost predicate CanLeaveAt<K(!new)>(outer: set<K>, kept: set<K>, beats: (K, K) -> bool, result: set<K>, v: K)
    requires v in outer
    decreases |outer|, 0
  {
    if Wins(kept, beats, v) then
      exists w :: w in kept && w != v && beats(v, w) && CanLeave(outer - {v} - {w}, kept - {w}, beats, result)
    else CanLeave(outer - {v}, kept, beats, result)
  }

  ghost predicate Wins<K(!new)>(kept: set<K>, beats: (K, K) -> bool, v: K) {
    exists w :: w in kept && w != v && beats(v, w)
  }

  lemma EliminateStep<K(!new)>(keys: set<K>, kept: set<K>, beats: (K, K) -> bool, v: K, w: K)
    requires Transitive(beats) && v in keys && w in keys && v != w && beats(v, w)
    requires Eliminated(keys - {w}, kept, beats)
    ensures Eliminated(keys, kept, beats)
  {
    assert v in kept || Beaten(kept, beats, v);
    assert Beaten(kept, beats, w);
  }

  /** However the loop went, whatever is gone is beaten by something kept. */
  lemma {:induction false} CanLeaveEliminates<K(!new)>(outer: set<K>, kept: set<K>, beats: (K, K) -> bool,
                                                       result: set<K>)
    requires Transitive(beats) && outer <= kept && CanLeave(outer, kept, beats, result)
    ensures Eliminated(kept, result, beats)
    decreases |outer|
  {
    if outer == {} {
    } else {
      var v :| v in outer && CanLeaveAt(outer, kept, beats, result, v);
      if Wins(kept, beats, v) {
        var w :| w in kept && w != v && beats(v, w) && CanLeave(outer - {v} - {w}, kept - {w}, beats, result);
        CanLeaveEliminates(outer - {v} - {w}, kept - {w}, beats, result);
        EliminateStep(kept, result, beats, v, w);
      } else {
        CanLeaveEliminates(outer - {v}, kept, beats, result);
      }
    }
  }

  ghost predicate Agree<K(!new)>(keys: set<K>, beats: (K, K) -> bool, beats': (K, K) -> bool) {
    forall a, b :: a in keys && b in keys ==> (beats(a, b) <==> beats'(a, b))
  }

  /** Only what the rule says about the keys matters. */
  lemma {:induction false} CanLeaveAgree<K(!new)>(outer: set<K>, kept: set<K>, beats: (K, K) -> bool,
                                                  beats': (K, K) -> bool, result: set<K>)
    requires Agree(kept, beats, beats') && outer <= kept && CanLeave(outer, kept, beats, result)
    ensures CanLeave(outer, kept, beats', result)
    decreases |outer|
  {
    if outer == {} {
    } else {
      var v :| v in outer && CanLeaveAt(outer, kept, beats, result, v);
      if Wins(kept, beats, v) {
        var w :| w in kept && w != v && beats(v, w) && CanLeave(outer - {v} - {w}, kept - {w}, beats, result);
        CanLeaveAgree(outer - {v} - {w}, kept - {w}, beats, beats', result);
        assert beats'(v, w);
      } else {
        assert !Wins(kept, beats', v);
        CanLeaveAgree(outer - {v}, kept, beats, beats', result);
      }
      assert CanLeaveAt(outer, kept, beats', result, v);
    }
  }

  /** The inner loop: the first key met that `v` eliminates. */
  method FindBeaten<K(!new, ==)>(kept: set<K>, beats: (K, K) -> bool, v: K) returns (found: bool, w: K)
    ensures found ==> w in kept && w != v && beats(v, w)
    ensures !found ==> forall u :: u in kept && u != v ==> !beats(v, u)
  {
    found, w := false, v;
    var inner := kept;
    while inner != {}
      invariant inner <= kept
      invariant forall u :: u in kept && u !in inner && u != v ==> !beats(v, u)
      decreases inner
    {
      w :| w in inner;
      inner := inner - {w};
      if w == v {
        continue;
      }
      if beats(v, w) {
        return true, w;
      }
    }
  }

  /** What is still possible after a turn was possible before it. */
  lemma LeaveStep<K(!new)>(outer: set<K>, kept: set<K>, beats: (K, K) -> bool, v: K, w: K, result: set<K>)
    requires v in outer
    requires if Wins(kept, beats, v)
             then w in kept && w != v && beats(v, w) && CanLeave(outer - {v} - {w}, kept - {w}, beats, result)
             else CanLeave(outer - {v}, kept, beats, result)
    ensures CanLeave(outer, kept, beats, result)
  {
    assert CanLeaveAt(outer, kept, beats, result, v);
  }

  /** Every outcome that is still possible was so at the start. */
  ghost predicate Narrowed<K(!new)>(keys: set<K>, outer: set<K>, kept: set<K>, beats: (K, K) -> bool) {
    forall result :: CanLeave(outer, kept, beats, result) ==> CanLeave(keys, keys, beats, result)
  }

  /** One double loop of `simplify`: each surviving key eliminates at most one other key. */
  method Eliminate<K(!new, ==)>(keys: set<K>, beats: (K, K) -> bool) returns (kept: set<K>, change: bool)
    ensures CanLeave(keys, keys, beats, kept)
    ensures change ==> |kept| < |keys|
    ensures !change ==> kept == keys
    ensures change <==> !Irreducible(keys, beats)
  {
    kept, change := keys, false;
    var outer := keys;
    while outer != {}
      invariant Narrowed(keys, outer, kept, beats)
      invariant outer <= kept <= keys
      invariant change ==> |kept| < |keys|
      invariant !change ==> kept == keys
      invariant change ==> !Irreducible(keys, beats)
      invariant !change ==> forall a, b :: a in keys && a !in outer && b in keys && a != b ==> !beats(a, b)
      decreases outer
    {
      var v :| v in outer;
      var found, w := FindBeaten(kept, beats, v);
      assert found <==> Wins(kept, beats, v);
      ghost var outer0, kept0 := outer, kept;
      outer := outer - {v};
      if found {
        kept := kept - {w};
        outer := outer - {w};
        change := true;
      }
      forall result | CanLeave(outer, kept, beats, result) ensures CanLeave(keys, keys, beats, result) {
        LeaveStep(outer0, kept0, beats, v, w, result);
      }
    }
    assert CanLeave(outer, kept, beats, kept);
  }

  // ----- transposition

  /** `e` is listed under some key. */
  ghost predicate Listed<K(!new), E>(m: map<K, seq<E>>, e: E) {
    exists k :: k in m && e in m[k]
  }

  /** `t` lists `k` under `e` as often as `m` lists `e` under `k`. */
  ghost predicate Swapped<K(!new), E(!new)>(m: map<K, seq<E>>, t: map<E, seq<K>>) {
    forall e, k :: e in t ==> Count(t[e], k) == if k in m then Count(m[k], e) else 0
  }

  lemma SwappedLists<K(!new), E(!new)>(m: map<K, seq<E>>, t: map<E, seq<K>>, e: E, k: K)
    requires Swapped(m, t) && e in t
    ensures k in t[e] <==> k in m && e in m[k]
  {
    assert k in t[e] <==> Count(t[e], k) > 0;
  }

  lemma IncludesCounts<E(!new)>(big: seq<E>, small: seq<E>)
    ensures Includes(big, small) <==> forall x :: Count(small, x) <= Count(big, x)
  {
    if forall x :: Count(small, x) <= Count(big, x) {
      forall x ensures multiset(small)[x] <= multiset(big)[x] {
        assert Count(small, x) <= Count(big, x);
      }
    }
  }

  /** `p` is listed at least as often as `q` under every key. */
  ghost predicate ListedMore<K(!new), E(!new)>(m: map<K, seq<E>>, p: E, q: E) {
    forall k :: k in m ==> Count(m[k], q) <= Count(m[k], p)
  }

  lemma SwappedIncludes<K(!new), E(!new)>(m: map<K, seq<E>>, t: map<E, seq<K>>, p: E, q: E)
    requires Swapped(m, t) && p in t && q in t
    ensures Includes(t[p], t[q]) <==> ListedMore(m, p, q)
  {
    IncludesCounts(t[p], t[q]);
    if Includes(t[p], t[q]) {
      forall k | k in m ensures Count(m[k], q) <= Count(m[k], p) {
        assert Count(t[q], k) <= Count(t[p], k);
      }
    }
    if ListedMore(m, p, q) {
      forall k ensures Count(t[q], k) <= Count(t[p], k) {
        assert k in m ==> Count(m[k], q) <= Count(m[k], p);
      }
    }
  }

  ghost predicate Transposed<K(!new), E(!new)>(m: map<K, seq<E>>, start: set<E>, t: map<E, seq<K>>) {
    && (forall e :: e in t <==> e in start || Listed(m, e))
    && Swapped(m, t)
  }

  ghost predicate TransposedSoFar<K(!new), E(!new)>(m: map<K, seq<E>>, done: set<K>, t: map<E, seq<K>>, start: set<E>) {
    && (forall e, k :: e in t ==> Count(t[e], k) == if k in done && k in m then Count(m[k], e) else 0)
    && (forall k, e :: k in done && k in m && e in m[k] ==> e in t)
    && (forall e :: e in t ==> e in start || t[e] != [])
    && start <= t.Keys
  }

  function Push<K, E>(t: map<E, seq<K>>, e: E, k: K): map<E, seq<K>> {
    t[e := (if e in t then t[e] else []) + [k]]
  }

  lemma TransposedAll<K(!new), E(!new)>(m: map<K, seq<E>>, t: map<E, seq<K>>, start: set<E>)
    requires TransposedSoFar(m, m.Keys, t, start)
    ensures Transposed(m, start, t)
  {
    forall e | e in t && e !in start ensures Listed(m, e) {
      var k := t[e][0];
      assert Count(t[e], k) > 0;
      assert k in m && Count(m[k], e) > 0;
    }
  }

  /** Read every list of `m` the other way round, onto the emptied lists `start`. */
  method Transpose<K(!new, ==), E(!new, ==)>(m: map<K, seq<E>>, start: set<E>) returns (t: map<E, seq<K>>)
    ensures Transposed(m, start, t)
  {
    t := map e | e in start :: [];
    var todo := m.Keys;
    while todo != {}
      invariant todo <= m.Keys
      invariant TransposedSoFar(m, m.Keys - todo, t, start)
      decreases todo
    {
      var k :| k in todo;
      t := TransposeOne(m, m.Keys - todo, k, t, start);
      todo := todo - {k};
      assert m.Keys - todo == (m.Keys - (todo + {k})) + {k};
    }
    assert m.Keys - todo == m.Keys;
    TransposedAll(m, t, start);
  }

  /** As far as `done` and the first `i` entries under `k`. */
  ghost predicate TransposedPart<K(!new), E(!new)>(m: map<K, seq<E>>, done: set<K>, k: K, i: nat, t: map<E, seq<K>>,
                                                   start: set<E>)
    requires k in m && i <= |m[k]|
  {
    && (forall e, j :: e in t && j != k ==> Count(t[e], j) == if j in done && j in m then Count(m[j], e) else 0)
    && (forall e :: e in t ==> Count(t[e], k) == Count(m[k][..i], e))
    && (forall j, e :: j in done && j in m && e in m[j] ==> e in t)
    && (forall e :: e in m[k][..i] ==> e in t)
    && (forall e :: e in t ==> e in start || t[e] != [])
    && start <= t.Keys
  }

  lemma CountPush<T>(s: seq<T>, x: T, y: T)
    ensures Count(s + [x], y) == Count(s, y) + if x == y then 1 else 0
  {
  }

  lemma PushOther<K(!new), E(!new)>(m: map<K, seq<E>>, done: set<K>, k: K, i: nat, t: map<E, seq<K>>, start: set<E>,
                                    e: E, j: K)
    requires k in m && i < |m[k]| && TransposedPart(m, done, k, i, t, start)
    requires e in Push(t, m[k][i], k) && j != k
    ensures Count(Push(t, m[k][i], k)[e], j) == if j in done && j in m then Count(m[j], e) else 0
  {
    CountPush(if e in t then t[e] else [], k, j);
    if e !in t && j in done && j in m {
      assert e !in m[j];
    }
  }

  lemma PushOwn<K(!new), E(!new)>(m: map<K, seq<E>>, done: set<K>, k: K, i: nat, t: map<E, seq<K>>, start: set<E>, e: E)
    requires k in m && i < |m[k]| && TransposedPart(m, done, k, i, t, start)
    requires e in Push(t, m[k][i], k)
    ensures Count(Push(t, m[k][i], k)[e], k) == Count(m[k][..i] + [m[k][i]], e)
  {
    CountPush(if e in t then t[e] else [], k, k);
    CountPush(m[k][..i], m[k][i], e);
  }

  lemma TransposedPush<K(!new), E(!new)>(m: map<K, seq<E>>, done: set<K>, k: K, i: nat, t: map<E, seq<K>>,
                                         start: set<E>)
    requires k in m && k !in done && i < |m[k]| && TransposedPart(m, done, k, i, t, start)
    ensures TransposedPart(m, done, k, i + 1, Push(t, m[k][i], k), start)
  {
    var t' := Push(t, m[k][i], k);
    assert m[k][..i + 1] == m[k][..i] + [m[k][i]];
    forall e, j | e in t' && j != k ensures Count(t'[e], j) == if j in done && j in m then Count(m[j], e) else 0 {
      PushOther(m, done, k, i, t, start, e, j);
    }
    forall e | e in t' ensures Count(t'[e], k) == Count(m[k][..i + 1], e) {
      PushOwn(m, done, k, i, t, start, e);
    }
  }

  method TransposeOne<K(!new, ==), E(!new, ==)>(m: map<K, seq<E>>, ghost done: set<K>, k: K, t0: map<E, seq<K>>,
                                                ghost start: set<E>)
    returns (t: map<E, seq<K>>)
    requires k in m && k !in done && TransposedSoFar(m, done, t0, start)
    ensures TransposedSoFar(m, done + {k}, t, start)
  {
    t := t0;
    for i := 0 to |m[k]|
      invariant TransposedPart(m, done, k, i, t, start)
    {
      TransposedPush(m, done, k, i, t, start);
      t := Push(t, m[k][i], k);
    }
    assert m[k][..|m[k]|] == m[k];
  }

  // ----- counting

  /** How often `e` is listed, over all keys. */
  ghost function Occurrences<K, E>(m: map<K, seq<E>>, e: E): nat
    decreases |m|
  {
    if m == map[] then 0
    else
      var k :| k in m;
      assert (m - {k}).Keys == m.Keys - {k};
      multiset(m[k])[e] + Occurrences(m - {k}, e)
  }

  lemma {:induction false} OccurrencesSplit<K, E>(m: map<K, seq<E>>, k: K, e: E)
    requires k in m
    ensures Occurrences(m, e) == multiset(m[k])[e] + Occurrences(m - {k}, e)
    decreases |m|
  {
    var j :| j in m && Occurrences(m, e) == multiset(m[j])[e] + Occurrences(m - {j}, e);
    if j != k {
      assert (m - {j}).Keys == m.Keys - {j} && (m - {k}).Keys == m.Keys - {k};
      OccurrencesSplit(m - {j}, k, e);
      OccurrencesSplit(m - {k}, j, e);
      assert m - {j} - {k} == m - {k} - {j};
    }
  }

  lemma {:induction false} OccurrencesListed<K(!new), E>(m: map<K, seq<E>>, e: E)
    ensures Listed(m, e) <==> Occurrences(m, e) > 0
    decreases |m|
  {
    if m == map[] {
    } else {
      var k :| k in m;
      assert (m - {k}).Keys == m.Keys - {k};
      OccurrencesSplit(m, k, e);
      OccurrencesListed(m - {k}, e);
      assert e in m[k] <==> multiset(m[k])[e] > 0;
      if j :| j in m && e in m[j] && j != k {
        assert j in m - {k} && e in (m - {k})[j];
      }
      if j :| j in m - {k} && e in (m - {k})[j] {
        assert j in m && e in m[j];
      }
    }
  }

  /** `covers[e]`, which a first access creates as zero. */
  function CountOf<E>(covers: map<E, nat>, e: E): nat {
    if e in covers then covers[e] else 0
  }

  /** Add the entries of one list to the counters. */
  method TallyOne<E(!new, ==)>(list: seq<E>, covers0: map<E, nat>) returns (covers: map<E, nat>)
    ensures forall e :: e in covers <==> e in covers0 || e in list
    ensures forall e :: CountOf(covers, e) == CountOf(covers0, e) + multiset(list)[e]
  {
    covers := covers0;
    for i := 0 to |list|
      invariant forall e :: e in covers <==> e in covers0 || e in list[..i]
      invariant forall e :: CountOf(covers, e) == CountOf(covers0, e) + multiset(list[..i])[e]
    {
      assert list[..i + 1] == list[..i] + [list[i]];
      covers := covers[list[i] := CountOf(covers, list[i]) + 1];
    }
    assert list[..|list|] == list;
  }

  method Tally<K(!new, ==), E(!new, ==)>(m: map<K, seq<E>>) returns (covers: map<E, nat>)
    ensures forall e :: e in covers <==> Listed(m, e)
    ensures forall e :: e in covers ==> covers[e] == Occurrences(m, e)
  {
    covers := map[];
    var todo := m;
    while todo != map[]
      invariant forall k :: k in todo ==> k in m && todo[k] == m[k]
      invariant forall e :: Occurrences(m, e) == CountOf(covers, e) + Occurrences(todo, e)
      invariant forall e :: e in covers ==> Listed(m, e)
      decreases |todo|
    {
      var k :| k in todo.Keys;
      forall e ensures Occurrences(todo, e) == multiset(m[k])[e] + Occurrences(todo - {k}, e) {
        OccurrencesSplit(todo, k, e);
      }
      covers := TallyOne(m[k], covers);
      assert (todo - {k}).Keys == todo.Keys - {k};
      todo := todo - {k};
    }
    forall e ensures Listed(m, e) <==> Occurrences(m, e) > 0 {
      OccurrencesListed(m, e);
    }
  }

  /** The first key met with the largest count. */
  method PickMax<E(!new, ==)>(covers: map<E, nat>, default: E) returns (best: E)
    ensures (forall e :: e in covers ==> covers[e] == 0) ==> best == default
    ensures (exists e :: e in covers && covers[e] > 0) ==> best in covers && covers[best] > 0
    ensures best in covers ==> forall e :: e in covers ==> covers[e] <= covers[best]
  {
    best := default;
    var maxCovers := 0;
    var todo := covers.Keys;
    while todo != {}
      invariant todo <= covers.Keys
      invariant forall e :: e in covers && e !in todo ==> covers[e] <= maxCovers
      invariant if maxCovers == 0 then best == default else best in covers && covers[best] == maxCovers
      decreases todo
    {
      var e :| e in todo;
      todo := todo - {e};
      if covers[e] > maxCovers {
        maxCovers, best := covers[e], e;
      }
    }
  }
}

/** The prime chart (external/minbool/minbool.h, PrimeChart). */
module PrimeCharts {
  import opened MinTerms
  import opened ImplicantTables
  import opened PrimeImplicants
  import opened Charts
  import opened Elimination

  type RowMap = map<MinTerm, seq<Value>>

  function Restrict<K, V>(m: map<K, V>, keys: set<K>): (r: map<K, V>)
    ensures r.Keys == m.Keys * keys && forall k :: k in r ==> r[k] == m[k]
  {
    map k | k in m && k in keys :: m[k]
  }

  /** Column `a` eliminates column `b`. */
  function ColumnBeats(c: Chart): (Value, Value) -> bool {
    (a, b) => a in c && b in c && Includes(c[b], c[a])
  }

  /** Row `p` eliminates row `q`, seen from the columns. */
  ghost function RowRule(c: Chart): (MinTerm, MinTerm) -> bool {
    (p, q) => p in Rows(c) && q in Rows(c) && ListedMore(c, p, q)
  }

  /** Row `p` eliminates row `q`. */
  function RowBeats(rows: RowMap): (MinTerm, MinTerm) -> bool {
    (p, q) => p in rows && q in rows && Includes(rows[p], rows[q])
  }

  lemma KeptColumns(c: Chart, kept: set<Value>)
    requires Eliminated(c.Keys, kept, ColumnBeats(c))
    ensures ColumnsDropped(c, Restrict(c, kept))
  {
    var c' := Restrict(c, kept);
    forall v | v in c ensures StillImplied(c, c', v) {
      if v in kept {
        assert v in c' && Included(c'[v], c[v]);
      } else {
        assert Beaten(kept, ColumnBeats(c), v);
        var w :| w in kept && ColumnBeats(c)(w, v);
        IncludesElements(c[v], c[w]);
        assert w in c' && Included(c'[w], c[v]);
      }
    }
  }

  /** `rows` is the transpose of `c`. */
  ghost predicate RowsOf(c: Chart, rows: RowMap) {
    && rows.Keys == Rows(c)
    && Swapped(c, rows)
  }

  /** No column includes another. */
  ghost predicate ColumnsIrreducible(c: Chart) {
    forall a, b :: a in c && b in c && a != b ==> !Includes(c[b], c[a])
  }

  /** No row includes another. */
  ghost predicate RowsIrreducible(c: Chart) {
    forall p, q :: p in Rows(c) && q in Rows(c) && p != q ==> !ListedMore(c, p, q)
  }

  lemma ColumnsIrreducibleIs(c: Chart)
    ensures Irreducible(c.Keys, ColumnBeats(c)) <==> ColumnsIrreducible(c)
  {
  }

  /** Comparing transposed rows is comparing rows. */
  lemma RowBeatsIs(c: Chart, rows: RowMap)
    requires RowsOf(c, rows)
    ensures Agree(rows.Keys, RowBeats(rows), RowRule(c))
  {
    forall p, q | p in rows && q in rows ensures RowBeats(rows)(p, q) <==> RowRule(c)(p, q) {
      SwappedIncludes(c, rows, p, q);
    }
  }

  lemma RowsIrreducibleIs(c: Chart, rows: RowMap)
    requires RowsOf(c, rows)
    ensures Irreducible(rows.Keys, RowBeats(rows)) <==> RowsIrreducible(c)
  {
    RowBeatsIs(c, rows);
  }

  /** `c'` is `c` with only the rows `kept`. */
  ghost predicate OnlyRows(c: Chart, c': Chart, kept: set<MinTerm>) {
    && c'.Keys == c.Keys
    && forall v :: v in c ==> OnlyTerms(c[v], c'[v], kept)
  }

  ghost predicate OnlyTerms(ps: seq<MinTerm>, ps': seq<MinTerm>, kept: set<MinTerm>) {
    forall p :: Count(ps', p) == if p in kept then Count(ps, p) else 0
  }

  lemma OnlyTermsListed(ps: seq<MinTerm>, ps': seq<MinTerm>, kept: set<MinTerm>, p: MinTerm)
    requires OnlyTerms(ps, ps', kept)
    ensures p in ps' <==> p in kept && p in ps
  {
    assert p in ps' <==> Count(ps', p) > 0;
  }

  lemma StandIn(c: Chart, c': Chart, kept: set<MinTerm>, p: MinTerm) returns (q: MinTerm)
    requires OnlyRows(c, c', kept) && Eliminated(Rows(c), kept, RowRule(c)) && p in Rows(c)
    ensures StandsInFor(c, c', p, q)
  {
    q := p;
    if p !in kept {
      assert Beaten(kept, RowRule(c), p);
      q :| q in kept && RowRule(c)(q, p);
    }
    forall v | v in c && p in c[v] ensures q in c'[v] {
      assert Count(c[v], p) <= Count(c[v], q);
      OnlyTermsListed(c[v], c'[v], kept, q);
    }
  }

  lemma {:induction false} StandIns(c: Chart, c': Chart, kept: set<MinTerm>, ps: set<MinTerm>)
    returns (dom: map<MinTerm, MinTerm>)
    requires OnlyRows(c, c', kept) && Eliminated(Rows(c), kept, RowRule(c)) && ps <= Rows(c)
    ensures dom.Keys == ps && forall p :: p in dom.Keys ==> StandsInFor(c, c', p, dom[p])
  {
    dom := map[];
    if ps == {} {
    } else {
      var p :| p in ps;
      dom := StandIns(c, c', kept, ps - {p});
      var q := StandIn(c, c', kept, p);
      dom := dom[p := q];
    }
  }

  lemma KeptRowsExact(c: Chart, c': Chart, kept: set<MinTerm>)
    requires OnlyRows(c, c', kept) && kept <= Rows(c)
    ensures Rows(c') == kept
  {
    forall p | p in kept ensures p in Rows(c') {
      var v :| v in c && p in c[v];
      OnlyTermsListed(c[v], c'[v], kept, p);
    }
    forall p | p in Rows(c') ensures p in kept {
      var v :| v in c' && p in c'[v];
      OnlyTermsListed(c[v], c'[v], kept, p);
    }
  }

  lemma KeptRowsWellFormed(c: Chart, c': Chart, kept: set<MinTerm>, dom: map<MinTerm, MinTerm>, n: nat)
    requires WellFormed(c, n) && OnlyRows(c, c', kept) && kept <= Rows(c) && RowsDropped(c, c', dom)
    ensures WellFormed(c', n) && Rows(c') == kept
  {
    KeptRowsExact(c, c', kept);
    forall v | v in c' ensures c'[v] != [] {
      var p := c[v][0];
      assert p in c[v];
      assert StandsInFor(c, c', p, dom[p]);
    }
    forall v, p | v in c' ensures p in c'[v] <==> p in kept && Covers(p, v) {
      OnlyTermsListed(c[v], c'[v], kept, p);
    }
  }

  lemma KeptRows(c: Chart, c': Chart, kept: set<MinTerm>, n: nat)
    requires WellFormed(c, n) && OnlyRows(c, c', kept) && Eliminated(Rows(c), kept, RowRule(c))
    ensures WellFormed(c', n) && Keeps(c, c', {}) && NoWorse(c, c', 0) && Rows(c') == kept
  {
    var dom := StandIns(c, c', kept, Rows(c));
    forall v, p | v in c' && p in c'[v] ensures p in c[v] {
      OnlyTermsListed(c[v], c'[v], kept, p);
    }
    DroppedRowsKeep(c, c', dom);
    KeptRowsWellFormed(c, c', kept, dom, n);
  }

  // ----- the two halves of `simplify`

  /** The columns that the first half can leave of `c`. */
  ghost predicate KeepsColumns(c: Chart, kept: set<Value>) {
    CanLeave(c.Keys, c.Keys, ColumnBeats(c), kept)
  }

  /** `c'` is what the first half can make of `c`. */
  ghost predicate ColumnPass(c: Chart, c': Chart) {
    exists kept :: KeepsColumns(c, kept) && c' == Restrict(c, kept)
  }

  /** The rows that the second half can leave of `c`. */
  ghost predicate KeepsRows(c: Chart, kept: set<MinTerm>) {
    CanLeave(Rows(c), Rows(c), RowRule(c), kept)
  }

  /** `c'` is what the second half can make of `c`. */
  ghost predicate RowPass(c: Chart, c': Chart) {
    exists kept :: KeepsRows(c, kept) && OnlyRows(c, c', kept)
  }

  /** Both halves, one after the other. */
  ghost predicate Simplifies(c: Chart, c': Chart) {
    exists c1 :: ColumnPass(c, c1) && RowPass(c1, c')
  }

  lemma KeepsColumnsEliminates(c: Chart, kept: set<Value>)
    requires KeepsColumns(c, kept)
    ensures Eliminated(c.Keys, kept, ColumnBeats(c))
  {
    ColumnBeatsTransitive(c);
    CanLeaveEliminates(c.Keys, c.Keys, ColumnBeats(c), kept);
  }

  lemma KeepsRowsEliminates(c: Chart, kept: set<MinTerm>)
    requires KeepsRows(c, kept)
    ensures Eliminated(Rows(c), kept, RowRule(c))
  {
    RowRuleTransitive(c);
    CanLeaveEliminates(Rows(c), Rows(c), RowRule(c), kept);
  }

  /** Eliminating columns keeps the covers as they are. */
  lemma ColumnPassKeeps(c: Chart, c': Chart, n: nat)
    requires WellFormed(c, n) && ColumnPass(c, c')
    ensures WellFormed(c', n) && Keeps(c, c', {}) && NoWorse(c, c', 0)
    ensures c'.Keys <= c.Keys && Rows(c') <= Rows(c)
  {
    var kept :| KeepsColumns(c, kept) && c' == Restrict(c, kept);
    KeepsColumnsEliminates(c, kept);
    KeptColumns(c, kept);
    DroppedColumnsKeep(c, c', n);
    SubchartWellFormed(c, c', n);
  }

  /** Eliminating rows keeps the size of a smallest cover. */
  lemma RowPassKeeps(c: Chart, c': Chart, n: nat)
    requires WellFormed(c, n) && RowPass(c, c')
    ensures WellFormed(c', n) && Keeps(c, c', {}) && NoWorse(c, c', 0)
    ensures c'.Keys == c.Keys && Rows(c') <= Rows(c)
  {
    var kept :| KeepsRows(c, kept) && OnlyRows(c, c', kept);
    KeepsRowsEliminates(c, kept);
    KeptRows(c, c', kept, n);
  }

  lemma KeptColumnsPass(c: Chart, kept: set<Value>, n: nat)
    requires WellFormed(c, n) && CanLeave(c.Keys, c.Keys, ColumnBeats(c), kept)
    ensures ColumnPass(c, Restrict(c, kept)) && kept <= c.Keys && Restrict(c, kept).Keys == kept
    ensures kept == c.Keys ==> Restrict(c, kept) == c
  {
    KeepsColumnsEliminates(c, kept);
    assert KeepsColumns(c, kept);
  }

  lemma KeptRowsPass(c: Chart, c': Chart, kept: set<MinTerm>, n: nat)
    requires WellFormed(c, n) && KeepsRows(c, kept) && OnlyRows(c, c', kept)
    ensures RowPass(c, c') && Rows(c') == kept <= Rows(c)
  {
    KeepsRowsEliminates(c, kept);
    KeptRowsExact(c, c', kept);
  }

  lemma KeptRowsAre(c: Chart, rows: RowMap, kept: set<MinTerm>)
    requires RowsOf(c, rows) && CanLeave(rows.Keys, rows.Keys, RowBeats(rows), kept)
    ensures KeepsRows(c, kept) && kept <= Rows(c)
  {
    RowBeatsIs(c, rows);
    CanLeaveAgree(rows.Keys, rows.Keys, RowBeats(rows), RowRule(c), kept);
    KeepsRowsEliminates(c, kept);
  }

  /** The chart a list of primes gives rise to: under every covered value, the primes covering it. */
  ghost predicate ChartOf(c: Chart, primes: seq<MinTerm>) {
    && (forall v :: v in c <==> Eval(primes, v))
    && (forall v :: v in c ==> ListsCovering(c[v], primes, v))
  }

  ghost predicate ListsCovering(ps: seq<MinTerm>, primes: seq<MinTerm>, v: Value) {
    forall p :: Count(ps, p) == if Covers(p, v) then Count(primes, p) else 0
  }

  lemma CoveringListed(ps: seq<MinTerm>, primes: seq<MinTerm>, v: Value, p: MinTerm)
    requires ListsCovering(ps, primes, v)
    ensures p in ps <==> p in primes && Covers(p, v)
  {
    assert p in ps <==> Count(ps, p) > 0;
    assert p in primes <==> Count(primes, p) > 0;
  }

  lemma FillStep(c: Chart, c': Chart, primes: seq<MinTerm>, prime: MinTerm)
    requires ChartOf(c, primes)
    requires forall v :: v in c' <==> v in c || Covers(prime, v)
    requires forall v :: v in c' && Covers(prime, v) ==> c'[v] == (if v in c then c[v] else []) + [prime]
    requires forall v :: v in c' && !Covers(prime, v) ==> v in c && c'[v] == c[v]
    ensures ChartOf(c', primes + [prime])
  {
    forall v ensures v in c' <==> Eval(primes + [prime], v) {
      if v in c {
        assert Eval(primes, v);
      }
    }
    forall v | v in c' ensures ListsCovering(c'[v], primes + [prime], v) {
      if v in c {
        assert ListsCovering(c[v], primes, v);
      } else {
        forall p | Covers(p, v) ensures Count(primes, p) == 0 {
          assert !Eval(primes, v);
          assert p !in primes;
        }
      }
    }
  }

  lemma StruckSmaller(c: Chart, c': Chart, ts: set<MinTerm>, t: MinTerm, n: nat)
    requires WellFormed(c, n) && StruckBy(c, c', ts) && t in ts && t in Rows(c)
    ensures |c'| < |c|
  {
    var v :| v in c && t in c[v];
    assert c'.Keys <= c.Keys && v !in c'.Keys;
    SubsetCard(c'.Keys, c.Keys);
  }

  lemma ColumnBeatsTransitive(c: Chart)
    ensures Transitive(ColumnBeats(c))
  {
    var beats := ColumnBeats(c);
    forall a, b, d | beats(a, b) && beats(b, d) ensures beats(a, d) {
      assert Includes(c[b], c[a]) && Includes(c[d], c[b]);
      assert Includes(c[d], c[a]);
    }
  }

  lemma RowRuleTransitive(c: Chart)
    ensures Transitive(RowRule(c))
  {
    var beats := RowRule(c);
    forall a, b, d | beats(a, b) && beats(b, d) ensures beats(a, d) {
      forall v | v in c ensures Count(c[v], d) <= Count(c[v], a) {
        assert Count(c[v], d) <= Count(c[v], b);
      }
    }
  }

  lemma TransposeGivesRows(c: Chart, rows: RowMap)
    requires Transposed(c, {}, rows)
    ensures RowsOf(c, rows)
  {
    forall p ensures p in rows <==> p in Rows(c) {
      assert p in rows <==> Listed(c, p);
    }
  }

  lemma TransposeBack(c: Chart, rows: RowMap, rows': RowMap, c': Chart)
    requires RowsOf(c, rows) && rows'.Keys <= rows.Keys && forall p :: p in rows' ==> rows'[p] == rows[p]
    requires Transposed(rows', c.Keys, c')
    ensures OnlyRows(c, c', rows'.Keys)
  {
    forall v | Listed(rows', v) ensures v in c {
      var p :| p in rows' && v in rows'[p];
      SwappedLists(c, rows, p, v);
    }
    forall v | v in c ensures OnlyTerms(c[v], c'[v], rows'.Keys) {
      forall p ensures Count(c'[v], p) == if p in rows'.Keys then Count(c[v], p) else 0 {
        assert p in rows' ==> Count(rows[p], v) == Count(c[v], p);
      }
    }
  }

  /** The double loop over the transposed rows of `c`. */
  method EliminateRows(ghost c: Chart, rows: RowMap) returns (rows': RowMap, change: bool, ghost kept: set<MinTerm>)
    requires RowsOf(c, rows)
    ensures KeepsRows(c, kept) && rows'.Keys == kept <= rows.Keys && forall p :: p in rows' ==> rows'[p] == rows[p]
    ensures change ==> |kept| < |Rows(c)|
    ensures !change ==> kept == Rows(c)
    ensures change <==> !RowsIrreducible(c)
  {
    var keys;
    keys, change := Eliminate(rows.Keys, RowBeats(rows));
    RowsIrreducibleIs(c, rows);
    KeptRowsAre(c, rows, keys);
    rows', kept := Restrict(rows, keys), keys;
  }

  class PrimeChart {
    const n: nat
    var columns: Chart

    constructor (n: nat)
      ensures this.n == n && columns == map[]
    {
      this.n, columns := n, map[];
    }

    /** List one prime under each of its values. */
    method FillOne(prime: MinTerm)
      requires prime.Valid(n)
      modifies this
      ensures forall v :: v in columns <==> v in old(columns) || Covers(prime, v)
      ensures forall v :: v in columns && Covers(prime, v) ==>
        columns[v] == (if v in old(columns) then old(columns)[v] else []) + [prime]
      ensures forall v :: v in columns && !Covers(prime, v) ==> v in old(columns) && columns[v] == old(columns)[v]
    {
      var values := Values(prime, n);
      ValuesExact(prime, n);
      for i := 0 to |values|
        invariant forall v :: v in columns <==> v in old(columns) || v in values[..i]
        invariant forall v :: v in values[..i] ==>
          columns[v] == (if v in old(columns) then old(columns)[v] else []) + [prime]
        invariant forall v :: v in columns && v !in values[..i] ==> v in old(columns) && columns[v] == old(columns)[v]
      {
        assert values[i] !in values[..i];
        columns := Push(columns, values[i], prime);
        assert values[..i + 1] == values[..i] + [values[i]];
      }
      assert values[..|values|] == values;
    }

    method Fill(primes: seq<MinTerm>)
      requires columns == map[]
      requires forall p :: p in primes ==> p.Valid(n)
      modifies this
      ensures ChartOf(columns, primes)
    {
      for i := 0 to |primes|
        invariant ChartOf(columns, primes[..i])
      {
        ghost var before := columns;
        FillOne(primes[i]);
        assert primes[..i + 1] == primes[..i] + [primes[i]];
        FillStep(before, columns, primes[..i], primes[i]);
      }
      assert primes[..|primes|] == primes;
    }

    method RemoveColumns(values: seq<Value>)
      modifies this
      ensures columns == map v | v in old(columns) && v !in values :: old(columns)[v]
    {
      for i := 0 to |values|
        invariant columns == map v | v in old(columns) && v !in values[..i] :: old(columns)[v]
      {
        columns := columns - {values[i]};
      }
      assert values[..|values|] == values;
    }

    /** Erase the columns of every value of `t`. */
    method Strike(t: MinTerm)
      requires t.Valid(n)
      modifies this
      ensures columns == map v | v in old(columns) && !Covers(t, v) :: old(columns)[v]
    {
      ValuesExact(t, n);
      RemoveColumns(Values(t, n));
    }

    /** The terms of the columns that list just one. */
    method Singletons() returns (ts: seq<MinTerm>)
      ensures forall t :: t in ts <==> Essential(columns, t)
    {
      ts := [];
      var todo := columns.Keys;
      while todo != {}
        invariant todo <= columns.Keys
        invariant forall t :: t in ts <==> exists v :: v in columns && v !in todo && columns[v] == [t]
        decreases todo
      {
        var v :| v in todo;
        if |columns[v]| == 1 {
          assert columns[v] == [columns[v][0]];
          ts := ts + [columns[v][0]];
        }
        todo := todo - {v};
      }
    }

    /** Take every essential prime, once, and strike out the columns it covers. */
    method RemoveEssentials(essentials: seq<MinTerm>) returns (res: seq<MinTerm>, found: bool)
      requires WellFormed(columns, n)
      modifies this
      ensures essentials <= res
      ensures var news := res[|essentials|..];
              && NoDuplicates(news)
              && (forall t :: t in news <==> Essential(old(columns), t))
              && StruckBy(old(columns), columns, Elements(news))
      ensures found <==> |essentials| < |res|
      ensures columns.Keys <= old(columns).Keys
      ensures found ==> |columns| < |old(columns)|
    {
      var news := Singletons();
      if news == [] {
        res, found := essentials, false;
        return;
      }
      ghost var t0 := news[0];
      news := SortUnique(news);
      assert t0 in news;
      for i := 0 to |news|
        invariant StruckBy(old(columns), columns, Elements(news[..i]))
      {
        assert Essential(old(columns), news[i]);
        Strike(news[i]);
        assert news[..i + 1] == news[..i] + [news[i]];
      }
      assert news[..|news|] == news;
      res, found := essentials + news, true;
      StruckSmaller(old(columns), columns, Elements(news), t0, n);
    }

    /** Take a prime listed most often. */
    method RemoveHeuristic(solution: seq<MinTerm>) returns (res: seq<MinTerm>)
      requires WellFormed(columns, n) && columns != map[]
      modifies this
      ensures |res| == |solution| + 1 && solution <= res
      ensures var t := res[|solution|];
              && t in Rows(old(columns))
              && (forall p :: p in Rows(old(columns)) ==> Occurrences(old(columns), p) <= Occurrences(old(columns), t))
              && StruckBy(old(columns), columns, {t})
      ensures columns.Keys <= old(columns).Keys && |columns| < |old(columns)|
    {
      var covers := Tally(columns);
      ghost var v0 :| v0 in columns;
      assert Listed(columns, columns[v0][0]);
      OccurrencesListed(columns, columns[v0][0]);
      var term := PickMax(covers, MinTerm({}, {}));
      res := solution + [term];
      assert Listed(columns, term);
      assert term in Rows(columns);
      forall p | p in Rows(columns) ensures Occurrences(columns, p) <= Occurrences(columns, term) {
        assert Listed(columns, p);
      }
      Strike(term);
      StruckSmaller(old(columns), columns, {term}, term, n);
    }

    /** The first half of `simplify`: dominating columns are eliminated. */
    method DropColumns() returns (change: bool)
      requires WellFormed(columns, n)
      modifies this
      ensures ColumnPass(old(columns), columns)
      ensures WellFormed(columns, n)
      ensures Keeps(old(columns), columns, {}) && NoWorse(old(columns), columns, 0)
      ensures columns.Keys <= old(columns).Keys && Rows(columns) <= Rows(old(columns))
      ensures change ==> |columns| < |old(columns)|
      ensures !change ==> columns == old(columns)
      ensures change <==> !ColumnsIrreducible(old(columns))
    {
      ColumnsIrreducibleIs(columns);
      var kept;
      kept, change := Eliminate(columns.Keys, ColumnBeats(columns));
      KeptColumnsPass(columns, kept, n);
      columns := Restrict(columns, kept);
      ColumnPassKeeps(old(columns), columns, n);
    }

    /** The second half: transpose, eliminate dominated rows, transpose back. */
    method DropRows() returns (change: bool)
      requires WellFormed(columns, n)
      modifies this
      ensures RowPass(old(columns), columns)
      ensures WellFormed(columns, n)
      ensures Keeps(old(columns), columns, {}) && NoWorse(old(columns), columns, 0)
      ensures columns.Keys == old(columns).Keys && Rows(columns) <= Rows(old(columns))
      ensures OnlyRows(old(columns), columns, Rows(columns))
      ensures change ==> |Rows(columns)| < |Rows(old(columns))|
      ensures !change ==> Rows(columns) == Rows(old(columns))
      ensures change <==> !RowsIrreducible(old(columns))
    {
      var rows := Transpose(columns, {});
      TransposeGivesRows(columns, rows);
      ghost var allRows := rows;
      ghost var kept;
      rows, change, kept := EliminateRows(columns, rows);
      columns := Transpose(rows, columns.Keys);
      TransposeBack(old(columns), allRows, rows, columns);
      KeptRowsPass(old(columns), columns, kept, n);
      RowPassKeeps(old(columns), columns, n);
    }

    /** Both reductions; no remaining column is empty and the minimum cover size is unchanged. */
    method Simplify() returns (change: bool)
      requires WellFormed(columns, n)
      modifies this
      ensures WellFormed(columns, n)
      ensures Keeps(old(columns), columns, {}) && NoWorse(old(columns), columns, 0)
      ensures columns.Keys <= old(columns).Keys && Rows(columns) <= Rows(old(columns))
      ensures change ==> Size(columns) < Size(old(columns))
      ensures change <==> !ColumnsIrreducible(old(columns)) || !RowsIrreducible(old(columns))
      ensures Simplifies(old(columns), columns)
      ensures !change ==> OnlyRows(old(columns), columns, Rows(old(columns)))
    {
      var change1 := DropColumns();
      ghost var c1 := columns;
      var change2 := DropRows();
      change := change1 || change2;
      KeepsCompose(old(columns), c1, columns, {}, {});
      NoWorseCompose(old(columns), c1, columns, 0, 0);
      SubsetCard(Rows(columns), Rows(c1));
      SubsetCard(Rows(c1), Rows(old(columns)));
      SubsetCard(columns.Keys, c1.Keys);
      SubsetCard(c1.Keys, old(columns).Keys);
    }
  }
}

/** Prime implicants and the merge loop that finds them (external/minbool/minbool.h, prime_implicants). */
module PrimeImplicants {
  import opened MinTerms
  import opened ImplicantTables

  /** `t` is true only on values of `allowed`. */
  ghost predicate Implicant(t: MinTerm, allowed: set<Value>, n: nat) {
    t.Valid(n) && forall v :: Covers(t, v) ==> v in allowed
  }

  ghost predicate Contains(u: MinTerm, t: MinTerm) {
    forall v :: Covers(t, v) ==> Covers(u, v)
  }

  /** A maximal implicant. */
  ghost predicate Prime(t: MinTerm, allowed: set<Value>, n: nat) {
    && Implicant(t, allowed, n)
    && forall u :: Implicant(u, allowed, n) && Contains(u, t) ==> u == t
  }

  ghost predicate InRound(t: MinTerm, allowed: set<Value>, n: nat, r: nat) {
    Implicant(t, allowed, n) && |t.dash| == r
  }

  // ----- the lattice of terms

  lemma ContainsBySets(u: MinTerm, t: MinTerm)
    ensures Contains(u, t) <==> u.value <= t.value && t.value + t.dash <= u.value + u.dash
  {
    if Contains(u, t) {
      assert Covers(t, t.value) && Covers(t, t.value + t.dash);
    }
  }

  lemma ContainsDash(u: MinTerm, t: MinTerm, n: nat)
    requires u.Valid(n) && t.Valid(n) && Contains(u, t)
    ensures t.dash <= u.dash && t.value - u.dash == u.value
  {
    ContainsBySets(u, t);
    forall i | i in t.dash ensures i in u.dash {
      assert i in u.value + u.dash && i !in t.value;
    }
    forall i | i in t.value - u.dash ensures i in u.value {
      assert i in u.value + u.dash;
    }
  }

  lemma ContainsStrictly(u: MinTerm, t: MinTerm, n: nat) returns (bit: nat)
    requires u.Valid(n) && t.Valid(n) && Contains(u, t) && u != t
    ensures |t.dash| < |u.dash| && bit in u.dash && bit !in t.dash
  {
    ContainsDash(u, t, n);
    SubsetCard(t.dash, u.dash);
    assert t.dash == u.dash ==> t.value - u.dash == t.value;
    assert !(u.dash <= t.dash);
    bit :| bit in u.dash && bit !in t.dash;
  }

  /** Two mergeable terms differ in one bit, which `Combine` turns into a dash. */
  lemma MergeShape(a: MinTerm, b: MinTerm, n: nat) returns (bit: nat)
    requires a.Valid(n) && b.Valid(n) && Mergeable(a, b)
    ensures bit < n && bit !in a.value && bit !in a.dash && b.value == a.value + {bit}
    ensures a.Combine(b) == MinTerm(a.value, a.dash + {bit})
  {
    assert |b.value - a.value| == 1 by {
      assert b.value == a.value + (b.value - a.value);
    }
    bit :| bit in b.value - a.value;
    assert b.value - a.value == {bit} by {
      SubsetCard({bit}, b.value - a.value);
    }
    assert b.value == a.value + {bit};
    assert a.Combine(b).value == a.value;
    assert a.Combine(b).dash == a.dash + {bit};
  }

  /** Every value of `t` with one dash opened is a value of one of its two halves. */
  lemma CoversHalves(value: Value, dash: Value, bit: nat, v: Value)
    requires bit !in value && bit !in dash
    ensures Covers(MinTerm(value, dash + {bit}), v) <==>
            Covers(MinTerm(value, dash), v) || Covers(MinTerm(value + {bit}, dash), v)
  {
    if Covers(MinTerm(value, dash + {bit}), v) {
      if bit in v {
        assert Covers(MinTerm(value + {bit}, dash), v);
      } else {
        assert Covers(MinTerm(value, dash), v);
      }
    }
  }

  lemma MergeIsImplicant(a: MinTerm, b: MinTerm, allowed: set<Value>, n: nat, r: nat)
    requires InRound(a, allowed, n, r) && InRound(b, allowed, n, r) && Mergeable(a, b)
    ensures InRound(a.Combine(b), allowed, n, r + 1)
    ensures Contains(a.Combine(b), a) && Contains(a.Combine(b), b)
    ensures a.Combine(b) != a && a.Combine(b) != b
  {
    var bit := MergeShape(a, b, n);
    forall v ensures Covers(a.Combine(b), v) <==> Covers(a, v) || Covers(b, v) {
      CoversHalves(a.value, a.dash, bit, v);
    }
  }

  /** The converse: opening any dash of an implicant gives two implicants that merge back to it. */
  lemma SplitImplicant(t: MinTerm, allowed: set<Value>, n: nat, r: nat, bit: nat) returns (a: MinTerm, b: MinTerm)
    requires InRound(t, allowed, n, r + 1) && bit in t.dash
    ensures a == MinTerm(t.value, t.dash - {bit}) && b == MinTerm(t.value + {bit}, t.dash - {bit})
    ensures InRound(a, allowed, n, r) && InRound(b, allowed, n, r)
    ensures Mergeable(a, b) && a.Combine(b) == t
  {
    a, b := MinTerm(t.value, t.dash - {bit}), MinTerm(t.value + {bit}, t.dash - {bit});
    assert t.dash == a.dash + {bit};
    forall v ensures Covers(t, v) <==> Covers(a, v) || Covers(b, v) {
      CoversHalves(t.value, a.dash, bit, v);
    }
    var bit' := MergeShape(a, b, n);
    assert bit' in b.value - a.value;
  }

  /** A term merges within its round exactly when a larger implicant contains it. */
  lemma PartnerIffNotPrime(t: MinTerm, terms: seq<MinTerm>, allowed: set<Value>, n: nat, r: nat)
    requires forall u :: u in terms <==> InRound(u, allowed, n, r)
    requires t in terms
    ensures HasPartner(terms, t) <==> !Prime(t, allowed, n)
  {
    if HasPartner(terms, t) {
      var u :| u in terms && (Mergeable(t, u) || Mergeable(u, t));
      if Mergeable(t, u) {
        MergeIsImplicant(t, u, allowed, n, r);
      } else {
        MergeIsImplicant(u, t, allowed, n, r);
      }
    }
    if !Prime(t, allowed, n) {
      var u :| Implicant(u, allowed, n) && Contains(u, t) && u != t;
      LargerImplicantGivesPartner(t, u, terms, allowed, n, r);
    }
  }

  /** Opening in `t` a bit that a larger implicant has open leaves an implicant. */
  lemma OpenBit(t: MinTerm, u: MinTerm, bit: nat, allowed: set<Value>, n: nat, r: nat) returns (m: MinTerm)
    requires InRound(t, allowed, n, r) && Implicant(u, allowed, n) && Contains(u, t)
    requires bit in u.dash && bit !in t.dash
    ensures m == MinTerm(t.value - {bit}, t.dash + {bit}) && InRound(m, allowed, n, r + 1)
  {
    m := MinTerm(t.value - {bit}, t.dash + {bit});
    ContainsBySets(u, t);
    ContainsBySets(u, m);
  }

  lemma LargerImplicantGivesPartner(t: MinTerm, u: MinTerm, terms: seq<MinTerm>, allowed: set<Value>, n: nat, r: nat)
    requires forall x :: x in terms <==> InRound(x, allowed, n, r)
    requires t in terms && Implicant(u, allowed, n) && Contains(u, t) && u != t
    ensures HasPartner(terms, t)
  {
    var bit := ContainsStrictly(u, t, n);
    var m := OpenBit(t, u, bit, allowed, n, r);
    var a, b := SplitImplicant(m, allowed, n, r, bit);
    assert a.dash == t.dash && b.dash == t.dash;
    assert if bit in t.value then b.value == t.value else a.value == t.value;
  }

  lemma {:induction false} PrimeAbove(t: MinTerm, allowed: set<Value>, n: nat) returns (p: MinTerm)
    requires Implicant(t, allowed, n)
    ensures Prime(p, allowed, n) && Contains(p, t)
    decreases n - |t.dash|
  {
    if Prime(t, allowed, n) {
      p := t;
    } else {
      var u :| Implicant(u, allowed, n) && Contains(u, t) && u != t;
      var _ := ContainsStrictly(u, t, n);
      PopcountBound(u, n);
      p := PrimeAbove(u, allowed, n);
    }
  }

  // ----- rounds

  lemma RoundZero(init: seq<MinTerm>, n: nat)
    requires forall t :: t in init ==> t.Valid(n) && t.dash == {}
    ensures IsRound(init, Minterms(init), n, 0)
  {
    forall t ensures t in init <==> InRound(t, Minterms(init), n, 0) {
      if t in init {
        forall v | Covers(t, v) ensures v in Minterms(init) {
          assert v == t.value;
        }
      }
      if InRound(t, Minterms(init), n, 0) {
        assert Covers(t, t.value);
        var u :| u in init && u.value == t.value;
        assert t == u;
      }
    }
  }

  lemma NextRound(terms: seq<MinTerm>, allowed: set<Value>, n: nat, r: nat)
    requires forall u :: u in terms <==> InRound(u, allowed, n, r)
    ensures forall m :: MergeOf(terms, m) <==> InRound(m, allowed, n, r + 1)
  {
    forall m ensures MergeOf(terms, m) <==> InRound(m, allowed, n, r + 1) {
      if MergeOf(terms, m) {
        var a, b :| a in terms && b in terms && Mergeable(a, b) && m == a.Combine(b);
        MergeIsImplicant(a, b, allowed, n, r);
      }
      if InRound(m, allowed, n, r + 1) {
        var bit :| bit in m.dash;
        var a, b := SplitImplicant(m, allowed, n, r, bit);
      }
    }
  }

  /** Once a round is empty there is no implicant with that many dashes or more. */
  lemma {:induction false} EmptyRound(t: MinTerm, allowed: set<Value>, n: nat, r: nat)
    requires forall u :: !InRound(u, allowed, n, r)
    requires Implicant(t, allowed, n)
    ensures |t.dash| < r
    decreases |t.dash|
  {
    assert !InRound(t, allowed, n, r);
    if |t.dash| <= r {
    } else {
      var bit :| bit in t.dash;
      var a, b := SplitImplicant(t, allowed, n, |t.dash| - 1, bit);
      EmptyRound(a, allowed, n, r);
    }
  }

  // ----- the loop

  function Minterms(init: seq<MinTerm>): set<Value> {
    set t | t in init :: t.value
  }

  /** `std::sort` followed by `std::unique`: the same elements, each once (the order is left open). */
  method SortUnique(ts: seq<MinTerm>) returns (r: seq<MinTerm>)
    ensures forall t :: t in r <==> t in ts
    ensures NoDuplicates(r)
  {
    r := [];
    var left := set t | t in ts;
    while left != {}
      invariant forall t :: t in ts <==> t in r || t in left
      invariant forall t :: t in left ==> t !in r
      invariant NoDuplicates(r)
      decreases |left|
    {
      var t :| t in left;
      left := left - {t};
      r := r + [t];
    }
  }

  lemma {:induction false} NoDuplicatesCount<T>(s: seq<T>, x: T)
    requires NoDuplicates(s)
    ensures Count(s, x) == if x in s then 1 else 0
  {
    if s == [] {
    } else {
      var k := |s| - 1;
      NoDuplicatesCount(s[..k], x);
      assert s == s[..k] + [s[k]];
      assert s[k] !in s[..k];
    }
  }

  /** How often a term is listed among the primes: a minterm as often as it was given, any other prime once. */
  ghost function Multiplicity(init: seq<MinTerm>, p: MinTerm): nat {
    if p.dash == {} then Count(init, p) else 1
  }

  /** `terms` lists the implicants with `r` dashes. */
  ghost predicate IsRound(terms: seq<MinTerm>, allowed: set<Value>, n: nat, r: nat) {
    forall t :: t in terms <==> InRound(t, allowed, n, r)
  }

  /** What a round keeps: its primes, each as often as it is listed. */
  lemma UnmarkedPrimes(ts: seq<MinTerm>, marks: seq<bool>, allowed: set<Value>, n: nat, r: nat, p: MinTerm)
    requires forall u :: u in ts <==> InRound(u, allowed, n, r)
    requires |marks| == |ts| && forall q :: 0 <= q < |ts| ==> (marks[q] <==> HasPartner(ts, ts[q]))
    ensures Count(Unmarked(ts, marks), p) == if Prime(p, allowed, n) then Count(ts, p) else 0
  {
    if p in ts {
      PartnerIffNotPrime(p, ts, allowed, n, r);
    }
    UnmarkedCount(ts, marks, p, !Prime(p, allowed, n));
  }

  /** So far the primes with fewer than `r` dashes were collected. */
  ghost predicate PrimesBelow(primes: seq<MinTerm>, allowed: set<Value>, n: nat, r: nat) {
    forall p :: p in primes <==> Prime(p, allowed, n) && |p.dash| < r
  }

  lemma PrimesCollected(primes: seq<MinTerm>, ts: seq<MinTerm>, marks: seq<bool>, allowed: set<Value>, n: nat, r: nat)
    requires PrimesBelow(primes, allowed, n, r) && forall u :: u in ts <==> InRound(u, allowed, n, r)
    requires |marks| == |ts| && forall q :: 0 <= q < |ts| ==> (marks[q] <==> HasPartner(ts, ts[q]))
    ensures PrimesBelow(primes + Unmarked(ts, marks), allowed, n, r + 1)
  {
    var more := primes + Unmarked(ts, marks);
    forall p ensures p in more <==> Prime(p, allowed, n) && |p.dash| < r + 1 {
      UnmarkedPrimes(ts, marks, allowed, n, r, p);
      assert p in Unmarked(ts, marks) <==> Count(Unmarked(ts, marks), p) > 0;
      assert p in ts <==> Count(ts, p) > 0;
    }
  }

  /** The primes among `terms` were appended, each as often as it is listed. */
  ghost predicate PrimesAdded(terms: seq<MinTerm>, primes: seq<MinTerm>, primes': seq<MinTerm>, allowed: set<Value>,
                              n: nat)
  {
    forall p :: Count(primes', p) == Count(primes, p) + if Prime(p, allowed, n) then Count(terms, p) else 0
  }

  lemma UnmarkedAdded(terms: seq<MinTerm>, ts: seq<MinTerm>, marks: seq<bool>, primes: seq<MinTerm>,
                      allowed: set<Value>, n: nat, r: nat)
    requires multiset(ts) == multiset(terms) && forall u :: u in ts <==> InRound(u, allowed, n, r)
    requires |marks| == |ts| && forall q :: 0 <= q < |ts| ==> (marks[q] <==> HasPartner(ts, ts[q]))
    ensures PrimesAdded(terms, primes, primes + Unmarked(ts, marks), allowed, n)
  {
    var more := primes + Unmarked(ts, marks);
    forall p ensures Count(more, p) == Count(primes, p) + if Prime(p, allowed, n) then Count(terms, p) else 0 {
      UnmarkedPrimes(ts, marks, allowed, n, r, p);
    }
  }

  /** The body of the merge loop: from round `r` to round `r + 1`, keeping what did not merge. */
  method MergeRound(terms: seq<MinTerm>, primes: seq<MinTerm>, n: nat, ghost allowed: set<Value>, ghost r: nat)
    returns (terms': seq<MinTerm>, primes': seq<MinTerm>)
    requires IsRound(terms, allowed, n, r) && PrimesBelow(primes, allowed, n, r)
    ensures IsRound(terms', allowed, n, r + 1)
    ensures PrimesBelow(primes', allowed, n, r + 1)
    ensures NoDuplicates(terms')
    ensures PrimesAdded(terms, primes, primes', allowed, n)
  {
    var table := new ImplicantTable(n);
    table.Fill(terms);
    forall t ensures t in table.terms <==> t in terms {
      assert t in multiset(table.terms) <==> t in multiset(terms);
    }
    terms' := table.Combine([]);
    NextRound(table.terms, allowed, n, r);
    terms' := SortUnique(terms');
    primes' := table.Primes(primes);
    PrimesCollected(primes, table.terms, table.marks, allowed, n, r);
    UnmarkedAdded(terms, table.terms, table.marks, primes, allowed, n, r);
  }

  ghost predicate Counted(primes: seq<MinTerm>, init: seq<MinTerm>) {
    forall p :: p in primes ==> Count(primes, p) == Multiplicity(init, p)
  }

  lemma CountedAt(init: seq<MinTerm>, terms: seq<MinTerm>, primes: seq<MinTerm>, allowed: set<Value>, n: nat, r: nat,
                  p: MinTerm)
    requires IsRound(terms, allowed, n, r) && if r == 0 then terms == init else NoDuplicates(terms)
    requires PrimesBelow(primes, allowed, n, r) && Counted(primes, init)
    ensures Prime(p, allowed, n) && |p.dash| <= r ==> Count(primes, p) + Count(terms, p) == Multiplicity(init, p)
    ensures !Prime(p, allowed, n) || |p.dash| > r ==> Count(primes, p) == 0
  {
    assert p in primes <==> Count(primes, p) > 0;
    assert p in terms <==> Count(terms, p) > 0;
    assert p in terms <==> InRound(p, allowed, n, r);
    if r > 0 {
      NoDuplicatesCount(terms, p);
    }
  }

  lemma CountedMore(init: seq<MinTerm>, terms: seq<MinTerm>, primes: seq<MinTerm>, primes': seq<MinTerm>,
                    allowed: set<Value>, n: nat, r: nat)
    requires IsRound(terms, allowed, n, r) && if r == 0 then terms == init else NoDuplicates(terms)
    requires PrimesBelow(primes, allowed, n, r) && Counted(primes, init)
    requires PrimesBelow(primes', allowed, n, r + 1)
    requires PrimesAdded(terms, primes, primes', allowed, n)
    ensures Counted(primes', init)
  {
    forall p | p in primes' ensures Count(primes', p) == Multiplicity(init, p) {
      CountedAt(init, terms, primes, allowed, n, r, p);
    }
  }

  ghost predicate AnyInRound(allowed: set<Value>, n: nat, r: nat) {
    exists t :: InRound(t, allowed, n, r)
  }

  /** The merge loop so far: `rounds` turns were made. */
  ghost predicate Merging(init: seq<MinTerm>, allowed: set<Value>, terms: seq<MinTerm>, primes: seq<MinTerm>, n: nat,
                          rounds: nat)
  {
    && rounds <= n + 1 && (rounds > 0 ==> AnyInRound(allowed, n, rounds - 1))
    && IsRound(terms, allowed, n, rounds) && (if rounds == 0 then terms == init else NoDuplicates(terms))
    && PrimesBelow(primes, allowed, n, rounds) && Counted(primes, init)
  }

  lemma MergingMore(init: seq<MinTerm>, allowed: set<Value>, terms: seq<MinTerm>, primes: seq<MinTerm>,
                    terms': seq<MinTerm>, primes': seq<MinTerm>, n: nat, rounds: nat)
    requires Merging(init, allowed, terms, primes, n, rounds) && terms != []
    requires IsRound(terms', allowed, n, rounds + 1) && NoDuplicates(terms')
    requires PrimesBelow(primes', allowed, n, rounds + 1) && PrimesAdded(terms, primes, primes', allowed, n)
    ensures Merging(init, allowed, terms', primes', n, rounds + 1) && rounds <= n
  {
    assert InRound(terms[0], allowed, n, rounds);
    PopcountBound(terms[0], n);
    CountedMore(init, terms, primes, primes', allowed, n, rounds);
  }

  /** The primes were collected, each as often as it was given, and so many turns were needed. */
  ghost predicate Merged(init: seq<MinTerm>, allowed: set<Value>, primes: seq<MinTerm>, n: nat, rounds: nat) {
    && (forall p :: p in primes <==> Prime(p, allowed, n)) && Counted(primes, init)
    && rounds <= n + 1 && (rounds > 0 ==> AnyInRound(allowed, n, rounds - 1))
    && (forall t :: Implicant(t, allowed, n) ==> |t.dash| < rounds)
  }

  lemma MergingEnd(init: seq<MinTerm>, allowed: set<Value>, primes: seq<MinTerm>, n: nat, rounds: nat)
    requires Merging(init, allowed, [], primes, n, rounds)
    ensures Merged(init, allowed, primes, n, rounds)
  {
    forall t | Implicant(t, allowed, n) ensures |t.dash| < rounds {
      EmptyRound(t, allowed, n, rounds);
    }
  }

  /** The merge loop. */
  method MergeAll(init: seq<MinTerm>, n: nat, ghost allowed: set<Value>)
    returns (primes: seq<MinTerm>, ghost rounds: nat)
    requires IsRound(init, allowed, n, 0)
    ensures Merged(init, allowed, primes, n, rounds)
  {
    primes := [];
    var terms := init;
    rounds := 0;
    while terms != []
      invariant Merging(init, allowed, terms, primes, n, rounds)
      decreases n + 1 - rounds
    {
      ghost var terms0, primes0 := terms, primes;
      terms, primes := MergeRound(terms, primes, n, allowed, rounds);
      MergingMore(init, allowed, terms0, primes0, terms, primes, n, rounds);
      rounds := rounds + 1;
    }
    MergingEnd(init, allowed, primes, n, rounds);
  }

  /** The result holds exactly the maximal implicants of the given minterms. `rounds` counts the turns of the loop:
      one more than the largest number of dashes in an implicant. */
  method FindPrimes(init: seq<MinTerm>, n: nat) returns (primes: seq<MinTerm>, ghost rounds: nat)
    requires forall t :: t in init ==> t.Valid(n) && t.dash == {}
    ensures forall p :: p in primes <==> Prime(p, Minterms(init), n)
    ensures forall p :: p in primes ==> Count(primes, p) == Multiplicity(init, p)
    ensures rounds <= n + 1 && (rounds > 0 ==> AnyInRound(Minterms(init), n, rounds - 1))
    ensures forall t :: Implicant(t, Minterms(init), n) ==> |t.dash| < rounds
  {
    RoundZero(init, n);
    primes, rounds := MergeAll(init, n, Minterms(init));
  }
}

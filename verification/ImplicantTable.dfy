/** One round of the Quine-McCluskey merge (external/minbool/minbool.h, ImplicantTable). */
module ImplicantTables {
  import opened MinTerms

  /** How many terms have fewer than `c` one bits. */
  ghost function CountBelow(ts: seq<MinTerm>, c: nat): nat {
    if ts == [] then 0
    else CountBelow(ts[..|ts| - 1], c) + (if |ts[|ts| - 1].value| < c then 1 else 0)
  }

  ghost function CountAt(ts: seq<MinTerm>, c: nat): nat {
    if ts == [] then 0
    else CountAt(ts[..|ts| - 1], c) + (if |ts[|ts| - 1].value| == c then 1 else 0)
  }

  /** The pairs the triple loop of `combine` merges. */
  predicate Mergeable(a: MinTerm, b: MinTerm) {
    |b.value| == |a.value| + 1 && a.value <= b.value && a.dash == b.dash
  }

  ghost predicate HasPartner(ts: seq<MinTerm>, t: MinTerm) {
    exists u :: u in ts && (Mergeable(t, u) || Mergeable(u, t))
  }

  ghost predicate MergeOf(ts: seq<MinTerm>, m: MinTerm) {
    exists a, b :: a in ts && b in ts && Mergeable(a, b) && m == a.Combine(b)
  }

  function Resize<T>(s: seq<T>, size: nat, fill: T): (r: seq<T>)
    ensures |r| == size
  {
    if size <= |s| then s[..size] else s + seq(size - |s|, _ => fill)
  }

  // ----- counting

  lemma {:induction false} CountBelowZero(ts: seq<MinTerm>)
    ensures CountBelow(ts, 0) == 0
  {
    if ts == [] {
    } else {
      CountBelowZero(ts[..|ts| - 1]);
    }
  }

  lemma {:induction false} CountNext(ts: seq<MinTerm>, c: nat)
    ensures CountBelow(ts, c + 1) == CountBelow(ts, c) + CountAt(ts, c)
    ensures CountBelow(ts, c) <= |ts|
  {
    if ts == [] {
    } else {
      CountNext(ts[..|ts| - 1], c);
    }
  }

  lemma {:induction false} CountBelowAll(ts: seq<MinTerm>, n: nat)
    requires forall t :: t in ts ==> t.Valid(n)
    ensures CountBelow(ts, n + 1) == |ts|
  {
    if ts == [] {
    } else {
      CountBelowAll(ts[..|ts| - 1], n);
      PopcountBound(ts[|ts| - 1], n);
    }
  }

  /** Appending one term raises exactly the count of its own popcount. */
  lemma CountAppend(ts: seq<MinTerm>, m: nat, c: nat)
    requires m < |ts|
    ensures CountAt(ts[..m + 1], c) == CountAt(ts[..m], c) + (if |ts[m].value| == c then 1 else 0)
  {
    assert ts[..m + 1][..m] == ts[..m];
  }

  lemma {:induction false} CountPrefix(ts: seq<MinTerm>, m: nat, c: nat)
    requires m <= |ts|
    ensures CountAt(ts[..m], c) <= CountAt(ts, c)
    decreases |ts| - m
  {
    if m == |ts| {
      assert ts[..m] == ts;
    } else {
      CountAppend(ts, m, c);
      CountPrefix(ts, m + 1, c);
    }
  }

  ghost function Starts(ts: seq<MinTerm>, k: nat): seq<nat> {
    seq(k, c requires 0 <= c => CountBelow(ts, c))
  }

  ghost function Ends(ts: seq<MinTerm>, k: nat): seq<nat> {
    seq(k, c requires 0 <= c => CountBelow(ts, c) + CountAt(ts, c))
  }

  lemma {:induction false} CountBelowMonotone(ts: seq<MinTerm>, c: nat, d: nat)
    requires c <= d
    ensures CountBelow(ts, c) <= CountBelow(ts, d)
    decreases d
  {
    if c == d {
    } else {
      CountBelowMonotone(ts, c, d - 1);
      CountNext(ts, d - 1);
    }
  }

  lemma LayoutOfCounts(ts: seq<MinTerm>, k: nat)
    ensures Layout(Starts(ts, k), Ends(ts, k), |ts|)
  {
    forall i | 0 <= i < k ensures Starts(ts, k)[i] <= Ends(ts, k)[i] <= |ts| {
      CountNext(ts, i);
      CountNext(ts, i + 1);
    }
    forall i, j | 0 <= i < j < k ensures Ends(ts, k)[i] <= Starts(ts, k)[j] {
      CountNext(ts, i);
      CountBelowMonotone(ts, i + 1, j);
    }
  }

  lemma PopcountBound(t: MinTerm, n: nat)
    requires t.Valid(n)
    ensures |t.value| <= n && |t.dash| <= n
  {
    BitsCard(n);
    SubsetCard(t.value, Bits(n));
    SubsetCard(t.dash, Bits(n));
  }

  lemma {:induction false} SubsetCard<T>(a: set<T>, b: set<T>)
    requires a <= b
    ensures |a| <= |b|
    ensures |a| == |b| ==> a == b
  {
    if a == {} {
    } else {
      var x :| x in a;
      SubsetCard(a - {x}, b - {x});
    }
  }

  // ----- the distribution pass

  /** The slots of the groups: group `i` is `lo[i]..hi[i]`. */
  ghost predicate Layout(lo: seq<nat>, hi: seq<nat>, size: nat) {
    && |lo| == |hi|
    && (forall i :: 0 <= i < |lo| ==> lo[i] <= hi[i] <= size)
    && (forall i, j :: 0 <= i < j < |lo| ==> hi[i] <= lo[j])
  }

  ghost predicate Within(groups: seq<nat>, lo: seq<nat>, hi: seq<nat>) {
    |groups| == |lo| == |hi| && forall i :: 0 <= i < |groups| ==> lo[i] <= groups[i] <= hi[i]
  }

  /** `place` sends every input position to its own slot, where the input term now is. */
  ghost predicate Rearranged<T(!new)>(ms: seq<T>, ts: seq<T>, place: seq<nat>) {
    && |place| == |ms| <= |ts|
    && (forall i :: 0 <= i < |ms| ==> place[i] < |ts| && ts[place[i]] == ms[i])
    && (forall i, j :: 0 <= i < j < |ms| ==> place[i] != place[j])
  }

  lemma {:induction false} RearrangedIsPermutation<T(!new)>(ms: seq<T>, ts: seq<T>, place: seq<nat>)
    requires Rearranged(ms, ts, place) && |ms| == |ts|
    ensures multiset(ms) == multiset(ts)
  {
    if ms == [] {
    } else {
      var k := |ms| - 1;
      var s := place[k];
      var ts' := ts[..s] + ts[s + 1..];
      var place' := seq(k, i requires 0 <= i < k => if place[i] > s then place[i] - 1 else place[i]);
      RearrangedIsPermutation(ms[..k], ts', place');
      assert ms == ms[..k] + [ms[k]];
      assert ts == ts[..s] + [ts[s]] + ts[s + 1..];
    }
  }

  ghost predicate InGroup(q: nat, c: nat, groups: seq<nat>, hi: seq<nat>) {
    c < |groups| == |hi| && groups[c] <= q < hi[c]
  }

  ghost predicate Filled(terms: seq<MinTerm>, groups: seq<nat>, hi: seq<nat>) {
    forall c: nat, q: nat :: InGroup(q, c, groups, hi) ==> q < |terms| && |terms[q].value| == c
  }

  /** The slots of the first `m` terms, each in its own group. */
  ghost predicate Slotted(ms: seq<MinTerm>, m: nat, ts: seq<MinTerm>, groups: seq<nat>, hi: seq<nat>, place: seq<nat>) {
    && m <= |ms| == |ts|
    && Filled(ts, groups, hi)
    && Rearranged(ms[..m], ts, place)
    && (forall i :: 0 <= i < m ==> InGroup(place[i], |ms[i].value|, groups, hi))
  }

  /** `groups[c]` is the end of group `c` less the terms already placed there. */
  ghost predicate Counted(ms: seq<MinTerm>, m: nat, groups: seq<nat>, k: nat) {
    && m <= |ms| && |groups| == k
    && (forall c :: 0 <= c < k ==> groups[c] == Ends(ms, k)[c] - CountAt(ms[..m], c))
  }

  lemma CountedStep(ms: seq<MinTerm>, m: nat, groups: seq<nat>, k: nat)
    requires Counted(ms, m, groups, k) && m < |ms| && |ms[m].value| < k
    ensures Within(groups, Starts(ms, k), Ends(ms, k))
    ensures var c := |ms[m].value|;
            Starts(ms, k)[c] < groups[c] && Counted(ms, m + 1, groups[c := groups[c] - 1], k)
  {
    forall d | 0 <= d < k
      ensures Starts(ms, k)[d] <= groups[d] <= Ends(ms, k)[d]
      ensures CountAt(ms[..m + 1], d) == CountAt(ms[..m], d) + (if |ms[m].value| == d then 1 else 0) <= CountAt(ms, d)
    {
      CountPrefix(ms, m + 1, d);
      CountAppend(ms, m, d);
    }
  }

  lemma PlaceOne(ms: seq<MinTerm>, ts: seq<MinTerm>, place: seq<nat>, m: nat, g: nat)
    requires m < |ms| == |ts| && Rearranged(ms[..m], ts, place)
    requires g < |ts| && forall i :: 0 <= i < m ==> place[i] != g
    ensures Rearranged(ms[..m + 1], ts[g := ms[m]], place + [g])
  {
    var ts', place' := ts[g := ms[m]], place + [g];
    forall i | 0 <= i < m + 1 ensures ts'[place'[i]] == ms[..m + 1][i] {
      if i < m {
        assert place'[i] == place[i] && ms[..m][i] == ms[i];
      }
    }
    forall i, j | 0 <= i < j < m + 1 ensures place'[i] != place'[j] {
      assert place'[i] == place[i];
    }
  }

  lemma SlottedStep(ms: seq<MinTerm>, m: nat, ts: seq<MinTerm>, groups: seq<nat>, lo: seq<nat>, hi: seq<nat>,
                    place: seq<nat>)
    requires Slotted(ms, m, ts, groups, hi, place) && m < |ms|
    requires Layout(lo, hi, |ts|) && Within(groups, lo, hi)
    requires |ms[m].value| < |groups| && lo[|ms[m].value|] < groups[|ms[m].value|]
    ensures var c := |ms[m].value|; var g := groups[c] - 1;
            Slotted(ms, m + 1, ts[g := ms[m]], groups[c := g], hi, place + [g])
  {
    var c := |ms[m].value|;
    var g := groups[c] - 1;
    var ts', groups', place' := ts[g := ms[m]], groups[c := g], place + [g];
    forall i | 0 <= i < m ensures place[i] != g && InGroup(place'[i], |ms[i].value|, groups', hi) {
      assert InGroup(place[i], |ms[i].value|, groups, hi);
    }
    PlaceOne(ms, ts, place, m, g);
    forall d: nat, q: nat | InGroup(q, d, groups', hi) ensures q < |ts'| && |ts'[q].value| == d {
      if q != g {
        assert InGroup(q, d, groups, hi);
      }
    }
  }

  lemma DistributeStep(ms: seq<MinTerm>, m: nat, ts: seq<MinTerm>, groups: seq<nat>, place: seq<nat>, n: nat)
    requires m < |ms| && ms[m].Valid(n)
    requires Counted(ms, m, groups, n + 2) && Slotted(ms, m, ts, groups, Ends(ms, n + 2), place)
    ensures |ms[m].value| < n + 2 && 0 < groups[|ms[m].value|] <= |ts|
    ensures var c := |ms[m].value|; var g := groups[c] - 1;
            && Counted(ms, m + 1, groups[c := g], n + 2)
            && Slotted(ms, m + 1, ts[g := ms[m]], groups[c := g], Ends(ms, n + 2), place + [g])
  {
    PopcountBound(ms[m], n);
    LayoutOfCounts(ms, n + 2);
    CountedStep(ms, m, groups, n + 2);
    SlottedStep(ms, m, ts, groups, Starts(ms, n + 2), Ends(ms, n + 2), place);
  }

  /** `groups` delimits the runs of equal popcount. */
  ghost predicate Grouped(terms: seq<MinTerm>, groups: seq<nat>, n: nat) {
    && |groups| == n + 2
    && groups[0] == 0 && groups[n + 1] == |terms|
    && (forall i, j :: 0 <= i <= j < n + 2 ==> groups[i] <= groups[j])
    && (forall i, q :: 0 <= i <= n && groups[i] <= q < groups[i + 1] ==> |terms[q].value| == i)
  }

  lemma DistributeEnd(ms: seq<MinTerm>, ts: seq<MinTerm>, groups: seq<nat>, place: seq<nat>, n: nat)
    requires forall t :: t in ms ==> t.Valid(n)
    requires Counted(ms, |ms|, groups, n + 2) && Slotted(ms, |ms|, ts, groups, Ends(ms, n + 2), place)
    ensures multiset(ts) == multiset(ms)
    ensures Grouped(ts, groups, n)
  {
    assert ms[..|ms|] == ms;
    RearrangedIsPermutation(ms, ts, place);
    assert groups == Starts(ms, n + 2);
    CountBelowZero(ms);
    CountBelowAll(ms, n);
    LayoutOfCounts(ms, n + 2);
    forall i, q | 0 <= i <= n && groups[i] <= q < groups[i + 1] ensures |ts[q].value| == i {
      CountNext(ms, i);
      assert InGroup(q, i, groups, Ends(ms, n + 2));
    }
  }

  /** The converse of `Grouped`: a term lies in the run of its own popcount. */
  lemma GroupOf(terms: seq<MinTerm>, groups: seq<nat>, n: nat, q: nat)
    requires Grouped(terms, groups, n) && q < |terms|
    ensures |terms[q].value| <= n && groups[|terms[q].value|] <= q < groups[|terms[q].value| + 1]
  {
    var i := 0;
    while groups[i + 1] <= q
      invariant 0 <= i <= n && groups[i] <= q
      decreases n - i
    {
      i := i + 1;
    }
    assert |terms[q].value| == i;
  }

  // ----- combine

  /** The pair `(a, b)` has had its effect, if it is one of those that merge. */
  ghost predicate Recorded(terms: seq<MinTerm>, marks: seq<bool>, res: seq<MinTerm>, a: nat, b: nat)
    requires a < |terms| == |marks| && b < |terms|
  {
    Mergeable(terms[a], terms[b]) ==> marks[a] && marks[b] && terms[a].Combine(terms[b]) in res
  }

  /** Marks and results only grew, and only by what a merge among `terms` justifies. */
  ghost predicate Grown(terms: seq<MinTerm>, marks0: seq<bool>, marks: seq<bool>, res0: seq<MinTerm>,
                        res: seq<MinTerm>) {
    && |marks| == |marks0| == |terms|
    && (forall q :: 0 <= q < |terms| && marks0[q] ==> marks[q])
    && (forall q :: 0 <= q < |terms| && marks[q] ==> marks0[q] || HasPartner(terms, terms[q]))
    && (forall m :: m in res0 ==> m in res)
    && (forall m :: m in res ==> m in res0 || MergeOf(terms, m))
  }

  lemma GrownStep(terms: seq<MinTerm>, marks: seq<bool>, res: seq<MinTerm>, j: nat, k: nat)
    requires |marks| == |terms| && j < |terms| && k < |terms| && Mergeable(terms[j], terms[k])
    ensures Grown(terms, marks, marks[j := true][k := true], res, res + [terms[j].Combine(terms[k])])
  {
    assert HasPartner(terms, terms[j]) && HasPartner(terms, terms[k]);
    assert MergeOf(terms, terms[j].Combine(terms[k]));
  }

  /** Every pair led by a term of smaller popcount, or by one of `from..to`, has been dealt with. */
  ghost predicate RecordedUpTo(terms: seq<MinTerm>, marks: seq<bool>, res: seq<MinTerm>, i: nat, from: nat, to: nat)
    requires |marks| == |terms|
  {
    forall a, b :: 0 <= a < |terms| && 0 <= b < |terms| && (|terms[a].value| < i || from <= a < to) ==>
      Recorded(terms, marks, res, a, b)
  }

  lemma RecordedGrows(terms: seq<MinTerm>, marks0: seq<bool>, marks: seq<bool>, res0: seq<MinTerm>, res: seq<MinTerm>,
                      i: nat, from: nat, j: nat)
    requires Grown(terms, marks0, marks, res0, res) && from <= j < |terms|
    requires RecordedUpTo(terms, marks0, res0, i, from, j)
    requires forall b :: 0 <= b < |terms| ==> Recorded(terms, marks, res, j, b)
    ensures RecordedUpTo(terms, marks, res, i, from, j + 1)
  {
    forall a, b | 0 <= a < |terms| && 0 <= b < |terms| && (|terms[a].value| < i || from <= a < j + 1)
      ensures Recorded(terms, marks, res, a, b)
    {
      if a != j {
        assert Recorded(terms, marks0, res0, a, b);
      }
    }
  }

  lemma RecordedAll(terms: seq<MinTerm>, groups: seq<nat>, n: nat, marks: seq<bool>, res: seq<MinTerm>)
    requires Grouped(terms, groups, n) && |marks| == |terms|
    requires RecordedUpTo(terms, marks, res, n, 0, 0)
    ensures forall m :: MergeOf(terms, m) ==> m in res
    ensures forall q :: 0 <= q < |terms| && HasPartner(terms, terms[q]) ==> marks[q]
  {
    forall a, b | 0 <= a < |terms| && 0 <= b < |terms| && Mergeable(terms[a], terms[b])
      ensures marks[a] && marks[b] && terms[a].Combine(terms[b]) in res
    {
      GroupOf(terms, groups, n, b);
      assert Recorded(terms, marks, res, a, b);
    }
  }

  /** The terms that carry no mark, in order. */
  ghost function Unmarked(ts: seq<MinTerm>, marks: seq<bool>): seq<MinTerm>
    requires |marks| == |ts|
  {
    if ts == [] then []
    else
      var k := |ts| - 1;
      Unmarked(ts[..k], marks[..k]) + if marks[k] then [] else [ts[k]]
  }

  /** If all occurrences of `m` are marked alike, all of them stay or none does. */
  lemma {:induction false} UnmarkedCount(ts: seq<MinTerm>, marks: seq<bool>, m: MinTerm, merged: bool)
    requires |marks| == |ts| && forall q :: 0 <= q < |ts| && ts[q] == m ==> marks[q] == merged
    ensures Count(Unmarked(ts, marks), m) == if merged then 0 else Count(ts, m)
  {
    if ts == [] {
    } else {
      var k := |ts| - 1;
      UnmarkedCount(ts[..k], marks[..k], m, merged);
      assert ts == ts[..k] + [ts[k]];
    }
  }

  class ImplicantTable {
    const n: nat
    const groups: array<nat>
    var marks: seq<bool>
    var terms: seq<MinTerm>

    constructor (n: nat)
      ensures this.n == n && groups.Length == n + 2 && fresh(groups)
      ensures marks == [] && terms == []
    {
      this.n := n;
      groups := new nat[n + 2];
      marks, terms := [], [];
    }

    /** The histogram and its running sum: `groups[c]` becomes the end of group `c`. */
    method SumGroups(minterms: seq<MinTerm>)
      requires groups.Length == n + 2
      requires forall t :: t in minterms ==> t.Valid(n)
      modifies groups
      ensures groups[..] == Ends(minterms, n + 2)
    {
      for c := 0 to n + 2
        invariant forall d :: 0 <= d < c ==> groups[d] == 0
      {
        groups[c] := 0;
      }
      for m := 0 to |minterms|
        invariant forall c :: 0 <= c < n + 2 ==> groups[c] == CountAt(minterms[..m], c)
      {
        PopcountBound(minterms[m], n);
        forall c: nat ensures CountAt(minterms[..m + 1], c)
                           == CountAt(minterms[..m], c) + (if |minterms[m].value| == c then 1 else 0)
        {
          CountAppend(minterms, m, c);
        }
        groups[|minterms[m].value|] := groups[|minterms[m].value|] + 1;
      }
      assert minterms[..|minterms|] == minterms;
      CountBelowZero(minterms);
      for c := 1 to n + 2
        invariant forall d :: 0 <= d < c ==> groups[d] == CountBelow(minterms, d) + CountAt(minterms, d)
        invariant forall d :: c <= d < n + 2 ==> groups[d] == CountAt(minterms, d)
      {
        groups[c] := groups[c - 1] + groups[c];
        CountNext(minterms, c - 1);
      }
    }

    /** The second pass: put every term just below what its group already holds. */
    method Distribute(minterms: seq<MinTerm>)
      requires groups.Length == n + 2 && groups[..] == Ends(minterms, n + 2)
      requires forall t :: t in minterms ==> t.Valid(n)
      requires |terms| == |minterms|
      modifies this`terms, groups
      ensures multiset(terms) == multiset(minterms)
      ensures Grouped(terms, groups[..], n)
    {
      ghost var place: seq<nat> := [];
      for m := 0 to |minterms|
        invariant Counted(minterms, m, groups[..], n + 2)
        invariant Slotted(minterms, m, terms, groups[..], Ends(minterms, n + 2), place)
      {
        DistributeStep(minterms, m, terms, groups[..], place, n);
        ghost var before := groups[..];
        var c := |minterms[m].value|;
        groups[c] := groups[c] - 1;
        assert groups[..] == before[c := before[c] - 1];
        terms := terms[groups[c] := minterms[m]];
        place := place + [groups[c]];
      }
      DistributeEnd(minterms, terms, groups[..], place, n);
    }

    method Fill(minterms: seq<MinTerm>)
      requires groups.Length == n + 2
      requires forall t :: t in minterms ==> t.Valid(n)
      modifies this, groups
      ensures multiset(terms) == multiset(minterms)
      ensures Grouped(terms, groups[..], n)
      ensures marks == Resize(old(marks), |minterms|, false)
    {
      SumGroups(minterms);
      terms := Resize(terms, |minterms|, MinTerm({}, {}));
      marks := Resize(marks, |minterms|, false);
      Distribute(minterms);
    }

    /** The innermost loop: try one term against the next group. */
    method CombineOne(i: nat, j: nat, res0: seq<MinTerm>) returns (res: seq<MinTerm>)
      requires groups.Length == n + 2 && Grouped(terms, groups[..], n) && |marks| == |terms|
      requires i < n && groups[i] <= j < groups[i + 1]
      modifies this`marks
      ensures Grown(terms, old(marks), marks, res0, res)
      ensures forall b :: 0 <= b < |terms| ==> Recorded(terms, marks, res, j, b)
    {
      res := res0;
      forall b | 0 <= b < |terms| && Mergeable(terms[j], terms[b]) ensures groups[i + 1] <= b < groups[i + 2] {
        GroupOf(terms, groups[..], n, b);
      }
      for k := groups[i + 1] to groups[i + 2]
        invariant Grown(terms, old(marks), marks, res0, res)
        invariant forall b :: 0 <= b < k ==> Recorded(terms, marks, res, j, b)
      {
        if terms[j].value <= terms[k].value && terms[j].dash == terms[k].dash {
          GrownStep(terms, marks, res, j, k);
          ghost var marks1, res1 := marks, res;
          marks := marks[j := true];
          marks := marks[k := true];
          res := res + [terms[j].Combine(terms[k])];
          forall b | 0 <= b < k ensures Recorded(terms, marks, res, j, b) {
            assert Recorded(terms, marks1, res1, j, b);
          }
        }
      }
    }

    /** Merge every pair of terms that differ in one bit, marking both. */
    method Combine(res0: seq<MinTerm>) returns (res: seq<MinTerm>)
      requires groups.Length == n + 2 && Grouped(terms, groups[..], n) && |marks| == |terms|
      modifies this`marks
      ensures |marks| == |terms|
      ensures forall m :: m in res <==> m in res0 || MergeOf(terms, m)
      ensures forall q :: 0 <= q < |terms| ==> (marks[q] <==> old(marks)[q] || HasPartner(terms, terms[q]))
    {
      res := res0;
      for i := 0 to n
        invariant Grown(terms, old(marks), marks, res0, res)
        invariant RecordedUpTo(terms, marks, res, i, 0, 0)
      {
        for j := groups[i] to groups[i + 1]
          invariant Grown(terms, old(marks), marks, res0, res)
          invariant RecordedUpTo(terms, marks, res, i, groups[i], j)
        {
          ghost var marks1, res1 := marks, res;
          res := CombineOne(i, j, res);
          RecordedGrows(terms, marks1, marks, res1, res, i, groups[i], j);
        }
        forall q | 0 <= q < |terms| && |terms[q].value| == i ensures groups[i] <= q < groups[i + 1] {
          GroupOf(terms, groups[..], n, q);
        }
      }
      RecordedAll(terms, groups[..], n, marks, res);
    }

    method Primes(res0: seq<MinTerm>) returns (res: seq<MinTerm>)
      requires |marks| == |terms|
      ensures res == res0 + Unmarked(terms, marks)
      ensures forall m :: m in res <==> m in res0 || exists q :: 0 <= q < |terms| && !marks[q] && m == terms[q]
    {
      res := res0;
      for i := 0 to |terms|
        invariant res == res0 + Unmarked(terms[..i], marks[..i])
        invariant forall m :: m in res <==> m in res0 || exists q :: 0 <= q < i && !marks[q] && m == terms[q]
      {
        assert terms[..i + 1][..i] == terms[..i] && marks[..i + 1][..i] == marks[..i];
        if !marks[i] {
          res := res + [terms[i]];
        }
      }
      assert terms[..|terms|] == terms && marks[..|terms|] == marks;
    }
  }
}

/** The wildcard matcher of the test filters (external/argh/doctest.h, wildcmp and matchesAny). */
module Wildcard {

  /** `tolower` in the C locale. */
  function Lower(c: char): char {
    if 'A' <= c <= 'Z' then (c as int + 32) as char else c
  }

  predicate SameChar(a: char, b: char, caseSensitive: bool) {
    if caseSensitive then a == b else Lower(a) == Lower(b)
  }

  /** One pattern character other than `*` accepts `c`. */
  predicate Accepts(w: char, c: char, caseSensitive: bool) {
    w == '?' || SameChar(w, c, caseSensitive)
  }

  /** What a pattern means: `*` is any substring, `?` any one character, the rest themselves. */
  ghost predicate Matches(s: string, pat: string, caseSensitive: bool)
    decreases |pat|
  {
    if pat == "" then s == ""
    else if pat[0] == '*' then exists k :: 0 <= k <= |s| && Matches(s[k..], pat[1..], caseSensitive)
    else s != "" && Accepts(pat[0], s[0], caseSensitive) && Matches(s[1..], pat[1..], caseSensitive)
  }

  ghost predicate MatchesFrom(s: string, i: nat, pat: string, j: nat, cs: bool)
    requires i <= |s| && j <= |pat|
  {
    Matches(s[i..], pat[j..], cs)
  }

  /** The rest of the pattern matches from some start at or after `from`. */
  ghost predicate Later(s: string, from: nat, pat: string, j: nat, cs: bool)
    requires j <= |pat|
  {
    exists k :: from <= k <= |s| && MatchesFrom(s, k, pat, j, cs)
  }

  // ----- unfolding at an index

  lemma FromEnd(s: string, i: nat, pat: string, cs: bool)
    requires i <= |s|
    ensures MatchesFrom(s, i, pat, |pat|, cs) <==> i == |s|
  {
  }

  lemma FromChar(s: string, i: nat, pat: string, j: nat, cs: bool)
    requires i <= |s| && j < |pat| && pat[j] != '*'
    ensures MatchesFrom(s, i, pat, j, cs) <==>
            i < |s| && Accepts(pat[j], s[i], cs) && MatchesFrom(s, i + 1, pat, j + 1, cs)
  {
    if i < |s| {
      assert s[i..][1..] == s[i + 1..];
    }
    assert pat[j..][1..] == pat[j + 1..];
  }

  lemma FromStar(s: string, i: nat, pat: string, j: nat, cs: bool)
    requires i <= |s| && j < |pat| && pat[j] == '*'
    ensures MatchesFrom(s, i, pat, j, cs) <==> Later(s, i, pat, j + 1, cs)
  {
    assert pat[j..][1..] == pat[j + 1..];
    if MatchesFrom(s, i, pat, j, cs) {
      var k :| 0 <= k <= |s[i..]| && Matches(s[i..][k..], pat[j + 1..], cs);
      assert s[i..][k..] == s[i + k..];
      assert MatchesFrom(s, i + k, pat, j + 1, cs);
    }
    if Later(s, i, pat, j + 1, cs) {
      var j' := j + 1;
      var k :| i <= k <= |s| && MatchesFrom(s, k, pat, j', cs);
      assert s[i..][k - i..] == s[k..];
    }
  }

  lemma FromTrailingStar(s: string, i: nat, pat: string, cs: bool)
    requires i <= |s| && pat != "" && pat[|pat| - 1] == '*'
    ensures MatchesFrom(s, i, pat, |pat| - 1, cs)
  {
    FromStar(s, i, pat, |pat| - 1, cs);
    FromEnd(s, |s|, pat, cs);
  }

  /** A match of a star-free stretch consumes one character per pattern character. */
  lemma {:induction false} StarFree(s: string, i: nat, pat: string, j: nat, e: nat, cs: bool)
    requires i <= |s| && j <= e <= |pat| && (forall k :: j <= k < e ==> pat[k] != '*')
    requires MatchesFrom(s, i, pat, j, cs)
    ensures i + (e - j) <= |s| && MatchesFrom(s, i + (e - j), pat, e, cs)
    decreases e - j
  {
    if j == e {
    } else {
      FromChar(s, i, pat, j, cs);
      StarFree(s, i + 1, pat, j + 1, e, cs);
    }
  }

  /** Reaching another star, starts after the current one need not be remembered. */
  lemma ForgetStar(s: string, i: nat, pat: string, mp: nat, j: nat, from: nat, cs: bool)
    requires i <= |s| && mp <= j < |pat| && pat[j] == '*' && (forall k :: mp <= k < j ==> pat[k] != '*')
    requires i < from + (j - mp) && Later(s, from, pat, mp, cs)
    ensures MatchesFrom(s, i, pat, j, cs)
  {
    var k :| from <= k <= |s| && MatchesFrom(s, k, pat, mp, cs);
    StarFree(s, k, pat, mp, j, cs);
    FromStar(s, k + (j - mp), pat, j, cs);
    FromStar(s, i, pat, j, cs);
    var j' := j + 1;
    var m :| k + (j - mp) <= m <= |s| && MatchesFrom(s, m, pat, j', cs);
  }

  /** At the end of the string no later start has enough characters left. */
  lemma NoneLater(s: string, pat: string, mp: nat, j: nat, from: nat, cs: bool)
    requires mp <= j <= |pat| && (forall k :: mp <= k < j ==> pat[k] != '*')
    requires |s| < from + (j - mp)
    ensures !Later(s, from, pat, mp, cs)
  {
    if Later(s, from, pat, mp, cs) {
      var k :| from <= k <= |s| && MatchesFrom(s, k, pat, mp, cs);
      StarFree(s, k, pat, mp, j, cs);
      assert false;
    }
  }

  lemma LaterStep(s: string, from: nat, pat: string, j: nat, cs: bool)
    requires j <= |pat| && from <= |s|
    ensures Later(s, from, pat, j, cs) <==> MatchesFrom(s, from, pat, j, cs) || Later(s, from + 1, pat, j, cs)
  {
  }

  // ----- the matcher

  /** With the string used up, only stars may be left of the pattern. */
  method SkipStars(ghost s: string, pat: string, from: nat, ghost cs: bool) returns (r: bool)
    requires from <= |pat|
    ensures r <==> MatchesFrom(s, |s|, pat, from, cs)
  {
    var w := from;
    while w < |pat| && pat[w] == '*'
      invariant 0 <= w <= |pat|
      invariant MatchesFrom(s, |s|, pat, from, cs) <==> MatchesFrom(s, |s|, pat, w, cs)
    {
      FromStar(s, |s|, pat, w, cs);
      w := w + 1;
      LaterStep(s, |s|, pat, w, cs);
    }
    if w < |pat| {
      FromChar(s, |s|, pat, w, cs);
    } else {
      FromEnd(s, |s|, pat, cs);
    }
    return w == |pat|;
  }

  /** Behind the first star: the rest of the string is held against the rest of the pattern, and if `started`, the
      stretch from `mp` on may yet be tried from `cp` on. */
  ghost predicate Tracking(s: string, pat: string, cs: bool, i: nat, w: nat, cp: nat, mp: nat, started: bool) {
    && mp <= w <= |pat| && i <= |s|
    && (i < |s| && !started ==> w < |pat| && pat[w] == '*')
    && (started ==> cp <= |s| + 1 && i + 1 == cp + (w - mp) && forall k :: mp <= k < w ==> pat[k] != '*')
    && (Matches(s, pat, cs) <==> MatchesFrom(s, i, pat, w, cs) || (started && Later(s, cp, pat, mp, cs)))
  }

  lemma AtStar(s: string, pat: string, cs: bool, i: nat, w: nat, cp: nat, mp: nat, started: bool)
    requires Tracking(s, pat, cs, i, w, cp, mp, started) && i < |s| && w < |pat| && pat[w] == '*'
    ensures if w + 1 == |pat| then Matches(s, pat, cs) else Tracking(s, pat, cs, i, w + 1, i + 1, w + 1, true)
  {
    if started && Later(s, cp, pat, mp, cs) {
      ForgetStar(s, i, pat, mp, w, cp, cs);
    }
    if w + 1 == |pat| {
      FromTrailingStar(s, i, pat, cs);
    } else {
      FromStar(s, i, pat, w, cs);
      LaterStep(s, i, pat, w + 1, cs);
    }
  }

  lemma AtMatch(s: string, pat: string, cs: bool, i: nat, w: nat, cp: nat, mp: nat, started: bool)
    requires Tracking(s, pat, cs, i, w, cp, mp, started) && i < |s| && w < |pat| && pat[w] != '*'
    requires SameChar(pat[w], s[i], cs) || pat[w] == '?'
    ensures Tracking(s, pat, cs, i + 1, w + 1, cp, mp, started)
  {
    FromChar(s, i, pat, w, cs);
  }

  lemma AtMismatch(s: string, pat: string, cs: bool, i: nat, w: nat, cp: nat, mp: nat, started: bool)
    requires Tracking(s, pat, cs, i, w, cp, mp, started) && i < |s|
    requires w == |pat| || (pat[w] != '*' && !SameChar(pat[w], s[i], cs) && pat[w] != '?')
    ensures Tracking(s, pat, cs, cp, mp, cp + 1, mp, started)
  {
    if w == |pat| {
      FromEnd(s, i, pat, cs);
    } else {
      FromChar(s, i, pat, w, cs);
    }
    LaterStep(s, cp, pat, mp, cs);
  }

  lemma AtEnd(s: string, pat: string, cs: bool, w: nat, cp: nat, mp: nat, started: bool)
    requires Tracking(s, pat, cs, |s|, w, cp, mp, started)
    ensures Matches(s, pat, cs) <==> MatchesFrom(s, |s|, pat, w, cs)
  {
    if started {
      NoneLater(s, pat, mp, w, cp, cs);
    }
  }

  method WildCmp(s: string, pat: string, caseSensitive: bool) returns (r: bool)
    ensures r <==> Matches(s, pat, caseSensitive)
  {
    var cs := caseSensitive;
    var i, w := 0, 0;
    assert s[0..] == s && pat[0..] == pat;
    while i < |s| && !(w < |pat| && pat[w] == '*')
      invariant 0 <= i <= |s| && 0 <= w <= |pat|
      invariant Matches(s, pat, cs) <==> MatchesFrom(s, i, pat, w, cs)
    {
      if w == |pat| {
        FromEnd(s, i, pat, cs);
        return false;
      }
      FromChar(s, i, pat, w, cs);
      if !SameChar(pat[w], s[i], cs) && pat[w] != '?' {
        return false;
      }
      w, i := w + 1, i + 1;
    }

    var cp, mp := i + 1, w;
    ghost var started := false;
    while i < |s|
      invariant 0 <= i && 0 <= w && 0 <= mp && Tracking(s, pat, cs, i, w, cp, mp, started)
      decreases |pat| - mp + (if started then 0 else 1), |s| + 1 - cp, |s| - i
    {
      if w < |pat| && pat[w] == '*' {
        AtStar(s, pat, cs, i, w, cp, mp, started);
        w := w + 1;
        if w == |pat| {
          return true;
        }
        mp, cp, started := w, i + 1, true;
      } else if w < |pat| && (SameChar(pat[w], s[i], cs) || pat[w] == '?') {
        AtMatch(s, pat, cs, i, w, cp, mp, started);
        w, i := w + 1, i + 1;
      } else {
        AtMismatch(s, pat, cs, i, w, cp, mp, started);
        w, i, cp := mp, cp, cp + 1;
      }
    }
    AtEnd(s, pat, cs, w, cp, mp, started);
    r := SkipStars(s, pat, w, cs);
  }

  ghost predicate MatchesSome(name: string, filters: seq<string>, matchEmpty: bool, cs: bool) {
    (filters == [] && matchEmpty) || exists f :: f in filters && Matches(name, f, cs)
  }

  method MatchesAny(name: string, filters: seq<string>, matchEmpty: bool, caseSensitive: bool) returns (r: bool)
    ensures r <==> MatchesSome(name, filters, matchEmpty, caseSensitive)
  {
    if |filters| == 0 && matchEmpty {
      return true;
    }
    for i := 0 to |filters|
      invariant forall k :: 0 <= k < i ==> !Matches(name, filters[k], caseSensitive)
    {
      var m := WildCmp(name, filters[i], caseSensitive);
      if m {
        return true;
      }
    }
    return false;
  }

  // ----- what the meaning of a pattern comes to

  /** The same character, or the two cases of one of the letters with the codes 65 to 90. */
  ghost predicate SameLetter(a: char, b: char) {
    || a == b
    || (65 <= a as int <= 90 && b as int == a as int + 32)
    || (65 <= b as int <= 90 && a as int == b as int + 32)
  }

  /** What one character of the pattern says, written out. */
  ghost predicate Says(w: char, c: char, cs: bool) {
    w == '?' || if cs then c == w else SameLetter(c, w)
  }

  lemma AcceptsIs(w: char, c: char, cs: bool)
    ensures Accepts(w, c, cs) <==> Says(w, c, cs)
  {
  }

  ghost predicate AllSay(pat: string, s: string, cs: bool) {
    |s| == |pat| && forall i :: 0 <= i < |pat| ==> Says(pat[i], s[i], cs)
  }

  lemma AllSayStep(pat: string, s: string, cs: bool)
    requires pat != "" && s != ""
    ensures AllSay(pat, s, cs) <==> Says(pat[0], s[0], cs) && AllSay(pat[1..], s[1..], cs)
  {
    if Says(pat[0], s[0], cs) && AllSay(pat[1..], s[1..], cs) {
      forall i | 0 < i < |pat| ensures Says(pat[i], s[i], cs) {
        assert Says(pat[1..][i - 1], s[1..][i - 1], cs);
      }
    }
  }

  /** A pattern without `*` is compared place by place. */
  lemma {:induction false} StarlessMatches(s: string, pat: string, cs: bool)
    requires '*' !in pat
    ensures Matches(s, pat, cs) <==> AllSay(pat, s, cs)
    decreases |pat|
  {
    if pat == "" || s == "" {
    } else {
      AcceptsIs(pat[0], s[0], cs);
      StarlessMatches(s[1..], pat[1..], cs);
      AllSayStep(pat, s, cs);
    }
  }

  /** So without `?` either, a case-sensitive match is equality, and a case-insensitive one is equality up to the
      case of the letters A to Z. */
  lemma PlainMatches(s: string, pat: string)
    requires '*' !in pat && '?' !in pat
    ensures Matches(s, pat, true) <==> s == pat
    ensures Matches(s, pat, false) <==> |s| == |pat| && forall i :: 0 <= i < |s| ==> SameLetter(s[i], pat[i])
  {
    StarlessMatches(s, pat, true);
    StarlessMatches(s, pat, false);
    forall i | 0 <= i < |pat| && |s| == |pat|
      ensures Says(pat[i], s[i], true) <==> s[i] == pat[i]
      ensures Says(pat[i], s[i], false) <==> SameLetter(s[i], pat[i])
    {
      assert pat[i] in pat;
    }
  }

  ghost predicate MatchesSplit(s: string, p: string, q: string, cs: bool) {
    exists k :: 0 <= k <= |s| && Matches(s[..k], p, cs) && Matches(s[k..], q, cs)
  }

  lemma SplitAt(s: string, p: string, q: string, cs: bool, k: nat)
    requires k <= |s| && Matches(s[..k], p, cs) && Matches(s[k..], q, cs)
    ensures MatchesSplit(s, p, q, cs)
  {
  }

  lemma CutAfterStar(s: string, p: string, q: string, cs: bool, k: nat)
    requires p != "" && p[0] == '*' && k <= |s| && Matches(s[..k], p, cs) && Matches(s[k..], q, cs)
    ensures exists j :: 0 <= j <= |s| && MatchesSplit(s[j..], p[1..], q, cs)
  {
    var j :| 0 <= j <= k && Matches(s[..k][j..], p[1..], cs);
    assert s[..k][j..] == s[j..][..k - j] && s[j..][k - j..] == s[k..];
    SplitAt(s[j..], p[1..], q, cs, k - j);
  }

  lemma JoinAfterStar(s: string, p: string, q: string, cs: bool, j: nat)
    requires p != "" && p[0] == '*' && j <= |s| && MatchesSplit(s[j..], p[1..], q, cs)
    ensures MatchesSplit(s, p, q, cs)
  {
    var k :| 0 <= k <= |s| - j && Matches(s[j..][..k], p[1..], cs) && Matches(s[j..][k..], q, cs);
    assert s[j..][..k] == s[..j + k][j..] && s[j..][k..] == s[j + k..];
    assert Matches(s[..j + k], p, cs);
    SplitAt(s, p, q, cs, j + k);
  }

  lemma SplitAfterStar(s: string, p: string, q: string, cs: bool)
    requires p != "" && p[0] == '*'
    ensures MatchesSplit(s, p, q, cs) <==> exists j :: 0 <= j <= |s| && MatchesSplit(s[j..], p[1..], q, cs)
  {
    if MatchesSplit(s, p, q, cs) {
      var k :| 0 <= k <= |s| && Matches(s[..k], p, cs) && Matches(s[k..], q, cs);
      CutAfterStar(s, p, q, cs, k);
    }
    if j :| 0 <= j <= |s| && MatchesSplit(s[j..], p[1..], q, cs) {
      JoinAfterStar(s, p, q, cs, j);
    }
  }

  lemma CutAfterChar(s: string, p: string, q: string, cs: bool, k: nat)
    requires p != "" && p[0] != '*' && k <= |s| && Matches(s[..k], p, cs) && Matches(s[k..], q, cs)
    ensures s != "" && Accepts(p[0], s[0], cs) && MatchesSplit(s[1..], p[1..], q, cs)
  {
    assert s[..k][1..] == s[1..][..k - 1] && s[1..][k - 1..] == s[k..];
    SplitAt(s[1..], p[1..], q, cs, k - 1);
  }

  lemma JoinAfterChar(s: string, p: string, q: string, cs: bool)
    requires p != "" && p[0] != '*' && s != "" && Accepts(p[0], s[0], cs) && MatchesSplit(s[1..], p[1..], q, cs)
    ensures MatchesSplit(s, p, q, cs)
  {
    var k :| 0 <= k <= |s| - 1 && Matches(s[1..][..k], p[1..], cs) && Matches(s[1..][k..], q, cs);
    assert s[..k + 1][1..] == s[1..][..k] && s[1..][k..] == s[k + 1..];
    assert Matches(s[..k + 1], p, cs);
    SplitAt(s, p, q, cs, k + 1);
  }

  lemma SplitAfterChar(s: string, p: string, q: string, cs: bool)
    requires p != "" && p[0] != '*'
    ensures MatchesSplit(s, p, q, cs) <==> s != "" && Accepts(p[0], s[0], cs) && MatchesSplit(s[1..], p[1..], q, cs)
  {
    if MatchesSplit(s, p, q, cs) {
      var k :| 0 <= k <= |s| && Matches(s[..k], p, cs) && Matches(s[k..], q, cs);
      CutAfterChar(s, p, q, cs, k);
    }
    if s != "" && Accepts(p[0], s[0], cs) && MatchesSplit(s[1..], p[1..], q, cs) {
      JoinAfterChar(s, p, q, cs);
    }
  }

  /** Two patterns in a row match what can be cut into a match of each. */
  lemma {:induction false} MatchesAppend(s: string, p: string, q: string, cs: bool)
    ensures Matches(s, p + q, cs) <==> MatchesSplit(s, p, q, cs)
    decreases |p|
  {
    if p == "" {
      assert p + q == q && s[0..] == s && s[..0] == "";
      if Matches(s, q, cs) {
        SplitAt(s, p, q, cs, 0);
      }
    } else {
      assert (p + q)[1..] == p[1..] + q;
      if p[0] == '*' {
        forall k | 0 <= k <= |s| ensures Matches(s[k..], p[1..] + q, cs) <==> MatchesSplit(s[k..], p[1..], q, cs) {
          MatchesAppend(s[k..], p[1..], q, cs);
        }
        SplitAfterStar(s, p, q, cs);
      } else {
        if s != "" {
          MatchesAppend(s[1..], p[1..], q, cs);
        }
        SplitAfterChar(s, p, q, cs);
      }
    }
  }

  /** A lone `*` matches everything. */
  lemma StarMatches(s: string, cs: bool)
    ensures Matches(s, "*", cs)
  {
    assert s[|s|..] == "" && "*"[1..] == "";
  }

  /** What matches exactly also matches if case does not count. */
  lemma {:induction false} CaseMatters(s: string, pat: string)
    requires Matches(s, pat, true)
    ensures Matches(s, pat, false)
    decreases |pat|
  {
    if pat == "" {
    } else if pat[0] == '*' {
      var k :| 0 <= k <= |s| && Matches(s[k..], pat[1..], true);
      CaseMatters(s[k..], pat[1..]);
    } else {
      CaseMatters(s[1..], pat[1..]);
    }
  }
}

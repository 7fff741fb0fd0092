// Where the greedy matcher of appparse.cpp falls short: every search string that is
// not searchable misses some name.

module FunctionMatcherLimits {
  import opened Glob
  import opened FunctionMatcher

  // ---- Names that a pattern matches with as few characters as possible ----

  lemma {:induction false} StripLeads(fold: Unit -> Unit, p: seq<Unit>, a: nat, i: nat, s: seq<Unit>, j: nat, k: nat)
    requires a <= i <= |p| && j <= k <= |s| && s[j..k] == Strip(p[a..i]) && MatchesFrom(fold, p, i, s, k)
    ensures MatchesFrom(fold, p, a, s, j)
    decreases i - a
  {
    if a < i {
      StripOne(p, a, i);
      if p[a] == STAR {
        StripLeads(fold, p, a + 1, i, s, j, k);
        assert MatchesFrom(fold, p, a + 1, s, j);
      } else {
        assert s[j] == s[j..k][0] && s[j + 1..k] == s[j..k][1..];
        StripLeads(fold, p, a + 1, i, s, j + 1, k);
      }
    }
  }

  lemma StripOne(p: seq<Unit>, a: nat, i: nat)
    requires a < i <= |p|
    ensures Strip(p[a..i]) ==
            (if p[a] == STAR then [] else if p[a] == QUESTION then [97] else [p[a]]) + Strip(p[a + 1..i])
    ensures p[a..|p|] == p[a..]
  {
    assert p[a..i][1..] == p[a + 1..i];
  }

  lemma {:induction false} StripWord(p: seq<Unit>, a: nat, e: nat, i: nat)
    requires a <= e <= i <= |p| && forall x :: a <= x < e ==> IsLiteral(p[x])
    ensures Strip(p[a..i]) == p[a..e] + Strip(p[e..i])
    decreases e - a
  {
    if a < e {
      StripOne(p, a, i);
      StripWord(p, a + 1, e, i);
      assert p[a..e] == [p[a]] + p[a + 1..e];
    } else {
      assert p[a..e] == [];
    }
  }

  lemma {:induction false} MatchNeeds(fold: Unit -> Unit, p: seq<Unit>, a: nat, s: seq<Unit>, j: nat)
    requires a <= |p| && j <= |s| && MatchesFrom(fold, p, a, s, j)
    ensures |s| - j >= |Strip(p[a..])|
    decreases |p| - a
  {
    if a < |p| {
      StripOne(p, a, |p|);
      assert p[a + 1..|p|] == p[a + 1..];
      if p[a] == STAR {
        var k := StarSplits(fold, p, a, s, j);
        MatchNeeds(fold, p, a + 1, s, k);
      } else {
        MatchNeeds(fold, p, a + 1, s, j + 1);
      }
    }
  }

  // ---- What the greedy matcher does with them ----

  lemma {:induction false} ScanAlong(fold: Unit -> Unit, p: seq<Unit>, q: nat, c: nat, d: nat, s: seq<Unit>, f: nat)
    requires q < |p| && q <= c <= d <= WordEnd(p, q) && f <= |s| && Spells(fold, p, c, d, s, f)
    ensures f + d - c <= |s| && Scan(fold, p, q, c, s, f) == Scan(fold, p, q, d, s, f + d - c)
    decreases d - c
  {
    if c < d {
      assert IsLiteral(p[c]) && fold(p[c]) == fold(s[c - c + f]);
      assert Spells(fold, p, c + 1, d, s, f + 1);
      ScanAlong(fold, p, q, c + 1, d, s, f + 1);
    }
  }

  // It goes through the shortest match of what stands before a "*".
  lemma {:induction false} Follow(fold: Unit -> Unit, p: seq<Unit>, a: nat, i: nat, s: seq<Unit>, j: nat, k: nat)
    requires a <= i < |p| && p[i] == STAR && j <= k <= |s| && s[j..k] == Strip(p[a..i])
    requires Greedy(fold, p, a, s, j)
    ensures Greedy(fold, p, i, s, k)
    decreases i - a
  {
    if a < i {
      StripOne(p, a, i);
      if p[a] == STAR {
        hide Strip, Greedy;
        FollowStar(fold, p, a, i, s, j, k);
        Follow(fold, p, WordEnd(p, a + 1), i, s, j + (WordEnd(p, a + 1) - a - 1), k);
      } else {
        assert s[j + 1..k] == s[j..k][1..];
        Follow(fold, p, a + 1, i, s, j + 1, k);
      }
    }
  }

  // Past another "*" and its word, which is found at once.
  lemma FollowStar(fold: Unit -> Unit, p: seq<Unit>, a: nat, i: nat, s: seq<Unit>, j: nat, k: nat)
    requires a < i < |p| && p[a] == STAR && p[i] == STAR && j <= k <= |s| && s[j..k] == Strip(p[a..i])
    requires Greedy(fold, p, a, s, j)
    ensures var e := WordEnd(p, a + 1);
            var f := j + (e - a - 1);
            e <= i && f <= k && s[f..k] == Strip(p[e..i]) && Greedy(fold, p, e, s, f)
  {
    hide Strip, Spells;
    var e := WordEnd(p, a + 1);
    StripOne(p, a, i);
    StripWord(p, a + 1, e, i);
    SpelledThere(fold, p, a + 1, e, s, j, k, Strip(p[e..i]));
    ScanAlong(fold, p, a + 1, a + 1, e, s, j);
  }

  lemma SpelledThere(fold: Unit -> Unit, p: seq<Unit>, q: nat, e: nat, s: seq<Unit>, j: nat, k: nat, rest: seq<Unit>)
    requires q <= e <= |p| && j <= k <= |s| && s[j..k] == p[q..e] + rest
    ensures Spells(fold, p, q, e, s, j) && j + (e - q) <= k && s[j + (e - q)..k] == rest
  {
    var w := p[q..e];
    assert s[j + |w|..k] == s[j..k][|w|..];
    forall x | q <= x < e
      ensures p[x] == s[x - q + j]
    {
      assert s[j..k][x - q] == w[x - q];
    }
  }

  // After a partial match that starts too early there is not enough left of the name.
  lemma LostMatch(fold: Unit -> Unit, p: seq<Unit>, i: nat, c: nat, s: seq<Unit>, k: nat)
    requires KeepsNul(fold) && i + 1 < |p| && p[i] == STAR && i + 1 < c <= WordEnd(p, i + 1)
    requires c < WordEnd(p, i + 1) || c == |p|
    requires Spells(fold, p, i + 1, c, s, k) && k + (c - i - 1) < |s|
    requires c == |p| || fold(s[k + (c - i - 1)]) != fold(p[c])
    requires |s| - (k + (c - i - 1)) < |Strip(p[i + 1..])|
    ensures !Greedy(fold, p, i, s, k)
  {
    var q, f := i + 1, k + (c - i - 1);
    ScanAlong(fold, p, q, q, c, s, k);
    StripOne(p, i, |p|);
    assert p[q..|p|] == p[q..];
    if Scan(fold, p, q, q, s, f) {
      ScanIsSound(fold, p, q, q, s, f, f);
      MatchNeeds(fold, p, i, s, f);
    }
  }

  // Question marks take one character each, and what follows them is compared with the next one.
  lemma {:induction false} RunIsRigid(fold: Unit -> Unit, p: seq<Unit>, e: nat, d: nat, s: seq<Unit>, f: nat)
    requires e <= d <= |p| && f <= |s| && (forall x :: e <= x < d ==> p[x] == QUESTION) && (d < |p| ==> IsLiteral(p[d]))
    requires Greedy(fold, p, e, s, f)
    ensures if d == |p| then |s| - f == d - e else f + (d - e) < |s| && fold(s[f + (d - e)]) == fold(p[d])
    decreases d - e
  {
    if e < d {
      RunIsRigid(fold, p, e + 1, d, s, f + 1);
    }
  }

  // ---- Names that are missed ----

  ghost predicate Misses(fold: Unit -> Unit, p: seq<Unit>, s: seq<Unit>) {
    IsText(s) && Matches(fold, p, s) && !Greedy(fold, p, 0, s, 0)
  }

  // The shortest match, but for some characters that the i-th character, a "*", has to stand for.
  function Longer(p: seq<Unit>, i: nat, mid: seq<Unit>): seq<Unit>
    requires i < |p|
  {
    Strip(p[..i]) + mid + Strip(p[i + 1..])
  }

  lemma LongerIsMissed(fold: Unit -> Unit, p: seq<Unit>, i: nat, mid: seq<Unit>)
    requires IsText(p) && IsText(mid) && i < |p| && p[i] == STAR
    requires !Greedy(fold, p, i, Longer(p, i, mid), |Strip(p[..i])|)
    ensures Misses(fold, p, Longer(p, i, mid))
  {
    hide Strip, Greedy;
    var s, k, next := Longer(p, i, mid), |Strip(p[..i])|, i + 1;
    assert s[k + |mid|..] == Strip(p[i + 1..]);
    StripMatches(fold, p, next, s, k + |mid|);
    assert MatchesFrom(fold, p, i, s, k);
    assert s[0..k] == Strip(p[0..i]);
    StripLeads(fold, p, 0, i, s, 0, k);
    if Greedy(fold, p, 0, s, 0) {
      Follow(fold, p, 0, i, s, 0, k);
    }
    assert IsText(p[..i]) && IsText(p[i + 1..]);
  }

  // Where the word differs from itself moved to m, or ends.
  lemma {:induction false} FirstDifference(fold: Unit -> Unit, p: seq<Unit>, q: nat, m: nat, from: nat) returns (c: nat)
    requires q <= |p| && q < m <= from <= WordEnd(p, q)
    ensures from <= c <= WordEnd(p, q)
    ensures forall x :: from <= x < c ==> fold(p[x]) == fold(p[x - m + q])
    ensures c < WordEnd(p, q) ==> fold(p[c]) != fold(p[c - m + q])
    decreases WordEnd(p, q) - from
  {
    if from == WordEnd(p, q) || fold(p[from]) != fold(p[from - m + q]) {
      c := from;
    } else {
      c := FirstDifference(fold, p, q, m, from + 1);
    }
  }

  // A word whose first character comes again, without going on as it began, or at the end of the pattern.
  lemma BadWordMisses(fold: Unit -> Unit, p: seq<Unit>, i: nat, m: nat, x: nat) returns (s: seq<Unit>)
    requires KeepsNul(fold) && IsText(p) && i < |p| && p[i] == STAR
    requires i + 1 < m < WordEnd(p, i + 1) && fold(p[m]) == fold(p[i + 1])
    requires WordEnd(p, i + 1) == |p| || (x < WordEnd(p, i + 1) && Breaks(fold, p, i + 1, m, x))
    ensures Misses(fold, p, s)
  {
    hide Greedy, MatchesFrom, Strip, Spells;
    var q, k := i + 1, |Strip(p[..i])|;
    var c := FirstDifference(fold, p, q, m, m);
    s := Longer(p, i, p[q..m]);
    LongerSpells(fold, p, i, m, c);
    LostMatch(fold, p, i, c, s, k);
    LongerIsMissed(fold, p, i, p[q..m]);
  }

  // What the word is compared with: its beginning up to m, and then itself.
  lemma LongerSpells(fold: Unit -> Unit, p: seq<Unit>, i: nat, m: nat, c: nat)
    requires i < |p| && i + 1 < m < c <= WordEnd(p, i + 1)
    requires forall x :: m <= x < c ==> fold(p[x]) == fold(p[x - m + i + 1])
    ensures var s, k, f := Longer(p, i, p[i + 1..m]), |Strip(p[..i])|, |Strip(p[..i])| + (c - i - 1);
            && Spells(fold, p, i + 1, c, s, k) && f < |s| && |s| - f < |Strip(p[i + 1..])|
            && (c < WordEnd(p, i + 1) ==> s[f] == p[c - m + i + 1])
  {
    hide Strip, Longer;
    var q, k := i + 1, |Strip(p[..i])|;
    var s := Longer(p, i, p[q..m]);
    RestAt(p, q);
    forall x | q <= x < c
      ensures x - q + k < |s| && fold(p[x]) == fold(s[x - q + k])
    {
      LongerAt(p, i, p[q..m], x - q);
    }
    LongerAt(p, i, p[q..m], c - q);
  }

  lemma LongerAt(p: seq<Unit>, i: nat, mid: seq<Unit>, x: nat)
    requires i < |p|
    ensures var s, k, rest := Longer(p, i, mid), |Strip(p[..i])|, Strip(p[i + 1..]);
            && |s| == k + |mid| + |rest|
            && (x < |mid| ==> s[x + k] == mid[x])
            && (|mid| <= x < |mid| + |rest| ==> s[x + k] == rest[x - |mid|])
  {
    hide Strip;
  }

  lemma RestAt(p: seq<Unit>, q: nat)
    requires q <= |p|
    ensures |Strip(p[q..])| >= WordEnd(p, q) - q
    ensures forall x :: 0 <= x < WordEnd(p, q) - q ==> Strip(p[q..])[x] == p[q + x]
  {
    hide Strip;
    var e := WordEnd(p, q);
    StripWord(p, q, e, |p|);
    assert p[q..|p|] == p[q..];
  }

  // A word with something behind it that has to follow at once.
  lemma BadRestMisses(fold: Unit -> Unit, p: seq<Unit>, i: nat) returns (s: seq<Unit>)
    requires KeepsNul(fold) && IsText(p) && i < |p| && p[i] == STAR && fold(97) != fold(98)
    requires WordEnd(p, i + 1) < |p| && !IsSlack(p, WordEnd(p, i + 1))
    ensures Misses(fold, p, s)
  {
    hide Greedy, MatchesFrom, Strip, Longer;
    var q, k := i + 1, |Strip(p[..i])|;
    var e := WordEnd(p, q);
    var d := SlackEnd(p, e);
    var y: Unit := if d < |p| && fold(p[d]) == fold(97) then 98 else 97;
    var mid: seq<Unit> := p[q..e] + seq<Unit>(d - e + 1, _ => y);
    s := Longer(p, i, mid);
    forall x | q <= x < e
      ensures x - q + k < |s| && p[x] == s[x - q + k]
    {
      LongerAt(p, i, mid, x - q);
    }
    LongerAt(p, i, mid, d - q);
    if Greedy(fold, p, i, s, k) {
      GreedyScans(fold, p, i, s, k);
      RestLength(p, q, e, d);
      RunIsRigid(fold, p, e, d, s, k + e - q);
    }
    LongerIsMissed(fold, p, i, mid);
  }

  lemma {:induction false} SlackEnd(p: seq<Unit>, e: nat) returns (d: nat)
    requires e < |p| && !IsSlack(p, e) && !IsLiteral(p[e])
    ensures e < d <= |p| && (forall x :: e <= x < d ==> p[x] == QUESTION) && (d < |p| ==> IsLiteral(p[d]))
    decreases |p| - e
  {
    if e + 1 == |p| || IsLiteral(p[e + 1]) {
      d := e + 1;
    } else {
      d := SlackEnd(p, e + 1);
    }
  }

  lemma GreedyScans(fold: Unit -> Unit, p: seq<Unit>, i: nat, s: seq<Unit>, k: nat)
    requires i + 1 < |p| && p[i] == STAR && k < |s| && Greedy(fold, p, i, s, k)
    requires WordEnd(p, i + 1) < |p| && Spells(fold, p, i + 1, WordEnd(p, i + 1), s, k)
    ensures k + WordEnd(p, i + 1) - (i + 1) <= |s|
    ensures Greedy(fold, p, WordEnd(p, i + 1), s, k + WordEnd(p, i + 1) - (i + 1))
  {
    ScanAlong(fold, p, i + 1, i + 1, WordEnd(p, i + 1), s, k);
  }

  lemma RestLength(p: seq<Unit>, q: nat, e: nat, d: nat)
    requires q <= e <= d <= |p| && (forall x :: q <= x < e ==> IsLiteral(p[x]))
             && forall x :: e <= x < d ==> p[x] == QUESTION
    ensures |Strip(p[q..])| >= d - q
  {
    assert p[q..|p|] == p[q..] && p[e..|p|] == p[e..];
    StripWord(p, q, e, |p|);
    RunLength(p, e, d);
  }

  lemma {:induction false} RunLength(p: seq<Unit>, e: nat, d: nat)
    requires e <= d <= |p| && forall x :: e <= x < d ==> p[x] == QUESTION
    ensures |Strip(p[e..])| >= d - e
    decreases d - e
  {
    if e < d {
      assert p[e..|p|] == p[e..] && p[e + 1..|p|] == p[e + 1..];
      StripOne(p, e, |p|);
      RunLength(p, e + 1, d);
    }
  }

  // Two stars at the end: the shortest match is used up before the last is looked at.
  lemma TwoStarsMiss(fold: Unit -> Unit, p: seq<Unit>) returns (s: seq<Unit>)
    requires IsText(p) && EndsInTwoStars(p)
    ensures Misses(fold, p, s)
  {
    var i := |p| - 2;
    s := Strip(p[..i]);
    assert MatchesFrom(fold, p, i + 2, s, |s|);
    assert MatchesFrom(fold, p, i + 1, s, |s|);
    assert MatchesFrom(fold, p, i, s, |s|);
    assert s[0..|s|] == Strip(p[0..i]);
    StripLeads(fold, p, 0, i, s, 0, |s|);
    if Greedy(fold, p, 0, s, 0) {
      Follow(fold, p, 0, i, s, 0, |s|);
    }
    assert IsText(p[..i]);
  }

  lemma UnsearchableMisses(fold: Unit -> Unit, p: seq<Unit>) returns (s: seq<Unit>)
    requires KeepsNul(fold) && IsText(p) && !IsSearchable(fold, p) && fold(97) != fold(98)
    ensures Misses(fold, p, s)
  {
    if EndsInTwoStars(p) {
      s := TwoStarsMiss(fold, p);
    } else {
      var i :| 0 <= i < |p| && p[i] == STAR && !IsGood(fold, p, i);
      s := BadStarMisses(fold, p, i);
    }
  }

  lemma BadStarMisses(fold: Unit -> Unit, p: seq<Unit>, i: nat) returns (s: seq<Unit>)
    requires KeepsNul(fold) && IsText(p) && i < |p| && p[i] == STAR && !IsGood(fold, p, i) && fold(97) != fold(98)
    ensures Misses(fold, p, s)
  {
    hide Misses, IsPeriodic, FirstIsUnique, IsSlack;
    var e := WordEnd(p, i + 1);
    if e == |p| {
      var m := ComesAgain(fold, p, i + 1, e);
      s := BadWordMisses(fold, p, i, m, m);
    } else if !IsSlack(p, e) {
      s := BadRestMisses(fold, p, i);
    } else {
      var m, x := GoesOnOtherwise(fold, p, i + 1, e);
      s := BadWordMisses(fold, p, i, m, x);
    }
  }

  lemma ComesAgain(fold: Unit -> Unit, p: seq<Unit>, i: nat, e: nat) returns (m: nat)
    requires i <= e <= |p| && !FirstIsUnique(fold, p, i, e)
    ensures i < m < e && fold(p[m]) == fold(p[i])
  {
    m :| i < m < e && fold(p[m]) == fold(p[i]);
  }

  lemma GoesOnOtherwise(fold: Unit -> Unit, p: seq<Unit>, i: nat, e: nat) returns (m: nat, x: nat)
    requires i <= e <= |p| && !IsPeriodic(fold, p, i, e)
    ensures x < e && Breaks(fold, p, i, m, x)
  {
    m, x :| x < e && Breaks(fold, p, i, m, x);
  }

  // The main result: the greedy matcher agrees with the meaning of the search string on all names exactly if the
  // string is searchable; an alphabet that folds into one character alone would leave nothing to tell apart.
  lemma ExactIffSearchable(fold: Unit -> Unit, p: seq<Unit>)
    requires KeepsNul(fold) && IsText(p) && fold(97) != fold(98)
    ensures IsSearchable(fold, p) <==>
            forall s: seq<Unit> :: IsText(s) ==> (Greedy(fold, p, 0, s, 0) <==> Matches(fold, p, s))
  {
    hide Greedy, MatchesFrom, IsSearchable;
    if IsSearchable(fold, p) {
      forall s: seq<Unit> | IsText(s)
        ensures Greedy(fold, p, 0, s, 0) <==> Matches(fold, p, s)
      {
        ExactIfSearchable(fold, p, s);
      }
    } else {
      var s := UnsearchableMisses(fold, p);
    }
  }

  // For example "*aab" misses "aaab", because nothing backs up into a partial match.
  lemma GreedyMissesAMatch(fold: Unit -> Unit, p: seq<Unit>, s: seq<Unit>)
    requires fold(97) != fold(98) && p == [STAR, 97, 97, 98] && s == [97, 97, 97, 98]
    ensures Misses(fold, p, s)
  {
    assert MatchesFrom(fold, p, 3, s, 3);
    assert MatchesFrom(fold, p, 1, s, 1);
    assert !Scan(fold, p, 1, 1, s, 4);
    assert !Scan(fold, p, 1, 1, s, 3);
    assert !Scan(fold, p, 1, 2, s, 3);
    assert !Scan(fold, p, 1, 1, s, 2);
    assert !Scan(fold, p, 1, 3, s, 2);
    assert !Scan(fold, p, 1, 2, s, 1);
    assert !Scan(fold, p, 1, 1, s, 0);
  }
}

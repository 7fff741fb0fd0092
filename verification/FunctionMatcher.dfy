// appparse/appparse.cpp, MatchFunction: a greedy, non-backtracking wildcard
// match of a function name against the global search string.

module FunctionMatcher {
  import opened Glob

  predicate IsLiteral(c: Unit) {
    c != STAR && c != QUESTION
  }

  // Where the next wildcard at or after `i` stands.
  function WordEnd(p: seq<Unit>, i: nat): (e: nat)
    requires i <= |p|
    ensures i <= e <= |p|
    ensures forall x :: i <= x < e ==> IsLiteral(p[x])
    ensures e < |p| ==> !IsLiteral(p[e])
    decreases |p| - i
  {
    if i == |p| || !IsLiteral(p[i]) then i else WordEnd(p, i + 1)
  }

  // p[i..e] does not repeat its first character.
  ghost predicate FirstIsUnique(fold: Unit -> Unit, p: seq<Unit>, i: nat, e: nat)
    requires i <= e <= |p|
  {
    forall x :: i < x < e ==> fold(p[x]) != fold(p[i])
  }

  // At m the first character of p[i..] comes again, but at x it does not go on as it began.
  predicate Breaks(fold: Unit -> Unit, p: seq<Unit>, i: nat, m: nat, x: nat) {
    i < m <= x < |p| && fold(p[m]) == fold(p[i]) && fold(p[x]) != fold(p[x - m + i])
  }

  // Where the first character of p[i..e] comes again, the word goes on as it began.
  ghost predicate IsPeriodic(fold: Unit -> Unit, p: seq<Unit>, i: nat, e: nat)
    requires i <= e <= |p|
  {
    forall m: nat, x: nat :: x < e ==> !Breaks(fold, p, i, m, x)
  }

  // Any number of "?", and a "*".
  predicate IsSlack(p: seq<Unit>, e: nat)
    requires e <= |p|
    decreases |p| - e
  {
    e < |p| && (p[e] == STAR || (p[e] == QUESTION && IsSlack(p, e + 1)))
  }

  // What may stand behind a "*": a word, which at the end of the pattern must not repeat its first character, and
  // elsewhere must be periodic and leave the rest of the pattern free to begin anywhere behind it.
  ghost predicate IsGood(fold: Unit -> Unit, p: seq<Unit>, i: nat)
    requires i < |p|
  {
    var e := WordEnd(p, i + 1);
    if e == |p| then FirstIsUnique(fold, p, i + 1, e) else IsPeriodic(fold, p, i + 1, e) && IsSlack(p, e)
  }

  predicate EndsInTwoStars(p: seq<Unit>) {
    |p| >= 2 && p[|p| - 1] == STAR && p[|p| - 2] == STAR
  }

  ghost predicate IsSearchable(fold: Unit -> Unit, p: seq<Unit>) {
    !EndsInTwoStars(p) && forall i :: 0 <= i < |p| && p[i] == STAR ==> IsGood(fold, p, i)
  }

  // s spells p[i..e] from `j` on, up to case.
  ghost predicate Spells(fold: Unit -> Unit, p: seq<Unit>, i: nat, e: nat, s: seq<Unit>, j: nat)
    requires i <= e <= |p|
  {
    j + e - i <= |s| && forall x :: i <= x < e ==> fold(p[x]) == fold(s[x - i + j])
  }

  // A word of a pattern stands for exactly its own case variants.
  lemma {:induction false} WordMatches(fold: Unit -> Unit, p: seq<Unit>, i: nat, e: nat, s: seq<Unit>, j: nat)
    requires i <= e <= |p| && j <= |s|
    requires forall x :: i <= x < e ==> IsLiteral(p[x])
    ensures MatchesFrom(fold, p, i, s, j) <==>
            Spells(fold, p, i, e, s, j) && MatchesFrom(fold, p, e, s, j + e - i)
    decreases e - i
  {
    if i < e && j < |s| {
      WordMatches(fold, p, i + 1, e, s, j + 1);
    }
  }

  lemma StarSplits(fold: Unit -> Unit, p: seq<Unit>, i: nat, s: seq<Unit>, j: nat) returns (k: nat)
    requires i < |p| && p[i] == STAR && j <= |s| && MatchesFrom(fold, p, i, s, j)
    ensures j <= k <= |s| && MatchesFrom(fold, p, i + 1, s, k)
  {
    var next := i + 1;
    k :| j <= k <= |s| && MatchesFrom(fold, p, next, s, k);
  }

  // A "*" may swallow more.
  lemma StarSwallows(fold: Unit -> Unit, p: seq<Unit>, i: nat, s: seq<Unit>, j: nat, k: nat)
    requires i < |p| && p[i] == STAR && j <= k <= |s| && MatchesFrom(fold, p, i, s, k)
    ensures MatchesFrom(fold, p, i, s, j)
  {
    var next := i + 1;
    var m :| k <= m <= |s| && MatchesFrom(fold, p, next, s, m);
  }

  // The pattern from `i` on matches from no place in s[j..end].
  ghost predicate NoMatchIn(fold: Unit -> Unit, p: seq<Unit>, i: nat, s: seq<Unit>, j: nat, end: int)
    requires i <= |p| && end <= |s|
  {
    forall k :: j <= k < end ==> !MatchesFrom(fold, p, i, s, k)
  }

  // Giving up a partial match and going on behind it skips no match.
  lemma RestartSkipsNothing(fold: Unit -> Unit, p: seq<Unit>, i: nat, c: nat, s: seq<Unit>, j: nat, f: nat)
    requires KeepsNul(fold) && IsText(s) && 0 < i <= |p| && p[i - 1] == STAR && IsGood(fold, p, i - 1)
    requires i < c <= WordEnd(p, i) && (c < WordEnd(p, i) || c == |p|)
    requires c - i <= f < |s| && Spells(fold, p, i, c, s, f - (c - i)) && fold(s[f]) != fold(At(p, c))
    requires NoMatchIn(fold, p, i, s, j, f - (c - i))
    ensures NoMatchIn(fold, p, i, s, j, f)
  {
    PartialMatchFails(fold, p, i, c, s, f);
    forall k | f - (c - i) < k < f
      ensures !MatchesFrom(fold, p, i, s, k)
    {
      WordMatches(fold, p, i, WordEnd(p, i), s, k);
      NotSpelledAgain(fold, p, i, c, s, f, k);
    }
  }

  lemma NotSpelledAgain(fold: Unit -> Unit, p: seq<Unit>, i: nat, c: nat, s: seq<Unit>, f: nat, k: nat)
    requires 0 < i < c <= |p| && c <= WordEnd(p, i) && IsGood(fold, p, i - 1)
    requires c - i <= f < |s| && f - (c - i) < k < f && Spells(fold, p, i, c, s, f - (c - i))
    requires fold(s[f]) != fold(At(p, c)) && (c < WordEnd(p, i) || c == |p|)
    ensures !Spells(fold, p, i, WordEnd(p, i), s, k)
  {
    var e, m := WordEnd(p, i), c - (f - k);
    SpelledAt(fold, p, i, c, s, f - (c - i), m);
    SpelledAt(fold, p, i, e, s, k, i);
    SpelledAt(fold, p, i, e, s, k, i + (f - k));
    assert IsPeriodic(fold, p, i, e) && c < e ==> !Breaks(fold, p, i, m, c);
  }

  lemma SpelledAt(fold: Unit -> Unit, p: seq<Unit>, i: nat, e: nat, s: seq<Unit>, j: nat, x: nat)
    requires i <= e <= |p|
    ensures Spells(fold, p, i, e, s, j) && i <= x < e ==> x - i + j < |s| && fold(p[x]) == fold(s[x - i + j])
  {
  }

  // A partial match that cannot be continued is none.
  lemma PartialMatchFails(fold: Unit -> Unit, p: seq<Unit>, i: nat, c: nat, s: seq<Unit>, f: nat)
    requires KeepsNul(fold) && i <= |p| && i <= c <= WordEnd(p, i) && c - i <= f < |s|
    requires c < WordEnd(p, i) || c == |p|
    requires fold(s[f]) != fold(At(p, c))
    ensures !MatchesFrom(fold, p, i, s, f - (c - i))
  {
    WordMatches(fold, p, i, c, s, f - (c - i));
  }

  // The name is used up before the word is.
  lemma TooShort(fold: Unit -> Unit, p: seq<Unit>, i: nat, c: nat, s: seq<Unit>, j: nat)
    requires 0 < i <= |p| && i <= c < WordEnd(p, i) && p[i - 1] == STAR && j + c - i <= |s|
    requires NoMatchIn(fold, p, i, s, j, |s| - (c - i))
    ensures !MatchesFrom(fold, p, i - 1, s, j)
  {
    forall k | |s| - (c - i) <= k <= |s|
      ensures !MatchesFrom(fold, p, i, s, k)
    {
      WordMatches(fold, p, i, WordEnd(p, i), s, k);
    }
  }

  // What begins with slack may begin earlier.
  lemma {:induction false} SlackSwallows(fold: Unit -> Unit, p: seq<Unit>, e: nat, s: seq<Unit>, f: nat, k: nat)
    requires e <= |p| && IsSlack(p, e) && f <= k <= |s| && MatchesFrom(fold, p, e, s, k)
    ensures MatchesFrom(fold, p, e, s, f)
    decreases |p| - e
  {
    if p[e] == STAR {
      StarSwallows(fold, p, e, s, f, k);
    } else {
      SlackSwallows(fold, p, e + 1, s, f + 1, k + 1);
    }
  }

  // The whole word stands right before `f`: it is matched if the pattern behind it matches from there.
  lemma WordFound(fold: Unit -> Unit, p: seq<Unit>, i: nat, s: seq<Unit>, j: nat, f: nat)
    requires 0 < i <= |p| && p[i - 1] == STAR && f <= |s|
    requires var e := WordEnd(p, i); j + e - i <= f && Spells(fold, p, i, e, s, f - (e - i))
    requires MatchesFrom(fold, p, WordEnd(p, i), s, f)
    ensures MatchesFrom(fold, p, i - 1, s, j)
  {
    WordMatches(fold, p, i, WordEnd(p, i), s, f - (WordEnd(p, i) - i));
  }

  // If it is matched at all, it is with the first word found.
  lemma FirstWordServes(fold: Unit -> Unit, p: seq<Unit>, i: nat, s: seq<Unit>, j: nat, f: nat)
    requires 0 < i <= |p| && p[i - 1] == STAR && f <= |s|
    requires var e := WordEnd(p, i); j + e - i <= f && IsSlack(p, e) && NoMatchIn(fold, p, i, s, j, f - (e - i))
    requires MatchesFrom(fold, p, i - 1, s, j)
    ensures MatchesFrom(fold, p, WordEnd(p, i), s, f)
  {
    var e := WordEnd(p, i);
    var k := StarSplits(fold, p, i - 1, s, j);
    WordMatches(fold, p, i, e, s, k);
    SlackSwallows(fold, p, e, s, f, k + e - i);
  }

  // What the two nested loops decide, as mutual recursion over the two positions.
  predicate Greedy(fold: Unit -> Unit, p: seq<Unit>, i: nat, s: seq<Unit>, j: nat)
    requires i <= |p| && j <= |s|
    decreases |p| - i, 0, 0
  {
    if i == |p| || j == |s| then j == |s| && (i == |p| || (i + 1 == |p| && p[i] == STAR))
    else if p[i] == STAR then i + 1 == |p| || Scan(fold, p, i + 1, i + 1, s, j)
    else (p[i] == QUESTION || fold(s[j]) == fold(p[i])) && Greedy(fold, p, i + 1, s, j + 1)
  }

  // Looking for the word at `q`: its first c - q characters stand right before `f`.
  predicate Scan(fold: Unit -> Unit, p: seq<Unit>, q: nat, c: nat, s: seq<Unit>, f: nat)
    requires q < |p| && q <= c <= |p| && f <= |s|
    decreases |p| - q, |s| - f + 1, c
  {
    if c < |p| && !IsLiteral(p[c]) then Greedy(fold, p, c, s, f)
    else if c == |p| && f == |s| then true
    else if f == |s| then false
    else if c == |p| || fold(s[f]) != fold(p[c]) then
      if c == q then Scan(fold, p, q, q, s, f + 1) else Scan(fold, p, q, q, s, f)
    else Scan(fold, p, q, c + 1, s, f + 1)
  }

  method MatchFunction(fold: Unit -> Unit, search: seq<Unit>, func: seq<Unit>) returns (b: bool)
    requires KeepsNul(fold) && IsText(search) && IsText(func)
    ensures b == Greedy(fold, search, 0, func, 0)
  {
    if search == [STAR] {
      return true;
    }
    var i, j := 0, 0;
    while i < |search| && j < |func|
      decreases |search| - i
      invariant i <= |search| && j <= |func|
      invariant Greedy(fold, search, i, func, j) == Greedy(fold, search, 0, func, 0)
    {
      if search[i] == QUESTION {
        i, j := i + 1, j + 1;
      } else if search[i] == STAR {
        i := i + 1;
        if i == |search| {
          return true;
        }
        var c := i;
        while true
          invariant i <= c <= |search| && j <= |func|
          invariant Scan(fold, search, i, c, func, j) == Greedy(fold, search, 0, func, 0)
          invariant c == i ==> c < |search|
          decreases |func| - j, c
        {
          if c < |search| && !IsLiteral(search[c]) {
            i := c;
            break;
          }
          if c == |search| && j == |func| {
            return true;
          }
          if j == |func| {
            return false;
          }
          if fold(func[j]) != fold(At(search, c)) {
            if c == i {
              j := j + 1;
            } else {
              c := i;
            }
          } else {
            j, c := j + 1, c + 1;
          }
        }
      } else {
        if fold(func[j]) != fold(search[i]) {
          return false;
        }
        i, j := i + 1, j + 1;
      }
    }
    return j == |func| && (i == |search| || search[i..] == [STAR]);
  }

  // Every true answer is a match of the plain glob.
  lemma {:induction false} GreedyIsSound(fold: Unit -> Unit, p: seq<Unit>, i: nat, s: seq<Unit>, j: nat)
    requires KeepsNul(fold) && i <= |p| && j <= |s|
    requires Greedy(fold, p, i, s, j)
    ensures MatchesFrom(fold, p, i, s, j)
    decreases |p| - i, 0, 0
  {
    if i < |p| && p[i] == STAR && i + 1 == |p| {
      assert MatchesFrom(fold, p, i + 1, s, |s|);
    } else if i < |p| && p[i] == STAR {
      ScanIsSound(fold, p, i + 1, i + 1, s, j, j);
    } else if i < |p| {
      GreedyIsSound(fold, p, i + 1, s, j + 1);
    }
  }

  lemma {:induction false} ScanIsSound(
      fold: Unit -> Unit, p: seq<Unit>, q: nat, c: nat, s: seq<Unit>, j: nat, f: nat)
    requires KeepsNul(fold) && 0 < q < |p| && p[q - 1] == STAR && q <= c <= WordEnd(p, q)
    requires j + c - q <= f <= |s| && Spells(fold, p, q, c, s, f - (c - q))
    requires Scan(fold, p, q, c, s, f)
    ensures MatchesFrom(fold, p, q - 1, s, j)
    decreases |p| - q, |s| - f + 1, c
  {
    if c < |p| && !IsLiteral(p[c]) {
      GreedyIsSound(fold, p, c, s, f);
      WordFound(fold, p, q, s, j, f);
    } else if f == |s| {
      WordFound(fold, p, q, s, j, f);
    } else if c == |p| || fold(s[f]) != fold(p[c]) {
      if c == q {
        ScanIsSound(fold, p, q, q, s, j, f + 1);
      } else {
        ScanIsSound(fold, p, q, q, s, j, f);
      }
    } else {
      ScanIsSound(fold, p, q, c + 1, s, j, f + 1);
    }
  }

  // With nothing left of the name, only stars match.
  lemma {:induction false} OnlyStars(fold: Unit -> Unit, p: seq<Unit>, i: nat, s: seq<Unit>)
    requires i <= |p| && MatchesFrom(fold, p, i, s, |s|)
    ensures forall x :: i <= x < |p| ==> p[x] == STAR
    decreases |p| - i
  {
    if i < |p| {
      var k := StarSplits(fold, p, i, s, |s|);
      OnlyStars(fold, p, i + 1, s);
    }
  }

  // With a searchable string every match is found.
  lemma {:induction false} GreedyIsComplete(fold: Unit -> Unit, p: seq<Unit>, i: nat, s: seq<Unit>, j: nat)
    requires KeepsNul(fold) && IsText(s) && i <= |p| && j <= |s|
    requires IsSearchable(fold, p) && MatchesFrom(fold, p, i, s, j)
    ensures Greedy(fold, p, i, s, j)
    decreases |p| - i, 0, 0
  {
    if j == |s| {
      OnlyStars(fold, p, i, s);
    } else if i < |p| && p[i] == STAR {
      if i + 1 < |p| {
        ScanIsComplete(fold, p, i + 1, i + 1, s, j, j);
      }
    } else if i < |p| {
      GreedyIsComplete(fold, p, i + 1, s, j + 1);
    }
  }

  lemma GoodStar(fold: Unit -> Unit, p: seq<Unit>, i: nat)
    requires IsSearchable(fold, p) && i < |p| && p[i] == STAR
    ensures IsGood(fold, p, i) && (WordEnd(p, i + 1) < |p| ==> IsSlack(p, WordEnd(p, i + 1)))
  {
  }

  lemma OneFurther(fold: Unit -> Unit, p: seq<Unit>, q: nat, s: seq<Unit>, j: nat, f: nat)
    requires KeepsNul(fold) && q <= |p| && j <= f < |s| && (q < WordEnd(p, q) || q == |p|)
    requires fold(s[f]) != fold(At(p, q)) && NoMatchIn(fold, p, q, s, j, f)
    ensures NoMatchIn(fold, p, q, s, j, f + 1)
  {
    PartialMatchFails(fold, p, q, q, s, f);
  }

  lemma {:induction false} ScanIsComplete(
      fold: Unit -> Unit, p: seq<Unit>, q: nat, c: nat, s: seq<Unit>, j: nat, f: nat)
    requires KeepsNul(fold) && IsText(s) && 0 < q < |p| && p[q - 1] == STAR && q <= c <= WordEnd(p, q)
    requires j + c - q <= f <= |s| && Spells(fold, p, q, c, s, f - (c - q))
    requires IsSearchable(fold, p) && NoMatchIn(fold, p, q, s, j, f - (c - q))
    requires MatchesFrom(fold, p, q - 1, s, j)
    ensures Scan(fold, p, q, c, s, f)
    decreases |p| - q, |s| - f + 1, c
  {
    hide MatchesFrom, IsSearchable, IsGood, NoMatchIn, Greedy;
    GoodStar(fold, p, q - 1);
    if c < |p| && !IsLiteral(p[c]) {
      FirstWordServes(fold, p, q, s, j, f);
      GreedyIsComplete(fold, p, c, s, f);
    } else if f == |s| {
      if c < |p| {
        TooShort(fold, p, q, c, s, j);
      }
    } else if c == |p| || fold(s[f]) != fold(p[c]) {
      if c == q {
        OneFurther(fold, p, q, s, j, f);
        ScanIsComplete(fold, p, q, q, s, j, f + 1);
      } else {
        RestartSkipsNothing(fold, p, q, c, s, j, f);
        ScanIsComplete(fold, p, q, q, s, j, f);
      }
    } else {
      ScanIsComplete(fold, p, q, c + 1, s, j, f + 1);
    }
  }

  lemma ExactIfSearchable(fold: Unit -> Unit, p: seq<Unit>, s: seq<Unit>)
    requires KeepsNul(fold) && IsText(s) && IsSearchable(fold, p)
    ensures Greedy(fold, p, 0, s, 0) <==> Matches(fold, p, s)
  {
    if Greedy(fold, p, 0, s, 0) {
      GreedyIsSound(fold, p, 0, s, 0);
    }
    if Matches(fold, p, s) {
      GreedyIsComplete(fold, p, 0, s, 0);
    }
  }

  // Search strings of literals and "?" with at most a "*" at the end are.
  lemma PlainIsSearchable(fold: Unit -> Unit, p: seq<Unit>)
    requires forall i :: 0 <= i < |p| - 1 ==> p[i] != STAR
    ensures IsSearchable(fold, p)
  {
  }
}

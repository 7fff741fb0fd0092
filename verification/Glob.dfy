// The plain meaning of a wildcard pattern, shared by the two matchers of the
// repository: the compiled one in cat/fnreg.cpp and the greedy one in
// appparse/appparse.cpp.

module Glob {
  // One TCHAR: a UTF-16 code unit, or a byte in the narrow programs.
  type Unit = u: int | 0 <= u < 0x1_0000

  const STAR: Unit := 42
  const QUESTION: Unit := 63

  // A NUL-terminated string, without its terminator.
  ghost predicate IsText(s: seq<Unit>) {
    forall i :: 0 <= i < |s| ==> s[i] != 0
  }

  // What *(s + i) reads, terminator included.
  function At(s: seq<Unit>, i: nat): Unit
    requires i <= |s|
  {
    if i < |s| then s[i] else 0
  }

  // `_totlower` or `toupper`: an arbitrary folding that maps NUL, and only NUL, to NUL.
  ghost predicate KeepsNul(fold: Unit -> Unit) {
    forall c: Unit :: fold(c) == 0 <==> c == 0
  }

  // The pattern from `i` on stands for the name from `j` on: "*" for any run of characters,
  // "?" for any one, everything else for itself up to case.
  ghost predicate MatchesFrom(fold: Unit -> Unit, p: seq<Unit>, i: nat, s: seq<Unit>, j: nat)
    requires i <= |p| && j <= |s|
    decreases |p| - i
  {
    if i == |p| then j == |s|
    else if p[i] == STAR then var rest := i + 1; exists k :: j <= k <= |s| && MatchesFrom(fold, p, rest, s, k)
    else j < |s| && (p[i] == QUESTION || fold(p[i]) == fold(s[j])) && MatchesFrom(fold, p, i + 1, s, j + 1)
  }

  ghost predicate Matches(fold: Unit -> Unit, p: seq<Unit>, s: seq<Unit>) {
    MatchesFrom(fold, p, 0, s, 0)
  }

  // The name left when every "*" is dropped and every "?" is filled in.
  function Strip(p: seq<Unit>): (s: seq<Unit>)
    ensures |s| <= |p|
    ensures IsText(p) ==> IsText(s)
  {
    if p == [] then []
    else if p[0] == STAR then Strip(p[1..])
    else [if p[0] == QUESTION then 97 else p[0]] + Strip(p[1..])
  }

  lemma {:induction false} StripMatches(fold: Unit -> Unit, p: seq<Unit>, i: nat, s: seq<Unit>, j: nat)
    requires i <= |p| && j <= |s| && s[j..] == Strip(p[i..])
    ensures MatchesFrom(fold, p, i, s, j)
    decreases |p| - i
  {
    if i < |p| {
      assert p[i..][1..] == p[i + 1..];
      if p[i] == STAR {
        StripMatches(fold, p, i + 1, s, j);
      } else {
        assert s[j] == s[j..][0];
        assert s[j + 1..] == s[j..][1..] == Strip(p[i + 1..]);
        StripMatches(fold, p, i + 1, s, j + 1);
      }
    }
  }
}

// cat/fnreg.cpp: a wildcard pattern is compiled to a small code that stores,
// after each "*", how short and how long the rest of a name may be; a
// backtracking matcher prunes with those two numbers.

module WildcardCompiler {
  import opened Glob

  const MAX := 65535
  const CH: Unit := 46
  const EOR: Unit := 1

  // The `min` that fnrecompWorker hands back: characters the pattern cannot do without.
  function MinLen(p: seq<Unit>): nat {
    if p == [] then 0
    else if p[0] == STAR then MinLen(p[1..])
    else MinLen(p[1..]) + 1
  }

  // The `max` that fnrecompWorker hands back.
  function MaxLen(p: seq<Unit>): nat {
    if p == [] then 0
    else if p[0] == STAR then MAX
    else MaxLen(p[1..]) + 1
  }

  // The two numbers as stored behind a "*", after truncation to a TCHAR.
  function StoredMin(rest: seq<Unit>): Unit {
    (MinLen(rest) + 1) % 0x1_0000
  }

  function StoredMax(rest: seq<Unit>): Unit {
    if MaxLen(rest) > MAX then MAX else (MaxLen(rest) + 1) % 0x1_0000
  }

  // The code for a pattern.
  function Code(fold: Unit -> Unit, p: seq<Unit>): (re: seq<Unit>)
    ensures |re| >= 2
  {
    if p == [] then [EOR, 0]
    else if p[0] == QUESTION then [QUESTION] + Code(fold, p[1..])
    else if p[0] == STAR then [STAR, StoredMin(p[1..]), StoredMax(p[1..])] + Code(fold, p[1..])
    else [CH, fold(p[0])] + Code(fold, p[1..])
  }

  // The buffer holds the code from `at` on.
  ghost predicate Holds(re: array<Unit>, at: nat, code: seq<Unit>)
    reads re
  {
    at + |code| <= re.Length && forall j :: 0 <= j < |code| ==> re[at + j] == code[j]
  }

  // fnrecompWorker on the pattern from `i` on, writing from `at` on.
  method CompileWorker(fold: Unit -> Unit, s: seq<Unit>, i: nat, re: array<Unit>, at: nat)
    returns (min: nat, max: nat)
    requires IsText(s) && i <= |s|
    requires at + |Code(fold, s[i..])| <= re.Length
    modifies re
    ensures Holds(re, at, Code(fold, s[i..]))
    ensures forall j :: 0 <= j < at ==> re[j] == old(re[j])
    ensures min == MinLen(s[i..]) && max == MaxLen(s[i..])
    decreases |s| - i, 1
  {
    CodeStep(fold, s, i);
    hide Code, MinLen, MaxLen;
    if At(s, i) == 0 {
      re[at] := EOR;
      re[at + 1] := 0;
      return 0, 0;
    }
    if At(s, i) == STAR {
      min, max := CompileStar(fold, s, i, re, at);
      return;
    }
    ghost var rest := Code(fold, s[i + 1..]);
    if At(s, i) == QUESTION {
      re[at] := QUESTION;
      min, max := CompileWorker(fold, s, i + 1, re, at + 1);
      HoldsAfter(re, at, [QUESTION], rest);
    } else {
      re[at] := CH;
      re[at + 1] := fold(At(s, i));
      min, max := CompileWorker(fold, s, i + 1, re, at + 2);
      HoldsAfter(re, at, [CH, fold(s[i])], rest);
    }
    min := min + 1;
    max := max + 1;
  }

  // The case of a "*", with its two bounds.
  method CompileStar(fold: Unit -> Unit, s: seq<Unit>, i: nat, re: array<Unit>, at: nat)
    returns (min: nat, max: nat)
    requires IsText(s) && i < |s| && s[i] == STAR
    requires at + |Code(fold, s[i..])| <= re.Length
    modifies re
    ensures Holds(re, at, Code(fold, s[i..]))
    ensures forall j :: 0 <= j < at ==> re[j] == old(re[j])
    ensures min == MinLen(s[i..]) && max == MaxLen(s[i..])
    decreases |s| - i, 0
  {
    CodeStep(fold, s, i);
    hide Code, MinLen, MaxLen;
    ghost var rest := Code(fold, s[i + 1..]);
    re[at] := STAR;
    min, max := CompileWorker(fold, s, i + 1, re, at + 3);
    re[at + 1] := (min + 1) % 0x1_0000;
    re[at + 2] := if max > MAX then MAX else (max + 1) % 0x1_0000;
    HoldsAfter(re, at, [STAR, StoredMin(s[i + 1..]), StoredMax(s[i + 1..])], rest);
    max := MAX;
  }

  // The code for a pattern from its i-th character on.
  lemma CodeStep(fold: Unit -> Unit, p: seq<Unit>, i: nat)
    requires i <= |p|
    ensures i == |p| ==> Code(fold, p[i..]) == [EOR, 0] && MinLen(p[i..]) == MaxLen(p[i..]) == 0
    ensures i < |p| ==>
              && Code(fold, p[i..]) ==
                 (if p[i] == QUESTION then [QUESTION]
                  else if p[i] == STAR then [STAR, StoredMin(p[i + 1..]), StoredMax(p[i + 1..])]
                  else [CH, fold(p[i])]) + Code(fold, p[i + 1..])
              && MinLen(p[i..]) == MinLen(p[i + 1..]) + (if p[i] == STAR then 0 else 1)
              && MaxLen(p[i..]) == (if p[i] == STAR then MAX else MaxLen(p[i + 1..]) + 1)
  {
    if i < |p| {
      assert p[i..][1..] == p[i + 1..];
    }
  }

  lemma HoldsAfter(re: array<Unit>, at: nat, head: seq<Unit>, rest: seq<Unit>)
    requires Holds(re, at, head) && Holds(re, at + |head|, rest)
    ensures Holds(re, at, head + rest)
  {
    forall j | 0 <= j < |head + rest|
      ensures re[at + j] == (head + rest)[j]
    {
      if j >= |head| {
        assert re[at + |head| + (j - |head|)] == rest[j - |head|];
      }
    }
  }

  lemma HoldsBehind(re: array<Unit>, at: nat, head: seq<Unit>, rest: seq<Unit>)
    requires Holds(re, at, head + rest)
    ensures Holds(re, at, head) && Holds(re, at + |head|, rest)
  {
    forall j | 0 <= j < |head|
      ensures re[at + j] == head[j]
    {
      assert re[at + j] == (head + rest)[j];
    }
    forall j | 0 <= j < |rest|
      ensures re[at + |head| + j] == rest[j]
    {
      assert re[at + (|head| + j)] == (head + rest)[|head| + j];
    }
  }

  // fnrecomp.
  method Compile(fold: Unit -> Unit, s: seq<Unit>, re: array<Unit>)
    requires IsText(s) && |Code(fold, s)| <= re.Length
    modifies re
    ensures Holds(re, 0, Code(fold, s))
  {
    assert s[0..] == s;
    var min, max := CompileWorker(fold, s, 0, re, 0);
  }

  // What the matcher decides: a "*" tries only the tails whose length the stored numbers admit.
  ghost predicate PrunedFrom(fold: Unit -> Unit, p: seq<Unit>, i: nat, s: seq<Unit>, j: nat)
    requires i <= |p| && j <= |s|
    decreases |p| - i
  {
    if i == |p| then j == |s|
    else if p[i] == STAR then
      var rest := i + 1;
      exists k :: j <= k <= |s| && Admits(p[rest..], |s| - k) && PrunedFrom(fold, p, rest, s, k)
    else j < |s| && (p[i] == QUESTION || fold(p[i]) == fold(s[j])) && PrunedFrom(fold, p, i + 1, s, j + 1)
  }

  predicate Admits(rest: seq<Unit>, length: nat) {
    StoredMin(rest) <= length + 1 <= StoredMax(rest)
  }

  // `match` on the code of a pattern. The ghost arguments say which part of which pattern the code
  // at `at` came from.
  method Match(fold: Unit -> Unit, re: array<Unit>, at: nat, s: seq<Unit>, j: nat, ghost p: seq<Unit>, ghost i: nat)
    returns (b: bool)
    requires KeepsNul(fold) && IsText(p) && IsText(s) && i <= |p| && j <= |s|
    requires Holds(re, at, Code(fold, p[i..]))
    ensures b == PrunedFrom(fold, p, i, s, j)
    decreases |p| - i, 1
  {
    ghost var rest := if i == |p| then [] else Code(fold, p[i + 1..]);
    CodeStep(fold, p, i);
    hide Code, MinLen, MaxLen, StoredMin, StoredMax;
    assert re[at + 0] == Code(fold, p[i..])[0];
    if re[at] == CH {
      HoldsBehind(re, at, [CH, fold(p[i])], rest);
      assert re[at + 1] == [CH, fold(p[i])][1];
      if re[at + 1] != fold(At(s, j)) {
        return false;
      }
      b := Match(fold, re, at + 2, s, j + 1, p, i + 1);
    } else if re[at] == QUESTION {
      HoldsBehind(re, at, [QUESTION], rest);
      if At(s, j) == 0 {
        return false;
      }
      b := Match(fold, re, at + 1, s, j + 1, p, i + 1);
    } else if re[at] == STAR {
      ghost var head := [STAR, StoredMin(p[i + 1..]), StoredMax(p[i + 1..])];
      HoldsBehind(re, at, head, rest);
      assert re[at + 1] == head[1] && re[at + 2] == head[2];
      b := MatchTails(fold, re, at + 3, s, j, re[at + 1], re[at + 2], p, i);
    } else {
      return At(s, j) == 0;
    }
  }

  // The search loop behind a "*": the tails of the name from the shortest on, within the bounds.
  method MatchTails(fold: Unit -> Unit, re: array<Unit>, at: nat, s: seq<Unit>, j: nat, min: Unit, max: Unit,
                    ghost p: seq<Unit>, ghost i: nat)
    returns (b: bool)
    requires KeepsNul(fold) && IsText(p) && IsText(s) && i < |p| && p[i] == STAR && j <= |s|
    requires Holds(re, at, Code(fold, p[i + 1..])) && min == StoredMin(p[i + 1..]) && max == StoredMax(p[i + 1..])
    ensures b == PrunedFrom(fold, p, i, s, j)
    decreases |p| - i, 0
  {
    hide Code, Holds;
    ghost var next := i + 1;
    var n: int, q := 1, |s|;
    while q >= j && n <= max
      invariant n == |s| - q + 1 && j - 1 <= q <= |s|
      invariant forall k :: q < k <= |s| && Admits(p[next..], |s| - k) ==> !PrunedFrom(fold, p, next, s, k)
      decreases q - j
    {
      if n >= min {
        b := Match(fold, re, at, s, q, p, next);
        if b {
          return;
        }
      }
      q, n := q - 1, n + 1;
    }
    return false;
  }

  ghost predicate NoAdjacentStars(p: seq<Unit>, i: nat) {
    forall k :: i <= k < |p| - 1 ==> p[k] != STAR || p[k + 1] != STAR
  }

  // The numbers computed by the compiler bound every name the pattern matches.
  lemma {:induction false} BoundsAreTrue(fold: Unit -> Unit, p: seq<Unit>, i: nat, s: seq<Unit>, j: nat)
    requires i <= |p| && j <= |s| && MatchesFrom(fold, p, i, s, j)
    ensures MinLen(p[i..]) <= |s| - j
    ensures MaxLen(p[i..]) < MAX ==> |s| - j <= MaxLen(p[i..])
    ensures MaxLen(p[i..]) == MAX && p[i] != STAR ==> |s| - j == MAX
    decreases |p| - i
  {
    if i < |p| {
      assert p[i..][1..] == p[i + 1..];
      if p[i] == STAR {
        var k :| j <= k <= |s| && MatchesFrom(fold, p, i + 1, s, k);
        BoundsAreTrue(fold, p, i + 1, s, k);
      } else {
        BoundsAreTrue(fold, p, i + 1, s, j + 1);
        ShortPatternIsExact(p[i + 1..]);
      }
    }
  }

  lemma {:induction false} ShortPatternIsExact(p: seq<Unit>)
    ensures MaxLen(p) < MAX ==> MaxLen(p) == MinLen(p) == |p|
    ensures MaxLen(p) == MAX && (p == [] || p[0] != STAR) ==> MinLen(p) == MAX
  {
    if p != [] && p[0] != STAR {
      ShortPatternIsExact(p[1..]);
    }
  }

  // Pruning loses nothing, except that a "*" before another "*" matches no name at all: its stored
  // maximum wraps to 0.
  lemma {:induction false} PruningIsExact(fold: Unit -> Unit, p: seq<Unit>, i: nat, s: seq<Unit>, j: nat)
    requires i <= |p| && j <= |s| < MAX
    ensures PrunedFrom(fold, p, i, s, j) <==> NoAdjacentStars(p, i) && MatchesFrom(fold, p, i, s, j)
    decreases |p| - i
  {
    if i < |p| && p[i] == STAR {
      var next := i + 1;
      forall k | j <= k <= |s|
        ensures PrunedFrom(fold, p, next, s, k) <==> NoAdjacentStars(p, next) && MatchesFrom(fold, p, next, s, k)
        ensures NoAdjacentStars(p, i) && MatchesFrom(fold, p, next, s, k) ==> Admits(p[next..], |s| - k)
      {
        PruningIsExact(fold, p, next, s, k);
        if MatchesFrom(fold, p, next, s, k) {
          BoundsAreTrue(fold, p, next, s, k);
        }
      }
      if i + 1 < |p| && p[i + 1] == STAR {
        assert StoredMax(p[i + 1..]) == 0;
        assert p[i] == STAR;
      }
    } else if i < |p| && j < |s| {
      PruningIsExact(fold, p, i + 1, s, j + 1);
    }
  }

  // Compiling a pattern and matching a name against it, as FilenameTable::search does; the buffer
  // has the size used there, which the code has to fit.
  method CompileAndMatch(fold: Unit -> Unit, pattern: seq<Unit>, name: seq<Unit>) returns (b: bool)
    requires KeepsNul(fold) && IsText(pattern) && IsText(name)
    requires |Code(fold, pattern)| <= 1024 && |name| < MAX
    ensures b <==> NoAdjacentStars(pattern, 0) && Matches(fold, pattern, name)
  {
    var re := new Unit[1024](_ => 0);
    assert pattern[0..] == pattern;
    Compile(fold, pattern, re);
    b := Match(fold, re, 0, name, 0, pattern, 0);
    PruningIsExact(fold, pattern, 0, name, 0);
  }

  // The compiled matcher agrees with the pattern's meaning on every name shorter than 65535
  // exactly when the pattern has no two adjacent stars.
  lemma ExactIffNoAdjacentStars(fold: Unit -> Unit, p: seq<Unit>)
    requires IsText(p) && |p| < MAX
    ensures NoAdjacentStars(p, 0) <==>
            forall s: seq<Unit> :: IsText(s) && |s| < MAX ==> (PrunedFrom(fold, p, 0, s, 0) <==> Matches(fold, p, s))
  {
    forall s: seq<Unit> | IsText(s) && |s| < MAX
      ensures PrunedFrom(fold, p, 0, s, 0) <==> NoAdjacentStars(p, 0) && Matches(fold, p, s)
    {
      PruningIsExact(fold, p, 0, s, 0);
    }
    assert Strip(p)[0..] == Strip(p) && p[0..] == p;
    StripMatches(fold, p, 0, Strip(p), 0);
  }

  // The bound on the name is needed too: 65535 characters are one more than a "*" with another one
  // further on will look at.
  lemma LongNameIsMissed(fold: Unit -> Unit, p: seq<Unit>, s: seq<Unit>)
    requires p == [STAR, 97, STAR] && fold(97) != fold(98)
    requires |s| == MAX && s[0] == 97 && forall i :: 0 < i < |s| ==> s[i] == 98
    ensures Matches(fold, p, s) && !PrunedFrom(fold, p, 0, s, 0)
  {
    assert MatchesFrom(fold, p, 3, s, |s|);
    assert MatchesFrom(fold, p, 2, s, 1);
    assert MatchesFrom(fold, p, 1, s, 0);
    var rest := p[1..];
    assert rest[1..][0] == STAR && MaxLen(rest) == MAX + 1;
    forall k | 0 <= k <= |s| && Admits(rest, |s| - k)
      ensures !PrunedFrom(fold, p, 1, s, k)
    {
      assert k > 0;
    }
  }
}

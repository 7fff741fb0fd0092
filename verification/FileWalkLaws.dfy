// What a recursive walk reports, said without walking: the paths that lead to a match,
// each of them once.

module FileWalkLaws {
  import opened FileTree

  // From `node`, the names p[k..] lead through readable directories to an entry that the pattern
  // matches where it is in force. Below a directory that the pattern names, everything matches; next
  // to such a directory nothing is entered.
  ghost predicate Reaches(fs: FileSystem, node: Node, p: seq<string>, k: nat, w: string, isDir: bool)
    decreases node
  {
    && node.Dir? && !node.denied && k < |p| && !IsDots(p[k])
    && exists i :: 0 <= i < |node.entries| && node.entries[i].name == p[k] && LeadsOn(fs, node, i, p, k, w, isDir)
  }

  ghost predicate LeadsOn(fs: FileSystem, node: Node, i: nat, p: seq<string>, k: nat, w: string, isDir: bool)
    requires node.Dir? && i < |node.entries| && k < |p|
    decreases node, 0
  {
    var e := node.entries[i];
    var found := Matching(fs, node.entries, w);
    if k + 1 == |p| then fs.matches(w, e.name) && isDir == e.node.Dir?
    else if found != [] && found[|found| - 1].node.Dir? && fs.same(w, found[|found| - 1].name) then
      found[|found| - 1] == e && Reaches(fs, e.node, p, k + 1, "*.*", isDir)
    else Reaches(fs, e.node, p, k + 1, w, isDir)
  }

  lemma {:induction false} MatchingHas(fs: FileSystem, entries: seq<Entry>, w: string, e: Entry)
    ensures e in Matching(fs, entries, w) <==> e in entries && fs.matches(w, e.name)
  {
    if entries != [] {
      MatchingHas(fs, entries[1..], w, e);
    }
  }

  lemma {:induction false} LocalItemsHas(dir: seq<string>, found: seq<Entry>, x: Item)
    ensures x in LocalItems(dir, found) <==>
            exists i :: 0 <= i < |found| && !IsDots(found[i].name)
                     && x == Found(dir + [found[i].name], found[i].node.Dir?)
  {
    if found != [] {
      LocalItemsHas(dir, found[1..], x);
      if x in LocalItems(dir, found[1..]) {
        var i :| 0 <= i < |found[1..]| && !IsDots(found[1..][i].name)
              && x == Found(dir + [found[1..][i].name], found[1..][i].node.Dir?);
        assert found[i + 1] == found[1..][i];
      }
      if i :| 0 <= i < |found| && !IsDots(found[i].name) && x == Found(dir + [found[i].name], found[i].node.Dir?) {
        assert i > 0 ==> found[1..][i - 1] == found[i];
      }
    }
  }

  // The local items of a directory lead there in one step.
  lemma LocalReaches(fs: FileSystem, dir: seq<string>, node: Node, w: string, p: seq<string>, isDir: bool)
    requires node.Dir? && !node.denied && Found(p, isDir) in LocalItems(dir, Matching(fs, node.entries, w))
    ensures |p| == |dir| + 1 && p[..|dir|] == dir && Reaches(fs, node, p, |dir|, w, isDir)
  {
    hide Matching, LocalItems;
    var found := Matching(fs, node.entries, w);
    LocalItemsHas(dir, found, Found(p, isDir));
    var i :| 0 <= i < |found| && !IsDots(found[i].name)
                && Found(p, isDir) == Found(dir + [found[i].name], found[i].node.Dir?);
    MatchingHas(fs, node.entries, w, found[i]);
    var j :| 0 <= j < |node.entries| && node.entries[j] == found[i];
    assert LeadsOn(fs, node, j, p, |dir|, w, isDir);
  }

  // The last name on the way is that of an entry that the pattern matches.
  lemma LastName(fs: FileSystem, node: Node, p: seq<string>, k: nat, w: string, isDir: bool)
    requires |p| == k + 1 && Reaches(fs, node, p, k, w, isDir)
    ensures node.Dir? && !IsDots(p[k])
    ensures exists e :: e in node.entries && e.name == p[k] && fs.matches(w, e.name) && isDir == e.node.Dir?
  {
    hide Matching, IsTree;
    var j :| 0 <= j < |node.entries| && node.entries[j].name == p[k] && LeadsOn(fs, node, j, p, k, w, isDir);
    assert node.entries[j] in node.entries;
  }

  lemma ReachesLocal(fs: FileSystem, dir: seq<string>, node: Node, w: string, p: seq<string>, isDir: bool)
    requires node.Dir? && |p| == |dir| + 1 && p[..|dir|] == dir && Reaches(fs, node, p, |dir|, w, isDir)
    ensures Found(p, isDir) in LocalItems(dir, Matching(fs, node.entries, w))
  {
    hide Matching, LocalItems, IsTree, Reaches, LeadsOn;
    var found := Matching(fs, node.entries, w);
    LastName(fs, node, p, |dir|, w, isDir);
    var e :| e in node.entries && e.name == p[|dir|] && fs.matches(w, e.name) && isDir == e.node.Dir?;
    MatchingHas(fs, node.entries, w, e);
    FoundIsItem(dir, found, e);
    LongerByOne(p, dir, e.name);
  }

  lemma FoundIsItem(dir: seq<string>, found: seq<Entry>, e: Entry)
    requires e in found && !IsDots(e.name)
    ensures Found(dir + [e.name], e.node.Dir?) in LocalItems(dir, found)
  {
    hide LocalItems;
    var i :| 0 <= i < |found| && found[i] == e;
    LocalItemsHas(dir, found, Found(dir + [e.name], e.node.Dir?));
  }

  lemma LongerByOne(p: seq<string>, dir: seq<string>, name: string)
    requires |p| == |dir| + 1 && p[..|dir|] == dir && p[|dir|] == name
    ensures p == dir + [name]
  {
    assert p == p[..|dir|] + [p[|dir|]];
  }

  // The walk reports an entry exactly if its path leads to it.
  lemma {:induction false} WalkFindsWhatIsThere(
      fs: FileSystem, dir: seq<string>, node: Node, w: string, p: seq<string>, isDir: bool)
    requires node.Dir? && IsPattern(fs, w) && IsFileSystem(fs)
    ensures Found(p, isDir) in Walk(fs, dir, node, w) <==>
            |p| > |dir| && p[..|dir|] == dir && Reaches(fs, node, p, |dir|, w, isDir)
    decreases node, 2, 0
  {
    if !node.denied {
      if Found(p, isDir) in LocalItems(dir, Matching(fs, node.entries, w)) {
        LocalReaches(fs, dir, node, w, p, isDir);
      }
      if |p| == |dir| + 1 && p[..|dir|] == dir && Reaches(fs, node, p, |dir|, w, isDir) {
        ReachesLocal(fs, dir, node, w, p, isDir);
      }
      BelowFindsWhatIsThere(fs, dir, node, w, p, isDir);
    }
  }

  lemma {:induction false} BelowFindsWhatIsThere(
      fs: FileSystem, dir: seq<string>, node: Node, w: string, p: seq<string>, isDir: bool)
    requires node.Dir? && !node.denied && IsPattern(fs, w) && IsFileSystem(fs)
    ensures Found(p, isDir) in WalkBelow(fs, dir, node, w) <==>
            |p| > |dir| + 1 && p[..|dir|] == dir && Reaches(fs, node, p, |dir|, w, isDir)
    decreases node, 1, 0
  {
    hide Walk, WalkBelow, WalkFrom, Matching, IsTree;
    var found := Matching(fs, node.entries, w);
    if NamesDirectory(fs, found, w) {
      NamedFindsWhatIsThere(fs, dir, node, w, p, isDir);
    } else {
      WalkBelowAll(fs, dir, node, w);
      FromFindsWhatIsThere(fs, dir, node, w, 0, p, isDir);
    }
  }

  lemma {:induction false} NamedFindsWhatIsThere(
      fs: FileSystem, dir: seq<string>, node: Node, w: string, p: seq<string>, isDir: bool)
    requires node.Dir? && !node.denied && IsPattern(fs, w) && IsFileSystem(fs)
    requires NamesDirectory(fs, Matching(fs, node.entries, w), w)
    ensures Found(p, isDir) in WalkBelow(fs, dir, node, w) <==>
            |p| > |dir| + 1 && p[..|dir|] == dir && Reaches(fs, node, p, |dir|, w, isDir)
    decreases node, 0, 0
  {
    hide Walk, WalkBelow, WalkFrom, Matching, IsTree;
    var found := Matching(fs, node.entries, w);
    var e := found[|found| - 1];
    MatchingHas(fs, node.entries, w, e);
    var j :| 0 <= j < |node.entries| && node.entries[j] == e;
    WalkBelowNamed(fs, dir, node, w, j);
    WalkFindsWhatIsThere(fs, dir + [e.name], e.node, ALL, p, isDir);
    InsideOne(dir, e.name, p);
    if |p| > |dir| + 1 && Reaches(fs, node, p, |dir|, w, isDir) {
      var i :| 0 <= i < |node.entries| && node.entries[i].name == p[|dir|] && LeadsOn(fs, node, i, p, |dir|, w, isDir);
    }
    if |p| > |dir| + 1 && p[|dir|] == e.name && Reaches(fs, e.node, p, |dir| + 1, ALL, isDir) {
      assert LeadsOn(fs, node, j, p, |dir|, w, isDir);
    }
  }

  // A path inside a subdirectory.
  lemma InsideOne(dir: seq<string>, name: string, p: seq<string>)
    ensures |p| > |dir| + 1 && p[..|dir| + 1] == dir + [name]
            <==> |p| > |dir| + 1 && p[..|dir|] == dir && p[|dir|] == name
  {
    if |p| > |dir| + 1 {
      assert p[..|dir| + 1] == p[..|dir|] + [p[|dir|]];
      if p[..|dir| + 1] == dir + [name] {
        assert p[..|dir|] == p[..|dir| + 1][..|dir|];
        assert p[|dir|] == p[..|dir| + 1][|dir|];
      }
    }
  }

  lemma {:induction false} FromFindsWhatIsThere(
      fs: FileSystem, dir: seq<string>, node: Node, w: string, i: nat, p: seq<string>, isDir: bool)
    requires node.Dir? && !node.denied && IsPattern(fs, w) && IsFileSystem(fs) && i <= |node.entries|
    requires !NamesDirectory(fs, Matching(fs, node.entries, w), w)
    ensures Found(p, isDir) in WalkFrom(fs, dir, node, w, i) <==>
            |p| > |dir| + 1 && p[..|dir|] == dir && !IsDots(p[|dir|])
            && exists j :: i <= j < |node.entries| && node.entries[j].name == p[|dir|]
                        && Reaches(fs, node.entries[j].node, p, |dir| + 1, w, isDir)
    decreases node, 0, |node.entries| - i
  {
    hide Walk, WalkFrom, Matching, IsTree;
    if i == |node.entries| {
      WalkFromEnd(fs, dir, node, w);
    } else {
      var e := node.entries[i];
      WalkFromStep(fs, dir, node, w, i);
      FromFindsWhatIsThere(fs, dir, node, w, i + 1, p, isDir);
      if e.node.Dir? && !IsDots(e.name) {
        WalkFindsWhatIsThere(fs, dir + [e.name], e.node, w, p, isDir);
        InsideOne(dir, e.name, p);
      }
    }
  }

  // No path is reported twice.
  ghost predicate NoRepeats(items: seq<Item>) {
    forall i, j :: 0 <= i < j < |items| && items[i].Found? && items[j].Found? ==> items[i].path != items[j].path
  }

  // All paths run through this name in this directory.
  ghost predicate RunThrough(items: seq<Item>, dir: seq<string>, name: string) {
    forall x :: x in items && x.Found? ==> |x.path| > |dir| && x.path[|dir|] == name
  }

  lemma NoRepeatsConcat(a: seq<Item>, b: seq<Item>)
    requires NoRepeats(a) && NoRepeats(b)
    requires forall x, y :: x in a && y in b && x.Found? && y.Found? ==> x.path != y.path
    ensures NoRepeats(a + b)
  {
    forall i, j | 0 <= i < j < |a + b| && (a + b)[i].Found? && (a + b)[j].Found?
      ensures (a + b)[i].path != (a + b)[j].path
    {
      if i < |a| && j >= |a| {
        assert (a + b)[i] in a && (a + b)[j] in b;
      }
    }
  }

  ghost predicate DistinctNames(entries: seq<Entry>) {
    forall i, j :: 0 <= i < j < |entries| ==> entries[i].name != entries[j].name
  }

  lemma {:induction false} MatchingDistinct(fs: FileSystem, entries: seq<Entry>, w: string)
    requires DistinctNames(entries)
    ensures DistinctNames(Matching(fs, entries, w))
  {
    if entries != [] {
      MatchingDistinct(fs, entries[1..], w);
      forall e | e in Matching(fs, entries[1..], w)
        ensures e.name != entries[0].name
      {
        MatchingHas(fs, entries[1..], w, e);
      }
    }
  }

  lemma {:induction false} LocalNoRepeats(dir: seq<string>, found: seq<Entry>)
    requires DistinctNames(found)
    ensures NoRepeats(LocalItems(dir, found))
  {
    if found != [] {
      var first, rest := found[0], LocalItems(dir, found[1..]);
      LocalNoRepeats(dir, found[1..]);
      forall y | y in rest
        ensures y.Found? && y.path != dir + [first.name]
      {
        LocalItemsHas(dir, found[1..], y);
        var i :| 0 <= i < |found[1..]| && y == Found(dir + [found[1..][i].name], found[1..][i].node.Dir?);
        assert found[1..][i] == found[i + 1];
        assert y.path[|dir|] != (dir + [first.name])[|dir|];
      }
      NoRepeatsConcat(if IsDots(first.name) then [] else [Found(dir + [first.name], first.node.Dir?)], rest);
    }
  }

  lemma PathsRunThrough(fs: FileSystem, dir: seq<string>, name: string, node: Node, w: string)
    requires node.Dir? && IsPattern(fs, w) && IsFileSystem(fs)
    ensures RunThrough(Walk(fs, dir + [name], node, w), dir, name)
    ensures forall x :: x in Walk(fs, dir + [name], node, w) && x.Found? ==> |x.path| > |dir| + 1
  {
    hide Walk;
    forall x | x in Walk(fs, dir + [name], node, w) && x.Found?
      ensures |x.path| > |dir| + 1 && x.path[|dir|] == name
    {
      WalkFindsWhatIsThere(fs, dir + [name], node, w, x.path, x.isDir);
      InsideOne(dir, name, x.path);
    }
  }

  // The walk reports each entry once.
  lemma {:induction false} WalkDoesNotRepeat(fs: FileSystem, dir: seq<string>, node: Node, w: string)
    requires node.Dir? && IsPattern(fs, w) && IsFileSystem(fs) && IsTree(fs, node)
    ensures NoRepeats(Walk(fs, dir, node, w))
    decreases node, 2, 0
  {
    hide Matching;
    if !node.denied {
      var found := Matching(fs, node.entries, w);
      MatchingDistinct(fs, node.entries, w);
      LocalNoRepeats(dir, found);
      BelowDoesNotRepeat(fs, dir, node, w);
      forall x, y | x in LocalItems(dir, found) && y in WalkBelow(fs, dir, node, w) && x.Found? && y.Found?
        ensures x.path != y.path
      {
        LocalReaches(fs, dir, node, w, x.path, x.isDir);
        BelowFindsWhatIsThere(fs, dir, node, w, y.path, y.isDir);
      }
      NoRepeatsConcat(LocalItems(dir, found), WalkBelow(fs, dir, node, w));
    }
  }

  lemma {:induction false} BelowDoesNotRepeat(fs: FileSystem, dir: seq<string>, node: Node, w: string)
    requires node.Dir? && !node.denied && IsPattern(fs, w) && IsFileSystem(fs) && IsTree(fs, node)
    ensures NoRepeats(WalkBelow(fs, dir, node, w))
    decreases node, 1, 0
  {
    var found := Matching(fs, node.entries, w);
    if NamesDirectory(fs, found, w) {
      var e := found[|found| - 1];
      MatchingHas(fs, node.entries, w, e);
      WalkDoesNotRepeat(fs, dir + [e.name], e.node, ALL);
    } else {
      FromDoesNotRepeat(fs, dir, node, w, 0);
    }
  }

  lemma {:induction false} FromDoesNotRepeat(fs: FileSystem, dir: seq<string>, node: Node, w: string, i: nat)
    requires node.Dir? && !node.denied && IsPattern(fs, w) && IsFileSystem(fs) && IsTree(fs, node)
    requires i <= |node.entries|
    ensures NoRepeats(WalkFrom(fs, dir, node, w, i))
    ensures forall x :: x in WalkFrom(fs, dir, node, w, i) && x.Found? ==>
              |x.path| > |dir| && exists j :: i <= j < |node.entries| && node.entries[j].name == x.path[|dir|]
    decreases node, 0, |node.entries| - i
  {
    hide Walk, WalkFrom, Matching;
    if i == |node.entries| {
      WalkFromEnd(fs, dir, node, w);
    } else {
      var e := node.entries[i];
      WalkFromStep(fs, dir, node, w, i);
      FromDoesNotRepeat(fs, dir, node, w, i + 1);
      if e.node.Dir? && !IsDots(e.name) {
        WalkDoesNotRepeat(fs, dir + [e.name], e.node, w);
        PathsRunThrough(fs, dir, e.name, e.node, w);
        NoRepeatsConcat(Walk(fs, dir + [e.name], e.node, w), WalkFrom(fs, dir, node, w, i + 1));
      }
    }
  }

  // ---- Order ----

  // In a directory the matches come before everything in subdirectories.
  lemma MatchesComeFirst(fs: FileSystem, dir: seq<string>, node: Node, w: string, i: nat, j: nat)
    requires node.Dir? && IsPattern(fs, w) && IsFileSystem(fs)
    requires i < j < |Walk(fs, dir, node, w)|
    requires Walk(fs, dir, node, w)[i].Found? && Walk(fs, dir, node, w)[j].Found?
    requires |Walk(fs, dir, node, w)[j].path| == |dir| + 1
    ensures |Walk(fs, dir, node, w)[i].path| == |dir| + 1
  {
    hide Walk, WalkBelow, LocalItems, Matching, Reaches;
    WalkHere(fs, dir, node, w);
    var local, below := LocalItems(dir, Matching(fs, node.entries, w)), WalkBelow(fs, dir, node, w);
    var x, y := (local + below)[i], (local + below)[j];
    if i >= |local| {
      assert y in below;
      BelowFindsWhatIsThere(fs, dir, node, w, y.path, y.isDir);
      assert false;
    } else {
      assert x in local;
      LocalReaches(fs, dir, node, w, x.path, x.isDir);
    }
  }

  lemma LocalStep(dir: seq<string>, found: seq<Entry>)
    ensures LocalItems(dir, found) ==
            if found == [] then []
            else (if IsDots(found[0].name) then [] else [Found(dir + [found[0].name], found[0].node.Dir?)])
                 + LocalItems(dir, found[1..])
  {
  }

  // They come in the order of the directory, and so do the subdirectories.
  lemma {:induction false} MatchesInOrder(dir: seq<string>, found: seq<Entry>, i: nat, j: nat)
    requires i < j < |LocalItems(dir, found)|
    ensures exists s, t :: 0 <= s < t < |found|
                        && LocalItems(dir, found)[i] == Found(dir + [found[s].name], found[s].node.Dir?)
                        && LocalItems(dir, found)[j] == Found(dir + [found[t].name], found[t].node.Dir?)
  {
    hide LocalItems;
    LocalStep(dir, found);
    var items, rest, tail := LocalItems(dir, found), LocalItems(dir, found[1..]), found[1..];
    if !IsDots(found[0].name) && i == 0 {
      LocalItemsHas(dir, tail, rest[j - 1]);
      var t :| 0 <= t < |tail| && rest[j - 1] == Found(dir + [tail[t].name], tail[t].node.Dir?);
      assert items[0] == Found(dir + [found[0].name], found[0].node.Dir?) && tail[t] == found[t + 1];
    } else {
      var d := if IsDots(found[0].name) then 0 else 1;
      MatchesInOrder(dir, tail, i - d, j - d);
      var s, t :| 0 <= s < t < |tail|
                  && rest[i - d] == Found(dir + [tail[s].name], tail[s].node.Dir?)
                  && rest[j - d] == Found(dir + [tail[t].name], tail[t].node.Dir?);
      assert tail[s] == found[s + 1] && tail[t] == found[t + 1];
    }
  }

  // What is in one subdirectory comes before what is in a later one.
  ghost predicate ComeInTurn(node: Node, k: nat, from: nat, a: seq<string>, b: seq<string>)
    requires node.Dir? && k < |a| && k < |b|
  {
    exists s, t :: from <= s <= t < |node.entries| && node.entries[s].name == a[k] && node.entries[t].name == b[k]
  }

  lemma {:induction false} SubdirectoriesInOrder(
      fs: FileSystem, dir: seq<string>, node: Node, w: string, n: nat, i: nat, j: nat)
    requires node.Dir? && !node.denied && IsPattern(fs, w) && IsFileSystem(fs) && IsTree(fs, node)
    requires n <= |node.entries| && i < j < |WalkFrom(fs, dir, node, w, n)|
    requires WalkFrom(fs, dir, node, w, n)[i].Found? && WalkFrom(fs, dir, node, w, n)[j].Found?
    ensures var a, b := WalkFrom(fs, dir, node, w, n)[i].path, WalkFrom(fs, dir, node, w, n)[j].path;
            |a| > |dir| && |b| > |dir| && ComeInTurn(node, |dir|, n, a, b)
    decreases |node.entries| - n
  {
    hide Walk, WalkFrom, Matching, IsTree, IsFileSystem;
    WalkFromEnd(fs, dir, node, w);
    WalkFromStep(fs, dir, node, w, n);
    var e, rest := node.entries[n], WalkFrom(fs, dir, node, w, n + 1);
    FromDoesNotRepeat(fs, dir, node, w, n + 1);
    if e.node.Dir? && !IsDots(e.name) {
      var inside := Walk(fs, dir + [e.name], e.node, w);
      var x, y := (inside + rest)[i], (inside + rest)[j];
      PathsRunThrough(fs, dir, e.name, e.node, w);
      if i >= |inside| {
        SubdirectoriesInOrder(fs, dir, node, w, n + 1, i - |inside|, j - |inside|);
      } else {
        assert x in inside && x.path[|dir|] == node.entries[n].name;
        assert y in inside || y in rest;
      }
    } else {
      SubdirectoriesInOrder(fs, dir, node, w, n + 1, i, j);
    }
  }
}

// How far an enumeration gets: what it lists is a beginning of the walk, and all of it exactly if every path fits its
// buffer and no empty directory is met where the pattern names it.

module FileCourseLaws {
  import opened FileTree
  import opened FileEnumerator
  import opened FileWalkLaws

  predicate IsMark(x: Item) {
    x == TooLong || x == Bare
  }

  ghost predicate IsUnmarked(items: seq<Item>) {
    forall x :: x in items ==> !IsMark(x)
  }

  function WithoutBare(items: seq<Item>): seq<Item> {
    if items == [] then [] else (if items[0] == Bare then [] else [items[0]]) + WithoutBare(items[1..])
  }

  // ---- What is listed is a beginning of the walk ----

  ghost predicate Tracks(course: seq<Item>, walk: seq<Item>) {
    && Cut(course, true) <= walk
    && (IsUnmarked(course) ==> course == walk)
    && (TooLong !in course ==> WithoutBare(course) == walk)
  }

  lemma {:induction false} CutConcat(a: seq<Item>, b: seq<Item>)
    ensures Cut(a + b, true) == if IsUnmarked(a) then a + Cut(b, true) else Cut(a, true)
  {
    hide IsUnmarked;
    UnmarkedConcat(a, b);
    if a == [] {
      assert a + b == b;
    } else {
      CutConcat(a[1..], b);
      UnmarkedConcat([a[0]], a[1..]);
      assert a == [a[0]] + a[1..] && (a + b)[1..] == a[1..] + b;
    }
  }

  lemma UnmarkedConcat(a: seq<Item>, b: seq<Item>)
    ensures IsUnmarked(a + b) <==> IsUnmarked(a) && IsUnmarked(b)
    ensures IsUnmarked([]) && (|a| == 1 ==> (IsUnmarked(a) <==> !IsMark(a[0])))
  {
  }

  lemma {:induction false} WithoutConcat(a: seq<Item>, b: seq<Item>)
    ensures WithoutBare(a + b) == WithoutBare(a) + WithoutBare(b)
  {
    hide WithoutBare;
    if a == [] {
      assert a + b == b;
      WithoutNone();
    } else {
      WithoutConcat(a[1..], b);
      WithoutFirst(a[0], a[1..]);
      WithoutFirst(a[0], a[1..] + b);
      assert a == [a[0]] + a[1..] && a + b == [a[0]] + (a[1..] + b);
    }
  }

  lemma WithoutNone()
    ensures WithoutBare([]) == []
  {
  }

  lemma WithoutFirst(x: Item, rest: seq<Item>)
    ensures WithoutBare([x] + rest) == (if x == Bare then [] else [x]) + WithoutBare(rest)
  {
    assert ([x] + rest)[1..] == rest;
  }

  lemma TracksConcat(a: seq<Item>, x: seq<Item>, b: seq<Item>, y: seq<Item>)
    requires Tracks(a, x) && Tracks(b, y)
    ensures Tracks(a + b, x + y)
  {
    hide IsUnmarked;
    CutConcat(a, b);
    UnmarkedConcat(a, b);
    WithoutConcat(a, b);
  }

  lemma TracksOne(x: Item)
    ensures Tracks([], []) && Tracks([Bare], []) && (!IsMark(x) ==> Tracks([x], [x]))
    ensures forall walk :: Tracks([TooLong], walk)
  {
    assert Cut([TooLong], true) == [] && TooLong in [TooLong];
    assert Bare in [Bare] && WithoutBare([Bare]) == [];
  }

  lemma {:induction false} LocalTracks(fs: FileSystem, dir: seq<string>, found: seq<Entry>)
    ensures Tracks(LocalCourse(fs, dir, found), LocalItems(dir, found))
  {
    hide Tracks, Fits;
    TracksOne(Refused);
    if found != [] {
      var e := found[0];
      TracksOne(Found(dir + [e.name], e.node.Dir?));
      LocalTracks(fs, dir, found[1..]);
      TracksConcat(LocalItem(fs, dir, e), if IsDots(e.name) then [] else [Found(dir + [e.name], e.node.Dir?)],
                   LocalCourse(fs, dir, found[1..]), LocalItems(dir, found[1..]));
    }
  }

  lemma {:induction false} CourseTracks(fs: FileSystem, dir: seq<string>, node: Node, w: string)
    requires node.Dir?
    ensures Tracks(Course(fs, dir, node, w), Walk(fs, dir, node, w))
    decreases node, 2, 0
  {
    hide Tracks, Course, Walk, LocalCourse, LocalItems, Matching, CourseBelow, WalkBelow;
    CourseHere(fs, dir, node, w);
    WalkHere(fs, dir, node, w);
    TracksOne(Refused);
    if !node.denied {
      LocalTracks(fs, dir, Matching(fs, node.entries, w));
      BelowTracks(fs, dir, node, w);
      TracksConcat(LocalCourse(fs, dir, Matching(fs, node.entries, w)), LocalItems(dir, Matching(fs, node.entries, w)),
                   CourseBelow(fs, dir, node, w), WalkBelow(fs, dir, node, w));
    }
  }

  lemma {:induction false} BelowTracks(fs: FileSystem, dir: seq<string>, node: Node, w: string)
    requires node.Dir?
    ensures Tracks(CourseBelow(fs, dir, node, w), WalkBelow(fs, dir, node, w))
    decreases node, 1, 0
  {
    hide Tracks, Course, Walk, CourseFrom, WalkFrom, CourseInto, CourseBelow, WalkBelow, Matching, Fits;
    TracksOne(Refused);
    var found := Matching(fs, node.entries, w);
    if NamesDirectory(fs, found, w) {
      var e := found[|found| - 1];
      assert e in node.entries;
      var i :| 0 <= i < |node.entries| && node.entries[i] == e;
      CourseBelowNamed(fs, dir, node, w, i);
      WalkBelowNamed(fs, dir, node, w, i);
      IntoTracks(fs, dir, e, ALL);
      BareWalk(fs, dir + [e.name], e.node);
    } else {
      CourseBelowAll(fs, dir, node, w);
      WalkBelowAll(fs, dir, node, w);
      FromTracks(fs, dir, node, w, 0);
    }
  }

  lemma BareWalk(fs: FileSystem, dir: seq<string>, node: Node)
    requires node.Dir?
    ensures IsBare(node) ==> Walk(fs, dir, node, ALL) == []
  {
    hide Walk, WalkBelow, WalkFrom;
    WalkHere(fs, dir, node, ALL);
    if IsBare(node) {
      WalkBelowAll(fs, dir, node, ALL);
      WalkFromEnd(fs, dir, node, ALL);
    }
  }

  lemma {:induction false} IntoTracks(fs: FileSystem, dir: seq<string>, e: Entry, w: string)
    requires e.node.Dir?
    ensures Tracks(CourseInto(fs, dir, e, w), Walk(fs, dir + [e.name], e.node, w))
    decreases e.node, 3, 0
  {
    hide Tracks, Course, Walk, FitsInside;
    TracksOne(Refused);
    CourseTracks(fs, dir + [e.name], e.node, w);
  }

  lemma {:induction false} FromTracks(fs: FileSystem, dir: seq<string>, node: Node, w: string, i: nat)
    requires node.Dir? && i <= |node.entries|
    ensures Tracks(CourseFrom(fs, dir, node, w, i), WalkFrom(fs, dir, node, w, i))
    decreases node, 0, |node.entries| - i
  {
    hide Tracks, Course, Walk, CourseFrom, WalkFrom, CourseInto;
    TracksOne(Refused);
    if i == |node.entries| {
      CourseFromEnd(fs, dir, node, w);
      WalkFromEnd(fs, dir, node, w);
    } else {
      var e := node.entries[i];
      CourseFromStep(fs, dir, node, w, i);
      WalkFromStep(fs, dir, node, w, i);
      FromTracks(fs, dir, node, w, i + 1);
      if e.node.Dir? && !IsDots(e.name) {
        IntoTracks(fs, dir, e, w);
        TracksConcat(CourseInto(fs, dir, e, w), Walk(fs, dir + [e.name], e.node, w),
                     CourseFrom(fs, dir, node, w, i + 1), WalkFrom(fs, dir, node, w, i + 1));
      }
    }
  }

  // ---- What fits ----

  // The names of a path as they stand in the buffer behind the name of the root, a backslash behind each.
  function Joined(dir: seq<string>): string {
    if dir == [] then "" else Joined(dir[..|dir| - 1]) + dir[|dir| - 1] + "\\"
  }

  // With the characters behind it and a NUL it is no longer than the buffer.
  lemma {:induction false} FitsIff(fs: FileSystem, dir: seq<string>, length: nat)
    ensures Fits(fs, dir, length) <==> fs.rootLength + |Joined(dir)| + length + 1 <= 260
  {
    if dir != [] {
      FitsIff(fs, dir[..|dir| - 1], |dir[|dir| - 1]| + 1 + length);
    }
  }

  // A name in a subdirectory fits with what joins the two.
  lemma FitsInsideIff(fs: FileSystem, dir: seq<string>, name: string, w: string)
    ensures FitsInside(fs, dir, name, w) <==> fs.rootLength + |Joined(dir + [name])| + |w| + 1 <= 260
  {
    FitsIff(fs, dir + [name], |w|);
    LongerPath(fs, dir, name);
  }

  // ---- When it is all of it ----

  // The directory is entered next from where w is in force.
  ghost predicate IsEntered(fs: FileSystem, node: Node, i: nat, w: string)
    requires node.Dir? && i < |node.entries|
  {
    var e, found := node.entries[i], Matching(fs, node.entries, w);
    e.node.Dir? && !IsDots(e.name) && (NamesDirectory(fs, found, w) ==> found[|found| - 1] == e)
  }

  // The pattern in force there.
  function Inside(fs: FileSystem, node: Node, w: string): string
    requires node.Dir?
  {
    if NamesDirectory(fs, Matching(fs, node.entries, w), w) then ALL else w
  }

  // The names p[k..] lead the walk from `node`, where w is in force, into the directory d, where v is.
  ghost predicate Enters(fs: FileSystem, node: Node, p: seq<string>, k: nat, w: string, d: Node, v: string)
    decreases node
  {
    && node.Dir? && k <= |p|
    && if k == |p| then d == node && v == w
       else
         && !node.denied
         && exists i :: 0 <= i < |node.entries| && node.entries[i].name == p[k] && IsEntered(fs, node, i, w)
                     && Enters(fs, node.entries[i].node, p, k + 1, Inside(fs, node, w), d, v)
  }

  ghost predicate LocalFits(fs: FileSystem, dir: seq<string>, found: seq<Entry>) {
    forall e :: e in found ==> IsDots(e.name) || Fits(fs, dir, |e.name|)
  }

  // All paths that are put together in this directory fit, and the pattern names no empty one in it.
  ghost predicate IsSmoothHere(fs: FileSystem, dir: seq<string>, node: Node, w: string)
    requires node.Dir?
  {
    node.denied || (
      && LocalFits(fs, dir, Matching(fs, node.entries, w))
      && (!NamesDirectory(fs, Matching(fs, node.entries, w), w) ==> Fits(fs, dir, |ALL|))
      && forall i :: 0 <= i < |node.entries| && IsEntered(fs, node, i, w) ==> CanEnter(fs, dir, node, i, w))
  }

  ghost predicate CanEnter(fs: FileSystem, dir: seq<string>, node: Node, i: nat, w: string)
    requires node.Dir? && i < |node.entries|
  {
    && FitsInside(fs, dir, node.entries[i].name, Inside(fs, node, w))
    && (NamesDirectory(fs, Matching(fs, node.entries, w), w) ==> !IsBare(node.entries[i].node))
  }

  // That holds of every directory that the walk leads to.
  ghost predicate IsSmooth(fs: FileSystem, dir: seq<string>, node: Node, w: string) {
    forall p, d, v ::
      |dir| <= |p| && p[..|dir|] == dir && Enters(fs, node, p, |dir|, w, d, v) ==> d.Dir? && IsSmoothHere(fs, p, d, v)
  }

  lemma {:induction false} LocalUnmarked(fs: FileSystem, dir: seq<string>, found: seq<Entry>)
    ensures IsUnmarked(LocalCourse(fs, dir, found)) <==> LocalFits(fs, dir, found)
  {
    hide IsUnmarked, Fits;
    if found == [] {
      UnmarkedConcat([], []);
    } else {
      LocalUnmarked(fs, dir, found[1..]);
      UnmarkedConcat(LocalItem(fs, dir, found[0]), LocalCourse(fs, dir, found[1..]));
      assert found == [found[0]] + found[1..];
    }
  }

  lemma {:induction false} FromUnmarked(fs: FileSystem, dir: seq<string>, node: Node, w: string, i: nat)
    requires node.Dir? && i <= |node.entries|
    ensures IsUnmarked(CourseFrom(fs, dir, node, w, i)) <==>
            forall j :: i <= j < |node.entries| && node.entries[j].node.Dir? && !IsDots(node.entries[j].name) ==>
              IsUnmarked(CourseInto(fs, dir, node.entries[j], w))
    decreases |node.entries| - i
  {
    hide IsUnmarked, CourseFrom, CourseInto;
    if i == |node.entries| {
      CourseFromEnd(fs, dir, node, w);
      UnmarkedConcat([], []);
    } else {
      CourseFromStep(fs, dir, node, w, i);
      FromUnmarked(fs, dir, node, w, i + 1);
      if node.entries[i].node.Dir? {
        UnmarkedConcat(CourseInto(fs, dir, node.entries[i], w), CourseFrom(fs, dir, node, w, i + 1));
      }
    }
  }

  lemma IntoUnmarked(fs: FileSystem, dir: seq<string>, e: Entry, w: string)
    requires e.node.Dir?
    ensures IsUnmarked(CourseInto(fs, dir, e, w)) <==>
            FitsInside(fs, dir, e.name, w) && IsUnmarked(Course(fs, dir + [e.name], e.node, w))
  {
    hide Course, IsUnmarked, FitsInside;
    UnmarkedConcat([TooLong], []);
  }

  // What is behind the subdirectories the walk enters from here.
  ghost predicate IsUnmarkedNext(fs: FileSystem, dir: seq<string>, node: Node, w: string)
    requires node.Dir?
  {
    forall i :: 0 <= i < |node.entries| && IsEntered(fs, node, i, w) ==>
      IsUnmarked(Course(fs, dir + [node.entries[i].name], node.entries[i].node, Inside(fs, node, w)))
  }

  lemma UnmarkedStep(fs: FileSystem, dir: seq<string>, node: Node, w: string)
    requires node.Dir? && IsPattern(fs, w)
    ensures IsUnmarked(Course(fs, dir, node, w)) <==>
            node.denied || (IsSmoothHere(fs, dir, node, w) && IsUnmarkedNext(fs, dir, node, w))
  {
    hide IsUnmarked, Course, CourseBelow, LocalCourse, Matching, LocalFits, IsSmoothHere, IsUnmarkedNext;
    CourseHere(fs, dir, node, w);
    UnmarkedConcat([Refused], []);
    if !node.denied {
      var found := Matching(fs, node.entries, w);
      LocalUnmarked(fs, dir, found);
      UnmarkedConcat(LocalCourse(fs, dir, found), CourseBelow(fs, dir, node, w));
      if NamesDirectory(fs, found, w) {
        NamedUnmarked(fs, dir, node, w);
      } else {
        AllUnmarked(fs, dir, node, w);
      }
    }
  }

  lemma NamedUnmarked(fs: FileSystem, dir: seq<string>, node: Node, w: string)
    requires node.Dir? && !node.denied && IsPattern(fs, w) && NamesDirectory(fs, Matching(fs, node.entries, w), w)
    ensures LocalFits(fs, dir, Matching(fs, node.entries, w)) && IsUnmarked(CourseBelow(fs, dir, node, w)) <==>
            IsSmoothHere(fs, dir, node, w) && IsUnmarkedNext(fs, dir, node, w)
  {
    hide IsUnmarked, Course, CourseBelow, Matching, LocalFits, FitsInside, CourseInto;
    var found := Matching(fs, node.entries, w);
    var e := found[|found| - 1];
    assert e in node.entries;
    var i :| 0 <= i < |node.entries| && node.entries[i] == e;
    CourseBelowNamed(fs, dir, node, w, i);
    IntoUnmarked(fs, dir, e, ALL);
    UnmarkedConcat([Bare], []);
    assert IsEntered(fs, node, i, w);
  }

  lemma AllUnmarked(fs: FileSystem, dir: seq<string>, node: Node, w: string)
    requires node.Dir? && !node.denied && !NamesDirectory(fs, Matching(fs, node.entries, w), w)
    ensures LocalFits(fs, dir, Matching(fs, node.entries, w)) && IsUnmarked(CourseBelow(fs, dir, node, w)) <==>
            IsSmoothHere(fs, dir, node, w) && IsUnmarkedNext(fs, dir, node, w)
  {
    hide IsUnmarked, Course, CourseBelow, CourseFrom, Matching, LocalFits, FitsInside, CourseInto, Fits;
    CourseBelowAll(fs, dir, node, w);
    FromUnmarked(fs, dir, node, w, 0);
    UnmarkedConcat([TooLong], []);
    forall i | 0 <= i < |node.entries| && IsEntered(fs, node, i, w)
      ensures IsUnmarked(CourseInto(fs, dir, node.entries[i], w)) <==>
              CanEnter(fs, dir, node, i, w)
              && IsUnmarked(Course(fs, dir + [node.entries[i].name], node.entries[i].node, Inside(fs, node, w)))
    {
      IntoUnmarked(fs, dir, node.entries[i], w);
    }
    assert forall i :: 0 <= i < |node.entries| ==>
      (IsEntered(fs, node, i, w) <==> node.entries[i].node.Dir? && !IsDots(node.entries[i].name));
  }

  ghost predicate IsSmoothNext(fs: FileSystem, dir: seq<string>, node: Node, w: string)
    requires node.Dir?
  {
    forall i :: 0 <= i < |node.entries| && IsEntered(fs, node, i, w) ==>
      IsSmooth(fs, dir + [node.entries[i].name], node.entries[i].node, Inside(fs, node, w))
  }

  lemma SmoothStep(fs: FileSystem, dir: seq<string>, node: Node, w: string)
    requires node.Dir?
    ensures IsSmooth(fs, dir, node, w) <==>
            node.denied || (IsSmoothHere(fs, dir, node, w) && IsSmoothNext(fs, dir, node, w))
  {
    hide IsSmoothHere, IsEntered, Inside, IsSmooth;
    DeniedIsSmoothHere(fs, dir, node, w);
    if IsSmooth(fs, dir, node, w) {
      SmoothIsSmoothHere(fs, dir, node, w);
      if !node.denied {
        forall i | 0 <= i < |node.entries| && IsEntered(fs, node, i, w)
          ensures IsSmooth(fs, dir + [node.entries[i].name], node.entries[i].node, Inside(fs, node, w))
        {
          SmoothGoesDown(fs, dir, node, w, i);
        }
      }
    }
    if IsSmoothHere(fs, dir, node, w) && (node.denied || IsSmoothNext(fs, dir, node, w)) {
      SmoothComesUp(fs, dir, node, w);
    }
  }

  lemma DeniedIsSmoothHere(fs: FileSystem, dir: seq<string>, node: Node, w: string)
    requires node.Dir?
    ensures node.denied ==> IsSmoothHere(fs, dir, node, w)
  {
  }

  lemma SmoothIsSmoothHere(fs: FileSystem, dir: seq<string>, node: Node, w: string)
    requires node.Dir? && IsSmooth(fs, dir, node, w)
    ensures IsSmoothHere(fs, dir, node, w)
  {
    hide IsSmoothHere;
    assert dir[..|dir|] == dir && Enters(fs, node, dir, |dir|, w, node, w);
  }

  lemma SmoothGoesDown(fs: FileSystem, dir: seq<string>, node: Node, w: string, i: nat)
    requires node.Dir? && !node.denied && i < |node.entries| && IsEntered(fs, node, i, w) && IsSmooth(fs, dir, node, w)
    ensures IsSmooth(fs, dir + [node.entries[i].name], node.entries[i].node, Inside(fs, node, w))
  {
    hide IsSmoothHere, IsEntered, Inside;
    var e := node.entries[i];
    var longer := dir + [e.name];
    forall p, d, v | |longer| <= |p| && p[..|longer|] == longer
                     && Enters(fs, e.node, p, |longer|, Inside(fs, node, w), d, v)
      ensures d.Dir? && IsSmoothHere(fs, p, d, v)
    {
      assert p[|dir|] == p[..|longer|][|dir|] && p[..|dir|] == p[..|longer|][..|dir|];
      assert Enters(fs, node, p, |dir|, w, d, v);
    }
  }

  lemma SmoothComesUp(fs: FileSystem, dir: seq<string>, node: Node, w: string)
    requires node.Dir? && IsSmoothHere(fs, dir, node, w) && (node.denied || IsSmoothNext(fs, dir, node, w))
    ensures IsSmooth(fs, dir, node, w)
  {
    hide IsSmoothHere, IsEntered, Inside;
    forall p, d, v | |dir| <= |p| && p[..|dir|] == dir && Enters(fs, node, p, |dir|, w, d, v)
      ensures d.Dir? && IsSmoothHere(fs, p, d, v)
    {
      if |p| == |dir| {
        assert p == dir;
      } else {
        var i :| 0 <= i < |node.entries| && node.entries[i].name == p[|dir|] && IsEntered(fs, node, i, w)
                 && Enters(fs, node.entries[i].node, p, |dir| + 1, Inside(fs, node, w), d, v);
        var longer := dir + [node.entries[i].name];
        assert p[..|longer|] == p[..|dir|] + [p[|dir|]];
        assert IsSmooth(fs, longer, node.entries[i].node, Inside(fs, node, w));
      }
    }
  }

  // The walk meets nothing that makes it end if and only if every directory it leads to is like that.
  lemma {:induction false} UnmarkedIffSmooth(fs: FileSystem, dir: seq<string>, node: Node, w: string)
    requires node.Dir? && IsPattern(fs, w) && IsFileSystem(fs)
    ensures IsUnmarked(Course(fs, dir, node, w)) <==> IsSmooth(fs, dir, node, w)
    decreases node
  {
    hide IsUnmarked, IsSmooth, IsSmoothHere, Course, Matching, IsTree;
    UnmarkedStep(fs, dir, node, w);
    SmoothStep(fs, dir, node, w);
    forall i | 0 <= i < |node.entries| && IsEntered(fs, node, i, w)
      ensures IsUnmarked(Course(fs, dir + [node.entries[i].name], node.entries[i].node, Inside(fs, node, w))) <==>
              IsSmooth(fs, dir + [node.entries[i].name], node.entries[i].node, Inside(fs, node, w))
    {
      UnmarkedIffSmooth(fs, dir + [node.entries[i].name], node.entries[i].node, Inside(fs, node, w));
    }
  }

  // ---- A whole enumeration ----

  // What there is to be listed.
  function Expected(fs: FileSystem, fdeep: bool, dir: seq<string>, node: Node, pattern: string): seq<Item>
    requires node.Dir?
  {
    if pattern == "" then [Found(dir, true)] + if fdeep then Walk(fs, dir, node, ALL) else []
    else if node.denied then [Refused]
    else
      LocalItems(dir, Matching(fs, node.entries, pattern))
      + if fdeep then WalkBelow(fs, dir, node, pattern) else []
  }

  // No path is too long and no named directory is empty, wherever it leads.
  ghost predicate RunsThrough(fs: FileSystem, fdeep: bool, dir: seq<string>, node: Node, pattern: string)
    requires node.Dir?
  {
    if fdeep then IsSmooth(fs, dir, node, if pattern == "" then ALL else pattern)
    else pattern == "" || node.denied || LocalFits(fs, dir, Matching(fs, node.entries, pattern))
  }

  lemma ComingTracks(fs: FileSystem, fdeep: bool, dir: seq<string>, node: Node, pattern: string)
    requires node.Dir? && IsFileSystem(fs) && (pattern == "" || IsPattern(fs, pattern))
    ensures Tracks(Coming(fs, fdeep, dir, node, pattern), Expected(fs, fdeep, dir, node, pattern))
    ensures IsUnmarked(Coming(fs, fdeep, dir, node, pattern)) <==> RunsThrough(fs, fdeep, dir, node, pattern)
  {
    hide Tracks, IsUnmarked, Course, Walk, CourseBelow, WalkBelow, Matching, LocalCourse, LocalItems, IsSmooth;
    hide IsFileSystem, LocalFits;
    ALLIsPattern(fs);
    TracksOne(Found(dir, true));
    TracksOne(Refused);
    UnmarkedConcat([Refused], []);
    if pattern == "" {
      RootTracks(fs, fdeep, dir, node);
    } else if fdeep {
      ComingIsCourse(fs, dir, node, pattern);
      WalkHere(fs, dir, node, pattern);
      CourseTracks(fs, dir, node, pattern);
      UnmarkedIffSmooth(fs, dir, node, pattern);
    } else if !node.denied {
      var found := Matching(fs, node.entries, pattern);
      LocalTracks(fs, dir, found);
      LocalUnmarked(fs, dir, found);
      assert LocalCourse(fs, dir, found) + [] == LocalCourse(fs, dir, found);
      assert LocalItems(dir, found) + [] == LocalItems(dir, found);
    }
  }

  lemma ALLIsPattern(fs: FileSystem)
    requires IsFileSystem(fs)
    ensures IsPattern(fs, ALL)
  {
    hide IsTree;
  }

  lemma RootTracks(fs: FileSystem, fdeep: bool, dir: seq<string>, node: Node)
    requires node.Dir? && IsFileSystem(fs)
    ensures Tracks(Coming(fs, fdeep, dir, node, ""), Expected(fs, fdeep, dir, node, ""))
    ensures IsUnmarked(Coming(fs, fdeep, dir, node, "")) <==> RunsThrough(fs, fdeep, dir, node, "")
  {
    hide Tracks, IsUnmarked, Course, Walk, IsSmooth, IsFileSystem;
    ALLIsPattern(fs);
    TracksOne(Found(dir, true));
    UnmarkedConcat([Found(dir, true)], []);
    if fdeep {
      CourseTracks(fs, dir, node, ALL);
      TracksConcat([Found(dir, true)], [Found(dir, true)], Course(fs, dir, node, ALL), Walk(fs, dir, node, ALL));
      UnmarkedConcat([Found(dir, true)], Course(fs, dir, node, ALL));
      UnmarkedIffSmooth(fs, dir, node, ALL);
    } else {
      assert [Found(dir, true)] + [] == [Found(dir, true)];
    }
  }

  // ---- An empty directory is found before it ends the walk ----

  ghost predicate IsAnnounced(items: seq<Item>) {
    forall k :: 0 <= k < |items| && items[k] == Bare ==> k > 0 && Announces(items[k - 1])
  }

  predicate Announces(x: Item) {
    x == TooLong || (x.Found? && x.path != [])
  }

  lemma AnnouncedConcat(a: seq<Item>, b: seq<Item>)
    requires IsAnnounced(a) && (IsAnnounced(b) || (a != [] && Announces(a[|a| - 1]) && b == [Bare]))
    ensures IsAnnounced(a + b)
  {
  }

  lemma {:induction false} LocalAnnounces(fs: FileSystem, dir: seq<string>, found: seq<Entry>)
    ensures IsAnnounced(LocalCourse(fs, dir, found))
    ensures var items := LocalCourse(fs, dir, found);
            found != [] && !IsDots(found[|found| - 1].name) ==> items != [] && Announces(items[|items| - 1])
  {
    hide IsAnnounced, Announces, LocalItem;
    OneAnnounced();
    if found != [] {
      var first, rest := LocalItem(fs, dir, found[0]), LocalCourse(fs, dir, found[1..]);
      ItemAnnounces(fs, dir, found[0]);
      LocalAnnounces(fs, dir, found[1..]);
      AnnouncedConcat(first, rest);
      if |found| > 1 {
        assert found[1..][|found| - 2] == found[|found| - 1];
        assert rest != [] ==> (first + rest)[|first + rest| - 1] == rest[|rest| - 1];
      }
    }
  }

  lemma ItemAnnounces(fs: FileSystem, dir: seq<string>, e: Entry)
    ensures var item := LocalItem(fs, dir, e);
            IsAnnounced(item) && (!IsDots(e.name) ==> |item| == 1 && Announces(item[0]))
  {
    hide Fits;
  }

  lemma {:induction false} CourseIsAnnounced(fs: FileSystem, dir: seq<string>, node: Node, w: string)
    requires node.Dir? && IsPattern(fs, w) && IsFileSystem(fs)
    ensures IsAnnounced(Course(fs, dir, node, w))
    decreases node, 1, 0
  {
    hide IsAnnounced, Announces, Course, CourseBelow, LocalCourse, Matching, CourseFrom, CourseInto, IsTree, Fits;
    CourseHere(fs, dir, node, w);
    OneAnnounced();
    if !node.denied {
      var found := Matching(fs, node.entries, w);
      LocalAnnounces(fs, dir, found);
      if NamesDirectory(fs, found, w) {
        var e := found[|found| - 1];
        assert e in node.entries;
        var i :| 0 <= i < |node.entries| && node.entries[i] == e;
        CourseBelowNamed(fs, dir, node, w, i);
        IntoIsAnnounced(fs, dir, e, ALL);
      } else {
        CourseBelowAll(fs, dir, node, w);
        FromIsAnnounced(fs, dir, node, w, 0);
      }
      AnnouncedConcat(LocalCourse(fs, dir, found), CourseBelow(fs, dir, node, w));
    }
  }

  lemma OneAnnounced()
    ensures IsAnnounced([]) && IsAnnounced([Refused]) && IsAnnounced([TooLong])
    ensures forall path, isDir :: IsAnnounced([Found(path, isDir)])
  {
  }

  lemma {:induction false} IntoIsAnnounced(fs: FileSystem, dir: seq<string>, e: Entry, w: string)
    requires e.node.Dir? && IsPattern(fs, w) && IsFileSystem(fs)
    ensures IsAnnounced(CourseInto(fs, dir, e, w))
    decreases e.node, 2, 0
  {
    hide IsAnnounced, Course, FitsInside, IsTree;
    OneAnnounced();
    CourseIsAnnounced(fs, dir + [e.name], e.node, w);
  }

  lemma {:induction false} FromIsAnnounced(fs: FileSystem, dir: seq<string>, node: Node, w: string, i: nat)
    requires node.Dir? && i <= |node.entries| && IsPattern(fs, w) && IsFileSystem(fs)
    ensures IsAnnounced(CourseFrom(fs, dir, node, w, i))
    decreases node, 0, |node.entries| - i
  {
    hide IsAnnounced, CourseFrom, CourseInto, IsTree;
    OneAnnounced();
    if i == |node.entries| {
      CourseFromEnd(fs, dir, node, w);
    } else {
      CourseFromStep(fs, dir, node, w, i);
      FromIsAnnounced(fs, dir, node, w, i + 1);
      if node.entries[i].node.Dir? {
        IntoIsAnnounced(fs, dir, node.entries[i], w);
        AnnouncedConcat(CourseInto(fs, dir, node.entries[i], w), CourseFrom(fs, dir, node, w, i + 1));
      }
    }
  }

  lemma ComingIsAnnounced(fs: FileSystem, fdeep: bool, dir: seq<string>, node: Node, pattern: string)
    requires node.Dir? && IsFileSystem(fs) && (if pattern == "" then dir == [] else IsPattern(fs, pattern))
    ensures IsAnnounced(Coming(fs, fdeep, dir, node, pattern))
  {
    hide IsAnnounced, Course, CourseBelow, LocalCourse, Matching, IsFileSystem;
    OneAnnounced();
    ALLIsPattern(fs);
    CourseIsAnnounced(fs, dir, node, ALL);
    if pattern != "" {
      ComingIsCourse(fs, dir, node, pattern);
      CourseIsAnnounced(fs, dir, node, pattern);
      LocalAnnounces(fs, dir, Matching(fs, node.entries, pattern));
      assert LocalCourse(fs, dir, Matching(fs, node.entries, pattern)) + []
          == LocalCourse(fs, dir, Matching(fs, node.entries, pattern));
    } else if fdeep {
      AnnouncedConcat([Found(dir, true)], Course(fs, dir, node, ALL));
    } else {
      assert [Found(dir, true)] + [] == [Found(dir, true)];
    }
  }

  // ---- What the caller can rely on ----

  // The status is the one for the end, or nothing but the root of a drive was to be found.
  predicate IsReportedComplete(items: seq<Item>, ret: Status) {
    ret == NoMoreFiles || (ret == FileNotFound && (items == [] || items == [Found([], true)]))
  }

  // A caller that goes on after refusals always gets a beginning of what there is. Unless the very first thing is a
  // refusal, it is told that it has everything if and only if nothing on the way makes the walk end, and then it has.
  lemma CompletesIff(fs: FileSystem, fdeep: bool, dir: seq<string>, node: Node, pattern: string,
                     items: seq<Item>, ret: Status)
    requires node.Dir? && IsFileSystem(fs) && (if pattern == "" then dir == [] else IsPattern(fs, pattern))
    requires IsOutcome(Coming(fs, fdeep, dir, node, pattern), true, items, ret)
    ensures items <= Expected(fs, fdeep, dir, node, pattern)
    ensures IsReportedComplete(items, ret) ==> items == Expected(fs, fdeep, dir, node, pattern)
    ensures var coming := Coming(fs, fdeep, dir, node, pattern);
            if coming != [] && coming[0] == Refused then items == [] && ret == AccessDenied
            else IsReportedComplete(items, ret) <==> RunsThrough(fs, fdeep, dir, node, pattern)
  {
    hide Coming, Expected, RunsThrough, IsUnmarked, IsFileSystem, Cut, WithoutBare;
    var coming := Coming(fs, fdeep, dir, node, pattern);
    ComingTracks(fs, fdeep, dir, node, pattern);
    ComingIsAnnounced(fs, fdeep, dir, node, pattern);
    if !(coming != [] && coming[0] == Refused) {
      CutIs(coming);
      assert |items| == |coming| ==> items == coming;
      assert |items| > 0 ==> items[|items| - 1] == coming[|items| - 1];
    }
  }

  // Cutting takes away what comes from the first mark on.
  lemma {:induction false} CutIs(items: seq<Item>)
    ensures var k := |Cut(items, true)|;
            && k <= |items| && Cut(items, true) == items[..k] && (k < |items| ==> IsMark(items[k]))
            && (k == |items| <==> IsUnmarked(items))
  {
    if items != [] && !IsStop(items[0], true) {
      CutIs(items[1..]);
      assert items == [items[0]] + items[1..];
      UnmarkedConcat([items[0]], items[1..]);
    }
  }

  // Where every path fits, all is listed exactly if nothing comes behind an empty named directory. That is so where
  // such a directory is in the one the enumeration starts from, but in general not further down.
  lemma AllButIsListedIff(fs: FileSystem, fdeep: bool, dir: seq<string>, node: Node, pattern: string)
    requires node.Dir? && IsFileSystem(fs) && (pattern == "" || IsPattern(fs, pattern))
    requires TooLong !in Coming(fs, fdeep, dir, node, pattern)
    ensures var coming := Coming(fs, fdeep, dir, node, pattern);
            Cut(coming, true) == Expected(fs, fdeep, dir, node, pattern) <==>
            forall i, j :: 0 <= i < j < |coming| && coming[i] == Bare ==> coming[j] == Bare
  {
    hide Coming, Expected, RunsThrough, IsUnmarked, IsFileSystem, Cut, WithoutBare;
    var coming := Coming(fs, fdeep, dir, node, pattern);
    ComingTracks(fs, fdeep, dir, node, pattern);
    CutIs(coming);
    var k := |Cut(coming, true)|;
    CutIsUnmarked(coming);
    WithoutIsSame(coming[..k]);
    WithoutConcat(coming[..k], coming[k..]);
    WithoutIsNothingIff(coming[k..]);
    assert coming == coming[..k] + coming[k..];
    NoneBehindIff(coming, k);
  }

  lemma NoneBehindIff(items: seq<Item>, k: nat)
    requires k <= |items| && (forall x :: x in items[..k] ==> !IsMark(x)) && TooLong !in items
    requires k < |items| ==> IsMark(items[k])
    ensures (forall x :: x in items[k..] ==> x == Bare) <==>
            forall i, j :: 0 <= i < j < |items| && items[i] == Bare ==> items[j] == Bare
  {
    forall i | 0 <= i < k
      ensures items[i] != Bare
    {
      assert items[..k][i] in items[..k];
    }
    assert k < |items| ==> items[k] in items;
    forall j | k <= j < |items|
      ensures items[j] in items[k..]
    {
      assert items[k..][j - k] == items[j];
    }
  }

  lemma {:induction false} CutIsUnmarked(items: seq<Item>)
    ensures forall x :: x in Cut(items, true) ==> !IsMark(x)
  {
    if items != [] {
      CutIsUnmarked(items[1..]);
    }
  }

  lemma {:induction false} WithoutIsSame(items: seq<Item>)
    requires Bare !in items
    ensures WithoutBare(items) == items
  {
    if items != [] {
      WithoutIsSame(items[1..]);
    }
  }

  lemma {:induction false} WithoutIsNothingIff(items: seq<Item>)
    ensures WithoutBare(items) == [] <==> forall x :: x in items ==> x == Bare
  {
    if items != [] {
      WithoutIsNothingIff(items[1..]);
      assert items == [items[0]] + items[1..];
      assert items[0] in items && forall x :: x in items[1..] ==> x in items;
    }
  }

  // ---- Examples ----

  // A drive where every name matches itself alone.
  function Drive(x: Entry, y: Entry): FileSystem {
    FileSystem(Dir(false, [x, y]), DRIVE, (w: string, name: string) => w == ALL || w == name,
               (a: string, b: string) => a == b)
  }

  ghost predicate IsPlain(fs: FileSystem) {
    && fs.rootLength == DRIVE
    && (forall w, name :: fs.matches(w, name) <==> w == ALL || w == name)
    && (forall a, b :: fs.same(a, b) <==> a == b)
  }

  predicate IsName(name: string) {
    name != "" && name != ALL && !IsDots(name)
  }

  // A directory with one entry.
  function With(e: Entry): Node {
    Dir(false, [e])
  }

  lemma WithIsTree(fs: FileSystem, e: Entry)
    requires IsPlain(fs) && IsName(e.name) && (e.node.File? || e.node == Dir(false, []))
    ensures IsTree(fs, With(e))
  {
    assert IsTree(fs, e.node);
  }

  lemma MatchesItself(fs: FileSystem, e: Entry, w: string)
    requires IsPlain(fs) && w != ALL
    ensures Matching(fs, [e], w) == if e.name == w then [e] else []
  {
    assert [e][1..] == [];
  }

  lemma OneFile(fs: FileSystem, dir: seq<string>, w: string)
    requires IsPlain(fs) && IsName(w) && Fits(fs, dir, |w|) && Fits(fs, dir, |ALL|)
    ensures Course(fs, dir, With(Entry(w, File)), w) == [Found(dir + [w], false)]
    ensures Walk(fs, dir, With(Entry(w, File)), w) == [Found(dir + [w], false)]
  {
    hide Course, CourseBelow, CourseFrom, Walk, WalkBelow, WalkFrom, Matching, Fits, IsPlain;
    var e := Entry(w, File);
    var node := With(e);
    MatchesItself(fs, e, w);
    LocalOne(fs, dir, e);
    CourseHere(fs, dir, node, w);
    CourseBelowAll(fs, dir, node, w);
    CourseFromStep(fs, dir, node, w, 0);
    CourseFromEnd(fs, dir, node, w);
    WalkHere(fs, dir, node, w);
    WalkBelowAll(fs, dir, node, w);
    WalkFromStep(fs, dir, node, w, 0);
    WalkFromEnd(fs, dir, node, w);
  }

  lemma LocalOne(fs: FileSystem, dir: seq<string>, e: Entry)
    requires IsName(e.name) && Fits(fs, dir, |e.name|)
    ensures LocalCourse(fs, dir, [e]) == LocalItems(dir, [e]) == [Found(dir + [e.name], e.node.Dir?)]
  {
    assert [e][1..] == [];
  }

  lemma OneBareDirectory(fs: FileSystem, dir: seq<string>, w: string)
    requires IsPlain(fs) && IsName(w) && FitsInside(fs, dir, w, ALL)
    ensures Course(fs, dir, With(Entry(w, Dir(false, []))), w) == [Found(dir + [w], true), Bare]
    ensures Walk(fs, dir, With(Entry(w, Dir(false, []))), w) == [Found(dir + [w], true)]
  {
    hide Course, CourseBelow, Walk, WalkBelow, Matching;
    var e := Entry(w, Dir(false, []));
    MatchesItself(fs, e, w);
    LocalOne(fs, dir, e);
    CourseHere(fs, dir, With(e), w);
    WalkHere(fs, dir, With(e), w);
    CourseBelowNamed(fs, dir, With(e), w, 0);
    WalkBelowNamed(fs, dir, With(e), w, 0);
    BareWalk(fs, dir + [w], e.node);
  }

  // Nothing in the root matches; the two directories in it come one after the other.
  lemma TwoDirectories(x: Entry, y: Entry, w: string)
    requires x.node.Dir? && y.node.Dir? && IsName(x.name) && IsName(y.name) && IsName(w)
    requires x.name != y.name && w != x.name && w != y.name
    requires IsTree(Drive(x, y), x.node) && IsTree(Drive(x, y), y.node)
    ensures var fs := Drive(x, y);
            && IsFileSystem(fs) && IsPattern(fs, w) && IsPlain(fs)
            && Coming(fs, true, [], fs.root, w) == CourseInto(fs, [], x, w) + CourseInto(fs, [], y, w)
            && Expected(fs, true, [], fs.root, w) == Walk(fs, [x.name], x.node, w) + Walk(fs, [y.name], y.node, w)
  {
    hide CourseInto, Walk, CourseBelow, WalkBelow, Matching, IsFileSystem, IsTree, Fits;
    DriveIsFileSystem(x, y);
    NeitherMatches(Drive(x, y), x, y, w);
    OneAfterTheOther(Drive(x, y), x, y, w);
    assert [] + [x.name] == [x.name] && [] + [y.name] == [y.name];
  }

  lemma OneAfterTheOther(fs: FileSystem, x: Entry, y: Entry, w: string)
    requires fs.root == Dir(false, [x, y]) && x.node.Dir? && y.node.Dir? && IsName(x.name) && IsName(y.name)
    requires Matching(fs, fs.root.entries, w) == [] && Fits(fs, [], |ALL|)
    ensures CourseBelow(fs, [], fs.root, w) == CourseInto(fs, [], x, w) + CourseInto(fs, [], y, w)
    ensures WalkBelow(fs, [], fs.root, w) == Walk(fs, [] + [x.name], x.node, w) + Walk(fs, [] + [y.name], y.node, w)
  {
    hide CourseInto, Walk, CourseBelow, WalkBelow, WalkFrom, CourseFrom, Matching, Fits, IsDots;
    NamesAreNoDots(x, y);
    CourseBelowAll(fs, [], fs.root, w);
    WalkBelowAll(fs, [], fs.root, w);
    FromBoth(fs, x, y, w);
  }

  lemma NamesAreNoDots(x: Entry, y: Entry)
    requires IsName(x.name) && IsName(y.name)
    ensures !IsDots(x.name) && !IsDots(y.name)
  {
  }

  lemma FromBoth(fs: FileSystem, x: Entry, y: Entry, w: string)
    requires fs.root == Dir(false, [x, y]) && x.node.Dir? && y.node.Dir? && !IsDots(x.name) && !IsDots(y.name)
    ensures CourseFrom(fs, [], fs.root, w, 0) == CourseInto(fs, [], x, w) + CourseInto(fs, [], y, w)
    ensures WalkFrom(fs, [], fs.root, w, 0)
            == Walk(fs, [] + [x.name], x.node, w) + Walk(fs, [] + [y.name], y.node, w)
  {
    hide *;
    var entries := fs.root.entries;
    assert |entries| == 2 && entries[0] == x && entries[1] == y;
    CourseFromStep(fs, [], fs.root, w, 0);
    CourseFromStep(fs, [], fs.root, w, 1);
    CourseFromEnd(fs, [], fs.root, w);
    NothingBehind(CourseInto(fs, [], y, w));
    WalkFromStep(fs, [], fs.root, w, 0);
    WalkFromStep(fs, [], fs.root, w, 1);
    WalkFromEnd(fs, [], fs.root, w);
    NothingBehind(Walk(fs, [] + [y.name], y.node, w));
  }

  lemma NothingBehind(items: seq<Item>)
    ensures items + [] == items
  {
  }

  lemma DriveIsFileSystem(x: Entry, y: Entry)
    requires IsName(x.name) && IsName(y.name) && x.name != y.name
    requires IsTree(Drive(x, y), x.node) && IsTree(Drive(x, y), y.node)
    ensures IsFileSystem(Drive(x, y)) && Fits(Drive(x, y), [], |ALL|)
  {
  }

  lemma NeitherMatches(fs: FileSystem, x: Entry, y: Entry, w: string)
    requires !fs.matches(w, x.name) && !fs.matches(w, y.name)
    ensures Matching(fs, [x, y], w) == []
  {
    assert [y][1..] == [] && Matching(fs, [y], w) == [];
    assert [x, y][1..] == [y];
  }

  // What the caller gets, and what it does not get.
  ghost predicate Misses(fs: FileSystem, pattern: string, items: seq<Item>, ret: Status, missed: seq<Item>) {
    && IsFileSystem(fs) && fs.root.Dir? && IsPattern(fs, pattern)
    && IsOutcome(Coming(fs, true, [], fs.root, pattern), true, items, ret)
    && Expected(fs, true, [], fs.root, pattern) == items + missed
  }

  lemma StopsAt(items: seq<Item>, x: Item, after: seq<Item>, ret: Status)
    requires IsUnmarked(items) && IsMark(x) && Ends(x, ret) && (items != [] ==> items[0] != Refused)
    ensures IsOutcome(items + ([x] + after), true, items, ret)
  {
    CutConcat(items, [x] + after);
    assert Cut([x] + after, true) == [];
  }

  // A directory with a name of 255 characters, and a sibling behind it.
  lemma LongNameCutsOffASibling(long: string)
    requires |long| == 255
    ensures Misses(Drive(Entry(long, Dir(false, [])), Entry("b", With(Entry("f", File)))), "f",
                   [], InsufficientBuffer, [Found(["b", "f"], false)])
  {
    hide Course, Walk, Coming, Expected, IsFileSystem, IsPlain, IsOutcome;
    var x, y := Entry(long, Dir(false, [])), Entry("b", With(Entry("f", File)));
    var fs := Drive(x, y);
    DriveIsPlain(x, y);
    WithIsTree(fs, Entry("f", File));
    TwoDirectories(x, y, "f");
    LongerPath(fs, [], "b");
    OneFile(fs, ["b"], "f");
    BareWalksNowhere(fs, [long], "f");
    StopsAt([], TooLong, [Found(["b", "f"], false)], InsufficientBuffer);
    assert ["b"] + ["f"] == ["b", "f"] && [] + ["b"] == ["b"];
    assert [] + ([TooLong] + [Found(["b", "f"], false)]) == [TooLong] + [Found(["b", "f"], false)];
  }

  lemma DriveIsPlain(x: Entry, y: Entry)
    ensures IsPlain(Drive(x, y)) && IsName("f") && IsName("x") && IsName("a") && IsName("b")
    ensures "a" != "b" && "f" != "a" && "f" != "b" && "x" != "a" && "x" != "b"
  {
    assert "a"[0] == 'a' && "b"[0] == 'b' && "f"[0] == 'f' && "x"[0] == 'x';
  }

  lemma BareWalksNowhere(fs: FileSystem, dir: seq<string>, w: string)
    requires fs.rootLength == DRIVE
    ensures Walk(fs, dir, Dir(false, []), w) == []
  {
    WalkFromEnd(fs, dir, Dir(false, []), w);
  }

  // An empty directory that the pattern names, one level down, and a sibling of its parent.
  lemma BareNameCutsOffASibling()
    ensures Misses(Drive(Entry("a", With(Entry("x", Dir(false, [])))), Entry("b", With(Entry("x", File)))), "x",
                   [Found(["a", "x"], true)], FileNotFound, [Found(["b", "x"], false)])
  {
    hide Course, Walk, Coming, Expected, IsFileSystem, IsPlain, IsOutcome;
    var x, y := Entry("a", With(Entry("x", Dir(false, [])))), Entry("b", With(Entry("x", File)));
    var fs := Drive(x, y);
    DriveIsPlain(x, y);
    WithIsTree(fs, Entry("x", File));
    WithIsTree(fs, Entry("x", Dir(false, [])));
    TwoDirectories(x, y, "x");
    LongerPath(fs, [], "a");
    LongerPath(fs, [], "b");
    OneBareDirectory(fs, ["a"], "x");
    OneFile(fs, ["b"], "x");
    StopsAt([Found(["a", "x"], true)], Bare, [Found(["b", "x"], false)], FileNotFound);
    assert ["b"] + ["x"] == ["b", "x"] && ["a"] + ["x"] == ["a", "x"];
    assert [] + ["a"] == ["a"] && [] + ["b"] == ["b"];
    assert [Found(["a", "x"], true)] + ([Bare] + [Found(["b", "x"], false)])
        == [Found(["a", "x"], true), Bare] + [Found(["b", "x"], false)];
  }

  // A refusal before the first match.
  lemma EarlyRefusalLosesAll()
    ensures Misses(Drive(Entry("a", Dir(true, [])), Entry("b", With(Entry("f", File)))), "f",
                   [], AccessDenied, [Refused, Found(["b", "f"], false)])
  {
    hide Course, Walk, Coming, Expected, IsFileSystem, IsPlain;
    var x, y := Entry("a", Dir(true, [])), Entry("b", With(Entry("f", File)));
    var fs := Drive(x, y);
    DriveIsPlain(x, y);
    WithIsTree(fs, Entry("f", File));
    TwoDirectories(x, y, "f");
    LongerPath(fs, [], "a");
    LongerPath(fs, [], "b");
    CourseHere(fs, ["a"], x.node, "f");
    WalkHere(fs, ["a"], x.node, "f");
    OneFile(fs, ["b"], "f");
    assert ["b"] + ["f"] == ["b", "f"] && [] + ["a"] == ["a"] && [] + ["b"] == ["b"];
  }
}

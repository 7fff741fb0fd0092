// Directory trees as FindFirstFile and FindNextFile show them, and what a recursive
// walk of one has to report.

module FileTree {
  import opened Wrappers

  // A directory lists its entries in a fixed order, "." and ".." among them.
  datatype Node = File | Dir(denied: bool, entries: seq<Entry>)
  datatype Entry = Entry(name: string, node: Node)

  // The file system, the length of its root's name, how it matches names against a pattern, and
  // _wcsicmp(...) == 0.
  datatype FileSystem = FileSystem(
    root: Node, rootLength: nat, matches: (string, string) -> bool, same: (string, string) -> bool)

  const ALL := "*.*"
  const MAX_PATH := 260
  const DRIVE := 3 // the length of the root of a drive

  predicate IsDots(name: string) {
    name == "." || name == ".."
  }

  function Lookup(entries: seq<Entry>, name: string): Option<Node> {
    if entries == [] then None
    else if entries[0].name == name then Some(entries[0].node)
    else Lookup(entries[1..], name)
  }

  // The node a path of names leads to.
  function Resolve(root: Node, path: seq<string>): Option<Node> {
    if path == [] then Some(root)
    else match Resolve(root, path[..|path| - 1])
      case Some(Dir(_, entries)) => Lookup(entries, path[|path| - 1])
      case _ => None
  }

  // Names are told apart and are no patterns.
  ghost predicate IsTree(fs: FileSystem, node: Node)
    decreases node
  {
    node.Dir? ==>
      && (forall i, j :: 0 <= i < j < |node.entries| ==> node.entries[i].name != node.entries[j].name)
      && (forall i :: 0 <= i < |node.entries| ==>
            && !fs.same(ALL, node.entries[i].name)
            && node.entries[i].name != ""
            && IsTree(fs, node.entries[i].node)
            && (IsDots(node.entries[i].name) ==> node.entries[i].node.Dir?))
  }

  ghost predicate IsFileSystem(fs: FileSystem) {
    && fs.root.Dir?
    && IsTree(fs, fs.root)
    && (forall name :: fs.matches(ALL, name))
    && fs.same("", "") && !fs.same(ALL, "") && IsPattern(fs, ALL)
  }

  // A pattern names neither "." nor "..": full path names do not end in them.
  predicate IsPattern(fs: FileSystem, w: string) {
    w != "" && !fs.same(w, ".") && !fs.same(w, "..")
  }

  function Matching(fs: FileSystem, entries: seq<Entry>, w: string): (m: seq<Entry>)
    ensures forall e :: e in m ==> e in entries
  {
    if entries == [] then []
    else (if fs.matches(w, entries[0].name) then [entries[0]] else []) + Matching(fs, entries[1..], w)
  }

  lemma {:induction false} EverythingMatchesAll(fs: FileSystem, entries: seq<Entry>)
    requires forall name :: fs.matches(ALL, name)
    ensures Matching(fs, entries, ALL) == entries
  {
    if entries != [] {
      EverythingMatchesAll(fs, entries[1..]);
    }
  }

  lemma {:induction false} LookupFinds(entries: seq<Entry>, i: nat)
    requires i < |entries| && forall j, k :: 0 <= j < k < |entries| ==> entries[j].name != entries[k].name
    ensures Lookup(entries, entries[i].name) == Some(entries[i].node)
  {
    if i > 0 {
      LookupFinds(entries[1..], i - 1);
    }
  }

  lemma {:induction false} ResolvedIsTree(fs: FileSystem, path: seq<string>)
    requires IsFileSystem(fs) && Resolve(fs.root, path).Some?
    ensures IsTree(fs, Resolve(fs.root, path).value)
    decreases |path|
  {
    if path != [] {
      var init := path[..|path| - 1];
      ResolvedIsTree(fs, init);
      LookupIsEntry(Resolve(fs.root, init).value.entries, path[|path| - 1]);
    }
  }

  lemma {:induction false} LookupIsEntry(entries: seq<Entry>, name: string)
    requires Lookup(entries, name).Some?
    ensures exists i :: 0 <= i < |entries| && entries[i].node == Lookup(entries, name).value
  {
    if entries[0].name != name {
      LookupIsEntry(entries[1..], name);
      var i :| 0 <= i < |entries[1..]| && entries[1..][i].node == Lookup(entries[1..], name).value;
      assert entries[i + 1].node == Lookup(entries, name).value;
    }
  }

  // Stepping into an entry of the directory a path leads to.
  lemma ResolveInto(fs: FileSystem, path: seq<string>, node: Node, i: nat)
    requires IsFileSystem(fs) && Resolve(fs.root, path) == Some(node) && node.Dir? && i < |node.entries|
    ensures Resolve(fs.root, path + [node.entries[i].name]) == Some(node.entries[i].node)
    ensures !fs.same(ALL, node.entries[i].name) && node.entries[i].name != ""
  {
    hide IsTree, IsFileSystem, Lookup;
    ResolvedIsTree(fs, path);
    EntryOfTree(fs, node, i);
    var longer := path + [node.entries[i].name];
    assert longer[..|longer| - 1] == path;
    LookupFinds(node.entries, i);
  }

  lemma EntryOfTree(fs: FileSystem, node: Node, i: nat)
    requires IsTree(fs, node) && node.Dir? && i < |node.entries|
    ensures forall j, k :: 0 <= j < k < |node.entries| ==> node.entries[j].name != node.entries[k].name
    ensures !fs.same(ALL, node.entries[i].name) && node.entries[i].name != ""
  {
  }

  // ---- What is to be reported ----

  // The last two are no entries but what makes an enumeration end before its time: a path that does not fit its
  // buffer, and an empty directory where the pattern names it.
  datatype Item = Found(path: seq<string>, isDir: bool) | Refused | TooLong | Bare

  // The entries found in one directory.
  function LocalItems(dir: seq<string>, found: seq<Entry>): seq<Item> {
    if found == [] then []
    else (if IsDots(found[0].name) then [] else [Found(dir + [found[0].name], found[0].node.Dir?)])
         + LocalItems(dir, found[1..])
  }

  // The pattern turned out to be the name of a directory.
  predicate NamesDirectory(fs: FileSystem, found: seq<Entry>, w: string) {
    found != [] && found[|found| - 1].node.Dir? && fs.same(w, found[|found| - 1].name)
  }

  // Everything below `dir` that matches, in pre-order: the matches in the directory itself, then each
  // subdirectory in turn. Where the pattern is the name of a directory, everything inside that
  // directory instead of the subdirectories. A directory that may not be read is reported as such.
  function Walk(fs: FileSystem, dir: seq<string>, node: Node, w: string): seq<Item>
    requires node.Dir?
    decreases node, 2, 0
  {
    if node.denied then [Refused]
    else LocalItems(dir, Matching(fs, node.entries, w)) + WalkBelow(fs, dir, node, w)
  }

  function WalkBelow(fs: FileSystem, dir: seq<string>, node: Node, w: string): seq<Item>
    requires node.Dir?
    decreases node, 1, 0
  {
    var found := Matching(fs, node.entries, w);
    if NamesDirectory(fs, found, w) then
      var e := found[|found| - 1];
      assert e in node.entries;
      Walk(fs, dir + [e.name], e.node, ALL)
    else WalkFrom(fs, dir, node, w, 0)
  }

  // The subdirectories from the i-th entry on.
  function WalkFrom(fs: FileSystem, dir: seq<string>, node: Node, w: string, i: nat): seq<Item>
    requires node.Dir? && i <= |node.entries|
    decreases node, 0, |node.entries| - i
  {
    if i == |node.entries| then []
    else
      var e := node.entries[i];
      (if e.node.Dir? && !IsDots(e.name) then Walk(fs, dir + [e.name], e.node, w) else [])
      + WalkFrom(fs, dir, node, w, i + 1)
  }

  lemma WalkFromStep(fs: FileSystem, dir: seq<string>, node: Node, w: string, i: nat)
    requires node.Dir? && i < |node.entries|
    ensures var e := node.entries[i];
            WalkFrom(fs, dir, node, w, i) ==
            if e.node.Dir? && !IsDots(e.name)
            then Walk(fs, dir + [e.name], e.node, w) + WalkFrom(fs, dir, node, w, i + 1)
            else WalkFrom(fs, dir, node, w, i + 1)
  {
  }

  lemma WalkFromEnd(fs: FileSystem, dir: seq<string>, node: Node, w: string)
    requires node.Dir?
    ensures WalkFrom(fs, dir, node, w, |node.entries|) == []
  {
  }

  lemma WalkBelowNamed(fs: FileSystem, dir: seq<string>, node: Node, w: string, i: nat)
    requires node.Dir? && NamesDirectory(fs, Matching(fs, node.entries, w), w) && i < |node.entries|
    requires node.entries[i] == Matching(fs, node.entries, w)[|Matching(fs, node.entries, w)| - 1]
    ensures WalkBelow(fs, dir, node, w) == Walk(fs, dir + [node.entries[i].name], node.entries[i].node, ALL)
  {
  }

  lemma WalkBelowAll(fs: FileSystem, dir: seq<string>, node: Node, w: string)
    requires node.Dir? && !NamesDirectory(fs, Matching(fs, node.entries, w), w)
    ensures WalkBelow(fs, dir, node, w) == WalkFrom(fs, dir, node, w, 0)
  {
  }

  lemma WalkHere(fs: FileSystem, dir: seq<string>, node: Node, w: string)
    requires node.Dir?
    ensures Walk(fs, dir, node, w) ==
            if node.denied then [Refused]
            else LocalItems(dir, Matching(fs, node.entries, w)) + WalkBelow(fs, dir, node, w)
  {
  }

  // ---- What is reported with buffers of MAX_PATH characters ----

  // The length of a directory's name, the backslash behind it included.
  function PathLength(fs: FileSystem, dir: seq<string>): nat {
    if dir == [] then fs.rootLength else PathLength(fs, dir[..|dir| - 1]) + |dir[|dir| - 1]| + 1
  }

  // Something of that length can be put behind the name of a directory.
  predicate Fits(fs: FileSystem, dir: seq<string>, length: nat) {
    PathLength(fs, dir) + length < MAX_PATH
  }

  // A subdirectory and a pattern in it.
  predicate FitsInside(fs: FileSystem, dir: seq<string>, name: string, w: string) {
    Fits(fs, dir, |name| + 1 + |w|)
  }

  predicate IsBare(node: Node) {
    node.Dir? && !node.denied && node.entries == []
  }

  function LocalCourse(fs: FileSystem, dir: seq<string>, found: seq<Entry>): seq<Item> {
    if found == [] then []
    else LocalItem(fs, dir, found[0]) + LocalCourse(fs, dir, found[1..])
  }

  function LocalItem(fs: FileSystem, dir: seq<string>, e: Entry): seq<Item> {
    if IsDots(e.name) then []
    else if Fits(fs, dir, |e.name|) then [Found(dir + [e.name], e.node.Dir?)]
    else [TooLong]
  }

  // The same walk, with a mark wherever it meets something that makes it end. What is behind the first mark is what
  // would have come.
  function Course(fs: FileSystem, dir: seq<string>, node: Node, w: string): seq<Item>
    requires node.Dir?
    decreases node, 2, 0
  {
    if node.denied then [Refused]
    else LocalCourse(fs, dir, Matching(fs, node.entries, w)) + CourseBelow(fs, dir, node, w)
  }

  function CourseBelow(fs: FileSystem, dir: seq<string>, node: Node, w: string): seq<Item>
    requires node.Dir?
    decreases node, 1, 0
  {
    var found := Matching(fs, node.entries, w);
    if NamesDirectory(fs, found, w) then
      var e := found[|found| - 1];
      assert e in node.entries;
      if FitsInside(fs, dir, e.name, ALL) && IsBare(e.node) then [Bare] else CourseInto(fs, dir, e, ALL)
    else if !Fits(fs, dir, |ALL|) then [TooLong]
    else CourseFrom(fs, dir, node, w, 0)
  }

  function CourseFrom(fs: FileSystem, dir: seq<string>, node: Node, w: string, i: nat): seq<Item>
    requires node.Dir? && i <= |node.entries|
    decreases node, 0, |node.entries| - i
  {
    if i == |node.entries| then []
    else
      var e := node.entries[i];
      (if e.node.Dir? && !IsDots(e.name) then CourseInto(fs, dir, e, w) else [])
      + CourseFrom(fs, dir, node, w, i + 1)
  }

  // Into one subdirectory.
  function CourseInto(fs: FileSystem, dir: seq<string>, e: Entry, w: string): seq<Item>
    requires e.node.Dir?
    decreases e.node, 3, 0
  {
    if FitsInside(fs, dir, e.name, w) then Course(fs, dir + [e.name], e.node, w) else [TooLong]
  }

  lemma CourseFromStep(fs: FileSystem, dir: seq<string>, node: Node, w: string, i: nat)
    requires node.Dir? && i < |node.entries|
    ensures var e := node.entries[i];
            CourseFrom(fs, dir, node, w, i) ==
            if e.node.Dir? && !IsDots(e.name) then CourseInto(fs, dir, e, w) + CourseFrom(fs, dir, node, w, i + 1)
            else CourseFrom(fs, dir, node, w, i + 1)
  {
  }

  lemma CourseFromEnd(fs: FileSystem, dir: seq<string>, node: Node, w: string)
    requires node.Dir?
    ensures CourseFrom(fs, dir, node, w, |node.entries|) == []
  {
  }

  lemma CourseBelowNamed(fs: FileSystem, dir: seq<string>, node: Node, w: string, i: nat)
    requires node.Dir? && NamesDirectory(fs, Matching(fs, node.entries, w), w) && i < |node.entries|
    requires node.entries[i] == Matching(fs, node.entries, w)[|Matching(fs, node.entries, w)| - 1]
    ensures CourseBelow(fs, dir, node, w) ==
            if FitsInside(fs, dir, node.entries[i].name, ALL) && IsBare(node.entries[i].node) then [Bare]
            else CourseInto(fs, dir, node.entries[i], ALL)
  {
  }

  lemma CourseBelowAll(fs: FileSystem, dir: seq<string>, node: Node, w: string)
    requires node.Dir? && !NamesDirectory(fs, Matching(fs, node.entries, w), w)
    ensures CourseBelow(fs, dir, node, w) ==
            if Fits(fs, dir, |ALL|) then CourseFrom(fs, dir, node, w, 0) else [TooLong]
  {
  }

  lemma CourseHere(fs: FileSystem, dir: seq<string>, node: Node, w: string)
    requires node.Dir?
    ensures Course(fs, dir, node, w) ==
            if node.denied then [Refused]
            else LocalCourse(fs, dir, Matching(fs, node.entries, w)) + CourseBelow(fs, dir, node, w)
  {
  }

  lemma LongerPath(fs: FileSystem, dir: seq<string>, name: string)
    ensures PathLength(fs, dir + [name]) == PathLength(fs, dir) + |name| + 1
  {
    assert (dir + [name])[..|dir|] == dir;
  }
}

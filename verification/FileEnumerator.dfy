// cacls/fileenum.cxx: a resumable enumeration of the files that match a pattern, in
// one directory or in a whole tree. An enumerator going deep keeps one enumerator
// for the subdirectory it is in, which keeps one for its own, and so on.

module FileEnumerator {
  import opened FileTree
  import opened Wrappers

  datatype Status =
    | Success
    | NoMoreFiles
    | FileNotFound
    | AccessDenied
    | PathNotFound
    | InvalidName
    | InsufficientBuffer

  datatype Handle = Invalid | Open(list: seq<Entry>, pos: nat)

  // FindFirstFile on a pattern in a directory.
  function FindFirst(fs: FileSystem, dir: seq<string>, pattern: string): (Status, Handle) {
    match Resolve(fs.root, dir)
    case Some(Dir(denied, entries)) =>
      var list := Matching(fs, entries, pattern);
      if denied then (AccessDenied, Invalid)
      else if list == [] then (FileNotFound, Invalid)
      else (Success, Open(list, 0))
    case _ => (PathNotFound, Invalid)
  }

  // What Init and the following calls of Next have to report, for a pattern in a directory; an empty
  // pattern stands for the root directory of a drive itself.
  function Coming(fs: FileSystem, fdeep: bool, dir: seq<string>, node: Node, pattern: string): seq<Item>
    requires node.Dir?
  {
    if pattern == "" then [Found(dir, true)] + if fdeep then Course(fs, dir, node, ALL) else []
    else if node.denied then [Refused]
    else
      LocalCourse(fs, dir, Matching(fs, node.entries, pattern))
      + if fdeep then CourseBelow(fs, dir, node, pattern) else []
  }

  // A status and a name that report the first of the items to come, or that there are none. What ends the
  // enumeration is reported as well.
  ghost predicate Reports(ret: Status, name: seq<string>, isDir: bool, items: seq<Item>) {
    match ret
    case Success => items != [] && items[0] == Found(name, isDir)
    case AccessDenied => items != [] && items[0] == Refused
    case NoMoreFiles => items == []
    case FileNotFound => items == [] || items[0] == Bare
    case InsufficientBuffer => items != [] && items[0] == TooLong
    case _ => false
  }

  predicate GoesOn(ret: Status) {
    ret == Success || ret == AccessDenied
  }

  class FileEnumerate {
    const fs: FileSystem
    const fdeep: bool
    var dir: seq<string> // _wpath up to _pwfileposition
    var filePart: string // _wpath from _pwfileposition on
    var wwildcards: string
    var handle: Handle
    var wfdName: string
    var wfdDir: bool
    var froot: bool
    var findeep: bool
    var fcannotaccess: bool
    var pcfe: FileEnumerate?
    ghost var Repr: set<object>

    constructor (fs: FileSystem, fdeep: bool)
      ensures this.fs == fs && this.fdeep == fdeep && IsBlank() && !wfdDir && fresh(Repr)
    {
      this.fs := fs;
      this.fdeep := fdeep;
      dir, filePart, wwildcards := [], "", "";
      handle, wfdName, wfdDir := Invalid, "", false;
      froot, findeep, fcannotaccess, pcfe := false, false, false, null;
      Repr := {this};
    }

    ghost predicate IsBlank()
      reads this
    {
      handle == Invalid && !froot && !findeep && !fcannotaccess && pcfe == null && Repr == {this}
    }

    // The enumerator stands in this directory.
    ghost predicate IsAt(node: Node)
      reads this
    {
      IsFileSystem(fs) && Resolve(fs.root, dir) == Some(node) && node.Dir?
    }

    // Listing the matches in the directory.
    ghost predicate IsLocal(node: Node)
      reads this
    {
      && IsAt(node) && IsPattern(fs, wwildcards) && !node.denied
      && !froot && !findeep && !fcannotaccess && pcfe == null
      && handle.Open? && handle.list == Matching(fs, node.entries, wwildcards) && handle.pos < |handle.list|
      && wfdName == handle.list[handle.pos].name && wfdDir == handle.list[handle.pos].node.Dir?
      && (IsDots(wfdName) || filePart == wfdName)
    }

    // Going through the subdirectories.
    ghost predicate IsDeep(node: Node)
      reads this
    {
      && IsAt(node) && IsPattern(fs, wwildcards) && fdeep
      && !froot && findeep && !fcannotaccess
      && handle.Open? && handle.list == node.entries && handle.pos < |handle.list|
      && wfdName == handle.list[handle.pos].name && wfdDir == handle.list[handle.pos].node.Dir?
    }

    // Standing at the root of a drive.
    ghost predicate IsRoot(node: Node)
      reads this
    {
      && IsAt(node) && dir == [] && fs.rootLength == DRIVE && filePart == "" && wwildcards == ""
      && wfdName == "" && wfdDir
      && froot && !findeep && !fcannotaccess && pcfe == null && handle == Invalid
    }

    ghost function Here(): Option<Node>
      reads this
    {
      Resolve(fs.root, dir)
    }

    ghost predicate Valid()
      reads this, Repr
      decreases Repr
    {
      && this in Repr
      && (pcfe != null ==>
            && pcfe in Repr && pcfe.Repr <= Repr && this !in pcfe.Repr && pcfe.Valid() && !pcfe.froot)
      && (fcannotaccess ||
          (Here().Some? && (IsRoot(Here().value) || IsLocal(Here().value) || IsDeep(Here().value))))
    }

    // What is still to be reported.
    ghost function Rest(): seq<Item>
      requires Valid()
      reads this, Repr
      decreases Repr
    {
      if fcannotaccess then []
      else
        var node := Here().value;
        if froot then (if fdeep then Course(fs, dir, node, ALL) else [])
        else if !findeep then
          LocalCourse(fs, dir, handle.list[handle.pos + 1..])
          + (if fdeep then CourseBelow(fs, dir, node, wwildcards) else [])
        else
          (if pcfe == null then [] else pcfe.Rest()) + CourseFrom(fs, dir, node, wwildcards, handle.pos + 1)
    }

    // ---- What the states promise ----

    lemma LocalIsValid(node: Node)
      requires IsLocal(node) && Repr == {this}
      ensures Valid()
      ensures Rest() == LocalCourse(fs, dir, handle.list[handle.pos + 1..])
                        + if fdeep then CourseBelow(fs, dir, node, wwildcards) else []
    {
      hide Course, CourseBelow, CourseFrom, IsTree, Resolve, LocalCourse;
    }

    lemma DeepIsValid(node: Node)
      requires IsDeep(node) && this in Repr
      requires pcfe != null ==>
                 && pcfe in Repr && pcfe.Repr <= Repr && this !in pcfe.Repr && pcfe.Valid() && !pcfe.froot
      ensures Valid()
      ensures Rest() == (if pcfe == null then [] else pcfe.Rest())
                        + CourseFrom(fs, dir, node, wwildcards, handle.pos + 1)
    {
      hide Course, CourseBelow, CourseFrom, IsTree, Resolve, LocalCourse;
    }

    lemma RefusedIsValid()
      requires fcannotaccess && pcfe == null && this in Repr
      ensures Valid() && Rest() == []
    {
      hide Course, CourseBelow, CourseFrom, IsTree, Resolve, LocalCourse;
    }

    lemma RootIsValid(node: Node)
      requires IsRoot(node) && Repr == {this}
      ensures Valid()
      ensures Rest() == if fdeep then Course(fs, dir, node, ALL) else []
    {
      hide Course, CourseBelow, CourseFrom, IsTree, Resolve, LocalCourse;
    }

    // ---- One directory ----

    // FindNextFile; nothing is left to find at the end of the list.
    method FindNext() returns (ret: Status)
      requires handle.Open? && handle.pos < |handle.list|
      requires wfdName == handle.list[handle.pos].name && wfdDir == handle.list[handle.pos].node.Dir?
      modifies this`handle, this`wfdName, this`wfdDir
      ensures ret == if old(handle.pos) + 1 < |old(handle.list)| then Success else NoMoreFiles
      ensures handle == if ret == Success then old(handle).(pos := old(handle.pos) + 1) else old(handle)
      ensures wfdName == handle.list[handle.pos].name && wfdDir == handle.list[handle.pos].node.Dir?
    {
      if handle.pos + 1 == |handle.list| {
        return NoMoreFiles;
      }
      handle := handle.(pos := handle.pos + 1);
      wfdName, wfdDir := handle.list[handle.pos].name, handle.list[handle.pos].node.Dir?;
      return Success;
    }

    method NextLocal(ghost node: Node) returns (ret: Status, name: seq<string>, isDir: bool)
      requires IsLocal(node)
      modifies this`handle, this`wfdName, this`wfdDir, this`filePart
      ensures ret == Success || ret == NoMoreFiles || ret == InsufficientBuffer
      ensures ret != InsufficientBuffer ==> IsLocal(node)
      ensures Reports(ret, name, isDir, LocalCourse(fs, dir, old(handle.list[handle.pos + 1..])))
      ensures ret == Success ==>
                LocalCourse(fs, dir, handle.list[handle.pos + 1..])
                == LocalCourse(fs, dir, old(handle.list[handle.pos + 1..]))[1..]
      ensures ret == NoMoreFiles ==> handle.pos == |handle.list| - 1 && (IsDots(wfdName) || wfdName == old(wfdName))
    {
      hide IsTree, Resolve, LocalCourse, Matching, IsFileSystem, Fits;
      name, isDir := [], false;
      ghost var list := handle.list;
      ghost var todo := LocalCourse(fs, dir, list[handle.pos + 1..]);
      while true
        invariant handle.Open? && handle.list == list && handle.pos < |list|
        invariant wfdName == list[handle.pos].name && wfdDir == list[handle.pos].node.Dir?
        invariant IsDots(wfdName) || (wfdName == old(wfdName) && filePart == wfdName)
        invariant LocalCourse(fs, dir, list[handle.pos + 1..]) == todo
        decreases |list| - handle.pos
      {
        LocalCourseStep(fs, dir, list, handle.pos + 1);
        ret := FindNext();
        if !(ret == Success && IsDots(wfdName)) {
          break;
        }
      }
      if ret == Success {
        isDir := wfdDir;
        if !Fits(fs, dir, |wfdName|) {
          return InsufficientBuffer, [], isDir;
        }
        filePart := wfdName;
        name := dir + [filePart];
      }
    }

    // FindFirstFile on the path, and on to the first entry that is neither "." nor "..".
    method FirstLocal(ghost node: Node) returns (ret: Status, name: seq<string>, isDir: bool)
      requires IsBlank() && IsAt(node) && IsPattern(fs, wwildcards)
      modifies this`handle, this`wfdName, this`wfdDir, this`filePart, this`fcannotaccess
      ensures var items := LocalCourse(fs, dir, Matching(fs, node.entries, wwildcards));
              match ret
              case AccessDenied => node.denied && fcannotaccess
              case FileNotFound =>
                && !node.denied && items == [] && Matching(fs, node.entries, wwildcards) == []
                && IsBlank() && wfdName == old(wfdName) && wfdDir == old(wfdDir)
              case NoMoreFiles => IsLocal(node) && items == [] && handle.pos == |handle.list| - 1 && IsDots(wfdName)
              case Success =>
                && IsLocal(node) && items != [] && items[0] == Found(name, isDir)
                && items[1..] == LocalCourse(fs, dir, handle.list[handle.pos + 1..])
              case InsufficientBuffer => !node.denied && items != [] && items[0] == TooLong
              case _ => false
    {
      hide IsTree, LocalCourse, Matching;
      name, isDir := [], false;
      var found := FindFirst(fs, dir, wwildcards);
      handle := found.1;
      ret := found.0;
      LocalCourseStep(fs, dir, [], 0);
      if ret != Success {
        fcannotaccess := ret == AccessDenied;
      } else {
        LocalCourseStep(fs, dir, handle.list, 0);
        wfdName, wfdDir := handle.list[0].name, handle.list[0].node.Dir?;
        if IsDots(wfdName) {
          ret, name, isDir := NextLocal(node);
        } else {
          isDir := wfdDir;
          if !Fits(fs, dir, |wfdName|) {
            return InsufficientBuffer, [], isDir;
          }
          filePart := wfdName;
          name := dir + [filePart];
        }
      }
    }

    // ---- Going down ----

    // A name that is too long is refused.
    method Init(path: seq<string>, pattern: string, ghost node: Node)
      returns (ret: Status, name: seq<string>, isDir: bool)
      requires IsBlank() && !wfdDir
      requires IsFileSystem(fs) && Resolve(fs.root, path) == Some(node) && node.Dir?
      requires if pattern == "" then path == [] && fs.rootLength == DRIVE else IsPattern(fs, pattern)
      modifies this
      ensures ret == InvalidName <==> !Fits(fs, path, |pattern|)
      ensures ret != InvalidName ==> Reports(ret, name, isDir, Coming(fs, fdeep, path, node, pattern))
      ensures GoesOn(ret) ==> Valid() && fresh(Repr - {this}) && Rest() == Coming(fs, fdeep, path, node, pattern)[1..]
      ensures ret == FileNotFound ==> Coming(fs, fdeep, path, node, pattern) == []
      ensures GoesOn(ret) && pattern != "" ==> !froot
      decreases node, if pattern == "" then 1 else 0, 7
    {
      hide Coming;
      if !Fits(fs, path, |pattern|) {
        return InvalidName, [], false;
      }
      ret, name, isDir := Ialize(path, pattern, node);
    }

    method Ialize(path: seq<string>, pattern: string, ghost node: Node)
      returns (ret: Status, name: seq<string>, isDir: bool)
      requires IsBlank()
      requires IsFileSystem(fs) && Resolve(fs.root, path) == Some(node) && node.Dir?
      requires if pattern == "" then path == [] && fs.rootLength == DRIVE
               else IsPattern(fs, pattern) && !(wfdDir && fs.same(pattern, wfdName))
      modifies this
      ensures Reports(ret, name, isDir, Coming(fs, fdeep, path, node, pattern))
      ensures GoesOn(ret) ==> Valid() && fresh(Repr - {this}) && Rest() == Coming(fs, fdeep, path, node, pattern)[1..]
      ensures ret == FileNotFound ==> Coming(fs, fdeep, path, node, pattern) == [] && (fdeep ==> node.entries == [])
      ensures ret == NoMoreFiles ==> node.entries != []
      ensures GoesOn(ret) && pattern != "" ==> !froot
      decreases node, if pattern == "" then 1 else 0, 6
    {
      hide Course, CourseBelow, CourseFrom, IsTree, Resolve, LocalCourse, Matching;
      dir, filePart, wwildcards := path, pattern, pattern;
      if pattern == "" {
        wfdDir, wfdName := true, "";
        froot := true;
        RootIsValid(node);
        return Success, dir, true;
      }
      ret, name, isDir := StartLocal(node);
    }

    method StartLocal(ghost node: Node) returns (ret: Status, name: seq<string>, isDir: bool)
      requires IsBlank() && IsAt(node) && IsPattern(fs, wwildcards) && !(wfdDir && fs.same(wwildcards, wfdName))
      modifies this
      ensures Reports(ret, name, isDir, Coming(fs, fdeep, old(dir), node, old(wwildcards)))
      ensures GoesOn(ret) ==>
                && Valid() && fresh(Repr - {this})
                && Rest() == Coming(fs, fdeep, old(dir), node, old(wwildcards))[1..]
      ensures ret == FileNotFound ==>
                Coming(fs, fdeep, old(dir), node, old(wwildcards)) == [] && (fdeep ==> node.entries == [])
      ensures ret == NoMoreFiles ==> node.entries != []
      ensures GoesOn(ret) ==> !froot
      decreases node, 0, 5
    {
      hide Course, CourseBelow, CourseFrom, IsTree, Resolve, LocalCourse, Matching, Valid, Rest;
      ret, name, isDir := FirstLocal(node);
      if ret == AccessDenied {
        RefusedIsValid();
      } else if ret == Success {
        LocalIsValid(node);
      }
      assert ret == NoMoreFiles ==> handle.list[handle.pos] in node.entries;
      if fdeep && (ret == NoMoreFiles || ret == FileNotFound) {
        handle := Invalid;
        ret, name, isDir := InitDir(node);
      }
    }

    // The local listing is over, or there was none to begin with.
    ghost predicate IsLocallyDone(node: Node)
      reads this
    {
      && IsAt(node) && IsBlank() && fdeep
      && if wwildcards == "" then dir == [] && fs.rootLength == DRIVE && filePart == "" && wfdName == "" && wfdDir
         else
           var found := Matching(fs, node.entries, wwildcards);
           && IsPattern(fs, wwildcards) && !node.denied
           && (if found == [] then !(wfdDir && fs.same(wwildcards, wfdName))
               else wfdName == found[|found| - 1].name && wfdDir == found[|found| - 1].node.Dir?
                    && (IsDots(wfdName) || filePart == wfdName))
    }

    // What is to be reported once the local listing is over.
    ghost function Below(node: Node): seq<Item>
      requires node.Dir?
      reads this
    {
      if wwildcards == "" then Course(fs, dir, node, ALL) else CourseBelow(fs, dir, node, wwildcards)
    }

    // The local listing ended with a directory that the pattern names.
    predicate IsNamed()
      reads this
    {
      fs.same(wwildcards, wfdName) && wfdDir
    }

    method InitDir(ghost node: Node) returns (ret: Status, name: seq<string>, isDir: bool)
      requires IsLocallyDone(node)
      modifies this
      ensures Reports(ret, name, isDir, old(Below(node)))
      ensures GoesOn(ret) ==> Valid() && fresh(Repr - {this}) && Rest() == old(Below(node))[1..] && !froot
      ensures ret == FileNotFound && !old(IsNamed()) ==> old(Below(node)) == [] && node.entries == []
      ensures ret == FileNotFound && old(IsNamed()) ==> (old(wwildcards) == "" <==> old(Below(node)) == [])
      ensures ret == NoMoreFiles && !old(IsNamed()) ==> node.entries != []
      decreases node, if wwildcards == "" then 1 else 0, 4
    {
      if IsNamed() {
        ret, name, isDir := InitNamed(node);
      } else {
        hide Course, CourseBelow, CourseFrom, IsTree, Resolve, LocalCourse, Valid, Rest;
        findeep := true;
        CourseBelowAll(fs, dir, node, wwildcards);
        if !Fits(fs, dir, |ALL|) {
          return InsufficientBuffer, [], false;
        }
        ret, name, isDir := FirstDir(node);
      }
    }

    method InitNamed(ghost node: Node) returns (ret: Status, name: seq<string>, isDir: bool)
      requires IsLocallyDone(node) && IsNamed()
      modifies this
      ensures Reports(ret, name, isDir, old(Below(node)))
      ensures GoesOn(ret) ==> Valid() && fresh(Repr - {this}) && Rest() == old(Below(node))[1..] && !froot
      ensures ret == FileNotFound ==> (old(wwildcards) == "" <==> old(Below(node)) == [])
      decreases node, if wwildcards == "" then 1 else 0, 3
    {
      hide Course, CourseBelow, CourseFrom, CourseInto, IsTree, Resolve, LocalCourse, Matching, Valid, Rest, Coming;
      ghost var below := NamedIs(node);
      if !FitsInside(fs, dir, wfdName, ALL) {
        return InsufficientBuffer, [], false;
      }
      ret, name, isDir := Ialize(NamedPath(), ALL, below);
    }

    function NamedPath(): seq<string>
      reads this
    {
      if filePart == "" then dir else dir + [filePart]
    }

    // The directory that is gone on with, and what comes of it.
    lemma NamedIs(node: Node) returns (below: Node)
      requires IsLocallyDone(node) && IsNamed()
      ensures Resolve(fs.root, NamedPath()) == Some(below) && below.Dir?
      ensures if wwildcards == "" then below == node else below < node
      ensures !(wfdDir && fs.same(ALL, wfdName)) && IsPattern(fs, ALL)
      ensures Below(node) ==
              if !FitsInside(fs, dir, wfdName, ALL) then [TooLong]
              else if wwildcards != "" && IsBare(below) then [Bare]
              else Coming(fs, true, NamedPath(), below, ALL)
      ensures wwildcards == "" ==> FitsInside(fs, dir, wfdName, ALL)
      ensures FitsInside(fs, dir, wfdName, ALL) && IsBare(below) ==> Coming(fs, true, NamedPath(), below, ALL) == []
      ensures below.denied ==> Coming(fs, true, NamedPath(), below, ALL) != []
    {
      hide Course, CourseBelow, CourseFrom, IsTree, Resolve, LocalCourse;
      below := node;
      if wwildcards != "" {
        var found := Matching(fs, node.entries, wwildcards);
        assert found[|found| - 1] in node.entries;
        var i :| 0 <= i < |node.entries| && node.entries[i] == found[|found| - 1];
        below := node.entries[i].node;
        ResolveInto(fs, dir, node, i);
        CourseBelowNamed(fs, dir, node, wwildcards, i);
        LongerPath(fs, dir, filePart);
      }
      ComingIsCourse(fs, NamedPath(), below, ALL);
      BareCourse(fs, NamedPath(), below);
      CourseHere(fs, NamedPath(), below, ALL);
    }

    // FindFirstFile for the subdirectories, and into the first one with something to report.
    method FirstDir(ghost node: Node) returns (ret: Status, name: seq<string>, isDir: bool)
      requires IsAt(node) && IsPattern(fs, wwildcards) && fdeep && !node.denied
      requires !froot && findeep && !fcannotaccess && pcfe == null && Repr == {this}
      modifies this
      ensures Reports(ret, name, isDir, CourseFrom(fs, old(dir), node, old(wwildcards), 0))
      ensures GoesOn(ret) ==>
                Valid() && fresh(Repr - {this}) && Rest() == CourseFrom(fs, old(dir), node, old(wwildcards), 0)[1..]
      ensures GoesOn(ret) ==> !froot
      ensures ret == FileNotFound ==> node.entries == [] && CourseFrom(fs, old(dir), node, old(wwildcards), 0) == []
      ensures ret == NoMoreFiles ==> node.entries != []
      decreases node, 0, 3
    {
      hide Course, CourseBelow, CourseFrom, CourseInto, IsTree, LocalCourse, Resolve, Matching, Rest;
      name, isDir := [], false;
      var found := FindFirst(fs, dir, ALL);
      handle := found.1;
      ret := found.0;
      EverythingMatchesAll(fs, node.entries);
      if ret == Success {
        wfdName, wfdDir := handle.list[0].name, handle.list[0].node.Dir?;
        CourseFromStep(fs, dir, node, wwildcards, 0);
        if !wfdDir || IsDots(wfdName) {
          ret, name, isDir := NextDir(node);
        } else {
          ret, name, isDir := DownDir(node);
          if ret == NoMoreFiles || ret == FileNotFound {
            ret, name, isDir := NextDir(node);
          }
        }
      } else {
        CourseFromEnd(fs, dir, node, wwildcards);
      }
    }

    method NextDir(ghost node: Node) returns (ret: Status, name: seq<string>, isDir: bool)
      requires IsDeep(node) && pcfe == null && Repr == {this}
      modifies this
      ensures Reports(ret, name, isDir, old(CourseFrom(fs, dir, node, wwildcards, handle.pos + 1)))
      ensures GoesOn(ret) ==>
                && Valid() && fresh(Repr - {this})
                && Rest() == old(CourseFrom(fs, dir, node, wwildcards, handle.pos + 1))[1..]
      ensures ret != FileNotFound
      ensures GoesOn(ret) ==> !froot
      decreases node, 0, 2
    {
      hide Course, CourseBelow, CourseFrom, CourseInto, IsTree, Resolve, LocalCourse, Matching, IsFileSystem, Rest;
      name, isDir := [], false;
      ghost var items := CourseFrom(fs, dir, node, wwildcards, handle.pos + 1);
      while true
        invariant IsDeep(node) && pcfe == null && Repr == {this}
        invariant dir == old(dir) && wwildcards == old(wwildcards)
        invariant CourseFrom(fs, dir, node, wwildcards, handle.pos + 1) == items
        decreases |handle.list| - handle.pos
      {
        ret := NextSubdirectory(node);
        if ret == Success {
          CourseFromStep(fs, dir, node, wwildcards, handle.pos);
          ret, name, isDir := DownDir(node);
        } else {
          break;
        }
        if !(ret == NoMoreFiles || ret == FileNotFound) {
          break;
        }
      }
    }

    // The inner loop: skip files, "." and "..".
    method NextSubdirectory(ghost node: Node) returns (ret: Status)
      requires IsDeep(node)
      modifies this`handle, this`wfdName, this`wfdDir
      ensures IsDeep(node)
      ensures ret == Success || ret == NoMoreFiles
      ensures ret == Success ==>
                && wfdDir && !IsDots(wfdName) && old(handle.pos) < handle.pos
                && CourseFrom(fs, dir, node, wwildcards, handle.pos)
                   == CourseFrom(fs, dir, node, wwildcards, old(handle.pos) + 1)
      ensures ret == NoMoreFiles ==> CourseFrom(fs, dir, node, wwildcards, old(handle.pos) + 1) == []
    {
      hide Course, CourseBelow, CourseFrom, IsTree, Resolve, LocalCourse;
      ghost var items := CourseFrom(fs, dir, node, wwildcards, handle.pos + 1);
      while true
        invariant IsDeep(node) && old(handle.pos) <= handle.pos
        invariant CourseFrom(fs, dir, node, wwildcards, handle.pos + 1) == items
        decreases |handle.list| - handle.pos
      {
        ret := FindNext();
        if ret != Success {
          CourseFromEnd(fs, dir, node, wwildcards);
          return;
        }
        if wfdDir && !IsDots(wfdName) {
          return;
        }
        CourseFromStep(fs, dir, node, wwildcards, handle.pos);
      }
    }

    // Into the subdirectory just found.
    method DownDir(ghost node: Node) returns (ret: Status, name: seq<string>, isDir: bool)
      requires IsDeep(node) && pcfe == null && Repr == {this} && wfdDir && !IsDots(wfdName)
      modifies this
      ensures Reports(ret, name, isDir, old(CourseInto(fs, dir, handle.list[handle.pos], wwildcards)))
      ensures ret == FileNotFound ==> old(CourseInto(fs, dir, handle.list[handle.pos], wwildcards)) == []
      ensures dir == old(dir) && wwildcards == old(wwildcards) && handle == old(handle)
      ensures GoesOn(ret) ==>
                && Valid() && fresh(Repr - {this}) && !froot
                && Rest() == old(CourseInto(fs, dir, handle.list[handle.pos], wwildcards))[1..]
                             + CourseFrom(fs, dir, node, wwildcards, handle.pos + 1)
      ensures !GoesOn(ret) ==> IsDeep(node) && pcfe == null && Repr == {this}
      decreases node, 0, 1
    {
      hide Course, CourseBelow, CourseFrom, CourseInto, IsTree, Resolve, LocalCourse, Coming, Matching;
      hide IsFileSystem, PathLength, Valid, Rest;
      IntoIsComing(fs, dir, node.entries[handle.pos], wwildcards);
      if !Fits(fs, dir, |wfdName|) || !Fits(fs, dir, |wfdName| + 1) || !Fits(fs, dir, |wfdName| + 1 + |wwildcards|) {
        return InsufficientBuffer, [], false;
      }
      ret, name, isDir := StartBelow(node);
    }

    // The path being complete, a new enumerator takes over.
    method StartBelow(ghost node: Node) returns (ret: Status, name: seq<string>, isDir: bool)
      requires IsDeep(node) && pcfe == null && Repr == {this} && wfdDir && !IsDots(wfdName)
      requires Fits(fs, dir + [wfdName], |wwildcards|)
      modifies this
      ensures var coming := old(Coming(fs, true, dir + [wfdName], handle.list[handle.pos].node, wwildcards));
              && Reports(ret, name, isDir, coming) && (ret == FileNotFound ==> coming == [])
              && (GoesOn(ret) ==>
                    && Valid() && fresh(Repr - {this}) && !froot && IsDeep(node)
                    && Rest() == coming[1..] + CourseFrom(fs, dir, node, wwildcards, handle.pos + 1))
      ensures dir == old(dir) && wwildcards == old(wwildcards) && handle == old(handle)
      ensures !GoesOn(ret) ==> IsDeep(node) && pcfe == null && Repr == {this}
      decreases node, 0, 0
    {
      hide Course, CourseBelow, CourseFrom, IsTree, Resolve, LocalCourse, Coming, Matching, IsFileSystem, Fits;
      hide Valid, Rest;
      ghost var i := handle.pos;
      ResolveInto(fs, dir, node, i);
      filePart := wfdName + "\\" + wwildcards;
      pcfe, ret, name, isDir := Enter(fs, fdeep, dir + [wfdName], wwildcards, node.entries[i].node);
      if ret != Success {
        if ret != AccessDenied {
          pcfe := null;
        }
      }
      Repr := {this} + if pcfe == null then {} else pcfe.Repr;
      if GoesOn(ret) {
        DeepIsValid(node);
      }
    }

    // A new enumerator for a directory.
    static method Enter(fs: FileSystem, fdeep: bool, path: seq<string>, pattern: string, ghost node: Node)
      returns (cfe: FileEnumerate, ret: Status, name: seq<string>, isDir: bool)
      requires IsFileSystem(fs) && Resolve(fs.root, path) == Some(node) && node.Dir?
      requires if pattern == "" then path == [] && fs.rootLength == DRIVE else IsPattern(fs, pattern)
      ensures fresh(cfe) && cfe.fs == fs && cfe.fdeep == fdeep
      ensures ret == InvalidName <==> !Fits(fs, path, |pattern|)
      ensures ret != InvalidName ==> Reports(ret, name, isDir, Coming(fs, fdeep, path, node, pattern))
      ensures ret == FileNotFound ==> Coming(fs, fdeep, path, node, pattern) == []
      ensures GoesOn(ret) ==>
                && cfe.Valid() && fresh(cfe.Repr) && cfe in cfe.Repr && (pattern != "" ==> !cfe.froot)
                && cfe.Rest() == Coming(fs, fdeep, path, node, pattern)[1..]
      decreases node, if pattern == "" then 1 else 0, 8
    {
      hide Course, CourseBelow, CourseFrom, IsTree, Resolve, LocalCourse, Coming, Matching;
      cfe := new FileEnumerate(fs, fdeep);
      ret, name, isDir := cfe.Init(path, pattern, node);
    }

    // ---- Going on ----

    method Next() returns (ret: Status, name: seq<string>, isDir: bool)
      requires Valid()
      modifies Repr
      ensures Reports(ret, name, isDir, old(Rest()))
      ensures GoesOn(ret) ==> Valid() && fresh(Repr - old(Repr)) && Rest() == old(Rest())[1..]
      ensures GoesOn(ret) ==> !froot
      ensures ret == FileNotFound && !old(froot) ==> old(Rest()) != []
      decreases Repr, 2
    {
      hide Course, CourseBelow, CourseFrom, IsTree, Resolve, LocalCourse, Matching;
      if fcannotaccess {
        return NoMoreFiles, [], false;
      }
      ghost var node := Here().value;
      if !findeep {
        ret, name, isDir := NextHere(node);
      } else {
        ret, name, isDir := NextBelow(node);
      }
    }

    // What is left as long as no subdirectory has been entered.
    ghost function LeftHere(node: Node): seq<Item>
      requires IsRoot(node) || IsLocal(node)
      reads this
    {
      if froot then (if fdeep then Course(fs, dir, node, ALL) else [])
      else
        LocalCourse(fs, dir, handle.list[handle.pos + 1..])
        + (if fdeep then CourseBelow(fs, dir, node, wwildcards) else [])
    }

    method NextHere(ghost node: Node) returns (ret: Status, name: seq<string>, isDir: bool)
      requires IsRoot(node) || IsLocal(node)
      modifies this
      ensures Reports(ret, name, isDir, old(LeftHere(node)))
      ensures GoesOn(ret) ==> Valid() && fresh(Repr - {this}) && Rest() == old(LeftHere(node))[1..] && !froot
      ensures ret == FileNotFound && !old(froot) ==> old(LeftHere(node)) != []
    {
      hide Course, CourseBelow, CourseFrom, IsTree, Resolve, LocalCourse, Matching, Valid, Rest;
      Repr := {this};
      ret, name, isDir := NoMoreFiles, [], false;
      if !froot {
        ret, name, isDir := NextMatch(node);
      }
      if fdeep && (ret == NoMoreFiles || ret == FileNotFound || froot) {
        ret, name, isDir := LeaveHere(node);
      }
    }

    method NextMatch(ghost node: Node) returns (ret: Status, name: seq<string>, isDir: bool)
      requires IsLocal(node) && Repr == {this}
      modifies this`handle, this`wfdName, this`wfdDir, this`filePart
      ensures ret == NoMoreFiles ==> IsLocal(node) && handle.pos == |handle.list| - 1
      ensures ret != NoMoreFiles ==>
                (ret == Success || ret == InsufficientBuffer) && Reports(ret, name, isDir, old(LeftHere(node)))
      ensures ret == Success ==> Valid() && Rest() == old(LeftHere(node))[1..]
      ensures ret == NoMoreFiles ==> old(LeftHere(node)) == if fdeep then Below(node) else []
    {
      hide Course, CourseBelow, CourseFrom, IsTree, Resolve, LocalCourse, Matching, Valid, Rest;
      ghost var local := LocalCourse(fs, dir, handle.list[handle.pos + 1..]);
      ghost var below := if fdeep then CourseBelow(fs, dir, node, wwildcards) else [];
      ret, name, isDir := NextLocal(node);
      if ret == Success {
        LocalIsValid(node);
        assert (local + below)[1..] == local[1..] + below;
      } else if ret == NoMoreFiles {
        assert local + below == below;
      }
    }

    // The listing here is over, or it was the root of a drive alone.
    method LeaveHere(ghost node: Node) returns (ret: Status, name: seq<string>, isDir: bool)
      requires IsRoot(node) || (IsLocal(node) && handle.pos == |handle.list| - 1)
      requires fdeep && Repr == {this}
      modifies this
      ensures Reports(ret, name, isDir, old(Below(node)))
      ensures GoesOn(ret) ==> Valid() && fresh(Repr - {this}) && Rest() == old(Below(node))[1..] && !froot
      ensures ret == FileNotFound && !old(froot) ==> old(Below(node)) != []
    {
      hide Course, CourseBelow, CourseFrom, IsTree, Resolve, LocalCourse, Matching, Valid, Rest;
      assert !froot ==> handle.list[handle.pos] in node.entries;
      handle := Invalid;
      froot := false; // nothing looks at it until InitDir returns
      ret, name, isDir := InitDir(node);
    }

    // The rest of the subdirectory at hand comes first, then the other subdirectories.
    method NextBelow(ghost node: Node) returns (ret: Status, name: seq<string>, isDir: bool)
      requires Valid() && IsDeep(node)
      modifies Repr
      ensures var items := old((if pcfe == null then [] else pcfe.Rest())
                               + CourseFrom(fs, dir, node, wwildcards, handle.pos + 1));
              && Reports(ret, name, isDir, items)
              && (GoesOn(ret) ==> Valid() && fresh(Repr - old(Repr)) && Rest() == items[1..] && !froot)
              && (ret == FileNotFound ==> items != [])
      decreases Repr, 1
    {
      hide Course, CourseBelow, CourseFrom, IsTree, Resolve, LocalCourse, Matching, Rest;
      ghost var inside := if pcfe == null then [] else pcfe.Rest();
      ghost var after := CourseFrom(fs, dir, node, wwildcards, handle.pos + 1);
      ret, name, isDir := NoMoreFiles, [], false;
      if pcfe != null {
        ret, name, isDir := NextInside(node);
      }
      if ret == NoMoreFiles {
        Repr := {this};
        assert inside + after == after;
        ret, name, isDir := NextDir(node);
      } else {
        assert (inside + after)[1..] == inside[1..] + after;
      }
    }

    method NextInside(ghost node: Node) returns (ret: Status, name: seq<string>, isDir: bool)
      requires Valid() && IsDeep(node) && pcfe != null
      modifies Repr
      ensures var items, after := old(pcfe.Rest()), old(CourseFrom(fs, dir, node, wwildcards, handle.pos + 1));
              && Reports(ret, name, isDir, items)
              && (GoesOn(ret) ==> Valid() && fresh(Repr - old(Repr)) && Rest() == items[1..] + after)
      ensures dir == old(dir) && wwildcards == old(wwildcards) && handle == old(handle) && IsDeep(node)
      ensures ret == FileNotFound ==> old(pcfe.Rest()) != []
      ensures !GoesOn(ret) ==> pcfe == null
      decreases Repr, 0
    {
      hide Course, CourseBelow, CourseFrom, IsTree, Resolve, LocalCourse, Matching;
      ret, name, isDir := pcfe.Next();
      if ret != Success {
        if ret != AccessDenied {
          pcfe := null;
        }
      }
      if GoesOn(ret) {
        Repr := Repr + pcfe.Repr;
        DeepIsValid(node);
      }
    }
  }

  // ---- A whole enumeration ----

  // What makes the caller's loop end, when it is told to go on after errors or not.
  predicate IsStop(x: Item, fcontinue: bool) {
    x == TooLong || x == Bare || (x == Refused && !fcontinue)
  }

  // The items before the first stop.
  function Cut(items: seq<Item>, fcontinue: bool): seq<Item> {
    if items == [] || IsStop(items[0], fcontinue) then [] else [items[0]] + Cut(items[1..], fcontinue)
  }

  predicate Ends(x: Item, ret: Status) {
    match x
    case Found(_, _) => false
    case Refused => ret == AccessDenied
    case TooLong => ret == InsufficientBuffer
    case Bare => ret == FileNotFound
  }

  // What such a loop gets of what is coming, and the status it ends with. It is entered only if Init succeeds.
  predicate IsOutcome(coming: seq<Item>, fcontinue: bool, items: seq<Item>, ret: Status) {
    if coming != [] && coming[0] == Refused then items == [] && ret == AccessDenied
    else
      && items == Cut(coming, fcontinue)
      && |items| <= |coming|
      && (if |items| < |coming| then Ends(coming[|items|], ret)
          else ret == NoMoreFiles || (ret == FileNotFound && (coming == [] || coming == [Found([], true)])))
  }

  // The loop has come that far.
  ghost predicate IsUnderway(coming: seq<Item>, fcontinue: bool, items: seq<Item>, left: seq<Item>) {
    && items + left == coming && items + Cut(left, fcontinue) == Cut(coming, fcontinue)
    && (coming != [] ==> coming[0] != Refused)
  }

  predicate KeepsOn(ret: Status, fcontinue: bool) {
    ret == Success || (ret == AccessDenied && fcontinue)
  }

  lemma OneMoreItem(coming: seq<Item>, fcontinue: bool, items: seq<Item>, left: seq<Item>,
                    ret: Status, name: seq<string>, isDir: bool)
    requires IsUnderway(coming, fcontinue, items, left) && Reports(ret, name, isDir, left) && KeepsOn(ret, fcontinue)
    ensures left != [] && left[0] == if ret == Success then Found(name, isDir) else Refused
    ensures IsUnderway(coming, fcontinue, items + [left[0]], left[1..])
  {
    assert items + ([left[0]] + left[1..]) == (items + [left[0]]) + left[1..];
    assert Cut(left, fcontinue) == [left[0]] + Cut(left[1..], fcontinue);
  }

  lemma LoopIsOver(coming: seq<Item>, fcontinue: bool, items: seq<Item>, left: seq<Item>,
                   ret: Status, name: seq<string>, isDir: bool)
    requires IsUnderway(coming, fcontinue, items, left) && Reports(ret, name, isDir, left) && !KeepsOn(ret, fcontinue)
    requires ret == FileNotFound ==> left != [] || coming == [Found([], true)]
    ensures IsOutcome(coming, fcontinue, items, ret)
  {
    assert Cut(left, fcontinue) == [];
  }

  lemma NotEntered(coming: seq<Item>, fcontinue: bool, ret: Status, name: seq<string>, isDir: bool)
    requires Reports(ret, name, isDir, coming) && ret != Success && (ret == FileNotFound ==> coming == [])
    ensures IsOutcome(coming, fcontinue, [], ret)
  {
  }

  // The loop of DisplayAces and ModifyAces.
  method Enumerate(fs: FileSystem, fdeep: bool, path: seq<string>, pattern: string, fcontinue: bool, ghost node: Node)
    returns (items: seq<Item>, ret: Status)
    requires IsFileSystem(fs) && Resolve(fs.root, path) == Some(node) && node.Dir?
    requires if pattern == "" then path == [] && fs.rootLength == DRIVE else IsPattern(fs, pattern)
    ensures ret == InvalidName <==> !Fits(fs, path, |pattern|)
    ensures if ret == InvalidName then items == []
            else IsOutcome(Coming(fs, fdeep, path, node, pattern), fcontinue, items, ret)
  {
    hide Course, CourseBelow, CourseFrom, IsTree, Resolve, LocalCourse, Matching, Coming, Cut, Reports, IsUnderway;
    hide IsOutcome, FileEnumerate.Valid, FileEnumerate.Rest, IsFileSystem, Fits;
    items := [];
    var cfe, name, isDir;
    cfe, ret, name, isDir := FileEnumerate.Enter(fs, fdeep, path, pattern, node);
    ghost var coming := Coming(fs, fdeep, path, node, pattern);
    if ret == Success {
      ghost var left := coming;
      Entered(coming, fcontinue, name, isDir);
      RootComesFirst(fs, fdeep, path, node);
      while KeepsOn(ret, fcontinue)
        invariant Reports(ret, name, isDir, left) && IsUnderway(coming, fcontinue, items, left)
        invariant ret != InvalidName && (ret == FileNotFound ==> left != [] || coming == [Found([], true)])
        invariant GoesOn(ret) && cfe.froot ==> pattern == "" && left == coming
        invariant GoesOn(ret) ==> left != [] && cfe.Valid() && fresh(cfe.Repr) && cfe.Rest() == left[1..]
        decreases |left|
      {
        OneMoreItem(coming, fcontinue, items, left, ret, name, isDir);
        items := items + [if ret == Success then Found(name, isDir) else Refused];
        left := left[1..];
        ret, name, isDir := cfe.Next();
        ReportIs(ret, name, isDir, left);
      }
      LoopIsOver(coming, fcontinue, items, left, ret, name, isDir);
    } else if ret != InvalidName {
      NotEntered(coming, fcontinue, ret, name, isDir);
    }
  }

  lemma Entered(coming: seq<Item>, fcontinue: bool, name: seq<string>, isDir: bool)
    requires Reports(Success, name, isDir, coming)
    ensures IsUnderway(coming, fcontinue, [], coming) && coming != []
  {
  }

  lemma RootComesFirst(fs: FileSystem, fdeep: bool, path: seq<string>, node: Node)
    requires node.Dir?
    ensures Coming(fs, fdeep, path, node, "") != [] && Coming(fs, fdeep, path, node, "")[0] == Found(path, true)
  {
  }

  lemma ReportIs(ret: Status, name: seq<string>, isDir: bool, items: seq<Item>)
    requires Reports(ret, name, isDir, items)
    ensures ret != InvalidName && (GoesOn(ret) ==> items != [])
  {
  }

  lemma BareCourse(fs: FileSystem, dir: seq<string>, node: Node)
    requires node.Dir?
    ensures IsBare(node) && Fits(fs, dir, |ALL|) ==> Course(fs, dir, node, ALL) == []
  {
    hide Course, CourseBelow, CourseFrom;
    CourseHere(fs, dir, node, ALL);
    if IsBare(node) {
      CourseBelowAll(fs, dir, node, ALL);
      CourseFromEnd(fs, dir, node, ALL);
    }
  }

  lemma IntoIsComing(fs: FileSystem, dir: seq<string>, e: Entry, w: string)
    requires e.node.Dir? && w != ""
    ensures CourseInto(fs, dir, e, w) ==
            if FitsInside(fs, dir, e.name, w) then Coming(fs, true, dir + [e.name], e.node, w) else [TooLong]
    ensures FitsInside(fs, dir, e.name, w) <==> Fits(fs, dir + [e.name], |w|)
  {
    hide Course, Coming;
    ComingIsCourse(fs, dir + [e.name], e.node, w);
    LongerPath(fs, dir, e.name);
  }

  lemma ComingIsCourse(fs: FileSystem, dir: seq<string>, node: Node, w: string)
    requires node.Dir? && w != ""
    ensures Coming(fs, true, dir, node, w) == Course(fs, dir, node, w)
  {
    CourseHere(fs, dir, node, w);
  }

  lemma LocalCourseStep(fs: FileSystem, dir: seq<string>, list: seq<Entry>, i: nat)
    requires i <= |list|
    ensures LocalCourse(fs, dir, list[i..]) ==
            if i == |list| then [] else LocalItem(fs, dir, list[i]) + LocalCourse(fs, dir, list[i + 1..])
    ensures list[0..] == list
  {
    if i < |list| {
      assert list[i..][1..] == list[i + 1..];
    }
  }
}

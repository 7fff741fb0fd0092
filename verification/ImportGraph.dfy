// Modules and the modules they import, as appparse.cpp walks them.

module ImportGraph {
  // An import descriptor, and whether any of its functions is wanted.
  datatype Import = Import(name: string, used: bool)

  // What parsing a file finds: whether it is an executable image, whether the functions wanted of it can be
  // resolved, whether it belongs to the system, its import descriptors, and whether all of them can be read.
  datatype File = File(valid: bool, resolves: bool, system: bool, imports: seq<Import>, complete: bool)

  // The files by their folded names.
  datatype World = World(files: map<string, File>, fold: string -> string)

  datatype Error = NoError | NotFound | NotAnImage | NotResolved | NotParsed | Unvisited

  // A module in the tree of imports: what went wrong, whether its import tables were read, and its children
  // in the order of their list.
  datatype Module = Module(name: string, used: bool, error: Error, expanded: bool, children: seq<Module>)

  // ---- stricmp ----

  function Less(a: string, b: string): bool {
    if b == "" then false
    else if a == "" then true
    else a[0] < b[0] || (a[0] == b[0] && Less(a[1..], b[1..]))
  }

  lemma {:induction false} LessIsTotal(a: string, b: string)
    ensures !(Less(a, b) && Less(b, a)) && (a == b || Less(a, b) || Less(b, a)) && (a == b ==> !Less(a, b))
  {
    if a != "" && b != "" {
      LessIsTotal(a[1..], b[1..]);
      if a[0] == b[0] && a[1..] == b[1..] {
        assert a == [a[0]] + a[1..] && b == [b[0]] + b[1..];
      }
    }
  }

  // Up to some place they are the same, and there the one is at its end, or has the lower character.
  ghost predicate IsLessAt(a: string, b: string, n: nat) {
    n <= |a| && n < |b| && a[..n] == b[..n] && (n == |a| || a[n] < b[n])
  }

  lemma {:induction false} LessIff(a: string, b: string)
    ensures Less(a, b) <==> exists n: nat :: IsLessAt(a, b, n)
  {
    if a == "" || b == "" {
      assert b != "" ==> IsLessAt(a, b, 0);
    } else {
      LessIff(a[1..], b[1..]);
      if a[0] < b[0] {
        assert IsLessAt(a, b, 0);
      }
      if n: nat :| IsLessAt(a, b, n) {
        assert n > 0 ==> a[..n][0] == b[..n][0] && a[..n][1..] == b[..n][1..];
        assert n > 0 ==> a[1..][..n - 1] == a[..n][1..] && b[1..][..n - 1] == b[..n][1..];
        assert n > 0 ==> IsLessAt(a[1..], b[1..], n - 1);
      }
      if n: nat :| a[0] == b[0] && IsLessAt(a[1..], b[1..], n) {
        assert a[..n + 1] == [a[0]] + a[1..][..n] && b[..n + 1] == [b[0]] + b[1..][..n];
        assert IsLessAt(a, b, n + 1);
      }
    }
  }

  lemma {:induction false} LessIsTransitive(a: string, b: string, c: string)
    requires Less(a, b) && Less(b, c)
    ensures Less(a, c)
  {
    if a != "" && a[0] == b[0] && b[0] == c[0] {
      LessIsTransitive(a[1..], b[1..], c[1..]);
    }
  }

  // ---- The children of a module ----

  // FindChild.
  function Find(w: World, cs: seq<Import>, name: string): (i: nat)
    ensures i <= |cs| && (i < |cs| ==> w.fold(cs[i].name) == w.fold(name))
    ensures forall j :: 0 <= j < i ==> w.fold(cs[j].name) != w.fold(name)
  {
    if cs == [] || w.fold(cs[0].name) == w.fold(name) then 0 else 1 + Find(w, cs[1..], name)
  }

  // InsertChildModuleSorted: before the first child with a greater name.
  function Place(w: World, cs: seq<Import>, name: string): (i: nat)
    ensures i <= |cs| && (i < |cs| ==> Less(w.fold(name), w.fold(cs[i].name)))
    ensures forall j :: 0 <= j < i ==> !Less(w.fold(name), w.fold(cs[j].name))
  {
    if cs == [] || Less(w.fold(name), w.fold(cs[0].name)) then 0 else 1 + Place(w, cs[1..], name)
  }

  function AddImport(w: World, cs: seq<Import>, i: Import): seq<Import> {
    var k := Find(w, cs, i.name);
    if k < |cs| then cs[k := Import(cs[k].name, cs[k].used || i.used)]
    else
      var p := Place(w, cs, i.name);
      cs[..p] + [i] + cs[p..]
  }

  // The list of children after the descriptors are read.
  function Children(w: World, imports: seq<Import>): seq<Import> {
    if imports == [] then [] else AddImport(w, Children(w, imports[..|imports| - 1]), imports[|imports| - 1])
  }

  ghost predicate IsSorted(w: World, cs: seq<Import>) {
    forall i, j :: 0 <= i < j < |cs| ==> Less(w.fold(cs[i].name), w.fold(cs[j].name))
  }

  // Each imported module is a child once, and the children are sorted.
  lemma {:induction false} ChildrenAreSorted(w: World, imports: seq<Import>)
    ensures IsSorted(w, Children(w, imports))
  {
    if imports != [] {
      var cs, i := Children(w, imports[..|imports| - 1]), imports[|imports| - 1];
      ChildrenAreSorted(w, imports[..|imports| - 1]);
      AddKeepsSorted(w, cs, i);
    }
  }

  lemma AddKeepsSorted(w: World, cs: seq<Import>, i: Import)
    requires IsSorted(w, cs)
    ensures IsSorted(w, AddImport(w, cs, i))
  {
    hide Less;
    var k := Find(w, cs, i.name);
    if k == |cs| {
      var p := Place(w, cs, i.name);
      var to := AddImport(w, cs, i);
      assert to == cs[..p] + [i] + cs[p..];
      forall j | 0 <= j < |cs|
        ensures j < p ==> Less(w.fold(cs[j].name), w.fold(i.name))
        ensures j >= p ==> Less(w.fold(i.name), w.fold(cs[j].name))
      {
        LessIsTotal(w.fold(cs[j].name), w.fold(i.name));
        if j > p {
          LessIsTransitive(w.fold(i.name), w.fold(cs[p].name), w.fold(cs[j].name));
        }
      }
    }
  }

  // A name among the children, and a function wanted from a module of this name.
  ghost predicate HasKey(w: World, cs: seq<Import>, key: string) {
    exists c :: c in cs && w.fold(c.name) == key
  }

  ghost predicate IsWanted(w: World, cs: seq<Import>, key: string) {
    exists c :: c in cs && w.fold(c.name) == key && c.used
  }

  // They are the modules that the descriptors name; whether a function is wanted is collected over all
  // descriptors of a module.
  lemma {:induction false} ChildrenAreImports(w: World, imports: seq<Import>, key: string)
    ensures HasKey(w, Children(w, imports), key) <==> HasKey(w, imports, key)
    ensures IsWanted(w, Children(w, imports), key) <==> IsWanted(w, imports, key)
  {
    if imports != [] {
      var init, i := imports[..|imports| - 1], imports[|imports| - 1];
      ChildrenAreImports(w, init, key);
      AddHas(w, Children(w, init), i, key);
      assert imports == init + [i];
    }
  }

  // A module is spelt as the first descriptor spells it that names it.
  lemma {:induction false} FirstSpellingStays(w: World, imports: seq<Import>, c: Import)
    requires c in Children(w, imports)
    ensures exists n :: 0 <= n < |imports| && imports[n].name == c.name
                     && forall j :: 0 <= j < n ==> w.fold(imports[j].name) != w.fold(c.name)
  {
    hide Find, Place;
    var init, i := imports[..|imports| - 1], imports[|imports| - 1];
    var cs := Children(w, init);
    if Find(w, cs, i.name) < |cs| {
      var k := Find(w, cs, i.name);
      var d := if c in cs then c else cs[k];
      assert d in cs && d.name == c.name;
      FirstSpellingStays(w, init, d);
      var n :| 0 <= n < |init| && init[n].name == d.name
               && forall j :: 0 <= j < n ==> w.fold(init[j].name) != w.fold(d.name);
      assert imports[n].name == c.name && forall j :: 0 <= j < n ==> imports[j] == init[j];
    } else if c in cs {
      FirstSpellingStays(w, init, c);
      var n :| 0 <= n < |init| && init[n].name == c.name
               && forall j :: 0 <= j < n ==> w.fold(init[j].name) != w.fold(c.name);
      assert imports[n].name == c.name && forall j :: 0 <= j < n ==> imports[j] == init[j];
    } else {
      NoneBefore(w, init, i.name);
      assert c == i;
      var n := |imports| - 1;
      assert imports[n].name == c.name && forall j :: 0 <= j < n ==> imports[j] == init[j];
    }
  }

  lemma NoneBefore(w: World, imports: seq<Import>, name: string)
    requires Find(w, Children(w, imports), name) == |Children(w, imports)|
    ensures forall j :: 0 <= j < |imports| ==> w.fold(imports[j].name) != w.fold(name)
  {
    hide Children;
    ChildrenAreImports(w, imports, w.fold(name));
    assert !HasKey(w, imports, w.fold(name));
    forall j | 0 <= j < |imports|
      ensures w.fold(imports[j].name) != w.fold(name)
    {
      assert imports[j] in imports;
    }
  }

  lemma AddHas(w: World, cs: seq<Import>, i: Import, key: string)
    ensures HasKey(w, AddImport(w, cs, i), key) <==> HasKey(w, cs, key) || w.fold(i.name) == key
    ensures IsWanted(w, AddImport(w, cs, i), key) <==> IsWanted(w, cs, key) || (i.used && w.fold(i.name) == key)
  {
    hide Less;
    var k := Find(w, cs, i.name);
    if k < |cs| {
      UpdateHas(cs, k, Import(cs[k].name, cs[k].used || i.used));
    } else {
      InsertHas(cs, Place(w, cs, i.name), i);
    }
  }

  lemma UpdateHas<T>(cs: seq<T>, k: nat, x: T)
    requires k < |cs|
    ensures x in cs[k := x] && cs[k] in cs
    ensures forall c :: c in cs[k := x] ==> c == x || c in cs
    ensures forall c :: c in cs ==> c == cs[k] || c in cs[k := x]
  {
    assert cs[k := x][k] == x;
    forall c | c in cs
      ensures c == cs[k] || c in cs[k := x]
    {
      var j :| 0 <= j < |cs| && cs[j] == c;
      assert j != k ==> cs[k := x][j] == c;
    }
  }

  lemma InsertHas<T>(cs: seq<T>, p: nat, x: T)
    requires p <= |cs|
    ensures forall c :: c in cs[..p] + [x] + cs[p..] <==> c in cs || c == x
  {
    assert cs == cs[..p] + cs[p..];
  }
}

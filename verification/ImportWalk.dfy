// appparse/appparse.cpp: CModule::ParseModule, the recursion over the modules a module
// imports. The import graph may have cycles; a stack of the modules being parsed cuts
// them.

module ImportWalk {
  import opened ImportGraph

  // ---- What it builds ----

  // The folded names on the stack.
  function Keys(w: World, names: seq<string>): set<string> {
    set n | n in names :: w.fold(n)
  }

  // The files that may still be expanded.
  function Unused(w: World, stack: set<string>): nat {
    |w.files.Keys - stack|
  }

  lemma OneLess(w: World, stack: set<string>, key: string)
    requires key in w.files && key !in stack
    ensures Unused(w, stack + {key}) < Unused(w, stack)
  {
    assert w.files.Keys - stack == (w.files.Keys - (stack + {key})) + {key};
  }

  function Leaf(i: Import, error: Error): Module {
    Module(i.name, i.used, error, false, [])
  }

  // The tree below a module when these are on the stack.
  function Walked(w: World, i: Import, stack: set<string>): (m: Module)
    decreases Unused(w, stack), 0
  {
    var key := w.fold(i.name);
    if key !in w.files then Leaf(i, NotFound)
    else
      var f := w.files[key];
      if !f.valid then Leaf(i, NotAnImage)
      else if i.used && !f.resolves then Leaf(i, NotResolved)
      else if f.system || key in stack then Leaf(i, NoError)
      else if !f.complete then Module(i.name, i.used, NotParsed, true, Unparsed(Children(w, f.imports)))
      else
        OneLess(w, stack, key);
        var cs := Children(w, f.imports);
        Module(i.name, i.used, NoError, true, WalkedAll(w, cs, |cs|, stack + {key}))
  }

  function WalkedAll(w: World, cs: seq<Import>, n: nat, stack: set<string>): (ms: seq<Module>)
    requires n <= |cs|
    ensures |ms| == n && forall k :: 0 <= k < n ==> ms[k] == Walked(w, cs[k], stack)
    decreases Unused(w, stack), 1, n
  {
    if n == 0 then [] else WalkedAll(w, cs, n - 1, stack) + [Walked(w, cs[n - 1], stack)]
  }

  function Unparsed(cs: seq<Import>): (ms: seq<Module>)
    ensures |ms| == |cs| && forall k :: 0 <= k < |cs| ==> ms[k] == Leaf(cs[k], Unvisited)
  {
    seq(|cs|, k requires 0 <= k < |cs| => Leaf(cs[k], Unvisited))
  }

  // ---- The parse stack ----

  class ModuleParseStack {
    var names: seq<string> // the top comes first

    constructor ()
      ensures names == []
    {
      names := [];
    }

    method PushName(name: string)
      modifies this
      ensures names == [name] + old(names)
    {
      names := [name] + names;
    }

    method Pop()
      requires names != []
      modifies this
      ensures names == old(names)[1..]
    {
      names := names[1..];
    }

    method CheckModuleParsed(w: World, name: string) returns (found: bool)
      ensures found <==> w.fold(name) in Keys(w, names)
    {
      var n := 0;
      while n < |names|
        invariant n <= |names|
        invariant forall k :: 0 <= k < n ==> w.fold(names[k]) != w.fold(name)
      {
        if w.fold(names[n]) == w.fold(name) {
          return true;
        }
        n := n + 1;
      }
      return false;
    }
  }

  // ---- The children ----

  method FindChild(w: World, cs: seq<Import>, name: string) returns (i: nat)
    ensures i == Find(w, cs, name)
  {
    i := 0;
    while i < |cs|
      invariant i <= |cs| && Find(w, cs, name) == i + Find(w, cs[i..], name)
    {
      assert cs[i..][1..] == cs[i + 1..];
      if w.fold(cs[i].name) == w.fold(name) {
        return;
      }
      i := i + 1;
    }
  }

  method InsertChildModuleSorted(w: World, cs: seq<Import>, i: Import) returns (to: seq<Import>)
    ensures to == cs[..Place(w, cs, i.name)] + [i] + cs[Place(w, cs, i.name)..]
  {
    hide Less;
    if cs == [] || Less(w.fold(i.name), w.fold(cs[0].name)) {
      return [i] + cs;
    }
    var p := 1;
    while p < |cs|
      invariant 1 <= p <= |cs| && Place(w, cs, i.name) == p + Place(w, cs[p..], i.name)
    {
      assert cs[p..][1..] == cs[p + 1..];
      if Less(w.fold(i.name), w.fold(cs[p].name)) {
        return cs[..p] + [i] + cs[p..];
      }
      p := p + 1;
    }
    return cs + [i];
  }

  method WalkImportTable(w: World, imports: seq<Import>) returns (cs: seq<Import>)
    ensures cs == Children(w, imports)
  {
    hide Find, Place;
    cs := [];
    var n := 0;
    while n < |imports|
      invariant n <= |imports| && cs == Children(w, imports[..n])
    {
      assert imports[..n + 1][..n] == imports[..n];
      var k := FindChild(w, cs, imports[n].name);
      if k == |cs| {
        cs := InsertChildModuleSorted(w, cs, Import(imports[n].name, imports[n].used));
      } else {
        cs := cs[k := Import(cs[k].name, cs[k].used || imports[n].used)];
      }
      n := n + 1;
    }
    assert imports[..n] == imports;
  }

  // ---- The walk ----

  // It ends on every import graph, leaves the stack as it was whatever happens, and builds the tree.
  method ParseModule(w: World, stack: ModuleParseStack, i: Import) returns (m: Module, fSucceeded: bool)
    modifies stack
    ensures stack.names == old(stack.names) && fSucceeded == (m.error == NoError)
    ensures var key := w.fold(i.name);
            fSucceeded <==>
            && key in w.files && w.files[key].valid && (i.used ==> w.files[key].resolves)
            && (w.files[key].system || (exists n :: n in stack.names && w.fold(n) == key) || w.files[key].complete)
    ensures m == Walked(w, i, Keys(w, stack.names))
    decreases Unused(w, Keys(w, stack.names)), 0
  {
    var key := w.fold(i.name);
    if key !in w.files {
      return Leaf(i, NotFound), false;
    }
    var f := w.files[key];
    if !f.valid {
      return Leaf(i, NotAnImage), false;
    }
    if i.used && !f.resolves {
      return Leaf(i, NotResolved), false;
    }
    var parsed := stack.CheckModuleParsed(w, i.name);
    if f.system || parsed {
      return Leaf(i, NoError), true;
    }
    OneLess(w, Keys(w, stack.names), key);
    PushedKeys(w, stack.names, i.name);
    stack.PushName(i.name);
    m := ParseTables(w, stack, i, f);
    fSucceeded := f.complete;
    stack.Pop();
  }

  method ParseTables(w: World, stack: ModuleParseStack, i: Import, f: File) returns (m: Module)
    requires w.fold(i.name) in w.files && f == w.files[w.fold(i.name)]
    modifies stack
    ensures stack.names == old(stack.names)
    ensures m == Module(i.name, i.used, if f.complete then NoError else NotParsed, true,
                        var cs := Children(w, f.imports);
                        if f.complete then WalkedAll(w, cs, |cs|, Keys(w, stack.names)) else Unparsed(cs))
    decreases Unused(w, Keys(w, stack.names)), 1
  {
    hide Walked, Children;
    var cs := WalkImportTable(w, f.imports);
    if !f.complete {
      return Module(i.name, i.used, NotParsed, true, Unparsed(cs));
    }
    var ms := [];
    var n := 0;
    while n < |cs|
      invariant n <= |cs| && stack.names == old(stack.names)
      invariant ms == WalkedAll(w, cs, n, Keys(w, stack.names))
    {
      var child, _ := ParseModule(w, stack, cs[n]);
      ms := ms + [child];
      n := n + 1;
    }
    m := Module(i.name, i.used, NoError, true, ms);
  }

  lemma PushedKeys(w: World, names: seq<string>, name: string)
    ensures Keys(w, [name] + names) == Keys(w, names) + {w.fold(name)}
  {
    forall n | n in names
      ensures n in [name] + names
    {}
  }
}

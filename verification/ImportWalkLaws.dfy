// What the tree of imports has in it: no module is expanded twice on one branch, and
// every module that can be reached is visited.

module ImportWalkLaws {
  import opened ImportGraph
  import opened ImportWalk

  // ---- One module ----

  // When parsing gets as far as the import tables: the file is there, is an image, what is wanted of it resolves, it
  // is no file of the system, and it is not being parsed already.
  predicate ReadsTables(w: World, i: Import, stack: set<string>) {
    var key := w.fold(i.name);
    && key in w.files && w.files[key].valid && (i.used ==> w.files[key].resolves)
    && !w.files[key].system && key !in stack
  }

  // What becomes of each import, and exactly when. Where the tables are not needed, for a file of the system or one on
  // the stack, it is a success.
  lemma ErrorIs(w: World, i: Import, stack: set<string>)
    ensures var m, key := Walked(w, i, stack), w.fold(i.name);
            var there := key in w.files;
            && m.name == i.name && m.used == i.used
            && (m.error == NotFound <==> !there)
            && (m.error == NotAnImage <==> there && !w.files[key].valid)
            && (m.error == NotResolved <==> there && w.files[key].valid && i.used && !w.files[key].resolves)
            && (m.error == NotParsed <==> ReadsTables(w, i, stack) && !w.files[key].complete)
            && (m.error == NoError <==>
                && there && w.files[key].valid && (i.used ==> w.files[key].resolves)
                && (w.files[key].system || key in stack || w.files[key].complete))
            && (m.expanded <==> ReadsTables(w, i, stack))
  {
    hide Children;
  }

  // Its children, if it has any: all its imports, parsed with its own name on the stack, or none of them parsed if the
  // tables could not be read to the end.
  lemma ChildrenAre(w: World, i: Import, stack: set<string>)
    ensures var m, key := Walked(w, i, stack), w.fold(i.name);
            if !ReadsTables(w, i, stack) then m.children == []
            else
              var cs := Children(w, w.files[key].imports);
              && |m.children| == |cs|
              && forall k :: 0 <= k < |cs| ==>
                   && m.children[k].name == cs[k].name && m.children[k].used == cs[k].used
                   && m.children[k] == if w.files[key].complete then Walked(w, cs[k], stack + {key})
                                       else Module(cs[k].name, cs[k].used, Unvisited, false, [])
  {
    hide Children;
    if ReadsTables(w, i, stack) {
      var key := w.fold(i.name);
      var cs := Children(w, w.files[key].imports);
      forall k | 0 <= k < |cs|
        ensures Walked(w, i, stack).children[k].name == cs[k].name
        ensures Walked(w, i, stack).children[k].used == cs[k].used
      {
        ErrorIs(w, cs[k], stack + {key});
      }
    }
  }

  // ---- Branches ----

  // From the root to a leaf no name is expanded twice, nor one that was seen before.
  ghost predicate ExpandsOnce(w: World, m: Module, seen: set<string>)
    decreases m
  {
    && (m.expanded ==> w.fold(m.name) !in seen)
    && forall c :: c in m.children ==> ExpandsOnce(w, c, seen + if m.expanded then {w.fold(m.name)} else {})
  }

  lemma {:induction false} WalkExpandsOnce(w: World, i: Import, stack: set<string>)
    ensures ExpandsOnce(w, Walked(w, i, stack), stack)
    decreases Unused(w, stack)
  {
    hide Children;
    var m, key := Walked(w, i, stack), w.fold(i.name);
    if m.expanded && m.error == NoError {
      var cs := Children(w, w.files[key].imports);
      OneLess(w, stack, key);
      forall c | c in m.children
        ensures ExpandsOnce(w, c, stack + {key})
      {
        var k :| 0 <= k < |m.children| && m.children[k] == c;
        WalkExpandsOnce(w, cs[k], stack + {key});
      }
    }
  }

  // So a branch is no longer than there are files, and one more.
  function Height(m: Module): nat
    decreases m
  {
    1 + HeightOf(m.children)
  }

  function HeightOf(ms: seq<Module>): (h: nat)
    ensures forall c :: c in ms ==> Height(c) <= h
    decreases ms
  {
    if ms == [] then 0
    else
      var h, first := HeightOf(ms[1..]), Height(ms[0]);
      assert forall c :: c in ms ==> c == ms[0] || c in ms[1..];
      if first > h then first else h
  }

  lemma {:induction false} HeightOfBound(ms: seq<Module>, n: nat)
    requires forall c :: c in ms ==> Height(c) <= n
    ensures HeightOf(ms) <= n
    decreases |ms|
  {
    if ms != [] {
      HeightOfBound(ms[1..], n);
    }
  }

  lemma {:induction false} WalkIsLow(w: World, i: Import, stack: set<string>)
    ensures Height(Walked(w, i, stack)) <= Unused(w, stack) + 1
    decreases Unused(w, stack)
  {
    hide Children, Less;
    var m, key := Walked(w, i, stack), w.fold(i.name);
    if m.expanded {
      var cs := Children(w, w.files[key].imports);
      OneLess(w, stack, key);
      forall c | c in m.children
        ensures Height(c) <= Unused(w, stack)
      {
        var k :| 0 <= k < |m.children| && m.children[k] == c;
        if m.error == NoError {
          WalkIsLow(w, cs[k], stack + {key});
        } else {
          assert c.children == [];
        }
      }
      HeightOfBound(m.children, Unused(w, stack));
    }
  }

  // ---- Reachability ----

  // Parsing this import goes on to those of its file.
  predicate Opens(w: World, i: Import) {
    var key := w.fold(i.name);
    && key in w.files && w.files[key].valid && (i.used ==> w.files[key].resolves)
    && !w.files[key].system && w.files[key].complete
  }

  ghost predicate IsStep(w: World, a: Import, b: Import) {
    Opens(w, a) && b in Children(w, w.files[w.fold(a.name)].imports)
  }

  ghost predicate IsPath(w: World, p: seq<Import>) {
    p != [] && forall k :: 0 <= k < |p| - 1 ==> IsStep(w, p[k], p[k + 1])
  }

  ghost predicate Visits(w: World, m: Module, key: string)
    decreases m
  {
    || (m.error != Unvisited && w.fold(m.name) == key)
    || exists c :: c in m.children && Visits(w, c, key)
  }

  ghost predicate Connects(w: World, p: seq<Import>, i: Import, key: string) {
    IsPath(w, p) && p[0] == i && w.fold(p[|p| - 1].name) == key
  }

  // What is visited is reached by imports.
  lemma {:induction false} VisitedIsReached(w: World, i: Import, stack: set<string>, key: string)
    returns (p: seq<Import>)
    requires Visits(w, Walked(w, i, stack), key)
    ensures Connects(w, p, i, key)
    decreases Unused(w, stack)
  {
    var own := w.fold(i.name);
    if own == key {
      p := [i];
    } else {
      hide Children, Visits, Walked;
      var c := VisitedBelow(w, i, stack, key);
      OneLess(w, stack, own);
      var q := VisitedIsReached(w, c, stack + {own}, key);
      p := [i] + q;
      Prepend(w, i, q, key);
    }
  }

  // What is visited below a module is visited below a module it imports.
  lemma VisitedBelow(w: World, i: Import, stack: set<string>, key: string) returns (c: Import)
    requires Visits(w, Walked(w, i, stack), key) && w.fold(i.name) != key
    ensures Opens(w, i) && w.fold(i.name) !in stack && IsStep(w, i, c)
    ensures Visits(w, Walked(w, c, stack + {w.fold(i.name)}), key)
  {
    hide Children;
    NoneBelow(w, i, stack, key);
    var m, own := Walked(w, i, stack), w.fold(i.name);
    var cs := Children(w, w.files[own].imports);
    var child :| child in m.children && Visits(w, child, key);
    var k :| 0 <= k < |m.children| && m.children[k] == child;
    c := cs[k];
  }

  lemma Prepend(w: World, i: Import, q: seq<Import>, key: string)
    requires q != [] && Connects(w, q, q[0], key) && IsStep(w, i, q[0])
    ensures Connects(w, [i] + q, i, key)
  {
    hide IsStep;
    var p := [i] + q;
    forall j | 0 <= j < |p| - 1
      ensures IsStep(w, p[j], p[j + 1])
    {
      if j > 0 {
        assert p[j] == q[j - 1] && p[j + 1] == q[j];
      }
    }
  }

  lemma NoneBelow(w: World, i: Import, stack: set<string>, key: string)
    requires Visits(w, Walked(w, i, stack), key) && w.fold(i.name) != key
    ensures Walked(w, i, stack).expanded && Walked(w, i, stack).error == NoError
  {
    hide Children;
    var m := Walked(w, i, stack);
    assert m.error == NotParsed ==> forall c :: c in m.children ==> c.children == [] && c.error == Unvisited;
  }

  // A path without repeated names, none of which is on the stack, is followed to its end.
  ghost predicate IsSimple(w: World, p: seq<Import>, stack: set<string>) {
    && (forall k :: 0 <= k < |p| ==> w.fold(p[k].name) !in stack)
    && forall j, k :: 0 <= j < k < |p| ==> w.fold(p[j].name) != w.fold(p[k].name)
  }

  lemma {:induction false} SimplePathIsFollowed(w: World, p: seq<Import>, stack: set<string>)
    requires IsPath(w, p) && IsSimple(w, p, stack)
    ensures Visits(w, Walked(w, p[0], stack), w.fold(p[|p| - 1].name))
    decreases |p|
  {
    hide Children;
    var i, rest := p[0], p[1..];
    var key := w.fold(i.name);
    if |p| > 1 {
      assert IsStep(w, p[0], p[1]);
      OneLess(w, stack, key);
      assert IsPath(w, rest) by {
        forall k | 0 <= k < |rest| - 1
          ensures IsStep(w, rest[k], rest[k + 1])
        {
          assert IsStep(w, p[k + 1], p[k + 2]);
        }
      }
      assert IsSimple(w, rest, stack + {key});
      SimplePathIsFollowed(w, rest, stack + {key});
      var cs := Children(w, w.files[key].imports);
      var k :| 0 <= k < |cs| && cs[k] == p[1];
      assert Walked(w, i, stack).children[k] == Walked(w, cs[k], stack + {key});
      assert rest[|rest| - 1] == p[|p| - 1];
    }
  }

  // A path that comes back to a name can be cut short.
  lemma {:induction false} Shorten(w: World, p: seq<Import>) returns (q: seq<Import>)
    requires IsPath(w, p)
    ensures Connects(w, q, p[0], w.fold(p[|p| - 1].name)) && IsSimple(w, q, {})
    decreases |p|
  {
    if j, k :| 0 <= j < k < |p| && w.fold(p[j].name) == w.fold(p[k].name) {
      var cut := Cut(w, p, j, k);
      q := Shorten(w, cut);
    } else {
      q := p;
    }
  }

  lemma Cut(w: World, p: seq<Import>, j: nat, k: nat) returns (q: seq<Import>)
    requires IsPath(w, p) && j < k < |p| && w.fold(p[j].name) == w.fold(p[k].name)
    ensures Connects(w, q, p[0], w.fold(p[|p| - 1].name)) && |q| < |p|
  {
    hide Children;
    q := p[..j + 1] + p[k + 1..];
    forall m | 0 <= m < |q| - 1
      ensures IsStep(w, q[m], q[m + 1])
    {
      if m < j {
        assert IsStep(w, p[m], p[m + 1]);
      } else if m == j {
        assert IsStep(w, p[j], p[j + 1]) && IsStep(w, p[k], p[k + 1]);
      } else {
        assert q[m] == p[m + (k - j)] && q[m + 1] == p[m + (k - j) + 1];
        assert IsStep(w, p[m + (k - j)], p[m + (k - j) + 1]);
      }
    }
    if k == |p| - 1 {
      assert q[|q| - 1] == p[j];
    } else {
      assert q[|q| - 1] == p[|p| - 1];
    }
  }

  // The main result: the modules visited are those that imports lead to.
  lemma VisitsWhatIsReachable(w: World, i: Import, key: string)
    ensures Visits(w, Walked(w, i, {}), key) <==> exists p :: Connects(w, p, i, key)
  {
    hide Visits, Walked;
    if Visits(w, Walked(w, i, {}), key) {
      var p := VisitedIsReached(w, i, {}, key);
    }
    if p :| Connects(w, p, i, key) {
      var q := Shorten(w, p);
      SimplePathIsFollowed(w, q, {});
    }
  }
}

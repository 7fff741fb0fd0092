// autosafe/autosafe.c: the lists of boot entries, made from what the firmware
// enumerates, edited in place, and written back.

module BootLists {
  import opened Bytes
  import opened BootEntryFormat
  import opened BootEntryWriter
  import opened BootOrder
  import opened LinkedLists

  // ---- Enumerated entries ----

  // The chain of BOOT_ENTRY_LIST structures from p on, as the entries it stands for.
  function Enumerated(buffer: seq<Byte>, p: nat): (es: seq<Entry>)
    decreases |buffer| - p
  {
    var e := Parsed(ReadAt(buffer, p + 4, GetDword(buffer, p + 8)));
    var next := GetDword(buffer, p);
    [e] + if next == 0 || p + next >= |buffer| then [] else Enumerated(buffer, p + next)
  }

  // No link leads out of the buffer.
  predicate IsChain(buffer: seq<Byte>, p: nat)
    decreases |buffer| - p
  {
    var next := GetDword(buffer, p);
    p < |buffer| && (next != 0 ==> p + next < |buffer| && IsChain(buffer, p + next))
  }

  predicate IsActive(e: Entry) {
    e.attributes % 2 == ACTIVE
  }

  function Flagged(es: seq<Entry>, active: bool): seq<Entry> {
    if es == [] then []
    else (if IsActive(es[0]) == active then [es[0]] else []) + Flagged(es[1..], active)
  }

  // One entry of the chain more behind those there are.
  lemma EnumeratedNext(buffer: seq<Byte>, p: nat, active: seq<Entry>, inactive: seq<Entry>)
    requires IsChain(buffer, p)
    ensures var e := Parsed(ReadAt(buffer, p + 4, GetDword(buffer, p + 8)));
            var next := GetDword(buffer, p);
            var a, i := active + (if IsActive(e) then [e] else []), inactive + (if IsActive(e) then [] else [e]);
            && active + Flagged(Enumerated(buffer, p), true)
               == (if next == 0 then a else a + Flagged(Enumerated(buffer, p + next), true))
            && inactive + Flagged(Enumerated(buffer, p), false)
               == (if next == 0 then i else i + Flagged(Enumerated(buffer, p + next), false))
            && p < |buffer| && (next != 0 ==> p + next < |buffer| && IsChain(buffer, p + next))
  {
    hide Parsed, ReadAt, IsActive, GetDword, Flagged;
    var e := Parsed(ReadAt(buffer, p + 4, GetDword(buffer, p + 8)));
    var next := GetDword(buffer, p);
    var rest := if next == 0 then [] else Enumerated(buffer, p + next);
    FlaggedFirst(e, rest, true);
    FlaggedFirst(e, rest, false);
  }

  lemma FlaggedFirst(e: Entry, es: seq<Entry>, active: bool)
    ensures Flagged([e] + es, active) == (if IsActive(e) == active then [e] else []) + Flagged(es, active)
    ensures Flagged([], active) == []
  {
    hide IsActive;
    assert ([e] + es)[1..] == es;
  }

  lemma {:induction false} FlaggedHas(es: seq<Entry>)
    ensures multiset(Flagged(es, true)) + multiset(Flagged(es, false)) == multiset(es)
  {
    if es != [] {
      FlaggedHas(es[1..]);
      assert es == [es[0]] + es[1..];
    }
  }

  lemma {:induction false} EnumeratedIsQuiet(buffer: seq<Byte>, p: nat)
    ensures forall e :: e in Enumerated(buffer, p) ==> e.status == UNCHANGED
    decreases |buffer| - p
  {
    hide Parsed, ReadAt, GetDword;
    ParsedIsConsistent(ReadAt(buffer, p + 4, GetDword(buffer, p + 8)));
    var next := GetDword(buffer, p);
    if next != 0 && p + next < |buffer| {
      EnumeratedIsQuiet(buffer, p + next);
    }
  }

  // ---- Saving ----

  // What becomes of a list when it is saved.
  function Saved(es: seq<Entry>): (r: seq<Entry>)
    ensures |r| <= |es|
  {
    if es == [] then []
    else
      var e := es[|es| - 1];
      Saved(es[..|es| - 1]) + if e.status.deleted then [] else if e.status.modified then [Rebuilt(e)] else [e]
  }

  // It is written again, and its node replaced.
  predicate IsRewritten(e: Entry) {
    e.status.modified && !e.status.deleted
  }

  predicate AnyRewritten(es: seq<Entry>) {
    exists i :: 0 <= i < |es| && IsRewritten(es[i])
  }

  lemma RewrittenOneMore(es: seq<Entry>, k: nat)
    requires k < |es|
    ensures AnyRewritten(es[..k + 1]) <==> AnyRewritten(es[..k]) || IsRewritten(es[k])
    ensures !AnyRewritten(es[..0]) && es[..|es|] == es
  {
    hide IsRewritten;
    var less, more := es[..k], es[..k + 1];
    if i :| 0 <= i < k && IsRewritten(less[i]) {
      assert more[i] == less[i];
    }
    if IsRewritten(es[k]) {
      assert more[k] == es[k];
    }
    if i :| 0 <= i <= k && IsRewritten(more[i]) {
      assert i < k ==> less[i] == more[i];
    }
  }

  predicate IsSavable(e: Entry) {
    IsRewritten(e) ==> IsWritable(e)
  }

  predicate AreSavable(es: seq<Entry>) {
    forall e :: e in es ==> IsSavable(e)
  }

  // What is allocated for it has a 32-bit size.
  predicate IsAllocatable(e: Entry, base: nat) {
    IsRewritten(e) ==> base + Length(e) < 0x1_0000_0000
  }

  // What is stored for each entry of the firmware: deleted ones go, modified ones are written again.
  ghost function Stored(nv: map<Dword, seq<Byte>>, es: seq<Entry>): map<Dword, seq<Byte>>
    requires AreSavable(es)
  {
    if es == [] then nv
    else StoredOne(Stored(nv, es[..|es| - 1]), es[|es| - 1])
  }

  ghost function StoredOne(nv: map<Dword, seq<Byte>>, e: Entry): map<Dword, seq<Byte>>
    requires IsSavable(e)
  {
    if e.status.deleted then (if e.status.isNew then nv else nv - {e.id})
    else if e.status.modified then nv[e.id := NtBytes(e)]
    else nv
  }

  // A new entry stops the program.
  predicate HasNew(es: seq<Entry>) {
    exists i :: 0 <= i < |es| && es[i].status.isNew && !es[i].status.deleted
  }

  lemma NothingSaved(nv: map<Dword, seq<Byte>>)
    ensures Saved([]) == [] && Stored(nv, []) == nv && !HasNew([])
  {
  }

  lemma SaveOneMore(nv: map<Dword, seq<Byte>>, es: seq<Entry>, k: nat)
    requires k < |es| && AreSavable(es)
    ensures var e := es[k];
            && IsSavable(e)
            && Saved(es[..k + 1]) ==
               Saved(es[..k]) + (if e.status.deleted then [] else if e.status.modified then [Rebuilt(e)] else [e])
            && Stored(nv, es[..k + 1]) == StoredOne(Stored(nv, es[..k]), e)
            && (HasNew(es[..k + 1]) <==> HasNew(es[..k]) || (e.status.isNew && !e.status.deleted))
            && (HasNew(es[..k + 1]) ==> HasNew(es))
  {
    hide NtBytes, Rebuilt, IsWritable;
    var less, more := es[..k], es[..k + 1];
    assert more[..k] == less && more[k] == es[k] && es[k] in es;
    if HasNew(less) {
      var i :| 0 <= i < k && less[i].status.isNew && !less[i].status.deleted;
      assert more[i] == less[i];
    }
    if HasNew(more) {
      var i :| 0 <= i <= k && more[i].status.isNew && !more[i].status.deleted;
      assert es[i] == more[i] && (i < k ==> less[i] == more[i]);
    }
  }

  predicate AreQuiet(es: seq<Entry>) {
    forall e :: e in es ==> e.status == UNCHANGED
  }

  // Nothing happens to a list without changes.
  lemma {:induction false} QuietSave(nv: map<Dword, seq<Byte>>, es: seq<Entry>)
    requires AreQuiet(es)
    ensures AreSavable(es) && !AnyRewritten(es) && (forall e, base :: e in es ==> IsAllocatable(e, base))
    ensures Saved(es) == es && Stored(nv, es) == nv && !HasNew(es)
  {
    hide Saved, Stored, HasNew, IsWritable;
    NothingSaved(nv);
    if es != [] {
      var n := |es| - 1;
      QuietSave(nv, es[..n]);
      SaveOneMore(nv, es, n);
      assert es[..n + 1] == es && es == es[..n] + [es[n]];
    }
  }

  lemma {:induction false} FrontIsQuiet(es: seq<Entry>, k: nat)
    requires AreQuiet(es) && k < |es|
    ensures AreQuiet(ToFront(es, k))
  {
    ToFrontKeeps(es, k);
    forall e | e in ToFront(es, k)
      ensures e in es
    {
      assert e in multiset(ToFront(es, k));
    }
  }

  // A modified entry can be read back from the firmware, as long as no other has its id.
  lemma {:induction false} ModifiedReadsBack(nv: map<Dword, seq<Byte>>, es: seq<Entry>, i: nat)
    requires i < |es| && AreSavable(es)
    requires forall j :: 0 <= j < |es| && j != i ==> es[j].id != es[i].id
    requires es[i].status.modified && !es[i].status.deleted && (es[i].os.Nt? || !LooksNt(es[i].os.options))
    ensures var e := es[i];
            && e.id in Stored(nv, es)
            && Parsed(Stored(nv, es)[e.id]) == e.(status := UNCHANGED, nameLength := 2 * (|e.name| + 1))
  {
    hide Parsed, NtBytes, IsWritable, LooksNt;
    assert es[i] in es;
    if i == |es| - 1 {
      ReadsBackIff(es[i]);
    } else {
      ModifiedReadsBack(nv, es[..|es| - 1], i);
    }
  }

  // The lists as InitializeEfi builds them, with k places filled.
  ghost predicate AreBuilt(es: seq<Entry>, order: seq<Dword>, k: nat,
                           boot: seq<Entry>, active: seq<Entry>, inactive: seq<Entry>)
    requires k <= |order|
  {
    && boot == Placed(order, k, Flagged(es, true), Flagged(es, false))
    && active == Left(Flagged(es, true), order[..k])
    && inactive == Left(Flagged(es, false), order[..k])
  }

  lemma BuiltStarts(es: seq<Entry>, order: seq<Dword>)
    ensures AreBuilt(es, order, 0, [], Flagged(es, true), Flagged(es, false))
  {
    hide Left, Flagged;
    LeftNothing(Flagged(es, true));
    LeftNothing(Flagged(es, false));
    NothingPlaced(order, Flagged(es, true), Flagged(es, false));
  }

  lemma BuiltNext(es: seq<Entry>, order: seq<Dword>, k: nat,
                  boot: seq<Entry>, active: seq<Entry>, inactive: seq<Entry>)
    requires k < |order| && AreBuilt(es, order, k, boot, active, inactive)
    ensures var id := order[k];
            AreBuilt(es, order, k + 1, boot + WithId(active, id) + WithId(inactive, id),
                     Left(active, [id]), Left(inactive, [id]))
  {
    hide WithId, Left, Placed, Flagged;
    LeftStep(Flagged(es, true), order[..k], order[k]);
    LeftStep(Flagged(es, false), order[..k], order[k]);
    PlacedStep(order, k, Flagged(es, true), Flagged(es, false));
  }

  // ---- A list while it is saved ----

  // Its first m nodes have been seen; what became of them are the first k of the list as it is now.
  ghost predicate IsSaving(r: seq<Node>, m: nat, cur: seq<Node>, k: nat,
                           nv: map<Dword, seq<Byte>>, now: map<Dword, seq<Byte>>)
    requires r != [] && AreSavable(Entries(r))
    reads cur
  {
    && IsList(r[0], cur) && IsAt(r, m, cur, k)
    && Entries(cur[..k]) == Saved(Entries(r)[..m - 1])
    && now == Stored(nv, Entries(r)[..m - 1]) && !HasNew(Entries(r)[..m - 1])
  }

  lemma SavingStarts(r: seq<Node>, nv: map<Dword, seq<Byte>>)
    requires r != [] && IsList(r[0], r) && AreSavable(Entries(r))
    ensures IsSaving(r, 1, r, 1, nv, nv)
  {
    hide Saved, Stored, HasNew, IsSavable;
    NothingSaved(nv);
    assert Entries(r)[..0] == [] && Entries(r[..1]) == [];
  }

  lemma SavingEnds(r: seq<Node>, m: nat, cur: seq<Node>, k: nat,
                   nv: map<Dword, seq<Byte>>, now: map<Dword, seq<Byte>>)
    requires r != [] && AreSavable(Entries(r)) && IsSaving(r, m, cur, k, nv, now) && k == |cur|
    ensures Entries(cur) == Saved(Entries(r)) && now == Stored(nv, Entries(r)) && !HasNew(Entries(r))
  {
    hide Saved, Stored, HasNew, IsSavable;
    assert Entries(r)[..m - 1] == Entries(r) && cur[..|cur|] == cur;
  }

  lemma SavingIs(r: seq<Node>, m: nat, cur: seq<Node>, k: nat, nv: map<Dword, seq<Byte>>, now: map<Dword, seq<Byte>>)
    requires r != [] && AreSavable(Entries(r)) && IsSaving(r, m, cur, k, nv, now)
    ensures 0 < m <= |r| && 0 < k <= |cur| && IsList(r[0], cur) && |cur| - k == |r| - m
  {
    hide Saved, Stored, HasNew, IsSavable, IsList, Entries;
    assert |cur[k..]| == |r[m..]|;
  }

  // What one more node means.
  lemma SaveNext(r: seq<Node>, m: nat, cur: seq<Node>, k: nat, nv: map<Dword, seq<Byte>>, now: map<Dword, seq<Byte>>)
    requires r != [] && AreSavable(Entries(r))
    requires IsSaving(r, m, cur, k, nv, now) && k < |cur|
    ensures m < |r| && cur[k] == r[m] && cur[k].entry in Entries(r)
    ensures var es, e := Entries(r), cur[k].entry;
            && Saved(es[..m]) == Entries(cur[..k])
                                 + (if e.status.deleted then [] else if e.status.modified then [Rebuilt(e)] else [e])
            && Stored(nv, es[..m]) == StoredOne(now, e)
            && (HasNew(es[..m]) <==> e.status.isNew && !e.status.deleted) && (HasNew(es[..m]) ==> HasNew(es))
  {
    hide Saved, Stored, StoredOne, HasNew, IsSavable, Rebuilt, Entries;
    NextAt(r, m, cur, k);
    assert Entries(r)[m - 1] == r[m].entry;
    SaveOneMore(nv, Entries(r), m - 1);
  }

  // The same of the entries that are written again; no other node of the list is the one at hand.
  lemma SeeNext(r: seq<Node>, m: nat, cur: seq<Node>, k: nat, nv: map<Dword, seq<Byte>>, now: map<Dword, seq<Byte>>)
    requires r != [] && AreSavable(Entries(r))
    requires IsSaving(r, m, cur, k, nv, now) && k < |cur|
    ensures m < |r| && cur[k] == r[m]
    ensures AnyRewritten(Entries(r)[..m]) <==> AnyRewritten(Entries(r)[..m - 1]) || IsRewritten(cur[k].entry)
    ensures forall i :: 0 <= i < |cur| && i != k ==> cur[i] != cur[k]
    ensures (cur[..k] + cur[k + 1..])[..k] == cur[..k]
  {
    hide AnyRewritten, IsRewritten, Saved, Stored, HasNew, AreSavable;
    NextAt(r, m, cur, k);
    RewrittenOneMore(Entries(r), m - 1);
  }

  // The nodes are old ones or new ones, and none of them has been freed.
  ghost predicate IsKept(cur: seq<Node>, r: seq<Node>, made: set<Node>, freed: set<Node>) {
    forall i :: 0 <= i < |cur| ==> (cur[i] in r || cur[i] in made) && cur[i] !in freed
  }

  lemma KeptStarts(r: seq<Node>)
    ensures IsKept(r, r, {}, {})
  {
  }

  lemma KeptIs(cur: seq<Node>, r: seq<Node>, made: set<Node>, freed: set<Node>)
    requires IsKept(cur, r, made, freed)
    ensures forall i :: 0 <= i < |cur| ==> (cur[i] in r || cur[i] in made) && cur[i] !in freed
  {
  }

  lemma KeptLess(cur: seq<Node>, k: nat, r: seq<Node>, made: set<Node>, freed: set<Node>)
    requires k < |cur| && IsKept(cur, r, made, freed) && forall i :: 0 <= i < |cur| && i != k ==> cur[i] != cur[k]
    ensures IsKept(cur[..k] + cur[k + 1..], r, made, freed + {cur[k]})
  {
  }

  lemma KeptReplaced(cur: seq<Node>, k: nat, n: Node, r: seq<Node>, made: set<Node>, freed: set<Node>)
    requires k < |cur| && IsKept(cur, r, made, freed) && forall i :: 0 <= i < |cur| && i != k ==> cur[i] != cur[k]
    requires n !in freed && n != cur[k]
    ensures IsKept(cur[k := n], r, made + {n}, freed + {cur[k]})
  {
  }

  lemma FollowedStarts(r: seq<Node>, current: Node?, was: Node?)
    requires r != []
    ensures IsFollowed(r, 1, r, 1, current, was, was) && !AnyRewritten(Entries(r)[..0])
    ensures Entries(r)[..|r| - 1] == Entries(r)
  {
  }

  lemma Keep(r: seq<Node>, m: nat, cur: seq<Node>, k: nat, nv: map<Dword, seq<Byte>>, now: map<Dword, seq<Byte>>)
    requires r != [] && AreSavable(Entries(r))
    requires IsSaving(r, m, cur, k, nv, now) && k < |cur| && cur[k].entry.status == UNCHANGED
    ensures IsSaving(r, m + 1, cur, k + 1, nv, now)
  {
    hide Saved, Stored, HasNew, IsSavable, Rebuilt, IsList, Entries;
    SaveNext(r, m, cur, k, nv, now);
    NextAt(r, m, cur, k);
  }

  ghost predicate IsIn(r: seq<Node>, nodes: set<Node>) {
    forall i :: 0 <= i < |r| ==> r[i] in nodes
  }

  // The current entry of the caller, once the first m nodes have been seen: the node that replaced it, if it was one
  // of them and was written again.
  ghost predicate IsFollowed(r: seq<Node>, m: nat, cur: seq<Node>, k: nat, current: Node?, was: Node?, now: Node?)
    requires 0 < m <= |r| && 0 < k <= |cur|
  {
    if current != null && current in r[1..m] && IsRewritten(current.entry)
    then now != null && now in cur[1..k] && now.entry == Rebuilt(current.entry)
    else now == was
  }

  function Behind(r: seq<Node>): seq<Node> {
    if r == [] then [] else r[1..]
  }

  lemma FollowedAll(r: seq<Node>, cur: seq<Node>, current: Node?, was: Node?, now: Node?)
    requires r != [] && cur != [] && IsFollowed(r, |r|, cur, |cur|, current, was, now)
    ensures if current != null && current in Behind(r) && IsRewritten(current.entry)
            then now != null && now in Behind(cur) && now.entry == Rebuilt(current.entry)
            else now == was
  {
  }

  lemma FollowedNext(r: seq<Node>, m: nat, cur: seq<Node>, k: nat, next: seq<Node>, l: nat,
                     current: Node?, was: Node?, now: Node?, after: Node?)
    requires 0 < m < |r| && 0 < k <= |cur| && k <= l <= |next| && next[..k] == cur[..k]
    requires IsFollowed(r, m, cur, k, current, was, now)
    requires if r[m] == current && IsRewritten(r[m].entry)
             then after != null && l == k + 1 && next[k] == after && after.entry == Rebuilt(r[m].entry)
             else after == now
    ensures IsFollowed(r, m + 1, next, l, current, was, after)
  {
    hide IsRewritten, Rebuilt;
    assert r[1..m + 1] == r[1..m] + [r[m]];
    assert next[1..l] == cur[1..k] + next[k..l];
    assert l == k + 1 ==> next[k..l] == [next[k]];
  }

  lemma RebuiltIsQuiet(e: Entry)
    ensures Rebuilt(e).status == UNCHANGED && Rebuilt(e).id == e.id
  {
  }

  lemma AllIn(r: seq<Node>, nodes: set<Node>)
    requires IsIn(r, nodes)
    ensures forall i :: 0 <= i < |r| ==> r[i] in nodes
  {
  }

  lemma StillIn(r: seq<Node>, saved: seq<Node>, nodes: set<Node>, all: set<Node>)
    requires IsIn(r, nodes) && all == nodes + set n | n in saved
    ensures IsIn(r, all) && IsIn(saved, all)
  {
  }

  lemma EntriesToFront(r: seq<Node>, k: nat, nodes: set<Node>)
    requires 0 < k < |r| && IsIn(r, nodes)
    ensures var q := [r[0], r[k]] + r[1..k] + r[k + 1..];
            Entries(q) == ToFront(Entries(r), k - 1) && IsIn(q, nodes)
  {
    hide Entries;
    var q := [r[0], r[k]] + r[1..k] + r[k + 1..];
    forall i | 0 <= i < |q|
      ensures q[i] in nodes && (i > 0 ==> q[i].entry == ToFront(Entries(r), k - 1)[i - 1])
    {
      if 1 < i <= k {
        assert q[i] == r[i - 1];
      }
    }
  }

  lemma MatchNext(es: seq<Entry>, k: nat, keyword: seq<Word>, lower: Word -> Word)
    requires k <= |es|
    ensures FirstMatch(es[k..], keyword, lower)
            == if k == |es| || Matches(es[k], keyword, lower) then 0 else 1 + FirstMatch(es[k + 1..], keyword, lower)
  {
    hide Matches;
    assert k < |es| ==> es[k..][1..] == es[k + 1..];
  }

  class EfiBootLists {
    const base: Dword // FIELD_OFFSET(MY_BOOT_ENTRY, NtBootEntry)
    const bootEntries: Node
    const deletedBootEntries: Node
    const activeUnordered: Node
    const inactiveUnordered: Node
    var bootEntryOrder: seq<Dword>
    var timeout: Dword
    var nvEntries: map<Dword, seq<Byte>> // what the firmware keeps
    var nvOrder: seq<Dword>
    var nvTimeout: Dword
    ghost var boot: seq<Node> // the nodes of the lists, the heads first
    ghost var deleted: seq<Node>
    ghost var active: seq<Node>
    ghost var inactive: seq<Node>
    ghost var nodes: set<Node> // all that ever were in one
    ghost var strayed: bool // the link of an entry was read after the entry had been freed

    constructor (base: Dword, nvEntries: map<Dword, seq<Byte>>, nvOrder: seq<Dword>, nvTimeout: Dword)
      ensures this.base == base && this.nvEntries == nvEntries && this.nvOrder == nvOrder && this.nvTimeout == nvTimeout
      ensures !strayed && HasOwnHeads() && fresh(Heads()) && forall h :: h in Heads() ==> h.list == h
    {
      this.base, this.nvEntries, this.nvOrder, this.nvTimeout := base, nvEntries, nvOrder, nvTimeout;
      bootEntryOrder, timeout := [], 0;
      bootEntries := new Node.Head();
      deletedBootEntries := new Node.Head();
      activeUnordered := new Node.Head();
      inactiveUnordered := new Node.Head();
      boot, deleted, active, inactive, nodes, strayed := [], [], [], [], {}, false;
    }

    ghost function Heads(): set<Node> {
      {bootEntries, deletedBootEntries, activeUnordered, inactiveUnordered}
    }

    ghost predicate HasOwnHeads() {
      && bootEntries != deletedBootEntries && activeUnordered != bootEntries && inactiveUnordered != bootEntries
      && activeUnordered != deletedBootEntries && inactiveUnordered != deletedBootEntries
      && activeUnordered != inactiveUnordered
    }

    ghost predicate Valid()
      reads this, nodes
    {
      && HasOwnHeads() && Heads() <= nodes
      && IsIn(boot, nodes) && IsIn(deleted, nodes) && IsIn(active, nodes) && IsIn(inactive, nodes)
      && IsList(bootEntries, boot) && IsList(deletedBootEntries, deleted)
      && IsList(activeUnordered, active) && IsList(inactiveUnordered, inactive)
    }

    // ---- Building the lists ----

    // The new entry goes to one of the lists without an order.
    method AddUnordered(e: Entry)
      requires Valid()
      modifies this`active, this`inactive, this`nodes, nodes
      ensures Valid() && old(nodes) <= nodes && fresh(nodes - old(nodes))
      ensures Entries(active) == old(Entries(active)) + if IsActive(e) then [e] else []
      ensures Entries(inactive) == old(Entries(inactive)) + if IsActive(e) then [] else [e]
    {
      hide IsActive, IsList, Entries;
      AreApart();
      if IsActive(e) {
        var n := Append(activeUnordered, e, active);
        EntriesGrow(active, n);
        active, nodes := active + [n], nodes + {n};
      } else {
        var n := Append(inactiveUnordered, e, inactive);
        EntriesGrow(inactive, n);
        inactive, nodes := inactive + [n], nodes + {n};
      }
    }

    method ConvertBootEntries(buffer: seq<Byte>)
      requires Valid() && IsChain(buffer, 0)
      modifies this`active, this`inactive, this`nodes, nodes
      ensures Valid() && old(nodes) <= nodes && fresh(nodes - old(nodes))
      ensures Entries(active) == old(Entries(active)) + Flagged(Enumerated(buffer, 0), true)
      ensures Entries(inactive) == old(Entries(inactive)) + Flagged(Enumerated(buffer, 0), false)
    {
      hide *;
      var p: nat := 0;
      while true
        invariant IsChain(buffer, p) && Valid() && old(nodes) <= nodes && fresh(nodes - old(nodes))
        invariant Entries(active) + Flagged(Enumerated(buffer, p), true)
                  == old(Entries(active)) + Flagged(Enumerated(buffer, 0), true)
        invariant Entries(inactive) + Flagged(Enumerated(buffer, p), false)
                  == old(Entries(inactive)) + Flagged(Enumerated(buffer, 0), false)
        decreases |buffer| - p
      {
        EnumeratedNext(buffer, p, Entries(active), Entries(inactive));
        var length := GetDword(buffer, p + 8);
        AddUnordered(Parsed(ReadAt(buffer, p + 4, length)));
        var next := GetDword(buffer, p);
        if next == 0 {
          break;
        }
        p := p + next;
      }
    }

    method TakeActive(id: Dword)
      requires Valid()
      modifies this`boot, this`active, nodes
      ensures Valid()
      ensures Entries(boot) == old(Entries(boot)) + WithId(old(Entries(active)), id)
      ensures Entries(active) == Left(old(Entries(active)), [id])
    {
      hide WithId, Left, IsList, Entries;
      AreApart();
      active, boot := MoveMatching(activeUnordered, bootEntries, id, active, boot);
    }

    method TakeInactive(id: Dword)
      requires Valid()
      modifies this`boot, this`inactive, nodes
      ensures Valid()
      ensures Entries(boot) == old(Entries(boot)) + WithId(old(Entries(inactive)), id)
      ensures Entries(inactive) == Left(old(Entries(inactive)), [id])
    {
      hide WithId, Left, IsList, Entries;
      AreApart();
      inactive, boot := MoveMatching(inactiveUnordered, bootEntries, id, inactive, boot);
    }

    ghost predicate IsBuilt(es: seq<Entry>, order: seq<Dword>, k: nat)
      requires k <= |order|
      reads this
    {
      AreBuilt(es, order, k, Entries(boot), Entries(active), Entries(inactive))
    }

    method BuildOrder(ghost es: seq<Entry>)
      requires Valid() && Entries(boot) == []
      requires Entries(active) == Flagged(es, true) && Entries(inactive) == Flagged(es, false)
      modifies this`boot, this`active, this`inactive, nodes
      ensures Valid() && IsBuilt(es, bootEntryOrder, |bootEntryOrder|)
    {
      hide AreBuilt, WithId, Left, Placed, Flagged, Entries, EfiBootLists.Valid;
      BuiltStarts(es, bootEntryOrder);
      var i := 0;
      while i < |bootEntryOrder|
        invariant i <= |bootEntryOrder| && Valid() && IsBuilt(es, bootEntryOrder, i)
      {
        BuiltNext(es, bootEntryOrder, i, Entries(boot), Entries(active), Entries(inactive));
        TakeActive(bootEntryOrder[i]);
        TakeInactive(bootEntryOrder[i]);
        i := i + 1;
      }
    }

    method InitializeHeads()
      requires HasOwnHeads() && forall h :: h in Heads() ==> h.list == h
      modifies this`boot, this`deleted, this`active, this`inactive, this`nodes, Heads()
      ensures Valid() && nodes == Heads()
      ensures Entries(boot) == Entries(deleted) == Entries(active) == Entries(inactive) == []
    {
      hide IsList, Entries;
      InitializeListHead(bootEntries);
      InitializeListHead(deletedBootEntries);
      InitializeListHead(activeUnordered);
      InitializeListHead(inactiveUnordered);
      boot, deleted, active, inactive := [bootEntries], [deletedBootEntries], [activeUnordered], [inactiveUnordered];
      nodes := Heads();
      EmptyList(bootEntries);
      EmptyList(deletedBootEntries);
      EmptyList(activeUnordered);
      EmptyList(inactiveUnordered);
    }

    method InitializeEfi(buffer: seq<Byte>)
      requires HasOwnHeads() && forall h :: h in Heads() ==> h.list == h
      requires buffer != [] ==> IsChain(buffer, 0)
      modifies this, Heads()
      ensures Valid() && fresh(nodes - Heads())
      ensures var es := if buffer == [] then [] else Enumerated(buffer, 0);
              IsBuilt(es, nvOrder, |nvOrder|)
      ensures bootEntryOrder == nvOrder == old(nvOrder) && timeout == nvTimeout == old(nvTimeout)
      ensures nvEntries == old(nvEntries) && Entries(deleted) == [] && strayed == old(strayed)
    {
      hide Enumerated, AreBuilt, Entries, EfiBootLists.Valid;
      bootEntryOrder := nvOrder;
      timeout := nvTimeout;
      InitializeHeads();
      ghost var es := if buffer == [] then [] else Enumerated(buffer, 0);
      if |buffer| != 0 {
        ConvertBootEntries(buffer);
      }
      BuildOrder(es);
    }

    // ---- Saving ----

    predicate IsReady(es: seq<Entry>) {
      base % 4 == 0 && AreSavable(es) && forall e :: e in es ==> IsAllocatable(e, base)
    }

    method DeleteOne(e: Node, ghost r: seq<Node>, ghost m: nat, ghost cur: seq<Node>, ghost k: nat,
                     ghost nv: map<Dword, seq<Byte>>)
      requires r != [] && IsReady(Entries(r)) && IsSaving(r, m, cur, k, nv, nvEntries)
      requires k < |cur| && cur[k] == e && e.entry.status.deleted
      modifies this`nvEntries, cur
      ensures IsSaving(r, m + 1, cur[..k] + cur[k + 1..], k, nv, nvEntries)
    {
      hide Saved, Stored, HasNew, IsSavable, Rebuilt, Entries, IsRing;
      SaveNext(r, m, cur, k, nv, nvEntries);
      NextAt(r, m, cur, k);
      ListHasHead(r[0], cur);
      WithoutOne(cur, k);
      if !e.entry.status.isNew {
        nvEntries := nvEntries - {e.entry.id};
      }
      RemoveEntryList(e, cur, k);
    }

    // The new entry takes the place of the old one; it is written to the firmware as well.
    method RewriteOne(e: Node, ghost r: seq<Node>, ghost m: nat, ghost cur: seq<Node>, ghost k: nat,
                      ghost nv: map<Dword, seq<Byte>>) returns (n: Node)
      requires r != [] && IsReady(Entries(r)) && IsSaving(r, m, cur, k, nv, nvEntries)
      requires k < |cur| && cur[k] == e
      requires IsRewritten(e.entry) && !e.entry.status.isNew
      modifies this`nvEntries, cur
      ensures fresh(n) && n.entry == Rebuilt(e.entry) && n.entry.status == UNCHANGED && e.flink == n
      ensures IsSaving(r, m + 1, cur[k := n], k + 1, nv, nvEntries)
    {
      hide Saved, Stored, HasNew, IsWritable, Rebuilt, Entries, IsRing, NtBytes, Length;
      SaveNext(r, m, cur, k, nv, nvEntries);
      var newEntry := Modify(e.entry);
      n := new Node(newEntry);
      ReplacedAt(r, m, cur, k, n);
      ListHasHead(r[0], cur);
      EntriesGrow(cur[..k], n);
      n.list := r[0];
      RebuiltIsQuiet(e.entry);
      Replace(e, n, r[0], cur, k);
    }

    // One list. An entry is freed when it has been deleted or replaced; if it was replaced, its link is read after
    // that. The link leads to the new entry, which is seen again.
    method SaveList(head: Node, current: Node?, was: Node?, ghost r: seq<Node>)
      returns (ok: bool, newCurrent: Node?, ghost saved: seq<Node>)
      requires IsList(head, r) && IsReady(Entries(r))
      modifies this`nvEntries, this`strayed, r
      ensures ok == !HasNew(Entries(r))
      ensures ok ==> IsList(head, saved) && Entries(saved) == Saved(Entries(r))
                     && nvEntries == Stored(old(nvEntries), Entries(r))
      ensures ok ==> forall i :: 0 <= i < |saved| ==> saved[i] in r || fresh(saved[i])
      ensures ok ==> saved != [] && IsFollowed(r, |r|, saved, |saved|, current, was, newCurrent)
      ensures ok ==> (strayed <==> old(strayed) || AnyRewritten(Entries(r)))
    {
      hide Saved, Stored, HasNew, AreSavable, IsAllocatable, Entries, IsList, IsSaving, IsFollowed, AnyRewritten;
      hide Succ, IsKept;
      ListHasHead(head, r);
      SavingStarts(r, nvEntries);
      KeptStarts(r);
      saved, newCurrent := r, was;
      ghost var k: nat, m: nat, again, made: set<Node>, freed: set<Node> := 1, 1, false, {}, {};
      FollowedStarts(r, current, was);
      LinksThere(head, r, 1);
      var listEntry := head.flink;
      while listEntry != head
        invariant IsSaving(r, m, saved, k, old(nvEntries), nvEntries) && 0 < k <= |saved| && 0 < m <= |r|
        invariant IsKept(saved, r, made, freed) && fresh(made)
        invariant listEntry == (if again then saved[k - 1] else Succ(saved, k - 1))
        invariant again ==> k > 1 && listEntry.entry.status == UNCHANGED
        invariant strayed <==> old(strayed) || AnyRewritten(Entries(r)[..m - 1])
        invariant IsFollowed(r, m, saved, k, current, was, newCurrent)
        decreases |r| - m, again
      {
        var bootEntry := listEntry;
        SavingIs(r, m, saved, k, old(nvEntries), nvEntries);
        KeptIs(saved, r, made, freed);
        LinksThere(head, saved, k);
        if bootEntry.entry.status.deleted {
          SeeNext(r, m, saved, k, old(nvEntries), nvEntries);
          listEntry := listEntry.blink;
          DeleteOne(bootEntry, r, m, saved, k, old(nvEntries));
          ghost var less := saved[..k] + saved[k + 1..];
          KeptLess(saved, k, r, made, freed);
          freed := freed + {bootEntry};
          FollowedNext(r, m, saved, k, less, k, current, was, newCurrent, newCurrent);
          saved, m := less, m + 1;
          SavingIs(r, m, saved, k, old(nvEntries), nvEntries);
          LinksThere(head, saved, k);
        } else if bootEntry.entry.status.isNew {
          SaveNext(r, m, saved, k, old(nvEntries), nvEntries);
          return false, newCurrent, saved;
        } else if bootEntry.entry.status.modified {
          SeeNext(r, m, saved, k, old(nvEntries), nvEntries);
          var newEntry := RewriteOne(bootEntry, r, m, saved, k, old(nvEntries));
          KeptReplaced(saved, k, newEntry, r, made, freed);
          made, freed := made + {newEntry}, freed + {bootEntry};
          ghost var now := newCurrent;
          if bootEntry == current {
            newCurrent := newEntry;
          }
          FollowedNext(r, m, saved, k, saved[k := newEntry], k + 1, current, was, now, newCurrent);
          saved, k, m, again := saved[k := newEntry], k + 1, m + 1, true;
        } else {
          if again {
            again := false;
          } else {
            SeeNext(r, m, saved, k, old(nvEntries), nvEntries);
            Keep(r, m, saved, k, old(nvEntries), nvEntries);
            FollowedNext(r, m, saved, k, saved, k + 1, current, was, newCurrent, newCurrent);
            k, m := k + 1, m + 1;
          }
        }
        KeptIs(saved, r, made, freed);
        strayed := strayed || listEntry in freed;
        listEntry := listEntry.flink;
      }
      SavingIs(r, m, saved, k, old(nvEntries), nvEntries);
      LinksThere(head, saved, k);
      ListHasHead(head, saved);
      KeptIs(saved, r, made, freed);
      SavingEnds(r, m, saved, k, old(nvEntries), nvEntries);
      ok := true;
    }

    // Build the NT structure and hand it to NtModifyBootEntry.
    method Modify(e: Entry) returns (newEntry: Entry)
      requires base % 4 == 0 && IsWritable(e) && base + Length(e) < 0x1_0000_0000
      modifies this`nvEntries
      ensures newEntry == Rebuilt(e) && nvEntries == old(nvEntries)[e.id := NtBytes(e)]
    {
      hide NtBytes, Length, GetDword;
      var block, inMemory := CreateBootEntryFromBootEntry(e, base);
      newEntry := Seen(block[..], inMemory);
      var nt := block[base..];
      assert nt == NtBytes(e);
      IdIsThere(e);
      nvEntries := nvEntries[GetDword(nt, 8) := nt];
    }

    ghost function RingOf(head: Node): seq<Node>
      reads this
    {
      if head == deletedBootEntries then deleted
      else if head == inactiveUnordered then inactive
      else if head == activeUnordered then active
      else boot
    }

    method SaveOne(head: Node, current: Node?, was: Node?) returns (ok: bool, newCurrent: Node?)
      requires Valid() && head in Heads() && IsReady(Entries(RingOf(head)))
      modifies this`nvEntries, this`strayed, this`boot, this`deleted, this`active, this`inactive, this`nodes, nodes
      ensures ok == !HasNew(old(Entries(RingOf(head))))
      ensures ok ==> Valid() && Entries(RingOf(head)) == Saved(old(Entries(RingOf(head))))
                     && nvEntries == Stored(old(nvEntries), old(Entries(RingOf(head))))
      ensures ok ==> (strayed <==> old(strayed) || AnyRewritten(old(Entries(RingOf(head)))))
      ensures ok ==> old(RingOf(head)) != [] && RingOf(head) != []
                     && IsFollowed(old(RingOf(head)), old(|RingOf(head)|), RingOf(head), |RingOf(head)|,
                                   current, was, newCurrent)
      ensures forall h :: h in Heads() && h != head ==> RingOf(h) == old(RingOf(h))
      ensures ok ==> old(nodes) <= nodes && fresh(nodes - old(nodes))
    {
      hide Saved, Stored, HasNew, EfiBootLists.IsReady, AreSavable, Entries, IsList, AnyRewritten, IsFollowed, IsIn;
      AreApart();
      AllIn(RingOf(head), nodes);
      ghost var saved;
      ok, newCurrent, saved := SaveList(head, current, was, RingOf(head));
      ghost var all := nodes + set n | n in saved;
      StillIn(boot, saved, nodes, all);
      StillIn(deleted, saved, nodes, all);
      StillIn(active, saved, nodes, all);
      StillIn(inactive, saved, nodes, all);
      nodes := all;
      if head == deletedBootEntries {
        deleted := saved;
      } else if head == inactiveUnordered {
        inactive := saved;
      } else if head == activeUnordered {
        active := saved;
      } else {
        boot := saved;
      }
    }

    // The entry is in one of the lists.
    ghost predicate Holds(n: Node?)
      reads this
    {
      && n != null
      && (n in Behind(deleted) || n in Behind(inactive) || n in Behind(active) || n in Behind(boot))
    }

    ghost predicate AllReady()
      reads this
    {
      && IsReady(Entries(deleted)) && IsReady(Entries(inactive)) && IsReady(Entries(active)) && IsReady(Entries(boot))
    }

    // The caller's current entry is followed to the node that replaces it.
    method SaveChanges(current: Node?) returns (ok: bool, newCurrent: Node?)
      requires Valid() && AllReady()
      modifies this, nodes
      ensures ok == !(HasNew(old(Entries(deleted))) || HasNew(old(Entries(inactive)))
                      || HasNew(old(Entries(active))) || HasNew(old(Entries(boot))))
      ensures ok ==>
                && Valid()
                && Entries(deleted) == Saved(old(Entries(deleted)))
                && Entries(inactive) == Saved(old(Entries(inactive)))
                && Entries(active) == Saved(old(Entries(active))) && Entries(boot) == Saved(old(Entries(boot)))
                && nvEntries == Stored(Stored(Stored(Stored(old(nvEntries), old(Entries(deleted))),
                                                     old(Entries(inactive))), old(Entries(active))), old(Entries(boot)))
                && nvOrder == bootEntryOrder == Ids(Entries(boot))
                && nvTimeout == timeout == old(timeout)
      ensures ok ==> (strayed <==> old(strayed) || AnyRewritten(old(Entries(deleted)))
                                   || AnyRewritten(old(Entries(inactive)))
                                   || AnyRewritten(old(Entries(active))) || AnyRewritten(old(Entries(boot))))
      ensures ok ==> if old(Holds(current)) && IsRewritten(current.entry)
                     then Holds(newCurrent) && newCurrent.entry == Rebuilt(current.entry)
                     else newCurrent == current
    {
      hide Saved, Stored, HasNew, IsReady, AreSavable, Entries, Ids, AnyRewritten, IsRewritten, Rebuilt;
      hide EfiBootLists.Valid, IsFollowed, Behind;
      AreApart();
      newCurrent := current;
      var found;
      ok, found := SaveOne(deletedBootEntries, current, newCurrent);
      if !ok { return; }
      FollowedAll(old(deleted), deleted, current, newCurrent, found);
      newCurrent := found;
      ok, found := SaveOne(inactiveUnordered, current, newCurrent);
      if !ok { return; }
      FollowedAll(old(inactive), inactive, current, newCurrent, found);
      newCurrent := found;
      ok, found := SaveOne(activeUnordered, current, newCurrent);
      if !ok { return; }
      FollowedAll(old(active), active, current, newCurrent, found);
      newCurrent := found;
      ok, found := SaveOne(bootEntries, current, newCurrent);
      if !ok { return; }
      FollowedAll(old(boot), boot, current, newCurrent, found);
      newCurrent := found;
      WriteOrder();
    }

    method WriteOrder()
      requires Valid()
      modifies this`bootEntryOrder, this`nvOrder, this`nvTimeout
      ensures Valid() && nvOrder == bootEntryOrder == Ids(Entries(boot)) && nvTimeout == timeout
    {
      hide IsList, Ids, Entries;
      bootEntryOrder := ListIds(bootEntries, boot);
      nvOrder := bootEntryOrder;
      nvTimeout := timeout;
    }

    ghost predicate IsQuiet()
      reads this
    {
      && AreQuiet(Entries(deleted)) && AreQuiet(Entries(inactive)) && AreQuiet(Entries(active))
      && AreQuiet(Entries(boot))
    }

    // The first entry whose name has the keyword goes to the front, and the new order is written. With an empty
    // list, there is nothing to be done.
    method MoveSafeIA64(keyword: seq<Word>, lower: Word -> Word) returns (done: bool)
      requires base % 4 == 0 && Valid() && IsQuiet()
      modifies this, nodes
      ensures var es, k := old(Entries(boot)), FirstMatch(old(Entries(boot)), keyword, lower);
              && done == (es == [] || k < |es|)
              && Entries(boot) == (if k < |es| then ToFront(es, k) else es)
              && nvOrder == (if k < |es| then Ids(ToFront(es, k)) else old(nvOrder))
              && nvTimeout == (if k < |es| then timeout else old(nvTimeout))
      ensures nvEntries == old(nvEntries) && timeout == old(timeout) && strayed == old(strayed)
      ensures Valid() && Entries(active) == old(Entries(active)) && Entries(inactive) == old(Entries(inactive))
    {
      hide Matches, Ids, FirstMatch, ToFront, Entries, EfiBootLists.IsQuiet;
      AreApart();
      LinksThere(bootEntries, boot, 1);
      if bootEntries.flink == bootEntries {
        return true;
      }
      var listEntry, k := FindFirst(keyword, lower);
      if listEntry == null {
        return false;
      }
      SetFirst(listEntry, k);
      done := true;
    }

    method FindFirst(keyword: seq<Word>, lower: Word -> Word) returns (found: Node?, ghost k: nat)
      requires Valid()
      ensures k == 1 + FirstMatch(Entries(boot), keyword, lower)
      ensures k == |boot| <==> found == null
      ensures found != null ==> found == boot[k]
    {
      hide Matches, FirstMatch, IsList;
      ghost var es := Entries(boot);
      k := 1;
      ListHasHead(bootEntries, boot);
      LinksThere(bootEntries, boot, k);
      var listEntry := bootEntries.flink;
      while listEntry != bootEntries
        invariant 0 < k <= |boot| && listEntry == Succ(boot, k - 1)
        invariant FirstMatch(es, keyword, lower) == k - 1 + FirstMatch(es[k - 1..], keyword, lower)
        decreases |boot| - k
      {
        LinksThere(bootEntries, boot, k);
        MatchNext(es, k - 1, keyword, lower);
        if Matches(listEntry.entry, keyword, lower) {
          return listEntry, k;
        }
        k := k + 1;
        listEntry := listEntry.flink;
      }
      LinksThere(bootEntries, boot, k);
      MatchNext(es, k - 1, keyword, lower);
      return null, k;
    }

    method MoveBootToHead(e: Node, ghost k: nat)
      requires Valid() && 0 < k < |boot| && boot[k] == e
      modifies this`boot, nodes
      ensures Valid() && Entries(boot) == ToFront(old(Entries(boot)), k - 1)
    {
      hide IsList, Entries, IsIn;
      AreApart();
      ListHasHead(bootEntries, boot);
      EntriesToFront(boot, k, nodes);
      AllIn(boot, nodes);
      MoveToHead(e, bootEntries, boot, k);
      boot := [boot[0], e] + boot[1..k] + boot[k + 1..];
    }

    method SetFirst(e: Node, ghost k: nat)
      requires base % 4 == 0 && Valid() && IsQuiet() && 0 < k < |boot| && boot[k] == e
      modifies this, nodes
      ensures Entries(boot) == ToFront(old(Entries(boot)), k - 1) && nvOrder == Ids(ToFront(old(Entries(boot)), k - 1))
      ensures nvEntries == old(nvEntries) && nvTimeout == timeout == old(timeout) && strayed == old(strayed)
      ensures Valid() && Entries(active) == old(Entries(active)) && Entries(inactive) == old(Entries(inactive))
    {
      hide Saved, Stored, HasNew, AreSavable, Ids, IsList, Entries;
      QuietSave(nvEntries, Entries(deleted));
      QuietSave(nvEntries, Entries(inactive));
      QuietSave(nvEntries, Entries(active));
      QuietSave(nvEntries, Entries(boot));
      FrontIsQuiet(Entries(boot), k - 1);
      MoveBootToHead(e, k);
      QuietSave(nvEntries, Entries(boot));
      var ok, newCurrent := SaveChanges(null);
    }

    lemma AreApart()
      requires Valid()
      ensures HasOwnHeads() && boot != [] && deleted != [] && active != [] && inactive != []
      ensures forall i, j :: 0 <= i < |boot| && 0 <= j < |active| ==> boot[i] != active[j]
      ensures forall i, j :: 0 <= i < |boot| && 0 <= j < |inactive| ==> boot[i] != inactive[j]
      ensures forall i, j :: 0 <= i < |boot| && 0 <= j < |deleted| ==> boot[i] != deleted[j]
      ensures forall i, j :: 0 <= i < |active| && 0 <= j < |deleted| ==> active[i] != deleted[j]
      ensures forall i, j :: 0 <= i < |inactive| && 0 <= j < |deleted| ==> inactive[i] != deleted[j]
      ensures forall i, j :: 0 <= i < |active| && 0 <= j < |inactive| ==> active[i] != inactive[j]
    {
      hide IsList;
      ListHasHead(bootEntries, boot);
      ListHasHead(deletedBootEntries, deleted);
      ListHasHead(activeUnordered, active);
      ListHasHead(inactiveUnordered, inactive);
      ListsApart(bootEntries, boot, activeUnordered, active);
      ListsApart(bootEntries, boot, inactiveUnordered, inactive);
      ListsApart(bootEntries, boot, deletedBootEntries, deleted);
      ListsApart(activeUnordered, active, deletedBootEntries, deleted);
      ListsApart(inactiveUnordered, inactive, deletedBootEntries, deleted);
      ListsApart(activeUnordered, active, inactiveUnordered, inactive);
    }
  }

  lemma IdIsThere(e: Entry)
    requires IsWritable(e)
    ensures GetDword(NtBytes(e), 8) == e.id
  {
    hide NtBytes, GetDword, Header, OsBytes;
    PartsAreThere(e);
    HeaderFields(NtBytes(e), e);
  }

  // The whole run on a machine with EFI firmware, up to the point where no entry has the keyword in its name:
  // the firmware boots that entry next, the others follow in the order they had, and no entry is changed.
  method SetNextBoot(buffer: seq<Byte>, lists: EfiBootLists, keyword: seq<Word>, lower: Word -> Word)
    returns (done: bool)
    requires buffer != [] ==> IsChain(buffer, 0)
    requires lists.base % 4 == 0 && lists.HasOwnHeads() && forall h :: h in lists.Heads() ==> h.list == h
    modifies lists, lists.Heads()
    ensures var es := if buffer == [] then [] else Enumerated(buffer, 0);
            var placed := Placed(old(lists.nvOrder), |old(lists.nvOrder)|, Flagged(es, true), Flagged(es, false));
            var k := FirstMatch(placed, keyword, lower);
            && done == (placed == [] || k < |placed|)
            && lists.nvOrder == (if k < |placed| then Ids(ToFront(placed, k)) else old(lists.nvOrder))
    ensures lists.nvEntries == old(lists.nvEntries) && lists.nvTimeout == old(lists.nvTimeout)
    ensures lists.strayed == old(lists.strayed)
  {
    hide Enumerated, Placed, Left, Flagged, FirstMatch, ToFront, Ids, IsChain, Entries, EfiBootLists.Valid;
    ghost var es := if buffer == [] then [] else Enumerated(buffer, 0);
    lists.InitializeEfi(buffer);
    BuiltIsQuiet(buffer, es, lists.nvOrder);
    done := lists.MoveSafeIA64(keyword, lower);
  }

  lemma BuiltIsQuiet(buffer: seq<Byte>, es: seq<Entry>, order: seq<Dword>)
    requires es == if buffer == [] then [] else Enumerated(buffer, 0)
    ensures forall e :: e in Placed(order, |order|, Flagged(es, true), Flagged(es, false)) ==> e.status == UNCHANGED
    ensures forall e :: e in Left(Flagged(es, true), order) || e in Left(Flagged(es, false), order)
                        ==> e.status == UNCHANGED
    ensures order[..|order|] == order
  {
    hide Enumerated, Placed, Left, Flagged;
    EnumeratedIsQuiet(buffer, 0);
    FlaggedHas(es);
    forall e | e in Flagged(es, true) || e in Flagged(es, false)
      ensures e in es
    {
      assert e in multiset(Flagged(es, true)) + multiset(Flagged(es, false));
    }
    forall e | e in Placed(order, |order|, Flagged(es, true), Flagged(es, false))
      ensures e in es
    {
      PlacedHas(order, Flagged(es, true), Flagged(es, false), e);
    }
    LeftHas(Flagged(es, true), order);
    LeftHas(Flagged(es, false), order);
  }
}

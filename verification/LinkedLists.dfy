// The doubly linked circular lists of the NT headers, with the boot entries in them.

module LinkedLists {
  import opened Bytes
  import opened BootEntryFormat
  import opened BootOrder

  // LIST_ENTRY, with the entry it is embedded in; that of a list head means nothing.
  class Node {
    const entry: Entry
    var flink: Node?
    var blink: Node?
    ghost var list: Node? // the head of the list it is in

    constructor (entry: Entry)
      ensures this.entry == entry
    {
      this.entry := entry;
      flink, blink, list := null, null, null;
    }

    // A list head is in its own list.
    constructor Head()
      ensures list == this
    {
      flink, blink, list := null, null, this;
    }
  }

  // What comes behind the i-th of a ring.
  function Succ(r: seq<Node>, i: nat): Node
    requires i < |r|
  {
    if i + 1 == |r| then r[0] else r[i + 1]
  }

  ghost predicate IsLinked(r: seq<Node>, i: nat)
    requires i < |r|
    reads r
  {
    r[i].flink == Succ(r, i) && Succ(r, i).blink == r[i]
  }

  ghost predicate Distinct(r: seq<Node>) {
    forall i, j :: 0 <= i < j < |r| ==> r[i] != r[j]
  }

  ghost predicate IsRing(r: seq<Node>)
    reads r
  {
    r != [] && Distinct(r) && forall i :: 0 <= i < |r| ==> IsLinked(r, i)
  }

  // A list head and, behind it, the nodes in its list. No node is in two lists.
  ghost predicate IsList(head: Node, r: seq<Node>)
    reads r
  {
    IsRing(r) && r[0] == head && forall i :: 0 <= i < |r| ==> r[i].list == head
  }

  // The entries behind the head.
  ghost function Entries(r: seq<Node>): (es: seq<Entry>)
    ensures r != [] ==> |es| == |r| - 1 && forall i :: 0 <= i < |es| ==> es[i] == r[i + 1].entry
  {
    if r == [] then [] else seq(|r| - 1, i requires 0 <= i < |r| - 1 => r[i + 1].entry)
  }

  lemma EntriesGrow(r: seq<Node>, e: Node)
    requires r != []
    ensures Entries(r + [e]) == Entries(r) + [e.entry]
  {
  }

  lemma ListHasHead(head: Node, r: seq<Node>)
    requires IsList(head, r)
    ensures r != [] && r[0] == head && Distinct(r)
  {
  }

  method InitializeListHead(head: Node)
    modifies head`flink, head`blink
    ensures head.flink == head.blink == head
  {
    head.flink := head;
    head.blink := head;
  }

  lemma EmptyList(head: Node)
    requires head.flink == head.blink == head.list == head
    ensures IsList(head, [head]) && Entries([head]) == []
  {
  }

  method InsertTailList(head: Node, e: Node, ghost r: seq<Node>)
    requires IsRing(r) && e !in r && r[0] == head
    modifies e`flink, e`blink, head`blink, {r[|r| - 1]}`flink
    ensures IsRing(r + [e])
  {
    assert IsLinked(r, |r| - 1);
    var blink := head.blink;
    e.flink := head;
    e.blink := blink;
    blink.flink := e;
    head.blink := e;
    forall i | 0 <= i <= |r|
      ensures IsLinked(r + [e], i)
    {
      if i < |r| - 1 {
        assert old(IsLinked(r, i));
      }
    }
  }

  // Behind any node of a list.
  method InsertHeadList(at: Node, e: Node, ghost r: seq<Node>, ghost i: nat)
    requires IsRing(r) && e !in r && i < |r| && r[i] == at
    modifies e`flink, e`blink, at`flink, {Succ(r, i)}`blink
    ensures IsRing(r[..i + 1] + [e] + r[i + 1..]) && at.flink == e
  {
    assert IsLinked(r, i);
    var flink := at.flink;
    e.flink := flink;
    e.blink := at;
    flink.blink := e;
    at.flink := e;
    ghost var more := r[..i + 1] + [e] + r[i + 1..];
    forall j | 0 <= j < |more|
      ensures IsLinked(more, j)
    {
      if j < i {
        assert old(IsLinked(r, j));
      } else if j > i + 1 {
        assert old(IsLinked(r, j - 1));
      }
    }
  }

  method RemoveEntryList(e: Node, ghost r: seq<Node>, ghost i: nat)
    requires IsRing(r) && 0 < i < |r| && r[i] == e
    modifies {r[i - 1]}`flink, {Succ(r, i)}`blink
    ensures IsRing(r[..i] + r[i + 1..]) && e.flink == old(e.flink)
  {
    assert IsLinked(r, i) && IsLinked(r, i - 1);
    var flink, blink := e.flink, e.blink;
    blink.flink := flink;
    flink.blink := blink;
    ghost var less := r[..i] + r[i + 1..];
    forall j | 0 <= j < |less|
      ensures IsLinked(less, j)
    {
      if j < i - 1 {
        assert old(IsLinked(r, j));
      } else if j >= i {
        assert old(IsLinked(r, j + 1));
      }
    }
  }

  // ---- One node ----

  // Nothing but nodes of the one is in the other.
  ghost predicate Within(r: seq<Node>, s: seq<Node>) {
    forall i :: 0 <= i < |r| ==> r[i] in s
  }

  // The head stays, the node is gone, nothing comes in.
  lemma WithoutOne(r: seq<Node>, i: nat)
    requires 0 < i < |r| && Distinct(r)
    ensures var less := r[..i] + r[i + 1..];
            less[0] == r[0] && r[i] !in less && Within(less, r)
  {
  }

  twostate lemma LinksKept(r: seq<Node>)
    requires forall i :: 0 <= i < |r| ==> old(allocated(r[i]))
    requires old(IsRing(r))
    requires forall i :: 0 <= i < |r| ==> r[i].flink == old(r[i].flink) && r[i].blink == old(r[i].blink)
    ensures IsRing(r)
  {
    forall i | 0 <= i < |r|
      ensures IsLinked(r, i)
    {
      assert old(IsLinked(r, i));
      assert r[i] in r && Succ(r, i) in r;
    }
  }

  method MoveToTail(e: Node, ghost from: Node, to: Node, ghost r: seq<Node>, ghost i: nat, ghost s: seq<Node>)
    requires IsList(from, r) && IsList(to, s) && from != to && 0 < i < |r| && r[i] == e
    modifies r, s
    ensures IsList(from, r[..i] + r[i + 1..]) && IsList(to, s + [e])
  {
    hide IsLinked;
    WithoutOne(r, i);
    assert e in r && r[i - 1] in r && Succ(r, i) in r;
    RemoveEntryList(e, r, i);
    InsertTailList(to, e, s);
    label Linked:
    e.list := to;
    LinksKept@Linked(s + [e]);
  }

  // The new node takes the place of the old one, whose own link leads to it from then on.
  method Replace(e: Node, newEntry: Node, ghost head: Node, ghost r: seq<Node>, ghost i: nat)
    requires IsList(head, r) && newEntry !in r && newEntry.list == head && 0 < i < |r| && r[i] == e
    modifies r, newEntry
    ensures IsList(head, r[i := newEntry]) && e.flink == newEntry
  {
    hide IsLinked;
    InsertHeadList(e, newEntry, r, i);
    ghost var more := r[..i + 1] + [newEntry] + r[i + 1..];
    assert more[..i] + more[i + 1..] == r[i := newEntry];
    RemoveEntryList(e, more, i);
  }

  method MoveToHead(e: Node, head: Node, ghost r: seq<Node>, ghost i: nat)
    requires IsList(head, r) && 0 < i < |r| && r[i] == e
    modifies r
    ensures IsList(head, [head, e] + r[1..i] + r[i + 1..])
  {
    hide IsLinked;
    ghost var less := r[..i] + r[i + 1..];
    WithoutOne(r, i);
    RemoveEntryList(e, r, i);
    InsertHeadList(head, e, less, 0);
    assert less[..1] + [e] + less[1..] == [head, e] + r[1..i] + r[i + 1..];
  }

  method Append(head: Node, e: Entry, ghost r: seq<Node>) returns (n: Node)
    requires IsList(head, r)
    modifies r
    ensures fresh(n) && n.entry == e && IsList(head, r + [n])
  {
    hide IsLinked;
    n := new Node(e);
    InsertTailList(head, n, r);
    label Linked:
    n.list := head;
    LinksKept@Linked(r + [n]);
  }

  // Two lists have no node in common.
  lemma ListsApart(a: Node, r: seq<Node>, b: Node, s: seq<Node>)
    requires IsList(a, r) && IsList(b, s) && a != b
    ensures forall i, j :: 0 <= i < |r| && 0 <= j < |s| ==> r[i] != s[j]
  {
    hide IsRing;
  }

  // ---- All nodes with an id ----

  // The walk through r has come to its m-th node, which is now the k-th of cur.
  ghost predicate IsAt(r: seq<Node>, m: nat, cur: seq<Node>, k: nat) {
    0 < m <= |r| && 0 < k <= |cur| && cur[k..] == r[m..]
  }

  lemma NextAt(r: seq<Node>, m: nat, cur: seq<Node>, k: nat)
    requires IsAt(r, m, cur, k) && k < |cur|
    ensures m < |r| && cur[k] == r[m] && IsAt(r, m + 1, cur, k + 1)
    ensures IsAt(r, m + 1, cur[..k] + cur[k + 1..], k) && (cur[..k] + cur[k + 1..])[..k] == cur[..k]
    ensures Entries(r[..m + 1]) == Entries(r[..m]) + [cur[k].entry]
    ensures Entries(cur[..k + 1]) == Entries(cur[..k]) + [cur[k].entry]
  {
    hide Entries;
    assert cur[k..][0] == cur[k] && r[m..][0] == r[m];
    assert cur[k..][1..] == r[m..][1..];
    EntriesGrow(r[..m], r[m]);
    EntriesGrow(cur[..k], cur[k]);
    assert r[..m + 1] == r[..m] + [r[m]] && cur[..k + 1] == cur[..k] + [cur[k]];
  }

  lemma ReplacedAt(r: seq<Node>, m: nat, cur: seq<Node>, k: nat, e: Node)
    requires IsAt(r, m, cur, k) && k < |cur|
    ensures IsAt(r, m + 1, cur[k := e], k + 1) && cur[k := e][..k + 1] == cur[..k] + [e]
  {
    NextAt(r, m, cur, k);
    assert cur[k := e][k + 1..] == cur[k + 1..];
  }

  // The first m nodes of r have been seen; the first k that are left in it are those that stayed.
  ghost predicate IsMidway(r: seq<Node>, s: seq<Node>, id: Dword, left: seq<Node>, grown: seq<Node>, k: nat, m: nat)
    requires r != [] && s != []
    reads left, grown
  {
    && r[0] != s[0] && IsList(r[0], left) && IsList(s[0], grown)
    && Within(left, r + s) && Within(grown, r + s)
    && IsAt(r, m, left, k)
    && Entries(left[..k]) == Left(Entries(r[..m]), [id])
    && Entries(grown) == Entries(s) + WithId(Entries(r[..m]), id)
  }

  lemma MidwayStarts(r: seq<Node>, s: seq<Node>, id: Dword)
    requires r != [] && s != [] && IsList(r[0], r) && IsList(s[0], s) && r[0] != s[0]
    ensures IsMidway(r, s, id, r, s, 1, 1) && r[0].flink == Succ(r, 0)
  {
    hide WithId, Left;
    NothingIn([id], id);
    assert IsLinked(r, 0);
  }

  lemma MidwayEnds(r: seq<Node>, s: seq<Node>, id: Dword, left: seq<Node>, grown: seq<Node>, k: nat, m: nat)
    requires r != [] && s != [] && IsMidway(r, s, id, left, grown, k, m) && k == |left|
    ensures Entries(left) == Left(Entries(r), [id])
    ensures Entries(grown) == Entries(s) + WithId(Entries(r), id)
  {
    hide WithId, Left, Entries;
    assert r[..m] == r && left[..k] == left;
  }

  // What the links at the k-th node tell.
  lemma LinksThere(head: Node, r: seq<Node>, k: nat)
    requires IsList(head, r) && 0 < k <= |r|
    ensures r[k - 1].flink == Succ(r, k - 1) && (Succ(r, k - 1) == head <==> k == |r|)
    ensures k < |r| ==> r[k].blink == r[k - 1] && r[k].flink == Succ(r, k) && Succ(r, k - 1) == r[k]
  {
    assert IsLinked(r, k - 1);
    assert k < |r| ==> IsLinked(r, k);
  }

  lemma Stays(r: seq<Node>, s: seq<Node>, id: Dword, left: seq<Node>, grown: seq<Node>, k: nat, m: nat)
    requires r != [] && s != [] && IsMidway(r, s, id, left, grown, k, m) && k < |left| && left[k].entry.id != id
    ensures IsMidway(r, s, id, left, grown, k + 1, m + 1)
  {
    hide WithId, Left, IsList;
    NextAt(r, m, left, k);
    OneMore(Entries(r[..m]), left[k].entry, id, [id]);
  }

  method Moves(e: Node, to: Node, id: Dword, ghost r: seq<Node>, ghost s: seq<Node>,
               ghost left: seq<Node>, ghost grown: seq<Node>, ghost k: nat, ghost m: nat)
    requires r != [] && s != [] && s[0] == to && IsMidway(r, s, id, left, grown, k, m)
    requires k < |left| && left[k] == e && e.entry.id == id
    modifies left, grown
    ensures IsMidway(r, s, id, left[..k] + left[k + 1..], grown + [e], k, m + 1)
  {
    hide WithId, Left, IsList, IsLinked, IsAt, Entries;
    NextAt(r, m, left, k);
    OneMore(Entries(r[..m]), e.entry, id, [id]);
    ListHasHead(r[0], left);
    WithoutOne(left, k);
    ListHasHead(to, grown);
    EntriesGrow(grown, e);
    MoveToTail(e, r[0], to, left, k, grown);
  }

  // The entries of an id move from a list to the end of another. An entry's own link is overwritten by the move, so
  // the walk goes back to the one before it first.
  method MoveMatching(from: Node, to: Node, id: Dword, ghost r: seq<Node>, ghost s: seq<Node>)
    returns (ghost left: seq<Node>, ghost grown: seq<Node>)
    requires IsList(from, r) && IsList(to, s) && from != to
    modifies r, s
    ensures IsList(from, left) && IsList(to, grown) && Within(left, r + s) && Within(grown, r + s)
    ensures Entries(left) == Left(Entries(r), [id])
    ensures Entries(grown) == Entries(s) + WithId(Entries(r), id)
  {
    hide WithId, Left, IsList, Entries;
    left, grown := r, s;
    ghost var k: nat, m: nat := 1, 1;
    ListHasHead(from, r);
    ListHasHead(to, s);
    MidwayStarts(r, s, id);
    var listEntry := from.flink;
    while listEntry != from
      invariant IsMidway(r, s, id, left, grown, k, m) && 0 < k <= |left| && listEntry == Succ(left, k - 1)
      decreases |r| - m
    {
      var bootEntry := listEntry;
      LinksThere(from, left, k);
      if bootEntry.entry.id == id {
        listEntry := listEntry.blink;
        Moves(bootEntry, to, id, r, s, left, grown, k, m);
        left, grown := left[..k] + left[k + 1..], grown + [bootEntry];
        LinksThere(from, left, k);
      } else {
        Stays(r, s, id, left, grown, k, m);
        k := k + 1;
      }
      m := m + 1;
      listEntry := listEntry.flink;
    }
    LinksThere(from, left, k);
    MidwayEnds(r, s, id, left, grown, k, m);
  }

  // The ids of a list, from the first entry on.
  method ListIds(head: Node, ghost r: seq<Node>) returns (ids: seq<Dword>)
    requires IsList(head, r)
    ensures ids == Ids(Entries(r))
  {
    hide IsList, Ids, Entries;
    ids := [];
    ghost var k: nat := 1;
    ListHasHead(head, r);
    LinksThere(head, r, k);
    var listEntry := head.flink;
    while listEntry != head
      invariant 0 < k <= |r| && listEntry == Succ(r, k - 1)
      invariant |ids| == k - 1 && forall i :: 0 <= i < k - 1 ==> ids[i] == r[i + 1].entry.id
      decreases |r| - k
    {
      LinksThere(head, r, k);
      ids := ids + [listEntry.entry.id];
      k := k + 1;
      listEntry := listEntry.flink;
    }
    LinksThere(head, r, k);
  }
}

// Putting boot entries in the order the firmware asks for.

module BootOrder {
  import opened Bytes
  import opened BootEntryFormat

  function WithId(es: seq<Entry>, id: Dword): (r: seq<Entry>) {
    if es == [] then []
    else WithId(es[..|es| - 1], id) + if es[|es| - 1].id == id then [es[|es| - 1]] else []
  }

  // The entries no place is asked for.
  function Left(es: seq<Entry>, ids: seq<Dword>): (r: seq<Entry>) {
    if es == [] then []
    else Left(es[..|es| - 1], ids) + if es[|es| - 1].id in ids then [] else [es[|es| - 1]]
  }

  // The ordered list once the first k places are filled, each from the active entries and then from the
  // inactive ones that have none yet.
  function Placed(order: seq<Dword>, k: nat, active: seq<Entry>, inactive: seq<Entry>): seq<Entry>
    requires k <= |order|
  {
    if k == 0 then []
    else Placed(order, k - 1, active, inactive)
         + WithId(Left(active, order[..k - 1]), order[k - 1]) + WithId(Left(inactive, order[..k - 1]), order[k - 1])
  }

  function Ids(es: seq<Entry>): (ids: seq<Dword>)
    ensures |ids| == |es| && forall i :: 0 <= i < |es| ==> ids[i] == es[i].id
  {
    seq<Dword>(|es|, i requires 0 <= i < |es| => es[i].id)
  }

  // ---- What the parts have in them ----

  lemma {:induction false} WithIdHas(es: seq<Entry>, id: Dword)
    ensures forall e :: e in WithId(es, id) <==> e in es && e.id == id
  {
    if es != [] {
      WithIdHas(es[..|es| - 1], id);
      assert es == es[..|es| - 1] + [es[|es| - 1]];
    }
  }

  lemma {:induction false} LeftHas(es: seq<Entry>, ids: seq<Dword>)
    ensures forall e :: e in Left(es, ids) <==> e in es && e.id !in ids
  {
    if es != [] {
      LeftHas(es[..|es| - 1], ids);
      assert es == es[..|es| - 1] + [es[|es| - 1]];
    }
  }

  lemma NothingIn(ids: seq<Dword>, id: Dword)
    ensures WithId([], id) == [] && Left([], ids) == []
  {
  }

  lemma OneMore(es: seq<Entry>, e: Entry, id: Dword, ids: seq<Dword>)
    ensures WithId(es + [e], id) == WithId(es, id) + if e.id == id then [e] else []
    ensures Left(es + [e], ids) == Left(es, ids) + if e.id in ids then [] else [e]
  {
    assert (es + [e])[..|es|] == es;
  }

  // One more place: what had no place yet is divided.
  lemma {:induction false} LeftStep(es: seq<Entry>, ids: seq<Dword>, id: Dword)
    ensures Left(Left(es, ids), [id]) == Left(es, ids + [id])
    ensures multiset(WithId(Left(es, ids), id)) + multiset(Left(es, ids + [id])) == multiset(Left(es, ids))
  {
    hide Left, WithId;
    NothingIn(ids + [id], id);
    NothingIn(ids, id);
    NothingIn([id], id);
    if es != [] {
      LeftStep(es[..|es| - 1], ids, id);
      LeftStepOn(es[..|es| - 1], es[|es| - 1], ids, id);
      assert es == es[..|es| - 1] + [es[|es| - 1]];
    }
  }

  lemma LeftStepOn(es: seq<Entry>, e: Entry, ids: seq<Dword>, id: Dword)
    requires Left(Left(es, ids), [id]) == Left(es, ids + [id])
    requires multiset(WithId(Left(es, ids), id)) + multiset(Left(es, ids + [id])) == multiset(Left(es, ids))
    ensures Left(Left(es + [e], ids), [id]) == Left(es + [e], ids + [id])
    ensures multiset(WithId(Left(es + [e], ids), id)) + multiset(Left(es + [e], ids + [id]))
            == multiset(Left(es + [e], ids))
  {
    hide Left, WithId;
    var l := Left(es, ids);
    OneMore(es, e, id, ids);
    OneMore(es, e, id, ids + [id]);
    OneMore(l, e, id, [id]);
    assert l + [] == l;
  }

  lemma {:induction false} LeftNothing(es: seq<Entry>)
    ensures Left(es, []) == es
  {
    if es != [] {
      LeftNothing(es[..|es| - 1]);
      assert es == es[..|es| - 1] + [es[|es| - 1]];
    }
  }

  // What one place adds.
  function Added(order: seq<Dword>, k: nat, active: seq<Entry>, inactive: seq<Entry>): seq<Entry>
    requires k < |order|
  {
    WithId(Left(active, order[..k]), order[k]) + WithId(Left(inactive, order[..k]), order[k])
  }

  lemma PlacedStep(order: seq<Dword>, k: nat, active: seq<Entry>, inactive: seq<Entry>)
    requires k < |order|
    ensures Placed(order, k + 1, active, inactive)
            == Placed(order, k, active, inactive) + Added(order, k, active, inactive)
    ensures order[..k + 1] == order[..k] + [order[k]]
  {
    hide WithId, Left;
  }

  // ---- Laws ----

  // Everything there is once k places are filled.
  ghost function All(order: seq<Dword>, k: nat, active: seq<Entry>, inactive: seq<Entry>): multiset<Entry>
    requires k <= |order|
  {
    multiset(Placed(order, k, active, inactive)) + multiset(Left(active, order[..k]))
    + multiset(Left(inactive, order[..k]))
  }

  // No entry is lost and none is doubled.
  lemma {:induction false} PlacingKeepsEntries(order: seq<Dword>, k: nat, active: seq<Entry>, inactive: seq<Entry>)
    requires k <= |order|
    ensures All(order, k, active, inactive) == multiset(active) + multiset(inactive)
  {
    if k == 0 {
      LeftNothing(active);
      LeftNothing(inactive);
    } else {
      hide All;
      PlacingKeepsEntries(order, k - 1, active, inactive);
      AllStep(order, k - 1, active, inactive);
    }
  }

  lemma AllStep(order: seq<Dword>, k: nat, active: seq<Entry>, inactive: seq<Entry>)
    requires k < |order|
    ensures All(order, k + 1, active, inactive) == All(order, k, active, inactive)
  {
    hide WithId, Left, Placed;
    var id, before := order[k], order[..k];
    LeftStep(active, before, id);
    LeftStep(inactive, before, id);
    PlacedStep(order, k, active, inactive);
    var a, i := WithId(Left(active, before), id), WithId(Left(inactive, before), id);
    JoinedIs(Placed(order, k, active, inactive), a, i);
    Rebalance(multiset(Placed(order, k, active, inactive)), multiset(a), multiset(Left(active, order[..k + 1])),
              multiset(i), multiset(Left(inactive, order[..k + 1])));
  }

  lemma JoinedIs<T>(p: seq<T>, a: seq<T>, b: seq<T>)
    ensures multiset(p + (a + b)) == multiset(p) + multiset(a) + multiset(b)
  {
  }

  lemma Rebalance<T>(p: multiset<T>, a: multiset<T>, b: multiset<T>, c: multiset<T>, d: multiset<T>)
    ensures p + (a + b) + (c + d) == (p + a + c) + b + d
  {
  }

  // Where an id comes first in the order.
  function PlaceOf(order: seq<Dword>, id: Dword): (k: nat)
    ensures k <= |order| && (k < |order| ==> order[k] == id) && id !in order[..k]
  {
    if order == [] || order[0] == id then 0
    else
      var k := 1 + PlaceOf(order[1..], id);
      assert order[..k] == [order[0]] + order[1..][..k - 1];
      k
  }

  lemma PlaceIs(order: seq<Dword>, id: Dword, k: nat)
    requires k < |order| && order[k] == id && id !in order[..k]
    ensures PlaceOf(order, id) == k
  {
  }

  // The ordered list is in the order of the firmware: an entry goes to the first place that asks for it.
  lemma {:induction false} PlacedInOrder(order: seq<Dword>, k: nat, active: seq<Entry>, inactive: seq<Entry>)
    requires k <= |order|
    ensures var p := Placed(order, k, active, inactive);
            && (forall i :: 0 <= i < |p| ==> PlaceOf(order, p[i].id) < k)
            && (forall i, j :: 0 <= i < j < |p| ==> PlaceOf(order, p[i].id) <= PlaceOf(order, p[j].id))
  {
    hide PlaceOf, Added, Placed;
    NothingPlaced(order, active, inactive);
    if k > 0 {
      PlacedInOrder(order, k - 1, active, inactive);
      PlacedStep(order, k - 1, active, inactive);
      var added := Added(order, k - 1, active, inactive);
      forall i | 0 <= i < |added|
        ensures PlaceOf(order, added[i].id) == k - 1
      {
        AddedIsNew(order, k - 1, active, inactive, added[i]);
      }
      InOrderConcat(order, Placed(order, k - 1, active, inactive), added, k - 1);
    }
  }

  lemma InOrderConcat(order: seq<Dword>, a: seq<Entry>, b: seq<Entry>, k: nat)
    requires forall i :: 0 <= i < |a| ==> PlaceOf(order, a[i].id) < k
    requires forall i, j :: 0 <= i < j < |a| ==> PlaceOf(order, a[i].id) <= PlaceOf(order, a[j].id)
    requires forall i :: 0 <= i < |b| ==> PlaceOf(order, b[i].id) == k
    ensures forall i :: 0 <= i < |a + b| ==> PlaceOf(order, (a + b)[i].id) < k + 1
    ensures forall i, j :: 0 <= i < j < |a + b| ==> PlaceOf(order, (a + b)[i].id) <= PlaceOf(order, (a + b)[j].id)
  {
    hide PlaceOf;
  }

  lemma AddedIsNew(order: seq<Dword>, k: nat, active: seq<Entry>, inactive: seq<Entry>, e: Entry)
    requires k < |order|
    requires e in Added(order, k, active, inactive)
    ensures PlaceOf(order, e.id) == k
  {
    WithIdHas(Left(active, order[..k]), order[k]);
    WithIdHas(Left(inactive, order[..k]), order[k]);
    LeftHas(active, order[..k]);
    LeftHas(inactive, order[..k]);
    PlaceIs(order, e.id, k);
  }

  // Exactly the entries with a place are in it, the others are left over.
  lemma PlacedHas(order: seq<Dword>, active: seq<Entry>, inactive: seq<Entry>, e: Entry)
    ensures e in Placed(order, |order|, active, inactive) <==> (e in active || e in inactive) && e.id in order
    ensures e in Left(active, order) <==> e in active && e.id !in order
    ensures e in Left(inactive, order) <==> e in inactive && e.id !in order
  {
    var p := Placed(order, |order|, active, inactive);
    assert order[..|order|] == order;
    PlacingKeepsEntries(order, |order|, active, inactive);
    PlacedInOrder(order, |order|, active, inactive);
    LeftHas(active, order);
    LeftHas(inactive, order);
    assert e in multiset(p) + multiset(Left(active, order)) + multiset(Left(inactive, order))
           <==> e in multiset(active) + multiset(inactive);
    if e in p {
      var i :| 0 <= i < |p| && p[i] == e;
      assert PlaceOf(order, e.id) < |order|;
    }
  }

  // With one entry for each id in the order, the ordered list has just these ids.
  lemma {:induction false} PlacedIsOrder(order: seq<Dword>, k: nat, active: seq<Entry>, inactive: seq<Entry>)
    requires k <= |order|
    requires forall i, j :: 0 <= i < j < |order| ==> order[i] != order[j]
    requires forall i :: 0 <= i < |order| ==> |WithId(active, order[i])| + |WithId(inactive, order[i])| == 1
    ensures Ids(Placed(order, k, active, inactive)) == order[..k]
  {
    hide WithId, Left, Placed, Added;
    NothingPlaced(order, active, inactive);
    if k > 0 {
      PlacedIsOrder(order, k - 1, active, inactive);
      PlacedStep(order, k - 1, active, inactive);
      OneAdded(order, k - 1, active, inactive);
    }
  }

  lemma NothingPlaced(order: seq<Dword>, active: seq<Entry>, inactive: seq<Entry>)
    ensures Placed(order, 0, active, inactive) == []
  {
  }

  lemma OneAdded(order: seq<Dword>, k: nat, active: seq<Entry>, inactive: seq<Entry>)
    requires k < |order| && order[k] !in order[..k]
    requires |WithId(active, order[k])| + |WithId(inactive, order[k])| == 1
    ensures Ids(Added(order, k, active, inactive)) == [order[k]]
  {
    hide WithId, Left;
    StillThere(active, order[..k], order[k]);
    StillThere(inactive, order[..k], order[k]);
    WithIdHas(active, order[k]);
    WithIdHas(inactive, order[k]);
    var a, b := WithId(active, order[k]), WithId(inactive, order[k]);
    assert (a + b)[0] in a || (a + b)[0] in b;
  }

  lemma {:induction false} StillThere(es: seq<Entry>, ids: seq<Dword>, id: Dword)
    requires id !in ids
    ensures WithId(Left(es, ids), id) == WithId(es, id)
  {
    hide Left, WithId;
    NothingIn(ids, id);
    if es != [] {
      var init, e := es[..|es| - 1], es[|es| - 1];
      StillThere(init, ids, id);
      OneMore(init, e, id, ids);
      OneMore(Left(init, ids), e, id, ids);
      assert es == init + [e] && Left(init, ids) + [] == Left(init, ids);
    }
  }

  // What is left over stays in its original order.
  lemma {:induction false} LeftKeepsOrder(es: seq<Entry>, ids: seq<Dword>, i: nat, j: nat)
    requires i < j < |Left(es, ids)|
    ensures exists m, n :: 0 <= m < n < |es| && es[m] == Left(es, ids)[i] && es[n] == Left(es, ids)[j]
  {
    var init, e := es[..|es| - 1], es[|es| - 1];
    var l := Left(init, ids);
    if j < |l| {
      LeftKeepsOrder(init, ids, i, j);
      var m, n :| 0 <= m < n < |init| && init[m] == l[i] && init[n] == l[j];
      assert es[m] == init[m] && es[n] == init[n];
    } else {
      LeftHas(init, ids);
      assert l[i] in init;
      var m :| 0 <= m < |init| && init[m] == l[i];
      assert es[m] == Left(es, ids)[i] && es[|es| - 1] == Left(es, ids)[j];
    }
  }

  // ---- One entry to the front ----

  // wcsstr.
  predicate Contains(s: seq<Word>, t: seq<Word>) {
    exists i :: 0 <= i <= |s| - |t| && IsThere(s, t, i)
  }

  predicate IsThere(s: seq<Word>, t: seq<Word>, i: int) {
    0 <= i <= |s| - |t| && s[i..i + |t|] == t
  }

  function Lowered(name: seq<Word>, lower: Word -> Word): seq<Word> {
    seq<Word>(|name|, i requires 0 <= i < |name| => lower(name[i]))
  }

  predicate Matches(e: Entry, keyword: seq<Word>, lower: Word -> Word) {
    Contains(Lowered(e.name, lower), keyword)
  }

  function FirstMatch(es: seq<Entry>, keyword: seq<Word>, lower: Word -> Word): (k: nat)
    ensures k <= |es| && (k < |es| ==> Matches(es[k], keyword, lower))
    ensures forall i :: 0 <= i < k ==> !Matches(es[i], keyword, lower)
  {
    if es == [] || Matches(es[0], keyword, lower) then 0 else 1 + FirstMatch(es[1..], keyword, lower)
  }

  function ToFront(es: seq<Entry>, k: nat): (r: seq<Entry>)
    requires k < |es|
  {
    [es[k]] + es[..k] + es[k + 1..]
  }

  // It is the same entries, that one first and the others in their order.
  lemma ToFrontKeeps(es: seq<Entry>, k: nat)
    requires k < |es|
    ensures multiset(ToFront(es, k)) == multiset(es)
    ensures ToFront(es, k)[0] == es[k] && ToFront(es, k)[1..] == es[..k] + es[k + 1..]
    ensures Ids(ToFront(es, k)) == [Ids(es)[k]] + Ids(es)[..k] + Ids(es)[k + 1..]
  {
    hide Ids;
    MultisetAround(es, k);
    IdsToFront(es, k);
  }

  lemma MultisetAround(es: seq<Entry>, k: nat)
    requires k < |es|
    ensures multiset(es) == multiset([es[k]]) + multiset(es[..k]) + multiset(es[k + 1..])
  {
    assert es == es[..k] + ([es[k]] + es[k + 1..]);
  }

  lemma IdsToFront(es: seq<Entry>, k: nat)
    requires k < |es|
    ensures Ids(ToFront(es, k)) == [Ids(es)[k]] + Ids(es)[..k] + Ids(es)[k + 1..]
  {
  }

  // With one entry for each id in the order, the new order is the old one with the chosen id in front.
  lemma ChosenComesFirst(order: seq<Dword>, active: seq<Entry>, inactive: seq<Entry>, k: nat)
    requires forall i, j :: 0 <= i < j < |order| ==> order[i] != order[j]
    requires forall i :: 0 <= i < |order| ==> |WithId(active, order[i])| + |WithId(inactive, order[i])| == 1
    requires k < |order|
    ensures |Placed(order, |order|, active, inactive)| == |order|
    ensures Ids(ToFront(Placed(order, |order|, active, inactive), k)) == [order[k]] + order[..k] + order[k + 1..]
  {
    hide Placed, WithId, ToFront;
    PlacedIsOrder(order, |order|, active, inactive);
    assert order[..|order|] == order;
    ToFrontKeeps(Placed(order, |order|, active, inactive), k);
  }
}

// What the lists of boot entries have in them, said without building them.

module BootLaws {
  import opened Bytes
  import opened Alignment
  import opened BootEntryFormat
  import opened BootOrder
  import opened BootLists

  // ---- Enumerating ----

  // What the firmware enumerates: for each entry the distance to the next, or zero, and its bytes, filled up to a
  // multiple of four.
  function ChainBytes(es: seq<Entry>): (b: seq<Byte>)
    requires forall e :: e in es ==> IsWritable(e)
  {
    if es == [] then []
    else
      assert IsWritable(es[0]);
      var nt := NtBytes(es[0]);
      var size := RoundUp(4 + |nt|, 4);
      DwordBytes(if |es| == 1 then 0 else ToDword(size)) + nt + Zeros(size - 4 - |nt|) + ChainBytes(es[1..])
  }

  // What comes back of an entry.
  function ReadBack(e: Entry): Entry {
    e.(status := UNCHANGED, nameLength := 2 * (|e.name| + 1))
  }

  function ReadBackAll(es: seq<Entry>): (r: seq<Entry>)
    ensures |r| == |es| && forall i :: 0 <= i < |es| ==> r[i] == ReadBack(es[i])
  {
    if es == [] then [] else [ReadBack(es[0])] + ReadBackAll(es[1..])
  }

  predicate SurvivesIt(e: Entry) {
    e.os.Nt? || !LooksNt(e.os.options)
  }

  // Every entry of the chain is found and read back.
  lemma {:induction false} EnumerationReadsBack(buffer: seq<Byte>, p: nat, es: seq<Entry>)
    requires es != [] && (forall e :: e in es ==> IsWritable(e)) && forall e :: e in es ==> SurvivesIt(e)
    requires p < |buffer| < 0x1_0000_0000 && buffer[p..] == ChainBytes(es)
    ensures IsChain(buffer, p)
    ensures Enumerated(buffer, p) == ReadBackAll(es)
    decreases |es|
  {
    hide NtBytes, GetDword, DwordBytes, Parsed, LooksNt, RoundUp, ReadAt, IsString, IsFilePath, Length, ChainBytes,
         Enumerated, IsChain;
    var e := es[0];
    assert e in es;
    var nt := NtBytes(e);
    var size := RoundUp(4 + |nt|, 4);
    LinkIs(buffer, p, es);
    LengthIsThere(e);
    DwordFrom(buffer, p + 4, nt, 4);
    ReadsBackIff(e);
    if |es| > 1 {
      EnumerationReadsBack(buffer, p + size, es[1..]);
    } else {
      assert es[1..] == [];
    }
    EnumeratedStep(buffer, p, nt);
  }

  lemma EnumeratedStep(buffer: seq<Byte>, p: nat, nt: seq<Byte>)
    requires p < |buffer| && GetDword(buffer, p + 8) == |nt| && ReadAt(buffer, p + 4, |nt|) == nt
    ensures var next := GetDword(buffer, p);
            && Enumerated(buffer, p) ==
               [Parsed(nt)] + (if next == 0 || p + next >= |buffer| then [] else Enumerated(buffer, p + next))
            && (IsChain(buffer, p) <==> next != 0 ==> p + next < |buffer| && IsChain(buffer, p + next))
  {
    hide Parsed, GetDword, ReadAt;
  }

  lemma LengthIsThere(e: Entry)
    requires IsWritable(e)
    ensures GetDword(NtBytes(e), 4) == |NtBytes(e)| && |NtBytes(e)| >= 28
  {
    hide NtBytes, GetDword, Header, OsBytes, DwordBytes;
    PartsAreApart(e);
    PartsAreThere(e);
    HeaderFields(NtBytes(e), e);
  }

  lemma LinkIs(buffer: seq<Byte>, p: nat, es: seq<Entry>)
    requires es != [] && (forall e :: e in es ==> IsWritable(e))
    requires p < |buffer| < 0x1_0000_0000 && buffer[p..] == ChainBytes(es)
    ensures assert es[0] in es;
            var nt := NtBytes(es[0]);
            var size := RoundUp(4 + |nt|, 4);
            && ReadAt(buffer, p + 4, |nt|) == nt
            && GetDword(buffer, p) == (if |es| == 1 then 0 else size)
            && p + size <= |buffer| && buffer[p + size..] == ChainBytes(es[1..])
            && (|es| > 1 ==> p + size < |buffer| && 0 < size)
  {
    hide NtBytes, GetDword, DwordBytes, RoundUp, IsString, IsFilePath, Length;
    assert es[0] in es;
    var nt := NtBytes(es[0]);
    var size := RoundUp(4 + |nt|, 4);
    var link: Dword := if |es| == 1 then 0 else ToDword(size);
    var c := ChainBytes(es);
    var rest := ChainBytes(es[1..]);
    assert c == DwordBytes(link) + nt + Zeros(size - 4 - |nt|) + rest;
    assert c[size..] == rest && buffer[p..][size..] == buffer[p + size..];
    forall i | 0 <= i < |c|
      ensures At(buffer, p + i) == c[i]
    {
      assert buffer[p..][i] == buffer[p + i];
    }
    assert ReadAt(buffer, p, |c|) == c;
    assert c[0..4] == DwordBytes(link);
    DwordIn(buffer, p, c, 0, link);
    InRange(size);
    ReadWithin(buffer, p, c, 4, |nt|);
    assert c[4..4 + |nt|] == nt;
    if |es| > 1 {
      assert |rest| >= 4;
    }
  }

  // ---- Active or not ----

  // The active list has the entries with the lowest attribute bit, the inactive one the others.
  lemma {:induction false} FlaggedAre(es: seq<Entry>, active: bool, e: Entry)
    ensures e in Flagged(es, active) <==> e in es && (e.attributes % 2 == 1 <==> active)
  {
    if es != [] {
      FlaggedAre(es[1..], active, e);
      assert es == [es[0]] + es[1..];
    }
  }

  lemma NoneFlagged(active: bool)
    ensures Flagged([], active) == []
  {
  }

  // Each is in the order of the enumeration.
  lemma {:induction false} FlaggedKeepsOrder(es: seq<Entry>, active: bool, i: nat, j: nat)
    requires i < j < |Flagged(es, active)|
    ensures exists m, n :: 0 <= m < n < |es| && es[m] == Flagged(es, active)[i] && es[n] == Flagged(es, active)[j]
  {
    hide IsActive, Flagged;
    NoneFlagged(active);
    var first, others := es[0], es[1..];
    var all, rest := Flagged(es, active), Flagged(others, active);
    assert es == [first] + others;
    FlaggedFirst(first, others, active);
    if IsActive(first) == active && i == 0 {
      assert all[0] == first && all[j] == rest[j - 1];
      FlaggedAre(others, active, rest[j - 1]);
      var n :| 0 <= n < |others| && others[n] == rest[j - 1];
      assert es[0] == all[i] && es[n + 1] == all[j];
    } else {
      var d := if IsActive(first) == active then 1 else 0;
      assert all[i] == rest[i - d] && all[j] == rest[j - d];
      FlaggedKeepsOrder(others, active, i - d, j - d);
      var m, n :| 0 <= m < n < |others| && others[m] == rest[i - d] && others[n] == rest[j - d];
      assert es[m + 1] == all[i] && es[n + 1] == all[j];
    }
  }

  // ---- Entries with one id ----

  lemma {:induction false} WithIdKeepsOrder(es: seq<Entry>, id: Dword, i: nat, j: nat)
    requires i < j < |WithId(es, id)|
    ensures exists m, n :: 0 <= m < n < |es| && es[m] == WithId(es, id)[i] && es[n] == WithId(es, id)[j]
  {
    var init, e := es[..|es| - 1], es[|es| - 1];
    var l := WithId(init, id);
    if j < |l| {
      WithIdKeepsOrder(init, id, i, j);
      var m, n :| 0 <= m < n < |init| && init[m] == l[i] && init[n] == l[j];
      assert es[m] == init[m] && es[n] == init[n];
    } else {
      WithIdHas(init, id);
      assert l[i] in init;
      var m :| 0 <= m < |init| && init[m] == l[i];
      assert es[m] == WithId(es, id)[i] && es[|es| - 1] == WithId(es, id)[j];
    }
  }

  lemma {:induction false} WithIdConcat(a: seq<Entry>, b: seq<Entry>, id: Dword)
    ensures WithId(a + b, id) == WithId(a, id) + WithId(b, id)
  {
    if b == [] {
      assert a + b == a;
    } else {
      assert (a + b)[..|a + b| - 1] == a + b[..|b| - 1];
      WithIdConcat(a, b[..|b| - 1], id);
    }
  }

  lemma {:induction false} WithIdTwice(es: seq<Entry>, id: Dword, other: Dword)
    ensures WithId(WithId(es, other), id) == if id == other then WithId(es, id) else []
  {
    hide WithId;
    NothingIn([], id);
    NothingIn([], other);
    if es != [] {
      var init, e := es[..|es| - 1], es[|es| - 1];
      assert es == init + [e];
      WithIdTwice(init, id, other);
      OneMore(init, e, other, []);
      OneMore(init, e, id, []);
      OneMore(WithId(init, other), e, id, []);
      assert e.id != other ==> WithId(es, other) == WithId(init, other);
    }
  }

  lemma {:induction false} WithIdLeft(es: seq<Entry>, ids: seq<Dword>, id: Dword)
    ensures WithId(Left(es, ids), id) == if id in ids then [] else WithId(es, id)
  {
    hide WithId, Left;
    NothingIn(ids, id);
    if es != [] {
      var init, e := es[..|es| - 1], es[|es| - 1];
      assert es == init + [e];
      WithIdLeft(init, ids, id);
      OneMore(init, e, id, ids);
      OneMore(Left(init, ids), e, id, []);
      assert e.id in ids ==> Left(es, ids) == Left(init, ids);
    }
  }

  // In the ordered list the entries of each id that has a place are the active ones in their order, and then the
  // inactive ones in theirs.
  lemma {:induction false} PlacedOfId(order: seq<Dword>, k: nat, active: seq<Entry>, inactive: seq<Entry>, id: Dword)
    requires k <= |order|
    ensures WithId(Placed(order, k, active, inactive), id)
            == if id in order[..k] then WithId(active, id) + WithId(inactive, id) else []
  {
    hide WithId, Left, Placed;
    if k == 0 {
      NothingPlaced(order, active, inactive);
      NothingIn([], id);
    } else {
      var before, other := order[..k - 1], order[k - 1];
      PlacedOfId(order, k - 1, active, inactive, id);
      PlacedStep(order, k - 1, active, inactive);
      var a, i := WithId(Left(active, before), other), WithId(Left(inactive, before), other);
      WithIdConcat(Placed(order, k - 1, active, inactive), a + i, id);
      WithIdConcat(a, i, id);
      WithIdTwice(Left(active, before), id, other);
      WithIdTwice(Left(inactive, before), id, other);
      WithIdLeft(active, before, id);
      WithIdLeft(inactive, before, id);
    }
  }

  // ---- What is looked for ----

  // The keyword stands somewhere in the lowered name.
  lemma MatchesIff(e: Entry, keyword: seq<Word>, lower: Word -> Word)
    ensures Matches(e, keyword, lower) <==>
            exists before, after :: IsAround(e.name, before, keyword, after, lower)
  {
    var name := Lowered(e.name, lower);
    if Matches(e, keyword, lower) {
      var i :| 0 <= i <= |name| - |keyword| && IsThere(name, keyword, i);
      assert name == name[..i] + keyword + name[i + |keyword|..];
      assert IsAround(e.name, name[..i], keyword, name[i + |keyword|..], lower);
    }
    if before, after :| IsAround(e.name, before, keyword, after, lower) {
      assert name == before + keyword + after;
      assert IsThere(name, keyword, |before|);
    }
  }

  ghost predicate IsAround(
      name: seq<Word>, before: seq<Word>, keyword: seq<Word>, after: seq<Word>, lower: Word -> Word)
  {
    && |name| == |before| + |keyword| + |after|
    && forall i :: 0 <= i < |name| ==> lower(name[i]) == (before + keyword + after)[i]
  }

  // ---- Saving ----

  // A list keeps what is not deleted; an entry that is written again becomes unmodified and loses foreign options.
  ghost predicate IsWhatIsLeft(e: Entry, s: Entry) {
    && !e.status.deleted
    && s == if !e.status.modified then e
            else e.(status := Status(false, false, false), os := if e.os.Nt? then e.os else Foreign([]))
  }

  lemma {:induction false} SavedHas(es: seq<Entry>, s: Entry)
    ensures s in Saved(es) <==> exists i :: 0 <= i < |es| && IsWhatIsLeft(es[i], s)
  {
    if es != [] {
      var n := |es| - 1;
      var init := es[..n];
      SavedHas(init, s);
      forall i | 0 <= i < n
        ensures IsWhatIsLeft(init[i], s) <==> IsWhatIsLeft(es[i], s)
      {}
      assert s in Saved(es) <==> s in Saved(init) || IsWhatIsLeft(es[n], s);
    }
  }

  lemma {:induction false} SavedKeepsOrder(es: seq<Entry>, i: nat, j: nat)
    requires i < j < |Saved(es)|
    ensures exists m, n :: 0 <= m < n < |es| && IsWhatIsLeft(es[m], Saved(es)[i]) && IsWhatIsLeft(es[n], Saved(es)[j])
  {
    var k := |es| - 1;
    var init := es[..k];
    var l := Saved(init);
    if j < |l| {
      SavedKeepsOrder(init, i, j);
      var m, n :| 0 <= m < n < |init| && IsWhatIsLeft(init[m], l[i]) && IsWhatIsLeft(init[n], l[j]);
      assert IsWhatIsLeft(es[m], Saved(es)[i]) && IsWhatIsLeft(es[n], Saved(es)[j]);
    } else {
      SavedHas(init, l[i]);
      var m :| 0 <= m < |init| && IsWhatIsLeft(init[m], l[i]);
      assert IsWhatIsLeft(es[m], Saved(es)[i]) && IsWhatIsLeft(es[k], Saved(es)[j]);
    }
  }

  // What the firmware has afterwards of an entry that is the only one with its id: nothing if it was deleted, its bytes
  // if it was modified, otherwise what it had. What no entry has the id of stays.
  lemma {:induction false} StoredIs(nv: map<Dword, seq<Byte>>, es: seq<Entry>, i: nat)
    requires i < |es| && AreSavable(es) && (forall j :: 0 <= j < |es| && j != i ==> es[j].id != es[i].id)
    requires !es[i].status.isNew
    ensures var e, now := es[i], Stored(nv, es);
            assert e in es;
            if e.status.deleted then e.id !in now
            else if e.status.modified then e.id in now && now[e.id] == NtBytes(e)
            else (e.id in now <==> e.id in nv) && (e.id in nv ==> now[e.id] == nv[e.id])
  {
    hide NtBytes, IsWritable;
    assert es[i] in es;
    if i == |es| - 1 {
      OthersStay(nv, es[..i], es[i].id);
    } else {
      StoredIs(nv, es[..|es| - 1], i);
    }
  }

  lemma {:induction false} OthersStay(nv: map<Dword, seq<Byte>>, es: seq<Entry>, id: Dword)
    requires AreSavable(es) && forall j :: 0 <= j < |es| ==> es[j].id != id
    ensures (id in Stored(nv, es) <==> id in nv) && (id in nv ==> Stored(nv, es)[id] == nv[id])
  {
    hide NtBytes, IsWritable;
    if es != [] {
      OthersStay(nv, es[..|es| - 1], id);
    }
  }
}

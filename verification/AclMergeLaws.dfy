// What a merge means: for the accounts named in a request, for everyone else, for
// the order of the list, for the room it needs, and for a wrapper used twice.

module AclMergeLaws {
  import opened AccessControl
  import opened AclMergeSpec

  // ---- One account at a time ----

  function AcesFor(aces: seq<Ace>, sid: Sid): seq<Ace> {
    if aces == [] then []
    else AcesFor(aces[..|aces| - 1], sid) + if aces[|aces| - 1].sid == sid then [aces[|aces| - 1]] else []
  }

  lemma {:induction false} AcesForConcat(a: seq<Ace>, b: seq<Ace>, sid: Sid)
    ensures AcesFor(a + b, sid) == AcesFor(a, sid) + AcesFor(b, sid)
  {
    if b == [] {
      assert a + b == a;
    } else {
      assert (a + b)[..|a + b| - 1] == a + b[..|b| - 1];
      AcesForConcat(a, b[..|b| - 1], sid);
    }
  }

  lemma AcesForFour(a: seq<Ace>, b: seq<Ace>, c: seq<Ace>, d: seq<Ace>, sid: Sid)
    ensures AcesFor(a + b + c + d, sid) == AcesFor(a, sid) + AcesFor(b, sid) + AcesFor(c, sid) + AcesFor(d, sid)
  {
    AcesForConcat(a, b, sid);
    AcesForConcat(a + b, c, sid);
    AcesForConcat(a + b + c, d, sid);
  }

  lemma {:induction false} NoNewAcesFor(rs: seq<Request>, fdir: bool, sid: Sid)
    requires forall i :: 0 <= i < |rs| ==> rs[i].sid != sid
    ensures AcesFor(NewDenied(rs, fdir), sid) == [] && AcesFor(NewAllowed(rs, fdir), sid) == []
  {
    if rs != [] {
      var init, r := rs[..|rs| - 1], rs[|rs| - 1];
      NoNewAcesFor(init, fdir, sid);
      AcesForConcat(NewDenied(init, fdir), DeniedOf(r, fdir), sid);
      AcesForConcat(NewAllowed(init, fdir), AllowedOf(r, fdir), sid);
    }
  }

  // The request is the only one for its account.
  ghost predicate IsAlone(rs: seq<Request>, j: nat)
    requires j < |rs|
  {
    forall i :: 0 <= i < |rs| && i != j ==> rs[i].sid != rs[j].sid
  }

  lemma {:induction false} NewDeniedFor(rs: seq<Request>, fdir: bool, j: nat)
    requires j < |rs| && IsAlone(rs, j)
    ensures AcesFor(NewDenied(rs, fdir), rs[j].sid) == DeniedOf(rs[j], fdir)
  {
    hide AcesFor, NewDenied, NewAllowed, DeniedOf, AllowedOf;
    var init, r, sid := rs[..|rs| - 1], rs[|rs| - 1], rs[j].sid;
    LastNew(rs, fdir);
    AcesForConcat(NewDenied(init, fdir), DeniedOf(r, fdir), sid);
    PiecesFor(r, fdir, sid);
    if j < |rs| - 1 {
      NewDeniedFor(init, fdir, j);
    } else {
      NoNewAcesFor(init, fdir, sid);
    }
  }

  lemma {:induction false} NewAllowedFor(rs: seq<Request>, fdir: bool, j: nat)
    requires j < |rs| && IsAlone(rs, j)
    ensures AcesFor(NewAllowed(rs, fdir), rs[j].sid) == AllowedOf(rs[j], fdir)
  {
    hide AcesFor, NewDenied, NewAllowed, DeniedOf, AllowedOf;
    var init, r, sid := rs[..|rs| - 1], rs[|rs| - 1], rs[j].sid;
    LastNew(rs, fdir);
    AcesForConcat(NewAllowed(init, fdir), AllowedOf(r, fdir), sid);
    PiecesFor(r, fdir, sid);
    if j < |rs| - 1 {
      NewAllowedFor(init, fdir, j);
    } else {
      NoNewAcesFor(init, fdir, sid);
    }
  }

  lemma LastNew(rs: seq<Request>, fdir: bool)
    requires rs != []
    ensures NewDenied(rs, fdir) == NewDenied(rs[..|rs| - 1], fdir) + DeniedOf(rs[|rs| - 1], fdir)
    ensures NewAllowed(rs, fdir) == NewAllowed(rs[..|rs| - 1], fdir) + AllowedOf(rs[|rs| - 1], fdir)
  {
    hide DeniedOf, AllowedOf;
  }

  lemma PiecesFor(r: Request, fdir: bool, sid: Sid)
    ensures AcesFor(DeniedOf(r, fdir), sid) == if r.sid == sid then DeniedOf(r, fdir) else []
    ensures AcesFor(AllowedOf(r, fdir), sid) == if r.sid == sid then AllowedOf(r, fdir) else []
  {
    OneFor(DeniedOf(r, fdir), sid);
    OneFor(AllowedOf(r, fdir), sid);
  }

  lemma OneFor(aces: seq<Ace>, sid: Sid)
    requires |aces| <= 1
    ensures AcesFor(aces, sid) == if aces != [] && aces[0].sid == sid then aces else []
  {
    if |aces| == 1 {
      assert aces[..0] == [] && aces == [aces[0]];
    }
  }

  // A covered account keeps none of its old ACEs.
  lemma {:induction false} KeptForCovered(settled: seq<Ace>, inherited: bool, sid: Sid)
    requires forall i :: 0 <= i < |settled| && settled[i].sid == sid ==> settled[i].mask == {}
    ensures AcesFor(Kept(settled, inherited), sid) == []
  {
    if settled != [] {
      var init, a := settled[..|settled| - 1], settled[|settled| - 1];
      KeptForCovered(init, inherited, sid);
      AcesForConcat(Kept(init, inherited), KeptOf(a, inherited), sid);
    }
  }

  lemma AfterKeepsRequests(rs: seq<Request>, prior: OldAcl, fdir: bool)
    requires AreRequests(rs)
    ensures AreRequests(RequestsAfter(rs, prior, fdir))
    ensures forall j :: 0 <= j < |rs| ==>
              var r := RequestsAfter(rs, prior, fdir)[j];
              r.sid == rs[j].sid && r.mode == rs[j].mode && (rs[j].mode != Grant ==> r.mask == rs[j].saved)
  {
  }

  // What becomes of an account that a request other than a grant names.
  lemma CoveredAccount(rs: seq<Request>, aces: seq<Ace>, fdir: bool, j: nat)
    requires AreRequests(rs) && j < |rs| && rs[j].mode != Grant
    ensures var after := RequestsAfter(rs, OldAcl(aces), fdir);
            AcesFor(Fill(after, SettledAll(aces, rs), fdir), rs[j].sid)
            == DeniedOf(after[j], fdir) + AllowedOf(after[j], fdir)
  {
    var after := RequestsAfter(rs, OldAcl(aces), fdir);
    var settled := SettledAll(aces, rs);
    var sid := rs[j].sid;
    AfterKeepsRequests(rs, OldAcl(aces), fdir);
    hide AcesFor, NewDenied, NewAllowed, Kept, AllowedOf, DeniedOf, SettledAll;
    AcesForFour(NewDenied(after, fdir), Kept(settled, false), NewAllowed(after, fdir), Kept(settled, true), sid);
    NewDeniedFor(after, fdir, j);
    NewAllowedFor(after, fdir, j);
    NothingKeptForCovered(rs, aces, j, false);
    NothingKeptForCovered(rs, aces, j, true);
  }

  lemma NothingKeptForCovered(rs: seq<Request>, aces: seq<Ace>, j: nat, inherited: bool)
    requires j < |rs| && rs[j].mode != Grant
    ensures AcesFor(Kept(SettledAll(aces, rs), inherited), rs[j].sid) == []
  {
    assert Covers(rs[j], rs[j].sid);
    KeptForCovered(SettledAll(aces, rs), inherited, rs[j].sid);
  }

  // A revoked account has no ACE left, a replaced one exactly one allowed ACE with the rights asked
  // for, a denied one exactly one denied ACE.
  lemma RevokeReplaceDeny(rs: seq<Request>, aces: seq<Ace>, fdir: bool, j: nat)
    requires AreRequests(rs) && j < |rs| && rs[j].mode != Grant
    requires Build(rs, OldAcl(aces), fdir).Built?
    ensures AcesFor(Build(rs, OldAcl(aces), fdir).aces, rs[j].sid) ==
            match rs[j].mode
            case Revoke => []
            case Replace => [Ace(Allowed, AceFlags(fdir, fdir, false, false, false), rs[j].saved, rs[j].sid,
                                 8 + |rs[j].sid|)]
            case Deny => [Ace(Denied, AceFlags(fdir, fdir, false, false, false), rs[j].saved, rs[j].sid,
                              8 + |rs[j].sid|)]
  {
    hide AcesFor, Fill;
    CoveredAccount(rs, aces, fdir, j);
    AfterKeepsRequests(rs, OldAcl(aces), fdir);
  }

  // Without an old ACL a revocation turns into an allowed ACE: the rest of the requests is added as it is.
  lemma RevokeNeedsAnAcl(rs: seq<Request>, fdir: bool, j: nat)
    requires AreRequests(rs) && j < |rs| && rs[j].mode == Revoke && Build(rs, NoAcl, fdir).Built?
    ensures NewAce(Allowed, rs[j].saved, rs[j], fdir) in Build(rs, NoAcl, fdir).aces
  {
    var after := RequestsAfter(rs, NoAcl, fdir);
    OthersHave(after, fdir, j);
  }

  lemma {:induction false} OthersHave(rs: seq<Request>, fdir: bool, j: nat)
    requires j < |rs| && rs[j].mode != Deny
    ensures NewAce(Allowed, rs[j].mask, rs[j], fdir) in NewOthers(rs, fdir)
  {
    if j < |rs| - 1 {
      OthersHave(rs[..|rs| - 1], fdir, j);
    }
  }

  // ---- Membership ----

  lemma {:induction false} KeptHas(aces: seq<Ace>, inherited: bool, a: Ace)
    ensures a in Kept(aces, inherited) <==> a in aces && a.flags.inherited == inherited && a.mask != {}
  {
    if aces != [] {
      KeptHas(aces[..|aces| - 1], inherited, a);
      assert a in aces <==> a in aces[..|aces| - 1] || a == aces[|aces| - 1];
    }
  }

  lemma {:induction false} NewDeniedHas(rs: seq<Request>, fdir: bool, a: Ace)
    ensures a in NewDenied(rs, fdir) <==>
            exists j :: 0 <= j < |rs| && rs[j].mode == Deny && a == NewAce(Denied, rs[j].mask, rs[j], fdir)
  {
    if rs != [] {
      NewDeniedHas(rs[..|rs| - 1], fdir, a);
      assert forall j :: 0 <= j < |rs| - 1 ==> rs[..|rs| - 1][j] == rs[j];
    }
  }

  lemma {:induction false} NewAllowedHas(rs: seq<Request>, fdir: bool, a: Ace)
    ensures a in NewAllowed(rs, fdir) <==>
            exists j :: 0 <= j < |rs| && rs[j].mode != Deny && rs[j].mode != Revoke && rs[j].mask != {}
                     && a == NewAce(Allowed, rs[j].mask, rs[j], fdir)
  {
    if rs != [] {
      NewAllowedHas(rs[..|rs| - 1], fdir, a);
      assert forall j :: 0 <= j < |rs| - 1 ==> rs[..|rs| - 1][j] == rs[j];
    }
  }

  // ---- Grants ----

  lemma {:induction false} GrantAllOne(a: Ace, rs: seq<Request>, j: nat)
    requires AreRequests(rs) && j < |rs| && rs[j].sid == a.sid
    ensures GrantAll(a, rs) == GrantTo(a, rs[j])
  {
    var init := rs[..|rs| - 1];
    if j < |rs| - 1 {
      GrantAllOne(a, init, j);
    } else {
      GrantAllNone(a, init);
    }
  }

  lemma {:induction false} GrantAllNone(a: Ace, rs: seq<Request>)
    requires forall j :: 0 <= j < |rs| ==> rs[j].sid != a.sid
    ensures GrantAll(a, rs) == a
  {
    if rs != [] {
      GrantAllNone(a, rs[..|rs| - 1]);
    }
  }

  // The ACEs of a granted account after the first pass.
  lemma SettledForGrant(a: Ace, rs: seq<Request>, j: nat)
    requires AreRequests(rs) && j < |rs| && rs[j].mode == Grant && rs[j].sid == a.sid
    ensures Settled(a, rs) == GrantTo(a, rs[j])
  {
    GrantAllOne(a, rs, j);
  }

  // The grant shows in some ACE that speaks to the object itself.
  ghost predicate TakesEffect(prior: seq<Ace>, r: Request) {
    IsTakenUp(prior, r) ==> exists i :: 0 <= i < |prior| && IsMatch(prior[i], r) && !prior[i].flags.inheritOnly
  }

  // No denying ACE of the account mentions a granted right any more.
  lemma NothingRefusesGrant(rs: seq<Request>, aces: seq<Ace>, fdir: bool, j: nat, b: Bit, a: Ace)
    requires AreRequests(rs) && j < |rs| && rs[j].mode == Grant && b in rs[j].saved
    requires a in Fill(RequestsAfter(rs, OldAcl(aces), fdir), SettledAll(aces, rs), fdir)
    requires a.sid == rs[j].sid && b in a.mask
    ensures a.kind != Denied
  {
    hide NewDenied, NewAllowed, Kept, FoundIn, IsTakenUp;
    var after := RequestsAfter(rs, OldAcl(aces), fdir);
    var settled := SettledAll(aces, rs);
    NewDeniedHas(after, fdir, a);
    NewAllowedHas(after, fdir, a);
    KeptHas(settled, false, a);
    KeptHas(settled, true, a);
    if a in settled {
      var i :| 0 <= i < |settled| && settled[i] == a;
      SettledForGrant(aces[i], rs, j);
    }
  }

  // An allowing ACE of the account on the object itself, if there is to be one.
  lemma SomeAllowsGrant(rs: seq<Request>, aces: seq<Ace>, fdir: bool, j: nat) returns (a: Ace)
    requires AreRequests(rs) && j < |rs| && rs[j].mode == Grant && rs[j].kind == Allowed
    requires TakesEffect(aces, rs[j])
    ensures a in Fill(RequestsAfter(rs, OldAcl(aces), fdir), SettledAll(aces, rs), fdir)
    ensures Applies(a, {rs[j].sid}) && rs[j].saved <= a.mask && a.kind == Allowed
  {
    var r := rs[j];
    if IsTakenUp(aces, r) {
      var i :| 0 <= i < |aces| && IsMatch(aces[i], r) && !aces[i].flags.inheritOnly;
      a := SettledAll(aces, rs)[i];
      SettledForGrant(aces[i], rs, j);
      KeptHas(SettledAll(aces, rs), a.flags.inherited, a);
    } else {
      a := NewAce(Allowed, r.saved, r, fdir);
      var after := RequestsAfter(rs, OldAcl(aces), fdir);
      assert a == NewAce(Allowed, after[j].mask, after[j], fdir);
      NewAllowedHas(after, fdir, a);
    }
  }

  // And none otherwise.
  lemma NoneElseAllowsGrant(rs: seq<Request>, aces: seq<Ace>, fdir: bool, j: nat, a: Ace)
    requires AreRequests(rs) && j < |rs| && rs[j].mode == Grant && rs[j].kind == Allowed
    requires a in Fill(RequestsAfter(rs, OldAcl(aces), fdir), SettledAll(aces, rs), fdir)
    requires a.sid == rs[j].sid && !a.flags.inheritOnly && a.kind == Allowed
    ensures TakesEffect(aces, rs[j])
  {
    var after := RequestsAfter(rs, OldAcl(aces), fdir);
    var settled := SettledAll(aces, rs);
    KeptHas(settled, false, a);
    KeptHas(settled, true, a);
    if a in settled {
      var i :| 0 <= i < |settled| && settled[i] == a;
      SettledForGrant(aces[i], rs, j);
      assert IsMatch(aces[i], rs[j]);
    } else {
      NewDeniedHas(after, fdir, a);
      NewAllowedMeansLeft(rs, aces, fdir, j, a);
    }
  }

  lemma NewAllowedMeansLeft(rs: seq<Request>, aces: seq<Ace>, fdir: bool, j: nat, a: Ace)
    requires AreRequests(rs) && j < |rs| && rs[j].mode == Grant
    requires a.sid == rs[j].sid && a in NewAllowed(RequestsAfter(rs, OldAcl(aces), fdir), fdir)
    ensures !IsTakenUp(aces, rs[j])
  {
    var after := RequestsAfter(rs, OldAcl(aces), fdir);
    NewAllowedHas(after, fdir, a);
    var k :| 0 <= k < |after| && after[k].mask != {} && a == NewAce(Allowed, after[k].mask, after[k], fdir);
    var r := after[k];
    assert NewAce(Allowed, r.mask, r, fdir).sid == r.sid;
    assert a.sid == r.sid;
    AfterKeepsRequests(rs, OldAcl(aces), fdir);
    assert k == j;
  }

  // After a successful merge a token that holds just the account is granted what was asked for, exactly
  // when the account's own allowing ACEs, if there are any, do not all serve inheritance only.
  lemma GrantGives(rs: seq<Request>, aces: seq<Ace>, fdir: bool, j: nat)
    requires AreRequests(rs) && j < |rs| && rs[j].mode == Grant && rs[j].kind == Allowed
    requires Build(rs, OldAcl(aces), fdir).Built?
    ensures Grants(Build(rs, OldAcl(aces), fdir).aces, {rs[j].sid}, rs[j].saved) <==> TakesEffect(aces, rs[j])
  {
    var list := Build(rs, OldAcl(aces), fdir).aces;
    var token := {rs[j].sid};
    forall b | b in rs[j].saved
      ensures VerdictOn(list, token, b) == Granted <==> TakesEffect(aces, rs[j])
    {
      VerdictIs(list, token, b);
      forall a | a in list && Applies(a, token) && b in a.mask
        ensures a.kind != Denied
        ensures a.kind == Allowed ==> TakesEffect(aces, rs[j])
      {
        NothingRefusesGrant(rs, aces, fdir, j, b, a);
        if a.kind == Allowed {
          NoneElseAllowsGrant(rs, aces, fdir, j, a);
        }
      }
      if TakesEffect(aces, rs[j]) {
        var a := SomeAllowsGrant(rs, aces, fdir, j);
      }
    }
    var some :| some in rs[j].saved;
    CheckIsBitwise(list, token, rs[j].saved);
  }

  // For example, on a file with one ACE of the account, for inheritance only, the grant goes into that ACE.
  lemma GrantWithoutEffect(sid: Sid, aces: seq<Ace>)
    requires |sid| <= 68 // SECURITY_MAX_SID_SIZE
    requires aces == [Ace(Allowed, AceFlags(true, true, false, true, false), {0}, sid, 8 + |sid|)]
    ensures var outcome := Build([Request(sid, Grant, Allowed, {1}, {1}, {})], OldAcl(aces), false);
            outcome.Built? && !Grants(outcome.aces, {sid}, {1})
  {
    var r := Request(sid, Grant, Allowed, {1}, {1}, {});
    SmallSize(r, aces[0]);
    assert IsMatch(aces[0], r) && [r][0] == r;
    GrantGives([r], aces, false, 0);
  }

  // Without an old ACL a token with just the account is granted what was asked for, unless it is a denial.
  lemma GivenWithoutAcl(rs: seq<Request>, fdir: bool, j: nat)
    requires AreRequests(rs) && j < |rs| && rs[j].mode != Deny && Build(rs, NoAcl, fdir).Built?
    ensures Grants(Build(rs, NoAcl, fdir).aces, {rs[j].sid}, rs[j].saved)
  {
    hide NewAclSize, RequestsSize;
    var list, after := Build(rs, NoAcl, fdir).aces, RequestsAfter(rs, NoAcl, fdir);
    OthersHave(after, fdir, j);
    assert NewAce(Allowed, rs[j].saved, rs[j], fdir) == NewAce(Allowed, after[j].mask, after[j], fdir);
    forall b | b in rs[j].saved
      ensures VerdictOn(list, {rs[j].sid}, b) == Granted
    {
      VerdictIs(list, {rs[j].sid}, b);
      assert NewAce(Allowed, rs[j].saved, rs[j], fdir) in list;
      forall a | a in list && Applies(a, {rs[j].sid})
        ensures a.kind != Denied
      {
        NewDeniedHas(after, fdir, a);
        if a in NewOthers(after, fdir) {
          OthersAllow(after, fdir, a);
        }
      }
    }
    CheckIsBitwise(list, {rs[j].sid}, rs[j].saved);
  }

  lemma {:induction false} OthersAllow(rs: seq<Request>, fdir: bool, a: Ace)
    requires a in NewOthers(rs, fdir)
    ensures a.kind == Allowed
  {
    if a in NewOthers(rs[..|rs| - 1], fdir) {
      OthersAllow(rs[..|rs| - 1], fdir, a);
    }
  }

  // On a directory the inheritance test sees to that, for a request that has not been used before.
  lemma DirectoryGrantTakesEffect(rs: seq<Request>, aces: seq<Ace>, j: nat)
    requires AreRequests(rs) && j < |rs| && rs[j].mode == Grant && rs[j].found == {}
    requires Build(rs, OldAcl(aces), true).Built?
    ensures TakesEffect(aces, rs[j])
  {
    if IsTakenUp(aces, rs[j]) {
      assert !FallsShort(aces, rs[j], true);
      FoundIs(aces, rs[j]);
      assert OntoItself in ReachedBy(aces, rs[j]);
    }
  }

  // ---- Denials ----

  lemma NewDeniedRefuse(rs: seq<Request>, fdir: bool, j: nat, token: set<Sid>, b: Bit)
    requires j < |rs| && rs[j].mode == Deny && rs[j].sid in token && b in rs[j].mask
    ensures VerdictOn(NewDenied(rs, fdir), token, b) == Refused
  {
    var denied := NewDenied(rs, fdir);
    var a := NewAce(Denied, rs[j].mask, rs[j], fdir);
    NewDeniedHas(rs, fdir, a);
    assert Applies(a, token) && b in a.mask;
    VerdictIs(denied, token, b);
    forall x | x in denied
      ensures x.kind == Denied
    {
      NewDeniedHas(rs, fdir, x);
    }
  }

  // Whoever holds a denied account is refused the rights of the denial, whatever else the list says.
  lemma DenialComesFirst(rs: seq<Request>, aces: seq<Ace>, fdir: bool, j: nat, token: set<Sid>, b: Bit)
    requires AreRequests(rs) && j < |rs| && rs[j].mode == Deny && rs[j].sid in token && b in rs[j].saved
    requires Build(rs, OldAcl(aces), fdir).Built?
    ensures VerdictOn(Build(rs, OldAcl(aces), fdir).aces, token, b) == Refused
  {
    var after := RequestsAfter(rs, OldAcl(aces), fdir);
    var kept := Kept(SettledAll(aces, rs), false);
    var allowed := NewAllowed(after, fdir);
    AfterKeepsRequests(rs, OldAcl(aces), fdir);
    NewDeniedRefuse(after, fdir, j, token, b);
    VerdictOnConcat(NewDenied(after, fdir), kept, token, b);
    VerdictOnConcat(NewDenied(after, fdir) + kept, allowed, token, b);
    VerdictOnConcat(NewDenied(after, fdir) + kept + allowed, Kept(SettledAll(aces, rs), true), token, b);
  }

  // Without an old ACL as well.
  lemma DenialComesFirstWithoutAcl(rs: seq<Request>, fdir: bool, j: nat, token: set<Sid>, b: Bit)
    requires AreRequests(rs) && j < |rs| && rs[j].mode == Deny && rs[j].sid in token && b in rs[j].saved
    requires Build(rs, NoAcl, fdir).Built?
    ensures VerdictOn(Build(rs, NoAcl, fdir).aces, token, b) == Refused
  {
    hide NewAclSize, RequestsSize, NewDenied, NewOthers;
    var after := RequestsAfter(rs, NoAcl, fdir);
    NewDeniedRefuse(after, fdir, j, token, b);
    VerdictOnConcat(NewDenied(after, fdir), NewOthers(after, fdir), token, b);
  }

  // ---- Everyone else ----

  // The explicit, or the inherited, ACEs of a list, in order.
  function Part(aces: seq<Ace>, inherited: bool): seq<Ace> {
    if aces == [] then []
    else var a := aces[|aces| - 1];
      Part(aces[..|aces| - 1], inherited) + if a.flags.inherited == inherited then [a] else []
  }

  // The token holds none of the accounts named in a request.
  ghost predicate IsOutside(rs: seq<Request>, token: set<Sid>) {
    forall j :: 0 <= j < |rs| ==> rs[j].sid !in token
  }

  // No request is about this right of an account that the token holds, unless it grants other rights.
  ghost predicate LeavesAlone(rs: seq<Request>, token: set<Sid>, b: Bit) {
    forall j :: 0 <= j < |rs| && rs[j].sid in token ==> rs[j].mode == Grant && b !in rs[j].saved
  }

  lemma {:induction false} GrantAllKeepsBit(a: Ace, rs: seq<Request>, b: Bit)
    requires forall j :: 0 <= j < |rs| && rs[j].sid == a.sid ==> b !in rs[j].saved
    ensures b in GrantAll(a, rs).mask <==> b in a.mask
  {
    if rs != [] {
      GrantAllKeepsBit(a, rs[..|rs| - 1], b);
    }
  }

  lemma {:induction false} KeptSaysTheSame(
      rs: seq<Request>, aces: seq<Ace>, inherited: bool, token: set<Sid>, b: Bit)
    requires LeavesAlone(rs, token, b)
    ensures VerdictOn(Kept(SettledAll(aces, rs), inherited), token, b) == VerdictOn(Part(aces, inherited), token, b)
  {
    if aces != [] {
      var init, a := aces[..|aces| - 1], aces[|aces| - 1];
      KeptSaysTheSame(rs, init, inherited, token, b);
      var s := Settled(a, rs);
      assert SettledAll(aces, rs)[..|aces| - 1] == SettledAll(init, rs);
      SaysTheSame(rs, a, inherited, token, b);
      VerdictOnConcat(Kept(SettledAll(init, rs), inherited), KeptOf(s, inherited), token, b);
      VerdictOnConcat(Part(init, inherited), if a.flags.inherited == inherited then [a] else [], token, b);
    }
  }

  lemma SaysTheSame(rs: seq<Request>, a: Ace, inherited: bool, token: set<Sid>, b: Bit)
    requires LeavesAlone(rs, token, b)
    ensures VerdictOn(KeptOf(Settled(a, rs), inherited), token, b)
            == VerdictOn(if a.flags.inherited == inherited then [a] else [], token, b)
  {
    if a.sid in token {
      GrantAllKeepsBit(a, rs, b);
      assert !IsCovered(rs, a.sid);
    }
  }

  lemma NewAcesAreSilent(rs: seq<Request>, fdir: bool, token: set<Sid>, b: Bit)
    requires forall j :: 0 <= j < |rs| && rs[j].sid in token ==> rs[j].mode == Grant && b !in rs[j].mask
    ensures VerdictOn(NewDenied(rs, fdir), token, b) == Silent
    ensures VerdictOn(NewAllowed(rs, fdir), token, b) == Silent
  {
    VerdictIs(NewDenied(rs, fdir), token, b);
    VerdictIs(NewAllowed(rs, fdir), token, b);
    forall a | a in NewDenied(rs, fdir) || a in NewAllowed(rs, fdir)
      ensures a.sid in token ==> b !in a.mask
    {
      NewDeniedHas(rs, fdir, a);
      NewAllowedHas(rs, fdir, a);
    }
  }

  // What a request is not about stays: on such a right the new list says what the old one would say with its
  // inherited ACEs moved to the end. In particular a grant takes no right away.
  lemma MergeKeepsTheRest(rs: seq<Request>, aces: seq<Ace>, fdir: bool, token: set<Sid>, b: Bit)
    requires LeavesAlone(rs, token, b) && Build(rs, OldAcl(aces), fdir).Built?
    ensures VerdictOn(Build(rs, OldAcl(aces), fdir).aces, token, b)
            == VerdictOn(Part(aces, false) + Part(aces, true), token, b)
  {
    var after := RequestsAfter(rs, OldAcl(aces), fdir);
    var settled := SettledAll(aces, rs);
    NewAcesAreSilent(after, fdir, token, b);
    KeptSaysTheSame(rs, aces, false, token, b);
    KeptSaysTheSame(rs, aces, true, token, b);
    VerdictOnConcat(Part(aces, false), Part(aces, true), token, b);
    VerdictOnConcat(NewDenied(after, fdir), Kept(settled, false), token, b);
    VerdictOnConcat(NewDenied(after, fdir) + Kept(settled, false), NewAllowed(after, fdir), token, b);
    VerdictOnConcat(NewDenied(after, fdir) + Kept(settled, false) + NewAllowed(after, fdir), Kept(settled, true),
                    token, b);
  }

  // To everyone else it says that on every right.
  lemma OthersSeeThePartedList(rs: seq<Request>, aces: seq<Ace>, fdir: bool, token: set<Sid>, b: Bit)
    requires IsOutside(rs, token) && Build(rs, OldAcl(aces), fdir).Built?
    ensures VerdictOn(Build(rs, OldAcl(aces), fdir).aces, token, b)
            == VerdictOn(Part(aces, false) + Part(aces, true), token, b)
  {
    MergeKeepsTheRest(rs, aces, fdir, token, b);
  }

  // ---- ACE by ACE ----

  // What is left of an old ACE that no other request than a grant names, none of whose kind is strange.
  ghost predicate IsLeftOf(was: Ace, rs: seq<Request>, a: Ace) {
    && a.mask != {} && a == was.(mask := a.mask)
    && (forall j :: 0 <= j < |rs| && rs[j].sid == was.sid ==>
          && rs[j].mode == Grant
          && forall b :: b in a.mask <==> match was.kind
                                          case Allowed => b in was.mask || b in rs[j].saved
                                          case Denied => b in was.mask && b !in rs[j].saved
                                          case Other(_) => b in was.mask)
    && ((forall j :: 0 <= j < |rs| ==> rs[j].sid != was.sid) ==> a.mask == was.mask)
  }

  // What a request adds. A grant adds nothing to an account that has an ACE of its kind.
  ghost predicate IsAddedFor(r: Request, aces: seq<Ace>, fdir: bool, a: Ace) {
    && r.mode != Revoke
    && a == Ace(if r.mode == Deny then Denied else Allowed, AceFlags(fdir, fdir, false, false, false),
                r.saved, r.sid, 8 + |r.sid|)
    && (r.mode == Grant ==> forall i :: 0 <= i < |aces| ==> !(aces[i].sid == r.sid && aces[i].kind == r.kind))
  }

  // Exactly the ACEs that are left and those that are added make up the new list.
  lemma MergeHas(rs: seq<Request>, aces: seq<Ace>, fdir: bool, a: Ace)
    requires AreRequests(rs) && Build(rs, OldAcl(aces), fdir).Built?
    ensures a in Build(rs, OldAcl(aces), fdir).aces <==>
            || (exists i :: 0 <= i < |aces| && IsLeftOf(aces[i], rs, a))
            || (exists j :: 0 <= j < |rs| && IsAddedFor(rs[j], aces, fdir, a))
  {
    hide NewDenied, NewAllowed, Kept, IsLeftOf, IsAddedFor, FirstPassFails, NewAclSize;
    var after, settled := RequestsAfter(rs, OldAcl(aces), fdir), SettledAll(aces, rs);
    NewDeniedHas(after, fdir, a);
    NewAllowedHas(after, fdir, a);
    KeptHas(settled, false, a);
    KeptHas(settled, true, a);
    AddedIs(rs, aces, fdir, a);
    forall i | 0 <= i < |aces|
      ensures a == settled[i] && a.mask != {} <==> IsLeftOf(aces[i], rs, a)
    {
      LeftIs(aces[i], rs, a);
    }
    assert a in settled <==> exists i :: 0 <= i < |aces| && a == settled[i];
  }

  // Without an old ACL each request adds one, a revocation as well.
  lemma WithoutAclHas(rs: seq<Request>, fdir: bool, a: Ace)
    requires Build(rs, NoAcl, fdir).Built?
    ensures a in Build(rs, NoAcl, fdir).aces <==>
            exists j :: 0 <= j < |rs|
                     && a == Ace(if rs[j].mode == Deny then Denied else Allowed,
                                 AceFlags(fdir, fdir, false, false, false), rs[j].saved, rs[j].sid, 8 + |rs[j].sid|)
  {
    hide FirstPassFails, NewAclSize;
    var after := RequestsAfter(rs, NoAcl, fdir);
    NewDeniedHas(after, fdir, a);
    NewOthersHas(after, fdir, a);
    forall j | 0 <= j < |rs|
      ensures after[j] == rs[j].(mask := rs[j].saved)
    {}
    if j :| 0 <= j < |rs| && a == Ace(if rs[j].mode == Deny then Denied else Allowed,
                                      AceFlags(fdir, fdir, false, false, false), rs[j].saved, rs[j].sid,
                                      8 + |rs[j].sid|) {
      assert a == NewAce(if after[j].mode == Deny then Denied else Allowed, after[j].mask, after[j], fdir);
    }
  }

  lemma {:induction false} NewOthersHas(rs: seq<Request>, fdir: bool, a: Ace)
    ensures a in NewOthers(rs, fdir) <==>
            exists j :: 0 <= j < |rs| && rs[j].mode != Deny && a == NewAce(Allowed, rs[j].mask, rs[j], fdir)
  {
    if rs != [] {
      NewOthersHas(rs[..|rs| - 1], fdir, a);
      assert forall j :: 0 <= j < |rs| - 1 ==> rs[..|rs| - 1][j] == rs[j];
    }
  }

  lemma AddedIs(rs: seq<Request>, aces: seq<Ace>, fdir: bool, a: Ace)
    requires AreRequests(rs)
    ensures var after := RequestsAfter(rs, OldAcl(aces), fdir);
            (exists j :: 0 <= j < |rs| && IsAddedFor(rs[j], aces, fdir, a)) <==>
            || (exists j :: 0 <= j < |after| && after[j].mode == Deny
                         && a == NewAce(Denied, after[j].mask, after[j], fdir))
            || (exists j :: 0 <= j < |after| && after[j].mode != Deny && after[j].mode != Revoke
                         && after[j].mask != {} && a == NewAce(Allowed, after[j].mask, after[j], fdir))
  {
    var after := RequestsAfter(rs, OldAcl(aces), fdir);
    forall j | 0 <= j < |rs|
      ensures IsAddedFor(rs[j], aces, fdir, a) <==>
              (after[j].mode == Deny && a == NewAce(Denied, after[j].mask, after[j], fdir))
              || (after[j].mode != Deny && after[j].mode != Revoke
                  && after[j].mask != {} && a == NewAce(Allowed, after[j].mask, after[j], fdir))
    {
      OneAddedIs(rs[j], aces, fdir, a);
    }
  }

  lemma OneAddedIs(r: Request, aces: seq<Ace>, fdir: bool, a: Ace)
    requires r.saved != {}
    ensures var after := if aces == [] then r.(mask := r.saved) else AfterPass(r, aces, fdir);
            IsAddedFor(r, aces, fdir, a) <==>
            (after.mode == Deny && a == NewAce(Denied, after.mask, after, fdir))
            || (after.mode != Deny && after.mode != Revoke
                && after.mask != {} && a == NewAce(Allowed, after.mask, after, fdir))
  {
    hide FoundIn;
  }

  lemma LeftIs(was: Ace, rs: seq<Request>, a: Ace)
    requires AreRequests(rs)
    ensures a == Settled(was, rs) && a.mask != {} <==> IsLeftOf(was, rs, a)
  {
    if j :| 0 <= j < |rs| && rs[j].sid == was.sid {
      GrantAllOne(was, rs, j);
      assert Covers(rs[j], was.sid) <==> rs[j].mode != Grant;
      if IsLeftOf(was, rs, a) {
        assert a.mask == GrantTo(was, rs[j]).mask;
      }
    } else {
      GrantAllNone(was, rs);
    }
  }

  ghost predicate InheritedComeLast(aces: seq<Ace>) {
    forall i, k :: 0 <= i < k < |aces| && aces[i].flags.inherited ==> aces[k].flags.inherited
  }

  lemma {:induction false} PartsMakeTheList(aces: seq<Ace>)
    requires InheritedComeLast(aces)
    ensures Part(aces, false) + Part(aces, true) == aces
  {
    if aces != [] {
      var init, a := aces[..|aces| - 1], aces[|aces| - 1];
      PartsMakeTheList(init);
      if !a.flags.inherited {
        NoInheritedPart(init);
      }
    }
  }

  lemma {:induction false} NoInheritedPart(aces: seq<Ace>)
    requires forall i :: 0 <= i < |aces| ==> !aces[i].flags.inherited
    ensures Part(aces, true) == []
  {
    if aces != [] {
      NoInheritedPart(aces[..|aces| - 1]);
    }
  }

  // So nobody else notices anything if the inherited ACEs came last already.
  lemma OthersNoticeNothing(rs: seq<Request>, aces: seq<Ace>, fdir: bool, token: set<Sid>, wanted: Mask)
    requires IsOutside(rs, token) && InheritedComeLast(aces) && Build(rs, OldAcl(aces), fdir).Built?
    ensures Grants(Build(rs, OldAcl(aces), fdir).aces, token, wanted) <==> Grants(aces, token, wanted)
  {
    var list := Build(rs, OldAcl(aces), fdir).aces;
    PartsMakeTheList(aces);
    CheckIsBitwise(list, token, wanted);
    CheckIsBitwise(aces, token, wanted);
    forall b | b in wanted
      ensures VerdictOn(list, token, b) == VerdictOn(aces, token, b)
    {
      OthersSeeThePartedList(rs, aces, fdir, token, b);
    }
  }

  // ---- Order ----

  // Explicit denials, explicit allowances, inherited ACEs.
  ghost predicate IsCanonical(aces: seq<Ace>) {
    forall i, k :: 0 <= i < k < |aces| ==> InOrder(aces[i], aces[k])
  }

  predicate InOrder(a: Ace, b: Ace) {
    && (a.flags.inherited ==> b.flags.inherited)
    && (IsExplicit(a, Allowed) ==> !IsExplicit(b, Denied))
  }

  lemma CanonicalConcat(a: seq<Ace>, b: seq<Ace>)
    requires IsCanonical(a) && IsCanonical(b)
    requires forall x, y :: x in a && y in b ==> InOrder(x, y)
    ensures IsCanonical(a + b)
  {
  }

  lemma AllAlikeIsCanonical(aces: seq<Ace>)
    requires (forall a :: a in aces ==> a.flags.inherited) || (forall a :: a in aces ==> IsExplicit(a, Denied))
             || (forall a :: a in aces ==> IsExplicit(a, Allowed))
    ensures IsCanonical(aces)
  {
    forall i, k | 0 <= i < k < |aces|
      ensures InOrder(aces[i], aces[k])
    {
      assert aces[i] in aces && aces[k] in aces;
    }
  }

  lemma {:induction false} KeptExplicitIsCanonical(settled: seq<Ace>)
    requires !IsDisordered(settled)
    ensures IsCanonical(Kept(settled, false))
  {
    if settled != [] {
      var init, a := settled[..|settled| - 1], settled[|settled| - 1];
      assert forall i :: 0 <= i < |init| ==> init[i] == settled[i];
      KeptExplicitIsCanonical(init);
      forall x | x in Kept(init, false)
        ensures !x.flags.inherited && (x.kind == Allowed ==> !IsExplicit(a, Denied))
      {
        KeptHas(init, false, x);
        var i :| 0 <= i < |init| && init[i] == x;
        assert settled[i] == x;
      }
      CanonicalConcat(Kept(init, false), KeptOf(a, false));
    }
  }

  // Every successful merge with an old ACL comes out in canonical order.
  lemma MergeIsCanonical(rs: seq<Request>, aces: seq<Ace>, fdir: bool)
    requires Build(rs, OldAcl(aces), fdir).Built?
    ensures IsCanonical(Build(rs, OldAcl(aces), fdir).aces)
  {
    var after := RequestsAfter(rs, OldAcl(aces), fdir);
    var settled := SettledAll(aces, rs);
    var denied, kept := NewDenied(after, fdir), Kept(settled, false);
    var allowed, inherited := NewAllowed(after, fdir), Kept(settled, true);
    assert forall i, kind :: 0 <= i < |aces| ==> IsExplicit(settled[i], kind) == IsExplicit(aces[i], kind);
    forall a
      ensures a in denied ==> IsExplicit(a, Denied)
      ensures a in kept ==> !a.flags.inherited
      ensures a in allowed ==> IsExplicit(a, Allowed)
      ensures a in inherited ==> a.flags.inherited
    {
      NewDeniedHas(after, fdir, a);
      NewAllowedHas(after, fdir, a);
      KeptHas(settled, false, a);
      KeptHas(settled, true, a);
    }
    KeptExplicitIsCanonical(settled);
    AllAlikeIsCanonical(denied);
    AllAlikeIsCanonical(allowed);
    AllAlikeIsCanonical(inherited);
    CanonicalConcat(denied, kept);
    CanonicalConcat(denied + kept, allowed);
    CanonicalConcat(denied + kept + allowed, inherited);
  }

  // ---- Room ----

  // What the first pass counts for old ACEs that it leaves with nothing to say and that no request covers.
  function VainSize(aces: seq<Ace>, rs: seq<Request>): nat {
    if aces == [] then 0
    else var a := aces[|aces| - 1];
      VainSize(aces[..|aces| - 1], rs) + if !IsCovered(rs, a.sid) && Settled(a, rs).mask == {} then a.size else 0
  }

  lemma {:induction false} KeptFits(rs: seq<Request>, aces: seq<Ace>)
    ensures var s := SettledAll(aces, rs);
            TotalSize(Kept(s, false)) + TotalSize(Kept(s, true)) + VainSize(aces, rs) == KeptSize(aces, rs)
  {
    if aces != [] {
      var init, a := aces[..|aces| - 1], aces[|aces| - 1];
      var s := Settled(a, rs);
      assert SettledAll(aces, rs)[..|aces| - 1] == SettledAll(init, rs);
      KeptFits(rs, init);
      TotalSizeConcat(Kept(SettledAll(init, rs), false), KeptOf(s, false));
      TotalSizeConcat(Kept(SettledAll(init, rs), true), KeptOf(s, true));
      OneSize(s);
    }
  }

  lemma OneSize(a: Ace)
    ensures TotalSize(KeptOf(a, false)) + TotalSize(KeptOf(a, true)) == if a.mask != {} then a.size else 0
  {
    assert [a][..0] == [];
    assert TotalSize([a]) == a.size;
  }

  lemma {:induction false} NewAcesFit(rs: seq<Request>, aces: seq<Ace>, fdir: bool)
    requires AreRequests(rs)
    ensures var after := RequestsAfter(rs, OldAcl(aces), fdir);
            var added := TotalSize(NewDenied(after, fdir)) + TotalSize(NewAllowed(after, fdir));
            added <= RequestsSize(rs, aces) && (aces != [] ==> added == RequestsSize(rs, aces))
  {
    if rs != [] {
      var init, r := rs[..|rs| - 1], rs[|rs| - 1];
      var after := RequestsAfter(rs, OldAcl(aces), fdir);
      var x := after[|rs| - 1];
      var afterInit := RequestsAfter(init, OldAcl(aces), fdir);
      assert after[..|rs| - 1] == afterInit;
      NewAcesFit(init, aces, fdir);
      TotalSizeConcat(NewDenied(afterInit, fdir), DeniedOf(x, fdir));
      TotalSizeConcat(NewAllowed(afterInit, fdir), AllowedOf(x, fdir));
      NewSize(x, fdir);
      RequestSize(r, x, aces, fdir);
    }
  }

  lemma RequestSize(r: Request, after: Request, aces: seq<Ace>, fdir: bool)
    requires r.saved != {} && after == if aces == [] then r.(mask := r.saved) else AfterPass(r, aces, fdir)
    ensures var adds := after.mode == Deny || (after.mode != Revoke && after.mask != {});
            var counted := aces == [] || !(r.mode == Revoke || IsTakenUp(aces, r));
            (adds ==> counted) && (aces != [] ==> adds == counted) && NewAceSize(after) == NewAceSize(r)
  {
  }

  lemma NewSize(r: Request, fdir: bool)
    ensures TotalSize(DeniedOf(r, fdir)) + TotalSize(AllowedOf(r, fdir)) ==
            if r.mode == Deny || (r.mode != Revoke && r.mask != {}) then NewAceSize(r) else 0
  {
    forall a: Ace
      ensures TotalSize([a]) == a.size
    {
      assert [a][..0] == [];
    }
  }

  // The size computed by the first pass is room enough for what the second one adds; for a non-empty
  // old ACL the two differ by just the ACEs counted in vain.
  lemma SizeSuffices(rs: seq<Request>, aces: seq<Ace>, fdir: bool)
    requires AreRequests(rs)
    ensures var filled := TotalSize(Fill(RequestsAfter(rs, OldAcl(aces), fdir), SettledAll(aces, rs), fdir));
            && 8 + filled <= NewAclSize(rs, aces)
            && (aces != [] ==> NewAclSize(rs, aces) == 8 + filled + VainSize(aces, rs))
  {
    var after := RequestsAfter(rs, OldAcl(aces), fdir);
    var settled := SettledAll(aces, rs);
    TotalSizeConcat(NewDenied(after, fdir), Kept(settled, false));
    TotalSizeConcat(NewDenied(after, fdir) + Kept(settled, false), NewAllowed(after, fdir));
    TotalSizeConcat(NewDenied(after, fdir) + Kept(settled, false) + NewAllowed(after, fdir), Kept(settled, true));
    NewAcesFit(rs, aces, fdir);
    KeptFits(rs, aces);
  }

  lemma OtherSize(r: Request, fdir: bool)
    ensures TotalSize(DeniedOf(r, fdir)) + TotalSize(OtherOf(r, fdir)) == NewAceSize(r)
  {
    forall a: Ace
      ensures TotalSize([a]) == a.size
    {
      assert [a][..0] == [];
    }
  }

  // Without an old ACL it is exact.
  lemma SizeIsExactWithoutAcl(rs: seq<Request>, fdir: bool)
    ensures var after := RequestsAfter(rs, NoAcl, fdir);
            NewAclSize(rs, []) == 8 + TotalSize(NewDenied(after, fdir) + NewOthers(after, fdir))
  {
    AllRequestsCount(rs, fdir);
  }

  lemma {:induction false} AllRequestsCount(rs: seq<Request>, fdir: bool)
    ensures var after := RequestsAfter(rs, NoAcl, fdir);
            TotalSize(NewDenied(after, fdir) + NewOthers(after, fdir)) == RequestsSize(rs, [])
  {
    var after := RequestsAfter(rs, NoAcl, fdir);
    TotalSizeConcat(NewDenied(after, fdir), NewOthers(after, fdir));
    if rs != [] {
      var init, x := rs[..|rs| - 1], after[|rs| - 1];
      assert after[..|rs| - 1] == RequestsAfter(init, NoAcl, fdir);
      var d, o := NewDenied(after[..|rs| - 1], fdir), NewOthers(after[..|rs| - 1], fdir);
      hide TotalSize;
      AllRequestsCount(init, fdir);
      TotalSizeConcat(d, o);
      TotalSizeConcat(d, DeniedOf(x, fdir));
      TotalSizeConcat(o, OtherOf(x, fdir));
      OtherSize(x, fdir);
    }
  }

  // ---- Using a wrapper again ----

  // A request as SetAccess leaves it.
  function Fresh(r: Request): Request {
    r.(mask := r.saved, found := {})
  }

  function FreshAll(rs: seq<Request>): (f: seq<Request>)
    ensures |f| == |rs|
  {
    seq(|rs|, j requires 0 <= j < |rs| => Fresh(rs[j]))
  }

  lemma {:induction false} FoundAddsUp(aces: seq<Ace>, r: Request)
    ensures FoundIn(aces, r) == r.found + FoundIn(aces, Fresh(r))
  {
    if aces != [] {
      FoundAddsUp(aces[..|aces| - 1], r);
    }
  }

  lemma NothingIsBeyondEverywhere(s: set<Reach>)
    ensures s + EVERYWHERE == EVERYWHERE
  {
    forall x | x in s
      ensures x in EVERYWHERE
    {
      match x
      case OntoObjects =>
      case OntoContainers =>
      case OntoItself =>
    }
  }

  lemma {:induction false} GrantAllIgnoresHistory(a: Ace, rs: seq<Request>)
    ensures GrantAll(a, FreshAll(rs)) == GrantAll(a, rs)
  {
    if rs != [] {
      assert FreshAll(rs)[..|rs| - 1] == FreshAll(rs[..|rs| - 1]);
      GrantAllIgnoresHistory(a, rs[..|rs| - 1]);
    }
  }

  lemma SettledIgnoresHistory(aces: seq<Ace>, rs: seq<Request>)
    ensures SettledAll(aces, FreshAll(rs)) == SettledAll(aces, rs)
  {
    forall i | 0 <= i < |aces|
      ensures Settled(aces[i], FreshAll(rs)) == Settled(aces[i], rs)
    {
      GrantAllIgnoresHistory(aces[i], rs);
      assert forall j :: 0 <= j < |rs| ==> Covers(FreshAll(rs)[j], aces[i].sid) == Covers(rs[j], aces[i].sid);
    }
  }

  // Requests that differ in what they found only.
  ghost predicate SameButFound(a: seq<Request>, b: seq<Request>) {
    |a| == |b| && forall j :: 0 <= j < |a| ==> a[j] == b[j].(found := a[j].found)
  }

  lemma {:induction false} NewAcesIgnoreFound(a: seq<Request>, b: seq<Request>, fdir: bool)
    requires SameButFound(a, b)
    ensures NewDenied(a, fdir) == NewDenied(b, fdir)
    ensures NewAllowed(a, fdir) == NewAllowed(b, fdir)
    ensures NewOthers(a, fdir) == NewOthers(b, fdir)
  {
    if a != [] {
      NewAcesIgnoreFound(a[..|a| - 1], b[..|b| - 1], fdir);
    }
  }

  // What the ACEs of the account reach.
  ghost function ReachedBy(aces: seq<Ace>, r: Request): set<Reach> {
    set x: Reach | IsReachedBy(aces, r, x)
  }

  predicate IsReachedBy(aces: seq<Ace>, r: Request, x: Reach) {
    exists i :: 0 <= i < |aces| && Reaches(aces[i], r, x)
  }

  predicate Reaches(a: Ace, r: Request, x: Reach) {
    IsMatch(a, r) && x in ReachOf(a.flags)
  }

  lemma {:induction false} FoundIs(aces: seq<Ace>, r: Request)
    ensures FoundIn(aces, r) == r.found + ReachedBy(aces, r)
  {
    if aces != [] {
      var init, a := aces[..|aces| - 1], aces[|aces| - 1];
      FoundIs(init, r);
      forall x: Reach
        ensures x in ReachedBy(aces, r) <==> x in ReachedBy(init, r) || Reaches(a, r, x)
      {
        if x in ReachedBy(init, r) {
          var i :| 0 <= i < |init| && Reaches(init[i], r, x);
          assert Reaches(aces[i], r, x);
        }
        if x in ReachedBy(aces, r) {
          var i :| 0 <= i < |aces| && Reaches(aces[i], r, x);
          assert i < |init| ==> Reaches(init[i], r, x);
        }
      }
    }
  }

  // ---- When there is no new list ----

  // Some ACE of the account and kind does, or an earlier one did.
  ghost predicate ReachesAll(aces: seq<Ace>, r: Request) {
    && (OntoItself in r.found || exists i :: 0 <= i < |aces| && IsMatch(aces[i], r) && OntoItselfBy(aces[i].flags))
    && (OntoContainers in r.found
        || exists i :: 0 <= i < |aces| && IsMatch(aces[i], r) && OntoContainersBy(aces[i].flags))
    && (OntoObjects in r.found
        || exists i :: 0 <= i < |aces| && IsMatch(aces[i], r) && OntoObjectsBy(aces[i].flags))
  }

  predicate OntoItselfBy(f: AceFlags) {
    !f.inheritOnly && !f.noPropagate
  }

  predicate OntoContainersBy(f: AceFlags) {
    f.containerInherit && !f.noPropagate
  }

  predicate OntoObjectsBy(f: AceFlags) {
    f.objectInherit && !f.noPropagate
  }

  // A grant that the old list does not allow: its account has an ACE of another kind than allowing and denying, or,
  // on a directory, ACEs of the kind granted that together do not reach everything.
  ghost predicate IsHopeless(aces: seq<Ace>, r: Request, fdir: bool) {
    && r.mode == Grant
    && ((exists i :: 0 <= i < |aces| && aces[i].sid == r.sid && aces[i].kind.Other?)
        || (fdir && (exists i :: 0 <= i < |aces| && aces[i].sid == r.sid && aces[i].kind == r.kind)
            && !ReachesAll(aces, r)))
  }

  lemma HopelessIs(aces: seq<Ace>, r: Request, fdir: bool)
    ensures IsHopeless(aces, r, fdir) <==> IsStrange(aces, r) || FallsShort(aces, r, fdir)
  {
    hide FoundIn;
    FoundIs(aces, r);
    assert ReachesAll(aces, r) <==> r.found + ReachedBy(aces, r) == EVERYWHERE by {
      ReachesAllIs(aces, r);
    }
    assert IsTakenUp(aces, r) <==>
           r.mode == Grant && exists i :: 0 <= i < |aces| && aces[i].sid == r.sid && aces[i].kind == r.kind by {
      if i :| 0 <= i < |aces| && aces[i].sid == r.sid && aces[i].kind == r.kind {
        assert IsMatch(aces[i], r);
      }
    }
  }

  lemma ReachesAllIs(aces: seq<Ace>, r: Request)
    ensures ReachesAll(aces, r) <==> r.found + ReachedBy(aces, r) == EVERYWHERE
  {
    forall a: Ace
      ensures OntoItselfBy(a.flags) <==> OntoItself in ReachOf(a.flags)
      ensures OntoContainersBy(a.flags) <==> OntoContainers in ReachOf(a.flags)
      ensures OntoObjectsBy(a.flags) <==> OntoObjects in ReachOf(a.flags)
    {}
    OneReach(aces, r, OntoItself);
    OneReach(aces, r, OntoContainers);
    OneReach(aces, r, OntoObjects);
    EverywhereIs(r.found + ReachedBy(aces, r));
  }

  lemma OneReach(aces: seq<Ace>, r: Request, x: Reach)
    ensures x in ReachedBy(aces, r) <==>
            exists i :: 0 <= i < |aces| && IsMatch(aces[i], r) && x in ReachOf(aces[i].flags)
  {
    if i :| 0 <= i < |aces| && IsMatch(aces[i], r) && x in ReachOf(aces[i].flags) {
      assert Reaches(aces[i], r, x);
    }
    if x in ReachedBy(aces, r) {
      var i :| 0 <= i < |aces| && Reaches(aces[i], r, x);
      assert IsMatch(aces[i], r);
    }
  }

  lemma EverywhereIs(s: set<Reach>)
    ensures s == EVERYWHERE <==> OntoItself in s && OntoContainers in s && OntoObjects in s
  {
    forall x | x in s
      ensures x in EVERYWHERE
    {
      match x
      case OntoObjects =>
      case OntoContainers =>
      case OntoItself =>
    }
  }

  // Exactly when a merge fails, and how.
  lemma FailsIff(rs: seq<Request>, prior: OldAcl, fdir: bool)
    ensures var aces := AcesOf(prior);
            var hopeless := exists j :: 0 <= j < |rs| && IsHopeless(aces, rs[j], fdir);
            var tooLarge := NewAclSize(rs, aces) > 65535;
            var disordered := exists i, k :: 0 <= i < k < |aces|
                                && !aces[i].flags.inherited && aces[i].kind == Allowed
                                && !aces[k].flags.inherited && aces[k].kind == Denied;
            && (Build(rs, prior, fdir).InvalidData? <==> hopeless || (!tooLarge && disordered))
            && (Build(rs, prior, fdir).TooLarge? <==> !hopeless && tooLarge)
  {
    hide NewAclSize, IsHopeless, Fill;
    var aces := AcesOf(prior);
    forall j | 0 <= j < |rs|
      ensures IsHopeless(aces, rs[j], fdir) <==> IsStrange(aces, rs[j]) || FallsShort(aces, rs[j], fdir)
    {
      HopelessIs(aces, rs[j], fdir);
    }
    hide IsStrange, FallsShort;
    if i, k :| 0 <= i < k < |aces| && !aces[i].flags.inherited && aces[i].kind == Allowed
                && !aces[k].flags.inherited && aces[k].kind == Denied {
      assert IsExplicit(aces[i], Allowed) && IsExplicit(aces[k], Denied);
    }
  }

  // A directory whose ACEs do not reach everywhere for some grant they take up, where inheritance left over from
  // earlier directories makes up for that; unless the list is out of order, which is found out in any case as long
  // as the new list is not too large to get that far.
  ghost predicate LeftoversHide(rs: seq<Request>, aces: seq<Ace>, fdir: bool) {
    && fdir
    && (forall j :: 0 <= j < |rs| ==> !IsStrange(aces, rs[j]))
    && (forall j :: 0 <= j < |rs| && IsTakenUp(aces, rs[j]) ==> rs[j].found + ReachedBy(aces, rs[j]) == EVERYWHERE)
    && (exists j :: 0 <= j < |rs| && IsTakenUp(aces, rs[j]) && ReachedBy(aces, rs[j]) != EVERYWHERE)
    && (IsDisordered(aces) ==> NewAclSize(rs, aces) > MAX_ACL)
  }

  // A wrapper that has been used on other files gives each file the result a fresh one would, except in that case.
  lemma ReuseIsHarmlessIff(rs: seq<Request>, prior: OldAcl, fdir: bool)
    ensures Build(rs, prior, fdir) == Build(FreshAll(rs), prior, fdir) <==> !LeftoversHide(rs, AcesOf(prior), fdir)
    ensures Build(FreshAll(rs), prior, fdir).Built? ==> Build(rs, prior, fdir) == Build(FreshAll(rs), prior, fdir)
  {
    hide FoundIn, IsStrange, IsTakenUp, IsDisordered, NewAclSize, ReachedBy, NewDenied, NewAllowed, NewOthers, Kept;
    var aces := AcesOf(prior);
    SettledIgnoresHistory(aces, rs);
    AfterIgnoresHistory(rs, prior, fdir);
    NewAcesIgnoreFound(RequestsAfter(rs, prior, fdir), RequestsAfter(FreshAll(rs), prior, fdir), fdir);
    SizeIgnoresHistory(rs, aces);
    UsedFailsIff(rs, aces, fdir);
    FreshFailsIff(rs, aces, fdir);
    NothingInNone();
  }

  lemma NothingInNone()
    ensures forall r :: !IsTakenUp([], r) && FoundIn([], r) == r.found
  {
  }

  lemma AsIfFresh(r: Request, aces: seq<Ace>)
    ensures IsStrange(aces, Fresh(r)) == IsStrange(aces, r) && IsTakenUp(aces, Fresh(r)) == IsTakenUp(aces, r)
    ensures ReachedBy(aces, Fresh(r)) == ReachedBy(aces, r)
  {
    assert forall i :: 0 <= i < |aces| ==> IsMatch(aces[i], Fresh(r)) == IsMatch(aces[i], r);
    assert forall a: Ace, x: Reach :: Reaches(a, Fresh(r), x) == Reaches(a, r, x);
  }

  lemma AfterIgnoresHistory(rs: seq<Request>, prior: OldAcl, fdir: bool)
    ensures SameButFound(RequestsAfter(rs, prior, fdir), RequestsAfter(FreshAll(rs), prior, fdir))
  {
    hide FoundIn, IsTakenUp, ReachedBy, IsStrange;
    forall j | 0 <= j < |rs|
      ensures IsTakenUp(AcesOf(prior), FreshAll(rs)[j]) == IsTakenUp(AcesOf(prior), rs[j])
    {
      AsIfFresh(rs[j], AcesOf(prior));
    }
  }

  lemma {:induction false} SizeIgnoresHistory(rs: seq<Request>, aces: seq<Ace>)
    ensures RequestsSize(FreshAll(rs), aces) == RequestsSize(rs, aces)
    ensures KeptSize(aces, FreshAll(rs)) == KeptSize(aces, rs)
    ensures NewAclSize(FreshAll(rs), aces) == NewAclSize(rs, aces)
  {
    RequestsSizeIgnoresHistory(rs, aces);
    KeptSizeIgnoresHistory(aces, rs);
  }

  lemma {:induction false} RequestsSizeIgnoresHistory(rs: seq<Request>, aces: seq<Ace>)
    ensures RequestsSize(FreshAll(rs), aces) == RequestsSize(rs, aces)
  {
    if rs != [] {
      assert FreshAll(rs)[..|rs| - 1] == FreshAll(rs[..|rs| - 1]);
      RequestsSizeIgnoresHistory(rs[..|rs| - 1], aces);
      AsIfFresh(rs[|rs| - 1], aces);
    }
  }

  lemma {:induction false} KeptSizeIgnoresHistory(aces: seq<Ace>, rs: seq<Request>)
    ensures KeptSize(aces, FreshAll(rs)) == KeptSize(aces, rs)
  {
    if aces != [] {
      KeptSizeIgnoresHistory(aces[..|aces| - 1], rs);
      assert forall sid, j :: 0 <= j < |rs| ==> Covers(FreshAll(rs)[j], sid) == Covers(rs[j], sid);
    }
  }

  // When the first pass of a used, and of a fresh wrapper fails.
  lemma UsedFailsIff(rs: seq<Request>, aces: seq<Ace>, fdir: bool)
    ensures FirstPassFails(rs, aces, fdir) <==>
            || (exists j :: 0 <= j < |rs| && IsStrange(aces, rs[j]))
            || (fdir && exists j :: 0 <= j < |rs| && IsTakenUp(aces, rs[j])
                          && rs[j].found + ReachedBy(aces, rs[j]) != EVERYWHERE)
  {
    hide FoundIn, IsStrange, IsTakenUp, ReachedBy;
    forall j | 0 <= j < |rs|
      ensures FallsShort(aces, rs[j], fdir) <==>
              fdir && IsTakenUp(aces, rs[j]) && rs[j].found + ReachedBy(aces, rs[j]) != EVERYWHERE
    {
      FoundIs(aces, rs[j]);
    }
  }

  lemma FreshFailsIff(rs: seq<Request>, aces: seq<Ace>, fdir: bool)
    ensures FirstPassFails(FreshAll(rs), aces, fdir) <==>
            || (exists j :: 0 <= j < |rs| && IsStrange(aces, rs[j]))
            || (fdir && exists j :: 0 <= j < |rs| && IsTakenUp(aces, rs[j]) && ReachedBy(aces, rs[j]) != EVERYWHERE)
    ensures FirstPassFails(rs, aces, fdir) ==> FirstPassFails(FreshAll(rs), aces, fdir)
  {
    hide FoundIn, IsStrange, IsTakenUp, ReachedBy, FirstPassFails;
    UsedFailsIff(FreshAll(rs), aces, fdir);
    UsedFailsIff(rs, aces, fdir);
    forall j | 0 <= j < |rs|
      ensures FreshAll(rs)[j] == Fresh(rs[j])
      ensures IsStrange(aces, FreshAll(rs)[j]) == IsStrange(aces, rs[j])
      ensures IsTakenUp(aces, FreshAll(rs)[j]) == IsTakenUp(aces, rs[j])
      ensures FreshAll(rs)[j].found + ReachedBy(aces, FreshAll(rs)[j]) == ReachedBy(aces, rs[j])
      ensures ReachedBy(aces, rs[j]) == EVERYWHERE ==> rs[j].found + ReachedBy(aces, rs[j]) == EVERYWHERE
    {
      AsIfFresh(rs[j], aces);
      NothingIsBeyondEverywhere(rs[j].found);
    }
  }

  // ---- A whole run ----

  datatype Target = Target(prior: OldAcl, fdir: bool)

  // One wrapper applied to file after file, up to the first that fails.
  function RunAll(rs: seq<Request>, files: seq<Target>): (outcomes: seq<Outcome>)
    ensures |outcomes| <= |files|
    decreases |files|
  {
    if files == [] then []
    else
      var outcome := Build(rs, files[0].prior, files[0].fdir);
      [outcome] + if outcome.Built? then RunAll(RequestsAfter(rs, files[0].prior, files[0].fdir), files[1..]) else []
  }

  // What a directory adds to the inheritance found for a grant.
  predicate IsFoundOn(t: Target, r: Request, x: Reach) {
    t.fdir && r.mode == Grant && IsReachedBy(AcesOf(t.prior), r, x)
  }

  // What has been found behind these files: what was found before, and on the directories among them.
  ghost function FoundBehind(r: Request, files: seq<Target>): set<Reach> {
    r.found + set x: Reach | IsFoundOnAny(files, r, x)
  }

  predicate IsFoundOnAny(files: seq<Target>, r: Request, x: Reach) {
    exists k :: 0 <= k < |files| && IsFoundOn(files[k], r, x)
  }

  // The requests as the first pass over the next file finds them, once the masks are reloaded.
  ghost function Carried(rs: seq<Request>, files: seq<Target>): (c: seq<Request>)
    ensures |c| == |rs|
  {
    seq(|rs|, j requires 0 <= j < |rs| => rs[j].(mask := rs[j].saved, found := FoundBehind(rs[j], files)))
  }

  // The main result about runs: a file reached gets what a fresh wrapper would give it, unless it is a directory
  // whose own ACEs do not reach everywhere for a grant, and those of the directories before it make up for that.
  lemma {:induction false} RunIsFreshIff(rs: seq<Request>, files: seq<Target>, i: nat)
    requires i < |RunAll(rs, files)|
    ensures RunAll(rs, files)[i] == Build(FreshAll(rs), files[i].prior, files[i].fdir) <==>
            !LeftoversHide(Carried(rs, files[..i]), AcesOf(files[i].prior), files[i].fdir)
    decreases |files|
  {
    hide Build, RequestsAfter, FreshAll, Carried, LeftoversHide;
    if i == 0 {
      ReuseIsHarmlessIff(rs, files[0].prior, files[0].fdir);
      NothingCarried(rs, AcesOf(files[0].prior), files[0].fdir);
      assert files[..0] == [];
    } else {
      var after := RequestsAfter(rs, files[0].prior, files[0].fdir);
      FreshAfterwards(rs, files[0].prior, files[0].fdir);
      RunIsFreshIff(after, files[1..], i - 1);
      CarriedOn(rs, files[0], files[1..][..i - 1]);
      assert [files[0]] + files[1..][..i - 1] == files[..i];
    }
  }

  lemma NothingCarried(rs: seq<Request>, aces: seq<Ace>, fdir: bool)
    ensures LeftoversHide(Carried(rs, []), aces, fdir) == LeftoversHide(rs, aces, fdir)
  {
    hide IsStrange, IsTakenUp, ReachedBy, IsDisordered, NewAclSize;
    forall j | 0 <= j < |rs|
      ensures Carried(rs, [])[j] == rs[j].(mask := rs[j].saved)
      ensures IsStrange(aces, Carried(rs, [])[j]) == IsStrange(aces, rs[j])
      ensures IsTakenUp(aces, Carried(rs, [])[j]) == IsTakenUp(aces, rs[j])
      ensures ReachedBy(aces, Carried(rs, [])[j]) == ReachedBy(aces, rs[j])
    {
      AsIfFresh(rs[j], aces);
      AsIfFresh(Carried(rs, [])[j], aces);
    }
    SizeIgnoresHistory(rs, aces);
    SizeIgnoresHistory(Carried(rs, []), aces);
    assert FreshAll(Carried(rs, [])) == FreshAll(rs);
  }

  // What a file leaves behind is what is carried to the next.
  lemma CarriedOn(rs: seq<Request>, t: Target, files: seq<Target>)
    ensures Carried(RequestsAfter(rs, t.prior, t.fdir), files) == Carried(rs, [t] + files)
  {
    hide FoundIn, IsTakenUp, FoundBehind;
    NothingInNone();
    var after := RequestsAfter(rs, t.prior, t.fdir);
    forall j | 0 <= j < |rs|
      ensures FoundBehind(after[j], files) == FoundBehind(rs[j], [t] + files)
    {
      OneMoreFile(rs[j], after[j], t, files);
    }
  }

  lemma OneMoreFile(r: Request, after: Request, t: Target, files: seq<Target>)
    requires after == r.(mask := after.mask, found := after.found)
    requires after.found == if t.fdir && r.mode == Grant then FoundIn(AcesOf(t.prior), r) else r.found
    ensures FoundBehind(after, files) == FoundBehind(r, [t] + files)
  {
    hide FoundIn, IsFoundOnAny, IsReachedBy;
    FoundIs(AcesOf(t.prior), r);
    forall x: Reach
      ensures x in FoundBehind(after, files) <==> x in FoundBehind(r, [t] + files)
    {
      AnyOfMore(r, after, t, files, x);
    }
  }

  lemma AnyOfMore(r: Request, after: Request, t: Target, files: seq<Target>, x: Reach)
    requires after == r.(mask := after.mask, found := after.found)
    ensures IsFoundOnAny([t] + files, r, x) <==> IsFoundOn(t, r, x) || IsFoundOnAny(files, after, x)
  {
    hide IsFoundOn;
    var all := [t] + files;
    forall k | 0 <= k < |files|
      ensures IsFoundOn(files[k], after, x) == IsFoundOn(all[k + 1], r, x)
    {
      FoundOnAlike(files[k], r, after, x);
    }
    assert all[0] == t;
    if k :| 0 <= k < |all| && IsFoundOn(all[k], r, x) {
      assert k > 0 ==> IsFoundOn(files[k - 1], after, x);
    }
  }

  lemma FoundOnAlike(t: Target, r: Request, after: Request, x: Reach)
    requires after == r.(mask := after.mask, found := after.found)
    ensures IsFoundOn(t, after, x) == IsFoundOn(t, r, x)
  {
    assert forall i :: 0 <= i < |AcesOf(t.prior)| ==>
             Reaches(AcesOf(t.prior)[i], after, x) == Reaches(AcesOf(t.prior)[i], r, x);
  }

  // So every plain file, and every directory that passes the inheritance test on its own, gets what a fresh wrapper
  // would give it.
  lemma RunsAreIndependent(rs: seq<Request>, files: seq<Target>, i: nat)
    requires i < |RunAll(rs, files)|
    requires files[i].fdir ==> Build(FreshAll(rs), files[i].prior, true).Built?
    ensures RunAll(rs, files)[i] == Build(FreshAll(rs), files[i].prior, files[i].fdir)
  {
    hide RunAll, IsStrange, IsTakenUp, ReachedBy, FoundBehind, Build;
    RunIsFreshIff(rs, files, i);
    var c := Carried(rs, files[..i]);
    ReuseIsHarmlessIff(c, files[i].prior, files[i].fdir);
    assert FreshAll(c) == FreshAll(rs);
  }

  lemma FreshAfterwards(rs: seq<Request>, prior: OldAcl, fdir: bool)
    ensures FreshAll(RequestsAfter(rs, prior, fdir)) == FreshAll(rs)
  {
    hide FoundIn, IsTakenUp;
  }

  // A directory that does not pass on its own can pass behind one that does: ReInit keeps what was found.
  lemma LeftoversCanHide(sid: Sid, aces: seq<Ace>, bare: seq<Ace>)
    requires |sid| <= 68 // SECURITY_MAX_SID_SIZE
    requires aces == [Ace(Allowed, AceFlags(true, true, false, false, false), {0}, sid, 8 + |sid|)]
    requires bare == [Ace(Allowed, AceFlags(false, false, false, false, false), {0}, sid, 8 + |sid|)]
    ensures var rs := [Request(sid, Grant, Allowed, {1}, {1}, {})];
            var outcomes := RunAll(rs, [Target(OldAcl(aces), true), Target(OldAcl(bare), true)]);
            |outcomes| == 2 && outcomes[1].Built? && Build(rs, OldAcl(bare), true) == InvalidData
  {
    var r := Request(sid, Grant, Allowed, {1}, {1}, {});
    assert FoundIn(aces, r) == EVERYWHERE by { assert aces[..0] == []; }
    assert FoundIn(bare, r) == {OntoItself} by { assert bare[..0] == []; }
    assert OntoObjects !in FoundIn(bare, r);
    assert IsMatch(aces[0], r) && IsMatch(bare[0], r);
    SmallSize(r, aces[0]);
    SmallSize(r, bare[0]);
    var after := RequestsAfter([r], OldAcl(aces), true);
    assert after[0].found == EVERYWHERE && after == [after[0]];
    SmallSize(after[0], bare[0]);
    FoundAddsUp(bare, after[0]);
    NothingIsBeyondEverywhere(FoundIn(bare, Fresh(after[0])));
    assert FallsShort(bare, r, true) && [r][0] == r;
    assert !FirstPassFails(after, bare, true);
    assert [Target(OldAcl(aces), true), Target(OldAcl(bare), true)][1..] == [Target(OldAcl(bare), true)];
    assert RunAll(after, [Target(OldAcl(bare), true)])[0] == Build(after, OldAcl(bare), true);
  }

  lemma SmallSize(r: Request, a: Ace)
    requires |r.sid| <= 68 && a.size <= 76
    ensures NewAclSize([r], [a]) <= 8 + 2 * 76
  {
    assert [r][..0] == [] && [a][..0] == [];
    assert RequestsSize([], [a]) == 0 && KeptSize([], [r]) == 0;
  }
}

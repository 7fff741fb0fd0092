// What merging access requests into an ACL comes to (cacls/daclwrap.cxx), ACE by
// ACE and request by request, and what the result means to the access check.

module AclMergeSpec {
  import opened AccessControl

  datatype Mode = Replace | Revoke | Deny | Grant

  // Where the rights of the matching ACEs of a directory reach.
  datatype Reach = OntoObjects | OntoContainers | OntoItself
  const EVERYWHERE: set<Reach> := {OntoObjects, OntoContainers, OntoItself}

  // A cached request: CAccountAccess and its option.
  datatype Request = Request(sid: Sid, mode: Mode, kind: AceType, saved: Mask, mask: Mask, found: set<Reach>)

  // What SetAccess admits: at least one right, SIDs pairwise distinct.
  ghost predicate AreRequests(rs: seq<Request>) {
    && (forall j :: 0 <= j < |rs| ==> rs[j].saved != {} && (rs[j].kind == Allowed || rs[j].kind == Denied))
    && (forall i, j :: 0 <= i < j < |rs| ==> rs[i].sid != rs[j].sid)
  }

  // ---- The first pass: old ACEs ----

  function GrantTo(a: Ace, r: Request): Ace {
    if r.mode != Grant || a.sid != r.sid then a
    else match a.kind
      case Allowed => a.(mask := a.mask + r.saved)
      case Denied => a.(mask := a.mask - r.saved)
      case Other(_) => a
  }

  function GrantAll(a: Ace, rs: seq<Request>): (g: Ace)
    ensures g == a.(mask := g.mask)
  {
    if rs == [] then a else GrantTo(GrantAll(a, rs[..|rs| - 1]), rs[|rs| - 1])
  }

  predicate Covers(r: Request, sid: Sid) {
    r.mode != Grant && r.sid == sid
  }

  predicate IsCovered(rs: seq<Request>, sid: Sid) {
    exists j :: 0 <= j < |rs| && Covers(rs[j], sid)
  }

  // An old ACE after the first pass.
  function Settled(a: Ace, rs: seq<Request>): (s: Ace)
    ensures s == a.(mask := s.mask)
  {
    if IsCovered(rs, a.sid) then a.(mask := {}) else GrantAll(a, rs)
  }

  function SettledAll(prior: seq<Ace>, rs: seq<Request>): (s: seq<Ace>)
    ensures |s| == |prior|
    ensures forall i :: 0 <= i < |prior| ==> s[i] == Settled(prior[i], rs)
  {
    seq(|prior|, i requires 0 <= i < |prior| => Settled(prior[i], rs))
  }

  // ---- The first pass: requests ----

  predicate IsMatch(a: Ace, r: Request) {
    a.sid == r.sid && a.kind == r.kind
  }

  // A grant that some old ACE takes up.
  predicate IsTakenUp(prior: seq<Ace>, r: Request) {
    r.mode == Grant && exists i :: 0 <= i < |prior| && IsMatch(prior[i], r)
  }

  // CAccountAccess::AddInheritance.
  function ReachOf(f: AceFlags): set<Reach> {
    if f.noPropagate then {}
    else (if f.inheritOnly then {} else {OntoItself})
         + (if f.containerInherit then {OntoContainers} else {})
         + (if f.objectInherit then {OntoObjects} else {})
  }

  function FoundIn(prior: seq<Ace>, r: Request): set<Reach> {
    if prior == [] then r.found
    else FoundIn(prior[..|prior| - 1], r)
         + if IsMatch(prior[|prior| - 1], r) then ReachOf(prior[|prior| - 1].flags) else {}
  }

  // The two ways a grant makes the pass give up: an ACE of the account that neither allows nor denies,
  // or, on a directory, matching ACEs that do not reach everywhere.
  predicate IsStrange(prior: seq<Ace>, r: Request) {
    r.mode == Grant && exists i :: 0 <= i < |prior| && prior[i].sid == r.sid && prior[i].kind.Other?
  }

  predicate FallsShort(prior: seq<Ace>, r: Request, fdir: bool) {
    fdir && IsTakenUp(prior, r) && FoundIn(prior, r) != EVERYWHERE
  }

  predicate FirstPassFails(rs: seq<Request>, prior: seq<Ace>, fdir: bool) {
    exists j :: 0 <= j < |rs| && (IsStrange(prior, rs[j]) || FallsShort(prior, rs[j], fdir))
  }

  // A request after the first pass over a non-empty ACL.
  function AfterPass(r: Request, prior: seq<Ace>, fdir: bool): Request {
    r.(mask := if IsTakenUp(prior, r) then {} else r.saved,
       found := if fdir && r.mode == Grant then FoundIn(prior, r) else r.found)
  }

  const ACL_HEADER := 8

  function NewAceSize(r: Request): nat {
    8 + |r.sid|
  }

  function RequestsSize(rs: seq<Request>, prior: seq<Ace>): nat {
    if rs == [] then 0
    else var r := rs[|rs| - 1];
      RequestsSize(rs[..|rs| - 1], prior)
      + if prior != [] && (r.mode == Revoke || IsTakenUp(prior, r)) then 0 else NewAceSize(r)
  }

  function KeptSize(prior: seq<Ace>, rs: seq<Request>): nat {
    if prior == [] then 0
    else KeptSize(prior[..|prior| - 1], rs)
         + if IsCovered(rs, prior[|prior| - 1].sid) then 0 else prior[|prior| - 1].size
  }

  // _GetNewAclSize; a missing ACL counts as an empty one.
  function NewAclSize(rs: seq<Request>, prior: seq<Ace>): nat {
    ACL_HEADER + RequestsSize(rs, prior) + KeptSize(prior, rs)
  }

  // ---- The second pass ----

  function NewAce(kind: AceType, mask: Mask, r: Request, fdir: bool): Ace {
    Ace(kind, AceFlags(fdir, fdir, false, false, false), mask, r.sid, NewAceSize(r))
  }

  // What a request adds to the denied ACEs that come first.
  function DeniedOf(r: Request, fdir: bool): seq<Ace> {
    if r.mode == Deny then [NewAce(Denied, r.mask, r, fdir)] else []
  }

  function NewDenied(rs: seq<Request>, fdir: bool): seq<Ace> {
    if rs == [] then [] else NewDenied(rs[..|rs| - 1], fdir) + DeniedOf(rs[|rs| - 1], fdir)
  }

  // What it adds to the allowed ACEs that follow what is left of the old explicit ones.
  function AllowedOf(r: Request, fdir: bool): seq<Ace> {
    if r.mode != Deny && r.mode != Revoke && r.mask != {} then [NewAce(Allowed, r.mask, r, fdir)] else []
  }

  function NewAllowed(rs: seq<Request>, fdir: bool): seq<Ace> {
    if rs == [] then [] else NewAllowed(rs[..|rs| - 1], fdir) + AllowedOf(rs[|rs| - 1], fdir)
  }

  // What it adds when there is no old ACL: an allowed ACE for whatever is not a denial.
  function OtherOf(r: Request, fdir: bool): seq<Ace> {
    if r.mode != Deny then [NewAce(Allowed, r.mask, r, fdir)] else []
  }

  function NewOthers(rs: seq<Request>, fdir: bool): seq<Ace> {
    if rs == [] then [] else NewOthers(rs[..|rs| - 1], fdir) + OtherOf(rs[|rs| - 1], fdir)
  }

  // The ACEs that still say something, explicit or inherited.
  function KeptOf(a: Ace, inherited: bool): seq<Ace> {
    if a.flags.inherited == inherited && a.mask != {} then [a] else []
  }

  function Kept(aces: seq<Ace>, inherited: bool): seq<Ace> {
    if aces == [] then [] else Kept(aces[..|aces| - 1], inherited) + KeptOf(aces[|aces| - 1], inherited)
  }

  predicate IsDisordered(aces: seq<Ace>) {
    exists i, k :: 0 <= i < k < |aces| && IsExplicit(aces[i], Allowed) && IsExplicit(aces[k], Denied)
  }

  predicate IsExplicit(a: Ace, kind: AceType) {
    !a.flags.inherited && a.kind == kind
  }

  // ---- The whole merge ----

  datatype OldAcl = NoAcl | OldAcl(aces: seq<Ace>)
  datatype Outcome = InvalidData | TooLarge | Built(aces: seq<Ace>)

  const MAX_ACL := 0xFFFF // what InitializeAcl takes

  function AcesOf(prior: OldAcl): seq<Ace> {
    if prior.NoAcl? then [] else prior.aces
  }

  // The requests as the second pass finds them.
  function RequestsAfter(rs: seq<Request>, prior: OldAcl, fdir: bool): (after: seq<Request>)
    ensures |after| == |rs|
  {
    seq(|rs|, j requires 0 <= j < |rs| =>
      if AcesOf(prior) == [] then rs[j].(mask := rs[j].saved) else AfterPass(rs[j], AcesOf(prior), fdir))
  }

  function Fill(rs: seq<Request>, settled: seq<Ace>, fdir: bool): seq<Ace> {
    NewDenied(rs, fdir) + Kept(settled, false) + NewAllowed(rs, fdir) + Kept(settled, true)
  }

  // BuildAcl.
  function Build(rs: seq<Request>, prior: OldAcl, fdir: bool): Outcome {
    var after := RequestsAfter(rs, prior, fdir);
    if FirstPassFails(rs, AcesOf(prior), fdir) then InvalidData
    else if NewAclSize(rs, AcesOf(prior)) > MAX_ACL then TooLarge
    else if prior.NoAcl? then Built(NewDenied(after, fdir) + NewOthers(after, fdir))
    else if IsDisordered(prior.aces) then InvalidData
    else Built(Fill(after, SettledAll(prior.aces, rs), fdir))
  }
}

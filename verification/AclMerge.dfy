// cacls/accacc.cxx and cacls/daclwrap.cxx: the cached access requests and the two
// passes that merge them into an ACL. The first pass rewrites the masks of the old
// ACL in place and computes a size; the second fills the new ACL.

module AclMerge {
  import opened AccessControl
  import opened AclMergeSpec
  import AclMergeLaws
  import opened Wrappers

  datatype Status =
    Success | BufferOverflow | BadArguments | InvalidName | InvalidDataError | InvalidParameter | AllottedSpaceExceeded

  const CMAXACES := 64

  class AccountAccess {
    const sid: Sid
    var mask: Mask
    var savemask: Mask
    var acetype: AceType
    var foundinheritance: set<Reach>

    constructor (sid: Sid)
      ensures this.sid == sid && mask == {} && savemask == {} && acetype == Other(0xff) && foundinheritance == {}
    {
      this.sid := sid;
      mask, savemask, acetype, foundinheritance := {}, {}, Other(0xff), {};
    }

    ghost function Value(mode: Mode): Request
      reads this
    {
      Request(sid, mode, acetype, savemask, mask, foundinheritance)
    }

    method Init(access: Mask)
      modifies this
      ensures mask == savemask == (if access == {} then GENERIC_ALL else access)
      ensures acetype == if access == {} then Denied else Allowed
      ensures foundinheritance == old(foundinheritance)
    {
      if access == {} {
        savemask := GENERIC_ALL;
        mask := GENERIC_ALL;
        acetype := Denied;
      } else {
        acetype := Allowed;
        savemask := access;
        mask := access;
      }
    }

    // Leaves what inheritance was found.
    method ReInit()
      modifies this`mask
      ensures mask == savemask
    {
      mask := savemask;
    }

    method AddInheritance(flags: AceFlags)
      modifies this`foundinheritance
      ensures foundinheritance == old(foundinheritance) + ReachOf(flags)
    {
      if !flags.noPropagate {
        if flags.inheritOnly {
          if flags.containerInherit {
            foundinheritance := foundinheritance + {OntoContainers};
          }
          if flags.objectInherit {
            foundinheritance := foundinheritance + {OntoObjects};
          }
        } else {
          foundinheritance := foundinheritance + {OntoItself};
          if flags.containerInherit {
            foundinheritance := foundinheritance + {OntoContainers};
          }
          if flags.objectInherit {
            foundinheritance := foundinheritance + {OntoObjects};
          }
        }
      }
    }

    predicate TestInheritance()
      reads this
    {
      foundinheritance == EVERYWHERE
    }

    method ClearAccessMask()
      modifies this`mask
      ensures mask == {}
    {
      mask := {};
    }
  }

  // An ACL: its allotted size and the ACEs in it.
  class Acl {
    var size: nat
    var aces: seq<Ace>

    constructor (size: nat)
      ensures this.size == size && aces == []
    {
      this.size := size;
      aces := [];
    }

    // AddAce at the end of the list.
    method AddAce(a: Ace) returns (ok: bool)
      modifies this`aces
      ensures ok <==> ACL_HEADER + TotalSize(old(aces)) + a.size <= size
      ensures aces == if ok then old(aces) + [a] else old(aces)
    {
      ok := ACL_HEADER + TotalSize(aces) + a.size <= size;
      if ok {
        aces := aces + [a];
      }
    }
  }

  datatype Slot = Slot(pcaa: AccountAccess, mode: Mode)

  // What SetAccess caches for a request.
  function NewRequest(mode: Mode, sid: Sid, access: Mask): (r: Request)
    ensures r.sid == sid && r.found == {} && r.saved == r.mask == if access == {} then {28} else access
    ensures r.mode == (if mode == Replace && access == {} then Deny else mode)
    ensures r.kind == if access == {} then Denied else Allowed
  {
    var mask := if access == {} then GENERIC_ALL else access;
    Request(sid, if access == {} && mode == Replace then Deny else mode, if access == {} then Denied else Allowed,
            mask, mask, {})
  }

  class DaclWrap {
    var aaa: seq<Slot>

    ghost function Accounts(): set<AccountAccess>
      reads this
    {
      set i | 0 <= i < |aaa| :: aaa[i].pcaa
    }

    ghost function Requests(): (rs: seq<Request>)
      reads this, Accounts()
      ensures |rs| == |aaa|
    {
      seq(|aaa|, i requires 0 <= i < |aaa| reads this, Accounts() => aaa[i].pcaa.Value(aaa[i].mode))
    }

    ghost predicate Valid()
      reads this, Accounts()
    {
      && |aaa| <= CMAXACES
      && (forall i, j :: 0 <= i < j < |aaa| ==> aaa[i].pcaa != aaa[j].pcaa)
      && AreRequests(Requests())
    }

    constructor ()
      ensures Valid() && Requests() == []
    {
      aaa := [];
    }

    // The account name has been looked up already; a name without an account is refused.
    method SetAccess(mode: Mode, name: seq<Sid>, access: Mask) returns (ret: Status)
      requires Valid() && |name| <= 1
      modifies this
      ensures Valid()
      ensures ret == if old(|aaa|) >= CMAXACES then BufferOverflow
                     else if name == [] then InvalidName
                     else if exists j :: 0 <= j < old(|aaa|) && old(Requests())[j].sid == name[0] then BadArguments
                     else Success
      ensures Requests() == if ret == Success then old(Requests()) + [NewRequest(mode, name[0], access)]
                            else old(Requests())
    {
      if |aaa| >= CMAXACES {
        return BufferOverflow;
      }
      if name == [] {
        return InvalidName;
      }
      var pcaa := new AccountAccess(name[0]);
      var option := if access == {} && mode == Replace then Deny else mode;
      pcaa.Init(access);
      assert Requests() == old(Requests());
      var check := 0;
      while check < |aaa|
        invariant check <= |aaa|
        invariant Requests() == old(Requests())
        invariant forall j :: 0 <= j < check ==> Requests()[j].sid != name[0]
      {
        if pcaa.sid == aaa[check].pcaa.sid {
          assert Requests()[check].sid == name[0];
          return BadArguments;
        }
        check := check + 1;
      }
      aaa := aaa + [Slot(pcaa, option)];
      assert Requests() == old(Requests()) + [NewRequest(mode, name[0], access)];
      return Success;
    }

    // ---- The first pass ----

    method ReInitAll()
      requires Valid()
      modifies Accounts()
      ensures Valid() && Requests() == ReadyAll(old(Requests()))
    {
      ghost var rs := Requests();
      var j := 0;
      while j < |aaa|
        invariant j <= |aaa|
        invariant forall k :: 0 <= k < j ==> Requests()[k] == Ready(rs[k])
        invariant forall k :: j <= k < |aaa| ==> Requests()[k] == rs[k]
      {
        aaa[j].pcaa.ReInit();
        j := j + 1;
      }
      assert Requests() == ReadyAll(rs);
      ReadyChangesNothing(rs, [], false);
    }

    // One grant against all old ACEs.
    method MergeGrant(j: nat, poldacl: Acl, fdir: bool) returns (ret: Status, ffound: bool)
      requires Valid() && j < |aaa| && aaa[j].mode == Grant
      requires aaa[j].pcaa.mask == aaa[j].pcaa.savemask
      modifies poldacl`aces, aaa[j].pcaa`foundinheritance
      ensures ret == if IsStrange(old(poldacl.aces), old(Requests())[j]) then InvalidDataError else Success
      ensures ret == Success ==>
                && poldacl.aces == GrantEach(old(poldacl.aces), old(Requests())[j])
                && ffound == IsTakenUp(old(poldacl.aces), old(Requests())[j])
                && aaa[j].pcaa.foundinheritance ==
                   (if fdir then FoundIn(old(poldacl.aces), old(Requests())[j]) else old(aaa[j].pcaa.foundinheritance))
    {
      hide FoundIn, ReachOf, GrantEach, IsStrange, IsTakenUp;
      ghost var prior, r := poldacl.aces, Requests()[j];
      var pcaa := aaa[j].pcaa;
      ffound := false;
      var cace := 0;
      NothingGrantedYet(prior, r);
      while cace < |poldacl.aces|
        invariant cace <= |poldacl.aces| == |prior|
        invariant poldacl.aces == GrantEach(prior[..cace], r) + prior[cace..]
        invariant ffound == IsTakenUp(prior[..cace], r)
        invariant pcaa.foundinheritance == if fdir then FoundIn(prior[..cace], r) else r.found
        invariant !IsStrange(prior[..cace], r)
      {
        var pah := poldacl.aces[cace];
        GrantEachStep(prior, r, cace);
        if pcaa.sid == pah.sid {
          if fdir && pah.kind == pcaa.acetype {
            pcaa.AddInheritance(pah.flags);
            ffound := true;
          } else if pah.kind == pcaa.acetype {
            ffound := true;
          }
          if pah.kind == Allowed {
            poldacl.aces := poldacl.aces[cace := pah.(mask := pah.mask + pcaa.mask)];
          } else if pah.kind == Denied {
            poldacl.aces := poldacl.aces[cace := pah.(mask := pah.mask - pcaa.mask)];
          } else {
            return InvalidDataError, ffound;
          }
        }
        cace := cace + 1;
      }
      assert prior[..cace] == prior && prior[cace..] == [];
      assert GrantEach(prior, r) + [] == GrantEach(prior, r);
      return Success, ffound;
    }

    // One request against all old ACEs, and what it adds to the size.
    method MergeRequest(j: nat, poldacl: Acl, fdir: bool) returns (ret: Status, added: nat)
      requires Valid() && j < |aaa| && aaa[j].pcaa.mask == aaa[j].pcaa.savemask
      modifies poldacl`aces, aaa[j].pcaa
      ensures ret == if IsStrange(old(poldacl.aces), old(Requests())[j])
                        || FallsShort(old(poldacl.aces), old(Requests())[j], fdir)
                     then InvalidDataError else Success
      ensures ret == Success ==>
                && poldacl.aces == GrantEach(old(poldacl.aces), old(Requests())[j])
                && Requests() == old(Requests())[j := AfterPass(old(Requests())[j], old(poldacl.aces), fdir)]
                && added == if aaa[j].mode == Revoke || IsTakenUp(old(poldacl.aces), old(Requests())[j])
                            then 0 else NewAceSize(old(Requests())[j])
    {
      ghost var prior, rs := poldacl.aces, Requests();
      added := 0;
      if aaa[j].mode == Grant {
        var ffound;
        ret, ffound := MergeGrant(j, poldacl, fdir);
        if ret != Success {
          return;
        }
        if !ffound {
          added := 8 + |aaa[j].pcaa.sid|;
        } else {
          if fdir && !aaa[j].pcaa.TestInheritance() {
            return InvalidDataError, added;
          }
          aaa[j].pcaa.ClearAccessMask();
        }
      } else if aaa[j].mode == Replace || aaa[j].mode == Deny {
        added := 8 + |aaa[j].pcaa.sid|;
      }
      assert Requests() == rs[j := AfterPass(rs[j], prior, fdir)];
      assert poldacl.aces == GrantEach(prior, rs[j]);
      return Success, added;
    }

    // All requests, and the size of the new ACEs.
    method MergeRequests(poldacl: Acl, fdir: bool) returns (ret: Status, caclsize: nat)
      requires Valid() && poldacl.aces != []
      requires forall k :: 0 <= k < |aaa| ==> Requests()[k].mask == Requests()[k].saved
      modifies Accounts(), poldacl`aces
      ensures ret == if FirstPassFails(old(Requests()), old(poldacl.aces), fdir) then InvalidDataError else Success
      ensures ret == Success ==>
                && Requests() == Passed(old(Requests()), old(poldacl.aces), fdir, |aaa|)
                && poldacl.aces == GrantAllEach(old(poldacl.aces), old(Requests()))
                && caclsize == ACL_HEADER + RequestsSize(old(Requests()), old(poldacl.aces))
    {
      hide GrantAllEach, GrantEach, RequestsSize, FoundIn, AfterPass, IsStrange, IsTakenUp;
      ghost var prior, rs := poldacl.aces, Requests();
      caclsize := ACL_HEADER;
      var j := 0;
      NothingPassedYet(rs, prior, fdir);
      while j < |aaa|
        invariant j <= |aaa| == |rs| && Valid()
        invariant Requests() == Passed(rs, prior, fdir, j)
        invariant poldacl.aces == GrantAllEach(prior, rs[..j])
        invariant caclsize == ACL_HEADER + RequestsSize(rs[..j], prior)
        invariant forall k :: 0 <= k < j ==> !IsStrange(prior, rs[k]) && !FallsShort(prior, rs[k], fdir)
      {
        PassStep(rs, prior, fdir, j);
        assert Requests()[j] == rs[j];
        var added;
        ret, added := MergeRequest(j, poldacl, fdir);
        if ret != Success {
          return;
        }
        caclsize := caclsize + added;
        j := j + 1;
      }
      assert rs[..j] == rs;
      return Success, caclsize;
    }

    // Whether a request takes the place of the old ACEs of an account.
    method IsOverruled(sid: Sid) returns (ffound: bool)
      requires Valid()
      ensures ffound == IsCovered(Requests(), sid)
    {
      ghost var rs := Requests();
      ffound := false;
      var j := 0;
      while j < |aaa|
        invariant j <= |aaa|
        invariant ffound <==> exists k :: 0 <= k < j && Covers(rs[k], sid)
      {
        if aaa[j].mode == Deny || aaa[j].mode == Replace || aaa[j].mode == Revoke {
          if aaa[j].pcaa.sid == sid {
            assert Covers(rs[j], sid);
            ffound := true;
          }
        }
        j := j + 1;
      }
    }

    // The other requests silence the old ACEs of their accounts; the rest is counted.
    method SilenceCovered(poldacl: Acl, caclsize0: nat) returns (caclsize: nat)
      requires Valid()
      modifies poldacl`aces
      ensures poldacl.aces == Silenced(old(poldacl.aces), Requests())
      ensures caclsize == caclsize0 + KeptSize(old(poldacl.aces), Requests())
    {
      ghost var prior, rs := poldacl.aces, Requests();
      caclsize := caclsize0;
      var cace := 0;
      while cace < |poldacl.aces|
        invariant cace <= |poldacl.aces| == |prior|
        invariant forall i :: 0 <= i < cace ==> poldacl.aces[i] == Silenced(prior, rs)[i]
        invariant forall i :: cace <= i < |prior| ==> poldacl.aces[i] == prior[i]
        invariant caclsize == caclsize0 + KeptSize(prior[..cace], rs)
        invariant Requests() == rs
      {
        var pah := poldacl.aces[cace];
        var ffound := IsOverruled(pah.sid);
        assert Requests() == rs;
        assert ffound == IsCovered(rs, pah.sid);
        assert prior[..cace + 1][..cace] == prior[..cace];
        if !ffound {
          caclsize := caclsize + pah.size;
        } else {
          poldacl.aces := poldacl.aces[cace := pah.(mask := {})];
        }
        cace := cace + 1;
      }
      assert prior[..cace] == prior;
    }

    // Old ACEs to merge with.
    method SizeOfMerge(poldacl: Acl, fdir: bool, ghost rs: seq<Request>) returns (ret: Status, caclsize: nat)
      requires Valid() && poldacl.aces != [] && AreRequests(rs) && Requests() == ReadyAll(rs)
      modifies Accounts(), poldacl`aces
      ensures ret == if FirstPassFails(rs, old(poldacl.aces), fdir) then InvalidDataError else Success
      ensures ret == Success ==>
                && Valid() && Requests() == RequestsAfter(rs, OldAcl(old(poldacl.aces)), fdir)
                && caclsize == NewAclSize(rs, old(poldacl.aces))
                && poldacl.aces == SettledAll(old(poldacl.aces), rs)
    {
      hide GrantAll, RequestsSize, KeptSize, FoundIn, SettledAll, FirstPassFails;
      ghost var prior := poldacl.aces;
      ReadyChangesNothing(rs, prior, fdir);
      ret, caclsize := MergeRequests(poldacl, fdir);
      if ret == Success {
        FirstPassResult(rs, poldacl.aces, prior, fdir);
        AclMergeLaws.AfterKeepsRequests(rs, OldAcl(prior), fdir);
        caclsize := SilenceCovered(poldacl, caclsize);
      }
    }

    ghost function PriorAcl(poldacl: Acl?): OldAcl
      reads poldacl
    {
      if poldacl == null then NoAcl else OldAcl(poldacl.aces)
    }

    // _GetNewAclSize.
    method GetNewAclSize(poldacl: Acl?, fdir: bool) returns (ret: Status, caclsize: nat)
      requires Valid()
      modifies Accounts(), poldacl
      ensures ret == if FirstPassFails(old(Requests()), AcesOf(old(PriorAcl(poldacl))), fdir)
                     then InvalidDataError else Success
      ensures ret == Success ==>
                && Valid()
                && Requests() == RequestsAfter(old(Requests()), old(PriorAcl(poldacl)), fdir)
                && caclsize == NewAclSize(old(Requests()), AcesOf(old(PriorAcl(poldacl))))
                && (poldacl != null ==> poldacl.aces == SettledAll(old(poldacl.aces), old(Requests())))
    {
      ghost var rs, prior := Requests(), PriorAcl(poldacl);
      hide RequestsSize, NewAclSize, SettledAll, FirstPassFails, RequestsAfter, ReadyAll;
      ReInitAll();
      if poldacl != null && |poldacl.aces| != 0 {
        ret, caclsize := SizeOfMerge(poldacl, fdir, rs);
      } else {
        NothingToMerge(rs, prior, fdir);
        caclsize := SizeOfRequests();
        ret := Success;
      }
    }

    // No old ACEs: just add up the sizes of the new ones.
    method SizeOfRequests() returns (caclsize: nat)
      requires Valid()
      ensures caclsize == ACL_HEADER + RequestsSize(Requests(), [])
    {
      ghost var rs := Requests();
      caclsize := ACL_HEADER;
      var j := 0;
      while j < |aaa|
        invariant j <= |aaa|
        invariant caclsize == ACL_HEADER + RequestsSize(rs[..j], [])
      {
        assert rs[..j + 1][..j] == rs[..j];
        caclsize := caclsize + 8 + |aaa[j].pcaa.sid|;
        j := j + 1;
      }
      assert rs[..j] == rs;
    }

    // ---- The second pass ----

    // Writing to an ACL leaves the cached requests alone.
    twostate lemma CacheUnchanged()
      requires unchanged(this) && forall i :: 0 <= i < |aaa| ==> old(allocated(aaa[i].pcaa)) && unchanged(aaa[i].pcaa)
      ensures Requests() == old(Requests())
    {
    }

    static method SetAllowedAce(dacl: Acl, mask: Mask, psid: Sid, fdir: bool) returns (ret: Status)
      modifies dacl`aces
      ensures var a := Ace(Allowed, AceFlags(fdir, fdir, false, false, false), mask, psid, 8 + |psid|);
              var fits := ACL_HEADER + TotalSize(old(dacl.aces)) + a.size <= dacl.size;
              && ret == (if fits then Success else AllottedSpaceExceeded)
              && dacl.aces == if fits then old(dacl.aces) + [a] else old(dacl.aces)
    {
      var paaa := Ace(Allowed, AceFlags(fdir, fdir, false, false, false), mask, psid, 8 + |psid|);
      var ok := dacl.AddAce(paaa);
      return if ok then Success else AllottedSpaceExceeded;
    }

    static method SetDeniedAce(dacl: Acl, mask: Mask, psid: Sid, fdir: bool) returns (ret: Status)
      modifies dacl`aces
      ensures var a := Ace(Denied, AceFlags(fdir, fdir, false, false, false), mask, psid, 8 + |psid|);
              var fits := ACL_HEADER + TotalSize(old(dacl.aces)) + a.size <= dacl.size;
              && ret == (if fits then Success else AllottedSpaceExceeded)
              && dacl.aces == if fits then old(dacl.aces) + [a] else old(dacl.aces)
    {
      var paaa := Ace(Denied, AceFlags(fdir, fdir, false, false, false), mask, psid, 8 + |psid|);
      var ok := dacl.AddAce(paaa);
      return if ok then Success else AllottedSpaceExceeded;
    }

    // The new denied ACEs.
    method AddDeniedOne(pnewdacl: Acl, j: nat, fdir: bool) returns (ret: Status)
      requires j < |aaa|
      requires DeniedOf(Requests()[j], fdir) != [] ==>
                 ACL_HEADER + TotalSize(pnewdacl.aces) + NewAceSize(Requests()[j]) <= pnewdacl.size
      modifies pnewdacl`aces
      ensures ret == Success && pnewdacl.aces == old(pnewdacl.aces) + DeniedOf(old(Requests())[j], fdir)
    {
      if aaa[j].mode == Deny {
        ret := SetDeniedAce(pnewdacl, aaa[j].pcaa.mask, aaa[j].pcaa.sid, fdir);
        return;
      }
      return Success;
    }

    method AddDenied(pnewdacl: Acl, fdir: bool) returns (ret: Status)
      requires ACL_HEADER + TotalSize(pnewdacl.aces + NewDenied(Requests(), fdir)) <= pnewdacl.size
      modifies pnewdacl`aces
      ensures ret == Success && pnewdacl.aces == old(pnewdacl.aces) + NewDenied(old(Requests()), fdir)
    {
      hide NewDenied, TotalSize;
      ghost var start, rs := pnewdacl.aces, Requests();
      var j := 0;
      NothingAddedYet(start, rs, fdir);
      while j < |aaa|
        invariant j <= |aaa|
        invariant pnewdacl.aces == start + NewDenied(rs[..j], fdir)
      {
        CacheUnchanged();
        NewDeniedStep(start, rs, j, fdir);
        ret := AddDeniedOne(pnewdacl, j, fdir);
        if ret != Success {
          return;
        }
        j := j + 1;
      }
      assert rs[..j] == rs;
      return Success;
    }

    // The new allowed ACEs, next to old ones.
    method AddAllowedOne(pnewdacl: Acl, j: nat, fdir: bool) returns (ret: Status)
      requires j < |aaa|
      requires AllowedOf(Requests()[j], fdir) != [] ==>
                 ACL_HEADER + TotalSize(pnewdacl.aces) + NewAceSize(Requests()[j]) <= pnewdacl.size
      modifies pnewdacl`aces
      ensures ret == Success && pnewdacl.aces == old(pnewdacl.aces) + AllowedOf(old(Requests())[j], fdir)
    {
      if aaa[j].mode != Deny && aaa[j].mode != Revoke && aaa[j].pcaa.mask != {} {
        ret := SetAllowedAce(pnewdacl, aaa[j].pcaa.mask, aaa[j].pcaa.sid, fdir);
        return;
      }
      return Success;
    }

    method AddAllowed(pnewdacl: Acl, fdir: bool) returns (ret: Status)
      requires ACL_HEADER + TotalSize(pnewdacl.aces + NewAllowed(Requests(), fdir)) <= pnewdacl.size
      modifies pnewdacl`aces
      ensures ret == Success && pnewdacl.aces == old(pnewdacl.aces) + NewAllowed(old(Requests()), fdir)
    {
      hide NewAllowed, TotalSize;
      ghost var start, rs := pnewdacl.aces, Requests();
      var j := 0;
      NothingAddedYet(start, rs, fdir);
      while j < |aaa|
        invariant j <= |aaa|
        invariant pnewdacl.aces == start + NewAllowed(rs[..j], fdir)
      {
        CacheUnchanged();
        NewAllowedStep(start, rs, j, fdir);
        ret := AddAllowedOne(pnewdacl, j, fdir);
        if ret != Success {
          return;
        }
        j := j + 1;
      }
      assert rs[..j] == rs;
      return Success;
    }

    // The new allowed ACEs, where there are no old ones.
    method AddOthersOne(pnewdacl: Acl, j: nat, fdir: bool) returns (ret: Status)
      requires j < |aaa|
      requires OtherOf(Requests()[j], fdir) != [] ==>
                 ACL_HEADER + TotalSize(pnewdacl.aces) + NewAceSize(Requests()[j]) <= pnewdacl.size
      modifies pnewdacl`aces
      ensures ret == Success && pnewdacl.aces == old(pnewdacl.aces) + OtherOf(old(Requests())[j], fdir)
    {
      if aaa[j].mode != Deny {
        ret := SetAllowedAce(pnewdacl, aaa[j].pcaa.mask, aaa[j].pcaa.sid, fdir);
        return;
      }
      return Success;
    }

    method AddOthers(pnewdacl: Acl, fdir: bool) returns (ret: Status)
      requires ACL_HEADER + TotalSize(pnewdacl.aces + NewOthers(Requests(), fdir)) <= pnewdacl.size
      modifies pnewdacl`aces
      ensures ret == Success && pnewdacl.aces == old(pnewdacl.aces) + NewOthers(old(Requests()), fdir)
    {
      hide NewOthers, TotalSize;
      ghost var start, rs := pnewdacl.aces, Requests();
      var j := 0;
      NothingAddedYet(start, rs, fdir);
      while j < |aaa|
        invariant j <= |aaa|
        invariant pnewdacl.aces == start + NewOthers(rs[..j], fdir)
      {
        CacheUnchanged();
        NewOthersStep(start, rs, j, fdir);
        ret := AddOthersOne(pnewdacl, j, fdir);
        if ret != Success {
          return;
        }
        j := j + 1;
      }
      assert rs[..j] == rs;
      return Success;
    }

    // An old ACE that still says something is copied.
    static method AddOld(pnewdacl: Acl, pah: Ace) returns (ret: Status)
      requires pah.mask != {} ==> ACL_HEADER + TotalSize(pnewdacl.aces) + pah.size <= pnewdacl.size
      modifies pnewdacl`aces
      ensures ret == Success && pnewdacl.aces == old(pnewdacl.aces) + KeptOf(pah, pah.flags.inherited)
    {
      if pah.mask != {} {
        var ok := pnewdacl.AddAce(pah);
        return if ok then Success else AllottedSpaceExceeded;
      }
      return Success;
    }

    static method AddExplicit(pnewdacl: Acl, poldacl: Acl) returns (ret: Status)
      requires pnewdacl != poldacl
      requires ACL_HEADER + TotalSize(pnewdacl.aces + Kept(poldacl.aces, false)) <= pnewdacl.size
      modifies pnewdacl`aces
      ensures ret == if IsDisordered(poldacl.aces) then InvalidDataError else Success
      ensures ret == Success ==> pnewdacl.aces == old(pnewdacl.aces) + Kept(poldacl.aces, false)
    {
      hide Kept, TotalSize, IsDisordered;
      ghost var start := pnewdacl.aces;
      var aces := poldacl.aces;
      var fallowedacefound := false;
      var cace := 0;
      NothingKeptYet(start, aces, false);
      while cace < |aces|
        invariant cace <= |aces|
        invariant fallowedacefound == AllowsExplicitly(aces[..cace]) && !IsDisordered(aces[..cace])
        invariant pnewdacl.aces == start + Kept(aces[..cace], false)
      {
        var pah := aces[cace];
        KeptStep(start, aces, cace, false);
        DisorderStep(aces, cace);
        cace := cace + 1;
        if pah.flags.inherited {
          continue;
        }
        if pah.kind == Denied && fallowedacefound {
          return InvalidDataError;
        } else if pah.kind == Allowed {
          fallowedacefound := true;
        }
        ret := AddOld(pnewdacl, pah);
        if ret != Success {
          return;
        }
      }
      assert aces[..cace] == aces;
      return Success;
    }

    static method AddInherited(pnewdacl: Acl, poldacl: Acl) returns (ret: Status)
      requires pnewdacl != poldacl
      requires ACL_HEADER + TotalSize(pnewdacl.aces + Kept(poldacl.aces, true)) <= pnewdacl.size
      modifies pnewdacl`aces
      ensures ret == Success && pnewdacl.aces == old(pnewdacl.aces) + Kept(poldacl.aces, true)
    {
      hide Kept, TotalSize;
      ghost var start := pnewdacl.aces;
      var aces := poldacl.aces;
      var cace := 0;
      NothingKeptYet(start, aces, true);
      while cace < |aces|
        invariant cace <= |aces|
        invariant pnewdacl.aces == start + Kept(aces[..cace], true)
      {
        var pah := aces[cace];
        KeptStep(start, aces, cace, true);
        if pah.flags.inherited {
          ret := AddOld(pnewdacl, pah);
          if ret != Success {
            return;
          }
        }
        cace := cace + 1;
      }
      assert aces[..cace] == aces;
      return Success;
    }

    method FillMerged(pnewdacl: Acl, poldacl: Acl, fdir: bool) returns (ret: Status)
      requires Valid() && pnewdacl != poldacl && pnewdacl.aces == []
      requires ACL_HEADER + TotalSize(Fill(Requests(), poldacl.aces, fdir)) <= pnewdacl.size
      modifies pnewdacl`aces
      ensures ret == if IsDisordered(poldacl.aces) then InvalidDataError else Success
      ensures ret == Success ==> pnewdacl.aces == Fill(Requests(), poldacl.aces, fdir)
    {
      ghost var rs := Requests();
      FillRoom(rs, poldacl.aces, fdir);
      ret := AddDenied(pnewdacl, fdir);
      CacheUnchanged();
      assert pnewdacl.aces == NewDenied(rs, fdir);
      ret := AddExplicit(pnewdacl, poldacl);
      if ret != Success {
        return;
      }
      CacheUnchanged();
      ret := AddAllowed(pnewdacl, fdir);
      CacheUnchanged();
      ret := AddInherited(pnewdacl, poldacl);
      CacheUnchanged();
    }

    method FillFresh(pnewdacl: Acl, fdir: bool) returns (ret: Status)
      requires Valid() && pnewdacl.aces == []
      requires ACL_HEADER + TotalSize(NewDenied(Requests(), fdir) + NewOthers(Requests(), fdir)) <= pnewdacl.size
      modifies pnewdacl`aces
      ensures ret == Success && pnewdacl.aces == NewDenied(Requests(), fdir) + NewOthers(Requests(), fdir)
    {
      ghost var rs := Requests();
      OthersRoom(rs, fdir);
      ret := AddDenied(pnewdacl, fdir);
      CacheUnchanged();
      assert pnewdacl.aces == NewDenied(rs, fdir);
      ret := AddOthers(pnewdacl, fdir);
      CacheUnchanged();
    }

    // _FillNewAcl.
    method FillNewAcl(pnewdacl: Acl, poldacl: Acl?, fdir: bool) returns (ret: Status)
      requires Valid() && pnewdacl != poldacl && pnewdacl.aces == []
      requires ACL_HEADER + TotalSize(Target(Requests(), PriorAcl(poldacl), fdir)) <= pnewdacl.size
      modifies pnewdacl`aces
      ensures ret == if poldacl != null && IsDisordered(poldacl.aces) then InvalidDataError else Success
      ensures ret == Success ==> pnewdacl.aces == Target(Requests(), PriorAcl(poldacl), fdir)
    {
      if poldacl != null {
        ret := FillMerged(pnewdacl, poldacl, fdir);
      } else {
        ret := FillFresh(pnewdacl, fdir);
      }
    }

    // InitializeAcl keeps the size in 16 bits.
    static method AllocateNewAcl(caclsize: nat) returns (ret: Status, pnewdacl: Acl?)
      ensures ret == if caclsize > MAX_ACL then InvalidParameter else Success
      ensures ret == Success ==> pnewdacl != null && fresh(pnewdacl) && pnewdacl.size == caclsize && pnewdacl.aces == []
    {
      if caclsize > MAX_ACL {
        return InvalidParameter, null;
      }
      pnewdacl := new Acl(caclsize);
      ret := Success;
    }

    // BuildAcl: the merge of AclMergeSpec, without ever running out of room.
    method BuildAcl(poldacl: Acl?, fdir: bool) returns (ret: Status, pnewdacl: Acl?)
      requires Valid()
      modifies Accounts(), poldacl
      ensures ret == match Build(old(Requests()), old(PriorAcl(poldacl)), fdir)
                     case Built(_) => Success
                     case InvalidData => InvalidDataError
                     case TooLarge => InvalidParameter
      ensures ret == Success ==>
                && pnewdacl != null && fresh(pnewdacl)
                && Built(pnewdacl.aces) == Build(old(Requests()), old(PriorAcl(poldacl)), fdir)
                && ACL_HEADER + TotalSize(pnewdacl.aces) <= pnewdacl.size
                && Valid() && Requests() == RequestsAfter(old(Requests()), old(PriorAcl(poldacl)), fdir)
    {
      hide Build, Fill, FirstPassFails, RequestsAfter, NewAclSize, SettledAll, IsDisordered, AreRequests, Target;
      hide Requests, TotalSize;
      ghost var rs, prior := Requests(), PriorAcl(poldacl);
      BuildIsTarget(rs, prior, fdir);
      var caclsize;
      ret, caclsize := GetNewAclSize(poldacl, fdir);
      if ret != Success {
        return ret, null;
      }
      ret, pnewdacl := AllocateNewAcl(caclsize);
      if ret != Success {
        return;
      }
      assert PriorAcl(poldacl) == SettledAcl(prior, rs);
      ret := FillNewAcl(pnewdacl, poldacl, fdir);
    }
  }

  // What the second pass is to put into the new ACL.
  ghost function Target(rs: seq<Request>, settled: OldAcl, fdir: bool): seq<Ace> {
    match settled
    case NoAcl => NewDenied(rs, fdir) + NewOthers(rs, fdir)
    case OldAcl(aces) => Fill(rs, aces, fdir)
  }

  ghost function SettledAcl(prior: OldAcl, rs: seq<Request>): OldAcl {
    if prior.NoAcl? then NoAcl else OldAcl(SettledAll(prior.aces, rs))
  }

  lemma BuildIsTarget(rs: seq<Request>, prior: OldAcl, fdir: bool)
    requires AreRequests(rs)
    ensures var target := Target(RequestsAfter(rs, prior, fdir), SettledAcl(prior, rs), fdir);
            && ACL_HEADER + TotalSize(target) <= NewAclSize(rs, AcesOf(prior))
            && Build(rs, prior, fdir) ==
               if FirstPassFails(rs, AcesOf(prior), fdir) then InvalidData
               else if NewAclSize(rs, AcesOf(prior)) > MAX_ACL then TooLarge
               else if prior.OldAcl? && IsDisordered(SettledAll(prior.aces, rs)) then InvalidData
               else Built(target)
  {
    match prior
    case NoAcl => AclMergeLaws.SizeIsExactWithoutAcl(rs, fdir);
    case OldAcl(aces) =>
      AclMergeLaws.SizeSuffices(rs, aces, fdir);
      assert forall i, kind :: 0 <= i < |aces| ==>
        IsExplicit(SettledAll(aces, rs)[i], kind) == IsExplicit(aces[i], kind);
  }

  lemma FillRoom(rs: seq<Request>, aces: seq<Ace>, fdir: bool)
    ensures var d, k, a := NewDenied(rs, fdir), Kept(aces, false), NewAllowed(rs, fdir);
            && TotalSize([] + d) <= TotalSize(d + k) <= TotalSize(d + k + a) <= TotalSize(Fill(rs, aces, fdir))
            && [] + d == d
  {
    var d, k, a := NewDenied(rs, fdir), Kept(aces, false), NewAllowed(rs, fdir);
    assert [] + d == d;
    TotalSizeConcat(d, k);
    TotalSizeConcat(d + k, a);
    TotalSizeConcat(d + k + a, Kept(aces, true));
  }

  lemma OthersRoom(rs: seq<Request>, fdir: bool)
    ensures var d := NewDenied(rs, fdir);
            [] + d == d && TotalSize([] + d) <= TotalSize(d + NewOthers(rs, fdir))
  {
    var d := NewDenied(rs, fdir);
    assert [] + d == d;
    TotalSizeConcat(d, NewOthers(rs, fdir));
  }

  predicate AllowsExplicitly(aces: seq<Ace>) {
    exists i :: 0 <= i < |aces| && IsExplicit(aces[i], Allowed)
  }

  lemma DisorderStep(aces: seq<Ace>, j: nat)
    requires j < |aces|
    ensures AllowsExplicitly(aces[..j + 1]) <==> AllowsExplicitly(aces[..j]) || IsExplicit(aces[j], Allowed)
    ensures IsDisordered(aces[..j + 1]) <==>
            IsDisordered(aces[..j]) || (AllowsExplicitly(aces[..j]) && IsExplicit(aces[j], Denied))
    ensures IsDisordered(aces[..j + 1]) ==> IsDisordered(aces)
  {
    var less, more := aces[..j], aces[..j + 1];
    assert more[j] == aces[j] && forall i :: 0 <= i < j ==> more[i] == less[i] == aces[i];
    if AllowsExplicitly(less) && IsExplicit(aces[j], Denied) {
      var i :| 0 <= i < j && IsExplicit(less[i], Allowed);
      assert IsExplicit(more[i], Allowed) && IsExplicit(more[j], Denied);
    }
    if IsDisordered(more) {
      var i, k :| 0 <= i < k < |more| && IsExplicit(more[i], Allowed) && IsExplicit(more[k], Denied);
      assert IsExplicit(aces[i], Allowed) && IsExplicit(aces[k], Denied);
      assert IsExplicit(less[i], Allowed);
    }
  }

  lemma NothingAddedYet(start: seq<Ace>, rs: seq<Request>, fdir: bool)
    ensures start == start + NewDenied(rs[..0], fdir)
    ensures start == start + NewAllowed(rs[..0], fdir)
    ensures start == start + NewOthers(rs[..0], fdir)
  {
  }

  lemma NothingKeptYet(start: seq<Ace>, aces: seq<Ace>, inherited: bool)
    ensures start == start + Kept(aces[..0], inherited) && !IsDisordered(aces[..0])
  {
  }

  lemma NewDeniedStep(start: seq<Ace>, rs: seq<Request>, j: nat, fdir: bool)
    requires j < |rs|
    ensures start + NewDenied(rs[..j + 1], fdir) == (start + NewDenied(rs[..j], fdir)) + DeniedOf(rs[j], fdir)
    ensures DeniedOf(rs[j], fdir) != [] ==>
              TotalSize(start + NewDenied(rs[..j], fdir)) + NewAceSize(rs[j]) <= TotalSize(start + NewDenied(rs, fdir))
  {
    assert rs[..j + 1][..j] == rs[..j];
    NewAcesGrow(rs, j + 1, fdir);
    PartStep(start, NewDenied(rs[..j], fdir), DeniedOf(rs[j], fdir), NewDenied(rs, fdir));
  }

  lemma NewAllowedStep(start: seq<Ace>, rs: seq<Request>, j: nat, fdir: bool)
    requires j < |rs|
    ensures start + NewAllowed(rs[..j + 1], fdir) == (start + NewAllowed(rs[..j], fdir)) + AllowedOf(rs[j], fdir)
    ensures AllowedOf(rs[j], fdir) != [] ==>
              TotalSize(start + NewAllowed(rs[..j], fdir)) + NewAceSize(rs[j])
              <= TotalSize(start + NewAllowed(rs, fdir))
  {
    assert rs[..j + 1][..j] == rs[..j];
    NewAcesGrow(rs, j + 1, fdir);
    PartStep(start, NewAllowed(rs[..j], fdir), AllowedOf(rs[j], fdir), NewAllowed(rs, fdir));
  }

  lemma NewOthersStep(start: seq<Ace>, rs: seq<Request>, j: nat, fdir: bool)
    requires j < |rs|
    ensures start + NewOthers(rs[..j + 1], fdir) == (start + NewOthers(rs[..j], fdir)) + OtherOf(rs[j], fdir)
    ensures OtherOf(rs[j], fdir) != [] ==>
              TotalSize(start + NewOthers(rs[..j], fdir)) + NewAceSize(rs[j]) <= TotalSize(start + NewOthers(rs, fdir))
  {
    assert rs[..j + 1][..j] == rs[..j];
    NewAcesGrow(rs, j + 1, fdir);
    PartStep(start, NewOthers(rs[..j], fdir), OtherOf(rs[j], fdir), NewOthers(rs, fdir));
  }

  lemma KeptStep(start: seq<Ace>, aces: seq<Ace>, j: nat, inherited: bool)
    requires j < |aces|
    ensures start + Kept(aces[..j + 1], inherited) == (start + Kept(aces[..j], inherited)) + KeptOf(aces[j], inherited)
    ensures KeptOf(aces[j], inherited) != [] ==>
              TotalSize(start + Kept(aces[..j], inherited)) + aces[j].size <= TotalSize(start + Kept(aces, inherited))
  {
    assert aces[..j + 1][..j] == aces[..j];
    KeptGrows(aces, j + 1, inherited);
    PartStep(start, Kept(aces[..j], inherited), KeptOf(aces[j], inherited), Kept(aces, inherited));
  }

  // Adding the next piece of a part of the list: there is room as long as there is room for all of it.
  lemma PartStep(start: seq<Ace>, done: seq<Ace>, one: seq<Ace>, all: seq<Ace>)
    requires done + one <= all
    ensures start + (done + one) == (start + done) + one
    ensures TotalSize(start + done) + TotalSize(one) <= TotalSize(start + all)
    ensures |one| == 1 ==> TotalSize(one) == one[0].size
  {
    Associate(start, done, one);
    PrefixSize(done + one, all);
    SizesAdd(start, done, one, all);
    SingleSize(one);
  }

  lemma PrefixSize(a: seq<Ace>, b: seq<Ace>)
    requires a <= b
    ensures TotalSize(a) <= TotalSize(b)
  {
    assert b == a + b[|a|..];
    TotalSizeConcat(a, b[|a|..]);
  }

  lemma SizesAdd(start: seq<Ace>, done: seq<Ace>, one: seq<Ace>, all: seq<Ace>)
    ensures TotalSize(start + done) == TotalSize(start) + TotalSize(done)
    ensures TotalSize(start + all) == TotalSize(start) + TotalSize(all)
    ensures TotalSize(done + one) == TotalSize(done) + TotalSize(one)
  {
    TotalSizeConcat(start, done);
    TotalSizeConcat(start, all);
    TotalSizeConcat(done, one);
  }

  lemma SingleSize(one: seq<Ace>)
    ensures |one| == 1 ==> TotalSize(one) == one[0].size
  {
    if |one| == 1 {
      assert one[..0] == [];
    }
  }

  lemma {:induction false} NewAcesGrow(rs: seq<Request>, j: nat, fdir: bool)
    requires j <= |rs|
    ensures NewDenied(rs[..j], fdir) <= NewDenied(rs, fdir)
    ensures NewAllowed(rs[..j], fdir) <= NewAllowed(rs, fdir)
    ensures NewOthers(rs[..j], fdir) <= NewOthers(rs, fdir)
  {
    if j < |rs| {
      NewAcesGrow(rs[..|rs| - 1], j, fdir);
      assert rs[..|rs| - 1][..j] == rs[..j];
    } else {
      assert rs[..j] == rs;
    }
  }

  lemma {:induction false} KeptGrows(aces: seq<Ace>, j: nat, inherited: bool)
    requires j <= |aces|
    ensures Kept(aces[..j], inherited) <= Kept(aces, inherited)
  {
    if j < |aces| {
      KeptGrows(aces[..|aces| - 1], j, inherited);
      assert aces[..|aces| - 1][..j] == aces[..j];
    } else {
      assert aces[..j] == aces;
    }
  }

  // The old ACEs once the covered ones are silenced.
  ghost function Silenced(aces: seq<Ace>, rs: seq<Request>): (s: seq<Ace>)
    ensures |s| == |aces|
  {
    seq(|aces|, i requires 0 <= i < |aces| => if IsCovered(rs, aces[i].sid) then aces[i].(mask := {}) else aces[i])
  }

  // The parts of the first pass, put together.
  lemma FirstPassResult(rs: seq<Request>, granted: seq<Ace>, prior: seq<Ace>, fdir: bool)
    requires AreRequests(rs) && prior != [] && granted == GrantAllEach(prior, ReadyAll(rs))
    ensures var after := Passed(ReadyAll(rs), prior, fdir, |rs|);
            && after == RequestsAfter(rs, OldAcl(prior), fdir)
            && Silenced(granted, after) == SettledAll(prior, rs)
            && ACL_HEADER + RequestsSize(ReadyAll(rs), prior) + KeptSize(granted, after) == NewAclSize(rs, prior)
  {
    var after := Passed(ReadyAll(rs), prior, fdir, |rs|);
    ReadyChangesNothing(rs, prior, fdir);
    assert AskAlike(rs, after);
    CoveredAlike(rs, after);
    KeptSizeAlike(prior, granted, rs, after);
  }

  // The old ACEs after one request, and after all of them.
  ghost function GrantEach(aces: seq<Ace>, r: Request): (g: seq<Ace>)
    ensures |g| == |aces|
  {
    seq(|aces|, i requires 0 <= i < |aces| => GrantTo(aces[i], r))
  }

  lemma GrantEachStep(aces: seq<Ace>, r: Request, j: nat)
    requires j < |aces|
    ensures var now := GrantEach(aces[..j], r) + aces[j..];
            && now[j] == aces[j]
            && now[j := GrantTo(aces[j], r)] == GrantEach(aces[..j + 1], r) + aces[j + 1..]
            && (GrantTo(aces[j], r) == aces[j] ==> now == GrantEach(aces[..j + 1], r) + aces[j + 1..])
    ensures IsTakenUp(aces[..j + 1], r) <==> IsTakenUp(aces[..j], r) || (r.mode == Grant && IsMatch(aces[j], r))
    ensures IsStrange(aces[..j + 1], r) <==>
            IsStrange(aces[..j], r) || (r.mode == Grant && aces[j].sid == r.sid && aces[j].kind.Other?)
    ensures IsStrange(aces[..j + 1], r) ==> IsStrange(aces, r)
    ensures FoundIn(aces[..j + 1], r) ==
            FoundIn(aces[..j], r) + if IsMatch(aces[j], r) then ReachOf(aces[j].flags) else {}
  {
    hide FoundIn, ReachOf;
    Extends(aces[..j], aces[j], r);
    assert aces[..j + 1] == aces[..j] + [aces[j]];
    var now, next := GrantEach(aces[..j], r) + aces[j..], GrantEach(aces[..j + 1], r) + aces[j + 1..];
    assert now[j := GrantTo(aces[j], r)] == next by {
      assert |now| == |next|;
      forall i | 0 <= i < |next|
        ensures now[j := GrantTo(aces[j], r)][i] == next[i]
      {}
    }
    assert GrantTo(aces[j], r) == aces[j] ==> now[j := now[j]] == now;
    if IsStrange(aces[..j + 1], r) {
      var i :| 0 <= i < j + 1 && aces[..j + 1][i].sid == r.sid && aces[..j + 1][i].kind.Other?;
      assert aces[i].sid == r.sid && aces[i].kind.Other?;
    }
  }

  lemma NothingGrantedYet(aces: seq<Ace>, r: Request)
    ensures aces == GrantEach(aces[..0], r) + aces[0..]
    ensures !IsTakenUp(aces[..0], r) && !IsStrange(aces[..0], r) && FoundIn(aces[..0], r) == r.found
  {
  }

  ghost function GrantAllEach(aces: seq<Ace>, rs: seq<Request>): (g: seq<Ace>)
    ensures |g| == |aces|
  {
    seq(|aces|, i requires 0 <= i < |aces| => GrantAll(aces[i], rs))
  }

  // The requests when the first j have passed over the old ACEs.
  ghost function Passed(rs: seq<Request>, prior: seq<Ace>, fdir: bool, j: nat): (p: seq<Request>)
    ensures |p| == |rs|
  {
    seq(|rs|, k requires 0 <= k < |rs| => if k < j then AfterPass(rs[k], prior, fdir) else rs[k])
  }

  lemma NothingPassedYet(rs: seq<Request>, prior: seq<Ace>, fdir: bool)
    ensures rs == Passed(rs, prior, fdir, 0) && prior == GrantAllEach(prior, rs[..0])
    ensures RequestsSize(rs[..0], prior) == 0
  {
  }

  lemma PassStep(rs: seq<Request>, prior: seq<Ace>, fdir: bool, j: nat)
    requires AreRequests(rs) && j < |rs|
    ensures var aces := GrantAllEach(prior, rs[..j]);
            && GrantEach(aces, rs[j]) == GrantAllEach(prior, rs[..j + 1])
            && Passed(rs, prior, fdir, j)[j := AfterPass(rs[j], aces, fdir)] == Passed(rs, prior, fdir, j + 1)
            && AreRequests(Passed(rs, prior, fdir, j + 1))
            && IsTakenUp(aces, rs[j]) == IsTakenUp(prior, rs[j])
            && IsStrange(aces, rs[j]) == IsStrange(prior, rs[j])
            && FallsShort(aces, rs[j], fdir) == FallsShort(prior, rs[j], fdir)
    ensures RequestsSize(rs[..j + 1], prior) == RequestsSize(rs[..j], prior)
            + if prior != [] && (rs[j].mode == Revoke || IsTakenUp(prior, rs[j])) then 0 else NewAceSize(rs[j])
  {
    hide FoundIn, IsStrange, IsTakenUp;
    assert rs[..j + 1][..j] == rs[..j];
    MasksDoNotMatter(prior, GrantAllEach(prior, rs[..j]), rs[j]);
    var next := Passed(rs, prior, fdir, j + 1);
    assert forall k :: 0 <= k < |rs| ==>
             next[k].sid == rs[k].sid && next[k].saved == rs[k].saved && next[k].kind == rs[k].kind;
  }

  ghost predicate SameButMask(a: seq<Ace>, b: seq<Ace>) {
    |a| == |b| && forall i :: 0 <= i < |a| ==> b[i] == a[i].(mask := b[i].mask)
  }

  lemma {:induction false} MasksDoNotMatter(a: seq<Ace>, b: seq<Ace>, r: Request)
    requires SameButMask(a, b)
    ensures IsTakenUp(a, r) == IsTakenUp(b, r)
    ensures IsStrange(a, r) == IsStrange(b, r)
    ensures FoundIn(a, r) == FoundIn(b, r)
  {
    if a != [] {
      var m, n := a[..|a| - 1], b[..|b| - 1];
      MasksDoNotMatter(m, n, r);
      Extends(m, a[|a| - 1], r);
      Extends(n, b[|b| - 1], r);
      assert a == m + [a[|a| - 1]] && b == n + [b[|b| - 1]];
    }
  }

  // Requests that agree on account, mode, kind and the rights asked for.
  ghost predicate AskAlike(a: seq<Request>, b: seq<Request>) {
    |a| == |b| && forall k :: 0 <= k < |a| ==> b[k] == a[k].(mask := b[k].mask, found := b[k].found)
  }

  lemma CoveredAlike(a: seq<Request>, b: seq<Request>)
    requires AskAlike(a, b)
    ensures forall sid :: IsCovered(a, sid) == IsCovered(b, sid)
  {
    forall sid, k | 0 <= k < |a|
      ensures Covers(a[k], sid) == Covers(b[k], sid)
    {}
  }

  lemma {:induction false} GrantAllAlike(a: Ace, rs: seq<Request>, qs: seq<Request>)
    requires AskAlike(rs, qs)
    ensures GrantAll(a, rs) == GrantAll(a, qs)
  {
    if rs != [] {
      GrantAllAlike(a, rs[..|rs| - 1], qs[..|qs| - 1]);
    }
  }

  lemma {:induction false} KeptSizeAlike(a: seq<Ace>, b: seq<Ace>, rs: seq<Request>, qs: seq<Request>)
    requires SameButMask(a, b) && AskAlike(rs, qs)
    ensures KeptSize(a, rs) == KeptSize(b, qs)
  {
    if a != [] {
      KeptSizeAlike(a[..|a| - 1], b[..|b| - 1], rs, qs);
      CoveredAlike(rs, qs);
    }
  }

  lemma {:induction false} RequestsSizeReady(rs: seq<Request>, aces: seq<Ace>)
    ensures RequestsSize(ReadyAll(rs), aces) == RequestsSize(rs, aces)
  {
    if rs != [] {
      assert ReadyAll(rs)[..|rs| - 1] == ReadyAll(rs[..|rs| - 1]);
      RequestsSizeReady(rs[..|rs| - 1], aces);
      ReadyIsSeenAlike(rs[|rs| - 1], aces);
    }
  }

  lemma {:induction false} ReadyIsSeenAlike(r: Request, aces: seq<Ace>)
    ensures IsTakenUp(aces, Ready(r)) == IsTakenUp(aces, r)
    ensures IsStrange(aces, Ready(r)) == IsStrange(aces, r)
    ensures FoundIn(aces, Ready(r)) == FoundIn(aces, r)
  {
    if aces != [] {
      var init, a := aces[..|aces| - 1], aces[|aces| - 1];
      ReadyIsSeenAlike(r, init);
      Extends(init, a, r);
      Extends(init, a, Ready(r));
      assert aces == init + [a];
    }
  }

  // The first pass does not look at what an earlier one left in the masks of the requests.
  lemma ReadyChangesNothing(rs: seq<Request>, aces: seq<Ace>, fdir: bool)
    ensures var ready := ReadyAll(rs);
            && (AreRequests(rs) ==> AreRequests(ready))
            && FirstPassFails(ready, aces, fdir) == FirstPassFails(rs, aces, fdir)
            && RequestsSize(ready, aces) == RequestsSize(rs, aces)
            && (forall a :: GrantAll(a, ready) == GrantAll(a, rs))
            && (forall k :: 0 <= k < |rs| ==> AfterPass(ready[k], aces, fdir) == AfterPass(rs[k], aces, fdir))
  {
    var ready := ReadyAll(rs);
    forall k | 0 <= k < |rs|
      ensures IsStrange(aces, ready[k]) == IsStrange(aces, rs[k])
      ensures FallsShort(aces, ready[k], fdir) == FallsShort(aces, rs[k], fdir)
      ensures AfterPass(ready[k], aces, fdir) == AfterPass(rs[k], aces, fdir)
    {
      ReadyIsSeenAlike(rs[k], aces);
    }
    RequestsSizeReady(rs, aces);
    forall a
      ensures GrantAll(a, ready) == GrantAll(a, rs)
    {
      GrantAllAlike(a, rs, ready);
    }
  }

  // Without old ACEs the first pass only reloads the masks.
  lemma NothingToMerge(rs: seq<Request>, prior: OldAcl, fdir: bool)
    requires AcesOf(prior) == []
    ensures !FirstPassFails(rs, AcesOf(prior), fdir) && RequestsAfter(rs, prior, fdir) == ReadyAll(rs)
    ensures NewAclSize(rs, AcesOf(prior)) == ACL_HEADER + RequestsSize(ReadyAll(rs), [])
    ensures SettledAll([], rs) == []
  {
    RequestsSizeReady(rs, []);
  }

  // A request at the start of the first pass.
  function Ready(r: Request): Request {
    r.(mask := r.saved)
  }

  ghost function ReadyAll(rs: seq<Request>): (ready: seq<Request>)
    ensures |ready| == |rs|
  {
    seq(|rs|, k requires 0 <= k < |rs| => Ready(rs[k]))
  }

  lemma Extends(aces: seq<Ace>, a: Ace, r: Request)
    ensures IsTakenUp(aces + [a], r) <==> IsTakenUp(aces, r) || (r.mode == Grant && IsMatch(a, r))
    ensures IsStrange(aces + [a], r) <==> IsStrange(aces, r) || (r.mode == Grant && a.sid == r.sid && a.kind.Other?)
    ensures FoundIn(aces + [a], r) == FoundIn(aces, r) + if IsMatch(a, r) then ReachOf(a.flags) else {}
  {
    var more := aces + [a];
    assert more[..|aces|] == aces;
    assert more[|aces|] == a && forall i :: 0 <= i < |aces| ==> more[i] == aces[i];
  }
}

// Access control lists and the ordered access check ([MS-DTYP] sections 2.4.4,
// 2.4.5 and 2.5.3.2), as far as the ACL merge of cacls needs them.

module AccessControl {
  // One access right; a mask is the set of the bits that are 1.
  type Bit = b: int | 0 <= b < 32
  type Mask = set<Bit>

  const GENERIC_ALL: Mask := {28}

  type Sid = seq<int>

  datatype AceType = Allowed | Denied | Other(code: int)

  datatype AceFlags = AceFlags(
    objectInherit: bool, containerInherit: bool, noPropagate: bool, inheritOnly: bool, inherited: bool)

  datatype Ace = Ace(kind: AceType, flags: AceFlags, mask: Mask, sid: Sid, size: nat)

  function TotalSize(aces: seq<Ace>): nat {
    if aces == [] then 0 else TotalSize(aces[..|aces| - 1]) + aces[|aces| - 1].size
  }

  // An ACE speaks to a token that holds its SID, unless it is only there to be inherited.
  predicate Applies(a: Ace, token: set<Sid>) {
    !a.flags.inheritOnly && a.sid in token
  }

  // The access check: rights still wanted are struck off by allowing ACEs; a denying ACE that
  // mentions one still wanted ends it.
  predicate Grants(aces: seq<Ace>, token: set<Sid>, wanted: Mask) {
    if aces == [] then wanted == {}
    else if !Applies(aces[0], token) then Grants(aces[1..], token, wanted)
    else match aces[0].kind
      case Allowed => Grants(aces[1..], token, wanted - aces[0].mask)
      case Denied => wanted !! aces[0].mask && Grants(aces[1..], token, wanted)
      case Other(_) => Grants(aces[1..], token, wanted)
  }

  datatype Verdict = Granted | Refused | Silent

  // The answer for one right: the first ACE that applies and mentions it.
  function VerdictOn(aces: seq<Ace>, token: set<Sid>, b: Bit): Verdict {
    if aces == [] then Silent
    else if Applies(aces[0], token) && b in aces[0].mask && !aces[0].kind.Other? then
      if aces[0].kind == Allowed then Granted else Refused
    else VerdictOn(aces[1..], token, b)
  }

  // The access check decides right by right.
  lemma {:induction false} CheckIsBitwise(aces: seq<Ace>, token: set<Sid>, wanted: Mask)
    ensures Grants(aces, token, wanted) <==> forall b :: b in wanted ==> VerdictOn(aces, token, b) == Granted
  {
    if aces == [] {
      assert wanted == {} <==> forall b :: b in wanted ==> false;
    } else if !Applies(aces[0], token) || aces[0].kind.Other? {
      CheckIsBitwise(aces[1..], token, wanted);
    } else if aces[0].kind == Allowed {
      CheckIsBitwise(aces[1..], token, wanted - aces[0].mask);
      forall b | b in wanted
        ensures VerdictOn(aces, token, b) == Granted <==>
                (b in wanted - aces[0].mask ==> VerdictOn(aces[1..], token, b) == Granted)
      {}
    } else {
      CheckIsBitwise(aces[1..], token, wanted);
    }
  }

  lemma {:induction false} VerdictOnConcat(a: seq<Ace>, b: seq<Ace>, token: set<Sid>, bit: Bit)
    ensures VerdictOn(a + b, token, bit) ==
            if VerdictOn(a, token, bit) != Silent then VerdictOn(a, token, bit) else VerdictOn(b, token, bit)
  {
    if a == [] {
      assert a + b == b;
    } else {
      assert (a + b)[1..] == a[1..] + b;
      VerdictOnConcat(a[1..], b, token, bit);
    }
  }

  // Whoever speaks on a right refuses it, or grants it, when all who may speak would.
  lemma {:induction false} VerdictIs(aces: seq<Ace>, token: set<Sid>, b: Bit)
    ensures VerdictOn(aces, token, b) == Granted
            ==> exists a :: a in aces && Applies(a, token) && b in a.mask && a.kind == Allowed
    ensures VerdictOn(aces, token, b) == Refused
            ==> exists a :: a in aces && Applies(a, token) && b in a.mask && a.kind == Denied
    ensures VerdictOn(aces, token, b) == Silent
            ==> forall a :: a in aces && Applies(a, token) && b in a.mask ==> a.kind.Other?
  {
    if aces != [] {
      VerdictIs(aces[1..], token, b);
    }
  }

  lemma {:induction false} TotalSizeConcat(a: seq<Ace>, b: seq<Ace>)
    ensures TotalSize(a + b) == TotalSize(a) + TotalSize(b)
  {
    if b == [] {
      assert a + b == a;
    } else {
      assert (a + b)[..|a + b| - 1] == a + b[..|b| - 1];
      TotalSizeConcat(a, b[..|b| - 1]);
    }
  }
}

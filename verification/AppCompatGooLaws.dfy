// What the value says, byte by byte, and what a request makes of it: which entry is the image's, what it has in it
// afterwards, and that two images keep an entry each.

module AppCompatGooLaws {
  import opened AppCompatGoo
  import opened Bytes
  import opened Wrappers

  // ---- What a request makes of the entries ----

  // One goes on where the other ends, or they are the same.
  predicate OneBeginsTheOther(a: seq<Byte>, b: seq<Byte>) {
    a <= b || b <= a
  }

  // What identifies an image: the first 512 bytes of its version resource.
  function Identity(r: Request): seq<Byte> {
    match r.resource
    case None => []
    case Some(resource) => if |resource| > 512 then resource[..512] else resource
  }

  function Version(r: Request): seq<Byte> {
    match r.version
    case None => []
    case Some(version) => version
  }

  // An image without a resource has the entries without one; otherwise the beginnings decide.
  predicate IsFor(e: Entry, r: Request) {
    if r.resource.None? then e.resource == [] else OneBeginsTheOther(e.resource, Identity(r))
  }

  lemma MatchesIs(e: Entry, r: Request)
    ensures Matches(e, r) <==> IsFor(e, r)
  {
    AgreeMeansPrefix(e.resource, Identity(r));
    if r.resource.Some? {
      assert r.resource.value[..|r.resource.value|] == r.resource.value;
    }
  }

  // If the image has no entry, it gets one in front of the others, with its resource, flags and version.
  lemma FirstRequestIs(es: seq<Entry>, r: Request)
    requires forall k :: 0 <= k < |es| ==> !IsFor(es[k], r)
    ensures Made(es, r) == [Entry(Identity(r), r.flag, Version(r))] + es
  {
    hide FirstMatch, Matches;
    var k := FirstMatch(es, r);
    if k < |es| {
      MatchesIs(es[k], r);
    }
    if r.resource.Some? {
      assert r.resource.value[..|r.resource.value|] == r.resource.value;
    }
  }

  // If it has one, only the first that it has can change: it keeps its resource and gets the flags and the version
  // asked for, unless the flags are these already and the versions begin alike.
  lemma NextRequestIs(es: seq<Entry>, r: Request, k: nat)
    requires k < |es| && IsFor(es[k], r) && forall i :: 0 <= i < k ==> !IsFor(es[i], r)
    ensures var same := es[k].flag == r.flag && r.version.Some? && OneBeginsTheOther(r.version.value, es[k].version);
            Made(es, r) == if same then es else es[k := Entry(es[k].resource, r.flag, Version(r))]
  {
    hide FirstMatch, Matches, AgreeSoFar;
    MatchesIs(es[k], r);
    forall i | 0 <= i < k
      ensures !Matches(es[i], r)
    {
      MatchesIs(es[i], r);
    }
    FirstMatchIs(es, r, k);
    if r.version.Some? {
      AgreeMeansPrefix(r.version.value, es[k].version);
    }
  }

  // Where an image's entry is.
  ghost predicate IsEntryOf(es: seq<Entry>, r: Request, k: nat) {
    k < |es| && IsFor(es[k], r) && forall i :: 0 <= i < k ==> !IsFor(es[i], r)
  }

  // The resources differ in a byte that identifies both images.
  ghost predicate AreTold(r: Request, s: Request) {
    exists i :: 0 <= i < |Identity(r)| && i < |Identity(s)| && Identity(r)[i] != Identity(s)[i]
  }

  // After a request the image has an entry: a new one in front, or the one it had, and the other entries are as they
  // were.
  lemma Requested(es: seq<Entry>, r: Request) returns (j: nat)
    ensures var to := Made(es, r);
            && IsEntryOf(to, r, j)
            && ((j == 0 && |to| == |es| + 1 && to[1..] == es && to[0].resource == Identity(r)
                 && forall i :: 0 <= i < |es| ==> !IsFor(es[i], r))
                || (IsEntryOf(es, r, j) && |to| == |es| && to[j].resource == es[j].resource
                    && forall i :: 0 <= i < |es| && i != j ==> to[i] == es[i]))
  {
    hide Made;
    if k: nat :| k < |es| && IsFor(es[k], r) {
      j := First(es, r, k);
      NextRequestIs(es, r, j);
    } else {
      FirstRequestIs(es, r);
      j := 0;
    }
  }

  lemma {:induction false} First(es: seq<Entry>, r: Request, k: nat) returns (j: nat)
    requires k < |es| && IsFor(es[k], r)
    ensures IsEntryOf(es, r, j)
  {
    hide IsFor;
    if i: nat :| i < k && IsFor(es[i], r) {
      j := First(es, r, i);
    } else {
      j := k;
    }
  }

  // Two such images keep an entry each: after a request for the one and then one for the other, the entry of the first
  // is as it was left, as long as none of the old entries is taken for both.
  lemma TwoImagesKeepAnEntryEach(es: seq<Entry>, r: Request, s: Request) returns (j: nat, k: nat, l: nat)
    requires r.resource.Some? && s.resource.Some? && AreTold(r, s)
    requires forall i :: 0 <= i < |es| ==> !(IsFor(es[i], r) && IsFor(es[i], s))
    ensures var once, twice := Made(es, r), Made(Made(es, r), s);
            IsEntryOf(once, r, j) && IsEntryOf(twice, r, k) && IsEntryOf(twice, s, l) && k != l && twice[k] == once[j]
  {
    hide Made, Identity;
    var once, twice := Made(es, r), Made(Made(es, r), s);
    j := Requested(es, r);
    forall i | 0 <= i < |once|
      ensures !(IsFor(once[i], r) && IsFor(once[i], s))
    {
      if |once| > |es| && i > 0 {
        assert once[i] == es[i - 1];
      }
    }
    l := Requested(once, s);
    if |twice| > |once| {
      k := j + 1;
      assert forall i :: 0 < i < |twice| ==> twice[i] == once[i - 1];
    } else {
      k := j;
    }
  }

  // ---- The bytes of the value ----

  // An entry from p on: its size, the size of the resource, the resource, eight bytes of flags, the version.
  ghost predicate IsStored(b: seq<Byte>, p: nat, e: Entry) {
    var q := p + 8 + |e.resource|;
    && q + 8 + |e.version| <= |b|
    && GetDword(b, p) == 16 + |e.resource| + |e.version| && GetDword(b, p + 4) == |e.resource|
    && b[p + 8..q] == e.resource && b[q..q + 8] == e.flag && b[q + 8..q + 8 + |e.version|] == e.version
  }

  function SizeBefore(es: seq<Entry>, k: nat): nat
    requires k <= |es|
  {
    if k == 0 then 4 else SizeBefore(es, k - 1) + 16 + |es[k - 1].resource| + |es[k - 1].version|
  }

  // The value is the total size and one entry behind the other.
  lemma ValueIs(es: seq<Entry>, k: nat)
    requires Fits(es) && k <= |es|
    ensures var b := GooBytes(es);
            && GetDword(b, 0) == |b| == SizeBefore(es, |es|)
            && (k < |es| ==> IsStored(b, SizeBefore(es, k), es[k]))
  {
    hide GooBytes, IsAt, GetDword, Size, SizeBefore;
    Start(GooBytes(es), es);
    TotalIs(es, |es|);
    EntriesStep(es[|es|..]);
    if k < |es| {
      StandsAt(es, k);
      NextAt(GooBytes(es), es, SizeBefore(es, k), k);
    }
  }

  lemma {:induction false} StandsAt(es: seq<Entry>, k: nat)
    requires Fits(es) && k <= |es|
    ensures IsAt(GooBytes(es), es, SizeBefore(es, k), k)
  {
    hide GooBytes, IsAt, GetDword, Size;
    Start(GooBytes(es), es);
    if k > 0 {
      StandsAt(es, k - 1);
      NextAt(GooBytes(es), es, SizeBefore(es, k - 1), k - 1);
    }
  }

  lemma {:induction false} TotalIs(es: seq<Entry>, k: nat)
    requires k <= |es|
    ensures SizeBefore(es, k) + Size(es[k..]) == 4 + Size(es)
    decreases k
  {
    hide Size;
    if k > 0 {
      TotalIs(es, k - 1);
      SizeOfRest(es, k - 1);
    } else {
      assert es[0..] == es;
    }
  }
}

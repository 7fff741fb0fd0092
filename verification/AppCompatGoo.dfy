// appcompat/apphacks.c: the "ApplicationGoo" value that the registry keeps for an
// executable, a list of entries of differing length behind their total size.

module AppCompatGoo {
  import opened Bytes
  import opened Wrappers

  const MIN_VERSION_RESOURCE := 512
  const HEADER := 8 // dwEntryTotalSize and dwResourceInfoSize
  const FLAG_SIZE := 8 // sizeof(LARGE_INTEGER)

  type Flag = f: seq<Byte> | |f| == FLAG_SIZE witness [0, 0, 0, 0, 0, 0, 0, 0]

  // The part of the version resource that identifies the executable, its compatibility flags, and the version of
  // the system it is to be told.
  datatype Entry = Entry(resource: seq<Byte>, flag: Flag, version: seq<Byte>)

  function EntrySize(e: Entry): nat {
    HEADER + |e.resource| + FLAG_SIZE + |e.version|
  }

  function EntryBytes(e: Entry): (b: seq<Byte>)
    ensures |b| == EntrySize(e)
  {
    DwordBytes(ToDword(EntrySize(e))) + DwordBytes(ToDword(|e.resource|)) + e.resource + e.flag + e.version
  }

  function Size(es: seq<Entry>): (n: nat)
    ensures n >= |es|
  {
    if es == [] then 0 else EntrySize(es[0]) + Size(es[1..])
  }

  function EntriesBytes(es: seq<Entry>): (b: seq<Byte>)
    ensures |b| == Size(es)
  {
    if es == [] then [] else EntryBytes(es[0]) + EntriesBytes(es[1..])
  }

  function GooBytes(es: seq<Entry>): (b: seq<Byte>)
    ensures |b| == 4 + Size(es)
  {
    DwordBytes(ToDword(4 + Size(es))) + EntriesBytes(es)
  }

  predicate Fits(es: seq<Entry>) {
    4 + Size(es) < 0x1_0000_0000
  }

  // ---- What a request makes of the entries ----

  // For an image with this version resource, if it has one.
  datatype Request = Request(resource: Option<seq<Byte>>, flag: Flag, version: Option<seq<Byte>>)

  function Info(r: Request): seq<Byte> {
    if r.resource.None? then [] else r.resource.value[..Min(|r.resource.value|, MIN_VERSION_RESOURCE)]
  }

  function VersionOf(r: Request): seq<Byte> {
    if r.version.None? then [] else r.version.value
  }

  predicate AgreeSoFar(a: seq<Byte>, b: seq<Byte>) {
    var n := Min(|a|, |b|);
    a[..n] == b[..n]
  }

  // The entry is taken to be that of the image.
  predicate Matches(e: Entry, r: Request) {
    if r.resource.None? then e.resource == [] else AgreeSoFar(e.resource, Info(r))
  }

  // Nothing has to be replaced in it.
  predicate IsSatisfied(e: Entry, r: Request) {
    e.flag == r.flag && r.version.Some? && AgreeSoFar(r.version.value, e.version)
  }

  function Replaced(e: Entry, r: Request): Entry {
    Entry(e.resource, r.flag, VersionOf(r))
  }

  function NewEntry(r: Request): Entry {
    Entry(Info(r), r.flag, VersionOf(r))
  }

  function FirstMatch(es: seq<Entry>, r: Request): (k: nat)
    ensures k <= |es| && (k < |es| ==> Matches(es[k], r))
    ensures forall i :: 0 <= i < k ==> !Matches(es[i], r)
  {
    if es == [] || Matches(es[0], r) then 0 else 1 + FirstMatch(es[1..], r)
  }

  // A new entry in front, or the first one for the image rewritten.
  function Made(es: seq<Entry>, r: Request): seq<Entry> {
    var k := FirstMatch(es, r);
    if k == |es| then [NewEntry(r)] + es
    else if IsSatisfied(es[k], r) then es
    else es[k := Replaced(es[k], r)]
  }

  lemma FirstMatchIs(es: seq<Entry>, r: Request, k: nat)
    requires k < |es| && Matches(es[k], r) && forall i :: 0 <= i < k ==> !Matches(es[i], r)
    ensures FirstMatch(es, r) == k
  {
  }

  lemma NewEntryMatches(r: Request)
    ensures Matches(NewEntry(r), r)
  {
  }

  // Asking for the same once more changes nothing.
  lemma AskingTwiceIsAskingOnce(es: seq<Entry>, r: Request)
    ensures Made(Made(es, r), r) == Made(es, r)
  {
    hide FirstMatch, IsSatisfied, AgreeSoFar, Info;
    var k, to := FirstMatch(es, r), Made(es, r);
    if k == |es| {
      NewEntryMatches(r);
      FirstMatchIs(to, r, 0);
      assert to[0] == Replaced(to[0], r);
    } else if !IsSatisfied(es[k], r) {
      SameResourceMatches(es[k], r);
      FirstMatchIs(to, r, k);
      assert to[k] == Replaced(to[k], r);
    }
  }

  lemma SameResourceMatches(e: Entry, r: Request)
    ensures Matches(Replaced(e, r), r) == Matches(e, r)
  {
  }

  lemma AgreeMeansPrefix(a: seq<Byte>, b: seq<Byte>)
    ensures AgreeSoFar(a, b) <==> a == b || a < b || b < a
  {
    if AgreeSoFar(a, b) {
      assert |a| == |b| ==> a[..|a|] == a && b[..|b|] == b;
    }
  }

  // The entry for the image has the flags and the version asked for, unless the entry found had these flags already
  // and one of its version and the one asked for goes on where the other ends: then it is left as it is.
  lemma IsHonouredIff(es: seq<Entry>, r: Request)
    ensures var k, to := FirstMatch(es, r), Made(es, r);
            var j := FirstMatch(to, r);
            && j < |to|
            && (to[j].flag == r.flag && to[j].version == VersionOf(r) <==>
                !(k < |es| && es[k].flag == r.flag && r.version.Some?
                  && (es[k].version < r.version.value || r.version.value < es[k].version)))
  {
    hide FirstMatch, AgreeSoFar, Info;
    var k, to := FirstMatch(es, r), Made(es, r);
    if k == |es| {
      NewEntryMatches(r);
      FirstMatchIs(to, r, 0);
    } else {
      SameResourceMatches(es[k], r);
      FirstMatchIs(to, r, k);
      if r.version.Some? {
        AgreeMeansPrefix(r.version.value, es[k].version);
      }
    }
  }

  // For example, an entry that has the flags but no version is taken for one with any version.
  lemma NoVersionPassesForAny(flag: Flag, version: seq<Byte>, es: seq<Entry>)
    requires version != [] && es == [Entry([], flag, [])]
    ensures var r := Request(None, flag, Some(version));
            Made(es, r) == es && es[FirstMatch(es, r)].version != version
  {
    FirstMatchIs(es, Request(None, flag, Some(version)), 0);
  }

  // ---- The bytes ----

  // RtlCompareMemory: how many bytes are the same at the beginning.
  function CompareMemory(a: seq<Byte>, b: seq<Byte>, n: nat): (m: nat)
    requires n <= |a| && n <= |b|
    ensures m <= n && (m == n <==> a[..n] == b[..n])
  {
    if n == 0 then 0
    else
      var m := CompareMemory(a, b, n - 1);
      assert a[..n] == a[..n - 1] + [a[n - 1]] && b[..n] == b[..n - 1] + [b[n - 1]];
      if m == n - 1 && a[n - 1] == b[n - 1] then n else m
  }

  // The fields of the entry at p.
  lemma FieldsAt(blob: seq<Byte>, p: nat, e: Entry, rest: seq<Byte>)
    requires p <= |blob| && blob[p..] == EntryBytes(e) + rest && EntrySize(e) < 0x1_0000_0000
    ensures p + EntrySize(e) <= |blob| && blob[p + EntrySize(e)..] == rest
    ensures GetDword(blob, p) == EntrySize(e) && GetDword(blob, p + 4) == |e.resource|
    ensures blob[p..p + EntrySize(e)] == EntryBytes(e)
    ensures var o := p + HEADER + |e.resource|;
            && blob[p + HEADER..o] == e.resource && blob[o..o + FLAG_SIZE] == e.flag
            && blob[o + FLAG_SIZE..p + EntrySize(e)] == e.version
  {
    hide DwordBytes, GetDword;
    var b := EntryBytes(e);
    assert blob[p..p + EntrySize(e)] == blob[p..][..EntrySize(e)];
    assert blob[p + EntrySize(e)..] == blob[p..][EntrySize(e)..];
    SlicesOf(blob, p, b);
    EntryParts(e);
    DwordIn(blob, p, b, 0, EntrySize(e));
    DwordIn(blob, p, b, 4, |e.resource|);
  }

  lemma EntryParts(e: Entry)
    requires EntrySize(e) < 0x1_0000_0000
    ensures var b, o := EntryBytes(e), HEADER + |e.resource|;
            && b[0..4] == DwordBytes(EntrySize(e)) && b[4..8] == DwordBytes(|e.resource|)
            && b[HEADER..o] == e.resource && b[o..o + FLAG_SIZE] == e.flag
            && b[o + FLAG_SIZE..EntrySize(e)] == e.version
  {
    hide DwordBytes;
  }

  lemma SlicesOf(blob: seq<Byte>, p: nat, b: seq<Byte>)
    requires p + |b| <= |blob| && blob[p..p + |b|] == b
    ensures ReadAt(blob, p, |b|) == b
    ensures forall i, j :: 0 <= i <= j <= |b| ==> blob[p + i..p + j] == b[i..j]
  {
    forall i | 0 <= i < |b|
      ensures blob[p + i] == b[i]
    {
      assert blob[p..p + |b|][i] == blob[p + i];
    }
    forall i, j | 0 <= i <= j <= |b|
      ensures blob[p + i..p + j] == b[i..j]
    {
      assert b[i..j] == blob[p..p + |b|][i..j];
    }
  }

  // The walk stands at the i-th entry.
  ghost predicate IsAt(blob: seq<Byte>, es: seq<Entry>, p: nat, i: nat) {
    i <= |es| && p <= |blob| && blob[p..] == EntriesBytes(es[i..])
  }

  // The entry it stands at, and the next.
  lemma NextAt(blob: seq<Byte>, es: seq<Entry>, p: nat, i: nat)
    requires IsAt(blob, es, p, i) && i < |es| && Fits(es)
    ensures p + EntrySize(es[i]) <= |blob| && GetDword(blob, p) == EntrySize(es[i])
    ensures GetDword(blob, p + 4) == |es[i].resource| && blob[p..p + EntrySize(es[i])] == EntryBytes(es[i])
    ensures IsAt(blob, es, p + EntrySize(es[i]), i + 1)
    ensures Size(es[i..]) == EntrySize(es[i]) + Size(es[i + 1..])
    ensures var o := p + HEADER + |es[i].resource|;
            && o + FLAG_SIZE <= p + EntrySize(es[i])
            && blob[p + HEADER..o] == es[i].resource && blob[o..o + FLAG_SIZE] == es[i].flag
            && blob[o + FLAG_SIZE..p + EntrySize(es[i])] == es[i].version
  {
    hide EntriesBytes, EntryBytes, GetDword, Size;
    SizeOfRest(es, i);
    FieldsAt(blob, p, es[i], EntriesBytes(es[i + 1..]));
  }

  lemma SizeOfRest(es: seq<Entry>, i: nat)
    requires i < |es|
    ensures Size(es[i..]) == EntrySize(es[i]) + Size(es[i + 1..])
    ensures EntriesBytes(es[i..]) == EntryBytes(es[i]) + EntriesBytes(es[i + 1..])
    ensures Size(es[i..]) <= Size(es) && EntrySize(es[i]) <= Size(es)
  {
    assert es[i..][0] == es[i] && es[i..][1..] == es[i + 1..];
    SizeShrinks(es, i);
  }

  lemma {:induction false} SizeShrinks(es: seq<Entry>, i: nat)
    requires i <= |es|
    ensures Size(es[i..]) <= Size(es)
  {
    if i > 0 {
      SizeShrinks(es[1..], i - 1);
      assert es[1..][i - 1..] == es[i..];
    } else {
      assert es[0..] == es;
    }
  }

  lemma {:induction false} RestsDiffer(es: seq<Entry>, i: nat, j: nat)
    requires i < j <= |es|
    ensures Size(es[i..]) > Size(es[j..])
    decreases j - i
  {
    SizeOfRest(es, i);
    if i + 1 < j {
      RestsDiffer(es, i + 1, j);
    }
  }

  // Whether the entry at p is that of the image.
  method IsMatch(blob: seq<Byte>, p: nat, r: Request, ghost e: Entry) returns (b: bool)
    requires p + EntrySize(e) <= |blob| && GetDword(blob, p + 4) == |e.resource|
    requires blob[p + HEADER..p + HEADER + |e.resource|] == e.resource
    ensures b == Matches(e, r)
  {
    hide GetDword;
    var inputCompareLength: nat := GetDword(blob, p + 4);
    var outputCompareLength: nat := 0;
    var resource := blob[p + HEADER..p + HEADER + inputCompareLength];
    if r.resource.Some? {
      if inputCompareLength > |Info(r)| {
        inputCompareLength := |Info(r)|;
      }
      outputCompareLength := CompareMemory(resource, Info(r), inputCompareLength);
    }
    b := inputCompareLength == outputCompareLength;
  }

  // Whether the flags and the version stored with it are those asked for.
  method IsSame(blob: seq<Byte>, p: nat, r: Request, ghost e: Entry) returns (b: bool)
    requires p + EntrySize(e) <= |blob| && GetDword(blob, p) == EntrySize(e) && GetDword(blob, p + 4) == |e.resource|
    requires var o := p + HEADER + |e.resource|;
             blob[o..o + FLAG_SIZE] == e.flag && blob[o + FLAG_SIZE..p + EntrySize(e)] == e.version
    ensures b == IsSatisfied(e, r)
  {
    hide GetDword;
    var offset: nat := HEADER + GetDword(blob, p + 4);
    var flags := blob[p + offset..p + offset + FLAG_SIZE];
    var fAppCompatMatch := CompareMemory(r.flag, flags, FLAG_SIZE) == FLAG_SIZE;
    var fOsVersionMatch := false;
    if r.version.Some? {
      var stored := blob[p + offset + FLAG_SIZE..p + GetDword(blob, p)];
      var n := if |stored| > |r.version.value| then |r.version.value| else |stored|;
      fOsVersionMatch := CompareMemory(r.version.value, stored, n) == n;
    }
    assert r.flag[..FLAG_SIZE] == r.flag && flags[..FLAG_SIZE] == flags;
    b := fOsVersionMatch && fAppCompatMatch;
  }

  // The first entry for the image.
  method FindEntry(blob: seq<Byte>, r: Request, ghost es: seq<Entry>) returns (stored: Option<nat>)
    requires blob == GooBytes(es) && Fits(es)
    ensures stored.None? <==> FirstMatch(es, r) == |es|
    ensures stored.Some? ==> IsAt(blob, es, stored.value, FirstMatch(es, r))
  {
    hide EntriesBytes, EntryBytes, EntrySize, Matches, GetDword, DwordBytes, Size, IsAt, FirstMatch;
    Start(blob, es);
    var p: nat := 4;
    var totalGooLength: nat := GetDword(blob, 0) - 4;
    ghost var i := 0;
    while totalGooLength != 0
      invariant i <= |es| && IsAt(blob, es, p, i) && totalGooLength == Size(es[i..])
      invariant FirstMatch(es, r) == i + FirstMatch(es[i..], r)
      decreases totalGooLength
    {
      NotOver(es, i);
      NextAt(blob, es, p, i);
      MatchStep(es, i, r);
      HasSize(es[i]);
      var isMatch := IsMatch(blob, p, r, es[i]);
      if isMatch {
        return Some(p);
      }
      totalGooLength := totalGooLength - GetDword(blob, p);
      p := p + GetDword(blob, p);
      i := i + 1;
    }
    Over(es, i);
    MatchEnd(r);
    return None;
  }

  // CheckGooEntry: whether an entry is to be added, and otherwise the new value if one was rewritten; and, for
  // settings that are not permanent, what is to be put back later.
  method CheckGooEntry(blob: seq<Byte>, r: Request, fNotPermanent: bool, ghost es: seq<Entry>)
    returns (fNeedAppend: bool, replacement: Option<seq<Byte>>, previous: Option<seq<Byte>>, fGooAppend: bool)
    requires blob == GooBytes(es) && Fits(es) && Fits(Made(es, r))
    ensures fNeedAppend == (FirstMatch(es, r) == |es|)
    ensures !fNeedAppend ==> (if replacement.Some? then replacement.value else blob) == GooBytes(Made(es, r))
    ensures fNeedAppend ==> replacement.None?
    ensures previous == if fNotPermanent then Some(GooBytes(Without(es, FirstMatch(es, r)))) else None
    ensures fGooAppend == (fNotPermanent && (fNeedAppend || |es| > 1))
  {
    hide EntriesBytes, EntryBytes, EntrySize, Matches, IsSatisfied, GetDword, DwordBytes, Size, IsAt,
         FirstMatch, Replaced;
    hide GooBytes;
    ghost var k := FirstMatch(es, r);
    var stored := FindEntry(blob, r, es);
    fNeedAppend, replacement, previous, fGooAppend := stored.None?, None, None, false;
    if stored.Some? {
      NextAt(blob, es, stored.value, k);
      var same := IsSame(blob, stored.value, r, es[k]);
      if !same {
        var to := ReplaceEntry(blob, stored.value, r, es, k);
        replacement := Some(to);
      }
    }
    if fNotPermanent {
      if stored.Some? {
        var others;
        others, fGooAppend := CopyOthers(blob, stored.value, es, k);
        previous := Some(others);
      } else {
        previous, fGooAppend := Some(blob), true;
      }
    }
  }

  // All entries but the k-th, if there is one.
  function Without(es: seq<Entry>, k: nat): (r: seq<Entry>)
    requires k <= |es|
    ensures |r| == if k < |es| then |es| - 1 else |es|
    ensures forall i :: 0 <= i < |r| ==> r[i] == if i < k then es[i] else es[i + 1]
  {
    if k == |es| then es else es[..k] + es[k + 1..]
  }

  // The others of the first j entries.
  function Others(es: seq<Entry>, k: nat, j: nat): seq<Entry>
    requires k < |es| && j <= |es|
  {
    if j <= k then es[..j] else es[..k] + es[k + 1..j]
  }

  // A value with all entries but the one at `stored`, and whether there are any.
  method CopyOthers(blob: seq<Byte>, stored: nat, ghost es: seq<Entry>, ghost k: nat)
    returns (to: seq<Byte>, fGooAppend: bool)
    requires blob == GooBytes(es) && Fits(es) && k < |es| && IsAt(blob, es, stored, k)
    ensures to == GooBytes(Without(es, k)) && fGooAppend == (|es| > 1)
  {
    hide EntriesBytes, EntryBytes, GetDword, DwordBytes, Size, IsAt, EntrySize, GooBytes, Others;
    Start(blob, es);
    NextAt(blob, es, stored, k);
    SizeWithout(es, k);
    var length: Dword := GetDword(blob, 0) - GetDword(blob, stored);
    GooOf(Without(es, k), length);
    to := DwordBytes(length);
    fGooAppend := false;
    var left: nat := GetDword(blob, 0) - 4;
    var q: nat := 4;
    ghost var j := 0;
    NoOthers(es, k);
    while left != 0
      invariant j <= |es| && IsAt(blob, es, q, j) && left == Size(es[j..])
      invariant to == DwordBytes(length) + EntriesBytes(Others(es, k, j))
      invariant fGooAppend == (Others(es, k, j) != [])
      decreases left
    {
      NotOver(es, j);
      NextAt(blob, es, q, j);
      HasSize(es[j]);
      SameEntry(blob, es, q, j, stored, k);
      OneMoreOther(es, k, j);
      var copyLength: nat := GetDword(blob, q);
      if q != stored {
        Associate(DwordBytes(length), EntriesBytes(Others(es, k, j)), blob[q..q + copyLength]);
        to := to + blob[q..q + copyLength];
        fGooAppend := true;
      }
      q := q + copyLength;
      left := left - copyLength;
      j := j + 1;
    }
    Over(es, j);
    AllOthers(es, k);
  }

  lemma NoOthers(es: seq<Entry>, k: nat)
    requires k < |es|
    ensures Others(es, k, 0) == [] && EntriesBytes([]) == []
  {
  }

  lemma AllOthers(es: seq<Entry>, k: nat)
    requires k < |es|
    ensures Others(es, k, |es|) == Without(es, k) && (Without(es, k) != [] <==> |es| > 1)
  {
    assert es[k + 1..|es|] == es[k + 1..];
  }

  lemma OneMoreOther(es: seq<Entry>, k: nat, j: nat)
    requires k < |es| && j < |es|
    ensures j == k ==> Others(es, k, j + 1) == Others(es, k, j)
    ensures j != k ==>
              && Others(es, k, j + 1) == Others(es, k, j) + [es[j]]
              && EntriesBytes(Others(es, k, j + 1)) == EntriesBytes(Others(es, k, j)) + EntryBytes(es[j])
  {
    hide EntriesBytes, EntryBytes;
    if j != k {
      var less := Others(es, k, j);
      assert Others(es, k, j + 1) == less + [es[j]];
      CopyOneMore(less + [es[j]], |less|);
      assert (less + [es[j]])[..|less| + 1] == less + [es[j]] && (less + [es[j]])[..|less|] == less;
    }
  }

  lemma {:induction false} SizeWithout(es: seq<Entry>, k: nat)
    requires k < |es|
    ensures Size(Without(es, k)) == Size(es) - EntrySize(es[k])
  {
    hide EntrySize, Size;
    EntriesStep(es);
    if k == 0 {
      assert Without(es, 0) == es[1..];
    } else {
      var less := Without(es[1..], k - 1);
      SizeWithout(es[1..], k - 1);
      EntriesStep([es[0]] + less);
      assert ([es[0]] + less)[1..] == less;
      assert Without(es, k) == [es[0]] + less;
    }
  }

  lemma MatchStep(es: seq<Entry>, i: nat, r: Request)
    requires i < |es|
    ensures FirstMatch(es[i..], r) == if Matches(es[i], r) then 0 else 1 + FirstMatch(es[i + 1..], r)
  {
    assert es[i..][0] == es[i] && es[i..][1..] == es[i + 1..];
  }

  lemma MatchEnd(r: Request)
    ensures FirstMatch([], r) == 0
  {
  }

  lemma Start(blob: seq<Byte>, es: seq<Entry>)
    requires blob == GooBytes(es) && Fits(es)
    ensures IsAt(blob, es, 4, 0) && GetDword(blob, 0) == 4 + Size(es) && es[0..] == es
  {
    hide DwordBytes, GetDword, EntriesBytes;
    SlicesOf(blob, 0, blob);
    DwordIn(blob, 0, blob, 0, 4 + Size(es));
  }

  lemma NotOver(es: seq<Entry>, i: nat)
    requires i <= |es| && Size(es[i..]) != 0
    ensures i < |es|
  {
  }

  lemma Over(es: seq<Entry>, i: nat)
    requires i <= |es| && Size(es[i..]) == 0
    ensures i == |es|
  {
  }

  // A new value with the entry at `stored` rewritten; the others are copied.
  method ReplaceEntry(blob: seq<Byte>, stored: nat, r: Request, ghost es: seq<Entry>, ghost k: nat)
    returns (to: seq<Byte>)
    requires blob == GooBytes(es) && Fits(es) && k < |es| && IsAt(blob, es, stored, k)
    requires Fits(es[k := Replaced(es[k], r)])
    ensures to == GooBytes(es[k := Replaced(es[k], r)])
  {
    hide EntriesBytes, EntryBytes, GetDword, DwordBytes, Size, Replaced, IsAt, EntrySize;
    Start(blob, es);
    ResizeIs(es, k, Replaced(es[k], r));
    NextAt(blob, es, stored, k);
    SizeOfRest(es[k := Replaced(es[k], r)], k);
    var entry := RewrittenEntry(blob, stored, r, es[k]);
    var replaceGooLength: nat := GetDword(blob, 0) - GetDword(blob, stored) + |entry|;
    to := CopyEntries(blob, stored, entry, replaceGooLength, es, k, Replaced(es[k], r));
  }

  method CopyEntries(
      blob: seq<Byte>, stored: nat, entry: seq<Byte>, length: Dword, ghost es: seq<Entry>, ghost k: nat, ghost e: Entry)
    returns (to: seq<Byte>)
    requires blob == GooBytes(es) && Fits(es) && k < |es| && IsAt(blob, es, stored, k)
    requires entry == EntryBytes(e) && length == 4 + Size(es[k := e])
    ensures to == GooBytes(es[k := e])
  {
    hide EntriesBytes, EntryBytes, GetDword, DwordBytes, Size, IsAt, EntrySize, GooBytes;
    GooOf(es[k := e], length);
    ghost var made := es[k := e];
    Start(blob, es);
    to := DwordBytes(length);
    var left: nat := length - 4;
    var q: nat := 4;
    ghost var j := 0;
    NothingCopied(made);
    while left != 0
      invariant j <= |es| && IsAt(blob, es, q, j) && left == Size(made[j..])
      invariant to == DwordBytes(length) + EntriesBytes(made[..j])
      decreases left
    {
      NotOver(made, j);
      CopyStep(blob, es, q, j, stored, k, e);
      var copyLength: nat := GetDword(blob, q);
      var part := if q != stored then blob[q..q + copyLength] else entry;
      Associate(DwordBytes(length), EntriesBytes(made[..j]), part);
      to := to + part;
      left := left - |part|;
      q := q + copyLength;
      j := j + 1;
    }
    Over(made, j);
    assert made[..j] == made;
  }

  lemma CopyStep(blob: seq<Byte>, es: seq<Entry>, q: nat, j: nat, p: nat, k: nat, e: Entry)
    requires IsAt(blob, es, q, j) && IsAt(blob, es, p, k) && j < |es| && k < |es| && Fits(es)
    ensures var made, size := es[k := e], EntrySize(es[j]);
            && GetDword(blob, q) == size && q + size <= |blob| && IsAt(blob, es, q + size, j + 1)
            && (if q != p then blob[q..q + size] else EntryBytes(e)) == EntryBytes(made[j])
            && Size(made[j..]) == |EntryBytes(made[j])| + Size(made[j + 1..]) && |EntryBytes(made[j])| > 0
            && EntriesBytes(made[..j + 1]) == EntriesBytes(made[..j]) + EntryBytes(made[j])
  {
    hide EntriesBytes, EntryBytes, GetDword, Size, IsAt, EntrySize;
    NextAt(blob, es, q, j);
    SizeOfRest(es[k := e], j);
    SameEntry(blob, es, q, j, p, k);
    CopyOneMore(es[k := e], j);
    HasSize(es[k := e][j]);
  }

  lemma GooOf(es: seq<Entry>, total: Dword)
    ensures total == 4 + Size(es) ==> GooBytes(es) == DwordBytes(total) + EntriesBytes(es)
  {
    hide DwordBytes, EntriesBytes, Size;
  }

  lemma HasSize(e: Entry)
    ensures EntrySize(e) > 0 && |EntryBytes(e)| == EntrySize(e)
  {
  }

  method RewrittenEntry(blob: seq<Byte>, p: nat, r: Request, ghost e: Entry) returns (entry: seq<Byte>)
    requires p + EntrySize(e) <= |blob| && GetDword(blob, p + 4) == |e.resource|
    requires blob[p..p + EntrySize(e)] == EntryBytes(e) && EntrySize(Replaced(e, r)) < 0x1_0000_0000
    ensures entry == EntryBytes(Replaced(e, r))
  {
    hide GetDword, DwordBytes;
    var offset: nat := HEADER + GetDword(blob, p + 4);
    SlicesOf(blob, p, EntryBytes(e));
    entry := blob[p..p + offset] + r.flag + VersionOf(r);
    var replaceCopyLength: int := offset + FLAG_SIZE + |VersionOf(r)|;
    assert blob[p..p + offset][4..] == DwordBytes(|e.resource|) + e.resource by { PartsBehindSize(e); }
    entry := DwordBytes(replaceCopyLength) + entry[4..];
  }

  lemma PartsBehindSize(e: Entry)
    ensures EntryBytes(e)[0..HEADER + |e.resource|][4..] == DwordBytes(ToDword(|e.resource|)) + e.resource
  {
    hide DwordBytes;
  }

  lemma {:induction false} ResizeIs(es: seq<Entry>, k: nat, e: Entry)
    requires k < |es|
    ensures Size(es[k := e]) == Size(es) - EntrySize(es[k]) + EntrySize(e)
  {
    if k > 0 {
      ResizeIs(es[1..], k - 1, e);
      assert es[k := e][1..] == es[1..][k - 1 := e];
    } else {
      assert es[k := e][1..] == es[1..];
    }
  }

  lemma NothingCopied(es: seq<Entry>)
    ensures EntriesBytes(es[..0]) == [] && es[0..] == es
  {
  }

  lemma {:induction false} CopyOneMore(es: seq<Entry>, j: nat)
    requires j < |es|
    ensures EntriesBytes(es[..j + 1]) == EntriesBytes(es[..j]) + EntryBytes(es[j])
  {
    hide EntryBytes, EntriesBytes;
    EntriesStep(es[..j + 1]);
    EntriesStep(es[..j]);
    assert es[..j + 1][1..] == es[1..][..j];
    if j > 0 {
      CopyOneMore(es[1..], j - 1);
      assert es[..j][1..] == es[1..][..j - 1];
    } else {
      EntriesStep(es[..1][1..]);
    }
  }

  lemma EntriesStep(es: seq<Entry>)
    ensures EntriesBytes(es) == if es == [] then [] else EntryBytes(es[0]) + EntriesBytes(es[1..])
    ensures Size(es) == if es == [] then 0 else EntrySize(es[0]) + Size(es[1..])
  {
  }

  lemma SameEntry(blob: seq<Byte>, es: seq<Entry>, q: nat, j: nat, p: nat, k: nat)
    requires IsAt(blob, es, q, j) && IsAt(blob, es, p, k)
    ensures q == p <==> j == k
  {
    hide EntriesBytes, Size;
    if j < k {
      RestsDiffer(es, j, k);
    } else if k < j {
      RestsDiffer(es, k, j);
    }
  }

  // MakeAppCompatGoo: what the registry has for the executable afterwards.
  method MakeAppCompatGoo(registry: Option<seq<Byte>>, r: Request, fNotPermanent: bool, ghost es: seq<Entry>)
    returns (after: seq<Byte>, previous: Option<seq<Byte>>)
    requires Fits(Made(es, r)) && if registry.None? then es == [] else registry.value == GooBytes(es) && Fits(es)
    ensures after == GooBytes(Made(es, r))
    ensures previous ==
            if fNotPermanent && registry.Some? then Some(GooBytes(Without(es, FirstMatch(es, r)))) else None
  {
    hide GetDword, DwordBytes, Matches, IsSatisfied, EntryBytes, EntriesBytes, GooBytes, FirstMatch, NewEntry, Size;
    var fEntryPresent := false;
    previous := None;
    if registry.Some? {
      var replacement, fGooAppend;
      fEntryPresent, replacement, previous, fGooAppend := CheckGooEntry(registry.value, r, fNotPermanent, es);
      if !fEntryPresent {
        return if replacement.Some? then replacement.value else registry.value, previous;
      }
    }
    AddedInFront(es, r);
    after := PutInFront(if fEntryPresent then registry.value[4..] else [], r);
  }

  // A new entry in front of the bytes of the others.
  method PutInFront(others: seq<Byte>, r: Request) returns (after: seq<Byte>)
    requires 4 + EntrySize(NewEntry(r)) + |others| < 0x1_0000_0000
    ensures after == DwordBytes(4 + EntrySize(NewEntry(r)) + |others|) + EntryBytes(NewEntry(r)) + others
  {
    hide DwordBytes, Info, VersionOf;
    var info, version := Info(r), VersionOf(r);
    var entrySize: int := HEADER + FLAG_SIZE + |version| + |info|;
    var totalGooSize: int := 4 + entrySize + |others|;
    after := DwordBytes(totalGooSize) + (DwordBytes(entrySize) + DwordBytes(|info|) + info + r.flag + version) + others;
  }

  lemma AddedInFront(es: seq<Entry>, r: Request)
    requires FirstMatch(es, r) == |es| && Fits(Made(es, r))
    ensures GooBytes(Made(es, r)) ==
            DwordBytes(4 + EntrySize(NewEntry(r)) + Size(es)) + EntryBytes(NewEntry(r)) + EntriesBytes(es)
    ensures 4 + EntrySize(NewEntry(r)) + Size(es) < 0x1_0000_0000
    ensures GooBytes(es)[4..] == EntriesBytes(es) && (es == [] ==> EntriesBytes(es) == [] && Size(es) == 0)
  {
    hide EntryBytes, EntriesBytes, Size, FirstMatch, NewEntry, IsSatisfied, GooBytes, EntrySize, DwordBytes;
    EntriesStep(es);
    FrontBytes(NewEntry(r), es);
    BehindTotal(es);
  }

  lemma FrontBytes(e: Entry, es: seq<Entry>)
    requires Fits([e] + es)
    ensures EntrySize(e) + Size(es) == Size([e] + es)
    ensures GooBytes([e] + es) == DwordBytes(4 + EntrySize(e) + Size(es)) + EntryBytes(e) + EntriesBytes(es)
  {
    hide DwordBytes, EntryBytes, EntriesBytes, Size, EntrySize;
    EntriesStep([e] + es);
    assert ([e] + es)[1..] == es;
    var a, b, c := DwordBytes(4 + EntrySize(e) + Size(es)), EntryBytes(e), EntriesBytes(es);
    assert a + (b + c) == a + b + c;
  }

  lemma BehindTotal(es: seq<Entry>)
    ensures GooBytes(es)[4..] == EntriesBytes(es)
  {
    hide DwordBytes, EntriesBytes, Size;
  }
}

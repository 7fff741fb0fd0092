// autosafe/autosafe.c: CreateBootEntryFromBootEntry, which lays a boot entry out in one
// allocation and fills it in.

module BootEntryWriter {
  import opened Alignment
  import opened Bytes
  import opened BootEntryFormat

  // MY_BOOT_ENTRY with its pointers, as places in the block that it begins. There are no foreign options.
  datatype InMemory = InMemory(
    status: Status,
    id: Dword,
    attributes: Dword,
    friendlyName: nat,
    friendlyNameLength: nat,
    isNt: bool,
    osLoadOptions: nat,
    osFilePath: nat,
    bootFilePath: nat)

  // The entry that is found by following the pointers.
  function Seen(block: seq<Byte>, m: InMemory): Entry {
    Entry(m.status, m.id, m.attributes, StringAt(block, m.friendlyName), m.friendlyNameLength,
          if m.isNt then Nt(StringAt(block, m.osLoadOptions), FilePathAt(block, m.osFilePath)) else Foreign([]),
          FilePathAt(block, m.bootFilePath))
  }

  // ---- Offsets ----

  lemma FourIsAlignment()
    ensures IsAlignment(4)
  {
    assert Pow2(2) == 4;
  }

  // ALIGN_UP(length, ULONG).
  method AlignUp(length: Dword) returns (r: Dword)
    requires RoundUp(length, 4) < 0x1_0000_0000
    ensures r == RoundUp(length, 4)
  {
    FourIsAlignment();
    AlignRoundsUp(length, 4);
    r := Align(length, 4);
  }

  // The OS options are laid out from an aligned offset on.
  method LayOutOs(os: Os, osOptionsOffset: Dword) returns (osLoadPathOffset: Dword, requiredLength: Dword)
    requires osOptionsOffset % 4 == 0 && osOptionsOffset + |OsBytes(os)| < 0x1_0000_0000
    ensures requiredLength == osOptionsOffset + |OsBytes(os)|
    ensures osLoadPathOffset == if os.Nt? then requiredLength - |os.filePath| else 0
  {
    hide RoundUp, OsHeader, StringBytes;
    requiredLength := osOptionsOffset;
    if os.Nt? {
      var osLoadOptionsLength := 2 * (|os.loadOptions| + 1);
      RoundUpShifts(osOptionsOffset, OS_LOAD_OPTIONS + osLoadOptionsLength, 4);
      requiredLength := requiredLength + OS_LOAD_OPTIONS;
      requiredLength := requiredLength + osLoadOptionsLength;
      requiredLength := AlignUp(requiredLength);
      osLoadPathOffset := requiredLength;
      requiredLength := requiredLength + |os.filePath|;
    } else {
      requiredLength := requiredLength + |os.options|;
      osLoadPathOffset := 0;
    }
  }

  method LayOut(e: Entry, base: Dword)
    returns (osLoadPathOffset: Dword, osOptionsLength: Dword, friendlyNameOffset: Dword, bootPathOffset: Dword,
             requiredLength: Dword)
    requires base % 4 == 0 && base + Length(e) < 0x1_0000_0000
    ensures osOptionsLength == |OsBytes(e.os)|
    ensures osLoadPathOffset == if e.os.Nt? then base + OS_OPTIONS + osOptionsLength - |e.os.filePath| else 0
    ensures friendlyNameOffset == base + NameAt(e) && bootPathOffset == base + PathAt(e)
    ensures requiredLength == base + Length(e)
  {
    hide RoundUp, OsBytes;
    requiredLength := base;
    requiredLength := requiredLength + OS_OPTIONS;
    var osOptionsOffset := requiredLength;
    osLoadPathOffset, requiredLength := LayOutOs(e.os, osOptionsOffset);
    osOptionsLength := requiredLength - osOptionsOffset;
    RoundUpShifts(base, OS_OPTIONS + osOptionsLength, 4);
    requiredLength := AlignUp(requiredLength);
    friendlyNameOffset := requiredLength;
    requiredLength := requiredLength + e.nameLength;
    RoundUpShifts(base, NameAt(e) + e.nameLength, 4);
    requiredLength := AlignUp(requiredLength);
    bootPathOffset := requiredLength;
    requiredLength := requiredLength + |e.bootPath|;
  }

  // ---- Filling in ----

  method PutBytes(block: array<Byte>, p: nat, b: seq<Byte>)
    requires p + |b| <= block.Length
    modifies block
    ensures block[..] == WriteAt(old(block[..]), p, b)
  {
    hide WriteAt;
    ghost var was := block[..];
    WrittenAt(was, p, b);
    forall i | 0 <= i < |b| {
      block[p + i] := b[i];
    }
    forall i | 0 <= i
      ensures At(block[..], i) == At(WriteAt(was, p, b), i)
    {}
    SameFile(block[..], WriteAt(was, p, b));
  }

  method PutDword(block: array<Byte>, p: nat, d: Dword)
    requires p + 4 <= block.Length
    modifies block
    ensures block[..] == WriteAt(old(block[..]), p, DwordBytes(d))
  {
    PutBytes(block, p, DwordBytes(d));
  }

  // Writing just before the last write.
  lemma WriteBefore(s: seq<Byte>, p: nat, a: seq<Byte>, b: seq<Byte>)
    ensures WriteAt(WriteAt(s, p + |a|, b), p, a) == WriteAt(s, p, a + b)
  {
    hide WriteAt;
    WrittenAt(s, p + |a|, b);
    WrittenAt(WriteAt(s, p + |a|, b), p, a);
    WrittenAt(s, p, a + b);
    LengthsAgree(s, p, a, b);
    SameFile(WriteAt(WriteAt(s, p + |a|, b), p, a), WriteAt(s, p, a + b));
  }

  lemma LengthsAgree(s: seq<Byte>, p: nat, a: seq<Byte>, b: seq<Byte>)
    ensures |WriteAt(WriteAt(s, p + |a|, b), p, a)| == |WriteAt(s, p, a + b)|
  {
  }

  method FillHeader(block: array<Byte>, p: nat, e: Entry, length: Dword, nameOffset: Dword, pathOffset: Dword,
                    osLength: Dword)
    requires p + OS_OPTIONS <= block.Length
    requires length == Length(e) && nameOffset == NameAt(e) && pathOffset == PathAt(e) && osLength == |OsBytes(e.os)|
    modifies block
    ensures block[..] == WriteAt(old(block[..]), p, Header(e))
  {
    hide WriteAt, DwordBytes, RoundUp, OsBytes;
    ghost var was := block[..];
    PutDword(block, p, VERSION);
    PutDword(block, p + 4, length);
    ghost var h := DwordBytes(VERSION) + DwordBytes(length);
    WriteOn(was, p, DwordBytes(VERSION), DwordBytes(length));
    PutDword(block, p + 12, e.attributes);
    PutDword(block, p + 8, e.id);
    WriteBefore(WriteAt(was, p, h), p + 8, DwordBytes(e.id), DwordBytes(e.attributes));
    WriteOn(was, p, h, DwordBytes(e.id) + DwordBytes(e.attributes));
    h := h + (DwordBytes(e.id) + DwordBytes(e.attributes));
    PutDword(block, p + 16, nameOffset);
    WriteOn(was, p, h, DwordBytes(nameOffset));
    h := h + DwordBytes(nameOffset);
    PutDword(block, p + 20, pathOffset);
    WriteOn(was, p, h, DwordBytes(pathOffset));
    h := h + DwordBytes(pathOffset);
    PutDword(block, p + 24, osLength);
    WriteOn(was, p, h, DwordBytes(osLength));
    h := h + DwordBytes(osLength);
    assert h == Header(e);
  }

  // What is written into zeros, some way behind what is there already.
  lemma PutInZeros(s: seq<Byte>, a: seq<Byte>, gap: nat, b: seq<Byte>, rest: nat)
    requires s == a + Zeros(gap + |b| + rest)
    ensures WriteAt(s, |a| + gap, b) == (a + Zeros(gap) + b) + Zeros(rest)
  {
    hide WriteAt;
    var t := (a + Zeros(gap) + b) + Zeros(rest);
    WrittenAt(s, |a| + gap, b);
    forall i | 0 <= i
      ensures At(WriteAt(s, |a| + gap, b), i) == At(t, i)
    {}
    SameFile(WriteAt(s, |a| + gap, b), t);
  }

  // Behind what is there, the block is all zeros.
  ghost predicate IsFilled(block: array<Byte>, a: seq<Byte>)
    reads block
  {
    |a| <= block.Length && block[..] == a + Zeros(block.Length - |a|)
  }

  // The next part goes some way behind what is there.
  method PutPart(block: array<Byte>, p: nat, b: seq<Byte>, ghost a: seq<Byte>)
    requires IsFilled(block, a) && |a| <= p && p + |b| <= block.Length
    modifies block
    ensures IsFilled(block, a + Zeros(p - |a|) + b)
  {
    hide WriteAt;
    PutInZeros(block[..], a, p - |a|, b, block.Length - p - |b|);
    PutBytes(block, p, b);
  }

  method FillOsHeader(block: array<Byte>, p: nat, length: Dword, path: Dword)
    requires p + OS_LOAD_OPTIONS <= block.Length
    modifies block
    ensures block[..] == WriteAt(old(block[..]), p, OsHeader(length, path))
  {
    hide WriteAt, DwordBytes;
    ghost var was := block[..];
    PutBytes(block, p, SIGNATURE);
    PutDword(block, p + 8, VERSION);
    WriteOn(was, p, SIGNATURE, DwordBytes(VERSION));
    PutDword(block, p + 12, length);
    WriteOn(was, p, SIGNATURE + DwordBytes(VERSION), DwordBytes(length));
    PutDword(block, p + 16, path);
    WriteOn(was, p, SIGNATURE + DwordBytes(VERSION) + DwordBytes(length), DwordBytes(path));
  }

  // The OS options, and the OS path where there is one.
  method FillOs(block: array<Byte>, p: nat, os: Os, osLength: Dword, osPathOffset: Dword, ghost a: seq<Byte>)
    requires IsFilled(block, a) && |a| == p && osLength == |OsBytes(os)| && p + osLength <= block.Length
    requires os.Nt? ==> osPathOffset == p + osLength - |os.filePath|
    modifies block
    ensures IsFilled(block, a + OsBytes(os))
  {
    hide WriteAt, StringBytes, RoundUp, OsHeader, Zeros;
    if os.Nt? {
      ghost var h, t := OsHeader(osLength, osPathOffset - p), StringBytes(os.loadOptions);
      NoZeros();
      PutInZeros(block[..], a, 0, h, block.Length - p - OS_LOAD_OPTIONS);
      FillOsHeader(block, p, osLength, osPathOffset - p);
      assert a + Zeros(0) + h == a + h;
      PutPart(block, p + OS_LOAD_OPTIONS, StringBytes(os.loadOptions), a + h);
      assert a + h + Zeros(0) + t == a + h + t;
      PutPart(block, osPathOffset, os.filePath, a + h + t);
      assert a + OsBytes(os) == a + h + t + Zeros(osPathOffset - p - |h + t|) + os.filePath;
    } else {
      NoZeros();
      assert a + Zeros(0) + os.options == a + os.options;
      PutPart(block, p, os.options, a);
    }
  }

  lemma NoZeros()
    ensures Zeros(0) == []
  {
  }

  // The block has the bytes of the NT entry behind the `base` bytes of the structure that is kept in memory
  // alone; the pointers of that structure lead to the parts of the entry, but for foreign options.
  method CreateBootEntryFromBootEntry(oldEntry: Entry, base: Dword) returns (block: array<Byte>, newEntry: InMemory)
    requires IsWritable(oldEntry) && base % 4 == 0 && base + Length(oldEntry) < 0x1_0000_0000
    ensures fresh(block) && block[..] == Zeros(base) + NtBytes(oldEntry)
    ensures Seen(block[..], newEntry) == Rebuilt(oldEntry)
  {
    hide RoundUp, OsBytes, Header, StringBytes, NameAt, PathAt, WriteAt, Zeros, Seen;
    PartsAreApart(oldEntry);
    var osPathOffset, osLength, nameOffset, pathOffset, requiredLength := LayOut(oldEntry, base);
    block := new Byte[requiredLength](_ => 0);
    newEntry := InMemory(UNCHANGED, oldEntry.id, oldEntry.attributes, nameOffset, oldEntry.nameLength, oldEntry.os.Nt?,
                         base + OS_OPTIONS + OS_LOAD_OPTIONS, osPathOffset, pathOffset);
    ghost var a := Zeros(base);
    assert block[..] == [] + Zeros(base + OS_OPTIONS + (requiredLength - base - OS_OPTIONS));
    PutInZeros(block[..], [], base, Header(oldEntry), requiredLength - base - OS_OPTIONS);
    FillHeader(block, base, oldEntry, requiredLength - base, nameOffset - base, pathOffset - base, osLength);
    a := [] + Zeros(base) + Header(oldEntry);
    FillOs(block, base + OS_OPTIONS, oldEntry.os, osLength, osPathOffset, a);
    a := a + OsBytes(oldEntry.os);
    PutPart(block, nameOffset, StringBytes(oldEntry.name), a);
    a := a + Zeros(nameOffset - |a|) + StringBytes(oldEntry.name);
    PutPart(block, pathOffset, oldEntry.bootPath, a);
    a := a + Zeros(pathOffset - |a|) + oldEntry.bootPath;
    AllTogether(oldEntry, base, a);
    SeenIsRebuilt(oldEntry, base, block[..], newEntry);
  }

  // The pointers lead to what was written.
  lemma SeenIsRebuilt(e: Entry, base: nat, block: seq<Byte>, m: InMemory)
    requires IsWritable(e) && block == Zeros(base) + NtBytes(e)
    requires |OsBytes(e.os)| >= if e.os.Nt? then |e.os.filePath| else 0
    requires m == InMemory(UNCHANGED, e.id, e.attributes, base + NameAt(e), e.nameLength, e.os.Nt?,
                           base + OS_OPTIONS + OS_LOAD_OPTIONS,
                           if e.os.Nt? then base + OS_OPTIONS + |OsBytes(e.os)| - |e.os.filePath| else 0,
                           base + PathAt(e))
    ensures Seen(block, m) == Rebuilt(e)
  {
    hide RoundUp, OsBytes, Header, NameBytes, NtBytes, NameAt, PathAt, StringAt, FilePathAt, GetDword, Zeros, IsString;
    var nt := NtBytes(e);
    PartsAreApart(e);
    PartsAreThere(e);
    ReadBehind(base, nt, NameAt(e), e.nameLength);
    NameReadsBack(block, base + NameAt(e), e);
    ReadBehind(base, nt, PathAt(e), |e.bootPath|);
    FilePathIsThere(block, base + PathAt(e), e.bootPath);
    if e.os.Nt? {
      ReadBehind(base, nt, OS_OPTIONS, |OsBytes(e.os)|);
      NtOsReadsBack(block, base + OS_OPTIONS, e.os);
    }
  }

  lemma ReadBehind(base: nat, nt: seq<Byte>, p: nat, n: nat)
    ensures ReadAt(Zeros(base) + nt, base + p, n) == ReadAt(nt, p, n)
  {
  }

  lemma AllTogether(e: Entry, base: nat, a: seq<Byte>)
    requires 2 * (|e.name| + 1) <= e.nameLength
    requires NameAt(e) >= OS_OPTIONS + |OsBytes(e.os)| && PathAt(e) >= NameAt(e) + e.nameLength
    requires a == ([] + Zeros(base) + Header(e)) + OsBytes(e.os) + Zeros(NameAt(e) - OS_OPTIONS - |OsBytes(e.os)|)
                  + StringBytes(e.name) + Zeros(PathAt(e) - NameAt(e) - 2 * (|e.name| + 1)) + e.bootPath
    ensures a + Zeros(0) == Zeros(base) + NtBytes(e)
  {
    hide RoundUp, OsBytes, Header, StringBytes, NameAt, PathAt;
    var k, m := e.nameLength - 2 * (|e.name| + 1), PathAt(e) - NameAt(e) - e.nameLength;
    assert Zeros(k + m) == Zeros(k) + Zeros(m);
  }
}

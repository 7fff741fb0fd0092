// EFI boot entries as autosafe.c keeps them in memory, and as the bytes of the NT
// structures BOOT_ENTRY, WINDOWS_OS_OPTIONS and FILE_PATH.

module BootEntryFormat {
  import opened Alignment
  import opened Bytes

  const OS_OPTIONS := 28 // FIELD_OFFSET(BOOT_ENTRY, OsOptions)
  const OS_LOAD_OPTIONS := 20 // FIELD_OFFSET(WINDOWS_OS_OPTIONS, OsLoadOptions)
  const FILE_PATH_HEADER := 12 // FIELD_OFFSET(FILE_PATH, FilePath)
  const VERSION := 1 // BOOT_ENTRY_VERSION and WINDOWS_OS_OPTIONS_VERSION
  const ACTIVE := 1 // BOOT_ENTRY_ATTRIBUTE_ACTIVE

  // WINDOWS_OS_OPTIONS_SIGNATURE with its terminating NUL.
  const SIGNATURE: seq<Byte> := [0x57, 0x49, 0x4E, 0x44, 0x4F, 0x57, 0x53, 0]

  datatype Os = Nt(loadOptions: seq<Word>, filePath: seq<Byte>) | Foreign(options: seq<Byte>)

  datatype Status = Status(isNew: bool, deleted: bool, modified: bool)
  const UNCHANGED := Status(false, false, false)

  // MY_BOOT_ENTRY. The length of the name is that of the room it was found in, its terminating NUL included.
  datatype Entry = Entry(
    status: Status,
    id: Dword,
    attributes: Dword,
    name: seq<Word>,
    nameLength: nat,
    os: Os,
    bootPath: seq<Byte>)

  // ---- Strings and paths ----

  // wcslen and wcscpy: up to the first NUL.
  function StringAt(s: seq<Byte>, p: nat): seq<Word>
    decreases |s| - p
  {
    if p >= |s| || GetWord(s, p) == 0 then [] else [GetWord(s, p)] + StringAt(s, p + 2)
  }

  function StringBytes(w: seq<Word>): (b: seq<Byte>)
    ensures |b| == 2 * (|w| + 1)
  {
    if w == [] then WordBytes(0) else WordBytes(w[0]) + StringBytes(w[1..])
  }

  predicate IsString(w: seq<Word>) {
    0 !in w
  }

  lemma {:induction false} StringAtBytes(s: seq<Byte>, p: nat, w: seq<Word>)
    requires IsString(w) && ReadAt(s, p, 2 * (|w| + 1)) == StringBytes(w) && p < |s|
    requires |w| > 0 ==> p + 2 * |w| < |s|
    ensures StringAt(s, p) == w
    decreases |w|
  {
    hide WordBytes, GetWord;
    var b := StringBytes(w);
    if w == [] {
      WordIn(s, p, b, 0, 0);
    } else {
      WordIn(s, p, b, 0, w[0]);
      ReadWithin(s, p, b, 2, |b| - 2);
      assert b[2..] == StringBytes(w[1..]);
      StringAtBytes(s, p + 2, w[1..]);
    }
  }

  lemma {:induction false} StringAtIsString(s: seq<Byte>, p: nat)
    ensures IsString(StringAt(s, p))
    decreases |s| - p
  {
    if p < |s| && GetWord(s, p) != 0 {
      StringAtIsString(s, p + 2);
    }
  }

  // A FILE_PATH knows its length.
  function FilePathAt(s: seq<Byte>, p: nat): seq<Byte> {
    ReadAt(s, p, GetDword(s, p + 4))
  }

  predicate IsFilePath(b: seq<Byte>) {
    |b| >= FILE_PATH_HEADER && GetDword(b, 4) == |b|
  }

  // ---- Pieces of byte sequences ----

  lemma PieceAt(a: seq<Byte>, b: seq<Byte>, c: seq<Byte>)
    ensures ReadAt(a + b + c, |a|, |b|) == b
  {
  }

  lemma FilePathIsThere(s: seq<Byte>, p: nat, b: seq<Byte>)
    requires IsFilePath(b) && ReadAt(s, p, |b|) == b
    ensures FilePathAt(s, p) == b
  {
    hide GetDword;
    DwordFrom(s, p, b, 4);
  }

  // ---- Parsing ----

  predicate LooksNt(options: seq<Byte>) {
    |options| >= OS_LOAD_OPTIONS && options[..8] == SIGNATURE
  }

  // What ConvertBootEntries makes of a BOOT_ENTRY.
  function Parsed(nt: seq<Byte>): Entry {
    var options := ReadAt(nt, OS_OPTIONS, GetDword(nt, 24));
    var name := StringAt(nt, GetDword(nt, 16));
    Entry(UNCHANGED, GetDword(nt, 8), GetDword(nt, 12), name, 2 * (|name| + 1),
          if LooksNt(options)
          then Nt(StringAt(nt, OS_OPTIONS + OS_LOAD_OPTIONS),
                  FilePathAt(nt, OS_OPTIONS + GetDword(nt, OS_OPTIONS + 16)))
          else Foreign(options),
          FilePathAt(nt, GetDword(nt, 20)))
  }

  // The string from p on ends at the first NUL, or with the bytes.
  lemma {:induction false} StringAtIs(s: seq<Byte>, p: nat)
    ensures var w := StringAt(s, p);
            && (forall k :: 0 <= k < |w| ==> GetWord(s, p + 2 * k) == w[k] != 0)
            && (p + 2 * |w| >= |s| || GetWord(s, p + 2 * |w|) == 0)
    decreases |s| - p
  {
    hide GetWord;
    if p < |s| && GetWord(s, p) != 0 {
      StringAtIs(s, p + 2);
      var w := StringAt(s, p);
      forall k | 0 < k < |w|
        ensures GetWord(s, p + 2 * k) == w[k] != 0
      {
        assert StringAt(s, p + 2)[k - 1] == w[k] && p + 2 + 2 * (k - 1) == p + 2 * k;
      }
      assert p + 2 + 2 * (|w| - 1) == p + 2 * |w|;
    }
  }

  // Where each part of an entry is looked for, whatever the bytes are. Options are those of NT if they have room for
  // the header and begin with its signature.
  lemma ParsedIs(nt: seq<Byte>)
    ensures var e, length := Parsed(nt), GetDword(nt, 24);
            && e.id == GetDword(nt, 8) && e.attributes == GetDword(nt, 12)
            && e.name == StringAt(nt, GetDword(nt, 16)) && e.nameLength == 2 * (|e.name| + 1)
            && e.bootPath == ReadAt(nt, GetDword(nt, 20), GetDword(nt, GetDword(nt, 20) + 4))
            && (e.os.Nt? <==>
                length >= 20 && ReadAt(nt, 28, 8) == [0x57, 0x49, 0x4E, 0x44, 0x4F, 0x57, 0x53, 0])
            && (match e.os
                case Foreign(options) => options == ReadAt(nt, 28, length)
                case Nt(loadOptions, filePath) =>
                  var path := 28 + GetDword(nt, 44);
                  loadOptions == StringAt(nt, 48) && filePath == ReadAt(nt, path, GetDword(nt, path + 4)))
            && e.status == Status(false, false, false)
  {
    hide GetDword, StringAt;
    var length := GetDword(nt, 24);
    if length >= 20 {
      assert ReadAt(nt, 28, length)[..8] == ReadAt(nt, 28, 8);
    }
  }

  // ---- Writing ----

  // The bytes of WINDOWS_OS_OPTIONS, or the foreign options as they are.
  function OsBytes(os: Os): seq<Byte> {
    match os
    case Foreign(options) => options
    case Nt(loadOptions, filePath) =>
      var path := RoundUp(OS_LOAD_OPTIONS + 2 * (|loadOptions| + 1), 4);
      OsHeader(path + |filePath|, path) + StringBytes(loadOptions)
      + Zeros(path - (OS_LOAD_OPTIONS + 2 * (|loadOptions| + 1))) + filePath
  }

  function OsHeader(length: nat, path: nat): (b: seq<Byte>)
    ensures |b| == OS_LOAD_OPTIONS
  {
    SIGNATURE + DwordBytes(VERSION) + DwordBytes(ToDword(length)) + DwordBytes(ToDword(path))
  }

  function NameAt(e: Entry): nat {
    RoundUp(OS_OPTIONS + |OsBytes(e.os)|, 4)
  }

  function PathAt(e: Entry): nat {
    RoundUp(NameAt(e) + e.nameLength, 4)
  }

  function Length(e: Entry): nat {
    PathAt(e) + |e.bootPath|
  }

  // The name fits the room kept for it; the whole is addressed by 32-bit offsets.
  predicate IsWritable(e: Entry) {
    && IsString(e.name) && 2 * (|e.name| + 1) <= e.nameLength
    && IsFilePath(e.bootPath)
    && (e.os.Nt? ==> IsString(e.os.loadOptions) && IsFilePath(e.os.filePath))
    && Length(e) < 0x1_0000_0000
  }

  function Header(e: Entry): (b: seq<Byte>)
    ensures |b| == OS_OPTIONS
  {
    DwordBytes(VERSION) + DwordBytes(ToDword(Length(e))) + DwordBytes(e.id) + DwordBytes(e.attributes)
    + DwordBytes(ToDword(NameAt(e))) + DwordBytes(ToDword(PathAt(e))) + DwordBytes(ToDword(|OsBytes(e.os)|))
  }

  function NameBytes(e: Entry): (b: seq<Byte>)
    requires 2 * (|e.name| + 1) <= e.nameLength
    ensures |b| == e.nameLength
  {
    StringBytes(e.name) + Zeros(e.nameLength - 2 * (|e.name| + 1))
  }

  // The bytes of the BOOT_ENTRY.
  function NtBytes(e: Entry): (b: seq<Byte>)
    requires 2 * (|e.name| + 1) <= e.nameLength
    ensures |b| == Length(e)
  {
    Header(e) + OsBytes(e.os) + Zeros(NameAt(e) - OS_OPTIONS - |OsBytes(e.os)|)
    + NameBytes(e) + Zeros(PathAt(e) - NameAt(e) - e.nameLength) + e.bootPath
  }

  // ---- Reading back what was written ----

  // All parts begin at multiples of four, one behind the other, and the last ends with the entry.
  lemma PartsAreApart(e: Entry)
    requires 2 * (|e.name| + 1) <= e.nameLength
    ensures OS_OPTIONS + |OsBytes(e.os)| <= NameAt(e) < OS_OPTIONS + |OsBytes(e.os)| + 4 && NameAt(e) % 4 == 0
    ensures NameAt(e) + e.nameLength <= PathAt(e) < NameAt(e) + e.nameLength + 4 && PathAt(e) % 4 == 0
    ensures PathAt(e) + |e.bootPath| == |NtBytes(e)|
    ensures e.os.Nt? ==>
              var path := |OsBytes(e.os)| - |e.os.filePath|;
              path % 4 == 0 && OS_LOAD_OPTIONS + 2 * (|e.os.loadOptions| + 1) <= path
  {
    hide RoundUp, StringBytes, Header, NameBytes;
    RoundUpIsMultiple(OS_OPTIONS + |OsBytes(e.os)|, 4);
    RoundUpIsMultiple(NameAt(e) + e.nameLength, 4);
    if e.os.Nt? {
      RoundUpIsMultiple(OS_LOAD_OPTIONS + 2 * (|e.os.loadOptions| + 1), 4);
    }
  }

  lemma PartsAreThere(e: Entry)
    requires 2 * (|e.name| + 1) <= e.nameLength
    ensures var nt := NtBytes(e);
            && ReadAt(nt, 0, OS_OPTIONS) == Header(e)
            && ReadAt(nt, OS_OPTIONS, |OsBytes(e.os)|) == OsBytes(e.os)
            && ReadAt(nt, NameAt(e), e.nameLength) == NameBytes(e)
            && ReadAt(nt, PathAt(e), |e.bootPath|) == e.bootPath
  {
    hide RoundUp, OsBytes, Header, NameBytes, NameAt, PathAt, Zeros;
    PartsAreApart(e);
    var os, name := OsBytes(e.os), NameBytes(e);
    var z, y := Zeros(NameAt(e) - OS_OPTIONS - |os|), Zeros(PathAt(e) - NameAt(e) - e.nameLength);
    FourPieces(Header(e), os, z, name, y, e.bootPath, NtBytes(e), NameAt(e), PathAt(e));
  }

  lemma FourPieces(
      a: seq<Byte>, b: seq<Byte>, y: seq<Byte>, c: seq<Byte>, z: seq<Byte>, d: seq<Byte>, s: seq<Byte>, p: nat, q: nat)
    requires s == a + b + y + c + z + d && p == |a| + |b| + |y| && q == p + |c| + |z|
    ensures ReadAt(s, 0, |a|) == a && ReadAt(s, |a|, |b|) == b && ReadAt(s, p, |c|) == c && ReadAt(s, q, |d|) == d
  {
    hide ReadAt;
    assert s == [] + a + (b + y + c + z + d);
    PieceAt([], a, b + y + c + z + d);
    assert s == a + b + (y + c + z + d);
    PieceAt(a, b, y + c + z + d);
    assert s == (a + b + y) + c + (z + d);
    PieceAt(a + b + y, c, z + d);
    assert s == (a + b + y + c + z) + d + [];
    PieceAt(a + b + y + c + z, d, []);
  }

  lemma HeaderFields(nt: seq<Byte>, e: Entry)
    requires ReadAt(nt, 0, OS_OPTIONS) == Header(e) && Length(e) < 0x1_0000_0000
    ensures GetDword(nt, 4) == Length(e) && GetDword(nt, 8) == e.id && GetDword(nt, 12) == e.attributes
    ensures GetDword(nt, 16) == NameAt(e) && GetDword(nt, 20) == PathAt(e) && GetDword(nt, 24) == |OsBytes(e.os)|
  {
    hide DwordBytes, GetDword, RoundUp, Header;
    var h := Header(e);
    HeaderParts(e);
    DwordIn(nt, 0, h, 4, Length(e));
    DwordIn(nt, 0, h, 8, e.id);
    DwordIn(nt, 0, h, 12, e.attributes);
    DwordIn(nt, 0, h, 16, NameAt(e));
    DwordIn(nt, 0, h, 20, PathAt(e));
    DwordIn(nt, 0, h, 24, |OsBytes(e.os)|);
  }

  lemma HeaderParts(e: Entry)
    requires Length(e) < 0x1_0000_0000
    ensures var h := Header(e);
            && h[4..8] == DwordBytes(Length(e)) && h[8..12] == DwordBytes(e.id) && h[12..16] == DwordBytes(e.attributes)
            && h[16..20] == DwordBytes(NameAt(e)) && h[20..24] == DwordBytes(PathAt(e))
            && h[24..28] == DwordBytes(|OsBytes(e.os)|)
  {
    hide DwordBytes, RoundUp;
  }

  // NT options that stand at p are read as such.
  lemma NtOsReadsBack(s: seq<Byte>, p: nat, os: Os)
    requires os.Nt? && IsString(os.loadOptions) && IsFilePath(os.filePath) && |OsBytes(os)| < 0x1_0000_0000
    requires ReadAt(s, p, |OsBytes(os)|) == OsBytes(os) && p + |OsBytes(os)| <= |s|
    ensures LooksNt(OsBytes(os)) && |os.filePath| <= |OsBytes(os)|
    ensures StringAt(s, p + OS_LOAD_OPTIONS) == os.loadOptions
    ensures GetDword(s, p + 16) == |OsBytes(os)| - |os.filePath|
    ensures FilePathAt(s, p + (|OsBytes(os)| - |os.filePath|)) == os.filePath
  {
    hide OsBytes, StringBytes, DwordBytes, GetDword, StringAt, FilePathAt, IsString, IsFilePath, RoundUp;
    var b, n := OsBytes(os), 2 * (|os.loadOptions| + 1);
    var path := |b| - |os.filePath|;
    OsParts(os);
    DwordIn(s, p, b, 16, path);
    ReadWithin(s, p, b, OS_LOAD_OPTIONS, n);
    StringAtBytes(s, p + OS_LOAD_OPTIONS, os.loadOptions);
    ReadWithin(s, p, b, path, |os.filePath|);
    FilePathIsThere(s, p + path, os.filePath);
  }

  lemma OsParts(os: Os)
    requires os.Nt? && |OsBytes(os)| < 0x1_0000_0000
    ensures var b, n := OsBytes(os), OS_LOAD_OPTIONS + 2 * (|os.loadOptions| + 1);
            var path := |b| - |os.filePath|;
            && n <= path && b[..8] == SIGNATURE && b[16..20] == DwordBytes(path)
            && b[OS_LOAD_OPTIONS..n] == StringBytes(os.loadOptions) && b[path..] == os.filePath
  {
    hide OsHeader, StringBytes, DwordBytes, RoundUp, Zeros;
    var b, n := OsBytes(os), 2 * (|os.loadOptions| + 1);
    var path := RoundUp(OS_LOAD_OPTIONS + n, 4);
    var h := OsHeader(path + |os.filePath|, path);
    OsHeaderParts(path + |os.filePath|, path);
    assert b[..OS_LOAD_OPTIONS] == h;
    assert b[..8] == h[..8] && b[16..20] == h[16..20];
  }

  lemma OsHeaderParts(length: nat, path: nat)
    requires path <= length < 0x1_0000_0000
    ensures var h := OsHeader(length, path);
            h[..8] == SIGNATURE && h[16..20] == DwordBytes(path)
  {
    hide DwordBytes;
  }

  // The main result: parsing the bytes gives the entry back, except that foreign options that look like those
  // of NT become such; what its status was, and how much room the name had, is not written.
  lemma ReadsBackIff(e: Entry)
    requires IsWritable(e)
    ensures Parsed(NtBytes(e)) == e.(status := UNCHANGED, nameLength := 2 * (|e.name| + 1)) <==>
            e.os.Nt? || !LooksNt(e.os.options)
  {
    hide OsBytes, NtBytes, Header, NameBytes, RoundUp, GetDword, StringAt, FilePathAt, LooksNt, NameAt,
         PathAt, IsString;
    var nt := NtBytes(e);
    PartsAreApart(e);
    PartsAreThere(e);
    HeaderFields(nt, e);
    NameReadsBack(nt, NameAt(e), e);
    FilePathIsThere(nt, PathAt(e), e.bootPath);
    if e.os.Nt? {
      NtOsReadsBack(nt, OS_OPTIONS, e.os);
    } else {
      ForeignBytes(e.os);
    }
  }

  lemma ForeignBytes(os: Os)
    requires os.Foreign?
    ensures OsBytes(os) == os.options
  {
  }

  lemma NameReadsBack(s: seq<Byte>, p: nat, e: Entry)
    requires IsString(e.name) && 2 * (|e.name| + 1) <= e.nameLength
    requires ReadAt(s, p, e.nameLength) == NameBytes(e) && p + e.nameLength <= |s|
    ensures StringAt(s, p) == e.name
  {
    hide StringBytes, StringAt, IsString, Zeros;
    var b, n := NameBytes(e), 2 * (|e.name| + 1);
    ReadWithin(s, p, b, 0, n);
    assert b[0..n] == StringBytes(e.name);
    StringAtBytes(s, p, e.name);
  }

  // ---- The bytes, field by field ----

  // The words of a string and the NUL behind it.
  ghost predicate IsStringAt(s: seq<Byte>, p: nat, w: seq<Word>) {
    && (forall k :: 0 <= k < |w| ==> GetWord(s, p + 2 * k) == w[k])
    && GetWord(s, p + 2 * |w|) == 0
  }

  ghost predicate IsZeroFrom(s: seq<Byte>, p: nat, q: nat) {
    forall i :: p <= i < q ==> At(s, i) == 0
  }

  // WINDOWS_OS_OPTIONS: signature, version, length, the offset of the path, the load options, the path.
  ghost predicate IsNtOsAt(s: seq<Byte>, p: nat, loadOptions: seq<Word>, filePath: seq<Byte>, length: nat) {
    var path := GetDword(s, p + 16);
    var end := 20 + 2 * (|loadOptions| + 1);
    && ReadAt(s, p, 8) == [0x57, 0x49, 0x4E, 0x44, 0x4F, 0x57, 0x53, 0] // WINDOWS
    && GetDword(s, p + 8) == 1 && GetDword(s, p + 12) == length == path + |filePath|
    && path % 4 == 0 && end <= path < end + 4
    && IsStringAt(s, p + 20, loadOptions) && IsZeroFrom(s, p + end, p + path)
    && ReadAt(s, p + path, |filePath|) == filePath
  }

  // BOOT_ENTRY: version, length, id, attributes, the offsets of the name and the boot path, the length of the options,
  // the options, the name, the boot path. The parts begin at multiples of four with zeros in between.
  lemma BytesAre(e: Entry)
    requires IsWritable(e)
    ensures var nt := NtBytes(e);
            var name, path, length := GetDword(nt, 16), GetDword(nt, 20), GetDword(nt, 24);
            && GetDword(nt, 0) == 1 && GetDword(nt, 4) == |nt| && GetDword(nt, 8) == e.id
            && GetDword(nt, 12) == e.attributes
            && name % 4 == 0 && 28 + length <= name < 28 + length + 4
            && path % 4 == 0 && name + e.nameLength <= path < name + e.nameLength + 4 && path + |e.bootPath| == |nt|
            && (match e.os
                case Foreign(options) => length == |options| && ReadAt(nt, 28, length) == options
                case Nt(loadOptions, filePath) => IsNtOsAt(nt, 28, loadOptions, filePath, length))
            && IsZeroFrom(nt, 28 + length, name)
            && IsStringAt(nt, name, e.name) && IsZeroFrom(nt, name + 2 * (|e.name| + 1), path)
            && ReadAt(nt, path, |e.bootPath|) == e.bootPath
  {
    hide OsBytes, NtBytes, Header, NameBytes, RoundUp, GetDword, DwordBytes, NameAt, PathAt, IsString;
    hide IsStringAt, IsZeroFrom, IsNtOsAt, ReadAt;
    var nt := NtBytes(e);
    PartsAreApart(e);
    PartsAreThere(e);
    HeaderFields(nt, e);
    HeaderVersion(nt, e);
    GapsAreZero(e);
    NameIsThere(nt, NameAt(e), e);
    if e.os.Nt? {
      NtOsIsThere(nt, 28, e.os);
    } else {
      ForeignBytes(e.os);
    }
  }

  lemma HeaderVersion(nt: seq<Byte>, e: Entry)
    requires ReadAt(nt, 0, OS_OPTIONS) == Header(e)
    ensures GetDword(nt, 0) == 1
  {
    hide DwordBytes, GetDword, RoundUp;
    assert Header(e)[0..4] == DwordBytes(1);
    DwordIn(nt, 0, Header(e), 0, 1);
  }

  lemma GapsAreZero(e: Entry)
    requires 2 * (|e.name| + 1) <= e.nameLength
    ensures IsZeroFrom(NtBytes(e), OS_OPTIONS + |OsBytes(e.os)|, NameAt(e))
    ensures IsZeroFrom(NtBytes(e), NameAt(e) + 2 * (|e.name| + 1), PathAt(e))
  {
    hide OsBytes, Header, NameAt, PathAt, RoundUp, StringBytes;
    PartsAreApart(e);
    var a, os, z := Header(e), OsBytes(e.os), Zeros(NameAt(e) - OS_OPTIONS - |OsBytes(e.os)|);
    var name, y := NameBytes(e), Zeros(PathAt(e) - NameAt(e) - e.nameLength);
    ZerosBetween(a + os, z, name + y + e.bootPath, NtBytes(e));
    var used := StringBytes(e.name);
    var x := Zeros(e.nameLength - |used|);
    assert name + y == used + (x + y);
    assert NtBytes(e) == (a + os + z + used) + (x + y) + e.bootPath;
    ZerosBetween(a + os + z + used, x + y, e.bootPath, NtBytes(e));
  }

  lemma ZerosBetween(a: seq<Byte>, z: seq<Byte>, b: seq<Byte>, s: seq<Byte>)
    requires (forall i :: 0 <= i < |z| ==> z[i] == 0) && s == a + z + b
    ensures IsZeroFrom(s, |a|, |a| + |z|)
  {
    forall i | |a| <= i < |a| + |z|
      ensures At(s, i) == 0
    {
      assert s[i] == z[i - |a|];
    }
  }

  lemma {:induction false} StringIsThere(s: seq<Byte>, p: nat, w: seq<Word>)
    requires ReadAt(s, p, 2 * (|w| + 1)) == StringBytes(w)
    ensures IsStringAt(s, p, w)
    decreases |w|
  {
    hide WordBytes, GetWord, ReadAt;
    var b := StringBytes(w);
    if w == [] {
      WordIn(s, p, b, 0, 0);
    } else {
      WordIn(s, p, b, 0, w[0]);
      ReadWithin(s, p, b, 2, |b| - 2);
      assert b[2..] == StringBytes(w[1..]);
      StringIsThere(s, p + 2, w[1..]);
      forall k | 0 < k < |w|
        ensures GetWord(s, p + 2 * k) == w[k]
      {
        assert w[1..][k - 1] == w[k] && p + 2 * k == p + 2 + 2 * (k - 1);
      }
      assert p + 2 * |w| == p + 2 + 2 * |w[1..]|;
    }
  }

  lemma NameIsThere(s: seq<Byte>, p: nat, e: Entry)
    requires 2 * (|e.name| + 1) <= e.nameLength && ReadAt(s, p, e.nameLength) == NameBytes(e)
    ensures IsStringAt(s, p, e.name)
  {
    hide StringBytes, IsStringAt, ReadAt;
    var b, n := NameBytes(e), 2 * (|e.name| + 1);
    ReadWithin(s, p, b, 0, n);
    assert b[0..n] == StringBytes(e.name);
    StringIsThere(s, p, e.name);
  }

  lemma NtOsIsThere(s: seq<Byte>, p: nat, os: Os)
    requires os.Nt? && |OsBytes(os)| < 0x1_0000_0000 && ReadAt(s, p, |OsBytes(os)|) == OsBytes(os)
    ensures IsNtOsAt(s, p, os.loadOptions, os.filePath, |OsBytes(os)|)
  {
    hide OsBytes, StringBytes, DwordBytes, GetDword, RoundUp, IsStringAt, ReadAt, IsZeroFrom;
    var b, n := OsBytes(os), 2 * (|os.loadOptions| + 1);
    var path := |b| - |os.filePath|;
    OsParts(os);
    OsGap(os);
    DwordIn(s, p, b, 8, 1);
    DwordIn(s, p, b, 12, |b|);
    DwordIn(s, p, b, 16, path);
    ReadWithin(s, p, b, 0, 8);
    ReadWithin(s, p, b, 20, n);
    StringIsThere(s, p + 20, os.loadOptions);
    ReadWithin(s, p, b, path, |os.filePath|);
    ZeroWithin(s, p, b, 20 + n, path);
  }

  lemma ZeroWithin(s: seq<Byte>, p: nat, b: seq<Byte>, q: nat, r: nat)
    requires ReadAt(s, p, |b|) == b && q <= r <= |b| && forall i :: q <= i < r ==> b[i] == 0
    ensures IsZeroFrom(s, p + q, p + r)
  {
    forall i | p + q <= i < p + r
      ensures At(s, i) == 0
    {
      assert b[i - p] == At(s, p + (i - p));
    }
  }

  // The gap in front of the path, and the rest of the header.
  lemma OsGap(os: Os)
    requires os.Nt? && |OsBytes(os)| < 0x1_0000_0000
    ensures var b, n := OsBytes(os), 20 + 2 * (|os.loadOptions| + 1);
            var path := |b| - |os.filePath|;
            && b[8..12] == DwordBytes(1) && b[12..16] == DwordBytes(|b|)
            && path % 4 == 0 && n <= path < n + 4 && forall i :: n <= i < path ==> b[i] == 0
  {
    hide StringBytes, DwordBytes, RoundUp;
    var b, n := OsBytes(os), 20 + 2 * (|os.loadOptions| + 1);
    var path := RoundUp(n, 4);
    RoundUpIsMultiple(n, 4);
    var h := OsHeader(path + |os.filePath|, path);
    assert b[..20] == h;
    assert b[8..12] == h[8..12] && b[12..16] == h[12..16];
    InRange(path + |os.filePath|);
  }

  // So what was once parsed survives being written and parsed again, as long as its paths know their lengths.
  lemma ParsedReadsBack(nt: seq<Byte>)
    requires var e := Parsed(nt);
             && IsFilePath(e.bootPath) && (e.os.Nt? ==> IsFilePath(e.os.filePath)) && Length(e) < 0x1_0000_0000
    ensures Parsed(NtBytes(Parsed(nt))) == Parsed(nt)
  {
    hide GetDword, StringAt, FilePathAt, ReadAt, NtBytes, Length, IsFilePath, LooksNt, IsString, Parsed;
    ParsedIsConsistent(nt);
    ReadsBackIff(Parsed(nt));
  }

  lemma ParsedIsConsistent(nt: seq<Byte>)
    ensures var e := Parsed(nt);
            && e.status == UNCHANGED && e.nameLength == 2 * (|e.name| + 1) && (e.os.Nt? || !LooksNt(e.os.options))
            && IsString(e.name) && (e.os.Nt? ==> IsString(e.os.loadOptions))
  {
    hide StringAt, FilePathAt, GetDword, LooksNt, ReadAt, IsString;
    StringAtIsString(nt, GetDword(nt, 16));
    StringAtIsString(nt, OS_OPTIONS + OS_LOAD_OPTIONS);
  }

  // ---- The new entry in memory ----

  // The serializer does not set the foreign options of the entry it returns.
  function Rebuilt(e: Entry): Entry {
    e.(status := UNCHANGED, os := if e.os.Nt? then e.os else Foreign([]))
  }

  // Its bytes have them; writing the returned entry once more loses them.
  lemma ForeignOptionsSurviveOnce(e: Entry)
    requires IsWritable(e) && e.os.Foreign? && !LooksNt(e.os.options) && IsWritable(Rebuilt(e))
    ensures Parsed(NtBytes(e)).os == e.os
    ensures Parsed(NtBytes(Rebuilt(e))).os == e.os <==> e.os.options == []
  {
    hide Parsed, NtBytes, IsWritable;
    ReadsBackIff(e);
    ReadsBackIff(Rebuilt(e));
  }
}

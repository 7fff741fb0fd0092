// The parts of the PE format that addsect.cpp works on (Microsoft PE/COFF
// specification, sections 3.3, 3.4 and 4), as bytes and as values.

module PeFormat {
  import opened Bytes

  // ---- Section headers ----

  const NAME_SIZE := 8
  const SECTION_SIZE := 40
  const MAX_SECTIONS := 16 // IMAGE_NUMBEROF_DIRECTORY_ENTRIES

  type Name = n: seq<Byte> | |n| == NAME_SIZE witness [0, 0, 0, 0, 0, 0, 0, 0]

  datatype Section = Section(
    name: Name,
    virtualSize: Dword,
    virtualAddress: Dword,
    sizeOfRawData: Dword,
    pointerToRawData: Dword,
    pointerToRelocations: Dword,
    pointerToLinenumbers: Dword,
    numberOfRelocations: Word,
    numberOfLinenumbers: Word,
    characteristics: Dword)
  {
    function RawEnd(): nat {
      pointerToRawData + sizeOfRawData
    }

    function VirtualEnd(): nat {
      virtualAddress + virtualSize
    }
  }

  function SectionBytes(s: Section): (b: seq<Byte>)
    ensures |b| == SECTION_SIZE
  {
    s.name + DwordBytes(s.virtualSize) + DwordBytes(s.virtualAddress) + DwordBytes(s.sizeOfRawData)
    + DwordBytes(s.pointerToRawData) + DwordBytes(s.pointerToRelocations) + DwordBytes(s.pointerToLinenumbers)
    + WordBytes(s.numberOfRelocations) + WordBytes(s.numberOfLinenumbers) + DwordBytes(s.characteristics)
  }

  function SectionAt(f: seq<Byte>, p: nat): Section {
    Section(ReadAt(f, p, NAME_SIZE), GetDword(f, p + 8), GetDword(f, p + 12), GetDword(f, p + 16), GetDword(f, p + 20),
            GetDword(f, p + 24), GetDword(f, p + 28), GetWord(f, p + 32), GetWord(f, p + 34), GetDword(f, p + 36))
  }

  lemma SectionAtBytes(f: seq<Byte>, p: nat, s: Section)
    requires ReadAt(f, p, SECTION_SIZE) == SectionBytes(s)
    ensures SectionAt(f, p) == s
  {
    hide DwordBytes, WordBytes, GetDword, GetWord, SectionBytes;
    var b := SectionBytes(s);
    SectionParts(s);
    NameIn(f, p, b, s.name);
    DwordIn(f, p, b, 8, s.virtualSize);
    DwordIn(f, p, b, 12, s.virtualAddress);
    DwordIn(f, p, b, 16, s.sizeOfRawData);
    DwordIn(f, p, b, 20, s.pointerToRawData);
    DwordIn(f, p, b, 24, s.pointerToRelocations);
    DwordIn(f, p, b, 28, s.pointerToLinenumbers);
    WordIn(f, p, b, 32, s.numberOfRelocations);
    WordIn(f, p, b, 34, s.numberOfLinenumbers);
    DwordIn(f, p, b, 36, s.characteristics);
  }

  lemma SectionParts(s: Section)
    ensures var b := SectionBytes(s);
            && b[..8] == s.name && b[8..12] == DwordBytes(s.virtualSize) && b[12..16] == DwordBytes(s.virtualAddress)
            && b[16..20] == DwordBytes(s.sizeOfRawData) && b[20..24] == DwordBytes(s.pointerToRawData)
            && b[24..28] == DwordBytes(s.pointerToRelocations) && b[28..32] == DwordBytes(s.pointerToLinenumbers)
            && b[32..34] == WordBytes(s.numberOfRelocations) && b[34..36] == WordBytes(s.numberOfLinenumbers)
            && b[36..40] == DwordBytes(s.characteristics)
  {
    hide DwordBytes, WordBytes;
  }

  lemma NameIn(f: seq<Byte>, p: nat, b: seq<Byte>, name: Name)
    requires |b| >= NAME_SIZE && ReadAt(f, p, |b|) == b && b[..NAME_SIZE] == name
    ensures ReadAt(f, p, NAME_SIZE) == name
  {
    forall i | 0 <= i < NAME_SIZE
      ensures At(f, p + i) == name[i]
    {
      assert b[..NAME_SIZE][i] == b[i];
    }
  }

  // A table of section headers.
  function TableBytes(ss: seq<Section>): (b: seq<Byte>)
    ensures |b| == SECTION_SIZE * |ss|
  {
    seq<Byte>(SECTION_SIZE * |ss|, i requires 0 <= i < SECTION_SIZE * |ss| =>
      SectionBytes(ss[i / SECTION_SIZE])[i % SECTION_SIZE])
  }

  function TableAt(f: seq<Byte>, p: nat, n: nat): (ss: seq<Section>)
    ensures |ss| == n
  {
    seq(n, i requires 0 <= i < n => SectionAt(f, p + SECTION_SIZE * i))
  }

  lemma TableAtBytes(f: seq<Byte>, p: nat, ss: seq<Section>)
    requires ReadAt(f, p, SECTION_SIZE * |ss|) == TableBytes(ss)
    ensures TableAt(f, p, |ss|) == ss
  {
    hide SectionBytes, SectionAt;
    forall i | 0 <= i < |ss|
      ensures SectionAt(f, p + SECTION_SIZE * i) == ss[i]
    {
      RowAtBytes(f, p, ss, i);
    }
  }

  lemma RowAtBytes(f: seq<Byte>, p: nat, ss: seq<Section>, i: nat)
    requires ReadAt(f, p, SECTION_SIZE * |ss|) == TableBytes(ss) && i < |ss|
    ensures SectionAt(f, p + SECTION_SIZE * i) == ss[i]
  {
    hide SectionBytes, SectionAt;
    var q := p + SECTION_SIZE * i;
    forall j | 0 <= j < SECTION_SIZE
      ensures At(f, q + j) == SectionBytes(ss[i])[j]
    {
      var k := SECTION_SIZE * i + j;
      assert k / SECTION_SIZE == i && k % SECTION_SIZE == j;
      assert At(f, p + k) == TableBytes(ss)[k];
    }
    assert ReadAt(f, q, SECTION_SIZE) == SectionBytes(ss[i]);
    SectionAtBytes(f, q, ss[i]);
  }

  // ---- The file header ----

  const FILE_HEADER_SIZE := 20

  datatype FileHeader = FileHeader(
    machine: Word,
    numberOfSections: Word,
    timeDateStamp: Dword,
    pointerToSymbolTable: Dword,
    numberOfSymbols: Dword,
    sizeOfOptionalHeader: Word,
    characteristics: Word)

  function FileHeaderBytes(h: FileHeader): (b: seq<Byte>)
    ensures |b| == FILE_HEADER_SIZE
  {
    WordBytes(h.machine) + WordBytes(h.numberOfSections) + DwordBytes(h.timeDateStamp)
    + DwordBytes(h.pointerToSymbolTable) + DwordBytes(h.numberOfSymbols)
    + WordBytes(h.sizeOfOptionalHeader) + WordBytes(h.characteristics)
  }

  function FileHeaderAt(f: seq<Byte>, p: nat): FileHeader {
    FileHeader(GetWord(f, p), GetWord(f, p + 2), GetDword(f, p + 4), GetDword(f, p + 8), GetDword(f, p + 12),
               GetWord(f, p + 16), GetWord(f, p + 18))
  }

  lemma FileHeaderAtBytes(f: seq<Byte>, p: nat, h: FileHeader)
    requires ReadAt(f, p, FILE_HEADER_SIZE) == FileHeaderBytes(h)
    ensures FileHeaderAt(f, p) == h
  {
    hide DwordBytes, WordBytes, GetDword, GetWord, FileHeaderBytes;
    var b := FileHeaderBytes(h);
    FileHeaderParts(h);
    WordIn(f, p, b, 0, h.machine);
    WordIn(f, p, b, 2, h.numberOfSections);
    DwordIn(f, p, b, 4, h.timeDateStamp);
    DwordIn(f, p, b, 8, h.pointerToSymbolTable);
    DwordIn(f, p, b, 12, h.numberOfSymbols);
    WordIn(f, p, b, 16, h.sizeOfOptionalHeader);
    WordIn(f, p, b, 18, h.characteristics);
  }

  lemma FileHeaderParts(h: FileHeader)
    ensures var b := FileHeaderBytes(h);
            && b[0..2] == WordBytes(h.machine) && b[2..4] == WordBytes(h.numberOfSections)
            && b[4..8] == DwordBytes(h.timeDateStamp) && b[8..12] == DwordBytes(h.pointerToSymbolTable)
            && b[12..16] == DwordBytes(h.numberOfSymbols) && b[16..18] == WordBytes(h.sizeOfOptionalHeader)
            && b[18..20] == WordBytes(h.characteristics)
  {
    hide DwordBytes, WordBytes;
  }

  // ---- The optional header ----

  const PE32 := 0x10B
  const PE32PLUS := 0x20B

  // The optional header is kept as its bytes.
  function OptionalSize(f64bit: bool): nat {
    if f64bit then 240 else 224
  }

  const SECTION_ALIGNMENT := 32
  const FILE_ALIGNMENT := 36
  const SIZE_OF_IMAGE := 56
  const SIZE_OF_HEADERS := 60
  const CHECK_SUM := 64
  const DEBUG := 6
  const BOUND_IMPORT := 11

  // Where the number of data directories and the directories are.
  function DirectoryCount(f64bit: bool): nat {
    if f64bit then 108 else 92
  }

  function Directory(f64bit: bool, n: nat): nat {
    DirectoryCount(f64bit) + 4 + 8 * n
  }

  // What Read keeps of a 32-bit optional header: not BaseOfData, and no more data directories than it says.
  function Kept32(raw: seq<Byte>): (oh: seq<Byte>)
    requires |raw| == OptionalSize(false)
    ensures |oh| == |raw|
  {
    var used := Directory(false, GetDword(raw, DirectoryCount(false)));
    seq<Byte>(|raw|, i requires 0 <= i < |raw| => if 24 <= i < 28 || i >= used then 0 else raw[i])
  }
}

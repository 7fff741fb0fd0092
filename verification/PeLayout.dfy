// What addsect.cpp has to write: where everything goes, and the bytes of the new file.

module PeLayout {
  import opened Alignment
  import opened Bytes
  import opened PeFormat
  import opened Wrappers

  datatype Image = Image(
    fileHeaderOffset: Dword,
    fileHeader: FileHeader,
    f64bit: bool,
    optionalHeader: seq<Byte>,
    sections: seq<Section>)
  {
    function OptionalHeaderOffset(): nat {
      fileHeaderOffset + FILE_HEADER_SIZE
    }

    function SectionsOffset(): nat {
      OptionalHeaderOffset() + fileHeader.sizeOfOptionalHeader
    }

    function FileAlignment(): Dword {
      GetDword(optionalHeader, FILE_ALIGNMENT)
    }

    function SectionAlignment(): Dword {
      GetDword(optionalHeader, SECTION_ALIGNMENT)
    }

    function SizeOfHeaders(): Dword {
      GetDword(optionalHeader, SIZE_OF_HEADERS)
    }

    function DebugAddr(): Dword {
      GetDword(optionalHeader, Directory(f64bit, DEBUG))
    }

    function DebugSize(): Dword {
      GetDword(optionalHeader, Directory(f64bit, DEBUG) + 4)
    }
  }

  // ---- Reading ----

  function FileHeaderOffset(file: seq<Byte>): Dword {
    if GetWord(file, 0) == 0x5A4D then Plus(GetDword(file, 60), 4) else 0
  }

  // CImage::Read looks at nothing outside the file.
  predicate IsMapped(file: seq<Byte>) {
    var p := FileHeaderOffset(file);
    var h := FileHeaderAt(file, p);
    && 64 <= |file| < 0x1_0000_0000
    && p + FILE_HEADER_SIZE + OptionalSize(true) <= |file|
    && (h.numberOfSections <= MAX_SECTIONS ==>
          p + FILE_HEADER_SIZE + h.sizeOfOptionalHeader + SECTION_SIZE * h.numberOfSections <= |file|)
    && (GetWord(file, p + FILE_HEADER_SIZE) == PE32 ==>
          GetDword(file, p + FILE_HEADER_SIZE + DirectoryCount(false)) <= 16)
  }

  function Parse(file: seq<Byte>): Option<Image> {
    var p := FileHeaderOffset(file);
    var h := FileHeaderAt(file, p);
    var q := p + FILE_HEADER_SIZE;
    var magic := GetWord(file, q);
    if h.sizeOfOptionalHeader == 0 || (magic != PE32 && magic != PE32PLUS)
       || h.numberOfSections > MAX_SECTIONS then None
    else
      var oh := if magic == PE32PLUS then ReadAt(file, q, OptionalSize(true))
                else Kept32(ReadAt(file, q, OptionalSize(false)));
      Some(Image(p, h, magic == PE32PLUS, oh, TableAt(file, q + h.sizeOfOptionalHeader, h.numberOfSections)))
  }

  // The end of the raw data as Read computes it.
  function RawMax(ss: seq<Section>, n: nat): Dword
    requires n <= |ss|
  {
    if n == 0 then 0 else Max(Plus(ss[n - 1].pointerToRawData, ss[n - 1].sizeOfRawData), RawMax(ss, n - 1))
  }

  // Up to where section headers may go: the first raw data, and no more than the array has room for.
  function HeadersEnd(img: Image, n: nat): Dword
    requires n <= |img.sections|
  {
    if n == 0 then Plus(img.SectionsOffset() % 0x1_0000_0000, SECTION_SIZE * MAX_SECTIONS)
    else
      var p := img.sections[n - 1].pointerToRawData;
      if p != 0 then Min(p, HeadersEnd(img, n - 1)) else HeadersEnd(img, n - 1)
  }

  // How many section headers there is room for.
  function MaxCount(img: Image): Dword {
    Minus(HeadersEnd(img, |img.sections|), img.SectionsOffset() % 0x1_0000_0000) / SECTION_SIZE
  }

  // ---- Laying out ----

  // The next free place in the file and in the address space once n sections are placed.
  function NextFile(img: Image, n: nat): nat
    requires n <= |img.sections|
  {
    RoundUp(if n == 0 then img.SizeOfHeaders() else Max(img.sections[n - 1].RawEnd(), NextFile(img, n - 1)),
            img.FileAlignment())
  }

  function NextVirt(img: Image, n: nat): nat
    requires n <= |img.sections|
  {
    if n == 0 then 0
    else RoundUp(Max(img.sections[n - 1].VirtualEnd(), NextVirt(img, n - 1)), img.SectionAlignment())
  }

  // m_nExtraOffset, where the data behind the sections is taken to begin.
  function Extra(img: Image, n: nat): nat
    requires n <= |img.sections|
  {
    if n == 0 then RawMax(img.sections, |img.sections|)
    else Max(Max(img.sections[n - 1].RawEnd(), NextFile(img, n - 1)), Extra(img, n - 1))
  }

  // Nothing placed later ends before what was placed earlier.
  lemma {:induction false} NextFileGrows(img: Image, k: nat, n: nat)
    requires img.FileAlignment() > 0 && k <= n <= |img.sections|
    ensures NextFile(img, k) <= NextFile(img, n)
    ensures NextFile(img, n) % img.FileAlignment() == 0
    ensures forall i :: k <= i < n ==> img.sections[i].RawEnd() <= NextFile(img, n)
    ensures img.SizeOfHeaders() <= NextFile(img, n)
    decreases n
  {
    hide RoundUp, GetDword;
    if k < n {
      NextFileGrows(img, k, n - 1);
      RoundUpIsMultiple(Max(img.sections[n - 1].RawEnd(), NextFile(img, n - 1)), img.FileAlignment());
    } else if n > 0 {
      NextFileGrows(img, n - 1, n - 1);
      RoundUpIsMultiple(Max(img.sections[n - 1].RawEnd(), NextFile(img, n - 1)), img.FileAlignment());
    } else {
      RoundUpIsMultiple(img.SizeOfHeaders(), img.FileAlignment());
    }
  }

  lemma {:induction false} NextVirtGrows(img: Image, k: nat, n: nat)
    requires img.SectionAlignment() > 0 && k <= n <= |img.sections|
    ensures NextVirt(img, k) <= NextVirt(img, n)
    ensures NextVirt(img, n) % img.SectionAlignment() == 0
    ensures forall i :: k <= i < n ==> img.sections[i].VirtualEnd() <= NextVirt(img, n)
    decreases n
  {
    hide RoundUp, GetDword;
    if k < n {
      NextVirtGrows(img, k, n - 1);
      RoundUpIsMultiple(Max(img.sections[n - 1].VirtualEnd(), NextVirt(img, n - 1)), img.SectionAlignment());
    } else if n > 0 {
      NextVirtGrows(img, n - 1, n - 1);
      RoundUpIsMultiple(Max(img.sections[n - 1].VirtualEnd(), NextVirt(img, n - 1)), img.SectionAlignment());
    }
  }

  predicate IsAligned(img: Image) {
    IsAlignment(img.FileAlignment()) && IsAlignment(img.SectionAlignment())
    && img.FileAlignment() > 0 && img.SectionAlignment() > 0
  }

  // What goes in: the data of a section, unless the file is only to be written again.
  datatype Insert = Nothing | Data(name: seq<Byte>, data: seq<Byte>)
  {
    function VirtualSize(): nat {
      if Data? then RoundUp(|data|, 8) else 0
    }

    function RawSize(img: Image): nat {
      RoundUp(VirtualSize(), img.FileAlignment())
    }
  }

  function FileEnd(img: Image, ins: Insert): nat {
    NextFile(img, |img.sections|) + ins.RawSize(img)
  }

  function VirtEnd(img: Image, ins: Insert): nat {
    RoundUp(NextVirt(img, |img.sections|) + ins.VirtualSize(), img.SectionAlignment())
  }

  function ExtraAt(img: Image): nat {
    Extra(img, |img.sections|)
  }

  // All addresses are 32-bit numbers, and there is room for one more section header.
  predicate Fits(file: seq<Byte>, img: Image, ins: Insert) {
    && IsAligned(img) && |img.sections| < MAX_SECTIONS
    && FileEnd(img, ins) + (if |file| > ExtraAt(img) then |file| - ExtraAt(img) else 0) < 0x1_0000_0000
    && VirtEnd(img, ins) < 0x1_0000_0000
    && NextVirt(img, |img.sections|) + ins.RawSize(img) < 0x1_0000_0000
    && (forall i :: 0 <= i < |img.sections| ==>
          img.sections[i].virtualAddress + img.sections[i].sizeOfRawData < 0x1_0000_0000)
  }

  // ---- The new headers ----

  const CHARACTERISTICS := 0x4000_0040 // IMAGE_SCN_CNT_INITIALIZED_DATA | IMAGE_SCN_MEM_READ

  function PaddedName(name: seq<Byte>): Name {
    if |name| >= NAME_SIZE then name[..NAME_SIZE] else name + Zeros(NAME_SIZE - |name|)
  }

  function NewSection(img: Image, ins: Insert): Section
    requires ins.Data?
  {
    var n := |img.sections|;
    Section(PaddedName(ins.name), ToDword(ins.VirtualSize()), ToDword(NextVirt(img, n)), ToDword(ins.RawSize(img)),
            ToDword(NextFile(img, n)), 0, 0, 0, 0, CHARACTERISTICS)
  }

  // Pointers behind the sections move along with what they point to.
  function Shift(p: Dword, extra: nat, end: nat): Dword {
    if p > extra then ToDword(p + end - extra) else p
  }

  function ShiftSection(s: Section, extra: nat, end: nat): Section {
    s.(pointerToRawData := Shift(s.pointerToRawData, extra, end),
       pointerToRelocations := Shift(s.pointerToRelocations, extra, end),
       pointerToLinenumbers := Shift(s.pointerToLinenumbers, extra, end))
  }

  function ShiftAll(ss: seq<Section>, extra: nat, end: nat): (r: seq<Section>)
    ensures |r| == |ss|
  {
    seq(|ss|, i requires 0 <= i < |ss| => ShiftSection(ss[i], extra, end))
  }

  // The headers with the new section.
  function Inserted(img: Image, ins: Insert): Image {
    if ins.Nothing? then img
    else img.(fileHeader := img.fileHeader.(numberOfSections := (|img.sections| + 1) % 0x1_0000),
              optionalHeader := Unbound(img.optionalHeader, img.f64bit),
              sections := img.sections + [NewSection(img, ins)])
  }

  // The headers to be written.
  function NewImage(img: Image, ins: Insert): (r: Image)
    ensures |r.sections| == |img.sections| + if ins.Data? then 1 else 0
  {
    Shifted(Inserted(img, ins), ExtraAt(img), FileEnd(img, ins), ToDword(VirtEnd(img, ins)))
  }

  function Shifted(img: Image, extra: nat, end: nat, size: Dword): Image {
    img.(fileHeader := img.fileHeader.(pointerToSymbolTable := Shift(img.fileHeader.pointerToSymbolTable, extra, end)),
         optionalHeader := Sized(img.optionalHeader, size),
         sections := ShiftAll(img.sections, extra, end))
  }

  // No bound imports.
  function Unbound(oh: seq<Byte>, f64bit: bool): seq<Byte> {
    var p := Directory(f64bit, BOUND_IMPORT);
    WriteAt(WriteAt(oh, p, DwordBytes(0)), p + 4, DwordBytes(0))
  }

  function Sized(oh: seq<Byte>, size: Dword): seq<Byte> {
    WriteAt(WriteAt(oh, CHECK_SUM, DwordBytes(0)), SIZE_OF_IMAGE, DwordBytes(size))
  }

  // ---- Finding addresses ----

  predicate Covers(s: Section, rva: Dword) {
    s.virtualAddress <= rva < Plus(s.virtualAddress, s.sizeOfRawData)
  }

  // The first section with an address in its raw data.
  function SectionOf(ss: seq<Section>, rva: Dword, n: nat): (k: nat)
    requires n <= |ss|
    ensures n <= k <= |ss| && (k < |ss| ==> Covers(ss[k], rva))
    ensures forall i :: n <= i < k ==> !Covers(ss[i], rva)
    decreases |ss| - n
  {
    if n == |ss| || Covers(ss[n], rva) then n else SectionOf(ss, rva, n + 1)
  }

  // RvaToFileOffset.
  function FileOffset(ss: seq<Section>, rva: Dword): Dword {
    var k := SectionOf(ss, rva, 0);
    if k == |ss| then 0 else Minus(Plus(ss[k].pointerToRawData, rva), ss[k].virtualAddress)
  }

  // The place of an address in the file, as a pointer into the mapped file.
  function RawPlace(ss: seq<Section>, rva: Dword): nat
    requires SectionOf(ss, rva, 0) < |ss|
  {
    var s := ss[SectionOf(ss, rva, 0)];
    s.pointerToRawData + (rva - s.virtualAddress)
  }

  lemma SamePlace(ss: seq<Section>, rva: Dword)
    ensures SectionOf(ss, rva, 0) < |ss| && RawPlace(ss, rva) < 0x1_0000_0000 ==>
              FileOffset(ss, rva) == RawPlace(ss, rva)
  {
  }

  // ---- The debug directory ----

  const DEBUG_ENTRY_SIZE := 28
  const DEBUG_POINTER := 24

  predicate HasDebug(img: Image) {
    img.DebugAddr() != 0 && img.DebugSize() != 0
  }

  function DebugCount(img: Image): nat {
    img.DebugSize() / DEBUG_ENTRY_SIZE
  }

  // An entry, its pointer to raw data moved along.
  function DebugEntry(file: seq<Byte>, p: nat, extra: nat, end: nat): (b: seq<Byte>)
    ensures |b| == DEBUG_ENTRY_SIZE
  {
    ReadAt(file, p, DEBUG_POINTER) + DwordBytes(Shift(GetDword(file, p + DEBUG_POINTER), extra, end))
  }

  function DebugBytes(file: seq<Byte>, p: nat, n: nat, extra: nat, end: nat): (b: seq<Byte>)
    ensures |b| == DEBUG_ENTRY_SIZE * n
  {
    if n == 0 then []
    else DebugBytes(file, p, n - 1, extra, end) + DebugEntry(file, p + DEBUG_ENTRY_SIZE * (n - 1), extra, end)
  }

  function DebugOffset(img: Image, ins: Insert): Dword {
    FileOffset(NewImage(img, ins).sections, img.DebugAddr())
  }

  // RvaToVa fails.
  predicate DebugIsLost(img: Image, ins: Insert) {
    var ss := NewImage(img, ins).sections;
    HasDebug(img) && SectionOf(ss, img.DebugAddr(), 0) == |ss|
  }

  // ---- The new file ----

  // Write reads nothing outside the old file.
  predicate IsReadable(file: seq<Byte>, img: Image, ins: Insert) {
    && img.SizeOfHeaders() <= |file| < 0x1_0000_0000
    && (forall i :: 0 <= i < |img.sections| && img.sections[i].sizeOfRawData != 0 ==>
         img.sections[i].RawEnd() <= |file|)
    && (HasDebug(img) && !DebugIsLost(img, ins) ==>
          var ss := NewImage(img, ins).sections;
          RawPlace(ss, img.DebugAddr()) + DEBUG_ENTRY_SIZE * DebugCount(img) <= |file|)
  }

  // Zeros up to the next aligned address.
  function Filled(f: seq<Byte>, start: nat, end: nat): seq<Byte>
    requires start <= end
  {
    WriteAt(f, start, Zeros(end - start))
  }

  // The headers and the first n sections, copied to where they were.
  function Copied(file: seq<Byte>, img: Image, n: nat): seq<Byte>
    requires n <= |img.sections|
  {
    if n == 0 then Filled(WriteAt([], 0, ReadAt(file, 0, img.SizeOfHeaders())), img.SizeOfHeaders(), NextFile(img, 0))
    else
      var s, f := img.sections[n - 1], Copied(file, img, n - 1);
      Filled(WriteAt(f, s.pointerToRawData, ReadAt(file, s.pointerToRawData, s.sizeOfRawData)),
             Max(s.RawEnd(), NextFile(img, n - 1)), NextFile(img, n))
  }

  function RawData(img: Image, ins: Insert): (b: seq<Byte>)
    requires ins.Data?
    ensures |b| == ins.RawSize(img)
  {
    ins.data + Zeros(ins.RawSize(img) - |ins.data|)
  }

  function WithData(file: seq<Byte>, img: Image, ins: Insert): seq<Byte> {
    var f := Copied(file, img, |img.sections|);
    if ins.Data? then WriteAt(f, NextFile(img, |img.sections|), RawData(img, ins)) else f
  }

  function WithDebug(file: seq<Byte>, img: Image, ins: Insert): seq<Byte> {
    var f := WithData(file, img, ins);
    if !HasDebug(img) then f
    else
      var p := DebugOffset(img, ins);
      WriteAt(f, p, DebugBytes(file, p, DebugCount(img), ExtraAt(img), FileEnd(img, ins)))
  }

  function WithRest(file: seq<Byte>, img: Image, ins: Insert): seq<Byte> {
    var f, extra := WithDebug(file, img, ins), ExtraAt(img);
    if |file| > extra then WriteAt(f, FileEnd(img, ins), ReadAt(file, extra, |file| - extra)) else f
  }

  function Written(file: seq<Byte>, img: Image, ins: Insert): seq<Byte> {
    Finished(WithRest(file, img, ins), NewImage(img, ins))
  }

  // The headers written over the file.
  function Finished(f: seq<Byte>, img: Image): seq<Byte> {
    var g := WriteAt(f, img.fileHeaderOffset, FileHeaderBytes(img.fileHeader));
    var h := WriteAt(g, img.OptionalHeaderOffset(), img.optionalHeader);
    WriteAt(h, img.SectionsOffset(), TableBytes(img.sections))
  }
}

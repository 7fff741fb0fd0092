// The headers and every other byte of the written file, at the offsets that the PE format gives them (Microsoft
// PE/COFF specification, sections 3.3, 3.4 and 4), and what is read from the old one.

module PeFields {
  import opened Alignment
  import opened Bytes
  import opened PeFormat
  import opened PeLayout
  import opened PeImageLaws
  import opened PeReadBack
  import opened Wrappers

  // ---- What is read ----

  ghost predicate IsFileHeaderAt(f: seq<Byte>, p: nat, h: FileHeader) {
    && GetWord(f, p) == h.machine && GetWord(f, p + 2) == h.numberOfSections && GetDword(f, p + 4) == h.timeDateStamp
    && GetDword(f, p + 8) == h.pointerToSymbolTable && GetDword(f, p + 12) == h.numberOfSymbols
    && GetWord(f, p + 16) == h.sizeOfOptionalHeader && GetWord(f, p + 18) == h.characteristics
  }

  ghost predicate IsSectionAt(f: seq<Byte>, p: nat, s: Section) {
    && ReadAt(f, p, 8) == s.name && GetDword(f, p + 8) == s.virtualSize && GetDword(f, p + 12) == s.virtualAddress
    && GetDword(f, p + 16) == s.sizeOfRawData && GetDword(f, p + 20) == s.pointerToRawData
    && GetDword(f, p + 24) == s.pointerToRelocations && GetDword(f, p + 28) == s.pointerToLinenumbers
    && GetWord(f, p + 32) == s.numberOfRelocations && GetWord(f, p + 34) == s.numberOfLinenumbers
    && GetDword(f, p + 36) == s.characteristics
  }

  // The optional header as the 64-bit structure holds it: the bytes there are, but for BaseOfData and data directories
  // beyond their number in a 32-bit image.
  ghost predicate IsOptionalHeaderAt(f: seq<Byte>, p: nat, f64bit: bool, oh: seq<Byte>) {
    if f64bit then |oh| == 240 && ReadAt(f, p, 240) == oh
    else
      && |oh| == 224
      && forall i :: 0 <= i < 224 ==>
           oh[i] == if 24 <= i < 28 || i >= 96 + 8 * GetDword(f, p + 92) then 0 else At(f, p + i)
  }

  // Read takes the headers from behind the PE signature, or from the start of a file without a DOS header.
  lemma ParseIs(file: seq<Byte>)
    ensures var p := if GetWord(file, 0) == 0x5A4D then (GetDword(file, 60) + 4) % 0x1_0000_0000 else 0;
            var magic, count := GetWord(file, p + 20), GetWord(file, p + 2);
            var table := p + 20 + GetWord(file, p + 16);
            && (Parse(file).None? <==>
                GetWord(file, p + 16) == 0 || (magic != 0x10B && magic != 0x20B) || count > 16)
            && (Parse(file).Some? ==>
                  var img := Parse(file).value;
                  && img.fileHeaderOffset == p && (img.f64bit <==> magic == 0x20B)
                  && IsFileHeaderAt(file, p, img.fileHeader)
                  && IsOptionalHeaderAt(file, p + 20, img.f64bit, img.optionalHeader)
                  && |img.sections| == count
                  && forall i :: 0 <= i < count ==> IsSectionAt(file, table + 40 * i, img.sections[i]))
  {
    hide GetDword, GetWord, Kept32, IsFileHeaderAt, IsSectionAt;
    var p := FileHeaderOffset(file);
    HeaderIs(file, p, FileHeaderAt(file, p));
    SumsWrap(file);
    if Parse(file).Some? {
      var img := Parse(file).value;
      Kept32Is(file, p + 20);
      var table := p + 20 + img.fileHeader.sizeOfOptionalHeader;
      forall i | 0 <= i < |img.sections|
        ensures IsSectionAt(file, table + 40 * i, img.sections[i])
      {
        assert img.sections[i] == SectionAt(file, table + 40 * i);
        SectionIs(file, table + 40 * i, img.sections[i]);
      }
    }
  }

  lemma SumsWrap(file: seq<Byte>)
    ensures Plus(GetDword(file, 60), 4) == (GetDword(file, 60) + 4) % 0x1_0000_0000
  {
  }

  lemma HeaderIs(f: seq<Byte>, p: nat, h: FileHeader)
    ensures h == FileHeaderAt(f, p) <==> IsFileHeaderAt(f, p, h)
  {
    hide GetDword, GetWord;
  }

  lemma SectionIs(f: seq<Byte>, p: nat, s: Section)
    ensures s == SectionAt(f, p) <==> IsSectionAt(f, p, s)
  {
    hide GetDword, GetWord, ReadAt;
  }

  lemma Kept32Is(f: seq<Byte>, p: nat)
    ensures IsOptionalHeaderAt(f, p, false, Kept32(ReadAt(f, p, 224)))
  {
    hide GetDword;
    DwordFrom(f, p, ReadAt(f, p, 224), 92);
  }

  // The fields of the optional header that matter, and its data directory for debugging, the one with the number 6.
  lemma FieldsAre(img: Image)
    ensures var oh, debug := img.optionalHeader, (if img.f64bit then 112 else 96) + 48;
            && img.SectionAlignment() == GetDword(oh, 32) && img.FileAlignment() == GetDword(oh, 36)
            && img.SizeOfHeaders() == GetDword(oh, 60)
            && img.DebugAddr() == GetDword(oh, debug) && img.DebugSize() == GetDword(oh, debug + 4)
            && DebugCount(img) == GetDword(oh, debug + 4) / 28
  {
    hide GetDword;
  }

  // ---- The new headers ----

  // A pointer beyond the extra offset is moved by as much as the end of the sections.
  function Moved(img: Image, ins: Insert, p: Dword): Dword {
    if p <= ExtraAt(img) then p else (p + FileEnd(img, ins) - ExtraAt(img)) % 0x1_0000_0000
  }

  lemma MovedIs(img: Image, ins: Insert, p: Dword)
    ensures Shift(p, ExtraAt(img), FileEnd(img, ins)) == Moved(img, ins, p)
  {
    hide ExtraAt, FileEnd;
  }

  // What is behind the data directories of an optional header.
  function FirstDirectory(f64bit: bool): nat {
    if f64bit then 112 else 96
  }

  // Where the new optional header may differ from the old one: the size of the image at 56, the checksum at 64, and
  // with a new section the directory of bound imports, the one with the number 11.
  predicate IsNewField(img: Image, ins: Insert, i: nat) {
    56 <= i < 60 || 64 <= i < 68
    || (ins.Data? && FirstDirectory(img.f64bit) + 88 <= i < FirstDirectory(img.f64bit) + 96)
  }

  ghost predicate IsNewOptionalHeader(img: Image, ins: Insert, oh: seq<Byte>) {
    var bound := FirstDirectory(img.f64bit) + 88;
    && |oh| == |img.optionalHeader|
    && GetDword(oh, 56) == VirtEnd(img, ins) && GetDword(oh, 64) == 0
    && (ins.Data? ==> GetDword(oh, bound) == 0 && GetDword(oh, bound + 4) == 0)
    && forall i :: 0 <= i < |oh| && !IsNewField(img, ins, i) ==> oh[i] == img.optionalHeader[i]
  }

  lemma NewOptionalHeaderIs(img: Image, ins: Insert)
    requires |img.optionalHeader| == OptionalSize(img.f64bit) && VirtEnd(img, ins) < 0x1_0000_0000
    ensures IsNewOptionalHeader(img, ins, NewImage(img, ins).optionalHeader)
  {
    hide WriteAt, DwordBytes, GetDword, ShiftAll, NewSection, ExtraAt, FileEnd, VirtEnd, ToDword;
    var bound := FirstDirectory(img.f64bit) + 88;
    var a := img.optionalHeader;
    var b, c := WriteAt(a, bound, DwordBytes(0)), WriteAt(WriteAt(a, bound, DwordBytes(0)), bound + 4, DwordBytes(0));
    DwordWritten(a, bound, 0);
    DwordWritten(b, bound + 4, 0);
    GetElsewhere(b, bound + 4, DwordBytes(0), bound);
    var d := if ins.Data? then c else a;
    var e, size := WriteAt(d, 64, DwordBytes(0)), ToDword(VirtEnd(img, ins));
    var f := WriteAt(e, 56, DwordBytes(size));
    assert f == NewImage(img, ins).optionalHeader;
    InRange(VirtEnd(img, ins));
    DwordWritten(d, 64, 0);
    DwordWritten(e, 56, size);
    GetElsewhere(e, 56, DwordBytes(size), 64);
    GetElsewhere(d, 64, DwordBytes(0), bound);
    GetElsewhere(d, 64, DwordBytes(0), bound + 4);
    GetElsewhere(e, 56, DwordBytes(size), bound);
    GetElsewhere(e, 56, DwordBytes(size), bound + 4);
    forall i | 0 <= i < |f| && !IsNewField(img, ins, i)
      ensures f[i] == a[i]
    {
      assert At(f, i) == At(e, i) == At(d, i);
      if ins.Data? {
        assert At(c, i) == At(b, i) == At(a, i);
      }
    }
  }

  lemma DwordWritten(s: seq<Byte>, p: nat, d: Dword)
    ensures var r := WriteAt(s, p, DwordBytes(d));
            && |r| == Max(|s|, p + 4) && GetDword(r, p) == d
            && forall i {:trigger At(r, i)} :: 0 <= i && !(p <= i < p + 4) ==> At(r, i) == At(s, i)
  {
    hide WriteAt, DwordBytes, GetDword;
    var r := WriteAt(s, p, DwordBytes(d));
    WrittenAt(s, p, DwordBytes(d));
    forall i | 0 <= i < 4
      ensures At(r, p + i) == DwordBytes(d)[i]
    {}
    assert ReadAt(r, p, 4) == DwordBytes(d);
    assert DwordBytes(d)[0..4] == DwordBytes(d);
    DwordIn(r, p, DwordBytes(d), 0, d);
  }

  // The header of the new section: its name padded with zeros, sizes rounded up, the next free places, initialized data
  // that can be read; but its pointer may have been moved.
  ghost predicate IsNewSection(img: Image, ins: Insert, s: Section)
    requires ins.Data?
  {
    var n := |img.sections|;
    && (forall k :: 0 <= k < 8 ==> s.name[k] == if k < |ins.name| then ins.name[k] else 0)
    && s.virtualSize == RoundUp(|ins.data|, 8) && s.sizeOfRawData == RoundUp(s.virtualSize, img.FileAlignment())
    && s.virtualAddress == NextVirt(img, n)
    && NextFile(img, n) < 0x1_0000_0000 && s.pointerToRawData == Moved(img, ins, NextFile(img, n))
    && s.pointerToRelocations == s.pointerToLinenumbers == s.numberOfRelocations == s.numberOfLinenumbers == 0
    && s.characteristics == 0x4000_0040
  }

  lemma NewSectionHeaderIs(file: seq<Byte>, img: Image, ins: Insert)
    requires Fits(file, img, ins) && ins.Data?
    ensures IsNewSection(img, ins, NewImage(img, ins).sections[|img.sections|])
  {
    hide GetDword, NextVirt, NextFile, Extra, RoundUp, IsAlignment, Shift, Sized, Unbound, Moved, FileEnd, ExtraAt;
    RawEndsFit(file, img, ins);
    NewHeader(file, img, ins);
    NewPointer(img, ins);
    InRange(NextFile(img, |img.sections|));
    MovedIs(img, ins, NextFile(img, |img.sections|));
    NothingMoves(img, ins);
  }

  lemma NothingMoves(img: Image, ins: Insert)
    requires ins.Data?
    ensures var s := NewImage(img, ins).sections[|img.sections|];
            && s.pointerToRelocations == s.pointerToLinenumbers == s.numberOfRelocations == s.numberOfLinenumbers == 0
            && s.characteristics == 0x4000_0040
  {
    hide GetDword, NextVirt, NextFile, ExtraAt, FileEnd, RoundUp, Sized, Unbound, ToDword, PaddedName, VirtEnd;
  }

  // The headers in the written file, behind each other from where the old ones were.
  lemma WrittenHeadersAre(file: seq<Byte>, img: Image, ins: Insert)
    requires IsSound(file, img, ins) && |img.sections| == img.fileHeader.numberOfSections
    ensures var out, p, n := Written(file, img, ins), img.fileHeaderOffset, |img.sections|;
            var count := n + if ins.Data? then 1 else 0;
            var table, to := p + 20 + img.fileHeader.sizeOfOptionalHeader, NewImage(img, ins);
            && IsFileHeaderAt(out, p, img.fileHeader.(numberOfSections := count,
                 pointerToSymbolTable := Moved(img, ins, img.fileHeader.pointerToSymbolTable)))
            && IsNewOptionalHeader(img, ins, ReadAt(out, p + 20, |img.optionalHeader|))
            && (forall i :: 0 <= i < n ==>
                  IsSectionAt(out, table + 40 * i, img.sections[i].(
                    pointerToRelocations := Moved(img, ins, img.sections[i].pointerToRelocations),
                    pointerToLinenumbers := Moved(img, ins, img.sections[i].pointerToLinenumbers))))
            && (ins.Data? ==>
                  && IsSectionAt(out, table + 40 * n, to.sections[n])
                  && IsNewSection(img, ins, to.sections[n]))
  {
    hide Written, IsFileHeaderAt, IsSectionAt, IsNewSection, IsNewOptionalHeader, NewImage, SectionAt, Moved;
    hide GetDword, ExtraAt, FileEnd;
    var out, to, n := Written(file, img, ins), NewImage(img, ins), |img.sections|;
    HeadersAreThere(file, img, ins);
    FileHeaderAtBytes(out, to.fileHeaderOffset, to.fileHeader);
    TableAtBytes(out, to.SectionsOffset(), to.sections);
    NewFileHeaderIs(file, img, ins);
    HeaderIs(out, img.fileHeaderOffset, to.fileHeader);
    NewOptionalHeaderIs(img, ins);
    SizesStay(img, ins);
    forall i | 0 <= i < |to.sections|
      ensures IsSectionAt(out, to.SectionsOffset() + 40 * i, to.sections[i])
    {
      assert TableAt(out, to.SectionsOffset(), |to.sections|)[i] == to.sections[i];
      SectionIs(out, to.SectionsOffset() + 40 * i, to.sections[i]);
    }
    forall i | 0 <= i < n
      ensures to.sections[i] == img.sections[i].(
                pointerToRelocations := Moved(img, ins, img.sections[i].pointerToRelocations),
                pointerToLinenumbers := Moved(img, ins, img.sections[i].pointerToLinenumbers))
    {
      PointersStay(file, img, ins, i);
      MovedIs(img, ins, img.sections[i].pointerToRelocations);
      MovedIs(img, ins, img.sections[i].pointerToLinenumbers);
    }
    if ins.Data? {
      NewSectionHeaderIs(file, img, ins);
    }
  }

  lemma NewFileHeaderIs(file: seq<Byte>, img: Image, ins: Insert)
    requires Fits(file, img, ins) && |img.sections| == img.fileHeader.numberOfSections
    ensures NewImage(img, ins).fileHeader == img.fileHeader.(
              numberOfSections := |img.sections| + if ins.Data? then 1 else 0,
              pointerToSymbolTable := Moved(img, ins, img.fileHeader.pointerToSymbolTable))
  {
    hide GetDword, NextVirt, NextFile, ExtraAt, FileEnd, RoundUp, Sized, Unbound, NewSection, Moved, Shift, VirtEnd;
    MovedIs(img, ins, img.fileHeader.pointerToSymbolTable);
  }
}

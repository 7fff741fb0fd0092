// Reading the written file again gives the headers that were meant to be written.

module PeReadBack {
  import opened Alignment
  import opened Bytes
  import opened PeFormat
  import opened PeLayout
  import opened PeImageLaws
  import opened Wrappers

  // The headers do not overlap the DOS header, which is copied.
  ghost predicate DosIsApart(file: seq<Byte>, img: Image) {
    img.SizeOfHeaders() >= 64 && (GetWord(file, 0) == 0x5A4D ==> img.fileHeaderOffset >= 64)
  }

  lemma FinishedHeaders(f: seq<Byte>, to: Image)
    requires |to.optionalHeader| <= to.fileHeader.sizeOfOptionalHeader
    ensures var out := Finished(f, to);
            && ReadAt(out, to.fileHeaderOffset, FILE_HEADER_SIZE) == FileHeaderBytes(to.fileHeader)
            && ReadAt(out, to.OptionalHeaderOffset(), |to.optionalHeader|) == to.optionalHeader
            && ReadAt(out, to.SectionsOffset(), SECTION_SIZE * |to.sections|) == TableBytes(to.sections)
            && (forall o :: 0 <= o < to.fileHeaderOffset ==> At(out, o) == At(f, o))
  {
    hide WriteAt, FileHeaderBytes, TableBytes;
    var g := WriteAt(f, to.fileHeaderOffset, FileHeaderBytes(to.fileHeader));
    var h := WriteAt(g, to.OptionalHeaderOffset(), to.optionalHeader);
    WrittenAt(f, to.fileHeaderOffset, FileHeaderBytes(to.fileHeader));
    WrittenAt(g, to.OptionalHeaderOffset(), to.optionalHeader);
    WrittenAt(h, to.SectionsOffset(), TableBytes(to.sections));
  }

  lemma GetsSame(a: seq<Byte>, b: seq<Byte>, p: nat)
    requires forall o :: p <= o < p + 4 ==> At(a, o) == At(b, o)
    ensures GetWord(a, p) == GetWord(b, p) && GetDword(a, p) == GetDword(b, p)
  {
    assert At(a, p) == At(b, p) && At(a, p + 1) == At(b, p + 1);
    assert At(a, p + 2) == At(b, p + 2) && At(a, p + 3) == At(b, p + 3);
  }

  lemma GetsWithin(f: seq<Byte>, p: nat, b: seq<Byte>, q: nat)
    requires ReadAt(f, p, |b|) == b && q + 2 <= |b|
    ensures GetWord(f, p + q) == GetWord(b, q)
  {
    assert b[q] == At(f, p + q) && b[q + 1] == At(f, p + (q + 1));
  }

  // What was dropped on reading is not there when it is read again.
  lemma KeptAgain(raw: seq<Byte>)
    requires |raw| == OptionalSize(false)
    ensures Kept32(Kept32(raw)) == Kept32(raw) && GetWord(Kept32(raw), 0) == GetWord(raw, 0)
  {
    var oh := Kept32(raw);
    var p := DirectoryCount(false);
    assert GetDword(oh, p) == GetDword(raw, p) by {
      GetsSame(oh, raw, p);
    }
  }

  // Reading a 32-bit header and writing it again keeps all bytes up to the last data directory in use exactly if
  // BaseOfData is zero: the 64-bit structure in between has no place for it.
  lemma BaseOfDataIsLost(raw: seq<Byte>)
    requires |raw| == OptionalSize(false)
    ensures var used := Directory(false, GetDword(raw, DirectoryCount(false)));
            (forall i :: 0 <= i < |raw| && i < used ==> Kept32(raw)[i] == raw[i]) <==> GetDword(raw, 24) == 0
  {
    assert GetDword(raw, 24) == 0 <==> raw[24] == 0 && raw[25] == 0 && raw[26] == 0 && raw[27] == 0;
    var kept := Kept32(raw);
    assert forall i :: 24 <= i < 28 ==> kept[i] == 0;
    if forall i :: 0 <= i < |raw| && i < Directory(false, GetDword(raw, DirectoryCount(false))) ==> kept[i] == raw[i] {
      assert kept[24] == raw[24] && kept[25] == raw[25] && kept[26] == raw[26] && kept[27] == raw[27];
    }
  }

  ghost predicate IsKept32(oh: seq<Byte>) {
    |oh| == OptionalSize(false) && Kept32(oh) == oh
  }

  lemma StaysKept(oh: seq<Byte>, p: nat, b: seq<Byte>)
    requires IsKept32(oh) && p + |b| <= |oh| && 2 <= p
    requires (28 <= p && p + |b| <= DirectoryCount(false))
             || (DirectoryCount(false) + 4 <= p && forall i :: 0 <= i < |b| ==> b[i] == 0)
    ensures IsKept32(WriteAt(oh, p, b)) && GetWord(WriteAt(oh, p, b), 0) == GetWord(oh, 0)
  {
    hide WriteAt;
    var to := WriteAt(oh, p, b);
    WrittenAt(oh, p, b);
    GetElsewhere(oh, p, b, DirectoryCount(false));
    var used := Directory(false, GetDword(oh, DirectoryCount(false)));
    forall i | 0 <= i < |oh| && (24 <= i < 28 || i >= used)
      ensures to[i] == 0
    {
      assert At(to, i) == to[i];
      assert Kept32(oh)[i] == 0;
    }
  }

  lemma ZeroDword()
    ensures forall i :: 0 <= i < 4 ==> DwordBytes(0)[i] == 0
  {
  }

  lemma NewOptionalHeader(img: Image, ins: Insert)
    requires !img.f64bit && IsKept32(img.optionalHeader)
    ensures var oh := NewImage(img, ins).optionalHeader;
            IsKept32(oh) && GetWord(oh, 0) == GetWord(img.optionalHeader, 0)
  {
    hide WriteAt, DwordBytes, GetDword, GetWord, ShiftAll, NewSection, ExtraAt, FileEnd, IsKept32;
    ZeroDword();
    var oh, q := img.optionalHeader, Directory(false, BOUND_IMPORT);
    assert |oh| == OptionalSize(false) by { LengthOf(oh); }
    if ins.Data? {
      StaysKept(oh, q, DwordBytes(0));
      StaysKept(WriteAt(oh, q, DwordBytes(0)), q + 4, DwordBytes(0));
      oh := Unbound(oh, false);
    }
    StaysKept(oh, CHECK_SUM, DwordBytes(0));
    StaysKept(WriteAt(oh, CHECK_SUM, DwordBytes(0)), SIZE_OF_IMAGE, DwordBytes(ToDword(VirtEnd(img, ins))));
  }

  lemma LengthOf(oh: seq<Byte>)
    requires IsKept32(oh)
    ensures |oh| == OptionalSize(false)
  {
  }

  lemma NewMagic(img: Image, ins: Insert)
    ensures GetWord(NewImage(img, ins).optionalHeader, 0) == GetWord(img.optionalHeader, 0)
  {
    hide WriteAt, DwordBytes, ShiftAll, NewSection, ExtraAt, FileEnd;
    var oh, q := img.optionalHeader, Directory(img.f64bit, BOUND_IMPORT);
    WrittenAt(oh, q, DwordBytes(0));
    WrittenAt(WriteAt(oh, q, DwordBytes(0)), q + 4, DwordBytes(0));
    oh := Inserted(img, ins).optionalHeader;
    WrittenAt(oh, CHECK_SUM, DwordBytes(0));
    WrittenAt(WriteAt(oh, CHECK_SUM, DwordBytes(0)), SIZE_OF_IMAGE, DwordBytes(ToDword(VirtEnd(img, ins))));
  }

  // What Parse has found says something about the image.
  lemma Parsed(file: seq<Byte>, img: Image)
    requires Parse(file) == Some(img)
    ensures |img.sections| == img.fileHeader.numberOfSections <= MAX_SECTIONS
    ensures img.fileHeader.sizeOfOptionalHeader != 0 && img.fileHeaderOffset == FileHeaderOffset(file)
    ensures GetWord(img.optionalHeader, 0) == if img.f64bit then PE32PLUS else PE32
    ensures !img.f64bit ==> IsKept32(img.optionalHeader)
    ensures GetWord(file, 0) != 0x5A4D ==> img.fileHeaderOffset == 0 && img.fileHeader.machine == GetWord(file, 0)
  {
    hide TableAt, GetDword, Kept32;
    var q := img.fileHeaderOffset + FILE_HEADER_SIZE;
    var raw := ReadAt(file, q, OptionalSize(img.f64bit));
    GetsWithin(file, q, raw, 0);
    if !img.f64bit {
      KeptAgain(raw);
    }
  }

  lemma SameStart(file: seq<Byte>, img: Image, ins: Insert, o: nat)
    requires IsSound(file, img, ins) && o < img.fileHeaderOffset && o < img.SizeOfHeaders()
    ensures At(Written(file, img, ins), o) == At(file, o)
  {
    hide WriteAt, GetDword, NextFile, NextVirt, Extra, RoundUp, IsAlignment, Copied, RawData, DebugBytes, FileOffset;
    hide Finished, NewImage, InRaw;
    var n := |img.sections|;
    RawEndsFit(file, img, ins);
    DebugIsThere(file, img, ins);
    NextFileGrows(img, 0, n);
    SizesStay(img, ins);
    FinishedHeaders(WithRest(file, img, ins), NewImage(img, ins));
    BeforeTheRest(file, img, ins, o);
    CopiedKeeps(file, img, n, o);
    if ins.Data? {
      WrittenAt(Copied(file, img, n), NextFile(img, n), RawData(img, ins));
    }
    var p := DebugOffset(img, ins);
    WrittenAt(WithData(file, img, ins), p, DebugBytes(file, p, DebugCount(img), ExtraAt(img), FileEnd(img, ins)));
  }

  lemma SameOffset(file: seq<Byte>, img: Image, ins: Insert)
    requires Parse(file) == Some(img) && IsSound(file, img, ins) && DosIsApart(file, img)
    requires FileHeaderAt(Written(file, img, ins), img.fileHeaderOffset) == NewImage(img, ins).fileHeader
    ensures FileHeaderOffset(Written(file, img, ins)) == FileHeaderOffset(file)
  {
    hide IsSound, Written, Parse, GetDword;
    Parsed(file, img);
    if GetWord(file, 0) == 0x5A4D {
      forall o | 0 <= o < 64
        ensures At(Written(file, img, ins), o) == At(file, o)
      {
        SameStart(file, img, ins, o);
      }
      GetsSame(Written(file, img, ins), file, 0);
      GetsSame(Written(file, img, ins), file, 60);
    } else {
      SameMachine(img, ins);
    }
  }

  lemma SameMachine(img: Image, ins: Insert)
    ensures var h := NewImage(img, ins).fileHeader;
            && h.machine == img.fileHeader.machine && h.sizeOfOptionalHeader == img.fileHeader.sizeOfOptionalHeader
            && (|img.sections| == img.fileHeader.numberOfSections < MAX_SECTIONS ==>
                  h.numberOfSections == |NewImage(img, ins).sections|)
  {
    hide GetDword, ExtraAt, FileEnd, VirtEnd, NewSection, Shift, Sized, Unbound;
  }

  // The main result about the headers: Read gives back what Write meant.
  lemma ReadsBack(file: seq<Byte>, img: Image, ins: Insert)
    requires Parse(file) == Some(img) && IsSound(file, img, ins) && DosIsApart(file, img)
    ensures Parse(Written(file, img, ins)) == Some(NewImage(img, ins))
  {
    hide IsSound, Written, Kept32, TableAt, GetDword, GetWord, NewImage, DosIsApart;
    var out, to := Written(file, img, ins), NewImage(img, ins);
    Parsed(file, img);
    HeadersAreThere(file, img, ins);
    FileHeaderAtBytes(out, to.fileHeaderOffset, to.fileHeader);
    SameOffset(file, img, ins);
    SameMachine(img, ins);
    TableAtBytes(out, to.SectionsOffset(), to.sections);
    NewMagic(img, ins);
    GetsWithin(out, to.OptionalHeaderOffset(), to.optionalHeader, 0);
    if !img.f64bit {
      NewOptionalHeader(img, ins);
    }
  }

  lemma HeadersAreThere(file: seq<Byte>, img: Image, ins: Insert)
    requires IsSound(file, img, ins)
    ensures var out, to := Written(file, img, ins), NewImage(img, ins);
            && to.fileHeaderOffset == img.fileHeaderOffset && to.f64bit == img.f64bit
            && to.SectionsOffset() == img.SectionsOffset() && |to.optionalHeader| == OptionalSize(img.f64bit)
            && |img.sections| < MAX_SECTIONS
            && ReadAt(out, to.fileHeaderOffset, FILE_HEADER_SIZE) == FileHeaderBytes(to.fileHeader)
            && ReadAt(out, to.OptionalHeaderOffset(), |to.optionalHeader|) == to.optionalHeader
            && ReadAt(out, to.SectionsOffset(), SECTION_SIZE * |to.sections|) == TableBytes(to.sections)
  {
    hide Finished, WithRest, GetDword, NextFile, NextVirt, Extra, RoundUp, IsAlignment, FileOffset, NewImage;
    SizesStay(img, ins);
    FinishedHeaders(WithRest(file, img, ins), NewImage(img, ins));
  }
}

// Small images that show that what is asked of an image can be met, and what goes wrong
// where it is not.

module PeExamples {
  import opened Alignment
  import opened Bytes
  import opened PeFormat
  import opened PeLayout
  import opened PeImageLaws
  import opened PeReadBack
  import opened Wrappers

  // ---- Headers ----

  // An optional header of 32 bits with 4096 bytes of section alignment, 512 bytes of file alignment, 512 bytes of
  // headers, and no data directories.
  function TinyHeader(): seq<Byte> {
    WriteAt(WriteAt(WriteAt(WriteAt(Zeros(OptionalSize(false)), 0, WordBytes(PE32)),
                            SECTION_ALIGNMENT, DwordBytes(4096)),
                    FILE_ALIGNMENT, DwordBytes(512)),
            SIZE_OF_HEADERS, DwordBytes(512))
  }

  lemma GetThere(s: seq<Byte>, p: nat, d: Dword)
    ensures GetDword(WriteAt(s, p, DwordBytes(d)), p) == d
  {
    hide WriteAt, DwordBytes, GetDword;
    var r, b := WriteAt(s, p, DwordBytes(d)), DwordBytes(d);
    WrittenAt(s, p, b);
    assert ReadAt(r, p, 4) == b;
    assert b[0..4] == b;
    DwordIn(r, p, b, 0, d);
  }

  lemma TinyHeaderIs()
    ensures |TinyHeader()| == OptionalSize(false)
    ensures GetDword(TinyHeader(), SECTION_ALIGNMENT) == 4096 && GetDword(TinyHeader(), FILE_ALIGNMENT) == 512
    ensures GetDword(TinyHeader(), SIZE_OF_HEADERS) == 512
  {
    hide WriteAt, DwordBytes, GetDword, WordBytes;
    var a := WriteAt(Zeros(OptionalSize(false)), 0, WordBytes(PE32));
    var b := WriteAt(a, SECTION_ALIGNMENT, DwordBytes(4096));
    var c := WriteAt(b, FILE_ALIGNMENT, DwordBytes(512));
    GetThere(a, SECTION_ALIGNMENT, 4096);
    GetThere(b, FILE_ALIGNMENT, 512);
    GetThere(c, SIZE_OF_HEADERS, 512);
    GetElsewhere(b, FILE_ALIGNMENT, DwordBytes(512), SECTION_ALIGNMENT);
    GetElsewhere(c, SIZE_OF_HEADERS, DwordBytes(512), SECTION_ALIGNMENT);
    GetElsewhere(c, SIZE_OF_HEADERS, DwordBytes(512), FILE_ALIGNMENT);
  }

  // What is not written is zero.
  lemma TinyHeaderAt(i: nat)
    requires i < 36 || i >= 64
    requires !(SECTION_ALIGNMENT <= i < SECTION_ALIGNMENT + 4) && i >= 2
    ensures At(TinyHeader(), i) == 0
  {
    hide WriteAt, DwordBytes, WordBytes;
    var a := WriteAt(Zeros(OptionalSize(false)), 0, WordBytes(PE32));
    var b := WriteAt(a, SECTION_ALIGNMENT, DwordBytes(4096));
    var c := WriteAt(b, FILE_ALIGNMENT, DwordBytes(512));
    WrittenAt(Zeros(OptionalSize(false)), 0, WordBytes(PE32));
    WrittenAt(a, SECTION_ALIGNMENT, DwordBytes(4096));
    WrittenAt(b, FILE_ALIGNMENT, DwordBytes(512));
    WrittenAt(c, SIZE_OF_HEADERS, DwordBytes(512));
  }

  lemma TinyMagic()
    ensures GetWord(TinyHeader(), 0) == PE32
  {
    hide WriteAt, DwordBytes;
    var a := WriteAt(Zeros(OptionalSize(false)), 0, WordBytes(PE32));
    var b := WriteAt(a, SECTION_ALIGNMENT, DwordBytes(4096));
    var c := WriteAt(b, FILE_ALIGNMENT, DwordBytes(512));
    WrittenAt(Zeros(OptionalSize(false)), 0, WordBytes(PE32));
    WrittenAt(a, SECTION_ALIGNMENT, DwordBytes(4096));
    WrittenAt(b, FILE_ALIGNMENT, DwordBytes(512));
    WrittenAt(c, SIZE_OF_HEADERS, DwordBytes(512));
    assert At(TinyHeader(), 0) == PE32 % 0x100 && At(TinyHeader(), 1) == PE32 / 0x100;
  }

  lemma TinyDirectories()
    ensures GetDword(TinyHeader(), DirectoryCount(false)) == 0
    ensures GetDword(TinyHeader(), Directory(false, DEBUG)) == 0
    ensures Kept32(TinyHeader()) == TinyHeader()
  {
    hide TinyHeader;
    TinyHeaderIs();
    forall i | 64 <= i
      ensures At(TinyHeader(), i) == 0
    {
      TinyHeaderAt(i);
    }
    forall i | 24 <= i < 28
      ensures At(TinyHeader(), i) == 0
    {
      TinyHeaderAt(i);
    }
    ZeroThere(TinyHeader(), DirectoryCount(false));
    ZeroThere(TinyHeader(), Directory(false, DEBUG));
    forall i | 0 <= i < |TinyHeader()|
      ensures Kept32(TinyHeader())[i] == TinyHeader()[i]
    {
      assert At(TinyHeader(), i) == TinyHeader()[i];
    }
  }

  lemma ZeroThere(s: seq<Byte>, p: nat)
    requires forall i :: p <= i < p + 4 ==> At(s, i) == 0
    ensures GetDword(s, p) == 0
  {
    assert At(s, p) == 0 && At(s, p + 1) == 0 && At(s, p + 2) == 0 && At(s, p + 3) == 0;
  }

  // ---- An image ----

  // An image without a DOS header, with one section that has this much raw data, at this place in the file.
  function TinyImage(place: Dword, raw: Dword): Image {
    Image(0, FileHeader(0x14C, 1, 0, 0, 0, 224, 0), false, TinyHeader(),
          [Section(Zeros(NAME_SIZE), 512, 4096, raw, place, 0, 0, 0, 0, 0)])
  }

  function TinyFile(): seq<Byte> {
    Finished(Zeros(1024), TinyImage(512, 512))
  }

  const TINY_DATA := Data([0x2E, 0x78], [1])

  lemma TinyAlignments(place: Dword, raw: Dword)
    ensures var img := TinyImage(place, raw);
            && img.FileAlignment() == 512 && img.SectionAlignment() == 4096 && img.SizeOfHeaders() == 512
            && IsAligned(img) && !HasDebug(img) && |img.optionalHeader| == OptionalSize(false)
  {
    hide TinyHeader, GetDword;
    TinyHeaderIs();
    TinyDirectories();
    assert Pow2(9) == 512;
    assert Pow2(12) == 4096 by { assert Pow2(8) == 256; }
  }

  lemma RoundUpTo(a: nat, s: nat, m: nat)
    requires s > 0 && m % s == 0 && a <= m < a + s
    ensures RoundUp(a, s) == m
  {
    hide RoundUp;
    RoundUpIsMultiple(a, s);
    RoundUpIsLeast(a, s, m);
    if RoundUp(a, s) < m {
      MultiplesAreApart(RoundUp(a, s), m, s);
    }
  }

  // Where things go.
  lemma TinyLayout(raw: Dword, end: nat)
    requires 0 < raw && 512 + raw <= end < 1024 + raw && end % 512 == 0
    ensures var img := TinyImage(512, raw);
            && NextFile(img, 0) == 512 && NextFile(img, 1) == end && NextVirt(img, 1) == 8192
            && TINY_DATA.VirtualSize() == 8 && TINY_DATA.RawSize(img) == 512
            && VirtEnd(img, TINY_DATA) == 12288 && FileEnd(img, TINY_DATA) == end + 512
  {
    hide TinyHeader, GetDword, RoundUp;
    TinyAlignments(512, raw);
    var img := TinyImage(512, raw);
    RoundUpTo(512, 512, 512);
    RoundUpTo(512 + raw, 512, end);
    RoundUpTo(4096 + 512, 4096, 8192);
    RoundUpTo(1, 8, 8);
    RoundUpTo(8, 512, 512);
    RoundUpTo(8200, 4096, 12288);
    LastStep(img, 0);
    LastStep(img, 1);
    VirtSteps(img);
  }

  lemma VirtSteps(img: Image)
    requires |img.sections| == 1
    ensures NextVirt(img, 1) == RoundUp(Max(img.sections[0].VirtualEnd(), 0), img.SectionAlignment())
    ensures ExtraAt(img) == Max(Max(img.sections[0].RawEnd(), NextFile(img, 0)), RawMax(img.sections, 1))
    ensures RawMax(img.sections, 1) == Max(Plus(img.sections[0].pointerToRawData, img.sections[0].sizeOfRawData), 0)
  {
    hide GetDword, RoundUp;
    assert Extra(img, 0) == RawMax(img.sections, 1);
  }

  // What the laws ask of an image can be met, by the bytes of a file.
  lemma TinyIsSound()
    ensures var img := TinyImage(512, 512);
            && Parse(TinyFile()) == Some(img) && IsMapped(TinyFile())
            && Fits(TinyFile(), img, TINY_DATA) && IsSound(TinyFile(), img, TINY_DATA)
            && IsReadable(TinyFile(), img, TINY_DATA)
            && IsRegular(img) && IsOrdinary(img, TINY_DATA) && DosIsApart(TinyFile(), img) && EndsAligned(img)
  {
    hide TinyHeader, GetDword, GetWord, RoundUp, NextFile, NextVirt, Extra, RawMax, IsAlignment, Finished,
         TinyFile, Parse;
    var img := TinyImage(512, 512);
    TinyAlignments(512, 512);
    TinyLayout(512, 1024);
    VirtSteps(img);
    TinyParses();
    RoundUpTo(512, 4096, 4096);
    assert Plus(512, 512) == 1024;
    assert img.sections[0].RawEnd() == 1024;
    assert HeadersSize(img, TINY_DATA) == 20 + 224 + 80;
    RegularEndsAligned(img);
  }

  lemma TinyParses()
    ensures Parse(TinyFile()) == Some(TinyImage(512, 512)) && IsMapped(TinyFile()) && |TinyFile()| == 1024
    ensures GetWord(TinyFile(), 0) != 0x5A4D
  {
    hide TinyHeader, GetDword, GetWord, Finished, Kept32, TableAt, TableBytes, FileHeaderBytes, SectionAt;
    var img := TinyImage(512, 512);
    var out := TinyFile();
    TinyHeaderIs();
    TinyDirectories();
    TinyMagic();
    FinishedHeaders(Zeros(1024), img);
    FinishedLength(Zeros(1024), img);
    FileHeaderAtBytes(out, 0, img.fileHeader);
    TableAtBytes(out, 244, img.sections);
    GetsWithin(out, 20, img.optionalHeader, 0);
    MachineThere(out, img.fileHeader);
    DwordFrom(out, 20, img.optionalHeader, DirectoryCount(false));
  }

  lemma FinishedLength(f: seq<Byte>, to: Image)
    requires to.SectionsOffset() + SECTION_SIZE * |to.sections| <= |f|
    requires to.OptionalHeaderOffset() + |to.optionalHeader| <= |f| && to.fileHeaderOffset + FILE_HEADER_SIZE <= |f|
    ensures |Finished(f, to)| == |f|
  {
    hide FileHeaderBytes, TableBytes;
  }

  lemma MachineThere(out: seq<Byte>, h: FileHeader)
    requires FileHeaderAt(out, 0) == h
    ensures GetWord(out, 0) == h.machine
  {
  }

  // ---- What goes wrong ----

  // With one byte more in the last section, the header of the new one points behind its data.
  lemma UnalignedEndMisplaces()
    ensures var img := TinyImage(512, 513);
            && Fits(Zeros(1025), img, TINY_DATA) && !EndsAligned(img)
            && NewImage(img, TINY_DATA).sections[1].pointerToRawData == 2559 && NextFile(img, 1) == 1536
  {
    hide TinyHeader, GetDword, GetWord, RoundUp, NextFile, NextVirt, Extra, RawMax, IsAlignment;
    var img := TinyImage(512, 513);
    TinyAlignments(512, 513);
    TinyLayout(513, 1536);
    VirtSteps(img);
    RoundUpTo(1025, 512, 1536);
    assert Plus(512, 513) == 1025;
    NewPointer(img, TINY_DATA);
  }

  // Raw data at the very beginning of the file makes Check see room for a hundred million section headers.
  lemma EarlyDataFoolsCheck()
    ensures var img := TinyImage(1, 512);
            |img.sections| + 1 <= MaxCount(img) && !HasRoom(img)
  {
    hide TinyHeader, GetDword, HeadersEnd, MaxCount, HasRoom;
    var img := TinyImage(1, 512);
    HeadersEndIsBound(img, 1);
    assert img.sections[0].pointerToRawData == 1;
    CheckMeansRoomIff(img);
  }
}

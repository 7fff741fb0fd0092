// What writing a PE file again with a section more leaves as it was, and where the new
// section is found.

module PeImageLaws {
  import opened Alignment
  import opened Bytes
  import opened PeFormat
  import opened PeLayout

  // ---- Room for the new header ----

  // One more header stays in the array of 16 and ends before any raw data.
  ghost predicate HasRoom(img: Image) {
    && |img.sections| + 1 <= 16
    && forall i :: 0 <= i < |img.sections| && img.sections[i].pointerToRawData != 0 ==>
         img.SectionsOffset() + 40 * (|img.sections| + 1) <= img.sections[i].pointerToRawData
  }

  // All raw data is behind the place where the section headers begin.
  ghost predicate DataIsBehind(img: Image) {
    forall i :: 0 <= i < |img.sections| && img.sections[i].pointerToRawData != 0 ==>
      img.SectionsOffset() <= img.sections[i].pointerToRawData
  }

  // Check lets a header in exactly if there is room or some raw data comes before the section headers: then their
  // distance wraps around.
  lemma CheckMeansRoomIff(img: Image)
    requires |img.sections| <= MAX_SECTIONS && img.SectionsOffset() <= 0x1_0000_0000 - 2 * SECTION_SIZE * MAX_SECTIONS
    ensures |img.sections| + 1 <= MaxCount(img) <==> HasRoom(img) || !DataIsBehind(img)
    ensures (|img.sections| + 1 <= MaxCount(img) ==> HasRoom(img)) <==> DataIsBehind(img)
  {
    hide HeadersEnd, Minus, MaxCount;
    var n := |img.sections|;
    HeadersEndIsBound(img, n);
    HeadersEndIs(img, n);
    CountIs(img);
    CountMeansRoomIff(img.SectionsOffset(), HeadersEnd(img, n), n);
  }

  lemma CountIs(img: Image)
    requires img.SectionsOffset() < 0x1_0000_0000
    ensures MaxCount(img) == Minus(HeadersEnd(img, |img.sections|), img.SectionsOffset()) / SECTION_SIZE
  {
    hide HeadersEnd, Minus;
  }

  lemma CountMeansRoomIff(start: Dword, end: Dword, n: nat)
    requires n <= MAX_SECTIONS && start <= 0x1_0000_0000 - 2 * SECTION_SIZE * MAX_SECTIONS
    requires end <= start + SECTION_SIZE * MAX_SECTIONS
    ensures n + 1 <= Minus(end, start) / SECTION_SIZE <==>
            (n + 1 <= MAX_SECTIONS && start + SECTION_SIZE * (n + 1) <= end) || end < start
  {
  }

  lemma {:induction false} HeadersEndIsBound(img: Image, n: nat)
    requires n <= |img.sections| && img.SectionsOffset() <= 0x1_0000_0000 - 2 * SECTION_SIZE * MAX_SECTIONS
    ensures HeadersEnd(img, n) <= img.SectionsOffset() + SECTION_SIZE * MAX_SECTIONS
    ensures forall i :: 0 <= i < n && img.sections[i].pointerToRawData != 0 ==>
              HeadersEnd(img, n) <= img.sections[i].pointerToRawData
  {
    if n > 0 {
      HeadersEndIsBound(img, n - 1);
    }
  }

  // It is the first raw data, or what there is room for.
  lemma {:induction false} HeadersEndIs(img: Image, n: nat)
    requires n <= |img.sections| && img.SectionsOffset() <= 0x1_0000_0000 - 2 * SECTION_SIZE * MAX_SECTIONS
    ensures HeadersEnd(img, n) == img.SectionsOffset() + 640
            || exists i :: 0 <= i < n && img.sections[i].pointerToRawData != 0
                        && HeadersEnd(img, n) == img.sections[i].pointerToRawData
  {
    if n > 0 {
      HeadersEndIs(img, n - 1);
    }
  }

  // ---- Where the new section goes ----

  // It does not touch the others, neither in the file nor in the address space, and is aligned.
  lemma NewSectionIsApart(file: seq<Byte>, img: Image, ins: Insert, i: nat)
    requires Fits(file, img, ins) && ins.Data? && i < |img.sections|
    ensures var s := NewSection(img, ins);
            && img.sections[i].RawEnd() <= s.pointerToRawData && img.SizeOfHeaders() <= s.pointerToRawData
            && img.sections[i].VirtualEnd() <= s.virtualAddress
            && s.pointerToRawData % img.FileAlignment() == 0 && s.sizeOfRawData % img.FileAlignment() == 0
            && s.virtualAddress % img.SectionAlignment() == 0
            && |ins.data| <= s.virtualSize <= s.sizeOfRawData
            && s.VirtualEnd() <= VirtEnd(img, ins) && VirtEnd(img, ins) % img.SectionAlignment() == 0
  {
    hide GetDword, IsAlignment, NextFile, NextVirt, Extra, RoundUp, NewSection, ToDword;
    var n := |img.sections|;
    NewSectionIs(file, img, ins);
    NextFileGrows(img, 0, n);
    NextVirtGrows(img, 0, n);
    RoundUpIsMultiple(ins.VirtualSize(), img.FileAlignment());
    RoundUpIsMultiple(NextVirt(img, n) + ins.VirtualSize(), img.SectionAlignment());
  }

  lemma NewSectionIs(file: seq<Byte>, img: Image, ins: Insert)
    requires Fits(file, img, ins) && ins.Data?
    ensures var s := NewSection(img, ins);
            && s.virtualSize == ins.VirtualSize() && s.virtualAddress == NextVirt(img, |img.sections|)
            && s.sizeOfRawData == ins.RawSize(img) && s.pointerToRawData == NextFile(img, |img.sections|)
            && |ins.data| <= ins.VirtualSize() <= ins.RawSize(img)
  {
    hide GetDword, IsAlignment, NextFile, NextVirt, Extra, RoundUp, ToDword, PaddedName;
    RawEndsFit(file, img, ins);
    InRange(ins.VirtualSize());
    InRange(NextVirt(img, |img.sections|));
    InRange(ins.RawSize(img));
    InRange(NextFile(img, |img.sections|));
  }

  // The data behind the sections is never taken to begin later than the new section does.
  lemma {:induction false} ExtraIsBound(img: Image, n: nat)
    requires img.FileAlignment() > 0 && n <= |img.sections|
    requires forall i :: 0 <= i < |img.sections| ==> img.sections[i].RawEnd() < 0x1_0000_0000
    ensures Extra(img, n) <= Max(RawMax(img.sections, |img.sections|), NextFile(img, n))
    ensures forall i :: 0 <= i < |img.sections| ==> img.sections[i].RawEnd() <= Extra(img, n)
    ensures n > 0 ==> Extra(img, n) >= Max(img.sections[n - 1].RawEnd(), NextFile(img, n - 1))
    decreases n
  {
    hide GetDword, RoundUp, RawMax;
    RawMaxIsLargest(img.sections, |img.sections|);
    if n > 0 {
      ExtraIsBound(img, n - 1);
      NextFileGrows(img, n - 1, n);
    }
  }

  lemma {:induction false} RawMaxIsLargest(ss: seq<Section>, n: nat)
    requires n <= |ss| && forall i :: 0 <= i < |ss| ==> ss[i].RawEnd() < 0x1_0000_0000
    ensures forall i :: 0 <= i < n ==> ss[i].RawEnd() <= RawMax(ss, n)
    ensures RawMax(ss, n) > 0 ==> exists i :: 0 <= i < n && ss[i].RawEnd() == RawMax(ss, n)
  {
    hide RawMax, Plus;
    RawMaxStep(ss, n);
    if n > 0 {
      RawMaxIsLargest(ss, n - 1);
    }
  }

  lemma RawMaxStep(ss: seq<Section>, n: nat)
    requires n <= |ss| && forall i :: 0 <= i < |ss| ==> ss[i].RawEnd() < 0x1_0000_0000
    ensures RawMax(ss, n) == if n == 0 then 0 else Max(ss[n - 1].RawEnd(), RawMax(ss, n - 1))
  {
  }

  lemma RawEndsFit(file: seq<Byte>, img: Image, ins: Insert)
    requires Fits(file, img, ins)
    ensures forall i :: 0 <= i < |img.sections| ==> img.sections[i].RawEnd() <= NextFile(img, |img.sections|)
    ensures NextFile(img, |img.sections|) <= FileEnd(img, ins) < 0x1_0000_0000
    ensures ExtraAt(img) <= NextFile(img, |img.sections|)
    ensures forall i :: 0 <= i < |img.sections| ==> img.sections[i].RawEnd() <= ExtraAt(img)
    ensures |img.sections| == 0 ==> ExtraAt(img) == 0
  {
    hide GetDword, IsAlignment, NextFile, NextVirt, Extra, RoundUp;
    var n := |img.sections|;
    NextFileGrows(img, 0, n);
    RawMaxIsLargest(img.sections, n);
    ExtraIsBound(img, n);
    NoExtra(img);
  }

  lemma NoExtra(img: Image)
    ensures |img.sections| == 0 ==> ExtraAt(img) == 0
  {
  }

  // The last of the running ends is aligned.
  ghost predicate EndsAligned(img: Image) {
    var n := |img.sections|;
    if n == 0 then img.SizeOfHeaders() == 0
    else
      var end := img.sections[n - 1].RawEnd();
      end <= NextFile(img, n - 1) || RoundUp(end, img.FileAlignment()) == end
  }

  lemma EndsAlignedMeans(file: seq<Byte>, img: Image, ins: Insert)
    requires Fits(file, img, ins)
    ensures EndsAligned(img) <==> ExtraAt(img) == NextFile(img, |img.sections|)
  {
    hide GetDword, IsAlignment, NextFile, NextVirt, Extra, RoundUp, RawMax;
    RawEndsFit(file, img, ins);
    var n, a := |img.sections|, img.FileAlignment();
    LastStep(img, n);
    if n > 0 {
      NextFileGrows(img, 0, n - 1);
      RoundUpStays(NextFile(img, n - 1), a);
      RawMaxIsLargest(img.sections, n);
      ExtraIsLast(img, n);
    }
  }

  lemma LastStep(img: Image, n: nat)
    requires n <= |img.sections| && img.FileAlignment() > 0
    ensures n > 0 ==>
              NextFile(img, n) == RoundUp(Max(img.sections[n - 1].RawEnd(), NextFile(img, n - 1)), img.FileAlignment())
    ensures NextFile(img, 0) == RoundUp(img.SizeOfHeaders(), img.FileAlignment())
    ensures NextFile(img, 0) == 0 <==> img.SizeOfHeaders() == 0
  {
  }

  // It begins where the last section ends, unless an earlier one or the headers reach further.
  lemma {:induction false} ExtraIsLast(img: Image, n: nat)
    requires img.FileAlignment() > 0 && 0 < n <= |img.sections|
    ensures Extra(img, n)
            == Max(Max(img.sections[n - 1].RawEnd(), NextFile(img, n - 1)), RawMax(img.sections, |img.sections|))
    decreases n
  {
    hide GetDword, RoundUp, RawMax;
    if n > 1 {
      ExtraIsLast(img, n - 1);
      NextFileGrows(img, n - 2, n - 1);
    }
  }

  // ---- The bytes of the old sections ----

  predicate InRaw(s: Section, o: nat) {
    s.pointerToRawData <= o < s.RawEnd()
  }

  // What is copied of the headers and the first n sections.
  ghost predicate IsKept(img: Image, n: nat, o: nat)
    requires n <= |img.sections|
  {
    o < img.SizeOfHeaders() || exists i :: 0 <= i < n && InRaw(img.sections[i], o)
  }

  // Filling up to aligned addresses destroys none of it.
  lemma {:induction false} CopiedKeeps(file: seq<Byte>, img: Image, n: nat, o: nat)
    requires img.FileAlignment() > 0 && n <= |img.sections| && IsKept(img, n, o)
    ensures At(Copied(file, img, n), o) == At(file, o)
  {
    hide WriteAt, GetDword, RoundUp, NextFile, Copied, InRaw;
    if n == 0 {
      FirstCopy(file, img, o);
    } else {
      if IsKept(img, n - 1, o) {
        KeptLiesBelow(img, n - 1, o);
        CopiedKeeps(file, img, n - 1, o);
      }
      NextCopy(file, img, n, o);
    }
  }

  lemma KeptLiesBelow(img: Image, n: nat, o: nat)
    requires img.FileAlignment() > 0 && n <= |img.sections| && IsKept(img, n, o)
    ensures o < NextFile(img, n)
  {
    hide GetDword, RoundUp, NextFile;
    NextFileGrows(img, 0, n);
  }

  lemma NextCopy(file: seq<Byte>, img: Image, n: nat, o: nat)
    requires 0 < n <= |img.sections|
    requires InRaw(img.sections[n - 1], o)
             || (o < NextFile(img, n - 1) && At(Copied(file, img, n - 1), o) == At(file, o))
    ensures At(Copied(file, img, n), o) == At(file, o)
  {
    hide WriteAt, GetDword, RoundUp, ReadAt;
    var s, f := img.sections[n - 1], Copied(file, img, n - 1);
    var b := ReadAt(file, s.pointerToRawData, s.sizeOfRawData);
    WrittenAt(f, s.pointerToRawData, b);
    var start, end := Max(s.RawEnd(), NextFile(img, n - 1)), NextFile(img, n);
    WrittenAt(WriteAt(f, s.pointerToRawData, b), start, Zeros(end - start));
    assert s.pointerToRawData <= o ==> s.pointerToRawData + (o - s.pointerToRawData) == o;
  }

  lemma FirstCopy(file: seq<Byte>, img: Image, o: nat)
    requires o < img.SizeOfHeaders()
    ensures At(Copied(file, img, 0), o) == At(file, o)
  {
    hide WriteAt, GetDword, RoundUp;
    var h := img.SizeOfHeaders();
    var f := WriteAt([], 0, ReadAt(file, 0, h));
    WrittenAt([], 0, ReadAt(file, 0, h));
    WrittenAt(f, h, Zeros(NextFile(img, 0) - h));
  }

  // ---- Well-formed images ----

  // Where the debug directory lies in the old file.
  function DebugStart(img: Image): nat {
    if SectionOf(img.sections, img.DebugAddr(), 0) == |img.sections| then 0 else RawPlace(img.sections, img.DebugAddr())
  }

  function DebugEnd(img: Image): nat {
    DebugStart(img) + DEBUG_ENTRY_SIZE * DebugCount(img)
  }

  predicate InDebug(img: Image, o: nat) {
    HasDebug(img) && DebugStart(img) <= o < DebugEnd(img)
  }

  function HeadersSize(img: Image, ins: Insert): nat {
    img.SectionsOffset() + SECTION_SIZE * (|img.sections| + if ins.Data? then 1 else 0)
  }

  // What the linker sees to: the optional header has its full size, the headers lie behind the DOS header and
  // before the raw data, and the debug directory lies in a section.
  ghost predicate IsSound(file: seq<Byte>, img: Image, ins: Insert) {
    && Fits(file, img, ins)
    && |img.optionalHeader| == OptionalSize(img.f64bit) <= img.fileHeader.sizeOfOptionalHeader
    && HeadersSize(img, ins) <= NextFile(img, |img.sections|)
    && (forall i :: 0 <= i < |img.sections| && img.sections[i].sizeOfRawData != 0 ==>
          HeadersSize(img, ins) <= img.sections[i].pointerToRawData)
    && (HasDebug(img) ==>
          var k := SectionOf(img.sections, img.DebugAddr(), 0);
          k < |img.sections| && HeadersSize(img, ins) <= DebugStart(img) && DebugEnd(img) <= img.sections[k].RawEnd())
  }

  // It is still there when the pointers have been adjusted.
  lemma DebugIsThere(file: seq<Byte>, img: Image, ins: Insert)
    requires IsSound(file, img, ins)
    ensures HasDebug(img) ==> DebugOffset(img, ins) == DebugStart(img) && DebugEnd(img) <= NextFile(img, |img.sections|)
  {
    hide Fits, NewImage, NextFile, RawPlace, FileOffset, GetDword, SectionOf;
    RawEndsFit(file, img, ins);
    if HasDebug(img) {
      SameRawPlace(file, img, ins, img.DebugAddr());
      SamePlace(NewImage(img, ins).sections, img.DebugAddr());
    }
  }

  // The room that Check looks for is what a sound image needs for its headers, once some raw data is in the file.
  lemma RoomIsSound(file: seq<Byte>, img: Image, ins: Insert, i: nat)
    requires Fits(file, img, ins) && HasRoom(img) && i < |img.sections| && img.sections[i].pointerToRawData != 0
    requires img.SectionsOffset() <= 0x1_0000_0000 - 2 * SECTION_SIZE * MAX_SECTIONS
    ensures HeadersSize(img, ins) <= img.sections[i].pointerToRawData
    ensures HeadersSize(img, ins) <= NextFile(img, |img.sections|)
  {
    hide GetDword, NextFile, NextVirt, Extra, RoundUp, IsAlignment, NewImage;
    RawEndsFit(file, img, ins);
  }

  // What Check cannot see: headers of full size in front of all raw data, and a debug directory in a section.
  ghost predicate IsOrdinary(img: Image, ins: Insert) {
    && |img.optionalHeader| == OptionalSize(img.f64bit) <= img.fileHeader.sizeOfOptionalHeader
    && img.SectionsOffset() <= 0x1_0000_0000 - 2 * SECTION_SIZE * MAX_SECTIONS
    && DataIsBehind(img)
    && (forall i :: 0 <= i < |img.sections| && img.sections[i].sizeOfRawData != 0 ==>
          img.sections[i].pointerToRawData != 0)
    && ((exists i :: 0 <= i < |img.sections| && img.sections[i].pointerToRawData != 0)
        || HeadersSize(img, ins) <= img.SizeOfHeaders())
    && (HasDebug(img) ==>
          var k := SectionOf(img.sections, img.DebugAddr(), 0);
          k < |img.sections| && DebugEnd(img) <= img.sections[k].RawEnd())
  }

  // A debug directory in a section is behind the start of that section's raw data.
  lemma DebugIsBehind(img: Image, ins: Insert)
    requires IsOrdinary(img, ins)
    ensures HasDebug(img) ==>
              var s := img.sections[SectionOf(img.sections, img.DebugAddr(), 0)];
              s.pointerToRawData != 0 && s.pointerToRawData <= DebugStart(img)
  {
    hide GetDword, HeadersSize, DebugCount;
  }

  // For the rest, the test of Check is enough.
  lemma CheckedIsSound(file: seq<Byte>, img: Image, ins: Insert)
    requires Fits(file, img, ins) && IsOrdinary(img, ins) && |img.sections| + 1 <= MaxCount(img)
    ensures IsSound(file, img, ins)
  {
    hide GetDword, NextFile, NextVirt, Extra, RoundUp, IsAlignment, MaxCount, HeadersEnd, SectionOf;
    hide DebugStart, DebugEnd;
    var n := |img.sections|;
    CheckMeansRoomIff(img);
    DebugIsBehind(img, ins);
    NextFileGrows(img, 0, n);
    forall i | 0 <= i < n && img.sections[i].pointerToRawData != 0
      ensures HeadersSize(img, ins) <= img.sections[i].pointerToRawData
      ensures HeadersSize(img, ins) <= NextFile(img, n)
    {
      RoomIsSound(file, img, ins, i);
    }
  }

  // Up to the next free place, the new file differs in the headers and the debug directory only.
  lemma UpToTheNewSection(file: seq<Byte>, img: Image, ins: Insert, o: nat)
    requires IsSound(file, img, ins) && HeadersSize(img, ins) <= o < NextFile(img, |img.sections|)
    requires !InDebug(img, o)
    ensures At(Written(file, img, ins), o) == At(Copied(file, img, |img.sections|), o)
  {
    hide WriteAt, GetDword, NextFile, NextVirt, Extra, RoundUp, IsAlignment, Copied, RawData, DebugBytes, FileOffset;
    hide NewImage;
    RawEndsFit(file, img, ins);
    DebugIsThere(file, img, ins);
    OutsideHeaders(file, img, ins, o);
    BeforeTheRest(file, img, ins, o);
    var f := Copied(file, img, |img.sections|);
    if ins.Data? {
      WrittenAt(f, NextFile(img, |img.sections|), RawData(img, ins));
    }
    var p := DebugOffset(img, ins);
    WrittenAt(WithData(file, img, ins), p, DebugBytes(file, p, DebugCount(img), ExtraAt(img), FileEnd(img, ins)));
  }

  lemma OutsideHeaders(file: seq<Byte>, img: Image, ins: Insert, o: nat)
    requires IsSound(file, img, ins) && HeadersSize(img, ins) <= o
    ensures At(Written(file, img, ins), o) == At(WithRest(file, img, ins), o)
  {
    hide WriteAt, WithRest, FileHeaderBytes, TableBytes, Fits, NextFile, RoundUp, GetDword, DebugStart, DebugEnd;
    var to := NewImage(img, ins);
    SizesStay(img, ins);
    var f := WithRest(file, img, ins);
    var g := WriteAt(f, to.fileHeaderOffset, FileHeaderBytes(to.fileHeader));
    var h := WriteAt(g, to.OptionalHeaderOffset(), to.optionalHeader);
    WrittenAt(f, to.fileHeaderOffset, FileHeaderBytes(to.fileHeader));
    WrittenAt(g, to.OptionalHeaderOffset(), to.optionalHeader);
    WrittenAt(h, to.SectionsOffset(), TableBytes(to.sections));
  }

  lemma SizesStay(img: Image, ins: Insert)
    requires |img.optionalHeader| == OptionalSize(img.f64bit)
    ensures var to := NewImage(img, ins);
            && to.fileHeaderOffset == img.fileHeaderOffset && to.f64bit == img.f64bit
            && to.OptionalHeaderOffset() == img.OptionalHeaderOffset() && to.SectionsOffset() == img.SectionsOffset()
            && |to.optionalHeader| == |img.optionalHeader|
  {
    hide GetDword, DwordBytes, ExtraAt, FileEnd, VirtEnd, NewSection, ShiftAll, ToDword;
  }

  lemma BeforeTheRest(file: seq<Byte>, img: Image, ins: Insert, o: nat)
    requires o < FileEnd(img, ins)
    ensures At(WithRest(file, img, ins), o) == At(WithDebug(file, img, ins), o)
  {
    hide WriteAt, WithDebug, FileEnd, ExtraAt;
    var extra := ExtraAt(img);
    if |file| > extra {
      WrittenAt(WithDebug(file, img, ins), FileEnd(img, ins), ReadAt(file, extra, |file| - extra));
    }
  }

  // The raw data of each old section is where it was, but for the debug directory.
  lemma OldBytesStay(file: seq<Byte>, img: Image, ins: Insert, i: nat, o: nat)
    requires IsSound(file, img, ins) && i < |img.sections| && InRaw(img.sections[i], o) && !InDebug(img, o)
    ensures At(Written(file, img, ins), o) == At(file, o)
  {
    hide Written, GetDword, Copied, NextFile, NextVirt, Extra, RoundUp, IsAlignment, DebugStart, DebugEnd, NewImage;
    RawEndsFit(file, img, ins);
    UpToTheNewSection(file, img, ins, o);
    CopiedKeeps(file, img, |img.sections|, o);
  }

  // ---- Addresses ----

  // Section pointers stay put.
  lemma PointersStay(file: seq<Byte>, img: Image, ins: Insert, i: nat)
    requires Fits(file, img, ins) && i < |img.sections|
    ensures NewImage(img, ins).sections[i] ==
            img.sections[i].(
              pointerToRelocations := Shift(img.sections[i].pointerToRelocations, ExtraAt(img), FileEnd(img, ins)),
              pointerToLinenumbers := Shift(img.sections[i].pointerToLinenumbers, ExtraAt(img), FileEnd(img, ins)))
  {
    hide GetDword, NextFile, NextVirt, Extra, RoundUp, IsAlignment, NewSection, Sized, Unbound, ToDword;
    RawEndsFit(file, img, ins);
  }

  // An address in an old section is found at the same place.
  lemma SameRawPlace(file: seq<Byte>, img: Image, ins: Insert, rva: Dword)
    requires Fits(file, img, ins) && SectionOf(img.sections, rva, 0) < |img.sections|
    ensures var ss := NewImage(img, ins).sections;
            SectionOf(ss, rva, 0) < |ss| && RawPlace(ss, rva) == RawPlace(img.sections, rva)
  {
    hide NewImage, Fits;
    var k := SectionOf(img.sections, rva, 0);
    forall i | 0 <= i < |img.sections|
      ensures Covers(NewImage(img, ins).sections[i], rva) == Covers(img.sections[i], rva)
      ensures NewImage(img, ins).sections[i].pointerToRawData == img.sections[i].pointerToRawData
      ensures NewImage(img, ins).sections[i].virtualAddress == img.sections[i].virtualAddress
    {
      PointersStay(file, img, ins, i);
    }
    FirstOf(NewImage(img, ins).sections, rva, k);
  }

  lemma {:induction false} SectionOfIs(ss: seq<Section>, rva: Dword, n: nat, k: nat)
    requires n <= k <= |ss| && (forall i :: n <= i < k ==> !Covers(ss[i], rva)) && (k < |ss| ==> Covers(ss[k], rva))
    ensures SectionOf(ss, rva, n) == k
    decreases k - n
  {
    if n < k {
      SectionOfIs(ss, rva, n + 1, k);
    }
  }

  lemma FirstOf(ss: seq<Section>, rva: Dword, k: nat)
    requires k < |ss| && (forall i :: 0 <= i < k ==> !Covers(ss[i], rva)) && Covers(ss[k], rva)
    ensures SectionOf(ss, rva, 0) == k
  {
    SectionOfIs(ss, rva, 0, k);
  }

  // The byte an address stands for.
  function ByteAt(file: seq<Byte>, ss: seq<Section>, rva: Dword): Byte
    requires SectionOf(ss, rva, 0) < |ss|
  {
    At(file, RawPlace(ss, rva))
  }

  // Every address of the old sections stands for the same byte as before, but for the debug directory.
  lemma AddressesKeepTheirBytes(file: seq<Byte>, img: Image, ins: Insert, rva: Dword)
    requires IsSound(file, img, ins) && SectionOf(img.sections, rva, 0) < |img.sections|
    requires !InDebug(img, RawPlace(img.sections, rva))
    ensures var ss := NewImage(img, ins).sections;
            SectionOf(ss, rva, 0) < |ss| && ByteAt(Written(file, img, ins), ss, rva) == ByteAt(file, img.sections, rva)
  {
    hide NewImage, Written, GetDword, NextFile, NextVirt, Extra, RoundUp, IsAlignment, DebugStart, DebugEnd;
    SameRawPlace(file, img, ins, rva);
    var k := SectionOf(img.sections, rva, 0);
    assert img.sections[k].virtualAddress + img.sections[k].sizeOfRawData < 0x1_0000_0000;
    OldBytesStay(file, img, ins, k, RawPlace(img.sections, rva));
  }

  // ---- The new section ----

  // What is written at the next free place is the data, padded with zeros.
  lemma DataIsThere(file: seq<Byte>, img: Image, ins: Insert, k: nat)
    requires IsSound(file, img, ins) && ins.Data? && k < ins.RawSize(img)
    ensures At(Written(file, img, ins), NextFile(img, |img.sections|) + k) == At(ins.data, k)
  {
    hide WriteAt, GetDword, NextFile, NextVirt, Extra, RoundUp, IsAlignment, Copied, DebugBytes, FileOffset, NewImage;
    var f, p := Copied(file, img, |img.sections|), NextFile(img, |img.sections|);
    RawEndsFit(file, img, ins);
    DebugIsThere(file, img, ins);
    OutsideHeaders(file, img, ins, p + k);
    BeforeTheRest(file, img, ins, p + k);
    WrittenAt(f, p, RawData(img, ins));
    assert RawData(img, ins)[k] == At(ins.data, k);
    var d := DebugOffset(img, ins);
    WrittenAt(WithData(file, img, ins), d, DebugBytes(file, d, DebugCount(img), ExtraAt(img), FileEnd(img, ins)));
  }

  // The header of the new section points to its data exactly if the last running end is aligned: otherwise
  // the pointer is taken for one behind the sections and moved along with what is there.
  lemma NewPointerIsRightIff(file: seq<Byte>, img: Image, ins: Insert)
    requires Fits(file, img, ins) && ins.Data?
    ensures var ss := NewImage(img, ins).sections;
            ss[|img.sections|].pointerToRawData == NextFile(img, |img.sections|) <==> EndsAligned(img)
  {
    hide Fits, NextFile, EndsAligned, NewImage, ExtraAt, FileEnd, Shift, ToDword;
    RawEndsFit(file, img, ins);
    EndsAlignedMeans(file, img, ins);
    NewPointer(img, ins);
    InRange(NextFile(img, |img.sections|));
    ShiftMoves(NextFile(img, |img.sections|), ExtraAt(img), FileEnd(img, ins));
  }

  lemma NewPointer(img: Image, ins: Insert)
    requires ins.Data?
    ensures NewImage(img, ins).sections[|img.sections|].pointerToRawData
            == Shift(ToDword(NextFile(img, |img.sections|)), ExtraAt(img), FileEnd(img, ins))
  {
    hide GetDword, NextVirt, NextFile, ExtraAt, FileEnd, VirtEnd, RoundUp, Sized, Unbound, Shift, ToDword, PaddedName;
  }

  // A pointer is left alone exactly if it does not lie behind the sections.
  lemma ShiftMoves(p: Dword, extra: nat, end: nat)
    requires extra < end < 0x1_0000_0000 || extra == end
    ensures Shift(p, extra, end) == p <==> p <= extra || extra == end
  {
  }

  // Its addresses stand for the supplied data where no old section claims them.
  lemma NewAddressesGetTheData(file: seq<Byte>, img: Image, ins: Insert, k: nat)
    requires IsSound(file, img, ins) && ins.Data? && EndsAligned(img) && k < ins.RawSize(img)
    requires forall i :: 0 <= i < |img.sections| ==>
              !Covers(img.sections[i], ToDword(NextVirt(img, |img.sections|) + k))
    ensures var ss, rva := NewImage(img, ins).sections, ToDword(NextVirt(img, |img.sections|) + k);
            SectionOf(ss, rva, 0) == |img.sections| && ByteAt(Written(file, img, ins), ss, rva) == At(ins.data, k)
  {
    hide Fits, NewImage, Written, RawPlace, SectionOf, NextFile, NextVirt, ToDword, EndsAligned, Covers;
    NewPlace(file, img, ins, k);
    DataIsThere(file, img, ins, k);
  }

  lemma NewPlace(file: seq<Byte>, img: Image, ins: Insert, k: nat)
    requires Fits(file, img, ins) && ins.Data? && EndsAligned(img) && k < ins.RawSize(img)
    requires forall i :: 0 <= i < |img.sections| ==>
              !Covers(img.sections[i], ToDword(NextVirt(img, |img.sections|) + k))
    ensures var ss, rva := NewImage(img, ins).sections, ToDword(NextVirt(img, |img.sections|) + k);
            SectionOf(ss, rva, 0) == |img.sections| && RawPlace(ss, rva) == NextFile(img, |img.sections|) + k
  {
    hide GetDword, NewImage, RawPlace, SectionOf, NextFile, NextVirt, Extra, RoundUp, EndsAligned, IsAlignment;
    var ss, n := NewImage(img, ins).sections, |img.sections|;
    var rva := ToDword(NextVirt(img, n) + k);
    forall i | 0 <= i < n
      ensures !Covers(ss[i], rva)
    {
      PointersStay(file, img, ins, i);
    }
    NewPointerIsRightIff(file, img, ins);
    NewHeader(file, img, ins);
    FirstOf(ss, rva, n);
    PlaceIn(ss, rva, n);
  }

  // Images as the PE format wants them: raw ends are aligned in the file, sections are aligned in the address space,
  // and have no more raw data than the address space they take up.
  ghost predicate IsRegular(img: Image)
    requires img.FileAlignment() > 0 && img.SectionAlignment() > 0
  {
    && img.sections != []
    && forall i :: 0 <= i < |img.sections| ==>
         && img.sections[i].RawEnd() % img.FileAlignment() == 0
         && img.sections[i].virtualAddress % img.SectionAlignment() == 0
         && img.sections[i].sizeOfRawData <= RoundUp(img.sections[i].virtualSize, img.SectionAlignment())
  }

  lemma RegularEndsAligned(img: Image)
    requires img.FileAlignment() > 0 && img.SectionAlignment() > 0 && IsRegular(img)
    ensures EndsAligned(img)
  {
    hide GetDword, NextFile, RoundUp;
    RoundUpStays(img.sections[|img.sections| - 1].RawEnd(), img.FileAlignment());
  }

  // No address of the new section lies in the raw data of an old one.
  lemma NewAddressesAreFree(file: seq<Byte>, img: Image, ins: Insert, i: nat, k: nat)
    requires Fits(file, img, ins) && IsRegular(img) && i < |img.sections| && k < ins.RawSize(img)
    ensures !Covers(img.sections[i], ToDword(NextVirt(img, |img.sections|) + k))
  {
    hide GetDword, NextFile, NextVirt, RoundUp, IsAlignment, Extra, ToDword;
    var n, s, a := |img.sections|, img.sections[i], img.SectionAlignment();
    NextVirtGrows(img, 0, n);
    RoundUpShifts(s.virtualAddress, s.virtualSize, a);
    RoundUpIsLeast(s.VirtualEnd(), a, NextVirt(img, n));
    InRange(s.virtualAddress + s.sizeOfRawData);
    InRange(NextVirt(img, n) + k);
  }

  // So in a regular image all addresses of the new section stand for the supplied data, padded with zeros.
  lemma RegularImageGetsTheData(file: seq<Byte>, img: Image, ins: Insert, k: nat)
    requires IsSound(file, img, ins) && ins.Data? && IsRegular(img) && k < ins.RawSize(img)
    ensures var ss, rva := NewImage(img, ins).sections, ToDword(NextVirt(img, |img.sections|) + k);
            && ss[|img.sections|].pointerToRawData == NextFile(img, |img.sections|)
            && rva == ss[|img.sections|].virtualAddress + k
            && SectionOf(ss, rva, 0) == |img.sections| && ByteAt(Written(file, img, ins), ss, rva) == At(ins.data, k)
  {
    hide NewImage, Written, RawPlace, SectionOf, NextFile, NextVirt, ToDword, EndsAligned, Covers, IsRegular, GetDword;
    RegularEndsAligned(img);
    NewPointerIsRightIff(file, img, ins);
    NewHeader(file, img, ins);
    InRange(NextVirt(img, |img.sections|) + k);
    forall i | 0 <= i < |img.sections|
      ensures !Covers(img.sections[i], ToDword(NextVirt(img, |img.sections|) + k))
    {
      NewAddressesAreFree(file, img, ins, i, k);
    }
    NewAddressesGetTheData(file, img, ins, k);
  }

  lemma PlaceIn(ss: seq<Section>, rva: Dword, k: nat)
    requires k < |ss| && SectionOf(ss, rva, 0) == k
    ensures RawPlace(ss, rva) == ss[k].pointerToRawData + (rva - ss[k].virtualAddress)
  {
  }

  lemma NewHeader(file: seq<Byte>, img: Image, ins: Insert)
    requires Fits(file, img, ins) && ins.Data?
    ensures var s := NewImage(img, ins).sections[|img.sections|];
            && s.name == PaddedName(ins.name) && s.virtualSize == ins.VirtualSize()
            && s.virtualAddress == NextVirt(img, |img.sections|) && s.sizeOfRawData == ins.RawSize(img)
  {
    hide GetDword, NextVirt, NextFile, Extra, RoundUp, IsAlignment, Shift, Sized, Unbound;
    RawEndsFit(file, img, ins);
  }

  // ---- Behind the sections ----

  lemma RestIsThere(file: seq<Byte>, img: Image, ins: Insert, p: nat)
    requires IsSound(file, img, ins) && ExtraAt(img) <= p < |file|
    ensures At(Written(file, img, ins), FileEnd(img, ins) + (p - ExtraAt(img))) == At(file, p)
  {
    hide WriteAt, GetDword, NextFile, NextVirt, Extra, RoundUp, IsAlignment, WithDebug, NewImage, ReadAt;
    var extra, end := ExtraAt(img), FileEnd(img, ins);
    RawEndsFit(file, img, ins);
    OutsideHeaders(file, img, ins, end + (p - extra));
    WrittenAt(WithDebug(file, img, ins), end, ReadAt(file, extra, |file| - extra));
    assert ReadAt(file, extra, |file| - extra)[p - extra] == At(file, extra + (p - extra));
  }

  // A pointer behind the sections designates the same byte after the shift, unless it points to the very
  // first one: that byte has moved, but the pointer has not.
  lemma PointerFollowsItsByteIff(file: seq<Byte>, img: Image, ins: Insert, p: Dword)
    requires IsSound(file, img, ins) && ExtraAt(img) <= p < |file|
    ensures At(Written(file, img, ins), FileEnd(img, ins) + (p - ExtraAt(img))) == At(file, p)
    ensures Shift(p, ExtraAt(img), FileEnd(img, ins)) == FileEnd(img, ins) + (p - ExtraAt(img)) <==>
            p > ExtraAt(img) || FileEnd(img, ins) == ExtraAt(img)
  {
    hide GetDword, NextFile, NextVirt, Extra, RoundUp, IsAlignment, Written, FileEnd, ExtraAt;
    RawEndsFit(file, img, ins);
    RestIsThere(file, img, ins, p);
    assert FileEnd(img, ins) + (|file| - ExtraAt(img)) < 0x1_0000_0000;
    ShiftLands(p, ExtraAt(img), FileEnd(img, ins));
  }

  lemma ShiftLands(p: Dword, extra: nat, end: nat)
    requires extra <= p && end + (p - extra) < 0x1_0000_0000
    ensures Shift(p, extra, end) == end + (p - extra) <==> p > extra || end == extra
  {
  }

  // What such a pointer designates instead: the first byte of the new section.
  lemma PointerLeftBehind(file: seq<Byte>, img: Image, ins: Insert)
    requires IsSound(file, img, ins) && ins.Data? && EndsAligned(img) && ins.data != []
    ensures var p := ExtraAt(img);
            p < 0x1_0000_0000 && Shift(p, ExtraAt(img), FileEnd(img, ins)) == p
            && At(Written(file, img, ins), p) == ins.data[0]
  {
    hide GetDword, NextFile, NextVirt, Extra, RoundUp, IsAlignment, Written, FileEnd, ExtraAt;
    RawEndsFit(file, img, ins);
    EndsAlignedMeans(file, img, ins);
    DataIsThere(file, img, ins, 0);
  }

  // ---- The debug directory ----

  lemma {:induction false} DebugBytesAt(file: seq<Byte>, p: nat, n: nat, extra: nat, end: nat, k: nat)
    requires k < n
    ensures DebugBytes(file, p, n, extra, end)[DEBUG_ENTRY_SIZE * k..DEBUG_ENTRY_SIZE * k + DEBUG_ENTRY_SIZE]
            == DebugEntry(file, p + DEBUG_ENTRY_SIZE * k, extra, end)
  {
    hide DebugEntry;
    if k < n - 1 {
      DebugBytesAt(file, p, n - 1, extra, end, k);
    }
  }

  // Each entry keeps its bytes, but for its pointer to raw data, which is shifted like the others.
  lemma DebugEntriesFollow(file: seq<Byte>, img: Image, ins: Insert, k: nat)
    requires IsSound(file, img, ins) && HasDebug(img) && k < DebugCount(img)
    ensures var p := DebugStart(img) + 28 * k;
            && ReadAt(Written(file, img, ins), p, 24) == ReadAt(file, p, 24)
            && GetDword(Written(file, img, ins), p + 24) ==
               Shift(GetDword(file, p + 24), ExtraAt(img), FileEnd(img, ins))
  {
    hide Written, GetDword, NextFile, NextVirt, Extra, RoundUp, IsAlignment, Shift, DebugStart, DebugEntry, DwordBytes;
    var p, out := DebugStart(img) + DEBUG_ENTRY_SIZE * k, Written(file, img, ins);
    var entry := DebugEntry(file, p, ExtraAt(img), FileEnd(img, ins));
    forall i | 0 <= i < DEBUG_ENTRY_SIZE
      ensures At(out, p + i) == entry[i]
    {
      DebugByteIsThere(file, img, ins, k, i);
    }
    EntryParts(file, p, ExtraAt(img), FileEnd(img, ins));
    assert ReadAt(out, p, DEBUG_ENTRY_SIZE) == entry;
    DwordIn(out, p, entry, DEBUG_POINTER, Shift(GetDword(file, p + DEBUG_POINTER), ExtraAt(img), FileEnd(img, ins)));
    assert ReadAt(out, p, DEBUG_POINTER) == entry[..DEBUG_POINTER];
  }

  lemma EntryParts(file: seq<Byte>, p: nat, extra: nat, end: nat)
    ensures var e := DebugEntry(file, p, extra, end);
            && e[..DEBUG_POINTER] == ReadAt(file, p, DEBUG_POINTER)
            && e[DEBUG_POINTER..DEBUG_POINTER + 4] == DwordBytes(Shift(GetDword(file, p + DEBUG_POINTER), extra, end))
  {
    hide GetDword, DwordBytes, Shift, ReadAt;
  }

  lemma DebugByteIsThere(file: seq<Byte>, img: Image, ins: Insert, k: nat, i: nat)
    requires IsSound(file, img, ins) && HasDebug(img) && k < DebugCount(img) && i < DEBUG_ENTRY_SIZE
    ensures var p := DebugStart(img) + DEBUG_ENTRY_SIZE * k;
            At(Written(file, img, ins), p + i) == DebugEntry(file, p, ExtraAt(img), FileEnd(img, ins))[i]
  {
    hide WriteAt, GetDword, NextFile, NextVirt, Extra, RoundUp, IsAlignment, WithData, DebugEntry, FileOffset, NewImage;
    hide DebugBytes, DebugStart;
    RawEndsFit(file, img, ins);
    DebugIsThere(file, img, ins);
    var d, o := DebugOffset(img, ins), DebugOffset(img, ins) + DEBUG_ENTRY_SIZE * k + i;
    OutsideHeaders(file, img, ins, o);
    BeforeTheRest(file, img, ins, o);
    var b := DebugBytes(file, d, DebugCount(img), ExtraAt(img), FileEnd(img, ins));
    WrittenAt(WithData(file, img, ins), d, b);
    DebugBytesAt(file, d, DebugCount(img), ExtraAt(img), FileEnd(img, ins), k);
    assert b[DEBUG_ENTRY_SIZE * k..DEBUG_ENTRY_SIZE * k + DEBUG_ENTRY_SIZE][i] == b[DEBUG_ENTRY_SIZE * k + i];
  }
}

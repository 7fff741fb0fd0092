// Where things are placed, said without placing them, and what is in the written file where nothing was placed.

module PePlaces {
  import opened Alignment
  import opened Bytes
  import opened PeFormat
  import opened PeLayout
  import opened PeImageLaws

  // ---- Free places ----

  // The next free place in the file is the first aligned one behind the headers and the raw data of these sections.
  lemma {:induction false} NextFileIsLeast(img: Image, n: nat, m: nat)
    requires img.FileAlignment() > 0 && n <= |img.sections|
    ensures var p := NextFile(img, n);
            && p % img.FileAlignment() == 0 && img.SizeOfHeaders() <= p
            && forall i :: 0 <= i < n ==> img.sections[i].RawEnd() <= p
    ensures (m % img.FileAlignment() == 0 && img.SizeOfHeaders() <= m
             && forall i :: 0 <= i < n ==> img.sections[i].RawEnd() <= m) ==> NextFile(img, n) <= m
  {
    hide GetDword, RoundUp, NextFile;
    NextFileGrows(img, 0, n);
    LastStep(img, n);
    if m % img.FileAlignment() == 0 && img.SizeOfHeaders() <= m
       && forall i :: 0 <= i < n ==> img.sections[i].RawEnd() <= m {
      if n == 0 {
        RoundUpIsLeast(img.SizeOfHeaders(), img.FileAlignment(), m);
      } else {
        NextFileIsLeast(img, n - 1, m);
        RoundUpIsLeast(Max(img.sections[n - 1].RawEnd(), NextFile(img, n - 1)), img.FileAlignment(), m);
      }
    }
  }

  // The same of addresses.
  lemma {:induction false} NextVirtIsLeast(img: Image, n: nat, m: nat)
    requires img.SectionAlignment() > 0 && n <= |img.sections|
    ensures var p := NextVirt(img, n);
            && p % img.SectionAlignment() == 0
            && forall i :: 0 <= i < n ==> img.sections[i].virtualAddress + img.sections[i].virtualSize <= p
    ensures (m % img.SectionAlignment() == 0
             && forall i :: 0 <= i < n ==> img.sections[i].virtualAddress + img.sections[i].virtualSize <= m)
            ==> NextVirt(img, n) <= m
  {
    hide GetDword, RoundUp;
    NextVirtGrows(img, 0, n);
    if m % img.SectionAlignment() == 0 && n > 0
       && forall i :: 0 <= i < n ==> img.sections[i].virtualAddress + img.sections[i].virtualSize <= m {
      NextVirtIsLeast(img, n - 1, m);
      RoundUpIsLeast(Max(img.sections[n - 1].VirtualEnd(), NextVirt(img, n - 1)), img.SectionAlignment(), m);
    }
  }

  // What is put in: the data in whole eights, in the file rounded up to the file alignment; the image ends at the first
  // section boundary behind it.
  lemma EndsAre(img: Image, ins: Insert, m: nat)
    requires img.FileAlignment() > 0 && img.SectionAlignment() > 0
    ensures var n, size := |img.sections|, if ins.Data? then RoundUp(|ins.data|, 8) else 0;
            && FileEnd(img, ins) == NextFile(img, n) + RoundUp(size, img.FileAlignment())
            && VirtEnd(img, ins) % img.SectionAlignment() == 0 && NextVirt(img, n) + size <= VirtEnd(img, ins)
            && (m % img.SectionAlignment() == 0 && NextVirt(img, n) + size <= m ==> VirtEnd(img, ins) <= m)
  {
    hide GetDword, RoundUp, NextFile, NextVirt;
    var end := NextVirt(img, |img.sections|) + ins.VirtualSize();
    RoundUpIsMultiple(end, img.SectionAlignment());
    if m % img.SectionAlignment() == 0 && end <= m {
      RoundUpIsLeast(end, img.SectionAlignment(), m);
    }
  }

  // What is behind the sections is taken to begin where the raw data ends, or at the free place before the last
  // section, whichever is later.
  lemma {:induction false} ExtraIsLeast(img: Image, n: nat, m: nat)
    requires img.FileAlignment() > 0 && n <= |img.sections|
    requires forall i :: 0 <= i < |img.sections| ==> img.sections[i].RawEnd() < 0x1_0000_0000
    ensures (forall i :: 0 <= i < |img.sections| ==> img.sections[i].RawEnd() <= Extra(img, n))
            && forall i :: 0 <= i < n ==> NextFile(img, i) <= Extra(img, n)
    ensures ((forall i :: 0 <= i < |img.sections| ==> img.sections[i].RawEnd() <= m)
             && forall i :: 0 <= i < n ==> NextFile(img, i) <= m) ==> Extra(img, n) <= m
  {
    hide GetDword, RoundUp, NextFile, RawMax;
    ExtraIsBound(img, n);
    RawMaxIsLargest(img.sections, |img.sections|);
    if n > 0 {
      ExtraIsLeast(img, n - 1, m);
    }
  }

  // ---- Addresses ----

  // An address designates the byte as far behind the start of the raw data as the address is behind that of the
  // section, in the first section whose raw data has it.
  lemma AddressIs(ss: seq<Section>, rva: Dword, k: nat)
    requires k < |ss| && forall i :: 0 <= i < |ss| ==> ss[i].virtualAddress + ss[i].sizeOfRawData < 0x1_0000_0000
    requires ss[k].virtualAddress <= rva < ss[k].virtualAddress + ss[k].sizeOfRawData
    requires forall i :: 0 <= i < k ==>
               !(ss[i].virtualAddress <= rva < ss[i].virtualAddress + ss[i].sizeOfRawData)
    ensures SectionOf(ss, rva, 0) == k && RawPlace(ss, rva) == ss[k].pointerToRawData + (rva - ss[k].virtualAddress)
    ensures RawPlace(ss, rva) < 0x1_0000_0000 ==> FileOffset(ss, rva) == RawPlace(ss, rva)
  {
    hide SectionOf, FileOffset;
    FirstOf(ss, rva, k);
    SamePlace(ss, rva);
  }

  // An address in no section has no place.
  lemma NoAddress(ss: seq<Section>, rva: Dword)
    requires forall i :: 0 <= i < |ss| ==> ss[i].virtualAddress + ss[i].sizeOfRawData < 0x1_0000_0000
    requires forall i :: 0 <= i < |ss| ==>
               !(ss[i].virtualAddress <= rva < ss[i].virtualAddress + ss[i].sizeOfRawData)
    ensures SectionOf(ss, rva, 0) == |ss| && FileOffset(ss, rva) == 0
  {
    hide SectionOf;
    SectionOfIs(ss, rva, 0, |ss|);
  }

  // The debug directory is lost exactly if there is one, of at least a byte, and no section has its address, the new
  // one included.
  lemma DebugIsLostIff(file: seq<Byte>, img: Image, ins: Insert)
    requires Fits(file, img, ins)
    ensures var ss, debug := NewImage(img, ins).sections, img.DebugAddr();
            DebugIsLost(img, ins) <==>
            && debug != 0 && img.DebugSize() != 0
            && (forall i :: 0 <= i < |img.sections| ==>
                  !(img.sections[i].virtualAddress <= debug
                    < img.sections[i].virtualAddress + img.sections[i].sizeOfRawData))
            && (ins.Data? ==>
                  !(NextVirt(img, |img.sections|) <= debug < NextVirt(img, |img.sections|) + ins.RawSize(img)))
  {
    hide GetDword, NextFile, NextVirt, Extra, RoundUp, IsAlignment, NewImage, SectionOf, Plus;
    var ss, debug, n := NewImage(img, ins).sections, img.DebugAddr(), |img.sections|;
    forall i | 0 <= i < n
      ensures Covers(ss[i], debug) <==>
              img.sections[i].virtualAddress <= debug < img.sections[i].virtualAddress + img.sections[i].sizeOfRawData
    {
      PointersStay(file, img, ins, i);
      InRange(img.sections[i].virtualAddress + img.sections[i].sizeOfRawData);
      CoversIs(ss[i], debug);
    }
    if ins.Data? {
      NewHeader(file, img, ins);
      InRange(NextVirt(img, n) + ins.RawSize(img));
      CoversIs(ss[n], debug);
    }
    if SectionOf(ss, debug, 0) < |ss| {
      assert Covers(ss[SectionOf(ss, debug, 0)], debug);
    }
  }

  lemma CoversIs(s: Section, rva: Dword)
    ensures Covers(s, rva) <==> s.virtualAddress <= rva < ToDword(s.virtualAddress + s.sizeOfRawData)
  {
  }

  // ---- Gaps ----

  // Where neither headers nor raw data were copied to, there are zeros.
  lemma {:induction false} CopiedGaps(file: seq<Byte>, img: Image, n: nat, o: nat)
    requires img.FileAlignment() > 0 && n <= |img.sections|
    requires o >= img.SizeOfHeaders() && forall i :: 0 <= i < n ==> !InRaw(img.sections[i], o)
    ensures At(Copied(file, img, n), o) == 0
  {
    hide WriteAt, GetDword, RoundUp, NextFile;
    if n == 0 {
      var h := img.SizeOfHeaders();
      LastStep(img, 0);
      WrittenAt([], 0, ReadAt(file, 0, h));
      WrittenAt(WriteAt([], 0, ReadAt(file, 0, h)), h, Zeros(NextFile(img, 0) - h));
    } else {
      CopiedGaps(file, img, n - 1, o);
      var s, f := img.sections[n - 1], Copied(file, img, n - 1);
      var b := ReadAt(file, s.pointerToRawData, s.sizeOfRawData);
      LastStep(img, n);
      var start, end := Max(s.RawEnd(), NextFile(img, n - 1)), NextFile(img, n);
      WrittenAt(f, s.pointerToRawData, b);
      WrittenAt(WriteAt(f, s.pointerToRawData, b), start, Zeros(end - start));
    }
  }

  // So every byte between the headers and the new section is the one that was there, or zero; but for the debug
  // directory.
  lemma BytesBeforeAre(file: seq<Byte>, img: Image, ins: Insert, o: nat)
    requires IsSound(file, img, ins) && HeadersSize(img, ins) <= o < NextFile(img, |img.sections|) && !InDebug(img, o)
    ensures At(Written(file, img, ins), o) ==
            if o < img.SizeOfHeaders()
               || exists i :: 0 <= i < |img.sections|
                           && img.sections[i].pointerToRawData <= o < img.sections[i].pointerToRawData
                                                                      + img.sections[i].sizeOfRawData
            then At(file, o) else 0
  {
    hide Written, GetDword, NextFile, NextVirt, Extra, RoundUp, IsAlignment, Copied, DebugStart, DebugEnd, NewImage;
    UpToTheNewSection(file, img, ins, o);
    if o < img.SizeOfHeaders() || exists i :: 0 <= i < |img.sections| && InRaw(img.sections[i], o) {
      CopiedKeeps(file, img, |img.sections|, o);
    } else {
      CopiedGaps(file, img, |img.sections|, o);
    }
  }

  // Behind the new section there is nothing but what was behind the old ones.
  lemma WrittenLength(file: seq<Byte>, img: Image, ins: Insert)
    requires IsSound(file, img, ins) && ins.Data? && ins.RawSize(img) > 0
    ensures |Written(file, img, ins)| == FileEnd(img, ins) + Max(0, |file| - ExtraAt(img))
  {
    hide WriteAt, GetDword, NextFile, NextVirt, Extra, RoundUp, IsAlignment, DebugBytes, FileOffset, NewImage;
    RawEndsFit(file, img, ins);
    DebugIsThere(file, img, ins);
    SizesStay(img, ins);
    CopiedLength(file, img, |img.sections|);
  }

  lemma {:induction false} CopiedLength(file: seq<Byte>, img: Image, n: nat)
    requires img.FileAlignment() > 0 && n <= |img.sections|
    ensures |Copied(file, img, n)| <= NextFile(img, n)
  {
    hide WriteAt, GetDword, RoundUp, NextFile;
    NextFileGrows(img, 0, n);
    if n > 0 {
      CopiedLength(file, img, n - 1);
      NextFileGrows(img, n - 1, n);
    }
  }
}

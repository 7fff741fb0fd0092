// addsect/addsect.cpp: CImage, which writes a PE file again with a section more.

module PeImage {
  import opened Alignment
  import opened Bytes
  import opened PeFormat
  import opened PeLayout
  import PeImageLaws
  import opened Wrappers

  // The file being written.
  class OutFile {
    var bytes: seq<Byte>
    var pos: nat

    constructor ()
      ensures bytes == [] && pos == 0
    {
      bytes, pos := [], 0;
    }

    method SetFilePointer(p: nat)
      modifies this`pos
      ensures pos == p
    {
      pos := p;
    }

    method WriteFile(b: seq<Byte>)
      modifies this
      ensures bytes == WriteAt(old(bytes), old(pos), b) && pos == old(pos) + |b|
    {
      bytes := WriteAt(bytes, pos, b);
      pos := pos + |b|;
    }
  }

  class CImage {
    var file: seq<Byte> // m_pMap, m_nFileSize
    var f64bit: bool
    var fileHeaderOffset: Dword
    var fileHeader: FileHeader
    var optionalHeader: seq<Byte>
    var sectionHeaders: seq<Section>
    var nSectionsEndOffset: Dword
    var nSectionsMaxCount: Dword
    var nExtraOffset: Dword
    var nNextFileAddr: Dword
    var nNextVirtAddr: Dword
    var outputBuffer: seq<Byte>
    var nOutputVirtAddr: Dword
    var nOutputVirtSize: Dword
    var nOutputFileAddr: Dword

    constructor ()
      ensures outputBuffer == []
    {
      file, f64bit, fileHeaderOffset, optionalHeader, sectionHeaders := [], false, 0, [], [];
      fileHeader := FileHeader(0, 0, 0, 0, 0, 0, 0);
      nSectionsEndOffset, nSectionsMaxCount, nExtraOffset, nNextFileAddr, nNextVirtAddr := 0, 0, 0, 0, 0;
      outputBuffer, nOutputVirtAddr, nOutputVirtSize, nOutputFileAddr := [], 0, 0, 0;
    }

    ghost function Value(): Image
      reads this
    {
      Image(fileHeaderOffset, fileHeader, f64bit, optionalHeader, sectionHeaders)
    }

    // ---- The output buffer ----

    ghost predicate IsWhole()
      reads this`optionalHeader, this`outputBuffer
    {
      var a := GetDword(optionalHeader, FILE_ALIGNMENT);
      a > 0 && |outputBuffer| % a == 0 && |outputBuffer| < 0x1_0000_0000
    }

    ghost predicate FileFits(a: nat)
      reads this`optionalHeader
    {
      var s := GetDword(optionalHeader, FILE_ALIGNMENT);
      IsAlignment(s) && s > 0 && RoundUp(a, s) < 0x1_0000_0000
    }

    method FileAlign(a: Dword) returns (r: Dword)
      requires FileFits(a)
      ensures r == RoundUp(a, GetDword(optionalHeader, FILE_ALIGNMENT))
    {
      AlignRoundsUp(a, GetDword(optionalHeader, FILE_ALIGNMENT));
      r := Align(a, GetDword(optionalHeader, FILE_ALIGNMENT));
    }

    method SectionAlign(a: Dword) returns (r: Dword)
      requires IsAlignment(GetDword(optionalHeader, SECTION_ALIGNMENT))
      requires GetDword(optionalHeader, SECTION_ALIGNMENT) > 0
      requires RoundUp(a, GetDword(optionalHeader, SECTION_ALIGNMENT)) < 0x1_0000_0000
      ensures r == RoundUp(a, GetDword(optionalHeader, SECTION_ALIGNMENT))
    {
      AlignRoundsUp(a, GetDword(optionalHeader, SECTION_ALIGNMENT));
      r := Align(a, GetDword(optionalHeader, SECTION_ALIGNMENT));
    }

    // The buffer grows to at least cbData bytes; its size stays a multiple of FileAlignment.
    method SizeOutputBuffer(cbData: Dword)
      requires IsWhole() && FileFits(cbData)
      modifies this`outputBuffer
      ensures IsWhole() && |outputBuffer| >= cbData
      ensures old(outputBuffer) <= outputBuffer
      ensures outputBuffer[|old(outputBuffer)|..] == Zeros(|outputBuffer| - |old(outputBuffer)|)
      ensures old(|outputBuffer|) >= cbData ==> outputBuffer == old(outputBuffer)
    {
      hide RoundUp;
      if |outputBuffer| < cbData {
        var cb := cbData;
        if cb < 1024 {
          cb := 1024;
          SmallFits(1024, GetDword(optionalHeader, FILE_ALIGNMENT));
        }
        cb := FileAlign(cb);
        RoundUpIsMultiple(if cbData < 1024 then 1024 else cbData, GetDword(optionalHeader, FILE_ALIGNMENT));
        outputBuffer := outputBuffer + Zeros(cb - |outputBuffer|);
      }
    }

    method AllocateOutput(cbData: Dword) returns (pbData: Option<nat>, nVirtAddr: Dword)
      requires RoundUp(cbData, 8) + nOutputVirtSize < 0x1_0000_0000 && nOutputVirtSize <= |outputBuffer|
      modifies this`outputBuffer, this`nOutputVirtSize
      ensures nOutputVirtSize == old(nOutputVirtSize) + RoundUp(cbData, 8)
      ensures nVirtAddr == Plus(nOutputVirtAddr, old(nOutputVirtSize))
      ensures pbData == if nOutputVirtSize > |outputBuffer| then None else Some(old(nOutputVirtSize))
      ensures outputBuffer ==
              if nOutputVirtSize > |old(outputBuffer)| then old(outputBuffer)
              else old(outputBuffer)[..old(nOutputVirtSize)] + Zeros(RoundUp(cbData, 8))
                   + old(outputBuffer)[nOutputVirtSize..]
    {
      hide RoundUp;
      EightIsAlignment();
      AlignRoundsUp(cbData, 8);
      var cb := Align(cbData, 8);
      var start := nOutputVirtSize;
      nVirtAddr := Plus(nOutputVirtAddr, nOutputVirtSize);
      nOutputVirtSize := nOutputVirtSize + cb;
      if nOutputVirtSize > |outputBuffer| {
        return None, nVirtAddr;
      }
      outputBuffer := outputBuffer[..start] + Zeros(cb) + outputBuffer[nOutputVirtSize..];
      return Some(start), nVirtAddr;
    }

    method ZeroFileData(f: OutFile, cbData: Dword)
      requires IsWhole() && FileFits(0) && outputBuffer == Zeros(|outputBuffer|)
      modifies this`outputBuffer, f
      ensures f.bytes == WriteAt(old(f.bytes), old(f.pos), Zeros(cbData))
      ensures IsWhole() && outputBuffer == Zeros(|outputBuffer|)
    {
      hide WriteAt, IsWhole;
      GrowForZeros();
      ghost var start, p, buffer := f.bytes, f.pos, outputBuffer;
      WriteNothing(start, p);
      var cbLeft: Dword := cbData;
      while cbLeft > 0
        invariant outputBuffer == buffer && IsWhole()
        invariant cbLeft <= cbData && f.pos == p + (cbData - cbLeft)
        invariant f.bytes == WriteAt(start, p, Zeros(cbData - cbLeft))
      {
        var cbStep: int := if cbLeft > |outputBuffer| then |outputBuffer| else cbLeft;
        ZerosOn(start, p, cbData - cbLeft, cbStep);
        ZerosPrefix(|outputBuffer|, cbStep);
        f.WriteFile(outputBuffer[..cbStep]);
        cbLeft := cbLeft - cbStep;
      }
    }

    method GrowForZeros()
      requires IsWhole() && FileFits(0) && outputBuffer == Zeros(|outputBuffer|)
      modifies this`outputBuffer
      ensures IsWhole() && outputBuffer == Zeros(|outputBuffer|) && 4096 <= |outputBuffer| < 0x1_0000_0000
    {
      hide IsAlignment, RoundUp;
      SmallFits(4096, GetDword(optionalHeader, FILE_ALIGNMENT));
      ghost var was := outputBuffer;
      SizeOutputBuffer(4096);
      assert outputBuffer == was + outputBuffer[|was|..];
    }

    // On to aligned addresses, with zeros in between.
    method AlignFileData(f: OutFile)
      requires IsAlready() || (IsWhole() && outputBuffer == Zeros(|outputBuffer|))
      requires FileFits(nNextFileAddr) && VirtFits(nNextVirtAddr)
      modifies this`nNextFileAddr, this`nNextVirtAddr, this`outputBuffer, f
      ensures nNextFileAddr == RoundUp(old(nNextFileAddr), GetDword(optionalHeader, FILE_ALIGNMENT))
      ensures nNextVirtAddr == RoundUp(old(nNextVirtAddr), GetDword(optionalHeader, SECTION_ALIGNMENT))
      ensures f.bytes == Filled(old(f.bytes), old(nNextFileAddr), nNextFileAddr)
      ensures old(IsAlready()) ==> outputBuffer == old(outputBuffer)
      ensures !old(IsAlready()) ==> IsWhole() && outputBuffer == Zeros(|outputBuffer|)
    {
      hide IsAlignment, WriteAt, RoundUp, Zeros, GetDword;
      RoundUpStays(nNextFileAddr, GetDword(optionalHeader, FILE_ALIGNMENT));
      var nLastFileAddr := nNextFileAddr;
      nNextFileAddr := FileAlign(nNextFileAddr);
      nNextVirtAddr := SectionAlign(nNextVirtAddr);
      WriteNothing(f.bytes, nLastFileAddr);
      if nNextFileAddr > nLastFileAddr {
        f.SetFilePointer(nLastFileAddr);
        ZeroFileData(f, nNextFileAddr - nLastFileAddr);
      }
    }

    // Nothing is to be filled up.
    ghost predicate IsAlready()
      reads this`nNextFileAddr, this`optionalHeader
    {
      var a := GetDword(optionalHeader, FILE_ALIGNMENT);
      a > 0 && nNextFileAddr % a == 0
    }

    ghost predicate VirtFits(a: nat)
      reads this`optionalHeader
    {
      var s := GetDword(optionalHeader, SECTION_ALIGNMENT);
      IsAlignment(s) && s > 0 && RoundUp(a, s) < 0x1_0000_0000
    }

    // ---- Reading ----

    method Read(image: seq<Byte>) returns (ok: bool)
      requires IsMapped(image)
      modifies this
      ensures outputBuffer == old(outputBuffer)
      ensures ok == Parse(image).Some?
      ensures ok ==> file == image && Value() == Parse(image).value && IsRead()
    {
      hide GetDword, GetWord, Kept32, TableAt, ReadAt;
      file := image;
      fileHeaderOffset := if GetWord(file, 0) == 0x5A4D then Plus(GetDword(file, 60), 4) else 0;
      var nOptionalHeaderOffset := fileHeaderOffset + FILE_HEADER_SIZE;
      fileHeader := FileHeaderAt(file, fileHeaderOffset);
      if fileHeader.sizeOfOptionalHeader == 0 {
        return false;
      }
      var magic := GetWord(file, nOptionalHeaderOffset);
      if magic == PE32 {
        f64bit := false;
        optionalHeader := Kept32(ReadAt(file, nOptionalHeaderOffset, OptionalSize(false)));
      } else if magic == PE32PLUS {
        f64bit := true;
        optionalHeader := ReadAt(file, nOptionalHeaderOffset, OptionalSize(true));
      } else {
        return false;
      }
      var nSectionsOffset := nOptionalHeaderOffset + fileHeader.sizeOfOptionalHeader;
      if fileHeader.numberOfSections > MAX_SECTIONS {
        return false;
      }
      sectionHeaders := TableAt(file, nSectionsOffset, fileHeader.numberOfSections);
      ParseSections();
      return true;
    }

    // What Read works out from the sections.
    ghost predicate IsRead()
      reads this
    {
      && nExtraOffset == RawMax(sectionHeaders, |sectionHeaders|)
      && nSectionsEndOffset == HeadersEnd(Value(), |sectionHeaders|)
      && nSectionsMaxCount == MaxCount(Value())
    }

    method ParseSections()
      requires |sectionHeaders| == fileHeader.numberOfSections
      modifies this`nExtraOffset, this`nSectionsEndOffset, this`nSectionsMaxCount
      ensures IsRead()
    {
      var nSectionsOffset := (fileHeaderOffset + FILE_HEADER_SIZE + fileHeader.sizeOfOptionalHeader) % 0x1_0000_0000;
      nSectionsEndOffset := Plus(nSectionsOffset, SECTION_SIZE * MAX_SECTIONS);
      nExtraOffset := 0;
      var n := 0;
      while n < fileHeader.numberOfSections
        invariant n <= |sectionHeaders|
        invariant nExtraOffset == RawMax(sectionHeaders, n)
        invariant nSectionsEndOffset == HeadersEnd(Value(), n)
      {
        var s := sectionHeaders[n];
        nExtraOffset := Max(Plus(s.pointerToRawData, s.sizeOfRawData), nExtraOffset);
        if s.pointerToRawData != 0 {
          nSectionsEndOffset := Min(s.pointerToRawData, nSectionsEndOffset);
        }
        n := n + 1;
      }
      nSectionsMaxCount := Minus(nSectionsEndOffset, nSectionsOffset) / SECTION_SIZE;
    }

    // Whether a section of this name can be added.
    method Check(section: seq<Byte>) returns (ok: bool)
      requires IsRead() && |sectionHeaders| == fileHeader.numberOfSections
      ensures ok <==> |sectionHeaders| + 1 <= MaxCount(Value())
                      && forall i :: 0 <= i < |sectionHeaders| ==> sectionHeaders[i].name != PaddedName(section)
    {
      var name := PaddedName(section);
      if fileHeader.numberOfSections + 1 > nSectionsMaxCount {
        return false;
      }
      var n := 0;
      while n < fileHeader.numberOfSections
        invariant n <= |sectionHeaders|
        invariant forall i :: 0 <= i < n ==> sectionHeaders[i].name != name
      {
        if name == sectionHeaders[n].name {
          return false;
        }
        n := n + 1;
      }
      return true;
    }

    // ---- Writing ----

    ghost predicate IsBlank()
      reads this
    {
      IsWhole() && outputBuffer == Zeros(|outputBuffer|)
    }

    method CopyFileData(f: OutFile, nOldPos: Dword, cbData: Dword)
      requires nOldPos + cbData <= |file|
      modifies f
      ensures f.bytes == WriteAt(old(f.bytes), old(f.pos), ReadAt(file, nOldPos, cbData))
    {
      assert file[nOldPos..nOldPos + cbData] == ReadAt(file, nOldPos, cbData);
      f.WriteFile(file[nOldPos..nOldPos + cbData]);
    }

    // The headers and n sections are copied.
    ghost predicate IsCopied(f: OutFile, img: Image, n: nat)
      requires n <= |img.sections|
      reads this, f
    {
      && Value() == img && IsAligned(img) && IsBlank()
      && nNextFileAddr == NextFile(img, n) && nNextVirtAddr == NextVirt(img, n) && nExtraOffset == Extra(img, n)
      && f.bytes == Copied(file, img, n)
    }

    method CopyHeaders(f: OutFile, ghost img: Image, ghost ins: Insert)
      requires Fits(file, img, ins) && IsReadable(file, img, ins)
      requires Value() == img && IsBlank() && f.bytes == [] && nExtraOffset == Extra(img, 0)
      modifies this`nNextFileAddr, this`nNextVirtAddr, this`outputBuffer, f
      ensures IsCopied(f, img, 0)
    {
      hide IsAlignment, HasDebug, DebugIsLost, GetDword, RoundUp, WriteAt, Filled, Max;
      NextFits(file, img, ins, 0);
      f.SetFilePointer(0);
      CopyFileData(f, 0, GetDword(optionalHeader, SIZE_OF_HEADERS));
      nNextFileAddr, nNextVirtAddr := GetDword(optionalHeader, SIZE_OF_HEADERS), 0;
      AlignFileData(f);
    }

    method CopySection(f: OutFile, n: nat, ghost img: Image, ghost ins: Insert)
      requires Fits(file, img, ins) && IsReadable(file, img, ins)
      requires n < |img.sections| && IsCopied(f, img, n)
      modifies this`nNextFileAddr, this`nNextVirtAddr, this`nExtraOffset, this`outputBuffer, f
      ensures IsCopied(f, img, n + 1)
    {
      hide IsAlignment, HasDebug, DebugIsLost, GetDword, RoundUp, WriteAt, Filled, Copied, NextFile, NextVirt, Extra;
      hide Fits, DebugOffset, Zeros, ReadAt, IsWhole, Plus;
      NextFits(file, img, ins, n + 1);
      CopiedStep(file, img, n);
      var s := sectionHeaders[n];
      WriteNothing(f.bytes, s.pointerToRawData);
      if s.sizeOfRawData != 0 {
        f.SetFilePointer(s.pointerToRawData);
        CopyFileData(f, s.pointerToRawData, s.sizeOfRawData);
      }
      nNextFileAddr := Max(Plus(s.pointerToRawData, s.sizeOfRawData), nNextFileAddr);
      nNextVirtAddr := Max(Plus(s.virtualAddress, s.virtualSize), nNextVirtAddr);
      nExtraOffset := Max(nNextFileAddr, nExtraOffset);
      AlignFileData(f);
    }

    method CopySections(f: OutFile, ghost img: Image, ghost ins: Insert)
      requires Fits(file, img, ins) && IsReadable(file, img, ins) && IsCopied(f, img, 0)
      requires |sectionHeaders| == fileHeader.numberOfSections
      modifies this`nNextFileAddr, this`nNextVirtAddr, this`nExtraOffset, this`outputBuffer, f
      ensures IsCopied(f, img, |img.sections|)
    {
      hide Fits, IsReadable, Copied, NextFile, NextVirt, Extra;
      var n := 0;
      while n < fileHeader.numberOfSections
        invariant n <= |img.sections| && IsCopied(f, img, n)
      {
        CopySection(f, n, img, ins);
        n := n + 1;
      }
    }

    // The data of the new section, in the output buffer.
    method FillBuffer(data: seq<Byte>) returns (pbData: Option<nat>)
      requires IsBlank() && nOutputVirtSize == 0 && |data| < 0x1_0000_0000
      requires RoundUp(|data|, 8) < 0x1_0000_0000 && FileFits(RoundUp(|data|, 8))
      modifies this`outputBuffer, this`nOutputVirtSize
      ensures pbData == Some(0) && IsWhole()
      ensures nOutputVirtSize == RoundUp(|data|, 8) <= |outputBuffer|
      ensures outputBuffer == data + Zeros(|outputBuffer| - |data|)
    {
      hide RoundUp, IsAlignment, GetDword, Zeros;
      EightIsAlignment();
      AlignRoundsUp(|data|, 8);
      ghost var was := outputBuffer;
      SizeOutputBuffer(Align(|data|, 8));
      StillZeros(was, outputBuffer);
      ZerosAgain(outputBuffer, RoundUp(|data|, 8));
      var vaData;
      pbData, vaData := AllocateOutput(|data|);
      if pbData == None {
        return;
      }
      DataOnZeros(outputBuffer, data);
      outputBuffer := outputBuffer[..pbData.value] + data + outputBuffer[pbData.value + |data|..];
    }

    // The data goes to the next free addresses.
    method PlaceSection(f: OutFile, data: seq<Byte>) returns (pbData: nat)
      requires IsBlank() && nOutputVirtSize == 0 && |data| < 0x1_0000_0000
      requires RoundUp(|data|, 8) < 0x1_0000_0000 && FileFits(RoundUp(|data|, 8)) && IsAlready()
      requires nNextVirtAddr + RoundUp(|data|, 8) < 0x1_0000_0000 && VirtFits(nNextVirtAddr + RoundUp(|data|, 8))
      requires nNextFileAddr + RoundUp(RoundUp(|data|, 8), GetDword(optionalHeader, FILE_ALIGNMENT)) < 0x1_0000_0000
      modifies this`nNextFileAddr, this`nNextVirtAddr, this`outputBuffer, this`nOutputVirtSize, f
      ensures nOutputVirtSize == RoundUp(|data|, 8)
      ensures var size := RoundUp(nOutputVirtSize, GetDword(optionalHeader, FILE_ALIGNMENT));
              && nNextFileAddr == old(nNextFileAddr) + size
              && pbData == 0 && size <= |outputBuffer| && outputBuffer[..size] == data + Zeros(size - |data|)
      ensures nNextVirtAddr ==
              RoundUp(old(nNextVirtAddr) + nOutputVirtSize, GetDword(optionalHeader, SECTION_ALIGNMENT))
      ensures f.bytes == old(f.bytes)
    {
      hide RoundUp, IsAlignment, GetDword, WriteAt, Zeros, IsAlready;
      var pb := FillBuffer(data);
      if pb == None {
        assert false;
      }
      WholeIsEnough();
      ghost var size := RoundUp(nOutputVirtSize, GetDword(optionalHeader, FILE_ALIGNMENT));
      Advance(f);
      pbData := pb.value;
      DataPrefix(outputBuffer, data, size);
    }

    // As its size is a multiple of FileAlignment, the buffer has all of the raw data.
    lemma WholeIsEnough()
      requires IsWhole() && nOutputVirtSize <= |outputBuffer|
      ensures RoundUp(nOutputVirtSize, GetDword(optionalHeader, FILE_ALIGNMENT)) <= |outputBuffer|
    {
      hide RoundUp, GetDword;
      RoundUpIsLeast(nOutputVirtSize, GetDword(optionalHeader, FILE_ALIGNMENT), |outputBuffer|);
    }

    method Advance(f: OutFile)
      requires IsAlready() && FileFits(nOutputVirtSize) && VirtFits(nNextVirtAddr + nOutputVirtSize)
      requires nNextVirtAddr + nOutputVirtSize < 0x1_0000_0000
      requires nNextFileAddr + RoundUp(nOutputVirtSize, GetDword(optionalHeader, FILE_ALIGNMENT)) < 0x1_0000_0000
      modifies this`nNextFileAddr, this`nNextVirtAddr, this`outputBuffer, f
      ensures nNextFileAddr ==
              old(nNextFileAddr) + RoundUp(nOutputVirtSize, GetDword(optionalHeader, FILE_ALIGNMENT))
      ensures nNextVirtAddr ==
              RoundUp(old(nNextVirtAddr) + nOutputVirtSize, GetDword(optionalHeader, SECTION_ALIGNMENT))
      ensures f.bytes == old(f.bytes) && outputBuffer == old(outputBuffer)
    {
      hide RoundUp, IsAlignment, GetDword, WriteAt, Zeros, IsWhole, Plus;
      AdvanceStays(nNextFileAddr, nOutputVirtSize, GetDword(optionalHeader, FILE_ALIGNMENT));
      NoCarry(nNextVirtAddr, nOutputVirtSize);
      nNextVirtAddr := Plus(nNextVirtAddr, nOutputVirtSize);
      var size := FileAlign(nOutputVirtSize);
      NoCarry(nNextFileAddr, size);
      nNextFileAddr := Plus(nNextFileAddr, size);
      WriteNothing(f.bytes, nNextFileAddr);
      AlignFileData(f);
    }

    // The new section, if any, is in place.
    ghost predicate IsInserted(f: OutFile, img: Image, ins: Insert)
      reads this, f
    {
      && Fits(file, img, ins) && Value() == Inserted(img, ins) && f.bytes == WithData(file, img, ins)
      && nNextFileAddr == FileEnd(img, ins) && nNextVirtAddr == VirtEnd(img, ins) && nExtraOffset == ExtraAt(img)
    }

    method InsertSection(f: OutFile, ghost img: Image, ins: Insert)
      requires ins.Data? && |ins.name| <= NAME_SIZE && Fits(file, img, ins)
      requires IsCopied(f, img, |img.sections|) && |sectionHeaders| == fileHeader.numberOfSections
      modifies this`fileHeader, this`sectionHeaders, this`optionalHeader, this`nNextFileAddr, this`nNextVirtAddr
      modifies this`outputBuffer, this`nOutputVirtAddr, this`nOutputVirtSize, this`nOutputFileAddr, f
      ensures IsInserted(f, img, ins) && |sectionHeaders| == fileHeader.numberOfSections
    {
      hide Fits, RoundUp, GetDword, NextFile, NextVirt, Extra, Copied, Unbound, PaddedName, WriteAt,
           RawData, VirtEnd, FileFits;
      hide ToDword;
      InsertFits(file, img, ins);
      var nSection := fileHeader.numberOfSections;
      var pbData := PlaceNew(f, img, ins);
      WriteSection(f, nSection, pbData);
    }

    // The new header is begun, the data in the output buffer.
    method PlaceNew(f: OutFile, ghost img: Image, ins: Insert) returns (pbData: nat)
      requires ins.Data? && |ins.name| <= NAME_SIZE && Fits(file, img, ins)
      requires IsCopied(f, img, |img.sections|) && |sectionHeaders| == fileHeader.numberOfSections
      modifies this`fileHeader, this`sectionHeaders, this`nNextFileAddr, this`nNextVirtAddr
      modifies this`outputBuffer, this`nOutputVirtAddr, this`nOutputVirtSize, this`nOutputFileAddr, f
      ensures fileHeader == img.fileHeader.(numberOfSections := |img.sections| + 1)
      ensures sectionHeaders == img.sections + [Section(PaddedName(ins.name), 0, 0, 0, 0, 0, 0, 0, 0, CHARACTERISTICS)]
      ensures nOutputVirtAddr == NextVirt(img, |img.sections|) && nOutputVirtSize == ins.VirtualSize()
      ensures nOutputFileAddr == NextFile(img, |img.sections|) && FileFits(nOutputVirtSize)
      ensures nNextFileAddr == FileEnd(img, ins) && nNextVirtAddr == VirtEnd(img, ins)
      ensures f.bytes == Copied(file, img, |img.sections|)
      ensures pbData == 0 && ins.RawSize(img) <= |outputBuffer| && outputBuffer[..ins.RawSize(img)] == RawData(img, ins)
      ensures optionalHeader == img.optionalHeader && f64bit == img.f64bit && fileHeaderOffset == img.fileHeaderOffset
      ensures nExtraOffset == ExtraAt(img)
    {
      hide RoundUp, IsAlignment, GetDword, NextFile, NextVirt, Extra, Copied, PaddedName, WriteAt, ToDword, NewSection;
      InsertFits(file, img, ins);
      fileHeader := fileHeader.(numberOfSections := fileHeader.numberOfSections + 1);
      sectionHeaders := sectionHeaders + [Section(PaddedName(ins.name), 0, 0, 0, 0, 0, 0, 0, 0, CHARACTERISTICS)];
      nOutputVirtAddr, nOutputVirtSize, nOutputFileAddr := nNextVirtAddr, 0, nNextFileAddr;
      pbData := PlaceSection(f, ins.data);
    }

    // The header of the new section is completed, and its data written.
    method WriteSection(f: OutFile, nSection: nat, pbData: nat)
      requires nSection < |sectionHeaders| && FileFits(nOutputVirtSize)
      requires pbData + RoundUp(nOutputVirtSize, GetDword(optionalHeader, FILE_ALIGNMENT)) <= |outputBuffer|
      modifies this`sectionHeaders, this`optionalHeader, f
      ensures var size := RoundUp(nOutputVirtSize, GetDword(old(optionalHeader), FILE_ALIGNMENT));
              && size < 0x1_0000_0000
              && sectionHeaders == old(sectionHeaders)[nSection := old(sectionHeaders[nSection]).(
                   virtualAddress := nOutputVirtAddr,
                   virtualSize := nOutputVirtSize,
                   pointerToRawData := nOutputFileAddr,
                   sizeOfRawData := size)]
              && f.bytes == WriteAt(old(f.bytes), nOutputFileAddr, outputBuffer[pbData..pbData + size])
      ensures optionalHeader == Unbound(old(optionalHeader), f64bit)
    {
      hide RoundUp, IsAlignment, GetDword, Unbound, WriteAt;
      var size := FileAlign(nOutputVirtSize);
      sectionHeaders := sectionHeaders[nSection := sectionHeaders[nSection].(
        virtualAddress := nOutputVirtAddr,
        virtualSize := nOutputVirtSize,
        pointerToRawData := nOutputFileAddr,
        sizeOfRawData := size)];
      optionalHeader := Unbound(optionalHeader, f64bit);
      f.SetFilePointer(sectionHeaders[nSection].pointerToRawData);
      f.WriteFile(outputBuffer[pbData..pbData + sectionHeaders[nSection].sizeOfRawData]);
    }

    // ---- Pointers behind the sections ----

    method Adjust(p: Dword, nExtraAdjust: Dword) returns (r: Dword)
      requires nExtraAdjust == Minus(nNextFileAddr, nExtraOffset)
      ensures r == Shift(p, nExtraOffset, nNextFileAddr)
    {
      r := if p > nExtraOffset then Plus(p, nExtraAdjust) else p;
    }

    method AdjustPointers(nExtraAdjust: Dword)
      requires nExtraAdjust == Minus(nNextFileAddr, nExtraOffset) && |sectionHeaders| == fileHeader.numberOfSections
      modifies this`sectionHeaders, this`fileHeader, this`optionalHeader
      ensures Value() == Shifted(old(Value()), nExtraOffset, nNextFileAddr, nNextVirtAddr)
    {
      hide Shift, GetDword, WriteAt;
      ghost var ss := sectionHeaders;
      var n := 0;
      while n < fileHeader.numberOfSections
        invariant n <= |sectionHeaders| == |ss|
        invariant forall i :: 0 <= i < n ==> sectionHeaders[i] == ShiftSection(ss[i], nExtraOffset, nNextFileAddr)
        invariant forall i :: n <= i < |ss| ==> sectionHeaders[i] == ss[i]
        invariant fileHeader == old(fileHeader) && optionalHeader == old(optionalHeader)
      {
        var s := sectionHeaders[n];
        var raw := Adjust(s.pointerToRawData, nExtraAdjust);
        var relocations := Adjust(s.pointerToRelocations, nExtraAdjust);
        var linenumbers := Adjust(s.pointerToLinenumbers, nExtraAdjust);
        sectionHeaders := sectionHeaders[n := s.(
          pointerToRawData := raw,
          pointerToRelocations := relocations,
          pointerToLinenumbers := linenumbers)];
        n := n + 1;
      }
      assert sectionHeaders == ShiftAll(ss, nExtraOffset, nNextFileAddr);
      var symbols := Adjust(fileHeader.pointerToSymbolTable, nExtraAdjust);
      fileHeader := fileHeader.(pointerToSymbolTable := symbols);
      optionalHeader := WriteAt(optionalHeader, CHECK_SUM, DwordBytes(0));
      optionalHeader := WriteAt(optionalHeader, SIZE_OF_IMAGE, DwordBytes(nNextVirtAddr));
    }

    method RvaToFileOffset(nRva: Dword) returns (r: Dword)
      requires |sectionHeaders| == fileHeader.numberOfSections
      ensures r == FileOffset(sectionHeaders, nRva)
    {
      var n := 0;
      while n < fileHeader.numberOfSections
        invariant n <= |sectionHeaders|
        invariant SectionOf(sectionHeaders, nRva, 0) == SectionOf(sectionHeaders, nRva, n)
      {
        var vaStart := sectionHeaders[n].virtualAddress;
        var vaEnd := Plus(vaStart, sectionHeaders[n].sizeOfRawData);
        if nRva >= vaStart && nRva < vaEnd {
          return Minus(Plus(sectionHeaders[n].pointerToRawData, nRva), sectionHeaders[n].virtualAddress);
        }
        n := n + 1;
      }
      return 0;
    }

    // A pointer into the mapped file.
    method RvaToVa(nRva: Dword) returns (r: Option<nat>)
      requires |sectionHeaders| == fileHeader.numberOfSections
      ensures r == if nRva == 0 || SectionOf(sectionHeaders, nRva, 0) == |sectionHeaders| then None
                   else Some(RawPlace(sectionHeaders, nRva))
    {
      if nRva == 0 {
        return None;
      }
      var n := 0;
      while n < fileHeader.numberOfSections
        invariant n <= |sectionHeaders|
        invariant SectionOf(sectionHeaders, nRva, 0) == SectionOf(sectionHeaders, nRva, n)
      {
        var vaStart := sectionHeaders[n].virtualAddress;
        var vaEnd := Plus(vaStart, sectionHeaders[n].sizeOfRawData);
        if nRva >= vaStart && nRva < vaEnd {
          return Some(sectionHeaders[n].pointerToRawData + nRva - sectionHeaders[n].virtualAddress);
        }
        n := n + 1;
      }
      return None;
    }

    // The headers are adjusted.
    ghost predicate IsShifted(img: Image, ins: Insert)
      reads this
    {
      && Fits(file, img, ins) && Value() == NewImage(img, ins)
      && |sectionHeaders| == fileHeader.numberOfSections
      && nNextFileAddr == FileEnd(img, ins) && nExtraOffset == ExtraAt(img)
    }

    method AdjustDebug(f: OutFile, nExtraAdjust: Dword, ghost img: Image, ghost ins: Insert) returns (ok: bool)
      requires IsShifted(img, ins) && IsReadable(file, img, ins)
      requires f.bytes == WithData(file, img, ins) && nExtraAdjust == Minus(nNextFileAddr, nExtraOffset)
      modifies f
      ensures ok == !DebugIsLost(img, ins)
      ensures ok ==> f.bytes == WithDebug(file, img, ins)
    {
      hide NewImage, Fits, WithData, DebugBytes, GetDword, FileEnd, ExtraAt, WriteAt, SectionOf, FileOffset, RawPlace;
      SameDirectory(img, ins);
      SamePlace(sectionHeaders, img.DebugAddr());
      var debugAddr := GetDword(optionalHeader, Directory(f64bit, DEBUG));
      var debugSize := GetDword(optionalHeader, Directory(f64bit, DEBUG) + 4);
      if debugAddr != 0 && debugSize != 0 {
        var nFileOffset := RvaToFileOffset(debugAddr);
        f.SetFilePointer(nFileOffset);
        var pDir := RvaToVa(debugAddr);
        if pDir == None {
          return false;
        }
        WriteEntries(f, pDir.value, debugSize / DEBUG_ENTRY_SIZE, nExtraAdjust);
      }
      return true;
    }

    method WriteEntries(f: OutFile, pDir: nat, nEntries: nat, nExtraAdjust: Dword)
      requires pDir + DEBUG_ENTRY_SIZE * nEntries <= |file| && nExtraAdjust == Minus(nNextFileAddr, nExtraOffset)
      modifies f
      ensures f.bytes == WriteAt(old(f.bytes), old(f.pos),
                         DebugBytes(file, pDir, nEntries, nExtraOffset, nNextFileAddr))
    {
      hide WriteAt, Shift, GetDword, DebugEntry;
      ghost var start, p := f.bytes, f.pos;
      WriteNothing(start, p);
      var n := 0;
      while n < nEntries
        invariant n <= nEntries && f.pos == p + DEBUG_ENTRY_SIZE * n
        invariant f.bytes == WriteAt(start, p, DebugBytes(file, pDir, n, nExtraOffset, nNextFileAddr))
      {
        var dir := ReadEntry(pDir + DEBUG_ENTRY_SIZE * n, nExtraAdjust);
        WriteOn(start, p, DebugBytes(file, pDir, n, nExtraOffset, nNextFileAddr), dir);
        f.WriteFile(dir);
        n := n + 1;
      }
    }

    method ReadEntry(pDir: nat, nExtraAdjust: Dword) returns (dir: seq<Byte>)
      requires pDir + DEBUG_ENTRY_SIZE <= |file| && nExtraAdjust == Minus(nNextFileAddr, nExtraOffset)
      ensures dir == DebugEntry(file, pDir, nExtraOffset, nNextFileAddr)
    {
      hide Shift, GetDword;
      dir := file[pDir..pDir + DEBUG_ENTRY_SIZE];
      var pointer := Adjust(GetDword(file, pDir + DEBUG_POINTER), nExtraAdjust);
      dir := dir[..DEBUG_POINTER] + DwordBytes(pointer);
      assert dir[..DEBUG_POINTER] == ReadAt(file, pDir, DEBUG_POINTER);
    }

    // ---- All of it ----

    method CopyRest(f: OutFile, ghost img: Image, ghost ins: Insert)
      requires IsShifted(img, ins) && IsReadable(file, img, ins) && f.bytes == WithDebug(file, img, ins)
      modifies f
      ensures f.bytes == WithRest(file, img, ins)
    {
      hide NewImage, Fits, WithDebug, FileEnd, ExtraAt, DebugIsLost, RawPlace;
      if |file| > nExtraOffset {
        f.SetFilePointer(nNextFileAddr);
        CopyFileData(f, nExtraOffset, |file| - nExtraOffset);
      }
    }

    method FinalizeHeaders(f: OutFile)
      modifies f
      ensures f.bytes == Finished(old(f.bytes), Value())
    {
      hide WriteAt, FileHeaderBytes, TableBytes;
      f.SetFilePointer(fileHeaderOffset);
      f.WriteFile(FileHeaderBytes(fileHeader));
      f.SetFilePointer(fileHeaderOffset + FILE_HEADER_SIZE);
      f.WriteFile(optionalHeader);
      f.SetFilePointer(fileHeaderOffset + FILE_HEADER_SIZE + fileHeader.sizeOfOptionalHeader);
      f.WriteFile(TableBytes(sectionHeaders));
    }

    method Write(f: OutFile, ins: Insert) returns (ok: bool)
      requires Fits(file, Value(), ins) && IsReadable(file, Value(), ins) && (ins.Data? ==> |ins.name| <= NAME_SIZE)
      requires IsRead() && outputBuffer == [] && |sectionHeaders| == fileHeader.numberOfSections && f.bytes == []
      modifies this, f
      ensures ok == !DebugIsLost(old(Value()), ins)
      ensures ok ==> f.bytes == Written(old(file), old(Value()), ins) && Value() == NewImage(old(Value()), ins)
    {
      hide Fits, IsReadable, WithData, WithDebug, WithRest, Finished, DebugIsLost, NewImage,
           Inserted, IsInserted, IsRead;
      hide VirtEnd, FileEnd, ExtraAt, Value;
      ghost var img := Value();
      CopyAndInsert(f, img, ins);
      AdjustAll(img, ins, f);
      ok := AdjustDebug(f, Minus(nNextFileAddr, nExtraOffset), img, ins);
      if !ok {
        return;
      }
      CopyRest(f, img, ins);
      FinalizeHeaders(f);
    }

    method CopyAndInsert(f: OutFile, ghost img: Image, ins: Insert)
      requires Fits(file, img, ins) && IsReadable(file, img, ins) && (ins.Data? ==> |ins.name| <= NAME_SIZE)
      requires IsRead() && outputBuffer == [] && |sectionHeaders| == fileHeader.numberOfSections && f.bytes == []
      requires Value() == img
      modifies this, f
      ensures file == old(file) && IsInserted(f, img, ins) && |sectionHeaders| == fileHeader.numberOfSections
    {
      hide IsReadable, IsAlignment, NextFile, NextVirt, RoundUp, GetDword, Copied, RawMax, WriteAt, Zeros, Extra;
      hide WithData, Inserted, FileEnd, VirtEnd, ExtraAt, HeadersEnd, MaxCount;
      NothingInserted(file, img, ins);
      CopyHeaders(f, img, ins);
      CopySections(f, img, ins);
      if ins.Data? {
        InsertSection(f, img, ins);
      }
    }

    method AdjustAll(ghost img: Image, ghost ins: Insert, ghost f: OutFile)
      requires IsInserted(f, img, ins) && |sectionHeaders| == fileHeader.numberOfSections
      modifies this`sectionHeaders, this`fileHeader, this`optionalHeader
      ensures IsShifted(img, ins) && f.bytes == WithData(file, img, ins)
    {
      hide NextFile, NextVirt, Extra, RoundUp, GetDword, WithData, Inserted, IsAlignment, Shift, ShiftAll, Sized;
      AdjustPointers(Minus(nNextFileAddr, nExtraOffset));
    }
  }

  // Writing the file again without a new section is like inserting nothing.
  lemma NothingInserted(file: seq<Byte>, img: Image, ins: Insert)
    requires Fits(file, img, ins)
    ensures ins.Nothing? ==>
              var n := |img.sections|;
              && FileEnd(img, ins) == NextFile(img, n) && VirtEnd(img, ins) == NextVirt(img, n)
              && ExtraAt(img) == Extra(img, n)
              && Inserted(img, ins) == img && WithData(file, img, ins) == Copied(file, img, n)
    ensures Extra(img, 0) == RawMax(img.sections, |img.sections|)
    ensures 0 % img.FileAlignment() == 0 && Zeros(0) == []
    ensures ToDword(VirtEnd(img, ins)) == VirtEnd(img, ins)
  {
    hide IsAlignment, NextFile, NextVirt, GetDword, RoundUp, Copied, RawMax, FileEnd, VirtEnd, ToDword;
    NoExtraYet(img);
    InRange(VirtEnd(img, ins));
    NothingMoves(img, ins);
  }

  lemma NoExtraYet(img: Image)
    ensures Extra(img, 0) == RawMax(img.sections, |img.sections|)
  {
    hide RawMax;
  }

  lemma NothingMoves(img: Image, ins: Insert)
    requires IsAligned(img)
    ensures ins.Nothing? ==>
              FileEnd(img, ins) == NextFile(img, |img.sections|) && VirtEnd(img, ins) == NextVirt(img, |img.sections|)
  {
    hide IsAlignment, NextFile, NextVirt, GetDword, RoundUp;
    ZeroIsAligned(8);
    ZeroIsAligned(img.FileAlignment());
    NextVirtGrows(img, |img.sections|, |img.sections|);
    RoundUpStays(NextVirt(img, |img.sections|), img.SectionAlignment());
  }

  lemma CopiedStep(file: seq<Byte>, img: Image, n: nat)
    requires img.FileAlignment() > 0 && img.SectionAlignment() > 0 && n < |img.sections|
    ensures var s, next := img.sections[n], NextFile(img, n);
            && NextFile(img, n + 1) == RoundUp(Max(s.RawEnd(), next), img.FileAlignment())
            && NextVirt(img, n + 1) == RoundUp(Max(s.VirtualEnd(), NextVirt(img, n)), img.SectionAlignment())
            && Extra(img, n + 1) == Max(Max(s.RawEnd(), next), Extra(img, n))
            && Copied(file, img, n + 1) ==
               Filled(WriteAt(Copied(file, img, n), s.pointerToRawData,
                              ReadAt(file, s.pointerToRawData, s.sizeOfRawData)),
                      Max(s.RawEnd(), next), NextFile(img, n + 1))
  {
    hide GetDword, WriteAt;
  }

  // The addresses stay in range all along.
  lemma NextFits(file: seq<Byte>, img: Image, ins: Insert, n: nat)
    requires Fits(file, img, ins) && n <= |img.sections|
    ensures NextFile(img, n) < 0x1_0000_0000 && NextVirt(img, n) < 0x1_0000_0000
    ensures n > 0 ==>
              var s := img.sections[n - 1];
              && Plus(s.pointerToRawData, s.sizeOfRawData) == s.RawEnd()
              && Plus(s.virtualAddress, s.virtualSize) == s.VirtualEnd()
    ensures RoundUp(0, img.SectionAlignment()) == 0
  {
    hide GetDword, IsAlignment, RawMax, NextFile, NextVirt, Extra, RoundUp;
    ZeroIsAligned(img.SectionAlignment());
    NextFileGrows(img, n, |img.sections|);
    NextVirtGrows(img, n, |img.sections|);
    if n > 0 {
      NextFileGrows(img, n - 1, |img.sections|);
      NextVirtGrows(img, n - 1, |img.sections|);
    }
  }

  lemma ZeroIsAligned(s: int)
    requires s > 0
    ensures RoundUp(0, s) == 0
  {
  }

  lemma InsertFits(file: seq<Byte>, img: Image, ins: Insert)
    requires Fits(file, img, ins) && ins.Data?
    ensures var virt, size := ins.VirtualSize(), ins.RawSize(img);
            && |ins.data| <= virt <= size
            && virt < 0x1_0000_0000 && RoundUp(virt, img.FileAlignment()) == size < 0x1_0000_0000
            && NewSection(img, ins) ==
               Section(PaddedName(ins.name), virt, NextVirt(img, |img.sections|), size, NextFile(img, |img.sections|),
                       0, 0, 0, 0, CHARACTERISTICS)
            && NextFile(img, |img.sections|) + size < 0x1_0000_0000
            && NextVirt(img, |img.sections|) + virt < 0x1_0000_0000
    ensures NextFile(img, |img.sections|) % img.FileAlignment() == 0
  {
    hide GetDword, IsAlignment, NextFile, NextVirt, Extra, RoundUp, ToDword, PaddedName;
    PeImageLaws.NewSectionIs(file, img, ins);
    NextFileGrows(img, |img.sections|, |img.sections|);
  }

  // The debug directory is where it was.
  lemma SameDirectory(img: Image, ins: Insert)
    ensures var next := NewImage(img, ins);
            next.f64bit == img.f64bit && next.DebugAddr() == img.DebugAddr() && next.DebugSize() == img.DebugSize()
  {
    hide ShiftAll, GetDword, WriteAt, DwordBytes, VirtEnd, FileEnd, ExtraAt, NewSection, Shift, ToDword;
    var p, q := Directory(img.f64bit, DEBUG), Directory(img.f64bit, BOUND_IMPORT);
    var oh := Inserted(img, ins).optionalHeader;
    ghost var size := DwordBytes(ToDword(VirtEnd(img, ins)));
    forall d | d == p || d == p + 4
      ensures GetDword(NewImage(img, ins).optionalHeader, d) == GetDword(img.optionalHeader, d)
    {
      GetElsewhere(img.optionalHeader, q, DwordBytes(0), d);
      GetElsewhere(WriteAt(img.optionalHeader, q, DwordBytes(0)), q + 4, DwordBytes(0), d);
      GetElsewhere(oh, CHECK_SUM, DwordBytes(0), d);
      GetElsewhere(WriteAt(oh, CHECK_SUM, DwordBytes(0)), SIZE_OF_IMAGE, size, d);
    }
  }

  lemma NoCarry(a: Dword, b: Dword)
    ensures a + b < 0x1_0000_0000 ==> Plus(a, b) == a + b
  {
  }

  lemma AdvanceStays(a: nat, b: nat, s: nat)
    requires s > 0 && a % s == 0
    ensures (a + RoundUp(b, s)) % s == 0 && RoundUp(a + RoundUp(b, s), s) == a + RoundUp(b, s)
  {
    RoundUpIsMultiple(b, s);
    MultiplesAdd(a, RoundUp(b, s), s);
    RoundUpStays(a + RoundUp(b, s), s);
  }

  lemma ZerosOn(f: seq<Byte>, p: nat, a: nat, b: nat)
    ensures WriteAt(WriteAt(f, p, Zeros(a)), p + a, Zeros(b)) == WriteAt(f, p, Zeros(a + b))
  {
    WriteOn(f, p, Zeros(a), Zeros(b));
    assert Zeros(a) + Zeros(b) == Zeros(a + b);
  }

  lemma StillZeros(a: seq<Byte>, b: seq<Byte>)
    requires a == Zeros(|a|) && a <= b && b[|a|..] == Zeros(|b| - |a|)
    ensures b == Zeros(|b|)
  {
    assert b == a + b[|a|..];
  }

  lemma ZerosAgain(b: seq<Byte>, n: nat)
    requires b == Zeros(|b|) && n <= |b|
    ensures b[..0] + Zeros(n) + b[n..] == b
  {
  }

  lemma DataOnZeros(b: seq<Byte>, data: seq<Byte>)
    requires b == Zeros(|b|) && |data| <= |b|
    ensures b[..0] + data + b[|data|..] == data + Zeros(|b| - |data|)
  {
  }

  lemma DataPrefix(buffer: seq<Byte>, data: seq<Byte>, size: nat)
    requires |data| <= size <= |buffer| && buffer == data + Zeros(|buffer| - |data|)
    ensures buffer[..size] == data + Zeros(size - |data|)
  {
  }

  lemma ZerosPrefix(n: nat, k: nat)
    requires k <= n
    ensures Zeros(n)[..k] == Zeros(k)
  {
  }

  lemma WriteNothing(f: seq<Byte>, p: nat)
    ensures WriteAt(f, p, Zeros(0)) == f
    ensures forall b: seq<Byte> :: b == [] ==> WriteAt(f, p, b) == f
  {
  }

  lemma SmallFits(a: nat, s: int)
    requires a <= 0x8000_0000 && IsAlignment(s) && s > 0
    ensures RoundUp(a, s) < 0x1_0000_0000
  {
    var k: nat :| k < 32 && s == Pow2(k);
    DwordRange();
    Pow2Divides(k, 31);
    RoundUpIsLeast(a, s, Pow2(31));
  }

  lemma EightIsAlignment()
    ensures IsAlignment(8)
  {
    assert Pow2(3) == 8;
  }
}

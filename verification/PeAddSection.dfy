// addsect/addsect.cpp: addsect_files, which reads an image, checks it, and writes it
// again with the section added.

module PeAddSection {
  import opened Alignment
  import opened Bytes
  import opened PeFormat
  import opened PeLayout
  import opened PeImage
  import opened PeImageLaws
  import opened PeReadBack
  import opened Wrappers

  // The name is new, and the section table seems to have room.
  ghost predicate Passes(img: Image, section: seq<Byte>) {
    && |img.sections| + 1 <= MaxCount(img)
    && forall i :: 0 <= i < |img.sections| ==> img.sections[i].name != PaddedName(section)
  }

  // The output file, unless the image is refused.
  method AddSection(image: seq<Byte>, section: seq<Byte>, data: seq<Byte>) returns (out: Option<seq<Byte>>)
    requires IsMapped(image) && |section| <= NAME_SIZE
    requires Parse(image).Some? && Passes(Parse(image).value, section) ==>
               Fits(image, Parse(image).value, Data(section, data))
               && IsReadable(image, Parse(image).value, Data(section, data))
    ensures out.Some? <==>
            && Parse(image).Some? && Passes(Parse(image).value, section)
            && !DebugIsLost(Parse(image).value, Data(section, data))
    ensures out.Some? ==> out.value == Written(image, Parse(image).value, Data(section, data))
  {
    hide Parse, Fits, IsReadable, Written, IsMapped, DebugIsLost;
    var cimage := new CImage();
    var ok := cimage.Read(image);
    if !ok {
      return None;
    }
    CountOf(image);
    ok := cimage.Check(section);
    if !ok {
      return None;
    }
    var f := new OutFile();
    ok := cimage.Write(f, Data(section, data));
    return if ok then Some(f.bytes) else None;
  }

  lemma CountOf(image: seq<Byte>)
    requires Parse(image).Some?
    ensures |Parse(image).value.sections| == Parse(image).value.fileHeader.numberOfSections
  {
    hide TableAt, Kept32, ReadAt, GetDword, GetWord;
  }

  // The main result: an ordinary image that is not refused comes out with the section added. Reading the output
  // gives the old headers and the new one; old addresses keep their bytes, new ones have the data.
  lemma AddedSectionIsThere(image: seq<Byte>, img: Image, ins: Insert)
    requires Parse(image) == Some(img) && Fits(image, img, ins) && ins.Data?
    requires IsOrdinary(img, ins) && DosIsApart(image, img) && IsRegular(img) && Passes(img, ins.name)
    ensures var out := Written(image, img, ins);
            && Parse(out) == Some(NewImage(img, ins))
            && (forall rva: Dword ::
                  SectionOf(img.sections, rva, 0) < |img.sections| && !InDebug(img, RawPlace(img.sections, rva)) ==>
                    && SectionOf(NewImage(img, ins).sections, rva, 0) < |NewImage(img, ins).sections|
                    && ByteAt(out, NewImage(img, ins).sections, rva) == ByteAt(image, img.sections, rva))
            && (forall k :: 0 <= k < ins.RawSize(img) ==>
                 NewByteIs(out, NewImage(img, ins), |img.sections|, k, At(ins.data, k)))
  {
    hide Parse, Fits, IsRegular, IsSound, Written, NewImage, ByteAt, InDebug, RawPlace, SectionOf, IsAlignment;
    hide IsOrdinary, DosIsApart, MaxCount, NextVirt, NextFile, RoundUp;
    CheckedIsSound(image, img, ins);
    ReadsBack(image, img, ins);
    forall rva: Dword | SectionOf(img.sections, rva, 0) < |img.sections| && !InDebug(img, RawPlace(img.sections, rva))
      ensures SectionOf(NewImage(img, ins).sections, rva, 0) < |NewImage(img, ins).sections|
      ensures ByteAt(Written(image, img, ins), NewImage(img, ins).sections, rva) == ByteAt(image, img.sections, rva)
    {
      AddressesKeepTheirBytes(image, img, ins, rva);
    }
    forall k | 0 <= k < ins.RawSize(img)
      ensures NewByteIs(Written(image, img, ins), NewImage(img, ins), |img.sections|, k, At(ins.data, k))
    {
      RegularImageGetsTheData(image, img, ins, k);
      NewHeader(image, img, ins);
    }
  }

  // The k-th byte of the n-th section, as found by its address.
  ghost predicate NewByteIs(out: seq<Byte>, img: Image, n: nat, k: nat, b: Byte)
    requires n < |img.sections|
  {
    var rva := ToDword(img.sections[n].virtualAddress + k);
    SectionOf(img.sections, rva, 0) == n && ByteAt(out, img.sections, rva) == b
  }
}

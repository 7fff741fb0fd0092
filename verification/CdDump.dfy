// cddump/read.c and cddump/wav.c: reading audio sectors in pieces the drive accepts, and
// the header of the file they are written to.

module CdDump {
  import opened Bytes

  const RAW_SECTOR_SIZE := 2352
  const SAMPLE_SIZE := 8 // sizeof(SAMPLE): the union and AsUlong32 behind it
  const SAMPLES_PER_SECTOR := RAW_SECTOR_SIZE / SAMPLE_SIZE
  const LARGEST_SECTORS_PER_READ := 27

  type Sector = s: seq<Byte> | |s| == RAW_SECTOR_SIZE witness seq(RAW_SECTOR_SIZE, _ => 0)

  datatype Reply = Complete | InvalidParameter | Failure | Partial

  // What is on the disc, how the drive replies to a read of some sectors, and whether the sectors from an
  // address on, and the header, can be written to the file.
  datatype Device = Device(
    sector: nat -> Sector,
    reply: (nat, nat) -> Reply,
    writable: nat -> bool,
    headerWritable: bool)

  // The sectors from a on up to but without b.
  function Sectors(d: Device, a: nat, b: nat): (s: seq<Byte>)
    ensures |s| == if a <= b then RAW_SECTOR_SIZE * (b - a) else 0
    decreases b
  {
    if b <= a then [] else Sectors(d, a, b - 1) + d.sector(b - 1)
  }

  lemma {:induction false} SectorsJoin(d: Device, a: nat, b: nat, c: nat)
    requires a <= b <= c
    ensures Sectors(d, a, b) + Sectors(d, b, c) == Sectors(d, a, c)
    decreases c
  {
    if b == c {
      assert Sectors(d, a, b) + [] == Sectors(d, a, b);
    } else {
      SectorsJoin(d, a, b, c - 1);
      assert Sectors(d, a, b) + (Sectors(d, b, c - 1) + d.sector(c - 1)) == Sectors(d, a, c - 1) + d.sector(c - 1);
    }
  }

  // The file, behind it the sectors from `start` on up to but without `current`, and nothing else.
  ghost predicate IsDumped(d: Device, file: seq<Byte>, start: nat, current: nat, out: seq<Byte>)
    requires start <= current
  {
    && |out| == |file| + 2352 * (current - start)
    && file <= out
    && forall lba :: start <= lba < current ==> IsThere(d, |file|, start, lba, out)
  }

  // All bytes of a sector at its place.
  ghost predicate IsThere(d: Device, before: nat, start: nat, lba: nat, out: seq<Byte>)
    requires start <= lba
  {
    var p := before + 2352 * (lba - start);
    p + 2352 <= |out| && out[p..p + 2352] == d.sector(lba)
  }

  lemma {:induction false} SectorsAre(d: Device, file: seq<Byte>, start: nat, current: nat)
    requires start <= current
    ensures IsDumped(d, file, start, current, file + Sectors(d, start, current))
    decreases current
  {
    hide Sectors;
    if start == current {
      NoSectors(d, start);
      assert file + [] == file;
    } else {
      SectorsAre(d, file, start, current - 1);
      SectorsJoin(d, start, current - 1, current);
      OneSector(d, current - 1);
      var less, more := file + Sectors(d, start, current - 1), file + Sectors(d, start, current);
      assert more == less + d.sector(current - 1);
      forall lba | start <= lba < current
        ensures IsThere(d, |file|, start, lba, more)
      {
        var p := |file| + 2352 * (lba - start);
        if lba < current - 1 {
          assert IsThere(d, |file|, start, lba, less);
          assert more[p..p + 2352] == less[p..p + 2352];
        } else {
          assert more[p..p + 2352] == d.sector(lba);
        }
      }
    }
  }

  lemma OneSector(d: Device, lba: nat)
    ensures Sectors(d, lba, lba + 1) == d.sector(lba)
  {
    assert Sectors(d, lba, lba) == [];
  }

  // Every size that is tried.
  predicate IsSize(n: nat) {
    n == 27 || n == 13 || n == 6 || n == 3 || n == 1
  }

  // A read that cannot be made up for by smaller ones.
  predicate IsFatal(d: Device, lba: nat, n: nat) {
    || d.reply(lba, n) == Failure || d.reply(lba, n) == Partial
    || (d.reply(lba, n) == Complete && !d.writable(lba))
    || (n == 1 && d.reply(lba, n) == InvalidParameter)
  }

  // One size after the other; with a size that the drive rejects nothing more is tried.
  method CddumpDumpLba(d: Device, start: Dword, end: Dword, file: seq<Byte>) returns (out: seq<Byte>, current: nat)
    requires end + LARGEST_SECTORS_PER_READ < 0x1_0000_0000
    ensures start <= current && (start <= end ==> current <= end) && (start > end ==> current == start)
    ensures out == file + Sectors(d, start, current) && IsDumped(d, file, start, current, out)
    ensures current < end ==> exists n :: IsSize(n) && current + n <= end && IsFatal(d, current, n)
  {
    out := file;
    current := start;
    NoSectors(d, start);
    var currentLba: Dword := start;
    var sectorsPerRead: nat := LARGEST_SECTORS_PER_READ;
    var left := false;
    while sectorsPerRead != 0
      invariant sectorsPerRead == 0 || IsSize(sectorsPerRead)
      invariant currentLba == current && start <= current && (start <= end ==> current <= end)
      invariant start > end ==> current == start
      invariant out == file + Sectors(d, start, current)
      invariant sectorsPerRead == 0 && current < end ==> IsFatal(d, current, 1)
      decreases sectorsPerRead
    {
      out, currentLba, left := DumpAtSize(d, currentLba, end, sectorsPerRead, out);
      SectorsJoin(d, start, current, currentLba);
      current := currentLba;
      if left {
        SectorsAre(d, file, start, current);
        return;
      }
      sectorsPerRead := sectorsPerRead / 2;
    }
    assert IsSize(1);
    SectorsAre(d, file, start, current);
  }

  lemma NoSectors(d: Device, a: nat)
    ensures Sectors(d, a, a) == []
  {
  }

  // The inner loop: reads of one size as long as they fit and are accepted.
  method DumpAtSize(d: Device, lba: Dword, end: Dword, sectorsPerRead: nat, file: seq<Byte>)
    returns (out: seq<Byte>, currentLba: Dword, left: bool)
    requires IsSize(sectorsPerRead) && end + LARGEST_SECTORS_PER_READ < 0x1_0000_0000
    ensures lba <= currentLba && (lba <= end ==> currentLba <= end) && (lba > end ==> currentLba == lba && !left)
    ensures out == file + Sectors(d, lba, currentLba)
    ensures left ==> currentLba + sectorsPerRead <= end && IsFatal(d, currentLba, sectorsPerRead)
    ensures !left && currentLba + sectorsPerRead <= end ==> d.reply(currentLba, sectorsPerRead) == InvalidParameter
  {
    out, currentLba, left := file, lba, false;
    assert out == file + Sectors(d, lba, lba);
    while currentLba + sectorsPerRead <= end
      invariant lba <= currentLba && (lba <= end ==> currentLba <= end) && (lba > end ==> currentLba == lba)
      invariant out == file + Sectors(d, lba, currentLba)
      decreases end - currentLba
    {
      var reply := d.reply(currentLba, sectorsPerRead);
      if reply == InvalidParameter {
        break;
      } else if reply == Failure || reply == Partial {
        return out, currentLba, true;
      }
      var sample := Sectors(d, currentLba, currentLba + sectorsPerRead);
      if !d.writable(currentLba) {
        return out, currentLba, true;
      }
      SectorsJoin(d, lba, currentLba, currentLba + sectorsPerRead);
      assert out + sample == file + (Sectors(d, lba, currentLba) + sample);
      out := out + sample;
      currentLba := currentLba + sectorsPerRead;
    }
  }

  // ---- The header ----

  const HEADER_SIZE := 44 // sizeof(WAV_HEADER_CHUNK)
  const RIFF := 0x4646_4952
  const WAVE := 0x4556_4157
  const FMT := 0x2074_6D66
  const DATA := 0x6174_6164

  datatype Format = Format(channels: Word, samplesPerSecond: Dword, bitsPerSample: Word)

  // Bytes for one sample of all channels.
  function BlockAlign(f: Format): nat {
    (f.bitsPerSample + 7) / 8 * f.channels
  }

  function HeaderBytes(f: Format, dataSize: Dword): (b: seq<Byte>)
    requires BlockAlign(f) < 0x1_0000
    ensures |b| == HEADER_SIZE
  {
    DwordBytes(RIFF) + DwordBytes(ToDword(dataSize + HEADER_SIZE)) + DwordBytes(WAVE)
    + DwordBytes(FMT) + DwordBytes(16) + WordBytes(1) + WordBytes(f.channels) + DwordBytes(f.samplesPerSecond)
    + DwordBytes(ToDword(BlockAlign(f) * f.samplesPerSecond)) + WordBytes(BlockAlign(f)) + WordBytes(f.bitsPerSample)
    + DwordBytes(DATA) + DwordBytes(dataSize)
  }

  // The fields of the header: a whole of RIFF type WAVE with a format chunk of 16 bytes, for uncompressed samples, and
  // the data chunk. The numbers of bytes per second and of the data are cut off at 32 bits.
  ghost predicate IsHeader(out: seq<Byte>, f: Format, dataSize: int) {
    var align := (f.bitsPerSample + 7) / 8 * f.channels;
    && ReadAt(out, 0, 4) == [0x52, 0x49, 0x46, 0x46] // RIFF
    && GetDword(out, 4) == (dataSize + 44) % 0x1_0000_0000
    && ReadAt(out, 8, 8) == [0x57, 0x41, 0x56, 0x45, 0x66, 0x6D, 0x74, 0x20] // WAVEfmt
    && GetDword(out, 16) == 16 && GetWord(out, 20) == 1 && GetWord(out, 22) == f.channels
    && GetDword(out, 24) == f.samplesPerSecond && GetDword(out, 28) == align * f.samplesPerSecond % 0x1_0000_0000
    && GetWord(out, 32) == align && GetWord(out, 34) == f.bitsPerSample
    && ReadAt(out, 36, 4) == [0x64, 0x61, 0x74, 0x61] // data
    && GetDword(out, 40) == dataSize % 0x1_0000_0000
  }

  lemma HeaderIs(f: Format, size: Dword, dataSize: int, out: seq<Byte>)
    requires BlockAlign(f) < 0x1_0000 && HeaderBytes(f, size) <= out && size == dataSize % 0x1_0000_0000
    ensures IsHeader(out, f, dataSize)
  {
    hide DwordBytes, WordBytes, GetDword, GetWord, ReadAt;
    var b := HeaderBytes(f, size);
    HeaderParts(f, size);
    StartOf(out, b);
    Wraps(dataSize);
    DwordIn(out, 0, b, 4, ToDword(size + HEADER_SIZE));
    DwordIn(out, 0, b, 16, 16);
    WordIn(out, 0, b, 20, 1);
    WordIn(out, 0, b, 22, f.channels);
    DwordIn(out, 0, b, 24, f.samplesPerSecond);
    DwordIn(out, 0, b, 28, ToDword(BlockAlign(f) * f.samplesPerSecond));
    WordIn(out, 0, b, 32, BlockAlign(f));
    WordIn(out, 0, b, 34, f.bitsPerSample);
    DwordIn(out, 0, b, 40, size);
    Tags();
    ReadWithin(out, 0, b, 0, 4);
    ReadWithin(out, 0, b, 8, 8);
    ReadWithin(out, 0, b, 36, 4);
    assert b[8..16] == b[8..12] + b[12..16];
  }

  lemma HeaderParts(f: Format, size: Dword)
    requires BlockAlign(f) < 0x1_0000
    ensures var b := HeaderBytes(f, size);
            && b[0..4] == DwordBytes(RIFF) && b[4..8] == DwordBytes(ToDword(size + HEADER_SIZE))
            && b[8..12] == DwordBytes(WAVE) && b[12..16] == DwordBytes(FMT) && b[16..20] == DwordBytes(16)
            && b[20..22] == WordBytes(1) && b[22..24] == WordBytes(f.channels)
            && b[24..28] == DwordBytes(f.samplesPerSecond)
            && b[28..32] == DwordBytes(ToDword(BlockAlign(f) * f.samplesPerSecond))
            && b[32..34] == WordBytes(BlockAlign(f)) && b[34..36] == WordBytes(f.bitsPerSample)
            && b[36..40] == DwordBytes(DATA) && b[40..44] == DwordBytes(size)
  {
    hide DwordBytes, WordBytes, ToDword, BlockAlign;
  }

  lemma StartOf(out: seq<Byte>, b: seq<Byte>)
    requires b <= out
    ensures ReadAt(out, 0, |b|) == b
  {
    forall i | 0 <= i < |b|
      ensures At(out, 0 + i) == b[i]
    {}
  }

  lemma Wraps(n: int)
    ensures ToDword(n % 0x1_0000_0000 + HEADER_SIZE) == (n + 44) % 0x1_0000_0000
  {
  }

  lemma Tags()
    ensures DwordBytes(RIFF) == [0x52, 0x49, 0x46, 0x46]
    ensures DwordBytes(WAVE) + DwordBytes(FMT) == [0x57, 0x41, 0x56, 0x45, 0x66, 0x6D, 0x74, 0x20]
    ensures DwordBytes(DATA) == [0x64, 0x61, 0x74, 0x61]
  {
  }

  // -1 if the channels take more bytes than a word can count, or the header cannot be written.
  method DumpWavHeader(d: Device, samples: Dword, f: Format) returns (ok: bool, out: seq<Byte>)
    ensures ok == ((f.bitsPerSample + 7) / 8 * f.channels < 0x1_0000 && d.headerWritable)
    ensures out == if ok then HeaderBytes(f, ToDword(2 * (BlockAlign(f) * samples))) else []
    ensures ok ==> |out| == 44 && IsHeader(out, f, 2 * ((f.bitsPerSample + 7) / 8 * f.channels * samples))
  {
    hide DwordBytes, WordBytes;
    var temp: nat := (f.bitsPerSample + 7) / 8;
    temp := temp * f.channels;
    if temp > 0xFFFF {
      return false, [];
    }
    var blockAlign: int := temp;
    var average := ToDword(temp * f.samplesPerSecond);
    temp := ToDword(temp * samples);
    temp := ToDword(temp * 2);
    WrapTwice(BlockAlign(f) * samples);
    var size: Dword := temp;
    if !d.headerWritable {
      return false, [];
    }
    out := DwordBytes(RIFF) + DwordBytes(ToDword(size + HEADER_SIZE)) + DwordBytes(WAVE)
           + DwordBytes(FMT) + DwordBytes(16) + WordBytes(1) + WordBytes(f.channels) + DwordBytes(f.samplesPerSecond)
           + DwordBytes(average) + WordBytes(blockAlign) + WordBytes(f.bitsPerSample)
           + DwordBytes(DATA) + DwordBytes(size);
    assert out == HeaderBytes(f, size);
    HeaderIs(f, size, 2 * (BlockAlign(f) * samples), out);
    return true, out;
  }

  lemma WrapTwice(n: nat)
    ensures ToDword(ToDword(n) * 2) == ToDword(2 * n)
  {
  }

  const CD_AUDIO := Format(2, 44100, 16)

  lemma AudioSize(n: nat)
    requires n < 0x1_0000_0000 / RAW_SECTOR_SIZE
    ensures BlockAlign(CD_AUDIO) == 4 && ToDword(2 * (4 * (n * SAMPLES_PER_SECTOR))) == RAW_SECTOR_SIZE * n
  {
    hide ToDword, BlockAlign;
    AudioAlign();
    Times(n);
    InRange(2352 * n);
  }

  lemma Times(n: nat)
    ensures 2 * (4 * (n * 294)) == 2352 * n
  {
  }

  lemma AudioAlign()
    ensures BlockAlign(CD_AUDIO) == 4
  {
  }

  // The part of DumpTrack that writes the file. Where the header is in it, its two sizes are right exactly if all
  // sectors were read: that of the data, and that of the whole, which has 8 bytes more than the RIFF format asks for.
  method DumpFile(d: Device, start: Dword, end: Dword) returns (out: seq<Byte>, current: nat)
    requires start <= end && end + LARGEST_SECTORS_PER_READ < 0x1_0000_0000
    requires end - start < 0x1_0000_0000 / RAW_SECTOR_SIZE
    ensures start <= current <= end
    ensures if d.headerWritable then |out| >= 44 && IsDumped(d, out[..44], start, current, out)
            else IsDumped(d, [], start, current, out)
    ensures d.headerWritable ==>
              && IsHeader(out, CD_AUDIO, 2352 * (end - start))
              && (GetDword(out, 40) == |out| - 44 <==> current == end)
              && (GetDword(out, 4) == |out| <==> current == end)
    ensures (forall lba: nat, n: nat :: start <= lba && lba + n <= end && IsSize(n) ==> !IsFatal(d, lba, n))
            ==> current == end
  {
    hide DwordBytes, WordBytes, GetDword, HeaderBytes, Sectors, IsFatal, IsSize, ToDword, IsHeader;
    AudioSize(end - start);
    var ok, header := DumpWavHeader(d, (end - start) * SAMPLES_PER_SECTOR, CD_AUDIO);
    out, current := CddumpDumpLba(d, start, end, header);
    if d.headerWritable {
      SizesAre(header, out, end - start, current - start);
      assert out[..44] == header;
    }
  }

  lemma SizesAre(header: seq<Byte>, out: seq<Byte>, wanted: nat, read: nat)
    requires read <= wanted && 2352 * wanted < 0x1_0000_0000 - 44 && BlockAlign(CD_AUDIO) == 4
    requires header == HeaderBytes(CD_AUDIO, 2352 * wanted) && header <= out && |out| == 44 + 2352 * read
    ensures IsHeader(out, CD_AUDIO, 2352 * wanted)
    ensures (GetDword(out, 40) == |out| - 44 <==> read == wanted) && (GetDword(out, 4) == |out| <==> read == wanted)
  {
    hide HeaderBytes, GetDword, GetWord, BlockAlign, ReadAt;
    HeaderIs(CD_AUDIO, 2352 * wanted, 2352 * wanted, out);
  }
}

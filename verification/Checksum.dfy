// checkrel/newcheck.c: the Internet checksum of a file (sections 1 and 2 of
// RFC 1071), computed over the blocks the file is read in.

module Checksum {
  import opened Bytes

  const READ_BUFFER_SIZE := 32768

  // ((PBYTE)ReadBuffer)[cbread] = 0 and the cast to LPWORD: little-endian words, zero padded.
  function Words(data: seq<Byte>): (w: seq<Word>)
    ensures |w| == (|data| + 1) / 2
  {
    if data == [] then []
    else if |data| == 1 then [data[0]]
    else [Pair(data[0], data[1])] + Words(data[2..])
  }

  function Pair(low: int, high: int): Word
    requires 0 <= low < 0x100 && 0 <= high < 0x100
  {
    low + 0x100 * high
  }

  // The first byte of each pair is the low one; an odd byte at the end makes a word of its own.
  lemma {:induction false} WordsAre(data: seq<Byte>, k: nat)
    requires k < |Words(data)|
    ensures var low: int, high: int := data[2 * k], At(data, 2 * k + 1);
            Words(data)[k] == low + 256 * high
  {
    if k > 0 {
      WordsAre(data[2..], k - 1);
    }
  }

  // The sum over unbounded integers.
  function Sum(w: seq<Word>): nat {
    if w == [] then 0 else Sum(w[..|w| - 1]) + w[|w| - 1]
  }

  // One's complement addition in 16 bits: the representative of n modulo 65535 that is zero for zero only.
  function Folded(n: nat): (w: Word)
    ensures w % 65535 == n % 65535
    ensures w == 0 <==> n == 0
  {
    if n == 0 then 0 else 1 + (n - 1) % 65535
  }

  // The properties in its contract determine it.
  lemma FoldedIsUnique(n: nat, w: Word)
    requires w % 65535 == n % 65535 && (w == 0 <==> n == 0)
    ensures w == Folded(n)
  {
  }

  lemma FoldedAdds(m: nat, n: nat)
    ensures Folded(Folded(m) + n) == Folded(m + n)
  {
    FoldedIsUnique(m + n, Folded(Folded(m) + n));
  }

  // The same with a 32-bit accumulator, as long as what is added comes from a block.
  lemma FoldedAddsBlock(m: nat, n: nat)
    requires n <= (READ_BUFFER_SIZE / 2) * 0xFFFF
    ensures Folded((Folded(m) + n) % 0x1_0000_0000) == Folded(m + n)
  {
    FoldedAdds(m, n);
  }

  // CheckSum: the accumulator is a 32-bit unsigned long, the result is truncated to a WORD.
  method CheckSum(partialSum: Dword, source: seq<Word>) returns (r: Word)
    ensures r == Folded((partialSum + Sum(source)) % 0x1_0000_0000)
  {
    var t := Accumulate(partialSum, source);
    ghost var total := t;
    while t >= 0x1_0000
      invariant Folded(t) == Folded(total)
      decreases t
    {
      CarryComesRound(t);
      var high := t / 0x1_0000;
      t := t % 0x1_0000 + high;
    }
    FoldedIsUnique(t, t);
    return t;
  }

  // The summing loop.
  method Accumulate(partialSum: Dword, source: seq<Word>) returns (t: Dword)
    ensures t == (partialSum + Sum(source)) % 0x1_0000_0000
  {
    t := partialSum;
    var i := 0;
    while i < |source|
      invariant i <= |source|
      invariant t == (partialSum + Sum(source[..i])) % 0x1_0000_0000
    {
      assert source[..i + 1][..i] == source[..i];
      AddWraps(partialSum + Sum(source[..i]), source[i]);
      t := (t + source[i]) % 0x1_0000_0000;
      i := i + 1;
    }
    assert source[..i] == source;
  }

  lemma AddWraps(m: nat, n: nat)
    ensures (m % 0x1_0000_0000 + n) % 0x1_0000_0000 == (m + n) % 0x1_0000_0000
  {
  }

  // One round of the folding loop.
  lemma CarryComesRound(t: Dword)
    requires t >= 0x1_0000
    ensures var u := t % 0x1_0000 + t / 0x1_0000; u < t && Folded(u) == Folded(t)
  {
    var low, high := t % 0x1_0000, t / 0x1_0000;
    assert t == 65535 * high + (low + high);
    ModMultiple(high, low + high);
    FoldedIsUnique(t, Folded(low + high));
  }

  lemma SumIsBounded(w: seq<Word>)
    ensures Sum(w) <= |w| * 0xFFFF
  {
    if w != [] {
      SumIsBounded(w[..|w| - 1]);
    }
  }

  lemma ModMultiple(k: int, r: int)
    ensures (65535 * k + r) % 65535 == r % 65535
  {
  }

  lemma ModSum(q: nat, m: nat)
    ensures (q + m) % 65535 == m % 65535 <==> q % 65535 == 0
  {
  }

  lemma {:induction false} WordsOfPrefix(a: seq<Byte>, b: seq<Byte>)
    requires |a| % 2 == 0
    ensures Words(a + b) == Words(a) + Words(b)
  {
    if a == [] {
      assert a + b == b;
    } else {
      assert (a + b)[2..] == a[2..] + b;
      WordsOfPrefix(a[2..], b);
    }
  }

  lemma {:induction false} SumOfConcat(v: seq<Word>, w: seq<Word>)
    ensures Sum(v + w) == Sum(v) + Sum(w)
  {
    if w == [] {
      assert v + w == v;
    } else {
      assert (v + w)[..|v + w| - 1] == v + w[..|w| - 1];
      SumOfConcat(v, w[..|w| - 1]);
    }
  }

  // The checksum of a whole file in one pass over unbounded integers.
  function FileSum(data: seq<Byte>): Word {
    Folded(Sum(Words(data)))
  }

  // The block loop of CheckSumFile: what it gets from block after block is the checksum of the whole
  // file, with no carry lost however long the file is; the stand-in for a zero sum leaves zero to the
  // empty file alone.
  method CheckSumFile(data: seq<Byte>, fileLength: Dword) returns (r: Dword)
    requires fileLength == |data|
    ensures r == if FileSum(data) == 0 then fileLength else FileSum(data)
    ensures r == 0 <==> data == []
  {
    var sum: Dword := 0;
    var cbreadtotal := 0;
    ghost var full := 0;
    while cbreadtotal < |data|
      invariant cbreadtotal <= |data| && (cbreadtotal == |data| || cbreadtotal == 2 * full)
      invariant sum == FileSum(data[..cbreadtotal])
    {
      var cbread := if |data| - cbreadtotal < READ_BUFFER_SIZE then |data| - cbreadtotal else READ_BUFFER_SIZE;
      BlockAdds(data, full, cbread);
      sum := CheckSum(sum, Words(data[cbreadtotal..cbreadtotal + cbread]));
      cbreadtotal, full := cbreadtotal + cbread, full + READ_BUFFER_SIZE / 2;
    }
    assert data[..cbreadtotal] == data;
    return if sum == 0 then fileLength else sum;
  }

  lemma SumOfBlock(before: seq<Byte>, block: seq<Byte>)
    requires |before| % 2 == 0
    ensures Sum(Words(before + block)) == Sum(Words(before)) + Sum(Words(block))
  {
    WordsOfPrefix(before, block);
    SumOfConcat(Words(before), Words(block));
  }

  lemma SumGrows(data: seq<Byte>, half: nat, n: nat)
    requires 2 * half + n <= |data| && n <= READ_BUFFER_SIZE
    ensures var k := 2 * half;
            && Sum(Words(data[..k + n])) == Sum(Words(data[..k])) + Sum(Words(data[k..k + n]))
            && Sum(Words(data[k..k + n])) <= (READ_BUFFER_SIZE / 2) * 0xFFFF
  {
    hide Sum, Words;
    var k := 2 * half;
    SumOfBlock(data[..k], data[k..k + n]);
    SumIsBounded(Words(data[k..k + n]));
    assert data[..k + n] == data[..k] + data[k..k + n];
  }

  lemma BlockAdds(data: seq<Byte>, half: nat, n: nat)
    requires 2 * half + n <= |data| && n <= READ_BUFFER_SIZE
    ensures var k := 2 * half;
            Folded((FileSum(data[..k]) + Sum(Words(data[k..k + n]))) % 0x1_0000_0000) == FileSum(data[..k + n])
  {
    SumGrows(data, half, n);
    var k := 2 * half;
    FoldedAddsBlock(Sum(Words(data[..k])), Sum(Words(data[k..k + n])));
  }

  // A file without a set bit is the only one with a zero sum.
  lemma {:induction false} ZeroSumIsZeroData(data: seq<Byte>)
    ensures Sum(Words(data)) == 0 <==> forall i :: 0 <= i < |data| ==> data[i] == 0
  {
    if |data| == 1 {
      assert Sum([data[0]]) == Sum([]) + data[0] by { assert [data[0]][..0] == []; }
    } else if data != [] {
      SumOfBlock(data[..2], data[2..]);
      assert data[..2] + data[2..] == data;
      ZeroSumIsZeroData(data[2..]);
      var w := Pair(data[0], data[1]);
      assert Words(data[..2]) == [w] by { assert data[..2][2..] == []; }
      assert Sum([w]) == w by { assert [w][..0] == []; }
      forall i | 2 <= i < |data|
        ensures data[i] == data[2..][i - 2]
      {}
    }
  }

  // ---- One call over a mapped file ----

  // What CheckSum(0, Base, (FileLength + 1) >> 1) returns.
  function MappedSum(data: seq<Byte>): Word {
    Folded(Sum(Words(data)) % 0x1_0000_0000)
  }

  // CheckSumFile in the NT program.
  method CheckSumMapped(data: seq<Byte>, fileLength: Dword) returns (r: Dword)
    requires fileLength == |data|
    ensures r == if MappedSum(data) == 0 then fileLength else MappedSum(data)
    ensures r == 0 <==> data == []
  {
    var sum: Dword := CheckSum(0, Words(data));
    return if sum == 0 then fileLength else sum;
  }

  // When the accumulator wraps around q times, the sum of the file is wrong except when the lost carries amount to
  // nothing in one's complement arithmetic.
  lemma WrapAroundIsHarmlessIff(data: seq<Byte>)
    ensures var n := Sum(Words(data));
            var q := n / 0x1_0000_0000;
            MappedSum(data) == FileSum(data) <==> q == 0 || (q % 65535 == 0 && n % 0x1_0000_0000 != 0)
  {
    hide Words, Sum;
    LostCarries(Sum(Words(data)));
  }

  lemma LostCarries(n: nat)
    ensures var q := n / 0x1_0000_0000;
            Folded(n % 0x1_0000_0000) == Folded(n) <==>
            q == 0 || (q % 65535 == 0 && n % 0x1_0000_0000 != 0)
  {
    var q, m := n / 0x1_0000_0000, n % 0x1_0000_0000;
    assert n == q * 0x1_0000_0000 + m;
    assert 0x1_0000_0000 == 65537 * 65535 + 1;
    assert n == 65535 * (65537 * q) + (q + m);
    ModMultiple(65537 * q, q + m);
    assert n % 65535 == (q + m) % 65535;
    ModSum(q, m);
  }

  const EXACT_LENGTH := 131074 // bytes, that is 65537 words

  // Up to 65537 words no carry is lost, whatever they are.
  lemma ShortFilesAreExact(data: seq<Byte>)
    requires |data| <= EXACT_LENGTH
    ensures Sum(Words(data)) < 0x1_0000_0000 && MappedSum(data) == FileSum(data)
  {
    hide Words, Sum, Folded;
    var n := |Words(data)|;
    assert n <= 65537;
    SumIsBounded(Words(data));
    assert Sum(Words(data)) <= 65537 * 0xFFFF;
  }

  // As many bytes 0xFF as are exact, a 1, and zeros: the sum is 2 to the 32nd, and the accumulator is empty.
  function Overflowing(n: nat): (data: seq<Byte>)
    requires n > EXACT_LENGTH
    ensures |data| == n
  {
    Ones(EXACT_LENGTH / 2) + ([1] + Zeros(n - EXACT_LENGTH - 1))
  }

  // Words of 0xFFFF.
  function Ones(words: nat): (data: seq<Byte>)
    ensures |data| == 2 * words
  {
    seq<Byte>(2 * words, _ => 0xFF)
  }

  lemma {:induction false} SumOfOnes(words: nat)
    ensures Sum(Words(Ones(words))) == 0xFFFF * words
  {
    if words > 0 {
      var data := Ones(words);
      assert data[2..] == Ones(words - 1) && data[..2] == [0xFF, 0xFF];
      SumOfOnes(words - 1);
      SumOfBlock(data[..2], data[2..]);
      assert data[..2] + data[2..] == data;
      SumOfTwo(0xFF, 0xFF);
    }
  }

  lemma SumOfTwo(low: Byte, high: Byte)
    ensures Sum(Words([low, high])) == low + 0x100 * high
  {
    assert [low, high][2..] == [];
    assert [Pair(low, high)][..0] == [];
  }

  lemma SumOfOneBit(n: nat)
    ensures Sum(Words([1] + Zeros(n))) == 1
  {
    if n == 0 {
      assert [1] + Zeros(0) == [1];
      assert Sum([1]) == Sum([]) + 1 by { assert [1][..0] == []; }
    } else {
      var data := [1] + Zeros(n);
      assert data[..2] == [1, 0] && data[2..] == Zeros(n - 1) && data[..2] + data[2..] == data;
      SumOfBlock(data[..2], data[2..]);
      SumOfTwo(1, 0);
      ZeroSumIsZeroData(Zeros(n - 1));
    }
  }

  lemma OverflowingFails(n: nat)
    requires n > EXACT_LENGTH
    ensures MappedSum(Overflowing(n)) == 0 && FileSum(Overflowing(n)) != 0
  {
    hide Words, Sum;
    SumOfOnes(EXACT_LENGTH / 2);
    SumOfOneBit(n - EXACT_LENGTH - 1);
    SumOfBlock(Ones(EXACT_LENGTH / 2), [1] + Zeros(n - EXACT_LENGTH - 1));
  }

  // The one call is right for all files of a length exactly if there are at most 65537 words.
  lemma ExactIffShort(n: nat)
    ensures (forall data: seq<Byte> :: |data| == n ==> MappedSum(data) == FileSum(data)) <==> n <= EXACT_LENGTH
  {
    hide MappedSum, FileSum;
    if n <= EXACT_LENGTH {
      forall data: seq<Byte> | |data| == n
        ensures MappedSum(data) == FileSum(data)
      {
        ShortFilesAreExact(data);
      }
    } else {
      OverflowingFails(n);
    }
  }

  // For example, 65538 words of 0xFFFF.
  lemma OnesFail()
    ensures MappedSum(Ones(65538)) == 0xFFFE && FileSum(Ones(65538)) == 0xFFFF
  {
    hide Words, Sum;
    SumOfOnes(65538);
  }

  // ---- The entry a worker writes ----

  // A worker writes the sum without the stand-in for zero, which checking the file puts in: the two agree exactly
  // if the file is empty or its sum is not a multiple of 2 to the 32nd.
  lemma WorkerEntryAgreesIff(data: seq<Byte>, checked: Dword)
    requires |data| < 0x1_0000_0000 && checked == if MappedSum(data) == 0 then |data| else MappedSum(data)
    ensures MappedSum(data) == checked <==> data == [] || Sum(Words(data)) % 0x1_0000_0000 != 0
  {
    hide Words, Sum;
  }

  // Of the files short enough, these are the non-empty ones without a set bit.
  lemma ZeroFileIsReported(data: seq<Byte>)
    requires |data| <= EXACT_LENGTH
    ensures MappedSum(data) == 0 <==> forall i :: 0 <= i < |data| ==> data[i] == 0
  {
    hide Words, Sum;
    ShortFilesAreExact(data);
    ZeroSumIsZeroData(data);
  }
}

// Bytes, the little-endian numbers in them, and reading and writing at a place in a
// file: what lies beyond its end reads as zero, and writing there fills the gap with
// zeros.

module Bytes {
  type Byte = b: int | 0 <= b < 0x100
  type Word = w: int | 0 <= w < 0x1_0000
  type Dword = d: int | 0 <= d < 0x1_0000_0000

  function At(s: seq<Byte>, i: nat): Byte {
    if i < |s| then s[i] else 0
  }

  function ReadAt(s: seq<Byte>, p: nat, n: nat): (r: seq<Byte>)
    ensures |r| == n
    ensures forall i :: 0 <= i < n ==> r[i] == At(s, p + i)
  {
    seq<Byte>(n, i requires 0 <= i < n => At(s, p + i))
  }

  function WriteAt(s: seq<Byte>, p: nat, b: seq<Byte>): (r: seq<Byte>)
    ensures |r| == if b == [] then |s| else Max(|s|, p + |b|)
  {
    if b == [] then s
    else seq(Max(|s|, p + |b|), i requires 0 <= i => if p <= i < p + |b| then b[i - p] else At(s, i))
  }

  lemma WrittenAt(s: seq<Byte>, p: nat, b: seq<Byte>)
    ensures forall i {:trigger At(WriteAt(s, p, b), i)} :: 0 <= i ==>
              At(WriteAt(s, p, b), i) == if p <= i < p + |b| then b[i - p] else At(s, i)
  {
  }

  function Max(a: int, b: int): int {
    if a > b then a else b
  }

  function Min(a: int, b: int): int {
    if a < b then a else b
  }

  function Zeros(n: nat): (z: seq<Byte>)
    ensures |z| == n && forall i :: 0 <= i < n ==> z[i] == 0
  {
    seq(n, _ => 0)
  }

  // Two files with the same bytes are the same if they are of the same length.
  lemma SameFile(a: seq<Byte>, b: seq<Byte>)
    requires |a| == |b| && forall i :: 0 <= i ==> At(a, i) == At(b, i)
    ensures a == b
  {
    forall i | 0 <= i < |a|
      ensures a[i] == b[i]
    {
      assert At(a, i) == At(b, i);
    }
  }

  // Writing on where the last write ended.
  lemma WriteOn(s: seq<Byte>, p: nat, a: seq<Byte>, b: seq<Byte>)
    ensures WriteAt(WriteAt(s, p, a), p + |a|, b) == WriteAt(s, p, a + b)
  {
    WrittenAt(s, p, a);
    WrittenAt(WriteAt(s, p, a), p + |a|, b);
    WrittenAt(s, p, a + b);
    SameFile(WriteAt(WriteAt(s, p, a), p + |a|, b), WriteAt(s, p, a + b));
  }

  // ---- Numbers ----

  function GetWord(s: seq<Byte>, p: nat): Word {
    At(s, p) + 0x100 * At(s, p + 1)
  }

  function GetDword(s: seq<Byte>, p: nat): Dword {
    GetWord(s, p) + 0x1_0000 * GetWord(s, p + 2)
  }

  function WordBytes(w: Word): (b: seq<Byte>)
    ensures |b| == 2
  {
    [w % 0x100, w / 0x100]
  }

  lemma GetWordBytes(w: Word)
    ensures GetWord(WordBytes(w), 0) == w
  {
  }

  function DwordBytes(d: Dword): (b: seq<Byte>)
    ensures |b| == 4
  {
    WordBytes(d % 0x1_0000) + WordBytes(d / 0x1_0000)
  }

  lemma GetDwordBytes(d: Dword)
    ensures GetDword(DwordBytes(d), 0) == d
  {
    var b := DwordBytes(d);
    GetWordBytes(d % 0x1_0000);
    GetWordBytes(d / 0x1_0000);
    assert GetWord(b, 0) == d % 0x1_0000 && GetWord(b, 2) == d / 0x1_0000;
  }

  lemma DwordIn(f: seq<Byte>, p: nat, b: seq<Byte>, q: nat, d: Dword)
    requires q + 4 <= |b| && ReadAt(f, p, |b|) == b && b[q..q + 4] == DwordBytes(d)
    ensures GetDword(f, p + q) == d
  {
    var c := DwordBytes(d);
    GetDwordBytes(d);
    forall i | 0 <= i < 4
      ensures At(f, (p + q) + i) == At(c, i)
    {
      assert b[q..q + 4][i] == b[q + i];
      assert ReadAt(f, p, |b|)[q + i] == At(f, p + (q + i));
    }
    assert At(f, p + q) == At(c, 0) && At(f, p + q + 1) == At(c, 1);
    assert At(f, p + q + 2) == At(c, 2) && At(f, p + q + 3) == At(c, 3);
  }

  lemma WordIn(f: seq<Byte>, p: nat, b: seq<Byte>, q: nat, w: Word)
    requires q + 2 <= |b| && ReadAt(f, p, |b|) == b && b[q..q + 2] == WordBytes(w)
    ensures GetWord(f, p + q) == w
  {
    var c := WordBytes(w);
    GetWordBytes(w);
    forall i | 0 <= i < 2
      ensures At(f, (p + q) + i) == At(c, i)
    {
      assert b[q..q + 2][i] == b[q + i];
      assert ReadAt(f, p, |b|)[q + i] == At(f, p + (q + i));
    }
    assert At(f, p + q) == At(c, 0) && At(f, p + q + 1) == At(c, 1);
  }

  lemma ReadWithin(s: seq<Byte>, p: nat, b: seq<Byte>, q: nat, n: nat)
    requires ReadAt(s, p, |b|) == b && q + n <= |b|
    ensures ReadAt(s, p + q, n) == b[q..q + n]
  {
    var r := ReadAt(s, p + q, n);
    forall i | 0 <= i < n
      ensures r[i] == b[q + i]
    {
      assert ReadAt(s, p, |b|)[q + i] == At(s, p + (q + i));
    }
  }

  lemma DwordFrom(s: seq<Byte>, p: nat, b: seq<Byte>, q: nat)
    requires ReadAt(s, p, |b|) == b && q + 4 <= |b|
    ensures GetDword(s, p + q) == GetDword(b, q)
  {
    ReadWithin(s, p, b, q, 4);
    assert At(s, p + q) == b[q] && At(s, p + q + 1) == b[q + 1];
    assert At(s, p + q + 2) == b[q + 2] && At(s, p + q + 3) == b[q + 3];
  }

  lemma GetElsewhere(s: seq<Byte>, p: nat, b: seq<Byte>, q: nat)
    requires q + 4 <= p || p + |b| <= q
    ensures GetDword(WriteAt(s, p, b), q) == GetDword(s, q)
  {
    hide WriteAt;
    var r := WriteAt(s, p, b);
    WrittenAt(s, p, b);
    assert At(r, q) == At(s, q) && At(r, q + 1) == At(s, q + 1)
           && At(r, q + 2) == At(s, q + 2) && At(r, q + 3) == At(s, q + 3);
  }

  // 32-bit arithmetic.
  function ToDword(n: int): Dword {
    n % 0x1_0000_0000
  }

  lemma InRange(n: int)
    requires 0 <= n < 0x1_0000_0000
    ensures ToDword(n) == n
  {
  }

  function Plus(a: Dword, b: Dword): Dword {
    ToDword(a + b)
  }

  function Minus(a: Dword, b: Dword): Dword {
    ToDword(a - b)
  }

  function Not(a: Dword): Dword {
    0xFFFF_FFFF - a
  }

  function And(a: nat, b: nat): (c: nat)
    ensures c <= a && c <= b
  {
    if a == 0 || b == 0 then 0 else (if a % 2 == 1 && b % 2 == 1 then 1 else 0) + 2 * And(a / 2, b / 2)
  }

  function Pow2(k: nat): (p: nat)
    ensures p > 0
  {
    if k == 0 then 1 else 2 * Pow2(k - 1)
  }

  // Masking out the low bits of a number of at most n bits rounds it down.
  lemma {:induction false} AndRoundsDown(a: nat, k: nat, n: nat)
    requires k <= n && a < Pow2(n)
    ensures Pow2(k) <= Pow2(n)
    ensures And(a, Pow2(n) - Pow2(k)) == a - a % Pow2(k)
  {
    hide And;
    if k == 0 {
      AndWithOnes(a, n);
    } else {
      assert a / 2 < Pow2(n - 1);
      AndRoundsDown(a / 2, k - 1, n - 1);
      var h, p := Pow2(n - 1) - Pow2(k - 1), Pow2(k - 1);
      HalfRemainder(a, p);
      AndOfEven(a, h);
    }
  }

  lemma AndOfEven(a: nat, h: nat)
    ensures And(a, 2 * h) == 2 * And(a / 2, h)
  {
    if a > 0 && h > 0 {
      assert (2 * h) / 2 == h;
    }
  }

  lemma {:induction false} AndWithOnes(a: nat, n: nat)
    requires a < Pow2(n)
    ensures And(a, Pow2(n) - 1) == a
  {
    if n > 0 && a > 0 {
      AndWithOnes(a / 2, n - 1);
    }
  }

  lemma HalfRemainder(a: nat, p: nat)
    requires p > 0
    ensures 2 * (a / 2 - (a / 2) % p) == a - a % (2 * p)
  {
    var q, r := (a / 2) / p, (a / 2) % p;
    assert a == (2 * p) * q + (2 * r + a % 2);
    DividedBy(a, 2 * p, q, 2 * r + a % 2);
  }

  lemma DividedBy(a: int, b: int, q: int, r: int)
    requires 0 <= r < b && a == b * q + r
    ensures a / b == q && a % b == r
  {
    var d := q - a / b;
    assert b * d == a % b - r;
    assert d > 0 ==> b * d >= b;
    assert d < 0 ==> b * d <= -b;
  }
}

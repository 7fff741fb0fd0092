// Rounding up to a multiple, by arithmetic and by masking out bits.

module Alignment {
  import opened Bytes

  // Align: works for powers of two.
  function Align(a: Dword, size: Dword): Dword {
    And(Plus(a, Minus(size, 1)), Not(Minus(size, 1)))
  }

  predicate IsAlignment(s: int) {
    exists k: nat :: k < 32 && s == Pow2(k)
  }

  // The first multiple of s that is not below a.
  function RoundUp(a: nat, s: nat): (r: nat)
    ensures a <= r && (s > 0 ==> r < a + s)
  {
    if s == 0 then a else if a == 0 then 0 else if a <= s then s else s + RoundUp(a - s, s)
  }

  lemma {:induction false} RoundUpIsMultiple(a: nat, s: nat)
    requires s > 0
    ensures RoundUp(a, s) % s == 0
  {
    DividedBy(0, s, 0, 0);
    DividedBy(s, s, 1, 0);
    if a > s {
      RoundUpIsMultiple(a - s, s);
      MultiplesAdd(s, RoundUp(a - s, s), s);
    }
  }

  lemma MultiplesAdd(a: int, b: int, s: int)
    requires s > 0 && a % s == 0 && b % s == 0
    ensures (a + b) % s == 0 && (a - b) % s == 0
  {
    var p, q := a / s, b / s;
    assert a == s * p && b == s * q;
    assert a + b == s * (p + q) + 0;
    assert a - b == s * (p - q) + 0;
    DividedBy(a + b, s, p + q, 0);
    DividedBy(a - b, s, p - q, 0);
  }

  lemma MultiplesAreApart(a: int, b: int, s: int)
    requires s > 0 && a % s == 0 && b % s == 0 && a < b
    ensures a + s <= b
  {
    MultiplesAdd(b, a, s);
    var d := (b - a) / s;
    assert b - a == s * d;
    assert d <= 0 ==> s * d <= 0;
    assert d >= 1 ==> s * d >= s;
  }

  lemma RoundUpIsLeast(a: nat, s: nat, m: nat)
    requires s > 0 && m % s == 0 && a <= m
    ensures RoundUp(a, s) <= m
  {
    RoundUpIsMultiple(a, s);
    if m < RoundUp(a, s) {
      MultiplesAreApart(m, RoundUp(a, s), s);
      assert false;
    }
  }

  lemma RoundUpStays(a: nat, s: nat)
    requires s > 0
    ensures RoundUp(a, s) == a <==> a % s == 0
  {
    RoundUpIsMultiple(a, s);
    if a % s == 0 {
      RoundUpIsLeast(a, s, a);
    }
  }

  lemma RoundUpShifts(a: nat, b: nat, s: nat)
    requires s > 0 && a % s == 0
    ensures RoundUp(a + b, s) == a + RoundUp(b, s)
  {
    hide RoundUp;
    RoundUpIsMultiple(b, s);
    RoundUpIsMultiple(a + b, s);
    MultiplesAdd(a, RoundUp(b, s), s);
    MultiplesAdd(RoundUp(a + b, s), a, s);
    RoundUpIsLeast(a + b, s, a + RoundUp(b, s));
    RoundUpIsLeast(b, s, RoundUp(a + b, s) - a);
  }

  lemma {:induction false} Pow2Divides(k: nat, n: nat)
    requires k <= n
    ensures Pow2(n) % Pow2(k) == 0
  {
    if k == n {
      DividedBy(Pow2(n), Pow2(k), 1, 0);
    } else {
      Pow2Divides(k, n - 1);
      MultiplesAdd(Pow2(n - 1), Pow2(n - 1), Pow2(k));
    }
  }

  lemma {:induction false} Pow2Grows(k: nat, n: nat)
    requires k <= n
    ensures Pow2(k) <= Pow2(n)
  {
    if k < n {
      Pow2Grows(k, n - 1);
    }
  }

  lemma DwordRange()
    ensures Pow2(32) == 0x1_0000_0000
  {
    assert Pow2(8) == 0x100 && Pow2(16) == 0x1_0000 && Pow2(24) == 0x100_0000;
  }

  lemma AlignmentDivides(s: nat)
    requires IsAlignment(s)
    ensures 0 < s < 0x1_0000_0000 && 0x1_0000_0000 % s == 0
  {
    var k: nat :| k < 32 && s == Pow2(k);
    DwordRange();
    Pow2Divides(k, 32);
    Pow2Grows(k, 31);
  }

  lemma RoundUpIsRoundDown(a: nat, s: nat)
    requires s > 0
    ensures (a + s - 1) - (a + s - 1) % s == RoundUp(a, s)
  {
    hide RoundUp;
    var x := a + s - 1;
    var q, r := x / s, x % s;
    assert x == s * q + r;
    DividedBy(x - r, s, q, 0);
    RoundUpIsLeast(a, s, x - r);
    RoundUpIsMultiple(a, s);
    if RoundUp(a, s) < x - r {
      MultiplesAreApart(RoundUp(a, s), x - r, s);
      assert false;
    }
  }

  // Align rounds up, as long as the result is a 32-bit number.
  lemma AlignRoundsUp(a: Dword, s: nat)
    requires IsAlignment(s) && s > 0 && RoundUp(a, s) < 0x1_0000_0000
    ensures s < 0x1_0000_0000 && Align(a, s) == RoundUp(a, s)
  {
    hide RoundUp, Pow2, Align;
    AlignmentDivides(s);
    var k: nat :| k < 32 && s == Pow2(k);
    AlignsTo(a, s, k);
  }

  lemma AlignsTo(a: Dword, s: Dword, k: nat)
    requires k < 32 && s == Pow2(k) && s > 0 && RoundUp(a, s) < 0x1_0000_0000 && 0x1_0000_0000 % s == 0
    ensures Align(a, s) == RoundUp(a, s)
  {
    hide And, Pow2, RoundUp, Align;
    DwordRange();
    RoundUpIsMultiple(a, s);
    MultiplesAreApart(RoundUp(a, s), 0x1_0000_0000, s);
    AlignIs(a, s);
    AndRoundsDown(a + s - 1, k, 32);
    RoundUpIsRoundDown(a, s);
  }

  lemma AlignIs(a: Dword, s: Dword)
    requires s > 0 && a + s - 1 < 0x1_0000_0000
    ensures Align(a, s) == And(a + s - 1, 0x1_0000_0000 - s)
  {
    hide And, ToDword;
    InRange(s - 1);
    InRange(a + s - 1);
  }
}

/** Rounding an address down by masking, as clog__ArenaAllocate of clientlog/arena.c does. */
module Alignment {

  function Pow2(k: nat): (p: nat)
    ensures p > 0
  {
    if k == 0 then 1 else 2 * Pow2(k - 1)
  }

  /** The bitwise and of two w-bit words. */
  function BitAnd(x: nat, y: nat, w: nat): nat {
    if w == 0 then 0 else (x % 2) * (y % 2) + 2 * BitAnd(x / 2, y / 2, w - 1)
  }

  const WORD := 64
  const ADDRESSES: nat := 0x1_0000_0000_0000_0000

  /** x without its k low bits, shifted down, and those bits. */
  function High(x: nat, k: nat): nat {
    if k == 0 then x else High(x / 2, k - 1)
  }

  function Low(x: nat, k: nat): nat {
    if k == 0 then 0 else x % 2 + 2 * Low(x / 2, k - 1)
  }

  function Times(q: nat, m: nat): nat {
    q * m
  }

  lemma {:induction false} HighLow(x: nat, k: nat)
    ensures x == Times(High(x, k), Pow2(k)) + Low(x, k)
    ensures Low(x, k) < Pow2(k)
    decreases k
  {
    if k > 0 {
      HighLow(x / 2, k - 1);
      TwiceTimes(High(x / 2, k - 1), Pow2(k - 1));
      hide Times;
    } else {
      assert Times(x, 1) == x;
    }
  }

  lemma TwiceTimes(q: nat, m: nat)
    ensures Times(q, 2 * m) == 2 * Times(q, m)
  {
  }

  lemma {:induction false} Pow2Grows(k: nat, w: nat)
    requires k <= w
    ensures Pow2(k) <= Pow2(w)
  {
    if k < w {
      Pow2Grows(k, w - 1);
    }
  }

  /** Masking with the two's complement of a power of two clears exactly the bits below it. */
  lemma {:induction false} MaskClearsLow(x: nat, k: nat, w: nat)
    requires k <= w && x < Pow2(w)
    ensures Pow2(k) <= Pow2(w) && BitAnd(x, Pow2(w) - Pow2(k), w) == x - Low(x, k)
    decreases w
  {
    Pow2Grows(k, w);
    if w > 0 {
      var y := Pow2(w) - Pow2(k);
      if k == 0 {
        MaskClearsLow(x / 2, 0, w - 1);
        assert y % 2 == 1 && y / 2 == Pow2(w - 1) - 1;
      } else {
        MaskClearsLow(x / 2, k - 1, w - 1);
        assert y % 2 == 0 && y / 2 == Pow2(w - 1) - Pow2(k - 1);
      }
    }
  }

  ghost predicate IsAlignment(align: nat) {
    exists k: nat :: k < WORD && align == Pow2(k)
  }

  ghost predicate IsMultiple(a: nat, align: nat) {
    exists q: nat :: a == Times(q, align)
  }

  /** r is the highest multiple of the alignment at or below x. */
  ghost predicate IsRoundedDown(r: nat, x: nat, align: nat) {
    IsMultiple(r, align) && r <= x < r + align
  }

  lemma {:induction false} TimesGrows(q: nat, r: nat, m: nat)
    requires q > r
    ensures Times(q, m) >= Times(r, m) + m
  {
    assert Times(q, m) == Times(q - 1, m) + m;
    if q - 1 > r {
      TimesGrows(q - 1, r, m);
    }
  }

  /** No other multiple at or below x is higher. */
  lemma RoundedDownIsHighest(r: nat, x: nat, align: nat, c: nat)
    requires IsRoundedDown(r, x, align) && IsMultiple(c, align) && c <= x
    ensures c <= r
  {
    var q: nat :| c == Times(q, align);
    var p: nat :| r == Times(p, align);
    if q > p {
      TimesGrows(q, p, align);
    }
    if p > q {
      TimesGrows(p, q, align);
    }
  }

  lemma Pow2Byte(k: nat)
    ensures Pow2(k + 8) == 256 * Pow2(k)
  {
    assert Pow2(k + 4) == 2 * Pow2(k + 3) == 4 * Pow2(k + 2) == 8 * Pow2(k + 1) == 16 * Pow2(k);
    assert Pow2(k + 8) == 2 * Pow2(k + 7) == 4 * Pow2(k + 6) == 8 * Pow2(k + 5) == 16 * Pow2(k + 4);
  }

  lemma WordIs64()
    ensures Pow2(WORD) == ADDRESSES
  {
    Pow2Byte(0);
    Pow2Byte(8);
    Pow2Byte(16);
    Pow2Byte(24);
    Pow2Byte(32);
    Pow2Byte(40);
    Pow2Byte(48);
    Pow2Byte(56);
  }

  /** (size_t)x & -align rounds x down to a multiple of a power of two. */
  method MaskDown(x: nat, align: nat) returns (r: nat)
    requires IsAlignment(align) && x < ADDRESSES
    ensures IsRoundedDown(r, x, align)
  {
    ghost var k: nat :| k < WORD && align == Pow2(k);
    WordIs64();
    MaskClearsLow(x, k, WORD);
    HighLow(x, k);
    r := BitAnd(x, ADDRESSES - align, WORD);
  }
}

/** Binary long division on numbers: what one round of the shift-and-subtract loop does. */
module LongDivision {
  import opened Bits
  import opened Words

  lemma BelowPower(x: int, n: nat)
    requires x >= 0
    ensures 0 <= x / Pow2(n) <= x
  {
    var q, r := Divide(x, Pow2(n));
    if q < 0 { TimesGrows(q, -1, Pow2(n)); }
    if q >= 0 { TimesAtLeast(q, Pow2(n)); }
  }

  /** The next bit of the dividend is brought down. */
  lemma BringDown(x: int, n: nat)
    ensures x / Pow2(n) == 2 * (x / Pow2(n + 1)) + x / Pow2(n) % 2
  {
    ShiftOnce(x, n);
  }

  /** Half-way through: the bits of q from b on are the quotient k of the bits of dd from b on, and r is
      what remains; bit b itself is still clear while the divisor fits in r. */
  ghost predicate Dividing(dd: int, ds: int, b: nat, q: int, r: int, k: int) {
    && 0 < ds && 0 <= k && q == k * Pow2(b) && 0 <= q <= dd
    && dd / Pow2(b) == k * ds + r
    && 0 <= r < 2 * ds && r <= dd
    && (r >= ds ==> k % 2 == 0)
  }

  lemma StartDividing(dd: int, ds: int, b: nat)
    requires 0 < ds <= dd && 0 <= dd / Pow2(b) < 2 * ds
    ensures Dividing(dd, ds, b, 0, dd / Pow2(b), 0)
  {
    BelowPower(dd, b);
    Zero(Pow2(b));
    Zero(ds);
  }

  lemma Zero(x: int)
    ensures 0 * x == 0
  {
  }

  /** While the remainder is below the divisor: one more bit of the quotient, zero so far. */
  lemma NextDigit(dd: int, ds: int, b: nat, q: int, r: int, k: int)
    requires Dividing(dd, ds, b, q, r, k) && r < ds && b > 0
    ensures Dividing(dd, ds, b - 1, q, 2 * r + dd / Pow2(b - 1) % 2, 2 * k)
  {
    hide Pow2;
    var h, bit := NextBitOf(dd, b);
    NextDigitValues(dd, ds, Pow2(b - 1), q, r, k, h, bit);
  }

  lemma NextBitOf(dd: int, b: nat) returns (h: int, bit: int)
    requires dd >= 0 && b > 0
    ensures h == dd / Pow2(b - 1) == 2 * (dd / Pow2(b)) + bit && bit == h % 2 && 0 <= bit <= 1 && 0 <= h <= dd
    ensures Pow2(b) == 2 * Pow2(b - 1)
  {
    BringDown(dd, b - 1);
    BelowPower(dd, b - 1);
    h, bit := dd / Pow2(b - 1), dd / Pow2(b - 1) % 2;
  }

  lemma NextDigitValues(dd: int, ds: int, p: int, q: int, r: int, k: int, h: int, bit: int)
    requires 0 <= k && 0 <= bit <= 1 && 0 <= r < ds && q == k * (2 * p) && h == 2 * (k * ds + r) + bit <= dd
    ensures q == (2 * k) * p && h == (2 * k) * ds + (2 * r + bit) && 2 * r + bit <= dd
  {
    assert (2 * k) * ds == 2 * (k * ds);
    assert (2 * k) * p == k * (2 * p);
    TimesGrows(0, 2 * k, ds);
  }

  /** When the divisor fits, it is subtracted and the current bit of the quotient set. */
  lemma SetDigit(dd: int, ds: int, b: nat, q: int, r: int, k: int)
    requires Dividing(dd, ds, b, q, r, k) && ds <= r
    ensures Dividing(dd, ds, b, q + Pow2(b), r - ds, k + 1)
    ensures q / Pow2(b) % 2 == 0
  {
    Quotient(q, Pow2(b), k, 0);
    var h, s := Divide(dd, Pow2(b));
    TimesGrows(k + 1, k + 2, ds);
    assert h == (k + 1) * ds + (r - ds);
    TimesAtLeast(k + 1, ds);
    TimesGrows(k + 1, h, Pow2(b));
    TimesGrows(k + 1, k + 2, Pow2(b));
  }

  lemma Divided(dd: int, ds: int, q: int, r: int, k: int)
    requires Dividing(dd, ds, 0, q, r, k)
    ensures dd == q * ds + r
  {
    assert Pow2(0) == 1;
  }

  // ------------------------------------------------------------------ bits of a two-word number

  /** Numbers congruent modulo a power of two share the bits below it. */
  lemma SameBit(x: int, y: int, n: nat)
    requires x % Pow2(n + 1) == y % Pow2(n + 1)
    ensures x / Pow2(n) % 2 == y / Pow2(n) % 2
  {
    BitOfRest(x, n);
    BitOfRest(y, n);
  }

  lemma BitOfRest(x: int, n: nat)
    ensures x / Pow2(n) % 2 == x % Pow2(n + 1) / Pow2(n)
  {
    var p := Pow2(n);
    var q, r := Divide(x, p);
    Halves(q / 2, q % 2, p);
    Quotient(x, 2 * p, q / 2, q % 2 * p + r);
    Quotient(q % 2 * p + r, p, q % 2, r);
  }

  predicate BitSet(lo: int, hi: int, n: nat)
    requires Unsigned64(lo) && Signed64(hi)
  {
    if n >= 128 then hi < 0
    else if n < 64 then And(lo, Pow2(n)) != 0
    else And(U64(hi), Pow2(n - 64)) != 0
  }

  lemma BitSetIs(lo: int, hi: int, n: nat)
    requires Unsigned64(lo) && Signed64(hi) && n < 128
    ensures BitSet(lo, hi, n) <==> Join(lo, hi) / Pow2(n) % 2 == 1
  {
    if n < 64 { LowBitIs(lo, hi, n); } else { HighBitIs(lo, hi, n); }
  }

  lemma LowBitIs(lo: int, hi: int, n: nat)
    requires Unsigned64(lo) && Signed64(hi) && n < 64
    ensures And(lo, Pow2(n)) != 0 <==> Join(lo, hi) / Pow2(n) % 2 == 1
  {
    AndBit(lo, n);
    LowBits(Join(lo, hi), n + 1);
    U64Join(lo, hi);
    SameBit(Join(lo, hi), lo, n);
  }

  lemma HighBitIs(lo: int, hi: int, n: nat)
    requires Unsigned64(lo) && Signed64(hi) && 64 <= n < 128
    ensures And(U64(hi), Pow2(n - 64)) != 0 <==> Join(lo, hi) / Pow2(n) % 2 == 1
  {
    AndBit(U64(hi), n - 64);
    LowBits(hi, n - 63);
    SameBit(U64(hi), hi, n - 64);
    Pow2Word();
    DivideTwice(Join(lo, hi), 64, n - 64);
    Quotient(Join(lo, hi), M64, hi, lo);
  }

  lemma U64Join(lo: int, hi: int)
    requires Unsigned64(lo)
    ensures U64(Join(lo, hi)) == lo
  {
  }

  /** The number with bit n set: a clear bit adds its weight. */
  function WithBit(lo: int, hi: int, n: nat): int
    requires Unsigned64(lo) && Signed64(hi)
  {
    if BitSet(lo, hi, n) then Join(lo, hi) else Wrap(Join(lo, hi) + Pow2(n))
  }

  lemma SetLowBit(lo: int, hi: int, n: nat)
    requires Unsigned64(lo) && Signed64(hi) && n < 64
    ensures Unsigned64(Or(lo, Pow2(n)))
    ensures Join(Or(lo, Pow2(n)), hi) == WithBit(lo, hi, n)
  {
    Pow2Word();
    Pow2Grows(n, 64);
    AndBit(lo, n);
    OrBit(lo, n);
    OrBelow(lo, Pow2(n), 64);
    if !BitSet(lo, hi, n) { SumIs(lo, hi, Or(lo, Pow2(n)), Pow2(n)); }
  }

  lemma SumIs(lo: int, hi: int, lo': int, p: int)
    requires Unsigned64(lo') && Signed64(hi) && lo' == lo + p
    ensures Join(lo', hi) == Wrap(Join(lo, hi) + p)
  {
    JoinRange(lo', hi);
    WrapSmall(Join(lo, hi) + p);
  }

  lemma SetHighBit(lo: int, hi: int, n: nat)
    requires Unsigned64(lo) && Signed64(hi) && 64 <= n < 128
    ensures Join(lo, S64(Or(U64(hi), Pow2(n - 64)))) == WithBit(lo, hi, n)
  {
    HighBit(lo, hi, n, U64(hi));
    if BitSet(lo, hi, n) {
      S64Again(hi);
    } else {
      var k := U64By(hi);
      HighAdds(lo, hi, k, Pow2(n - 64));
      HighWeight(n);
    }
  }

  lemma HighBit(lo: int, hi: int, n: nat, high: int)
    requires Unsigned64(lo) && Signed64(hi) && 64 <= n < 128 && high == U64(hi)
    ensures Or(high, Pow2(n - 64)) == if BitSet(lo, hi, n) then high else high + Pow2(n - 64)
  {
    AndBit(high, n - 64);
    OrBit(high, n - 64);
  }

  lemma HighWeight(n: nat)
    requires 64 <= n
    ensures Pow2(n) == M64 * Pow2(n - 64)
  {
    Pow2Word();
    Pow2Adds(64, n - 64);
  }

  lemma S64Again(hi: int)
    requires Signed64(hi)
    ensures S64(U64(hi)) == hi
  {
  }

  lemma HighAdds(lo: int, hi: int, k: int, p: int)
    requires Unsigned64(lo) && Signed64(hi) && U64(hi) == hi + k * M64
    ensures Join(lo, S64(U64(hi) + p)) == Wrap(Join(lo, hi) + M64 * p)
  {
    JoinWraps(lo, U64(hi) + p, Join(lo, hi) + M64 * p, -k);
  }

  // ------------------------------------------------------------------ truncated division

  /** The quotient is rounded toward zero: the remainder is smaller than the divisor and has the sign of
      the dividend, if any. */
  ghost predicate Truncated(a: int, b: int, q: int, r: int) {
    && a == q * b + r
    && Abs(r) < Abs(b)
    && (r == 0 || (r < 0) == (a < 0))
  }

  function Abs(x: int): nat {
    if x < 0 then -x else x
  }

  /** There is only one such quotient and remainder. */
  lemma TruncatedUnique(a: int, b: int, q: int, r: int, q': int, r': int)
    requires Truncated(a, b, q, r) && Truncated(a, b, q', r')
    ensures q == q' && r == r'
  {
    assert (q - q') * b == r' - r;
    if q != q' {
      assert Abs(q - q') >= 1;
      AbsTimes(q - q', b);
    }
  }

  lemma AbsTimes(x: int, y: int)
    ensures Abs(x * y) == Abs(x) * Abs(y)
    ensures Abs(x) >= 1 ==> Abs(x * y) >= Abs(y)
  {
    if Abs(x) >= 1 { TimesGrows(1, Abs(x), Abs(y)); }
  }

  lemma Signs(a: int, b: int, q: int, r: int)
    requires b != 0 && Abs(a) == q * Abs(b) + r && 0 <= r < Abs(b)
    ensures Truncated(a, b, if (b < 0) != (a < 0) then -q else q, if a < 0 then -r else r)
  {
    assert (-q) * (-b) == q * b && (-q) * b == -(q * b) && q * (-b) == -(q * b);
  }

  /** What division answers for the least number as dividend is never right. */
  lemma LeastDividend(b: int)
    requires Signed128(b) && b != 0 && b != -H128
    ensures !Truncated(-H128, b, 0, -H128)
  {
  }

  /** The least number as divisor: nothing is below it that the loop can reach, since subtracting it
      leads from zero to itself and back, so the loop would never end. */
  lemma LeastDivisor(lo: int, hi: int)
    requires Unsigned64(lo) && Signed64(hi) && (Join(lo, hi) == 0 || Join(lo, hi) == -H128)
    ensures !LessWords(lo, hi, 0, -H64)
    ensures Wrap(Join(lo, hi) + H128) == -H128 - Join(lo, hi)
  {
    if Join(lo, hi) == 0 {
      WrapIs(-H128, H128, -1);
    } else {
      WrapSmall(0);
    }
  }
}

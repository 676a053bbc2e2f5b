/** Bitwise operators on natural numbers, digit by binary digit, and what they come to when one
    operand is a mask or a single bit. */
module Bits {

  function Pow2(n: nat): (p: int)
    ensures p >= 1
  {
    if n == 0 then 1 else 2 * Pow2(n - 1)
  }

  function And(x: int, y: int): (r: int)
    requires x >= 0 && y >= 0
    ensures 0 <= r <= x && r <= y
    decreases x
  {
    if x == 0 || y == 0 then 0
    else 2 * And(x / 2, y / 2) + (if x % 2 == 1 && y % 2 == 1 then 1 else 0)
  }

  function Or(x: int, y: int): (r: int)
    requires x >= 0 && y >= 0
    ensures r >= x && r >= y
    decreases x
  {
    if x == 0 then y
    else if y == 0 then x
    else 2 * Or(x / 2, y / 2) + (if x % 2 == 1 || y % 2 == 1 then 1 else 0)
  }

  lemma {:induction false} Pow2Adds(m: nat, n: nat)
    ensures Pow2(m + n) == Pow2(m) * Pow2(n)
  {
    if m > 0 {
      Pow2Adds(m - 1, n);
      var p, q, r := Pow2(m - 1), Pow2(n), Pow2(m - 1 + n);
      assert r == p * q;
      assert 2 * r == (2 * p) * q;
    }
  }

  lemma {:induction false} Pow2Grows(m: nat, n: nat)
    requires m < n
    ensures Pow2(m) < Pow2(n) && Pow2(n) % 2 == 0
  {
    Twice(Pow2(n - 1));
    if m + 1 < n { Pow2Grows(m, n - 1); }
  }

  lemma Twice(p: int)
    ensures 2 * p % 2 == 0 && 2 * p / 2 == p
  {
  }

  // ------------------------------------------------------------------ quotients by powers of two

  /** Dividing by a positive number, in terms of the product. */
  lemma Quotient(x: int, d: int, q: int, r: int)
    requires d > 0 && x == q * d + r && 0 <= r < d
    ensures x / d == q && x % d == r
  {
    var q' := x / d;
    assert x == q' * d + x % d;
    if q' > q { TimesGrows(q + 1, q', d); }
    if q' < q { TimesGrows(q' + 1, q, d); }
  }

  lemma TimesGrows(a: int, b: int, d: int)
    requires a <= b && d >= 0
    ensures a * d <= b * d
    ensures (a - 1) * d == a * d - d && (b - 1) * d == b * d - d
  {
  }

  lemma HalfOf(x: int, n: nat)
    ensures x / Pow2(n + 1) == x / 2 / Pow2(n)
    ensures x % Pow2(n + 1) == 2 * (x / 2 % Pow2(n)) + x % 2
  {
    var p := Pow2(n);
    var q, r := x / 2 / p, x / 2 % p;
    assert x / 2 == q * p + r;
    assert x == q * (2 * p) + (2 * r + x % 2) by {
      Halves(q, 0, p);
    }
    Quotient(x, 2 * p, q, 2 * r + x % 2);
  }

  lemma ShiftOnce(x: int, n: nat)
    ensures x / Pow2(n + 1) == x / Pow2(n) / 2
    ensures x / Pow2(n) == 2 * (x / Pow2(n + 1)) + x / Pow2(n) % 2
  {
    var p := Pow2(n);
    var q := x / p;
    var r, h, b := x % p, q / 2, q % 2;
    assert x == q * p + r;
    Halves(h, b, p);
    Quotient(x, 2 * p, h, b * p + r);
  }

  lemma Halves(h: int, b: int, p: int)
    requires 0 <= b <= 1 && p > 0
    ensures (2 * h + b) * p == h * (2 * p) + b * p
    ensures 0 <= b * p <= p
  {
    if b == 0 { assert b * p == 0; } else { assert b * p == p; }
    assert (2 * h) * p == h * (2 * p);
  }

  // ------------------------------------------------------------------ masks and single bits

  lemma {:induction false} AndMask(x: int, n: nat)
    requires x >= 0
    ensures And(x, Pow2(n) - 1) == x % Pow2(n)
    decreases n
  {
    hide *;
    if n == 0 {
      NoMask(x);
    } else {
      AndMask(x / 2, n - 1);
      HalfOf(x, n - 1);
      MaskNext(x, n);
    }
  }

  lemma NoMask(x: int)
    requires x >= 0
    ensures And(x, Pow2(0) - 1) == x % Pow2(0)
  {
    assert Pow2(0) == 1 && x % 1 == 0;
  }

  lemma MaskNext(x: int, n: nat)
    requires x >= 0 && n > 0
    ensures And(x, Pow2(n) - 1) == 2 * And(x / 2, Pow2(n - 1) - 1) + x % 2
  {
    hide And;
    if x > 0 { MaskStep(x, Pow2(n - 1) - 1); }
  }

  lemma MaskStep(x: int, mask: int)
    requires x > 0 && mask >= 0
    ensures And(x, 2 * mask + 1) == 2 * And(x / 2, mask) + x % 2
  {
    assert (2 * mask + 1) / 2 == mask && (2 * mask + 1) % 2 == 1;
  }

  lemma {:induction false} AndBit(x: int, n: nat)
    requires x >= 0
    ensures And(x, Pow2(n)) == if x / Pow2(n) % 2 == 1 then Pow2(n) else 0
    decreases n
  {
    if n > 0 {
      HalfOf(x, n - 1);
      AndBit(x / 2, n - 1);
      assert Pow2(n) / 2 == Pow2(n - 1) && Pow2(n) % 2 == 0;
    } else if x > 0 {
      assert And(x / 2, 0) == 0;
    }
  }

  /** The complement of y in w bits selects the rest of x. */
  lemma {:induction false} AndComplement(x: int, y: int, w: nat)
    requires 0 <= x < Pow2(w) && 0 <= y < Pow2(w)
    ensures And(x, Pow2(w) - 1 - y) == x - And(x, y)
    decreases w
  {
    hide And;
    if w > 0 {
      AndComplement(x / 2, y / 2, w - 1);
      var z := Pow2(w) - 1 - y;
      assert z / 2 == Pow2(w - 1) - 1 - y / 2 && z % 2 == 1 - y % 2;
      AndStep(x, y);
      AndStep(x, z);
    }
  }

  /** All but the lowest k of w bits. */
  lemma HighBits(x: int, k: nat, w: nat, mask: int)
    requires 0 <= x < Pow2(w) && k < w && 0 <= mask == Pow2(w) - 1 - (Pow2(k) - 1)
    ensures And(x, mask) == x - x % Pow2(k)
  {
    hide *;
    Pow2Grows(k, w);
    AndComplement(x, Pow2(k) - 1, w);
    AndMask(x, k);
  }

  lemma AndStep(x: int, y: int)
    requires x >= 0 && y >= 0
    ensures And(x, y) == 2 * And(x / 2, y / 2) + (if x % 2 == 1 && y % 2 == 1 then 1 else 0)
  {
  }

  /** Bits that do not overlap add up. */
  lemma {:induction false} OrDisjoint(x: int, y: int, n: nat)
    requires 0 <= x < Pow2(n) && y >= 0 && y % Pow2(n) == 0
    ensures Or(x, y) == x + y && Or(y, x) == x + y
    decreases n
  {
    if n > 0 {
      HalfOf(y, n - 1);
      OrDisjoint(x / 2, y / 2, n - 1);
    }
  }

  /** Setting a bit that is clear adds its weight. */
  lemma {:induction false} OrBit(x: int, n: nat)
    requires x >= 0
    ensures Or(x, Pow2(n)) == if x / Pow2(n) % 2 == 1 then x else x + Pow2(n)
    decreases n
  {
    if n > 0 {
      HalfOf(x, n - 1);
      OrBit(x / 2, n - 1);
      assert Pow2(n) / 2 == Pow2(n - 1) && Pow2(n) % 2 == 0;
      if x == 0 { Pow2Quotient(n); }
    } else if x > 0 {
      assert Or(x / 2, 0) == x / 2;
    }
  }

  lemma {:induction false} OrLow(x: int, y: int, n: nat)
    requires x >= 0 && y >= 0 && x % Pow2(n) == 0
    ensures Or(x, y) % Pow2(n) == y % Pow2(n)
    decreases n
  {
    if n > 0 {
      HalfOf(x, n - 1);
      HalfOf(y, n - 1);
      HalfOf(Or(x, y), n - 1);
      OrLow(x / 2, y / 2, n - 1);
      OrStep(x, y);
    }
  }

  lemma OrStep(x: int, y: int)
    requires x >= 0 && y >= 0
    ensures Or(x, y) / 2 == Or(x / 2, y / 2)
    ensures Or(x, y) % 2 == if x % 2 == 1 || y % 2 == 1 then 1 else 0
  {
  }

  lemma {:induction false} OrBelow(x: int, y: int, w: nat)
    requires 0 <= x < Pow2(w) && 0 <= y < Pow2(w)
    ensures Or(x, y) < Pow2(w)
    decreases w
  {
    if w > 0 { OrBelow(x / 2, y / 2, w - 1); }
  }

  lemma Pow2Quotient(n: nat)
    ensures 0 / Pow2(n) == 0
  {
    Quotient(0, Pow2(n), 0, 0);
  }
}

/** Integers in two 64-bit words: unsigned low, signed high, all arithmetic wrapping around. */
module Words {
  import opened Bits

  const M64 := 0x1_0000_0000_0000_0000
  const H64 := 0x8000_0000_0000_0000
  const M128 := 0x1_0000_0000_0000_0000_0000_0000_0000_0000
  const H128 := 0x8000_0000_0000_0000_0000_0000_0000_0000

  predicate Unsigned64(x: int) {
    0 <= x < M64
  }

  predicate Signed64(x: int) {
    -H64 <= x < H64
  }

  predicate Signed128(x: int) {
    -H128 <= x < H128
  }

  /** Conversion to a 64-bit unsigned word. */
  function U64(x: int): (r: int)
    ensures Unsigned64(r)
  {
    x % M64
  }

  /** Conversion to a 64-bit signed word. */
  function S64(x: int): (r: int)
    ensures Signed64(r)
  {
    (x + H64) % M64 - H64
  }

  /** The 128-bit signed number congruent to x. */
  function Wrap(x: int): (r: int)
    ensures Signed128(r)
  {
    (x + H128) % M128 - H128
  }

  function Join(lo: int, hi: int): int {
    hi * M64 + lo
  }

  lemma JoinRange(lo: int, hi: int)
    requires Unsigned64(lo) && Signed64(hi)
    ensures Signed128(Join(lo, hi))
  {
  }

  lemma S64By(x: int) returns (k: int)
    ensures S64(x) == x + k * M64
  {
    k := -((x + H64) / M64);
  }

  lemma U64By(x: int) returns (k: int)
    ensures U64(x) == x + k * M64
  {
    k := -(x / M64);
  }

  lemma S64U64(x: int)
    ensures U64(S64(x)) == U64(x)
  {
  }

  lemma WrapBy(x: int) returns (k: int)
    ensures Wrap(x) == x + k * M128
  {
    k := -((x + H128) / M128);
  }

  lemma WrapIs(v: int, x: int, k: int)
    requires Signed128(v) && v == x + k * M128
    ensures Wrap(x) == v
  {
    var d := (x + H128) / M128;
    assert x + H128 == d * M128 + (x + H128) % M128;
  }

  lemma WrapShift(x: int, y: int, k: int)
    requires x == y + k * M128
    ensures Wrap(x) == Wrap(y)
  {
    var j := WrapBy(x);
    WrapIs(Wrap(x), y, k + j);
  }

  lemma WrapTimes(a: int, b: int)
    ensures Wrap(Wrap(a) * b) == Wrap(a * b)
  {
    var k := WrapBy(a);
    assert (a + k * M128) * b == a * b + (k * b) * M128;
    WrapShift(Wrap(a) * b, a * b, k * b);
  }

  lemma WrapPlus(a: int, b: int)
    ensures Wrap(Wrap(a) + b) == Wrap(a + b)
  {
    var k := WrapBy(a);
    WrapShift(Wrap(a) + b, a + b, k);
  }

  lemma WrapSmall(x: int)
    requires Signed128(x)
    ensures Wrap(x) == x
  {
    WrapIs(x, x, 0);
  }

  /** Any high word congruent to the right one gives the right wrapped number. */
  lemma JoinWraps(lo: int, hi: int, x: int, k: int)
    requires Unsigned64(lo) && x == Join(lo, hi) + k * M128
    ensures Join(lo, S64(hi)) == Wrap(x)
  {
    var j := S64By(hi);
    assert (hi + j * M64) * M64 == hi * M64 + j * M128;
    JoinRange(lo, S64(hi));
    WrapIs(Join(lo, S64(hi)), x, j - k);
  }

  lemma Pow2Word()
    ensures Pow2(64) == M64
  {
    assert Pow2(4) == 16;
    Pow2Adds(4, 4);
    Pow2Adds(8, 8);
    Pow2Adds(16, 16);
    Pow2Adds(32, 32);
  }

  lemma Pow2Words()
    ensures Pow2(64) == M64 && Pow2(128) == M128
  {
    Pow2Word();
    Pow2Adds(64, 64);
  }

  lemma Pow2Halves()
    ensures Pow2(63) == H64 && Pow2(127) == H128
  {
    Pow2Words();
    Pow2Adds(1, 63);
    Pow2Adds(1, 127);
    assert Pow2(1) == 2;
  }

  /** The carry out of the low words shows as a sum below either of them. */
  lemma AddWords(lo: int, hi: int, lo': int, hi': int)
    requires Unsigned64(lo) && Unsigned64(lo') && Signed64(hi) && Signed64(hi')
    ensures var low := U64(lo + lo');
      var high := S64(hi + hi');
      Join(low, if low < lo then S64(high + 1) else high) == Wrap(Join(lo, hi) + Join(lo', hi'))
  {
    var low := U64(lo + lo');
    var j := S64By(hi + hi');
    var high := S64(hi + hi');
    if low < lo {
      assert low == lo + lo' - M64;
      var i := S64By(high + 1);
      JoinRange(low, S64(high + 1));
      WrapIs(Join(low, S64(high + 1)), Join(lo, hi) + Join(lo', hi'), i + j);
    } else {
      assert low == lo + lo';
      JoinRange(low, high);
      WrapIs(Join(low, high), Join(lo, hi) + Join(lo', hi'), j);
    }
  }

  lemma NegateWords(lo: int, hi: int)
    requires Unsigned64(lo) && Signed64(hi)
    ensures lo == 0 ==> Join(0, S64(-hi)) == Wrap(-Join(lo, hi))
    ensures lo != 0 ==> Join(U64(-lo), -1 - hi) == Wrap(-Join(lo, hi)) && Signed64(-1 - hi)
  {
    if lo == 0 {
      JoinWraps(0, -hi, -Join(lo, hi), 0);
    } else {
      assert U64(-lo) == M64 - lo;
      WrapSmall(-Join(lo, hi));
    }
  }

  // ------------------------------------------------------------------ order

  function LessWords(lo: int, hi: int, lo': int, hi': int): bool {
    if hi == hi' then
      if hi < 0 then S64(lo) < S64(lo') else lo < lo'
    else hi < hi'
  }

  /** The comparison is that of the numbers unless the high words are equal and negative and exactly
      one low word has its top bit set. */
  lemma LessExactIff(lo: int, hi: int, lo': int, hi': int)
    requires Unsigned64(lo) && Unsigned64(lo') && Signed64(hi) && Signed64(hi')
    ensures LessWords(lo, hi, lo', hi') == (Join(lo, hi) < Join(lo', hi'))
      <==> !(hi == hi' && hi < 0 && (lo < H64) != (lo' < H64))
  {
    assert S64(lo) == if lo < H64 then lo else lo - M64;
    assert S64(lo') == if lo' < H64 then lo' else lo' - M64;
  }

  // ------------------------------------------------------------------ shifts

  /** Quotient and remainder as numbers with a product, kept away from the solver's division. */
  lemma Divide(x: int, d: int) returns (q: int, r: int)
    requires d > 0
    ensures q == x / d && r == x % d && x == q * d + r && 0 <= r < d
  {
    q, r := x / d, x % d;
  }

  lemma DivideTwice(x: int, m: nat, n: nat)
    ensures x / Pow2(m + n) == x / Pow2(m) / Pow2(n)
  {
    var a, b := Pow2(m), Pow2(n);
    var y, r := Divide(x, a);
    var z, s := Divide(y, b);
    Nested(z, b, s, a, r);
    Pow2Adds(m, n);
    Quotient(x, a * b, z, s * a + r);
  }

  lemma Nested(z: int, b: int, s: int, a: int, r: int)
    requires 0 <= s < b && 0 <= r < a
    ensures (z * b + s) * a + r == z * (a * b) + (s * a + r)
    ensures 0 <= s * a + r < a * b
  {
    assert (z * b) * a == z * (a * b);
    assert (z * b + s) * a == (z * b) * a + s * a;
    TimesGrows(s + 1, b, a);
    TimesGrows(0, s, a);
  }

  lemma Pow2Split(n: nat)
    requires n <= 64
    ensures Pow2(n) * Pow2(64 - n) == M64
  {
    Pow2Word();
    Pow2Adds(n, 64 - n);
  }

  lemma LowBits(hi: int, n: nat)
    requires n <= 64
    ensures U64(hi) % Pow2(n) == hi % Pow2(n)
  {
    var p, q := Pow2(n), Pow2(64 - n);
    Pow2Split(n);
    var k := U64By(hi);
    var h, r := Divide(hi, p);
    AddMultiple(h, p, r, k, q);
    Quotient(U64(hi), p, h + k * q, r);
  }

  lemma AddMultiple(h: int, p: int, r: int, k: int, q: int)
    ensures (h * p + r) + k * (p * q) == (h + k * q) * p + r
  {
    assert k * (p * q) == (k * q) * p;
  }

  lemma QuotientBelow(x: int, p: int, q: int)
    requires p > 0 && 0 <= x < p * q
    ensures 0 <= x / p < q
  {
    var y, r := Divide(x, p);
    if y >= q { TimesGrows(q, y, p); }
    if y < 0 { TimesGrows(y, -1, p); }
  }

  lemma MultipleOf(x: int, n: nat)
    ensures x * Pow2(n) % Pow2(n) == 0 && x * Pow2(n) / Pow2(n) == x
  {
    Quotient(x * Pow2(n), Pow2(n), x, 0);
  }

  lemma SignedQuotient(x: int, p: int)
    requires Signed64(x) && p >= 1
    ensures Signed64(x / p) && (x / p < 0 <==> x < 0)
  {
    var y, r := Divide(x, p);
    if y >= 0 { TimesAtLeast(y, p); } else { TimesAtLeast(-y, p); }
  }

  lemma TimesAtLeast(y: int, p: int)
    requires y >= 0 && p >= 1
    ensures y * p >= y && (-y) * p == -(y * p)
    ensures y >= 1 ==> y * p >= y + p - 1
  {
    if y >= 1 { TimesGrows(1, p, y - 1); }
    assert y * p == (y - 1) * p + p;
  }

  /** The low n bits of the high word, moved to the top of a word. */
  function Moved(hi: int, n: nat): int
    requires n < 64
  {
    U64(And(U64(hi), Pow2(n) - 1) * Pow2(64 - n))
  }

  lemma MovedIs(hi: int, n: nat)
    requires n < 64
    ensures Moved(hi, n) == hi % Pow2(n) * Pow2(64 - n)
    ensures 0 <= Moved(hi, n) <= M64 - Pow2(64 - n) && Moved(hi, n) % Pow2(64 - n) == 0
  {
    AndMask(U64(hi), n);
    LowBits(hi, n);
    var h, r := Divide(hi, Pow2(n));
    Pow2Split(n);
    MovedRange(r, Pow2(n), Pow2(64 - n));
    MultipleOf(r, 64 - n);
  }

  lemma MovedRange(r: int, p: int, q: int)
    requires 0 <= r < p && q > 0
    ensures 0 <= r * q <= p * q - q
  {
    TimesGrows(0, r, q);
    TimesGrows(r + 1, p, q);
  }

  lemma MovedOr(lo: int, hi: int, n: nat)
    requires Unsigned64(lo) && n < 64
    ensures 0 <= lo / Pow2(n) < Pow2(64 - n) && 0 <= Moved(hi, n)
    ensures Or(lo / Pow2(n), Moved(hi, n)) == lo / Pow2(n) + Moved(hi, n) < M64
  {
    Pow2Split(n);
    MovedIs(hi, n);
    QuotientBelow(lo, Pow2(n), Pow2(64 - n));
    OrDisjoint(lo / Pow2(n), Moved(hi, n), 64 - n);
  }

  /** Shifting right by less than a word: the low bits of the high word move into the low word. */
  lemma ShiftRightWords(lo: int, hi: int, n: nat)
    requires Unsigned64(lo) && Signed64(hi) && 0 < n < 64
    ensures 0 <= lo / Pow2(n) && Signed64(hi / Pow2(n)) && 0 <= Moved(hi, n)
    ensures Unsigned64(Or(lo / Pow2(n), Moved(hi, n)))
    ensures Join(Or(lo / Pow2(n), Moved(hi, n)), hi / Pow2(n)) == Join(lo, hi) / Pow2(n)
  {
    hide And, Or;
    var p, q := Pow2(n), Pow2(64 - n);
    Pow2Split(n);
    MovedIs(hi, n);
    MovedOr(lo, hi, n);
    var top, r := Divide(hi, p);
    var low, s := Divide(lo, p);
    Regroup(top, p, q, r, low, s);
    Quotient(Join(lo, hi), p, top * M64 + r * q + low, s);
    SignedQuotient(hi, p);
  }

  lemma Regroup(top: int, p: int, q: int, r: int, low: int, s: int)
    requires p * q == M64
    ensures (top * p + r) * M64 + (low * p + s) == (top * M64 + r * q + low) * p + s
  {
    assert (r * q) * p == r * (p * q);
    assert (top * p) * M64 == (top * M64) * p;
    assert (top * M64 + r * q + low) * p == (top * M64) * p + (r * q) * p + low * p;
  }

  /** Shifting right by a word or more leaves the sign in the high word. */
  lemma ShiftRightWord(lo: int, hi: int, n: nat)
    requires Unsigned64(lo) && Signed64(hi) && 64 <= n < 128
    ensures var low := U64(hi / Pow2(n - 64));
      Join(low, if hi < 0 then -1 else 0) == Join(lo, hi) / Pow2(n)
  {
    Pow2Word();
    DivideTwice(Join(lo, hi), 64, n - 64);
    Quotient(Join(lo, hi), M64, hi, lo);
    SignedQuotient(hi, Pow2(n - 64));
    SignExtended(hi / Pow2(n - 64));
  }

  lemma SignExtended(t: int)
    requires Signed64(t)
    ensures Join(U64(t), if t < 0 then -1 else 0) == t
  {
  }

  lemma ShiftRightAll(v: int, n: nat)
    requires Signed128(v) && n >= 128
    ensures v / Pow2(n) == if v < 0 then -1 else 0
  {
    Pow2Words();
    if n > 128 { Pow2Grows(128, n); }
    var p := Pow2(n);
    Quotient(v, p, if v < 0 then -1 else 0, if v < 0 then v + p else v);
  }

  /** The mask of the top n bits of a word. */
  function TopMask(n: nat): (m: int)
    requires 0 < n < 64
    ensures 0 <= m < M64
  {
    Pow2Word();
    Pow2Grows(64 - n, 64);
    M64 - 1 - (Pow2(64 - n) - 1)
  }

  /** Shifting left by less than a word: the high bits of the low word move into the high word. */
  lemma ShiftLeftWords(lo: int, hi: int, n: nat)
    requires Unsigned64(lo) && Signed64(hi) && 0 < n < 64
    ensures var moved := And(lo, TopMask(n)) / Pow2(64 - n);
      && 0 <= moved
      && Join(U64(lo * Pow2(n)), S64(Or(U64(hi * Pow2(n)), moved))) == Wrap(Join(lo, hi) * Pow2(n))
  {
    var p, q := Pow2(n), Pow2(64 - n);
    Pow2Split(n);
    TopBits(lo, n);
    TopBelow(lo, n);
    var top, r := Divide(lo, q);
    var up := U64(hi * p);
    var k := U64By(hi * p);
    AddMultiple(hi, p, 0, k, q);
    MultipleOf(hi + k * q, n);
    assert up == (hi + k * q) * p;
    OrDisjoint(top, up, n);
    LowLeft(top, q, r, p);
    LeftJoin(hi, p, top, lo, r * p);
    JoinWraps(r * p, up + top, Join(lo, hi) * p, -k);
  }

  lemma TopBits(lo: int, n: nat)
    requires Unsigned64(lo) && 0 < n < 64
    ensures And(lo, TopMask(n)) / Pow2(64 - n) == lo / Pow2(64 - n)
  {
    hide *;
    TopSelect(lo, n, 64);
    Cleared(lo, Pow2(64 - n));
  }

  lemma TopBelow(lo: int, n: nat)
    requires Unsigned64(lo) && 0 < n < 64
    ensures 0 <= lo / Pow2(64 - n) < Pow2(n)
  {
    Pow2Split(n);
    QuotientBelow(lo, Pow2(64 - n), Pow2(n));
  }

  lemma Cleared(x: int, d: int)
    requires d > 0
    ensures (x - x % d) / d == x / d
  {
    var q, r := Divide(x, d);
    Quotient(x - r, d, q, 0);
  }

  lemma TopSelect(lo: int, n: nat, w: nat)
    requires Unsigned64(lo) && 0 < n < w == 64
    ensures And(lo, TopMask(n)) == lo - lo % Pow2(w - n)
  {
    WordPower(w);
    HighBits(lo, w - n, w, TopMask(n));
  }

  lemma WordPower(w: nat)
    requires w == 64
    ensures Pow2(w) == M64
  {
    Pow2Word();
  }

  lemma LowLeft(top: int, q: int, r: int, p: int)
    requires p * q == M64 && 0 <= r < q && p > 0
    ensures (top * q + r) * p == top * M64 + r * p
    ensures 0 <= r * p < M64 && U64((top * q + r) * p) == r * p
  {
    assert (top * q) * p == top * (p * q);
    assert (top * q + r) * p == (top * q) * p + r * p;
    TimesGrows(0, r, p);
    TimesGrows(r + 1, q, p);
    Quotient((top * q + r) * p, M64, top, r * p);
  }

  lemma LeftJoin(hi: int, p: int, top: int, lo: int, low: int)
    requires lo * p == top * M64 + low
    ensures Join(lo, hi) * p == Join(low, hi * p + top)
  {
    assert (hi * M64 + lo) * p == (hi * p) * M64 + lo * p;
  }

  /** Shifting left by a word or more empties the low word. */
  lemma ShiftLeftWord(lo: int, hi: int, n: nat)
    requires Unsigned64(lo) && Signed64(hi) && 64 <= n < 128
    ensures Join(0, S64(U64(lo * Pow2(n - 64)))) == Wrap(Join(lo, hi) * Pow2(n))
  {
    var p := Pow2(n - 64);
    Pow2Word();
    Pow2Adds(64, n - 64);
    var k := U64By(lo * p);
    LeftJoinWord(hi, lo, p);
    JoinWraps(0, U64(lo * p), Join(lo, hi) * Pow2(n), hi * p - k);
  }

  lemma LeftJoinWord(hi: int, lo: int, p: int)
    ensures Join(lo, hi) * (M64 * p) == Join(0, lo * p) + (hi * p) * M128
  {
    assert (hi * M64) * (M64 * p) == (hi * p) * M128;
    assert lo * (M64 * p) == (lo * p) * M64;
    assert (hi * M64 + lo) * (M64 * p) == (hi * M64) * (M64 * p) + lo * (M64 * p);
  }

  lemma ShiftLeftAll(v: int, n: nat)
    requires n >= 128
    ensures Wrap(v * Pow2(n)) == 0
  {
    Pow2Words();
    Pow2Adds(128, n - 128);
    var p := Pow2(n - 128);
    assert v * (M128 * p) == (v * p) * M128;
    WrapIs(0, v * Pow2(n), -(v * p));
  }
}

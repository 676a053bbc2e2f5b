/** The 128-bit signed integer, updated in place. */
module Int128 {
  import opened Bits
  import opened Words
  import opened LongDivision

  class Int128 {
    var lo: int
    var hi: int

    ghost predicate Valid()
      reads this
    {
      Unsigned64(lo) && Signed64(hi)
    }

    ghost function Value(): int
      reads this
    {
      Join(lo, hi)
    }

    constructor Words(lo: int, hi: int)
      requires Unsigned64(lo) && Signed64(hi)
      ensures this.lo == lo && this.hi == hi
    {
      this.lo, this.hi := lo, hi;
    }

    constructor Copy(a: Int128)
      requires a.Valid()
      ensures Valid() && Value() == a.Value() && lo == a.lo && hi == a.hi
    {
      lo, hi := a.lo, a.hi;
    }

    /** From a signed or unsigned machine word. */
    constructor FromWord(a: int)
      requires -H64 <= a < M64
      ensures Valid() && Value() == a
    {
      lo, hi := U64(a), if a < 0 then -1 else 0;
    }

    /** Assignment of a machine word, which does not extend the sign. */
    method Assign(a: int)
      requires -H64 <= a < M64
      modifies this
      ensures Valid() && (Value() == a <==> a >= 0)
    {
      lo, hi := U64(a), 0;
    }

    predicate IsZero()
      requires Valid()
      reads this
      ensures IsZero() <==> Value() == 0
    {
      !(hi != 0 || lo != 0)
    }

    /** operator<, which is the order of the numbers except where `LessExactIff` says. */
    predicate Less(b: Int128)
      requires Valid() && b.Valid()
      reads this, b
      ensures hi != b.hi || hi >= 0 ==> (Less(b) <==> Value() < b.Value())
    {
      LessExactIff(lo, hi, b.lo, b.hi);
      LessWords(lo, hi, b.lo, b.hi)
    }

    method Negated() returns (r: Int128)
      requires Valid()
      ensures fresh(r) && r.Valid() && r.Value() == Wrap(-Value())
    {
      NegateWords(lo, hi);
      if lo == 0 {
        r := new Int128.Words(0, S64(-hi));
      } else {
        r := new Int128.Words(U64(-lo), -1 - hi);
      }
    }

    method Increment()
      requires Valid()
      modifies this
      ensures Valid() && Value() == Wrap(old(Value()) + 1)
    {
      AddWords(lo, hi, 1, 0);
      ghost var hi0 := hi;
      lo := U64(lo + 1);
      if lo == 0 {
        hi := S64(hi + 1);
      }
      assert S64(hi0) == hi0;
    }

    method Decrement()
      requires Valid()
      modifies this
      ensures Valid() && Value() == Wrap(old(Value()) - 1)
    {
      if lo == 0 {
        ghost var k := S64By(hi - 1);
        hi := S64(hi - 1);
        JoinRange(M64 - 1, hi);
        WrapIs(Join(M64 - 1, hi), old(Value()) - 1, k);
      } else {
        JoinRange(lo - 1, hi);
        WrapSmall(Join(lo - 1, hi));
      }
      lo := U64(lo - 1);
    }

    /** b may be the number itself. */
    method AddAssign(b: Int128)
      requires Valid() && b.Valid()
      modifies this
      ensures Valid() && Value() == Wrap(old(Value()) + old(b.Value()))
    {
      AddWords(lo, hi, b.lo, b.hi);
      var oldLo := lo;
      var sumHi := S64(hi + b.hi);
      lo := U64(lo + b.lo);
      hi := sumHi;
      if lo < oldLo {
        hi := S64(hi + 1);
      }
    }

    method SubtractAssign(b: Int128)
      requires Valid() && b.Valid()
      modifies this
      ensures Valid() && Value() == Wrap(old(Value()) - old(b.Value()))
    {
      var minus := b.Negated();
      WrapPlus(-b.Value(), Value());
      AddAssign(minus);
    }

    method ShiftRightAssign(n: nat)
      requires Valid()
      modifies this
      ensures Valid() && Value() == old(Value()) / Pow2(n)
    {
      JoinRange(lo, hi);
      if n >= 128 {
        ShiftRightAll(Value(), n);
        hi := if hi < 0 then -1 else 0;
        lo := U64(hi);
      } else if n >= 64 {
        ShiftRightWord(lo, hi, n);
        lo := U64(hi / Pow2(n - 64));
        hi := if hi < 0 then -1 else 0;
      } else if n > 0 {
        ShiftRightWords(lo, hi, n);
        lo := lo / Pow2(n);
        lo := Or(lo, Moved(hi, n));
        hi := hi / Pow2(n);
      }
    }

    method ShiftLeftAssign(n: nat)
      requires Valid()
      modifies this
      ensures Valid() && Value() == Wrap(old(Value()) * Pow2(n))
    {
      JoinRange(lo, hi);
      if n >= 128 {
        ShiftLeftAll(Value(), n);
        lo, hi := 0, 0;
      } else if n >= 64 {
        ShiftLeftWord(lo, hi, n);
        hi := S64(U64(lo * Pow2(n - 64)));
        lo := 0;
      } else if n > 0 {
        ShiftLeftWords(lo, hi, n);
        hi := S64(hi * Pow2(n));
        S64U64(old(hi) * Pow2(n));
        hi := S64(Or(U64(hi), And(lo, TopMask(n)) / Pow2(64 - n)));
        lo := U64(lo * Pow2(n));
      } else {
        WrapSmall(Value());
      }
    }

    method MulAssign(b: Int128)
      requires Valid() && b.Valid()
      modifies this
      ensures Valid() && Value() == Wrap(old(Value()) * old(b.Value()))
    {
      ghost var av, bv := Value(), b.Value();
      JoinRange(lo, hi);
      if b.IsZero() {
        lo, hi := 0, 0;
        return;
      }
      if b.lo == 1 && b.hi == 0 {
        WrapSmall(av);
        return;
      }
      var a := new Int128.Copy(this);
      var t := new Int128.Copy(b);
      lo, hi := 0, 0;
      var i := 0;
      assert Pow2(0) == 1;
      while i < 128
        invariant 0 <= i <= 128 && Valid() && a.Valid() && t.Valid() && a.Value() == av
        invariant fresh(a) && fresh(t) && a != t
        invariant t.Value() == bv / Pow2(i)
        invariant Value() == Wrap(av * (bv % Pow2(i)))
      {
        MulRound(a, t, i, bv);
        i := i + 1;
      }
      Pow2Words();
      AllBits(av, bv);
    }

    /** Adds a, shifted, if the lowest bit of t is set, and shifts t. */
    method MulRound(a: Int128, t: Int128, i: nat, ghost bv: int)
      requires Valid() && a.Valid() && t.Valid() && a != this && t != this && a != t
      requires t.Value() == bv / Pow2(i) && Value() == Wrap(a.Value() * (bv % Pow2(i)))
      modifies this, t
      ensures Valid() && t.Valid()
      ensures t.Value() == bv / Pow2(i + 1) && Value() == Wrap(a.Value() * (bv % Pow2(i + 1)))
    {
      hide And, Or, Join, Wrap;
      ghost var av := a.Value();
      LowestBit(t.lo, t.hi);
      NextBit(bv, i);
      if And(t.lo, 1) != 0 {
        var shifted := new Int128.Copy(a);
        shifted.ShiftLeftAssign(i);
        AddAssign(shifted);
        AddShifted(av, bv % Pow2(i), Pow2(i));
      }
      t.ShiftRightAssign(1);
      assert Pow2(1) == 2;
    }

    predicate Bit(n: nat)
      requires Valid()
      reads this
      ensures n < 128 ==> (Bit(n) <==> Value() / Pow2(n) % 2 == 1)
    {
      if n < 128 then BitSetIs(lo, hi, n); BitSet(lo, hi, n) else BitSet(lo, hi, n)
    }

    /** bit(n, true) */
    method SetBit(n: nat)
      requires Valid()
      modifies this
      ensures Valid()
      ensures Value() == if n >= 128 then old(Value()) else WithBit(old(lo), old(hi), n)
    {
      if n >= 128 {
        return;
      }
      if n < 64 {
        SetLowBit(lo, hi, n);
        lo := Or(lo, Pow2(n));
      } else {
        SetHighBit(lo, hi, n);
        hi := S64(Or(U64(hi), Pow2(n - 64)));
      }
    }

    /** One step of long division in base two: the next lower digit of the dividend is put behind the digits of
        what is left so far. */
    method BringDown(dd: Int128, n: nat)
      requires Valid() && dd.Valid() && dd != this && n < 128
      requires 0 <= Value() && 2 * Value() + dd.Value() / Pow2(n) % 2 < H128
      modifies this
      ensures Valid() && Value() == 2 * old(Value()) + dd.Value() / Pow2(n) % 2
    {
      ghost var v := Value();
      assert Pow2(1) == 2;
      WrapSmall(2 * v);
      ShiftLeftAssign(1);
      if dd.Bit(n) {
        EvenLow(lo, hi, v);
        OrBit(lo, 0);
        assert Pow2(0) == 1 && lo / 1 == lo;
        lo := Or(lo, 1);
      }
    }

    /** Brings down the leading bits of dd until the divisor fits; the bit number is unsigned and wraps
        around to its greatest value if all bits are needed. */
    method Align(dd: Int128, ds: Int128) returns (r: Int128, b: nat)
      requires dd.Valid() && ds.Valid() && 0 < ds.Value() <= dd.Value()
      ensures fresh(r) && r.Valid() && b < 128
      ensures r.Value() == dd.Value() / Pow2(b) && ds.Value() <= r.Value() < 2 * ds.Value()
    {
      hide And, Or, Wrap, S64, U64, Dividing, Truncated;
      r := new Int128.Words(0, 0);
      b := 127;
      ghost var n := 127;
      JoinRange(dd.lo, dd.hi);
      Pow2Words();
      Quotient(dd.Value(), Pow2(128), 0, dd.Value());
      while r.Less(ds)
        invariant fresh(r) && r.Valid() && r.hi >= 0 && ds.Valid() && dd.Valid()
        invariant -1 <= n <= 127 && b == if n == -1 then MAX32 else n
        invariant r.Value() == dd.Value() / Pow2(n + 1) && r.Value() < 2 * ds.Value()
        invariant n == 127 ==> r.Value() < ds.Value()
        decreases n
      {
        assert Pow2(0) == 1;
        ShiftOnce(dd.Value(), n);
        BelowPower(dd.Value(), n);
        r.BringDown(dd, b);
        b := Decrement32(b);
        n := n - 1;
        NonNegative(r.lo, r.hi);
      }
      b := Increment32(b);
    }

    /** Shift and subtract, for a divisor not above the dividend.  The bit number is decremented once more
        after the last round, when it is not used any longer. */
    method DivMagnitudes(dd: Int128, ds: Int128) returns (q: Int128, r: Int128)
      requires dd.Valid() && ds.Valid() && 0 < ds.Value() <= dd.Value()
      ensures fresh(q) && fresh(r) && q.Valid() && r.Valid()
      ensures dd.Value() == q.Value() * ds.Value() + r.Value() && 0 <= r.Value() < ds.Value()
      ensures 0 <= q.Value() <= dd.Value()
    {
      hide And, Or, Pow2, Wrap, S64, U64, Truncated;
      var b;
      r, b := Align(dd, ds);
      q := new Int128.Words(0, 0);
      ghost var k := 0;
      StartDividing(dd.Value(), ds.Value(), b);
      JoinRange(dd.lo, dd.hi);
      while true
        invariant fresh(q) && fresh(r) && q != r && q.Valid() && r.Valid() && ds.Valid() && dd.Valid() && b < 128
        invariant Dividing(dd.Value(), ds.Value(), b, q.Value(), r.Value(), k)
        decreases b, r.Value()
      {
        NonNegative(r.lo, r.hi);
        NonNegative(ds.lo, ds.hi);
        if r.Less(ds) {
          if b == 0 {
            Divided(dd.Value(), ds.Value(), q.Value(), r.Value(), k);
            break;
          }
          NextDigit(dd.Value(), ds.Value(), b, q.Value(), r.Value(), k);
          b := b - 1;
          r.BringDown(dd, b);
          k := 2 * k;
        } else {
          SubtractDivisor(q, r, ds, b, dd.Value(), k);
          k := k + 1;
        }
      }
    }

    static method SubtractDivisor(q: Int128, r: Int128, ds: Int128, b: nat, ghost dd: int, ghost k: int)
      requires q.Valid() && r.Valid() && ds.Valid() && q != r && q != ds && r != ds && b < 128 && dd < H128
      requires Dividing(dd, ds.Value(), b, q.Value(), r.Value(), k) && ds.Value() <= r.Value()
      modifies q, r
      ensures q.Valid() && r.Valid() && r.Value() < old(r.Value())
      ensures Dividing(dd, ds.Value(), b, q.Value(), r.Value(), k + 1)
    {
      SetDigit(dd, ds.Value(), b, q.Value(), r.Value(), k);
      JoinRange(r.lo, r.hi);
      WrapSmall(r.Value() - ds.Value());
      r.SubtractAssign(ds);
      WrapSmall(q.Value() + Pow2(b));
      BitSetIs(q.lo, q.hi, b);
      q.SetBit(b);
    }

    /** Quotient and remainder; an unsigned bit number again counts down past zero. */
    method Div(divisor: Int128) returns (quotient: Int128, remainder: Int128)
      requires Valid() && divisor.Valid()
      requires divisor.Value() != 0 && divisor.Value() != -H128
      ensures quotient.Valid() && remainder.Valid()
      ensures Value() != -H128 ==> Truncated(Value(), divisor.Value(), quotient.Value(), remainder.Value())
      ensures Value() == -H128 ==> quotient.Value() == 0 && remainder.Value() == -H128
    {
      hide And, Or;
      var ds := Magnitude(divisor);
      var dd := Magnitude(this);
      if dd.Less(ds) {
        remainder := new Int128.Copy(this);
        quotient := new Int128.Words(0, 0);
        return;
      }
      quotient, remainder := DivMagnitudes(dd, ds);
      quotient, remainder := WithSigns(divisor, quotient, remainder);
    }

    /** The quotient is negative if exactly one of the numbers is, the remainder if this one is. */
    method WithSigns(divisor: Int128, q: Int128, r: Int128) returns (quotient: Int128, remainder: Int128)
      requires Valid() && divisor.Valid() && q.Valid() && r.Valid()
      requires Value() != -H128 && divisor.Value() != 0 && divisor.Value() != -H128
      requires Abs(Value()) == q.Value() * Abs(divisor.Value()) + r.Value()
      requires 0 <= r.Value() < Abs(divisor.Value()) && 0 <= q.Value() <= Abs(Value())
      ensures quotient.Valid() && remainder.Valid()
      ensures Truncated(Value(), divisor.Value(), quotient.Value(), remainder.Value())
    {
      Signs(Value(), divisor.Value(), q.Value(), r.Value());
      var zero := new Int128.Words(0, 0);
      quotient := WithSign(q, divisor.Less(zero) != Less(zero));
      remainder := WithSign(r, Less(zero));
    }
  }

  method WithSign(x: Int128, negative: bool) returns (y: Int128)
    requires x.Valid() && 0 <= x.Value() < H128
    ensures y.Valid() && y.Value() == if negative then -x.Value() else x.Value()
  {
    if negative {
      WrapSmall(-x.Value());
      y := x.Negated();
    } else {
      y := x;
    }
  }

  method Magnitude(a: Int128) returns (m: Int128)
    requires a.Valid()
    ensures m.Valid() && (a.Value() != -H128 ==> m.Value() == Abs(a.Value()) && m.hi >= 0)
    ensures a.Value() == -H128 ==> m.Value() == -H128
    ensures a.Value() < 0 ==> fresh(m)
    ensures a.Value() >= 0 ==> m == a
  {
    JoinRange(a.lo, a.hi);
    var zero := new Int128.Words(0, 0);
    if a.Less(zero) {
      m := a.Negated();
    } else {
      m := a;
    }
  }

  lemma NonNegative(lo: int, hi: int)
    requires Unsigned64(lo) && Signed64(hi)
    ensures Join(lo, hi) >= 0 <==> hi >= 0
  {
  }

  lemma LowestBit(lo: int, hi: int)
    requires Unsigned64(lo)
    ensures And(lo, 1) == Join(lo, hi) % 2
  {
    AndBit(lo, 0);
    assert Pow2(0) == 1;
    AddEven(lo, hi * H64);
    assert Join(lo, hi) == lo + 2 * (hi * H64);
  }

  lemma AddEven(x: int, k: int)
    ensures (x + 2 * k) % 2 == x % 2
  {
  }

  lemma NextBit(x: int, n: nat)
    ensures x / Pow2(n + 1) == x / Pow2(n) / 2
    ensures x % Pow2(n + 1) == x % Pow2(n) + (if x / Pow2(n) % 2 == 1 then Pow2(n) else 0)
  {
    var p := Pow2(n);
    var q, r := Divide(x, p);
    Halves(q / 2, q % 2, p);
    Quotient(x, 2 * p, q / 2, q % 2 * p + r);
  }

  lemma AddShifted(a: int, m: int, p: int)
    ensures Wrap(Wrap(a * m) + Wrap(a * p)) == Wrap(a * (m + p))
  {
    WrapPlus(a * m, Wrap(a * p));
    WrapPlus(a * p, a * m);
    assert a * (m + p) == a * m + a * p;
  }

  lemma AllBits(a: int, b: int)
    ensures Wrap(a * (b % M128)) == Wrap(a * b)
  {
    var k := b / M128;
    assert b % M128 == b - k * M128;
    assert a * (b - k * M128) == a * b + (-(a * k)) * M128;
    WrapShift(a * (b % M128), a * b, -(a * k));
  }

  lemma EvenLow(lo: int, hi: int, v: int)
    requires Unsigned64(lo) && Signed64(hi) && Join(lo, hi) == 2 * v
    ensures lo % 2 == 0 && lo + 1 < M64
  {
    assert lo == 2 * (v - hi * H64);
  }

  const MAX32 := 0xFFFF_FFFF

  /** Counting down and up on unsigned 32-bit numbers. */
  function Decrement32(b: nat): nat {
    if b == 0 then MAX32 else b - 1
  }

  function Increment32(b: nat): nat {
    if b == MAX32 then 0 else b + 1
  }
}

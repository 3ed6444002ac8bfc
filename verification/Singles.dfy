/**
 Reading a single-precision float: the double it is widened to stands for the same
 number, infinities and not-a-numbers included.
 */
module Singles {
  import opened Bytes
  import opened Msgpack

  /** The number a four-byte word stands for: sign, eight bits of exponent, 23 of fraction. */
  function SingleNumber(w: seq<Byte>): Number {
    var bits := Unsigned(w);
    var fraction, exponent, negative := bits % 0x80_0000, (bits / 0x80_0000) % 0x100, bits >= 0x8000_0000;
    SingleFields(negative, exponent, fraction)
  }

  /** A single from its fields. */
  function SingleFields(negative: bool, exponent: nat, fraction: nat): Number {
    if exponent == 0xFF then (if fraction == 0 then Infinite(negative) else NotANumber)
    else if exponent == 0 then Finite(Scaled(negative, fraction, -149))
    else Finite(Scaled(negative, 0x80_0000 + fraction, exponent - 150))
  }

  /** A double from its fields. */
  function DoubleFields(negative: bool, exponent: nat, fraction: nat): Number {
    if exponent == 0x7FF then (if fraction == 0 then Infinite(negative) else NotANumber)
    else if exponent == 0 then Finite(Scaled(negative, fraction, -1074))
    else Finite(Scaled(negative, 0x10_0000_0000_0000 + fraction, exponent - 1075))
  }

  // ------------------------------------------------------------------ powers of two

  lemma PowStep(e: int)
    ensures Pow2(e + 1) == 2.0 * Pow2(e)
  {
    if e < 0 { assert Pow2(e) == Pow2(e + 1) / 2.0; }
  }

  /** Shifting left and lowering the exponent by as much is no change. */
  lemma {:induction false} ShiftIsScale(negative: bool, n: nat, k: nat, e: int)
    ensures Scaled(negative, ShiftLeft(n, k), e) == Scaled(negative, n, e + k)
  {
    hide Scaled;
    if k > 0 {
      ShiftIsScale(negative, n, k - 1, e + 1);
      DoubleIsScale(negative, ShiftLeft(n, k - 1), e);
      assert e + 1 + (k - 1) == e + k;
    }
  }

  lemma DoubleIsScale(negative: bool, n: nat, e: int)
    ensures Scaled(negative, 2 * n, e) == Scaled(negative, n, e + 1)
  {
    PowStep(e);
    var sign, x, p := if negative then -1.0 else 1.0, n as real, Pow2(e);
    assert (2 * n) as real == 2.0 * x;
    hide Pow2;
    Regroup(sign, x, p);
  }

  lemma Regroup(sign: real, x: real, p: real)
    ensures sign * (2.0 * x) * p == sign * x * (2.0 * p)
  {
  }

  lemma {:induction false} ShiftBounds(n: nat, k: nat, low: nat, high: nat)
    requires low <= n < high
    ensures ShiftLeft(low, k) <= ShiftLeft(n, k) < ShiftLeft(high, k)
  {
    if k > 0 { ShiftBounds(n, k - 1, low, high); }
  }

  lemma {:induction false} ShiftTwice(n: nat, j: nat, k: nat)
    ensures ShiftLeft(ShiftLeft(n, j), k) == ShiftLeft(n, j + k)
  {
    if k > 0 { ShiftTwice(n, j, k - 1); }
  }

  /** The highest set bit bounds a number from both sides. */
  lemma {:induction false} Log2Bounds(n: nat)
    requires n > 0
    ensures ShiftLeft(1, Log2(n)) <= n < ShiftLeft(1, Log2(n) + 1)
  {
    if n > 1 { Log2Bounds(n / 2); }
  }

  lemma Shift29(n: nat)
    ensures ShiftLeft(n, 29) == 0x2000_0000 * n
  {
    ShiftOnce(n, 10);
    ShiftOnce(ShiftLeft(n, 10), 10);
    ShiftTwice(n, 10, 10);
    ShiftTwice(n, 20, 9);
    Shift9(ShiftLeft(n, 20));
  }

  lemma ShiftOnce(n: nat, k: nat)
    requires k == 10
    ensures ShiftLeft(n, k) == 0x400 * n
  {
    Shift9(n);
    assert ShiftLeft(n, 10) == 2 * ShiftLeft(n, 9);
  }

  lemma Shift9(n: nat)
    ensures ShiftLeft(n, 9) == 0x200 * n
  {
    assert ShiftLeft(n, 3) == 2 * ShiftLeft(n, 2) && ShiftLeft(n, 2) == 2 * ShiftLeft(n, 1) && ShiftLeft(n, 1) == 2 * n;
    assert ShiftLeft(n, 6) == 2 * ShiftLeft(n, 5) && ShiftLeft(n, 5) == 2 * ShiftLeft(n, 4)
      && ShiftLeft(n, 4) == 2 * ShiftLeft(n, 3);
    assert ShiftLeft(n, 9) == 2 * ShiftLeft(n, 8) && ShiftLeft(n, 8) == 2 * ShiftLeft(n, 7)
      && ShiftLeft(n, 7) == 2 * ShiftLeft(n, 6);
  }

  lemma Shift52And53()
    ensures ShiftLeft(1, 23) == 0x80_0000
    ensures ShiftLeft(1, 52) == 0x10_0000_0000_0000 && ShiftLeft(1, 53) == 0x20_0000_0000_0000
  {
    ShiftOnce(1, 10);
    ShiftOnce(0x400, 10);
    ShiftTwice(1, 10, 10);
    assert ShiftLeft(1, 20) == 0x10_0000;
    assert ShiftLeft(1, 23) == 2 * ShiftLeft(1, 22) && ShiftLeft(1, 22) == 2 * ShiftLeft(1, 21)
      && ShiftLeft(1, 21) == 2 * ShiftLeft(1, 20);
    Shift29(0x80_0000);
    ShiftTwice(1, 23, 29);
    assert ShiftLeft(1, 53) == 2 * ShiftLeft(1, 52);
  }

  // ----------------------------------------------------------------------- the fields

  /** A number below a power of two has its highest bit below the power's exponent. */
  lemma Log2Below(n: nat)
    requires 0 < n < 0x80_0000
    ensures Log2(n) < 23
  {
    Log2Bounds(n);
    Shift52And53();
    if Log2(n) >= 23 { ShiftGrows(23, Log2(n)); }
  }

  lemma {:induction false} ShiftGrows(j: nat, k: nat)
    requires j <= k
    ensures ShiftLeft(1, j) <= ShiftLeft(1, k)
  {
    if j < k { ShiftGrows(j, k - 1); }
  }

  /** A subnormal single becomes a normal double: its fraction is shifted until the highest
      bit is the implicit one. */
  lemma SubnormalFields(fraction: nat)
    requires 0 < fraction < 0x80_0000
    ensures var l := Log2(fraction);
            && l < 23 && 0x10_0000_0000_0000 <= ShiftLeft(fraction, 52 - l) < 0x20_0000_0000_0000
            && 0x10_0000_0000_0000 + ShiftLeft(fraction, 52 - l) % 0x10_0000_0000_0000 == ShiftLeft(fraction, 52 - l)
  {
    var l := Log2(fraction);
    Log2Below(fraction);
    Log2Bounds(fraction);
    ShiftBounds(fraction, 52 - l, ShiftLeft(1, l), ShiftLeft(1, l + 1));
    ShiftTwice(1, l, 52 - l);
    ShiftTwice(1, l + 1, 52 - l);
    Shift52And53();
  }

  lemma WidenedFields(exponent: nat, fraction: nat)
    requires exponent < 0x100 && fraction < 0x80_0000
    ensures var (e, f) := WidenFields(exponent, fraction); e < 0x800 && f < 0x10_0000_0000_0000
  {
    Shift29(fraction);
    if exponent == 0 && fraction > 0 { Log2Below(fraction); }
  }

  /** The widened fields stand for the number the single's stood for. */
  lemma WidenedNumber(negative: bool, exponent: nat, fraction: nat)
    requires exponent < 0x100 && fraction < 0x80_0000
    ensures var (e, f) := WidenFields(exponent, fraction);
            DoubleFields(negative, e, f) == SingleFields(negative, exponent, fraction)
  {
    hide ShiftLeft, Log2, Scaled;
    if exponent == 0xFF {
      Shift29(fraction);
    } else if exponent > 0 {
      NormalNumber(negative, exponent, fraction);
    } else if fraction > 0 {
      SubnormalNumber(negative, fraction);
    } else {
      ZeroNumber(negative);
    }
  }

  lemma ZeroNumber(negative: bool)
    ensures Scaled(negative, 0, -1074) == Scaled(negative, 0, -149)
  {
    hide Pow2;
  }

  lemma NormalNumber(negative: bool, exponent: nat, fraction: nat)
    requires 0 < exponent < 0xFF && fraction < 0x80_0000
    ensures Scaled(negative, 0x10_0000_0000_0000 + ShiftLeft(fraction, 29), exponent + 896 - 1075)
         == Scaled(negative, 0x80_0000 + fraction, exponent - 150)
  {
    hide Scaled, ShiftLeft;
    var m := 0x80_0000 + fraction;
    Shift29(fraction);
    Shift29(m);
    ShiftIsScale(negative, m, 29, exponent - 179);
  }

  lemma SubnormalNumber(negative: bool, fraction: nat)
    requires 0 < fraction < 0x80_0000
    ensures var l := Log2(fraction);
            && l < 23
            && Scaled(negative, 0x10_0000_0000_0000 + ShiftLeft(fraction, 52 - l) % 0x10_0000_0000_0000, l + 874 - 1075)
            == Scaled(negative, fraction, -149)
  {
    hide Scaled, ShiftLeft, Log2;
    SubnormalFields(fraction);
    var l := Log2(fraction);
    ShiftIsScale(negative, fraction, 52 - l, l as int - 201);
  }

  /** A double put together from fields comes apart into them. */
  lemma FieldsComeApart(negative: bool, e: nat, f: nat)
    requires e < 0x800 && f < 0x10_0000_0000_0000
    ensures var bits := (if negative then 1 else 0) * 0x8000_0000_0000_0000 + e * 0x10_0000_0000_0000 + f;
            bits < Pow256(8) && FloatNumber(BigEndian(bits, 8)) == DoubleFields(negative, e, f)
  {
    var s := if negative then 1 else 0;
    var bits := s * 0x8000_0000_0000_0000 + e * 0x10_0000_0000_0000 + f;
    BitsComeApart(s, e, f);
    Powers();
    UnsignedOfBigEndian(bits, 8);
    hide Scaled, Pow256, Unsigned, BigEndian;
  }

  lemma BitsComeApart(s: nat, e: nat, f: nat)
    requires s <= 1 && e < 0x800 && f < 0x10_0000_0000_0000
    ensures var bits := s * 0x8000_0000_0000_0000 + e * 0x10_0000_0000_0000 + f;
            && bits < 0x1_0000_0000_0000_0000 && (bits >= 0x8000_0000_0000_0000 <==> s == 1)
            && bits % 0x10_0000_0000_0000 == f && (bits / 0x10_0000_0000_0000) % 0x800 == e
  {
    var bits, high := s * 0x8000_0000_0000_0000 + e * 0x10_0000_0000_0000 + f, s * 0x800 + e;
    assert bits == high * 0x10_0000_0000_0000 + f;
    assert bits / 0x10_0000_0000_0000 == high;
    assert high % 0x800 == e;
  }

  /** Widening a four-byte word keeps the number it stands for. */
  lemma WidenKeepsTheNumber(w: seq<Byte>)
    requires |w| == 4
    ensures FloatNumber(Widen(w)) == SingleNumber(w)
  {
    hide Scaled, Unsigned, BigEndian, WidenFields, Pow256, DoubleFields, FloatNumber, SingleFields;
    var bits := Unsigned(w);
    UnsignedBound(w);
    Powers();
    var exponent, fraction, negative := (bits / 0x80_0000) % 0x100, bits % 0x80_0000, bits >= 0x8000_0000;
    SignOf(bits);
    WidenedFields(exponent, fraction);
    WidenedNumber(negative, exponent, fraction);
    var (e, f) := WidenFields(exponent, fraction);
    FieldsComeApart(negative, e, f);
  }

  lemma SignOf(bits: nat)
    requires bits < 0x1_0000_0000
    ensures bits / 0x8000_0000 == if bits >= 0x8000_0000 then 1 else 0
  {
  }
}

/**
 BF16 rounding of 32-bit float patterns. A magnitude stands for its exact value
 times 2^149, a whole number; the pattern of infinity stands for 2^128, the value
 rounding overflows at (section 4.3.1 of IEEE 754-2019).
 */
module Bf16 {
  import opened Integers

  const SIGN: nat := 0x8000_0000
  const INFINITY: nat := 0x7F80_0000

  type bits32 = n: nat | n < U32_END
  type bits16 = n: nat | n < 0x1_0000

  predicate IsNaN(bits: bits32) {
    bits % SIGN > INFINITY
  }

  function SetQuiet(top: nat): nat {
    if top / 64 % 2 == 1 then top else top + 64
  }

  /** `bf16_bits`, on the pattern of the value. */
  function Bf16Bits(bits: bits32): bits16 {
    if IsNaN(bits) then SetQuiet(bits / 0x1_0000) % 0x1_0000
    else (bits + (0x7FFF + bits / 0x1_0000 % 2)) / 0x1_0000 % 0x1_0000
  }

  function Widen(top: bits16): bits32 {
    top * 0x1_0000
  }

  /** `snap_to_bf16`, on patterns. */
  function Snap(bits: bits32): bits32 {
    Widen(Bf16Bits(bits))
  }

  // ----- what a magnitude is worth

  const FRACTION: nat := 0x80_0000

  /** The exact value times 2^149: subnormal below the first power of two, then a
      leading one in front of the fraction, doubled with each exponent. */
  function Scaled(magnitude: nat): nat {
    var exponent, fraction := magnitude / FRACTION, magnitude % FRACTION;
    if exponent == 0 then fraction else (FRACTION + fraction) * Power2(exponent - 1)
  }

  /** What one step of the 32-bit pattern is worth among magnitudes that share the upper half `q`. */
  function Unit(q: nat): (u: nat)
    ensures u > 0
  {
    if q / 128 == 0 then 1 else Power2(q / 128 - 1)
  }

  /** What the BF16 magnitude `g` is worth. */
  function Grid(g: nat): nat {
    Scaled(g * 0x1_0000)
  }

  /** Within one upper half, values are evenly spaced. */
  lemma BlockIsLinear(q: nat, x: nat)
    requires x < 0x1_0000
    ensures Scaled(q * 0x1_0000 + x) == Grid(q) + x * Unit(q)
  {
    hide Power2;
    var e, f := q / 128, q % 128;
    assert q * 0x1_0000 == e * FRACTION + f * 0x1_0000;
    Parts(e, f * 0x1_0000 + x);
    Parts(e, f * 0x1_0000);
    if e > 0 {
      Distribute(FRACTION + f * 0x1_0000, x, Power2(e - 1));
    }
  }

  lemma Parts(e: nat, f: nat)
    requires f < FRACTION
    ensures (e * FRACTION + f) / FRACTION == e && (e * FRACTION + f) % FRACTION == f
  {
  }

  lemma Distribute(a: nat, b: nat, c: nat)
    ensures (a + b) * c == a * c + b * c
  {
  }

  /** The next grid value is one whole block further, across powers of two as well. */
  lemma GridStep(q: nat)
    ensures Grid(q + 1) == Grid(q) + 0x1_0000 * Unit(q)
  {
    var e, f := q / 128, q % 128;
    assert q * 0x1_0000 == e * FRACTION + f * 0x1_0000;
    Parts(e, f * 0x1_0000);
    if f < 127 {
      assert (q + 1) * 0x1_0000 == e * FRACTION + (f + 1) * 0x1_0000;
      Parts(e, (f + 1) * 0x1_0000);
      if e > 0 {
        Distribute(FRACTION + f * 0x1_0000, 0x1_0000, Power2(e - 1));
      }
    } else {
      assert (q + 1) * 0x1_0000 == (e + 1) * FRACTION + 0;
      Parts(e + 1, 0);
      if e > 0 {
        assert Power2(e) == 2 * Power2(e - 1);
      } else {
        assert Power2(0) == 1;
      }
    }
  }

  lemma {:induction false} GridIsMonotone(g: nat, h: nat)
    requires g <= h
    ensures Grid(g) <= Grid(h) && (g < h ==> Grid(g) < Grid(h))
    decreases h - g
  {
    hide Grid;
    if g < h {
      GridIsMonotone(g, h - 1);
      GridStep(h - 1);
    }
  }

  // ----- rounding

  /** The rounded magnitude. */
  function Rounded(magnitude: nat): nat {
    (magnitude + (0x7FFF + magnitude / 0x1_0000 % 2)) / 0x1_0000
  }

  /** Down below the middle of a block, up above it, to the even side in the middle. */
  lemma RoundsByHalves(q: nat, x: nat)
    requires x < 0x1_0000
    ensures Rounded(q * 0x1_0000 + x) == if x < 0x8000 || (x == 0x8000 && q % 2 == 0) then q else q + 1
  {
  }

  function Distance(a: nat, b: nat): nat {
    if a <= b then b - a else a - b
  }

  /** The upper half of a pattern, sign apart. */
  lemma UpperHalf(bits: bits32)
    ensures var sign: nat := if bits >= SIGN then 0x8000 else 0;
            && bits == (sign + bits % SIGN / 0x1_0000) * 0x1_0000 + bits % SIGN % 0x1_0000
            && bits / 0x1_0000 == sign + bits % SIGN / 0x1_0000
  {
  }

  /** The sign survives, the magnitude is rounded on its own and never leaves the 16 bits. */
  lemma SignAndMagnitude(bits: bits32)
    requires !IsNaN(bits)
    ensures Rounded(bits % SIGN) <= 0x7F80
    ensures Bf16Bits(bits) == (if bits >= SIGN then 0x8000 else 0) + Rounded(bits % SIGN)
  {
    var m := bits % SIGN;
    var q, x := m / 0x1_0000, m % 0x1_0000;
    var sign: nat := if bits >= SIGN then 0x8000 else 0;
    assert m == q * 0x1_0000 + x;
    UpperHalf(bits);
    RoundsByHalves(q, x);
    RoundsByHalves(sign + q, x);
    assert q < 0x7F80 || (q == 0x7F80 && x == 0);
    RoundedParts(bits);
  }

  lemma RoundedParts(bits: bits32)
    requires !IsNaN(bits)
    ensures Bf16Bits(bits) == Rounded(bits) % 0x1_0000
  {
  }

  /** Round to nearest, ties to even: no grid value is closer than the one chosen,
      and if another is as close, the chosen one is even. The error is at most half
      of the spacing of the grid there. */
  lemma RoundsToNearestEven(magnitude: nat, g: nat)
    requires magnitude <= INFINITY
    ensures var r, value := Rounded(magnitude), Scaled(magnitude);
            && Distance(value, Grid(r)) <= Distance(value, Grid(g))
            && (g != r && Distance(value, Grid(r)) == Distance(value, Grid(g)) ==> r % 2 == 0)
            && 2 * Distance(value, Grid(r)) <= 0x1_0000 * Unit(magnitude / 0x1_0000)
  {
    hide Grid, Scaled, Unit, Rounded;
    var q, x := magnitude / 0x1_0000, magnitude % 0x1_0000;
    assert magnitude == q * 0x1_0000 + x;
    RoundsByHalves(q, x);
    BlockIsLinear(q, x);
    GridStep(q);
    var u := Unit(q);
    if g <= q {
      GridIsMonotone(g, q);
    } else {
      GridIsMonotone(q + 1, g);
    }
    Spread(x, u);
  }

  lemma Spread(x: nat, u: nat)
    requires x < 0x1_0000 && u > 0
    ensures x * u + (0x1_0000 - x) * u == 0x1_0000 * u
    ensures x < 0x8000 ==> x * u < (0x1_0000 - x) * u
    ensures x == 0x8000 ==> x * u == (0x1_0000 - x) * u
    ensures x > 0x8000 ==> x * u > (0x1_0000 - x) * u
  {
  }

  /** Larger magnitudes never round to smaller ones. */
  lemma RoundingIsMonotone(m: nat, n: nat)
    requires m <= n
    ensures Rounded(m) <= Rounded(n)
  {
  }

  /** A value of the grid is stored as it is. */
  lemma GridValuesAreKept(top: bits16)
    ensures !IsNaN(Widen(top)) ==> Bf16Bits(Widen(top)) == top
    ensures IsNaN(Widen(top)) ==> Bf16Bits(Widen(top)) == SetQuiet(top)
  {
    assert Widen(top) / 0x1_0000 == top;
    assert Widen(top) == top * 0x1_0000 + 0;
    RoundsByHalves(top, 0);
    if IsNaN(Widen(top)) {
      QuietFits(top);
    }
  }

  lemma QuietFits(top: bits16)
    ensures SetQuiet(top) < 0x1_0000 && SetQuiet(SetQuiet(top)) == SetQuiet(top)
    ensures SetQuiet(top) / 64 % 2 == 1
    ensures SetQuiet(top) / 128 == top / 128
    ensures SetQuiet(top) == top || SetQuiet(top) == top + 64
  {
  }

  /** Not-a-number stays one, with its sign, and becomes quiet. */
  lemma NaNStaysQuietNaN(bits: bits32)
    requires IsNaN(bits)
    ensures IsNaN(Snap(bits)) && Bf16Bits(bits) == SetQuiet(bits / 0x1_0000) && Bf16Bits(bits) / 64 % 2 == 1
    ensures Snap(bits) >= SIGN <==> bits >= SIGN
    ensures Bf16Bits(bits) == bits / 0x1_0000 || Bf16Bits(bits) == bits / 0x1_0000 + 64
  {
    hide SetQuiet;
    var top := bits / 0x1_0000;
    QuietFits(top);
    UpperHalf(bits);
    QuietNaN(top, SetQuiet(top), if bits >= SIGN then 0x8000 else 0);
    UpperHalf(Snap(bits));
  }

  lemma QuietNaN(top: bits16, quiet: bits16, sign: nat)
    requires sign == 0 || sign == 0x8000
    requires sign + 0x7F80 <= top < sign + 0x8000
    requires quiet / 128 == top / 128 && quiet / 64 % 2 == 1
    ensures sign + 0x7F80 < quiet < sign + 0x8000
  {
  }

  /** Snapping once is snapping for good, so stored grid values survive the round trip. */
  lemma SnapIsIdempotent(bits: bits32)
    ensures Snap(Snap(bits)) == Snap(bits)
  {
    hide SetQuiet;
    GridValuesAreKept(Bf16Bits(bits));
    if IsNaN(bits) {
      NaNStaysQuietNaN(bits);
      QuietFits(bits / 0x1_0000);
    } else {
      SignAndMagnitude(bits);
      assert !IsNaN(Snap(bits));
    }
  }
}

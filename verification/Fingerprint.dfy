/**
 The two-lane content fingerprint: two 64-bit FNV-1a-style lanes, the second over
 the complement of each byte, written as 32 hexadecimal digits.
 */
module Fingerprint {
  import opened Integers
  import opened Sequences

  const LOW_START: u64 := 0xcbf2_9ce4_8422_2325
  const HIGH_START: u64 := 0x9dcf_1a8b_4c37_5f11
  const PRIME: nat := 0x0000_0100_0000_01b3

  /** The inverse of the multiplier modulo 2^64. */
  const PRIME_INVERSE: nat := 0xce96_5057_aff6_957b

  /** Exclusive or of the lowest `bits` bits. */
  function Xor(a: nat, b: nat, bits: nat): (r: nat)
    ensures r < Power2(bits)
  {
    if bits == 0 then 0 else 2 * Xor(a / 2, b / 2, bits - 1) + (a + b) % 2
  }

  lemma Halves(half: nat, bit: nat)
    requires bit < 2
    ensures (2 * half + bit) / 2 == half && (2 * half + bit) % 2 == bit
  {
  }

  lemma Parity(a: nat, b: nat)
    ensures (a + b) % 2 == if a % 2 == b % 2 then 0 else 1
  {
  }

  lemma {:induction false} XorTwice(a: nat, b: nat, bits: nat)
    requires a < Power2(bits)
    ensures Xor(Xor(a, b, bits), b, bits) == a
  {
    if bits > 0 {
      var x, half := Xor(a, b, bits), Xor(a / 2, b / 2, bits - 1);
      Halves(half, (a + b) % 2);
      XorTwice(a / 2, b / 2, bits - 1);
      Parity(a, b);
      Parity(x, b);
      assert Xor(x, b, bits) == 2 * Xor(x / 2, b / 2, bits - 1) + (x + b) % 2;
    }
  }

  lemma PowersOfTwo()
    ensures Power2(8) == 256
  {
  }

  function Complement(b: byte): byte {
    255 - b
  }

  /** `state ^ b`: a byte can only change the lowest eight bits of the state. */
  function XorByte(state: u64, b: byte): u64 {
    PowersOfTwo();
    state / 256 * 256 + Xor(state % 256, b, 8)
  }

  // ----- bit by bit

  function Bit(n: nat, k: nat): nat {
    n / Power2(k) % 2
  }

  lemma BitOfHalf(n: nat, k: nat)
    requires k > 0
    ensures Bit(n, k) == Bit(n / 2, k - 1)
  {
    var p := Power2(k - 1);
    assert Power2(k) == 2 * p;
    DivideTwice(n, p);
  }

  lemma DivideTwice(n: nat, p: nat)
    requires p > 0
    ensures n / (2 * p) == n / 2 / p
  {
    var q, r := n / 2 / p, n / 2 % p;
    assert n / 2 == q * p + r;
    assert n == q * (2 * p) + (2 * r + n % 2);
    QuotientIs(n, 2 * p, q, 2 * r + n % 2);
  }

  lemma QuotientIs(n: nat, d: nat, q: nat, r: nat)
    requires r < d && n == q * d + r
    ensures n / d == q
  {
    var difference := n / d - q;
    assert difference * d == r - n % d;
    NoMultipleBetween(difference, d);
  }

  lemma NoMultipleBetween(m: int, d: nat)
    requires m * d < d && m * d + d > 0
    ensures m == 0
  {
  }

  /** Exclusive or is what it says, bit by bit. */
  lemma {:induction false} XorIsBitwise(a: nat, b: nat, bits: nat, k: nat)
    ensures Bit(Xor(a, b, bits), k) == if k < bits && Bit(a, k) != Bit(b, k) then 1 else 0
    decreases bits
  {
    if bits == 0 {
      ZeroHasNoBits(k);
    } else {
      var half := Xor(a / 2, b / 2, bits - 1);
      Halves(half, (a + b) % 2);
      if k == 0 {
        Parity(a, b);
        assert Power2(0) == 1;
      } else {
        XorIsBitwise(a / 2, b / 2, bits - 1, k - 1);
        BitOfHalf(Xor(a, b, bits), k);
        BitOfHalf(a, k);
        BitOfHalf(b, k);
      }
    }
  }

  lemma ZeroHasNoBits(k: nat)
    ensures Bit(0, k) == 0
  {
  }

  /** The complement of a byte has each of its eight bits the other way round. */
  lemma ComplementFlipsEveryBit(b: byte, k: nat)
    requires k < 8
    ensures Bit(Complement(b), k) == 1 - Bit(b, k)
  {
    assert Power2(0) == 1 && Power2(1) == 2 && Power2(2) == 4 && Power2(3) == 8;
    assert Power2(4) == 16 && Power2(5) == 32 && Power2(6) == 64 && Power2(7) == 128;
    if k == 0 { Flips(b, 1); }
    else if k == 1 { Flips(b, 2); }
    else if k == 2 { Flips(b, 4); }
    else if k == 3 { Flips(b, 8); }
    else if k == 4 { Flips(b, 16); }
    else if k == 5 { Flips(b, 32); }
    else if k == 6 { Flips(b, 64); }
    else { Flips(b, 128); }
  }

  lemma Flips(b: byte, p: nat)
    requires p == 1 || p == 2 || p == 4 || p == 8 || p == 16 || p == 32 || p == 64 || p == 128
    ensures (255 - b) / p % 2 == 1 - b / p % 2
  {
  }

  /** A byte reaches the lowest eight bits of the state only, there by exclusive or. */
  lemma BytesReachTheLowestBits(state: u64, b: byte)
    ensures XorByte(state, b) / 256 == state / 256
    ensures XorByte(state, b) % 256 == Xor(state % 256, b, 8)
  {
    hide Xor;
    PowersOfTwo();
  }

  /** One byte through one lane: exclusive or, then a wrapping multiplication. */
  function Mix(state: u64, b: byte): u64 {
    XorByte(state, b) * PRIME % U64_END
  }

  /** The inverse of `Mix` for a given byte. */
  function Unmix(state: u64, b: byte): u64 {
    XorByte(state * PRIME_INVERSE % U64_END, b)
  }

  lemma XorByteUndoes(state: u64, b: byte)
    ensures XorByte(XorByte(state, b), b) == state
  {
    hide Xor;
    PowersOfTwo();
    var low := state % 256;
    XorTwice(low, b, 8);
    var mixed := Xor(low, b, 8);
    assert (state / 256 * 256 + mixed) / 256 == state / 256;
    assert (state / 256 * 256 + mixed) % 256 == mixed;
  }

  lemma ModuloOf(x: u64, k: int)
    ensures (x + U64_END * k) % U64_END == x
  {
  }

  lemma MultiplierIsInvertible(x: u64)
    ensures x * PRIME % U64_END * PRIME_INVERSE % U64_END == x
    ensures x * PRIME_INVERSE % U64_END * PRIME % U64_END == x
  {
    var excess := (PRIME * PRIME_INVERSE - 1) / U64_END;
    assert PRIME * PRIME_INVERSE == 1 + U64_END * excess;
    var q := x * PRIME / U64_END;
    var r := x * PRIME % U64_END;
    assert r == x * PRIME - U64_END * q;
    assert r * PRIME_INVERSE == x + U64_END * (x * excess - q * PRIME_INVERSE);
    ModuloOf(x, x * excess - q * PRIME_INVERSE);
    var p := x * PRIME_INVERSE / U64_END;
    var s := x * PRIME_INVERSE % U64_END;
    assert s == x * PRIME_INVERSE - U64_END * p;
    assert s * PRIME == x + U64_END * (x * excess - p * PRIME);
    ModuloOf(x, x * excess - p * PRIME);
  }

  /** For every byte, mixing it in is a bijection of the 64-bit state. */
  lemma MixIsABijection(state: u64, b: byte)
    ensures Unmix(Mix(state, b), b) == state
    ensures Mix(Unmix(state, b), b) == state
  {
    hide XorByte;
    MultiplierIsInvertible(XorByte(state, b));
    XorByteUndoes(state, b);
    MultiplierIsInvertible(state);
    XorByteUndoes(state * PRIME_INVERSE % U64_END, b);
  }

  /** Two different bytes never mix the same state to the same state. */
  lemma MixSeparatesBytes(state: u64, a: byte, b: byte)
    requires Mix(state, a) == Mix(state, b)
    ensures a == b
  {
    hide XorByte;
    MultiplierIsInvertible(XorByte(state, a));
    MultiplierIsInvertible(XorByte(state, b));
    assert XorByte(state, a) == XorByte(state, b);
    XorSeparates(state, a, b);
  }

  lemma XorSeparates(state: u64, a: byte, b: byte)
    requires XorByte(state, a) == XorByte(state, b)
    ensures a == b
  {
    hide Xor;
    PowersOfTwo();
    var low := state % 256;
    XorIsSymmetric(low, a, 8);
    XorIsSymmetric(low, b, 8);
    XorTwice(a, low, 8);
    XorTwice(b, low, 8);
  }

  lemma {:induction false} XorIsSymmetric(a: nat, b: nat, bits: nat)
    ensures Xor(a, b, bits) == Xor(b, a, bits)
  {
    if bits > 0 {
      XorIsSymmetric(a / 2, b / 2, bits - 1);
    }
  }

  // ----- the lanes

  datatype Lanes = Lanes(low: u64, high: u64)

  const START := Lanes(LOW_START, HIGH_START)

  function MixBoth(lanes: Lanes, b: byte): Lanes {
    Lanes(Mix(lanes.low, b), Mix(lanes.high, Complement(b)))
  }

  function Absorb(lanes: Lanes, bytes: seq<byte>): Lanes
    decreases |bytes|
  {
    if bytes == [] then lanes
    else MixBoth(Absorb(lanes, bytes[..|bytes| - 1]), bytes[|bytes| - 1])
  }

  lemma {:induction false} AbsorbInPieces(lanes: Lanes, xs: seq<byte>, ys: seq<byte>)
    ensures Absorb(lanes, xs + ys) == Absorb(Absorb(lanes, xs), ys)
    decreases |ys|
  {
    hide MixBoth;
    if ys == [] {
      assert xs + ys == xs;
    } else {
      var front := ys[..|ys| - 1];
      AbsorbInPieces(lanes, xs, front);
      assert (xs + ys)[..|xs + ys| - 1] == xs + front;
    }
  }

  /** Equal bytes keep two different states apart, in either lane. */
  function Complements(bytes: seq<byte>): (r: seq<byte>)
    ensures |r| == |bytes|
  {
    seq(|bytes|, i requires 0 <= i < |bytes| => Complement(bytes[i]))
  }

  /** The second lane is the first lane's rule over the complement of each byte, and the
      lanes never mix. */
  lemma {:induction false} SecondLaneReadsComplements(lanes: Lanes, bytes: seq<byte>, other: u64)
    ensures Absorb(lanes, bytes).high == Absorb(Lanes(lanes.high, other), Complements(bytes)).low
    decreases |bytes|
  {
    if bytes != [] {
      var front := bytes[..|bytes| - 1];
      SecondLaneReadsComplements(lanes, front, other);
      assert Complements(bytes)[..|bytes| - 1] == Complements(front);
      hide Mix;
    }
  }

  lemma {:induction false} AbsorbIsInjective(a: Lanes, b: Lanes, bytes: seq<byte>)
    ensures Absorb(a, bytes).low == Absorb(b, bytes).low ==> a.low == b.low
    ensures Absorb(a, bytes).high == Absorb(b, bytes).high ==> a.high == b.high
    decreases |bytes|
  {
    hide Mix, Unmix;
    if bytes != [] {
      var front, last := bytes[..|bytes| - 1], bytes[|bytes| - 1];
      AbsorbIsInjective(a, b, front);
      MixIsABijection(Absorb(a, front).low, last);
      MixIsABijection(Absorb(b, front).low, last);
      MixIsABijection(Absorb(a, front).high, Complement(last));
      MixIsABijection(Absorb(b, front).high, Complement(last));
    }
  }

  /** Inputs that differ in a single byte differ in both lanes at the end. */
  lemma OneByteChangesBothLanes(before: seq<byte>, a: byte, b: byte, after: seq<byte>)
    requires a != b
    ensures Absorb(START, before + [a] + after).low != Absorb(START, before + [b] + after).low
    ensures Absorb(START, before + [a] + after).high != Absorb(START, before + [b] + after).high
  {
    hide Mix;
    var lanes := Absorb(START, before);
    AbsorbInPieces(START, before, [a]);
    AbsorbInPieces(START, before, [b]);
    assert [a][..0] == [] && [b][..0] == [];
    AbsorbInPieces(START, before + [a], after);
    AbsorbInPieces(START, before + [b], after);
    if Mix(lanes.low, a) == Mix(lanes.low, b) {
      MixSeparatesBytes(lanes.low, a, b);
    }
    if Mix(lanes.high, Complement(a)) == Mix(lanes.high, Complement(b)) {
      MixSeparatesBytes(lanes.high, Complement(a), Complement(b));
    }
    AbsorbIsInjective(MixBoth(lanes, a), MixBoth(lanes, b), after);
  }

  // ----- the printed form

  function HexDigit(n: nat): char
    requires n < 16
  {
    if n < 10 then '0' + n as char else 'a' + (n - 10) as char
  }

  /** `n` modulo 16^width, zero-padded to `width` digits. */
  function Hex(n: nat, width: nat): (s: string)
    ensures |s| == width
  {
    if width == 0 then "" else Hex(n / 16, width - 1) + [HexDigit(n % 16)]
  }

  function Power16(width: nat): (p: nat)
    ensures p > 0
  {
    if width == 0 then 1 else 16 * Power16(width - 1)
  }

  /** The value of a lower-case hexadecimal number; other characters count nothing. */
  function HexValue(s: string): nat {
    if s == "" then 0
    else
      var c := s[|s| - 1];
      16 * HexValue(s[..|s| - 1]) +
      if '0' <= c <= '9' then c as int - '0' as int
      else if 'a' <= c <= 'f' then c as int - 'a' as int + 10
      else 0
  }

  /** The digits of a lane are its hexadecimal number, highest digit first. */
  lemma {:induction false} HexReadsBack(n: nat, width: nat)
    requires n < Power16(width)
    ensures HexValue(Hex(n, width)) == n
  {
    if width > 0 {
      HexReadsBack(n / 16, width - 1);
      var s := Hex(n, width);
      assert s[..|s| - 1] == Hex(n / 16, width - 1);
      assert s[|s| - 1] == HexDigit(n % 16);
    }
  }

  lemma {:induction false} HexIsInjective(m: nat, n: nat, width: nat)
    requires m < Power16(width) && n < Power16(width) && Hex(m, width) == Hex(n, width)
    ensures m == n
  {
    if width > 0 {
      var s, t := Hex(m, width), Hex(n, width);
      assert s[..width - 1] == Hex(m / 16, width - 1) && t[..width - 1] == Hex(n / 16, width - 1);
      assert s[width - 1] == HexDigit(m % 16) && t[width - 1] == HexDigit(n % 16);
      HexIsInjective(m / 16, n / 16, width - 1);
    }
  }

  function Finish(lanes: Lanes): string {
    Hex(lanes.low, 16) + Hex(lanes.high, 16)
  }

  lemma SixteenDigits()
    ensures Power16(16) == U64_END
  {
    assert Power16(4) == 0x1_0000;
    assert Power16(8) == 0x1_0000_0000;
    assert Power16(12) == 0x1_0000_0000_0000;
  }

  lemma FinishSpellsTheLanes(lanes: Lanes)
    ensures |Finish(lanes)| == 32
    ensures HexValue(Finish(lanes)[..16]) == lanes.low && HexValue(Finish(lanes)[16..]) == lanes.high
  {
    hide Hex, HexValue;
    SixteenDigits();
    HexReadsBack(lanes.low, 16);
    HexReadsBack(lanes.high, 16);
    assert Finish(lanes)[..16] == Hex(lanes.low, 16) && Finish(lanes)[16..] == Hex(lanes.high, 16);
  }

  lemma FinishIsInjective(a: Lanes, b: Lanes)
    requires Finish(a) == Finish(b)
    ensures a == b
  {
    hide Hex;
    assert Finish(a)[..16] == Hex(a.low, 16) && Finish(b)[..16] == Hex(b.low, 16);
    assert Finish(a)[16..] == Hex(a.high, 16) && Finish(b)[16..] == Hex(b.high, 16);
    SixteenDigits();
    HexIsInjective(a.low, b.low, 16);
    HexIsInjective(a.high, b.high, 16);
  }

  // ----- the streaming object

  class Fingerprinter {
    var low: u64
    var high: u64

    function State(): Lanes
      reads this
    {
      Lanes(low, high)
    }

    constructor ()
      ensures State() == START
    {
      low := LOW_START;
      high := HIGH_START;
    }

    method Update(bytes: seq<byte>)
      modifies this
      ensures State() == Absorb(old(State()), bytes)
    {
      for i := 0 to |bytes|
        invariant State() == Absorb(old(State()), bytes[..i])
      {
        assert bytes[..i + 1][..i] == bytes[..i];
        low := Mix(low, bytes[i]);
        high := Mix(high, Complement(bytes[i]));
      }
      assert bytes[..|bytes|] == bytes;
    }

    method Digest() returns (text: string)
      ensures text == Finish(State()) && |text| == 32
    {
      text := Finish(State());
    }
  }

  function FingerprintOf(bytes: seq<byte>): string {
    Finish(Absorb(START, bytes))
  }

  /** Feeding the bytes in any pieces gives the fingerprint of the whole. */
  method FingerprintPieces(pieces: seq<seq<byte>>) returns (text: string)
    ensures text == FingerprintOf(Flatten(pieces))
  {
    hide Flatten, Absorb, Finish;
    var f := new Fingerprinter();
    NothingAbsorbed(pieces[..0]);
    for i := 0 to |pieces|
      invariant f.State() == Absorb(START, Flatten(pieces[..i]))
    {
      AbsorbInPieces(START, Flatten(pieces[..i]), pieces[i]);
      FlattenSnoc(pieces[..i], pieces[i]);
      assert pieces[..i + 1] == pieces[..i] + [pieces[i]];
      f.Update(pieces[i]);
    }
    assert pieces[..|pieces|] == pieces;
    text := f.Digest();
  }

  lemma NothingAbsorbed(pieces: seq<seq<byte>>)
    requires pieces == []
    ensures Absorb(START, Flatten(pieces)) == START
  {
  }

  /** Two inputs of the same length that differ in exactly one byte never share a
      fingerprint, whatever the length and wherever the byte. */
  lemma OneByteChangesTheFingerprint(xs: seq<byte>, ys: seq<byte>, k: nat)
    requires |xs| == |ys| && k < |xs| && xs[k] != ys[k]
    requires forall i :: 0 <= i < |xs| && i != k ==> xs[i] == ys[i]
    ensures FingerprintOf(xs) != FingerprintOf(ys)
  {
    hide Finish, Absorb;
    var before, after := xs[..k], xs[k + 1..];
    assert xs == before + [xs[k]] + after && ys == before + [ys[k]] + after;
    OneByteChangesBothLanes(before, xs[k], ys[k], after);
    if FingerprintOf(xs) == FingerprintOf(ys) {
      FinishIsInjective(Absorb(START, xs), Absorb(START, ys));
    }
  }

  /** The fingerprint of nothing: what the two lanes start from. */
  lemma FingerprintOfNothing()
    ensures HexValue(FingerprintOf([])[..16]) == 0xcbf29ce484222325
    ensures HexValue(FingerprintOf([])[16..]) == 0x9dcf1a8b4c375f11
  {
    FinishSpellsTheLanes(START);
    hide HexValue, Finish;
  }
}

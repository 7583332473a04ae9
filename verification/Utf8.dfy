/** Capping a UTF-8 string at a number of bytes, with a marker at the cut. */
module Utf8 {
  import opened Integers

  // ----- well-formed UTF-8 (section 4 of RFC 3629)

  predicate IsTail(b: byte) {
    0x80 <= b <= 0xBF
  }

  predicate AllTails(bytes: seq<byte>) {
    forall i :: 0 <= i < |bytes| ==> IsTail(bytes[i])
  }

  /** The length of the character a first byte announces; 0 when it announces none. */
  function Announced(b: byte): nat {
    if b <= 0x7F then 1
    else if 0xC2 <= b <= 0xDF then 2
    else if 0xE0 <= b <= 0xEF then 3
    else if 0xF0 <= b <= 0xF4 then 4
    else 0
  }

  /** The second byte of a character, which its first byte may restrict further. */
  predicate IsSecond(first: byte, second: byte) {
    && IsTail(second)
    && (first == 0xE0 ==> second >= 0xA0)
    && (first == 0xED ==> second <= 0x9F)
    && (first == 0xF0 ==> second >= 0x90)
    && (first == 0xF4 ==> second <= 0x8F)
  }

  predicate IsCharacter(bytes: seq<byte>) {
    && bytes != [] && |bytes| == Announced(bytes[0]) && AllTails(bytes[1..])
    && (|bytes| > 1 ==> IsSecond(bytes[0], bytes[1]))
  }

  predicate IsUtf8(bytes: seq<byte>)
    decreases |bytes|
  {
    bytes == [] ||
    var n := Announced(bytes[0]);
    1 <= n <= |bytes| && IsCharacter(bytes[..n]) && IsUtf8(bytes[n..])
  }

  // ----- what a character encodes (section 3 of RFC 3629)

  /** A character number: none of the surrogates, nothing above 10FFFF. */
  predicate IsScalar(n: nat) {
    n < 0xD800 || 0xE000 <= n < 0x11_0000
  }

  /** The number in as few bytes as hold it, six bits to each but the first. */
  function Encoding(n: nat): seq<byte>
    requires IsScalar(n)
  {
    if n < 0x80 then [n]
    else if n < 0x800 then [0xC0 + n / 64, 0x80 + n % 64]
    else if n < 0x1_0000 then [0xE0 + n / 4096, 0x80 + n / 64 % 64, 0x80 + n % 64]
    else [0xF0 + n / 262144, 0x80 + n / 4096 % 64, 0x80 + n / 64 % 64, 0x80 + n % 64]
  }

  lemma EncodingsAreCharacters(n: nat)
    requires IsScalar(n)
    ensures IsCharacter(Encoding(n))
  {
  }

  lemma SixBits(a: nat, b: nat)
    requires b < 64
    ensures (a * 64 + b) / 64 == a && (a * 64 + b) % 64 == b
  {
  }

  lemma TwoBytesEncode(first: byte, second: byte)
    requires Announced(first) == 2 && IsTail(second)
    ensures var n: nat := (first - 0xC0) * 64 + (second - 0x80);
            IsScalar(n) && Encoding(n) == [first, second]
  {
    SixBits(first - 0xC0, second - 0x80);
  }

  lemma ThreeBytesEncode(first: byte, second: byte, third: byte)
    requires Announced(first) == 3 && IsSecond(first, second) && IsTail(third)
    ensures var n: nat := ((first - 0xE0) * 64 + (second - 0x80)) * 64 + (third - 0x80);
            IsScalar(n) && Encoding(n) == [first, second, third]
  {
    var high := (first - 0xE0) * 64 + (second - 0x80);
    SixBits(first - 0xE0, second - 0x80);
    SixBits(high, third - 0x80);
    var n := high * 64 + (third - 0x80);
    assert n / 4096 == n / 64 / 64;
  }

  lemma FourBytesEncode(first: byte, second: byte, third: byte, fourth: byte)
    requires Announced(first) == 4 && IsSecond(first, second) && IsTail(third) && IsTail(fourth)
    ensures var n: nat := (((first - 0xF0) * 64 + (second - 0x80)) * 64 + (third - 0x80)) * 64 + (fourth - 0x80);
            IsScalar(n) && Encoding(n) == [first, second, third, fourth]
  {
    var high := (first - 0xF0) * 64 + (second - 0x80);
    var middle := high * 64 + (third - 0x80);
    SixBits(first - 0xF0, second - 0x80);
    SixBits(high, third - 0x80);
    SixBits(middle, fourth - 0x80);
    var n := middle * 64 + (fourth - 0x80);
    assert n / 4096 == n / 64 / 64 && n / 262144 == n / 64 / 64 / 64;
  }

  lemma CharactersEncode(bytes: seq<byte>) returns (n: nat)
    requires IsCharacter(bytes)
    ensures IsScalar(n) && Encoding(n) == bytes
  {
    hide Encoding, IsScalar;
    if |bytes| == 1 {
      n := bytes[0];
      OneByteEncodes(bytes[0]);
    } else {
      assert forall i :: 0 <= i < |bytes| - 1 ==> bytes[1..][i] == bytes[i + 1] && IsTail(bytes[i + 1]);
      if |bytes| == 2 {
        TwoBytesEncode(bytes[0], bytes[1]);
        n := (bytes[0] - 0xC0) as int * 64 + (bytes[1] - 0x80);
      } else if |bytes| == 3 {
        ThreeBytesEncode(bytes[0], bytes[1], bytes[2]);
        n := ((bytes[0] - 0xE0) as int * 64 + (bytes[1] - 0x80)) * 64 + (bytes[2] - 0x80);
      } else {
        FourBytesEncode(bytes[0], bytes[1], bytes[2], bytes[3]);
        n := (((bytes[0] - 0xF0) as int * 64 + (bytes[1] - 0x80)) * 64 + (bytes[2] - 0x80)) * 64 + (bytes[3] - 0x80);
      }
    }
  }

  lemma OneByteEncodes(b: byte)
    requires Announced(b) == 1
    ensures IsScalar(b) && Encoding(b) == [b]
  {
  }

  /** The characters of well-formed text are exactly the encodings of character numbers. */
  lemma CharactersAreEncodedScalars(bytes: seq<byte>)
    ensures IsCharacter(bytes) <==> exists n: nat :: IsScalar(n) && bytes == Encoding(n)
  {
    hide Encoding;
    if IsCharacter(bytes) {
      var n := CharactersEncode(bytes);
    }
    if n: nat :| IsScalar(n) && bytes == Encoding(n) {
      EncodingsAreCharacters(n);
    }
  }

  /** `is_char_boundary`: either end, or a byte that is no continuation. */
  predicate IsBoundary(text: seq<byte>, at: nat) {
    at == 0 || at == |text| || (at < |text| && !IsTail(text[at]))
  }

  lemma {:induction false} Utf8Concatenates(a: seq<byte>, b: seq<byte>)
    requires IsUtf8(a) && IsUtf8(b)
    ensures IsUtf8(a + b)
    decreases |a|
  {
    if a == [] {
      assert a + b == b;
    } else {
      var n := Announced(a[0]);
      Utf8Concatenates(a[n..], b);
      assert (a + b)[..n] == a[..n] && (a + b)[n..] == a[n..] + b;
    }
  }

  lemma FirstCharacterHasTails(text: seq<byte>)
    requires IsUtf8(text) && text != []
    ensures forall k :: 0 < k < Announced(text[0]) ==> k < |text| && IsTail(text[k])
  {
  }

  /** Cut at a character boundary, well-formed text stays well-formed on both sides. */
  lemma {:induction false} BoundarySplits(text: seq<byte>, at: nat)
    requires IsUtf8(text) && at <= |text| && IsBoundary(text, at)
    ensures IsUtf8(text[..at]) && IsUtf8(text[at..])
    decreases |text|
  {
    if at == 0 || at == |text| {
      assert text[..|text|] == text && text[0..] == text;
    } else {
      var n := Announced(text[0]);
      FirstCharacterHasTails(text);
      var rest := text[n..];
      assert rest[..at - n] == text[n..at] && rest[at - n..] == text[at..];
      BoundarySplits(rest, at - n);
      assert text[..at] == text[..n] + rest[..at - n];
      assert text[..at][..n] == text[..n] && text[..at][n..] == rest[..at - n];
    }
  }

  lemma TailsBeginNothing(text: seq<byte>)
    requires IsUtf8(text) && text != []
    ensures !IsTail(text[0])
  {
  }

  /** Boundaries are the only places to cut: anywhere else both sides are broken. */
  lemma OnlyBoundariesSplit(text: seq<byte>, at: nat)
    requires IsUtf8(text) && at <= |text|
    ensures IsBoundary(text, at) <==> IsUtf8(text[..at]) && IsUtf8(text[at..])
  {
    if IsBoundary(text, at) {
      BoundarySplits(text, at);
    } else if IsUtf8(text[at..]) {
      TailsBeginNothing(text[at..]);
    }
  }

  /** Any four consecutive positions hold a boundary: characters are at most four bytes. */
  lemma {:induction false} BoundaryWithinFour(text: seq<byte>, at: nat) returns (b: nat)
    requires IsUtf8(text) && at <= |text|
    ensures b <= at < b + 4 && IsBoundary(text, b)
    decreases |text|
  {
    if at == 0 {
      b := 0;
    } else {
      var n := Announced(text[0]);
      if at < n {
        b := 0;
      } else {
        b := BoundaryWithinFour(text[n..], at - n);
        if b == 0 {
          StartIsBoundary(text, n);
        }
        b := b + n;
      }
    }
  }

  lemma StartIsBoundary(text: seq<byte>, n: nat)
    requires IsUtf8(text) && text != [] && n == Announced(text[0])
    ensures n <= |text| && IsBoundary(text, n)
  {
  }

  // ----- the cut

  /** `floor_boundary`: the largest boundary at or below `at`. */
  method FloorBoundary(text: seq<byte>, at: nat) returns (boundary: nat)
    ensures boundary <= at && boundary <= |text| && IsBoundary(text, boundary)
    ensures forall b: nat :: b <= at && b <= |text| && IsBoundary(text, b) ==> b <= boundary
  {
    boundary := if at < |text| then at else |text|;
    while boundary > 0 && !IsBoundary(text, boundary)
      invariant boundary <= at && boundary <= |text|
      invariant forall b: nat :: b <= at && b <= |text| && IsBoundary(text, b) ==> b <= boundary
    {
      boundary := boundary - 1;
    }
  }

  /** The content as it is truncated in place. */
  class Text {
    var bytes: seq<byte>

    constructor (bytes: seq<byte>)
      ensures this.bytes == bytes
    {
      this.bytes := bytes;
    }

    /** Fitting text is left alone; anything else becomes a beginning of itself
        followed by a beginning of the marker, well-formed, within the cap, each cut
        at the last boundary that fits and so less than four bytes short of it. The
        boundary never exceeds the text, so no further clamp is needed. */
    method Truncate(maxBytes: nat, marker: seq<byte>)
      requires IsUtf8(bytes) && IsUtf8(marker)
      modifies this
      ensures IsUtf8(bytes) && |bytes| <= (if |old(bytes)| <= maxBytes then |old(bytes)| else maxBytes)
      ensures |old(bytes)| <= maxBytes ==> bytes == old(bytes)
      ensures |old(bytes)| > maxBytes ==>
                exists kept: nat, shown: nat ::
                  && kept <= |old(bytes)| && shown <= |marker| && kept + shown <= maxBytes
                  && bytes == old(bytes)[..kept] + marker[..shown]
                  && LastBoundary(marker, shown, maxBytes)
                  && LastBoundary(old(bytes), kept, maxBytes - shown)
    {
      if |bytes| <= maxBytes {
        return;
      }
      var shown := FloorBoundary(marker, maxBytes);
      var boundary := FloorBoundary(bytes, maxBytes - shown);
      BoundarySplits(marker, shown);
      BoundarySplits(bytes, boundary);
      LastBoundaryIsClose(marker, shown, maxBytes);
      LastBoundaryIsClose(bytes, boundary, maxBytes - shown);
      Utf8Concatenates(bytes[..boundary], marker[..shown]);
      bytes := bytes[..boundary];
      bytes := bytes + marker[..shown];
    }
  }

  /** `b` is the last boundary of `text` within `limit`, and no four bytes are lost to it. */
  ghost predicate LastBoundary(text: seq<byte>, b: nat, limit: nat) {
    && b <= |text| && b <= limit && IsBoundary(text, b)
    && (forall c: nat :: c <= |text| && c <= limit && IsBoundary(text, c) ==> c <= b)
    && (if limit < |text| then limit else |text|) < b + 4
  }

  lemma LastBoundaryIsClose(text: seq<byte>, b: nat, limit: nat)
    requires IsUtf8(text) && b <= |text| && b <= limit && IsBoundary(text, b)
    requires forall c: nat :: c <= limit && c <= |text| && IsBoundary(text, c) ==> c <= b
    ensures LastBoundary(text, b, limit)
  {
    var at := if limit < |text| then limit else |text|;
    var c := BoundaryWithinFour(text, at);
  }
}

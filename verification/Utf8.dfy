/**
 Text validation (common/protocol/text_field_codec.cpp) against section 4 of RFC 3629: the byte loop accepts exactly the
 concatenations of canonical encodings of allowed Unicode scalar values.
 */
module Utf8 {
  import opened Prelude

  predicate Scalar(cp: int) {
    0 <= cp <= 0x10FFFF && !(0xD800 <= cp <= 0xDFFF)
  }

  /** No DEL, and no C0 control other than tab and line feed. */
  predicate Allowed(cp: int) {
    Scalar(cp) && cp != 0x7F && (cp >= 0x20 || cp == 0x09 || cp == 0x0A)
  }

  /** A continuation byte carrying the low six bits. */
  function Trail(v: nat): Byte {
    0x80 + v % 64
  }

  /** The canonical encoding of a scalar value: six bits per continuation byte, the rest in the lead byte. */
  function Encode(cp: int): (s: Bytes)
    requires Scalar(cp)
    ensures 1 <= |s| <= 4
  {
    var upper := cp / 64;
    var high := upper / 64;
    if cp < 0x80 then [cp]
    else if cp < 0x800 then [0xC0 + upper, Trail(cp)]
    else if cp < 0x10000 then [0xE0 + high, Trail(upper), Trail(cp)]
    else [0xF0 + high / 64, Trail(high), Trail(upper), Trail(cp)]
  }

  function EncodeAll(cps: seq<int>): Bytes
    requires forall i :: 0 <= i < |cps| ==> Scalar(cps[i])
  {
    if cps == [] then [] else Encode(cps[0]) + EncodeAll(cps[1..])
  }

  // ---------------------------------------------------------------------------------------------
  // The checks of the source; bit tests and shifts are written as divisions by powers of two

  predicate AllowedAscii(b: Byte) {
    b == 0x09 || b == 0x0A || (b >= 0x20 && b != 0x7F)
  }

  predicate Canonical(cp: nat, length: nat) {
    && !(0xD800 <= cp <= 0xDFFF)
    && if length == 2 then cp >= 0x80 else if length == 3 then cp >= 0x800 else 0x10000 <= cp <= 0x10FFFF
  }

  /** Length announced by a lead byte of 0x80 or more, and the bits it carries; length 0 for a bad lead. */
  function Lead(b: Byte): (nat, nat) {
    if b / 32 == 6 then (2, b % 32)
    else if b / 16 == 14 then (3, b % 16)
    else if b / 8 == 30 then (4, b % 8)
    else (0, 0)
  }

  function SixBits(b: Byte): nat {
    b % 64
  }

  /** The code point accumulated over continuation bytes, or None at a byte that is not one. */
  function Follow(cp: nat, s: Bytes): Option<nat>
    decreases |s|
  {
    if s == [] then Some(cp)
    else if s[0] / 64 != 2 then None
    else Follow(cp * 64 + SixBits(s[0]), s[1..])
  }

  /** Bytes taken by the sequence at the front, or 0 if it is invalid. */
  function Measure(s: Bytes): (n: nat)
    requires s != []
    ensures n <= |s|
  {
    if s[0] < 0x80 then (if AllowedAscii(s[0]) then 1 else 0)
    else
      var (length, bits) := Lead(s[0]);
      if length == 0 || length > |s| then 0
      else
        var cp := Follow(bits, s[1..length]);
        if cp.Some? && Canonical(cp.value, length) then length else 0
  }

  predicate Valid(s: Bytes) {
    s == [] || (Measure(s) > 0 && Valid(s[Measure(s)..]))
  }

  method MeasureUtf8Sequence(text: Bytes, offset: nat) returns (consumed: nat)
    requires offset < |text|
    ensures consumed == Measure(text[offset..])
  {
    var lead := text[offset];
    if lead < 0x80 {
      return if AllowedAscii(lead) then 1 else 0;
    }
    var length, codePoint: nat := 0, 0;
    if lead / 32 == 6 {
      length, codePoint := 2, lead % 32;
    } else if lead / 16 == 14 {
      length, codePoint := 3, lead % 16;
    } else if lead / 8 == 30 {
      length, codePoint := 4, lead % 8;
    } else {
      return 0;
    }
    if offset + length > |text| {
      return 0;
    }
    ghost var goal := Follow(codePoint, text[offset..][1..length]);
    assert text[offset..][1..length] == text[offset + 1..offset + length];
    for index := 1 to length
      invariant Follow(codePoint, text[offset + index..offset + length]) == goal
    {
      var byte := text[offset + index];
      ghost var left := text[offset + index..offset + length];
      assert left[1..] == text[offset + index + 1..offset + length];
      if byte / 64 != 2 {
        return 0;
      }
      codePoint := codePoint * 64 + SixBits(byte);
    }
    assert text[offset + length..offset + length] == [];
    consumed := if Canonical(codePoint, length) then length else 0;
  }

  method ValidateTextField(text: Bytes) returns (ok: bool)
    ensures ok == Valid(text)
  {
    var offset := 0;
    while offset < |text|
      invariant 0 <= offset <= |text|
      invariant Valid(text[offset..]) == Valid(text)
    {
      var consumed := MeasureUtf8Sequence(text, offset);
      if consumed == 0 {
        return false;
      }
      assert text[offset..][consumed..] == text[offset + consumed..];
      offset := offset + consumed;
    }
    return true;
  }

  // ---------------------------------------------------------------------------------------------
  // Meaning

  lemma FollowOne(cp: nat, s: Bytes)
    requires |s| >= 1
    ensures Follow(cp, s) == if s[0] / 64 != 2 then None else Follow(cp * 64 + SixBits(s[0]), s[1..])
    ensures |s| == 1 && s[0] / 64 == 2 ==> Follow(cp, s) == Some(cp * 64 + SixBits(s[0]))
  {
  }

  lemma FollowTwo(cp: nat, s: Bytes)
    requires |s| == 2
    ensures Follow(cp, s) == if s[0] / 64 != 2 || s[1] / 64 != 2 then None
                             else Some((cp * 64 + SixBits(s[0])) * 64 + SixBits(s[1]))
  {
    FollowOne(cp, s);
    FollowOne(cp * 64 + SixBits(s[0]), s[1..]);
  }

  lemma FollowThree(cp: nat, s: Bytes)
    requires |s| == 3
    ensures Follow(cp, s) == if s[0] / 64 != 2 || s[1] / 64 != 2 || s[2] / 64 != 2 then None
                             else Some(((cp * 64 + SixBits(s[0])) * 64 + SixBits(s[1])) * 64 + SixBits(s[2]))
  {
    FollowOne(cp, s);
    FollowTwo(cp * 64 + SixBits(s[0]), s[1..]);
  }

  /** What one continuation byte carries, and that nothing else is one. */
  lemma TrailMeaning(v: nat, b: Byte)
    ensures Trail(v) / 64 == 2 && SixBits(Trail(v)) == v % 64
    ensures b / 64 == 2 ==> b == 0x80 + SixBits(b) && Trail(SixBits(b)) == b
  {
  }

  /** Lead bytes of each length and the bits they carry. */
  lemma LeadMeaning(b: Byte)
    ensures
      var (length, bits) := Lead(b);
      && (length == 2 <==> 0xC0 <= b < 0xE0) && (length == 2 ==> bits == b - 0xC0)
      && (length == 3 <==> 0xE0 <= b < 0xF0) && (length == 3 ==> bits == b - 0xE0)
      && (length == 4 <==> 0xF0 <= b < 0xF8) && (length == 4 ==> bits == b - 0xF0)
      && (length == 0 || length == 2 || length == 3 || length == 4)
  {
  }

  /** The front of an encoding is measured exactly, whatever follows. */
  lemma MeasureOfEncode(cp: int, rest: Bytes)
    requires Allowed(cp)
    ensures Measure(Encode(cp) + rest) == |Encode(cp)|
  {
    var e := Encode(cp);
    var s := e + rest;
    if cp >= 0x80 {
      LeadMeaning(e[0]);
      assert s[1..|e|] == e[1..];
      var upper := cp / 64;
      var high := upper / 64;
      TrailMeaning(cp, 0);
      TrailMeaning(upper, 0);
      TrailMeaning(high, 0);
      if cp < 0x800 {
        FollowOne(upper, e[1..]);
      } else if cp < 0x10000 {
        FollowTwo(high, e[1..]);
      } else {
        FollowThree(high / 64, e[1..]);
      }
    }
  }

  /** A measured front is the encoding of an allowed scalar value. */
  lemma EncodeOfMeasure(s: Bytes) returns (cp: int)
    requires s != [] && Measure(s) > 0
    ensures Allowed(cp) && Encode(cp) == s[..Measure(s)]
  {
    if s[0] < 0x80 {
      cp := s[0];
    } else {
      var (length, bits) := Lead(s[0]);
      LeadMeaning(s[0]);
      cp := Follow(bits, s[1..length]).value;
      if length == 2 {
        FollowOne(bits, s[1..2]);
        EncodeTwo(bits, s[1]);
      } else if length == 3 {
        FollowTwo(bits, s[1..3]);
        EncodeThree(bits, s[1], s[2]);
      } else {
        FollowThree(bits, s[1..4]);
        EncodeFour(bits, s[1], s[2], s[3]);
      }
    }
  }

  lemma EncodeTwo(bits: nat, b1: Byte)
    requires bits < 32 && b1 / 64 == 2 && Canonical(bits * 64 + SixBits(b1), 2)
    ensures var cp := bits * 64 + SixBits(b1); Allowed(cp) && Encode(cp) == [0xC0 + bits, b1]
  {
    TrailMeaning(0, b1);
  }

  lemma EncodeThree(bits: nat, b1: Byte, b2: Byte)
    requires bits < 16 && b1 / 64 == 2 && b2 / 64 == 2
    requires Canonical((bits * 64 + SixBits(b1)) * 64 + SixBits(b2), 3)
    ensures
      var cp := (bits * 64 + SixBits(b1)) * 64 + SixBits(b2);
      Allowed(cp) && Encode(cp) == [0xE0 + bits, b1, b2]
  {
    TrailMeaning(0, b1);
    TrailMeaning(0, b2);
    var upper := bits * 64 + SixBits(b1);
    assert (upper * 64 + SixBits(b2)) / 64 == upper && upper / 64 == bits;
  }

  lemma EncodeFour(bits: nat, b1: Byte, b2: Byte, b3: Byte)
    requires bits < 8 && b1 / 64 == 2 && b2 / 64 == 2 && b3 / 64 == 2
    requires Canonical(((bits * 64 + SixBits(b1)) * 64 + SixBits(b2)) * 64 + SixBits(b3), 4)
    ensures
      var cp := ((bits * 64 + SixBits(b1)) * 64 + SixBits(b2)) * 64 + SixBits(b3);
      Allowed(cp) && Encode(cp) == [0xF0 + bits, b1, b2, b3]
  {
    TrailMeaning(0, b1);
    TrailMeaning(0, b2);
    TrailMeaning(0, b3);
    var high := bits * 64 + SixBits(b1);
    var upper := high * 64 + SixBits(b2);
    assert (upper * 64 + SixBits(b3)) / 64 == upper && upper / 64 == high && high / 64 == bits;
  }

  /** Text that is a concatenation of canonical encodings of allowed scalar values. */
  ghost predicate WellFormed(text: Bytes, cps: seq<int>) {
    (forall i :: 0 <= i < |cps| ==> Allowed(cps[i])) && text == EncodeAll(cps)
  }

  lemma {:induction false} ValidOfEncodeAll(text: Bytes, cps: seq<int>)
    requires WellFormed(text, cps)
    ensures Valid(text)
    decreases |cps|
  {
    if cps != [] {
      var rest := EncodeAll(cps[1..]);
      MeasureOfEncode(cps[0], rest);
      assert (Encode(cps[0]) + rest)[|Encode(cps[0])|..] == rest;
      ValidOfEncodeAll(rest, cps[1..]);
    }
  }

  lemma {:induction false} DecodeValid(text: Bytes) returns (cps: seq<int>)
    requires Valid(text)
    ensures WellFormed(text, cps)
  {
    if text == [] {
      cps := [];
    } else {
      var n := Measure(text);
      var cp := EncodeOfMeasure(text);
      var rest := DecodeValid(text[n..]);
      cps := [cp] + rest;
      assert text == text[..n] + text[n..];
    }
  }

  /** The validator accepts a byte string exactly when it is well formed. */
  lemma ValidIffWellFormed(text: Bytes)
    ensures Valid(text) <==> exists cps :: WellFormed(text, cps)
  {
    if Valid(text) {
      var cps := DecodeValid(text);
    }
    forall cps | WellFormed(text, cps) ensures Valid(text) {
      ValidOfEncodeAll(text, cps);
    }
  }

  /** Two encodings of which one starts the other are those of the same scalar value. */
  lemma EncodePrefixFree(a: int, b: int, x: Bytes, y: Bytes)
    requires Scalar(a) && Scalar(b) && Encode(a) + x == Encode(b) + y
    ensures a == b && x == y
  {
    var s := Encode(a) + x;
    var n := |Encode(a)|;
    assert s[0] == Encode(a)[0] == Encode(b)[0];
    LeadOfLength(a);
    LeadOfLength(b);
    assert Encode(a) == s[..n] == Encode(b);
    assert x == s[n..] == y;
    ValueFromEncoding(a);
    ValueFromEncoding(b);
  }

  /** Each length has its own lead bytes. */
  lemma LeadOfLength(cp: int)
    requires Scalar(cp)
    ensures
      var e := Encode(cp);
      |e| == if e[0] < 0x80 then 1 else if e[0] < 0xE0 then 2 else if e[0] < 0xF0 then 3 else 4
  {
    var upper := cp / 64;
    var high := upper / 64;
    if cp < 0x800 {
      assert upper < 0x20;
    } else if cp < 0x10000 {
      assert high < 0x10;
    }
  }

  /** The value read back from an encoding, length by length. */
  function Value(s: Bytes): int
    requires 1 <= |s| <= 4
  {
    if |s| == 1 then s[0]
    else if |s| == 2 then 64 * (s[0] - 0xC0) + SixBits(s[1])
    else if |s| == 3 then 64 * (64 * (s[0] - 0xE0) + SixBits(s[1])) + SixBits(s[2])
    else 64 * (64 * (64 * (s[0] - 0xF0) + SixBits(s[1])) + SixBits(s[2])) + SixBits(s[3])
  }

  lemma ValueFromEncoding(cp: int)
    requires Scalar(cp)
    ensures Value(Encode(cp)) == cp
  {
    TrailMeaning(cp, 0);
    TrailMeaning(cp / 64, 0);
    TrailMeaning(cp / 64 / 64, 0);
  }

  /** The decomposition of a text into scalar values is unique. */
  lemma {:induction false} DecodingUnique(a: seq<int>, b: seq<int>)
    requires (forall i :: 0 <= i < |a| ==> Scalar(a[i])) && (forall i :: 0 <= i < |b| ==> Scalar(b[i])) && EncodeAll(a) == EncodeAll(b)
    ensures a == b
    decreases |a|
  {
    if a != [] && b != [] {
      EncodePrefixFree(a[0], b[0], EncodeAll(a[1..]), EncodeAll(b[1..]));
      DecodingUnique(a[1..], b[1..]);
      assert a == [a[0]] + a[1..] && b == [b[0]] + b[1..];
    }
  }
}

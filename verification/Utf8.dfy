/** Bytes and UTF-8 (RFC 3629): code points, their encodings and well-formed byte strings. */
module Utf8 {
  type Byte = b: int | 0 <= b < 256
  type Bytes = seq<Byte>

  const REPLACEMENT := 0xFFFD

  /** The UTF-8 bytes of a code point; surrogates and values out of range become U+FFFD. */
  function EncodeRune(r: nat): (t: Bytes)
    ensures 1 <= |t| <= 4
  {
    if r < 0x80 then [r]
    else if r < 0x800 then [0xC0 + r / 64, 0x80 + r % 64]
    else if r > 0x10FFFF || 0xD800 <= r < 0xE000 then [0xEF, 0xBF, 0xBD]
    else if r < 0x10000 then [0xE0 + r / 4096, 0x80 + r / 64 % 64, 0x80 + r % 64]
    else [0xF0 + r / 262144, 0x80 + r / 4096 % 64, 0x80 + r / 64 % 64, 0x80 + r % 64]
  }

  datatype Rune = Rune(code: nat, size: nat)

  predicate Continuation(b: Byte) {
    0x80 <= b <= 0xBF
  }

  /** The payload bits of a lead or continuation byte. */
  function Above(b: Byte, base: int): int {
    (b as int) - base
  }

  /** The first code point of a byte string; any malformed first byte counts as U+FFFD of size 1. */
  function DecodeRune(s: Bytes): (r: Rune)
    requires s != []
    ensures 1 <= r.size <= |s| && r.size <= 4
  {
    var a := s[0];
    var bad := Rune(REPLACEMENT, 1);
    if a < 0x80 then Rune(a, 1)
    else if 0xC2 <= a <= 0xDF then
      if |s| < 2 || !Continuation(s[1]) then bad else Rune(Above(a, 0xC0) * 64 + Above(s[1], 0x80), 2)
    else if 0xE0 <= a <= 0xEF then
      if |s| < 3 || !Continuation(s[1]) || !Continuation(s[2]) || (a == 0xE0 && s[1] < 0xA0) || (a == 0xED && s[1] > 0x9F) then bad
      else Rune(Above(a, 0xE0) * 4096 + Above(s[1], 0x80) * 64 + Above(s[2], 0x80), 3)
    else if 0xF0 <= a <= 0xF4 then
      if |s| < 4 || !Continuation(s[1]) || !Continuation(s[2]) || !Continuation(s[3])
         || (a == 0xF0 && s[1] < 0x90) || (a == 0xF4 && s[1] > 0x8F) then bad
      else Rune(Above(a, 0xF0) * 262144 + Above(s[1], 0x80) * 4096 + Above(s[2], 0x80) * 64 + Above(s[3], 0x80), 4)
    else bad
  }

  lemma Reencode2(x: nat, y: nat)
    requires 2 <= x < 32 && y < 64
    ensures EncodeRune(x * 64 + y) == [0xC0 + x, 0x80 + y]
  {
    var r := x * 64 + y;
    assert r / 64 == x && r % 64 == y;
  }

  lemma Reencode3(x: nat, y: nat, z: nat)
    requires x < 16 && y < 64 && z < 64 && (x == 0 ==> y >= 32) && (x == 13 ==> y < 32)
    ensures EncodeRune(x * 4096 + y * 64 + z) == [0xE0 + x, 0x80 + y, 0x80 + z]
  {
    var r := x * 4096 + y * 64 + z;
    assert r / 64 == x * 64 + y && r % 64 == z && r / 4096 == x && (x * 64 + y) % 64 == y;
  }

  lemma Reencode4(w: nat, x: nat, y: nat, z: nat)
    requires w < 5 && x < 64 && y < 64 && z < 64 && (w == 0 ==> x >= 16) && (w == 4 ==> x < 16)
    ensures EncodeRune(w * 262144 + x * 4096 + y * 64 + z) == [0xF0 + w, 0x80 + x, 0x80 + y, 0x80 + z]
  {
    var r := w * 262144 + x * 4096 + y * 64 + z;
    assert r / 64 == w * 4096 + x * 64 + y && r % 64 == z && r / 4096 == w * 64 + x && r / 262144 == w;
    assert (w * 4096 + x * 64 + y) % 64 == y && (w * 64 + x) % 64 == x;
  }

  /** Re-encoding a well-formed code point gives back its bytes. */
  lemma ReencodeRune(s: Bytes)
    requires s != [] && DecodeRune(s) != Rune(REPLACEMENT, 1)
    ensures EncodeRune(DecodeRune(s).code) == s[..DecodeRune(s).size]
  {
    if s[0] < 0x80 {
    } else if s[0] <= 0xDF {
      hide EncodeRune;
      Reencode2(Above(s[0], 0xC0), Above(s[1], 0x80));
    } else if s[0] <= 0xEF {
      hide EncodeRune;
      Reencode3(Above(s[0], 0xE0), Above(s[1], 0x80), Above(s[2], 0x80));
    } else {
      hide EncodeRune;
      Reencode4(Above(s[0], 0xF0), Above(s[1], 0x80), Above(s[2], 0x80), Above(s[3], 0x80));
    }
  }

  // ----- well-formed strings -----

  predicate Malformed(s: Bytes)
    requires s != []
  {
    DecodeRune(s) == Rune(REPLACEMENT, 1)
  }

  /** Every code point decodes without error. */
  predicate WellFormed(s: Bytes) {
    s == [] || (!Malformed(s) && WellFormed(s[DecodeRune(s).size..]))
  }

  predicate Scalar(code: nat) {
    code <= 0x10FFFF && !(0xD800 <= code < 0xE000)
  }

  function EncodeAll(codes: seq<nat>): Bytes {
    if codes == [] then [] else EncodeRune(codes[0]) + EncodeAll(codes[1..])
  }

  lemma Decode2(x: nat, y: nat, rest: Bytes)
    requires 2 <= x < 32 && y < 64
    ensures DecodeRune([0xC0 + x, 0x80 + y] + rest) == Rune(x * 64 + y, 2)
  {
  }

  lemma Decode3(x: nat, y: nat, z: nat, rest: Bytes)
    requires x < 16 && y < 64 && z < 64 && (x == 0 ==> y >= 32) && (x == 13 ==> y < 32)
    ensures DecodeRune([0xE0 + x, 0x80 + y, 0x80 + z] + rest) == Rune(x * 4096 + y * 64 + z, 3)
  {
    var s := [0xE0 + x, 0x80 + y, 0x80 + z] + rest;
    assert s[0] == 0xE0 + x && s[1] == 0x80 + y && s[2] == 0x80 + z;
  }

  lemma Decode4(w: nat, x: nat, y: nat, z: nat, rest: Bytes)
    requires w < 5 && x < 64 && y < 64 && z < 64 && (w == 0 ==> x >= 16) && (w == 4 ==> x < 16)
    ensures DecodeRune([0xF0 + w, 0x80 + x, 0x80 + y, 0x80 + z] + rest) == Rune(w * 262144 + x * 4096 + y * 64 + z, 4)
  {
    var s := [0xF0 + w, 0x80 + x, 0x80 + y, 0x80 + z] + rest;
    assert s[0] == 0xF0 + w && s[1] == 0x80 + x && s[2] == 0x80 + y && s[3] == 0x80 + z;
  }

  lemma DecodeEncoded(code: nat, rest: Bytes)
    requires Scalar(code)
    ensures DecodeRune(EncodeRune(code) + rest) == Rune(code, |EncodeRune(code)|)
  {
    hide DecodeRune;
    if code < 0x80 {
      Decode1(code, rest);
    } else if code < 0x800 {
      Decode2(code / 64, code % 64, rest);
    } else if code < 0x10000 {
      assert code == code / 4096 * 4096 + code / 64 % 64 * 64 + code % 64;
      Decode3(code / 4096, code / 64 % 64, code % 64, rest);
    } else {
      assert code == code / 262144 * 262144 + code / 4096 % 64 * 4096 + code / 64 % 64 * 64 + code % 64;
      Decode4(code / 262144, code / 4096 % 64, code / 64 % 64, code % 64, rest);
    }
  }

  lemma Decode1(code: nat, rest: Bytes)
    requires code < 0x80
    ensures DecodeRune([code] + rest) == Rune(code, 1)
  {
  }

  lemma {:induction false} EncodedWellFormed(codes: seq<nat>)
    requires forall i :: 0 <= i < |codes| ==> Scalar(codes[i])
    ensures WellFormed(EncodeAll(codes))
  {
    if codes != [] {
      var first, rest := EncodeRune(codes[0]), EncodeAll(codes[1..]);
      EncodedWellFormed(codes[1..]);
      DecodeEncoded(codes[0], rest);
      hide DecodeRune, EncodeRune;
      assert (first + rest)[|first|..] == rest;
    }
  }

  function Codes(s: Bytes): seq<nat> {
    if s == [] then [] else [DecodeRune(s).code] + Codes(s[DecodeRune(s).size..])
  }

  lemma DecodedScalar(s: Bytes)
    requires s != [] && !Malformed(s)
    ensures Scalar(DecodeRune(s).code)
  {
  }

  lemma {:induction false} WellFormedEncoded(s: Bytes)
    requires WellFormed(s)
    ensures EncodeAll(Codes(s)) == s && forall i :: 0 <= i < |Codes(s)| ==> Scalar(Codes(s)[i])
  {
    hide DecodeRune, EncodeRune, Scalar;
    if s != [] {
      var size := DecodeRune(s).size;
      WellFormedEncoded(s[size..]);
      EncodedHead(s);
      assert Codes(s)[1..] == Codes(s[size..]);
    }
  }

  lemma EncodedHead(s: Bytes)
    requires s != [] && !Malformed(s)
    ensures Scalar(DecodeRune(s).code) && s == EncodeRune(DecodeRune(s).code) + s[DecodeRune(s).size..]
  {
    ReencodeRune(s);
    DecodedScalar(s);
    hide DecodeRune, EncodeRune;
    assert s == s[..DecodeRune(s).size] + s[DecodeRune(s).size..];
  }

  /** The well-formed byte strings are exactly the encodings of sequences of Unicode scalar values. */
  lemma WellFormedExactly(s: Bytes)
    ensures WellFormed(s) <==>
            exists codes: seq<nat> :: (forall i :: 0 <= i < |codes| ==> Scalar(codes[i])) && s == EncodeAll(codes)
  {
    if WellFormed(s) { WellFormedEncoded(s); }
    forall codes: seq<nat> | (forall i :: 0 <= i < |codes| ==> Scalar(codes[i])) && s == EncodeAll(codes)
      ensures WellFormed(s)
    {
      EncodedWellFormed(codes);
    }
  }
}

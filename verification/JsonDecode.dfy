/** The value of a JSON string literal: escapes, surrogate pairs and UTF-8 replacement. */
module JsonDecode {
  import opened Common
  import opened Utf8
  import opened JsonGrammar

  function HexValue(b: Byte): (v: nat)
    requires IsHex(b)
    ensures v < 16
  {
    if b <= 0x39 then b - 0x30 else if b >= 0x61 then b - 0x57 else b - 0x37
  }

  function HexCode(h: Bytes): (v: nat)
    requires |h| == 4 && forall i :: 0 <= i < 4 ==> IsHex(h[i])
    ensures v < 0x10000
  {
    ((HexValue(h[0]) * 16 + HexValue(h[1])) * 16 + HexValue(h[2])) * 16 + HexValue(h[3])
  }

  predicate HighSurrogate(code: nat) {
    0xD800 <= code < 0xDC00
  }

  predicate LowSurrogate(code: nat) {
    0xDC00 <= code < 0xE000
  }

  /** The byte an escape letter stands for. */
  function EscapeByte(b: Byte): Byte {
    match b
    case 0x62 => 0x08
    case 0x66 => 0x0C
    case 0x6E => 0x0A
    case 0x72 => 0x0D
    case 0x74 => 0x09
    case _ => b
  }

  /** Whether a four-digit escape starts the string, and its code. */
  predicate StartsUnicode(t: Bytes) {
    |t| >= 6 && t[0] == BACKSLASH && t[1] == LOWER_U && IsHex(t[2]) && IsHex(t[3]) && IsHex(t[4]) && IsHex(t[5])
  }

  function PairCode(high: nat, low: nat): nat
    requires HighSurrogate(high) && LowSurrogate(low)
  {
    (high - 0xD800) * 0x400 + (low - 0xDC00) + 0x10000
  }

  /** The value of the text between the quotes. A backslash that starts no escape, which no scanned
      literal contains, stands for itself. */
  function Unquote(t: Bytes): Bytes {
    if t == [] then []
    else if StartsUnicode(t) then
      var code := HexCode(t[2..6]);
      if HighSurrogate(code) && StartsUnicode(t[6..]) && LowSurrogate(HexCode(t[6..][2..6])) then
        EncodeRune(PairCode(code, HexCode(t[6..][2..6]))) + Unquote(t[12..])
      else EncodeRune(code) + Unquote(t[6..])
    else if t[0] == BACKSLASH && |t| >= 2 && SimpleEscape(t[1]) then [EscapeByte(t[1])] + Unquote(t[2..])
    else if t[0] < 0x80 then [t[0]] + Unquote(t[1..])
    else EncodeRune(DecodeRune(t).code) + Unquote(t[DecodeRune(t).size..])
  }

  /** A decoded string is never shorter than a sixth of its spelling. */
  lemma {:induction false} SpellingBound(t: Bytes)
    ensures |t| <= 6 * |Unquote(t)|
  {
    if t != [] {
      hide DecodeRune, EncodeRune, HexCode;
      if StartsUnicode(t) {
        SpellingBound(t[6..]);
        if |t| >= 12 { SpellingBound(t[12..]); }
      } else if t[0] == BACKSLASH && |t| >= 2 && SimpleEscape(t[1]) {
        SpellingBound(t[2..]);
      } else if t[0] < 0x80 {
        SpellingBound(t[1..]);
      } else {
        SpellingBound(t[DecodeRune(t).size..]);
      }
    }
  }

  // ----- how long a spelling can be -----

  function HexDigitOf(v: nat): (b: Byte)
    requires v < 16
    ensures IsHex(b) && HexValue(b) == v
  {
    if v < 10 then 0x30 + v else 0x57 + v
  }

  /** The spelling of ASCII text in which every byte is a four-digit escape. */
  function SpellOut(t: Bytes): seq<Char>
    requires forall i :: 0 <= i < |t| ==> t[i] < 0x80
  {
    if t == [] then [] else [Unicode(0x30, 0x30, HexDigitOf(t[0] / 16), HexDigitOf(t[0] % 16))] + SpellOut(t[1..])
  }

  lemma EscapedByte(b: Byte, more: Bytes)
    requires b < 0x80
    ensures var text := CharText(Unicode(0x30, 0x30, HexDigitOf(b / 16), HexDigitOf(b % 16))) + more;
            Unquote(text) == [b] + Unquote(more)
  {
    var high, low := HexDigitOf(b / 16), HexDigitOf(b % 16);
    var text := CharText(Unicode(0x30, 0x30, high, low)) + more;
    hide HexDigitOf, Unquote;
    assert StartsUnicode(text) && text[2..6] == [0x30, 0x30, high, low] && text[6..] == more;
    assert HexCode(text[2..6]) == b;
    UnquoteEscape(text);
    assert EncodeRune(b) == [b];
  }

  lemma UnquoteEscape(t: Bytes)
    requires StartsUnicode(t) && !HighSurrogate(HexCode(t[2..6])) && !LowSurrogate(HexCode(t[2..6]))
    ensures Unquote(t) == EncodeRune(HexCode(t[2..6])) + Unquote(t[6..])
  {
    hide EncodeRune, HexCode, DecodeRune;
  }

  /** The bound is attained: every ASCII text has a valid spelling six times as long that decodes to it. */
  lemma {:induction false} SpelledOut(t: Bytes)
    requires forall i :: 0 <= i < |t| ==> t[i] < 0x80
    ensures var cs := SpellOut(t);
            ValidChars(cs) && |CharsText(cs)| == 6 * |t| && Unquote(CharsText(cs)) == t
  {
    hide Unquote, HexDigitOf;
    if t != [] {
      var rest := t[1..];
      SpelledOut(rest);
      var cs := SpellOut(t);
      assert cs[1..] == SpellOut(rest);
      EscapedByte(t[0], CharsText(SpellOut(rest)));
      assert t == [t[0]] + rest;
    } else {
      UnquoteNothing();
    }
  }

  lemma UnquoteNothing()
    ensures Unquote([]) == []
  {
  }
}

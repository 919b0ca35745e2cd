/** What string literals mean (RFC 8259, section 7), character by character. */
module JsonText {
  import opened Common
  import opened Utf8
  import opened JsonGrammar
  import opened JsonDecode

  predicate IsAscii(s: string) {
    forall i :: 0 <= i < |s| ==> s[i] < '\U{80}'
  }

  function Ascii(s: string): Bytes
    requires IsAscii(s)
  {
    seq(|s|, (i: nat) requires i < |s| => s[i] as int)
  }

  // ----- UTF-8 by its table -----

  /** RFC 3629, section 3: the range of each length, and the payload bits of the bytes put together. */
  lemma EncodedAsTable(code: nat)
    ensures var b := EncodeRune(code);
            && (code < 0x80 ==> b == [code])
            && (0x80 <= code < 0x800 ==> |b| == 2 && 0xC0 <= b[0] < 0xE0 && Trails(b) && code == Bits(b, 0xC0))
            && (0x800 <= code < 0x10000 && Scalar(code) ==> |b| == 3 && 0xE0 <= b[0] < 0xF0 && Trails(b) && code == Bits(b, 0xE0))
            && (0x10000 <= code <= 0x10FFFF ==> |b| == 4 && 0xF0 <= b[0] < 0xF8 && Trails(b) && code == Bits(b, 0xF0))
            && (!Scalar(code) ==> b == [0xEF, 0xBF, 0xBD])
  {
    if 0x80 <= code < 0x800 { Table2(code); }
    if 0x800 <= code < 0x10000 && Scalar(code) { Table3(code); }
    if 0x10000 <= code <= 0x10FFFF { Table4(code); }
    hide Bits, Trails;
  }

  /** The payload bits of a lead byte and its continuation bytes. */
  function Bits(b: Bytes, lead: int): int
    requires b != []
  {
    if |b| == 1 then b[0] as int - lead else Bits(b[..|b| - 1], lead) * 64 + (b[|b| - 1] as int - 0x80)
  }

  lemma Table2(code: nat)
    requires 0x80 <= code < 0x800
    ensures var b := EncodeRune(code); |b| == 2 && 0xC0 <= b[0] < 0xE0 && Trails(b) && code == Bits(b, 0xC0)
  {
    var b := EncodeRune(code);
    assert b[..1] == [b[0]];
  }

  lemma Table3(code: nat)
    requires 0x800 <= code < 0x10000 && Scalar(code)
    ensures var b := EncodeRune(code); |b| == 3 && 0xE0 <= b[0] < 0xF0 && Trails(b) && code == Bits(b, 0xE0)
  {
    var b := EncodeRune(code);
    assert b[..2] == [b[0], b[1]] && b[..2][..1] == [b[0]];
    assert code / 64 == code / 4096 * 64 + code / 64 % 64;
    assert Bits([b[0]], 0xE0) == code / 4096;
  }

  lemma Table4(code: nat)
    requires 0x10000 <= code <= 0x10FFFF
    ensures var b := EncodeRune(code); |b| == 4 && 0xF0 <= b[0] < 0xF8 && Trails(b) && code == Bits(b, 0xF0)
  {
    var b := EncodeRune(code);
    assert b[..3] == [b[0], b[1], b[2]] && b[..3][..2] == [b[0], b[1]] && b[..2][..1] == [b[0]];
    assert code / 4096 == code / 262144 * 64 + code / 4096 % 64;
    assert code / 64 == code / 4096 * 64 + code / 64 % 64;
    assert Bits([b[0]], 0xF0) == code / 262144;
    assert Bits([b[0], b[1]], 0xF0) == code / 4096;
  }

  predicate Trails(b: Bytes) {
    forall i :: 1 <= i < |b| ==> 0x80 <= b[i] < 0xC0
  }

  /** A byte is malformed where no scalar value's encoding begins. */
  lemma MalformedIff(s: Bytes)
    requires s != []
    ensures Malformed(s) <==> forall code: nat :: Scalar(code) ==> !(EncodeRune(code) <= s)
  {
    hide DecodeRune, EncodeRune;
    if !Malformed(s) {
      ReencodeRune(s);
      DecodedScalar(s);
    }
    forall code: nat | Scalar(code) && EncodeRune(code) <= s ensures !Malformed(s) {
      DecodeEncoded(code, s[|EncodeRune(code)|..]);
      assert s == EncodeRune(code) + s[|EncodeRune(code)|..];
      if Malformed(s) { ReplacementLong(); }
    }
  }

  lemma ReplacementLong()
    ensures |EncodeRune(REPLACEMENT)| == 3
  {
  }

  // ----- pieces of a literal -----

  /** Four hexadecimal digits with their values. */
  datatype Hex4 = Hex4(digits: Bytes, values: seq<nat>)

  predicate HexOk(h: Hex4) {
    && |h.digits| == 4 && |h.values| == 4
    && forall i :: 0 <= i < 4 ==>
         h.values[i] < 16 && h.digits[i] as char in {"0123456789abcdef"[h.values[i]], "0123456789ABCDEF"[h.values[i]]}
  }

  function CodeOf(h: Hex4): nat
    requires HexOk(h)
  {
    h.values[0] * 4096 + h.values[1] * 256 + h.values[2] * 16 + h.values[3]
  }

  const NAMES := "\"\\/bfnrt"
  const MEANINGS: Bytes := [0x22, 0x5C, 0x2F, 0x08, 0x0C, 0x0A, 0x0D, 0x09]
  const BROKEN: Bytes := [0xEF, 0xBF, 0xBD]

  /** A character as it stands, a two-character escape, a four-digit escape, two of them for one character
      beyond the basic plane, or a byte that is no part of UTF-8. */
  datatype Piece = Raw(code: nat) | Named(i: nat) | Code(h: Hex4) | Pair(high: Hex4, low: Hex4) | Stray(b: Byte)

  predicate PieceOk(p: Piece) {
    match p
    case Raw(code) => Scalar(code) && code != 0x5C
    case Named(i) => i < 8
    case Code(h) => HexOk(h)
    case Pair(high, low) => HexOk(high) && HexOk(low) && 0xD800 <= CodeOf(high) <= 0xDBFF && 0xDC00 <= CodeOf(low) <= 0xDFFF
    case Stray(b) => b >= 0x80
  }

  function EscapeText(h: Hex4): Bytes {
    [0x5C, 'u' as int] + h.digits
  }

  function Spelling(p: Piece): (t: Bytes)
    requires PieceOk(p)
    ensures t != []
  {
    match p
    case Raw(code) => EncodeRune(code)
    case Named(i) => [0x5C, NAMES[i] as int]
    case Code(h) => EscapeText(h)
    case Pair(high, low) => EscapeText(high) + EscapeText(low)
    case Stray(b) => [b]
  }

  function Meaning(p: Piece): Bytes
    requires PieceOk(p)
  {
    match p
    case Raw(code) => EncodeRune(code)
    case Named(i) => [MEANINGS[i]]
    case Code(h) => if 0xD800 <= CodeOf(h) <= 0xDFFF then BROKEN else EncodeRune(CodeOf(h))
    case Pair(high, low) => EncodeRune(0x10000 + (CodeOf(high) - 0xD800) * 1024 + (CodeOf(low) - 0xDC00))
    case Stray(b) => BROKEN
  }

  /** An escaped low surrogate begins the text. */
  ghost predicate LowFollows(t: Bytes) {
    exists h :: HexOk(h) && 0xDC00 <= CodeOf(h) <= 0xDFFF && EscapeText(h) <= t
  }

  /** The piece may stand before the text: surrogates that make a pair are one piece, and a stray byte
      begins no character. */
  ghost predicate MayPrecede(p: Piece, rest: Bytes)
    requires PieceOk(p)
  {
    && (p.Code? && 0xD800 <= CodeOf(p.h) <= 0xDBFF ==> !LowFollows(rest))
    && (p.Stray? ==> forall code: nat :: Scalar(code) ==> !(EncodeRune(code) <= [p.b] + rest))
  }

  ghost predicate PiecesOk(ps: seq<Piece>) {
    (forall p :: p in ps ==> PieceOk(p)) && (ps == [] || (PiecesOk(ps[1..]) && MayPrecede(ps[0], SpellAll(ps[1..]))))
  }

  function SpellAll(ps: seq<Piece>): Bytes
    requires forall p :: p in ps ==> PieceOk(p)
  {
    if ps == [] then [] else Spelling(ps[0]) + SpellAll(ps[1..])
  }

  function MeanAll(ps: seq<Piece>): Bytes
    requires forall p :: p in ps ==> PieceOk(p)
  {
    if ps == [] then [] else Meaning(ps[0]) + MeanAll(ps[1..])
  }

  // ----- hexadecimal digits -----

  lemma DigitValue(b: Byte, v: nat)
    requires v < 16
    ensures b as char in {"0123456789abcdef"[v], "0123456789ABCDEF"[v]} <==> IsHex(b) && HexValue(b) == v
  {
    assert "0123456789abcdef"[v] as int == if v < 10 then 0x30 + v else 0x57 + v;
    assert "0123456789ABCDEF"[v] as int == if v < 10 then 0x30 + v else 0x37 + v;
  }

  lemma HexIs(h: Hex4)
    requires HexOk(h)
    ensures (forall i :: 0 <= i < 4 ==> IsHex(h.digits[i])) && HexCode(h.digits) == CodeOf(h)
  {
    forall i | 0 <= i < 4 ensures IsHex(h.digits[i]) && HexValue(h.digits[i]) == h.values[i] {
      DigitValue(h.digits[i], h.values[i]);
    }
    hide IsHex, HexValue;
  }

  /** A four-digit escape at the head of a text, taken apart. */
  lemma EscapeHead(h: Hex4, rest: Bytes)
    requires HexOk(h)
    ensures StartsUnicode(EscapeText(h) + rest) && HexCode((EscapeText(h) + rest)[2..6]) == CodeOf(h)
    ensures (EscapeText(h) + rest)[6..] == rest
  {
    HexIs(h);
    hide HexCode, IsHex, CodeOf;
    assert (EscapeText(h) + rest)[2..6] == h.digits;
  }

  function DigitsOf(d: Bytes): (h: Hex4)
    requires |d| == 4 && forall i :: 0 <= i < 4 ==> IsHex(d[i])
  {
    Hex4(d, [HexValue(d[0]), HexValue(d[1]), HexValue(d[2]), HexValue(d[3])])
  }

  lemma DigitsOk(d: Bytes)
    requires |d| == 4 && forall i :: 0 <= i < 4 ==> IsHex(d[i])
    ensures HexOk(DigitsOf(d)) && CodeOf(DigitsOf(d)) == HexCode(d)
  {
    var h := DigitsOf(d);
    forall i | 0 <= i < 4
      ensures h.values[i] < 16 && h.digits[i] as char in {"0123456789abcdef"[h.values[i]], "0123456789ABCDEF"[h.values[i]]}
    {
      DigitValue(d[i], h.values[i]);
    }
    hide IsHex, HexValue;
    HexIs(h);
  }

  lemma LowFollowsIff(t: Bytes)
    ensures LowFollows(t) <==> StartsUnicode(t) && LowSurrogate(HexCode(t[2..6]))
  {
    hide HexCode, IsHex, CodeOf, HexOk;
    if LowFollows(t) {
      var h :| HexOk(h) && 0xDC00 <= CodeOf(h) <= 0xDFFF && EscapeText(h) <= t;
      assert t == EscapeText(h) + t[|EscapeText(h)|..];
      EscapeHead(h, t[|EscapeText(h)|..]);
    }
    if StartsUnicode(t) && LowSurrogate(HexCode(t[2..6])) {
      DigitsOk(t[2..6]);
      assert EscapeText(DigitsOf(t[2..6])) <= t;
    }
  }

  // ----- the value of one piece -----

  lemma UnquoteRaw(code: nat, rest: Bytes)
    requires Scalar(code) && code != 0x5C
    ensures Unquote(EncodeRune(code) + rest) == EncodeRune(code) + Unquote(rest)
  {
    var t := EncodeRune(code) + rest;
    DecodeEncoded(code, rest);
    assert t[|EncodeRune(code)|..] == rest;
    if code >= 0x80 { assert t[0] >= 0x80; }
    hide DecodeRune, HexCode;
  }

  lemma UnquoteNamed(i: nat, rest: Bytes)
    requires i < 8
    ensures Unquote([0x5C, NAMES[i] as int] + rest) == [MEANINGS[i]] + Unquote(rest)
  {
    hide HexCode, DecodeRune, EncodeRune;
    var t := [0x5C, NAMES[i] as int] + rest;
    assert t[2..] == rest && !StartsUnicode(t);
  }

  lemma UnquoteCode(h: Hex4, rest: Bytes)
    requires HexOk(h) && (0xD800 <= CodeOf(h) <= 0xDBFF ==> !LowFollows(rest))
    ensures Unquote(EscapeText(h) + rest) == Meaning(Code(h)) + Unquote(rest)
  {
    hide HexCode, HexOk, CodeOf, DecodeRune, IsHex, LowFollows;
    EscapeHead(h, rest);
    LowFollowsIff(rest);
    BrokenRune(CodeOf(h));
    hide EncodeRune;
  }

  lemma BrokenRune(code: nat)
    ensures 0xD800 <= code <= 0xDFFF || code == REPLACEMENT ==> EncodeRune(code) == BROKEN
  {
  }

  lemma UnquotePair(high: Hex4, low: Hex4, rest: Bytes)
    requires PieceOk(Pair(high, low))
    ensures Unquote(EscapeText(high) + EscapeText(low) + rest) == Meaning(Pair(high, low)) + Unquote(rest)
  {
    hide HexCode, HexOk, CodeOf, DecodeRune, EncodeRune, IsHex;
    var t := EscapeText(high) + (EscapeText(low) + rest);
    assert t == EscapeText(high) + EscapeText(low) + rest;
    EscapeHead(high, EscapeText(low) + rest);
    EscapeHead(low, rest);
    assert t[12..] == t[6..][6..];
  }

  lemma UnquoteStray(b: Byte, rest: Bytes)
    requires b >= 0x80 && forall code: nat :: Scalar(code) ==> !(EncodeRune(code) <= [b] + rest)
    ensures Unquote([b] + rest) == BROKEN + Unquote(rest)
  {
    hide HexCode, DecodeRune, EncodeRune, Scalar;
    MalformedIff([b] + rest);
    BrokenRune(REPLACEMENT);
    assert ([b] + rest)[1..] == rest;
  }

  lemma UnquotePiece(p: Piece, rest: Bytes)
    requires PieceOk(p) && MayPrecede(p, rest)
    ensures Unquote(Spelling(p) + rest) == Meaning(p) + Unquote(rest)
  {
    hide Unquote, EncodeRune, LowFollows, CodeOf, HexOk, Scalar, EscapeText;
    match p
    case Raw(code) => UnquoteRaw(code, rest);
    case Named(i) => UnquoteNamed(i, rest);
    case Code(h) => UnquoteCode(h, rest);
    case Pair(high, low) => UnquotePair(high, low, rest);
    case Stray(b) => UnquoteStray(b, rest);
  }

  /** A literal's value is the meanings of its pieces, one after the other. */
  lemma {:induction false} MeaningOfText(ps: seq<Piece>)
    requires PiecesOk(ps)
    ensures Unquote(SpellAll(ps)) == MeanAll(ps)
  {
    hide Unquote, Spelling, Meaning, PieceOk, MayPrecede;
    if ps == [] {
      UnquoteNothing();
    } else {
      MeaningOfText(ps[1..]);
      UnquotePiece(ps[0], SpellAll(ps[1..]));
    }
  }

  // ----- every literal has pieces -----

  /** Every backslash starts an escape. */
  predicate WellEscaped(t: Bytes) {
    t == [] ||
    (if t[0] != BACKSLASH then WellEscaped(t[1..])
     else if StartsUnicode(t) then WellEscaped(t[6..])
     else |t| >= 2 && SimpleEscape(t[1]) && WellEscaped(t[2..]))
  }

  lemma {:induction false} CharsEscaped(cs: seq<Char>)
    requires ValidChars(cs)
    ensures WellEscaped(CharsText(cs))
  {
    if cs != [] {
      CharsEscaped(cs[1..]);
      assert ValidChar(cs[0]);
      var c, rest := cs[0], CharsText(cs[1..]);
      var t := CharText(c) + rest;
      assert t[|CharText(c)|..] == rest;
      assert c.Escape? ==> t[1] == c.b && !StartsUnicode(t);
    }
  }

  lemma PiecesJoin(p: Piece, ps: seq<Piece>)
    requires PieceOk(p) && PiecesOk(ps) && MayPrecede(p, SpellAll(ps))
    ensures PiecesOk([p] + ps) && SpellAll([p] + ps) == Spelling(p) + SpellAll(ps)
  {
    hide PieceOk, MayPrecede, Spelling;
    assert ([p] + ps)[1..] == ps;
  }

  lemma {:induction false} DropPlain(t: Bytes, n: nat)
    requires WellEscaped(t) && n <= |t| && forall i :: 0 <= i < n ==> t[i] != BACKSLASH
    ensures WellEscaped(t[n..])
  {
    if n == 0 {
      assert t[0..] == t;
    } else {
      DropPlain(t[1..], n - 1);
      assert t[1..][n - 1..] == t[n..];
    }
  }

  /** Behind the first byte of a character come only bytes that are no backslash. */
  lemma CharacterEscaped(t: Bytes)
    requires WellEscaped(t) && t != [] && t[0] != BACKSLASH && !Malformed(t)
    ensures WellEscaped(t[DecodeRune(t).size..])
  {
    assert forall i :: 1 <= i < DecodeRune(t).size ==> t[i] >= 0x80;
    hide DecodeRune;
    DropPlain(t, DecodeRune(t).size);
  }

  lemma {:induction false} PiecesExist(t: Bytes) returns (ps: seq<Piece>)
    requires WellEscaped(t)
    ensures PiecesOk(ps) && SpellAll(ps) == t
    decreases |t|
  {
    hide PiecesOk, SpellAll, HexCode, DecodeRune, EncodeRune, MayPrecede, StartsUnicode;
    if t == [] {
      ps := [];
      NoPieces();
    } else if t[0] != BACKSLASH {
      if Malformed(t) {
        ps := PiecesExist(t[1..]);
        LeadStays(t);
        StrayFirst(t, ps);
        ps := [Stray(t[0])] + ps;
      } else {
        CharacterEscaped(t);
        ps := PiecesExist(t[DecodeRune(t).size..]);
        RawFirst(t, ps);
        ps := [Raw(DecodeRune(t).code)] + ps;
      }
    } else if StartsUnicode(t) {
      ps := PiecesFromUnicode(t);
    } else {
      ps := PiecesExist(t[2..]);
      var i := NameOf(t[1]);
      NamedFirst(t, i, ps);
      ps := [Named(i)] + ps;
    }
  }

  lemma {:induction false} PiecesFromUnicode(t: Bytes) returns (ps: seq<Piece>)
    requires WellEscaped(t) && StartsUnicode(t)
    ensures PiecesOk(ps) && SpellAll(ps) == t
    decreases |t|, 0
  {
    hide PiecesOk, SpellAll, HexCode, IsHex, MayPrecede;
    var rest := t[6..];
    if HighSurrogate(HexCode(t[2..6])) && StartsUnicode(rest) && LowSurrogate(HexCode(rest[2..6])) {
      assert WellEscaped(rest);
      assert rest[6..] == t[12..];
      ps := PiecesExist(t[12..]);
      PairFirst(t, ps);
      ps := [Pair(DigitsOf(t[2..6]), DigitsOf(t[6..][2..6]))] + ps;
    } else {
      ps := PiecesExist(rest);
      CodeFirst(t, ps);
      ps := [Code(DigitsOf(t[2..6]))] + ps;
    }
  }

  lemma NoPieces()
    ensures PiecesOk([]) && SpellAll([]) == []
  {
  }

  lemma LeadStays(t: Bytes)
    requires t != [] && Malformed(t)
    ensures t[0] >= 0x80
  {
  }

  lemma StrayFirst(t: Bytes, ps: seq<Piece>)
    requires t != [] && Malformed(t) && t[0] >= 0x80 && PiecesOk(ps) && SpellAll(ps) == t[1..]
    ensures PiecesOk([Stray(t[0])] + ps) && SpellAll([Stray(t[0])] + ps) == t
  {
    hide PiecesOk, SpellAll, DecodeRune, EncodeRune, Scalar;
    MalformedIff(t);
    assert t == [t[0]] + t[1..];
    PiecesJoin(Stray(t[0]), ps);
  }

  lemma RawFirst(t: Bytes, ps: seq<Piece>)
    requires t != [] && !Malformed(t) && t[0] != BACKSLASH && PiecesOk(ps) && SpellAll(ps) == t[DecodeRune(t).size..]
    ensures var p := Raw(DecodeRune(t).code); PiecesOk([p] + ps) && SpellAll([p] + ps) == t
  {
    hide PiecesOk, SpellAll, EncodeRune;
    ReencodeRune(t);
    DecodedScalar(t);
    EncodedAsTable(DecodeRune(t).code);
    hide DecodeRune;
    assert t == t[..DecodeRune(t).size] + t[DecodeRune(t).size..];
    PiecesJoin(Raw(DecodeRune(t).code), ps);
  }

  lemma NameOf(b: Byte) returns (i: nat)
    requires SimpleEscape(b)
    ensures i < 8 && NAMES[i] as int == b
  {
    i := if b == 0x22 then 0 else if b == 0x5C then 1 else if b == 0x2F then 2 else if b == 0x62 then 3
         else if b == 0x66 then 4 else if b == 0x6E then 5 else if b == 0x72 then 6 else 7;
  }

  lemma NamedFirst(t: Bytes, i: nat, ps: seq<Piece>)
    requires |t| >= 2 && t[0] == BACKSLASH && i < 8 && NAMES[i] as int == t[1] && PiecesOk(ps) && SpellAll(ps) == t[2..]
    ensures PiecesOk([Named(i)] + ps) && SpellAll([Named(i)] + ps) == t
  {
    hide PiecesOk, SpellAll;
    assert t == [t[0], t[1]] + t[2..];
    PiecesJoin(Named(i), ps);
  }

  lemma EscapeIs(t: Bytes)
    requires StartsUnicode(t)
    ensures HexOk(DigitsOf(t[2..6])) && CodeOf(DigitsOf(t[2..6])) == HexCode(t[2..6])
    ensures t == EscapeText(DigitsOf(t[2..6])) + t[6..]
  {
    DigitsOk(t[2..6]);
    hide HexCode, HexOk, CodeOf, IsHex;
  }

  lemma CodeFirst(t: Bytes, ps: seq<Piece>)
    requires StartsUnicode(t) && PiecesOk(ps) && SpellAll(ps) == t[6..]
    requires !(HighSurrogate(HexCode(t[2..6])) && StartsUnicode(t[6..]) && LowSurrogate(HexCode(t[6..][2..6])))
    ensures var p := Code(DigitsOf(t[2..6])); PiecesOk([p] + ps) && SpellAll([p] + ps) == t
  {
    hide PiecesOk, SpellAll, HexCode, HexOk, CodeOf, IsHex, LowFollows;
    EscapeIs(t);
    LowFollowsIff(t[6..]);
    PiecesJoin(Code(DigitsOf(t[2..6])), ps);
  }

  lemma PairFirst(t: Bytes, ps: seq<Piece>)
    requires StartsUnicode(t) && HighSurrogate(HexCode(t[2..6])) && StartsUnicode(t[6..]) && LowSurrogate(HexCode(t[6..][2..6]))
    requires |t| >= 12 && PiecesOk(ps) && SpellAll(ps) == t[12..]
    ensures var p := Pair(DigitsOf(t[2..6]), DigitsOf(t[6..][2..6])); PiecesOk([p] + ps) && SpellAll([p] + ps) == t
  {
    hide PiecesOk, SpellAll, HexCode, HexOk, CodeOf, IsHex, EscapeText;
    EscapeIs(t);
    EscapeIs(t[6..]);
    assert t[6..][6..] == t[12..];
    PiecesJoin(Pair(DigitsOf(t[2..6]), DigitsOf(t[6..][2..6])), ps);
  }

  /** Every literal of the grammar is made of such pieces, so its value is what section 7 says. */
  lemma EveryLiteralMeans(cs: seq<Char>)
    requires ValidChars(cs)
    ensures exists ps: seq<Piece> :: PiecesOk(ps) && SpellAll(ps) == CharsText(cs) && Unquote(CharsText(cs)) == MeanAll(ps)
  {
    CharsEscaped(cs);
    var ps := PiecesExist(CharsText(cs));
    MeaningOfText(ps);
    hide Unquote, PiecesOk, SpellAll;
  }

  // ----- plain text -----

  /** Text of ASCII characters without a backslash stands for itself. */
  lemma {:induction false} PlainAscii(t: Bytes)
    requires forall i :: 0 <= i < |t| ==> t[i] < 0x80 && t[i] != 0x5C
    ensures Unquote(t) == t
  {
    if t == [] {
      UnquoteNothing();
    } else {
      PlainAscii(t[1..]);
      assert t == EncodeRune(t[0]) + t[1..];
      UnquoteRaw(t[0], t[1..]);
    }
  }

  /** UTF-8 text without a backslash stands for itself. */
  lemma {:induction false} PlainText(codes: seq<nat>)
    requires forall i :: 0 <= i < |codes| ==> Scalar(codes[i]) && codes[i] != 0x5C
    ensures Unquote(EncodeAll(codes)) == EncodeAll(codes)
  {
    hide Unquote, EncodeRune;
    if codes == [] {
      UnquoteNothing();
    } else {
      PlainText(codes[1..]);
      UnquoteRaw(codes[0], EncodeAll(codes[1..]));
    }
  }

  // ----- the alphabet of the grammar -----

  /** The single characters the grammar is made of, by name. */
  lemma Alphabet(b: Byte)
    ensures IsSpace(b) <==> b as char in " \t\n\r"
    ensures IsDigit(b) <==> b as char in "0123456789"
    ensures IsHex(b) <==> b as char in "0123456789abcdefABCDEF"
    ensures SimpleEscape(b) <==> b as char in "\"\\/bfnrt"
    ensures ValidChar(Plain(b)) <==> b >= 0x20 && b as char !in "\"\\"
  {
  }

  lemma Tokens()
    ensures [OPEN_OBJECT, CLOSE_OBJECT, OPEN_ARRAY, CLOSE_ARRAY, COLON, COMMA, QUOTE, BACKSLASH, LOWER_U] == Ascii("{}[]:,\"\\u")
    ensures [MINUS, PLUS, DOT, ZERO] == Ascii("-+.0")
    ensures TRUE_TEXT == Ascii("true") && FALSE_TEXT == Ascii("false") && NULL_TEXT == Ascii("null")
  {
  }
}

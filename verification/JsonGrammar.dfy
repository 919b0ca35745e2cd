/** The byte-level grammar of RFC 8259, sections 2 to 7, as derivation trees and their texts. */
module JsonGrammar {
  import opened Common
  import opened Utf8

  const QUOTE: Byte := 0x22
  const BACKSLASH: Byte := 0x5C
  const COMMA: Byte := 0x2C
  const COLON: Byte := 0x3A
  const OPEN_OBJECT: Byte := 0x7B
  const CLOSE_OBJECT: Byte := 0x7D
  const OPEN_ARRAY: Byte := 0x5B
  const CLOSE_ARRAY: Byte := 0x5D
  const MINUS: Byte := 0x2D
  const PLUS: Byte := 0x2B
  const DOT: Byte := 0x2E
  const ZERO: Byte := 0x30
  const LOWER_U: Byte := 0x75

  const TRUE_TEXT: Bytes := [0x74, 0x72, 0x75, 0x65]
  const FALSE_TEXT: Bytes := [0x66, 0x61, 0x6C, 0x73, 0x65]
  const NULL_TEXT: Bytes := [0x6E, 0x75, 0x6C, 0x6C]

  /** Section 2: insignificant whitespace. */
  predicate IsSpace(b: Byte) {
    b == 0x20 || b == 0x09 || b == 0x0A || b == 0x0D
  }

  predicate AllSpace(s: Bytes) {
    forall i :: 0 <= i < |s| ==> IsSpace(s[i])
  }

  predicate IsDigit(b: Byte) {
    0x30 <= b <= 0x39
  }

  predicate IsHex(b: Byte) {
    IsDigit(b) || 0x61 <= b <= 0x66 || 0x41 <= b <= 0x46
  }

  predicate AllDigits(s: Bytes) {
    forall i :: 0 <= i < |s| ==> IsDigit(s[i])
  }

  // ----- section 7: strings -----

  datatype Char =
    | Plain(b: Byte)
    | Escape(b: Byte)
    | Unicode(h0: Byte, h1: Byte, h2: Byte, h3: Byte)

  predicate SimpleEscape(b: Byte) {
    b in {0x22, 0x5C, 0x2F, 0x62, 0x66, 0x6E, 0x72, 0x74}
  }

  predicate ValidChar(c: Char) {
    match c
    case Plain(b) => b >= 0x20 && b != QUOTE && b != BACKSLASH
    case Escape(b) => SimpleEscape(b)
    case Unicode(h0, h1, h2, h3) => IsHex(h0) && IsHex(h1) && IsHex(h2) && IsHex(h3)
  }

  predicate ValidChars(cs: seq<Char>) {
    forall i :: 0 <= i < |cs| ==> ValidChar(cs[i])
  }

  function CharText(c: Char): (t: Bytes)
    ensures |t| > 0
  {
    match c
    case Plain(b) => [b]
    case Escape(b) => [BACKSLASH, b]
    case Unicode(h0, h1, h2, h3) => [BACKSLASH, LOWER_U, h0, h1, h2, h3]
  }

  function CharsText(cs: seq<Char>): Bytes {
    if cs == [] then [] else CharText(cs[0]) + CharsText(cs[1..])
  }

  function StringText(cs: seq<Char>): Bytes {
    [QUOTE] + CharsText(cs) + [QUOTE]
  }

  // ----- section 6: numbers -----

  datatype Exponent = Exponent(mark: Byte, sign: Option<Byte>, digits: Bytes)

  datatype Number = Number(minus: bool, whole: Bytes, frac: Option<Bytes>, exp: Option<Exponent>)

  predicate ValidExponent(e: Exponent) {
    && (e.mark == 0x65 || e.mark == 0x45) && (e.sign.Some? ==> e.sign.value == PLUS || e.sign.value == MINUS)
    && e.digits != [] && AllDigits(e.digits)
  }

  predicate ValidNumber(n: Number) {
    && n.whole != [] && AllDigits(n.whole) && (n.whole[0] == ZERO ==> |n.whole| == 1)
    && (n.frac.Some? ==> n.frac.value != [] && AllDigits(n.frac.value))
    && (n.exp.Some? ==> ValidExponent(n.exp.value))
  }

  function FracText(frac: Option<Bytes>): Bytes {
    if frac.Some? then [DOT] + frac.value else []
  }

  function ExpText(exp: Option<Exponent>): Bytes {
    if exp.None? then []
    else [exp.value.mark] + (if exp.value.sign.Some? then [exp.value.sign.value] else []) + exp.value.digits
  }

  function NumberText(n: Number): Bytes {
    (if n.minus then [MINUS] else []) + (n.whole + (FracText(n.frac) + ExpText(n.exp)))
  }

  // ----- sections 3 to 5: values, objects and arrays -----

  /** An empty container holds only the whitespace `gap`. */
  datatype Value =
    | Literal(text: Bytes)
    | Num(number: Number)
    | Str(chars: seq<Char>)
    | Arr(gap: Bytes, elements: Elements)
    | Obj(gap: Bytes, members: Members)

  datatype Elements =
    | NoElements
    | Elements(before: Bytes, value: Value, after: Bytes, rest: Elements)

  datatype Members =
    | NoMembers
    | Members(before: Bytes, key: seq<Char>, afterKey: Bytes, beforeValue: Bytes, value: Value, after: Bytes, rest: Members)

  function ValueText(v: Value): (t: Bytes)
    decreases v, 1
  {
    match v
    case Literal(text) => text
    case Num(n) => NumberText(n)
    case Str(cs) => StringText(cs)
    case Arr(gap, es) => [OPEN_ARRAY] + ((if es.NoElements? then gap else ElementsText(es)) + [CLOSE_ARRAY])
    case Obj(gap, ms) => [OPEN_OBJECT] + ((if ms.NoMembers? then gap else MembersText(ms)) + [CLOSE_OBJECT])
  }

  function ElementsText(es: Elements): Bytes
    decreases es, 0
  {
    match es
    case NoElements => []
    case Elements(before, v, after, rest) =>
      before + (ValueText(v) + (after + (if rest.NoElements? then [] else [COMMA] + ElementsText(rest))))
  }

  function MembersText(ms: Members): Bytes
    decreases ms, 0
  {
    match ms
    case NoMembers => []
    case Members(before, key, afterKey, beforeValue, v, after, rest) =>
      before + (StringText(key) + (afterKey + ([COLON] + (beforeValue + (ValueText(v) +
        (after + (if rest.NoMembers? then [] else [COMMA] + MembersText(rest))))))))
  }

  predicate ValidValue(v: Value)
    decreases v, 1
  {
    match v
    case Literal(text) => text in {TRUE_TEXT, FALSE_TEXT, NULL_TEXT}
    case Num(n) => ValidNumber(n)
    case Str(cs) => ValidChars(cs)
    case Arr(gap, es) => AllSpace(gap) && ValidElements(es)
    case Obj(gap, ms) => AllSpace(gap) && ValidMembers(ms)
  }

  predicate ValidElements(es: Elements)
    decreases es, 0
  {
    es.NoElements? || (AllSpace(es.before) && ValidValue(es.value) && AllSpace(es.after) && ValidElements(es.rest))
  }

  predicate ValidMembers(ms: Members)
    decreases ms, 0
  {
    ms.NoMembers? ||
    (AllSpace(ms.before) && ValidChars(ms.key) && AllSpace(ms.afterKey) && AllSpace(ms.beforeValue)
     && ValidValue(ms.value) && AllSpace(ms.after) && ValidMembers(ms.rest))
  }

  // ----- nesting -----

  function MaxOf(a: nat, b: nat): nat {
    if a > b then a else b
  }

  /** How many containers deep a value nests. */
  function Nesting(v: Value): nat
    decreases v, 1
  {
    match v
    case Arr(_, es) => 1 + ElementsNesting(es)
    case Obj(_, ms) => 1 + MembersNesting(ms)
    case _ => 0
  }

  function ElementsNesting(es: Elements): nat
    decreases es, 0
  {
    if es.NoElements? then 0 else MaxOf(Nesting(es.value), ElementsNesting(es.rest))
  }

  function MembersNesting(ms: Members): nat
    decreases ms, 0
  {
    if ms.NoMembers? then 0 else MaxOf(Nesting(ms.value), MembersNesting(ms.rest))
  }

  // ----- a document: one object surrounded by whitespace -----

  datatype Document = Document(lead: Bytes, gap: Bytes, members: Members, trail: Bytes)

  predicate ValidDocument(d: Document) {
    AllSpace(d.lead) && AllSpace(d.gap) && ValidMembers(d.members) && AllSpace(d.trail)
  }

  function DocumentText(d: Document): Bytes {
    d.lead + (ValueText(Obj(d.gap, d.members)) + d.trail)
  }
}

/** What the recogniser of hook input does to the bytes ahead of its cursor. */
module JsonScan {
  import opened Common
  import opened Utf8
  import opened JsonGrammar

  const MAX_DEPTH := 128

  function SkipSpaces(s: Bytes): (r: Bytes)
    ensures |r| <= |s| && (r != [] ==> !IsSpace(r[0]))
  {
    if s != [] && IsSpace(s[0]) then SkipSpaces(s[1..]) else s
  }

  /** Consuming one expected byte after whitespace. */
  function Expect(s: Bytes, b: Byte): (r: Option<Bytes>)
    ensures r.Some? ==> |r.value| < |s|
  {
    var t := SkipSpaces(s);
    if t != [] && t[0] == b then Some(t[1..]) else None
  }

  datatype Scanned = Scanned(chars: seq<Char>, rest: Bytes)

  function Prepend(c: Char, s: Option<Scanned>): Option<Scanned> {
    if s.Some? then Some(Scanned([c] + s.value.chars, s.value.rest)) else None
  }

  /** The rest of a string whose opening quote was consumed. */
  function ScanString(s: Bytes): (r: Option<Scanned>)
    ensures r.Some? ==> |r.value.rest| < |s|
  {
    if s == [] then None
    else if s[0] == QUOTE then Some(Scanned([], s[1..]))
    else if s[0] == BACKSLASH then
      if |s| >= 2 && SimpleEscape(s[1]) then Prepend(Escape(s[1]), ScanString(s[2..]))
      else if |s| >= 6 && s[1] == LOWER_U && IsHex(s[2]) && IsHex(s[3]) && IsHex(s[4]) && IsHex(s[5]) then
        Prepend(Unicode(s[2], s[3], s[4], s[5]), ScanString(s[6..]))
      else None
    else if s[0] < 0x20 then None
    else Prepend(Plain(s[0]), ScanString(s[1..]))
  }

  predicate Boundary(b: Byte) {
    IsSpace(b) || b == COMMA || b == CLOSE_ARRAY || b == CLOSE_OBJECT
  }

  predicate AtBoundary(s: Bytes) {
    s == [] || Boundary(s[0])
  }

  /** The rest of a literal name. */
  function SkipLiteral(s: Bytes, remainder: Bytes): (r: Option<Bytes>)
    ensures r.Some? ==> |r.value| <= |s|
  {
    if remainder == [] then if AtBoundary(s) then Some(s) else None
    else if s != [] && s[0] == remainder[0] then SkipLiteral(s[1..], remainder[1..])
    else None
  }

  function SkipDigits(s: Bytes): (r: Bytes)
    ensures |r| <= |s| && (r != [] ==> !IsDigit(r[0]))
  {
    if s != [] && IsDigit(s[0]) then SkipDigits(s[1..]) else s
  }

  /** The integer part, whose first byte is `s[0]`. */
  function SkipWhole(s: Bytes): (r: Option<Bytes>)
    ensures r.Some? ==> |r.value| < |s|
  {
    if s == [] || !IsDigit(s[0]) then None
    else if s[0] == ZERO then if |s| > 1 && IsDigit(s[1]) then None else Some(s[1..])
    else Some(SkipDigits(s[1..]))
  }

  function SkipFraction(s: Bytes): (r: Option<Bytes>)
    ensures r.Some? ==> |r.value| <= |s|
  {
    if s == [] || s[0] != DOT then Some(s)
    else if SkipDigits(s[1..]) == s[1..] then None else Some(SkipDigits(s[1..]))
  }

  function SkipExponent(s: Bytes): (r: Option<Bytes>)
    ensures r.Some? ==> |r.value| <= |s|
  {
    if s == [] || (s[0] != 0x65 && s[0] != 0x45) then Some(s)
    else
      var t := if |s| > 1 && (s[1] == PLUS || s[1] == MINUS) then s[2..] else s[1..];
      if SkipDigits(t) == t then None else Some(SkipDigits(t))
  }

  function SkipNumber(s: Bytes): (r: Option<Bytes>)
    ensures r.Some? ==> |r.value| < |s|
  {
    var whole := SkipWhole(if s != [] && s[0] == MINUS then s[1..] else s);
    if whole.None? then None
    else
      var frac := SkipFraction(whole.value);
      if frac.None? then None
      else
        var exp := SkipExponent(frac.value);
        if exp.Some? && AtBoundary(exp.value) then exp else None
  }

  /** One value at nesting depth `depth`. */
  function SkipValue(s: Bytes, depth: nat): (r: Option<Bytes>)
    ensures r.Some? ==> |r.value| < |s|
    decreases |s|, 1
  {
    var t := SkipSpaces(s);
    if depth > MAX_DEPTH || t == [] then None
    else if t[0] == QUOTE then
      var scanned := ScanString(t[1..]);
      if scanned.Some? then Some(scanned.value.rest) else None
    else if t[0] == OPEN_OBJECT then SkipObject(t[1..], depth + 1)
    else if t[0] == OPEN_ARRAY then SkipArray(t[1..], depth + 1)
    else if t[0] == TRUE_TEXT[0] then SkipLiteral(t[1..], TRUE_TEXT[1..])
    else if t[0] == FALSE_TEXT[0] then SkipLiteral(t[1..], FALSE_TEXT[1..])
    else if t[0] == NULL_TEXT[0] then SkipLiteral(t[1..], NULL_TEXT[1..])
    else if t[0] == MINUS || IsDigit(t[0]) then SkipNumber(t)
    else None
  }

  /** The rest of an object whose brace was consumed. */
  function SkipObject(s: Bytes, depth: nat): (r: Option<Bytes>)
    ensures r.Some? ==> |r.value| < |s|
    decreases |s|, 3
  {
    if depth > MAX_DEPTH then None
    else
      var t := SkipSpaces(s);
      if t != [] && t[0] == CLOSE_OBJECT then Some(t[1..]) else SkipMembers(s, depth)
  }

  function SkipMembers(s: Bytes, depth: nat): (r: Option<Bytes>)
    ensures r.Some? ==> |r.value| < |s|
    decreases |s|, 2
  {
    var key := Expect(s, QUOTE);
    if key.None? then None
    else
      var scanned := ScanString(key.value);
      if scanned.None? then None
      else
        var colon := Expect(scanned.value.rest, COLON);
        if colon.None? then None
        else
          var v := SkipValue(colon.value, depth);
          if v.None? then None
          else
            var t := SkipSpaces(v.value);
            if t == [] then None
            else if t[0] == CLOSE_OBJECT then Some(t[1..])
            else if t[0] == COMMA && !Closes(t[1..], CLOSE_OBJECT) then SkipMembers(t[1..], depth)
            else None
  }

  /** After a comma: nothing but whitespace left, or the container closes at once. */
  predicate Closes(s: Bytes, close: Byte) {
    var t := SkipSpaces(s);
    t == [] || t[0] == close
  }

  function SkipArray(s: Bytes, depth: nat): (r: Option<Bytes>)
    ensures r.Some? ==> |r.value| < |s|
    decreases |s|, 3
  {
    if depth > MAX_DEPTH then None
    else
      var t := SkipSpaces(s);
      if t != [] && t[0] == CLOSE_ARRAY then Some(t[1..]) else SkipElements(s, depth)
  }

  function SkipElements(s: Bytes, depth: nat): (r: Option<Bytes>)
    ensures r.Some? ==> |r.value| < |s|
    decreases |s|, 2
  {
    var v := SkipValue(s, depth);
    if v.None? then None
    else
      var t := SkipSpaces(v.value);
      if t == [] then None
      else if t[0] == CLOSE_ARRAY then Some(t[1..])
      else if t[0] == COMMA && !Closes(t[1..], CLOSE_ARRAY) then SkipElements(t[1..], depth)
      else None
  }
}

/** The recogniser as an object: one cursor over the input, advanced byte by byte. */
module HookParser {
  import opened Common
  import opened Utf8
  import opened JsonGrammar
  import opened JsonScan
  import opened JsonProof
  import opened JsonDecode
  import opened JsonProjection

  /** What the capture buffer of a string scan holds after `text` was read behind the opening quote. */
  ghost predicate Holds(raw: Bytes, captured: bool, limit: nat, text: Bytes) {
    && (captured <==> limit >= 2 && |text| + 1 <= limit)
    && (captured ==> raw == [QUOTE] + text)
  }

  method AppendRaw(raw: Bytes, captured: bool, limit: nat, value: Byte, ghost text: Bytes) returns (r: Bytes, c: bool)
    requires Holds(raw, captured, limit, text)
    ensures Holds(r, c, limit, text + [value])
  {
    if !captured {
      return raw, false;
    }
    if |raw| == limit {
      return [], false;
    }
    r, c := raw + [value], true;
  }

  /** A scan that has read `taken` and goes on with `s`. */
  ghost function After(taken: seq<Char>, s: Option<Scanned>): Option<Scanned> {
    if s.Some? then Some(Scanned(taken + s.value.chars, s.value.rest)) else None
  }

  lemma {:induction false} CharsTextAppend(cs: seq<Char>, c: Char)
    ensures CharsText(cs + [c]) == CharsText(cs) + CharText(c)
  {
    if cs == [] {
      assert cs + [c] == [c] && CharsText([c]) == CharText(c) + CharsText([c][1..]);
    } else {
      CharsTextAppend(cs[1..], c);
      assert (cs + [c])[1..] == cs[1..] + [c] && (cs + [c])[0] == cs[0];
      Glue2(CharText(cs[0]), CharsText(cs[1..]), CharText(c));
    }
  }

  lemma AfterStep(taken: seq<Char>, c: Char, s: Option<Scanned>)
    ensures After(taken, Prepend(c, s)) == After(taken + [c], s)
  {
    if s.Some? { assert taken + ([c] + s.value.chars) == (taken + [c]) + s.value.chars; }
  }

  lemma AfterNothing(s: Option<Scanned>)
    ensures After([], s) == s
  {
    if s.Some? { assert [] + s.value.chars == s.value.chars; }
  }

  class HookJSONParser {
    const input: Bytes
    var pos: nat

    ghost predicate Valid()
      reads this
    {
      pos <= |input|
    }

    /** The bytes the cursor has not passed. */
    ghost function Ahead(): Bytes
      requires Valid()
      reads this
    {
      input[pos..]
    }

    constructor (text: Bytes)
      ensures Valid() && input == text && Ahead() == text
    {
      input := text;
      pos := 0;
    }

    method PeekByte() returns (next: Option<Byte>)
      requires Valid()
      ensures next == if Ahead() == [] then None else Some(Ahead()[0])
    {
      if pos == |input| {
        return None;
      }
      next := Some(input[pos]);
    }

    method ReadByte() returns (next: Option<Byte>)
      requires Valid()
      modifies this
      ensures Valid()
      ensures old(Ahead()) == [] ==> next.None? && Ahead() == []
      ensures old(Ahead()) != [] ==> next == Some(old(Ahead())[0]) && Ahead() == old(Ahead())[1..]
    {
      if pos == |input| {
        return None;
      }
      next := Some(input[pos]);
      pos := pos + 1;
    }

    method PeekNonSpace() returns (next: Option<Byte>)
      requires Valid()
      modifies this
      ensures Valid() && Ahead() == SkipSpaces(old(Ahead()))
      ensures next == if Ahead() == [] then None else Some(Ahead()[0])
    {
      next := PeekByte();
      while next.Some? && IsSpace(next.value)
        invariant Valid() && SkipSpaces(Ahead()) == SkipSpaces(old(Ahead()))
        invariant next == if Ahead() == [] then None else Some(Ahead()[0])
        decreases |Ahead()|
      {
        var space := ReadByte();
        next := PeekByte();
      }
    }

    method ReadNonSpace() returns (next: Option<Byte>)
      requires Valid()
      modifies this
      ensures Valid()
      ensures var t := SkipSpaces(old(Ahead()));
              if t == [] then next.None? && Ahead() == [] else next == Some(t[0]) && Ahead() == t[1..]
    {
      next := PeekNonSpace();
      if next.Some? {
        next := ReadByte();
      }
    }

    method SkipDigitRun() returns (found: bool)
      requires Valid()
      modifies this
      ensures Valid() && Ahead() == SkipDigits(old(Ahead()))
      ensures found <==> Ahead() != old(Ahead())
    {
      found := false;
      var next := PeekByte();
      while next.Some? && IsDigit(next.value)
        invariant Valid() && SkipDigits(Ahead()) == SkipDigits(old(Ahead()))
        invariant next == if Ahead() == [] then None else Some(Ahead()[0])
        invariant |Ahead()| <= |old(Ahead())| && (found <==> |Ahead()| < |old(Ahead())|)
        invariant !found ==> Ahead() == old(Ahead())
        decreases |Ahead()|
      {
        var digit := ReadByte();
        found := true;
        next := PeekByte();
      }
    }

    method RequireValueBoundary() returns (ok: bool)
      requires Valid()
      ensures ok == AtBoundary(Ahead())
    {
      var next := PeekByte();
      ok := next.None? || Boundary(next.value);
    }

    method RequireEOF() returns (ok: bool)
      requires Valid()
      modifies this
      ensures Valid() && (ok <==> SkipSpaces(old(Ahead())) == [])
    {
      var current := ReadByte();
      while current.Some?
        invariant Valid()
        invariant current.None? ==> SkipSpaces(old(Ahead())) == []
        invariant current.Some? ==> SkipSpaces([current.value] + Ahead()) == SkipSpaces(old(Ahead()))
        decreases |Ahead()| + (if current.Some? then 1 else 0)
      {
        if !IsSpace(current.value) {
          assert SkipSpaces([current.value] + Ahead()) == [current.value] + Ahead();
          return false;
        }
        assert ([current.value] + Ahead())[1..] == Ahead();
        ghost var before := Ahead();
        current := ReadByte();
        assert current.Some? ==> before == [current.value] + Ahead();
      }
      ok := true;
    }

    method SkipName(remainder: Bytes) returns (ok: bool)
      requires Valid()
      modifies this
      ensures Valid()
      ensures var r := SkipLiteral(old(Ahead()), remainder); ok == r.Some? && (ok ==> Ahead() == r.value)
    {
      for index := 0 to |remainder|
        invariant Valid() && SkipLiteral(Ahead(), remainder[index..]) == SkipLiteral(old(Ahead()), remainder)
      {
        var current := ReadByte();
        assert remainder[index..][1..] == remainder[index + 1..];
        if current.None? || current.value != remainder[index] {
          return false;
        }
      }
      ok := RequireValueBoundary();
    }

    /** The number whose first byte was just read. */
    method SkipNumberAfter(first: Byte) returns (ok: bool)
      requires Valid()
      modifies this
      ensures Valid()
      ensures var r := SkipNumber([first] + old(Ahead())); ok == r.Some? && (ok ==> Ahead() == r.value)
    {
      hide SkipDigits, Boundary;
      ghost var s := [first] + Ahead();
      assert s[1..] == Ahead();
      var current := Some(first);
      if first == MINUS {
        current := ReadByte();
        if current.None? {
          return false;
        }
      }
      ghost var whole := [current.value] + Ahead();
      assert whole == if first == MINUS then s[1..] else s;
      assert whole[1..] == Ahead();
      if current.value == ZERO {
        var next := PeekByte();
        if next.Some? && IsDigit(next.value) {
          return false;
        }
      } else if IsDigit(current.value) {
        var more := SkipDigitRun();
      } else {
        return false;
      }
      assert SkipWhole(whole) == Some(Ahead());
      ok := SkipFractionPart();
      if !ok {
        return;
      }
      ok := SkipExponentPart();
      if !ok {
        return;
      }
      ok := RequireValueBoundary();
    }

    method SkipFractionPart() returns (ok: bool)
      requires Valid()
      modifies this
      ensures Valid()
      ensures var r := SkipFraction(old(Ahead())); ok == r.Some? && (ok ==> Ahead() == r.value)
    {
      var next := PeekByte();
      ok := true;
      if next == Some(DOT) {
        var dot := ReadByte();
        ok := SkipDigitRun();
      }
    }

    method SkipExponentPart() returns (ok: bool)
      requires Valid()
      modifies this
      ensures Valid()
      ensures var r := SkipExponent(old(Ahead())); ok == r.Some? && (ok ==> Ahead() == r.value)
    {
      var next := PeekByte();
      ok := true;
      if next == Some(0x65) || next == Some(0x45) {
        var mark := ReadByte();
        var sign := PeekByte();
        if sign == Some(PLUS) || sign == Some(MINUS) {
          sign := ReadByte();
        }
        ok := SkipDigitRun();
      }
    }

    /** The four hexadecimal digits of an escape, copied to the capture buffer as they are read. */
    method ReadHexDigits(raw: Bytes, captured: bool, limit: nat, ghost text: Bytes) returns (ok: bool, r: Bytes, c: bool)
      requires Valid() && Holds(raw, captured, limit, text)
      modifies this
      ensures Valid()
      ensures ok <==> |old(Ahead())| >= 4 && forall i :: 0 <= i < 4 ==> IsHex(old(Ahead())[i])
      ensures ok ==> Ahead() == old(Ahead())[4..] && Holds(r, c, limit, text + old(Ahead())[..4])
    {
      hide Holds;
      ghost var start := Ahead();
      r, c := raw, captured;
      assert text + start[..0] == text;
      for index := 0 to 4
        invariant Valid() && index <= |start| && Ahead() == start[index..]
        invariant forall i :: 0 <= i < index ==> IsHex(start[i])
        invariant Holds(r, c, limit, text + start[..index])
      {
        var hex := ReadByte();
        if hex.None? || !IsHex(hex.value) {
          return false, r, c;
        }
        r, c := AppendRaw(r, c, limit, hex.value, text + start[..index]);
        assert text + start[..index + 1] == text + start[..index] + [hex.value];
      }
      ok := true;
    }

    /** The rest of an escape whose backslash was just read; the bytes go to the capture buffer. */
    method ScanEscape(raw: Bytes, captured: bool, limit: nat, ghost text: Bytes)
      returns (ok: bool, ghost c: Char, r: Bytes, cap: bool)
      requires Valid() && Holds(raw, captured, limit, text + [BACKSLASH])
      modifies this
      ensures Valid()
      ensures ok ==> ValidChar(c) && [BACKSLASH] + old(Ahead()) == CharText(c) + Ahead() && Holds(r, cap, limit, text + CharText(c))
      ensures !ok ==> ScanString([BACKSLASH] + old(Ahead())).None?
    {
      hide Holds;
      ghost var s := [BACKSLASH] + Ahead();
      ScanEnd(s);
      hide ScanString;
      r, cap, c := raw, captured, Plain(0x20);
      var escaped := ReadByte();
      if escaped.None? {
        return false, c, r, cap;
      }
      assert s == [BACKSLASH, escaped.value] + Ahead();
      r, cap := AppendRaw(r, cap, limit, escaped.value, text + [BACKSLASH]);
      assert text + [BACKSLASH] + [escaped.value] == text + [BACKSLASH, escaped.value];
      ok := true;
      if SimpleEscape(escaped.value) {
        c := Escape(escaped.value);
      } else if escaped.value == LOWER_U {
        ghost var ahead := Ahead();
        ok, r, cap := ReadHexDigits(r, cap, limit, text + [BACKSLASH, LOWER_U]);
        if ok {
          c := Unicode(ahead[0], ahead[1], ahead[2], ahead[3]);
          assert ahead[..4] == [ahead[0], ahead[1], ahead[2], ahead[3]];
          assert text + [BACKSLASH, LOWER_U] + ahead[..4] == text + CharText(c);
          assert ahead == ahead[..4] + Ahead();
        } else {
          assert s[2..] == ahead;
        }
      } else {
        ok := false;
      }
    }

    /** The rest of a string after its opening quote; its decoded value if it fits the capture limit. */
    method ScanStringAfterQuote(captureLimit: nat) returns (ok: bool, decoded: Bytes, captured: bool)
      requires Valid()
      modifies this
      ensures Valid()
      ensures var r := ScanString(old(Ahead()));
              && ok == r.Some?
              && (ok ==> Ahead() == r.value.rest && captured == Captured(r.value.chars, captureLimit)
                         && (captured ==> decoded == Decoded(r.value.chars)))
    {
      hide Holds, CharsText, Unquote, Captured;
      ghost var start := Ahead();
      ghost var taken: seq<Char> := [];
      var raw: Bytes;
      decoded := [];
      raw, captured := StartCapture(captureLimit);
      AfterNothing(ScanString(start));
      hide ScanString, After;
      while true
        invariant Valid() && ScanString(start) == After(taken, ScanString(Ahead()))
        invariant Holds(raw, captured, captureLimit, CharsText(taken))
        decreases |Ahead()|
      {
        ghost var ahead := Ahead();
        ScanEnd(ahead);
        AfterEnd(taken, ScanString(ahead));
        var current := ReadByte();
        if current.None? {
          return false, [], false;
        }
        assert ahead == [current.value] + Ahead();
        raw, captured := AppendRaw(raw, captured, captureLimit, current.value, CharsText(taken));
        if current.value == QUOTE {
          CaptureClosed(raw, captured, captureLimit, taken);
          if captured {
            decoded := Unquote(raw[1..|raw| - 1]);
          }
          return true, decoded, captured;
        }
        ghost var c := Plain(current.value);
        if current.value == BACKSLASH {
          var escapeOk;
          escapeOk, c, raw, captured := ScanEscape(raw, captured, captureLimit, CharsText(taken));
          if !escapeOk {
            return false, [], false;
          }
        } else if current.value < 0x20 {
          return false, [], false;
        }
        ScanOne(ahead, c, Ahead());
        AfterStep(taken, c, ScanString(Ahead()));
        CharsTextAppend(taken, c);
        taken := taken + [c];
      }
    }

    method ReadString(captureLimit: nat) returns (ok: bool, decoded: Bytes, captured: bool)
      requires Valid()
      modifies this
      ensures Valid()
      ensures var start := Expect(old(Ahead()), QUOTE);
              var r := if start.Some? then ScanString(start.value) else None;
              && ok == r.Some?
              && (ok ==> Ahead() == r.value.rest && captured == Captured(r.value.chars, captureLimit)
                         && (captured ==> decoded == Decoded(r.value.chars)))
    {
      var first := ReadNonSpace();
      if first != Some(QUOTE) {
        return false, [], false;
      }
      ok, decoded, captured := ScanStringAfterQuote(captureLimit);
    }

    method SkipOne(depth: nat) returns (ok: bool)
      requires Valid()
      modifies this
      ensures Valid()
      ensures var r := SkipValue(old(Ahead()), depth); ok == r.Some? && (ok ==> Ahead() == r.value)
      decreases |Ahead()|, 1
    {
      hide ScanString, SkipNumber, SkipLiteral, SkipObject, SkipArray, SkipSpaces;
      if depth > MAX_DEPTH {
        return false;
      }
      var first := ReadNonSpace();
      if first.None? {
        return false;
      }
      ghost var t := [first.value] + Ahead();
      assert t == SkipSpaces(old(Ahead())) && t[1..] == Ahead();
      if first.value == QUOTE {
        var decoded, captured;
        ok, decoded, captured := ScanStringAfterQuote(0);
      } else if first.value == OPEN_OBJECT {
        ok := SkipObjectRest(depth + 1);
      } else if first.value == OPEN_ARRAY {
        ok := SkipArrayRest(depth + 1);
      } else if first.value == TRUE_TEXT[0] {
        ok := SkipName(TRUE_TEXT[1..]);
      } else if first.value == FALSE_TEXT[0] {
        ok := SkipName(FALSE_TEXT[1..]);
      } else if first.value == NULL_TEXT[0] {
        ok := SkipName(NULL_TEXT[1..]);
      } else if first.value == MINUS || IsDigit(first.value) {
        ok := SkipNumberAfter(first.value);
      } else {
        ok := false;
      }
    }

    method SkipObjectRest(depth: nat) returns (ok: bool)
      requires Valid()
      modifies this
      ensures Valid()
      ensures var r := SkipObject(old(Ahead()), depth); ok == r.Some? && (ok ==> Ahead() == r.value)
      decreases |Ahead()|, 2
    {
      hide ScanString, SkipSpaces;
      ghost var start := Ahead();
      if depth > MAX_DEPTH {
        return false;
      }
      MembersSpaces(start, depth);
      var next := PeekNonSpace();
      if next.None? {
        return false;
      }
      if next.value == CLOSE_OBJECT {
        next := ReadByte();
        return true;
      }
      while true
        invariant Valid() && SkipMembers(Ahead(), depth) == SkipMembers(start, depth) && |Ahead()| <= |start|
        decreases |Ahead()|
      {
        var keyOk, key, captured := ReadString(0);
        if !keyOk {
          return false;
        }
        var separator := ReadNonSpace();
        if separator != Some(COLON) {
          return false;
        }
        ok := SkipOne(depth);
        if !ok {
          return;
        }
        var delimiter := ReadNonSpace();
        if delimiter.None? {
          return false;
        }
        if delimiter.value == CLOSE_OBJECT {
          return true;
        }
        if delimiter.value != COMMA {
          return false;
        }
        MembersSpaces(Ahead(), depth);
        var following := PeekNonSpace();
        if following.None? || following.value == CLOSE_OBJECT {
          return false;
        }
      }
    }

    method SkipArrayRest(depth: nat) returns (ok: bool)
      requires Valid()
      modifies this
      ensures Valid()
      ensures var r := SkipArray(old(Ahead()), depth); ok == r.Some? && (ok ==> Ahead() == r.value)
      decreases |Ahead()|, 2
    {
      hide SkipSpaces;
      ghost var start := Ahead();
      if depth > MAX_DEPTH {
        return false;
      }
      ElementsSpaces(start, depth);
      var next := PeekNonSpace();
      if next.None? {
        return false;
      }
      if next.value == CLOSE_ARRAY {
        next := ReadByte();
        return true;
      }
      while true
        invariant Valid() && SkipElements(Ahead(), depth) == SkipElements(start, depth) && |Ahead()| <= |start|
        decreases |Ahead()|
      {
        ok := SkipOne(depth);
        if !ok {
          return;
        }
        var delimiter := ReadNonSpace();
        if delimiter.None? {
          return false;
        }
        if delimiter.value == CLOSE_ARRAY {
          return true;
        }
        if delimiter.value != COMMA {
          return false;
        }
        ElementsSpaces(Ahead(), depth);
        var following := PeekNonSpace();
        if following.None? || following.value == CLOSE_ARRAY {
          return false;
        }
      }
    }

    /** The whole top-level object, keeping the three lifecycle fields. */
    method ProjectObject() returns (ok: bool, projected: HookInput)
      requires Valid()
      modifies this
      ensures Valid()
      ensures var r := ParseObject(old(Ahead())); ok == r.Some? && (ok ==> Ahead() == r.value.rest && projected == r.value.input)
    {
      hide ScanString, SkipSpaces, SkipValue, Captured, Decoded, FieldOf, ParseMemberValue;
      projected := BLANK;
      var opening := ReadNonSpace();
      if opening != Some(OPEN_OBJECT) {
        return false, BLANK;
      }
      ghost var start := Ahead();
      ParseMembersSpaces(start, BLANK);
      var closing := PeekNonSpace();
      if closing.None? {
        return false, BLANK;
      }
      if closing.value == CLOSE_OBJECT {
        closing := ReadByte();
        return true, projected;
      }
      while true
        invariant Valid() && ParseMembers(Ahead(), projected) == ParseMembers(start, BLANK)
        decreases |Ahead()|
      {
        var keyOk, key, captured := ReadString(CAPTURE_LIMIT);
        if !keyOk {
          return false, BLANK;
        }
        var separator := ReadNonSpace();
        if separator != Some(COLON) {
          return false, BLANK;
        }
        ok, projected := ProjectMember(projected, captured, key);
        if !ok {
          return false, BLANK;
        }
        var delimiter := ReadNonSpace();
        if delimiter.None? {
          return false, BLANK;
        }
        if delimiter.value == CLOSE_OBJECT {
          return true, projected;
        }
        if delimiter.value != COMMA {
          return false, BLANK;
        }
        ParseMembersSpaces(Ahead(), projected);
        var following := PeekNonSpace();
        if following.None? || following.value == CLOSE_OBJECT {
          return false, BLANK;
        }
      }
    }

    /** The value of one top-level member: captured for a lifecycle key, skipped otherwise. */
    method ProjectMember(h: HookInput, captured: bool, key: Bytes) returns (ok: bool, projected: HookInput)
      requires Valid()
      modifies this
      ensures Valid()
      ensures var r := ParseMemberValue(old(Ahead()), h, if captured then FieldOf(key) else Other);
              ok == r.Some? && (ok ==> Ahead() == r.value.rest && projected == r.value.input)
    {
      projected := h;
      if captured && !FieldOf(key).Other? {
        var value, fits;
        ok, value, fits := ReadString(CAPTURE_LIMIT);
        if !ok || !fits {
          return false, h;
        }
        projected := Assign(h, FieldOf(key), value);
      } else {
        ok := SkipOne(0);
      }
    }
  }

  lemma MembersSpaces(s: Bytes, depth: nat)
    ensures SkipMembers(SkipSpaces(s), depth) == SkipMembers(s, depth)
  {
    SpacesIdempotent(s);
    hide SkipSpaces, ScanString;
  }

  lemma ElementsSpaces(s: Bytes, depth: nat)
    ensures SkipElements(SkipSpaces(s), depth) == SkipElements(s, depth)
  {
    SkipValueSpaces(s, depth);
    hide SkipSpaces, SkipValue;
  }

  lemma ParseMembersSpaces(s: Bytes, h: HookInput)
    ensures ParseMembers(SkipSpaces(s), h) == ParseMembers(s, h)
  {
    SpacesIdempotent(s);
    hide SkipSpaces, ScanString, ParseMemberValue;
  }

  /** Validating and projecting one payload, reading at most one byte more than allowed. */
  method ProjectInput(input: Bytes, maxPayload: int) returns (r: Option<HookInput>)
    ensures r == ProjectHookInput(input, maxPayload)
  {
    if maxPayload <= 0 || maxPayload > MAXIMUM_HOOK_PAYLOAD {
      return None;
    }
    var seen := Limited(input, maxPayload);
    var parser := new HookJSONParser(seen);
    var ok, projected := parser.ProjectObject();
    if ok {
      ok := parser.RequireEOF();
    }
    if |seen| > maxPayload || !ok {
      return None;
    }
    r := Some(projected);
  }

  method StartCapture(limit: nat) returns (raw: Bytes, captured: bool)
    ensures Holds(raw, captured, limit, CharsText([]))
  {
    captured := limit >= 2;
    raw := [];
    if captured {
      raw := [QUOTE];
    }
  }

  /** Reading one well-formed character of a string. */
  lemma ScanOne(s: Bytes, c: Char, rest: Bytes)
    requires ValidChar(c) && s == CharText(c) + rest
    ensures ScanString(s) == Prepend(c, ScanString(rest))
  {
    ScanStep(c, rest);
  }

  /** Where a scan stops for good. */
  lemma ScanEnd(s: Bytes)
    ensures s == [] ==> ScanString(s).None?
    ensures s != [] && s[0] == QUOTE ==> ScanString(s) == Some(Scanned([], s[1..]))
    ensures s != [] && s[0] < 0x20 ==> ScanString(s).None?
    ensures s == [BACKSLASH] ==> ScanString(s).None?
    ensures |s| >= 2 && s[0] == BACKSLASH && !SimpleEscape(s[1]) && s[1] != LOWER_U ==> ScanString(s).None?
    ensures |s| >= 2 && s[0] == BACKSLASH && s[1] == LOWER_U && !(|s| >= 6 && IsHex(s[2]) && IsHex(s[3]) && IsHex(s[4]) && IsHex(s[5])) ==> ScanString(s).None?
  {
  }

  lemma AfterEnd(taken: seq<Char>, s: Option<Scanned>)
    ensures s.None? ==> After(taken, s).None?
    ensures s.Some? && s.value.chars == [] ==> After(taken, s) == Some(Scanned(taken, s.value.rest))
  {
    if s.Some? && s.value.chars == [] { assert taken + [] == taken; }
  }

  /** Once the closing quote is in, the buffer holds the whole literal exactly when it fits. */
  lemma CaptureClosed(raw: Bytes, captured: bool, limit: nat, taken: seq<Char>)
    requires Holds(raw, captured, limit, CharsText(taken) + [QUOTE])
    ensures captured == Captured(taken, limit)
    ensures captured ==> |raw| >= 2 && raw[1..|raw| - 1] == CharsText(taken)
  {
    hide CharsText;
  }
}

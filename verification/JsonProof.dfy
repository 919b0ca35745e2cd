/** The recogniser accepts exactly the texts of the grammar: soundness by building the derivation
    tree of what was consumed, completeness by running the recogniser on the text of any tree. */
module JsonProof {
  import opened Common
  import opened Utf8
  import opened JsonGrammar
  import opened JsonScan

  // ----- regrouping concatenations -----

  lemma Glue2(a: Bytes, b: Bytes, r: Bytes)
    ensures a + (b + r) == (a + b) + r
  {
  }

  lemma Glue3(a: Bytes, b: Bytes, c: Bytes, r: Bytes)
    ensures a + (b + (c + r)) == (a + (b + c)) + r
  {
  }

  lemma Glue4(a: Bytes, b: Bytes, c: Bytes, d: Bytes, r: Bytes)
    ensures a + (b + (c + (d + r))) == (a + (b + (c + d))) + r
  {
  }

  // ----- whitespace, strings, literals, digits -----

  lemma {:induction false} SpacesSplit(s: Bytes) returns (ws: Bytes)
    ensures AllSpace(ws) && s == ws + SkipSpaces(s)
  {
    if s != [] && IsSpace(s[0]) {
      var rest := SpacesSplit(s[1..]);
      ws := [s[0]] + rest;
      assert s == [s[0]] + s[1..];
    } else {
      ws := [];
    }
  }

  lemma {:induction false} SpacesSkip(ws: Bytes, t: Bytes)
    requires AllSpace(ws) && (t == [] || !IsSpace(t[0]))
    ensures SkipSpaces(ws + t) == t
  {
    if ws == [] {
      assert ws + t == t;
    } else {
      assert (ws + t)[1..] == ws[1..] + t;
      SpacesSkip(ws[1..], t);
    }
  }

  lemma {:induction false} ScanSound(s: Bytes)
    requires ScanString(s).Some?
    ensures var r := ScanString(s).value; ValidChars(r.chars) && s == CharsText(r.chars) + ([QUOTE] + r.rest)
  {
    if s[0] == QUOTE {
    } else if s[0] == BACKSLASH {
      if |s| >= 2 && SimpleEscape(s[1]) {
        ScanSound(s[2..]);
        assert s == [s[0], s[1]] + s[2..];
      } else {
        ScanSound(s[6..]);
        assert s == [s[0], s[1], s[2], s[3], s[4], s[5]] + s[6..];
      }
    } else {
      ScanSound(s[1..]);
      assert s == [s[0]] + s[1..];
    }
  }

  lemma ScanStep(c: Char, tail: Bytes)
    requires ValidChar(c)
    ensures ScanString(CharText(c) + tail) == Prepend(c, ScanString(tail))
  {
    assert (CharText(c) + tail)[|CharText(c)|..] == tail;
  }

  lemma {:induction false} ScanComplete(cs: seq<Char>, rest: Bytes)
    requires ValidChars(cs)
    ensures ScanString(CharsText(cs) + ([QUOTE] + rest)) == Some(Scanned(cs, rest))
  {
    if cs == [] {
      assert CharsText(cs) + ([QUOTE] + rest) == [QUOTE] + rest;
    } else {
      ScanComplete(cs[1..], rest);
      ScanStep(cs[0], CharsText(cs[1..]) + ([QUOTE] + rest));
      hide ScanString;
      assert cs == [cs[0]] + cs[1..];
      Glue2(CharText(cs[0]), CharsText(cs[1..]), [QUOTE] + rest);
    }
  }

  lemma {:induction false} LiteralIff(s: Bytes, remainder: Bytes, rest: Bytes)
    ensures SkipLiteral(s, remainder) == Some(rest) <==> s == remainder + rest && AtBoundary(rest)
  {
    if remainder == [] {
      assert remainder + rest == rest;
    } else if s != [] && s[0] == remainder[0] {
      LiteralIff(s[1..], remainder[1..], rest);
      assert s == [s[0]] + s[1..];
      assert remainder + rest == [remainder[0]] + (remainder[1..] + rest);
      assert (remainder + rest)[1..] == remainder[1..] + rest;
    } else {
      assert (remainder + rest)[0] == remainder[0];
    }
  }

  lemma {:induction false} DigitsSplit(s: Bytes) returns (ds: Bytes)
    ensures AllDigits(ds) && s == ds + SkipDigits(s) && (ds == [] <==> SkipDigits(s) == s)
  {
    if s != [] && IsDigit(s[0]) {
      var rest := DigitsSplit(s[1..]);
      ds := [s[0]] + rest;
      assert s == [s[0]] + s[1..];
    } else {
      ds := [];
    }
  }

  lemma {:induction false} DigitsSkip(ds: Bytes, t: Bytes)
    requires AllDigits(ds) && (t == [] || !IsDigit(t[0]))
    ensures SkipDigits(ds + t) == t
  {
    if ds == [] {
      assert ds + t == t;
    } else {
      assert (ds + t)[1..] == ds[1..] + t;
      DigitsSkip(ds[1..], t);
    }
  }

  // ----- numbers -----

  lemma WholeSound(s: Bytes) returns (whole: Bytes)
    requires SkipWhole(s).Some?
    ensures s == whole + SkipWhole(s).value && whole != [] && AllDigits(whole) && (whole[0] == ZERO ==> |whole| == 1)
  {
    if s[0] == ZERO {
      whole := [ZERO];
    } else {
      var ds := DigitsSplit(s[1..]);
      whole := [s[0]] + ds;
      assert s == [s[0]] + s[1..];
    }
  }

  lemma FractionSound(s: Bytes) returns (frac: Option<Bytes>)
    requires SkipFraction(s).Some?
    ensures s == FracText(frac) + SkipFraction(s).value
    ensures frac.Some? ==> frac.value != [] && AllDigits(frac.value)
  {
    if s == [] || s[0] != DOT {
      frac := None;
    } else {
      var ds := DigitsSplit(s[1..]);
      frac := Some(ds);
      assert s == [DOT] + s[1..];
    }
  }

  /** An exponent's mark, its optional sign and the rest. */
  lemma MarkSplit(s: Bytes) returns (sign: Option<Byte>, t: Bytes)
    requires s != []
    ensures sign == if |s| > 1 && (s[1] == PLUS || s[1] == MINUS) then Some(s[1]) else None
    ensures t == if sign.Some? then s[2..] else s[1..]
    ensures s == [s[0]] + ((if sign.Some? then [sign.value] else []) + t)
  {
    sign := if |s| > 1 && (s[1] == PLUS || s[1] == MINUS) then Some(s[1]) else None;
    t := if sign.Some? then s[2..] else s[1..];
  }

  lemma ExponentSound(s: Bytes) returns (exp: Option<Exponent>)
    requires SkipExponent(s).Some?
    ensures s == ExpText(exp) + SkipExponent(s).value && (exp.Some? ==> ValidExponent(exp.value))
  {
    hide SkipDigits, AllDigits, ExpText;
    if s == [] || (s[0] != 0x65 && s[0] != 0x45) {
      exp := None;
      NoExpText();
    } else {
      var sign, t := MarkSplit(s);
      var ds := DigitsSplit(t);
      exp := Some(Exponent(s[0], sign, ds));
      ExpTextIs(exp.value, SkipExponent(s).value);
    }
  }

  lemma NoExpText()
    ensures ExpText(None) == []
  {
  }

  lemma ExpTextIs(e: Exponent, rest: Bytes)
    ensures ExpText(Some(e)) + rest == [e.mark] + ((if e.sign.Some? then [e.sign.value] else []) + (e.digits + rest))
  {
    Glue3([e.mark], if e.sign.Some? then [e.sign.value] else [], e.digits, rest);
  }

  lemma NumberSound(s: Bytes) returns (n: Number)
    requires SkipNumber(s).Some?
    ensures ValidNumber(n) && s == NumberText(n) + SkipNumber(s).value && AtBoundary(SkipNumber(s).value)
  {
    hide SkipWhole, SkipFraction, SkipExponent, ValidExponent, AllDigits, Boundary;
    var minus := s != [] && s[0] == MINUS;
    var t := if minus then s[1..] else s;
    var whole := WholeSound(t);
    var frac := FractionSound(SkipWhole(t).value);
    var exp := ExponentSound(SkipFraction(SkipWhole(t).value).value);
    n := Number(minus, whole, frac, exp);
    var rest := SkipNumber(s).value;
    var sign := if minus then [MINUS] else [];
    assert s == sign + t;
    hide FracText, ExpText, SkipNumber;
    Glue4(sign, whole, FracText(frac), ExpText(exp), rest);
  }

  /** What may follow a number's digits without continuing them. */
  predicate StopsNumber(s: Bytes) {
    s == [] || (!IsDigit(s[0]) && s[0] != DOT && s[0] != 0x65 && s[0] != 0x45)
  }

  lemma ExponentComplete(exp: Option<Exponent>, rest: Bytes)
    requires (exp.Some? ==> ValidExponent(exp.value)) && StopsNumber(rest)
    ensures SkipExponent(ExpText(exp) + rest) == Some(rest)
    ensures var s := ExpText(exp) + rest; s == [] || (!IsDigit(s[0]) && s[0] != DOT)
  {
    if exp.None? {
      assert ExpText(exp) + rest == rest;
    } else {
      ExpTextIs(exp.value, rest);
      DigitsSkip(exp.value.digits, rest);
      hide SkipDigits, ExpText;
      ExponentDigits(exp.value, exp.value.digits + rest, rest);
    }
  }

  lemma ExponentDigits(e: Exponent, t: Bytes, rest: Bytes)
    requires ValidExponent(e) && t != [] && t[0] == e.digits[0] && SkipDigits(t) == rest && |rest| < |t|
    ensures SkipExponent([e.mark] + ((if e.sign.Some? then [e.sign.value] else []) + t)) == Some(rest)
  {
    hide SkipDigits;
    assert IsDigit(t[0]);
    if e.sign.Some? {
      assert ([e.mark] + ([e.sign.value] + t))[2..] == t;
    } else {
      assert ([e.mark] + ([] + t))[1..] == t;
    }
  }

  lemma FractionComplete(frac: Option<Bytes>, tail: Bytes)
    requires frac.Some? ==> frac.value != [] && AllDigits(frac.value)
    requires tail == [] || (!IsDigit(tail[0]) && tail[0] != DOT)
    ensures SkipFraction(FracText(frac) + tail) == Some(tail)
    ensures var s := FracText(frac) + tail; s == [] || !IsDigit(s[0])
  {
    var s := FracText(frac) + tail;
    if frac.None? {
      assert s == tail;
    } else {
      assert s[1..] == frac.value + tail;
      DigitsSkip(frac.value, tail);
      assert |SkipDigits(s[1..])| < |s[1..]|;
    }
  }

  lemma WholeComplete(whole: Bytes, tail: Bytes)
    requires whole != [] && AllDigits(whole) && (whole[0] == ZERO ==> |whole| == 1)
    requires tail == [] || !IsDigit(tail[0])
    ensures SkipWhole(whole + tail) == Some(tail)
  {
    assert (whole + tail)[1..] == whole[1..] + tail;
    DigitsSkip(whole[1..], tail);
  }

  lemma NumberComplete(n: Number, rest: Bytes)
    requires ValidNumber(n) && AtBoundary(rest)
    ensures SkipNumber(NumberText(n) + rest) == Some(rest)
    ensures NumberText(n) != [] && (NumberText(n)[0] == MINUS || IsDigit(NumberText(n)[0]))
  {
    var exp := ExpText(n.exp) + rest;
    var frac := FracText(n.frac) + exp;
    var whole := n.whole + frac;
    ExponentComplete(n.exp, rest);
    FractionComplete(n.frac, exp);
    WholeComplete(n.whole, frac);
    hide SkipWhole, SkipFraction, SkipExponent, ValidExponent, FracText, ExpText;
    var s := NumberText(n) + rest;
    var sign := if n.minus then [MINUS] else [];
    Glue4(sign, n.whole, FracText(n.frac), ExpText(n.exp), rest);
    assert s == sign + whole && whole[0] == n.whole[0] && IsDigit(whole[0]);
    if n.minus {
      assert s[0] == MINUS && s[1..] == whole;
    } else {
      assert s == whole;
    }
  }

  // ----- values -----

  /** Literal names and numbers need a boundary after them; other values end themselves. */
  predicate Follows(v: Value, rest: Bytes) {
    v.Literal? || v.Num? ==> AtBoundary(rest)
  }

  lemma ValueStart(v: Value)
    requires ValidValue(v)
    ensures ValueText(v) != [] && !IsSpace(ValueText(v)[0])
    ensures ValueText(v)[0] != COMMA && ValueText(v)[0] != CLOSE_ARRAY && ValueText(v)[0] != CLOSE_OBJECT
  {
    if v.Num? { NumberComplete(v.number, []); }
  }

  /** What one call consumed is whitespace and one grammatical value that nests no deeper than allowed. */
  lemma {:induction false} ValueSound(s: Bytes, depth: nat) returns (ws: Bytes, v: Value)
    requires SkipValue(s, depth).Some?
    ensures var rest := SkipValue(s, depth).value;
            && AllSpace(ws) && ValidValue(v) && s == ws + (ValueText(v) + rest)
            && depth + Nesting(v) <= MAX_DEPTH && Follows(v, rest)
    decreases |s|, 1
  {
    hide AllSpace, ValidChars;
    ws := SpacesSplit(s);
    var t := SkipSpaces(s);
    if t[0] == QUOTE {
      v := StringSound(t);
    } else if t[0] == OPEN_OBJECT {
      v := ObjectSound(t[1..], depth + 1);
      assert t == [OPEN_OBJECT] + t[1..];
    } else if t[0] == OPEN_ARRAY {
      v := ArraySound(t[1..], depth + 1);
      assert t == [OPEN_ARRAY] + t[1..];
    } else {
      v := ScalarSound(t, SkipValue(s, depth).value);
    }
  }

  lemma StringSound(t: Bytes) returns (v: Value)
    requires t != [] && t[0] == QUOTE && ScanString(t[1..]).Some?
    ensures v.Str? && ValidValue(v) && t == ValueText(v) + ScanString(t[1..]).value.rest
  {
    ScanSound(t[1..]);
    var r := ScanString(t[1..]).value;
    v := Str(r.chars);
    assert t == [QUOTE] + t[1..];
    hide ScanString, CharsText;
    Glue3([QUOTE], CharsText(r.chars), [QUOTE], r.rest);
    assert [QUOTE] + CharsText(r.chars) + [QUOTE] == [QUOTE] + (CharsText(r.chars) + [QUOTE]);
  }

  /** A literal name or a number. */
  lemma ScalarSound(t: Bytes, rest: Bytes) returns (v: Value)
    requires t != []
    requires if t[0] == TRUE_TEXT[0] then SkipLiteral(t[1..], TRUE_TEXT[1..]) == Some(rest)
             else if t[0] == FALSE_TEXT[0] then SkipLiteral(t[1..], FALSE_TEXT[1..]) == Some(rest)
             else if t[0] == NULL_TEXT[0] then SkipLiteral(t[1..], NULL_TEXT[1..]) == Some(rest)
             else SkipNumber(t) == Some(rest)
    ensures (v.Literal? || v.Num?) && ValidValue(v) && t == ValueText(v) + rest && AtBoundary(rest)
  {
    hide SkipLiteral, SkipNumber, ValidNumber, NumberText;
    assert t == [t[0]] + t[1..];
    if t[0] in {TRUE_TEXT[0], FALSE_TEXT[0], NULL_TEXT[0]} {
      var text := if t[0] == TRUE_TEXT[0] then TRUE_TEXT else if t[0] == FALSE_TEXT[0] then FALSE_TEXT else NULL_TEXT;
      LiteralIff(t[1..], text[1..], rest);
      assert text == [text[0]] + text[1..];
      v := Literal(text);
    } else {
      var n := NumberSound(t);
      v := Num(n);
    }
  }

  lemma {:induction false} ObjectSound(s: Bytes, depth: nat) returns (v: Value)
    requires SkipObject(s, depth).Some?
    ensures v.Obj? && ValidValue(v) && [OPEN_OBJECT] + s == ValueText(v) + SkipObject(s, depth).value
    ensures depth + Nesting(v) <= MAX_DEPTH + 1
    decreases |s|, 3
  {
    hide AllSpace;
    var ws := SpacesSplit(s);
    var t := SkipSpaces(s);
    var rest := SkipObject(s, depth).value;
    if t != [] && t[0] == CLOSE_OBJECT {
      v := Obj(ws, NoMembers);
      assert t == [CLOSE_OBJECT] + t[1..];
      AllSpaceEmpty();
      Glue3([OPEN_OBJECT], ws, [CLOSE_OBJECT], rest);
    } else {
      var ms := MembersSound(s, depth);
      v := Obj([], ms);
      AllSpaceEmpty();
      hide MembersText, SkipMembers;
      Glue3([OPEN_OBJECT], MembersText(ms), [CLOSE_OBJECT], rest);
    }
  }

  lemma AllSpaceEmpty()
    ensures AllSpace([])
  {
  }

  lemma {:induction false} ArraySound(s: Bytes, depth: nat) returns (v: Value)
    requires SkipArray(s, depth).Some?
    ensures v.Arr? && ValidValue(v) && [OPEN_ARRAY] + s == ValueText(v) + SkipArray(s, depth).value
    ensures depth + Nesting(v) <= MAX_DEPTH + 1
    decreases |s|, 3
  {
    hide AllSpace;
    var ws := SpacesSplit(s);
    var t := SkipSpaces(s);
    var rest := SkipArray(s, depth).value;
    AllSpaceEmpty();
    if t != [] && t[0] == CLOSE_ARRAY {
      v := Arr(ws, NoElements);
      assert t == [CLOSE_ARRAY] + t[1..];
      Glue3([OPEN_ARRAY], ws, [CLOSE_ARRAY], rest);
    } else {
      var es := ElementsSound(s, depth);
      v := Arr([], es);
      hide ElementsText, SkipElements;
      Glue3([OPEN_ARRAY], ElementsText(es), [CLOSE_ARRAY], rest);
    }
  }

  lemma {:induction false} ElementsSound(s: Bytes, depth: nat) returns (es: Elements)
    requires SkipElements(s, depth).Some?
    ensures es.Elements? && ValidElements(es) && s == ElementsText(es) + ([CLOSE_ARRAY] + SkipElements(s, depth).value)
    ensures depth + ElementsNesting(es) <= MAX_DEPTH
    decreases |s|, 2
  {
    hide AllSpace, ElementsText, ValueText;
    var before, v := ValueSound(s, depth);
    var u := SkipValue(s, depth).value;
    var after := SpacesSplit(u);
    var t := SkipSpaces(u);
    var rest := SkipElements(s, depth).value;
    assert t == [t[0]] + t[1..];
    var rest' := NoElements;
    if t[0] != CLOSE_ARRAY {
      rest' := ElementsSound(t[1..], depth);
      Glue2([COMMA], ElementsText(rest'), [CLOSE_ARRAY] + rest);
    }
    es := Elements(before, v, after, rest');
    ElementsGlue(es, if rest'.NoElements? then [] else [COMMA] + ElementsText(rest'), [CLOSE_ARRAY] + rest);
  }

  lemma ExpectSound(s: Bytes, b: Byte) returns (ws: Bytes)
    requires Expect(s, b).Some?
    ensures AllSpace(ws) && s == ws + ([b] + Expect(s, b).value)
  {
    ws := SpacesSplit(s);
    var t := SkipSpaces(s);
    assert t == [t[0]] + t[1..];
  }

  lemma {:induction false} MembersSound(s: Bytes, depth: nat) returns (ms: Members)
    requires SkipMembers(s, depth).Some?
    ensures ms.Members? && ValidMembers(ms) && s == MembersText(ms) + ([CLOSE_OBJECT] + SkipMembers(s, depth).value)
    ensures depth + MembersNesting(ms) <= MAX_DEPTH
    decreases |s|, 2
  {
    hide ScanString, AllSpace, ValidChars, ValidValue, ValueText, ValidElements, ElementsText, MembersText;
    var before := ExpectSound(s, QUOTE);
    var s1 := Expect(s, QUOTE).value;
    ScanSound(s1);
    var key := ScanString(s1).value;
    var afterKey := ExpectSound(key.rest, COLON);
    var s2 := Expect(key.rest, COLON).value;
    var beforeValue, v := ValueSound(s2, depth);
    var u := SkipValue(s2, depth).value;
    var after := SpacesSplit(u);
    var t := SkipSpaces(u);
    assert t == [t[0]] + t[1..];
    var more := NoMembers;
    if t[0] != CLOSE_OBJECT {
      more := MembersSound(t[1..], depth);
    }
    ms := Members(before, key.chars, afterKey, beforeValue, v, after, more);
    MembersAssemble(ms, s, s1, key, s2, u, t, SkipMembers(s, depth).value);
  }

  /** Gluing the consumed pieces of a member list. */
  lemma MembersAssemble(ms: Members, s: Bytes, s1: Bytes, key: Scanned, s2: Bytes, u: Bytes, t: Bytes, rest: Bytes)
    requires ms.Members? && s == ms.before + ([QUOTE] + s1) && s1 == CharsText(ms.key) + ([QUOTE] + key.rest)
    requires key.rest == ms.afterKey + ([COLON] + s2) && s2 == ms.beforeValue + (ValueText(ms.value) + u)
    requires u == ms.after + t
    requires t == (if ms.rest.NoMembers? then [] else [COMMA] + MembersText(ms.rest)) + ([CLOSE_OBJECT] + rest)
    ensures s == MembersText(ms) + ([CLOSE_OBJECT] + rest)
  {
    hide ValueText, CharsText;
    var tail := if ms.rest.NoMembers? then [] else [COMMA] + MembersText(ms.rest);
    assert [QUOTE] + s1 == StringText(ms.key) + key.rest;
    assert MembersText(ms) == ms.before + (StringText(ms.key) + (ms.afterKey + ([COLON] + (ms.beforeValue + (ValueText(ms.value) + (ms.after + tail))))));
    assert u == (ms.after + tail) + ([CLOSE_OBJECT] + rest);
  }

  // ----- completeness -----

  lemma ValueAfterSpace(ws: Bytes, v: Value, rest: Bytes)
    requires AllSpace(ws) && ValidValue(v)
    ensures SkipSpaces(ws + (ValueText(v) + rest)) == ValueText(v) + rest
  {
    ValueStart(v);
    hide ValueText, ValidValue;
    SpacesSkip(ws, ValueText(v) + rest);
  }

  /** The text of any grammatical value that nests no deeper than allowed is consumed whole. */
  lemma {:induction false} ValueComplete(ws: Bytes, v: Value, rest: Bytes, depth: nat)
    requires AllSpace(ws) && ValidValue(v) && depth + Nesting(v) <= MAX_DEPTH && Follows(v, rest)
    ensures SkipValue(ws + (ValueText(v) + rest), depth) == Some(rest)
    decreases v, 1
  {
    ValueAfterSpace(ws, v, rest);
    ValueComplete'(v, rest, depth);
    var s, t := ws + (ValueText(v) + rest), ValueText(v) + rest;
    SpacesIdempotent(t);
    SkipValueSpaces(s, depth);
    SkipValueSpaces(t, depth);
  }

  lemma SpacesIdempotent(t: Bytes)
    ensures SkipSpaces(SkipSpaces(t)) == SkipSpaces(t)
  {
  }

  /** Leading whitespace does not matter to a value. */
  lemma SkipValueSpaces(s: Bytes, depth: nat)
    ensures SkipValue(s, depth) == SkipValue(SkipSpaces(s), depth)
  {
    SpacesIdempotent(s);
  }

  lemma {:induction false} ValueComplete'(v: Value, rest: Bytes, depth: nat)
    requires ValidValue(v) && depth + Nesting(v) <= MAX_DEPTH && Follows(v, rest)
    ensures SkipValue(ValueText(v) + rest, depth) == Some(rest)
    decreases v, 0
  {
    hide AllSpace, ValidChars, NumberText, ValidNumber, SkipNumber, SkipLiteral, ScanString, StringText, AtBoundary;
    match v
    case Arr(gap, es) =>
      hide ElementsText, ValidElements, ElementsNesting, SkipArray;
      ContainerText(OPEN_ARRAY, if es.NoElements? then gap else ElementsText(es), CLOSE_ARRAY, rest, ValueText(v) + rest);
      ArrayComplete(gap, es, rest, depth + 1);
    case Obj(gap, ms) =>
      hide MembersText, ValidMembers, MembersNesting, SkipObject;
      ContainerText(OPEN_OBJECT, if ms.NoMembers? then gap else MembersText(ms), CLOSE_OBJECT, rest, ValueText(v) + rest);
      ObjectComplete(gap, ms, rest, depth + 1);
    case _ =>
      hide SkipValue, ValueText, ValidValue, Follows;
      ScalarComplete(v, rest, depth);
  }

  /** A literal name, a number or a string. */
  lemma ScalarComplete(v: Value, rest: Bytes, depth: nat)
    requires ValidValue(v) && Follows(v, rest) && depth <= MAX_DEPTH && !v.Arr? && !v.Obj?
    ensures SkipValue(ValueText(v) + rest, depth) == Some(rest)
  {
    match v
    case Literal(text) =>
      LiteralComplete(text, rest, depth);
    case Num(n) =>
      hide NumberText, SkipNumber, ValidNumber;
      NumberComplete(n, rest);
      assert (NumberText(n) + rest)[0] == NumberText(n)[0];
    case Str(cs) =>
      hide ScanString, ValidChars;
      ScanComplete(cs, rest);
      StringGlue(cs, rest);
  }

  lemma ContainerText(open: Byte, inside: Bytes, close: Byte, rest: Bytes, s: Bytes)
    requires s == ([open] + (inside + [close])) + rest
    ensures s != [] && s[0] == open && s[1..] == inside + ([close] + rest)
  {
  }

  lemma LiteralComplete(text: Bytes, rest: Bytes, depth: nat)
    requires text in {TRUE_TEXT, FALSE_TEXT, NULL_TEXT} && AtBoundary(rest) && depth <= MAX_DEPTH
    ensures SkipValue(text + rest, depth) == Some(rest)
  {
    hide SkipLiteral, AtBoundary;
    LiteralIff((text + rest)[1..], text[1..], rest);
    assert (text + rest)[1..] == text[1..] + rest && (text + rest)[0] == text[0];
  }

  lemma {:induction false} ArrayComplete(gap: Bytes, es: Elements, rest: Bytes, depth: nat)
    requires AllSpace(gap) && ValidElements(es) && depth + ElementsNesting(es) <= MAX_DEPTH
    ensures SkipArray((if es.NoElements? then gap else ElementsText(es)) + ([CLOSE_ARRAY] + rest), depth) == Some(rest)
    decreases es, 1
  {
    var tail := [CLOSE_ARRAY] + rest;
    if es.NoElements? {
      SpacesSkip(gap, tail);
    } else {
      ElementsComplete(es, rest, depth);
      ElementsOpen(es, tail);
    }
  }

  /** A non-empty element list does not look like the end of the array. */
  lemma ElementsOpen(es: Elements, tail: Bytes)
    requires es.Elements? && ValidElements(es)
    ensures !Closes(ElementsText(es) + tail, CLOSE_ARRAY)
  {
    hide ValueText, ValidValue, AllSpace, ElementsText;
    ValueStart(es.value);
    var more := ElementsHead(es, tail);
    ValueAfterSpace(es.before, es.value, more);
  }

  lemma ElementsHead(es: Elements, tail: Bytes) returns (more: Bytes)
    requires es.Elements?
    ensures ElementsText(es) + tail == es.before + (ValueText(es.value) + more)
  {
    var others := if es.rest.NoElements? then [] else [COMMA] + ElementsText(es.rest);
    more := es.after + (others + tail);
    assert ElementsText(es) == es.before + (ValueText(es.value) + (es.after + others));
    hide ElementsText, ValueText;
    Glue4(es.before, ValueText(es.value), es.after, others, tail);
  }

  lemma {:induction false} ElementsComplete(es: Elements, rest: Bytes, depth: nat)
    requires es.Elements? && ValidElements(es) && depth + ElementsNesting(es) <= MAX_DEPTH
    ensures SkipElements(ElementsText(es) + ([CLOSE_ARRAY] + rest), depth) == Some(rest)
    decreases es, 0
  {
    hide AllSpace;
    var tail := [CLOSE_ARRAY] + rest;
    var more := if es.rest.NoElements? then [] else [COMMA] + ElementsText(es.rest);
    ElementsGlue(es, more, tail);
    ElementTail(es, more, tail);
    ValueComplete(es.before, es.value, es.after + (more + tail), depth);
    if es.rest.Elements? {
      ElementsComplete(es.rest, rest, depth);
    }
  }

  lemma ElementTail(es: Elements, more: Bytes, tail: Bytes)
    requires es.Elements? && ValidElements(es) && tail != [] && tail[0] == CLOSE_ARRAY
    requires more == if es.rest.NoElements? then [] else [COMMA] + ElementsText(es.rest)
    ensures AtBoundary(es.after + (more + tail)) && SkipSpaces(es.after + (more + tail)) == more + tail
    ensures if es.rest.NoElements? then more + tail == tail
            else more + tail == [COMMA] + (ElementsText(es.rest) + tail) && !Closes(ElementsText(es.rest) + tail, CLOSE_ARRAY)
  {
    if es.rest.Elements? {
      ElementsOpen(es.rest, tail);
      Glue2([COMMA], ElementsText(es.rest), tail);
    }
    hide ElementsText, ValidElements, Closes;
    AfterBoundary(es.after, more + tail);
    SpacesSkip(es.after, more + tail);
  }

  lemma ElementsGlue(es: Elements, more: Bytes, tail: Bytes)
    requires es.Elements? && more == if es.rest.NoElements? then [] else [COMMA] + ElementsText(es.rest)
    ensures ElementsText(es) + tail == es.before + (ValueText(es.value) + (es.after + (more + tail)))
  {
    hide ValueText;
    Glue4(es.before, ValueText(es.value), es.after, more, tail);
  }

  lemma AfterBoundary(after: Bytes, next: Bytes)
    requires AllSpace(after) && next != [] && Boundary(next[0])
    ensures AtBoundary(after + next)
  {
    if after == [] { assert after + next == next; }
  }

  lemma {:induction false} ObjectComplete(gap: Bytes, ms: Members, rest: Bytes, depth: nat)
    requires AllSpace(gap) && ValidMembers(ms) && depth + MembersNesting(ms) <= MAX_DEPTH
    ensures SkipObject((if ms.NoMembers? then gap else MembersText(ms)) + ([CLOSE_OBJECT] + rest), depth) == Some(rest)
    decreases ms, 1
  {
    var tail := [CLOSE_OBJECT] + rest;
    if ms.NoMembers? {
      SpacesSkip(gap, tail);
    } else {
      MembersComplete(ms, rest, depth);
      MembersOpen(ms, tail);
    }
  }

  /** The text of the members after the first, with the comma before it. */
  function More(ms: Members): Bytes
    requires ms.Members?
  {
    if ms.rest.NoMembers? then [] else [COMMA] + MembersText(ms.rest)
  }

  lemma MembersGlue(ms: Members, tail: Bytes)
    requires ms.Members?
    ensures MembersText(ms) + tail ==
            ms.before + (StringText(ms.key) + (ms.afterKey + ([COLON] + (ms.beforeValue + (ValueText(ms.value) +
              (ms.after + (More(ms) + tail)))))))
  {
    hide ValueText, StringText;
    var value := ms.beforeValue + (ValueText(ms.value) + (ms.after + More(ms)));
    Glue4(ms.beforeValue, ValueText(ms.value), ms.after, More(ms), tail);
    Glue4(ms.before, StringText(ms.key), ms.afterKey, [COLON] + value, tail);
    Glue2([COLON], value, tail);
  }

  /** A non-empty member list does not look like the end of the object. */
  lemma MembersOpen(ms: Members, tail: Bytes)
    requires ms.Members? && ValidMembers(ms)
    ensures !Closes(MembersText(ms) + tail, CLOSE_OBJECT)
  {
    MembersGlue(ms, tail);
    hide ValidValue, ValueText, MembersText, CharsText, AllSpace;
    var more := ms.afterKey + ([COLON] + (ms.beforeValue + (ValueText(ms.value) + (ms.after + (More(ms) + tail)))));
    SpacesSkip(ms.before, StringText(ms.key) + more);
  }

  /** The recogniser reads the first key and colon of a member list and stands before its value. */
  lemma MemberHead(ms: Members, tail: Bytes)
    requires ms.Members? && ValidMembers(ms)
    ensures var s := MembersText(ms) + tail;
            var value := ms.beforeValue + (ValueText(ms.value) + (ms.after + (More(ms) + tail)));
            && Expect(s, QUOTE).Some?
            && ScanString(Expect(s, QUOTE).value) == Some(Scanned(ms.key, ms.afterKey + ([COLON] + value)))
            && Expect(ms.afterKey + ([COLON] + value), COLON) == Some(value)
  {
    MembersGlue(ms, tail);
    hide ValidValue, ValueText, MembersText, CharsText, AllSpace, ValidChars, ScanString;
    var value := ms.beforeValue + (ValueText(ms.value) + (ms.after + (More(ms) + tail)));
    var afterKey := ms.afterKey + ([COLON] + value);
    SpacesSkip(ms.before, StringText(ms.key) + afterKey);
    SpacesSkip(ms.afterKey, [COLON] + value);
    ScanComplete(ms.key, afterKey);
    StringGlue(ms.key, afterKey);
  }

  lemma StringGlue(cs: seq<Char>, rest: Bytes)
    ensures StringText(cs) + rest == [QUOTE] + (CharsText(cs) + ([QUOTE] + rest))
    ensures (StringText(cs) + rest)[1..] == CharsText(cs) + ([QUOTE] + rest)
  {
    hide CharsText;
  }

  lemma {:induction false} MembersComplete(ms: Members, rest: Bytes, depth: nat)
    requires ms.Members? && ValidMembers(ms) && depth + MembersNesting(ms) <= MAX_DEPTH
    ensures SkipMembers(MembersText(ms) + ([CLOSE_OBJECT] + rest), depth) == Some(rest)
    decreases ms, 0
  {
    hide AllSpace, ValidChars, ScanString, StringText, Expect;
    var tail := [CLOSE_OBJECT] + rest;
    MemberHead(ms, tail);
    MemberTail(ms, tail);
    ValueComplete(ms.beforeValue, ms.value, ms.after + (More(ms) + tail), depth);
    if ms.rest.Members? {
      MembersComplete(ms.rest, rest, depth);
    }
  }

  /** What follows a member's value: whitespace, then either the closing brace or a comma and a
      member list that is not empty. */
  lemma MemberTail(ms: Members, tail: Bytes)
    requires ms.Members? && ValidMembers(ms) && tail != [] && tail[0] == CLOSE_OBJECT
    ensures AtBoundary(ms.after + (More(ms) + tail)) && SkipSpaces(ms.after + (More(ms) + tail)) == More(ms) + tail
    ensures if ms.rest.NoMembers? then More(ms) + tail == tail
            else More(ms) + tail == [COMMA] + (MembersText(ms.rest) + tail) && !Closes(MembersText(ms.rest) + tail, CLOSE_OBJECT)
  {
    hide ValidValue, ValidChars;
    if ms.rest.Members? {
      MembersOpen(ms.rest, tail);
      Glue2([COMMA], MembersText(ms.rest), tail);
    }
    hide MembersText, ValidMembers, Closes;
    AfterBoundary(ms.after, More(ms) + tail);
    SpacesSkip(ms.after, More(ms) + tail);
  }
}

/** Hook documents as they are usually written, and the exact limits. */
module JsonDocuments {
  import opened Common
  import opened Utf8
  import opened JsonGrammar
  import opened JsonScan
  import opened JsonProof
  import opened JsonDecode
  import opened JsonText
  import opened JsonProjection

  /** Printable ASCII without quotes and backslashes. */
  predicate PlainId(t: Bytes) {
    forall i :: 0 <= i < |t| ==> 0x20 <= t[i] < 0x80 && t[i] != 0x22 && t[i] != 0x5C
  }

  function PlainChars(t: Bytes): seq<Char> {
    seq(|t|, (i: nat) requires i < |t| => Plain(t[i]))
  }

  lemma {:induction false} PlainCharsText(t: Bytes)
    ensures CharsText(PlainChars(t)) == t
  {
    if t != [] {
      PlainCharsText(t[1..]);
      assert PlainChars(t)[1..] == PlainChars(t[1..]);
      assert t == [t[0]] + t[1..];
    }
  }

  lemma PlainIdReads(t: Bytes)
    requires PlainId(t)
    ensures ValidChars(PlainChars(t)) && CharsText(PlainChars(t)) == t && Decoded(PlainChars(t)) == t
    ensures StringText(PlainChars(t)) == Ascii("\"") + t + Ascii("\"")
  {
    PlainCharsText(t);
    PlainAscii(t);
    hide CharsText, Unquote;
  }

  const EVENT_KEY := Ascii("hook_event_name")
  const SESSION_KEY := Ascii("session_id")
  const TURN_KEY := Ascii("turn_id")

  lemma KeysPlain()
    ensures PlainId(EVENT_KEY) && PlainId(SESSION_KEY) && PlainId(TURN_KEY)
    ensures EVENT_NAME == EVENT_KEY && SESSION_ID == SESSION_KEY && TURN_ID == TURN_KEY
    ensures |EVENT_KEY| == 15 && |SESSION_KEY| == 10 && |TURN_KEY| == 7
  {
  }

  /** The three keys in their ordinary spelling, and whatever decodes to them, name the three fields. */
  lemma KeysNamed(name: Bytes)
    ensures FieldOf(name) == EventName <==> name == EVENT_KEY
    ensures FieldOf(name) == SessionId <==> name == SESSION_KEY
    ensures FieldOf(name) == TurnId <==> name == TURN_KEY
    ensures Decoded(PlainChars(EVENT_KEY)) == EVENT_KEY && Decoded(PlainChars(SESSION_KEY)) == SESSION_KEY
    ensures Decoded(PlainChars(TURN_KEY)) == TURN_KEY
  {
    hide Decoded, Ascii, PlainId, EVENT_KEY, SESSION_KEY, TURN_KEY, EVENT_NAME, SESSION_ID, TURN_ID;
    KeysPlain();
    PlainIdReads(EVENT_KEY);
    PlainIdReads(SESSION_KEY);
    PlainIdReads(TURN_KEY);
  }

  function StringMember(key: Bytes, value: Bytes, rest: Members): Members {
    Members([], PlainChars(key), [], [], Str(PlainChars(value)), [], rest)
  }

  function ThreeMembers(event: Bytes, session: Bytes, turn: Bytes): Members {
    StringMember(EVENT_KEY, event, StringMember(SESSION_KEY, session, StringMember(TURN_KEY, turn, NoMembers)))
  }

  /** The document a hook sends. */
  function HookText(event: Bytes, session: Bytes, turn: Bytes): Bytes {
    Ascii("{\"hook_event_name\":\"") + event + Ascii("\",\"session_id\":\"") + session
    + Ascii("\",\"turn_id\":\"") + turn + Ascii("\"}")
  }

  lemma MemberGlue(q: Bytes, k: Bytes, c: Bytes, v: Bytes, tail: Bytes)
    ensures [] + ((q + k + q) + ([] + (c + ([] + ((q + v + q) + ([] + tail)))))) == q + k + (q + c + q) + v + q + tail
  {
  }

  lemma MemberText(key: Bytes, value: Bytes, rest: Members)
    requires PlainId(key) && PlainId(value)
    ensures MembersText(StringMember(key, value, rest)) ==
            Ascii("\"") + key + Ascii("\":\"") + value + Ascii("\"") + (if rest.NoMembers? then [] else Ascii(",") + MembersText(rest))
  {
    PlainIdReads(key);
    PlainIdReads(value);
    Signs();
    hide StringText, PlainId, PlainChars, Ascii, Decoded;
    MemberGlue(Ascii("\""), key, [COLON], value, if rest.NoMembers? then [] else [COMMA] + MembersText(rest));
  }

  lemma Signs()
    ensures Ascii("\"") + [COLON] + Ascii("\"") == Ascii("\":\"") && [COMMA] == Ascii(",")
    ensures [OPEN_OBJECT] == Ascii("{") && [CLOSE_OBJECT] == Ascii("}")
  {
  }

  lemma EventSigns()
    ensures Ascii("{") + Ascii("\"") + EVENT_KEY + Ascii("\":\"") == Ascii("{\"hook_event_name\":\"")
  {
  }

  lemma SessionSigns()
    ensures Ascii("\"") + Ascii(",") + Ascii("\"") + SESSION_KEY + Ascii("\":\"") == Ascii("\",\"session_id\":\"")
  {
  }

  lemma TurnSigns()
    ensures Ascii("\"") + Ascii(",") + Ascii("\"") + TURN_KEY + Ascii("\":\"") == Ascii("\",\"turn_id\":\"")
    ensures Ascii("\"") + Ascii("}") == Ascii("\"}")
  {
  }

  lemma ThreeGlue(o: Bytes, q: Bytes, e: Bytes, m: Bytes, v: Bytes, c: Bytes, s: Bytes, w: Bytes, t: Bytes, x: Bytes, k: Bytes)
    ensures [] + ((o + ((q + e + m + v + q + (c + (q + s + m + w + q + (c + (q + t + m + x + q + []))))) + k)) + [])
            == (o + q + e + m) + v + (q + c + q + s + m) + w + (q + c + q + t + m) + x + (q + k)
  {
  }

  lemma ThreeMembersText(event: Bytes, session: Bytes, turn: Bytes)
    requires PlainId(event) && PlainId(session) && PlainId(turn)
    ensures DocumentText(Document([], [], ThreeMembers(event, session, turn), [])) == HookText(event, session, turn)
  {
    hide MembersText, PlainId, Ascii, EVENT_KEY, SESSION_KEY, TURN_KEY;
    KeysPlain();
    MemberText(TURN_KEY, turn, NoMembers);
    MemberText(SESSION_KEY, session, StringMember(TURN_KEY, turn, NoMembers));
    MemberText(EVENT_KEY, event, StringMember(SESSION_KEY, session, StringMember(TURN_KEY, turn, NoMembers)));
    Signs();
    EventSigns();
    SessionSigns();
    TurnSigns();
    ThreeGlue(Ascii("{"), Ascii("\""), EVENT_KEY, Ascii("\":\""), event, Ascii(","), SESSION_KEY, session, TURN_KEY, turn, Ascii("}"));
  }

  lemma MemberFine(key: Bytes, value: Bytes, h: HookInput, rest: Members)
    requires PlainId(key) && PlainId(value) && !FieldOf(key).Other? && |value| <= 768
    ensures var ms := StringMember(key, value, rest);
            && (ValidMembers(rest) && Allowed(rest) ==> ValidMembers(ms) && Allowed(ms))
            && ProjectFrom(h, ms) == ProjectFrom(Assign(h, FieldOf(key), value), rest)
  {
    PlainIdReads(key);
    PlainIdReads(value);
    hide Decoded, FieldOf, Assign, CharsText;
  }

  /** A document with plainly spelled keys and identifiers of at most 768 bytes projects to them, for every
      payload limit it keeps to. */
  lemma PlainDocument(event: Bytes, session: Bytes, turn: Bytes, maxPayload: int)
    requires PlainId(event) && PlainId(session) && PlainId(turn) && |event| <= 768 && |session| <= 768 && |turn| <= 768
    requires |HookText(event, session, turn)| <= maxPayload <= 16777216
    ensures ProjectHookInput(HookText(event, session, turn), maxPayload) == Some(HookInput(event, session, turn))
  {
    hide MembersText, ProjectFrom, PlainChars, ValidMembers, Allowed, HookText, FieldOf, Ascii, PlainId, EVENT_KEY, SESSION_KEY, TURN_KEY, ParseDocument, DocumentText;
    KeysPlain();
    KeysNamed(EVENT_KEY);
    KeysNamed(SESSION_KEY);
    KeysNamed(TURN_KEY);
    ThreeMembersText(event, session, turn);
    var d := Document([], [], ThreeMembers(event, session, turn), []);
    var h1, h2 := HookInput(event, [], []), HookInput(event, session, []);
    MemberFine(TURN_KEY, turn, h2, NoMembers);
    MemberFine(SESSION_KEY, session, h1, StringMember(TURN_KEY, turn, NoMembers));
    MemberFine(EVENT_KEY, event, BLANK, StringMember(SESSION_KEY, session, StringMember(TURN_KEY, turn, NoMembers)));
    NothingLeft(HookInput(event, session, turn));
    assert HookText(event, session, turn) != [] by { HookTextLong(event, session, turn); }
    DocumentComplete(d);
  }

  lemma NothingLeft(h: HookInput)
    ensures ValidMembers(NoMembers) && Allowed(NoMembers) && ProjectFrom(h, NoMembers) == h
  {
  }

  lemma HookTextLong(event: Bytes, session: Bytes, turn: Bytes)
    ensures HookText(event, session, turn) != []
  {
  }

  // ----- the limits -----

  /** A document whose first member's value is refused is refused. */
  lemma FirstMember(key: Bytes, s: Bytes)
    requires PlainId(key) && ParseMemberValue(s, BLANK, KeyField(PlainChars(key))).None?
    ensures ParseDocument(Ascii("{\"") + key + (Ascii("\":") + s)).None?
  {
    hide PlainChars, PlainId, ParseMemberValue, KeyField, ScanString, Decoded, StringText, CharsText;
    PlainIdReads(key);
    OpeningSigns();
    var members := [QUOTE] + (key + ([QUOTE] + ([COLON] + s)));
    var text := Ascii("{\"") + key + (Ascii("\":") + s);
    assert text == [OPEN_OBJECT] + members by {
      hide Ascii;
      OpeningGlue([OPEN_OBJECT], [QUOTE], key, [COLON], s);
    }
    hide Ascii;
    NoSpace();
    ExpectComplete([], OPEN_OBJECT, members);
    ExpectComplete([], QUOTE, key + ([QUOTE] + ([COLON] + s)));
    ExpectComplete([], COLON, s);
    ScanComplete(PlainChars(key), [COLON] + s);
    NotSpace(members);
    assert ParseMembers(members, BLANK).None?;
  }

  lemma OpeningSigns()
    ensures Ascii("{\"") == [OPEN_OBJECT] + [QUOTE] && Ascii("\":") == [QUOTE] + [COLON]
  {
  }

  lemma OpeningGlue(o: Bytes, q: Bytes, k: Bytes, c: Bytes, s: Bytes)
    ensures (o + q) + k + ((q + c) + s) == o + (q + (k + (q + (c + s))))
  {
  }

  lemma NoSpace()
    ensures AllSpace([])
    ensures forall t: Bytes :: [] + t == t
  {
  }

  lemma NotSpace(s: Bytes)
    requires s != [] && s[0] == QUOTE
    ensures SkipSpaces(s) == s
  {
  }

  /** A lifecycle field of more than 768 plain bytes is refused, whatever follows. */
  lemma LongFieldRefused(key: Bytes, value: Bytes, rest: Bytes)
    requires key in {EVENT_KEY, SESSION_KEY, TURN_KEY} && PlainId(value) && |value| > 768
    ensures ParseDocument(Ascii("{\"") + key + (Ascii("\":") + (Ascii("\"") + value + (Ascii("\"") + rest)))).None?
  {
    hide ScanString, Decoded, CharsText, PlainChars, FieldOf, Ascii, EVENT_KEY, SESSION_KEY, TURN_KEY, ParseDocument, PlainId;
    KeysPlain();
    KeysNamed(key);
    PlainIdReads(key);
    PlainIdReads(value);
    Quote();
    var s := Ascii("\"") + value + (Ascii("\"") + rest);
    NoSpace();
    assert s == [QUOTE] + (value + ([QUOTE] + rest));
    ExpectComplete([], QUOTE, value + ([QUOTE] + rest));
    ScanComplete(PlainChars(value), rest);
    FirstMember(key, s);
  }

  lemma Quote()
    ensures Ascii("\"") == [QUOTE]
  {
  }

  function Repeat(b: Byte, n: nat): (s: Bytes)
    ensures |s| == n
  {
    if n == 0 then [] else [b] + Repeat(b, n - 1)
  }

  /** Values that nest deeper than 128 containers are refused, whatever follows. */
  lemma {:induction false} TooDeep(n: nat, depth: nat, rest: Bytes)
    requires depth + n > 128
    ensures SkipValue(Repeat('[' as int, n) + rest, depth).None?
  {
    if depth <= 128 {
      var s, more := Repeat('[' as int, n) + rest, Repeat('[' as int, n - 1) + rest;
      assert s == [OPEN_ARRAY] + more;
      assert s[1..] == more;
      assert SkipValue(s, depth) == SkipArray(more, depth + 1);
      if depth < 128 {
        TooDeep(n - 1, depth + 1, rest);
        assert more[0] == OPEN_ARRAY;
        assert SkipArray(more, depth + 1) == SkipElements(more, depth + 1);
      }
    }
  }

  function Nest(n: nat): Value
    requires n > 0
  {
    if n == 1 then Arr([], NoElements) else Arr([], Elements([], Nest(n - 1), [], NoElements))
  }

  lemma {:induction false} NestText(n: nat)
    requires n > 0
    ensures ValidValue(Nest(n)) && Nesting(Nest(n)) == n && !Nest(n).Str?
    ensures ValueText(Nest(n)) == Repeat('[' as int, n) + Repeat(']' as int, n)
  {
    hide Repeat, ValueText, ElementsText;
    if n > 1 {
      NestText(n - 1);
      NestedText(Nest(n - 1));
      Brackets(n);
      NestGlue([OPEN_ARRAY], Repeat('[' as int, n - 1), Repeat(']' as int, n - 1), [CLOSE_ARRAY]);
    } else {
      EmptyText();
    }
  }

  lemma NestGlue(o: Bytes, a: Bytes, b: Bytes, c: Bytes)
    ensures o + ((a + b) + c) == (o + a) + (b + c)
  {
  }

  lemma Brackets(n: nat)
    requires n > 0
    ensures Repeat('[' as int, n) == [OPEN_ARRAY] + Repeat('[' as int, n - 1)
    ensures Repeat(']' as int, n) == Repeat(']' as int, n - 1) + [CLOSE_ARRAY]
  {
    RepeatEnd(']' as int, n - 1);
  }

  lemma NestedText(v: Value)
    ensures ValueText(Arr([], Elements([], v, [], NoElements))) == [OPEN_ARRAY] + (ValueText(v) + [CLOSE_ARRAY])
  {
    assert ElementsText(Elements([], v, [], NoElements)) == ValueText(v);
  }

  lemma EmptyText()
    ensures ValueText(Arr([], NoElements)) == Repeat('[' as int, 1) + Repeat(']' as int, 1)
  {
    assert Repeat('[' as int, 1) == [OPEN_ARRAY] && Repeat(']' as int, 1) == [CLOSE_ARRAY];
  }

  lemma {:induction false} RepeatEnd(b: Byte, n: nat)
    ensures Repeat(b, n + 1) == Repeat(b, n) + [b]
  {
    if n > 0 { RepeatEnd(b, n - 1); }
  }

  /** A field that is not kept may nest exactly 128 containers. */
  lemma DepthExact(key: Bytes, n: nat)
    requires n > 0 && PlainId(key) && key !in {EVENT_KEY, SESSION_KEY, TURN_KEY}
    ensures var text := Ascii("{\"") + key + (Ascii("\":") + (Repeat('[' as int, n) + (Repeat(']' as int, n) + Ascii("}"))));
            ParseDocument(text) == if n <= 128 then Some(HookInput([], [], [])) else None
  {
    hide ParseDocument, Ascii, FieldOf, EVENT_KEY, SESSION_KEY, TURN_KEY, Decoded, PlainChars, PlainId, Repeat;
    var s := Repeat('[' as int, n) + (Repeat(']' as int, n) + Ascii("}"));
    PlainIdReads(key);
    KeysNamed(key);
    if n > 128 {
      hide SkipValue;
      TooDeep(n, 0, Repeat(']' as int, n) + Ascii("}"));
      FirstMember(key, s);
    } else {
      NestedAccepted(key, n);
    }
  }

  lemma NestedAccepted(key: Bytes, n: nat)
    requires 0 < n <= 128 && PlainId(key) && FieldOf(key).Other?
    ensures var text := Ascii("{\"") + key + (Ascii("\":") + (Repeat('[' as int, n) + (Repeat(']' as int, n) + Ascii("}"))));
            ParseDocument(text) == Some(HookInput([], [], []))
  {
    hide ParseDocument, FieldOf, Decoded, PlainChars, PlainId, CharsText, Repeat, ValueText, ValidValue, Nesting, Ascii, Nest;
    PlainIdReads(key);
    NestText(n);
    var ms := Members([], PlainChars(key), [], [], Nest(n), [], NoMembers);
    var d := Document([], [], ms, []);
    NothingLeft(BLANK);
    NoSpace();
    DocumentComplete(d);
    OpeningSigns();
    Signs();
    Quote();
    ObjectGlue([OPEN_OBJECT], [QUOTE], key, [COLON], Repeat('[' as int, n), Repeat(']' as int, n), [CLOSE_OBJECT]);
    ObjectText(ms);
  }

  lemma ObjectText(ms: Members)
    requires ms.Members?
    ensures ValueText(Obj([], ms)) == [OPEN_OBJECT] + (MembersText(ms) + [CLOSE_OBJECT])
  {
  }

  lemma ObjectGlue(o: Bytes, q: Bytes, k: Bytes, c: Bytes, a: Bytes, b: Bytes, x: Bytes)
    ensures [] + ((o + (([] + ((q + k + q) + ([] + (c + ([] + ((a + b) + ([] + []))))))) + x)) + []) ==
            (o + q) + k + ((q + c) + (a + (b + x)))
  {
  }

  /** The payload limit counts every byte, and none above 16 MiB is allowed. */
  lemma PayloadLimit(input: Bytes, maxPayload: int)
    ensures ProjectHookInput(input, maxPayload).Some? ==> 0 < maxPayload <= 16777216 && |input| <= maxPayload
    ensures 0 < maxPayload <= 16777216 && |input| <= maxPayload ==> ProjectHookInput(input, maxPayload) == ParseDocument(input)
  {
    hide ParseDocument;
  }

  // ----- numbers that section 6 allows, and texts that it does not allow -----

  lemma Taken(v: Value, text: Bytes, rest: Bytes)
    requires ValidValue(v) && Nesting(v) == 0 && ValueText(v) == text && AtBoundary(rest)
    ensures SkipValue(text + rest, 0) == Some(rest)
  {
    hide ValidValue, ValueText, Nesting, SkipValue, AtBoundary;
    NoSpace();
    ValueComplete([], v, rest, 0);
  }

  lemma WholeTaken(rest: Bytes)
    requires AtBoundary(rest)
    ensures SkipValue(Ascii("0") + rest, 0) == Some(rest) && SkipValue(Ascii("-10") + rest, 0) == Some(rest)
  {
    hide SkipValue, AtBoundary;
    Taken(Num(Number(false, Ascii("0"), None, None)), Ascii("0"), rest);
    Taken(Num(Number(true, Ascii("10"), None, None)), Ascii("-10"), rest);
  }

  lemma FractionTaken(rest: Bytes)
    requires AtBoundary(rest)
    ensures SkipValue(Ascii("-0.50E+07") + rest, 0) == Some(rest) && SkipValue(Ascii("9e-1") + rest, 0) == Some(rest)
  {
    hide SkipValue, AtBoundary;
    Taken(Num(Number(true, Ascii("0"), Some(Ascii("50")), Some(Exponent('E' as int, Some('+' as int), Ascii("07"))))), Ascii("-0.50E+07"), rest);
    Taken(Num(Number(false, Ascii("9"), None, Some(Exponent('e' as int, Some('-' as int), Ascii("1"))))), Ascii("9e-1"), rest);
  }

  lemma ZeroRefused(rest: Bytes)
    ensures SkipValue(Ascii("01") + rest, 0).None?
  {
    var s := Ascii("01") + rest;
    assert s[0] == ZERO && IsDigit(s[1]);
    assert SkipSpaces(s) == s;
  }

  lemma StartRefused(rest: Bytes)
    ensures SkipValue(Ascii("+1") + rest, 0).None? && SkipValue(Ascii(".5") + rest, 0).None?
  {
    assert (Ascii("+1") + rest)[0] == PLUS && (Ascii(".5") + rest)[0] == DOT;
    assert SkipSpaces(Ascii("+1") + rest) == Ascii("+1") + rest && SkipSpaces(Ascii(".5") + rest) == Ascii(".5") + rest;
  }

  lemma PointRefused(rest: Bytes)
    requires AtBoundary(rest)
    ensures SkipNumber(Ascii("1.") + rest).None?
  {
    var s := Ascii("1.") + rest;
    assert s[0] == '1' as int && s[1..] == [DOT] + rest && s[1..][1..] == rest;
    assert SkipDigits(rest) == rest && SkipDigits(s[1..]) == s[1..];
  }

  lemma MarkRefused(rest: Bytes)
    requires AtBoundary(rest)
    ensures SkipNumber(Ascii("1e") + rest).None?
  {
    var s := Ascii("1e") + rest;
    assert s[0] == '1' as int && s[1..] == ['e' as int] + rest && s[1..][1..] == rest;
    assert SkipDigits(rest) == rest && SkipDigits(s[1..]) == s[1..];
  }

  lemma SignRefused(rest: Bytes)
    requires AtBoundary(rest)
    ensures SkipNumber(Ascii("-") + rest).None?
  {
    var s := Ascii("-") + rest;
    assert s[0] == MINUS && s[1..] == rest;
  }

  lemma TailRefused(rest: Bytes)
    ensures SkipNumber(Ascii("1x") + rest).None?
  {
    var s := Ascii("1x") + rest;
    assert s[0] == '1' as int && s[1..] == ['x' as int] + rest;
    assert SkipDigits(s[1..]) == s[1..];
  }
}

/** Projecting hook input: one object, three captured fields, everything else only recognised. */
module JsonProjection {
  import opened Common
  import opened Utf8
  import opened JsonGrammar
  import opened JsonScan
  import opened JsonProof
  import opened JsonDecode

  const MAX_ID_LENGTH := 128
  const CAPTURE_LIMIT := 6 * MAX_ID_LENGTH + 2
  const MAXIMUM_HOOK_PAYLOAD := 16 * 1024 * 1024

  // "hook_event_name", "session_id" and "turn_id"
  const EVENT_NAME: Bytes := [0x68, 0x6F, 0x6F, 0x6B, 0x5F, 0x65, 0x76, 0x65, 0x6E, 0x74, 0x5F, 0x6E, 0x61, 0x6D, 0x65]
  const SESSION_ID: Bytes := [0x73, 0x65, 0x73, 0x73, 0x69, 0x6F, 0x6E, 0x5F, 0x69, 0x64]
  const TURN_ID: Bytes := [0x74, 0x75, 0x72, 0x6E, 0x5F, 0x69, 0x64]

  datatype HookInput = HookInput(eventName: Bytes, sessionId: Bytes, turnId: Bytes)

  datatype Field = EventName | SessionId | TurnId | Other

  function FieldOf(name: Bytes): Field {
    if name == EVENT_NAME then EventName
    else if name == SESSION_ID then SessionId
    else if name == TURN_ID then TurnId
    else Other
  }

  function Assign(h: HookInput, f: Field, value: Bytes): HookInput {
    match f
    case EventName => h.(eventName := value)
    case SessionId => h.(sessionId := value)
    case TurnId => h.(turnId := value)
    case Other => h
  }

  const BLANK := HookInput([], [], [])

  function Decoded(cs: seq<Char>): Bytes {
    Unquote(CharsText(cs))
  }

  /** Whether the literal fits the capture buffer, quotes included. */
  predicate Captured(cs: seq<Char>, limit: nat) {
    2 <= limit && |CharsText(cs)| + 2 <= limit
  }

  // ----- the specification on derivation trees -----

  predicate MemberAllowed(key: seq<Char>, v: Value) {
    if FieldOf(Decoded(key)).Other? then Nesting(v) <= MAX_DEPTH
    else v.Str? && |StringText(v.chars)| <= CAPTURE_LIMIT
  }

  predicate Allowed(ms: Members) {
    ms.NoMembers? || (MemberAllowed(ms.key, ms.value) && Allowed(ms.rest))
  }

  function ProjectFrom(h: HookInput, ms: Members): HookInput
    decreases ms
  {
    if ms.NoMembers? then h
    else
      var f := FieldOf(Decoded(ms.key));
      ProjectFrom(if f.Other? || !ms.value.Str? then h else Assign(h, f, Decoded(ms.value.chars)), ms.rest)
  }

  predicate Acceptable(d: Document) {
    ValidDocument(d) && Allowed(d.members)
  }

  // ----- the projecting parser, as a function of the bytes ahead -----

  datatype Parsed = Parsed(input: HookInput, rest: Bytes)

  /** The field a key names, as far as it was captured. */
  function KeyField(key: seq<Char>): Field {
    if Captured(key, CAPTURE_LIMIT) then FieldOf(Decoded(key)) else Other
  }

  /** The value of a member, after its colon, whose key names the field `f`. */
  function ParseMemberValue(s: Bytes, h: HookInput, f: Field): (r: Option<Parsed>)
    ensures r.Some? ==> |r.value.rest| < |s|
  {
    if f.Other? then
      var skipped := SkipValue(s, 0);
      if skipped.Some? then Some(Parsed(h, skipped.value)) else None
    else
      var start := Expect(s, QUOTE);
      if start.None? then None
      else
        var scanned := ScanString(start.value);
        if scanned.None? || !Captured(scanned.value.chars, CAPTURE_LIMIT) then None
        else Some(Parsed(Assign(h, f, Decoded(scanned.value.chars)), scanned.value.rest))
  }

  function ParseMembers(s: Bytes, h: HookInput): (r: Option<Parsed>)
    ensures r.Some? ==> |r.value.rest| < |s|
    decreases |s|
  {
    var start := Expect(s, QUOTE);
    if start.None? then None
    else
      var key := ScanString(start.value);
      if key.None? then None
      else
        var colon := Expect(key.value.rest, COLON);
        if colon.None? then None
        else
          var v := ParseMemberValue(colon.value, h, KeyField(key.value.chars));
          if v.None? then None
          else
            var t := SkipSpaces(v.value.rest);
            if t == [] then None
            else if t[0] == CLOSE_OBJECT then Some(Parsed(v.value.input, t[1..]))
            else if t[0] == COMMA && !Closes(t[1..], CLOSE_OBJECT) then ParseMembers(t[1..], v.value.input)
            else None
  }

  function ParseObject(s: Bytes): Option<Parsed> {
    var start := Expect(s, OPEN_OBJECT);
    if start.None? then None
    else
      var t := SkipSpaces(start.value);
      if t == [] then None
      else if t[0] == CLOSE_OBJECT then Some(Parsed(BLANK, t[1..]))
      else ParseMembers(start.value, BLANK)
  }

  /** The object and nothing but whitespace after it. */
  function ParseDocument(s: Bytes): Option<HookInput> {
    var o := ParseObject(s);
    if o.Some? && SkipSpaces(o.value.rest) == [] then Some(o.value.input) else None
  }

  /** At most one byte more than allowed is ever read. */
  function Limited(input: Bytes, maxPayload: int): Bytes {
    if |input| <= maxPayload + 1 || maxPayload < 0 then input else input[..maxPayload + 1]
  }

  function ProjectHookInput(input: Bytes, maxPayload: int): Option<HookInput> {
    if maxPayload <= 0 || maxPayload > MAXIMUM_HOOK_PAYLOAD then None
    else
      var seen := Limited(input, maxPayload);
      if |seen| > maxPayload then None else ParseDocument(seen)
  }

  // ----- the capture limit loses nothing -----

  /** No literal that decodes to at most 128 bytes is too long for the capture buffer. */
  lemma CaptureSuffices(cs: seq<Char>)
    requires |Decoded(cs)| <= MAX_ID_LENGTH
    ensures Captured(cs, CAPTURE_LIMIT)
  {
    SpellingBound(CharsText(cs));
    hide Unquote;
  }

  /** Every spelling of a lifecycle key is captured, so recognising keys by their captured text misses none. */
  lemma KeysCaptured(cs: seq<Char>)
    requires !FieldOf(Decoded(cs)).Other?
    ensures Captured(cs, CAPTURE_LIMIT)
  {
    hide Decoded;
    CaptureSuffices(cs);
  }

  /** The limit cannot be lowered: some identifier of 128 bytes has a spelling of exactly 770. */
  lemma CaptureLimitTight(id: Bytes)
    requires |id| == MAX_ID_LENGTH && forall i :: 0 <= i < |id| ==> id[i] < 0x80
    ensures var cs := SpellOut(id);
            ValidChars(cs) && Decoded(cs) == id && |StringText(cs)| == CAPTURE_LIMIT && !Captured(cs, CAPTURE_LIMIT - 1)
  {
    SpelledOut(id);
    hide Unquote, SpellOut, CharsText;
  }

  // ----- soundness -----

  lemma ParseValueSound(s: Bytes, h: HookInput, key: seq<Char>) returns (ws: Bytes, v: Value)
    requires ParseMemberValue(s, h, KeyField(key)).Some?
    ensures var p := ParseMemberValue(s, h, KeyField(key)).value;
            && AllSpace(ws) && ValidValue(v) && s == ws + (ValueText(v) + p.rest) && MemberAllowed(key, v)
            && p.input == ProjectFrom(h, Members([], key, [], ws, v, [], NoMembers))
  {
    hide Unquote, SkipValue, Assign;
    if !FieldOf(Decoded(key)).Other? { KeysCaptured(key); }
    if Captured(key, CAPTURE_LIMIT) && !FieldOf(Decoded(key)).Other? {
      ws := ExpectSound(s, QUOTE);
      var t := [QUOTE] + Expect(s, QUOTE).value;
      assert t[1..] == Expect(s, QUOTE).value;
      v := StringSound(t);
      StringShape(v, t);
    } else {
      ws, v := ValueSound(s, 0);
    }
  }

  /** The tree of a scanned string is the scanned characters. */
  lemma StringShape(v: Value, t: Bytes)
    requires v.Str? && ValidValue(v) && t != [] && t[0] == QUOTE && ScanString(t[1..]).Some?
    requires t == ValueText(v) + ScanString(t[1..]).value.rest
    ensures v.chars == ScanString(t[1..]).value.chars && |StringText(v.chars)| == |CharsText(v.chars)| + 2
  {
    var rest := ScanString(t[1..]).value.rest;
    StringGlue(v.chars, rest);
    ScanComplete(v.chars, rest);
    hide ScanString, CharsText;
  }

  lemma {:induction false} ParseMembersSound(s: Bytes, h: HookInput) returns (ms: Members)
    requires ParseMembers(s, h).Some?
    ensures var p := ParseMembers(s, h).value;
            && ms.Members? && ValidMembers(ms) && Allowed(ms)
            && s == MembersText(ms) + ([CLOSE_OBJECT] + p.rest) && p.input == ProjectFrom(h, ms)
    decreases |s|
  {
    hide Unquote, SkipValue, Assign, Decoded, MemberAllowed, AllSpace, ValidChars, ValidValue, ParseMemberValue, FieldOf, KeyField, Captured,
      ScanString, ProjectFrom, MembersText, ValueText, CharsText;
    var before := ExpectSound(s, QUOTE);
    var s1 := Expect(s, QUOTE).value;
    ScanSound(s1);
    var key := ScanString(s1).value;
    var afterKey := ExpectSound(key.rest, COLON);
    var s2 := Expect(key.rest, COLON).value;
    var beforeValue, v := ParseValueSound(s2, h, key.chars);
    var p := ParseMemberValue(s2, h, KeyField(key.chars)).value;
    var after := SpacesSplit(p.rest);
    var t := SkipSpaces(p.rest);
    assert t == [t[0]] + t[1..];
    var more := NoMembers;
    var rest := ParseMembers(s, h).value.rest;
    if t[0] != CLOSE_OBJECT {
      more := ParseMembersSound(t[1..], p.input);
      Glue2([COMMA], MembersText(more), [CLOSE_OBJECT] + rest);
    }
    ms := Members(before, key.chars, afterKey, beforeValue, v, after, more);
    ProjectOne(h, ms);
    ProjectNone(p.input);
    MembersAssemble(ms, s, s1, key, s2, p.rest, t, rest);
  }

  lemma ProjectNone(h: HookInput)
    ensures ProjectFrom(h, NoMembers) == h && Allowed(NoMembers)
  {
  }

  // ----- completeness -----

  lemma ParseValueComplete(ws: Bytes, v: Value, rest: Bytes, h: HookInput, key: seq<Char>)
    requires AllSpace(ws) && ValidValue(v) && MemberAllowed(key, v) && Follows(v, rest)
    ensures ParseMemberValue(ws + (ValueText(v) + rest), h, KeyField(key)) ==
            Some(Parsed(ProjectFrom(h, Members([], key, [], ws, v, [], NoMembers)), rest))
  {
    hide Unquote, Assign, SkipValue;
    var s := ws + (ValueText(v) + rest);
    if FieldOf(Decoded(key)).Other? {
      ValueComplete(ws, v, rest, 0);
    } else {
      KeysCaptured(key);
      ValueAfterSpace(ws, v, rest);
      StringGlue(v.chars, rest);
      ScanComplete(v.chars, rest);
      hide ScanString, CharsText, Decoded;
      assert |StringText(v.chars)| == |CharsText(v.chars)| + 2;
      assert Expect(s, QUOTE) == Some(CharsText(v.chars) + ([QUOTE] + rest));
    }
  }

  lemma {:induction false} ParseMembersComplete(ms: Members, rest: Bytes, h: HookInput)
    requires ms.Members? && ValidMembers(ms) && Allowed(ms)
    ensures ParseMembers(MembersText(ms) + ([CLOSE_OBJECT] + rest), h) == Some(Parsed(ProjectFrom(h, ms), rest))
    decreases ms
  {
    hide AllSpace, ValidChars, ScanString, StringText, Expect, MemberAllowed, ParseMemberValue, Unquote, Decoded, FieldOf, KeyField, Assign;
    var tail := [CLOSE_OBJECT] + rest;
    MemberHead(ms, tail);
    MemberTail(ms, tail);
    ParseValueComplete(ms.beforeValue, ms.value, ms.after + (More(ms) + tail), h, ms.key);
    ProjectOne(h, ms);
    if ms.rest.Members? {
      var first := ProjectFrom(h, Members([], ms.key, [], ms.beforeValue, ms.value, [], NoMembers));
      ParseMembersComplete(ms.rest, rest, first);
    }
  }

  /** Projecting a member list is projecting its first member and then the others. */
  lemma ProjectOne(h: HookInput, ms: Members)
    requires ms.Members?
    ensures ProjectFrom(h, ms) ==
            ProjectFrom(ProjectFrom(h, Members([], ms.key, [], ms.beforeValue, ms.value, [], NoMembers)), ms.rest)
  {
    hide Decoded, FieldOf, Assign;
  }

  // ----- the main result -----

  lemma DocumentSound(s: Bytes) returns (d: Document)
    requires ParseDocument(s).Some?
    ensures Acceptable(d) && DocumentText(d) == s && ParseDocument(s).value == ProjectFrom(BLANK, d.members)
  {
    hide ProjectFrom, ParseMembers, Allowed, AllSpace, MembersText;
    var lead := ExpectSound(s, OPEN_OBJECT);
    var u := Expect(s, OPEN_OBJECT).value;
    var gap := SpacesSplit(u);
    var t := SkipSpaces(u);
    var rest := ParseObject(s).value.rest;
    var trail := SpacesSplit(rest);
    assert rest == trail;
    assert t == [t[0]] + t[1..];
    AllSpaceEmpty();
    ProjectNone(BLANK);
    if t[0] == CLOSE_OBJECT {
      d := Document(lead, gap, NoMembers, trail);
      Glue3([OPEN_OBJECT], gap, [CLOSE_OBJECT], rest);
    } else {
      var ms := ParseMembersSound(u, BLANK);
      d := Document(lead, [], ms, trail);
      Glue3([OPEN_OBJECT], MembersText(ms), [CLOSE_OBJECT], rest);
    }
  }

  lemma DocumentComplete(d: Document)
    requires Acceptable(d)
    ensures ParseDocument(DocumentText(d)) == Some(ProjectFrom(BLANK, d.members))
  {
    hide ProjectFrom, ParseMembers, Allowed, AllSpace, MembersText, ValidMembers, Expect;
    var ms := d.members;
    var inside := if ms.NoMembers? then d.gap else MembersText(ms);
    var tail := [CLOSE_OBJECT] + d.trail;
    Glue3([OPEN_OBJECT], inside, [CLOSE_OBJECT], d.trail);
    assert DocumentText(d) == d.lead + ([OPEN_OBJECT] + (inside + tail));
    ExpectComplete(d.lead, OPEN_OBJECT, inside + tail);
    ProjectNone(BLANK);
    TrailingSpace(d.trail);
    if ms.NoMembers? {
      SpacesSkip(d.gap, tail);
      assert tail[1..] == d.trail;
    } else {
      ParseMembersComplete(ms, d.trail, BLANK);
      MembersOpen(ms, tail);
    }
  }

  lemma ExpectComplete(ws: Bytes, b: Byte, rest: Bytes)
    requires AllSpace(ws) && !IsSpace(b)
    ensures Expect(ws + ([b] + rest), b) == Some(rest)
  {
    SpacesSkip(ws, [b] + rest);
  }

  lemma TrailingSpace(trail: Bytes)
    requires AllSpace(trail)
    ensures SkipSpaces(trail) == []
  {
    assert trail + [] == trail;
    SpacesSkip(trail, []);
  }

  /** `h` is the projection of some acceptable reading of the whole input as one object. */
  ghost predicate Reads(input: Bytes, h: HookInput) {
    exists d :: Acceptable(d) && DocumentText(d) == input && h == ProjectFrom(BLANK, d.members)
  }

  /** The projection accepts exactly the inputs of at most `maxPayload` bytes that are one JSON
      object surrounded only by whitespace, whose discarded values nest at most 128 containers and
      whose lifecycle fields are strings of at most 770 raw bytes; and it yields their projection. */
  lemma ProjectionExact(input: Bytes, maxPayload: int, h: HookInput)
    ensures ProjectHookInput(input, maxPayload) == Some(h) <==>
            0 < maxPayload <= MAXIMUM_HOOK_PAYLOAD && |input| <= maxPayload && Reads(input, h)
  {
    hide ParseDocument, Acceptable, DocumentText, ProjectFrom;
    if ProjectHookInput(input, maxPayload) == Some(h) {
      var d := DocumentSound(input);
      assert Reads(input, h);
    }
    if 0 < maxPayload <= MAXIMUM_HOOK_PAYLOAD && |input| <= maxPayload && Reads(input, h) {
      var d :| Acceptable(d) && DocumentText(d) == input && h == ProjectFrom(BLANK, d.members);
      DocumentComplete(d);
    }
  }

  /** A text has at most one reading as far as the projection is concerned. */
  lemma ReadingUnique(d: Document, e: Document)
    requires Acceptable(d) && Acceptable(e) && DocumentText(d) == DocumentText(e)
    ensures ProjectFrom(BLANK, d.members) == ProjectFrom(BLANK, e.members)
  {
    hide ParseDocument, Acceptable, DocumentText, ProjectFrom;
    DocumentComplete(d);
    DocumentComplete(e);
  }

  // ----- what the projection of a member list is -----

  /** The decoded value of the last top-level member whose decoded key names the field. */
  function LastValue(ms: Members, f: Field): Option<Bytes>
    decreases ms
  {
    if ms.NoMembers? then None
    else
      var later := LastValue(ms.rest, f);
      if later.Some? then later
      else if FieldOf(Decoded(ms.key)) == f && ms.value.Str? then Some(Decoded(ms.value.chars))
      else None
  }

  function Default(o: Option<Bytes>, d: Bytes): Bytes {
    if o.Some? then o.value else d
  }

  /** Duplicate keys: the last one wins, whatever its spelling; absent fields stay empty. */
  lemma {:induction false} ProjectionIsLast(h: HookInput, ms: Members)
    ensures ProjectFrom(h, ms) ==
            HookInput(Default(LastValue(ms, EventName), h.eventName), Default(LastValue(ms, SessionId), h.sessionId),
                      Default(LastValue(ms, TurnId), h.turnId))
    decreases ms
  {
    hide Decoded, FieldOf;
    if ms.Members? {
      var f := FieldOf(Decoded(ms.key));
      ProjectionIsLast(if f.Other? || !ms.value.Str? then h else Assign(h, f, Decoded(ms.value.chars)), ms.rest);
    }
  }
}

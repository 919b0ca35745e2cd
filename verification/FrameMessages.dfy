/** Messages over frames (RFC 6455 sections 5.4 and 5.5) and the line stream made of them. */
module FrameMessages {
  import opened Common
  import opened Utf8
  import opened FrameModel

  const CONTINUATION := 0
  const TEXT := 1
  const CLOSE := 8
  const PING := 9
  const PONG := 10

  /** A control frame sent back. */
  datatype Reply = Reply(opcode: nat, payload: Bytes)

  datatype Outcome = Message(text: Bytes) | Ended | Failed

  datatype TextRead = TextRead(outcome: Outcome, rest: Bytes, replies: seq<Reply>)

  /** The same result after some replies have already been sent. */
  function After(replies: seq<Reply>, r: TextRead): TextRead {
    r.(replies := replies + r.replies)
  }

  /** Reading one text message, given the fragments collected so far. */
  function ReadText(input: Bytes, maxLine: int, fragments: Bytes, started: bool): TextRead
    decreases |input|
  {
    match ReadFrame(input, maxLine)
    case End => TextRead(Ended, [], [])
    case Bad => TextRead(Failed, [], [])
    case Got(fin, opcode, payload, rest) =>
      GotShrinks(input, maxLine);
      if opcode == CLOSE then
        if ValidClose(payload) then TextRead(Ended, rest, [Reply(CLOSE, payload)]) else TextRead(Failed, rest, [])
      else if opcode == PING then After([Reply(PONG, payload)], ReadText(rest, maxLine, fragments, started))
      else if opcode == PONG then ReadText(rest, maxLine, fragments, started)
      else if opcode != (if started then CONTINUATION else TEXT) then TextRead(Failed, rest, [])
      else if maxLine - |fragments| - 1 < 0 || |payload| > maxLine - |fragments| - 1 then TextRead(Failed, rest, [])
      else if !fin then ReadText(rest, maxLine, fragments + payload, true)
      else if WellFormed(fragments + payload) then TextRead(Message(fragments + payload), rest, [])
      else TextRead(Failed, rest, [])
  }

  lemma GotShrinks(input: Bytes, maxLine: int)
    requires ReadFrame(input, maxLine).Got?
    ensures |ReadFrame(input, maxLine).rest| < |input|
  {
    hide Value;
  }

  // ----- fragmented messages -----

  predicate Plain(f: Frame) {
    Encodable(f) && f.key.None? && f.rsv == 0
  }

  predicate PingOrPong(f: Frame) {
    Plain(f) && f.opcode in {PING, PONG} && f.fin && |f.payload| <= 125
  }

  predicate CloseFrame(f: Frame) {
    Plain(f) && f.opcode == CLOSE && f.fin && |f.payload| <= 125 && ValidClose(f.payload)
  }

  predicate DataFrame(f: Frame, started: bool) {
    Plain(f) && f.opcode == if started then CONTINUATION else TEXT
  }

  /** The frames of an unfinished message: text, then continuations, none of them final, and pings and
      pongs anywhere. */
  predicate Unfinished(frames: seq<Frame>, started: bool) {
    frames == [] ||
    if PingOrPong(frames[0]) then Unfinished(frames[1..], started)
    else DataFrame(frames[0], started) && !frames[0].fin && Unfinished(frames[1..], true)
  }

  function Started(frames: seq<Frame>, started: bool): bool {
    if frames == [] then started else Started(frames[1..], started || !PingOrPong(frames[0]))
  }

  /** A whole message: an unfinished one completed by a final data frame. */
  predicate Whole(frames: seq<Frame>, started: bool) {
    frames != [] &&
    var front, last := frames[..|frames| - 1], frames[|frames| - 1];
    Unfinished(front, started) && DataFrame(last, Started(front, started)) && last.fin
  }

  /** The payload carried by the data frames. */
  function TextOf(frames: seq<Frame>): Bytes {
    if frames == [] then []
    else (if PingOrPong(frames[0]) then [] else frames[0].payload) + TextOf(frames[1..])
  }

  /** One pong for each ping, in order, with the ping's payload. */
  function Pongs(frames: seq<Frame>): seq<Reply> {
    if frames == [] then []
    else PongFor(frames[0]) + Pongs(frames[1..])
  }

  predicate AllPlain(frames: seq<Frame>) {
    forall i :: 0 <= i < |frames| ==> Plain(frames[i])
  }

  function Wire(frames: seq<Frame>): Bytes
    requires AllPlain(frames)
  {
    if frames == [] then [] else Encode(frames[0]) + Wire(frames[1..])
  }

  lemma {:induction false} WireAppend(frames: seq<Frame>, f: Frame)
    requires AllPlain(frames) && Plain(f)
    ensures AllPlain(frames + [f]) && Wire(frames + [f]) == Wire(frames) + Encode(f)
  {
    hide Encode;
    if frames == [] {
      assert Wire([f]) == Encode(f) + Wire([f][1..]);
    } else {
      WireAppend(frames[1..], f);
      assert (frames + [f])[1..] == frames[1..] + [f];
    }
  }

  lemma {:induction false} TextAppend(frames: seq<Frame>, f: Frame)
    ensures TextOf(frames + [f]) == TextOf(frames) + (if PingOrPong(f) then [] else f.payload)
  {
    hide PingOrPong;
    if frames == [] {
      assert [f][1..] == [] && [] + [f] == [f];
    } else {
      TextAppend(frames[1..], f);
      assert (frames + [f])[1..] == frames[1..] + [f];
    }
  }

  function PongFor(f: Frame): seq<Reply> {
    if PingOrPong(f) && f.opcode == PING then [Reply(PONG, f.payload)] else []
  }

  lemma {:induction false} PongsAppend(frames: seq<Frame>, f: Frame)
    ensures Pongs(frames + [f]) == Pongs(frames) + PongFor(f)
  {
    hide PongFor;
    if frames == [] {
      assert [f][1..] == [] && [] + [f] == [f];
    } else {
      PongsAppend(frames[1..], f);
      assert (frames + [f])[1..] == frames[1..] + [f];
    }
  }

  // ----- one step of reading -----

  lemma {:induction false} StaysStarted(frames: seq<Frame>)
    ensures Started(frames, true)
  {
    hide PingOrPong;
    if frames != [] { StaysStarted(frames[1..]); }
  }

  /** A ping or pong at the head is answered or skipped. */
  lemma ReadControl(f: Frame, rest: Bytes, maxLine: int, fragments: Bytes, started: bool)
    requires PingOrPong(f)
    ensures ReadText(Encode(f) + rest, maxLine, fragments, started) ==
            After(PongFor(f), ReadText(rest, maxLine, fragments, started))
  {
    hide Encode, ReadFrame;
    ReceivesIff(Encode(f) + rest, maxLine, f, rest);
  }

  /** A fitting data frame at the head extends the message. */
  lemma ReadData(f: Frame, rest: Bytes, maxLine: int, fragments: Bytes, started: bool)
    requires DataFrame(f, started) && !f.fin && |fragments| + |f.payload| < maxLine
    ensures ReadText(Encode(f) + rest, maxLine, fragments, started) == ReadText(rest, maxLine, fragments + f.payload, true)
  {
    hide Encode, ReadFrame;
    ReceivesIff(Encode(f) + rest, maxLine, f, rest);
  }

  lemma ReadLast(f: Frame, rest: Bytes, maxLine: int, fragments: Bytes, started: bool)
    requires DataFrame(f, started) && f.fin && |fragments| + |f.payload| < maxLine && WellFormed(fragments + f.payload)
    ensures ReadText(Encode(f) + rest, maxLine, fragments, started) == TextRead(Message(fragments + f.payload), rest, [])
  {
    hide Encode, ReadFrame;
    ReceivesIff(Encode(f) + rest, maxLine, f, rest);
  }

  lemma Regroup<T>(a: seq<T>, b: seq<T>, c: seq<T>)
    ensures a + (b + c) == a + b + c
  {
  }

  /** A list of frames taken apart at its first. */
  lemma HeadWire(frames: seq<Frame>, rest: Bytes)
    requires frames != [] && AllPlain(frames)
    ensures Plain(frames[0]) && AllPlain(frames[1..])
    ensures Wire(frames) + rest == Encode(frames[0]) + (Wire(frames[1..]) + rest)
  {
    Regroup(Encode(frames[0]), Wire(frames[1..]), rest);
    hide Encode, Encodable;
  }

  lemma HeadText(frames: seq<Frame>, fragments: Bytes)
    requires frames != []
    ensures Pongs(frames) == PongFor(frames[0]) + Pongs(frames[1..])
    ensures fragments + TextOf(frames) ==
            (if PingOrPong(frames[0]) then fragments else fragments + frames[0].payload) + TextOf(frames[1..])
  {
    var tail := TextOf(frames[1..]);
    Regroup(fragments, frames[0].payload, tail);
    NothingBefore(tail);
    hide PingOrPong, PongFor;
  }

  lemma NothingBefore(b: Bytes)
    ensures [] + b == b
  {
  }

  lemma AfterTwice(first: seq<Reply>, second: seq<Reply>, r: TextRead)
    ensures After(first, After(second, r)) == After(first + second, r)
  {
    assert first + (second + r.replies) == first + second + r.replies;
  }

  lemma NoFrames(rest: Bytes, fragments: Bytes, r: TextRead)
    ensures Wire([]) + rest == rest && fragments + TextOf([]) == fragments && After(Pongs([]), r) == r
  {
    assert Wire([]) + rest == rest && fragments + TextOf([]) == fragments && Pongs([]) + r.replies == r.replies;
  }

  lemma {:induction false} ReadUnfinished(frames: seq<Frame>, rest: Bytes, maxLine: int, fragments: Bytes, started: bool)
    requires Unfinished(frames, started) && AllPlain(frames)
    requires Started(frames, started) ==> |fragments + TextOf(frames)| < maxLine
    ensures ReadText(Wire(frames) + rest, maxLine, fragments, started) ==
            After(Pongs(frames), ReadText(rest, maxLine, fragments + TextOf(frames), Started(frames, started)))
  {
    hide Encode, Plain, AllPlain, ReadText, Wire, Pongs, TextOf, After, PingOrPong, DataFrame;
    var end := ReadText(rest, maxLine, fragments + TextOf(frames), Started(frames, started));
    if frames == [] {
      NoFrames(rest, fragments, end);
    } else {
      var f, tail := frames[0], frames[1..];
      HeadWire(frames, rest);
      HeadText(frames, fragments);
      if PingOrPong(f) {
        ReadControl(f, Wire(tail) + rest, maxLine, fragments, started);
        ReadUnfinished(tail, rest, maxLine, fragments, started);
        AfterTwice(PongFor(f), Pongs(tail), end);
      } else {
        StaysStarted(tail);
        ReadData(f, Wire(tail) + rest, maxLine, fragments, started);
        ReadUnfinished(tail, rest, maxLine, fragments + f.payload, true);
        NoPong(f, Pongs(tail));
      }
    }
  }

  lemma NoPong(f: Frame, more: seq<Reply>)
    requires !PingOrPong(f)
    ensures PongFor(f) + more == more
  {
  }

  /** Any legal fragmentation of a short enough UTF-8 text, with pings and pongs anywhere, is read back
      as that text; every ping is answered once, in order, with its own payload. */
  lemma ReassemblesAny(frames: seq<Frame>, rest: Bytes, maxLine: int)
    requires Whole(frames, false) && AllPlain(frames) && |TextOf(frames)| < maxLine && WellFormed(TextOf(frames))
    ensures ReadText(Wire(frames) + rest, maxLine, [], false) == TextRead(Message(TextOf(frames)), rest, Pongs(frames))
  {
    hide Encode, Encodable, ReadText, Unfinished, WellFormed, PingOrPong;
    var front, last := frames[..|frames| - 1], frames[|frames| - 1];
    assert frames == front + [last];
    DataNotControl(last, Started(front, false));
    TextAppend(front, last);
    PongsAppend(front, last);
    WireAppend(front, last);
    assert Wire(frames) + rest == Wire(front) + (Encode(last) + rest);
    ReadUnfinished(front, Encode(last) + rest, maxLine, [], false);
    assert [] + TextOf(front) == TextOf(front);
    ReadLast(last, rest, maxLine, TextOf(front), Started(front, false));
  }

  lemma DataNotControl(f: Frame, started: bool)
    requires DataFrame(f, started)
    ensures !PingOrPong(f) && !ControlOpcode(f.opcode)
  {
  }

  // ----- nothing else is read as a message -----

  /** How the reading of an input went: the frames of the message taken, and what came next. */
  ghost predicate Explains(frames: seq<Frame>, tail: Bytes, input: Bytes, maxLine: int, fragments: Bytes, started: bool, r: TextRead) {
    && Unfinished(frames, started) && AllPlain(frames) && input == Wire(frames) + tail
    && (Started(frames, started) ==> |fragments| + |TextOf(frames)| < maxLine)
    && StopsAt(tail, maxLine, fragments + TextOf(frames), Started(frames, started), Pongs(frames), r)
  }

  /** Reading stopped right at the head of `tail`: at the end of the stream, at a close frame, at the
      final frame of the message, or at something that is none of these and no further fragment. */
  ghost predicate StopsAt(tail: Bytes, maxLine: int, text: Bytes, started: bool, replies: seq<Reply>, r: TextRead) {
    match r.outcome
    case Ended =>
      || (tail == [] && r.rest == [] && r.replies == replies)
      || (exists f :: CloseFrame(f) && tail == Encode(f) + r.rest && r.replies == replies + [Reply(CLOSE, f.payload)])
    case Message(whole) =>
      exists f :: DataFrame(f, started) && f.fin && tail == Encode(f) + r.rest && whole == text + f.payload
        && |whole| < maxLine && WellFormed(whole) && r.replies == replies
    case Failed => r.replies == replies
  }

  lemma FrameOf(input: Bytes, maxLine: int) returns (f: Frame)
    requires ReadFrame(input, maxLine).Got?
    ensures var g := ReadFrame(input, maxLine);
            && f == Frame(g.fin, 0, g.opcode, None, g.payload) && Plain(f) && Taken(f, maxLine) && input == Encode(f) + g.rest
  {
    hide Encode, ReadFrame;
    ReadFrameExact(input, maxLine);
    EncodeDecode(input);
    f := Decode(input).value.frame;
  }

  lemma ExplainMore(f: Frame, frames: seq<Frame>, tail: Bytes, rest: Bytes, maxLine: int, fragments: Bytes, started: bool, r: TextRead)
    requires PingOrPong(f) && Explains(frames, tail, rest, maxLine, fragments, started, r)
    ensures Explains([f] + frames, tail, Encode(f) + rest, maxLine, fragments, started,
                     After(PongFor(f), r))
  {
    hide Encode, DataFrame, WellFormed, ValidClose;
    var all := [f] + frames;
    assert all[1..] == frames;
    assert TextOf(all) == TextOf(frames);
    assert Wire(all) + tail == Encode(f) + (Wire(frames) + tail);
    var first := PongFor(f);
    assert Pongs(all) == first + Pongs(frames);
    if r.outcome.Ended? && !(tail == [] && r.rest == [] && r.replies == Pongs(frames)) {
      var c :| CloseFrame(c) && tail == Encode(c) + r.rest && r.replies == Pongs(frames) + [Reply(CLOSE, c.payload)];
      assert first + r.replies == Pongs(all) + [Reply(CLOSE, c.payload)];
    }
    hide Plain;
  }

  lemma ExplainFragment(f: Frame, frames: seq<Frame>, tail: Bytes, rest: Bytes, maxLine: int, fragments: Bytes, started: bool, r: TextRead)
    requires DataFrame(f, started) && !f.fin && Explains(frames, tail, rest, maxLine, fragments + f.payload, true, r)
    ensures Explains([f] + frames, tail, Encode(f) + rest, maxLine, fragments, started, r)
  {
    hide Encode, StopsAt;
    var all := [f] + frames;
    DataNotControl(f, started);
    hide Plain;
    StaysStarted(frames);
    assert all[1..] == frames;
    assert fragments + f.payload + TextOf(frames) == fragments + TextOf(all);
    assert Wire(all) + tail == Encode(f) + (Wire(frames) + tail);
    assert Pongs(all) == Pongs(frames);
  }

  lemma ExplainHere(input: Bytes, maxLine: int, fragments: Bytes, started: bool, r: TextRead)
    requires StopsAt(input, maxLine, fragments, started, [], r) && (started ==> |fragments| < maxLine)
    ensures Explains([], input, input, maxLine, fragments, started, r)
  {
    hide StopsAt;
    assert Wire([]) + input == input && fragments + TextOf([]) == fragments;
  }

  /** Whatever the input, the result of reading is explained by the frames at its head: in particular a
      message is only ever what a legal fragmentation carries, a clean end is only the end of the
      stream between frames or a valid close that was echoed, and every ping taken was answered. */
  lemma {:induction false} ReadExplained(input: Bytes, maxLine: int, fragments: Bytes, started: bool)
    returns (frames: seq<Frame>, tail: Bytes)
    requires started ==> |fragments| < maxLine
    ensures Explains(frames, tail, input, maxLine, fragments, started, ReadText(input, maxLine, fragments, started))
    decreases |input|
  {
    hide Explains, Encode, ReadFrame, WellFormed, ValidClose;
    var r := ReadText(input, maxLine, fragments, started);
    var got := ReadFrame(input, maxLine);
    frames, tail := [], input;
    if !got.Got? {
      ReadFrameExact(input, maxLine);
      ExplainHere(input, maxLine, fragments, started, r);
    } else {
      GotShrinks(input, maxLine);
      var f := FrameOf(input, maxLine);
      if got.opcode in {PING, PONG} {
        frames, tail := ReadExplained(got.rest, maxLine, fragments, started);
        ExplainMore(f, frames, tail, got.rest, maxLine, fragments, started, ReadText(got.rest, maxLine, fragments, started));
        frames := [f] + frames;
        AfterNothing(ReadText(got.rest, maxLine, fragments, started));
      } else if DataFrame(f, started) && !f.fin && |fragments| + |f.payload| < maxLine {
        frames, tail := ReadExplained(got.rest, maxLine, fragments + f.payload, true);
        ExplainFragment(f, frames, tail, got.rest, maxLine, fragments, started, r);
        frames := [f] + frames;
      } else {
        ExplainHere(input, maxLine, fragments, started, r);
      }
    }
  }

  lemma AfterNothing(r: TextRead)
    ensures After([], r) == r
  {
    assert [] + r.replies == r.replies;
  }

  lemma ExplainedWhole(frames: seq<Frame>, tail: Bytes, input: Bytes, maxLine: int, r: TextRead) returns (whole: seq<Frame>)
    requires r.outcome.Message? && Explains(frames, tail, input, maxLine, [], false, r)
    ensures Whole(whole, false) && AllPlain(whole) && input == Wire(whole) + r.rest && r.outcome.text == TextOf(whole)
    ensures r.replies == Pongs(whole) && |TextOf(whole)| < maxLine && WellFormed(TextOf(whole))
  {
    hide Encode, Encodable, Unfinished, WellFormed, PingOrPong;
    var started := Started(frames, false);
    var f :| DataFrame(f, started) && f.fin && tail == Encode(f) + r.rest && r.outcome.text == [] + TextOf(frames) + f.payload
             && |r.outcome.text| < maxLine && WellFormed(r.outcome.text) && r.replies == Pongs(frames);
    DataNotControl(f, started);
    whole := frames + [f];
    assert whole[..|whole| - 1] == frames;
    WireAppend(frames, f);
    TextAppend(frames, f);
    PongsAppend(frames, f);
    assert Wire(frames) + (Encode(f) + r.rest) == Wire(whole) + r.rest;
  }

  /** A message is received if and only if the input starts with a legal fragmentation of it that is
      short enough and UTF-8; its pings, and nothing else, have been answered. */
  lemma MessageIff(input: Bytes, maxLine: int, text: Bytes, rest: Bytes, replies: seq<Reply>)
    ensures ReadText(input, maxLine, [], false) == TextRead(Message(text), rest, replies) <==>
            exists frames :: Whole(frames, false) && AllPlain(frames) && input == Wire(frames) + rest && text == TextOf(frames)
              && replies == Pongs(frames) && |text| < maxLine && WellFormed(text)
  {
    hide Whole, AllPlain, Wire, TextOf, Pongs, WellFormed, ReadText, Explains;
    var r := ReadText(input, maxLine, [], false);
    if r == TextRead(Message(text), rest, replies) {
      var frames, tail := ReadExplained(input, maxLine, [], false);
      var whole := ExplainedWhole(frames, tail, input, maxLine, r);
    }
    forall frames | Whole(frames, false) && AllPlain(frames) && input == Wire(frames) + rest && text == TextOf(frames)
                    && replies == Pongs(frames) && |text| < maxLine && WellFormed(text)
      ensures r == TextRead(Message(text), rest, replies)
    {
      ReassemblesAny(frames, rest, maxLine);
    }
  }

  lemma ReadClose(f: Frame, rest: Bytes, maxLine: int, fragments: Bytes, started: bool)
    requires CloseFrame(f)
    ensures ReadText(Encode(f) + rest, maxLine, fragments, started) == TextRead(Ended, rest, [Reply(CLOSE, f.payload)])
  {
    hide Encode, ReadFrame;
    ReceivesIff(Encode(f) + rest, maxLine, f, rest);
  }

  lemma ReadNothing(maxLine: int, fragments: Bytes, started: bool)
    ensures ReadText([], maxLine, fragments, started) == TextRead(Ended, [], [])
  {
  }

  /** The stream ends at the head of `tail`: it has no more bytes, or a valid close frame comes. */
  ghost predicate EndsAt(frames: seq<Frame>, tail: Bytes, input: Bytes, maxLine: int, r: TextRead) {
    && Unfinished(frames, false) && AllPlain(frames) && input == Wire(frames) + tail
    && (Started(frames, false) ==> |TextOf(frames)| < maxLine)
    && (|| (tail == [] && r.rest == [] && r.replies == Pongs(frames))
        || (exists f :: CloseFrame(f) && tail == Encode(f) + r.rest && r.replies == Pongs(frames) + [Reply(CLOSE, f.payload)]))
  }

  lemma EndsThere(frames: seq<Frame>, tail: Bytes, input: Bytes, maxLine: int, r: TextRead)
    requires EndsAt(frames, tail, input, maxLine, r) && r.outcome.Ended?
    ensures ReadText(input, maxLine, [], false) == r
  {
    hide Encode, Encodable, ReadText, Unfinished, AllPlain, Wire, TextOf, Pongs, ValidClose;
    var text, started := [] + TextOf(frames), Started(frames, false);
    NothingBefore(TextOf(frames));
    ReadUnfinished(frames, tail, maxLine, [], false);
    if tail == [] && r.rest == [] && r.replies == Pongs(frames) {
      ReadNothing(maxLine, text, started);
    } else {
      var f :| CloseFrame(f) && tail == Encode(f) + r.rest && r.replies == Pongs(frames) + [Reply(CLOSE, f.payload)];
      ReadClose(f, r.rest, maxLine, text, started);
    }
  }

  /** The stream is reported as ended if and only if, after a legal beginning of a message, either no
      byte is left or a valid close frame arrives, which is then echoed. */
  lemma EndedIff(input: Bytes, maxLine: int, r: TextRead)
    requires r.outcome.Ended?
    ensures ReadText(input, maxLine, [], false) == r <==> exists frames, tail :: EndsAt(frames, tail, input, maxLine, r)
  {
    hide EndsAt, Explains, ReadText;
    if ReadText(input, maxLine, [], false) == r {
      var frames, tail := ReadExplained(input, maxLine, [], false);
      ExplainedEnd(frames, tail, input, maxLine, r);
    }
    forall frames, tail | EndsAt(frames, tail, input, maxLine, r) ensures ReadText(input, maxLine, [], false) == r {
      EndsThere(frames, tail, input, maxLine, r);
    }
  }

  lemma ExplainedEnd(frames: seq<Frame>, tail: Bytes, input: Bytes, maxLine: int, r: TextRead)
    requires r.outcome.Ended? && Explains(frames, tail, input, maxLine, [], false, r)
    ensures EndsAt(frames, tail, input, maxLine, r)
  {
    hide Encode, Encodable, Unfinished, AllPlain, Wire, TextOf, Pongs, CloseFrame;
  }

  /** For instance: the three bytes of a first text fragment "A", and nothing more, read as a clean end of
      the stream, and the fragment is lost. */
  lemma TruncatedMessageEnds(maxLine: int)
    requires maxLine > 1
    ensures var f := Frame(false, 0, TEXT, None, [0x41]);
            && DataFrame(f, false) && !f.fin && Encode(f) == [0x01, 0x01, 0x41]
            && ReadText([0x01, 0x01, 0x41], maxLine, [], false) == TextRead(Ended, [], [])
  {
    var f := Frame(false, 0, TEXT, None, [0x41]);
    assert Encode(f) + [] == [0x01, 0x01, 0x41];
    ReadData(f, [], maxLine, [], false);
    hide ReadText;
    ReadNothing(maxLine, [0x41], true);
    assert [] + [0x41] == [0x41 as Byte];
  }
}

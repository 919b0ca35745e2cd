/** The control socket: the loops that read frames, reassemble lines and write masked frames. */
module ControlSocket {
  import opened Common
  import opened Utf8
  import opened FrameModel
  import opened FrameWire
  import opened FrameMessages

  const NEWLINE: Byte := 0x0A

  // ----- the line stream -----

  function Stream(input: Bytes, maxLine: int): Bytes
    decreases |input|
  {
    var r := ReadText(input, maxLine, [], false);
    if !r.outcome.Message? then []
    else
      TextShrinks(input, maxLine, [], false);
      r.outcome.text + [NEWLINE] + Stream(r.rest, maxLine)
  }

  lemma {:induction false} TextShrinks(input: Bytes, maxLine: int, fragments: Bytes, started: bool)
    requires ReadText(input, maxLine, fragments, started).outcome.Message?
    ensures |ReadText(input, maxLine, fragments, started).rest| < |input|
    decreases |input|
  {
    hide ReadFrame, WellFormed;
    GotShrinks(input, maxLine);
    var g := ReadFrame(input, maxLine);
    if g.opcode in {PING, PONG} {
      TextShrinks(g.rest, maxLine, fragments, started);
    } else if !g.fin {
      TextShrinks(g.rest, maxLine, fragments + g.payload, true);
    }
  }

  /** One message as its sender fragmented it. */
  datatype Split = Split(frames: seq<Frame>)

  predicate Sendable(m: Split, maxLine: int) {
    Whole(m.frames, false) && AllPlain(m.frames) && |TextOf(m.frames)| < maxLine && WellFormed(TextOf(m.frames))
  }

  function SplitWire(m: Split): Bytes {
    if AllPlain(m.frames) then Wire(m.frames) else []
  }

  /** Messages one after the other on the wire. */
  function WireAll(messages: seq<Split>): Bytes {
    if messages == [] then [] else SplitWire(messages[0]) + WireAll(messages[1..])
  }

  function Lines(messages: seq<Split>): Bytes {
    if messages == [] then [] else TextOf(messages[0].frames) + [0x0A] + Lines(messages[1..])
  }

  /** However they were fragmented, messages become lines: each text followed by one newline. */
  lemma {:induction false} StreamOfMessages(messages: seq<Split>, rest: Bytes, maxLine: int)
    requires forall i :: 0 <= i < |messages| ==> Sendable(messages[i], maxLine)
    ensures Stream(WireAll(messages) + rest, maxLine) == Lines(messages) + Stream(rest, maxLine)
  {
    hide ReadText, Wire, TextOf, WellFormed, Whole, Pongs, Plain;
    if messages == [] {
      NothingBefore(rest);
      NothingBefore(Stream(rest, maxLine));
    } else {
      var first, others := messages[0].frames, messages[1..];
      assert Sendable(messages[0], maxLine);
      StreamOfMessages(others, rest, maxLine);
      var later := WireAll(others) + rest;
      assert WireAll(messages) + rest == Wire(first) + later;
      ReassemblesAny(first, later, maxLine);
      Regroup(TextOf(first) + [NEWLINE], Lines(others), Stream(rest, maxLine));
      hide Stream;
      StreamStep(Wire(first) + later, maxLine, TextOf(first), later, Pongs(first));
    }
  }

  lemma StreamStep(input: Bytes, maxLine: int, text: Bytes, rest: Bytes, replies: seq<Reply>)
    requires ReadText(input, maxLine, [], false) == TextRead(Message(text), rest, replies)
    ensures Stream(input, maxLine) == text + [NEWLINE] + Stream(rest, maxLine)
  {
    hide ReadText;
  }

  // ----- reading with buffers of any size -----

  datatype Conn = Conn(input: Bytes, buffer: Bytes)

  /** Everything still to be delivered. */
  function Pending(c: Conn, maxLine: int): Bytes {
    c.buffer + Stream(c.input, maxLine)
  }

  datatype Chunk = Chunk(bytes: Bytes, next: Conn)

  function Refilled(c: Conn, maxLine: int): Option<Conn> {
    if c.buffer != [] then Some(c)
    else
      var r := ReadText(c.input, maxLine, [], false);
      if r.outcome.Message? then Some(Conn(r.rest, r.outcome.text + [NEWLINE])) else None
  }

  /** One read into a buffer of `size` bytes. */
  function ReadChunk(c: Conn, size: nat, maxLine: int): Option<Chunk> {
    match Refilled(c, maxLine)
    case None => None
    case Some(d) =>
      var count := if size < |d.buffer| then size else |d.buffer|;
      Some(Chunk(d.buffer[..count], d.(buffer := d.buffer[count..])))
  }

  lemma RefilledKeeps(c: Conn, maxLine: int)
    ensures var d := Refilled(c, maxLine);
            if d.Some? then Pending(d.value, maxLine) == Pending(c, maxLine) && d.value.buffer != [] else Pending(c, maxLine) == []
  {
    hide ReadText;
    var r := ReadText(c.input, maxLine, [], false);
    if c.buffer == [] {
      NothingBefore(Stream(c.input, maxLine));
      if r.outcome.Message? { StreamStep(c.input, maxLine, r.outcome.text, r.rest, r.replies); }
    }
  }

  /** A read takes the next bytes off what is pending, at least one unless the buffer is empty, and fails
      only when everything pending has been delivered. */
  lemma ReadTakesNext(c: Conn, size: nat, maxLine: int)
    ensures var r := ReadChunk(c, size, maxLine);
            if r.Some? then
              && Pending(c, maxLine) == r.value.bytes + Pending(r.value.next, maxLine)
              && |r.value.bytes| <= size && (size > 0 ==> r.value.bytes != [])
            else Pending(c, maxLine) == []
  {
    hide Stream;
    RefilledKeeps(c, maxLine);
    var d := Refilled(c, maxLine);
    hide Refilled;
    if d.Some? {
      var r := ReadChunk(c, size, maxLine).value;
      assert d.value.buffer == r.bytes + r.next.buffer;
      Regroup(r.bytes, r.next.buffer, Stream(d.value.input, maxLine));
    }
  }

  datatype Chunks = Chunks(bytes: Bytes, last: Conn, ok: bool)

  /** Reads into buffers of the given sizes, until one fails. */
  function ReadAll(c: Conn, sizes: seq<nat>, maxLine: int): Chunks
    decreases sizes
  {
    if sizes == [] then Chunks([], c, true)
    else
      var r := ReadChunk(c, sizes[0], maxLine);
      if r.None? then Chunks([], c, false)
      else var more := ReadAll(r.value.next, sizes[1..], maxLine); more.(bytes := r.value.bytes + more.bytes)
  }

  /** Whatever the buffer sizes, the bytes read so far and the bytes pending are together always the
      whole stream, in order; a failed read means all of it was delivered. */
  lemma {:induction false} ReadsConcatenate(c: Conn, sizes: seq<nat>, maxLine: int)
    ensures var r := ReadAll(c, sizes, maxLine);
            && r.bytes + Pending(r.last, maxLine) == Pending(c, maxLine)
            && (!r.ok ==> r.bytes == Pending(c, maxLine))
    decreases sizes
  {
    hide Pending, ReadChunk;
    if sizes == [] {
      NothingBefore(Pending(c, maxLine));
    } else {
      ReadTakesNext(c, sizes[0], maxLine);
      var r := ReadChunk(c, sizes[0], maxLine);
      NothingBefore(Pending(c, maxLine));
      if r.Some? {
        ReadsConcatenate(r.value.next, sizes[1..], maxLine);
        var more := ReadAll(r.value.next, sizes[1..], maxLine);
        hide ReadAll;
        Regroup(r.value.bytes, more.bytes, Pending(more.last, maxLine));
      }
    }
  }

  /** End to end: from a fresh connection whose peer sends the messages in any legal fragmentation, any
      sequence of reads delivers a part of the lines, in order and without loss. */
  lemma LinesDelivered(messages: seq<Split>, rest: Bytes, sizes: seq<nat>, maxLine: int)
    requires forall i :: 0 <= i < |messages| ==> Sendable(messages[i], maxLine)
    ensures var r := ReadAll(Conn(WireAll(messages) + rest, []), sizes, maxLine);
            r.bytes + Pending(r.last, maxLine) == Lines(messages) + Stream(rest, maxLine)
  {
    StreamOfMessages(messages, rest, maxLine);
    ReadsConcatenate(Conn(WireAll(messages) + rest, []), sizes, maxLine);
    hide Stream, ReadAll, Wire, TextOf, WellFormed, Whole, Plain;
    NothingBefore(Lines(messages) + Stream(rest, maxLine));
  }

  // ----- what is written -----

  /** The frame the client sends: whole, masked with some key. */
  function ClientFrame(opcode: nat, payload: Bytes, key: Bytes): Frame {
    Frame(true, 0, opcode % 16, Some(key), payload)
  }

  predicate Keyed(keys: seq<Bytes>) {
    forall i :: 0 <= i < |keys| ==> |keys[i]| == 4
  }

  predicate Short(replies: seq<Reply>) {
    forall i :: 0 <= i < |replies| ==> |replies[i].payload| <= 125
  }

  function ReplyWire(replies: seq<Reply>, keys: seq<Bytes>): Bytes
    requires |keys| == |replies| && Keyed(keys) && Short(replies)
  {
    if replies == [] then []
    else
      var last := |replies| - 1;
      ReplyWire(replies[..last], keys[..last]) + Encode(ClientFrame(replies[last].opcode, replies[last].payload, keys[last]))
  }

  /** The bytes are the replies' frames in order, each masked with some key of four bytes. */
  ghost predicate Sent(bytes: Bytes, replies: seq<Reply>) {
    Short(replies) && exists keys: seq<Bytes> :: |keys| == |replies| && Keyed(keys) && bytes == ReplyWire(replies, keys)
  }

  lemma SentMore(bytes: Bytes, replies: seq<Reply>, reply: Reply, key: Bytes)
    requires Sent(bytes, replies) && |reply.payload| <= 125 && |key| == 4
    ensures Sent(bytes + Encode(ClientFrame(reply.opcode, reply.payload, key)), replies + [reply])
  {
    hide Encode;
    var keys: seq<Bytes> :| |keys| == |replies| && Keyed(keys) && bytes == ReplyWire(replies, keys);
    var all, more := replies + [reply], keys + [key];
    assert all[..|replies|] == replies && more[..|keys|] == keys;
    assert bytes + Encode(ClientFrame(reply.opcode, reply.payload, key)) == ReplyWire(all, more);
  }

  lemma SentNothing()
    ensures Sent([], [])
  {
    var keys: seq<Bytes> := [];
    assert ReplyWire([], keys) == [];
  }

  /** Whatever the mask, the standard reads a sent frame back as final, with its opcode and its payload: the
      frame is any byte string laid out and masked as the standard says. */
  lemma SentReadsBack(opcode: nat, payload: Bytes, key: Bytes, sent: Bytes, rest: Bytes)
    requires |key| == 4 && |payload| < MAX_LENGTH && Wired(sent, ClientFrame(opcode, payload, key))
    ensures Decode(sent + rest) == Some(Decoded(ClientFrame(opcode, payload, key), rest))
  {
    EncodedAsLaidOut(ClientFrame(opcode, payload, key), sent);
    DecodeEncode(ClientFrame(opcode, payload, key), rest);
    hide Encode, Decode;
  }

  const HELLO: Bytes := [0x48, 0x65, 0x6C, 0x6C, 0x6F]

  const SAMPLE_KEY: Bytes := [0x37, 0xFA, 0x21, 0x3D]
  const SAMPLE_MASKED: Bytes := [0x7F, 0x9F, 0x4D, 0x51, 0x58]

  /** The examples of section 5.7: a text message, the same in two fragments with a ping between, which is
      answered, and the masked answer. */
  lemma StandardExamples(rest: Bytes, maxLine: int)
    requires maxLine > 5
    ensures ReadText([0x81, 0x05] + HELLO + rest, maxLine, [], false) == TextRead(Message(HELLO), rest, [])
    ensures ReadText([0x01, 0x03, 0x48, 0x65, 0x6C] + ([0x89, 0x05] + HELLO + ([0x80, 0x02, 0x6C, 0x6F] + rest)), maxLine, [], false) ==
            TextRead(Message(HELLO), rest, [Reply(0xA, HELLO)])
    ensures Encode(ClientFrame(0xA, HELLO, SAMPLE_KEY)) == [0x8A, 0x85] + SAMPLE_KEY + SAMPLE_MASKED
  {
    WholeExample(rest, maxLine);
    FragmentsExample(rest, maxLine);
    MaskedExample();
    hide ReadText, Encode;
  }

  lemma WholeExample(rest: Bytes, maxLine: int)
    requires maxLine > 5
    ensures ReadText([0x81, 0x05] + HELLO + rest, maxLine, [], false) == TextRead(Message(HELLO), rest, [])
  {
    hide ReadText, Encode, WellFormed;
    HelloWellFormed();
    var f := Frame(true, 0, 1, None, HELLO);
    ShortFrame(f);
    NothingBefore(HELLO);
    ReadLast(f, rest, maxLine, [], false);
  }

  lemma FragmentsExample(rest: Bytes, maxLine: int)
    requires maxLine > 5
    ensures ReadText([0x01, 0x03, 0x48, 0x65, 0x6C] + ([0x89, 0x05] + HELLO + ([0x80, 0x02, 0x6C, 0x6F] + rest)), maxLine, [], false) ==
            TextRead(Message(HELLO), rest, [Reply(0xA, HELLO)])
  {
    hide ReadText, Encode, WellFormed;
    HelloWellFormed();
    var a, ping, b := Frame(false, 0, 1, None, [0x48, 0x65, 0x6C]), Frame(true, 0, 9, None, HELLO), Frame(true, 0, 0, None, [0x6C, 0x6F]);
    ShortFrame(a);
    ShortFrame(ping);
    ShortFrame(b);
    assert Encode(a) == [0x01, 0x03, 0x48, 0x65, 0x6C] && Encode(b) == [0x80, 0x02, 0x6C, 0x6F];
    assert a.payload + b.payload == HELLO;
    NothingBefore(a.payload);
    ReadData(a, Encode(ping) + (Encode(b) + rest), maxLine, [], false);
    ReadControl(ping, Encode(b) + rest, maxLine, a.payload, true);
    ReadLast(b, rest, maxLine, a.payload, true);
  }

  lemma HelloWellFormed()
    ensures WellFormed(HELLO)
  {
    Singles(HELLO);
    EncodedWellFormed(HELLO);
  }

  lemma {:induction false} Singles(text: Bytes)
    requires forall i :: 0 <= i < |text| ==> text[i] < 0x80
    ensures EncodeAll(text) == text
  {
    if text != [] {
      Singles(text[1..]);
      assert text == [text[0]] + text[1..];
    }
  }

  lemma ShortFrame(f: Frame)
    requires Plain(f) && |f.payload| <= 125
    ensures Encode(f) == [(if f.fin then 0x80 else 0) + f.opcode, |f.payload|] + f.payload
  {
  }

  lemma SampleBytes()
    ensures IsXor(0x48, 0x7F, 0x37) && IsXor(0x65, 0x9F, 0xFA) && IsXor(0x6C, 0x4D, 0x21)
  {
    hide IsXor;
    AllBits(0x48, 0x7F, 0x37);
    AllBits(0x65, 0x9F, 0xFA);
    AllBits(0x6C, 0x4D, 0x21);
  }

  lemma MoreSampleBytes()
    ensures IsXor(0x6C, 0x51, 0x3D) && IsXor(0x6F, 0x58, 0x37)
  {
    hide IsXor;
    AllBits(0x6C, 0x51, 0x3D);
    AllBits(0x6F, 0x58, 0x37);
  }

  lemma SampleUnmasks()
    ensures Unmasks(SAMPLE_MASKED, SAMPLE_KEY, HELLO)
  {
    hide IsXor;
    SampleBytes();
    MoreSampleBytes();
  }

  lemma MaskedExample()
    ensures Encode(ClientFrame(0xA, HELLO, SAMPLE_KEY)) == [0x8A, 0x85] + SAMPLE_KEY + SAMPLE_MASKED
  {
    hide Unmasks, Encode;
    SampleUnmasks();
    var b := [0x8A, 0x85] + SAMPLE_KEY + SAMPLE_MASKED;
    assert b[2..6] == SAMPLE_KEY && b[6..] == SAMPLE_MASKED;
    EncodedAsLaidOut(ClientFrame(0xA, HELLO, SAMPLE_KEY), b);
  }

  /** The length header as the switch over its three forms builds it. */
  method WriteLength(length: nat) returns (header: Bytes)
    requires length < MAX_LENGTH
    ensures header == LengthField(true, length)
  {
    if length < 126 {
      header := [128 + length];
    } else if length <= 0xFFFF {
      header := [128 + 126] + BigEndian(length, 2);
    } else {
      header := [128 + 127] + BigEndian(length, 8);
    }
  }

  lemma HeaderAndBody(opcode: nat, payload: Bytes, key: Bytes, header: Bytes, masked: Bytes)
    requires |payload| < MAX_LENGTH && |key| == 4 && masked == Masked(payload, key)
    requires header == [128 + opcode % 16] + LengthField(true, |payload|) + key
    ensures header + masked == Encode(ClientFrame(opcode, payload, key))
  {
    hide LengthField, Masked;
    Regroup([128 + opcode % 16] + LengthField(true, |payload|), key, masked);
  }

  method MaskPayload(payload: Bytes, key: Bytes) returns (masked: Bytes)
    requires |key| == 4
    ensures masked == Masked(payload, key)
    ensures Unmasks(masked, key, payload)
  {
    hide Xor, Unmasks;
    var a := new Byte[|payload|];
    for i := 0 to |payload|
      invariant forall j :: 0 <= j < i ==> a[j] == Xor(payload[j], key[j % 4])
    {
      a[i] := Xor(payload[i], key[i % 4]);
    }
    masked := a[..];
    assert masked == Masked(payload, key);
    MaskedUnmasks(payload, key, payload);
  }

  class WebSocket {
    const maxLine: int
    var input: Bytes
    var readBuf: Bytes
    var output: Bytes

    constructor (bytes: Bytes, limit: int)
      ensures input == bytes && readBuf == [] && output == [] && maxLine == limit
    {
      input, readBuf, output, maxLine := bytes, [], [], limit;
    }

    function State(): Conn
      reads this
    {
      Conn(input, readBuf)
    }

    /** Takes one frame off the input; after a failure the input is of no further use. */
    method TakeFrame() returns (r: Read)
      modifies `input
      ensures r == ReadFrame(old(input), maxLine)
      ensures r.Got? ==> input == r.rest
    {
      hide Value;
      if input == [] { return End; }
      if |input| < 2 { input := []; return Bad; }
      var first, second := input[0], input[1];
      input := input[2..];
      if first / 16 % 8 != 0 || second >= 128 { return Bad; }
      var control := ControlOpcode(first % 16);
      var code := second % 128;
      if control && (first < 128 || code > 125) { return Bad; }
      var length: nat := code;
      if code == 126 {
        if |input| < 2 { return Bad; }
        length := Value(input[..2]);
        assert input[..2] == old(input)[2..4];
        input := input[2..];
        if length < 126 { return Bad; }
      } else if code == 127 {
        if |input| < 8 { return Bad; }
        length := Value(input[..8]);
        assert input[..8] == old(input)[2..10];
        input := input[8..];
        if length >= MAX_LENGTH || length <= 0xFFFF { return Bad; }
      }
      if !control && (maxLine <= 0 || length >= maxLine) { return Bad; }
      if |input| < length { return Bad; }
      r := Got(first >= 128, first % 16, input[..length], input[length..]);
      input := input[length..];
    }

    /** Sends one frame, masked with four random bytes; long control frames are refused. */
    method SendFrame(opcode: nat, payload: Bytes) returns (ok: bool, ghost key: Bytes)
      requires |payload| < MAX_LENGTH
      modifies `output
      ensures ok <==> !(ControlOpcode(opcode) && |payload| > 125)
      ensures |key| == 4
      ensures output == old(output) + if ok then Encode(ClientFrame(opcode, payload, key)) else []
      ensures ok ==> Wired(output[|old(output)|..], ClientFrame(opcode, payload, key))
    {
      hide LengthField, Masked, Encode, Wired, Unmasks;
      var a: Byte, b: Byte, c: Byte, d: Byte := *, *, *, *;
      var mask := [a, b, c, d];
      key := mask;
      if ControlOpcode(opcode) && |payload| > 125 { return false, key; }
      var length := WriteLength(|payload|);
      var header := [128 + opcode % 16] + length + mask;
      var masked := MaskPayload(payload, mask);
      output := output + header;
      output := output + masked;
      ok := true;
      HeaderAndBody(opcode, payload, mask, header, masked);
      Regroup(old(output), header, masked);
      EncodedAsLaidOut(ClientFrame(opcode, payload, key), header + masked);
      assert output[|old(output)|..] == header + masked;
    }

    /** One text message, or why there is none. Pings met on the way have been answered. */
    method ReadTextMessage() returns (outcome: Outcome, ghost replies: seq<Reply>)
      modifies `input, `output
      ensures var r := ReadText(old(input), maxLine, [], false);
              outcome == r.outcome && replies == r.replies && (outcome.Message? ==> input == r.rest)
      ensures exists sent :: output == old(output) + sent && Sent(sent, replies)
    {
      hide ReadFrame, Sent, Encode, WellFormed, ValidClose;
      var fragments: Bytes := [];
      var started := false;
      ghost var sent: Bytes := [];
      replies := [];
      SentNothing();
      AfterNothing(ReadText(input, maxLine, [], false));
      assert output == old(output) + sent;
      while true
        invariant output == old(output) + sent && Sent(sent, replies)
        invariant ReadText(old(input), maxLine, [], false) == After(replies, ReadText(input, maxLine, fragments, started))
        invariant started ==> |fragments| < maxLine
        decreases |input|
      {
        ghost var was := input;
        var frame := TakeFrame();
        match frame {
          case End => outcome := Ended; NoMore(replies); return;
          case Bad => outcome := Failed; NoMore(replies); return;
          case Got(fin, opcode, payload, rest) =>
            GotShrinks(was, maxLine);
            GotShort(was, maxLine);
            if opcode == CLOSE {
              if !ValidClose(payload) { outcome := Failed; NoMore(replies); return; }
              var ok, key := SendFrame(CLOSE, payload);
              SentMore(sent, replies, Reply(CLOSE, payload), key);
              Regroup(old(output), sent, Encode(ClientFrame(CLOSE, payload, key)));
              sent, replies := sent + Encode(ClientFrame(CLOSE, payload, key)), replies + [Reply(CLOSE, payload)];
              outcome := Ended;
              return;
            } else if opcode == PING {
              var ok, key := SendFrame(PONG, payload);
              SentMore(sent, replies, Reply(PONG, payload), key);
              Regroup(old(output), sent, Encode(ClientFrame(PONG, payload, key)));
              AfterTwice(replies, [Reply(PONG, payload)], ReadText(input, maxLine, fragments, started));
              sent, replies := sent + Encode(ClientFrame(PONG, payload, key)), replies + [Reply(PONG, payload)];
            } else if opcode == PONG {
            } else {
              if opcode == TEXT && !started {
                started := true;
              } else if opcode != CONTINUATION || !started {
                outcome := Failed;
                NoMore(replies);
                return;
              }
              var remaining := maxLine - |fragments| - 1;
              if remaining < 0 || |payload| > remaining { outcome := Failed; NoMore(replies); return; }
              fragments := fragments + payload;
              if fin {
                outcome := if WellFormed(fragments) then Message(fragments) else Failed;
                NoMore(replies);
                return;
              }
            }
        }
      }
    }

    static lemma NoMore(replies: seq<Reply>)
      ensures replies + [] == replies
    {
    }

    static lemma GotShort(input: Bytes, maxLine: int)
      requires ReadFrame(input, maxLine).Got?
      ensures var g := ReadFrame(input, maxLine);
              (ControlOpcode(g.opcode) ==> |g.payload| <= 125) && |g.payload| < MAX_LENGTH
    {
      var f := FrameOf(input, maxLine);
      hide ReadFrame;
    }

    /** Fills at most `size` bytes. */
    method Read(size: nat) returns (chunk: Option<Bytes>)
      modifies `input, `output, `readBuf
      ensures var r := ReadChunk(old(State()), size, maxLine);
              if r.Some? then chunk == Some(r.value.bytes) && State() == r.value.next else chunk == None
    {
      hide ReadText;
      while |readBuf| == 0
        invariant if old(readBuf) != [] then State() == old(State())
                  else if readBuf == [] then input == old(input)
                  else Refilled(old(State()), maxLine) == Some(State())
        decreases |readBuf| == 0
      {
        var outcome, replies := ReadTextMessage();
        match outcome {
          case Message(text) => readBuf := text + [NEWLINE];
          case _ => return None;
        }
      }
      var count := if size < |readBuf| then size else |readBuf|;
      chunk := Some(readBuf[..count]);
      readBuf := readBuf[count..];
    }

    /** Sends one line as a text frame without its newline. */
    method WriteLine(payload: Bytes) returns (ok: bool, ghost key: Bytes)
      requires maxLine < MAX_LENGTH
      modifies `output
      ensures ok <==> 2 <= |payload| <= maxLine && forall i :: 0 <= i < |payload| ==> (payload[i] == 0x0A <==> i == |payload| - 1)
      ensures |key| == 4
      ensures output == old(output) + if ok then Encode(ClientFrame(TEXT, payload[..|payload| - 1], key)) else []
      ensures ok ==> Wired(output[|old(output)|..], ClientFrame(1, payload[..|payload| - 1], key))
    {
      hide Encode, Wired;
      key := [0, 0, 0, 0];
      if |payload| < 2 || payload[|payload| - 1] != NEWLINE || NEWLINE in payload[..|payload| - 1] || |payload| > maxLine {
        return false, key;
      }
      ok, key := SendFrame(TEXT, payload[..|payload| - 1]);
    }
  }
}

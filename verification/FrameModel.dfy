/** WebSocket frames: the encoding of RFC 6455 section 5.2, and the frames this client accepts. */
module FrameModel {
  import opened Common
  import opened Utf8

  const MAX_LENGTH := 0x8000_0000_0000_0000

  // ----- numbers in network byte order -----

  function Pow256(k: nat): nat {
    if k == 0 then 1 else 256 * Pow256(k - 1)
  }

  function BigEndian(n: nat, k: nat): (b: Bytes)
    ensures |b| == k
  {
    if k == 0 then [] else BigEndian(n / 256, k - 1) + [n % 256]
  }

  function Value(b: Bytes): nat {
    if b == [] then 0 else Value(b[..|b| - 1]) * 256 + (b[|b| - 1] as int)
  }

  lemma {:induction false} ValueOfBigEndian(n: nat, k: nat)
    requires n < Pow256(k)
    ensures Value(BigEndian(n, k)) == n
  {
    if k > 0 {
      ValueOfBigEndian(n / 256, k - 1);
      var b := BigEndian(n, k);
      assert b[..k - 1] == BigEndian(n / 256, k - 1) && b[k - 1] == n % 256;
    }
  }

  lemma {:induction false} BigEndianOfValue(b: Bytes)
    ensures Value(b) < Pow256(|b|) && BigEndian(Value(b), |b|) == b
  {
    if b != [] {
      var front, last := b[..|b| - 1], b[|b| - 1] as int;
      BigEndianOfValue(front);
      var n := Value(b);
      assert n / 256 == Value(front) && n % 256 == last;
      assert b == front + [b[|b| - 1]];
    }
  }

  // ----- masking (section 5.3) -----

  function Pow2(k: nat): nat {
    if k == 0 then 1 else 2 * Pow2(k - 1)
  }

  /** Exclusive or of the low `k` bits. */
  function XorBits(a: nat, b: nat, k: nat): (r: nat)
    ensures r < Pow2(k)
  {
    if k == 0 then 0 else XorBits(a / 2, b / 2, k - 1) * 2 + (a % 2 + b % 2) % 2
  }

  lemma Halves(q: nat, bit: nat)
    requires bit < 2
    ensures (q * 2 + bit) / 2 == q && (q * 2 + bit) % 2 == bit
  {
  }

  lemma FlipTwice(x: nat, y: nat)
    requires x < 2 && y < 2
    ensures ((x + y) % 2 + y) % 2 == x
  {
  }

  lemma {:induction false} XorBitsTwice(a: nat, b: nat, k: nat)
    requires a < Pow2(k)
    ensures XorBits(XorBits(a, b, k), b, k) == a
  {
    if k > 0 {
      var q, x, y := XorBits(a / 2, b / 2, k - 1), a % 2, b % 2;
      XorBitsTwice(a / 2, b / 2, k - 1);
      Halves(q, (x + y) % 2);
      FlipTwice(x, y);
      Unfold(a, b, k);
      Unfold(q * 2 + (x + y) % 2, b, k);
      hide XorBits, Pow2;
    }
  }

  lemma Unfold(a: nat, b: nat, k: nat)
    requires k > 0
    ensures XorBits(a, b, k) == XorBits(a / 2, b / 2, k - 1) * 2 + (a % 2 + b % 2) % 2
  {
  }

  lemma ByteBits()
    ensures Pow2(8) == 256
  {
    assert Pow2(8) == 2 * Pow2(7) && Pow2(7) == 2 * Pow2(6) && Pow2(6) == 2 * Pow2(5) && Pow2(5) == 2 * Pow2(4);
    assert Pow2(4) == 2 * Pow2(3) && Pow2(3) == 2 * Pow2(2) && Pow2(2) == 2 * Pow2(1);
  }

  function Xor(a: Byte, b: Byte): Byte {
    ByteBits();
    XorBits(a, b, 8)
  }

  lemma XorTwice(a: Byte, b: Byte)
    ensures Xor(Xor(a, b), b) == a
  {
    hide XorBits, Pow2;
    ByteBits();
    XorBitsTwice(a, b, 8);
  }

  function Masked(payload: Bytes, key: Bytes): (r: Bytes)
    requires |key| == 4
    ensures |r| == |payload|
  {
    seq(|payload|, i requires 0 <= i < |payload| => Xor(payload[i], key[i % 4]))
  }

  lemma MaskedTwice(payload: Bytes, key: Bytes)
    requires |key| == 4
    ensures Masked(Masked(payload, key), key) == payload
  {
    var once := Masked(payload, key);
    forall i | 0 <= i < |payload| ensures Masked(once, key)[i] == payload[i] {
      XorTwice(payload[i], key[i % 4]);
    }
  }

  // ----- frames -----

  /** A frame with its three reserved bits as a number and its masking key, if masked. */
  datatype Frame = Frame(fin: bool, rsv: nat, opcode: nat, key: Option<Bytes>, payload: Bytes)

  predicate Encodable(f: Frame) {
    f.rsv < 8 && f.opcode < 16 && (f.key.Some? ==> |f.key.value| == 4) && |f.payload| < MAX_LENGTH
  }

  /** The mask bit and the payload length in the fewest bytes. */
  function LengthField(masked: bool, n: nat): Bytes
    requires n < MAX_LENGTH
  {
    var bit := if masked then 128 else 0;
    if n < 126 then [bit + n]
    else if n <= 0xFFFF then [bit + 126] + BigEndian(n, 2)
    else [bit + 127] + BigEndian(n, 8)
  }

  function FirstByte(fin: bool, rsv: nat, opcode: nat): Byte
    requires rsv < 8 && opcode < 16
  {
    (if fin then 128 else 0) + rsv * 16 + opcode
  }

  /** The masking key, if any, and the payload as sent. */
  function Body(f: Frame): Bytes
    requires Encodable(f)
  {
    if f.key.Some? then f.key.value + Masked(f.payload, f.key.value) else f.payload
  }

  /** The bytes of a frame on the wire. */
  function Encode(f: Frame): Bytes
    requires Encodable(f)
  {
    [FirstByte(f.fin, f.rsv, f.opcode)] + LengthField(f.key.Some?, |f.payload|) + Body(f)
  }

  // ----- reading under the standard -----

  datatype Length = Length(value: nat, size: nat)

  /** The payload length at the head of `b`, which must be in the fewest bytes. */
  function ReadLength(b: Bytes): (r: Option<Length>)
    ensures r.Some? ==> 1 <= r.value.size <= |b| && r.value.value < MAX_LENGTH
  {
    if b == [] then None
    else
      var code := b[0] % 128;
      if code < 126 then Some(Length(code, 1))
      else if code == 126 then
        if |b| < 3 || Value(b[1..3]) < 126 || Value(b[1..3]) > 0xFFFF then None else Some(Length(Value(b[1..3]), 3))
      else if |b| < 9 || Value(b[1..9]) <= 0xFFFF || Value(b[1..9]) >= MAX_LENGTH then None
      else Some(Length(Value(b[1..9]), 9))
  }

  datatype Decoded = Decoded(frame: Frame, rest: Bytes)

  /** The frame whose first byte, mask bit and payload length are known and whose body starts `tail`. */
  function ReadBody(first: Byte, masked: bool, length: nat, tail: Bytes): Option<Decoded> {
    var fin, rsv, opcode := first >= 128, first / 16 % 8, first % 16;
    if masked then
      if |tail| < 4 + length then None
      else
        var key, body := tail[..4], tail[4..];
        Some(Decoded(Frame(fin, rsv, opcode, Some(key), Masked(body[..length], key)), body[length..]))
    else if |tail| < length then None
    else Some(Decoded(Frame(fin, rsv, opcode, None, tail[..length]), tail[length..]))
  }

  /** The frame at the head of `b` and what follows it. */
  function Decode(b: Bytes): Option<Decoded> {
    if b == [] || ReadLength(b[1..]).None? then None
    else
      var length := ReadLength(b[1..]).value;
      ReadBody(b[0], b[1] >= 128, length.value, b[1..][length.size..])
  }

  lemma Pow256Values()
    ensures Pow256(2) == 0x1_0000 && Pow256(8) == 0x1_0000_0000_0000_0000
  {
    assert Pow256(4) == 256 * Pow256(3) && Pow256(3) == 256 * Pow256(2) && Pow256(2) == 256 * Pow256(1);
    assert Pow256(8) == 256 * Pow256(7) && Pow256(7) == 256 * Pow256(6) && Pow256(6) == 256 * Pow256(5);
    assert Pow256(5) == 256 * Pow256(4);
  }

  lemma ReadWrittenLength(masked: bool, n: nat, rest: Bytes)
    requires n < MAX_LENGTH
    ensures ReadLength(LengthField(masked, n) + rest) == Some(Length(n, |LengthField(masked, n)|))
  {
    hide Value, BigEndian, Pow256;
    Pow256Values();
    var field := LengthField(masked, n);
    var b := field + rest;
    if 126 <= n <= 0xFFFF {
      ValueOfBigEndian(n, 2);
      assert b[1..3] == BigEndian(n, 2);
    } else if n > 0xFFFF {
      ValueOfBigEndian(n, 8);
      assert b[1..9] == BigEndian(n, 8);
    }
  }

  lemma LengthIsWritten(b: Bytes)
    requires ReadLength(b).Some?
    ensures LengthField(b[0] >= 128, ReadLength(b).value.value) == b[..ReadLength(b).value.size]
  {
    hide Value, BigEndian, Pow256;
    var length := ReadLength(b).value;
    if length.size == 3 {
      BigEndianOfValue(b[1..3]);
      assert b[..3] == [b[0]] + b[1..3];
    } else if length.size == 9 {
      BigEndianOfValue(b[1..9]);
      assert b[..9] == [b[0]] + b[1..9];
    }
  }

  lemma BodyRead(f: Frame, rest: Bytes)
    requires Encodable(f)
    ensures ReadBody(FirstByte(f.fin, f.rsv, f.opcode), f.key.Some?, |f.payload|, Body(f) + rest) == Some(Decoded(f, rest))
  {
    hide Masked;
    var tail := Body(f) + rest;
    if f.key.Some? {
      MaskedTwice(f.payload, f.key.value);
      assert tail[..4] == f.key.value;
      assert tail[4..] == Masked(f.payload, f.key.value) + rest;
    }
  }

  /** A frame's bytes have one reading, wherever they end and whatever follows: its own fields. */
  lemma DecodeEncode(f: Frame, rest: Bytes)
    requires Encodable(f)
    ensures Decode(Encode(f) + rest) == Some(Decoded(f, rest))
  {
    hide ReadLength, LengthField, ReadBody, Body;
    var field := LengthField(f.key.Some?, |f.payload|);
    var b := Encode(f) + rest;
    ReadWrittenLength(f.key.Some?, |f.payload|, Body(f) + rest);
    FieldBit(f.key.Some?, |f.payload|);
    BodyRead(f, rest);
    assert b == [FirstByte(f.fin, f.rsv, f.opcode)] + (field + (Body(f) + rest));
    assert b[1..] == field + (Body(f) + rest);
    assert b[1..][|field|..] == Body(f) + rest;
  }

  lemma FieldBit(masked: bool, n: nat)
    requires n < MAX_LENGTH
    ensures LengthField(masked, n) != [] && (LengthField(masked, n)[0] >= 128 <==> masked)
  {
  }

  lemma BodyIsWritten(first: Byte, masked: bool, length: nat, tail: Bytes)
    requires length < MAX_LENGTH && ReadBody(first, masked, length, tail).Some?
    ensures var d := ReadBody(first, masked, length, tail).value;
            && Encodable(d.frame) && Body(d.frame) + d.rest == tail && |d.frame.payload| == length
            && d.frame.key.Some? == masked && FirstByte(d.frame.fin, d.frame.rsv, d.frame.opcode) == first
  {
    hide Masked;
    if masked {
      var key, body := tail[..4], tail[4..];
      MaskedTwice(body[..length], key);
      assert tail == key + body[..length] + body[length..];
    }
  }

  /** Whatever can be read as a frame is the encoding of that frame. */
  lemma EncodeDecode(b: Bytes)
    requires Decode(b).Some?
    ensures Encodable(Decode(b).value.frame) && Encode(Decode(b).value.frame) + Decode(b).value.rest == b
  {
    hide ReadLength, LengthField, ReadBody, Body, FirstByte;
    var length := ReadLength(b[1..]).value;
    var tail := b[1..][length.size..];
    LengthIsWritten(b[1..]);
    BodyIsWritten(b[0], b[1] >= 128, length.value, tail);
    assert b == [b[0]] + b[1..][..length.size] + tail;
  }

  // ----- reading as the client does -----

  predicate ControlOpcode(opcode: nat) {
    opcode % 16 >= 8
  }

  /** The server frames the client takes: unmasked, no reserved bits, control frames whole and short,
      data frames below the line limit. */
  predicate Taken(f: Frame, maxLine: int) {
    && f.key.None? && f.rsv == 0
    && (if ControlOpcode(f.opcode) then f.fin && |f.payload| <= 125 else |f.payload| < maxLine)
  }

  datatype Read = Got(fin: bool, opcode: nat, payload: Bytes, rest: Bytes) | End | Bad

  function ReadPayload(first: Byte, length: nat, tail: Bytes, maxLine: int): Read {
    if !ControlOpcode(first % 16) && (maxLine <= 0 || length >= maxLine) then Bad
    else if |tail| < length then Bad
    else Got(first >= 128, first % 16, tail[..length], tail[length..])
  }

  function ReadFrame(input: Bytes, maxLine: int): Read {
    if input == [] then End
    else if |input| < 2 then Bad
    else
      var first, second := input[0], input[1];
      if first / 16 % 8 != 0 || second >= 128 then Bad
      else if ControlOpcode(first % 16) && (first < 128 || second % 128 > 125) then Bad
      else if second % 128 == 126 then
        if |input| < 4 || Value(input[2..4]) < 126 then Bad
        else ReadPayload(first, Value(input[2..4]), input[4..], maxLine)
      else if second % 128 == 127 then
        if |input| < 10 || Value(input[2..10]) >= MAX_LENGTH || Value(input[2..10]) <= 0xFFFF then Bad
        else ReadPayload(first, Value(input[2..10]), input[10..], maxLine)
      else ReadPayload(first, second % 128, input[2..], maxLine)
  }

  lemma TwoByteValue(b: Bytes)
    requires |b| == 2
    ensures Value(b) <= 0xFFFF
  {
    BigEndianOfValue(b);
    Pow256Values();
  }

  /** The client reads exactly what the standard reads, less the frames it does not take; the stream
      ends cleanly only between frames. */
  lemma ReadFrameExact(input: Bytes, maxLine: int)
    ensures ReadFrame(input, maxLine) ==
            if input == [] then End
            else if Decode(input).None? || !Taken(Decode(input).value.frame, maxLine) then Bad
            else Got(Decode(input).value.frame.fin, Decode(input).value.frame.opcode,
                     Decode(input).value.frame.payload, Decode(input).value.rest)
  {
    hide Value, Masked;
    if |input| >= 2 {
      var b := input[1..];
      if |input| >= 4 {
        assert b[1..3] == input[2..4] && b[3..] == input[4..];
        TwoByteValue(input[2..4]);
      }
      if |input| >= 10 { assert b[1..9] == input[2..10] && b[9..] == input[10..]; }
      assert b[1..] == input[2..];
    }
  }

  /** In terms of encodings: a frame is received if and only if the input starts with the encoding of a
      frame that the client takes. */
  lemma ReceivesIff(input: Bytes, maxLine: int, f: Frame, rest: Bytes)
    requires Encodable(f) && f.key.None? && f.rsv == 0
    ensures ReadFrame(input, maxLine) == Got(f.fin, f.opcode, f.payload, rest) <==>
            Taken(f, maxLine) && input == Encode(f) + rest
  {
    hide Encode, Decode, ReadFrame;
    ReadFrameExact(input, maxLine);
    if input == Encode(f) + rest {
      DecodeEncode(f, rest);
      EncodeNotEmpty(f);
    }
    if Decode(input).Some? { EncodeDecode(input); }
  }

  lemma EncodeNotEmpty(f: Frame)
    requires Encodable(f)
    ensures |Encode(f)| >= 2
  {
    FieldBit(f.key.Some?, |f.payload|);
    hide LengthField;
  }

  // ----- closing (section 7.4) -----

  predicate ValidCloseCode(code: nat) {
    code in {1000, 1001, 1002, 1003, 1007, 1008, 1009, 1010, 1011, 1012, 1013, 1014} || 3000 <= code <= 4999
  }

  predicate ValidClose(payload: Bytes) {
    payload == [] || (|payload| >= 2 && ValidCloseCode(Value(payload[..2])) && WellFormed(payload[2..]))
  }
}

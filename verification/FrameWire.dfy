/** Frames bit by bit and byte by byte, as RFC 6455 lays them out. */
module FrameWire {
  import opened Common
  import opened Utf8
  import opened FrameModel

  /** Bit `k` of a byte, the lowest being bit 0. */
  function Bit(b: Byte, k: nat): nat
    requires k < 8
  {
    b / [1, 2, 4, 8, 16, 32, 64, 128][k] % 2
  }

  /** Every bit of `r` is the sum modulo 2 of the bits of `a` and `b`. */
  predicate IsXor(r: Byte, a: Byte, b: Byte) {
    forall k :: 0 <= k < 8 ==> Bit(r, k) == (Bit(a, k) + Bit(b, k)) % 2
  }

  lemma Halved(b: Byte)
    ensures b / 4 == b / 2 / 2 && b / 8 == b / 4 / 2 && b / 16 == b / 8 / 2 && b / 32 == b / 16 / 2
    ensures b / 64 == b / 32 / 2 && b / 128 == b / 64 / 2 && b / 128 / 2 == 0
  {
  }

  lemma BitsOf(b: Byte)
    ensures b == Bit(b, 0) + 2 * Bit(b, 1) + 4 * Bit(b, 2) + 8 * Bit(b, 3)
                 + 16 * Bit(b, 4) + 32 * Bit(b, 5) + 64 * Bit(b, 6) + 128 * Bit(b, 7)
  {
    Halved(b);
  }

  /** A byte is determined by its bits. */
  lemma SameBits(a: Byte, b: Byte)
    requires forall k :: 0 <= k < 8 ==> Bit(a, k) == Bit(b, k)
    ensures a == b
  {
    BitsOf(a);
    BitsOf(b);
    hide Bit;
  }

  lemma XorHalf(a: nat, b: nat, n: nat)
    requires n > 0
    ensures XorBits(a, b, n) / 2 == XorBits(a / 2, b / 2, n - 1)
    ensures XorBits(a, b, n) % 2 == (a % 2 + b % 2) % 2
  {
    Halves(XorBits(a / 2, b / 2, n - 1), (a % 2 + b % 2) % 2);
  }

  lemma XorHalves(a: Byte, b: Byte)
    ensures var r := Xor(a, b);
            && r / 2 == XorBits(a / 2, b / 2, 7) && r / 4 == XorBits(a / 4, b / 4, 6) && r / 8 == XorBits(a / 8, b / 8, 5)
            && r / 16 == XorBits(a / 16, b / 16, 4) && r / 32 == XorBits(a / 32, b / 32, 3)
            && r / 64 == XorBits(a / 64, b / 64, 2) && r / 128 == XorBits(a / 128, b / 128, 1)
  {
    hide XorBits, Pow2;
    Halved(a);
    Halved(b);
    Halved(Xor(a, b));
    XorHalf(a, b, 8);
    XorHalf(a / 2, b / 2, 7);
    XorHalf(a / 4, b / 4, 6);
    XorHalf(a / 8, b / 8, 5);
    XorHalf(a / 16, b / 16, 4);
    XorHalf(a / 32, b / 32, 3);
    XorHalf(a / 64, b / 64, 2);
  }

  lemma AllBits(r: Byte, a: Byte, b: Byte)
    requires r % 2 == (a % 2 + b % 2) % 2 && r / 2 % 2 == (a / 2 % 2 + b / 2 % 2) % 2
    requires r / 4 % 2 == (a / 4 % 2 + b / 4 % 2) % 2 && r / 8 % 2 == (a / 8 % 2 + b / 8 % 2) % 2
    requires r / 16 % 2 == (a / 16 % 2 + b / 16 % 2) % 2 && r / 32 % 2 == (a / 32 % 2 + b / 32 % 2) % 2
    requires r / 64 % 2 == (a / 64 % 2 + b / 64 % 2) % 2 && r / 128 % 2 == (a / 128 % 2 + b / 128 % 2) % 2
    ensures IsXor(r, a, b)
  {
    hide Bit;
    BitsAre(r);
    BitsAre(a);
    BitsAre(b);
    forall k | 0 <= k < 8 ensures Bit(r, k) == (Bit(a, k) + Bit(b, k)) % 2 {
      assert k == 0 || k == 1 || k == 2 || k == 3 || k == 4 || k == 5 || k == 6 || k == 7;
    }
  }

  lemma BitsAre(b: Byte)
    ensures Bit(b, 0) == b % 2 && Bit(b, 1) == b / 2 % 2 && Bit(b, 2) == b / 4 % 2 && Bit(b, 3) == b / 8 % 2
    ensures Bit(b, 4) == b / 16 % 2 && Bit(b, 5) == b / 32 % 2 && Bit(b, 6) == b / 64 % 2 && Bit(b, 7) == b / 128 % 2
  {
  }

  lemma XorBits8(a: Byte, b: Byte)
    ensures IsXor(Xor(a, b), a, b)
  {
    hide XorBits, Pow2, IsXor;
    XorHalves(a, b);
    XorHalf(a, b, 8);
    XorHalf(a / 2, b / 2, 7);
    XorHalf(a / 4, b / 4, 6);
    XorHalf(a / 8, b / 8, 5);
    XorHalf(a / 16, b / 16, 4);
    XorHalf(a / 32, b / 32, 3);
    XorHalf(a / 64, b / 64, 2);
    XorHalf(a / 128, b / 128, 1);
    AllBits(Xor(a, b), a, b);
  }

  /** What the client masks with is exclusive or, and nothing else is. */
  lemma XorIsBitwise(a: Byte, b: Byte, r: Byte)
    ensures r == Xor(a, b) <==> IsXor(r, a, b)
  {
    hide Xor, Bit;
    XorBits8(a, b);
    if IsXor(r, a, b) { SameBits(Xor(a, b), r); }
  }

  /** Section 5.3: byte `i` of the payload is byte `i` as transmitted xor byte `i` modulo 4 of the key. */
  predicate Unmasks(sent: Bytes, key: Bytes, payload: Bytes)
    requires |key| == 4
  {
    |sent| == |payload| && forall i :: 0 <= i < |sent| ==> IsXor(payload[i], sent[i], key[i % 4])
  }

  /** A receiver that unmasks by bitwise exclusive or recovers the payload and nothing else. */
  lemma MaskedUnmasks(payload: Bytes, key: Bytes, p: Bytes)
    requires |key| == 4
    ensures Unmasks(Masked(payload, key), key, p) <==> p == payload
  {
    hide Xor, IsXor;
    var sent := Masked(payload, key);
    forall i | 0 <= i < |payload| ensures IsXor(payload[i], sent[i], key[i % 4]) {
      XorTwice(payload[i], key[i % 4]);
      XorIsBitwise(sent[i], key[i % 4], payload[i]);
    }
    if Unmasks(sent, key, p) {
      forall i | 0 <= i < |p| ensures p[i] == payload[i] {
        XorIsBitwise(sent[i], key[i % 4], p[i]);
        XorTwice(payload[i], key[i % 4]);
      }
    }
  }

  /** The payload is determined by what was sent. */
  lemma UnmasksOne(sent: Bytes, key: Bytes, p: Bytes, q: Bytes)
    requires |key| == 4 && Unmasks(sent, key, p) && Unmasks(sent, key, q)
    ensures p == q
  {
    hide IsXor;
    forall i | 0 <= i < |p| ensures p[i] == q[i] {
      XorIsBitwise(sent[i], key[i % 4], p[i]);
      XorIsBitwise(sent[i], key[i % 4], q[i]);
    }
  }

  // ----- the layout of section 5.2 -----

  /** The length of the header up to the masking key. */
  function HeaderSize(n: nat): nat {
    if n <= 125 then 2 else if n <= 65535 then 4 else 10
  }

  /** The number written by the two bytes at `i`. */
  function Short(b: Bytes, i: nat): nat
    requires i + 2 <= |b|
  {
    (b[i] as int) * 256 + (b[i + 1] as int)
  }

  /** The number written by the eight bytes at `i`. */
  function Long(b: Bytes, i: nat): nat
    requires i + 8 <= |b|
  {
    ((Short(b, i) * 65536 + Short(b, i + 2)) * 65536 + Short(b, i + 4)) * 65536 + Short(b, i + 6)
  }

  predicate HeaderOf(b: Bytes, f: Frame) {
    var n := |f.payload|;
    && |b| >= HeaderSize(n)
    && b[0] == (if f.fin then 0x80 else 0) + 0x10 * f.rsv + f.opcode
    && b[1] == (if f.key.Some? then 0x80 else 0) + (if n <= 125 then n else if n <= 65535 then 126 else 127)
    && (125 < n <= 65535 ==> Short(b, 2) == n)
    && (n > 65535 ==> Long(b, 2) == n)
  }

  /** The bytes are the frame as the standard lays it out. */
  predicate Wired(b: Bytes, f: Frame)
    requires Encodable(f)
  {
    var h := HeaderSize(|f.payload|);
    && |b| >= h
    && HeaderOf(b, f)
    && (f.key.Some? ==> |b| >= h + 4 && b[h..h + 4] == f.key.value && Unmasks(b[h + 4..], f.key.value, f.payload))
    && (f.key.None? ==> b[h..] == f.payload)
  }

  lemma ShortValue(b: Bytes)
    requires |b| == 2
    ensures Value(b) == Short(b, 0)
  {
    assert b[..1] == [b[0]] && b[..1][..0] == [];
    assert Value(b[..1]) == b[0] as int;
  }

  lemma {:induction false} LongValue(b: Bytes)
    requires |b| == 8
    ensures Value(b) == Long(b, 0)
  {
    ValueStep(b, 7);
    ValueStep(b, 6);
    ValueStep(b, 5);
    ValueStep(b, 4);
    ValueStep(b, 3);
    ValueStep(b, 2);
    ShortValue(b[..2]);
    assert b[..8] == b;
    hide Value;
  }

  lemma ValueStep(b: Bytes, k: nat)
    requires k < |b|
    ensures Value(b[..k + 1]) == Value(b[..k]) * 256 + (b[k] as int)
  {
    assert b[..k + 1][..k] == b[..k];
  }

  lemma HeaderIs(f: Frame, rest: Bytes)
    requires Encodable(f)
    ensures HeaderOf([FirstByte(f.fin, f.rsv, f.opcode)] + LengthField(f.key.Some?, |f.payload|) + rest, f)
    ensures |LengthField(f.key.Some?, |f.payload|)| + 1 == HeaderSize(|f.payload|)
  {
    hide Value, BigEndian, Pow256;
    var n := |f.payload|;
    var b := [FirstByte(f.fin, f.rsv, f.opcode)] + LengthField(f.key.Some?, n) + rest;
    Pow256Values();
    if 125 < n <= 65535 {
      ValueOfBigEndian(n, 2);
      ShortValue(BigEndian(n, 2));
      assert b[2..4] == BigEndian(n, 2) && b[2] == b[2..4][0] && b[3] == b[2..4][1];
    } else if n > 65535 {
      ValueOfBigEndian(n, 8);
      LongValue(BigEndian(n, 8));
      assert b[2..10] == BigEndian(n, 8);
      LongOf(b);
    }
  }

  lemma LongOf(b: Bytes)
    requires |b| >= 10
    ensures Long(b, 2) == Value(b[2..10])
  {
    LongValue(b[2..10]);
    hide Value;
  }

  /** The encoding of a frame is the one byte string laid out as section 5.2 says. */
  lemma EncodedAsLaidOut(f: Frame, b: Bytes)
    requires Encodable(f)
    ensures b == Encode(f) <==> Wired(b, f)
  {
    hide LengthField, HeaderOf, Masked, Unmasks, HeaderSize, FirstByte;
    var h, e := HeaderSize(|f.payload|), Encode(f);
    HeaderIs(f, Body(f));
    assert e[h..] == Body(f);
    if f.key.Some? {
      var key := f.key.value;
      MaskedUnmasks(f.payload, key, f.payload);
      assert e[h..h + 4] == e[h..][..4] == key && e[h + 4..] == e[h..][4..] == Masked(f.payload, key);
    }
    assert Wired(e, f);
    if Wired(b, f) {
      HeaderDetermined(b, e, f);
      assert b == b[..h] + b[h..] && e == e[..h] + e[h..];
      if f.key.Some? {
        assert b[h..] == b[h..h + 4] + b[h + 4..];
        MaskDetermined(b[h + 4..], f.key.value, f.payload);
      }
    }
  }

  lemma MaskDetermined(sent: Bytes, key: Bytes, payload: Bytes)
    requires |key| == 4 && Unmasks(sent, key, payload)
    ensures sent == Masked(payload, key)
  {
    hide Xor, IsXor;
    forall i | 0 <= i < |sent| ensures sent[i] == Xor(payload[i], key[i % 4]) {
      XorIsBitwise(sent[i], key[i % 4], payload[i]);
      XorTwice(sent[i], key[i % 4]);
    }
  }

  lemma HeaderDetermined(a: Bytes, b: Bytes, f: Frame)
    requires HeaderOf(a, f) && HeaderOf(b, f)
    ensures a[..HeaderSize(|f.payload|)] == b[..HeaderSize(|f.payload|)]
  {
    hide Value, BigEndian;
    var n := |f.payload|;
    if 125 < n <= 65535 {
      assert a[2] == b[2] && a[3] == b[3];
    } else if n > 65535 {
      LongOf(a);
      LongOf(b);
      BigEndianOfValue(a[2..10]);
      BigEndianOfValue(b[2..10]);
      assert a[..10] == a[..2] + a[2..10] && b[..10] == b[..2] + b[2..10];
    }
  }

  /** A long length with the highest bit set is refused, as the standard demands. */
  lemma HighestBitRefused(input: Bytes, maxLine: int)
    requires |input| >= 10 && input[1] % 128 == 127 && input[2] >= 128
    ensures ReadFrame(input, maxLine) == Bad
  {
    LongOf(input);
    hide Value, ReadPayload;
  }

  // ----- closing -----

  /** The status codes of section 7.4 that may be sent: 1000 to 1014 except the three reserved for
      local use, and the registered and private ranges. */
  lemma CloseCodes(code: nat)
    ensures ValidCloseCode(code) <==> (1000 <= code <= 1014 && code !in {1004, 1005, 1006}) || 3000 <= code <= 4999
  {
  }

  /** A close payload is accepted if and only if it is empty, or a code that may be sent followed by UTF-8. */
  lemma CloseAccepted(payload: Bytes)
    ensures ValidClose(payload) <==>
            || payload == []
            || (|payload| >= 2
                && (var code := Short(payload, 0);
                    (1000 <= code <= 1014 && code != 1004 && code != 1005 && code != 1006) || 3000 <= code <= 4999)
                && exists codes: seq<nat> :: (forall i :: 0 <= i < |codes| ==> Scalar(codes[i])) && payload[2..] == EncodeAll(codes))
  {
    hide Value, WellFormed, Scalar;
    if |payload| >= 2 {
      ShortValue(payload[..2]);
      CloseCodes(Short(payload, 0));
      WellFormedExactly(payload[2..]);
    }
  }
}

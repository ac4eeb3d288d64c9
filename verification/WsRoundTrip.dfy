/** The frame writer and the frame reader are inverse to each other. */
module WsRoundTrip {
  import opened Bytes
  import opened WsFrames

  lemma FlagsBack(f: Frame)
    ensures DecodeFlags(FirstByte(f)) ==
            if f.compressed && !MayCompress(f.opcode) then Err(BadCompression) else Ok(f.(payload := []))
  {
    var first, low := FirstByte(f) as nat, f.opcode as nat;
    if f.fin {
      assert first == low + if f.compressed then 0xC0 else 0x80;
    } else {
      assert first == low + if f.compressed then 0x40 else 0;
    }
    FlagsOf(low, f.compressed, f.fin);
  }

  lemma FlagsOf(low: nat, compressed: bool, fin: bool)
    requires low < 16
    ensures var first := low + (if compressed then 0x40 else 0) + if fin then 0x80 else 0;
            && (first >= 0x80 <==> fin) && (first / 0x40 % 2 == 1 <==> compressed)
            && first % 16 == low && first / 16 % 4 == 0
  {
    assert fin && compressed ==> (low + 0xC0) / 0x40 == 3 && (low + 0xC0) / 16 == 12;
    assert fin && !compressed ==> (low + 0x80) / 0x40 == 2 && (low + 0x80) / 16 == 8;
    assert !fin && compressed ==> (low + 0x40) / 0x40 == 1 && (low + 0x40) / 16 == 4;
    assert !fin && !compressed ==> low / 0x40 == 0 && low / 16 == 0;
  }

  lemma FlagsForward(first: byte)
    ensures DecodeFlags(first).Ok? ==> FirstByte(DecodeFlags(first).value) == first
  {
  }

  /** The bits of the first byte, from the top: final, compressed, two reserved ones, the opcode. */
  lemma FirstByteBits(f: Frame)
    ensures var first := FirstByte(f) as nat;
            && (Bit(first, 7) <==> f.fin) && (Bit(first, 6) <==> f.compressed)
            && !Bit(first, 5) && !Bit(first, 4)
            && forall k :: 0 <= k < 4 ==> (Bit(first, k) <==> Bit(f.opcode as nat, k))
  {
    var first, low := FirstByte(f) as nat, f.opcode as nat;
    var high := (if f.compressed then 4 else 0) + if f.fin then 8 else 0;
    assert first == low + 16 * high;
    forall k | 0 <= k < 4 ensures Bit(first, k) <==> Bit(low, k) {
      LowBit(low, high, k);
    }
    HighBit(low, high, 0);
    HighBit(low, high, 1);
    HighBit(low, high, 2);
    HighBit(low, high, 3);
    HighFlags(f.compressed, f.fin);
  }

  lemma HighFlags(compressed: bool, fin: bool)
    ensures var high := (if compressed then 4 else 0) + if fin then 8 else 0;
            (Bit(high, 3) <==> fin) && (Bit(high, 2) <==> compressed) && !Bit(high, 1) && !Bit(high, 0)
  {
    assert Bit(12, 3) && Bit(12, 2) && Bit(8, 3) && !Bit(8, 2) && !Bit(4, 3) && Bit(4, 2) && !Bit(0, 3) && !Bit(0, 2);
    assert !Bit(12, 1) && !Bit(8, 1) && !Bit(4, 1) && !Bit(0, 1);
  }

  /** n has no bit set up to this position. */
  predicate ClearUpTo(n: nat, k: nat) {
    n % 2 == 0 && (k == 0 || ClearUpTo(n / 2, k - 1))
  }

  /** Adding a number with upper bits only leaves the lower ones what they are. */
  lemma {:induction false} BitBelow(low: nat, upper: nat, k: nat)
    requires ClearUpTo(upper, k)
    ensures Bit(low + upper, k) <==> Bit(low, k)
  {
    if k > 0 {
      assert (low + upper) / 2 == low / 2 + upper / 2;
      BitBelow(low / 2, upper / 2, k - 1);
    }
  }

  lemma LowBit(low: nat, high: nat, k: nat)
    requires k < 4
    ensures Bit(low + 16 * high, k) <==> Bit(low, k)
  {
    assert ClearUpTo(2 * high, 0);
    assert 4 * high / 2 == 2 * high && ClearUpTo(4 * high, 1);
    assert 8 * high / 2 == 4 * high && ClearUpTo(8 * high, 2);
    assert 16 * high / 2 == 8 * high && ClearUpTo(16 * high, 3);
    ClearBelow(16 * high, 3, k);
    BitBelow(low, 16 * high, k);
  }

  lemma {:induction false} ClearBelow(n: nat, m: nat, k: nat)
    requires ClearUpTo(n, m) && k <= m
    ensures ClearUpTo(n, k)
  {
    if k > 0 {
      ClearBelow(n / 2, m - 1, k - 1);
    }
  }

  lemma HighBit(low: nat, high: nat, k: nat)
    requires low < 16
    ensures Bit(low + 16 * high, k + 4) <==> Bit(high, k)
  {
    var n := low + 16 * high;
    assert n / 2 / 2 / 2 / 2 == high;
    assert Bit(n, k + 4) <==> Bit(n / 2, k + 3);
    assert Bit(n / 2, k + 3) <==> Bit(n / 2 / 2, k + 2);
    assert Bit(n / 2 / 2, k + 2) <==> Bit(n / 2 / 2 / 2, k + 1);
    assert Bit(n / 2 / 2 / 2, k + 1) <==> Bit(n / 2 / 2 / 2 / 2, k);
  }

  const HELLO: bytes := [0x48, 0x65, 0x6C, 0x6C, 0x6F]

  /** The sample frames of section 5.7 of RFC 6455 that carry this text. */
  lemma SampleFrames()
    ensures Encode(Frame(true, false, TEXT, HELLO), None) == [0x81, 0x05] + HELLO
    ensures Encode(Frame(true, false, TEXT, HELLO), Some([0x37, 0xFA, 0x21, 0x3D])) ==
            [0x81, 0x85, 0x37, 0xFA, 0x21, 0x3D, 0x7F, 0x9F, 0x4D, 0x51, 0x58]
    ensures Encode(Frame(true, false, PING, HELLO), None) == [0x89, 0x05] + HELLO
    ensures Encode(Frame(true, false, PONG, HELLO), Some([0x37, 0xFA, 0x21, 0x3D])) ==
            [0x8A, 0x85, 0x37, 0xFA, 0x21, 0x3D, 0x7F, 0x9F, 0x4D, 0x51, 0x58]
    ensures Encode(Frame(false, false, TEXT, HELLO[..3]), None) == [0x01, 0x03, 0x48, 0x65, 0x6C]
    ensures Encode(Frame(true, false, CONTINUATION, HELLO[3..]), None) == [0x80, 0x02, 0x6C, 0x6F]
  {
    hide Encode;
    SampleMasked();
    SampleWhole();
    SampleCut();
  }

  lemma SampleMasked()
    ensures Encode(Frame(true, false, TEXT, HELLO), Some([0x37, 0xFA, 0x21, 0x3D])) ==
            [0x81, 0x85, 0x37, 0xFA, 0x21, 0x3D, 0x7F, 0x9F, 0x4D, 0x51, 0x58]
    ensures Encode(Frame(true, false, PONG, HELLO), Some([0x37, 0xFA, 0x21, 0x3D])) ==
            [0x8A, 0x85, 0x37, 0xFA, 0x21, 0x3D, 0x7F, 0x9F, 0x4D, 0x51, 0x58]
  {
    hide Encode, Masked, Xor;
    SampleMask();
    ShortFrame(Frame(true, false, TEXT, HELLO), Some([0x37, 0xFA, 0x21, 0x3D]));
    ShortFrame(Frame(true, false, PONG, HELLO), Some([0x37, 0xFA, 0x21, 0x3D]));
  }

  lemma SampleWhole()
    ensures Encode(Frame(true, false, TEXT, HELLO), None) == [0x81, 0x05] + HELLO
    ensures Encode(Frame(true, false, PING, HELLO), None) == [0x89, 0x05] + HELLO
  {
    hide Encode;
    ShortFrame(Frame(true, false, TEXT, HELLO), None);
    ShortFrame(Frame(true, false, PING, HELLO), None);
  }

  lemma SampleCut()
    ensures Encode(Frame(false, false, TEXT, HELLO[..3]), None) == [0x01, 0x03, 0x48, 0x65, 0x6C]
    ensures Encode(Frame(true, false, CONTINUATION, HELLO[3..]), None) == [0x80, 0x02, 0x6C, 0x6F]
  {
    hide Encode;
    ShortFrame(Frame(false, false, TEXT, HELLO[..3]), None);
    ShortFrame(Frame(true, false, CONTINUATION, HELLO[3..]), None);
  }

  lemma ShortFrame(f: Frame, key: Option<Key>)
    requires |f.payload| < 126
    ensures Encode(f, key) ==
            match key
            case None => [FirstByte(f), |f.payload| as byte] + f.payload
            case Some(k) => [FirstByte(f), |f.payload| as byte + 0x80] + k + Masked(f.payload, k)
  {
    hide FirstByte, Masked;
  }

  lemma SampleMask()
    ensures Masked(HELLO, [0x37, 0xFA, 0x21, 0x3D]) == [0x7F, 0x9F, 0x4D, 0x51, 0x58]
  {
    hide XorBits, Xor;
    SampleBytes();
    assert Pow2(8) == 256;
  }

  lemma SampleBytes()
    ensures Xor(0x48, 0x37) == 0x7F && Xor(0x65, 0xFA) == 0x9F && Xor(0x6C, 0x21) == 0x4D
    ensures Xor(0x6C, 0x3D) == 0x51 && Xor(0x6F, 0x37) == 0x58
  {
    assert Pow2(8) == 256;
    assert XorBits(0x48, 0x37, 8) == 0x7F;
    assert XorBits(0x65, 0xFA, 8) == 0x9F;
    assert XorBits(0x6C, 0x21, 8) == 0x4D;
    assert XorBits(0x6C, 0x3D, 8) == 0x51;
    assert XorBits(0x6F, 0x37, 8) == 0x58;
  }

  /** The length field and the extended length that follows it are read back. */
  lemma LengthBack(length: nat, data: bytes)
    requires length <= MAX_LENGTH && |data| >= 2 + |ExtendedLength(length)|
    requires data[2..2 + |ExtendedLength(length)|] == ExtendedLength(length)
    ensures DecodeLength(data, LengthField(length)) == Ok(Length(length, 2 + |ExtendedLength(length)|))
  {
    Powers();
    if length >= 126 {
      BigEndianRead(length, if length <= 65535 then 2 else 8);
    }
  }

  /** Only the shortest form of a length is accepted. */
  lemma LengthForward(data: bytes, field: byte)
    requires |data| >= 2 && field < 128 && DecodeLength(data, field).Ok?
    ensures var length := DecodeLength(data, field).value;
            && field == LengthField(length.length)
            && length.end == 2 + |ExtendedLength(length.length)|
            && data[2..length.end] == ExtendedLength(length.length)
  {
    Powers();
    if field == 126 {
      BigEndianWrite(data[2..4]);
    } else if field == 127 {
      BigEndianWrite(data[2..10]);
    }
  }

  lemma BodyTwice(payload: bytes, key: Option<Key>)
    ensures Body(Body(payload, key), key) == payload
  {
    if key.Some? {
      MaskedTwice(payload, key.value);
    }
  }

  /** The pieces of an encoded frame, wherever it is followed by more bytes. */
  lemma EncodedPieces(f: Frame, key: Option<Key>, rest: bytes)
    requires |f.payload| <= MAX_LENGTH
    ensures var data, end := Encode(f, key) + rest, 2 + |ExtendedLength(|f.payload|)|;
            var start := end + if key.Some? then 4 else 0;
            && |Encode(f, key)| == start + |f.payload|
            && data[0] == FirstByte(f)
            && data[1] == LengthField(|f.payload|) + (if key.Some? then 0x80 else 0)
            && data[2..end] == ExtendedLength(|f.payload|)
            && (key.Some? ==> data[end..start] == key.value)
            && data[start..start + |f.payload|] == Body(f.payload, key)
  {
    hide BigEndian, Masked, FirstByte, LengthField, ExtendedLength;
  }

  lemma PayloadBack(flags: Frame, data: bytes, length: Length, key: Option<Key>, payload: bytes)
    requires length.length == |payload| && flags.payload == []
    requires var start := length.end + if key.Some? then 4 else 0;
             && start + |payload| <= |data|
             && (key.Some? ==> data[length.end..start] == key.value)
             && data[start..start + |payload|] == Body(payload, key)
    ensures DecodePayload(flags, data, length, key.Some?) ==
            if flags.opcode == CLOSE && !ClosePayload(payload) then Err(BadClose)
            else Ok(Parsed(flags.(payload := payload), length.end + (if key.Some? then 4 else 0) + |payload|, key))
  {
    BodyTwice(payload, key);
  }

  /**
   * Reading what was written returns the same frame and key and consumes exactly
   * the frame's bytes, for every length form and whatever follows; and a frame
   * comes back only if it is legal.
   */
  lemma WriteThenRead(f: Frame, key: Option<Key>, rest: bytes, limit: nat)
    requires |f.payload| <= MAX_LENGTH
    ensures Decode(Encode(f, key) + rest, key.Some?, limit) == Ok(Parsed(f, |Encode(f, key)|, key)) <==> Legal(f, limit)
  {
    hide Encode, FirstByte, LengthField, ExtendedLength, DecodeFlags, DecodeLength, DecodePayload, ClosePayload, Body;
    var data := Encode(f, key) + rest;
    EncodedPieces(f, key, rest);
    FlagsBack(f);
    SmallField(|f.payload|);
    LengthBack(|f.payload|, data);
    PayloadBack(f.(payload := []), data, Length(|f.payload|, 2 + |ExtendedLength(|f.payload|)|), key, f.payload);
  }

  lemma SmallField(length: nat)
    ensures LengthField(length) < 0x80
  {
  }

  /** Every frame the reader accepts is legal and re-encodes, with the same key, to the bytes read. */
  lemma ReadThenWrite(data: bytes, expectMask: bool, limit: nat)
    requires Decode(data, expectMask, limit).Ok?
    ensures var p := Decode(data, expectMask, limit).value;
            && Legal(p.frame, limit) && p.key.Some? == expectMask
            && p.consumed <= |data| && Encode(p.frame, p.key) == data[..p.consumed]
  {
    hide FirstByte, LengthField, ExtendedLength, DecodeFlags, DecodeLength, ClosePayload, Body;
    var p := Decode(data, expectMask, limit).value;
    var length := DecodeLength(data, data[1] % 0x80).value;
    FlagsLegal(data[0]);
    FlagsForward(data[0]);
    LengthForward(data, data[1] % 0x80);
    var start := length.end + if expectMask then 4 else 0;
    BodyTwice(data[start..start + length.length], p.key);
    BodySize(data[start..start + length.length], p.key);
    FirstByteIgnoresPayload(p.frame);
    InFour(data, length.end, start, p.consumed);
  }

  /** The four pieces of a frame. */
  lemma InFour(data: bytes, a: nat, b: nat, c: nat)
    requires 2 <= a <= b <= c <= |data|
    ensures data[..c] == [data[0], data[1]] + data[2..a] + data[a..b] + data[b..c]
  {
    assert data[..2] == [data[0], data[1]];
    Splice(data, 2, a);
    Splice(data, a, b);
    Splice(data, b, c);
  }

  lemma FlagsLegal(first: byte)
    ensures DecodeFlags(first).Ok? ==>
      && (DecodeFlags(first).value.compressed ==> MayCompress(DecodeFlags(first).value.opcode))
      && DecodeFlags(first).value.payload == []
  {
  }

  lemma FirstByteIgnoresPayload(f: Frame)
    ensures FirstByte(f) == FirstByte(f.(payload := []))
  {
  }

  lemma BodySize(payload: bytes, key: Option<Key>)
    ensures |Body(payload, key)| == |payload|
  {
  }

  /** A frame cut short anywhere is recognized as incomplete, never misread or refused for another reason. */
  lemma CutFrameIsTruncated(data: bytes, expectMask: bool, limit: nat, n: nat)
    requires Decode(data, expectMask, limit).Ok? && n < Decode(data, expectMask, limit).value.consumed
    ensures n <= |data| && Decode(data[..n], expectMask, limit) == Err(Truncated)
  {
    hide DecodeFlags, ClosePayload, Body;
    var cut := data[..n];
    if n >= 2 {
      assert cut[0] == data[0] && cut[1] == data[1];
      assert n >= 4 ==> cut[2..4] == data[2..4];
      assert n >= 10 ==> cut[2..10] == data[2..10];
    }
  }
}

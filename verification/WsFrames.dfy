/** WebSocket framing (sections 5.2 and 5.3 of RFC 6455): the frame reader and the frame writer. */
module WsFrames {
  import opened Bytes
  import opened Sinks
  import Utf8

  const CONTINUATION: Opcode := 0x0
  const TEXT: Opcode := 0x1
  const BINARY: Opcode := 0x2
  const CLOSE: Opcode := 0x8
  const PING: Opcode := 0x9
  const PONG: Opcode := 0xA

  newtype Opcode = x: int | 0 <= x < 16

  /** The payload as it travels, before masking: compressed payloads stay compressed. */
  datatype Frame = Frame(fin: bool, compressed: bool, opcode: Opcode, payload: bytes)

  type Key = k: bytes | |k| == 4 witness [0, 0, 0, 0]

  datatype FrameError =
    | Truncated | ReservedBits | BadCompression | BadMasking | NonCanonicalLength | InvalidLength
    | BadControl | TooLarge | BadClose

  /** The largest slice length of a 64-bit machine. */
  const MAX_LENGTH := 0x7FFF_FFFF_FFFF_FFFF

  predicate Control(opcode: Opcode) {
    opcode >= CLOSE
  }

  predicate MayCompress(opcode: Opcode) {
    opcode != CONTINUATION && !Control(opcode)
  }

  /** A close frame carries nothing, a status code, or a status code and UTF-8 text. */
  predicate ClosePayload(payload: bytes) {
    |payload| != 1 && (|payload| > 2 ==> Utf8.Valid(payload[2..]))
  }

  /** So it is empty, or two bytes and then encoded text (section 5.5.1 of RFC 6455). */
  lemma ClosePayloadIs(payload: bytes)
    ensures ClosePayload(payload) <==>
            || payload == []
            || exists code: bytes, reason: string :: |code| == 2 && payload == code + Utf8.Encode(reason)
  {
    hide Utf8.Valid, Utf8.Encode;
    if 2 <= |payload| {
      Utf8.ValidIsEncoded(payload[2..]);
      EmptyIsText();
      if ClosePayload(payload) {
        var reason: string :| Utf8.Encode(reason) == payload[2..];
        assert payload == payload[..2] + Utf8.Encode(reason);
      }
      if code: bytes, reason: string :| |code| == 2 && payload == code + Utf8.Encode(reason) {
        assert payload[2..] == Utf8.Encode(reason);
      }
    }
  }

  lemma EmptyIsText()
    ensures Utf8.Valid([]) && Utf8.Encode("") == []
  {
  }

  /** The frames the reader accepts. */
  predicate Legal(f: Frame, limit: nat) {
    && |f.payload| <= limit
    && (f.compressed ==> MayCompress(f.opcode))
    && (Control(f.opcode) ==> f.fin && |f.payload| <= 125)
    && (f.opcode == CLOSE ==> ClosePayload(f.payload))
  }

  // --- integers and masks ---

  function BigEndian(n: nat, width: nat): (r: bytes)
    ensures |r| == width
  {
    if width == 0 then [] else BigEndian(n / 256, width - 1) + [(n % 256) as byte]
  }

  function FromBigEndian(b: bytes): nat {
    if b == [] then 0 else FromBigEndian(b[..|b| - 1]) * 256 + b[|b| - 1] as nat
  }

  function Power256(width: nat): nat {
    if width == 0 then 1 else 256 * Power256(width - 1)
  }

  lemma {:induction false} BigEndianRead(n: nat, width: nat)
    requires n < Power256(width)
    ensures FromBigEndian(BigEndian(n, width)) == n
  {
    if width > 0 {
      BigEndianRead(n / 256, width - 1);
    }
  }

  lemma {:induction false} BigEndianWrite(b: bytes)
    ensures FromBigEndian(b) < Power256(|b|)
    ensures BigEndian(FromBigEndian(b), |b|) == b
  {
    if b != [] {
      var init, last := b[..|b| - 1], b[|b| - 1];
      BigEndianWrite(init);
      Digits(FromBigEndian(init), last as nat);
      assert b == init + [last];
    }
  }

  /** The last byte counts ones, and each byte before it counts 256 times as much. */
  lemma {:induction false} BigEndianDigits(n: nat, width: nat, i: nat)
    requires i < width
    ensures BigEndian(n, width)[width - 1 - i] as nat == Shifted(n, i) % 256
  {
    if i > 0 {
      BigEndianDigits(n / 256, width - 1, i - 1);
    }
  }

  /** n without its lowest bytes. */
  function Shifted(n: nat, bytes: nat): nat {
    if bytes == 0 then n else Shifted(n / 256, bytes - 1)
  }

  lemma Digits(high: nat, low: nat)
    requires low < 256
    ensures (high * 256 + low) / 256 == high && (high * 256 + low) % 256 == low
  {
  }

  lemma Powers()
    ensures Power256(2) == 65536 && Power256(8) == 0x1_0000_0000_0000_0000
  {
    assert Power256(4) == 0x1_0000_0000;
    assert Power256(6) == 0x1_0000_0000_0000;
  }

  /** payload with byte i combined with byte i mod 4 of the key. */
  function Masked(payload: bytes, key: Key): (r: bytes)
    ensures |r| == |payload|
    ensures forall i :: 0 <= i < |payload| ==> r[i] == Xor(payload[i], key[i % 4])
  {
    seq(|payload|, i requires 0 <= i < |payload| => Xor(payload[i], key[i % 4]))
  }

  lemma MaskedTwice(payload: bytes, key: Key)
    ensures Masked(Masked(payload, key), key) == payload
  {
    forall i | 0 <= i < |payload| ensures Masked(Masked(payload, key), key)[i] == payload[i] {
      XorTwice(payload[i], key[i % 4]);
    }
  }

  /** Bit by bit, masking is the exclusive or of section 5.3 of RFC 6455. */
  lemma MaskedIs(payload: bytes, key: Key, i: nat, k: nat)
    requires i < |payload| && k < 8
    ensures Bit(Masked(payload, key)[i] as nat, k) <==> Bit(payload[i] as nat, k) != Bit(key[i % 4] as nat, k)
  {
    XorIs(payload[i], key[i % 4], k);
  }

  method ApplyMask(payload: array<byte>, key: Key)
    modifies payload
    ensures payload[..] == Masked(old(payload[..]), key)
  {
    for i := 0 to payload.Length
      invariant forall k :: 0 <= k < i ==> payload[k] == Xor(old(payload[k]), key[k % 4])
      invariant forall k :: i <= k < payload.Length ==> payload[k] == old(payload[k])
    {
      payload[i] := Xor(payload[i], key[i % 4]);
    }
  }

  // --- the writer ---

  function FirstByte(f: Frame): byte {
    f.opcode as byte + (if f.compressed then 0x40 else 0) + if f.fin then 0x80 else 0
  }

  /** The seven-bit length, or the marker of the extended length that follows. */
  function LengthField(length: nat): byte {
    if length < 126 then length as byte else if length <= 65535 then 126 else 127
  }

  function ExtendedLength(length: nat): bytes {
    if length < 126 then [] else if length <= 65535 then BigEndian(length, 2) else BigEndian(length, 8)
  }

  function Header(f: Frame, key: Option<Key>): bytes {
    [FirstByte(f), LengthField(|f.payload|) + if key.Some? then 0x80 else 0]
    + ExtendedLength(|f.payload|)
    + if key.Some? then key.value else []
  }

  function Body(payload: bytes, key: Option<Key>): bytes {
    if key.Some? then Masked(payload, key.value) else payload
  }

  /** The bytes of a frame on the wire, with the key it is masked with if it is. */
  function Encode(f: Frame, key: Option<Key>): bytes {
    Header(f, key) + Body(f.payload, key)
  }

  datatype WriteResult = Written | Refused | WriteError

  /** Lays out the fixed and the extended length of the header. */
  method PutLength(header: array<byte>, length: nat) returns (offset: nat)
    requires header.Length == 14
    modifies header
    ensures 2 <= offset <= 10 && header[0] == old(header[0])
    ensures header[1..offset] == [LengthField(length)] + ExtendedLength(length)
  {
    if length < 126 {
      header[1] := length as byte;
      return 2;
    } else if length <= 65535 {
      header[1] := 126;
      PutBigEndian(header, 2, length, 2);
      offset := 4;
    } else {
      header[1] := 127;
      PutBigEndian(header, 2, length, 8);
      offset := 10;
    }
    assert header[..2][0] == header[0] && header[..2][1] == header[1];
    assert header[1..offset] == [header[1]] + header[2..offset];
  }

  /** Sets the mask bit and appends the key. */
  method PutKey(header: array<byte>, offset: nat, key: Key)
    requires header.Length == 14 && 2 <= offset <= 10 && header[1] < 0x80
    modifies header
    ensures header[..offset] == old(header[..offset])[1 := old(header[1]) + 0x80]
    ensures header[offset..offset + 4] == key
  {
    header[1] := header[1] + 0x80;
    for i := 0 to 4
      invariant header[..offset] == old(header[..offset])[1 := old(header[1]) + 0x80]
      invariant header[offset..offset + i] == key[..i]
    {
      header[offset + i] := key[i];
    }
  }

  method PutHeader(header: array<byte>, f: Frame, key: Option<Key>) returns (offset: nat)
    requires header.Length == 14
    modifies header
    ensures offset <= 14 && header[..offset] == Header(f, key)
  {
    header[0] := f.opcode as byte;
    if f.compressed {
      header[0] := header[0] + 0x40;
    }
    if f.fin {
      header[0] := header[0] + 0x80;
    }
    offset := PutLength(header, |f.payload|);
    assert header[..offset] == [FirstByte(f)] + header[1..offset];
    assert header[1] == header[1..offset][0];
    if key.Some? {
      PutKey(header, offset, key.value);
      assert header[..offset + 4] == header[..offset] + header[offset..offset + 4];
      offset := offset + 4;
    }
  }

  method MaskedCopy(payload: bytes, key: Key) returns (body: bytes)
    ensures body == Masked(payload, key)
  {
    var copy := new byte[|payload|](i requires 0 <= i < |payload| => payload[i]);
    assert copy[..] == payload;
    ApplyMask(copy, key);
    body := copy[..];
  }

  /**
   * Writes one frame: the header is laid out in a fixed buffer, the payload is
   * masked in a copy. A frame marked compressed is deflated first, unless its
   * kind cannot be compressed. If writing fails, which is reported exactly when it
   * happens, only the beginning was sent.
   */
  method WriteFrame(sink: ByteSink, f: Frame, key: Option<Key>, deflate: bytes -> bytes) returns (r: WriteResult)
    requires |f.payload| <= MAX_LENGTH && |deflate(f.payload)| <= MAX_LENGTH
    modifies sink
    ensures r.Refused? <==> f.compressed && !MayCompress(f.opcode)
    ensures var encoded := Encode(f.(payload := if f.compressed then deflate(f.payload) else f.payload), key);
            && (r.Refused? ==> sink.sent == old(sink.sent))
            && (r.Written? ==> sink.sent == old(sink.sent) + encoded)
            && (r.WriteError? ==> old(sink.sent) <= sink.sent <= old(sink.sent) + encoded)
    ensures sink.failures == old(sink.failures) + if r.WriteError? then 1 else 0
  {
    hide Header, Masked;
    var payload := f.payload;
    if f.compressed {
      if f.opcode == CONTINUATION || f.opcode >= CLOSE {
        return Refused;
      }
      payload := deflate(payload);
    }
    var header := new byte[14](_ => 0);
    var offset := PutHeader(header, f.(payload := payload), key);
    var body := payload;
    if key.Some? {
      body := MaskedCopy(payload, key.value);
    }
    Associates(old(sink.sent), header[..offset], body);
    var ok := sink.Write(header[..offset]);
    if !ok {
      return WriteError;
    }
    ok := sink.Write(body);
    return if ok then Written else WriteError;
  }

  /** Stores n in width bytes of a from position at, most significant first. */
  method PutBigEndian(a: array<byte>, at: nat, n: nat, width: nat)
    requires at + width <= a.Length
    modifies a
    ensures a[..at] == old(a[..at]) && a[at..at + width] == BigEndian(n, width)
    decreases width
  {
    if width > 0 {
      PutBigEndian(a, at, n / 256, width - 1);
      ghost var before := a[..at];
      a[at + width - 1] := (n % 256) as byte;
      assert a[..at] == before;
      assert a[at..at + width] == a[at..at + width - 1] + [(n % 256) as byte];
    }
  }

  // --- the reader ---

  /** A frame read, the bytes it took and the key it was masked with. */
  datatype Parsed = Parsed(frame: Frame, consumed: nat, key: Option<Key>)

  datatype Length = Length(length: nat, end: nat)

  function DecodeLength(data: bytes, field: byte): (r: Result<Length, FrameError>)
    requires field < 128 && |data| >= 2
    ensures r.Ok? ==> 2 <= r.value.end <= 10 && r.value.end <= |data| && r.value.length <= MAX_LENGTH
  {
    if field == 126 then
      if |data| < 4 then Err(Truncated)
      else
        var n := FromBigEndian(data[2..4]);
        BigEndianWrite(data[2..4]);
        Powers();
        if n < 126 then Err(NonCanonicalLength) else Ok(Length(n, 4))
    else if field == 127 then
      if |data| < 10 then Err(Truncated)
      else
        var n := FromBigEndian(data[2..10]);
        if n < 65536 || n > MAX_LENGTH then Err(InvalidLength) else Ok(Length(n, 10))
    else Ok(Length(field as nat, 2))
  }

  /** The flags of the first byte, or why they are refused. */
  function DecodeFlags(first: byte): Result<Frame, FrameError> {
    var f := Frame(first >= 0x80, first / 0x40 % 2 == 1, (first % 16) as Opcode, []);
    if first / 16 % 4 != 0 then Err(ReservedBits)
    else if f.compressed && !MayCompress(f.opcode) then Err(BadCompression)
    else Ok(f)
  }

  function DecodePayload(flags: Frame, data: bytes, length: Length, masked: bool): Result<Parsed, FrameError>
    requires length.end <= |data|
  {
    var start := length.end + if masked then 4 else 0;
    if |data| < start || |data| < start + length.length then Err(Truncated)
    else
      var key := if masked then Some(data[length.end..start]) else None;
      var payload := Body(data[start..start + length.length], key);
      if flags.opcode == CLOSE && !ClosePayload(payload) then Err(BadClose)
      else Ok(Parsed(flags.(payload := payload), start + length.length, key))
  }

  /** The frame at the start of data, or the first reason to refuse it. */
  function Decode(data: bytes, expectMask: bool, limit: nat): Result<Parsed, FrameError> {
    if |data| < 2 then Err(Truncated)
    else
      var flags, masked := DecodeFlags(data[0]), data[1] >= 0x80;
      if flags.Err? then Err(flags.error)
      else if masked != expectMask then Err(BadMasking)
      else
        var length := DecodeLength(data, data[1] % 0x80);
        if length.Err? then Err(length.error)
        else if Control(flags.value.opcode) && (!flags.value.fin || length.value.length > 125) then Err(BadControl)
        else if length.value.length > limit then Err(TooLarge)
        else DecodePayload(flags.value, data, length.value, masked)
  }

  class ByteSource {
    const data: bytes
    var pos: nat

    ghost predicate Valid()
      reads this
    {
      pos <= |data|
    }

    ghost function Rest(): bytes
      reads this
      requires Valid()
    {
      data[pos..]
    }

    constructor (data: bytes)
      ensures Valid() && pos == 0 && this.data == data
    {
      this.data, pos := data, 0;
    }

    /** Exactly n bytes, or None if fewer are left. */
    method ReadFull(n: nat) returns (r: Option<bytes>)
      requires Valid()
      modifies this`pos
      ensures Valid()
      ensures r.Some? <==> n <= |old(Rest())|
      ensures r.Some? ==> r.value == old(Rest())[..n] && pos == old(pos) + n
      ensures r.None? ==> pos == |data|
    {
      if pos + n <= |data| {
        r := Some(data[pos..pos + n]);
        pos := pos + n;
      } else {
        r := None;
        pos := |data|;
      }
    }
  }

  method ReadLength(source: ByteSource, field: byte) returns (r: Result<nat, FrameError>)
    requires source.Valid() && field < 128 && source.pos >= 2
    modifies source`pos
    ensures source.Valid()
    ensures var decoded := DecodeLength(old(source.data[source.pos - 2..]), field);
            && (decoded.Err? ==> r == Err(decoded.error))
            && (decoded.Ok? ==> r == Ok(decoded.value.length) && source.pos == old(source.pos) - 2 + decoded.value.end)
  {
    ghost var all := source.data[source.pos - 2..];
    assert all[2..] == source.Rest();
    if field == 126 {
      var extended := source.ReadFull(2);
      if extended.None? {
        return Err(Truncated);
      }
      assert extended.value == all[2..4];
      var length := FromBigEndian(extended.value);
      if length < 126 {
        return Err(NonCanonicalLength);
      }
      return Ok(length);
    } else if field == 127 {
      var extended := source.ReadFull(8);
      if extended.None? {
        return Err(Truncated);
      }
      assert extended.value == all[2..10];
      var length := FromBigEndian(extended.value);
      if length < 65536 || length > MAX_LENGTH {
        return Err(InvalidLength);
      }
      return Ok(length);
    }
    return Ok(field as nat);
  }

  /** Reads one frame; the payload is unmasked in place in the buffer it was read into. */
  method ReadFrame(source: ByteSource, expectMask: bool, limit: nat) returns (r: Result<Frame, FrameError>)
    requires source.Valid()
    modifies source`pos
    ensures source.Valid()
    ensures var decoded := Decode(old(source.Rest()), expectMask, limit);
            && (decoded.Err? ==> r == Err(decoded.error))
            && (decoded.Ok? ==> r == Ok(decoded.value.frame) && source.pos == old(source.pos) + decoded.value.consumed)
  {
    hide DecodeLength, DecodePayload, DecodeFlags;
    ghost var data, start := source.Rest(), source.pos;
    var header := source.ReadFull(2);
    if header.None? {
      return Err(Truncated);
    }
    var flags := DecodeFlags(header.value[0]);
    if flags.Err? {
      return Err(flags.error);
    }
    var masked := header.value[1] >= 0x80;
    if masked != expectMask {
      return Err(BadMasking);
    }
    var length := ReadLength(source, header.value[1] % 0x80);
    if length.Err? {
      return Err(length.error);
    }
    if Control(flags.value.opcode) && (!flags.value.fin || length.value > 125) {
      return Err(BadControl);
    }
    if length.value > limit {
      return Err(TooLarge);
    }
    r := ReadPayload(source, flags.value, length.value, masked, data, start);
  }

  method ReadPayload(source: ByteSource, flags: Frame, length: nat, masked: bool, ghost data: bytes, ghost start: nat)
    returns (r: Result<Frame, FrameError>)
    requires source.Valid() && start <= source.pos && data == source.data[start..]
    modifies source`pos
    ensures source.Valid()
    ensures var decoded := DecodePayload(flags, data, Length(length, old(source.pos) - start), masked);
            && (decoded.Err? ==> r == Err(decoded.error))
            && (decoded.Ok? ==> r == Ok(decoded.value.frame) && source.pos == start + decoded.value.consumed)
  {
    hide Masked, ClosePayload;
    ghost var end := source.pos - start;
    Suffix(source.data, start, source.pos, source.pos);
    var key := None;
    if masked {
      Suffix(source.data, start, source.pos, source.pos + if end + 4 <= |data| then 4 else 0);
      var read := source.ReadFull(4);
      if read.None? {
        return Err(Truncated);
      }
      assert read.value == data[end..end + 4];
      key := Some(read.value);
    }
    Suffix(source.data, start, source.pos, source.pos + if source.pos - start + length <= |data| then length else 0);
    var payload := source.ReadFull(length);
    if payload.None? {
      return Err(Truncated);
    }
    var text := payload.value;
    if masked {
      text := MaskedCopy(text, key.value);
    }
    if flags.opcode == CLOSE && !ClosePayload(text) {
      return Err(BadClose);
    }
    return Ok(flags.(payload := text));
  }

  lemma Suffix(data: bytes, start: nat, from: nat, to: nat)
    requires start <= from <= to <= |data|
    ensures data[start..][from - start..] == data[from..]
    ensures data[start..][from - start..to - start] == data[from..][..to - from]
  {
  }
}

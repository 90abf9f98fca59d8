/** The data link frame: header packing, nonces, and encrypted datagrams of fixed size. */
module Frame {
  import opened Types
  import opened Postcard
  import opened FrameCounter

  const HEADER_SIZE := 6
  const MIC_SIZE := 4
  const NONCE_SIZE := 7
  const MIN_PACKET_SIZE := HEADER_SIZE + MIN_PAYLOAD_SIZE + MIC_SIZE

  // ---------------------------------------------------------------- headers

  datatype DataSource = Client | Server

  datatype Header = Header(version: bv8, source: DataSource, serverAddress: bv8, serverPort: bv8, frameCounter: bv16)

  type Packed = (bv8, bv8, bv8, bv8)

  function ToPacked(h: Header): Packed {
    var source: bv32 := if h.source == Server then 1 else 0;
    var header: bv32 :=
      (source << 2)
      | (((h.serverAddress as bv32) & 0xFF) << 3)
      | (((h.serverPort as bv32) & 0x07) << 11)
      | (((h.frameCounter as bv32) & 0xFFFF) << 16);
    (((header & 0xff000000) >> 24) as bv8,
     ((header & 0x00ff0000) >> 16) as bv8,
     ((header & 0x0000ff00) >> 8) as bv8,
     (header & 0x000000ff) as bv8)
  }

  function Parse(p: Packed): Option<Header> {
    var header: bv32 := ((p.0 as bv32) << 24) | ((p.1 as bv32) << 16) | ((p.2 as bv32) << 8) | (p.3 as bv32);
    var version := header & 0x02;
    var source := if (header >> 2) & 0x01 == 0 then Client else Server;
    var serverAddress := (header >> 3) & 0xFF;
    var serverPort := (header >> 11) & 0x07;
    var frameCounter := (header >> 16) & 0xFFFF;
    if version == 0
    then Some(Header(0, source, serverAddress as bv8, serverPort as bv8, frameCounter as bv16))
    else None
  }

  /** Packing drops the version and all but three bits of the port; the rest comes back. */
  lemma ParseAfterPack(h: Header)
    ensures Parse(ToPacked(h)) == Some(h.(version := 0, serverPort := h.serverPort & 0x07))
    ensures Parse(ToPacked(h)) == Some(h) <==> h.version == 0 && h.serverPort < 8
  {
    assert h.serverPort & 0x07 == h.serverPort <==> h.serverPort < 8;
  }

  /** The parser looks at bit 1 alone, although two bits carry the version and two more are
      reserved: it accepts exactly the headers with bit 1 clear, and only those with all four
      bits clear are what packing produces. */
  lemma WhatParseAccepts(p: Packed)
    ensures Parse(p).Some? <==> p.3 & 0x02 == 0
    ensures Parse(p).Some? ==> (ToPacked(Parse(p).value) == p <==> p.3 & 0x03 == 0 && p.2 & 0xC0 == 0)
  {
  }

  lemma PackIsInjective(h: Header, h': Header)
    requires h.version == h'.version && h.serverPort < 8 && h'.serverPort < 8
    ensures ToPacked(h) == ToPacked(h') <==> h == h'
  {
    ParseAfterPack(h);
    ParseAfterPack(h');
    assert h.serverPort & 0x07 == h.serverPort && h'.serverPort & 0x07 == h'.serverPort;
  }

  // ---------------------------------------------------------------- the header as a number

  /** The packed header as one number, the first byte highest: bit k of the frame format counts 2^k. */
  function Word(p: Packed): int {
    ((p.0 as int * 0x100 + p.1 as int) * 0x100 + p.2 as int) * 0x100 + p.3 as int
  }

  lemma PackedBits(h: Header)
    ensures ToPacked(h).3 == ((h.serverAddress & 0x1F) << 3) | (if h.source == Server then 4 else 0)
    ensures ToPacked(h).2 == ((h.serverPort & 0x07) << 3) | (h.serverAddress >> 5)
    ensures ((ToPacked(h).0 as bv16) << 8) | (ToPacked(h).1 as bv16) == h.frameCounter
  {
  }

  lemma SecondByteValue(port: bv8, address: bv8)
    ensures (((port & 0x07) << 3) | (address >> 5)) as int == (port & 0x07) as int * 8 + (address >> 5) as int
  {
  }

  lemma LastByteValue(address: bv8)
    ensures (((address & 0x1F) << 3) | 0) as int == (address & 0x1F) as int * 8
    ensures (((address & 0x1F) << 3) | 4) as int == (address & 0x1F) as int * 8 + 4
  {
  }

  lemma AddressValue(address: bv8)
    ensures address as int == (address >> 5) as int * 32 + (address & 0x1F) as int
  {
  }

  lemma PortBits(port: bv8)
    ensures port as int == (port >> 3) as int * 8 + (port & 0x07) as int && (port & 0x07) as int < 8
  {
  }

  lemma PortValue(port: bv8)
    ensures (port & 0x07) as int == port as int % 8
  {
    PortBits(port);
    QuotientIs(port as int, 8, (port >> 3) as int, (port & 0x07) as int);
  }

  lemma WordOfBits(p: Packed, source: bool, address: bv8, port: bv8, frameCounter: bv16)
    requires p.3 == ((address & 0x1F) << 3) | (if source then 4 else 0)
    requires p.2 == ((port & 0x07) << 3) | (address >> 5)
    requires ((p.0 as bv16) << 8) | (p.1 as bv16) == frameCounter
    ensures Word(p) == frameCounter as int * 0x1_0000 + (port as int % 8) * 0x800 + address as int * 8
                       + if source then 4 else 0
  {
    ValueOfParts(p.0, p.1);
    SecondByteValue(port, address);
    LastByteValue(address);
    AddressValue(address);
    PortValue(port);
  }

  /** Where the fields stand in the word: source at bit 2, address from bit 3, port from bit 11 and
      counter from bit 16, with every other bit clear. */
  lemma PackedWord(h: Header)
    ensures Word(ToPacked(h)) ==
            h.frameCounter as int * 0x1_0000 + (h.serverPort as int % 8) * 0x800 + h.serverAddress as int * 8
            + if h.source == Server then 4 else 0
  {
    PackedBits(h);
    WordOfBits(ToPacked(h), h.source == Server, h.serverAddress, h.serverPort, h.frameCounter);
  }

  lemma ParsedBits(p: Packed)
    ensures Parse(p).Some? <==> (p.3 >> 1) & 0x01 == 0
    ensures Parse(p).Some? ==>
              var h := Parse(p).value;
              && h.version == 0 && (h.source == Server <==> (p.3 >> 2) & 0x01 == 1)
              && h.serverAddress == ((p.2 & 0x07) << 5) | (p.3 >> 3)
              && h.serverPort == (p.2 >> 3) & 0x07
              && h.frameCounter == ((p.0 as bv16) << 8) | (p.1 as bv16)
  {
  }

  lemma ParsedAddressValue(p2: bv8, p3: bv8)
    ensures (((p2 & 0x07) << 5) | (p3 >> 3)) as int == (p2 & 0x07) as int * 32 + (p3 >> 3) as int
  {
  }

  lemma SecondByteBits(b: bv8)
    ensures b as int == (b >> 6) as int * 64 + ((b >> 3) & 0x07) as int * 8 + (b & 0x07) as int
    ensures (b & 0x07) as int < 8 && ((b >> 3) & 0x07) as int < 8 && (b >> 6) as int < 4
  {
  }

  lemma LastByteBits(b: bv8)
    ensures b as int == (b >> 3) as int * 8 + ((b >> 2) & 0x01) as int * 4 + ((b >> 1) & 0x01) as int * 2
                        + (b & 0x01) as int
    ensures ((b >> 2) & 0x01) as int < 2 && ((b >> 1) & 0x01) as int < 2 && (b & 0x01) as int < 2
    ensures (b >> 3) as int < 32
  {
  }

  lemma WordParts(word: int, high: int, t: int, port: int, u: int, v: int, s: int, z: int, y: int)
    requires 0 <= port < 8 && 0 <= u < 8 && 0 <= t < 4 && 0 <= v < 32
    requires 0 <= s < 2 && 0 <= z < 2 && 0 <= y < 2
    requires word == high * 0x1_0000 + (t * 64 + port * 8 + u) * 0x100 + v * 8 + s * 4 + z * 2 + y
    ensures word / 0x1_0000 == high && word / 0x800 % 8 == port && word / 8 % 0x100 == u * 32 + v
    ensures word / 4 % 2 == s && word / 2 % 2 == z
  {
    var middle, low := t * 64 + port * 8 + u, v * 8 + s * 4 + z * 2 + y;
    QuotientIs(word, 0x1_0000, high, middle * 0x100 + low);
    QuotientIs(word, 0x800, high * 32 + t * 8 + port, u * 0x100 + low);
    QuotientIs(high * 32 + t * 8 + port, 8, high * 4 + t, port);
    QuotientIs(word, 8, high * 0x2000 + middle * 32 + v, s * 4 + z * 2 + y);
    QuotientIs(high * 0x2000 + middle * 32 + v, 0x100, high * 32 + t * 8 + port, u * 32 + v);
    QuotientIs(word, 4, high * 0x4000 + middle * 64 + v * 2 + s, z * 2 + y);
    QuotientIs(high * 0x4000 + middle * 64 + v * 2 + s, 2, high * 0x2000 + middle * 32 + v, s);
    QuotientIs(word, 2, high * 0x8000 + middle * 128 + v * 4 + s * 2 + z, y);
    QuotientIs(high * 0x8000 + middle * 128 + v * 4 + s * 2 + z, 2, high * 0x4000 + middle * 64 + v * 2 + s, z);
  }

  lemma BitValue(b: bv8)
    ensures (b & 0x01 == 0 <==> (b & 0x01) as int == 0) && (b & 0x01 == 1 <==> (b & 0x01) as int == 1)
  {
  }

  lemma ParsedValues(p: Packed)
    ensures Parse(p).Some? <==> ((p.3 >> 1) & 0x01) as int == 0
    ensures Parse(p).Some? ==>
              var h := Parse(p).value;
              && h.version == 0 && (h.source == Server <==> ((p.3 >> 2) & 0x01) as int == 1)
              && h.serverAddress as int == (p.2 & 0x07) as int * 32 + (p.3 >> 3) as int
              && h.serverPort as int == ((p.2 >> 3) & 0x07) as int
              && h.frameCounter as int == p.0 as int * 0x100 + p.1 as int
  {
    ParsedBits(p);
    ValueOfParts(p.0, p.1);
    BitValue(p.3 >> 1);
    BitValue(p.3 >> 2);
    ParsedAddressValue(p.2, p.3);
  }

  lemma WordValues(p: Packed)
    ensures Word(p) / 2 % 2 == ((p.3 >> 1) & 0x01) as int
    ensures Word(p) / 4 % 2 == ((p.3 >> 2) & 0x01) as int
    ensures Word(p) / 8 % 0x100 == (p.2 & 0x07) as int * 32 + (p.3 >> 3) as int
    ensures Word(p) / 0x800 % 8 == ((p.2 >> 3) & 0x07) as int
    ensures Word(p) / 0x1_0000 == p.0 as int * 0x100 + p.1 as int
  {
    SecondByteBits(p.2);
    LastByteBits(p.3);
    WordParts(Word(p), p.0 as int * 0x100 + p.1 as int,
              (p.2 >> 6) as int, ((p.2 >> 3) & 0x07) as int, (p.2 & 0x07) as int,
              (p.3 >> 3) as int, ((p.3 >> 2) & 0x01) as int, ((p.3 >> 1) & 0x01) as int, (p.3 & 0x01) as int);
  }

  /** Every word is read by the same places: it is accepted exactly when bit 1 is clear, and each
      field is the quotient and remainder of the word that its bits stand for. */
  lemma ParsedWord(p: Packed)
    ensures Parse(p).Some? <==> Word(p) / 2 % 2 == 0
    ensures Parse(p).Some? ==>
              var h := Parse(p).value;
              && h.version == 0 && (h.source == Server <==> Word(p) / 4 % 2 == 1)
              && h.serverAddress as int == Word(p) / 8 % 0x100
              && h.serverPort as int == Word(p) / 0x800 % 8
              && h.frameCounter as int == Word(p) / 0x1_0000
  {
    ParsedValues(p);
    WordValues(p);
  }

  // ---------------------------------------------------------------- nonces

  function HeaderBytes(p: Packed): (bytes: seq<byte>)
    ensures |bytes| == 4
  {
    [p.0 as int, p.1 as int, p.2 as int, p.3 as int]
  }

  function PackedOf(bytes: seq<byte>): Packed
    requires |bytes| >= 4
  {
    (bytes[0] as bv8, bytes[1] as bv8, bytes[2] as bv8, bytes[3] as bv8)
  }

  lemma ByteIsBv8(b: bv8)
    ensures (b as int) as bv8 == b
  {
  }

  lemma PackedBytes(p: Packed, tail: seq<byte>)
    ensures PackedOf(HeaderBytes(p) + tail) == p
  {
    ByteIsBv8(p.0);
    ByteIsBv8(p.1);
    ByteIsBv8(p.2);
    ByteIsBv8(p.3);
  }

  function NewNonce(p: Packed, payloadLen: nat): (nonce: seq<byte>)
    ensures |nonce| == NONCE_SIZE
  {
    [0x01] + HeaderBytes(p) + [payloadLen % 0x100, 0x00]
  }

  /** Two nonces agree exactly when the headers do and the lengths do modulo 256. */
  lemma NonceIsInjective(p: Packed, n: nat, p': Packed, n': nat)
    ensures NewNonce(p, n) == NewNonce(p', n') <==> p == p' && n % 0x100 == n' % 0x100
  {
    if NewNonce(p, n) == NewNonce(p', n') {
      var nonce := NewNonce(p, n);
      assert nonce[1..5] == HeaderBytes(p);
      assert NewNonce(p', n')[1..5] == HeaderBytes(p');
      assert nonce[5] == n % 0x100;
      assert NewNonce(p', n')[5] == n' % 0x100;
      PackedBytes(p, []);
      PackedBytes(p', []);
      assert HeaderBytes(p) + [] == HeaderBytes(p) && HeaderBytes(p') + [] == HeaderBytes(p');
    }
  }

  // ---------------------------------------------------------------- datagrams

  /** An authenticated cipher under one key: nonce, associated data and text to text. */
  datatype Cipher = Cipher(
    seal: (seq<byte>, seq<byte>, seq<byte>) -> seq<byte>,
    open: (seq<byte>, seq<byte>, seq<byte>) -> Option<seq<byte>>)

  /** Sealing adds a four-byte integrity code, and what was sealed opens again. */
  ghost predicate Sound(c: Cipher) {
    forall nonce, header, text ::
      |c.seal(nonce, header, text)| == |text| + MIC_SIZE &&
      c.open(nonce, header, c.seal(nonce, header, text)) == Some(text)
  }

  /** Nothing sealed under the one opens under the other. */
  ghost predicate Refuses(other: Cipher, c: Cipher) {
    forall nonce, header, text :: other.open(nonce, header, c.seal(nonce, header, text)) == None
  }

  function Sealed(c: Cipher, h: Header, payload: seq<byte>): seq<byte> {
    var p := ToPacked(h);
    c.seal(NewNonce(p, |payload|), HeaderBytes(p), payload)
  }

  /** The bytes of a frame: the packed header, then the sealed payload behind its length. */
  function FrameBytes(c: Cipher, h: Header, payload: seq<byte>): seq<byte> {
    HeaderBytes(ToPacked(h)) + EncodeVarint(|Sealed(c, h, payload)|) + Sealed(c, h, payload)
  }

  /** What a reused buffer holds once a frame that fits was written over its front. */
  function Overwritten(frame: seq<byte>, buffer: seq<byte>): (bytes: seq<byte>)
    requires |frame| <= |buffer|
    ensures |bytes| == |buffer|
  {
    frame + buffer[|frame|..]
  }

  /** Encrypts and encodes into the given buffer.  The program panics if the plain text, the
      sealed text or the whole frame does not fit the buffer's size. */
  method ToDatagram(c: Cipher, h: Header, payload: seq<byte>, datagram: array<byte>) returns (panicked: bool)
    requires Sound(c)
    modifies datagram
    ensures panicked <==> |FrameBytes(c, h, payload)| > datagram.Length
    ensures !panicked ==> datagram[..] == Overwritten(FrameBytes(c, h, payload), old(datagram[..]))
  {
    var p := ToPacked(h);
    var nonce := NewNonce(p, |payload|);
    if |payload| > datagram.Length {
      return true;
    }
    var text := c.seal(nonce, HeaderBytes(p), payload);
    if |text| > datagram.Length {
      return true;
    }
    var frame := HeaderBytes(p) + EncodeVarint(|text|) + text;
    if |frame| > datagram.Length {
      return true;
    }
    forall i | 0 <= i < |frame| {
      datagram[i] := frame[i];
    }
    panicked := false;
  }

  datatype FromDatagramError = CannotParseDataFrame | CannotParseHeader | FilterDoesNotMatch | CannotDecrypt

  datatype Opened = Ok(header: Header, payload: seq<byte>) | Err(error: FromDatagramError)

  datatype DataFrame = DataFrame(header: Packed, encryptedPayload: seq<byte>)

  function DecodeFrame(datagram: seq<byte>): (parsed: Parsed<DataFrame>)
    ensures parsed.Got? ==> |parsed.value.encryptedPayload| <= |datagram|
  {
    if |datagram| < 4 then Fail
    else
      match DecodeU64(datagram[4..])
      case Fail => Fail
      case Got(n, rest) =>
        DecodeLeavesSuffix(datagram[4..], 10, 0x01);
        if n > |rest| then Fail else Got(DataFrame(PackedOf(datagram), rest[..n]), rest[n..])
  }

  lemma {:induction false} DecodeLeavesSuffix(bytes: seq<byte>, left: nat, lastMax: byte)
    requires lastMax < 0x80
    ensures var parsed := DecodeVarint(bytes, left, lastMax);
            parsed.Got? ==> |parsed.rest| < |bytes|
  {
    if left > 0 && bytes != [] && bytes[0] >= 0x80 {
      DecodeLeavesSuffix(bytes[1..], left - 1, lastMax);
    }
  }

  /** The vector that receives the sealed payload has the datagram's capacity; a copy that
      does not fit would leave it empty, and the program ignores that error. */
  function CopyIgnoringError(bytes: seq<byte>, capacity: nat): seq<byte> {
    if |bytes| <= capacity then bytes else []
  }

  function FromDatagram(datagram: seq<byte>, filter: Header -> bool, c: Cipher): Opened {
    match DecodeFrame(datagram)
    case Fail => Err(CannotParseDataFrame)
    case Got(frame, _) =>
      match Parse(frame.header)
      case None => Err(CannotParseHeader)
      case Some(header) =>
        if !filter(header) then Err(FilterDoesNotMatch)
        else
          var nonce := NewNonce(frame.header, Max(|frame.encryptedPayload|, MIC_SIZE) - MIC_SIZE);
          var text := CopyIgnoringError(frame.encryptedPayload, |datagram|);
          match c.open(nonce, HeaderBytes(frame.header), text)
          case None => Err(CannotDecrypt)
          case Some(payload) => Ok(header, payload)
  }

  lemma IgnoredErrorNeverOccurs(datagram: seq<byte>)
    ensures var parsed := DecodeFrame(datagram);
            parsed.Got? ==>
              CopyIgnoringError(parsed.value.encryptedPayload, |datagram|) == parsed.value.encryptedPayload
  {
  }

  lemma FrameDecodes(c: Cipher, h: Header, payload: seq<byte>, buffer: seq<byte>)
    requires Sound(c) && |FrameBytes(c, h, payload)| <= |buffer| < U64_SIZE
    ensures DecodeFrame(Overwritten(FrameBytes(c, h, payload), buffer)) ==
            Got(DataFrame(ToPacked(h), Sealed(c, h, payload)), buffer[|FrameBytes(c, h, payload)|..])
  {
    var p, text := ToPacked(h), Sealed(c, h, payload);
    var tail := buffer[|FrameBytes(c, h, payload)|..];
    var bytes := Overwritten(FrameBytes(c, h, payload), buffer);
    assert bytes == HeaderBytes(p) + (EncodeVarint(|text|) + (text + tail));
    PackedBytes(p, EncodeVarint(|text|) + (text + tail));
    assert bytes[4..] == EncodeVarint(|text|) + (text + tail);
    Limits();
    VarintRoundTrip(|text|, 10, 0x01, text + tail);
    assert (text + tail)[..|text|] == text && (text + tail)[|text|..] == tail;
  }

  /** Whatever the reused buffer held before: the receiver derives the sender's nonce and gets
      the payload back, with the header as packing leaves it, or its filter turns it away. */
  lemma DatagramRoundTrip(c: Cipher, h: Header, payload: seq<byte>, buffer: seq<byte>, filter: Header -> bool)
    requires Sound(c) && |FrameBytes(c, h, payload)| <= |buffer| < U64_SIZE
    ensures var h' := h.(version := 0, serverPort := h.serverPort & 0x07);
            FromDatagram(Overwritten(FrameBytes(c, h, payload), buffer), filter, c) ==
            if filter(h') then Ok(h', payload) else Err(FilterDoesNotMatch)
  {
    FrameDecodes(c, h, payload, buffer);
    ParseAfterPack(h);
  }

  /** The same frame is turned away by every cipher that refuses the sender's. */
  lemma DatagramRefused(
    c: Cipher, other: Cipher, h: Header, payload: seq<byte>, buffer: seq<byte>, filter: Header -> bool)
    requires Sound(c) && Refuses(other, c) && |FrameBytes(c, h, payload)| <= |buffer| < U64_SIZE
    ensures FromDatagram(Overwritten(FrameBytes(c, h, payload), buffer), filter, other).Err?
  {
    FrameDecodes(c, h, payload, buffer);
    ParseAfterPack(h);
  }

  /** A payload fits the packets of the discovery protocol exactly up to 33 bytes. */
  lemma PayloadFitsPacket(c: Cipher, h: Header, payload: seq<byte>)
    requires Sound(c) && |payload| < U32_SIZE - MIC_SIZE
    ensures |FrameBytes(c, h, payload)| <= MIN_PACKET_SIZE <==> |payload| <= MIN_PAYLOAD_SIZE + 1
  {
    VarintLength(|payload| + MIC_SIZE);
  }

  lemma ByteAsBv8(x: byte)
    ensures (x as bv8) as int == x
  {
    ByteIsBv8(ByteBits(x));
  }

  /** The first four bytes of a datagram are the header, and they are kept as they came. */
  lemma HeaderOf(datagram: seq<byte>)
    requires |datagram| >= 4
    ensures HeaderBytes(PackedOf(datagram)) == datagram[..4]
  {
    ByteAsBv8(datagram[0]);
    ByteAsBv8(datagram[1]);
    ByteAsBv8(datagram[2]);
    ByteAsBv8(datagram[3]);
  }

  /** The bytes of a frame with a payload short enough for a length of one byte: the header, the
      length with the integrity code, and the payload sealed under the nonce 01, header, payload
      length, 00, with the header as associated data. */
  lemma FrameLayout(c: Cipher, h: Header, payload: seq<byte>)
    requires Sound(c) && |payload| + MIC_SIZE < 0x80
    ensures var p := ToPacked(h);
            var header: seq<byte> := [p.0 as int, p.1 as int, p.2 as int, p.3 as int];
            var nonce: seq<byte> := [0x01, p.0 as int, p.1 as int, p.2 as int, p.3 as int, |payload|, 0x00];
            FrameBytes(c, h, payload) == header + [|payload| + 4] + c.seal(nonce, header, payload)
  {
    var p := ToPacked(h);
    assert NewNonce(p, |payload|) == [0x01, p.0 as int, p.1 as int, p.2 as int, p.3 as int, |payload|, 0x00];
  }

  /** What a receiver makes of any datagram whose fifth byte is a length: it opens what follows, under
      the nonce 01, first four bytes, length without the integrity code, 00, with those four bytes as
      associated data; the header is checked first, then the filter, then the cipher. */
  lemma OpenedAsLaidOut(datagram: seq<byte>, filter: Header -> bool, c: Cipher)
    requires |datagram| >= 5 && datagram[4] < 0x80
    ensures var n, header, parsed := datagram[4], datagram[..4], Parse(PackedOf(datagram));
            var nonce: seq<byte> := [0x01] + header + [Max(n, 4) - 4, 0x00];
            FromDatagram(datagram, filter, c) ==
            if 5 + n > |datagram| then Err(CannotParseDataFrame)
            else if parsed.None? then Err(CannotParseHeader)
            else if !filter(parsed.value) then Err(FilterDoesNotMatch)
            else
              match c.open(nonce, header, datagram[5..5 + n])
              case None => Err(CannotDecrypt)
              case Some(payload) => Ok(parsed.value, payload)
  {
    var n := datagram[4];
    HeaderOf(datagram);
    IgnoredErrorNeverOccurs(datagram);
    assert DecodeU64(datagram[4..]) == Got(n, datagram[5..]);
    if 5 + n <= |datagram| {
      assert datagram[5..][..n] == datagram[5..5 + n];
    }
  }
}

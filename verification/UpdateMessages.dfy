/** The two messages of a software update and their sizes on the wire. */
module UpdateMessages {
  import opened Types
  import opened Postcard
  import opened Version

  const UPDATE_BYTES_OVERHEAD := 4 + 1
  const UPDATE_BYTES_SIZE := MIN_PAYLOAD_SIZE - UPDATE_BYTES_OVERHEAD

  type Key = k: seq<byte> | |k| == 16 witness seq(16, _ => 0)

  // ---------------------------------------------------------------- prepare for update

  datatype PrepareForUpdate = PrepareForUpdate(
    version: Version, serverPorts: byte, updateKey: Key, updateByteLen: u32, signed: bool)

  function EncodePre(pre: Option<PreRelease>): seq<byte> {
    match pre
    case None => [0]
    case Some(Alpha(i)) => [1, 0, i]
    case Some(Beta(i)) => [1, 1, i]
  }

  function EncodePrepare(p: PrepareForUpdate): seq<byte> {
    [p.version.major, p.version.minor, p.version.patch] + (EncodePre(p.version.pre)
    + ([p.serverPorts] + (p.updateKey + (EncodeVarint(p.updateByteLen) + [if p.signed then 1 else 0]))))
  }

  function DecodePre(bytes: seq<byte>): Parsed<Option<PreRelease>> {
    if bytes == [] then Fail
    else if bytes[0] == 0 then Got(None, bytes[1..])
    else if bytes[0] != 1 then Fail
    else
      match DecodeU32(bytes[1..])
      case Fail => Fail
      case Got(tag, rest) =>
        if tag > 1 || rest == [] then Fail
        else Got(Some(if tag == 0 then Alpha(rest[0]) else Beta(rest[0])), rest[1..])
  }

  function DecodePrepare(bytes: seq<byte>): Option<PrepareForUpdate> {
    if |bytes| < 3 then None
    else
      match DecodePre(bytes[3..])
      case Fail => None
      case Got(pre, rest) =>
        if |rest| < 17 then None
        else
          match DecodeU32(rest[17..])
          case Fail => None
          case Got(len, rest') =>
            if rest' == [] || rest'[0] > 1 then None
            else Some(PrepareForUpdate(
                        Version(bytes[0], bytes[1], bytes[2], pre), rest[0], rest[1..17], len, rest'[0] == 1))
  }

  lemma PreRoundTrip(pre: Option<PreRelease>, tail: seq<byte>)
    ensures DecodePre(EncodePre(pre) + tail) == Got(pre, tail)
  {
    var bytes := EncodePre(pre) + tail;
    match pre {
      case None =>
      case Some(p) =>
        var tag := if p.Alpha? then 0 else 1;
        assert bytes[1..] == EncodeVarint(tag) + ([p.ident] + tail);
        Limits();
        VarintRoundTrip(tag, 5, 0x0F, [p.ident] + tail);
        assert ([p.ident] + tail)[1..] == tail;
    }
  }

  /** A prepare message decodes to itself. */
  lemma PrepareRoundTrip(p: PrepareForUpdate)
    ensures DecodePrepare(EncodePrepare(p)) == Some(p)
  {
    var signed: seq<byte> := [if p.signed then 1 else 0];
    var length := EncodeVarint(p.updateByteLen) + signed;
    var rest := [p.serverPorts] + (p.updateKey + length);
    assert EncodePrepare(p)[3..] == EncodePre(p.version.pre) + rest;
    PreRoundTrip(p.version.pre, rest);
    assert rest[17..] == length && rest[1..17] == p.updateKey;
    Limits();
    VarintRoundTrip(p.updateByteLen, 5, 0x0F, signed);
  }

  /** The bytes of a prepare message, in the order of its fields: three version numbers, 0 or else 1
      with 0 or 1 and the number of an alpha or a beta, ports, key, length, and 1 if signed. */
  lemma PrepareLayout(p: PrepareForUpdate)
    ensures var Version(major, minor, patch, pre) := p.version;
            var rest := p.updateKey + EncodeVarint(p.updateByteLen) + [if p.signed then 1 else 0];
            EncodePrepare(p) ==
            match pre
            case None => [major, minor, patch, 0, p.serverPorts] + rest
            case Some(Alpha(i)) => [major, minor, patch, 1, 0, i, p.serverPorts] + rest
            case Some(Beta(i)) => [major, minor, patch, 1, 1, i, p.serverPorts] + rest
  {
  }

  lemma PrepareFits(p: PrepareForUpdate)
    ensures |EncodePrepare(p)| <= 29 <= MIN_PAYLOAD_SIZE
  {
    VarintLength(p.updateByteLen);
  }

  // ---------------------------------------------------------------- update

  datatype Update = Update(byteOffset: u32, bytes: seq<byte>)

  function EncodeUpdate(u: Update): seq<byte> {
    EncodeVarint(u.byteOffset) + (EncodeVarint(|u.bytes|) + u.bytes)
  }

  /** A vector longer than the receiver's capacity is refused. */
  function DecodeUpdate(bytes: seq<byte>): Option<Update> {
    match DecodeU32(bytes)
    case Fail => None
    case Got(offset, rest) =>
      match DecodeU64(rest)
      case Fail => None
      case Got(n, rest') =>
        if n > |rest'| || n > UPDATE_BYTES_SIZE then None else Some(Update(offset, rest'[..n]))
  }

  /** An update message decodes to itself exactly when its bytes fit the receiver's vector. */
  lemma UpdateRoundTrip(u: Update)
    requires |u.bytes| < U64_SIZE
    ensures DecodeUpdate(EncodeUpdate(u)) == if |u.bytes| <= UPDATE_BYTES_SIZE then Some(u) else None
  {
    Limits();
    VarintRoundTrip(u.byteOffset, 5, 0x0F, EncodeVarint(|u.bytes|) + u.bytes);
    VarintRoundTrip(|u.bytes|, 10, 0x01, u.bytes);
    assert u.bytes[..|u.bytes|] == u.bytes;
  }

  /** The bytes of an update message: its offset, the number of its bytes, and the bytes. */
  lemma UpdateLayout(u: Update)
    requires |u.bytes| <= UPDATE_BYTES_SIZE
    ensures EncodeUpdate(u) == EncodeVarint(u.byteOffset) + [|u.bytes|] + u.bytes
  {
  }

  /** The size of an update message: its offset takes one to five bytes, its length one. */
  lemma UpdateSize(u: Update)
    requires |u.bytes| <= UPDATE_BYTES_SIZE
    ensures |EncodeUpdate(u)| == |EncodeVarint(u.byteOffset)| + 1 + |u.bytes|
    ensures |EncodeUpdate(u)| <= MIN_PAYLOAD_SIZE <==> u.byteOffset < 0x1000_0000 || |u.bytes| < UPDATE_BYTES_SIZE
    ensures u.byteOffset >= 0x1000_0000 && |u.bytes| == UPDATE_BYTES_SIZE ==> |EncodeUpdate(u)| == MIN_PAYLOAD_SIZE + 1
  {
    VarintLength(u.byteOffset);
  }
}

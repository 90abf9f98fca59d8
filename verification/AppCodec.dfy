/** Application messages on the wire, and the last field that may be absent. */
module AppCodec {
  import opened Types
  import opened Postcard
  import opened EventServer
  import opened EventClient

  // ---------------------------------------------------------------- the last field

  /** A message of a first field and an optional last one that is written without a
      presence tag: an absent last field contributes no byte. */
  datatype Message<F, L> = Message(first: F, last: Option<L>)

  function EncodeMessage<F, L>(f: Codec<F>, l: Codec<L>, m: Message<F, L>): seq<byte> {
    f.encode(m.first) + if m.last.Some? then l.encode(m.last.value) else []
  }

  /** Whatever goes wrong in the last field decodes as its absence. */
  function DecodeMessage<F, L>(f: Codec<F>, l: Codec<L>, bytes: seq<byte>): Option<Message<F, L>> {
    match f.decode(bytes)
    case Fail => None
    case Got(first, rest) =>
      match l.decode(rest)
      case Fail => Some(Message(first, None))
      case Got(last, _) => Some(Message(first, Some(last)))
  }

  ghost predicate RoundTrips<F(!new), L(!new)>(f: Codec<F>, l: Codec<L>) {
    forall m :: DecodeMessage(f, l, EncodeMessage(f, l, m)) == Some(m)
  }

  /** A truncated message either loses its first field, and is refused, or keeps it
      whole and decodes to it with no last field. */
  ghost predicate TruncatesSafely<F(!new), L(!new)>(f: Codec<F>, l: Codec<L>) {
    forall m, k :: 0 <= k < |EncodeMessage(f, l, m)| ==>
      DecodeMessage(f, l, EncodeMessage(f, l, m)[..k]) ==
      if k < |f.encode(m.first)| then None else Some(Message(m.first, None))
  }

  /** The untagged last field is sound exactly for types whose decoder refuses no input at all. */
  lemma RoundTripsExactlyWhen<F(!new), L(!new)>(f: Codec<F>, l: Codec<L>, anyFirst: F)
    requires Faithful(f) && Faithful(l)
    ensures RoundTrips(f, l) <==> l.decode([]) == Fail
  {
    if l.decode([]) == Fail {
      forall m ensures DecodeMessage(f, l, EncodeMessage(f, l, m)) == Some(m) {
        if m.last.Some? {
          assert l.encode(m.last.value) + [] == l.encode(m.last.value);
        }
      }
    } else {
      var m: Message<F, L> := Message(anyFirst, None);
      assert f.decode(EncodeMessage(f, l, m)) == Got(anyFirst, []);
    }
  }

  /** A truncation is never mistaken for another message, exactly for prefix-refusing types. */
  lemma TruncatesSafelyExactlyWhen<F(!new), L(!new)>(f: Codec<F>, l: Codec<L>, anyFirst: F)
    requires Faithful(f) && RefusesPrefixes(f)
    ensures TruncatesSafely(f, l) <==> RefusesPrefixes(l)
  {
    if RefusesPrefixes(l) {
      forall m, k | 0 <= k < |EncodeMessage(f, l, m)|
        ensures DecodeMessage(f, l, EncodeMessage(f, l, m)[..k]) ==
                if k < |f.encode(m.first)| then None else Some(Message(m.first, None))
      {
        TruncationDecodes(f, l, m, k);
      }
    }
    if TruncatesSafely(f, l) {
      forall y, j | 0 <= j < |l.encode(y)| ensures l.decode(l.encode(y)[..j]) == Fail {
        var m, k := Message(anyFirst, Some(y)), |f.encode(anyFirst)| + j;
        assert EncodeMessage(f, l, m)[..k] == f.encode(anyFirst) + l.encode(y)[..j];
        assert DecodeMessage(f, l, EncodeMessage(f, l, m)[..k]) == Some(Message(anyFirst, None));
      }
    }
  }

  lemma TruncationDecodes<F(!new), L(!new)>(f: Codec<F>, l: Codec<L>, m: Message<F, L>, k: nat)
    requires Faithful(f) && RefusesPrefixes(f) && RefusesPrefixes(l) && k < |EncodeMessage(f, l, m)|
    ensures DecodeMessage(f, l, EncodeMessage(f, l, m)[..k]) ==
            if k < |f.encode(m.first)| then None else Some(Message(m.first, None))
  {
    var bytes, n := EncodeMessage(f, l, m)[..k], |f.encode(m.first)|;
    if k < n {
      assert bytes == f.encode(m.first)[..k];
    } else {
      assert m.last.Some?;
      assert bytes == f.encode(m.first) + l.encode(m.last.value)[..k - n];
    }
  }

  // ---------------------------------------------------------------- requests

  function EncodeOffset(o: Option<u32>): seq<byte> {
    match o
    case None => [0]
    case Some(x) => [1] + EncodeVarint(x)
  }

  function DecodeOffset(bytes: seq<byte>): Parsed<Option<u32>> {
    if bytes == [] then Fail
    else if bytes[0] == 0 then Got(None, bytes[1..])
    else if bytes[0] == 1 then
      match DecodeU32(bytes[1..])
      case Fail => Fail
      case Got(x, rest) => Got(Some(x), rest)
    else Fail
  }

  const OFFSET_CODEC: Codec<Option<u32>> := Codec(EncodeOffset, DecodeOffset)

  lemma OffsetCodec()
    ensures Faithful(OFFSET_CODEC) && RefusesPrefixes(OFFSET_CODEC)
  {
    IntegerCodecs();
    forall o: Option<u32>, tail ensures DecodeOffset(EncodeOffset(o) + tail) == Got(o, tail) {
      assert (EncodeOffset(o) + tail)[1..] == EncodeOffset(o)[1..] + tail;
      if o.Some? {
        assert U32_CODEC.decode(U32_CODEC.encode(o.value) + tail) == Got(o.value, tail);
      }
    }
    forall o: Option<u32>, k | 0 <= k < |EncodeOffset(o)| ensures DecodeOffset(EncodeOffset(o)[..k]) == Fail {
      if k > 0 {
        assert EncodeOffset(o)[..k][1..] == U32_CODEC.encode(o.value)[..k - 1];
      }
    }
  }

  // ---------------------------------------------------------------- replies

  function EncodeEventOf<E, EE>(e: Codec<E>, ee: Codec<EE>, event: EventOf<E, EE>): seq<byte> {
    match event
    case Logged(x, offset) => [0] + (e.encode(x) + EncodeVarint(offset))
    case Ephemeral(x) => [1] + ee.encode(x)
    case Recovery(start, end) => [2] + (EncodeVarint(start) + EncodeVarint(end))
  }

  function DecodeEventOf<E, EE>(e: Codec<E>, ee: Codec<EE>, bytes: seq<byte>): Parsed<EventOf<E, EE>> {
    match DecodeU32(bytes)
    case Fail => Fail
    case Got(tag, rest) =>
      if tag == 0 then
        match DecodePair(e, U32_CODEC, rest)
        case Fail => Fail
        case Got(v, rest') => Got(Logged(v.0, v.1), rest')
      else if tag == 1 then
        match ee.decode(rest)
        case Fail => Fail
        case Got(v, rest') => Got(Ephemeral(v), rest')
      else if tag == 2 then
        match DecodePair(U32_CODEC, U32_CODEC, rest)
        case Fail => Fail
        case Got(v, rest') => Got(Recovery(v.0, v.1), rest')
      else Fail
  }

  function EventOfCodec<E, EE>(e: Codec<E>, ee: Codec<EE>): Codec<EventOf<E, EE>> {
    Codec(event => EncodeEventOf(e, ee, event), bytes => DecodeEventOf(e, ee, bytes))
  }

  lemma EventOfRoundTrip<E(!new), EE(!new)>(e: Codec<E>, ee: Codec<EE>, event: EventOf<E, EE>, tail: seq<byte>)
    requires Faithful(e) && Faithful(ee)
    ensures DecodeEventOf(e, ee, EncodeEventOf(e, ee, event) + tail) == Got(event, tail)
  {
    IntegerCodecs();
    var bytes := EncodeEventOf(e, ee, event) + tail;
    assert bytes[1..] == EncodeEventOf(e, ee, event)[1..] + tail;
    match event {
      case Logged(x, offset) => PairRoundTrip(e, U32_CODEC, x, offset, tail);
      case Ephemeral(x) =>
      case Recovery(start, end) => PairRoundTrip(U32_CODEC, U32_CODEC, start, end, tail);
    }
  }

  /** The tag is a byte of its own, and the fields are decoded from what follows it. */
  lemma TagThenFields<E, EE>(e: Codec<E>, ee: Codec<EE>, tag: byte, rest: seq<byte>)
    requires tag < 3
    ensures var fail := match tag
                        case 0 => DecodePair(e, U32_CODEC, rest).Fail?
                        case 1 => ee.decode(rest).Fail?
                        case _ => DecodePair(U32_CODEC, U32_CODEC, rest).Fail?;
            DecodeEventOf(e, ee, [tag] + rest).Fail? <==> fail
  {
    assert ([tag] + rest)[1..] == rest;
    assert DecodeU32([tag] + rest) == Got(tag, rest);
  }

  lemma WithOffsetRefused<A(!new)>(a: Codec<A>, x: A, offset: u32, k: nat)
    requires Faithful(a) && RefusesPrefixes(a) && k < |a.encode(x) + EncodeVarint(offset)|
    ensures DecodePair(a, U32_CODEC, (a.encode(x) + EncodeVarint(offset))[..k]) == Fail
  {
    IntegerCodecs();
    PairPrefixRefused(a, U32_CODEC, x, offset, k);
  }

  lemma RecoveryRefused(start: u32, end: u32, k: nat)
    requires k < |EncodeVarint(start) + EncodeVarint(end)|
    ensures DecodePair(U32_CODEC, U32_CODEC, (EncodeVarint(start) + EncodeVarint(end))[..k]) == Fail
  {
    IntegerCodecs();
    WithOffsetRefused(U32_CODEC, start, end, k);
  }

  lemma EventOfPrefixRefused<E(!new), EE(!new)>(e: Codec<E>, ee: Codec<EE>, event: EventOf<E, EE>, k: nat)
    requires Faithful(e) && RefusesPrefixes(e) && RefusesPrefixes(ee)
    requires k < |EncodeEventOf(e, ee, event)|
    ensures DecodeEventOf(e, ee, EncodeEventOf(e, ee, event)[..k]) == Fail
  {
    var bytes := EncodeEventOf(e, ee, event);
    if k > 0 {
      var tag, rest := bytes[0], bytes[1..][..k - 1];
      assert bytes[..k] == [tag] + rest;
      TagThenFields(e, ee, tag, rest);
      match event {
        case Logged(x, offset) =>
          assert bytes[1..] == e.encode(x) + EncodeVarint(offset);
          WithOffsetRefused(e, x, offset, k - 1);
        case Ephemeral(x) =>
          assert bytes[1..] == ee.encode(x);
        case Recovery(start, end) =>
          assert bytes[1..] == EncodeVarint(start) + EncodeVarint(end);
          RecoveryRefused(start, end, k - 1);
      }
    }
  }

  /** Requests and replies of every application round trip and truncate safely, provided its
      commands and events do and no command is encoded as no byte at all. */
  lemma RequestsAndRepliesRoundTrip<C(!new), E(!new), EE(!new)>(c: Codec<C>, e: Codec<E>, ee: Codec<EE>)
    requires Faithful(c) && RefusesPrefixes(c) && c.decode([]) == Fail
    requires Faithful(e) && RefusesPrefixes(e) && Faithful(ee) && RefusesPrefixes(ee)
    ensures RoundTrips(OFFSET_CODEC, c) && TruncatesSafely(OFFSET_CODEC, c)
    ensures RoundTrips(U64_CODEC, EventOfCodec(e, ee)) && TruncatesSafely(U64_CODEC, EventOfCodec(e, ee))
  {
    IntegerCodecs();
    OffsetCodec();
    var l := EventOfCodec(e, ee);
    forall x, tail ensures l.decode(l.encode(x) + tail) == Got(x, tail) {
      EventOfRoundTrip(e, ee, x, tail);
    }
    forall x, k | 0 <= k < |l.encode(x)| ensures l.decode(l.encode(x)[..k]) == Fail {
      EventOfPrefixRefused(e, ee, x, k);
    }
    RoundTripsExactlyWhen(OFFSET_CODEC, c, None);
    TruncatesSafelyExactlyWhen(OFFSET_CODEC, c, None);
    RoundTripsExactlyWhen(U64_CODEC, l, 0);
    TruncatesSafelyExactlyWhen(U64_CODEC, l, 0);
  }

  /** The bytes of a request: 0 or 1 for the offset, the offset if there is one, then the command's
      own bytes if there is one. */
  lemma RequestLayout<C>(c: Codec<C>, offset: u32, command: C)
    ensures EncodeMessage(OFFSET_CODEC, c, Message(None, None)) == [0]
    ensures EncodeMessage(OFFSET_CODEC, c, Message(Some(offset), None)) == [1] + EncodeVarint(offset)
    ensures EncodeMessage(OFFSET_CODEC, c, Message(None, Some(command))) == [0] + c.encode(command)
    ensures c.encode(command) == [2] ==>
              EncodeMessage(OFFSET_CODEC, c, Message(Some(9), Some(command))) == [1, 9, 2]
  {
    assert EncodeOffset(Some(9)) == [1, 9];
  }

  /** The bytes of a reply: the ticks, then 0 and an event and its offset, or 1 and an ephemeral
      event, or 2 and the first and last offset of a recovery, or nothing. */
  lemma ReplyLayout<E, EE>(e: Codec<E>, ee: Codec<EE>, ticks: u64, reply: Option<EventOf<E, EE>>)
    ensures EncodeMessage(U64_CODEC, EventOfCodec(e, ee), Message(ticks, reply)) ==
            EncodeVarint(ticks) +
            match reply
            case None => []
            case Some(Logged(x, offset)) => [0] + e.encode(x) + EncodeVarint(offset)
            case Some(Ephemeral(x)) => [1] + ee.encode(x)
            case Some(Recovery(start, end)) => [2] + EncodeVarint(start) + EncodeVarint(end)
  {
    match reply {
      case None =>
      case Some(event) => EventLayout(e, ee, event);
    }
  }

  lemma EventLayout<E, EE>(e: Codec<E>, ee: Codec<EE>, event: EventOf<E, EE>)
    ensures EncodeEventOf(e, ee, event) ==
            match event
            case Logged(x, offset) => [0] + e.encode(x) + EncodeVarint(offset)
            case Ephemeral(x) => [1] + ee.encode(x)
            case Recovery(start, end) => [2] + EncodeVarint(start) + EncodeVarint(end)
  {
  }

  /** An event of one byte, logged, in ten ticks. */
  lemma SmallReply<E, EE>(e: Codec<E>, ee: Codec<EE>, event: E)
    requires e.encode(event) == [1]
    ensures EncodeMessage(U64_CODEC, EventOfCodec(e, ee), Message(10, Some(Logged(event, 9)))) == [10, 0, 1, 9]
  {
    ReplyLayout(e, ee, 10, Some(Logged(event, 9)));
  }

  /** A first byte that tags nothing is refused, whatever follows it. */
  lemma UnknownTagsRefused<E, EE>(e: Codec<E>, ee: Codec<EE>, tag: byte, rest: seq<byte>)
    ensures tag > 1 ==> DecodeOffset([tag] + rest) == Fail
    ensures 2 < tag < 0x80 ==> DecodeEventOf(e, ee, [tag] + rest) == Fail
  {
    assert tag < 0x80 ==> DecodeU32([tag] + rest) == Got(tag, ([tag] + rest)[1..]);
  }

  // ---------------------------------------------------------------- the exchange over bytes

  const MAX_DATAGRAM_SIZE := 32

  datatype Command = SomeCommand
  datatype Event = SomeEvent

  function DecodeSingleton<T>(bytes: seq<byte>, x: T): Parsed<T> {
    match DecodeU32(bytes)
    case Fail => Fail
    case Got(tag, rest) => if tag == 0 then Got(x, rest) else Fail
  }

  lemma SingletonRoundTrip<T>(x: T, tail: seq<byte>)
    ensures DecodeSingleton([0] + tail, x) == Got(x, tail)
  {
    assert ([0] + tail)[1..] == tail;
  }

  const COMMAND_CODEC: Codec<Command> := Codec((c: Command) => [0], bytes => DecodeSingleton(bytes, SomeCommand))
  const EVENT_CODEC: Codec<Event> := Codec((e: Event) => [0], bytes => DecodeSingleton(bytes, SomeEvent))
  const NO_EE_CODEC: Codec<NoEE> := Codec((e: NoEE) => [], bytes => Got((), bytes))

  lemma ExampleCodecs()
    ensures Faithful(COMMAND_CODEC) && RefusesPrefixes(COMMAND_CODEC) && COMMAND_CODEC.decode([]) == Fail
    ensures Faithful(EVENT_CODEC) && RefusesPrefixes(EVENT_CODEC)
    ensures Faithful(NO_EE_CODEC) && RefusesPrefixes(NO_EE_CODEC)
  {
    forall c: Command, tail ensures COMMAND_CODEC.decode(COMMAND_CODEC.encode(c) + tail) == Got(c, tail) {
      SingletonRoundTrip(SomeCommand, tail);
      assert c == SomeCommand;
    }
    forall e: Event, tail ensures EVENT_CODEC.decode(EVENT_CODEC.encode(e) + tail) == Got(e, tail) {
      SingletonRoundTrip(SomeEvent, tail);
      assert e == SomeEvent;
    }
    forall e: NoEE, tail ensures NO_EE_CODEC.decode(NO_EE_CODEC.encode(e) + tail) == Got(e, tail) {
      assert [] + tail == tail;
      assert e == ();
    }
  }

  function EncodeRequest(last: Option<u32>, command: Option<Command>): seq<byte> {
    EncodeMessage(OFFSET_CODEC, COMMAND_CODEC, Message(last, command))
  }

  function EncodeReply(deltaTicks: u64, reply: Reply<Event>): seq<byte> {
    EncodeMessage(U64_CODEC, EventOfCodec(EVENT_CODEC, NO_EE_CODEC), Message(deltaTicks, reply))
  }

  /** One exchange in bytes: the request as the server decodes it and the reply as the client
      decodes it.  A message that does not decode is ignored, as if it had been lost. */
  function WireExchange(
    s: Epoch<Event>, capacity: nat, c: Client, command: Option<Command>, deltaTicks: u64): Client
    requires capacity >= 1
  {
    match DecodeMessage(OFFSET_CODEC, COMMAND_CODEC, EncodeRequest(c.last, command))
    case None => c
    case Some(request) =>
      var sent := EncodeReply(deltaTicks, Answer(s, capacity, request.first));
      match DecodeMessage(U64_CODEC, EventOfCodec(EVENT_CODEC, NO_EE_CODEC), sent)
      case None => c
      case Some(reply) => Received(c, reply.last)
  }

  /** Every request and reply fits the example's buffers, so encoding cannot fail. */
  lemma MessagesFitDatagram(last: Option<u32>, command: Option<Command>, deltaTicks: u64, reply: Reply<Event>)
    ensures |EncodeRequest(last, command)| <= MAX_DATAGRAM_SIZE
    ensures |EncodeReply(deltaTicks, reply)| <= MAX_DATAGRAM_SIZE
  {
    Limits();
    VarintMaxLength(deltaTicks, 10, 0x01);
    forall x: u32 ensures |EncodeVarint(x)| <= 5 {
      VarintMaxLength(x, 5, 0x0F);
    }
  }

  /** The wire carries the exchange unchanged, so what holds of runs holds of runs over bytes. */
  lemma WireExchangeIsExchange(
    s: Epoch<Event>, capacity: nat, c: Client, command: Option<Command>, deltaTicks: u64)
    requires capacity >= 1
    ensures WireExchange(s, capacity, c, command, deltaTicks) == Received(c, Answer(s, capacity, c.last))
  {
    ExampleCodecs();
    RequestsAndRepliesRoundTrip(COMMAND_CODEC, EVENT_CODEC, NO_EE_CODEC);
    var request, reply := Message(c.last, command), Message(deltaTicks, Answer(s, capacity, c.last));
    assert DecodeMessage(OFFSET_CODEC, COMMAND_CODEC, EncodeMessage(OFFSET_CODEC, COMMAND_CODEC, request)) ==
           Some(request);
    var l := EventOfCodec(EVENT_CODEC, NO_EE_CODEC);
    assert DecodeMessage(U64_CODEC, l, EncodeMessage(U64_CODEC, l, reply)) == Some(reply);
  }
}

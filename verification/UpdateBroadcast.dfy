/** The client's broadcast of an image: the loop that cuts it into chunks, pausing for
    longer whenever the servers may be writing a block of 4096 bytes.

    The chunks have a closed form: a full block is 151 chunks of 27 bytes and one of 19,
    so where chunk `i` starts follows from `i` alone.  The loop is proved to send exactly
    these chunks. */
module UpdateBroadcast {
  import opened Types
  import opened Postcard
  import opened Frame
  import opened FrameCounter
  import opened UpdateMessages

  const BLOCK := 4096
  const CHUNKS_PER_BLOCK := 152

  // ---------------------------------------------------------------- the chunks

  function ChunkStart(i: nat): nat {
    i / CHUNKS_PER_BLOCK * BLOCK + i % CHUNKS_PER_BLOCK * UPDATE_BYTES_SIZE
  }

  function ChunkEnd(i: nat, len: nat): nat {
    Min(ChunkStart(i + 1), len)
  }

  /** How many chunks an image of the given length has. */
  function ChunkCount(len: nat): nat {
    len / BLOCK * CHUNKS_PER_BLOCK + (len % BLOCK + 26) / 27
  }

  /** A chunk is at most 27 bytes long and ends no later than its block. */
  lemma ChunkWidth(i: nat)
    ensures ChunkStart(i) < ChunkStart(i + 1) <= ChunkStart(i) + UPDATE_BYTES_SIZE
    ensures ChunkStart(i) / BLOCK == i / CHUNKS_PER_BLOCK
    ensures ChunkStart(i + 1) == if i % CHUNKS_PER_BLOCK == CHUNKS_PER_BLOCK - 1
                                 then (i / CHUNKS_PER_BLOCK + 1) * BLOCK
                                 else ChunkStart(i) + UPDATE_BYTES_SIZE
    ensures ChunkStart(i + 1) <= (i / CHUNKS_PER_BLOCK + 1) * BLOCK
  {
    var q, r := i / CHUNKS_PER_BLOCK, i % CHUNKS_PER_BLOCK;
    assert i == q * CHUNKS_PER_BLOCK + r;
    if r == CHUNKS_PER_BLOCK - 1 {
      assert i + 1 == (q + 1) * CHUNKS_PER_BLOCK;
      assert (i + 1) / CHUNKS_PER_BLOCK == q + 1 && (i + 1) % CHUNKS_PER_BLOCK == 0;
    } else {
      assert (i + 1) / CHUNKS_PER_BLOCK == q && (i + 1) % CHUNKS_PER_BLOCK == r + 1;
    }
  }

  lemma {:induction false} ChunkStartsGrow(i: nat, j: nat)
    requires i < j
    ensures ChunkStart(i) < ChunkStart(j)
  {
    ChunkWidth(j - 1);
    if i < j - 1 {
      ChunkStartsGrow(i, j - 1);
    }
  }

  /** The count is right: exactly the chunks below it start inside the image. */
  lemma ChunkCountExact(i: nat, len: nat)
    ensures i < ChunkCount(len) <==> ChunkStart(i) < len
  {
    var q, r := len / BLOCK, len % BLOCK;
    var a, b := i / CHUNKS_PER_BLOCK, i % CHUNKS_PER_BLOCK;
    assert len == q * BLOCK + r && i == a * CHUNKS_PER_BLOCK + b;
    if a < q {
      assert (a + 1) * BLOCK <= q * BLOCK && (a + 1) * CHUNKS_PER_BLOCK <= q * CHUNKS_PER_BLOCK;
    } else if a > q {
      assert (q + 1) * BLOCK <= a * BLOCK && (q + 1) * CHUNKS_PER_BLOCK <= a * CHUNKS_PER_BLOCK;
    }
  }

  /** Every chunk of an image is non-empty, at most 27 bytes, and inside one block; the next
      starts where it ends, and the last one ends the image. */
  lemma ChunkShape(i: nat, len: nat)
    requires i < ChunkCount(len)
    ensures ChunkStart(i) < ChunkEnd(i, len) <= Min(len, ChunkStart(i) + UPDATE_BYTES_SIZE)
    ensures (ChunkEnd(i, len) - 1) / BLOCK == ChunkStart(i) / BLOCK
    ensures if i + 1 < ChunkCount(len) then ChunkEnd(i, len) == ChunkStart(i + 1) else ChunkEnd(i, len) == len
  {
    ChunkWidth(i);
    ChunkCountExact(i, len);
    ChunkCountExact(i + 1, len);
    var q := i / CHUNKS_PER_BLOCK;
    assert q * BLOCK <= ChunkStart(i) <= ChunkEnd(i, len) - 1 < (q + 1) * BLOCK;
  }

  /** The first `k` chunks, one after another. */
  function Joined(image: seq<byte>, k: nat): seq<byte>
    requires k <= ChunkCount(|image|)
  {
    if k == 0 then []
    else
      ChunkShape(k - 1, |image|);
      Joined(image, k - 1) + image[ChunkStart(k - 1)..ChunkEnd(k - 1, |image|)]
  }

  lemma SplitAt(image: seq<byte>, from: nat, to: nat)
    requires from <= to <= |image|
    ensures image[..from] + image[from..to] == image[..to]
  {
  }

  lemma {:induction false} JoinedPrefix(image: seq<byte>, k: nat)
    requires k <= ChunkCount(|image|)
    ensures Joined(image, k) == image[..Min(ChunkStart(k), |image|)]
  {
    if k > 0 {
      JoinedPrefix(image, k - 1);
      ChunkShape(k - 1, |image|);
      SplitAt(image, ChunkStart(k - 1), ChunkEnd(k - 1, |image|));
    }
  }

  /** The chunks, joined, are the image. */
  lemma ChunksJoinToImage(image: seq<byte>)
    ensures Joined(image, ChunkCount(|image|)) == image
  {
    JoinedPrefix(image, ChunkCount(|image|));
    ChunkCountExact(ChunkCount(|image|), |image|);
  }

  // ---------------------------------------------------------------- the loop

  datatype Sent = Sent(frameCounter: u16, update: Update, longPause: bool)

  /** How the broadcast ended: all chunks sent, nobody listening, or a panic because a chunk
      does not fit its payload. */
  datatype Ending = Completed | NoReceivers | Panicked

  function ChunkUpdate(image: seq<byte>, i: nat): (u: Update)
    requires |image| < U32_SIZE && i < ChunkCount(|image|)
    ensures 1 <= |u.bytes| <= UPDATE_BYTES_SIZE && u.byteOffset == ChunkStart(i)
    ensures |u.bytes| == ChunkEnd(i, |image|) - ChunkStart(i)
  {
    ChunkShape(i, |image|);
    Update(ChunkStart(i), image[ChunkStart(i)..ChunkEnd(i, |image|)])
  }

  /** A long pause follows the last chunk of a block and the last of the image. */
  predicate LongPause(i: nat, len: nat) {
    i % CHUNKS_PER_BLOCK == CHUNKS_PER_BLOCK - 1 || i + 1 == ChunkCount(len)
  }

  predicate Encodable(image: seq<byte>, i: nat)
    requires |image| < U32_SIZE && i < ChunkCount(|image|)
  {
    |EncodeUpdate(ChunkUpdate(image, i))| <= MIN_PAYLOAD_SIZE
  }

  function PacketOf(image: seq<byte>, frameCounter: u16, i: nat): Sent
    requires |image| < U32_SIZE && i < ChunkCount(|image|)
  {
    Sent(CounterAt(frameCounter, i), ChunkUpdate(image, i), LongPause(i, |image|))
  }

  /** The loop's two moving offsets when `k` chunks have been sent. */
  ghost predicate AtChunk(k: nat, offset: int, threshold: int, len: nat) {
    && k <= ChunkCount(len)
    && offset == Min(ChunkStart(k), len)
    && (k < ChunkCount(len) <==> offset < len)
    && (k < ChunkCount(len) ==> threshold == Min((k / CHUNKS_PER_BLOCK + 1) * BLOCK, len))
  }

  lemma StartsAtChunkZero(len: nat)
    ensures AtChunk(0, 0, Min(BLOCK, len), len)
  {
    ChunkCountExact(0, len);
  }

  /** One turn of the loop moves on by exactly one chunk. */
  lemma LoopTurn(k: nat, offset: int, threshold: int, len: nat)
    requires AtChunk(k, offset, threshold, len) && offset < len
    ensures var to := Min(offset + UPDATE_BYTES_SIZE, threshold);
            && offset == ChunkStart(k) && to == ChunkEnd(k, len)
            && (to == threshold <==> LongPause(k, len))
            && AtChunk(k + 1, to, if to == threshold then Min(threshold + BLOCK, len) else threshold, len)
  {
    ChunkWidth(k);
    ChunkShape(k, len);
    ChunkCountExact(k, len);
    ChunkCountExact(k + 1, len);
    var q := k / CHUNKS_PER_BLOCK;
    assert k % CHUNKS_PER_BLOCK == CHUNKS_PER_BLOCK - 1 ==> (k + 1) / CHUNKS_PER_BLOCK == q + 1;
    assert k % CHUNKS_PER_BLOCK < CHUNKS_PER_BLOCK - 1 ==> (k + 1) / CHUNKS_PER_BLOCK == q;
  }

  lemma TurnSendsChunk(image: seq<byte>, frameCounter: u16, k: nat, offset: int, threshold: int)
    requires |image| < U32_SIZE && AtChunk(k, offset, threshold, |image|) && offset < |image|
    ensures var to := Min(offset + UPDATE_BYTES_SIZE, threshold);
            && 0 <= offset <= to <= |image| && k < ChunkCount(|image|)
            && Sent(CounterAt(frameCounter, k), Update(offset, image[offset..to]), to == threshold) ==
               PacketOf(image, frameCounter, k)
            && (CounterAt(frameCounter, k) + 1) % U16_SIZE == CounterAt(frameCounter, k + 1)
            && AtChunk(k + 1, to, if to == threshold then Min(threshold + BLOCK, |image|) else threshold, |image|)
  {
    LoopTurn(k, offset, threshold, |image|);
    CounterStep(frameCounter, k);
    assert Update(offset, image[offset..ChunkEnd(k, |image|)]) == ChunkUpdate(image, k);
  }

  /** The packets are those of the first chunks, in order, and each could be encoded. */
  ghost predicate SentInOrder(image: seq<byte>, frameCounter: u16, sent: seq<Sent>)
    requires |image| < U32_SIZE
  {
    && |sent| <= ChunkCount(|image|)
    && forall i :: 0 <= i < |sent| ==> sent[i] == PacketOf(image, frameCounter, i) && Encodable(image, i)
  }

  lemma SentGrows(image: seq<byte>, frameCounter: u16, sent: seq<Sent>)
    requires |image| < U32_SIZE && SentInOrder(image, frameCounter, sent)
    requires |sent| < ChunkCount(|image|) && Encodable(image, |sent|)
    ensures SentInOrder(image, frameCounter, sent + [PacketOf(image, frameCounter, |sent|)])
  {
  }

  /** `receivers` is the number of sends that succeed before the channel has nobody left. */
  method UpdateServers(image: seq<byte>, frameCounter: u16, receivers: nat)
    returns (sent: seq<Sent>, ending: Ending, newFrameCounter: u16)
    requires |image| < U32_SIZE
    ensures SentInOrder(image, frameCounter, sent)
    ensures newFrameCounter == CounterAt(frameCounter, |sent|)
    ensures ending == if |sent| == ChunkCount(|image|) then Completed
                      else if Encodable(image, |sent|) then NoReceivers else Panicked
    ensures ending == NoReceivers ==> |sent| == receivers
  {
    var updateByteOffset := 0;
    var nextThreshold := Min(BLOCK, |image|);
    sent, newFrameCounter := [], frameCounter;
    StartsAtChunkZero(|image|);
    while updateByteOffset < |image|
      invariant AtChunk(|sent|, updateByteOffset, nextThreshold, |image|)
      invariant |sent| <= receivers
      invariant SentInOrder(image, frameCounter, sent)
      invariant newFrameCounter == CounterAt(frameCounter, |sent|)
      decreases ChunkCount(|image|) - |sent|
    {
      TurnSendsChunk(image, frameCounter, |sent|, updateByteOffset, nextThreshold);
      var toUpdateByteOffset := Min(updateByteOffset + UPDATE_BYTES_SIZE, nextThreshold);
      var update := Update(updateByteOffset, image[updateByteOffset..toUpdateByteOffset]);
      if |EncodeUpdate(update)| > MIN_PAYLOAD_SIZE {
        return sent, Panicked, newFrameCounter;
      }
      if |sent| == receivers {
        return sent, NoReceivers, newFrameCounter;
      }
      var longPause := toUpdateByteOffset == nextThreshold;
      if longPause {
        nextThreshold := Min(nextThreshold + BLOCK, |image|);
      }
      assert Encodable(image, |sent|);
      SentGrows(image, frameCounter, sent);
      sent := sent + [Sent(newFrameCounter, update, longPause)];
      newFrameCounter := (newFrameCounter + 1) % U16_SIZE;
      updateByteOffset := toUpdateByteOffset;
    }
    ending := Completed;
  }

  /** Where nobody leaves, the broadcast completes exactly for images of at most 2^28 + 26
      bytes: a full chunk beyond 2^28 needs 33 bytes of payload, and the program panics. */
  lemma BroadcastNeverPanicsExactlyWhen(image: seq<byte>)
    requires |image| < U32_SIZE
    ensures (forall i :: 0 <= i < ChunkCount(|image|) ==> Encodable(image, i)) <==> |image| <= 0x1000_0000 + 26
  {
    if |image| <= 0x1000_0000 + 26 {
      forall i | 0 <= i < ChunkCount(|image|) ensures Encodable(image, i) {
        UpdateSize(ChunkUpdate(image, i));
      }
    } else {
      var i := 0x1_0000 * CHUNKS_PER_BLOCK;
      assert ChunkStart(i) == 0x1000_0000 && ChunkStart(i + 1) == 0x1000_0000 + 27;
      ChunkCountExact(i, |image|);
      UpdateSize(ChunkUpdate(image, i));
      assert !Encodable(image, i);
    }
  }

  // ---------------------------------------------------------------- pauses

  lemma BlockRemainder(q: nat, r: nat)
    requires r < BLOCK
    ensures (q * BLOCK + r) % BLOCK == r
  {
  }

  /** The long pause follows a chunk exactly when it ends a block or the image. */
  lemma LongPauseExactlyWhen(i: nat, len: nat)
    requires i < ChunkCount(len)
    ensures LongPause(i, len) <==> ChunkEnd(i, len) % BLOCK == 0 || ChunkEnd(i, len) == len
  {
    ChunkShape(i, len);
    ChunkWidth(i);
    ChunkCountExact(i + 1, len);
    var q, r := i / CHUNKS_PER_BLOCK, i % CHUNKS_PER_BLOCK;
    if ChunkEnd(i, len) < len {
      if r < CHUNKS_PER_BLOCK - 1 {
        BlockRemainder(q, (r + 1) * UPDATE_BYTES_SIZE);
      } else {
        BlockRemainder(q + 1, 0);
      }
    }
  }

  /** Never more than a block is sent between one long pause and the next. */
  lemma {:induction false} AtMostOneBlockBetweenPauses(i: nat, j: nat, len: nat)
    requires i <= j < ChunkCount(len)
    requires forall k :: i <= k < j ==> !LongPause(k, len)
    ensures i / CHUNKS_PER_BLOCK == j / CHUNKS_PER_BLOCK
    ensures ChunkEnd(j, len) - ChunkStart(i) <= BLOCK
    decreases j
  {
    if i < j {
      AtMostOneBlockBetweenPauses(i, j - 1, len);
      assert !LongPause(j - 1, len);
    }
    ChunkWidth(j);
  }

  // ---------------------------------------------------------------- nonces

  function UpdateHeader(frameCounter: u16): Header {
    Header(0, Client, 0, 1, CounterBits(frameCounter))
  }

  function PayloadSize(image: seq<byte>, i: nat): nat
    requires |image| < U32_SIZE && i < ChunkCount(|image|)
  {
    |EncodeUpdate(ChunkUpdate(image, i))|
  }

  function PacketNonce(frameCounter: u16, payloadSize: nat): seq<byte> {
    NewNonce(ToPacked(UpdateHeader(frameCounter)), payloadSize)
  }

  lemma PacketNonceIsInjective(a: u16, n: nat, b: u16, m: nat)
    ensures PacketNonce(a, n) == PacketNonce(b, m) <==> a == b && n % 0x100 == m % 0x100
  {
    NonceIsInjective(ToPacked(UpdateHeader(a)), n, ToPacked(UpdateHeader(b)), m);
    PackIsInjective(UpdateHeader(a), UpdateHeader(b));
  }

  /** Two packets share a nonce exactly when the frame counter has gone round between them and
      their payloads are equally long. */
  lemma NoncesAgreeExactlyWhen(frameCounter: u16, i: nat, n: nat, j: nat, m: nat)
    requires i <= j && n < 0x100 && m < 0x100
    ensures PacketNonce(CounterAt(frameCounter, i), n) == PacketNonce(CounterAt(frameCounter, j), m) <==>
            (j - i) % U16_SIZE == 0 && n == m
  {
    CountersAgreeExactlyWhen(frameCounter, i, j);
    PacketNonceIsInjective(CounterAt(frameCounter, i), n, CounterAt(frameCounter, j), m);
  }

  function NonceOf(image: seq<byte>, frameCounter: u16, i: nat): seq<byte>
    requires |image| < U32_SIZE && i < ChunkCount(|image|)
  {
    PacketNonce(CounterAt(frameCounter, i), PayloadSize(image, i))
  }

  /** A payload is its offset in one to five bytes, a length byte and the chunk. */
  lemma PayloadSizeIs(image: seq<byte>, i: nat)
    requires |image| < U32_SIZE && i < ChunkCount(|image|)
    ensures PayloadSize(image, i) ==
            |EncodeVarint(ChunkStart(i))| + 1 + (ChunkEnd(i, |image|) - ChunkStart(i)) <= MIN_PAYLOAD_SIZE + 1
  {
    UpdateSize(ChunkUpdate(image, i));
    VarintLength(ChunkStart(i));
  }

  lemma PacketsAgreeExactlyWhen(image: seq<byte>, frameCounter: u16, i: nat, j: nat)
    requires |image| < U32_SIZE && i <= j < ChunkCount(|image|)
    ensures NonceOf(image, frameCounter, i) == NonceOf(image, frameCounter, j) <==>
            (j - i) % U16_SIZE == 0 && PayloadSize(image, i) == PayloadSize(image, j)
  {
    PayloadSizeIs(image, i);
    PayloadSizeIs(image, j);
    NoncesAgreeExactlyWhen(frameCounter, i, PayloadSize(image, i), j, PayloadSize(image, j));
  }

  /** The payload of a chunk in the first four blocks that is not the image's last. */
  lemma EarlyPayload(image: seq<byte>, i: nat)
    requires |image| < U32_SIZE && i + 1 < ChunkCount(|image|) && i < 608
    ensures PayloadSize(image, i) ==
            (if i < 5 then 2 else 3) + if i % CHUNKS_PER_BLOCK == CHUNKS_PER_BLOCK - 1 then 19 else 27
  {
    PayloadSizeIs(image, i);
    ChunkShape(i, |image|);
    ChunkWidth(i);
    EarlyStart(i);
    VarintLength(ChunkStart(i));
  }

  lemma EarlyStart(i: nat)
    requires i < 608
    ensures ChunkStart(i) < 0x4000 && (ChunkStart(i) < 0x80 <==> i < 5)
  {
  }

  /** The payload of a chunk one turn of the counter later. */
  lemma LatePayload(image: seq<byte>, j: nat)
    requires |image| < U32_SIZE && U16_SIZE <= j < ChunkCount(|image|) && j <= U16_SIZE + 608
    ensures PayloadSize(image, j) == 4 + (ChunkEnd(j, |image|) - ChunkStart(j))
  {
    PayloadSizeIs(image, j);
    assert 431 <= j / CHUNKS_PER_BLOCK <= 435;
    VarintLength(ChunkStart(j));
  }

  /** How wide the last chunk of an image must be for its payload to be as long as that of the
      chunk with the given index, 65536 packets before it. */
  function MatchingWidth(i: nat): nat {
    if i < 5 then 25
    else if i >= 608 then 27
    else if i % CHUNKS_PER_BLOCK == CHUNKS_PER_BLOCK - 1 then 18
    else 26
  }

  /** The lengths of images whose broadcast repeats a nonce: all from 1,782,435 bytes on, and below
      that those of more than 65536 chunks whose last chunk happens to have the matching width. */
  predicate LengthRepeatsNonce(len: nat) {
    len >= 1_782_435 ||
    (ChunkCount(len) > U16_SIZE &&
     len - ChunkStart(ChunkCount(len) - 1) == MatchingWidth(ChunkCount(len) - 1 - U16_SIZE))
  }

  ghost predicate RepeatsNonce(image: seq<byte>, frameCounter: u16)
    requires |image| < U32_SIZE
  {
    exists i, j :: 0 <= i < j < ChunkCount(|image|) &&
                   NonceOf(image, frameCounter, i) == NonceOf(image, frameCounter, j)
  }

  /** From 1,782,435 bytes on, the first chunk of the fifth block meets its like. */
  lemma LongImagesRepeat(image: seq<byte>, frameCounter: u16)
    requires 1_782_435 <= |image| < U32_SIZE
    ensures RepeatsNonce(image, frameCounter)
  {
    var i, j := 608, U16_SIZE + 608;
    assert ChunkStart(i) == 0x4000 && ChunkStart(i + 1) == 0x4000 + 27;
    assert ChunkStart(j) == 1_782_408 && ChunkStart(j + 1) == 1_782_435;
    ChunkCountExact(i, |image|);
    ChunkCountExact(j, |image|);
    PayloadSizeIs(image, i);
    PayloadSizeIs(image, j);
    VarintLength(0x4000);
    VarintLength(1_782_408);
    PacketsAgreeExactlyWhen(image, frameCounter, i, j);
    assert NonceOf(image, frameCounter, i) == NonceOf(image, frameCounter, j);
  }

  lemma CountBelow(len: nat)
    requires len < 1_782_435
    ensures ChunkCount(len) <= U16_SIZE + 609
  {
    assert ChunkStart(U16_SIZE + 609) == 1_782_435;
    ChunkCountExact(U16_SIZE + 609, len);
  }

  lemma EarlyPayloadMatches(image: seq<byte>, i: nat)
    requires |image| < U32_SIZE && i + 1 < ChunkCount(|image|) && i < 608
    ensures PayloadSize(image, i) == 4 + MatchingWidth(i)
  {
    EarlyPayload(image, i);
  }

  /** A chunk that is not the last has 27 bytes, or 19 at the end of a block. */
  lemma FullWidth(j: nat, len: nat)
    requires j + 1 < ChunkCount(len)
    ensures ChunkEnd(j, len) - ChunkStart(j) == if j % CHUNKS_PER_BLOCK == CHUNKS_PER_BLOCK - 1 then 19 else 27
  {
    ChunkShape(j, len);
    ChunkWidth(j);
  }

  /** A chunk of the first four blocks and one a turn of the counter later: only as the last chunk,
      cut to the matching width, does the later one have an equally long payload. */
  lemma EarlyMatchExactlyWhen(image: seq<byte>, i: nat)
    requires |image| < U32_SIZE && i + U16_SIZE < ChunkCount(|image|) && i < 608
    ensures PayloadSize(image, i) == PayloadSize(image, i + U16_SIZE) <==>
            ChunkEnd(i + U16_SIZE, |image|) - ChunkStart(i + U16_SIZE) == MatchingWidth(i)
    ensures MatchingWidth(i) == ChunkEnd(i + U16_SIZE, |image|) - ChunkStart(i + U16_SIZE) ==>
            i + U16_SIZE == ChunkCount(|image|) - 1
  {
    LatePayload(image, i + U16_SIZE);
    EarlyPayloadMatches(image, i);
    if i + U16_SIZE + 1 < ChunkCount(|image|) {
      FullWidth(i + U16_SIZE, |image|);
    }
  }

  /** The first chunk of the fifth block has a match only in a full chunk. */
  lemma FifthBlockPayload(image: seq<byte>)
    requires |image| < U32_SIZE && 609 < ChunkCount(|image|)
    ensures PayloadSize(image, 608) == 31
  {
    assert ChunkStart(608) == 0x4000 && ChunkStart(609) == 0x4000 + 27;
    PayloadSizeIs(image, 608);
    VarintLength(0x4000);
    ChunkShape(608, |image|);
  }

  lemma NoFullMatch(image: seq<byte>)
    requires |image| < 1_782_435 && U16_SIZE + 608 < ChunkCount(|image|)
    ensures PayloadSize(image, 608) != PayloadSize(image, U16_SIZE + 608)
    ensures |image| - ChunkStart(U16_SIZE + 608) < MatchingWidth(608)
  {
    FifthBlockPayload(image);
    LatePayload(image, U16_SIZE + 608);
    assert ChunkStart(U16_SIZE + 608) == 1_782_408;
  }

  /** Below that length only the last chunk can match the one 65536 packets before it. */
  lemma MatchExactlyWhen(image: seq<byte>, i: nat)
    requires |image| < 1_782_435 && i + U16_SIZE < ChunkCount(|image|)
    ensures i <= 608
    ensures PayloadSize(image, i) == PayloadSize(image, i + U16_SIZE) <==>
            i + U16_SIZE == ChunkCount(|image|) - 1 && |image| - ChunkStart(i + U16_SIZE) == MatchingWidth(i)
  {
    CountBelow(|image|);
    ChunkShape(i + U16_SIZE, |image|);
    if i < 608 {
      EarlyMatchExactlyWhen(image, i);
    } else {
      NoFullMatch(image);
    }
  }

  lemma OneTurnOfCounter(d: nat)
    requires 0 < d < 2 * U16_SIZE && d % U16_SIZE == 0
    ensures d == U16_SIZE
  {
  }

  lemma RepeatIsMatch(image: seq<byte>, frameCounter: u16, i: nat, j: nat)
    requires |image| < 1_782_435 && i < j < ChunkCount(|image|)
    ensures NonceOf(image, frameCounter, i) == NonceOf(image, frameCounter, j) ==> LengthRepeatsNonce(|image|)
  {
    CountBelow(|image|);
    PacketsAgreeExactlyWhen(image, frameCounter, i, j);
    if NonceOf(image, frameCounter, i) == NonceOf(image, frameCounter, j) {
      OneTurnOfCounter(j - i);
      MatchExactlyWhen(image, i);
    }
  }

  lemma MatchIsRepeat(image: seq<byte>, frameCounter: u16)
    requires |image| < 1_782_435 && LengthRepeatsNonce(|image|)
    ensures RepeatsNonce(image, frameCounter)
  {
    var j := ChunkCount(|image|) - 1;
    MatchExactlyWhen(image, j - U16_SIZE);
    PacketsAgreeExactlyWhen(image, frameCounter, j - U16_SIZE, j);
    assert NonceOf(image, frameCounter, j - U16_SIZE) == NonceOf(image, frameCounter, j);
  }

  /** A broadcast repeats a nonce exactly for these lengths, whatever the image and the counter. */
  lemma NonceRepeatsExactlyWhen(image: seq<byte>, frameCounter: u16)
    requires |image| < U32_SIZE
    ensures RepeatsNonce(image, frameCounter) <==> LengthRepeatsNonce(|image|)
  {
    if |image| >= 1_782_435 {
      LongImagesRepeat(image, frameCounter);
    } else if LengthRepeatsNonce(|image|) {
      MatchIsRepeat(image, frameCounter);
    } else if RepeatsNonce(image, frameCounter) {
      var i, j :| 0 <= i < j < ChunkCount(|image|) &&
                  NonceOf(image, frameCounter, i) == NonceOf(image, frameCounter, j);
      RepeatIsMatch(image, frameCounter, i, j);
    }
  }

  /** An image needs at most 65536 packets exactly up to 1,766,024 bytes, and then no nonce repeats. */
  lemma NoncesNeverRepeatWithinCounter(image: seq<byte>, frameCounter: u16)
    requires |image| < U32_SIZE
    ensures ChunkCount(|image|) <= U16_SIZE <==> |image| <= 1_766_024
    ensures |image| <= 1_766_024 ==> !RepeatsNonce(image, frameCounter)
  {
    assert ChunkStart(U16_SIZE) == 1_766_024;
    ChunkCountExact(U16_SIZE, |image|);
    NonceRepeatsExactlyWhen(image, frameCounter);
  }

  /** The shortest image that repeats one is 25 bytes longer. */
  lemma ShortestRepeat(image: seq<byte>, frameCounter: u16)
    requires 1_766_024 < |image| <= 1_766_049
    ensures RepeatsNonce(image, frameCounter) <==> |image| == 1_766_049
  {
    assert ChunkStart(U16_SIZE) == 1_766_024 && ChunkStart(U16_SIZE + 1) == 1_766_051;
    ChunkCountExact(U16_SIZE, |image|);
    ChunkCountExact(U16_SIZE + 1, |image|);
    NonceRepeatsExactlyWhen(image, frameCounter);
  }
}

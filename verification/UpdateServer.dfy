/** A server that receives update datagrams: it activates on a prepare message for a newer
    version, takes chunks strictly in order, and abandons the update at the first gap. */
module UpdateServer {
  import opened Types
  import opened Frame
  import opened Version
  import opened UpdateMessages
  import opened UpdateBroadcast

  /** The cipher of every key, this server's own key, and the version it runs. */
  datatype Config = Config(cipher: Key -> Cipher, networkKey: Key, currentVersion: Version)

  datatype UpdateInfo = UpdateInfo(key: Key, byteLen: nat, nextByteOffset: nat)

  predicate IsUpdateHeader(h: Header) {
    h.serverAddress == 0 && h.serverPort == 1 && h.source == Client
  }

  function OpenUpdate(c: Cipher, datagram: seq<byte>): Option<Update> {
    match FromDatagram(datagram, h => IsUpdateHeader(h), c)
    case Err(_) => None
    case Ok(_, payload) => DecodeUpdate(payload)
  }

  function OpenPrepare(c: Cipher, datagram: seq<byte>): Option<PrepareForUpdate> {
    match FromDatagram(datagram, h => IsUpdateHeader(h), c)
    case Err(_) => None
    case Ok(_, payload) => DecodePrepare(payload)
  }

  // ---------------------------------------------------------------- one datagram

  datatype Outcome = Abandoned | Finished | Flushed | Buffered

  function Progress(info: UpdateInfo, u: Update): UpdateInfo {
    info.(nextByteOffset := info.nextByteOffset + |u.bytes|)
  }

  /** What an update message does to an active update; both heavy outcomes flush the buffer. */
  function OutcomeOf(info: UpdateInfo, u: Update): Outcome {
    if u.byteOffset != info.nextByteOffset then Abandoned
    else if Progress(info, u).nextByteOffset == info.byteLen then Finished
    else if Progress(info, u).nextByteOffset % BLOCK == 0 then Flushed
    else Buffered
  }

  datatype Installed = Installed(key: Key, image: seq<byte>)

  /** The active update, the bytes taken since it was activated, and everything installed. */
  datatype State = State(active: Option<UpdateInfo>, taken: seq<byte>, installed: seq<Installed>)

  function Took(s: State, u: Update): State
    requires s.active.Some?
  {
    var info := s.active.value;
    match OutcomeOf(info, u)
    case Abandoned => s.(active := None, taken := [])
    case Finished => State(None, [], s.installed + [Installed(info.key, s.taken + u.bytes)])
    case _ => s.(active := Some(Progress(info, u)), taken := s.taken + u.bytes)
  }

  function Activated(s: State, p: PrepareForUpdate, currentVersion: Version): State {
    if Compare(p.version, currentVersion) == Greater
    then State(Some(UpdateInfo(p.updateKey, p.updateByteLen, 0)), [], s.installed)
    else s
  }

  function Stepped(cfg: Config, s: State, datagram: seq<byte>): State {
    var update := if s.active.Some? then OpenUpdate(cfg.cipher(s.active.value.key), datagram) else None;
    if update.Some? then Took(s, update.value)
    else
      var prepare := OpenPrepare(cfg.cipher(cfg.networkKey), datagram);
      if prepare.Some? then Activated(s, prepare.value, cfg.currentVersion) else s
  }

  class UpdateServer {
    const cfg: Config
    var active: Option<UpdateInfo>

    ghost var taken: seq<byte>
    ghost var installed: seq<Installed>

    ghost function View(): State
      reads this
    {
      State(active, taken, installed)
    }

    constructor (cfg: Config)
      ensures this.cfg == cfg && View() == State(None, [], [])
    {
      this.cfg := cfg;
      active, taken, installed := None, [], [];
    }

    /** Processes a message of the active update; true ends the update, done or abandoned. */
    method ProcessActiveUpdate(update: Update) returns (ended: bool, outcome: Outcome)
      requires active.Some?
      modifies this
      ensures outcome == OutcomeOf(old(active.value), update)
      ensures ended <==> outcome == Abandoned || outcome == Finished
      ensures active == Some(if outcome == Abandoned then old(active.value) else Progress(old(active.value), update))
      ensures taken == old(taken) + (if outcome == Abandoned then [] else update.bytes) && installed == old(installed)
    {
      if update.byteOffset != active.value.nextByteOffset {
        return true, Abandoned;
      }
      active := Some(active.value.(nextByteOffset := active.value.nextByteOffset + |update.bytes|));
      taken := taken + update.bytes;
      if active.value.nextByteOffset == active.value.byteLen {
        return true, Finished;
      } else if active.value.nextByteOffset % BLOCK == 0 {
        return false, Flushed;
      } else {
        return false, Buffered;
      }
    }

    /** One turn of the receive loop. */
    method Receive(datagram: seq<byte>)
      modifies this
      ensures View() == Stepped(cfg, old(View()), datagram)
    {
      var update := None;
      if active.Some? {
        update := OpenUpdate(cfg.cipher(active.value.key), datagram);
      }
      if update.Some? {
        var ended, outcome := ProcessActiveUpdate(update.value);
        if ended {
          if outcome == Finished {
            installed := installed + [Installed(active.value.key, taken)];
          }
          active, taken := None, [];
        }
      } else {
        var prepare := OpenPrepare(cfg.cipher(cfg.networkKey), datagram);
        if prepare.Some? && Compare(prepare.value.version, cfg.currentVersion) == Greater {
          active := Some(UpdateInfo(prepare.value.updateKey, prepare.value.updateByteLen, 0));
          taken := [];
        }
      }
    }
  }

  // ---------------------------------------------------------------- what the client sends

  /** The image behind each update key. */
  type Campaigns = map<Key, seq<byte>>

  /** A packet on the air.  `buffer` is what the client's reused datagram buffer held before,
      and noise is anything that no key in use opens. */
  datatype Packet =
    | Prepare(networkKey: Key, message: PrepareForUpdate, frameCounter: u16, buffer: seq<byte>)
    | ChunkOf(key: Key, index: nat, frameCounter: u16, buffer: seq<byte>)
    | Noise(bytes: seq<byte>)

  ghost predicate Describes(campaigns: Campaigns, p: PrepareForUpdate) {
    p.updateKey in campaigns && p.updateByteLen == |campaigns[p.updateKey]|
  }

  ghost predicate Genuine(cfg: Config, campaigns: Campaigns, keys: set<Key>, p: Packet) {
    match p
    case Prepare(k, message, _, buffer) =>
      k in keys && k !in campaigns && Describes(campaigns, message) && |buffer| == MIN_PACKET_SIZE
    case ChunkOf(k, i, _, buffer) =>
      k in campaigns && |campaigns[k]| < U32_SIZE && i < ChunkCount(|campaigns[k]|)
      && Encodable(campaigns[k], i) && |buffer| == MIN_PACKET_SIZE
    case Noise(bytes) =>
      forall k :: k in keys ==> OpenUpdate(cfg.cipher(k), bytes) == None && OpenPrepare(cfg.cipher(k), bytes) == None
  }

  /** The keys in use work, and none of them opens what another has sealed. */
  ghost predicate KeysSeparate(cfg: Config, campaigns: Campaigns, keys: set<Key>) {
    && cfg.networkKey in keys && cfg.networkKey !in campaigns && campaigns.Keys <= keys
    && (forall k :: k in keys ==> Sound(cfg.cipher(k)))
    && forall k, k' :: k in keys && k' in keys && k != k' ==> Refuses(cfg.cipher(k'), cfg.cipher(k))
  }

  ghost function Datagram(c: Cipher, frameCounter: u16, payload: seq<byte>, buffer: seq<byte>): seq<byte>
    requires Sound(c) && |payload| <= MIN_PAYLOAD_SIZE && |buffer| == MIN_PACKET_SIZE
  {
    PayloadFitsPacket(c, UpdateHeader(frameCounter), payload);
    Overwritten(FrameBytes(c, UpdateHeader(frameCounter), payload), buffer)
  }

  ghost function BytesOf(cfg: Config, campaigns: Campaigns, keys: set<Key>, p: Packet): seq<byte>
    requires KeysSeparate(cfg, campaigns, keys) && Genuine(cfg, campaigns, keys, p)
  {
    match p
    case Prepare(k, message, n, buffer) =>
      PrepareFits(message);
      Datagram(cfg.cipher(k), n, EncodePrepare(message), buffer)
    case ChunkOf(k, i, n, buffer) => Datagram(cfg.cipher(k), n, EncodeUpdate(ChunkUpdate(campaigns[k], i)), buffer)
    case Noise(bytes) => bytes
  }

  /** A datagram opens to its payload under its own key and to nothing under another. */
  lemma DatagramOpens(c: Cipher, other: Cipher, frameCounter: u16, payload: seq<byte>, buffer: seq<byte>)
    requires Sound(c) && |payload| <= MIN_PAYLOAD_SIZE && |buffer| == MIN_PACKET_SIZE
    ensures var d := Datagram(c, frameCounter, payload, buffer);
            && OpenUpdate(c, d) == DecodeUpdate(payload) && OpenPrepare(c, d) == DecodePrepare(payload)
            && (Refuses(other, c) ==> OpenUpdate(other, d) == None && OpenPrepare(other, d) == None)
  {
    var h := UpdateHeader(frameCounter);
    PayloadFitsPacket(c, h, payload);
    DatagramRoundTrip(c, h, payload, buffer, h => IsUpdateHeader(h));
    assert h.serverPort & 0x07 == h.serverPort;
    if Refuses(other, c) {
      DatagramRefused(c, other, h, payload, buffer, h => IsUpdateHeader(h));
    }
  }

  // ---------------------------------------------------------------- what the server makes of it

  /** The effect of a packet on a server, with no wire in between. */
  ghost function Effect(cfg: Config, campaigns: Campaigns, keys: set<Key>, s: State, p: Packet): State
    requires Genuine(cfg, campaigns, keys, p)
  {
    match p
    case Prepare(k, message, _, _) => if k == cfg.networkKey then Activated(s, message, cfg.currentVersion) else s
    case ChunkOf(k, i, _, _) =>
      if s.active.Some? && s.active.value.key == k then Took(s, ChunkUpdate(campaigns[k], i)) else s
    case Noise(_) => s
  }

  /** The wire adds nothing and hides nothing: a server steps as if it had been handed the packet. */
  lemma StepIsEffect(cfg: Config, campaigns: Campaigns, keys: set<Key>, s: State, p: Packet)
    requires KeysSeparate(cfg, campaigns, keys) && Genuine(cfg, campaigns, keys, p)
    requires s.active.Some? ==> s.active.value.key in campaigns
    ensures Stepped(cfg, s, BytesOf(cfg, campaigns, keys, p)) == Effect(cfg, campaigns, keys, s, p)
  {
    var own := cfg.cipher(cfg.networkKey);
    match p {
      case Prepare(k, message, n, buffer) =>
        PrepareFits(message);
        PrepareRoundTrip(message);
        DatagramOpens(cfg.cipher(k), own, n, EncodePrepare(message), buffer);
        if s.active.Some? {
          DatagramOpens(cfg.cipher(k), cfg.cipher(s.active.value.key), n, EncodePrepare(message), buffer);
        }
      case ChunkOf(k, i, n, buffer) =>
        var u := ChunkUpdate(campaigns[k], i);
        UpdateRoundTrip(u);
        DatagramOpens(cfg.cipher(k), own, n, EncodeUpdate(u), buffer);
        if s.active.Some? {
          DatagramOpens(cfg.cipher(k), cfg.cipher(s.active.value.key), n, EncodeUpdate(u), buffer);
        }
      case Noise(bytes) =>
    }
  }

  // ---------------------------------------------------------------- soundness over whole runs

  /** What was taken is the start of the campaign's image, and what was installed is all of one. */
  ghost predicate Inv(campaigns: Campaigns, s: State) {
    && (s.active.Some? ==>
          var info := s.active.value;
          && info.key in campaigns && info.byteLen == |campaigns[info.key]|
          && info.nextByteOffset <= info.byteLen && (info.nextByteOffset == info.byteLen ==> info.byteLen == 0)
          && s.taken == campaigns[info.key][..info.nextByteOffset])
    && (s.active.None? ==> s.taken == [])
    && forall i :: 0 <= i < |s.installed| ==>
         s.installed[i].key in campaigns && s.installed[i].image == campaigns[s.installed[i].key]
  }

  lemma TakingKeepsInv(campaigns: Campaigns, s: State, i: nat)
    requires Inv(campaigns, s) && s.active.Some?
    requires |campaigns[s.active.value.key]| < U32_SIZE && i < ChunkCount(|campaigns[s.active.value.key]|)
    ensures Inv(campaigns, Took(s, ChunkUpdate(campaigns[s.active.value.key], i)))
  {
    var image, from := campaigns[s.active.value.key], s.active.value.nextByteOffset;
    var u := ChunkUpdate(image, i);
    if u.byteOffset == from {
      ChunkShape(i, |image|);
      var to := ChunkEnd(i, |image|);
      assert u.bytes == image[from..to];
      assert image[..to] == image[..from] + image[from..to];
      assert image[..|image|] == image;
    }
  }

  ghost function Run(cfg: Config, campaigns: Campaigns, keys: set<Key>, s: State, packets: seq<Packet>): State
    requires KeysSeparate(cfg, campaigns, keys)
    requires forall i :: 0 <= i < |packets| ==> Genuine(cfg, campaigns, keys, packets[i])
  {
    if packets == [] then s
    else Stepped(cfg, Run(cfg, campaigns, keys, s, packets[..|packets| - 1]),
                 BytesOf(cfg, campaigns, keys, packets[|packets| - 1]))
  }

  /** Whatever genuine packets arrive, in whatever order and however often, of however many
      campaigns: the bytes a server has taken are its image's first ones up to its offset,
      the offset stays within the image, and only whole images are ever installed. */
  lemma {:induction false} UpdateSoundness(
    cfg: Config, campaigns: Campaigns, keys: set<Key>, s: State, packets: seq<Packet>)
    requires KeysSeparate(cfg, campaigns, keys) && Inv(campaigns, s)
    requires forall i :: 0 <= i < |packets| ==> Genuine(cfg, campaigns, keys, packets[i])
    ensures Inv(campaigns, Run(cfg, campaigns, keys, s, packets))
  {
    if packets != [] {
      UpdateSoundness(cfg, campaigns, keys, s, packets[..|packets| - 1]);
      var before := Run(cfg, campaigns, keys, s, packets[..|packets| - 1]);
      StepKeepsInv(cfg, campaigns, keys, before, packets[|packets| - 1]);
    }
  }

  lemma StepKeepsInv(cfg: Config, campaigns: Campaigns, keys: set<Key>, s: State, p: Packet)
    requires KeysSeparate(cfg, campaigns, keys) && Inv(campaigns, s) && Genuine(cfg, campaigns, keys, p)
    ensures Inv(campaigns, Stepped(cfg, s, BytesOf(cfg, campaigns, keys, p)))
  {
    StepIsEffect(cfg, campaigns, keys, s, p);
    if p.ChunkOf? && s.active.Some? && s.active.value.key == p.key {
      TakingKeepsInv(campaigns, s, p.index);
    }
  }

  /** A key that is neither active nor the key of anything installed after the first `n`. */
  ghost predicate Untouched(s: State, key: Key, n: nat) {
    && (s.active.Some? ==> s.active.value.key != key)
    && n <= |s.installed| && forall i :: n <= i < |s.installed| ==> s.installed[i].key != key
  }

  /** The packet tells this server of a newer version. */
  predicate NewerPrepare(cfg: Config, p: Packet) {
    p.Prepare? && p.networkKey == cfg.networkKey && Compare(p.message.version, cfg.currentVersion) == Greater
  }

  /** It does so under the given key. */
  predicate AnnouncesNewer(cfg: Config, p: Packet, key: Key) {
    NewerPrepare(cfg, p) && p.message.updateKey == key
  }

  lemma EffectKeepsUntouched(
    cfg: Config, campaigns: Campaigns, keys: set<Key>, s: State, p: Packet, key: Key, n: nat)
    requires Genuine(cfg, campaigns, keys, p) && Untouched(s, key, n) && !AnnouncesNewer(cfg, p, key)
    ensures Untouched(Effect(cfg, campaigns, keys, s, p), key, n)
  {
  }

  lemma StepKeepsUntouched(
    cfg: Config, campaigns: Campaigns, keys: set<Key>, s: State, p: Packet, key: Key, n: nat)
    requires KeysSeparate(cfg, campaigns, keys) && Inv(campaigns, s) && Genuine(cfg, campaigns, keys, p)
    requires Untouched(s, key, n) && !AnnouncesNewer(cfg, p, key)
    ensures Untouched(Stepped(cfg, s, BytesOf(cfg, campaigns, keys, p)), key, n)
  {
    StepIsEffect(cfg, campaigns, keys, s, p);
    EffectKeepsUntouched(cfg, campaigns, keys, s, p, key, n);
  }

  /** An image is installed only if some prepare message announced it to this server as newer
      than what it runs: without one, nothing of its campaign is ever taken up. */
  lemma {:induction false} OnlyNewerVersionsInstalled(
    cfg: Config, campaigns: Campaigns, keys: set<Key>, s: State, packets: seq<Packet>, key: Key)
    requires KeysSeparate(cfg, campaigns, keys) && Inv(campaigns, s) && Untouched(s, key, |s.installed|)
    requires forall i :: 0 <= i < |packets| ==> Genuine(cfg, campaigns, keys, packets[i])
    requires forall i :: 0 <= i < |packets| ==> !AnnouncesNewer(cfg, packets[i], key)
    ensures Untouched(Run(cfg, campaigns, keys, s, packets), key, |s.installed|)
  {
    if packets != [] {
      var before := Run(cfg, campaigns, keys, s, packets[..|packets| - 1]);
      OnlyNewerVersionsInstalled(cfg, campaigns, keys, s, packets[..|packets| - 1], key);
      UpdateSoundness(cfg, campaigns, keys, s, packets[..|packets| - 1]);
      StepKeepsUntouched(cfg, campaigns, keys, before, packets[|packets| - 1], key, |s.installed|);
    }
  }

  // ---------------------------------------------------------------- all or nothing

  /** The state after the first `n` chunks of a campaign were sent in order and those not kept
      were dropped. */
  ghost function Delivered(
    cfg: Config, campaigns: Campaigns, keys: set<Key>, s: State, chunks: seq<Packet>, kept: seq<bool>, n: nat): State
    requires KeysSeparate(cfg, campaigns, keys) && n <= |chunks| == |kept|
    requires forall i :: 0 <= i < |chunks| ==> Genuine(cfg, campaigns, keys, chunks[i])
  {
    if n == 0 then s
    else
      var before := Delivered(cfg, campaigns, keys, s, chunks, kept, n - 1);
      if kept[n - 1] then Stepped(cfg, before, BytesOf(cfg, campaigns, keys, chunks[n - 1])) else before
  }

  /** The packets are the campaign's chunks, all of them, in order. */
  ghost predicate IsBroadcast(cfg: Config, campaigns: Campaigns, keys: set<Key>, key: Key, chunks: seq<Packet>) {
    && key in campaigns && |chunks| == ChunkCount(|campaigns[key]|)
    && forall i :: 0 <= i < |chunks| ==>
         Genuine(cfg, campaigns, keys, chunks[i]) && chunks[i].ChunkOf? && chunks[i].key == key && chunks[i].index == i
  }

  predicate AllKept(kept: seq<bool>, n: nat)
    requires n <= |kept|
  {
    forall i :: 0 <= i < n ==> kept[i]
  }

  lemma AllKeptGrows(kept: seq<bool>, n: nat)
    requires 0 < n <= |kept|
    ensures AllKept(kept, n) == (AllKept(kept, n - 1) && kept[n - 1])
  {
  }

  /** A server in the middle of a broadcast of which nothing was dropped so far. */
  ghost function InProgress(key: Key, image: seq<byte>, n: nat, installed: seq<Installed>): State
    requires n <= ChunkCount(|image|)
  {
    if n == ChunkCount(|image|) && n > 0 then State(None, [], installed + [Installed(key, image)])
    else
      var next := Min(ChunkStart(n), |image|);
      State(Some(UpdateInfo(key, |image|, next)), image[..next], installed)
  }

  /** A server that has missed a chunk: it has given up or is still waiting for that chunk. */
  ghost predicate Behind(s: State, key: Key, n: nat, installed: seq<Installed>) {
    s.installed == installed &&
    (s.active.Some? ==> s.active.value.key == key && s.active.value.nextByteOffset < ChunkStart(n))
  }

  /** The right chunk moves a server on, flushing exactly when the client pauses for longer. */
  lemma NextChunkTaken(key: Key, image: seq<byte>, n: nat, installed: seq<Installed>)
    requires |image| < U32_SIZE && n < ChunkCount(|image|)
    ensures InProgress(key, image, n, installed).active.Some?
    ensures Took(InProgress(key, image, n, installed), ChunkUpdate(image, n)) ==
            InProgress(key, image, n + 1, installed)
    ensures var outcome := OutcomeOf(InProgress(key, image, n, installed).active.value, ChunkUpdate(image, n));
            && outcome != Abandoned
            && (outcome == Finished || outcome == Flushed <==> LongPause(n, |image|))
            && (outcome == Finished <==> n + 1 == ChunkCount(|image|))
  {
    var s, u := InProgress(key, image, n, installed), ChunkUpdate(image, n);
    ChunkShape(n, |image|);
    ChunkCountExact(n, |image|);
    ChunkCountExact(n + 1, |image|);
    LongPauseExactlyWhen(n, |image|);
    var from, to := ChunkStart(n), ChunkEnd(n, |image|);
    assert image[..to] == image[..from] + u.bytes;
    assert image[..|image|] == image;
    assert Progress(s.active.value, u) == UpdateInfo(key, |image|, to);
  }

  lemma KeptChunkMovesOn(
    cfg: Config, campaigns: Campaigns, keys: set<Key>, p: Packet, installed: seq<Installed>)
    requires KeysSeparate(cfg, campaigns, keys) && Genuine(cfg, campaigns, keys, p) && p.ChunkOf?
    ensures var image := campaigns[p.key];
            Stepped(cfg, InProgress(p.key, image, p.index, installed), BytesOf(cfg, campaigns, keys, p)) ==
            InProgress(p.key, image, p.index + 1, installed)
  {
    NextChunkTaken(p.key, campaigns[p.key], p.index, installed);
    StepIsEffect(cfg, campaigns, keys, InProgress(p.key, campaigns[p.key], p.index, installed), p);
  }

  lemma DroppedChunkFallsBehind(key: Key, image: seq<byte>, n: nat, installed: seq<Installed>)
    requires n < ChunkCount(|image|)
    ensures Behind(InProgress(key, image, n, installed), key, n + 1, installed)
  {
    ChunkWidth(n);
  }

  /** A chunk beyond the one awaited ends the update; nothing brings it back. */
  lemma BehindStaysBehind(
    cfg: Config, campaigns: Campaigns, keys: set<Key>, s: State, p: Packet, installed: seq<Installed>)
    requires KeysSeparate(cfg, campaigns, keys) && Genuine(cfg, campaigns, keys, p) && p.ChunkOf?
    requires Behind(s, p.key, p.index, installed)
    ensures Behind(s, p.key, p.index + 1, installed)
    ensures Stepped(cfg, s, BytesOf(cfg, campaigns, keys, p)).active.None?
    ensures Behind(Stepped(cfg, s, BytesOf(cfg, campaigns, keys, p)), p.key, p.index + 1, installed)
  {
    ChunkWidth(p.index);
    StepIsEffect(cfg, campaigns, keys, s, p);
  }

  lemma ChunkKeptOrDropped(
    cfg: Config, campaigns: Campaigns, keys: set<Key>, s: State, p: Packet, installed: seq<Installed>,
    allBefore: bool, keep: bool)
    requires KeysSeparate(cfg, campaigns, keys) && Genuine(cfg, campaigns, keys, p) && p.ChunkOf?
    requires Stands(s, p.key, campaigns[p.key], p.index, installed, allBefore)
    ensures var after := if keep then Stepped(cfg, s, BytesOf(cfg, campaigns, keys, p)) else s;
            Stands(after, p.key, campaigns[p.key], p.index + 1, installed, allBefore && keep)
  {
    if !allBefore {
      BehindStaysBehind(cfg, campaigns, keys, s, p, installed);
    } else if keep {
      KeptChunkMovesOn(cfg, campaigns, keys, p, installed);
    } else {
      DroppedChunkFallsBehind(p.key, campaigns[p.key], p.index, installed);
    }
  }

  /** Where a server stands after `n` chunks, given whether all of them were kept. */
  ghost predicate Stands(s: State, key: Key, image: seq<byte>, n: nat, installed: seq<Installed>, allKept: bool)
    requires n <= ChunkCount(|image|)
  {
    if allKept then s == InProgress(key, image, n, installed) else Behind(s, key, n, installed)
  }

  lemma {:induction false} DeliveryProgress(
    cfg: Config, campaigns: Campaigns, keys: set<Key>, key: Key, start: State,
    chunks: seq<Packet>, kept: seq<bool>, n: nat)
    requires KeysSeparate(cfg, campaigns, keys) && IsBroadcast(cfg, campaigns, keys, key, chunks)
    requires n <= |chunks| == |kept| && start == InProgress(key, campaigns[key], 0, start.installed)
    ensures Stands(Delivered(cfg, campaigns, keys, start, chunks, kept, n), key, campaigns[key], n, start.installed,
                   AllKept(kept, n))
  {
    if n > 0 {
      DeliveryProgress(cfg, campaigns, keys, key, start, chunks, kept, n - 1);
      var before, p := Delivered(cfg, campaigns, keys, start, chunks, kept, n - 1), chunks[n - 1];
      assert Genuine(cfg, campaigns, keys, p) && p.key == key && p.index == n - 1;
      ChunkKeptOrDropped(cfg, campaigns, keys, before, p, start.installed, AllKept(kept, n - 1), kept[n - 1]);
      AllKeptGrows(kept, n);
      assert Delivered(cfg, campaigns, keys, start, chunks, kept, n) ==
             if kept[n - 1] then Stepped(cfg, before, BytesOf(cfg, campaigns, keys, p)) else before;
    }
  }

  /** What a broadcast installs: the whole image if no chunk was dropped.  An empty image has no
      chunk to finish with, so it is never installed. */
  function Expected(key: Key, image: seq<byte>, kept: seq<bool>): seq<Installed> {
    if AllKept(kept, |kept|) && image != [] then [Installed(key, image)] else []
  }

  lemma InstalledAtEnd(key: Key, image: seq<byte>, kept: seq<bool>, after: State, installed: seq<Installed>)
    requires |kept| == ChunkCount(|image|)
    requires Stands(after, key, image, |kept|, installed, AllKept(kept, |kept|))
    ensures after.installed == installed + Expected(key, image, kept)
  {
    ChunkCountExact(0, |image|);
  }

  /** All or nothing: a server in any state that receives the prepare message of a newer version,
      and then the campaign's chunks in order with any of them dropped, installs the image if
      none was dropped and nothing otherwise. */
  lemma AllOrNothing(
    cfg: Config, campaigns: Campaigns, keys: set<Key>, s: State, prepare: Packet,
    chunks: seq<Packet>, kept: seq<bool>)
    requires KeysSeparate(cfg, campaigns, keys) && (s.active.Some? ==> s.active.value.key in campaigns)
    requires Genuine(cfg, campaigns, keys, prepare) && NewerPrepare(cfg, prepare)
    requires IsBroadcast(cfg, campaigns, keys, prepare.message.updateKey, chunks) && |kept| == |chunks|
    ensures var key := prepare.message.updateKey;
            var activated := Stepped(cfg, s, BytesOf(cfg, campaigns, keys, prepare));
            var after := Delivered(cfg, campaigns, keys, activated, chunks, kept, |chunks|);
            after.installed == s.installed + Expected(key, campaigns[key], kept)
  {
    var key := prepare.message.updateKey;
    PrepareActivates(cfg, campaigns, keys, s, prepare);
    BroadcastInstalls(cfg, campaigns, keys, key, Stepped(cfg, s, BytesOf(cfg, campaigns, keys, prepare)), chunks, kept);
  }

  lemma BroadcastInstalls(
    cfg: Config, campaigns: Campaigns, keys: set<Key>, key: Key, start: State, chunks: seq<Packet>, kept: seq<bool>)
    requires KeysSeparate(cfg, campaigns, keys) && IsBroadcast(cfg, campaigns, keys, key, chunks)
    requires |chunks| == |kept| && start == InProgress(key, campaigns[key], 0, start.installed)
    ensures Delivered(cfg, campaigns, keys, start, chunks, kept, |chunks|).installed ==
            start.installed + Expected(key, campaigns[key], kept)
  {
    DeliveryProgress(cfg, campaigns, keys, key, start, chunks, kept, |chunks|);
    InstalledAtEnd(key, campaigns[key], kept, Delivered(cfg, campaigns, keys, start, chunks, kept, |chunks|),
                   start.installed);
  }

  lemma PrepareActivates(cfg: Config, campaigns: Campaigns, keys: set<Key>, s: State, prepare: Packet)
    requires KeysSeparate(cfg, campaigns, keys) && (s.active.Some? ==> s.active.value.key in campaigns)
    requires Genuine(cfg, campaigns, keys, prepare) && NewerPrepare(cfg, prepare)
    ensures var key := prepare.message.updateKey;
            Stepped(cfg, s, BytesOf(cfg, campaigns, keys, prepare)) == InProgress(key, campaigns[key], 0, s.installed)
  {
    StepIsEffect(cfg, campaigns, keys, s, prepare);
    ChunkCountExact(0, |campaigns[prepare.message.updateKey]|);
  }

  /** In a broadcast of which nothing is dropped, the server flushes on a chunk exactly when the
      client pauses for longer after sending it. */
  lemma FlushAgreement(
    cfg: Config, campaigns: Campaigns, keys: set<Key>, key: Key, start: State, chunks: seq<Packet>, kept: seq<bool>,
    n: nat, frameCounter: u16)
    requires KeysSeparate(cfg, campaigns, keys) && IsBroadcast(cfg, campaigns, keys, key, chunks)
    requires n < |chunks| == |kept| && AllKept(kept, |kept|) && |campaigns[key]| < U32_SIZE
    requires start == InProgress(key, campaigns[key], 0, start.installed)
    ensures var s := Delivered(cfg, campaigns, keys, start, chunks, kept, n);
            && s.active.Some?
            && var outcome := OutcomeOf(s.active.value, ChunkUpdate(campaigns[key], n));
            && (outcome == Finished || outcome == Flushed <==> PacketOf(campaigns[key], frameCounter, n).longPause)
            && outcome != Abandoned
  {
    DeliveryProgress(cfg, campaigns, keys, key, start, chunks, kept, n);
    NextChunkTaken(key, campaigns[key], n, start.installed);
  }

  /** A server with no active update, whether it finished or gave up, takes no chunk at all. */
  lemma {:induction false} InactiveTakesNothing(
    cfg: Config, campaigns: Campaigns, keys: set<Key>, s: State, packets: seq<Packet>)
    requires KeysSeparate(cfg, campaigns, keys) && s.active.None?
    requires forall i :: 0 <= i < |packets| ==> Genuine(cfg, campaigns, keys, packets[i]) && !packets[i].Prepare?
    ensures Run(cfg, campaigns, keys, s, packets) == s
  {
    if packets != [] {
      InactiveTakesNothing(cfg, campaigns, keys, s, packets[..|packets| - 1]);
      StepIsEffect(cfg, campaigns, keys, s, packets[|packets| - 1]);
    }
  }

  // ---------------------------------------------------------------- amid other traffic

  /** A packet that is neither a chunk of the given campaign nor news of a newer version: a prepare
      message for another server or an older version, a chunk of another campaign, or noise. */
  predicate Bystander(cfg: Config, p: Packet, key: Key) {
    !NewerPrepare(cfg, p) && !(p.ChunkOf? && p.key == key)
  }

  /** Nothing but the campaign's chunks and newer versions touches a server, active or not. */
  lemma BystanderIsIgnored(cfg: Config, campaigns: Campaigns, keys: set<Key>, s: State, p: Packet, key: Key)
    requires KeysSeparate(cfg, campaigns, keys) && Genuine(cfg, campaigns, keys, p)
    requires s.active.Some? ==> s.active.value.key == key && key in campaigns
    requires Bystander(cfg, p, key)
    ensures Stepped(cfg, s, BytesOf(cfg, campaigns, keys, p)) == s
  {
    StepIsEffect(cfg, campaigns, keys, s, p);
  }

  /** A chunk that does not start at the awaited offset ends the update, be it one already taken or
      one further on. */
  lemma MisplacedChunkEndsUpdate(cfg: Config, campaigns: Campaigns, keys: set<Key>, s: State, p: Packet)
    requires KeysSeparate(cfg, campaigns, keys) && Genuine(cfg, campaigns, keys, p) && p.ChunkOf?
    requires s.active.Some? && s.active.value.key == p.key && s.active.value.nextByteOffset != ChunkStart(p.index)
    ensures Stepped(cfg, s, BytesOf(cfg, campaigns, keys, p)) == State(None, [], s.installed)
  {
    StepIsEffect(cfg, campaigns, keys, s, p);
  }

  /** The indices of a campaign's chunks, in the order in which they arrive among other packets. */
  function Arrived(packets: seq<Packet>, key: Key): seq<nat> {
    if packets == [] then []
    else
      var last := packets[|packets| - 1];
      Arrived(packets[..|packets| - 1], key) + if last.ChunkOf? && last.key == key then [last.index] else []
  }

  predicate InOrder(arrived: seq<nat>, n: nat)
    requires n <= |arrived|
  {
    forall k :: 0 <= k < n ==> arrived[k] == k
  }

  /** Where the chunks that arrived leave a server: in the middle or at the end of the image if they
      came as 0, 1, 2 and so on, and without an update if any came out of turn before the end. */
  ghost function Reached(key: Key, image: seq<byte>, arrived: seq<nat>, installed: seq<Installed>): State {
    var n := Min(|arrived|, ChunkCount(|image|));
    if InOrder(arrived, n) then InProgress(key, image, n, installed) else State(None, [], installed)
  }

  lemma InOrderWithNext(arrived: seq<nat>, i: nat)
    ensures InOrder(arrived + [i], |arrived| + 1) <==> InOrder(arrived, |arrived|) && i == |arrived|
    ensures forall n :: 0 <= n <= |arrived| ==> (InOrder(arrived + [i], n) <==> InOrder(arrived, n))
  {
    var more := arrived + [i];
    assert forall k :: 0 <= k < |arrived| ==> more[k] == arrived[k];
    assert more[|arrived|] == i;
  }

  lemma ChunkReaches(
    cfg: Config, campaigns: Campaigns, keys: set<Key>, arrived: seq<nat>, p: Packet, installed: seq<Installed>)
    requires KeysSeparate(cfg, campaigns, keys) && Genuine(cfg, campaigns, keys, p) && p.ChunkOf?
    ensures var image := campaigns[p.key];
            Stepped(cfg, Reached(p.key, image, arrived, installed), BytesOf(cfg, campaigns, keys, p)) ==
            Reached(p.key, image, arrived + [p.index], installed)
  {
    var image := campaigns[p.key];
    var s, n, count := Reached(p.key, image, arrived, installed), |arrived|, ChunkCount(|image|);
    InOrderWithNext(arrived, p.index);
    if s.active.None? {
      StepIsEffect(cfg, campaigns, keys, s, p);
    } else if p.index == n {
      KeptChunkMovesOn(cfg, campaigns, keys, p, installed);
    } else {
      ChunkCountExact(n, |image|);
      if p.index < n {
        ChunkStartsGrow(p.index, n);
      } else {
        ChunkStartsGrow(n, p.index);
      }
      MisplacedChunkEndsUpdate(cfg, campaigns, keys, s, p);
    }
  }

  lemma PacketReaches(
    cfg: Config, campaigns: Campaigns, keys: set<Key>, key: Key, arrived: seq<nat>, p: Packet,
    installed: seq<Installed>)
    requires KeysSeparate(cfg, campaigns, keys) && key in campaigns
    requires Genuine(cfg, campaigns, keys, p) && !NewerPrepare(cfg, p)
    ensures var now := arrived + if p.ChunkOf? && p.key == key then [p.index] else [];
            Stepped(cfg, Reached(key, campaigns[key], arrived, installed), BytesOf(cfg, campaigns, keys, p)) ==
            Reached(key, campaigns[key], now, installed)
  {
    if Bystander(cfg, p, key) {
      assert arrived + [] == arrived;
      BystanderIsIgnored(cfg, campaigns, keys, Reached(key, campaigns[key], arrived, installed), p, key);
    } else {
      ChunkReaches(cfg, campaigns, keys, arrived, p, installed);
    }
  }

  lemma {:induction false} TrafficReaches(
    cfg: Config, campaigns: Campaigns, keys: set<Key>, key: Key, start: State, packets: seq<Packet>)
    requires KeysSeparate(cfg, campaigns, keys) && key in campaigns
    requires start == Reached(key, campaigns[key], [], start.installed)
    requires forall i :: 0 <= i < |packets| ==> Genuine(cfg, campaigns, keys, packets[i])
    requires forall i :: 0 <= i < |packets| ==> !NewerPrepare(cfg, packets[i])
    ensures Run(cfg, campaigns, keys, start, packets) ==
            Reached(key, campaigns[key], Arrived(packets, key), start.installed)
  {
    if packets != [] {
      var front, p := packets[..|packets| - 1], packets[|packets| - 1];
      TrafficReaches(cfg, campaigns, keys, key, start, front);
      PacketReaches(cfg, campaigns, keys, key, Arrived(front, key), p, start.installed);
    }
  }

  /** All chunks of the image arrived, in order, before any came out of turn. */
  predicate Complete(image: seq<byte>, arrived: seq<nat>) {
    image != [] && ChunkCount(|image|) <= |arrived| && InOrder(arrived, ChunkCount(|image|))
  }

  lemma ReachedInstalls(key: Key, image: seq<byte>, arrived: seq<nat>, installed: seq<Installed>)
    ensures Reached(key, image, arrived, installed).installed ==
            installed + if Complete(image, arrived) then [Installed(key, image)] else []
  {
    ChunkCountExact(0, |image|);
  }

  /** An update amid any other traffic.  From the prepare message of a newer version until the next
      one, let any genuine packets arrive in any order, with any loss and duplication: a server ends
      up where the campaign's own chunks take it, and it installs the image exactly when the first
      of them to arrive are all of them in order. */
  lemma UpdateAmidTraffic(
    cfg: Config, campaigns: Campaigns, keys: set<Key>, s: State, prepare: Packet, packets: seq<Packet>)
    requires KeysSeparate(cfg, campaigns, keys) && (s.active.Some? ==> s.active.value.key in campaigns)
    requires Genuine(cfg, campaigns, keys, prepare) && NewerPrepare(cfg, prepare)
    requires forall i :: 0 <= i < |packets| ==> Genuine(cfg, campaigns, keys, packets[i])
    requires forall i :: 0 <= i < |packets| ==> !NewerPrepare(cfg, packets[i])
    ensures var key := prepare.message.updateKey;
            var image, arrived := campaigns[key], Arrived(packets, key);
            var after := Run(cfg, campaigns, keys, Stepped(cfg, s, BytesOf(cfg, campaigns, keys, prepare)), packets);
            && after == Reached(key, image, arrived, s.installed)
            && after.installed == s.installed + if Complete(image, arrived) then [Installed(key, image)] else []
  {
    var key := prepare.message.updateKey;
    PrepareActivates(cfg, campaigns, keys, s, prepare);
    TrafficReaches(cfg, campaigns, keys, key, Stepped(cfg, s, BytesOf(cfg, campaigns, keys, prepare)), packets);
    ReachedInstalls(key, campaigns[key], Arrived(packets, key), s.installed);
  }

  lemma UpdateHeaderWord(p: Packed)
    requires Frame.Parse(p).Some? && IsUpdateHeader(Frame.Parse(p).value)
    ensures var word := Word(p);
            word / 2 % 2 == 0 && word / 4 % 2 == 0 && word / 8 % 0x100 == 0 && word / 0x800 % 8 == 1
  {
    ParsedWord(p);
  }

  /** Whatever is in a datagram, it touches a server only if its header has bit 1 clear and names the
      client as source, address 0 and port 1. */
  lemma OnlyUpdateHeadersCount(cfg: Config, s: State, datagram: seq<byte>)
    ensures Stepped(cfg, s, datagram) != s ==>
              && |datagram| >= 4
              && var word := Word(PackedOf(datagram));
              && word / 2 % 2 == 0 && word / 4 % 2 == 0 && word / 8 % 0x100 == 0 && word / 0x800 % 8 == 1
  {
    if Stepped(cfg, s, datagram) != s {
      UpdateHeaderWord(PackedOf(datagram));
    }
  }

  // ---------------------------------------------------------------- the assumptions can be met

  /** A cipher that marks its text with the first bytes of the key. */
  function Marking(k: Key): Cipher {
    Cipher((nonce, header, text) => text + k[..MIC_SIZE],
           (nonce, header, text) =>
             if |text| >= MIC_SIZE && text[|text| - MIC_SIZE..] == k[..MIC_SIZE]
             then Some(text[..|text| - MIC_SIZE]) else None)
  }

  /** The assumptions on keys are consistent: marking ciphers meet them for keys that differ early. */
  lemma KeysCanSeparate(campaigns: Campaigns, keys: set<Key>, networkKey: Key, version: Version)
    requires networkKey in keys && networkKey !in campaigns && campaigns.Keys <= keys
    requires forall k, k' :: k in keys && k' in keys && k != k' ==> k[..MIC_SIZE] != k'[..MIC_SIZE]
    ensures KeysSeparate(Config(Marking, networkKey, version), campaigns, keys)
  {
    forall k: Key, nonce, header, text
      ensures |Marking(k).seal(nonce, header, text)| == |text| + MIC_SIZE
      ensures Marking(k).open(nonce, header, Marking(k).seal(nonce, header, text)) == Some(text)
    {
      var sealed := Marking(k).seal(nonce, header, text);
      assert sealed[|sealed| - MIC_SIZE..] == k[..MIC_SIZE] && sealed[..|sealed| - MIC_SIZE] == text;
    }
    forall k: Key, k': Key | k in keys && k' in keys && k != k'
      ensures Refuses(Marking(k'), Marking(k))
    {
      forall nonce, header, text
        ensures Marking(k').open(nonce, header, Marking(k).seal(nonce, header, text)) == None
      {
        var sealed := Marking(k).seal(nonce, header, text);
        assert sealed[|sealed| - MIC_SIZE..] == k[..MIC_SIZE];
      }
    }
  }
}

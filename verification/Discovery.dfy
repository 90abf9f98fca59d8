/** Address discovery in rounds: the client broadcasts the addresses it knows, servers
    without a known address pick a spare one and reply, and the client registers every
    address that exactly one intact reply asked for. */
module Discovery {
  import opened Types
  import opened AddressSet

  // ---------------------------------------------------------------- one client round

  /** What the client hears in a round: an address for each intact reply, None for each garbled one. */
  type Replies = seq<Option<byte>>

  /** How many of the first `n` replies are intact and ask for an address. */
  function CountFirst(replies: Replies, n: nat, a: byte): nat
    requires n <= |replies|
  {
    if n == 0 then 0 else CountFirst(replies, n - 1, a) + if replies[n - 1] == Some(a) then 1 else 0
  }

  function Count(replies: Replies, a: byte): nat {
    CountFirst(replies, |replies|, a)
  }

  lemma {:induction false} CountOfPrefix(replies: Replies, more: Replies, n: nat, a: byte)
    requires n <= |replies|
    ensures CountFirst(replies + more, n, a) == CountFirst(replies, n, a)
  {
    if n > 0 {
      CountOfPrefix(replies, more, n - 1, a);
    }
  }

  lemma CountAppend(replies: Replies, reply: Option<byte>, a: byte)
    ensures Count(replies + [reply], a) == Count(replies, a) + if reply == Some(a) then 1 else 0
  {
    CountOfPrefix(replies, [reply], |replies|, a);
  }

  lemma {:induction false} CountedIsHeard(replies: Replies, n: nat, a: byte)
    requires n <= |replies| && CountFirst(replies, n, a) > 0
    ensures Some(a) in replies
  {
    if replies[n - 1] != Some(a) {
      CountedIsHeard(replies, n - 1, a);
    }
  }

  /** The addresses that exactly one intact reply asked for. */
  function Singles(replies: Replies): set<byte> {
    set a: byte | Some(a) in replies && Count(replies, a) == 1
  }

  ghost predicate Undisputed(replies: Replies) {
    None !in replies && forall a: byte :: Count(replies, a) <= 1
  }

  /** The client's half of a round, after the identify message went out. */
  method ClientTask(identify: Identify, replies: Replies) returns (finished: bool, found: int)
    requires identify.Valid()
    modifies identify.addresses
    ensures identify.Known() == old(identify.Known()) + Singles(replies)
    ensures finished <==> Undisputed(replies)
    ensures found == |identify.Known()| - 1
  {
    var addresses;
    finished, addresses := CountReplies(replies);
    finished := RegisterSingles(identify, addresses, finished, replies);
    found := CountKnown(identify);
    found := found - 1;
  }

  /** One more address of those to register. */
  lemma SinglesBelow(replies: Replies, address: byte)
    ensures Below(Singles(replies), address + 1) ==
            Below(Singles(replies), address) + if Count(replies, address) == 1 then {address} else {}
  {
    if Count(replies, address) == 1 {
      CountedIsHeard(replies, |replies|, address);
    }
  }

  /** The loop over the counters that registers what was asked for once. */
  method RegisterSingles(identify: Identify, addresses: array<nat>, intact: bool, ghost replies: Replies)
    returns (finished: bool)
    requires identify.Valid() && addresses.Length == MAX_ADDRESSES && addresses as object != identify.addresses
    requires forall a: byte :: addresses[a] == Count(replies, a)
    modifies identify.addresses
    ensures identify.Known() == old(identify.Known()) + Singles(replies)
    ensures finished <==> intact && forall a: byte :: Count(replies, a) <= 1
  {
    finished := intact;
    var address := 0;
    ghost var added := {};
    assert Below(Singles(replies), 0) == {};
    while address < MAX_ADDRESSES
      invariant 0 <= address <= MAX_ADDRESSES
      invariant added == Below(Singles(replies), address)
      invariant identify.Known() == old(identify.Known()) + added
      invariant finished <==> intact && forall a: byte :: a < address ==> Count(replies, a) <= 1
    {
      SinglesBelow(replies, address);
      var count := addresses[address];
      if count == 1 {
        identify.SetAddress(address);
        added := added + {address};
      } else if count > 1 {
        finished := false;
      }
      address := address + 1;
    }
    assert Below(Singles(replies), MAX_ADDRESSES) == Singles(replies);
  }

  method CountReplies(replies: Replies) returns (intact: bool, addresses: array<nat>)
    ensures intact <==> None !in replies
    ensures fresh(addresses) && addresses.Length == MAX_ADDRESSES
    ensures forall a: byte :: addresses[a] == Count(replies, a)
  {
    intact := true;
    addresses := new nat[MAX_ADDRESSES](_ => 0);
    for k := 0 to |replies|
      invariant intact <==> None !in replies[..k]
      invariant forall a: byte :: addresses[a] == CountFirst(replies, k, a)
    {
      match replies[k] {
        case Some(a) => addresses[a] := addresses[a] + 1;
        case None => intact := false;
      }
    }
    assert replies[..|replies|] == replies;
  }

  /** The fold over the iterator that counts the set bits. */
  method CountKnown(identify: Identify) returns (n: nat)
    requires identify.Valid()
    ensures n == |identify.Known()|
  {
    ghost var known := identify.Known();
    var iter := identify.Iter();
    n := 0;
    assert Below(known, 0) == {};
    while true
      invariant iter.Valid() && fresh(iter) && Members(iter.addresses) == known
      invariant n == |Below(known, iter.produced)|
      decreases MAX_ADDRESSES - iter.produced
    {
      ghost var i := iter.produced;
      var item := iter.Next();
      if item.None? {
        break;
      }
      BelowGrows(known, i);
      if item.value {
        n := n + 1;
      }
    }
    assert Below(known, MAX_ADDRESSES) == known;
  }

  lemma BelowGrows(known: set<byte>, i: byte)
    ensures |Below(known, i + 1)| == |Below(known, i)| + if i in known then 1 else 0
  {
    if i in known {
      assert Below(known, i + 1) == Below(known, i) + {i};
    } else {
      assert Below(known, i + 1) == Below(known, i);
    }
  }

  // ---------------------------------------------------------------- one server turn

  /** The server's address after it heard which addresses are known, and its reply if any. */
  function ServerTurn(known: set<byte>, address: Option<byte>, random: u32): (Option<byte>, Option<byte>) {
    if address.Some? && address.value in known then (address, None)
    else
      var pick := Pick(known, random);
      if pick.None? then (address, None) else (pick, pick)
  }

  method ServerTask(identify: Identify, address: Option<byte>, random: u32)
    returns (newAddress: Option<byte>, reply: Option<Identified>)
    requires identify.Valid()
    ensures newAddress == ServerTurn(identify.Known(), address, random).0
    ensures var sent := ServerTurn(identify.Known(), address, random).1;
            reply == if sent.None? then None else Some(Identified(sent.value, 0x02))
  {
    newAddress, reply := address, None;
    var known := false;
    if address.Some? {
      known := identify.IsAddressSet(address.value);
    }
    if !known {
      var iter := identify.Iter();
      NothingProduced(identify.Known());
      reply := WithRandomAddress(iter, random, 0x02);
      if reply.Some? {
        newAddress := Some(reply.value.serverAddress);
      }
    }
  }

  // ---------------------------------------------------------------- a whole round

  datatype Net = Net(known: set<byte>, servers: seq<Option<byte>>)

  /** What happens to a reply on its way to the client. */
  datatype Fate = Intact | Garbled | Lost

  /** What a round leaves open for one server: whether the identify message reached it, its
      random value and its reply's fate. */
  datatype Choice = Choice(reached: bool, random: u32, fate: Fate)

  type Round = seq<Choice>

  /** A server that the identify message does not reach keeps its address and stays silent. */
  function Turn(net: Net, round: Round, i: nat): (Option<byte>, Option<byte>)
    requires |round| == |net.servers| && i < |round|
  {
    if round[i].reached then ServerTurn(net.known, net.servers[i], round[i].random) else (net.servers[i], None)
  }

  function Asked(net: Net, round: Round, i: nat): Option<byte>
    requires |round| == |net.servers| && i < |round|
  {
    Turn(net, round, i).1
  }

  function Requests(net: Net, round: Round): seq<Option<byte>>
    requires |round| == |net.servers|
  {
    seq(|round|, i requires 0 <= i < |round| => Asked(net, round, i))
  }

  /** The first `n` requests as the client hears them. */
  function Arrivals(asked: seq<Option<byte>>, round: Round, n: nat): Replies
    requires |round| == |asked| && n <= |round|
  {
    if n == 0 then [] else Arrivals(asked, round, n - 1) + Arrival(asked[n - 1], round[n - 1].fate)
  }

  function Arrival(asked: Option<byte>, fate: Fate): Replies {
    if asked.None? || fate.Lost? then [] else if fate.Garbled? then [None] else [asked]
  }

  function Heard(net: Net, round: Round): Replies
    requires |round| == |net.servers|
  {
    Arrivals(Requests(net, round), round, |round|)
  }

  function AfterRound(net: Net, round: Round): Net
    requires |round| == |net.servers|
  {
    Net(net.known + Singles(Heard(net, round)),
        seq(|round|, i requires 0 <= i < |round| => Turn(net, round, i).0))
  }

  ghost predicate Finished(net: Net, round: Round)
    requires |round| == |net.servers|
  {
    Undisputed(Heard(net, round))
  }

  /** Every server that the client's message reaches takes its turn on it. */
  method ServerTurns(identify: Identify, servers: seq<Option<byte>>, round: Round)
    returns (newServers: seq<Option<byte>>, replies: Replies)
    requires identify.Valid() && |round| == |servers|
    ensures var net := Net(identify.Known(), servers);
            replies == Heard(net, round) && newServers == AfterRound(net, round).servers
  {
    ghost var net := Net(identify.Known(), servers);
    ghost var asked, after := Requests(net, round), AfterRound(net, round).servers;
    newServers, replies := [], [];
    for i := 0 to |servers|
      invariant replies == Arrivals(asked, round, i)
      invariant |newServers| == i && forall k :: 0 <= k < i ==> newServers[k] == after[k]
    {
      var newAddress, reply := servers[i], None;
      if round[i].reached {
        newAddress, reply := ServerTask(identify, servers[i], round[i].random);
      }
      var sent := if reply.None? then None else Some(reply.value.serverAddress);
      assert newAddress == after[i] && sent == asked[i];
      newServers := newServers + [newAddress];
      replies := replies + Arrival(sent, round[i].fate);
    }
  }

  /** A round played by the two programs: a message of the client and the replies to it. */
  method RunRound(identify: Identify, servers: seq<Option<byte>>, round: Round)
    returns (newServers: seq<Option<byte>>, finished: bool, found: int)
    requires identify.Valid() && |round| == |servers|
    modifies identify.addresses
    ensures var net := Net(old(identify.Known()), servers);
            && Net(identify.Known(), newServers) == AfterRound(net, round)
            && (finished <==> Finished(net, round))
    ensures found == |identify.Known()| - 1
  {
    var replies;
    newServers, replies := ServerTurns(identify, servers, round);
    finished, found := ClientTask(identify, replies);
  }

  function Holders(net: Net, a: byte): set<nat> {
    set i | 0 <= i < |net.servers| && net.servers[i] == Some(a)
  }

  /** The servers that asked for an address in a round. */
  function Askers(net: Net, round: Round, a: byte): set<nat>
    requires |round| == |net.servers|
  {
    set i | 0 <= i < |round| && Asked(net, round, i) == Some(a)
  }

  /** Those whose request for it arrived intact. */
  function HeardAskers(net: Net, round: Round, a: byte): set<nat>
    requires |round| == |net.servers|
  {
    IntactAskers(Requests(net, round), round, |round|, a)
  }

  function IntactAskers(asked: seq<Option<byte>>, round: Round, n: nat, a: byte): set<nat>
    requires |round| == |asked| && n <= |round|
  {
    set i | 0 <= i < n && asked[i] == Some(a) && round[i].fate.Intact?
  }

  lemma CountWithArrival(replies: Replies, asked: Option<byte>, fate: Fate, a: byte)
    ensures Count(replies + Arrival(asked, fate), a) ==
            Count(replies, a) + if asked == Some(a) && fate.Intact? then 1 else 0
  {
    var arrival := Arrival(asked, fate);
    if arrival == [] {
      assert replies + arrival == replies;
    } else {
      CountAppend(replies, arrival[0], a);
    }
  }

  lemma IntactAskersGrow(asked: seq<Option<byte>>, round: Round, n: nat, a: byte)
    requires |round| == |asked| && n < |round|
    ensures |IntactAskers(asked, round, n + 1, a)| ==
            |IntactAskers(asked, round, n, a)| + if asked[n] == Some(a) && round[n].fate.Intact? then 1 else 0
  {
    var before, now := IntactAskers(asked, round, n, a), IntactAskers(asked, round, n + 1, a);
    if asked[n] == Some(a) && round[n].fate.Intact? {
      assert now == before + {n};
    } else {
      assert now == before;
    }
  }

  /** How many of the first `n` servers asked for an address and were heard. */
  function HeardCount(asked: seq<Option<byte>>, round: Round, n: nat, a: byte): nat
    requires |round| == |asked| && n <= |round|
  {
    if n == 0 then 0
    else HeardCount(asked, round, n - 1, a) + if asked[n - 1] == Some(a) && round[n - 1].fate.Intact? then 1 else 0
  }

  lemma {:induction false} CountIsHeardCount(asked: seq<Option<byte>>, round: Round, n: nat, a: byte)
    requires |round| == |asked| && n <= |round|
    ensures Count(Arrivals(asked, round, n), a) == HeardCount(asked, round, n, a)
  {
    if n > 0 {
      CountIsHeardCount(asked, round, n - 1, a);
      CountWithArrival(Arrivals(asked, round, n - 1), asked[n - 1], round[n - 1].fate, a);
    }
  }

  lemma {:induction false} IntactAskersCount(asked: seq<Option<byte>>, round: Round, n: nat, a: byte)
    requires |round| == |asked| && n <= |round|
    ensures |IntactAskers(asked, round, n, a)| == HeardCount(asked, round, n, a)
  {
    if n == 0 {
      assert IntactAskers(asked, round, n, a) == {};
    } else {
      IntactAskersCount(asked, round, n - 1, a);
      IntactAskersGrow(asked, round, n - 1, a);
    }
  }

  lemma CountIsIntactAskers(asked: seq<Option<byte>>, round: Round, n: nat, a: byte)
    requires |round| == |asked| && n <= |round|
    ensures Count(Arrivals(asked, round, n), a) == |IntactAskers(asked, round, n, a)|
  {
    CountIsHeardCount(asked, round, n, a);
    IntactAskersCount(asked, round, n, a);
  }

  /** The addresses registered by a round are those that one intact reply asked for. */
  lemma RegisteredByRound(net: Net, round: Round, a: byte)
    requires |round| == |net.servers|
    ensures a in Singles(Heard(net, round)) <==> |HeardAskers(net, round, a)| == 1
  {
    CountIsIntactAskers(Requests(net, round), round, |round|, a);
    if |HeardAskers(net, round, a)| == 1 {
      CountedIsHeard(Heard(net, round), |Heard(net, round)|, a);
    }
  }

  /** The holders of an address that the identify message does not reach. */
  function Unreached(net: Net, round: Round, a: byte): set<nat>
    requires |round| == |net.servers|
  {
    set i | 0 <= i < |round| && !round[i].reached && net.servers[i] == Some(a)
  }

  /** An address is half heard: exactly one request for it arrived intact, but that server is not
      the only one to leave the round with it.  Others asked in vain, or missed the message. */
  ghost predicate HalfHeard(net: Net, round: Round, a: byte)
    requires |round| == |net.servers|
  {
    |HeardAskers(net, round, a)| == 1 && |Askers(net, round, a) + Unreached(net, round, a)| != 1
  }

  ghost predicate NoneHalfHeard(net: Net, round: Round)
    requires |round| == |net.servers|
  {
    forall a: byte :: !HalfHeard(net, round, a)
  }

  /** Every identify message and every reply of the round is delivered as it was sent. */
  ghost predicate AllIntact(round: Round) {
    forall i :: 0 <= i < |round| ==> round[i].reached && round[i].fate.Intact?
  }

  lemma IntactAskersAreAll(net: Net, round: Round, a: byte)
    requires |round| == |net.servers| && AllIntact(round)
    ensures HeardAskers(net, round, a) == Askers(net, round, a) + Unreached(net, round, a)
  {
  }

  lemma IntactIsNeverHalfHeard(net: Net, round: Round)
    requires |round| == |net.servers| && AllIntact(round)
    ensures NoneHalfHeard(net, round)
  {
    forall a: byte ensures !HalfHeard(net, round, a) {
      IntactAskersAreAll(net, round, a);
    }
  }

  // ---------------------------------------------------------------- uniqueness

  /** Address 0 is the client's, and every other known address is held by exactly one server. */
  ghost predicate Unique(net: Net) {
    && 0 in net.known && Holders(net, 0) == {}
    && forall a: byte :: a in net.known && a != 0 ==> |Holders(net, a)| == 1
  }

  /** A server asks for an unknown address and takes it, unless it holds a known one or none is spare. */
  lemma TurnOutcome(known: set<byte>, address: Option<byte>, random: u32)
    ensures var (newAddress, asked) := ServerTurn(known, address, random);
            if |known| == MAX_ADDRESSES || (address.Some? && address.value in known)
            then newAddress == address && asked == None
            else newAddress == asked && asked.Some? && asked.value !in known
  {
    PickSelectsSpares(known, random);
  }

  /** A server that holds a known address keeps it; any other ends up with what it asks for, or
      with what it had if the message does not reach it. */
  lemma HoldersAfterRound(net: Net, round: Round, a: byte)
    requires |round| == |net.servers|
    ensures a in net.known ==> Holders(AfterRound(net, round), a) == Holders(net, a) && Askers(net, round, a) == {}
    ensures a !in net.known ==>
              Holders(AfterRound(net, round), a) == Askers(net, round, a) + Unreached(net, round, a)
  {
    var after := AfterRound(net, round);
    forall i | 0 <= i < |round|
      ensures a in net.known ==>
                (after.servers[i] == Some(a) <==> net.servers[i] == Some(a)) && Asked(net, round, i) != Some(a)
      ensures a !in net.known ==>
                (after.servers[i] == Some(a) <==>
                  Asked(net, round, i) == Some(a) || (!round[i].reached && net.servers[i] == Some(a)))
    {
      TurnOutcome(net.known, net.servers[i], round[i].random);
      PickSelectsSpares(net.known, round[i].random);
    }
  }

  lemma HeardMeansNotFull(net: Net, round: Round, a: byte)
    requires |round| == |net.servers| && HeardAskers(net, round, a) != {}
    ensures |net.known| != MAX_ADDRESSES && a !in net.known
  {
    var i :| i in HeardAskers(net, round, a);
    TurnOutcome(net.known, net.servers[i], round[i].random);
  }

  /** What a round does to one address: a known one keeps its holders, a newly known one is
      held by everyone who asked for it or missed the message holding it, and only a newly known
      one can be half heard. */
  lemma RoundOnAddress(net: Net, round: Round, a: byte)
    requires |round| == |net.servers|
    ensures var after := AfterRound(net, round);
            && (a in net.known ==>
                 a in after.known && Holders(after, a) == Holders(net, a) && !HalfHeard(net, round, a))
            && (a in after.known && a !in net.known ==>
                 HeardAskers(net, round, a) <= Holders(after, a) && |HeardAskers(net, round, a)| == 1 &&
                 (HalfHeard(net, round, a) <==> |Holders(after, a)| != 1))
            && (a !in after.known ==> !HalfHeard(net, round, a))
  {
    HoldersAfterRound(net, round, a);
    RegisteredByRound(net, round, a);
    if HeardAskers(net, round, a) != {} {
      HeardMeansNotFull(net, round, a);
    }
  }

  /** A round keeps addresses unique exactly when no address is half heard in it. */
  lemma UniqueAfterRoundExactlyWhen(net: Net, round: Round)
    requires |round| == |net.servers| && Unique(net)
    ensures Unique(AfterRound(net, round)) <==> NoneHalfHeard(net, round)
  {
    var after := AfterRound(net, round);
    RoundOnAddress(net, round, 0);
    if Unique(after) {
      forall a: byte ensures !HalfHeard(net, round, a) {
        RoundOnAddress(net, round, a);
      }
    }
    if NoneHalfHeard(net, round) {
      forall a: byte | a in after.known && a != 0 ensures |Holders(after, a)| == 1 {
        RoundOnAddress(net, round, a);
      }
    }
  }

  // ---------------------------------------------------------------- the verdict of a round

  /** A server asked for an address and its reply was garbled on the way. */
  ghost predicate GarbledAsker(net: Net, round: Round, i: nat)
    requires |round| == |net.servers|
  {
    i < |round| && Asked(net, round, i).Some? && round[i].fate.Garbled?
  }

  /** In terms of servers and fates: no reply was garbled, and no address was asked for by two
      requests that arrived. */
  ghost predicate Uncontested(net: Net, round: Round)
    requires |round| == |net.servers|
  {
    && (forall i: nat :: !GarbledAsker(net, round, i))
    && forall a: byte :: |HeardAskers(net, round, a)| <= 1
  }

  lemma {:induction false} GarbledIsHeard(asked: seq<Option<byte>>, round: Round, n: nat)
    requires |round| == |asked| && n <= |round|
    ensures None in Arrivals(asked, round, n) <==> exists i :: 0 <= i < n && asked[i].Some? && round[i].fate.Garbled?
  {
    if n > 0 {
      GarbledIsHeard(asked, round, n - 1);
      assert None in Arrival(asked[n - 1], round[n - 1].fate) <==> asked[n - 1].Some? && round[n - 1].fate.Garbled?;
    }
  }

  /** The client's verdict in every round, whatever is lost or garbled in it. */
  lemma FinishedExactlyWhenUncontested(net: Net, round: Round)
    requires |round| == |net.servers|
    ensures Finished(net, round) <==> Uncontested(net, round)
  {
    var asked := Requests(net, round);
    GarbledIsHeard(asked, round, |round|);
    assert forall i: nat :: GarbledAsker(net, round, i) <==>
      i < |round| && asked[i].Some? && round[i].fate.Garbled?;
    forall a: byte ensures Count(Heard(net, round), a) == |HeardAskers(net, round, a)| {
      CountIsIntactAskers(asked, round, |round|, a);
    }
  }

  // ---------------------------------------------------------------- counting

  function Registered(net: Net): set<nat> {
    set i | 0 <= i < |net.servers| && net.servers[i].Some? && net.servers[i].value in net.known
  }

  function HoldersOfAny(net: Net, s: set<byte>): set<nat> {
    set i | 0 <= i < |net.servers| && net.servers[i].Some? && net.servers[i].value in s
  }

  /** What holds in every run: address 0 is the client's, and every other known address has a holder. */
  ghost predicate Held(net: Net) {
    && 0 in net.known && Holders(net, 0) == {}
    && forall a: byte :: a in net.known && a != 0 ==> Holders(net, a) != {}
  }

  lemma {:induction false} HoldersCount(net: Net, s: set<byte>)
    requires forall a: byte :: a in s ==> Holders(net, a) != {}
    ensures |HoldersOfAny(net, s)| >= |s|
    ensures (forall a: byte :: a in s ==> |Holders(net, a)| == 1) ==> |HoldersOfAny(net, s)| == |s|
  {
    if s == {} {
      assert HoldersOfAny(net, s) == {};
    } else {
      var a :| a in s;
      HoldersCount(net, s - {a});
      assert HoldersOfAny(net, s) == HoldersOfAny(net, s - {a}) + Holders(net, a);
    }
  }

  /** At least as many servers are registered as addresses are known, the client's own aside, and
      exactly as many if none is shared. */
  lemma RegisteredCount(net: Net)
    requires Held(net)
    ensures |net.known| <= 1 + |Registered(net)|
    ensures Unique(net) ==> |net.known| == 1 + |Registered(net)|
  {
    HoldersCount(net, net.known - {0});
    forall i | i in Registered(net) ensures net.servers[i].value != 0 {
      assert i !in Holders(net, 0);
    }
    assert Registered(net) == HoldersOfAny(net, net.known - {0});
  }

  function Indices(n: nat): (indices: set<nat>)
    ensures forall i :: i in indices <==> 0 <= i < n
  {
    if n == 0 then {} else Indices(n - 1) + {n - 1}
  }

  lemma {:induction false} IndicesCount(n: nat)
    ensures |Indices(n)| == n
  {
    if n > 0 {
      IndicesCount(n - 1);
    }
  }

  /** With at most 255 servers, one that is not registered always finds a spare address. */
  lemma UnregisteredFindsSpare(net: Net, i: nat, random: u32)
    requires Held(net) && |net.servers| <= 255 && i < |net.servers| && i !in Registered(net)
    ensures Pick(net.known, random).Some?
  {
    RegisteredCount(net);
    IndicesCount(|net.servers|);
    var others := Indices(|net.servers|) - {i};
    SubsetCount(Registered(net), others);
    PickSelectsSpares(net.known, random);
  }

  lemma {:induction false} SubsetCount<T>(a: set<T>, b: set<T>)
    requires a <= b
    ensures |a| <= |b|
  {
    if a != {} {
      var x :| x in a;
      SubsetCount(a - {x}, b - {x});
    }
  }

  ghost predicate AllRegistered(net: Net) {
    forall i :: 0 <= i < |net.servers| ==> i in Registered(net)
  }

  /** With more than 255 servers there is no way to register them all. */
  lemma TooManyServers(net: Net)
    requires Unique(net) && |net.servers| > 255
    ensures !AllRegistered(net)
  {
    if AllRegistered(net) {
      assert Registered(net) == Indices(|net.servers|);
      IndicesCount(|net.servers|);
      RegisteredCount(net);
      SparesComplementKnown(net.known);
    }
  }

  /** A server that the identify message reaches and whose reply, if any, is not lost. */
  predicate TakesPart(round: Round, i: nat) {
    i < |round| && round[i].reached && !round[i].fate.Lost?
  }

  ghost predicate ParticipantsRegistered(net: Net, round: Round)
    requires |round| == |net.servers|
  {
    forall i :: TakesPart(round, i) ==> i in Registered(AfterRound(net, round))
  }

  lemma UncontestedRegisters(net: Net, round: Round, i: nat)
    requires |round| == |net.servers| <= 255 && Held(net) && Uncontested(net, round) && TakesPart(round, i)
    ensures i in Registered(AfterRound(net, round))
  {
    TurnOutcome(net.known, net.servers[i], round[i].random);
    if i !in Registered(net) {
      UnregisteredFindsSpare(net, i, round[i].random);
      assert !GarbledAsker(net, round, i);
      var a := Asked(net, round, i).value;
      assert i in HeardAskers(net, round, a);
      RegisteredByRound(net, round, a);
    }
  }

  /** If everyone who took part is registered after a round, no request that arrived was contested. */
  lemma RegisteredAskOnce(net: Net, round: Round, a: byte)
    requires |round| == |net.servers| && ParticipantsRegistered(net, round)
    ensures |HeardAskers(net, round, a)| <= 1
  {
    RegisteredByRound(net, round, a);
    if HeardAskers(net, round, a) != {} {
      HeardMeansNotFull(net, round, a);
      var i :| i in HeardAskers(net, round, a);
      assert TakesPart(round, i);
      assert AfterRound(net, round).servers[i] == Some(a);
    }
  }

  /** The client's verdict, whatever is lost or garbled: with at most 255 servers a round finishes
      exactly when no reply was garbled in it and it leaves everyone who took part registered. */
  lemma VerdictUnderAnyLoss(net: Net, round: Round)
    requires |round| == |net.servers| <= 255 && Held(net)
    ensures Finished(net, round) <==>
            (forall i: nat :: !GarbledAsker(net, round, i)) && ParticipantsRegistered(net, round)
  {
    FinishedExactlyWhenUncontested(net, round);
    if Finished(net, round) {
      forall i | TakesPart(round, i) ensures i in Registered(AfterRound(net, round)) {
        UncontestedRegisters(net, round, i);
      }
    }
    if ParticipantsRegistered(net, round) {
      forall a: byte ensures |HeardAskers(net, round, a)| <= 1 {
        RegisteredAskOnce(net, round, a);
      }
    }
  }

  /** With intact delivery everyone takes part: a round finishes exactly when it leaves every server
      registered, and then their addresses differ. */
  lemma FinishedExactlyWhenAllRegistered(net: Net, round: Round)
    requires |round| == |net.servers| <= 255 && Unique(net) && AllIntact(round)
    ensures var after := AfterRound(net, round);
            && Unique(after)
            && (Finished(net, round) <==> AllRegistered(after))
            && (Finished(net, round) ==> AllDistinct(after))
  {
    var after := AfterRound(net, round);
    IntactIsNeverHalfHeard(net, round);
    UniqueAfterRoundExactlyWhen(net, round);
    VerdictUnderAnyLoss(net, round);
    forall i: nat ensures !GarbledAsker(net, round, i) && (TakesPart(round, i) <==> i < |round|) {
      assert i < |round| ==> round[i].reached && round[i].fate.Intact?;
    }
    if AllRegistered(after) {
      RegisteredAreDistinct(after);
    }
  }

  ghost predicate AllDistinct(net: Net) {
    forall i, k :: 0 <= i < k < |net.servers| ==> net.servers[i] != net.servers[k]
  }

  lemma RegisteredAreDistinct(net: Net)
    requires Unique(net) && AllRegistered(net)
    ensures AllDistinct(net)
  {
    forall i, k | 0 <= i < k < |net.servers|
      ensures net.servers[i] != net.servers[k]
    {
      assert i in Registered(net) && k in Registered(net);
      if net.servers[i] == net.servers[k] {
        var a := net.servers[i].value;
        assert i in Holders(net, a) && k in Holders(net, a);
        SubsetCount({i, k}, Holders(net, a));
      }
    }
  }

  /** A round makes exactly the addresses known that were heard once; without a half-heard one it
      registers as many servers, so any such request leaves fewer servers unregistered. */
  lemma RoundMakesProgress(net: Net, round: Round)
    requires |round| == |net.servers|
    ensures |AfterRound(net, round).known| == |net.known| + |Singles(Heard(net, round))|
    ensures Unique(net) && NoneHalfHeard(net, round) ==>
              |Registered(AfterRound(net, round))| == |Registered(net)| + |Singles(Heard(net, round))|
  {
    forall a | a in Singles(Heard(net, round)) ensures a !in net.known {
      RegisteredByRound(net, round, a);
      HeardMeansNotFull(net, round, a);
    }
    assert net.known !! Singles(Heard(net, round));
    if Unique(net) && NoneHalfHeard(net, round) {
      UniqueAfterRoundExactlyWhen(net, round);
      RegisteredCount(net);
      RegisteredCount(AfterRound(net, round));
    }
  }

  // ---------------------------------------------------------------- runs of rounds

  function Discover(net: Net, rounds: seq<Round>): Net
    requires RoundsFit(net, rounds)
    ensures |Discover(net, rounds).servers| == |net.servers|
  {
    if rounds == [] then net
    else AfterRound(Discover(net, rounds[..|rounds| - 1]), rounds[|rounds| - 1])
  }

  function NewNet(n: nat): Net {
    Net({0}, seq(n, _ => None))
  }

  predicate RoundsFit(net: Net, rounds: seq<Round>) {
    forall k :: 0 <= k < |rounds| ==> |rounds[k]| == |net.servers|
  }

  /** No address is half heard in any round. */
  ghost predicate NeverHalfHeard(n: nat, rounds: seq<Round>)
    requires RoundsFit(NewNet(n), rounds)
  {
    rounds == [] ||
    (NeverHalfHeard(n, rounds[..|rounds| - 1]) &&
     NoneHalfHeard(Discover(NewNet(n), rounds[..|rounds| - 1]), rounds[|rounds| - 1]))
  }

  /** Whatever goes wrong, a round neither forgets an address nor changes who holds a known one. */
  lemma UniqueBeforeRound(net: Net, round: Round)
    requires |round| == |net.servers| && 0 in net.known && Unique(AfterRound(net, round))
    ensures Unique(net)
  {
    forall a: byte | a in net.known
      ensures Holders(net, a) == Holders(AfterRound(net, round), a) && a in AfterRound(net, round).known
    {
      HoldersAfterRound(net, round, a);
    }
  }

  /** Whatever the servers pick, whatever is lost or garbled, and however many rounds there are:
      every known address other than 0 is held by exactly one server and none holds 0, if and only
      if no address was half heard in any round.  Then the known addresses count the registered
      servers. */
  lemma {:induction false} DiscoveryUniqueExactlyWhen(n: nat, rounds: seq<Round>)
    requires RoundsFit(NewNet(n), rounds)
    ensures var net := Discover(NewNet(n), rounds);
            && (Unique(net) <==> NeverHalfHeard(n, rounds))
            && (Unique(net) ==> |net.known| == 1 + |Registered(net)|)
  {
    var net := Discover(NewNet(n), rounds);
    if rounds == [] {
      assert Holders(NewNet(n), 0) == {};
    } else {
      var before, last := Discover(NewNet(n), rounds[..|rounds| - 1]), rounds[|rounds| - 1];
      DiscoveryUniqueExactlyWhen(n, rounds[..|rounds| - 1]);
      DiscoveryUnderAnyLoss(n, rounds[..|rounds| - 1]);
      if Unique(net) {
        UniqueBeforeRound(before, last);
      }
      if Unique(before) {
        UniqueAfterRoundExactlyWhen(before, last);
      }
    }
    if Unique(net) {
      RegisteredCount(net);
    }
  }

  ghost predicate AllRoundsIntact(rounds: seq<Round>) {
    forall k :: 0 <= k < |rounds| ==> AllIntact(rounds[k])
  }

  lemma {:induction false} IntactRoundsNeverHalfHeard(n: nat, rounds: seq<Round>)
    requires RoundsFit(NewNet(n), rounds) && AllRoundsIntact(rounds)
    ensures NeverHalfHeard(n, rounds)
  {
    if rounds != [] {
      IntactRoundsNeverHalfHeard(n, rounds[..|rounds| - 1]);
      IntactIsNeverHalfHeard(Discover(NewNet(n), rounds[..|rounds| - 1]), rounds[|rounds| - 1]);
    }
  }

  /** With intact delivery nothing can be half heard. */
  lemma IntactDiscoveryIsUnique(n: nat, rounds: seq<Round>)
    requires RoundsFit(NewNet(n), rounds) && AllRoundsIntact(rounds)
    ensures var net := Discover(NewNet(n), rounds);
            Unique(net) && |net.known| == 1 + |Registered(net)|
  {
    IntactRoundsNeverHalfHeard(n, rounds);
    DiscoveryUniqueExactlyWhen(n, rounds);
  }

  /** The verdict over whole runs: with intact delivery and at most 255 servers, the last round
      finishes exactly when every server is registered, all under different addresses, and the
      number found is the number of registered servers. */
  lemma DiscoveryVerdict(n: nat, rounds: seq<Round>)
    requires n <= 255 && RoundsFit(NewNet(n), rounds) && AllRoundsIntact(rounds) && rounds != []
    ensures var before, net := Discover(NewNet(n), rounds[..|rounds| - 1]), Discover(NewNet(n), rounds);
            && (Finished(before, rounds[|rounds| - 1]) <==> AllRegistered(net))
            && (Finished(before, rounds[|rounds| - 1]) ==> AllDistinct(net))
            && |net.known| - 1 == |Registered(net)|
  {
    IntactDiscoveryIsUnique(n, rounds[..|rounds| - 1]);
    IntactDiscoveryIsUnique(n, rounds);
    FinishedExactlyWhenAllRegistered(Discover(NewNet(n), rounds[..|rounds| - 1]), rounds[|rounds| - 1]);
  }

  /** A newly known address has at least the server that was heard. */
  lemma NewAddressHasHolder(net: Net, round: Round, a: byte)
    requires |round| == |net.servers| && a !in net.known && a in AfterRound(net, round).known
    ensures Holders(AfterRound(net, round), a) != {}
  {
    RoundOnAddress(net, round, a);
    var i :| i in HeardAskers(net, round, a);
    assert i in Holders(AfterRound(net, round), a);
  }

  /** The verdict over whole runs, whatever is lost or garbled in any round: the last round finishes
      exactly when none of its replies was garbled and none contested; with at most 255 servers,
      exactly when none was garbled and everyone who took part in it is registered. */
  lemma DiscoveryVerdictUnderAnyLoss(n: nat, rounds: seq<Round>)
    requires RoundsFit(NewNet(n), rounds) && rounds != []
    ensures var before, last := Discover(NewNet(n), rounds[..|rounds| - 1]), rounds[|rounds| - 1];
            var intact := forall i: nat :: !GarbledAsker(before, last, i);
            && (Finished(before, last) <==> intact && forall a: byte :: |HeardAskers(before, last, a)| <= 1)
            && (n <= 255 ==> (Finished(before, last) <==> intact && ParticipantsRegistered(before, last)))
  {
    var before, last := Discover(NewNet(n), rounds[..|rounds| - 1]), rounds[|rounds| - 1];
    FinishedExactlyWhenUncontested(before, last);
    DiscoveryUnderAnyLoss(n, rounds[..|rounds| - 1]);
    if n <= 255 {
      VerdictUnderAnyLoss(before, last);
    }
  }

  /** Under any garbling or loss of messages and replies: known addresses are never forgotten,
      each but 0 has a holder, and no server ever holds 0. */
  lemma {:induction false} DiscoveryUnderAnyLoss(n: nat, rounds: seq<Round>)
    requires RoundsFit(NewNet(n), rounds)
    ensures var net := Discover(NewNet(n), rounds);
            && Held(net)
            && (rounds != [] ==> Discover(NewNet(n), rounds[..|rounds| - 1]).known <= net.known)
  {
    if rounds == [] {
      assert Holders(NewNet(n), 0) == {};
    } else {
      DiscoveryUnderAnyLoss(n, rounds[..|rounds| - 1]);
      var net, last := Discover(NewNet(n), rounds[..|rounds| - 1]), rounds[|rounds| - 1];
      forall a: byte | a in AfterRound(net, last).known
        ensures if a in net.known then Holders(AfterRound(net, last), a) == Holders(net, a)
                else Holders(AfterRound(net, last), a) != {}
      {
        if a in net.known {
          HoldersAfterRound(net, last, a);
        } else {
          NewAddressHasHolder(net, last, a);
        }
      }
    }
  }

  // ---------------------------------------------------------------- two runs that go wrong

  lemma FirstTurn(random: u32) returns (a: byte)
    ensures ServerTurn({0}, None, random) == (Some(a), Some(a)) && a != 0
    ensures ServerTurn({0}, Some(a), random) == (Some(a), Some(a))
  {
    TurnOutcome({0}, None, random);
    a := Pick({0}, random).value;
  }

  lemma HeardFromTwo(net: Net, round: Round)
    requires |round| == |net.servers| == 2
    ensures Heard(net, round) ==
            Arrival(Asked(net, round, 0), round[0].fate) + Arrival(Asked(net, round, 1), round[1].fate)
  {
    var asked := Requests(net, round);
    assert Arrivals(asked, round, 1) == Arrivals(asked, round, 0) + Arrival(asked[0], round[0].fate);
  }

  /** What the client makes of two replies for one address, or of one. */
  lemma FewReplies(a: byte)
    ensures Singles([Some(a), None]) == {a} && !Undisputed([Some(a), None])
    ensures Singles([Some(a), Some(a)]) == {} && !Undisputed([Some(a), Some(a)])
    ensures Singles([Some(a)]) == {a} && Undisputed([Some(a)])
  {
    assert [Some(a)] + [None] == [Some(a), None] && [Some(a)] + [Some(a)] == [Some(a), Some(a)];
    assert [] + [Some(a)] == [Some(a)];
    forall b: byte
      ensures Count([Some(a)], b) == if a == b then 1 else 0
      ensures Count([Some(a), None], b) == Count([Some(a)], b)
      ensures Count([Some(a), Some(a)], b) == if a == b then 2 else 0
    {
      CountAppend([], Some(a), b);
      CountAppend([Some(a)], None, b);
      CountAppend([Some(a)], Some(a), b);
    }
  }

  /** Two servers that share a known address. */
  ghost predicate Shared(net: Net) {
    |net.servers| == 2 && net.servers[0].Some? && net.servers[0] == net.servers[1] && net.servers[0].value in net.known
  }

  /** Intact replies are needed: two servers that draw the same value, one reply garbled, end up
      registered under one address, and the next round reports that discovery has finished. */
  lemma GarbledReplyIsShared(random: u32)
    ensures var first, second := [Choice(true, random, Intact), Choice(true, random, Garbled)],
                                 [Choice(true, random, Intact), Choice(true, random, Intact)];
            var net := AfterRound(NewNet(2), first);
            !Finished(NewNet(2), first) && Shared(net) && Finished(net, second) && Shared(AfterRound(net, second))
  {
    var first, second := [Choice(true, random, Intact), Choice(true, random, Garbled)],
                         [Choice(true, random, Intact), Choice(true, random, Intact)];
    var net := AfterRound(NewNet(2), first);
    var a := FirstTurn(random);
    HeardFromTwo(NewNet(2), first);
    assert Heard(NewNet(2), first) == [Some(a), None];
    FewReplies(a);
    assert net.servers == [Some(a), Some(a)];
    SharedIsQuiet(net, second);
  }

  lemma SharedIsQuiet(net: Net, round: Round)
    requires |round| == 2 && Shared(net)
    ensures Finished(net, round) && AfterRound(net, round).servers == net.servers && Shared(AfterRound(net, round))
  {
    HeardFromTwo(net, round);
    assert Heard(net, round) == [];
  }

  lemma ContestedRound(random: u32, a: byte, round: Round)
    requires ServerTurn({0}, None, random) == (Some(a), Some(a))
    requires round == [Choice(true, random, Intact), Choice(true, random, Intact)]
    ensures AfterRound(NewNet(2), round) == Net({0}, [Some(a), Some(a)]) && !Finished(NewNet(2), round)
  {
    var net := NewNet(2);
    assert Turn(net, round, 0) == Turn(net, round, 1) == (Some(a), Some(a));
    HeardFromTwo(net, round);
    assert Heard(net, round) == [Some(a), Some(a)];
    FewReplies(a);
    assert AfterRound(net, round).servers == [Some(a), Some(a)];
  }

  lemma HalfReachedRound(random: u32, a: byte, round: Round)
    requires ServerTurn({0}, Some(a), random) == (Some(a), Some(a))
    requires round == [Choice(true, random, Intact), Choice(false, random, Intact)]
    ensures var net := Net({0}, [Some(a), Some(a)]);
            Shared(AfterRound(net, round)) && Finished(net, round)
  {
    var net := Net({0}, [Some(a), Some(a)]);
    HeardFromTwo(net, round);
    assert Heard(net, round) == [Some(a)];
    FewReplies(a);
  }

  /** Intact identify messages are needed: two servers contest an address in an intact round; the next
      message misses one of them, and the other's repeated request registers the address for both,
      in a round that reports that discovery has finished. */
  lemma MissedIdentifyIsShared(random: u32)
    ensures var first, second := [Choice(true, random, Intact), Choice(true, random, Intact)],
                                 [Choice(true, random, Intact), Choice(false, random, Intact)];
            var net := AfterRound(NewNet(2), first);
            !Finished(NewNet(2), first) && Unique(net) && Finished(net, second) && Shared(AfterRound(net, second))
  {
    var first, second := [Choice(true, random, Intact), Choice(true, random, Intact)],
                         [Choice(true, random, Intact), Choice(false, random, Intact)];
    var a := FirstTurn(random);
    ContestedRound(random, a, first);
    HalfReachedRound(random, a, second);
    assert Holders(AfterRound(NewNet(2), first), 0) == {};
  }
}

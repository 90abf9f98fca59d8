/** The client and one server composed: every interleaving of event generation,
    server resets, successful exchanges and lost packets.

    A run is a sequence of steps.  Beside the two machines the system carries a record
    of the current epoch: what the client believed when the epoch began, how many
    recoveries it was sent, and every delivery it accepted. */
module Delivery {
  import opened Types
  import opened EventServer
  import opened EventClient

  /** One accepted event: the log position the client's offset stood for when it polled
      (-1 without an offset), the position delivered, the event itself and the number of
      events that had been generated by then. */
  datatype Accepted<E> = Accepted(prev: int, pos: nat, event: E, generated: nat)

  datatype System<E> = System(
    server: Epoch<E>,
    client: Client,
    joined: Option<u32>,
    recoveries: nat,
    accepted: seq<Accepted<E>>)

  datatype Step<E> =
    | Generate(e: E)
    | Reset(randomOffset: u32)
    | Exchange
    | RequestLost
    | ReplyLost

  function Cursor<E>(s: System<E>): int {
    if s.client.last.None? then -1 else s.client.last.value - s.server.first
  }

  function Exchanged<E>(s: System<E>, capacity: nat): System<E>
    requires capacity >= 1
  {
    var reply := Answer(s.server, capacity, s.client.last);
    var s' := s.(client := Received(s.client, reply));
    match reply
    case None => s'
    case Some(Logged(e, _)) =>
      var pos := AnswerPosition(s.server, capacity, s.client.last).value;
      s'.(accepted := s.accepted + [Accepted(Cursor(s), pos, e, |s.server.log|)])
    case Some(_) => s'.(recoveries := s.recoveries + 1)
  }

  /** The exchange as the two programs perform it. */
  method Poll<E>(server: EventServer<E>, client: EventClient) returns (reply: Reply<E>)
    requires server.Valid() && server as object != client
    modifies client
    ensures server.Valid() && server.epoch == old(server.epoch)
    ensures reply == Answer(server.epoch, server.capacity, old(client.lastEventOffset))
    ensures client.State() == Received(old(client.State()), reply)
  {
    reply := server.HandleRequest(client.lastEventOffset);
    var _ := client.HandleReply(reply);
  }

  /** A lost request or reply changes neither side: the server answers without
      changing its own state, and the client only learns from a reply. */
  function Apply<E>(s: System<E>, capacity: nat, step: Step<E>): System<E>
    requires capacity >= 1
  {
    match step
    case Generate(e) => s.(server := s.server.(log := s.server.log + [e], announced := true))
    case Reset(o) => System(Epoch(o, [], true), s.client, s.client.last, 0, [])
    case Exchange => Exchanged(s, capacity)
    case RequestLost => s
    case ReplyLost => s
  }

  function Run<E>(s: System<E>, capacity: nat, steps: seq<Step<E>>): System<E>
    requires capacity >= 1
  {
    if steps == [] then s
    else Apply(Run(s, capacity, steps[..|steps| - 1]), capacity, steps[|steps| - 1])
  }

  ghost predicate Init<E>(s: System<E>) {
    s.server.log == [] && !s.server.announced && s.joined == s.client.last && s.recoveries == 0 && s.accepted == []
  }

  /** No offset has wrapped within its epoch in any state of the run. */
  ghost predicate RunUnwrapped<E>(s: System<E>, capacity: nat, steps: seq<Step<E>>)
    requires capacity >= 1
  {
    forall k :: 0 <= k <= |steps| ==> Unwrapped(Run(s, capacity, steps[..k]).server)
  }

  // ---------------------------------------------------------------- the invariant

  /** A delivery is the earliest event after the client's own that was still retained. */
  ghost predicate Sound<E>(s: System<E>, capacity: nat, a: Accepted<E>) {
    && a.pos == Max(a.prev + 1, a.generated - capacity)
    && a.pos < a.generated <= |s.server.log|
    && a.event == s.server.log[a.pos]
    && -1 <= a.prev
  }

  ghost predicate Chained<E>(accepted: seq<Accepted<E>>) {
    forall i :: 0 <= i < |accepted| - 1 ==>
      accepted[i + 1].prev == accepted[i].pos && accepted[i].generated <= accepted[i + 1].generated
  }

  /** The position the epoch's deliveries start from: after a recovery the first position,
      otherwise whatever the client's offset stood for when the epoch began. */
  function Origin<E>(s: System<E>): int {
    if s.recoveries == 1 then 0
    else if s.joined.None? then -1
    else s.joined.value - s.server.first
  }

  ghost predicate Inv<E>(s: System<E>, capacity: nat) {
    && (s.server.log != [] ==> s.server.announced)
    && (forall i :: 0 <= i < |s.accepted| ==> Sound(s, capacity, s.accepted[i]))
    && Chained(s.accepted)
    && s.recoveries <= 1
    && (s.recoveries == 1 ==> s.joined.Some?)
    && (s.recoveries == 1 || s.accepted != [] ==> s.server.announced)
    && s.client.last ==
       (if s.accepted != [] then Some(OffsetOf(s.server, s.accepted[|s.accepted| - 1].pos))
        else if s.recoveries == 1 then Some(s.server.first)
        else s.joined)
    && (s.accepted != [] ==> s.accepted[0].prev == Origin(s) && (s.joined.Some? ==> Origin(s) >= 0))
  }

  /** A client that the server regards as its own: it has no offset yet, or one inside the window. */
  ghost predicate InStep<E>(s: System<E>) {
    s.server.log != [] && s.server.announced && (s.client.last.Some? ==> 0 <= Cursor(s) < |s.server.log|)
  }

  /** One successful exchange of an in-step client delivers the earliest retained later event. */
  lemma ExchangeAdvances<E>(s: System<E>, capacity: nat)
    requires 1 <= capacity < U32_SIZE && InStep(s) && Unwrapped(s.server)
    ensures var s', pos := Exchanged(s, capacity), Max(Cursor(s) + 1, Evicted(s.server, capacity));
            if pos < |s.server.log|
            then && s'.accepted == s.accepted + [Accepted(Cursor(s), pos, s.server.log[pos], |s.server.log|)]
                 && s'.client.last == Some(s.server.first + pos)
                 && s' == s.(accepted := s'.accepted, client := s'.client)
                 && s'.client.recovery == s.client.recovery
            else s' == s
  {
    UnwrappedOffsets(s.server);
    AnswerInUnwrappedEpoch(s.server, capacity, s.client.last);
    PositionInUnwrappedEpoch(s.server, capacity, s.client.last);
  }

  /** A client out of step is sent a recovery, which puts it at the epoch's first position. */
  lemma ExchangeRecovers<E>(s: System<E>, capacity: nat)
    requires 1 <= capacity < U32_SIZE && s.server.announced && Unwrapped(s.server)
    requires s.client.last.Some? && !InWindow(s.server, s.client.last.value)
    ensures Exchanged(s, capacity) ==
            s.(recoveries := s.recoveries + 1,
               client := Client(Some(s.server.first),
                                if |s.server.log| <= 1 then None else Some(s.server.first + |s.server.log| - 1), 0))
  {
    UnwrappedOffsets(s.server);
  }

  lemma ChainExtends<E>(accepted: seq<Accepted<E>>, a: Accepted<E>)
    requires Chained(accepted)
    requires accepted != [] ==>
               accepted[|accepted| - 1].pos == a.prev && accepted[|accepted| - 1].generated <= a.generated
    ensures Chained(accepted + [a])
  {
    var extended := accepted + [a];
    forall i | 0 <= i < |extended| - 1
      ensures extended[i + 1].prev == extended[i].pos && extended[i].generated <= extended[i + 1].generated
    {
      if i + 1 < |accepted| {
        assert extended[i + 1] == accepted[i + 1];
      }
    }
  }

  lemma DeliveryKeepsInv<E>(s: System<E>, s': System<E>, capacity: nat, a: Accepted<E>)
    requires Inv(s, capacity) && s.server.announced && a.generated == |s.server.log| && Unwrapped(s.server)
    requires Sound(s, capacity, a) && a.prev == Cursor(s) && (s.client.last.Some? ==> a.prev >= 0)
    requires s' == s.(accepted := s.accepted + [a], client := s'.client)
    requires s'.client.last == Some(s.server.first + a.pos)
    ensures Inv(s', capacity)
  {
    if s.accepted != [] {
      assert Sound(s, capacity, s.accepted[|s.accepted| - 1]);
    }
    ChainExtends(s.accepted, a);
    forall i | 0 <= i < |s'.accepted|
      ensures Sound(s', capacity, s'.accepted[i])
    {
      assert Sound(s, capacity, s'.accepted[i]);
    }
  }

  lemma ExchangeKeepsInv<E>(s: System<E>, capacity: nat)
    requires 1 <= capacity < U32_SIZE && Inv(s, capacity) && Unwrapped(s.server)
    ensures Inv(Exchanged(s, capacity), capacity)
  {
    UnwrappedOffsets(s.server);
    DeliveryPutsInStep(s, capacity);
    if !s.server.announced {
      assert Exchanged(s, capacity) == s;
    } else if s.client.last.Some? && !InWindow(s.server, s.client.last.value) {
      ExchangeRecovers(s, capacity);
    } else if s.server.log == [] {
      assert Exchanged(s, capacity) == s;
    } else {
      ExchangeAdvances(s, capacity);
      var pos := Max(Cursor(s) + 1, Evicted(s.server, capacity));
      if pos < |s.server.log| {
        DeliveryKeepsInv(s, Exchanged(s, capacity), capacity,
                         Accepted(Cursor(s), pos, s.server.log[pos], |s.server.log|));
      }
    }
  }

  lemma GenerateKeepsInv<E>(s: System<E>, capacity: nat, e: E)
    requires 1 <= capacity && Inv(s, capacity)
    ensures Inv(Apply(s, capacity, Generate(e)), capacity)
  {
    var s' := Apply(s, capacity, Generate(e));
    forall i | 0 <= i < |s'.accepted|
      ensures Sound(s', capacity, s'.accepted[i])
    {
      assert Sound(s, capacity, s.accepted[i]);
    }
  }

  lemma {:induction false} RunKeepsInv<E>(s: System<E>, capacity: nat, steps: seq<Step<E>>)
    requires 1 <= capacity < U32_SIZE && Inv(s, capacity) && RunUnwrapped(s, capacity, steps)
    ensures Inv(Run(s, capacity, steps), capacity)
  {
    if steps != [] {
      var before := steps[..|steps| - 1];
      RunUnwrappedBefore(s, capacity, steps);
      RunKeepsInv(s, capacity, before);
      match steps[|steps| - 1] {
        case Exchange => ExchangeKeepsInv(Run(s, capacity, before), capacity);
        case Generate(e) => GenerateKeepsInv(Run(s, capacity, before), capacity, e);
        case Reset(_) =>
        case RequestLost =>
        case ReplyLost =>
      }
    }
  }

  lemma RunUnwrappedBefore<E>(s: System<E>, capacity: nat, steps: seq<Step<E>>)
    requires capacity >= 1 && steps != [] && RunUnwrapped(s, capacity, steps)
    ensures RunUnwrapped(s, capacity, steps[..|steps| - 1])
    ensures Unwrapped(Run(s, capacity, steps[..|steps| - 1]).server)
  {
    var before := steps[..|steps| - 1];
    assert forall k :: 0 <= k <= |before| ==> before[..k] == steps[..k];
  }

  // ---------------------------------------------------------------- delivery over whole runs

  ghost predicate SkippedOnlyEvicted<E>(a: Accepted<E>, capacity: nat) {
    forall p {:trigger JumpedOver(a, p)} :: JumpedOver(a, p) ==> p < a.generated - capacity
  }

  predicate JumpedOver<E>(a: Accepted<E>, p: int) {
    a.prev < p < a.pos
  }

  /** Over every run, with any number of resets and losses: what the client accepts in an
      epoch is a strictly increasing selection of the epoch's log; a position it jumps
      over had been evicted when the later one was delivered; it is sent a recovery at most
      once an epoch, and never if it began the epoch without an offset; and one delivery
      leaves it in step with the server. */
  lemma DeliveryOverWholeRuns<E>(s0: System<E>, capacity: nat, steps: seq<Step<E>>)
    requires 1 <= capacity < U32_SIZE && Init(s0) && RunUnwrapped(s0, capacity, steps)
    ensures var s := Run(s0, capacity, steps);
            && (forall i :: 0 <= i < |s.accepted| ==>
                 s.accepted[i].pos < |s.server.log| && s.accepted[i].event == s.server.log[s.accepted[i].pos])
            && (forall i, j :: 0 <= i < j < |s.accepted| ==> s.accepted[i].pos < s.accepted[j].pos)
            && (forall i :: 0 <= i < |s.accepted| ==> SkippedOnlyEvicted(s.accepted[i], capacity))
            && s.recoveries <= 1
            && (s.accepted != [] ==> InStep(s))
            && (s.joined.None? ==> s.recoveries == 0 && (s.accepted != [] ==> s.accepted[0].prev == -1))
  {
    RunKeepsInv(s0, capacity, steps);
    var s := Run(s0, capacity, steps);
    forall i | 0 <= i < |s.accepted|
      ensures SkippedOnlyEvicted(s.accepted[i], capacity) && s.accepted[i].pos < |s.server.log|
      ensures s.accepted[i].event == s.server.log[s.accepted[i].pos]
    {
      assert Sound(s, capacity, s.accepted[i]);
    }
    assert steps[..|steps|] == steps;
    DeliveryPutsInStep(s, capacity);
    forall i, j | 0 <= i < j < |s.accepted|
      ensures s.accepted[i].pos < s.accepted[j].pos
    {
      ChainIncreases(s, capacity, i, j);
    }
  }

  /** The client's event count is the number of events accepted in the epoch above a given one, modulo 2^32. */
  ghost predicate CountsFrom<E>(s: System<E>, base: nat) {
    s.client.eventCount == (base + |s.accepted|) % U32_SIZE
  }

  /** An exchange counts what it accepts, and a recovery starts the count again. */
  lemma ExchangeCountsOne<E>(s: System<E>, capacity: nat)
    requires 1 <= capacity
    ensures var s' := Exchanged(s, capacity);
            || s' == s
            || (s'.recoveries == s.recoveries && |s'.accepted| == |s.accepted| + 1 &&
                s'.client.eventCount == (s.client.eventCount + 1) % U32_SIZE)
            || (s'.recoveries == s.recoveries + 1 && s'.accepted == s.accepted && s'.client.eventCount == 0)
  {
  }

  lemma RecoveredBeforeAccepting<E>(s: System<E>, capacity: nat)
    requires 1 <= capacity < U32_SIZE && Inv(s, capacity) && Unwrapped(s.server)
    ensures Exchanged(s, capacity).recoveries != s.recoveries ==> s.accepted == []
  {
    DeliveryPutsInStep(s, capacity);
    if InStep(s) {
      ExchangeAdvances(s, capacity);
    }
  }

  lemma CountNext(base: nat, n: nat)
    ensures ((base + n) % U32_SIZE + 1) % U32_SIZE == (base + (n + 1)) % U32_SIZE
  {
  }

  lemma ExchangeCounts<E>(s: System<E>, capacity: nat, base: nat)
    requires 1 <= capacity < U32_SIZE && Inv(s, capacity) && Unwrapped(s.server)
    ensures var s' := Exchanged(s, capacity);
            if s'.recoveries == s.recoveries then CountsFrom(s, base) ==> CountsFrom(s', base) else CountsFrom(s', 0)
  {
    ExchangeCountsOne(s, capacity);
    RecoveredBeforeAccepting(s, capacity);
    CountNext(base, |s.accepted|);
  }

  lemma StepCounts<E>(s: System<E>, capacity: nat, step: Step<E>, base: nat)
    requires 1 <= capacity < U32_SIZE && Inv(s, capacity) && Unwrapped(s.server)
    ensures var s' := Apply(s, capacity, step);
            && s'.recoveries <= 1
            && ((s.recoveries == 1 ==> CountsFrom(s, 0)) ==> (s'.recoveries == 1 ==> CountsFrom(s', 0)))
            && ((s.recoveries == 0 ==> CountsFrom(s, base)) && !step.Reset? ==>
                 (s'.recoveries == 0 ==> CountsFrom(s', base)))
  {
    if step.Exchange? {
      ExchangeKeepsInv(s, capacity);
      ExchangeCounts(s, capacity, base);
      ExchangeCounts(s, capacity, 0);
    }
  }

  /** From a recovery on, the client's event count is the number of events accepted, modulo 2^32;
      without recovery or reset, that number is added to what the count was. */
  lemma {:induction false} EventCountOverRuns<E>(s0: System<E>, capacity: nat, steps: seq<Step<E>>)
    requires 1 <= capacity < U32_SIZE && Init(s0) && RunUnwrapped(s0, capacity, steps)
    ensures var s := Run(s0, capacity, steps);
            && (s.recoveries == 1 ==> CountsFrom(s, 0))
            && ((forall i :: 0 <= i < |steps| ==> !steps[i].Reset?) ==>
                 (s.recoveries == 0 ==> CountsFrom(s, s0.client.eventCount)))
  {
    if steps != [] {
      var front, last := steps[..|steps| - 1], steps[|steps| - 1];
      RunUnwrappedBefore(s0, capacity, steps);
      EventCountOverRuns(s0, capacity, front);
      RunKeepsInv(s0, capacity, front);
      StepCounts(Run(s0, capacity, front), capacity, last, s0.client.eventCount);
    }
  }

  lemma DeliveryPutsInStep<E>(s: System<E>, capacity: nat)
    requires Inv(s, capacity) && Unwrapped(s.server)
    ensures s.accepted != [] ==> InStep(s)
  {
    if s.accepted != [] {
      assert Sound(s, capacity, s.accepted[|s.accepted| - 1]);
    }
  }

  lemma {:induction false} ChainIncreases<E>(s: System<E>, capacity: nat, i: nat, j: nat)
    requires Inv(s, capacity) && i < j < |s.accepted|
    ensures s.accepted[i].pos < s.accepted[j].pos
    decreases j
  {
    assert Sound(s, capacity, s.accepted[j]);
    assert s.accepted[j - 1 + 1].prev == s.accepted[j - 1].pos;
    if i < j - 1 {
      ChainIncreases(s, capacity, i, j - 1);
    }
  }

  /** The lag of a poll: the number of events generated after the client's own. */
  function Lag<E>(a: Accepted<E>): int {
    a.generated - 1 - a.prev
  }

  function Events<E>(accepted: seq<Accepted<E>>): (events: seq<E>)
    ensures |events| == |accepted|
    ensures forall i :: 0 <= i < |events| ==> events[i] == accepted[i].event
  {
    seq(|accepted|, i requires 0 <= i < |accepted| => accepted[i].event)
  }

  ghost predicate Consecutive<E>(accepted: seq<Accepted<E>>) {
    forall i :: 0 <= i < |accepted| ==> accepted[i].pos == accepted[i].prev + 1
  }

  lemma {:induction false} ConsecutivePositions<E>(accepted: seq<Accepted<E>>, i: nat)
    requires Chained(accepted) && Consecutive(accepted) && i < |accepted|
    ensures accepted[i].pos == accepted[0].prev + 1 + i
  {
    if i > 0 {
      ConsecutivePositions(accepted, i - 1);
      assert accepted[i - 1 + 1].prev == accepted[i - 1].pos;
    }
  }

  /** No answered poll lagged by more than the capacity. */
  ghost predicate WithinLag<E>(accepted: seq<Accepted<E>>, capacity: nat) {
    forall i :: 0 <= i < |accepted| ==> Lag(accepted[i]) <= capacity
  }

  /** The accepted events are the log's, one after another, from where the client stood. */
  ghost predicate IsStretchOfLog<E>(s: System<E>)
    requires s.accepted != []
  {
    var from := s.accepted[0].prev + 1;
    && 0 <= from && from + |s.accepted| <= |s.server.log|
    && Events(s.accepted) == s.server.log[from..from + |s.accepted|]
  }

  ghost predicate EventsFrom<E>(accepted: seq<Accepted<E>>, log: seq<E>, from: int) {
    && 0 <= from && from + |accepted| <= |log|
    && forall i :: 0 <= i < |accepted| ==> accepted[i].event == log[from + i]
  }

  lemma EventsAreStretch<E>(accepted: seq<Accepted<E>>, log: seq<E>, from: int)
    requires EventsFrom(accepted, log, from)
    ensures Events(accepted) == log[from..from + |accepted|]
  {
  }

  lemma ConsecutiveEvent<E>(s: System<E>, capacity: nat, i: nat)
    requires Inv(s, capacity) && Consecutive(s.accepted) && i < |s.accepted|
    ensures var pos := s.accepted[0].prev + 1 + i;
            0 <= s.accepted[0].prev + 1 && pos < |s.server.log| && s.accepted[i].event == s.server.log[pos]
  {
    ConsecutivePositions(s.accepted, i);
    assert Sound(s, capacity, s.accepted[i]);
    assert Sound(s, capacity, s.accepted[0]);
  }

  /** Deliveries without a gap are a contiguous stretch of the log. */
  lemma ConsecutiveIsStretch<E>(s: System<E>, capacity: nat)
    requires Inv(s, capacity) && Consecutive(s.accepted) && s.accepted != []
    ensures IsStretchOfLog(s)
  {
    ConsecutiveEvents(s, capacity);
    EventsAreStretch(s.accepted, s.server.log, s.accepted[0].prev + 1);
  }

  lemma ConsecutiveEvents<E>(s: System<E>, capacity: nat)
    requires Inv(s, capacity) && Consecutive(s.accepted) && s.accepted != []
    ensures EventsFrom(s.accepted, s.server.log, s.accepted[0].prev + 1)
  {
    ConsecutiveEvent(s, capacity, |s.accepted| - 1);
    forall i | 0 <= i < |s.accepted|
      ensures s.accepted[i].event == s.server.log[s.accepted[0].prev + 1 + i]
    {
      ConsecutiveEvent(s, capacity, i);
    }
  }

  lemma GaplessExactlyWithinLag<E>(s: System<E>, capacity: nat)
    requires Inv(s, capacity)
    ensures Consecutive(s.accepted) <==> WithinLag(s.accepted, capacity)
  {
    forall i | 0 <= i < |s.accepted|
      ensures s.accepted[i].pos == s.accepted[i].prev + 1 <==> Lag(s.accepted[i]) <= capacity
    {
      assert Sound(s, capacity, s.accepted[i]);
    }
  }

  lemma {:induction false} PositionBounds<E>(s: System<E>, capacity: nat, i: nat)
    requires Inv(s, capacity) && i < |s.accepted|
    ensures s.accepted[i].pos >= s.accepted[0].prev + 1 + i
  {
    assert Sound(s, capacity, s.accepted[i]);
    if i > 0 {
      PositionBounds(s, capacity, i - 1);
      assert s.accepted[i - 1 + 1].prev == s.accepted[i - 1].pos;
    }
  }

  /** Every event so far was delivered: the accepted positions are 0, 1, 2 and so on. */
  ghost predicate FromTheStart<E>(accepted: seq<Accepted<E>>) {
    forall i :: 0 <= i < |accepted| ==> accepted[i].pos == i
  }

  lemma FromTheStartIsConsecutive<E>(s: System<E>, capacity: nat)
    requires Inv(s, capacity) && s.accepted != [] && FromTheStart(s.accepted)
    ensures s.accepted[0].prev == -1 && Consecutive(s.accepted)
  {
    assert Sound(s, capacity, s.accepted[0]);
    forall i | 0 <= i < |s.accepted| ensures s.accepted[i].pos == s.accepted[i].prev + 1 {
      if i > 0 {
        assert s.accepted[i - 1 + 1].prev == s.accepted[i - 1].pos;
      }
    }
  }

  lemma ConsecutiveFromTheStart<E>(s: System<E>, capacity: nat)
    requires Inv(s, capacity) && s.accepted != [] && s.joined.None? && Consecutive(s.accepted)
    ensures FromTheStart(s.accepted) && Events(s.accepted) <= s.server.log
  {
    forall i | 0 <= i < |s.accepted| ensures s.accepted[i].pos == i {
      ConsecutivePositions(s.accepted, i);
    }
    ConsecutiveIsStretch(s, capacity);
  }

  /** Nothing is missed, over every run: a client that has accepted anything in an epoch has
      accepted every event up to its last one if and only if it began the epoch without an offset
      and no answered poll lagged by more than the capacity. */
  lemma NothingMissedExactlyWhen<E>(s0: System<E>, capacity: nat, steps: seq<Step<E>>)
    requires 1 <= capacity < U32_SIZE && Init(s0) && RunUnwrapped(s0, capacity, steps)
    ensures var s := Run(s0, capacity, steps);
            s.accepted != [] ==>
              && (FromTheStart(s.accepted) <==> s.joined.None? && WithinLag(s.accepted, capacity))
              && (FromTheStart(s.accepted) ==> Events(s.accepted) <= s.server.log)
  {
    RunKeepsInv(s0, capacity, steps);
    var s := Run(s0, capacity, steps);
    GaplessExactlyWithinLag(s, capacity);
    if s.accepted != [] {
      if FromTheStart(s.accepted) {
        FromTheStartIsConsecutive(s, capacity);
      }
      if s.joined.None? && Consecutive(s.accepted) {
        ConsecutiveFromTheStart(s, capacity);
      }
    }
  }

  /** A client that holds an offset when an epoch begins, be it stale or about to be replaced by a
      recovery, never accepts the epoch's first event. */
  lemma FirstEventNeverReachesJoiner<E>(s0: System<E>, capacity: nat, steps: seq<Step<E>>)
    requires 1 <= capacity < U32_SIZE && Init(s0) && RunUnwrapped(s0, capacity, steps)
    ensures var s := Run(s0, capacity, steps);
            s.joined.Some? ==> forall i :: 0 <= i < |s.accepted| ==> s.accepted[i].pos > 0
  {
    RunKeepsInv(s0, capacity, steps);
    var s := Run(s0, capacity, steps);
    forall i | 0 <= i < |s.accepted| && s.joined.Some? ensures s.accepted[i].pos > 0 {
      PositionBounds(s, capacity, i);
    }
  }

  /** From the position it first polls from, a client skips no event exactly when no answered poll
      lagged by more than the capacity, and then it accepts a contiguous stretch of the log. */
  lemma NoSkipExactlyWithinCapacity<E>(s0: System<E>, capacity: nat, steps: seq<Step<E>>)
    requires 1 <= capacity < U32_SIZE && Init(s0) && RunUnwrapped(s0, capacity, steps)
    ensures var s := Run(s0, capacity, steps);
            && (Consecutive(s.accepted) <==> WithinLag(s.accepted, capacity))
            && (Consecutive(s.accepted) && s.accepted != [] ==> IsStretchOfLog(s))
  {
    RunKeepsInv(s0, capacity, steps);
    var s := Run(s0, capacity, steps);
    GaplessExactlyWithinLag(s, capacity);
    if Consecutive(s.accepted) && s.accepted != [] {
      ConsecutiveIsStretch(s, capacity);
    }
  }

  /** A client in step stays in step until the server resets, and is never sent a recovery. */
  lemma {:induction false} InStepIsKept<E>(s: System<E>, capacity: nat, steps: seq<Step<E>>)
    requires 1 <= capacity < U32_SIZE && InStep(s) && RunUnwrapped(s, capacity, steps)
    requires forall i :: 0 <= i < |steps| ==> !steps[i].Reset?
    ensures var s' := Run(s, capacity, steps);
            && InStep(s') && s'.recoveries == s.recoveries && s'.client.recovery == s.client.recovery
            && s'.server.first == s.server.first && s.server.log <= s'.server.log
            && Cursor(s) <= Cursor(s') && s.accepted <= s'.accepted
  {
    if steps != [] {
      RunUnwrappedBefore(s, capacity, steps);
      InStepIsKept(s, capacity, steps[..|steps| - 1]);
      if steps[|steps| - 1].Exchange? {
        ExchangeAdvances(Run(s, capacity, steps[..|steps| - 1]), capacity);
      }
    }
  }

  // ---------------------------------------------------------------- catching up

  function Polls<E>(k: nat): seq<Step<E>> {
    seq(k, _ => Exchange)
  }

  lemma PollsSplit<E>(k: nat)
    requires k > 0
    ensures |Polls<E>(k)| == k && Polls<E>(k)[..k - 1] == Polls<E>(k - 1) && Polls<E>(k)[k - 1] == Exchange
  {
  }

  /** Position reached by `k` polls of a quiet server, starting at `from`. */
  function CaughtUpTo<E>(s: System<E>, capacity: nat, k: nat): (to: nat)
    requires InStep(s) && capacity >= 1
    ensures Max(Cursor(s) + 1, Evicted(s.server, capacity)) <= to <= |s.server.log|
  {
    Min(Max(Cursor(s) + 1, Evicted(s.server, capacity)) + k, |s.server.log|)
  }

  /** `s'` is `s` after `k` answered polls: the first `k` of the retained events that the
      client had not seen were delivered, in order, and nothing else has changed. */
  ghost predicate CaughtUp<E>(s: System<E>, s': System<E>, capacity: nat, k: nat)
    requires InStep(s) && capacity >= 1
  {
    var from, to := CaughtUpTo(s, capacity, 0), CaughtUpTo(s, capacity, k);
    && InStep(s') && s'.server == s.server && s'.recoveries == s.recoveries
    && Cursor(s') == (if from < to then to - 1 else Cursor(s))
    && Events(s'.accepted) == Events(s.accepted) + s.server.log[from..to]
  }

  lemma StretchGrows<E>(accepted: seq<Accepted<E>>, a: Accepted<E>, seen: seq<E>, log: seq<E>, from: nat, to: nat)
    requires from <= to < |log| && Events(accepted) == seen + log[from..to] && a.event == log[to]
    ensures Events(accepted + [a]) == seen + log[from..to + 1]
  {
    assert Events(accepted + [a]) == Events(accepted) + [log[to]];
    assert log[from..to + 1] == log[from..to] + [log[to]];
  }

  lemma QuietPoll<E>(s: System<E>, mid: System<E>, capacity: nat, k: nat)
    requires 1 <= capacity < U32_SIZE && InStep(s) && Unwrapped(s.server) && CaughtUp(s, mid, capacity, k)
    ensures CaughtUp(s, Exchanged(mid, capacity), capacity, k + 1)
  {
    var from, to, log := CaughtUpTo(s, capacity, 0), CaughtUpTo(s, capacity, k), s.server.log;
    ExchangeAdvances(mid, capacity);
    assert Max(Cursor(mid) + 1, Evicted(s.server, capacity)) == to;
    assert CaughtUpTo(s, capacity, k + 1) == if to < |log| then to + 1 else to;
    if to < |log| {
      StretchGrows(mid.accepted, Accepted(Cursor(mid), to, log[to], |log|), Events(s.accepted), log, from, to);
    }
  }

  /** With the server quiet, any number of successful polls catches up one event a poll. */
  lemma {:induction false} QuietCatchUp<E>(s: System<E>, capacity: nat, k: nat)
    requires 1 <= capacity < U32_SIZE && InStep(s) && Unwrapped(s.server)
    ensures CaughtUp(s, Run(s, capacity, Polls(k)), capacity, k)
  {
    if k == 0 {
      assert Events(s.accepted) + [] == Events(s.accepted);
    } else {
      PollsSplit<E>(k);
      QuietCatchUp(s, capacity, k - 1);
      QuietPoll(s, Run(s, capacity, Polls(k - 1)), capacity, k - 1);
    }
  }

  /** The offset left to catch up to reaches zero within as many polls as it counts. */
  lemma QuietCatchUpReachesEnd<E>(s: System<E>, capacity: nat, k: nat)
    requires 1 <= capacity < U32_SIZE && InStep(s) && Unwrapped(s.server)
    requires k >= |s.server.log| - 1 - Cursor(s)
    ensures Run(s, capacity, Polls(k)).client.last == Some(EndOffset(s.server))
  {
    UnwrappedOffsets(s.server);
    QuietCatchUp(s, capacity, k);
  }

  function Exchanges<E>(steps: seq<Step<E>>): nat {
    if steps == [] then 0
    else Exchanges(steps[..|steps| - 1]) + if steps[|steps| - 1].Exchange? then 1 else 0
  }

  /** In every state of the run the epoch goes on, unwrapped, and event `target` is retained. */
  ghost predicate TargetRetained<E>(s: System<E>, capacity: nat, steps: seq<Step<E>>, target: nat)
    requires capacity >= 1
  {
    && (forall i :: 0 <= i < |steps| ==> !steps[i].Reset?)
    && (forall k :: 0 <= k <= |steps| ==>
         var server := Run(s, capacity, steps[..k]).server;
         Unwrapped(server) && Evicted(server, capacity) <= target < |server.log|)
  }

  ghost predicate TargetReached<E>(s: System<E>, capacity: nat, steps: seq<Step<E>>, target: nat)
    requires capacity >= 1
  {
    exists k :: 0 <= k <= |steps| && Cursor(Run(s, capacity, steps[..k])) == target
  }

  /** Recovery ends: whatever else is generated or lost meanwhile, a client below the
      recovery target lands exactly on it within as many successful exchanges as
      positions are left, provided the target is not evicted first. */
  lemma {:induction false} RecoveryCompletes<E>(s: System<E>, capacity: nat, steps: seq<Step<E>>, target: nat)
    requires 1 <= capacity < U32_SIZE && InStep(s) && Cursor(s) <= target
    requires TargetRetained(s, capacity, steps, target)
    ensures TargetReached(s, capacity, steps, target) ||
            Cursor(s) + Exchanges(steps) <= Cursor(Run(s, capacity, steps)) < target
    ensures Exchanges(steps) >= target - Cursor(s) ==> TargetReached(s, capacity, steps, target)
  {
    if steps == [] {
      assert Run(s, capacity, steps[..0]) == s;
    } else {
      var before := steps[..|steps| - 1];
      assert forall k :: 0 <= k <= |before| ==> before[..k] == steps[..k];
      assert TargetRetained(s, capacity, before, target);
      RecoveryCompletes(s, capacity, before, target);
      if TargetReached(s, capacity, before, target) {
        var k :| 0 <= k <= |before| && Cursor(Run(s, capacity, before[..k])) == target;
        assert Cursor(Run(s, capacity, steps[..k])) == target;
      } else {
        InStepIsKept(s, capacity, before);
        if steps[|steps| - 1].Exchange? {
          ExchangeAdvances(Run(s, capacity, before), capacity);
        }
        assert steps[..|steps|] == steps;
      }
    }
  }

  /** The recovery that a client out of step is sent puts it in step at the epoch's first
      position with the window's end as its target; the first event is not delivered to it. */
  lemma RecoveryPutsInStep<E>(s: System<E>, capacity: nat)
    requires 1 <= capacity < U32_SIZE && Inv(s, capacity) && Unwrapped(s.server) && s.server.log != []
    requires s.client.last.Some? && !InWindow(s.server, s.client.last.value)
    ensures var s' := Exchanged(s, capacity);
            && InStep(s') && s'.server == s.server && Cursor(s') == 0 && s'.accepted == s.accepted == []
            && s'.client.recovery == (if |s.server.log| == 1 then None else Some(s.server.first + |s.server.log| - 1))
  {
    UnwrappedOffsets(s.server);
    if s.accepted != [] {
      DeliveryPutsInStep(s, capacity);
    }
    ExchangeRecovers(s, capacity);
  }

  /** The client stands on the offset that its recovery is to reach. */
  ghost predicate Recovered<E>(s: System<E>) {
    s.client.last.Some? && s.client.last == s.client.recovery
  }

  lemma TargetIsRecoveryOffset<E>(s: System<E>, capacity: nat, steps: seq<Step<E>>, target: nat)
    requires 1 <= capacity < U32_SIZE && InStep(s) && RunUnwrapped(s, capacity, steps)
    requires forall i :: 0 <= i < |steps| ==> !steps[i].Reset?
    requires s.server.first + target < U32_SIZE && s.client.recovery == Some(s.server.first + target)
    requires Cursor(Run(s, capacity, steps)) == target
    ensures Recovered(Run(s, capacity, steps))
  {
    InStepIsKept(s, capacity, steps);
  }

  ghost predicate RecoversDuring<E>(s: System<E>, capacity: nat, steps: seq<Step<E>>)
    requires capacity >= 1
  {
    exists k :: 0 <= k <= |steps| && Recovered(Run(s, capacity, steps[..k]))
  }

  /** From the recovery on: the client lands on the end that the recovery announced within as many
      successful exchanges as events lie between, unless that event is evicted first. */
  lemma RecoveryReachesAnnouncedEnd<E>(s: System<E>, s': System<E>, capacity: nat, steps: seq<Step<E>>)
    requires 1 <= capacity < U32_SIZE && Inv(s, capacity) && Unwrapped(s.server) && |s.server.log| > 1
    requires s.client.last.Some? && !InWindow(s.server, s.client.last.value) && s' == Exchanged(s, capacity)
    requires TargetRetained(s', capacity, steps, |s.server.log| - 1) && Exchanges(steps) >= |s.server.log| - 1
    ensures RecoversDuring(s', capacity, steps)
  {
    RecoveryPutsInStep(s, capacity);
    UnwrappedOffsets(s.server);
    RecoveryFromInStep(s', capacity, steps, |s.server.log| - 1);
  }

  lemma RecoveryFromInStep<E>(s: System<E>, capacity: nat, steps: seq<Step<E>>, target: nat)
    requires 1 <= capacity < U32_SIZE && InStep(s) && Cursor(s) <= target && Exchanges(steps) >= target - Cursor(s)
    requires TargetRetained(s, capacity, steps, target)
    requires s.server.first + target < U32_SIZE && s.client.recovery == Some(s.server.first + target)
    ensures RecoversDuring(s, capacity, steps)
  {
    RecoveryCompletes(s, capacity, steps, target);
    var k :| 0 <= k <= |steps| && Cursor(Run(s, capacity, steps[..k])) == target;
    assert forall i :: 0 <= i <= k ==> steps[..k][..i] == steps[..i];
    TargetIsRecoveryOffset(s, capacity, steps[..k], target);
  }

  // ---------------------------------------------------------------- after a wrap

  /** Once the end offset has wrapped below the first, the plain comparison makes the window
      empty: every poll with an offset is sent a recovery and no event is ever delivered. */
  lemma {:induction false} WrappedWindowStarves<E>(s: System<E>, capacity: nat, k: nat)
    requires capacity >= 1 && s.server.announced && EndOffset(s.server) < s.server.first
    requires s.client.last.Some? && k > 0
    ensures var s' := Run(s, capacity, Polls(k));
            s'.client.last == Some(s.server.first) && s'.accepted == s.accepted && s'.server == s.server
  {
    PollsSplit<E>(k);
    if k > 1 {
      WrappedWindowStarves(s, capacity, k - 1);
    } else {
      assert Run(s, capacity, Polls<E>(0)) == s;
    }
  }

  /** A log of one event more than the offsets from `first` up starves its client. */
  lemma WrapIsReached<E>(s: Epoch<E>)
    requires s.first + |s.log| == U32_SIZE + 1 && s.first > 0
    ensures !Unwrapped(s) && EndOffset(s) == 0 < s.first
  {
  }
}

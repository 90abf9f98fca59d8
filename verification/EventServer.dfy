/** The server of the logged-event exchange: a bounded history of events, the
    offsets it announces, and the search that answers a poll.

    `Answer` is the specification: it speaks of the full log of one server epoch
    (everything generated since the last reset) and of offsets counted modulo
    2^32.  `EventServer` is the program: a bounded queue, three offset variables
    and a backward search, proved to answer exactly as `Answer` says in every
    state, wrapped or not. */
module EventServer {
  import opened Types

  type NoEE = ()

  datatype EventOf<E, EE> =
    | Logged(event: E, offset: u32)
    | Ephemeral(ephemeral: EE)
    | Recovery(start: u32, end: u32)

  type Reply<E> = Option<EventOf<E, NoEE>>

  // ---------------------------------------------------------------- specification

  /** One epoch of a server: the offset of its first event, every event generated
      in the epoch, and whether it has announced a start and an end offset. */
  datatype Epoch<E> = Epoch(first: u32, log: seq<E>, announced: bool)

  function OffsetOf<E>(s: Epoch<E>, pos: nat): u32 {
    (s.first + pos) % U32_SIZE
  }

  /** The number of events that a history of `capacity` events has dropped. */
  function Evicted<E>(s: Epoch<E>, capacity: nat): nat {
    Max(0, |s.log| - capacity)
  }

  /** The last announced offset; a reset announces `first` before any event exists. */
  function EndOffset<E>(s: Epoch<E>): u32 {
    OffsetOf(s, Max(0, |s.log| - 1))
  }

  /** The retained position, if any, whose event carries the given offset. */
  function FindRetained<E>(s: Epoch<E>, capacity: nat, offset: u32): Option<nat> {
    var oldest := Evicted(s, capacity);
    var pos := oldest + (offset - (s.first + oldest)) % U32_SIZE;
    if pos < |s.log| then Some(pos) else None
  }

  predicate InWindow<E>(s: Epoch<E>, offset: u32) {
    s.first <= offset <= EndOffset(s)
  }

  /** Which event of the log, if any, answers a poll that is inside the window. */
  function AnswerPosition<E>(s: Epoch<E>, capacity: nat, last: Option<u32>): (pos: Option<nat>)
    requires capacity >= 1
    ensures pos.Some? ==> Evicted(s, capacity) <= pos.value < |s.log|
  {
    if s.log == [] then None
    else if last.None? then Some(Evicted(s, capacity))
    else if FindRetained(s, capacity, (last.value + 1) % U32_SIZE).Some? then
      FindRetained(s, capacity, (last.value + 1) % U32_SIZE)
    else if FindRetained(s, capacity, last.value).Some? then None
    else Some(Evicted(s, capacity))
  }

  function Answer<E>(s: Epoch<E>, capacity: nat, last: Option<u32>): Reply<E>
    requires capacity >= 1
  {
    if !s.announced then None
    else if last.Some? && !InWindow(s, last.value) then Some(Recovery(s.first, EndOffset(s)))
    else
      var pos := AnswerPosition(s, capacity, last);
      if pos.None? then None else Some(Logged(s.log[pos.value], OffsetOf(s, pos.value)))
  }

  /** No offset of the epoch has wrapped round to zero. */
  predicate Unwrapped<E>(s: Epoch<E>) {
    s.first + |s.log| <= U32_SIZE
  }

  lemma UnwrappedResidue(x: int)
    requires -U32_SIZE < x < U32_SIZE
    ensures x % U32_SIZE == if x >= 0 then x else x + U32_SIZE
  {
  }

  lemma UnwrappedOffsets<E>(s: Epoch<E>)
    requires Unwrapped(s)
    ensures forall pos :: 0 <= pos < |s.log| ==> OffsetOf(s, pos) == s.first + pos
    ensures s.log != [] ==> EndOffset(s) == s.first + |s.log| - 1
    ensures s.log == [] ==> EndOffset(s) == s.first
  {
  }

  /** In an unwrapped epoch the retained offsets are a plain interval. */
  lemma UnwrappedRetained<E>(s: Epoch<E>, capacity: nat, o: u32)
    requires 1 <= capacity < U32_SIZE && Unwrapped(s) && s.log != []
    ensures FindRetained(s, capacity, o) ==
            if s.first + Evicted(s, capacity) <= o < s.first + |s.log| then Some(o - s.first) else None
  {
    UnwrappedResidue(o - (s.first + Evicted(s, capacity)));
  }

  /** A poll from inside the window of an unwrapped epoch is answered with the earliest
      retained event after the client's own, if there is one. */
  lemma PositionInUnwrappedEpoch<E>(s: Epoch<E>, capacity: nat, last: Option<u32>)
    requires 1 <= capacity < U32_SIZE && Unwrapped(s) && s.log != []
    requires last.Some? ==> s.first <= last.value < s.first + |s.log|
    ensures var pos := Max(if last.None? then 0 else last.value - s.first + 1, Evicted(s, capacity));
            AnswerPosition(s, capacity, last) == if pos < |s.log| then Some(pos) else None
  {
    if last.Some? {
      var next := (last.value + 1) % U32_SIZE;
      assert next == if last.value + 1 == U32_SIZE then 0 else last.value + 1;
      UnwrappedRetained(s, capacity, next);
      UnwrappedRetained(s, capacity, last.value);
    }
  }

  /** The whole answer in an unwrapped epoch, in plain offsets.  A reset leaves an announced
      epoch without events, which answers any offset but its own first with a recovery. */
  lemma AnswerInUnwrappedEpoch<E>(s: Epoch<E>, capacity: nat, last: Option<u32>)
    requires 1 <= capacity < U32_SIZE && Unwrapped(s) && s.announced
    ensures s.log == [] ==>
              Answer(s, capacity, last) ==
              if last.Some? && last.value != s.first then Some(Recovery(s.first, s.first)) else None
    ensures s.log != [] && last.None? ==>
              Answer(s, capacity, last) == Some(Logged(s.log[Evicted(s, capacity)], s.first + Evicted(s, capacity)))
    ensures s.log != [] && last.Some? && !(s.first <= last.value < s.first + |s.log|) ==>
              Answer(s, capacity, last) == Some(Recovery(s.first, s.first + |s.log| - 1))
    ensures s.log != [] && last == Some(s.first + |s.log| - 1) ==> Answer(s, capacity, last) == None
    ensures s.log != [] && last.Some? && s.first <= last.value < s.first + |s.log| - 1 ==>
              var pos := Max(last.value - s.first + 1, Evicted(s, capacity));
              pos < |s.log| && Answer(s, capacity, last) == Some(Logged(s.log[pos], s.first + pos))
  {
    UnwrappedOffsets(s);
    if s.log != [] && (last.None? || InWindow(s, last.value)) {
      PositionInUnwrappedEpoch(s, capacity, last);
    }
  }

  // ---------------------------------------------------------------- wrapping

  /** A client that holds an offset of this epoch is not sent a recovery. */
  ghost predicate NeverRecoversOwn<E>(s: Epoch<E>, capacity: nat)
    requires capacity >= 1
  {
    forall pos :: 0 <= pos < |s.log| ==> !IsRecovery(Answer(s, capacity, Some(OffsetOf(s, pos))))
  }

  predicate IsRecovery<E>(reply: Reply<E>) {
    reply.Some? && reply.value.Recovery?
  }

  /** The window is tested by plain comparison, so this holds exactly until an offset wraps, and
      again only when the offsets have come round to fill the whole range from zero. */
  lemma NeverRecoversOwnExactlyWhen<E>(s: Epoch<E>, capacity: nat)
    requires capacity >= 1 && s.announced && s.log != []
    ensures NeverRecoversOwn(s, capacity) <==> Unwrapped(s) || (s.first == 0 && |s.log| % U32_SIZE == 0)
  {
    if Unwrapped(s) {
      UnwrappedOffsets(s);
    } else if s.first > 0 {
      var pos := U32_SIZE - s.first;
      assert OffsetOf(s, pos) == 0;
      assert IsRecovery(Answer(s, capacity, Some(OffsetOf(s, pos))));
    } else {
      var pos := U32_SIZE - 1;
      assert OffsetOf(s, pos) == U32_SIZE - 1;
      assert EndOffset(s) == (|s.log| - 1) % U32_SIZE;
      assert EndOffset(s) == U32_SIZE - 1 <==> |s.log| % U32_SIZE == 0;
      assert IsRecovery(Answer(s, capacity, Some(OffsetOf(s, pos)))) <==> EndOffset(s) < U32_SIZE - 1;
    }
  }

  // ---------------------------------------------------------------- the offset table

  /** The response table of the offset rules, for a poll that carries an offset, over
      the retained history of a non-empty epoch. */
  function TableAnswer<E>(s: Epoch<E>, capacity: nat, n: u32): Reply<E>
    requires capacity >= 1 && s.log != []
  {
    var successor := FindRetained(s, capacity, (n + 1) % U32_SIZE);
    if successor.Some? then Some(Logged(s.log[successor.value], OffsetOf(s, successor.value)))
    else if FindRetained(s, capacity, n).Some? then None
    else Some(Recovery(OffsetOf(s, Evicted(s, capacity)), EndOffset(s)))
  }

  predicate IsRetained<E>(s: Epoch<E>, capacity: nat, offset: u32) {
    FindRetained(s, capacity, offset).Some?
  }

  /** The server and the table disagree on some polls; this is exactly where they agree, in every
      epoch, wrapped or not.  Inside the window the successor or the offset itself must be retained;
      outside it neither may be, and the oldest retained event must still be the first one. */
  lemma AnswerFollowsTableExactlyWhen<E>(s: Epoch<E>, capacity: nat, n: u32)
    requires 1 <= capacity && s.announced && s.log != []
    ensures Answer(s, capacity, Some(n)) == TableAnswer(s, capacity, n) <==>
            var present := IsRetained(s, capacity, (n + 1) % U32_SIZE) || IsRetained(s, capacity, n);
            if InWindow(s, n) then present else !present && OffsetOf(s, Evicted(s, capacity)) == s.first
  {
  }

  /** The same in plain offsets, for an epoch in which no offset has wrapped. */
  lemma UnwrappedAnswerFollowsTableExactlyWhen<E>(s: Epoch<E>, capacity: nat, n: u32)
    requires 1 <= capacity < U32_SIZE && Unwrapped(s) && s.announced && s.log != []
    ensures Answer(s, capacity, Some(n)) == TableAnswer(s, capacity, n) <==>
            if s.first <= n <= s.first + |s.log| - 1
            then n >= s.first + Evicted(s, capacity) - 1
            else Evicted(s, capacity) == 0 && (n + 1) % U32_SIZE != s.first
  {
    var next := (n + 1) % U32_SIZE;
    assert next == if n + 1 == U32_SIZE then 0 else n + 1;
    AnswerFollowsTableExactlyWhen(s, capacity, n);
    UnwrappedOffsets(s);
    UnwrappedRetained(s, capacity, next);
    UnwrappedRetained(s, capacity, n);
  }

  /** An overrun that the table reports as a recovery is answered with the oldest event. */
  lemma OverrunIsNotReported(e: int)
    ensures var s := Epoch(0, [e, e, e, e], true);
            && Answer(s, 2, Some(0)) == Some(Logged(e, 2))
            && TableAnswer(s, 2, 0) == Some(Recovery(2, 3))
  {
  }

  // ---------------------------------------------------------------- the program

  datatype Entry<E> = Entry(event: E, offset: u32)

  /** The newest-first iteration that skips entries until one carries either offset.
      The result is the part of the history that is still to be visited. */
  function SkipToOffset<E>(events: seq<Entry<E>>, next: Option<u32>, last: Option<u32>): (rest: seq<Entry<E>>)
    ensures |rest| <= |events| && rest == events[..|rest|]
    ensures rest != [] ==> Some(rest[|rest| - 1].offset) == next || Some(rest[|rest| - 1].offset) == last
    ensures forall i :: |rest| <= i < |events| ==> Some(events[i].offset) != next && Some(events[i].offset) != last
  {
    if events == [] then []
    else
      var o := Some(events[|events| - 1].offset);
      if o != next && o != last then SkipToOffset(events[..|events| - 1], next, last) else events
  }

  /** Which match arm of the search produced its result. */
  datatype Arm = Successor | BeforeLast | UpToDate | Oldest

  function Search<E>(events: seq<Entry<E>>, last: Option<u32>): (Arm, Option<Entry<E>>) {
    var next := if last.None? then None else Some((last.value + 1) % U32_SIZE);
    var rest := SkipToOffset(events, next, last);
    var nextE := if |rest| >= 1 then Some(rest[|rest| - 1]) else None;
    var lastE := if |rest| >= 2 then Some(rest[|rest| - 2]) else None;
    if nextE.Some? && Some(nextE.value.offset) == next then (Successor, nextE)
    else if lastE.Some? && Some(lastE.value.offset) == last then (BeforeLast, None)
    else if nextE.Some? && Some(nextE.value.offset) == last then (UpToDate, None)
    else (Oldest, if events == [] then None else Some(events[0]))
  }

  /** Pushing onto the bounded queue overwrites its oldest entry once it is full. */
  function Pushed<E>(events: seq<Entry<E>>, capacity: nat, entry: Entry<E>): (pushed: seq<Entry<E>>)
    requires 1 <= capacity && |events| <= capacity
    ensures |pushed| == Min(|events| + 1, capacity)
    ensures forall i :: 0 <= i < |pushed| - 1 ==> pushed[i] == events[|events| + 1 - |pushed| + i]
    ensures pushed[|pushed| - 1] == entry
  {
    (if |events| == capacity then events[1..] else events) + [entry]
  }

  ghost predicate Contiguous<E>(events: seq<Entry<E>>, base: nat) {
    forall i :: 0 <= i < |events| ==> events[i].offset == (base + i) % U32_SIZE
  }

  /** The history holds the newest events of the epoch's log under their offsets. */
  ghost predicate Records<E>(events: seq<Entry<E>>, s: Epoch<E>, capacity: nat) {
    && |events| == Min(|s.log|, capacity)
    && Contiguous(events, s.first + Evicted(s, capacity))
    && forall i :: 0 <= i < |events| ==> events[i].event == s.log[Evicted(s, capacity) + i]
  }

  /** After one more event the end offset is the event's own and the next one is its successor. */
  lemma OffsetsAfterPush<E>(s: Epoch<E>, e: E)
    ensures var s' := s.(log := s.log + [e], announced := true);
            && EndOffset(s') == OffsetOf(s, |s.log|)
            && OffsetOf(s', |s'.log|) == (OffsetOf(s, |s.log|) + 1) % U32_SIZE
            && (s.log == [] ==> OffsetOf(s, |s.log|) == s.first)
  {
    ResidueSuccessor(s.first + |s.log|);
  }

  lemma PushRecords<E>(events: seq<Entry<E>>, s: Epoch<E>, capacity: nat, e: E)
    requires 1 <= capacity && Records(events, s, capacity)
    ensures Records(Pushed(events, capacity, Entry(e, OffsetOf(s, |s.log|))),
                    s.(log := s.log + [e], announced := true), capacity)
  {
    var s' := s.(log := s.log + [e], announced := true);
    var pushed := Pushed(events, capacity, Entry(e, OffsetOf(s, |s.log|)));
    var oldest, shift := Evicted(s', capacity), |events| + 1 - |pushed|;
    assert oldest == Evicted(s, capacity) + shift;
    forall i | 0 <= i < |pushed|
      ensures pushed[i].offset == (s.first + oldest + i) % U32_SIZE && pushed[i].event == s'.log[oldest + i]
    {
      if i < |pushed| - 1 {
        assert pushed[i] == events[shift + i];
        assert s.first + Evicted(s, capacity) + (shift + i) == s.first + oldest + i;
      } else {
        assert s.first + oldest + i == s.first + |s.log|;
      }
    }
  }

  lemma ResidueIndex(base: nat, i: nat, o: u32)
    requires i < U32_SIZE
    ensures (base + i) % U32_SIZE == o <==> i == (o - base) % U32_SIZE
  {
  }

  lemma ResidueSuccessor(x: nat)
    ensures (x % U32_SIZE + 1) % U32_SIZE == (x + 1) % U32_SIZE
  {
  }

  /** Offsets identify entries: an entry of a contiguous history carries `o` exactly
      when it stands at the residue of `o` against the history's base. */
  lemma OffsetsIdentifyEntries<E>(events: seq<Entry<E>>, base: nat, o: u32)
    requires |events| < U32_SIZE && Contiguous(events, base)
    ensures forall k :: 0 <= k < |events| ==> (events[k].offset == o <==> k == (o - base) % U32_SIZE)
  {
    forall k | 0 <= k < |events|
      ensures events[k].offset == o <==> k == (o - base) % U32_SIZE
    {
      ResidueIndex(base, k, o);
    }
  }

  /** The search on a history in which at most entry `i` carries `next` and at most
      entry `j` carries `n`, where `i` follows `j` or `j` lies beyond the history. */
  lemma SearchByIndex<E>(events: seq<Entry<E>>, n: u32, i: nat, j: nat)
    requires (n + 1) % U32_SIZE != n
    requires i == j + 1 || j >= |events|
    requires forall k :: 0 <= k < |events| ==> (events[k].offset == (n + 1) % U32_SIZE <==> k == i)
    requires forall k :: 0 <= k < |events| ==> (events[k].offset == n <==> k == j)
    ensures var found := Search(events, Some(n));
            && found.0 != BeforeLast
            && found.1 == if i < |events| then Some(events[i])
                          else if j < |events| || events == [] then None
                          else Some(events[0])
  {
    var rest := SkipToOffset(events, Some((n + 1) % U32_SIZE), Some(n));
    if i < |events| {
      assert events[i].offset == (n + 1) % U32_SIZE;
      assert rest[|rest| - 1] == events[|rest| - 1];
    } else if j < |events| {
      assert events[j].offset == n;
      assert rest[|rest| - 1] == events[|rest| - 1];
    }
  }

  /** On a contiguous history the backward search finds the successor, else nothing if
      the offset itself is present, else the oldest entry; its second arm is never taken. */
  lemma SearchFindsByOffset<E>(events: seq<Entry<E>>, base: nat, n: u32)
    requires |events| < U32_SIZE && Contiguous(events, base)
    ensures var found := Search(events, Some(n));
            var i := ((n + 1) % U32_SIZE - base) % U32_SIZE;
            && found.0 != BeforeLast
            && found.1 == if i < |events| then Some(events[i])
                          else if (n - base) % U32_SIZE < |events| || events == [] then None
                          else Some(events[0])
  {
    var next := (n + 1) % U32_SIZE;
    OffsetsIdentifyEntries(events, base, next);
    OffsetsIdentifyEntries(events, base, n);
    SearchByIndex(events, n, (next - base) % U32_SIZE, (n - base) % U32_SIZE);
  }

  lemma RecordedEntry<E>(events: seq<Entry<E>>, s: Epoch<E>, capacity: nat, i: nat)
    requires Records(events, s, capacity) && i < |events|
    ensures var pos := Evicted(s, capacity) + i;
            pos < |s.log| && events[i] == Entry(s.log[pos], OffsetOf(s, pos))
  {
    assert s.first + Evicted(s, capacity) + i == s.first + (Evicted(s, capacity) + i);
  }

  /** A retained offset stands at its residue against the history's oldest. */
  lemma RetainedIndex<E>(s: Epoch<E>, capacity: nat, o: u32)
    ensures var i := (o - (s.first + Evicted(s, capacity))) % U32_SIZE;
            FindRetained(s, capacity, o) ==
            if i < Min(|s.log|, capacity) then Some(Evicted(s, capacity) + i) else None
  {
  }

  ghost function EntryOf<E>(s: Epoch<E>, pos: Option<nat>): Option<Entry<E>>
    requires pos.Some? ==> pos.value < |s.log|
  {
    if pos.None? then None else Some(Entry(s.log[pos.value], OffsetOf(s, pos.value)))
  }

  lemma SearchOffsetIsAnswer<E>(events: seq<Entry<E>>, s: Epoch<E>, capacity: nat, n: u32)
    requires 1 <= capacity < U32_SIZE && Records(events, s, capacity)
    ensures Search(events, Some(n)).1 == EntryOf(s, AnswerPosition(s, capacity, Some(n)))
  {
    var base, next := s.first + Evicted(s, capacity), (n + 1) % U32_SIZE;
    var i := (next - base) % U32_SIZE;
    SearchFindsByOffset(events, base, n);
    RetainedIndex(s, capacity, next);
    RetainedIndex(s, capacity, n);
    if i < |events| {
      RecordedEntry(events, s, capacity, i);
    } else if events != [] {
      RecordedEntry(events, s, capacity, 0);
    }
  }

  /** On the history of an epoch the search finds the entry of the answering position. */
  lemma SearchIsAnswer<E>(events: seq<Entry<E>>, s: Epoch<E>, capacity: nat, last: Option<u32>)
    requires 1 <= capacity < U32_SIZE && Records(events, s, capacity)
    ensures Search(events, last).1 == EntryOf(s, AnswerPosition(s, capacity, last))
  {
    if last.Some? {
      SearchOffsetIsAnswer(events, s, capacity, last.value);
    } else if events != [] {
      RecordedEntry(events, s, capacity, 0);
    }
  }

  class EventServer<E> {
    const capacity: nat
    var events: seq<Entry<E>>
    var start: Option<u32>
    var end: Option<u32>
    var eventOffset: u32

    ghost var epoch: Epoch<E>

    ghost predicate Valid()
      reads this
    {
      && 1 <= capacity < U32_SIZE
      && Records(events, epoch, capacity)
      && (epoch.log != [] ==> epoch.announced)
      && start == (if epoch.announced then Some(epoch.first) else None)
      && end == (if epoch.announced then Some(EndOffset(epoch)) else None)
      && eventOffset == OffsetOf(epoch, |epoch.log|)
    }

    constructor (capacity: nat, randomOffset: u32)
      requires 1 <= capacity < U32_SIZE && randomOffset < capacity
      ensures Valid() && this.capacity == capacity && epoch == Epoch(randomOffset, [], false)
    {
      this.capacity := capacity;
      events, start, end, eventOffset := [], None, None, randomOffset;
      epoch := Epoch(randomOffset, [], false);
    }

    /** The arm of the main loop that receives a generated event and stores it. */
    method Generate(e: E)
      requires Valid()
      modifies this
      ensures Valid()
      ensures epoch == old(epoch).(log := old(epoch).log + [e], announced := true)
    {
      PushRecords(events, epoch, capacity, e);
      OffsetsAfterPush(epoch, e);
      events := Pushed(events, capacity, Entry(e, eventOffset));
      if start.None? {
        start := Some(eventOffset);
      }
      end := Some(eventOffset);
      eventOffset := (eventOffset + 1) % U32_SIZE;
      epoch := epoch.(log := epoch.log + [e], announced := true);
    }

    /** The arm of the main loop that forgets every event. */
    method Reset(randomOffset: u32)
      requires Valid() && randomOffset < capacity
      modifies this
      ensures Valid() && epoch == Epoch(randomOffset, [], true)
    {
      events := [];
      eventOffset := randomOffset;
      start, end := Some(eventOffset), Some(eventOffset);
      epoch := Epoch(randomOffset, [], true);
    }

    /** The reply to a request that carries the client's last offset. */
    method HandleRequest(last: Option<u32>) returns (reply: Reply<E>)
      requires Valid()
      ensures reply == Answer(epoch, capacity, last)
    {
      if start.Some? && end.Some? {
        if last.None? || start.value <= last.value <= end.value {
          var found := Search(events, last).1;
          reply := if found.None? then None else Some(Logged(found.value.event, found.value.offset));
          SearchIsAnswer(events, epoch, capacity, last);
        } else {
          reply := Some(Recovery(start.value, end.value));
        }
      } else {
        reply := None;
      }
    }
  }
}

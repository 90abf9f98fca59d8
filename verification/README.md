# A verified model of the flip-flop protocol

Flip-flop is an event-bus protocol for half-duplex links: one client polls many servers.
This project models its four working parts in Dafny and proves what they promise.

| files | part |
|---|---|
| `EventServer.dfy`, `EventClient.dfy`, `Delivery.dfy` | logged-event delivery: the server's bounded history and backward search, the polling client, and every interleaving of the two |
| `AddressSet.dfy`, `Discovery.dfy` | address discovery: the 256-bit field, its iterator, the spare-address picker, and rounds of identify messages and replies |
| `UpdateBroadcast.dfy`, `UpdateServer.dfy`, `UpdateMessages.dfy`, `Version.dfy` | software update: the chunking loop, the receiving server, their messages and versions |
| `Frame.dfy`, `FrameCounter.dfy`, `Postcard.dfy`, `AppCodec.dfy` | the wire: header bits, nonces, encrypted datagrams, the Postcard subset in use, and the application messages with their untagged last field |

`Types.dfy` holds fixed-width integers. `dafny verify dfyconfig.toml` checks everything.

## How to read it

Programs that update state are classes or methods with loops (`EventServer`, `EventClient`,
`Identify`, `AddressesIter`, `WithRandomAddress`, `ClientTask`, `UpdateServers`, `UpdateServer`,
`ToDatagram`). Each is proved against a function of plain values, and the theorems about whole
runs are about those functions.

*Delivery.* `Answer` says what a server replies in terms of the full log of an epoch (the time
since its last reset), with offsets modulo 2^32. `EventServer` implements it in every state,
wrapped or not. A run is any sequence of steps: event generated, server reset, exchange, request
lost, reply lost. A system also records every accepted event with the position the client polled
from and the number of events generated by then.

*Discovery.* A round says of every server whether the identify message reached it, gives it an
arbitrary random value, and gives its reply a fate: intact, garbled or lost. An address is half
heard when exactly one request for it arrived intact but that server is not the only one to leave
the round with it, because others asked in vain or missed the message while holding it. A server
takes part in a round if the message reaches it and its reply, if any, is not lost.

*Update.* Packets are real datagrams: headers, nonces, sealed Postcard payloads, and whatever the
reused buffer held before. The cipher is a parameter. It is assumed that what was sealed opens
again, that sealing adds four bytes (CCM, section 2 of RFC 3610), and that among the finitely many
keys in use none opens what another sealed. `KeysCanSeparate` shows these assumptions can be met.
`UpdateAmidTraffic` describes a server completely between two prepare messages for newer versions:
whatever else arrives, its state follows from the order of its campaign's own chunks.

*The wire.* Formats are stated as numbers and bytes, not only as round trips: the header as a 32-bit
number, integers digit by digit, messages field by field, version texts as a grammar with positional
decimal numerals.

## Findings

- The code and the table of `offset-rules.md` disagree: `start` never advances when events are
  evicted, so an overrun inside the window is answered with the oldest retained event instead of a
  recovery, and offset `start - 1` gets a recovery even while its successor is retained.
  `AnswerFollowsTableExactlyWhen` gives the exact set of polls on which they agree, in wrapped epochs too.
- The window is tested by plain comparison, so a wrapped offset breaks it.
  `NeverRecoversOwnExactlyWhen` says exactly when; `WrappedWindowStarves` shows that a client then
  receives recoveries only.
- After a recovery the client continues from `start`. So a client that holds any offset when an
  epoch begins never receives that epoch's first event (`FirstEventNeverReachesJoiner`).
- A half-heard address is registered with several holders, and discovery reports success all the
  same, be it after a garbled reply (`GarbledReplyIsShared`) or after a missed identify message
  (`MissedIdentifyIsShared`). Addresses stay unique exactly as long as none is half heard
  (`DiscoveryUniqueExactlyWhen`).
- `Header::parse` tests bit 1 only. It accepts version 1 and set reserved bits (`WhatParseAccepts`).
- The broadcast panics for images longer than 2^28 + 26 bytes (`BroadcastNeverPanicsExactlyWhen`).
- A broadcast repeats a nonce for every image of 1,782,435 bytes or more, and below that for certain
  lengths from 1,766,049 bytes on (`NonceRepeatsExactlyWhen`, `ShortestRepeat`).
- An empty image is never reported complete (`AllOrNothing`).
- A pre-release is read as the release itself exactly when its name contains neither "alpha." nor
  "beta.", so a plain "-alpha" is one (`PreReleaseReadAsReleaseExactlyWhen`, `PlainAlphaReadAsRelease`).
- A last field that can be encoded as no byte at all does not round trip (`RoundTripsExactlyWhen`).

## Model

| member | source | states |
|---|---|---|
| EventServer.EventServer.HandleRequest | app/examples/server/main.rs:73-94 | the reply to any poll is the one the full log calls for: recovery outside the window, else the successor if retained, nothing if up to date, else the oldest retained event; in every state, wrapped offsets included |
| EventServer.EventServer.Generate | app/examples/server/main.rs:115-123 | storing an event appends it to the epoch's log and keeps history, start, end and next offset consistent with the log, dropping the oldest entry of a full history |
| EventServer.EventServer.Reset | app/examples/server/main.rs:109-114 | a reset begins an empty epoch at the new offset, announced as both start and end |
| EventServer.EventServer.constructor | app/examples/server/main.rs:50-56 | a server starts with an empty epoch at a random offset and nothing announced |
| EventServer.SearchFindsByOffset | app/examples/server/main.rs:75-87 | on a contiguous history, modulo 2^32, the backward search finds the successor, else nothing if the offset itself is there, else the oldest; the second match arm is never taken |
| EventServer.AnswerInUnwrappedEpoch | app/examples/server/main.rs:73-94 | in an unwrapped epoch the reply in plain offsets: oldest for no offset, recovery outside, nothing at the end, else the earliest retained event after the client's; and for the empty epoch a reset leaves, recovery for any offset but its own |
| EventServer.AnswerFollowsTableExactlyWhen | offset-rules.md:17-21 | in every epoch, wrapped or not, the code gives the table's response if and only if the offset is inside the window and it or its successor is retained, or it is outside, neither is retained, and the oldest retained offset is still start |
| EventServer.UnwrappedAnswerFollowsTableExactlyWhen | offset-rules.md:17-21 | the same in plain offsets for an unwrapped epoch |
| EventServer.OverrunIsNotReported | offset-rules.md:19-21 | a concrete overrun where the table asks for a recovery and the code sends the oldest event |
| EventServer.NeverRecoversOwnExactlyWhen | app/examples/server/main.rs:74-91 | no offset of the epoch is answered with a recovery if and only if no offset has wrapped, or the offsets fill the whole range from zero |
| EventClient.EventClient.HandleReply | app/examples/client/main.rs:90-113 | what each reply does to the last offset, the recovery target and the count, and when recovery is reported complete |
| Delivery.Poll | app/examples/client/main.rs:63-115 | an exchange between the two programs is the abstract exchange, and leaves the server unchanged |
| Delivery.DeliveryOverWholeRuns | app/examples/server/main.rs:73-123 | over every run with any resets and losses, the accepted events of an epoch are a strictly increasing selection of its log, every position jumped over had been evicted, and at most one recovery is sent, none to a client without an offset |
| Delivery.RunKeepsInv | app/examples/client/main.rs:63-113 | every run keeps the delivery invariant: each delivery is the earliest retained event after the client's position, deliveries chain, and the client's offset is determined by them |
| Delivery.NothingMissedExactlyWhen | README.md:27-27 | over every run, a client that accepted anything in an epoch has accepted every event up to its last one, from the first, if and only if it began the epoch without an offset and no answered poll lagged by more than the history's capacity |
| Delivery.NoSkipExactlyWithinCapacity | README.md:27-27 | from the position it first polls from, a client skips no event if and only if no answered poll lagged by more than the capacity, and then it accepts a contiguous stretch of the log |
| Delivery.FirstEventNeverReachesJoiner | app/examples/client/main.rs:91-103 | over every run, a client that holds an offset when an epoch begins never accepts the epoch's first event |
| Delivery.InStepIsKept | app/examples/server/main.rs:73-94 | a client in step with an unwrapped epoch stays so until a reset, never gets a recovery and never moves back |
| Delivery.QuietCatchUp | app/examples/server/main.rs:73-94 | with the server quiet, k polls deliver in order the first k retained events the client has not seen, and nothing more once there are none |
| Delivery.QuietCatchUpReachesEnd | app/examples/client/main.rs:104-111 | as many polls as offsets are left bring the client to the end offset |
| Delivery.EventCountOverRuns | app/examples/client/main.rs:91-106 | over every run the client's event count is, from a recovery on, the number of events accepted in the epoch modulo 2^32, and without recovery or reset that number above what the count was |
| Delivery.RecoveryPutsInStep | app/examples/client/main.rs:91-103 | one recovery exchange puts the client at the first position of the epoch, with nothing accepted and the announced end as its target |
| Delivery.RecoveryCompletes | app/examples/client/main.rs:104-111 | whatever is generated or lost meanwhile, a client below a retained target lands exactly on it within as many exchanges as positions are left |
| Delivery.RecoveryReachesAnnouncedEnd | offset-rules.md:29-34 | from a recovery on, the client's offset meets its recovery target within end minus start exchanges unless that event is evicted first |
| Delivery.WrappedWindowStarves | app/examples/server/main.rs:74-91 | once the end offset is below start, any number of polls delivers nothing and leaves the client at start |
| Delivery.WrapIsReached | app/examples/server/main.rs:121-122 | one event more than the offsets from a non-zero first offset up puts the end offset below start |
| AddressSet.Identify.IsAddressSet | data/src/discovery.rs:44-49 | the bit test is membership in the set the field stands for |
| AddressSet.Identify.SetAddress | data/src/discovery.rs:62-65 | setting an address adds exactly that address to the set |
| AddressSet.MembersByPlace | data/src/discovery.rs:44-49 | an address is in the set if and only if binary digit address mod 8 of byte address / 8 is 1, so address 1 is 0b10 in byte 0 and address 9 is 0b10 in byte 1 |
| AddressSet.AddressesIter.Next | data/src/discovery.rs:79-91 | the k-th item is membership of address k, for exactly 256 items |
| AddressSet.WithRandomAddress | data/src/discovery.rs:104-129 | the loop over the iterator returns nothing if the iterator shows all addresses as taken, and otherwise the one not taken that has as many such addresses below it as the random value leaves modulo their number; a fresh iterator shows exactly the known addresses as taken |
| AddressSet.SparesInOrder | data/src/discovery.rs:112-119 | the spare addresses are exactly the unknown ones, in strictly increasing order |
| AddressSet.SparesComplementKnown | data/src/discovery.rs:112-128 | there are 256 minus as many spares as known addresses |
| AddressSet.PickSelectsSpares | data/src/discovery.rs:95-99 | the picker fails if and only if all 256 addresses are known, and never returns a known one |
| AddressSet.PickSelectsByRank | data/src/discovery.rs:121-128 | unless all 256 addresses are known, the number of unknown addresses below the selected one is the random value modulo 256 minus the number of known ones |
| AddressSet.EverySpareIsReachable | data/src/discovery.rs:95-99 | every unknown address is selected by some random value |
| Discovery.ClientTask | data/examples/discovery/main.rs:48-85 | the round adds exactly the addresses asked for by one intact reply, is finished if and only if no reply was garbled and none asked for the same address as another, and counts the known addresses but the client's |
| Discovery.ServerTask | data/examples/discovery/main.rs:139-155 | a server that gets the identify message keeps a known address silently; any other takes and asks for a spare one, if there is any |
| Discovery.RunRound | data/examples/discovery/main.rs:138-157 | a round played by the two programs, with any message or reply lost or garbled, is the abstract round |
| Discovery.FinishedExactlyWhenUncontested | data/examples/discovery/main.rs:48-73 | in every round, under any loss, the client reports finished if and only if no server that asked had its reply garbled and every address was asked for by at most one request that arrived intact |
| Discovery.UniqueAfterRoundExactlyWhen | data/examples/discovery/main.rs:66-73 | a round keeps every known address with exactly one holder if and only if no address is half heard in it, by a lost or garbled reply or a missed identify message |
| Discovery.DiscoveryUniqueExactlyWhen | README.md:80-83 | over any number of rounds, random picks and losses, every known address but 0 has exactly one holder and none holds 0 if and only if no address was half heard in any round; then known addresses count registered servers plus one |
| Discovery.IntactDiscoveryIsUnique | data/examples/discovery/main.rs:219-228 | the same for every run with intact delivery |
| Discovery.DiscoveryUnderAnyLoss | data/examples/discovery/main.rs:138-157 | under any loss or garbling of messages and replies, known addresses only grow, each but 0 has a holder, and no server holds 0 |
| Discovery.UnregisteredFindsSpare | data/src/discovery.rs:112-128 | with at most 255 servers an unregistered one always finds a spare address, whatever was lost or garbled before |
| Discovery.VerdictUnderAnyLoss | data/examples/discovery/main.rs:33-86 | with at most 255 servers and under any loss, a round finishes if and only if no reply was garbled in it and it leaves every server that took part registered |
| Discovery.FinishedExactlyWhenAllRegistered | data/examples/discovery/main.rs:33-86 | with intact delivery and at most 255 servers a round finishes if and only if it leaves every server registered, and then all addresses differ |
| Discovery.DiscoveryVerdict | data/examples/discovery/main.rs:219-228 | the same over whole runs from the start, where the number found is the number of registered servers |
| Discovery.DiscoveryVerdictUnderAnyLoss | data/examples/discovery/main.rs:219-228 | over every run from the start with any loss and garbling, both forms of the verdict hold of its last round |
| Discovery.TooManyServers | README.md:39-39 | more than 255 servers can never all be registered |
| Discovery.RoundMakesProgress | data/examples/discovery/main.rs:66-73 | a round makes exactly the addresses known that it hears once, and without a half-heard address registers exactly as many servers |
| Discovery.GarbledReplyIsShared | data/examples/discovery/main.rs:52-56 | a run in which one garbled reply leaves two servers with one registered address and the next round reports success |
| Discovery.MissedIdentifyIsShared | data/examples/discovery/main.rs:138-139 | a run in which one missed identify message leaves two servers with one registered address in a round that reports success |
| Frame.ParseAfterPack | data/src/lib.rs:53-97 | parsing a packed header gives it back with version 0 and the port's low three bits, so unchanged if and only if it has version 0 and a port below 8 |
| Frame.PackedWord | data/src/lib.rs:53-65 | the four bytes, highest first, are the number counter * 65536 + (port mod 8) * 2048 + address * 8, plus 4 for the server |
| Frame.ParsedWord | data/src/lib.rs:72-97 | every four bytes parse if and only if bit 1 of that number is 0, and each field is its quotient and remainder: source by 4, address by 8, port by 2048, counter by 65536 |
| Frame.WhatParseAccepts | data/src/lib.rs:72-97 | a header parses if and only if bit 1 is clear, and packs back to the same bytes if and only if the version and reserved bits are clear |
| Frame.PackIsInjective | data/src/lib.rs:53-65 | valid headers have different bytes if and only if they differ |
| Frame.NonceIsInjective | data/src/lib.rs:118-136 | nonces agree if and only if the headers do and the lengths do modulo 256 |
| Frame.FrameLayout | data/src/lib.rs:190-220 | a frame is the four header bytes, the payload length plus 4, and the payload sealed under the nonce 01, header, payload length, 00, with the header as associated data |
| Frame.OpenedAsLaidOut | data/src/lib.rs:150-186 | for every datagram with a one-byte length: the first four bytes are header and associated data, the nonce is 01, header, length minus 4, 00, and the four errors come in the order length, header, filter, cipher |
| Frame.ToDatagram | data/src/lib.rs:190-220 | the frame is written over the front of the buffer and the rest stays; the program panics if and only if the frame does not fit |
| Frame.DatagramRoundTrip | data/src/lib.rs:150-186 | for every prior buffer content, decoding gives back payload and header, or the filter's refusal |
| Frame.DatagramRefused | data/src/lib.rs:171-183 | a datagram is turned away by every cipher that refuses the sender's |
| Frame.IgnoredErrorNeverOccurs | data/src/lib.rs:170-171 | the copy whose error is ignored always fits |
| Frame.PayloadFitsPacket | data/src/discovery.rs:12-18 | a payload fits a minimum-size packet if and only if it has at most 33 bytes |
| Postcard.VarintRoundTrip | data/src/lib.rs:219-219 | a variable-length integer decodes to itself and consumes exactly its bytes |
| Postcard.VarintIsPositional | data/src/lib.rs:219-219 | byte i of an integer is its i-th digit to base 128, with 128 added to all bytes but the last, and no leading zero |
| AppCodec.RoundTripsExactlyWhen | app/src/lib.rs:92-110 | messages with an untagged last field round trip if and only if that field's decoder refuses the empty input |
| AppCodec.TruncatesSafelyExactlyWhen | app/src/lib.rs:92-98 | every truncation is refused or keeps the first field and drops the last, if and only if the last field's decoder refuses strict prefixes |
| AppCodec.RequestsAndRepliesRoundTrip | app/src/lib.rs:14-70 | requests and event replies of any application with well-behaved commands and events round trip and truncate safely |
| AppCodec.RequestLayout | app/src/lib.rs:117-158 | a request is 0, or 1 and the offset, then the command's bytes; offset 9 with a command of byte 2 is 1, 9, 2 |
| AppCodec.ReplyLayout | app/src/lib.rs:33-70 | a reply is its ticks, then nothing, or 0, event and offset, or 1 and an ephemeral event, or 2, start and end |
| AppCodec.SmallReply | app/src/lib.rs:168-187 | an event of byte 1 logged at offset 9, in ten ticks, is 10, 0, 1, 9 |
| AppCodec.UnknownTagsRefused | app/src/lib.rs:14-48 | a request or event with any other tag byte is refused, whatever follows |
| AppCodec.WireExchangeIsExchange | app/examples/client/main.rs:63-80 | an exchange through encoded bytes has the effect of the exchange itself |
| AppCodec.MessagesFitDatagram | app/examples/server/main.rs:98-99 | every request and reply fits the 32-byte buffers |
| Version.CompareIsTotalOrder | data/src/update.rs:31-44 | comparison is the order of one number per version, equal only for equal versions |
| Version.CompareIsPrecedence | data/src/update.rs:111-124 | comparison is the precedence of section 11 of Semantic Versioning 2.0.0 |
| Version.ParseAfterPrint | data/src/update.rs:63-110 | parsing a printed version gives it back, also behind any build metadata |
| Version.DigitsArePositional | data/src/update.rs:63-72 | character i of a printed number is '0' plus its decimal digit of that place, highest first, with no leading zero |
| Version.ParseByteExactlyWhen | data/src/update.rs:80-82 | a byte is read if and only if the text, after an optional plus sign, is one or more characters '0' to '9' with a positional decimal value below 256, and it is that value |
| Version.SplitExactlyWhen | data/src/update.rs:79-81 | a split gives two parts if and only if the pattern stands between them and nowhere earlier |
| Version.ParseExactlyWhen | data/src/update.rs:78-110 | a text parses as a version if and only if it is two numerals up to the first two dots and a patch numeral, before the first plus sign, with a numbered alpha or beta or any other name behind the first dash; all other texts are refused |
| Version.PrintIsShortest | data/src/update.rs:63-72 | a version prints as a text that reads as it, and no shorter text does |
| Version.DisplayedVersions | data/src/update.rs:256-266 | the three displayed forms: plain, alpha and beta |
| Version.PrintIsInjective | data/src/update.rs:63-72 | different versions print differently |
| Version.SplitsExactlyWhenOccurs | data/src/update.rs:94-97 | a text is split by a pattern if and only if the pattern occurs in it |
| Version.PreReleaseReadAsReleaseExactlyWhen | data/src/update.rs:78-109 | for every name without a plus sign and any build metadata, a version text with that pre-release parses as the release if and only if neither "alpha." nor "beta." occurs in the name |
| Version.PlainAlphaReadAsRelease | data/src/update.rs:94-102 | a plain "-alpha" is read as the release |
| UpdateMessages.PrepareRoundTrip | data/src/update.rs:134-161 | a prepare message decodes to itself |
| UpdateMessages.PrepareLayout | data/src/update.rs:134-161 | a prepare message is major, minor, patch, then 0 or 1 with 0 or 1 and a number for no pre-release, an alpha or a beta, then ports, key, length and signed flag |
| UpdateMessages.PrepareFits | data/src/update.rs:134-161 | a prepare message takes at most 29 bytes |
| UpdateMessages.UpdateRoundTrip | data/src/update.rs:166-171 | an update message decodes to itself if its bytes fit the vector and is refused otherwise |
| UpdateMessages.UpdateLayout | data/src/update.rs:166-171 | an update message is its offset, the number of its bytes, and the bytes |
| UpdateMessages.UpdateSize | data/src/update.rs:173-180 | an update fits 32 bytes if and only if its offset is below 2^28 or it is not a full chunk; a full chunk beyond takes 33 |
| UpdateBroadcast.UpdateServers | data/examples/update/main.rs:145-194 | the loop sends exactly the chunks of the closed form, in order, with consecutive frame counters and the right pauses, until done, panicking or alone |
| UpdateBroadcast.ChunkShape | data/examples/update/main.rs:154-160 | chunks are non-empty, at most 27 bytes, inside one 4096-byte block, adjacent, and the last ends the image |
| UpdateBroadcast.ChunkCountExact | data/examples/update/main.rs:41-45 | an image has exactly (len / 4096) * 152 + ceil((len % 4096) / 27) chunks |
| UpdateBroadcast.ChunksJoinToImage | data/examples/update/main.rs:157-187 | the chunks joined are the image |
| UpdateBroadcast.BroadcastNeverPanicsExactlyWhen | data/examples/update/main.rs:210-215 | every chunk can be encoded if and only if the image has at most 2^28 + 26 bytes |
| UpdateBroadcast.LongPauseExactlyWhen | data/examples/update/main.rs:173-179 | the long pause follows a chunk if and only if it ends a block or the image |
| UpdateBroadcast.AtMostOneBlockBetweenPauses | data/examples/update/main.rs:43-45 | never more than 4096 bytes are sent between long pauses |
| FrameCounter.CounterStep | data/examples/update/main.rs:184-184 | the counter starts at the given value and each packet adds one modulo 2^16 |
| UpdateBroadcast.NoncesAgreeExactlyWhen | data/src/lib.rs:118-136 | two packets share a nonce if and only if a multiple of 65536 packets lies between them and their payloads are equally long |
| UpdateBroadcast.NonceRepeatsExactlyWhen | data/examples/update/main.rs:157-187 | a broadcast repeats a nonce if and only if the image has at least 1,782,435 bytes, or more than 65536 chunks with a last one exactly as wide as it takes to match the payload 65536 packets before |
| UpdateBroadcast.NoncesNeverRepeatWithinCounter | data/src/lib.rs:118-136 | an image needs at most 65536 packets if and only if it has at most 1,766,024 bytes, and then no two packets share a nonce |
| UpdateBroadcast.ShortestRepeat | data/examples/update/main.rs:184-184 | 1,766,049 bytes is the shortest length that repeats a nonce |
| UpdateServer.UpdateServer.ProcessActiveUpdate | data/examples/update/main.rs:282-317 | what a message does to the active update: abandoned on an unexpected offset, else advanced, finished at the length, flushed at a block's end |
| UpdateServer.UpdateServer.Receive | data/examples/update/main.rs:238-266 | one datagram steps the server as specified, trying the active update first and then a prepare message; what a step does is stated packet by packet below |
| UpdateServer.StepIsEffect | data/examples/update/main.rs:269-330 | a datagram acts on a server as the message it was made from, and only under its own key |
| UpdateServer.BystanderIsIgnored | data/examples/update/main.rs:255-265 | in every state, a prepare message for another server or for a version that is not newer, a chunk of another campaign, and noise leave the server as it is |
| UpdateServer.MisplacedChunkEndsUpdate | data/examples/update/main.rs:286-294 | a chunk of the active update that does not start at the awaited offset, earlier or later, ends the update and keeps what was installed |
| UpdateServer.OnlyUpdateHeadersCount | data/examples/update/main.rs:269-330 | whatever a datagram holds, it changes a server only if its header has bit 1 clear, source client, address 0 and port 1 |
| UpdateServer.UpdateSoundness | data/examples/update/main.rs:238-317 | for any packets in any order with any loss and duplication, of any number of campaigns, the bytes taken are the first of the image up to the offset, which stays within it, and only whole images are installed |
| UpdateServer.OnlyNewerVersionsInstalled | data/examples/update/main.rs:332-351 | over any run, nothing of a campaign is activated or installed unless a prepare message to this server announced it as newer than the running version |
| UpdateServer.AllOrNothing | data/examples/update/main.rs:332-351 | after a prepare message for a newer version, chunks in order with any dropped install the image if and only if none was dropped and it is not empty, and never anything else |
| UpdateServer.UpdateAmidTraffic | data/examples/update/main.rs:238-351 | from a prepare message for a newer version to the next, with any genuine packets in any order, loss and duplication: the server stands where its campaign's chunks take it, and it installs the image if and only if the first of them to arrive are all of them in order and the image is not empty |
| UpdateServer.BehindStaysBehind | README.md:126-127 | the first chunk after a missed one ends the update |
| UpdateServer.InactiveTakesNothing | README.md:126-127 | without an active update no chunk changes a server until a prepare message |
| UpdateServer.FlushAgreement | data/examples/update/main.rs:302-316 | in a lossless broadcast the server flushes on a chunk if and only if the client pauses for longer after it |
| UpdateServer.KeysCanSeparate | data/src/lib.rs:112-116 | the assumptions made of ciphers and keys can be met |

## Left out

- Sockets, tasks, channels, timers and printing: only loss, garbling, order and duplication of packets remain.
- AES-CCM itself and the quality of random values: the cipher is a parameter and random values are arbitrary.
- That no key opens what another sealed is assumed for the keys in use; a four-byte code guarantees it only with high probability.
- Event times: `delta_ticks` is carried by the reply codec, but clocks and the client's local time are not modelled.
- Probabilities: how likely a restart goes undetected and how many rounds discovery takes.
- Replies that arrive after the next request or in a later round: the link is half duplex.
- The client's `init_mode`, which is only ever true, and the commands it guards.
- A discovery client whose broadcast finds no receiver at all, which the example reports as finished.
- The loop that sends a prepare message to each server; its message, size and effect are modelled.
- Eligibility by server port and signature checks, which the example server does not perform.
- EventServer.EventServer.constructor: requires a capacity between 1 and 2^32 - 1; the example fixes it to 10.
- Frame.ToDatagram: says nothing of the buffer after a panic.
- UpdateBroadcast.UpdateServers: images shorter than 2^32 bytes, the range of the offset on the wire.
- Postcard beyond unsigned integers, bytes, options, enumerations and vectors, and debug formatting.

# A verified model of the rerrb relay

`rerrb` relays 802.11r RRB frames (EtherType 0x88B7) from switch-facing ports to hostapd's bridge. A kernel
cBPF filter drops everything that is not an RRB candidate; userspace judges each captured frame against a
configured filter, strips the management VLAN tag, queues the frame, and an inject task writes it to a TAP
under a per-second budget. This project models that path end to end in Dafny and proves what the daemon is
for: the gate accepts exactly the well-formed frames that are meant for this host, and over every run of the
concurrent pipeline nothing is invented, reordered per source, lost unaccounted or sent over budget.

`dafny verify dfyconfig.toml` checks the whole project.

## How it is laid out

| file | content |
|---|---|
| `Proto.dfy`, `Wire.dfy` | machine integers, filter, counters; 16-bit encodings, bounded reads, TLV printer and decoder |
| `Verdict.dfy` | the specification of the gate, over slices of the frame (`Judge`) |
| `Parser.dfy` | the gate itself: scans, TLV walk with its tag array, deferred R0KH compare, as methods with loops |
| `Frames.dfy` | abstract frames, their printer, and the parser/printer theorems |
| `ParserLaws.dfy`, `FilterLaws.dfy` | laws over all frames and over all filters |
| `Relay.dfy`, `Packet.dfy` | untagging, the rate limiter (a class) and its call sequences; cBPF interpreter, truncation, VLAN metadata |
| `MacText.dfy`, `Config.dfy`, `ConfigLaws.dfy` | MAC text, validation, filter assembly for all answers of the OS |
| `Pipeline.dfy`, `PipelineLaws.dfy`, `RunLaws.dfy`, `PrefilterLaws.dfy` | capture and inject tasks as a step system, its invariants, and the theorems over whole runs, read off their events |
| `EndToEnd.dfy`, `Witnesses.dfy` | from the settings to the TAP; concrete frames at the edges |
| `Daemon.dfy` | a class whose methods are the atomic sections of those tasks; each performs one step of the pipeline |

The parser methods are proved equal to `Judge`, which contains no loop, offset arithmetic or saved position.
`Judge` is then characterised twice without its own case distinction: by the printer
(`AcceptsExactlyPrintedFrames`), whose output is fixed octet by octet (`CarriesIsLayout`, `TlvLayout`), and by
the configured sets and plain numbers (`AcceptanceInPlainTerms`). The laws named "in plain terms" restate what a
base definition means with literal numbers, without using it. The daemon class carries its run as a ghost sequence of events, so every theorem about `After(u, es)` is a theorem
about every state a `Daemon` object can be in.

## Where the code and its comments differ

The model follows the code; each point has a concrete witness or an exact condition.

- src/proto/parse.rs:263-267 says a broadcast names exactly one local's R0KH-ID. R0KH-IDs are never checked
  for duplicates. `BroadcastCanNameTwoLocals` is a validated configuration where a broadcast names two;
  `ConfigNamesOneLocal` shows the claim holds iff no two APs share an ID, `DefaultIdsNameOneLocal` that the
  default IDs are safe.
- src/config.rs:163 promises VLAN 1..4094 and checks only `> 0`. VID 4095 passes and relays
  (`ValidatedVlanCanBeReserved`); VID 4096 passes and relays nothing (`ValidatedVlanCanBeDeaf`).
  `ConfigRelaysSomething` shows a validated configuration lets some frame through iff its VID is below 4096.
- src/config.rs:290-302 promises two hex digits per octet; `+f` is accepted too (`PlusIsAccepted`).
  `MacLanguage` is the exact language and `PrintIsLowercase` shows the text round trip holds iff no plus sign occurs.
- src/proto/mod.rs:128-129 counts frames too long for the gate. Behind the socket that never happens: the buffer
  clips them first and the clipped prefix is judged (`OverlongIsClippedNotRejected`). `OverlongCanBeRelayed` is
  such a frame that is relayed, `OverlongIsRelayedIff` the exact condition.
- The inline and the metadata form of a tag agree for lengths 18..2048. `VlanFormsAgree` also shows where they
  do not: below 18 bytes and for the four lengths 2049..2052. `ShortFormsDiffer` and `TagBytesCanDecide` are
  frames at both ends.
- src/config.rs:217-221 refuses duplicate peer MACs; the parser does not rely on it and takes the last match.
  `AddPeerKeepsAcceptance` says exactly when a further entry is harmless, `TwinPeerLosesFrames` shows one that is not.

## Model

| member | source | states |
|---|---|---|
| Parser.Classify | src/proto/parse.rs:132-161 | for every byte string, metadata and filter the result, acceptance or reason, is the one the specification assigns |
| Parser.ParseRrb | src/proto/parse.rs:165-219 | for every frame and every body offset, also one beyond the end, the result is the slice-based verdict; below 12 bytes it is the length reason |
| Parser.ParseAuth | src/proto/parse.rs:220-301 | auth length, TLV walk and deferred R0KH compare equal the verdict on the auth part; no read can fail |
| Parser.FindPeer | src/proto/parse.rs:172-183 | the bounded scan finds the last matching peer, or there is none |
| Parser.SourceBssKnown | src/proto/parse.rs:190-205 | true iff the resolved peer lists the claimed BSS or lists none |
| Parser.LocalListed | src/proto/parse.rs:207-219 | true iff some counted local has the BSSID, whatever the unused slots hold |
| Parser.R0khListed | src/proto/parse.rs:275-295 | true iff some counted local's R0KH-ID equals the saved bytes in length and content |
| Parser.SameBytes | src/proto/parse.rs:280-288 | the byte loop, which stops at the element's size, decides equality of the two slices and stays in bounds |
| Parser.WalkTlvs | src/proto/parse.rs:227-261 | succeeds iff the block decodes to at most 16 TLVs with distinct tags ending at the declared end; the saved position is the offset of the R0KH element's value, behind the print of the TLVs before it, and the saved size its length, both zero if there is none |
| Parser.NextTlv | src/proto/parse.rs:237-252 | refuses exactly a truncated header, a tag recorded before, or a value running past the end |
| Parser.Fresh | src/proto/parse.rs:243-247 | the scan over the fixed tag array sees only the recorded tags |
| Wire.ReadFindsThePiece | src/proto/parse.rs:97-100 | a read of x's length at an offset returns x iff the frame is a prefix of that offset's length, then x, then some rest; out of bounds it returns nothing |
| Wire.TlvLayout | src/proto/parse.rs:240-242 | a printed TLV is its tag and its size, low octet first in plain byte arithmetic, then its value |
| Wire.DecodePrint | src/proto/parse.rs:69-71 | printing any TLV list and decoding it gives the list back |
| Wire.PrintDecode | src/proto/parse.rs:69-71 | whatever decodes reprints to the same bytes |
| Wire.LegalAuthIsPrinted | src/proto/parse.rs:227-261 | a block is legal iff it is the print of some legal TLV list, which is unique |
| Wire.R0khValueUnique | src/proto/parse.rs:253-256 | with distinct tags the R0KH value is that of the only element tagged 4 |
| Frames.AcceptsExactlyPrintedFrames | src/proto/parse.rs:132-301 | accepted with a given kind and offset iff the bytes are the print of a frame the filter admits having them |
| Frames.PrintIsInjective | src/proto/parse.rs:5-16 | bytes and metadata determine the frame, accepted or not |
| Frames.ReadBack | src/proto/parse.rs:132-301 | an admitted frame, printed and judged, is accepted and reads back as itself |
| Frames.CarriesIsLayout | src/proto/parse.rs:5-16 | a frame is carried exactly by the octets laid out as the format says: every offset, constant octet and byte order literal, auth length low octet first, tag inline or in the metadata |
| ParserLaws.ReasonIsFirstFailure | src/proto/parse.rs:126-301 | accepted iff all ten checks hold; otherwise the counter is that of the first failing check in the fixed order |
| ParserLaws.VlanFormsAgree | src/proto/parse.rs:133-160 | inline tag and lifted tag give the same kind or reason iff the length is 18..2048 or above 2052 |
| ParserLaws.ShortFormsDiffer | src/proto/parse.rs:133-157 | a 16-byte tagged frame is refused for its VLAN inline and for its length when the tag is lifted, under every filter |
| ParserLaws.LongFormsDiffer | src/proto/parse.rs:133-135 | every admitted frame within four bytes of the limit is refused for its length once its tag is inline |
| ParserLaws.RelayedFrameIsAccepted | src/relay.rs:9-24 | an accepted frame can be untagged; the result has EtherType 0x88B7 and is accepted again with the same kind under a management-VLAN metadata tag |
| ParserLaws.TailDoesNotInterfere | src/proto/parse.rs:73-76 | frames equal up to the auth end, long enough and not too long, get the same result |
| ParserLaws.TruncationIsNoticed | src/proto/parse.rs:221-225 | a prefix of an accepted frame is accepted iff it keeps 16 bytes behind the auth end, with the same result |
| ParserLaws.BroadcastScopeExact | src/proto/parse.rs:263-296 | past the earlier checks a broadcast is accepted iff it is PULL or SEQ_REQUEST and its R0KH element, 1..48 bytes, names a local; else the reason is the scope |
| FilterLaws.LastMatchIsLookup | src/proto/parse.rs:175-180 | with distinct MACs the last match is the unique match |
| FilterLaws.VerdictDependsOnSets | src/proto/parse.rs:172-219 | two filters with the same sets of peers and locals give the same verdict and reason on every frame |
| FilterLaws.AcceptanceInPlainTerms | src/proto/mod.rs:86-105 | acceptance iff tag, destination, sender, kind, TLVs, tail and recipient are right, said with the configured sets and literal numbers |
| FilterLaws.AcceptanceIsMonotone | src/proto/mod.rs:39-105 | a more permissive filter with distinct MACs accepts every frame the other accepts, with the same result |
| FilterLaws.AddLocalWidens | src/proto/mod.rs:101-102 | adding a local is more permissive and keeps MACs distinct |
| FilterLaws.AddPeerWidens | src/proto/mod.rs:93-95 | a peer with a fresh MAC on a non-empty list is more permissive, the first peer less; MACs stay distinct |
| FilterLaws.AddBssidWidens | src/proto/mod.rs:44-49 | adding a BSSID to a non-empty list is more permissive |
| FilterLaws.AddLocalKeepsAcceptance | src/proto/parse.rs:207-219 | after adding a local every accepted frame is accepted with the same result, whatever the filter |
| FilterLaws.AddBssidKeepsAcceptance | src/proto/parse.rs:190-205 | so too after adding a BSSID to a non-empty list, duplicate MACs included |
| FilterLaws.AddPeerKeepsAcceptance | src/proto/parse.rs:172-205 | adding a peer to a non-empty list loses no accepted frame iff the entry its MAC resolved to allows nothing the new one does not; a fresh MAC never loses any |
| FilterLaws.FirstPeerRestricts | src/proto/parse.rs:172-183 | whatever is accepted with one peer was accepted with the empty list, with the same result |
| FilterLaws.TwinPeerLosesFrames | src/proto/parse.rs:175-180 | a second entry for a configured MAC makes an accepted frame rejected |
| FilterLaws.AcceptsSomething | src/proto/mod.rs:96-98 | a filter lets something through iff its VID fits 12 bits and some local is reachable; no locals, nothing passes |
| FilterLaws.BroadcastNamesOneLocal | src/proto/parse.rs:263-295 | every accepted broadcast names exactly one local iff the usable R0KH-IDs are distinct |
| Relay.Limiter.constructor | src/relay.rs:66-72 | starts with an impossible window and nothing used |
| Relay.Limiter.Admit | src/relay.rs:74-84 | one step of the limiter specification; the used count never exceeds the budget |
| Relay.LimiterIsExact | src/relay.rs:57-85 | under a forward clock each second admits exactly the smaller of its calls and the budget |
| Relay.WindowBudget | src/relay.rs:57-85 | any k consecutive seconds admit at most k budgets |
| Relay.RefusedOnlyWhenSpent | src/relay.rs:79-81 | a refusal implies the second's budget has been handed out in full |
| Relay.NoPolicyAdmitsMore | src/relay.rs:57-85 | no policy with the same per-second cap admits more over any stretch of seconds |
| Packet.Execute | src/packet.rs:16-24 | the interpreter terminates on every attachable program and returns zero or the constant of some return instruction |
| Packet.SocketFilterKeepsCandidates | src/packet.rs:42-95 | the seven instructions keep exactly bare and singly tagged RRB frames |
| Packet.CandidateOctets | src/packet.rs:42-44 | a candidate has octets 88 B7 at 12, or 81 00 at 12 and 88 B7 at 16 |
| Packet.PrefilterLosesNothing | src/packet.rs:42-95 | whatever the gate accepts under any metadata and filter is delivered |
| Packet.OverlongIsClippedNotRejected | src/app.rs:60-66 | a candidate longer than the buffer arrives as its first 2048 bytes and is never rejected for length |
| Packet.FittingIsDeliveredWhole | src/app.rs:60-66 | a frame of up to 2048 octets is not shortened, and a candidate among them is delivered as it is |
| Packet.FittingIsRelayedIff | src/app.rs:60-66 | such a frame is accepted iff every condition on its fields holds |
| Packet.OverlongIsRelayedIff | src/app.rs:60-66 | an overlong frame is accepted, clipped, iff every condition but its length holds and its auth data and 16 bytes of tail fit the buffer |
| Packet.DeriveVlan | src/packet.rs:262-280 | the last message with status bit 4 gives the TCI, and its TPID if bit 6 is set, else 0x8100; no such message, no tag; it is the view the pipeline receives |
| Packet.OffloadedIsAcceptedIff | src/packet.rs:262-280 | an offloaded frame that fits is accepted on the strength of its auxdata message iff the filter admits its fields |
| MacText.ParseMac | src/config.rs:291-306 | the octet loop computes the address the six parts denote, or nothing |
| MacText.MacLanguage | src/config.rs:291-306 | the accepted texts character by character: 17 bytes, colons, hex digits, a plus sign in place of a leading zero |
| MacText.MacRoundTrip | src/relay.rs:50-55 | printing any address and parsing it gives the address back |
| MacText.PrintIsLowercase | src/config.rs:290-306 | parsing a text and printing it gives its lowercase form iff it has no plus sign |
| MacText.PlusIsAccepted | src/config.rs:298-303 | "+f:00:00:00:00:00" is accepted and does not print back as itself |
| MacText.PlusReadsAsZero | src/config.rs:298-303 | replacing every plus sign of an accepted text by a zero leaves the address |
| MacText.HexOfIsInjective | src/config.rs:187-190 | distinct BSSIDs have distinct default R0KH-IDs |
| MacText.HexOfIsMacStringWithoutColons | src/config.rs:187-190 | the default R0KH-ID is the printed address without its colons, digit by digit |
| Config.Validate | src/config.rs:138-169 | succeeds iff the settings are valid; the error is that of the first failing check, a name error that of the first bad name |
| Config.AssembleFilter | src/config.rs:174-263 | yields the described filter, or fails iff none is described; hostapd is asked at most once and only if some peer needs it |
| Config.AssembleLocals | src/config.rs:182-211 | the local slots come from the APs in order with distinct, non-broadcast BSSIDs; fails iff that is impossible |
| Config.AssemblePeers | src/config.rs:212-261 | the peer slots come from the entries in order with distinct MACs; fails iff that is impossible |
| Config.ResolveBssids | src/config.rs:222-259 | the entry's own list, or hostapd's cached answer, if it has 1..8 distinct non-broadcast members |
| Config.CheckBssids | src/config.rs:239-259 | the in-loop checks amount to 1..8 members, none broadcast, pairwise distinct |
| ConfigLaws.ValidInPlainTerms | src/config.rs:138-169 | valid settings have a source, 1..8 APs, up to 8 peers, a positive VID and budget, and every interface mentioned anywhere is 1..15 letters, digits, dots, dashes or underscores and mentioned once |
| ConfigLaws.AssemblyInPlainTerms | src/config.rs:174-263 | assembly succeeds iff the target's address is readable and every entry is usable, no BSSID and no peer MAC occurring twice |
| ConfigLaws.ApInPlainTerms | src/config.rs:182-203 | an AP entry is usable iff its address is readable and not broadcast and a configured R0KH-ID is 1..48 ASCII octets |
| ConfigLaws.PeerInPlainTerms | src/config.rs:215-259 | a peer entry is usable iff its MAC is readable and not broadcast and its list, or hostapd's answer, has 1..8 distinct members, none broadcast |
| ConfigLaws.AssembledLocalsInPlainTerms | src/config.rs:183-210 | a local carries its interface's address and exactly the configured R0KH-ID octets, or the twelve hex digits of the address |
| ConfigLaws.AssembledIsWellFormed | src/config.rs:171-263 | counts in bounds, distinct non-broadcast BSSIDs and MACs, R0KH lengths 1..48, no peer with an empty BSSID list |
| ConfigLaws.EntryOrderIsIrrelevant | src/config.rs:182-261 | reordering AP and peer entries changes no verdict on any frame |
| ConfigLaws.ConfigNamesOneLocal | src/config.rs:185-203 | accepted broadcasts name exactly one local iff no two APs share an R0KH-ID |
| ConfigLaws.DefaultIdsNameOneLocal | src/config.rs:185-203 | with default IDs every accepted broadcast names exactly one local |
| ConfigLaws.ConfigRelaysSomething | src/config.rs:163 | a validated configuration lets some frame through iff its VID is below 4096 |
| ConfigLaws.BroadcastCanNameTwoLocals | src/proto/parse.rs:263-267 | a validated two-AP configuration under which an accepted broadcast names both |
| ConfigLaws.ValidatedVlanCanBeDeaf | src/config.rs:163 | a validated configuration that rejects every frame |
| ConfigLaws.ValidatedVlanCanBeReserved | src/config.rs:163 | VID 4095, outside the promised range, is validated and lets frames through |
| Witnesses.TagBytesCanDecide | src/proto/parse.rs:133-160 | a 2052-byte frame refused inline and accepted when its tag is lifted, under a validated configuration |
| Witnesses.OverlongCanBeRelayed | src/app.rs:60-82 | a 3038-byte frame that the gate refuses whole is delivered clipped and accepted |
| PipelineLaws.StepInv | src/app.rs:54-132 | every step of every task keeps the pipeline invariant |
| PipelineLaws.RunInv | src/app.rs:54-132 | every state of every run satisfies the pipeline invariant, with any number of sources and any interleaving |
| PipelineLaws.CountersAreExact | src/app.rs:26-32 | every counter equals its tally over the history |
| RunLaws.KindCountersInPlainTerms | src/relay.rs:26-35 | in every run seen, matched and the five kind counters are the numbers of receptions, of accepted ones, and of accepted ones of kind 1, 2, 3, 4 and 5 |
| RunLaws.RejectionCountersInPlainTerms | src/app.rs:89-100 | each rejection counter is the number of receptions refused for that reason |
| RunLaws.WriteCountersInPlainTerms | src/app.rs:122-128 | injected and inject_error are the numbers of successful and failed writes |
| RunLaws.LimitCounterInPlainTerms | src/app.rs:129 | rate_limited is the number of refusals among the limiter's decisions |
| RunLaws.FittingIsCapturedWhole | src/app.rs:62-87 | receiving a frame of up to 2048 octets records it whole; if accepted in forward mode the task goes on to send its untagged image, else nothing |
| RunLaws.AttemptTime | src/app.rs:46-50 | each decision is made in the second announced by the last tick before its frame was taken, or zero |
| RunLaws.LaterSecondIsAdmitted | src/relay.rs:74-84 | with a positive budget the first frame taken after the clock moves to a later second is admitted |
| RunLaws.FailedSourceIsSilent | src/app.rs:102-105 | a source whose capture failed receives nothing afterwards |
| RunLaws.ShutdownIsLast | src/app.rs:183 | no event follows shutdown |
| RunLaws.NeverStuck | src/app.rs:24 | while frames are queued an inject step is possible; a send waits exactly while 64 frames are queued; an idle source can always receive |
| PipelineLaws.SeenIsConserved | src/app.rs:62-101 | seen is matched plus the nine rejections; matched is the sum of the five kinds |
| PipelineLaws.MatchedIsConserved | src/app.rs:80-131 | in forward mode matched is queued, being sent, in flight, limited, injected and failed; queue at most 64, one pending send per source, one write |
| PipelineLaws.ObserveOnlyCounts | src/app.rs:86-87 | in observe mode observed equals matched and nothing is ever queued or written |
| PipelineLaws.TapKeepsOrder | src/app.rs:80-131 | per source the TAP sees an in-order subsequence of the untagged accepted frames; with nothing waiting all have been handled |
| PipelineLaws.TapSeesOnlyRelayableFrames | src/tap.rs:23-25 | every frame that has left the queue in any run, and the one being written, which is the last one taken and was admitted, passes the kernel's EtherType gate and would be accepted again |
| PipelineLaws.RunStaysInBudget | src/app.rs:112-131 | k consecutive seconds admit at most k budgets, each second exactly what it can, and a frame is limited only in a spent second |
| PrefilterLaws.RejectedFramesAreInvisible | src/app.rs:62-101 | leaving any rejected frames out of a run leaves a run with the same queue, decisions, writes and relay counters |
| PrefilterLaws.PrefilterIsTransparent | src/packet.rs:42-95 | in particular, so does leaving out what the kernel drops |
| EndToEnd.TapTrafficIsConfigured | src/config.rs:174-263 | in any run with an assembled filter, whatever reaches the TAP is for the target bridge or broadcast, comes from a configured peer with one of its BSSIDs, or senders are open, and is addressed to a configured AP or names its R0KH-ID in a broadcast request |
| EndToEnd.SettingsBoundTheRelay | src/app.rs:134-165 | a daemon wired from the settings has one capture task per source and admits at most packets_per_second frames per second, k times that in k seconds, and none when observing |
| Daemons.Start | src/app.rs:134-165 | start-up yields a fresh daemon wired from valid settings with the described filter, or refuses iff there is none |
| Daemons.Daemon.constructor | src/app.rs:137-165 | a new daemon is at the start of a run |
| Daemons.Daemon.FillBuffer | src/app.rs:60-65 | the reused buffer holds the frame octet by octet, whole up to 2048 octets and its first 2048 beyond; nothing of an earlier frame is visible |
| Daemons.Daemon.CountOne | src/app.rs:64-100 | the shared array changes exactly as the outcome demands |
| Daemons.Daemon.ReceiveFrame | src/app.rs:62-101 | the section from the control messages to the await performs one receive step of the pipeline with the VLAN view they describe |
| Daemons.Daemon.CompleteSend | src/app.rs:81-85 | a completed send is one enqueue step |
| Daemons.Daemon.InjectNext | src/app.rs:120-130 | taking a frame and asking the limiter is one dequeue step |
| Daemons.Daemon.CompleteWrite | src/app.rs:122-128 | a returned TAP write is one step that counts its result |
| Daemons.Daemon.Advance | src/app.rs:46-50 | the clock only moves forward, as one step that changes nothing else |
| Daemons.Daemon.StopCapture | src/app.rs:102-105 | a socket error stops one capture task and nothing else |
| Daemons.Daemon.ShutDown | src/app.rs:183 | shutdown discards what is under way and keeps the history |
| Daemons.Daemon.LogCounters | src/app.rs:34-44 | the log line holds exactly the positive counters, each under its own name with its number of events, in slot order |
| Daemons.Daemon.ReadCounter | src/app.rs:26-28 | a logged value is the number of events in the daemon's history |

## Left out

- Sockets, setsockopt, bind and the pointer handling of recvmsg: foreign calls; a received frame is a byte string with its control messages.
- The skip of frames marked outgoing: such frames never become a receive event.
- TAP creation, `tc` and `ip` subprocesses, interface flags: OS effects; only the 0x88B7 gate is kept, as a property of injected bytes.
- The hostapd control client, its directory scan and the retry sleep: their outcome is an arbitrary answer per query; nothing is assumed about it.
- YAML parsing, the command line, logging and signal handling: library wrappers; shutdown is an event that may come at any time.
- tokio's channel fairness and wake-up order: a waiting sender may enter whenever there is room, which covers every order; no liveness is claimed.
- Counter wrap-around: counters are unbounded naturals instead of u64.
- Error texts of the configuration code: assembly failure carries no message; `Validate` reports which check failed.
- Trimming of sysfs text: an address lookup yields the trimmed text.
- Message-type names: a finite table used in debug lines.
- Cryptographic validity of the tail: the code checks only its minimum length.
- Settings used outside `load`: filter assembly is modelled for validated settings, as the daemon always calls it.

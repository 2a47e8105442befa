# Verified core of the POX controller and the simple router

This project models, in Dafny, the parts of the repository whose correctness is hardest to see
by reading: the POX OpenFlow 1.0 controller under `cs561-as2-kenwith/pox` and the C router under
`cs561-as2-kenwith/router`. `dafny verify dfyconfig.toml` checks everything.

Code that changes state in the original is a class with the same fields here (or an array, or a
linked list of nodes); its methods are proved against a function of the old state, and the
properties are proved about that function. Code that only computes is functions.

| area | files | main result |
|---|---|---|
| topology and paths | `Graphs`, `Links`, `PathTables`, `L2Multi`, `Discovery` | over every run of discovery events and look-ups, the known switches and links are those the events tell of, a path is found exactly when one exists, it is a shortest one, and its ports are ends of known two-way links, although the cached table is not recomputed when a switch joins |
| spanning tree | `SpanningTree` | a forest without cycles that joins two switches exactly when two-way links do |
| SHA-1 | `Sha1Spec`, `Sha1` | the streaming context computes FIPS PUB 180-1 for every way of cutting a message |
| matches | `Powers`, `Match`, `Packets`, `MatchWire` | the subsumption test is sound, complete exactly under a stated condition, and a match survives the wire in normal form |
| messages | `Bytes`, `Actions`, `FlowMods`, `WireLayout`, `OfpObjects` | every field of a flow mod is written to and read from its octets in the specification; flow mods round-trip to their normal form; the second trip is the identity |
| flow table | `FlowTables` | over every run exact entries stand first, then greater priorities, then older entries, and every hit is the best one |
| byte streams | `Framing`, `DeferredSender` | the dispatched messages and the leftover are the stream, however it is cut; two threads keep each connection's bytes in order |
| ARP | `ArpQueue`, `ArpCache` | over every interleaving of the two threads one entry or one request per address and packets conserved; at most five requests, a second apart, and no freed request used, exactly in the runs that no sweep disturbs |
| checksum | `Checksum` | RFC 1071 arithmetic on 32 bits, and what validation accepts |
| small cores | `EpollSelect`, `PacketBuffer`, `Cidr` | registrations equal what was asked; buffers keep packets; netmask parsing |

## Where the code does not do what it is for

Each of these is a lemma or method with a failing input, and the exact condition under which the
code is right.

- `set_nw_dst(None)` also zeroes the stored source address (`Matches.ClearingLosesTheSource`);
  other fields survive exactly when the source was hidden or zero (`Matches.ClearingAnAddress`).
- The subsumption test refuses some matches that do subsume others
  (`Packets.UnnamedProtocolIsRefused`). For a satisfiable match b it decides subsumption exactly
  when b names the Ethernet type along with fields only IP has, and the priority bits along with
  "untagged" (`Packets.DecidesExactlyWhenNamed`).
- An Ethernet address of six zero bytes compares equal to `None`, so a match on it admits every
  address and is refused where the other match hides the field (`Packets.ZeroAddressIsRefused`,
  `Packets.DecidesAllExactly`).
- The table of message classes leaves out the last type: of the types OpenFlow 1.0 defines exactly
  type 21 is not dispatched but raises (`Framing.LastTypeIsRefused`).
- A message with length field 0 makes the read loop spin (`Framing.ZeroLengthSpins`); the loop ends
  exactly when no chain of whole messages leads to one (`Framing.TerminatesExactly`).
- A header that announces fewer octets than a header has is dispatched as its first octets
  (`Framing.ShortMessage`); exactly the messages of four octets and more hold the type and length
  they are dispatched with (`Framing.MessagesSayWhatTheyAre`).
- `EpollSelect` keeps references to the caller's lists: a list changed in place and passed again is
  not looked at (`EpollSelects.MissedChange`); `Select` is right exactly when that did not happen.
- A buffer id just past the end of the packet buffer raises instead of being refused
  (`PacketBuffers.JustPastTheEndRaises`, exactly: `PacketBuffers.RaisesExactly`), and releasing an
  id within its own release can lose a packet (`PacketBuffers.ReenteringLosesAPacket`); runs are
  faithful exactly when that does not occur (`PacketBuffers.RunsAreFaithful`).
- The main thread handles a request without the lock (`sr_router.c:190`). A sweep of the timeout
  thread between its tests and what they decided makes it ask twice in a second
  (`ArpQueue.TwiceInASecond`), or a sixth time (`ArpQueue.SixTimes`), or frees the request before
  it is used (`ArpQueue.FreedInside`); a sweep between queuing and the tests can free it too
  (`ArpQueue.FreedAfterQueuing`). A run is free of all that exactly when what the tests and the act
  rest on still holds (`ArpQueue.GoodExactly`, whatever the clock reads), which is when no sweep
  inside finds the request due and none after queuing gives up on it
  (`ArpQueue.GoodExactlyWhenUndisturbed`, for clocks that are not set back; `ArpQueue.CallExactly`
  and `ArpQueue.DanglingExactly` for one call and any clock).
- The checksum accumulator overflows on 131075 bytes of all ones (`Checksums.AccumulatorOverflows`)
  and on no buffer exactly up to 131074 bytes (`Checksums.AccumulatorSuffices`).
- `validate_ip` compares the length field without `ntohs`: a little-endian router refuses a datagram
  of 256 bytes and lets a length of 5 pass (`Checksums.ShortPassesAndLongIsRefused`); the lengths
  judged wrongly are 1 to 19, and 256 times those (`Checksums.LengthTestExactly`), and
  `Checksums.ValidateIp` says which packets that concerns.
- A header that sums to 0xffff is refused when its checksum field is 0
  (`Checksums.ZeroFieldIsRefused`, exactly: `Checksums.MatchesExactlyWhenValid`).
- `inferNetMask` returns nothing for experimental addresses (`Cidr.ExperimentalHasNoClass`), exactly
  those from 240.0.0.0 on (`Cidr.Classes`), so `parseCIDR` fails on them.
- Buffer id 0xffffffff is read as "no buffer" (`FlowMods.AllOnesIsNoBuffer`); exactly the ids
  -1 .. 2^32 - 2 survive the wire (`FlowMods.BufferIdSurvives`).

## Modelling decisions

- Dictionaries with default values: an entry that holds the default stands for absence. Nested
  dictionaries are maps from pairs. A switch object is identified with its datapath id.
- Links join distinct switches, as `spanning_tree.py:48` asserts; a cable between two ports of one
  switch is excluded by a precondition.
- A wildcard word is split the way its masks split it: set single bits and two six-bit counts.
  Masking low bits off an address is rounding it down to a multiple of a power of two.
- C integers are numbers with explicit wrap-around, except in SHA-1, which uses 32-bit vectors.
  Byte order of the machine is a parameter of the checksum model.
- Python `sort(reverse=True)` is a stable sort by descending key; list removal is by identity,
  since table entries define no equality.
- Threads are interleavings of atomic steps: reading the deferred sender's flag and writing are
  separate steps, and the ARP timeout thread may run between a look-up and what follows a miss,
  between queuing a packet and testing its request, and between those tests and the broadcast or
  the giving up. A run that uses a freed request stops there.
- `handle_arpreq` and the sweep follow the pseudocode of `sr_arpcache.h`, since the C give-up loop
  never advances and the sweep reads a request that may have been freed.
- A dispatched message is its own bytes. The original hands `unpack` the whole buffer and relies on
  it to read no further than its own message; a message shorter than its class needs would be
  decoded from the bytes that happen to follow, and that is not part of this model.
- Packets are what the parser produces: IP payloads occur exactly behind the type for IP, ARP payloads
  exactly behind those for ARP and RARP, ports only behind ICMP, TCP and UDP, and no type for VLAN
  behind a tag or without one.
- `PIPE_BUF` is a parameter: 512 is only what `of_01.py:41-50` falls back on.
- Clocks, socket answers, transaction ids and arriving packets are parameters.

## Model

| member | source | states |
|---|---|---|
| L2Multi.L2Multi.CalcPaths | cs561-as2-kenwith/pox/pox/forwarding/l2_multi.py:49-80 | for every set of switches and links the table holds exactly the least number of links, and nothing for unreachable pairs |
| L2Multi.L2Multi.InitialTable | cs561-as2-kenwith/pox/pox/forwarding/l2_multi.py:53-59 | links are one hop, the diagonal is zero: a sound table that covers every walk without inner switches |
| L2Multi.L2Multi.PassThrough | cs561-as2-kenwith/pox/pox/forwarding/l2_multi.py:71-80 | one round of the outer loop keeps "shortest over walks whose inner switches are processed" with one switch more |
| PathTables.RelaxCovers | cs561-as2-kenwith/pox/pox/forwarding/l2_multi.py:74-80 | the update covers every walk through the processed switches and the new one, cut at its first and last visit |
| PathTables.SoundAndCompleteIsSolved | cs561-as2-kenwith/pox/pox/forwarding/l2_multi.py:71-80 | a table that is sound and covers every walk is the distance function |
| PathTables.SplitIsExact | cs561-as2-kenwith/pox/pox/forwarding/l2_multi.py:98-103 | both halves at a stored intermediate are positive and add up to the whole |
| PathTables.SolvedIsHalving | cs561-as2-kenwith/pox/pox/forwarding/l2_multi.py:98-103 | the recursion on stored intermediates terminates: both halves are strictly shorter |
| PathTables.RawPath | cs561-as2-kenwith/pox/pox/forwarding/l2_multi.py:91-103 | no path is returned exactly for distinct switches without an entry |
| PathTables.RawPathIsShortest | cs561-as2-kenwith/pox/pox/forwarding/l2_multi.py:91-103 | the path read back is a walk of exactly the stored length |
| PathTables.StaleTableAnswersTheSame | cs561-as2-kenwith/pox/pox/forwarding/l2_multi.py:378-386 | a table computed before switches joined answers like a fresh one |
| L2Multi.CachedDistance | cs561-as2-kenwith/pox/pox/forwarding/l2_multi.py:91-98 | the cached answer for distinct switches is their reachability and distance |
| L2Multi.PathFollowsLinks | cs561-as2-kenwith/pox/pox/forwarding/l2_multi.py:106-131 | every hop of a checked path but the last leaves through an end of a known two-way link to the next switch |
| L2Multi.L2Multi.GetPath | cs561-as2-kenwith/pox/pox/forwarding/l2_multi.py:113-131 | from any valid state: nothing exactly when unreachable, else a shortest path without repeats whose ports are the index's |
| L2Multi.L2Multi.AddPorts | cs561-as2-kenwith/pox/pox/forwarding/l2_multi.py:122-131 | every link of a walk has a port and the check of the result holds |
| L2Multi.L2Multi.HandleLinkEvent | cs561-as2-kenwith/pox/pox/forwarding/l2_multi.py:317-360 | the index changes as described for added and removed links, the cache is emptied |
| L2Multi.L2Multi.HandleConnectionUp | cs561-as2-kenwith/pox/pox/forwarding/l2_multi.py:378-386 | a new switch joins and the kept cache stays right |
| L2Multi.AddedKeepsAgreement | cs561-as2-kenwith/pox/pox/forwarding/l2_multi.py:350-360 | after an added link the index holds a pair exactly when some two-way link joins it, with the ends of one such link |
| L2Multi.RemovedKeepsAgreement | cs561-as2-kenwith/pox/pox/forwarding/l2_multi.py:336-349 | the same after one of several parallel links was removed |
| Discoveries.Discovery.HandleLldp | cs561-as2-kenwith/pox/pox/openflow/discovery.py:339-380 | the link is recorded with its time unless its origin is unknown; index and links agree afterwards |
| Discoveries.Discovery.HandleConnectionUp | cs561-as2-kenwith/pox/pox/openflow/discovery.py:203-216 | the switch is connected and seen, and no link changes |
| Discoveries.Discovery.DeleteLink | cs561-as2-kenwith/pox/pox/openflow/discovery.py:384-387 | after every single removal, also within one handler, index and links agree |
| Discoveries.Discovery.DeleteLinks | cs561-as2-kenwith/pox/pox/openflow/discovery.py:384-387 | exactly the given links go |
| Discoveries.Discovery.ExpireLinks | cs561-as2-kenwith/pox/pox/openflow/discovery.py:246-262 | exactly the links not seen for the timeout go |
| Discoveries.Discovery.HandleConnectionDown | cs561-as2-kenwith/pox/pox/openflow/discovery.py:218-230 | exactly the links at the lost switch go |
| Discoveries.Discovery.Handle | cs561-as2-kenwith/pox/pox/openflow/discovery.py:203-387 | what one event does to the known switches and links, and the answer to a look-up |
| Discoveries.Discovery.Run | cs561-as2-kenwith/pox/pox/openflow/discovery.py:203-387 | over every run the knowledge is what the events say, the port index agrees with it, and every look-up on the way was answered by a shortest path over the links known then, or none exactly when there was none |
| Discoveries.KnownExactly | cs561-as2-kenwith/pox/pox/openflow/discovery.py:203-387 | from the start, told by the events alone: a switch is connected exactly when it came and has not gone since; a link is known, with its time, exactly when it was last seen then between connected switches that stayed, and no timer ran more than ten seconds later |
| Discoveries.AnsweredByEvents | cs561-as2-kenwith/pox/pox/openflow/discovery.py:203-387 | a look-up is answered exactly when both switches ever came, for the links told by the events before it |
| SpanningTrees.GroupLinks | cs561-as2-kenwith/pox/pox/openflow/spanning_tree.py:33-39 | each ordered pair of switches lists exactly its links |
| SpanningTrees.CullPair | cs561-as2-kenwith/pox/pox/openflow/spanning_tree.py:42-61 | the pair is settled in both directions and settled pairs stay settled |
| SpanningTrees.CullLinks | cs561-as2-kenwith/pox/pox/openflow/spanning_tree.py:33-61 | one symmetric link per pair remains, exactly for pairs with a two-way link |
| SpanningTrees.HangingKeepsAcyclic | cs561-as2-kenwith/pox/pox/openflow/spanning_tree.py:78-81 | a switch hung on the tree by its first edge closes no cycle |
| SpanningTrees.ReachedNeighbour | cs561-as2-kenwith/pox/pox/openflow/spanning_tree.py:77-78 | a skipped neighbour is already joined to the switch being handled |
| SpanningTrees.VisitNeighbours | cs561-as2-kenwith/pox/pox/openflow/spanning_tree.py:77-81 | one visit keeps the forest invariants and queues exactly what it reached |
| SpanningTrees.PopHandled | cs561-as2-kenwith/pox/pox/openflow/spanning_tree.py:70-76 | what a handled switch reached goes on the stack in front of the roots |
| SpanningTrees.GrownSpans | cs561-as2-kenwith/pox/pox/openflow/spanning_tree.py:70-81 | when every switch is done, whatever is joined by links is joined in the forest |
| SpanningTrees.GrowForest | cs561-as2-kenwith/pox/pox/openflow/spanning_tree.py:63-81 | the queue loop terminates with a spanning forest |
| SpanningTrees.CalcSpanningTree | cs561-as2-kenwith/pox/pox/openflow/spanning_tree.py:29-94 | tree edges have the ports of one two-way link at their ends, there is no cycle, and two switches are joined exactly when two-way links join them |
| Sha1Contexts.Sha1Context.Reset | cs561-as2-kenwith/router/sha1.c:74-88 | the context covers the empty message |
| Sha1Contexts.Sha1Context.Input | cs561-as2-kenwith/router/sha1.c:146-188 | the message grows by exactly the octets; too much input, or input after the result, corrupts the context |
| Sha1Contexts.Sha1Context.CountOctet | cs561-as2-kenwith/router/sha1.c:170-179 | the split length counts bits up to 2^64 and then marks the context corrupted |
| Sha1Contexts.Sha1Context.Result | cs561-as2-kenwith/router/sha1.c:107-122 | the digest of everything taken in; a second call changes nothing |
| Sha1Contexts.Sha1Context.PadMessage | cs561-as2-kenwith/router/sha1.c:329-374 | padding in place and processing gives the digest of section 7 on the padding of section 4 of FIPS PUB 180-1 |
| Sha1Contexts.PadInOneBlock | cs561-as2-kenwith/router/sha1.c:354-361 | when mark and length fit, the blocks are the standard's padded message |
| Sha1Contexts.PadInTwoBlocks | cs561-as2-kenwith/router/sha1.c:337-353 | the same when the zeros run over into a second block |
| Sha1Contexts.SplitLength | cs561-as2-kenwith/router/sha1.c:364-371 | the two length words store the 64-bit length, high octet first |
| Sha1Contexts.Sha1Context.ProcessMessageBlock | cs561-as2-kenwith/router/sha1.c:210-304 | one block is compressed as section 7 of FIPS PUB 180-1 prescribes |
| Sha1Contexts.Sha1Context.Schedule | cs561-as2-kenwith/router/sha1.c:227-238 | the 80 words are the standard's W |
| Sha1Contexts.Rounds | cs561-as2-kenwith/router/sha1.c:246-292 | the four loops are the standard's 80 steps with its functions and constants |
| Sha1Contexts.HashInPieces | cs561-as2-kenwith/router/sha1.c:74-188 | any way of cutting a message of less than 2^64 bits gives the digest of the whole |
| Matches.EncompassesTransitive | cs561-as2-kenwith/pox/pox/openflow/libopenflow_01.py:766-804 | the test is transitive, with or without considering the other's wildcards |
| Matches.SetReadsBack | cs561-as2-kenwith/pox/pox/openflow/libopenflow_01.py:572-600 | a field set reads back and no other changes |
| Matches.SetNetworkReadsBack | cs561-as2-kenwith/pox/pox/openflow/libopenflow_01.py:509-570 | a prefix set reads back and no other field changes |
| Matches.ClearingAnAddress | cs561-as2-kenwith/pox/pox/openflow/libopenflow_01.py:521-542 | clearing hides the address and leaves the others alone exactly under the stated condition |
| Matches.ClearingLosesTheSource | cs561-as2-kenwith/pox/pox/openflow/libopenflow_01.py:521-531 | a source address that is lost |
| Packets.FromPacketShows | cs561-as2-kenwith/pox/pox/openflow/libopenflow_01.py:407-456 | the match of a packet shows exactly the packet's fields |
| Packets.EncompassingAdmits | cs561-as2-kenwith/pox/pox/openflow/libopenflow_01.py:766-804 | every packet the encompassed match admits is admitted |
| Packets.EncompassesIsSubsumption | cs561-as2-kenwith/pox/pox/openflow/libopenflow_01.py:766-804 | for a satisfiable match that names its protocols the test says yes exactly for those that subsume it and name no zero Ethernet address where it hides one |
| Packets.DecidesExactlyWhenNamed | cs561-as2-kenwith/pox/pox/openflow/libopenflow_01.py:766-804 | for every satisfiable match: the test decides subsumption of it, zero addresses aside, if and only if it names its protocols |
| Packets.DecidesAllExactly | cs561-as2-kenwith/pox/pox/openflow/libopenflow_01.py:766-804 | and without exception if and only if it also names both Ethernet addresses |
| Packets.ZeroAddressIsRefused | cs561-as2-kenwith/pox/pox/lib/addresses.py:210-226 | a match on the zero Ethernet address admits every packet and yet does not encompass the match that asks for nothing |
| Packets.UnnamedProtocolIsRefused | cs561-as2-kenwith/pox/pox/openflow/libopenflow_01.py:781-804 | a pair that subsumes but is refused |
| Packets.NetworkIsNeeded | cs561-as2-kenwith/pox/pox/openflow/libopenflow_01.py:796-802 | subsumption forces prefix containment |
| Packets.FieldIsNeeded | cs561-as2-kenwith/pox/pox/openflow/libopenflow_01.py:781-793 | subsumption of a match that names its protocols forces equality on every field asked for |
| Powers.ClearLowIsBlock | cs561-as2-kenwith/pox/pox/lib/addresses.py:320 | masking gives n exactly when n has no low bits and the address lies in the block at n |
| Powers.ClearLowTwice | cs561-as2-kenwith/pox/pox/lib/addresses.py:320 | masking more bits afterwards is masking them at once |
| MatchWire.DecodeEncode | cs561-as2-kenwith/pox/pox/openflow/libopenflow_01.py:613-620 | the wildcard word survives its 32-bit form |
| MatchWire.WordRoundTrip | cs561-as2-kenwith/pox/pox/openflow/libopenflow_01.py:655-720 | wildcards cleared for the wire and set again on reading are the normal form's |
| MatchWire.NormalFormShows | cs561-as2-kenwith/pox/pox/openflow/libopenflow_01.py:667-720 | the normal form shows what the match shows, minus the fields its protocol ignores |
| MatchWire.NormalFormIdempotent | cs561-as2-kenwith/pox/pox/openflow/libopenflow_01.py:655-720 | normalising twice is normalising once |
| MatchWire.MatchRoundTrip | cs561-as2-kenwith/pox/pox/openflow/libopenflow_01.py:613-743 | unpacking a packed match gives its normal form, whatever follows in the buffer |
| WireLayouts.PackedMatch | cs561-as2-kenwith/pox/pox/openflow/libopenflow_01.py:612-653 | the octets of every field by number and the wildcard bits by value: what the protocol gives a meaning, zeros else |
| WireLayouts.UnpackedMatch | cs561-as2-kenwith/pox/pox/openflow/libopenflow_01.py:729-742 | what a match read from any forty octets shows, field by field |
| Bytes.UnpackPack | cs561-as2-kenwith/pox/pox/openflow/libopenflow_01.py:729-743 | fixed-layout numbers in network byte order read back |
| Bytes.HighOctetFirst | cs561-as2-kenwith/pox/pox/openflow/libopenflow_01.py:732-738 | the value of one, two, four or six octets, high octet first |
| Bytes.UnpackedAt | cs561-as2-kenwith/pox/pox/openflow/libopenflow_01.py:732-738 | each value is read from the octets at the sum of the widths before it |
| Actions.UnpackActions | cs561-as2-kenwith/pox/pox/openflow/libopenflow_01.py:3886-3909 | the loop computes the parse, including the short-buffer and exception cases |
| Actions.ActionRoundTrip | cs561-as2-kenwith/pox/pox/openflow/libopenflow_01.py:925-1660 | each class of the action map reads back what it packed, with max_len only towards the controller |
| WireLayouts.PackedAction | cs561-as2-kenwith/pox/pox/openflow/libopenflow_01.py:980-1600 | type, length and values of every class in their octets, zeros between them |
| WireLayouts.UnpackedAction | cs561-as2-kenwith/pox/pox/openflow/libopenflow_01.py:980-1600 | the values read from the octets of an action of any type |
| WireLayouts.ListRead | cs561-as2-kenwith/pox/pox/openflow/libopenflow_01.py:3894-3909 | the list read from any octets: the actions that stand one behind the other, none where one is cut off, and when it raises |
| WireLayouts.ActionsParsed | cs561-as2-kenwith/pox/pox/openflow/libopenflow_01.py:3886-3895 | the list in so many octets is read that way, and is empty if there are fewer |
| Actions.ActionsRoundTrip | cs561-as2-kenwith/pox/pox/openflow/libopenflow_01.py:3886-3909 | a packed list anywhere in a buffer reads back |
| FlowMods.FlowModRoundTrip | cs561-as2-kenwith/pox/pox/openflow/libopenflow_01.py:1852-1881 | unpack after pack gives the normal form of the message and the rest of the buffer |
| WireLayouts.PackedFlowMod | cs561-as2-kenwith/pox/pox/openflow/libopenflow_01.py:1852-1863 | the octets of every field of the message, its match and where its actions begin |
| WireLayouts.UnpackedFlowMod | cs561-as2-kenwith/pox/pox/openflow/libopenflow_01.py:1865-1875 | what is read from any octets: fields, match, actions up to the length, and the rest |
| FlowMods.SecondTripIsIdentity | cs561-as2-kenwith/pox/pox/openflow/libopenflow_01.py:1852-1881 | what was received can be sent again and arrives unchanged |
| FlowMods.BufferIdSurvives | cs561-as2-kenwith/pox/pox/openflow/libopenflow_01.py:1852-1881 | exactly which buffer ids survive |
| FlowMods.AllOnesIsNoBuffer | cs561-as2-kenwith/pox/pox/openflow/libopenflow_01.py:1870-1872 | one that does not |
| OfpObjects.OfpMatch.SetAttribute | cs561-as2-kenwith/pox/pox/openflow/libopenflow_01.py:572-589 | the object changes as the match function says |
| OfpObjects.OfpMatch.SetAddress | cs561-as2-kenwith/pox/pox/openflow/libopenflow_01.py:521-542 | the same for the two address setters |
| OfpObjects.OfpMatch.FillFromPacket | cs561-as2-kenwith/pox/pox/openflow/libopenflow_01.py:407-456 | the object becomes the match of the packet |
| OfpObjects.OfpMatch.UnpackFrom | cs561-as2-kenwith/pox/pox/openflow/libopenflow_01.py:729-743 | reading 40 bytes, or leaving a short buffer alone |
| OfpObjects.OfpFlowMod.PackIt | cs561-as2-kenwith/pox/pox/openflow/libopenflow_01.py:1852-1875 | the bytes, the stored length, and actions left as a receiver reads them |
| OfpObjects.SendAndReceive | cs561-as2-kenwith/pox/pox/openflow/libopenflow_01.py:1852-1881 | the receiver's message is the sender's object after packing, up to normal match and buffer id |
| FlowTables.StableSortIsStable | cs561-as2-kenwith/pox/pox/openflow/flow_table.py:139-141 | sorting orders by effective priority, keeps all entries, and keeps the order of equals |
| FlowTables.InsertingKeepsOrder | cs561-as2-kenwith/pox/pox/openflow/flow_table.py:134-143 | adding keeps the order by effective priority and age |
| FlowTables.RemovingKeepsOrder | cs561-as2-kenwith/pox/pox/openflow/flow_table.py:172-184 | so does removing |
| FlowTables.NothingMatched | cs561-as2-kenwith/pox/pox/openflow/flow_table.py:222-224 | a modify that matched nothing may add without creating a duplicate |
| FlowTables.FirstHitIsBest | cs561-as2-kenwith/pox/pox/openflow/flow_table.py:186-195 | the first hit has the greatest effective priority, the earliest among ties |
| FlowTables.WildcardedExactly | cs561-as2-kenwith/pox/pox/openflow/libopenflow_01.py:721-723 | a match is wildcarded exactly when it hides a field or ignores address bits |
| FlowTables.KeyRanks | cs561-as2-kenwith/pox/pox/openflow/flow_table.py:139-141 | the sort key orders by rank: exact before wildcarded, then by priority |
| FlowTables.StandsBefore | cs561-as2-kenwith/pox/pox/openflow/flow_table.py:139-141 | which of two entries stands first, by exactness, priority and age |
| FlowTables.ModOutcome | cs561-as2-kenwith/pox/pox/openflow/flow_table.py:202-232 | which entries each command adds, modifies, removes or leaves, by match and priority, and which are refused |
| FlowTables.TableEntry.ExpiresExactly | cs561-as2-kenwith/pox/pox/openflow/flow_table.py:76-79 | until when an entry stays, by its creation, its last hit and both timeouts |
| FlowTables.SwitchFlowTable.AddEntry | cs561-as2-kenwith/pox/pox/openflow/flow_table.py:134-143 | append and stable sort is insertion behind equals |
| FlowTables.SwitchFlowTable.RemoveEntry | cs561-as2-kenwith/pox/pox/openflow/flow_table.py:145-149 | the identical entry goes |
| FlowTables.SwitchFlowTable.RemoveMatchingEntries | cs561-as2-kenwith/pox/pox/openflow/flow_table.py:179-184 | exactly the matching entries go |
| FlowTables.SwitchFlowTable.RemoveExpiredEntries | cs561-as2-kenwith/pox/pox/openflow/flow_table.py:169-177 | exactly the expired entries go |
| FlowTables.SwitchFlowTable.EntryForPacket | cs561-as2-kenwith/pox/pox/openflow/flow_table.py:186-195 | the best entry, or none exactly when none admits the packet |
| FlowTables.SwitchFlowTable.ModifyEntries | cs561-as2-kenwith/pox/pox/openflow/flow_table.py:216-221 | exactly the matching entries get the new actions |
| FlowTables.SwitchFlowTable.ProcessFlowMod | cs561-as2-kenwith/pox/pox/openflow/flow_table.py:203-232 | the whole new table for every command and error case |
| FlowTables.SwitchFlowTable.Handle | cs561-as2-kenwith/pox/pox/openflow/flow_table.py:172-232 | what one flow mod, removal, expiry or packet does to the list, to the actions and to the times of last hits: the expired entries are exactly those whose timeouts have passed |
| FlowTables.SwitchFlowTable.Run | cs561-as2-kenwith/pox/pox/openflow/flow_table.py:134-232 | over every run each event does that, each from the table the one before left; before every event and at the end the table is ordered by key and age and no two entries share match and priority, and every hit is the best admitting entry of its moment |
| Framing.TerminatesExactly | cs561-as2-kenwith/pox/pox/openflow/of_01.py:604-627 | the loop ends exactly when no chain of whole messages of positive length leads from the start of the buffer to one of length 0 |
| Framing.LastTypeIsRefused | cs561-as2-kenwith/pox/pox/openflow/util.py:10-25 | of the defined types exactly the last has no class, so its messages raise |
| Framing.ZeroLengthSpins | cs561-as2-kenwith/pox/pox/openflow/of_01.py:604-627 | five bytes on which the loop does not end |
| Framing.ParseExactly | cs561-as2-kenwith/pox/pox/openflow/of_01.py:600-628 | the loop's result is the one way of cutting the buffer at announced lengths until there is a reason to stop |
| Framing.EveryOctetIsThere | cs561-as2-kenwith/pox/pox/openflow/of_01.py:600-618 | messages and leftover, one after the other, are the buffer |
| Framing.MessagesSayWhatTheyAre | cs561-as2-kenwith/pox/pox/openflow/of_01.py:609-618 | no message is empty, and one that holds its header holds the version, the type and the length it is dispatched with |
| Framing.ShortMessage | cs561-as2-kenwith/pox/pox/openflow/of_01.py:609-618 | a header that announces two octets is dispatched as two |
| Framing.ParseInTwo | cs561-as2-kenwith/pox/pox/openflow/of_01.py:600-628 | parsing the leftover with more bytes is parsing all at once |
| Framing.ChunkingIsIrrelevant | cs561-as2-kenwith/pox/pox/openflow/of_01.py:593-628 | however the stream is cut, the same messages, ending and leftover |
| Framing.Connection.Read | cs561-as2-kenwith/pox/pox/openflow/of_01.py:593-628 | one read dispatches and keeps exactly what the parse says: the messages cut off in order, whole, with the leftover and the reason to stop |
| Framing.Connection.ReadStream | cs561-as2-kenwith/pox/pox/openflow/of_01.py:593-628 | a connection's reads dispatch what one read of the stream would, and all of its octets are accounted for |
| DeferredSending.SlicesAreTheData | cs561-as2-kenwith/pox/pox/openflow/of_01.py:273-284 | slicing loses nothing and makes no empty or oversized slice |
| DeferredSending.DirectWriteKeepsOrder | cs561-as2-kenwith/pox/pox/openflow/of_01.py:572-582 | a write after the flag was read clear overtakes nothing, although the flag is read without the lock |
| DeferredSending.HandOverKeepsOrder | cs561-as2-kenwith/pox/pox/openflow/of_01.py:286-297 | handed-over bytes go behind what is pending |
| DeferredSending.WriteChunkKeepsOrder | cs561-as2-kenwith/pox/pox/openflow/of_01.py:330-337 | a partial write takes from the front |
| DeferredSending.BytesStayInOrder | cs561-as2-kenwith/pox/pox/openflow/of_01.py:286-354 | over every interleaving, delivered then pending then in hand is what was submitted |
| DeferredSending.QuiescentIsDelivered | cs561-as2-kenwith/pox/pox/openflow/of_01.py:286-354 | when nothing is pending everything was delivered |
| DeferredSending.DrainIsARun | cs561-as2-kenwith/pox/pox/openflow/of_01.py:326-350 | what the thread does to one connection is a run of those steps |
| DeferredSending.PassIsARun | cs561-as2-kenwith/pox/pox/openflow/of_01.py:308-354 | whenever the lock is free the thread can take it, drain a connection and give it back |
| DeferredSending.SendIsARun | cs561-as2-kenwith/pox/pox/openflow/of_01.py:562-582 | a call with the flag clear delivers what the socket takes and hands over the rest |
| DeferredSending.DrainingSends | cs561-as2-kenwith/pox/pox/openflow/of_01.py:326-350 | which chunks are left after these answers: whole chunks go from the front up to the first short answer |
| DeferredSending.DeferredSender.Sliceup | cs561-as2-kenwith/pox/pox/openflow/of_01.py:273-284 | the loop computes the slices |
| DeferredSending.DeferredSender.Send | cs561-as2-kenwith/pox/pox/openflow/of_01.py:286-297 | the slices are queued and the flag set |
| DeferredSending.DeferredSender.Drain | cs561-as2-kenwith/pox/pox/openflow/of_01.py:326-350 | what was sent and what stays make up what was pending; other connections are untouched; the flag is cleared only when nothing is left |
| ArpQueue.LookupIn | cs561-as2-kenwith/router/sr_arpcache.c:50-72 | a valid entry of the address, or none exactly when there is none |
| ArpQueue.QueuedExactly | cs561-as2-kenwith/router/sr_arpcache.c:86-118 | the packet waits in front of the others in the one request of its address, new if there was none; nothing else changes |
| ArpQueue.AnswerIsFound | cs561-as2-kenwith/router/sr_arpcache.c:148-159 | after an answer for an address without an entry, look-up gives exactly its mac, time and address if a slot was free, else nothing; other addresses are answered as before |
| ArpQueue.AnswerClosesRequest | cs561-as2-kenwith/router/sr_arpcache.c:131-146 | the request of the address goes with its packets, the others stay |
| ArpQueue.EntryAfterSweeps | cs561-as2-kenwith/router/sr_arpcache.c:254-261 | an entry is invalid exactly when it was or a sweep ran more than 15 seconds after it was added |
| ArpQueue.ClosedAsWhat | cs561-as2-kenwith/router/sr_arpcache.h:34-53 | a request is closed as answered by an answer, as given up on by nothing else |
| ArpQueue.QueueingKeepsInv | cs561-as2-kenwith/router/sr_arpcache.c:80-118 | queuing for an address without an entry keeps the invariant |
| ArpQueue.InsertingKeepsInv | cs561-as2-kenwith/router/sr_arpcache.c:125-164 | an answer unlinks the request and adds the entry, keeping the invariant also when the cache is full |
| ArpQueue.HandlingKeepsInv | cs561-as2-kenwith/router/sr_arpcache.h:34-43 | asking again or giving up keeps it |
| ArpQueue.ActingKeepsInv | cs561-as2-kenwith/router/sr_arpcache.c:284-301 | so does doing either without repeating the tests |
| ArpQueue.SweepingKeepsInv | cs561-as2-kenwith/router/sr_arpcache.c:33-44 | so does a sweep of the whole queue |
| ArpQueue.EveryRun | cs561-as2-kenwith/router/sr_router.c:155-190 | over every run of its steps, with the timeout thread between any two: one valid entry and one request per address at most, never both; packets are those that arrived since the address was closed; the counters are the number and time of the requests sent; nobody is given up on before five of them |
| ArpQueue.GoodExactly | cs561-as2-kenwith/router/sr_arpcache.c:275-303 | for every run, whatever the clock reads: no freed request is used and no address is asked for more than five times or twice within a second, exactly when every test and act still finds what it rests on |
| ArpQueue.GoodExactlyWhenUndisturbed | cs561-as2-kenwith/router/sr_arpcache.c:252-303 | from the start and unless the clock is set back: exactly when no sweep between tests and act finds the request due and none between queuing and tests gives up on it |
| ArpQueue.CallExactly | cs561-as2-kenwith/router/sr_arpcache.c:275-303 | for one call and any sweeps inside it: when it uses a freed request and when it asks politely, by the times at which the sweeps find the request due |
| ArpQueue.AnySweepInsideHarms | cs561-as2-kenwith/router/sr_arpcache.c:282-300 | unless the clock is set back, a call on a due request is harmless exactly when no sweep runs inside it |
| ArpQueue.UninterruptedCall | cs561-as2-kenwith/router/sr_arpcache.c:275-303 | a call without a sweep inside does what the sweep does under the lock |
| ArpQueue.SweptReq | cs561-as2-kenwith/router/sr_arpcache.c:245-269 | what any number of sweeps make of one request, and when one of them gives up on it |
| ArpQueue.TwiceInASecond | cs561-as2-kenwith/router/sr_arpcache.c:298-300 | a run that asks twice in one second |
| ArpQueue.SixTimes | cs561-as2-kenwith/router/sr_arpcache.c:298-300 | a run that asks six times |
| ArpQueue.FreedInside | cs561-as2-kenwith/router/sr_arpcache.c:285-293 | a run in which a sweep inside the call frees the request it uses |
| ArpQueue.TimeoutOne | cs561-as2-kenwith/router/sr_arpcache.c:245-269 | one turn of the timeout thread handles every request once: it goes exactly when it is due and was sent five times |
| ArpQueue.DanglingExactly | cs561-as2-kenwith/router/sr_router.c:185-190 | the request given back by queuing is freed before it is used exactly when a sweep after queuing gives up on it, or the tests find it due and a sweep inside the call gives up on it |
| ArpQueue.DanglingRun | cs561-as2-kenwith/router/sr_router.c:185-190 | with one sweep, after queuing or inside: exactly when the request is due and was sent five times before |
| ArpQueue.FreedAfterQueuing | cs561-as2-kenwith/router/sr_router.c:185-190 | a run from the empty cache in which a sweep after queuing frees the request |
| ArpQueue.FromTheStart | cs561-as2-kenwith/router/sr_arpcache.c:222-236 | the same spelled out for the empty cache |
| ArpQueue.PacketsAreConserved | cs561-as2-kenwith/router/sr_arpcache.c:104-114 | packets that arrived are those that left plus those waiting |
| ArpCaches.ArpCache.Lookup | cs561-as2-kenwith/router/sr_arpcache.c:50-72 | the loop finds the last valid entry |
| ArpCaches.ArpCache.QueueReq | cs561-as2-kenwith/router/sr_arpcache.c:80-118 | the linked list changes as the value function says and the request returned is the one for the address |
| ArpCaches.ArpCache.Insert | cs561-as2-kenwith/router/sr_arpcache.c:125-164 | the same with the unlinked request returned; the answer is found afterwards if a slot was free, the request is gone, other addresses are as before |
| ArpCaches.ArpCache.Destroy | cs561-as2-kenwith/router/sr_arpcache.c:168-203 | the request is unlinked and the rest of the list stays linked |
| ArpCaches.ArpCache.HandleArpReq | cs561-as2-kenwith/router/sr_arpcache.h:34-43 | nothing, a broadcast or giving up, as the value function says |
| ArpCaches.ArpCache.SweepReqs | cs561-as2-kenwith/router/sr_arpcache.h:63-71 | every request is handled once although handling may unlink it |
| ArpCaches.ArpCache.Timeout | cs561-as2-kenwith/router/sr_arpcache.c:245-269 | old entries are invalidated and the queue swept |
| ArpCaches.ArpCache.Forward | cs561-as2-kenwith/router/sr_router.c:155-190 | look-up, then queuing and asking on a miss, with the timeout thread running in all three gaps: the run of the steps, and whether the request was freed before it was used |
| ArpCaches.ArpCache.HandleInterrupted | cs561-as2-kenwith/router/sr_arpcache.c:275-303 | the tests, sweeps, and the act on the very node queuing returned are the run of those steps |
| ArpCaches.ArpCache.StillQueued | cs561-as2-kenwith/router/sr_arpcache.c:170-187 | the node is in the list exactly when its address has a request, and then it is that request |
| ArpCaches.ArpCache.DealReply | cs561-as2-kenwith/router/sr_router.c:283-304 | look-up, then insertion on a miss, with the timeout thread running in between; what is found and waits afterwards |
| Checksums.FoldIsOnesComplement | cs561-as2-kenwith/router/sr_utils.c:33-34 | folding terminates with the sum modulo 65535, 0 only for 0 |
| Checksums.AccumulatorSuffices | cs561-as2-kenwith/router/sr_utils.c:29-32 | exactly the lengths for which 32 bits suffice |
| Checksums.AccumulatorOverflows | cs561-as2-kenwith/router/sr_utils.c:29-32 | a buffer one byte longer that overflows |
| Checksums.Cksum | cs561-as2-kenwith/router/sr_utils.c:25-37 | the loops compute the complement of the folded sum in network byte order |
| Checksums.Accumulate | cs561-as2-kenwith/router/sr_utils.c:29-32 | the first loop adds the words modulo 2^32 |
| Checksums.ComplementCompletes | cs561-as2-kenwith/router/sr_utils.c:33-36 | a nonzero word completes a sum to 0xffff exactly when it is the complement |
| Checksums.StoredChecksumIsValid | cs561-as2-kenwith/router/sr_router.c:139-143 | storing the result in the zeroed field makes the header sum to 0xffff, on either kind of machine |
| Checksums.MatchesExactlyWhenValid | cs561-as2-kenwith/router/sr_router.c:635-642 | recomputing gives the stored value exactly when the header sums to 0xffff and the field is not 0 |
| Checksums.ZeroFieldIsRefused | cs561-as2-kenwith/router/sr_router.c:635-642 | a header that sums to 0xffff and is refused |
| Checksums.LengthTestExactly | cs561-as2-kenwith/router/sr_router.c:631-633 | the test of the raw length field is right exactly for these lengths |
| Checksums.ShortPassesAndLongIsRefused | cs561-as2-kenwith/router/sr_router.c:631-633 | a length that is wrongly refused and one that wrongly passes |
| Checksums.ValidateIp | cs561-as2-kenwith/router/sr_router.c:619-648 | accepts exactly the valid packets, if and only if the length is one read rightly or the checksum does not fit; accepted packets stay as they were |
| Checksums.DecrementTtl | cs561-as2-kenwith/router/sr_router.c:139-147 | one hop less and nothing else changed, and the packet is valid exactly when its length is large enough |
| EpollSelects.EpollSelect.ModifyTable | cs561-as2-kenwith/pox/pox/lib/epoll_select.py:28-55 | the planned mask of every descriptor changes exactly as its membership does |
| EpollSelects.NeverHappens | cs561-as2-kenwith/pox/pox/lib/epoll_select.py:76-80 | a planned mask of 0 belongs to a registered descriptor: the assertion error is unreachable |
| EpollSelects.EpollSelect.ApplyChanges | cs561-as2-kenwith/pox/pox/lib/epoll_select.py:72-82 | every epoll call is legal and the kernel ends up with the union of the masks |
| EpollSelects.WantedIsInjective | cs561-as2-kenwith/pox/pox/lib/epoll_select.py:57-67 | the masks determine both sets, so a stale set shows |
| EpollSelects.WantedExactly | cs561-as2-kenwith/pox/pox/lib/epoll_select.py:57-67 | which descriptors are watched, and for which events by value |
| EpollSelects.EpollSelect.Select | cs561-as2-kenwith/pox/pox/lib/epoll_select.py:17-82 | the kernel watches exactly the given lists, if and only if no list was changed in place since |
| EpollSelects.EpollSelect.RunSelects | cs561-as2-kenwith/pox/pox/lib/recoco/recoco.py:567-570 | with fresh lists every call of a run is exact |
| EpollSelects.MissedChange | cs561-as2-kenwith/pox/pox/lib/epoll_select.py:59-67 | a changed list that is missed |
| PacketBuffers.FreeSlot | cs561-as2-kenwith/pox/pox/openflow/switch_impl.py:359-366 | the first free slot |
| PacketBuffers.TraceMatches | cs561-as2-kenwith/pox/pox/openflow/switch_impl.py:359-376 | the ids that are out are the occupied slots, with their packets |
| PacketBuffers.RunsAreFaithful | cs561-as2-kenwith/pox/pox/openflow/switch_impl.py:359-376 | for every run, also one that raises: no live packet overwritten or dropped, distinct ids, each yielding its packet, exactly when no release is re-entered |
| PacketBuffers.FaithfulExactly | cs561-as2-kenwith/pox/pox/openflow/switch_impl.py:368-376 | the same for one operation from any state that matches |
| PacketBuffers.RunningUntilReleased | cs561-as2-kenwith/pox/pox/openflow/switch_impl.py:368-376 | an id whose actions run keeps its slot as long as it is not released again |
| PacketBuffers.ReleasedIsNotRunning | cs561-as2-kenwith/pox/pox/openflow/switch_impl.py:368-376 | after an operation that released an id, its slot is empty or holds a packet that was not yielded |
| PacketBuffers.ReenteringLosesAPacket | cs561-as2-kenwith/pox/pox/openflow/switch_impl.py:368-376 | a run that loses a packet |
| PacketBuffers.RaisesExactly | cs561-as2-kenwith/pox/pox/openflow/switch_impl.py:370-373 | an operation raises exactly when a release that is reached, at any depth, names an id one past the list at that moment |
| PacketBuffers.JustPastTheEndRaises | cs561-as2-kenwith/pox/pox/openflow/switch_impl.py:370-373 | an id that raises next to one that is refused |
| PacketBuffers.NeverRaises | cs561-as2-kenwith/pox/pox/openflow/switch_impl.py:368-376 | ids the list has room for never raise, at any depth |
| PacketBuffers.PacketBuffer.BufferPacket | cs561-as2-kenwith/pox/pox/openflow/switch_impl.py:359-366 | the packet goes into the first free slot and its number plus one is the id |
| PacketBuffers.PacketBuffer.ReleaseFromBuffer | cs561-as2-kenwith/pox/pox/openflow/switch_impl.py:368-376 | the object changes as the operation tree says, with every error case |
| PacketBuffers.PacketBuffer.ProcessActions | cs561-as2-kenwith/pox/pox/openflow/switch_impl.py:331-354 | so do the operations its actions set off |
| Cidr.WildcardBits | cs561-as2-kenwith/pox/pox/lib/addresses.py:382-388 | the shift loop accepts exactly blocks of leading ones, although the shifted number is never cut to 32 bits |
| Cidr.NetmaskCount | cs561-as2-kenwith/pox/pox/lib/addresses.py:382-389 | the wildcard count of a netmask is its number of trailing zeros |
| Cidr.NetmaskExactly | cs561-as2-kenwith/pox/pox/lib/addresses.py:382-389 | a netmask by its bits: the wildcard bits are zeros and all above them ones |
| Cidr.Classes | cs561-as2-kenwith/pox/pox/lib/addresses.py:395-417 | the network classes as address ranges |
| Cidr.ExperimentalHasNoClass | cs561-as2-kenwith/pox/pox/lib/addresses.py:413-417 | an address without a class |
| Cidr.ParseCidr | cs561-as2-kenwith/pox/pox/lib/addresses.py:350-393 | for every form of input exactly when it is accepted, the result, and which error otherwise |
| Cidr.NetworkIsBlock | cs561-as2-kenwith/pox/pox/lib/addresses.py:303-320 | membership is lying in the block of 2^b addresses from n, for n without host bits, and nothing else |
| Cidr.TextInNetwork | cs561-as2-kenwith/pox/pox/lib/addresses.py:303-320 | membership in a network given as text |

## Left out

- L2Multi.L2Multi.HandleLinkEvent: the flow mods that clear the switches' tables and the unlearning of MAC addresses are not modelled.
- Discoveries.Discovery.HandleLldp: takes the origin already extracted from the LLDP packet; parsing it adds only cases.
- Framing.Connection.Read: does not model exceptions from unpacking a message body; handler exceptions are caught by the original and change nothing here.
- FlowTables.SwitchFlowTable.EntryForPacket: the output port filter and packet counters other than the time of the last hit are not modelled.
- Actions.ActionRoundTrip: vendor actions and generic headers longer than 8 bytes are not covered, because the original does not write their data back.
- ArpQueue.GoodExactly: the tests are one step and so are the broadcast and the two stores behind it; without the lock C gives these no defined meaning beside a sweep.
- ArpCaches.ArpCache.Forward: after a freed request was used nothing is said about the run, since the original's behaviour is undefined there.
- ArpCaches.ArpCache.DealReply: sending the queued packets is an event of the log; the original sends only the first.
- DeferredSending.BytesStayInOrder: one calling thread, and no socket errors other than EAGAIN; after those the connection is closed and its bytes are dropped.
- EpollSelects.EpollSelect.Select: the poll call, the conversion of its events, and descriptors closed while registered.
- PacketBuffers.PacketBuffer.ReleaseFromBuffer: what actions do to packets; only what they ask of the buffer.
- Cidr.ParseCidr: reading dotted quads and numbers out of strings.
- MAC learning in l2_multi and the flow clearing it sends: a host may be learned on a port between switches, so no invariant holds.
- Packets put together by a program instead of the parser, and matches made without an input port.
- Address setters given a pair instead of an address, and sharing one match object between two owners.
- Non-strict deletion: the code always deletes strictly, and is modelled so.
- NOMFlowTable: its retry test compares a number with a function and it calls a method that does not exist.
- ICMP error payloads, routing tables, interface lists, and the sockets and timers around all of this.

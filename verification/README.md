# Transport and message cores of Kotoba

A Dafny model of the code that carries messages between Kekkai peers, and of the scripts that
check it.

**Datagrams.** `Datagram` states what one session does: sealing under a rising counter, the
2048-slot replay window, expiry and the two counter limits. `DatagramRegion` is the in-place
form over the caller's region, `DatagramVector` the vector form and the portable session with
a pruned set; all three are shown to agree. `DatagramLink` runs two ends against a network
that drops, repeats, reorders and alters frames. The cipher is a parameter that is only
required to be lawful (opening undoes sealing, sizes fit).

**IPv4 and UDP.** `InetChecksum` is one's-complement arithmetic (sections 1 and 2 of RFC
1071), `Ipv4Udp` the receiver's admission test (section 3.1 of RFC 791, RFC 768), `UdpPeer`
the frame builder and `UdpRepair` the in-place repairs and the echo.

**Reassembly.** `Arena` and `ArenaBuffer` are the packed payload with its linked part records
and the one-pass compaction. `Reassembly` says what a call does to the pool's contents,
`ReassemblyPool` does it in place, `ReassemblyKeyed` shows that the pool refines a map from
(peer, key, identifier) to parts, `ReassemblyDrop` covers removal, `ReassemblyRefusals` says
field by field what is refused and what each answer changes, and `ReassemblyRuns` covers whole
runs, also with release, expiry, revocation and new epochs in between. `PoolBytes` is the pool
as bytes, `PoolWords` the same byte by byte at absolute offsets, `PoolOracle` the independent
builders of expected buffers, `PoolOracleRuns` shows that the calls lead to exactly those
contents, `PoolLegible` that every figure fits its width, and `PoolCompare` that a pool in
place ends with exactly the expected bytes.

**JSON and the application frame.** `JsonText` is the strict JSON cursor with UTF-8 and
escapes, `JsonGrammar` what it recognises, written down without it, and `JsonDocument` the
scanner for whole documents, which accepts exactly that grammar. `AppFrame` is the codec of one
message part. `AppFrameRound` proves that decoding undoes encoding, `AppFrameSound` that only
valid parts and canonical base64 get through, and `AppFrameExact` which texts decode, to what,
and what text is written, with every name spelled out. `AppFrameBuffer` is the encoder in
place. `Transfer` puts codec and pool together: safety and liveness end to end.

**Observation.** `Checkpoint` is the hand-over between a guest and its observer as a step
system with separate reads, `GdbStream` the debugger connection. `Generated`, `WordLoop`,
`Fnv`, `OfficeFrames`, `SourceLock`, `Sweep` and `SendMessage` model the generated programs,
the content hash, length-prefixed frames, the source lock, the digest sweep and the observer
of sent fragments. `Common`, `Hex` and `Fragments` hold what several of them share.

Modelling decisions worth knowing:

- `kernel-store` and `vector-assoc!` on a region are updates of arrays and fields; a region's
  typed words are fields of a class, and `PoolBytes` ties the pool's fields to byte offsets.
- 64-bit and 32-bit wrap-around is written out where it can occur (`WordLoop`, `Fnv`); every
  other quantity is bounded by a test in the source.
- The step that packs `next * 2^21 + scalar` into one number is a pair here; the scalar is
  always below `0x110000`, so unpacking is exact.
- `dense` and `aggregate` differ only in their figures, so one builder, `PoolOracle.Pack`,
  stands for both; `PoolOracleRuns.ShippedPlans` gives the two instances.

## Model

| member | source | states |
|---|---|---|
| Datagram.WindowExact | lib/kotoba.noise/kotoba/noise/datagram_region.kotoba:103-106 | a counter passes the 2048 markers if and only if it is below the wire limit, inside the window below the largest accepted counter, and in no way accepted before (an unbounded set) |
| Datagram.ReceivedWindow | lib/kotoba.noise/kotoba/noise/datagram_region.kotoba:107-110 | marking a counter keeps the markers exact for the grown set, although the mark may overwrite that of an older counter |
| Datagram.OpenExact | lib/kotoba.noise/kotoba/noise/datagram_region.kotoba:116-121 | a frame is delivered if and only if the session is alive, the sizes fit, the counter is new, in the window and on the wire, and the cipher authenticates it |
| Datagram.OpenKeepsWindow | lib/kotoba.noise/kotoba/noise/datagram_region.kotoba:111-121 | a refusal leaves the state as it was; a delivery adds exactly its own counter |
| Datagram.ReachableExact | lib/kotoba.noise/kotoba/noise/datagram_region.kotoba:83-121 | after every run of operations from a finished handshake a frame is delivered if and only if the session is alive, the sizes fit, its counter was never accepted and lies in the window and on the wire, and it is authentic |
| Datagram.RunValid | lib/kotoba.noise/kotoba/noise/datagram_region.kotoba:37-43 | every state that a run reaches from a finished handshake passes the region's own test |
| Datagram.RunWindow | lib/kotoba.noise/kotoba/noise/datagram_region.kotoba:83-121 | over every run of operations the accepted counters never repeat and the markers stay exact |
| Datagram.TooOldForEver | lib/kotoba.noise/kotoba/noise/datagram_region.kotoba:103-110 | a counter that has fallen out of the window is refused after every further run of operations |
| Datagram.HeaderBytes | lib/kotoba.noise/kotoba/noise/datagram_region.kotoba:119-120 | the two tests on header bytes 6 and 7 exclude no counter that the wire limit would admit |
| Datagram.LawfulExists | lib/kotoba.noise/kotoba/noise/datagram_region.kotoba:79-86 | what is asked of the cipher can be met |
| Datagram.HandshakeExact | lib/kotoba.noise/kotoba/noise/datagram_region.kotoba:51-67 | a session exists if and only if the handshake is finished (3), its identity is the expected 32 bytes and the clock is not negative; it then holds the send key, the receive key, the expected peer and the transcript each in its place, with nothing sent or received |
| Datagram.ServesExact | lib/kotoba.noise/kotoba/noise/datagram_region.kotoba:36-48 | any state at all serves if and only if every word is in its literal range, the clock has not gone back, and neither the 180 seconds nor a counter have run out |
| Datagram.AdviceExact | lib/kotoba.noise/kotoba/noise/datagram_region.kotoba:44-48 | after every run: refuse before the last time seen, 180 seconds after the start or at either wire limit; renew from 120 seconds or the counter limit; otherwise go on, all in literal figures |
| Datagram.SealExact | lib/kotoba.noise/kotoba/noise/datagram_region.kotoba:91-100 | after every run, when sealing succeeds and the frame it gives: the counter in eight bytes, then the text sealed under the handshake's own send key, with nonce and associated data in literal bytes |
| Datagram.AuthenticExact | lib/kotoba.noise/kotoba/noise/datagram_region.kotoba:83-121 | after every run, what authenticates is what opens under the handshake's own receive key |
| DatagramRegion.Region.FromHandshake | lib/kotoba.noise/kotoba/noise/datagram_region.kotoba:58-67 | in place: exactly a finished handshake with the expected peer gives the fresh state, its keys in their places; anything else leaves the region alone |
| DatagramRegion.Region.SetLength | lib/kotoba.noise/kotoba/noise/datagram_region.kotoba:68-71 | in place: only a live state and a length of at most 65535 change the length word |
| DatagramRegion.Region.Seal | lib/kotoba.noise/kotoba/noise/datagram_region.kotoba:91-100 | in place: the new state and the output are those of the sealing function; a refusal changes neither |
| DatagramRegion.Region.Open | lib/kotoba.noise/kotoba/noise/datagram_region.kotoba:107-121 | in place: the new state and the output are those of the opening function; a refusal changes neither |
| DatagramRegion.Region.Wipe | lib/kotoba.noise/kotoba/noise/datagram_region.kotoba:122-123 | in place: every word, key, identity and marker is blank afterwards, and the state refuses every later message |
| DatagramVector.SealAgrees | lib/kotoba.noise/kotoba/noise/datagram.kotoba:61-65 | the vector form commits the same words and frame as the region form |
| DatagramVector.OpenAgrees | lib/kotoba.noise/kotoba/noise/datagram.kotoba:66-82 | the vector form accepts the same frames and commits the same words as the region form |
| DatagramVector.SetAcceptRemembers | lib/kotoba.noise/src/noise/session.cljk:85-142 | pruning the portable set never lets a counter back in and bounds it by twice the window |
| DatagramVector.WindowsAgree | lib/kotoba.noise/src/noise/session.cljk:85-94 | the circular markers, the pruned set and the unbounded set give the same answer for every counter below the wire limit |
| DatagramLink.Safety | scripts/native_kekkai_link_peer.py:52-97 | two ends built from their handshakes and a network that drops, repeats, reorders and alters frames: in every run the delivered counters are distinct, each was sent, carries the text sealed under it; every frame of an end is sealed under that end's own send key, and each end records the peer it expected |
| DatagramLink.GenuineFrame | scripts/native_kekkai_link_peer.py:84-97 | after every run, a genuine frame is delivered with its text if and only if it was not delivered before and is in the window (session alive) |
| InetChecksum.FoldMeaning | scripts/native_udp_link_peer.py:20-22 | the fold ends, keeps the sum modulo 65535 and is zero only for a zero sum |
| InetChecksum.WholeExact | lib/kotoba.aiueos/os/aiueos/native/ipv4_udp.kotoba:12-17 | a sum folds to 65535 if and only if it is positive and a multiple of 65535 |
| InetChecksum.Checksum | scripts/native_udp_link_peer.py:16-22 | the loop gives the complement of the folded word sum, an odd last byte counting as the high half of a word |
| InetChecksum.SumSplit | scripts/native_udp_link_peer.py:16-19 | the word sum of a concatenation is the sum of the parts when the first has even length |
| InetChecksum.ChecksumCompletes | scripts/native_udp_link_peer.py:29-31 | storing the checksum in the zeroed field makes the sum whole, and so does 65535 in place of a zero checksum |
| InetChecksum.WordChange | scripts/native_udp_link_peer.py:16-22 | replacing an aligned word of any bytes keeps their sum whole if and only if the word is the same or 0x0000 and 0xFFFF are exchanged, in the latter case only if more than that word is summed |
| InetChecksum.ByteChange | scripts/native_udp_link_peer.py:16-22 | a single changed byte always breaks a whole sum |
| InetChecksum.SumOfWord | scripts/native_udp_link_peer.py:16-19 | two bytes are one word, the first the greater, and a lone byte has a zero after it |
| Ipv4Udp.AcceptsBySums | lib/kotoba.aiueos/os/aiueos/native/ipv4_udp.kotoba:18-36 | the two checksum branches of the receiver, as wholeness of the header sum and of pseudo-header plus datagram |
| Ipv4Udp.Describes | lib/kotoba.aiueos/os/aiueos/native/ipv4_udp.kotoba:24-40 | the packed answer decodes to the payload offset, length and ports that the frame carries |
| Ipv4Udp.AdmittedExact | lib/kotoba.aiueos/os/aiueos/native/ipv4_udp.kotoba:18-40 | a frame is admitted if and only if sizes, type, version, protocol, flags, lengths and both sums, each at its literal offset, are in order |
| Ipv4Udp.HeaderByteRefused | lib/kotoba.aiueos/os/aiueos/native/ipv4_udp.kotoba:28-36 | from an admitted frame, another value in any single header byte is refused, the length nibble apart |
| Ipv4Udp.UdpByteExact | lib/kotoba.aiueos/os/aiueos/native/ipv4_udp.kotoba:18-23 | with the UDP checksum on, another byte anywhere in the datagram is refused unless it makes the checksum field zero |
| Ipv4Udp.UdpWordExact | lib/kotoba.aiueos/os/aiueos/native/ipv4_udp.kotoba:18-23 | with the UDP checksum on, another aligned word anywhere in the datagram is refused unless it exchanges 0x0000 and 0xFFFF or makes the checksum field zero |
| Ipv4Udp.HeaderWordExact | lib/kotoba.aiueos/os/aiueos/native/ipv4_udp.kotoba:28-36 | another aligned header word is refused unless it exchanges 0x0000 and 0xFFFF, and in the flags word even then; the exchange in an address leaves the datagram admissible, too (the length nibble apart) |
| Ipv4Udp.LengthNibbleExact | lib/kotoba.aiueos/os/aiueos/native/ipv4_udp.kotoba:28-40 | with another byte 14 an admitted frame stays admitted if and only if the version stays 4, the new header length is legal and leaves room for a datagram, the words between the two ends make up for the changed byte, and the datagram at its new place is in order |
| Ipv4Udp.LengthNibbleCanPass | lib/kotoba.aiueos/os/aiueos/native/ipv4_udp.kotoba:30-35 | a concrete admitted frame stays admitted when its header length changes, so the exception for the length nibble is real |
| UdpPeer.Packet | scripts/native_udp_link_peer.py:24-32 | the two local buffers, patched in place, give the specified frame |
| UdpPeer.IpWhole | scripts/native_udp_link_peer.py:30-31 | the header sum of every built frame is whole |
| UdpPeer.UdpWhole | scripts/native_udp_link_peer.py:27-29 | the pseudo-header plus UDP sum of every built frame is whole, odd lengths and the zero checksum included |
| UdpPeer.PacketAdmitted | scripts/native_udp_link_peer.py:24-32 | a built frame is admitted by the receiver if and only if it fits 1500 bytes and its flags are clear or "do not fragment"; the answer points at the payload |
| UdpPeer.FrameBytes | scripts/native_udp_link_peer.py:24-32 | every byte of a built frame: both MAC addresses, type, header fields, addresses, options, ports, lengths, payload and padding, at literal offsets |
| UdpPeer.PacketInjective | scripts/native_udp_link_peer.py:24-32 | payload, options, checksum switch, flags and identification are recovered from the frame |
| UdpRepair.FixIp | scripts/native_udp_link_peer.py:34-37 | in place: only the two header checksum bytes change, to those of the specification |
| UdpRepair.FixUdp | scripts/native_udp_link_peer.py:39-45 | in place: only the two UDP checksum bytes change, to those of the specification, also when the announced total runs past the frame or is too short for a datagram |
| UdpRepair.FixIpIdempotent | scripts/native_udp_link_peer.py:34-37 | repairing the header twice is repairing it once |
| UdpRepair.FixUdpIdempotent | scripts/native_udp_link_peer.py:39-45 | repairing the datagram twice is repairing it once |
| UdpRepair.RepairsCommute | scripts/native_udp_link_peer.py:66-67 | the two repairs in either order give the same frame |
| UdpRepair.FixIpWhole | scripts/native_udp_link_peer.py:34-37 | after the repair the header sum is whole, for every legal header length |
| UdpRepair.FixUdpWhole | scripts/native_udp_link_peer.py:39-45 | after the repair the pseudo-header plus datagram sum is whole, for every announced total that lies inside the frame |
| UdpRepair.RepairAdmits | scripts/native_udp_link_peer.py:62-68 | a frame repaired both ways is admitted if and only if its announced total lies inside it and its other fields are admissible |
| UdpRepair.BadTotalRefused | scripts/native_udp_link_peer.py:39-45 | a total below a datagram header leaves the checksum field outside the sum, and one past the frame sums less than announced: no repair makes such a frame admissible |
| UdpRepair.Echoed | scripts/native_udp_link_peer.py:81-88 | the copy has the two MAC addresses, IP addresses and ports exchanged and nothing else changed |
| UdpRepair.EchoTwice | scripts/native_udp_link_peer.py:81-88 | echoing twice gives the frame back |
| UdpRepair.EchoAdmitted | scripts/native_udp_link_peer.py:81-88 | the echo is admitted if and only if the frame is, although no checksum is recomputed |
| UdpRepair.EchoAnswer | scripts/native_udp_link_peer.py:81-88 | the answer about the echo has the ports exchanged and the same payload place |
| ArenaBuffer.Buffer.Compact | lib/kotoba.kekkai/kotoba/kekkai/application_reassembly_region.kotoba:106-119 | in place: dropping one record or one slot leaves exactly the other parts, in order, relinked and packed, with the rest of the payload zero |
| ArenaBuffer.Buffer.Slide | lib/kotoba.kekkai/kotoba/kekkai/application_reassembly_region.kotoba:116-119 | in place: one surviving text moves down over itself unharmed and its record follows |
| ArenaBuffer.Buffer.AppendPart | lib/kotoba.kekkai/kotoba/kekkai/application_reassembly_region.kotoba:126-129 | in place: a new part goes behind the bytes in use and at the end of the list |
| ArenaBuffer.RecordMeans | lib/kotoba.kekkai/kotoba/kekkai/application_reassembly_region.kotoba:52-54 | a record tells whether its part is present and where its bytes lie |
| Reassembly.StagedIsJoin | lib/kotoba.kekkai/kotoba/kekkai/application_reassembly_region.kotoba:133-140 | what is staged is the slot's parts with the new one in place, joined in index order |
| ReassemblyKeyed.AcceptRefines | lib/kotoba.kekkai/kotoba/kekkai/application_reassembly_region.kotoba:149-168 | every call, from every reachable pool, answers as a map from (peer, key, identifier) to parts does, and the pool stays an image of that map |
| ReassemblyKeyed.Figures | lib/kotoba.kekkai/kotoba/kekkai/application_reassembly_region.kotoba:122-132 | the header's part count and byte total are those of the slot's parts with the new one in place |
| ReassemblyRuns.DeliveryAmid | lib/kotoba.kekkai/kotoba/kekkai/application_reassembly_region.kotoba:142-193 | whatever the order, repetition and interleaving of calls under all keys, and of release, expiry, revocation and new epochs, a message that completes is the message that was cut up |
| ReassemblyRuns.CompletesAmid | lib/kotoba.kekkai/kotoba/kekkai/application_reassembly_region.kotoba:149-193 | amid all of that, while the pool has room for this key's parts and drops none of them, the call that brings the last missing part completes the message |
| ReassemblyRuns.Delivery | lib/kotoba.kekkai/kotoba/kekkai/application_reassembly_region.kotoba:142-162 | the same for a run of calls alone |
| ReassemblyRuns.Progress | lib/kotoba.kekkai/kotoba/kekkai/application_reassembly_region.kotoba:149-158 | an admitted part within the quotas completes its message if and only if it is the last one missing and the message is a document |
| ReassemblyRuns.CallKeeps | lib/kotoba.kekkai/kotoba/kekkai/application_reassembly_region.kotoba:149-168 | a call under another key leaves an assembly as it was, and a refusal changes nothing |
| ReassemblyRefusals.BindingRefused | lib/kotoba.kekkai/kotoba/kekkai/application_reassembly_region.kotoba:76-82 | a wrong magic, version, epoch, peer, reserved word, tail or key size, or an all-zero key: accepting answers -1 and nothing changes, and revoking takes nothing |
| ReassemblyRefusals.RecordRefused | lib/kotoba.kekkai/kotoba/kekkai/application_frame_region.kotoba:177-184 | any field of the record out of range: the answer is -1 and nothing changes |
| ReassemblyRefusals.TimeRefused | lib/kotoba.kekkai/kotoba/kekkai/application_reassembly_region.kotoba:159-168 | while a message is pinned, or with a clock that runs backwards or past the limit: the answer is -1 and nothing changes |
| ReassemblyRefusals.AnswerExact | lib/kotoba.kekkai/kotoba/kekkai/application_reassembly_region.kotoba:149-168 | the answer of every call, exactly: when it is refused, when the part is kept, when it completes |
| ReassemblyRefusals.KeptExactly | lib/kotoba.kekkai/kotoba/kekkai/application_reassembly_region.kotoba:122-132 | what a kept part changes: its own assembly, the bytes in use and the clock, nothing else |
| ReassemblyRefusals.CompletedExactly | lib/kotoba.kekkai/kotoba/kekkai/application_reassembly_region.kotoba:142-148 | what completion changes: its own assembly goes, the joined text is pinned under its key, nothing else |
| ReassemblyRefusals.ExpiredExact | lib/kotoba.kekkai/kotoba/kekkai/application_reassembly_region.kotoba:184-193 | expiry takes exactly the assemblies idle that long, or refuses |
| ReassemblyRefusals.RevokedExact | lib/kotoba.kekkai/kotoba/kekkai/application_reassembly_region.kotoba:174-183 | revocation takes exactly the assemblies under the peer and key, and nothing for a bad binding |
| ReassemblyRefusals.PagesKeyed | lib/kotoba.kekkai/kotoba/kekkai/application_reassembly_region.kotoba:76-83 | every page in use and the pinned page carry a 32-byte key that is not all zero |
| ReassemblyRefusals.RunKeyed | lib/kotoba.kekkai/kotoba/kekkai/application_reassembly_region.kotoba:149-193 | at every moment of every run every assembly has such a key, and its parts are in range |
| ReassemblyPool.Pool.Find | lib/kotoba.kekkai/kotoba/kekkai/application_reassembly_region.kotoba:93-97 | the loop finds the matching slot, else the first free one, else none |
| ReassemblyPool.Pool.Stage | lib/kotoba.kekkai/kotoba/kekkai/application_reassembly_region.kotoba:133-140 | in place: the output becomes the staged message followed by zeros |
| ReassemblyPool.Pool.Append | lib/kotoba.kekkai/kotoba/kekkai/application_reassembly_region.kotoba:122-132 | in place: the pool becomes the specified one, an earlier copy of the part being compacted away |
| ReassemblyPool.Pool.Complete | lib/kotoba.kekkai/kotoba/kekkai/application_reassembly_region.kotoba:142-148 | in place: a document is pinned and its slot removed; anything else leaves the pool as it was |
| ReassemblyPool.Pool.Accept | lib/kotoba.kekkai/kotoba/kekkai/application_reassembly_region.kotoba:149-168 | in place: the new contents and the answer are both those of the slot function and those of the keyed map; a forged binding or a malformed record answers -1 and changes nothing |
| ReassemblyPool.Pool.Release | lib/kotoba.kekkai/kotoba/kekkai/application_reassembly_region.kotoba:169-173 | in place: only the pinned message goes |
| ReassemblyPool.Pool.Expire | lib/kotoba.kekkai/kotoba/kekkai/application_reassembly_region.kotoba:184-193 | in place: exactly the assemblies (and the pinned message) idle long enough go, and the answer counts them |
| ReassemblyPool.Pool.Revoke | lib/kotoba.kekkai/kotoba/kekkai/application_reassembly_region.kotoba:174-183 | in place: exactly the assemblies (and the pinned message) under one peer's key go, and the answer counts them; a forged binding answers -1 and changes nothing |
| ReassemblyPool.Pool.Advance | lib/kotoba.kekkai/kotoba/kekkai/application_reassembly_region.kotoba:63-72 | in place: a later epoch leaves exactly the reset pool, any other number leaves the pool as it was |
| ReassemblyPool.Drive | lib/kotoba.kekkai/kotoba/kekkai/application_reassembly_region.kotoba:149-193 | in place: any sequence of accept, release, expiry, revocation and epoch advance takes the pool through a run of the keyed map, so what holds of every run holds of every pool |
| ReassemblyDrop.RemovedRepresents | lib/kotoba.kekkai/kotoba/kekkai/application_reassembly_region.kotoba:120-121 | removing a slot removes exactly its assembly from the map |
| Fragments.SplitJoin | lib/kotoba.kekkai/kotoba/kekkai/application_send_region.kotoba:126-132 | cutting into parts of any unit and joining them gives the message back |
| PoolBytes.StandsUnique | scripts/check-kekkai-application-reassembly-os.py:45-55 | the bytes stand for one contents only: following the links from the head recovers every part |
| PoolBytes.OneForm | scripts/check-kekkai-application-reassembly-os.py:35-72 | a contents has only one byte form |
| PoolBytes.SameFields | scripts/check-kekkai-application-reassembly-os.py:35-72 | fields that fit their widths are equal if and only if their bytes are |
| PoolLegible.PoolIsLegible | lib/kotoba.kekkai/kotoba/kekkai/application_reassembly_region.kotoba:13-15 | every figure of every reachable pool fits its width in the byte form |
| PoolLegible.SameBytes | scripts/check-kekkai-application-reassembly-os.py:223-226 | the forms of two legible contents exist and are equal byte for byte if and only if the contents are |
| PoolLegible.NativeSized | lib/kotoba.kekkai/kotoba/kekkai/application_reassembly_region.kotoba:13-15 | the shipped sizes fit a 32-bit word, as the byte form asks |
| PoolCompare.FreshNarrow | scripts/check-kekkai-application-reassembly-os.py:35-36 | what the builder of a reset pool returns fits its widths |
| PoolCompare.PackedNarrow | scripts/check-kekkai-application-reassembly-os.py:45-72 | what the packing builder returns fits its widths |
| PoolCompare.CompletedNarrow | scripts/check-kekkai-application-reassembly-os.py:58-60 | what the builder of a completed pool returns fits its widths |
| PoolCompare.PoolStands | lib/kotoba.kekkai/kotoba/kekkai/application_reassembly_region.kotoba:22-60 | the words and arrays of the pool in place stand for its contents |
| PoolCompare.PoolMatches | scripts/check-kekkai-application-reassembly-os.py:223-226 | whatever calls a pool has had, its bytes are the expected ones if and only if its contents are |
| PoolCompare.FedIsPacked | lib/kotoba.kekkai/tools/application_reassembly_gate.kotoba:148-160 | feeding the parts of a plan to a pool in place leaves exactly the bytes that the packing builder builds |
| PoolCompare.FedIsCompleted | lib/kotoba.kekkai/tools/application_reassembly_gate.kotoba:195-199 | feeding one message in any order leaves, when it completes, exactly the bytes that the builder of a completed pool builds |
| PoolBytes.NativeOffsets | lib/kotoba.kekkai/kotoba/kekkai/application_reassembly_region.kotoba:13-15 | the shipped sizes put records, payload, completed message and end where the pool has them |
| PoolOracle.PrefixBytes | scripts/check-kekkai-application-reassembly-os.py:51-55 | the parts tile the buffered bytes: whole messages slot after slot, no gap and no overlap |
| PoolOracle.LinkNext | scripts/check-kekkai-application-reassembly-os.py:52-54 | one more record whose predecessor already names it extends the list |
| PoolOracle.StampedPage | scripts/check-kekkai-application-reassembly-os.py:39-42 | the five stores over a blank page spell its header |
| PoolOracle.Fresh | scripts/check-kekkai-application-reassembly-os.py:35-36 | the bytes built for a reset pool stand for the empty contents |
| PoolOracle.Pack | scripts/check-kekkai-application-reassembly-os.py:45-72 | the nested loops build the byte form of packed slots: list head, tail and sentinel, every header, record and payload byte |
| PoolOracle.Completed | scripts/check-kekkai-application-reassembly-os.py:58-60 | the bytes built stand for a pool that holds one completed message and nothing else |
| PoolCompare.PackedPool | scripts/check-kekkai-application-reassembly-os.py:45-72 | the raw bytes the loops lay down: front words, page fields, and for every part its offset in four bytes, its length with the present bit in two and the next record in four, each at its absolute place, then the texts |
| PoolCompare.FreshPool | scripts/check-kekkai-application-reassembly-os.py:35-36 | the raw bytes of a reset pool: the front words at their places and nothing else |
| PoolCompare.CompletedPool | scripts/check-kekkai-application-reassembly-os.py:39-60 | the raw bytes of a completed pool: front words, the pinned page, the message, nothing else |
| PoolWords.PackedSpelled | scripts/check-kekkai-application-reassembly-os.py:45-72 | the same of any fields that stand for packed slots |
| PoolOracleRuns.FeedOne | lib/kotoba.kekkai/tools/application_reassembly_gate.kotoba:148-154 | the pool keeps the next part and its contents are the next ones of the plan |
| PoolOracleRuns.FeedAll | lib/kotoba.kekkai/tools/application_reassembly_gate.kotoba:138-160 | feeding every part in order from a fresh pool ends in exactly the packed contents |
| PoolOracleRuns.AnyOrder | lib/kotoba.kekkai/tools/application_reassembly_gate.kotoba:195-199 | feeding the parts of one message in any order ends, when it completes, in exactly the completed contents |
| PoolOracleRuns.NothingPending | lib/kotoba.kekkai/kotoba/kekkai/application_reassembly_region.kotoba:142-148 | a pool with no assembly pending has blank pages and an empty arena |
| PoolOracleRuns.ShippedPlans | scripts/check-kekkai-application-reassembly-os.py:45-72 | the shipped figures are plans: 4 slots of 1498 parts fill the 4 MiB arena, 128 slots hold 2047 empty parts each |
| Checkpoint.Observer.Handle | scripts/check-kekkai-application-pending-os.py:82-98 | in place: phase, open snapshot, report and violations become those of the observer function, or nothing changes and the run fails |
| Checkpoint.NeverSkips | lib/kotoba.kekkai/tools/application_pending_gate.kotoba:116-118 | whenever the observer stops for a checkpoint it is the guest's next one, with the kind and memory the guest published |
| Checkpoint.FollowMeans | scripts/check-kekkai-application-pending-os.py:87-97 | the observer survives a list of checkpoints if and only if befores and afters alternate; it has no violation if and only if each checkpoint is clean |
| Checkpoint.Accepted | scripts/check-kekkai-application-pending-os.py:77-104 | in an accepted run every checkpoint was handled once in order, befores and afters pair up, and there is no violation if and only if each pair is equal and the rest are golden |
| GdbStream.Gdb.Read | scripts/check-kekkai-application-reassembly-os.py:78-84 | exactly the next n bytes, however the stream arrives in pieces |
| GdbStream.Gdb.AckCheckpoint | scripts/check-kekkai-application-reassembly-os.py:85-96 | succeeds if and only if the bytes after the first dollar sign are OK#9a, leaving the rest unread; sends exactly the write packet |
| GdbStream.PacketMeans | scripts/check-kekkai-application-reassembly-os.py:86-87 | the packet sent reads back as the address and the phase; its last two digits are the sum of its body modulo 256 |
| GdbStream.SumAppend | scripts/check-kekkai-application-reassembly-os.py:87-87 | the sum is that of the parts of a text, and of a single byte that byte |
| GdbStream.CheckMeans | scripts/check-kekkai-application-reassembly-os.py:87-87 | the check digits are the last byte of the sum in lower-case hexadecimal |
| GdbStream.Marks | scripts/check-kekkai-application-reassembly-os.py:85-96 | the marks are $ and #, and the one accepted reply is OK#9a |
| Generated.CatLoop | scripts/check-wycheproof-native.py:66-69 | the emitted cat loop concatenates |
| Generated.SameLoop | scripts/check-wycheproof-native.py:70-72 | the emitted same? loop is equality |
| Generated.RefusedTest | scripts/check-wycheproof-native.py:73-73 | the emitted refused? test recognises exactly the one-word answer -1 |
| Generated.WriteBytesLiteral | scripts/check-wycheproof-native.py:77-86 | the writer's two loops give the nested literal |
| Generated.BytesLiteralMeans | scripts/check-wycheproof-native.py:77-86 | the nested literal evaluates to exactly the bytes, no literal wider than 64 |
| Generated.LiteralMeans | scripts/check-kototama-live-differential-linux.py:29-34 | the nested literal joined by into evaluates to exactly the bytes, no literal wider than 48 |
| Generated.CaseMeans | scripts/check-wycheproof-native.py:95-107 | the generated test holds if and only if the library does on the bytes what the case demands |
| Generated.Chunks | scripts/check-wycheproof-native.py:110-123 | the chunks are the cases in order, none lost or repeated, all but the last full |
| Generated.MainCounts | scripts/check-wycheproof-native.py:119-120 | a generated main evaluates to the number of its cases that pass |
| Generated.AllChunks | scripts/check-wycheproof-native.py:110-129 | every chunk returns its number of cases if and only if every case passes |
| WordLoop.Word | scripts/check-kototama-live-differential-linux.py:111-112 | the emitted loop gives the signed 64-bit number of the eight bytes, at every offset in range |
| WordLoop.NextByte | scripts/check-kototama-live-differential-linux.py:111-112 | or-ing in one shifted byte adds its place value, the eighth bringing the sign |
| WordLoop.SignedRoundTrip | scripts/check-kototama-live-differential-linux.py:88-107 | every signed 64-bit number comes back from its little-endian bytes and every eight bytes from their number |
| Fnv.SignedStep | lib/kotoba.lab/runtime-shim.js:4-7 | the signed 32-bit steps and the unsigned fold stay congruent |
| Fnv.StepInjective | lib/kotoba.lab/runtime-shim.js:4-7 | one step loses nothing: neither in the state nor in the character |
| Fnv.Hash | lib/kotoba.lab/runtime-shim.js:2-9 | eight hexadecimal digits that decode to the unsigned fold; the empty text gives 811c9dc5 and "a" gives e40c292c |
| Fnv.OneEdit | lib/kotoba.lab/runtime-shim.js:2-9 | two strings that differ in exactly one code unit never share a hash |
| OfficeFrames.Parse | scripts/check-office-compact-view.py:35-41 | the loop ends with exactly the records of the text, their number and the last index whose fourth field is b31, or fails when the text does |
| OfficeFrames.PrintThenRead | scripts/check-office-compact-view.py:28-41 | printing any eight-field records and reading them gives them back |
| OfficeFrames.FramesInjective | scripts/check-office-compact-view.py:28-30 | different lists of strings never print as the same frames |
| OfficeFrames.FrameIs | scripts/check-office-compact-view.py:28-41 | a frame is the decimal size, a colon and the text; the action that is looked for is b31 |
| SourceLock.Read | scripts/check-kekkai-os-profile.py:45-62 | the loop over the lines reads the same lock as the line-by-line function, and fails on the same texts |
| SourceLock.WriteThenRead | scripts/check-kekkai-os-profile.py:112-115 | a written lock reads back as its entry, roots and files, spaces in paths included |
| SourceLock.WriteInjective | scripts/check-kekkai-os-profile.py:112-115 | two locks with the same text have the same entry, roots and files |
| SourceLock.RecordExact | scripts/check-kekkai-os-profile.py:50-60 | a line is taken if and only if it is an entry, a root, or a file with a digest and an absolute path without .., stored with that digest; and what each adds to the lock |
| SourceLock.ReadsExactly | scripts/check-kekkai-os-profile.py:45-62 | reading fails if and only if some line is none of these |
| SourceLock.ReadsStored | scripts/check-kekkai-os-profile.py:55-58 | every file of a lock that was read is stored with its digest and has such a path |
| SourceLock.ClimbsExact | scripts/check-kekkai-os-profile.py:56-56 | a path is refused for .. if and only if it is a whole part between slashes |
| SourceLock.SplitExact | scripts/check-kekkai-os-profile.py:46-46 | where lines end: at each of the ten breaks, a carriage return taking a line feed with it |
| SourceLock.WriteIs | scripts/check-kekkai-os-profile.py:112-115 | the text of a lock, letter by letter |
| Sweep.Compare | scripts/check-pq-native.py:93-113 | the loop gives the counts of the tally over the printed lines |
| Sweep.PassedMeans | scripts/check-pq-native.py:115-117 | a sweep passes if and only if every expected entry is printed once and rightly, nothing else is, and the last footer is the size of the table |
| Sweep.CorruptedCopy | scripts/check-pq-native.py:420-425 | from any passing sweep, changing the last digit of one oracle line gives exactly one mismatch and nothing missing or repeated |
| SendMessage.NativeFragments | scripts/native_application_send_peer.py:29-67 | the run succeeds with the one observation of its frames: all admitted in order, the message the join of their chunks, the match flag true if and only if it equals the expected text, and on a match its JSON names the sender and its body decodes to what was expected; it fails if and only if there is no such observation |
| SendMessage.ExpectedShape | scripts/native_application_send_peer.py:54-59 | the expected text is exactly 1048576 bytes for every prefix that fits, with a body of whole base64 groups, then a quote, a brace and spaces |
| SendMessage.FullSize | scripts/native_application_send_peer.py:46-51 | the joined text is 1048576 bytes if and only if there were 1498 frames |
| SendMessage.SplitAndJoin | scripts/native_application_send_peer.py:47-52 | 1498 parts, the last of 676 bytes, and joining them restores the message |
| SendMessage.WireOfPacket | scripts/native_application_send_peer.py:33-37 | a frame of the peer's own builder yields exactly its payload |
| SendMessage.WireIs | scripts/native_application_send_peer.py:33-37 | so does any IPv4 frame with a UDP datagram, whatever follows it |
| SendMessage.GenuineObserved | scripts/native_application_send_peer.py:29-67 | 1498 frames that carry the wires of a one-mebibyte message, sealed part by part under one hexadecimal identifier, are all admitted, and what is observed is that message |
| SendMessage.LettersInOrder | scripts/native_application_send_peer.py:56-57 | the body runs through A to Z, a to z, 0 to 9, + and / again and again |
| JsonText.LiteralCanonical | lib/kotoba.edn/src/kotoba/edn/region.kotoba:39-50 | a UTF-8 step reads exactly the canonical bytes of the scalar it returns |
| JsonGrammar.CharacterExact | lib/kotoba.json/src/kotoba/json/region.kotoba:20-23 | a character step accepts exactly the spellings of a scalar: canonical UTF-8, a short escape, a unit that is no surrogate, or a surrogate pair, and returns that scalar |
| JsonGrammar.HexDigitIs | lib/kotoba.edn/src/kotoba/edn/region.kotoba:55-58 | the hexadecimal digits of an escape, in either case |
| JsonGrammar.Known | lib/kotoba.edn/src/kotoba/edn/region.kotoba:39-50 | known spellings of the first and last scalar of each UTF-8 length, and the three words |
| JsonGrammar.BodySound | lib/kotoba.json/src/kotoba/json/region.kotoba:27-31 | a string that is accepted is a run of characters without bare quote or control up to its closing quote |
| JsonGrammar.BodyComplete | lib/kotoba.json/src/kotoba/json/region.kotoba:27-31 | and every such string is accepted |
| JsonGrammar.NumberComplete | lib/kotoba.json/src/kotoba/json/region.kotoba:33-47 | every legal numeral that the next byte does not continue is read to its end |
| JsonGrammar.ValueExact | lib/kotoba.json/src/kotoba/json/region.kotoba:55-85 | the cursor accepts exactly the legal values nested at most 64 deep, each up to its own end: soundness and completeness against a grammar |
| JsonGrammar.ValueLocal | lib/kotoba.json/src/kotoba/json/region.kotoba:55-85 | what is recognised depends on nothing but its own bytes and the one after them |
| JsonDocument.WindowExact | lib/kotoba.json/src/kotoba/json/document_region.kotoba:14-20 | a character read through the twelve-byte window is the character itself |
| JsonDocument.ScanStringExact | lib/kotoba.json/src/kotoba/json/document_region.kotoba:21-26 | the fast string scanner stops at the same quote as the plain one |
| JsonDocument.ScanExact | lib/kotoba.json/src/kotoba/json/document_region.kotoba:49-79 | the document scanner recognises the same values as the cursor |
| JsonDocument.DocumentExact | lib/kotoba.json/src/kotoba/json/document_region.kotoba:80-85 | a text is a valid document if and only if it has at most a mebibyte and is one legal value with space around it |
| AppFrameRound.IdentReads | lib/kotoba.kekkai/kotoba/kekkai/application_frame_region.kotoba:76-86 | the escaped identifier ends at its quote, counts the same UTF-16 units and copies back byte for byte |
| AppFrameRound.Base64Reads | lib/kotoba.kekkai/kotoba/kekkai/application_frame_region.kotoba:97-115 | written base64 reads back |
| AppFrameRound.MembersRead | lib/kotoba.kekkai/kotoba/kekkai/application_frame_region.kotoba:50-63 | reading the written object collects the span of every member |
| AppFrameRound.EncodeLength | lib/kotoba.kekkai/kotoba/kekkai/application_frame_region.kotoba:185-194 | no text is longer than 4851 bytes, so the 8192-byte work area always holds it |
| AppFrameRound.RoundTrip | lib/kotoba.kekkai/kotoba/kekkai/application_frame_region.kotoba:133-135 | decoding the encoding of any valid record gives that record |
| AppFrameSound.CopyValid | lib/kotoba.kekkai/kotoba/kekkai/application_frame_region.kotoba:69-80 | copying an escaped text gives valid UTF-8 with the same number of UTF-16 units |
| AppFrameSound.DecodeValid | lib/kotoba.kekkai/kotoba/kekkai/application_frame_region.kotoba:119-125 | whatever the decoder accepts is a valid record, and encoding it and decoding again changes nothing |
| AppFrameSound.Base64Canonical | lib/kotoba.kekkai/kotoba/kekkai/application_frame_region.kotoba:97-115 | unescaped base64 that is accepted is the one encoding of its bytes |
| AppFrameExact.DecodeExact | lib/kotoba.kekkai/kotoba/kekkai/application_frame_region.kotoba:36-125 | a text decodes to a part if and only if it has at most 65536 bytes, is one JSON object with space around it, and each of "version", "messageId", "partIndex", "partCount" and "payload" is the name, plain or escaped, of exactly one member: the version 1, the index below the count and the count at most 2048 in plain decimals, the identifier and the payload strings that spell them; other names say nothing |
| AppFrameExact.MembersAre | lib/kotoba.kekkai/kotoba/kekkai/application_frame_region.kotoba:50-63 | reading the members of any object that stands in a text is collecting its entries |
| AppFrameExact.KeyExact | lib/kotoba.kekkai/kotoba/kekkai/application_frame_region.kotoba:36-47 | a name is recognised exactly when it spells that text, escapes included |
| AppFrameExact.IdentExact | lib/kotoba.kekkai/kotoba/kekkai/application_frame_region.kotoba:76-86 | the identifier that is read is exactly the UTF-8 of the characters spelled, within 160 units and 640 bytes |
| AppFrameExact.PayloadExact | lib/kotoba.kekkai/kotoba/kekkai/application_frame_region.kotoba:91-118 | the payload that is read is exactly the one whose base64 the string spells, escapes included, up to 700 bytes |
| AppFrameExact.NaturalExact | lib/kotoba.json/src/kotoba/json/region.kotoba:86-93 | a run of bytes is read as a number exactly when it is its plain decimal and small enough |
| AppFrameExact.EncodeExact | lib/kotoba.kekkai/kotoba/kekkai/application_frame_region.kotoba:137-189 | the encoded text letter by letter, with the five names |
| AppFrameExact.EscapeShortest | lib/kotoba.kekkai/kotoba/kekkai/application_frame_region.kotoba:152-165 | every escape is the shortest spelling that the grammar allows |
| AppFrameExact.QuadMeans | lib/kotoba.kekkai/kotoba/kekkai/application_frame_region.kotoba:166-176 | up to three bytes as one number are the four base64 digits of that number, padding for missing bytes |
| AppFrameExact.Base64Appends | lib/kotoba.kekkai/kotoba/kekkai/application_frame_region.kotoba:166-176 | base64 goes on from any number of whole groups |
| AppFrameBuffer.EscapeId | lib/kotoba.kekkai/kotoba/kekkai/application_frame_region.kotoba:153-165 | in place: the escaped identifier, and what stood before it |
| AppFrameBuffer.DecimalOut | lib/kotoba.kekkai/kotoba/kekkai/application_frame_region.kotoba:147-150 | in place: the decimal digits, and what stood before them |
| AppFrameBuffer.Base64Out | lib/kotoba.kekkai/kotoba/kekkai/application_frame_region.kotoba:168-176 | in place: the base64 text, and what stood before it |
| AppFrameBuffer.Encoded | lib/kotoba.kekkai/kotoba/kekkai/application_frame_region.kotoba:185-189 | in place: the work area begins with the whole text |
| AppFrameBuffer.EncodeRun | lib/kotoba.kekkai/kotoba/kekkai/application_frame_region.kotoba:190-194 | the output gets the whole text when the record is valid and it fits, otherwise nothing; the work area ends blank |
| Transfer.SameRecords | lib/kotoba.kekkai/kotoba/kekkai/application_frame_region.kotoba:177-184 | the pool demands of a record exactly what the encoder does |
| Transfer.Intact | lib/kotoba.kekkai/kotoba/kekkai/application_reassembly_region.kotoba:142-193 | a message that completes from decoded texts is the message that was sent, whatever else goes on in the pool |
| Transfer.CollectOne | lib/kotoba.kekkai/kotoba/kekkai/application_reassembly_region.kotoba:149-158 | a part of the message is kept, or is the last one missing and completes it |
| Transfer.Completes | lib/kotoba.kekkai/kotoba/kekkai/application_reassembly_region.kotoba:142-162 | in a pool of its own, the call that brings the last missing part completes the message, whatever order and repetition came before |
| Transfer.EndToEnd | lib/kotoba.kekkai/kotoba/kekkai/application_send_region.kotoba:122-138 | cut, encoded, decoded and handed over in any order with repeats, amid other keys' calls, releases, expiry, revocation and new epochs, the message completes at the first moment when every part has come, as long as there is room for its parts and none is dropped |
| Transfer.EndToEndAlone | lib/kotoba.kekkai/kotoba/kekkai/application_send_region.kotoba:122-138 | in a pool of its own the shipped quotas always leave that room |

## Left out

- Ipv4Udp.HeaderByteRefused: does not cover another header length in byte 14, because the sum then runs over other bytes; `LengthNibbleCanPass` shows that such a frame can stay admitted, and `LengthNibbleExact` says exactly when it does.
- Ipv4Udp.HeaderWordExact: leaves the same length nibble apart.
- UdpRepair.FixUdpWhole: asks for an announced total inside the frame that holds a datagram header; `BadTotalRefused` shows that no repair restores any other frame.
- DatagramLink.Safety: assumes that what authenticates is a frame the peer sealed; forging against the cipher is not modelled.
- DatagramRegion.Region.Open: does not model the 512 scratch bytes of the cipher, nor input and output that overlap in part.
- UdpPeer.Packet: takes arguments that fit their fields or gives nothing, where the original raises.
- ReassemblyPool.Pool.Accept: takes the binding and the record as values, so buffers that overlap the pool and wrong sizes are not modelled.
- ReassemblyPool.Pool.Release: does not model the 96 bytes of the pinned channel beside the held header.
- Checkpoint.Accepted: takes one golden test for each checkpoint, where the observer compares region by region and may note several differences.
- Checkpoint.NeverSkips: models the observer of the pending checks; the reassembly observer uses kinds 1 and 2 and does not check that a before is still open.
- GdbStream.Gdb.Read: does not model the ten-second timeout, only a stream that ends.
- Generated.AllChunks: works on expressions and not on their text, and compares the value of `main`, not the exit code it becomes.
- OfficeFrames.Parse: reads plain digits only, where Python's `int` also takes signs, spaces and underscores, and leaves fields as bytes.
- SourceLock.Read: knows of a stored file only whether its digest is the expected one.
- Sweep.Compare: takes lines that are already recognised, so the line patterns are not modelled.
- SendMessage.NativeFragments: takes decryption, the JSON of a fragment and its base64 as one parameter, and the JSON and base64 readers of the joined message as another.
- Transfer.EndToEnd: asks at each of the sender's calls that the pool is free, the time in order and room left; `EndToEndAlone` proves that room for a pool of its own.
- AppFrameRound.RoundTrip: treats the record as a value; the zero bytes that fill its 2048 are not modelled.
- Pinning a channel to a completed message of the pool, and copying the message out.
- Session, roster, envelope, pending and sender owners beyond the fragments above.
- Cryptographic primitives, handshakes, and the compiler that produces the native programs.
- QEMU, sockets, files, receipts, digests of tools and the relay scripts: input and output.

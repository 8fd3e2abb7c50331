# Verification of lib/dns, lib/websocket, lib/ints, lib/strings, lib/math, lib/ini and lib/dsv

This project models the parts of the library whose correctness rests on an invariant, and proves what they are for.
Each part comes twice: as functions on values, about which the properties are proved, and in the form the Go code has,
as classes and methods that update fields, buffers and arrays in place and whose contracts tie them to the functions.

- **DNS messages** (`bytes`, `dns_name`, `dns_record`, `dns_wire`, `dns_limit`, `dns_bytes`, `dns_pack`,
  `dns_unpack`). Packing keeps an offset, a packet and a table from name suffixes to offsets; unpacking follows the
  pointers back (RFC 1035, sections 4.1.1 to 4.1.4). The one invariant behind the round trip, the ending of the
  decoder and the rewriting of times to live is that every table entry decodes at its offset to its key using only
  earlier bytes.
- **WebSocket** (`ws_frame`, `ws_split`, `ws_client`, `ws_order`, `ws_bytes`, `ws_objects`, `ws_new`, `ws_manager`,
  `ws_manager_runs`). A frame can stop after any byte and resume with the next packet (RFC 6455, section 5.2). Cutting
  a stream anywhere is harmless, with one exact exception: after a 16-bit length of 127 has been read, the next call
  takes it for the marker of a 64-bit length. Fragmentation (section 5.4) is stated on the sequence of frames as a
  whole. The server's five connection structures stay consistent over every run.
- **Sorting in place** (`ints_sort`, `lists`). The merge may put runs out of order; it is right because the minimum of
  the rest is looked up again before the front moves.
- **Set partitions** (`partition`, `partition_slices`, `partition_objects`, `stirling`). A recursive enumerator whose
  rows share the arrays of their blocks: an append to a block with spare capacity can overwrite an element of another
  row. The table is right exactly for one block or at most three more elements than blocks. Its number of rows is that
  of the inclusion-exclusion formula in any case.
- **The answer cache** (`dns_cache`, `dns_cache_history`, `dns_cache_objects`). A map and a list with back pointers
  over every run of get, upsert and prune, and when the pair behaves like a plain map.
- **INI** (`ini`, `ini_calls`, `ini_lookups`, `ini_objects`, `ini_value`, `ini_text`, `ini_reader`). What Prune,
  Rebase, Add, Set and Unset do to every lookup, over every run of calls on a parsed file; which printed values are
  read back.
- **DSV** (`tokens`, `dsv`, `dsv_skip`, `dsv_read`, `dsv_objects`). The row writer and the row parser undo each other,
  over line ends too; the reader in front of the parser skips blank lines and trims the others, and when that loses
  rows is stated.

Where a property the code suggests does not hold for all inputs, the exact condition is proved, and a lemma gives an
input where it fails:

- `HeaderKept`, with `InverseQueryLost`; `PointerExact`, with `LongMessageMisread`
- `UpsertExact`, with `DemotedIsPruned`; `UpsertOrdered` and `PruneExact`, with `StoredAgain`
- `ServedOrdered`, with `ServedOutOfOrder`; `ServedTwice`, with `ServedLow`
- `SplitExact` and `CutExact`, with `RereadHappens` and `RereadStuck`
- `InsertExact`, with `TwiceAtOnce`; `AfterFin`, which says what is left of a message that has ended
- `PartitionExact`, with `SixInTwo`; `StirlingS2`, which fails at its one exception
- `PruneGet` and `PruneAfterCalls`, with `EmptySetChanges`; `RebaseGet`, with `RebaseLoses`
- `PlainExact` and `PrintedExact` of INI values, with `UnquotedLost`
- `Dsv.PlainExact`, with `BackslashLost`; `DsvRead.FileRoundTrip`, with `BlankLost`, `BlankQuote` and `SpaceLost`
- `SkippedRoundTrip`, with `EmptyRecorded`; `EscapeMeans`, with `BlankMoves`
- `FindExact`, with `Missed`

Where documentation and code differ, the model follows the code: the list of answers is documented as holding
non-local answers ordered by access time (`lib/dns/caches.go:26-28`), which an upsert over an existing answer can
break; the comment on `answer.get` promises times to live lowered by the age, which holds only for the first call;
`Partition` promises the set of all groups without duplication (`lib/strings/table.go:35-48`), which its table is only
for one block or up to three more elements than blocks; `Ini.Unset` is said to return true if the key is found
(`lib/ini/ini.go:728-732`), and does so whenever there is a section; `finFrames` is said to clear the stored frame
(`lib/websocket/clientmanager.go:72-75`), which it does only where there are fragments; `SkipAfterToken` is said to
return -1 without a token (`lib/bytes/bytes.go:397`), and returns the end of the line. In numbers and bytes the model
is held against the standards: `dns_bytes` and `ws_bytes` say what is on the wire without the names of any constant.

## Model

| member | source | states |
|---|---|---|
| Bytes.Buffer.AppendUint16 | lib/bytes/bytes.go:36-39 | appends the two bytes, the high one first |
| Bytes.Buffer.AppendUint32 | lib/bytes/bytes.go:44-49 | appends the four bytes, the highest first |
| Bytes.Buffer.WriteUint16 | lib/bytes/bytes.go:547-550 | overwrites exactly two bytes in place |
| Bytes.Buffer.WriteUint32 | lib/bytes/bytes.go:555-560 | overwrites exactly four bytes in place |
| Bytes.ReadBack16 | lib/bytes/bytes.go:327-329 | what was written as 16 unsigned bits is read back at its place |
| Bytes.ReadBackSigned | lib/bytes/bytes.go:311-313 | what was written as 16 signed bits is read back at its place |
| Bytes.ReadBack32 | lib/bytes/bytes.go:335-337 | what was written as 32 bits is read back at its place |
| DnsName.EncodeNameCorrect | lib/dns/message.go:101-212 | a packed name, compressed or not, is in the packet as the labels and pointer of RFC 1035 section 4.1.4; afterwards every entry of the suffix table still decodes at its offset to exactly its key, and every pointer aims strictly backwards; for packets of at most 0x4000 bytes, and of at most 0x10000 if no name found in the table stands at 0x4000 or behind |
| DnsName.PointerExact | lib/dns/message.go:101-110 | the reader takes a pointer for its offset modulo 0x4000, so it is followed rightly if and only if the offset is below that |
| DnsBytes.PointerNumber | lib/dns/message.go:101-110 | the two bytes of a pointer are the number 0xC000 plus the offset, for every offset below 0x4000, and a byte is the first of a pointer from 0xC0 on |
| DnsBytes.NameBytes | lib/dns/message.go:115-212 | for every list of labels of 1 to 63 bytes: each label behind its length, up to the first suffix in the table, and then the pointer to that; or all labels and a zero byte |
| DnsBytes.ReservedLabel | lib/dns/resourcerecord.go:184-221 | a byte from 64 on that is no pointer is refused wherever a name is read |
| DnsName.ReadSegment | lib/dns/resourcerecord.go:184-221 | the recursive decoder ends on every packed name and gives back the name with all compressed parts, and the offset where the name ends; the depth it needs is bounded by the position |
| DnsRecord.NameRoundTrip | lib/dns/message.go:115-212 | a name packed at x is read back in lower case and the reader stops behind it, with the table sound for the longer packet |
| DnsRecord.RDataRoundTrip | lib/dns/message.go:252-293 | for A, NS, CNAME, MB, MG, MR, PTR, MX, MINFO, SRV and WKS the data is read back, whatever names in it were compressed |
| DnsRecord.RecordRoundTrip | lib/dns/message.go:221-250 | a packed record is read back with name, type, class, time to live and data, the offset of its time to live is the recorded one, and the reader stops behind it |
| DnsRecord.RecordsRoundTrip | lib/dns/message.go:529-562 | the same for a list of records that share the suffix table |
| DnsBytes.TypeNumbers | lib/dns/dns.go:104-122 | which kind of data goes with which type, by the numbers of RFC 1035 section 3.2.2 and RFC 2782 |
| DnsBytes.RecordNumbers | lib/dns/message.go:221-250 | behind the name of any record stand type, class, time to live and length as numbers of two, two, four and two bytes, and then as many bytes of data |
| DnsBytes.KindBytes | lib/dns/message.go:252-293 | the bytes of an address list, a mail exchange with a negative preference, two mailboxes, a service and a host, one by one |
| DnsBytes.ServiceParts | lib/dns/resourcerecord.go:395-425 | the owner name of an SRV record is split at its first two dots |
| DnsBytes.RootMailbox | lib/dns/resourcerecord.go:363-384 | the root name as first mailbox is stepped over as if it took two bytes |
| DnsWire.HeaderRoundTrip | lib/dns/sectionheader.go:123-200 | a packed header is read back up to the bits that the packer drops |
| DnsWire.HeaderKept | lib/dns/sectionheader.go:123-165 | a header survives packing exactly when its opcode is even and below 32, its response code below 16, and, in a query, the answer-only flags are clear |
| DnsWire.InverseQueryLost | lib/dns/sectionheader.go:123-165 | opcode 1 is packed and read back as opcode 0 |
| DnsBytes.FlagsNumber | lib/dns/sectionheader.go:123-165 | the flags of any header are the number of its bits: 0x8000 for a response, 0x0400, 0x0200, 0x0100 and 0x0080 for AA, TC, RD and RA, the code in the last four, and half the opcode in 0x7800 |
| DnsBytes.HeaderNumbers | lib/dns/sectionheader.go:123-165 | the twelve bytes are identification, flags and the four counts, each as a number of two bytes |
| DnsBytes.FlagsRead | lib/dns/sectionheader.go:170-200 | reading no flags into any header leaves those that are only raised as they were, and reading all flags raises them |
| DnsBytes.RefusedQuestions | lib/dns/sectionquestion.go:66-114 | a question about the root name is refused, and so are two that end too early; one about "q" is read |
| DnsWire.QuestionRoundTrip | lib/dns/sectionquestion.go:51-114 | a packed question is read back in lower case, its size is the computed one, and its name starts a sound suffix table |
| DnsWire.MessageRoundTrip | lib/dns/message.go:529-562 | unpacking a packed message gives the header, question and three record lists that were packed; for a query it says exactly which counts make the reader fail; beyond 0x4000 bytes the condition is that no pointer leads to 0x4000 or behind |
| DnsBytes.ResponseBytes | lib/dns/message.go:529-562 | the whole packet of one response, byte by byte: header, question in lower case, an address record and a mail exchange whose names are compressed |
| DnsBytes.ResponseRead | lib/dns/message.go:716-782 | that packet is read back |
| DnsLimit.LongMessageMisread | lib/dns/message.go:101-110 | a concrete message beyond 0x4000 bytes whose third record is read back with another name: the condition cannot be dropped |
| DnsWire.PackStable | lib/dns/message.go:529-562 | packing changes the message (lower case, recorded offsets) but not what it packs to |
| DnsWire.SlotsRewrite | lib/dns/message.go:642-673 | rewriting the recorded slots of a list turns its bytes into those of the list with the new times to live and leaves every other byte alone |
| DnsWire.SubTTLRewrites | lib/dns/message.go:642-673 | after SubTTL the packet is the one the lowered message packs to |
| DnsWire.SubTTLRoundTrip | lib/dns/message.go:245-247 | after SubTTL(n) the packet unpacks to the same message with every time to live lowered by n and floored at zero |
| DnsWire.SubTTLAdds | lib/dns/message.go:642-673 | SubTTL(a) then SubTTL(b) is SubTTL(a + b), on the message and on the packet |
| DnsBytes.PseudoKept | lib/dns/message.go:642-673 | every time to live is lowered and floored at zero, except in records of type 41 of the additional list, and nothing else of the message changes |
| DnsBytes.OnlySlots | lib/dns/message.go:642-673 | no byte of the packet outside the slots of those records changes |
| DnsWire.MessageTwice | lib/dns/message.go:642-673 | SubTTL(a) and then SubTTL(b), with a at most b, is SubTTL(b) if and only if a is 0 or no time to live is above b |
| DnsWire.PacketTwice | lib/dns/message.go:642-673 | the same for the packets: packets that differ in a time to live differ |
| DnsPack.Message.Compress | lib/dns/message.go:101-110 | appends the pointer exactly when the name is in the table |
| DnsPack.Message.PackDomainName | lib/dns/message.go:115-212 | byte by byte with placeholder length bytes: appends the encoding of the lower-cased name and keeps the offset equal to the packet length |
| DnsPack.Message.PackLabels | lib/dns/message.go:115-212 | the loop over the name finishes the encoding it was halfway through |
| DnsPack.Message.PackQuestion | lib/dns/message.go:214-219 | appends the encoded question |
| DnsPack.Message.PackA | lib/dns/message.go:295-312 | appends length and address |
| DnsPack.Message.PackWKS | lib/dns/message.go:344-354 | appends length, address, protocol and bitmap |
| DnsPack.Message.PackMINFO | lib/dns/message.go:367-378 | appends both names and patches the length in place |
| DnsPack.Message.PackRData | lib/dns/message.go:252-293 | appends the encoding for the record type |
| DnsPack.Message.PackRR | lib/dns/message.go:221-250 | appends the record and records the offset of its time to live |
| DnsPack.Message.PackHeader | lib/dns/sectionheader.go:123-165 | builds the twelve bytes flag by flag |
| DnsPack.Message.Pack | lib/dns/message.go:529-562 | the packet is the encoded message and the message its packed form |
| DnsPack.Message.SubTTL | lib/dns/message.go:642-673 | lowers every time to live and writes it into its slot of the packet |
| DnsUnpack.ResourceRecord.UnpackDomainName | lib/dns/resourcerecord.go:184-221 | appends the name, records where it ends, lower-cases the labels it passes in the packet, as the decoding function says |
| DnsUnpack.ResourceRecord.UnpackRData | lib/dns/resourcerecord.go:223-339 | fills the data of the record for its type |
| DnsUnpack.ResourceRecord.UnpackA | lib/dns/resourcerecord.go:341-350 | refuses an address that is not four bytes long |
| DnsUnpack.ResourceRecord.UnpackMInfo | lib/dns/resourcerecord.go:363-384 | reads both names, the second behind the end of the first |
| DnsUnpack.ResourceRecord.UnpackMX | lib/dns/resourcerecord.go:386-393 | reads preference and exchange |
| DnsUnpack.ResourceRecord.UnpackSRV | lib/dns/resourcerecord.go:395-425 | splits service and protocol off the owner name and reads the rest |
| DnsUnpack.ResourceRecord.Unpack | lib/dns/resourcerecord.go:148-182 | fills the record and returns the index behind it |
| DnsUnpack.UnpackHeader | lib/dns/sectionheader.go:170-200 | assigns the header fields flag by flag |
| DnsUnpack.UnpackQuestion | lib/dns/sectionquestion.go:66-114 | reads labels until the empty one, lower-casing them in the packet |
| DnsUnpack.Unpack | lib/dns/message.go:716-782 | fills header, question and the lists as counted, or reports the first error |
| DnsCache.GoodStep | lib/dns/caches.go:76-187 | every get, upsert and prune keeps the list of answers without repetition, inside the map, and complete for answers that can expire |
| DnsCacheHistory.LastPacket | lib/dns/caches.go:158-187 | after every run of calls an answer that is there has the packet of the last store for its key |
| DnsCacheHistory.History | lib/dns/caches.go:76-187 | and the times, said of the list of calls alone: of the first store that made it local, or else received with the last store and accessed with the last store or lookup, counted from the store with which it came in |
| DnsCacheHistory.GoneBySweep | lib/dns/caches.go:113-140 | an answer that was stored and is gone, or came in anew, was removed by a prune in between |
| DnsCacheHistory.Refreshed | lib/dns/answer.go:84-96 | stored twice and looked up: the second packet, with its time |
| DnsCache.UpsertExact | lib/dns/caches.go:158-187 | an upsert keeps the list exactly the non-local answers unless it stores a local answer over a non-local one, and then never |
| DnsCache.ExactRun | lib/dns/caches.go:26-28 | over every run in which local answers are loaded first the list holds exactly the non-local answers, each once |
| DnsCache.DemotedIsPruned | lib/dns/answer.go:84-96 | a concrete run that stores a local answer over another one, after which prune removes a local answer |
| DnsCache.UpsertOrdered | lib/dns/caches.go:158-187 | an upsert keeps the list in order of access exactly when the new time fits the place where the answer stays or is put |
| DnsCache.TouchedOrdered | lib/dns/caches.go:76-96 | a get keeps the order, with a clock that does not go back |
| DnsCache.StoredAgain | lib/dns/caches.go:158-187 | a concrete run of three stores with a clock that goes forward: the list is out of order and prune keeps an expired answer |
| DnsCache.ServedPacket | lib/dns/answer.go:73-109 | the packet handed out is the one the message packs to with every time to live lowered by the age |
| DnsCache.ServedOrdered | lib/dns/answer.go:101-109 | handing out a packet sets the time of access without moving the answer: the order survives exactly when no later one was accessed before |
| DnsCache.ServedOutOfOrder | lib/dns/answer.go:101-109 | a concrete run in which it does not |
| DnsCache.ServedTwice | lib/dns/answer.go:73-109 | an answer handed out at t1 and again at t2 is, with its packet, what handing it out at t2 alone gives if and only if t1 was the moment it was received or no time to live is above the age at t2 |
| DnsCache.ServedLow | lib/dns/answer.go:101-109 | a concrete answer of 300 seconds that loses 3 of them in 2 seconds |
| DnsCache.PrunedFacts | lib/dns/caches.go:113-140 | prune removes a prefix of the list and those answers from the map, as many as it counts |
| DnsCache.PrunedSafe | lib/dns/caches.go:113-140 | prune never removes or changes an answer outside the list or accessed after the threshold, in whatever order the list is |
| DnsCache.PruneExact | lib/dns/caches.go:113-140 | prune removes every expired answer exactly when the expired ones are at the front |
| DnsCache.OrderedIff | lib/dns/caches.go:26-28 | prune is exact for every threshold if and only if the list is in order of access |
| DnsCache.RunRefines | lib/dns/caches.go:76-187 | with a clock that does not go back and no upsert over a non-local key, the cache and its list give the same map as one without a list whose prune looks at every answer, and the list stays exact and ordered |
| DnsCache.LocalStays | lib/dns/caches.go:113-140 | an answer that is not in the list stays in the cache over every run |
| DnsCache.RecentStays | lib/dns/caches.go:76-140 | an answer accessed after e stays over every run whose prunes do not reach beyond e |
| DnsCacheObjects.Answer.constructor | lib/dns/answer.go:43-57 | stamps a message from outside with the time, a local one with zero |
| DnsCacheObjects.Answer.Update | lib/dns/answer.go:84-96 | the message becomes that of the new answer, which is emptied; the times are taken over only if the old one is not local; an answer updated with itself loses its message |
| DnsCacheObjects.Answer.Clear | lib/dns/answer.go:62-65 | drops message and element, keeps the times |
| DnsCacheObjects.Answers.constructor | lib/dns/answers.go:17-25 | one answer, or none without a message |
| DnsCacheObjects.Answers.Get | lib/dns/answers.go:32-45 | the first answer of type and class with its position, or null |
| DnsCacheObjects.Answers.Remove | lib/dns/answers.go:50-57 | the last answer moves into the place of the removed one |
| DnsCacheObjects.SwapOutFacts | lib/dns/answers.go:50-57 | that leaves all others, each once |
| DnsCacheObjects.Answers.Upsert | lib/dns/answers.go:64-75 | updates the match in place or appends; nothing else changes |
| DnsCacheObjects.Caches.constructor | lib/dns/caches.go:47-65 | an empty cache; delays that are too short become an hour |
| DnsCacheObjects.Caches.Get | lib/dns/caches.go:76-96 | finds the answer, moves its element to the back and sets its time, as the cache on values does |
| DnsCacheObjects.Caches.Upsert | lib/dns/caches.go:158-187 | the maps, the list and the back pointers after an upsert are those of the cache on values, and it tells whether the key was new |
| DnsCacheObjects.Caches.Remove | lib/dns/caches.go:145-151 | the answer leaves its list and is cleared |
| DnsCacheObjects.Caches.Prune | lib/dns/caches.go:113-140 | the loop over the list ends where the cache on values says, and counts what it removed |
| DnsCacheObjects.StateGood | lib/dns/caches.go:20-38 | consistent maps and back pointers make a good cache on values: one answer for each key and no element twice |
| WsFrame.XorTwice | lib/websocket/frame.go:256-319 | masking a byte twice with one key byte gives it back, with exclusive or defined bit by bit |
| WsBytes.XorIsDiffer | lib/websocket/frame.go:256-319 | an exclusive or has exactly the bits that are set in one of the two bytes and not in the other |
| WsFrame.MaskTwice | lib/websocket/frame.go:256-319 | masking undoes itself at every offset |
| WsFrame.MaskSplit | lib/websocket/frame.go:433-465 | masking a payload in two pieces is masking it at once, if the second starts at its offset |
| WsFrame.BigEndianRoundTrip | lib/websocket/frame.go:256-319 | the extended length is read back |
| WsBytes.FirstByte | lib/websocket/frame.go:354-376 | the first byte is FIN 0x80, the reserved bits 0x40, 0x20 and 0x10, and the opcode in the last four bits |
| WsBytes.HeaderKept | lib/websocket/frame.go:354-465 | what the first two bytes say of any frame, unpack keeps |
| WsBytes.LengthBytes | lib/websocket/frame.go:256-319 | up to 125 bytes the length is one byte, from 126 on the byte 126 and two more, from 0x10000 on the byte 127 and eight more |
| WsBytes.SmallFrame | lib/websocket/frame.go:354-465 | for every opcode and payload of at most 125 bytes: the packet of two bytes and the payload is read as this frame; a closing frame has the code of its first two bytes, 1000 without any and 1002 with one |
| WsBytes.HelloMasked | lib/websocket/frame.go:433-465 | the masked text message of RFC 6455 section 5.7 is read as "Hello" |
| WsSplit.FrameRoundTrip | lib/websocket/frame.go:256-465 | every frame of the three length classes, masked or not, is read back complete with its flags, opcode, key and payload, and nothing behind it is consumed |
| WsSplit.StreamRoundTrip | lib/websocket/frames.go:31-45 | packing any list of frames and unpacking the concatenation gives those frames in order, all complete |
| WsSplit.UnpackSplits | lib/websocket/frame.go:354-465 | for a frame in progress, reading a packet in two pieces gives the frame and the rest that reading it at once gives, unless the piece leaves the frame unfinished anywhere behind a 16-bit length of 127 |
| WsSplit.SplitExact | lib/websocket/frame.go:377-399 | an unfinished frame resumes correctly if and only if its header is not that one |
| WsSplit.RereadHappens | lib/websocket/frame.go:377-390 | the four bytes 81 7E 00 7F lead into that state |
| WsSplit.RereadStuck | lib/websocket/frame.go:377-390 | from there the next packet completes no frame and leaves a header no stream can have |
| WsSplit.RereadHeader | lib/websocket/frame.go:377-399 | the state arises only from a stream whose header has a 16-bit length of 127 |
| WsClient.HandleFrameOk | lib/websocket/client.go:515-549 | handling a frame never leaves an empty list of fragments, and a whole frame leaves none unfinished |
| WsClient.ServeIsFeed | lib/websocket/client.go:594-703 | the loops of serve and handleRaw over a packet do what reading frame after frame does |
| WsClient.FeedSplits | lib/websocket/client.go:594-613 | cutting a stream in two changes neither events nor final state, nor whether the client stops, unless the cut leaves the exceptional header |
| WsClient.CutExact | lib/websocket/client.go:594-613 | a cut is harmless if and only if it does not fall behind a 16-bit length of 127, anywhere behind it in that frame |
| WsClient.RunAnyCut | lib/websocket/client.go:663-703 | however a stream without such a length is cut into non-empty packets, the client logs the same events and ends in the same state as for one packet |
| WsOrder.FrameStep | lib/websocket/client.go:446-549 | after frames in order, the next frame takes the client to the state that the sequence alone determines, or stops it with the events it must cause |
| WsOrder.Delivered | lib/websocket/client.go:446-549 | as long as nothing stops the client, its state and log are those read off the sequence: each message once, with the opcode of its first fragment and all its payloads |
| WsOrder.StopsAtFirst | lib/websocket/client.go:446-549 | the client stops at the first frame that breaks the order, is invalid or closes, having logged exactly the messages before it |
| WsOrder.ReadsToTheEnd | lib/websocket/client.go:446-549 | it reads to the end if and only if no frame is such |
| WsBytes.OneFrame | lib/websocket/client.go:515-549 | what a client calls for a packet of one frame, by opcode number and for every payload of at most 125 bytes: 1 the text handler, if it is UTF-8, 2 the binary one, 8 closes, 9 ping, 10 pong, 0 and 3 to 7 refused, 11 to 15 reserved |
| WsBytes.TwoFragments | lib/websocket/client.go:446-510 | two fragments with a ping between them: the ping, and then one event with the first opcode and both payloads |
| WsBytes.HelloText | lib/websocket/client.go:495-503 | a new client given the bytes 81 05 and "Hello" calls its text handler with that |
| WsObjects.Frame.Pack | lib/websocket/frame.go:256-319 | fills a new buffer by index with the encoded frame and sets the length and the key |
| WsObjects.Frame.Unpack | lib/websocket/frame.go:354-465 | updates its fields in stages and returns the rest, as the reading function does |
| WsObjects.Frames.Append | lib/websocket/frames.go:52-56 | appends, ignoring nil |
| WsObjects.Frames.Fin | lib/websocket/frames.go:62-82 | merges the later fragments and the last frame into the first one |
| WsObjects.Unpack | lib/websocket/frames.go:31-45 | unpacks all frames of a buffer |
| WsObjects.Client.HandleFragment | lib/websocket/client.go:446-510 | state, log and result are those of the fragment step |
| WsObjects.Client.HandleFrame | lib/websocket/client.go:515-549 | state, log and result are those of the frame step |
| WsObjects.Client.HandleRaw | lib/websocket/client.go:594-613 | the same for a packet |
| WsObjects.Client.Serve | lib/websocket/client.go:684-702 | one round of the serving loop: the frame in progress first, then the rest of the packet |
| WsObjects.Client.ServeAll | lib/websocket/client.go:663-703 | the loop over packets: state, log and result are those of the run on values |
| WsNew.NewFrame | lib/websocket/frame.go:175-185 | the other side reads one final frame with this opcode and payload and nothing else |
| WsNew.AcceptedExactly | lib/websocket/frame.go:205-237 | such a frame is valid for the other side exactly if it is no control frame or its payload is at most 125 bytes |
| WsNew.NewControlFrame | lib/websocket/frame.go:162-169 | cuts the payload, so that the other side always accepts the frame |
| WsNew.NewFrameClose | lib/websocket/frame.go:121-134 | the code comes first in the payload, 1000 if none is given |
| WsManager.RunAgrees | lib/websocket/clientmanager.go:169-234 | over every run of add, remove and the frame setters each connection is listed once and has a context, and every user with connections, and no other, has the list of them in the order they came |
| WsManager.AddedAgree | lib/websocket/clientmanager.go:169-198 | add keeps this even for a connection that is already there with another user |
| WsManager.RemovedAgree | lib/websocket/clientmanager.go:203-234 | remove keeps this and the connection is in none of the five structures |
| WsManager.StaysGone | lib/websocket/clientmanager.go:203-234 | it stays out until a call for it comes |
| WsManager.ConnsExact | lib/websocket/clientmanager.go:101-106 | the list of a user holds exactly the connections with that user, without repetition, and is never empty |
| WsManager.InsertExact | lib/websocket/clientmanager.go:172-197 | between the two critical sections of add the lock is free: the second one keeps the structures consistent if and only if the connection did not come back with a user meanwhile |
| WsManager.AddAmongOthers | lib/websocket/clientmanager.go:172-197 | whatever run of calls for other connections happens there, add keeps everything consistent |
| WsManager.TwoAdds | lib/websocket/clientmanager.go:172-197 | a second add of the connection there keeps it consistent if and only if that one has no user |
| WsManager.TwiceAtOnce | lib/websocket/clientmanager.go:172-197 | a concrete run: one user connecting twice at once on an empty server is listed wrongly |
| WsManagerRuns.StoredFrames | lib/websocket/clientmanager.go:76-164 | after every run the fragments stored for a connection are those that the last call about them left: the set ones, or none after the end of a message, add or remove |
| WsManagerRuns.StoredFrame | lib/websocket/clientmanager.go:76-164 | and its frame in progress is that of the last call about it, where the end of a message is one if there were fragments |
| WsManagerRuns.AfterFin | lib/websocket/clientmanager.go:76-92 | after the end of a message nothing is stored of its fragments, and a frame only if there were no fragments |
| WsManagerRuns.MergedOnce | lib/websocket/clientmanager.go:76-92 | a concrete run: after the end of a message its fragments are gone |
| WsManagerRuns.OthersKeep | lib/websocket/clientmanager.go:76-164 | runs of calls for other connections change neither |
| WsManager.ClientManager.Add | lib/websocket/clientmanager.go:169-198 | updates the slice and the maps as stated for add |
| WsManager.ClientManager.Insert | lib/websocket/clientmanager.go:175-197 | the second critical section of add |
| WsManager.ClientManager.Remove | lib/websocket/clientmanager.go:203-234 | updates all five structures as stated for remove |
| WsManager.ClientManager.SetFrame | lib/websocket/clientmanager.go:142-150 | sets or deletes the frame |
| WsManager.ClientManager.SetFrames | lib/websocket/clientmanager.go:156-164 | sets or deletes the fragments |
| WsManager.ClientManager.FinFrames | lib/websocket/clientmanager.go:76-92 | returns the merged frame and forgets both entries, or returns the last frame unchanged |
| WsManager.IsExist | lib/ints/ints.go:127-134 | membership |
| IntsSort.Swap | lib/ints/ints.go:313-320 | exchanges two elements and nothing else; equal indices, indices beyond the length and slices of one element are left alone |
| IntsSort.MinRange | lib/ints/ints.go:261-271 | the last position of the minimum of a range, or its start if it is empty |
| IntsSort.MaxRange | lib/ints/ints.go:190-200 | the last position of the maximum of a range, or its start if it is empty |
| IntsSort.InplaceInsertionSort | lib/ints/ints.go:68-84 | sorts the range in either direction, moving the index array along |
| IntsSort.MinY | lib/ints/ints.go:397-410 | advances the front over elements in place and looks up a smallest element of the rest behind it; what is before the front is settled for good |
| IntsSort.MoveY | lib/ints/ints.go:412-434 | the run of elements that belong before the front |
| IntsSort.InplaceMultiswap | lib/ints/ints.go:379-394 | exchanges runs, possibly out of order, but brings the smallest element to the front and loses none |
| IntsSort.InplaceMerge | lib/ints/ints.go:337-377 | merges two sorted halves in place: terminates, sorted, a permutation of the range with the indices in lockstep |
| IntsSort.InplaceMergesort | lib/ints/ints.go:90-121 | always terminates, leaves exactly the range sorted in the asked direction, permutes only that range and moves the index array in lockstep, or leaves it alone if it has at most one element |
| IntsSort.MovedWithin | lib/ints/ints.go:90-121 | pairs moved in lockstep within a range keep the elements of that range |
| IntsSort.IndicesLeadBack | lib/ints/ints.go:47-56 | an index array moved in lockstep from 0..n-1 is a permutation that says where each element came from |
| IntsSort.IndirectSort | lib/ints/ints.go:47-56 | the slice is sorted and the returned indices are a permutation through which it is read off the old slice |
| IntsSort.SortByIndex | lib/ints/ints.go:290-298 | reads the slice through the indices |
| IntsSort.Remove | lib/ints/ints.go:277-285 | removes the first occurrence and tells whether there was one |
| Lists.WithoutFirst | lib/ints/ints.go:277-285 | what goes is the first occurrence, and everything else stays in place |
| PartitionSlices.PartitionExact | lib/strings/table.go:35-119 | for distinct elements and 1 <= k <= n the table of slices shows splits into k blocks only, shows every split, and shows none twice, if and only if k = 1 or n <= k + 3; otherwise it shows a row that is no split and leaves a split out |
| PartitionSlices.EnumeratedRight | lib/strings/table.go:49-119 | for k = 1 or n <= k + 3 the table shows, row by row, what the enumeration on values gives |
| PartitionSlices.EnumeratedNoOverlap | lib/strings/table.go:171-181 | up to n = k + 2 blocks that share an array are equally long, which is what joining one more element needs |
| PartitionSlices.JoinView | lib/strings/table.go:171-181 | from a table in which blocks that share an array are equally long, JoinCombination makes the rows it should, as a reader of the table sees them |
| PartitionSlices.SpareWritten | lib/strings/table.go:171-181 | joining writes the element behind every block with spare capacity, into the array that longer blocks of other rows share |
| PartitionSlices.EnumeratedDoubles | lib/strings/table.go:171-181 | from n = k + 4 on, with k >= 2, some row has an element in two blocks; for n = k + 4 it is the second row and the first element |
| PartitionSlices.EnumeratedWrong | lib/strings/table.go:35-119 | so some row is no split, and some split is not listed |
| PartitionSlices.SixInTwo | lib/strings/table.go:49-119 | six elements in two blocks: the second row has "a" in both blocks |
| PartitionSlices.EnumeratedCount | lib/strings/table.go:43-44 | there are as many rows as the Stirling number says, right or not |
| PartitionObjects.Memory.Append | lib/strings/table.go:177-177 | append: writes in place while the array has room, and copies otherwise |
| PartitionObjects.Memory.SinglePartition | lib/strings/table.go:125-136 | one row with every element alone, each in an array of its own |
| PartitionObjects.Memory.JoinCombination | lib/strings/table.go:171-181 | for each row and each block a new row with the element appended to that block; the other blocks are shared, and so is its array while it has room |
| PartitionObjects.Memory.Partition | lib/strings/table.go:49-119 | the recursive enumeration, with the arrays as it leaves them |
| PartitionObjects.CountRows | lib/math/math.go:55-68 | the enumerator and the closed formula agree on the number of rows, for no elements and one block too |
| Partition.PartitionsCorrect | lib/strings/table.go:49-119 | the enumeration with blocks as values: for distinct elements and 1 <= k <= n every row splits the elements into k non-empty blocks, no two rows are the same up to order, and every such split is listed |
| Partition.ListsExactly | lib/strings/table.go:49-119 | with blocks as values a set of sets is a row up to order if and only if it splits the elements into k non-empty disjoint blocks |
| Partition.RowSplits | lib/strings/table.go:40-48 | a row read as a set of sets is a split into as many blocks as the row has |
| Partition.AtMostSingles | lib/strings/table.go:72-77 | a split has at most as many blocks as elements, and as many only if every element is alone |
| Partition.PartitionsCount | lib/strings/table.go:43-44 | there are as many rows as the Stirling number says |
| Partition.NothingInOneBlock | lib/strings/table.go:61-70 | for no elements and one block the row listed has an empty block |
| Stirling.Factorial | lib/math/math.go:17-30 | the factorial; of a negative number the negated factorial of its absolute value |
| Stirling.BinomialCoefficient | lib/math/math.go:38-43 | Pascal's numbers: the quotient of factorials is exact; for negative numbers the quotient rounded towards zero |
| Stirling.ChooseFactorials | lib/math/math.go:35-37 | n! = C(n, k) (n - k)! k! for the numbers of Pascal's rule |
| Stirling.StirlingS2 | lib/math/math.go:55-68 | the Stirling number of the recurrence, except that S2(0, 1) comes out as 1: exact if and only if not n = 0 and k = 1; for negative numbers 0, or 1 where both are equal or k is 1 |
| Stirling.InclusionExclusion | lib/math/math.go:59-67 | the alternating sum is k! times the Stirling number, so the division is exact |
| Ini.GetIsLast | lib/ini/ini.go:825-849 | Get, scanning backwards over sections and variables, finds the last of all values of the key |
| Ini.GetsIsValues | lib/ini/ini.go:867-888 | Gets gives all of them from top to bottom |
| Ini.VarValsAddUniq | lib/ini/section.go:171-190 | adding a value moves an equal one of the same key to the end and leaves the values of other keys alone |
| Ini.KeepLastSnoc | lib/ini/section.go:165-170 | so repeated adding is keeping the last of equal values |
| Ini.PruneGet | lib/ini/ini.go:902-934 | Prune keeps every lookup, except that an empty value becomes "true": it is unchanged if and only if it was not empty |
| Ini.PruneGetFilled | lib/ini/ini.go:902-934 | so Prune keeps every lookup of a file without empty values |
| Ini.PruneGets | lib/ini/ini.go:902-934 | Prune turns Gets into its keep-last deduplication, exactly that if no value is empty |
| Ini.PruneTwice | lib/ini/ini.go:902-934 | Prune leaves one section for each name pair and no repeated key and value, and doing it again changes nothing |
| Ini.MergeValues | lib/ini/ini.go:939-957 | merging a section adds its values to those of the first section of the name |
| Ini.RebaseGet | lib/ini/ini.go:962-966 | for any two files a lookup after Rebase gives the other's value where it has one and no later twin section hides it, and the old value otherwise |
| Ini.RebasePruned | lib/ini/ini.go:962-966 | on a pruned file the other's value always wins, and lookups the other does not have are unchanged |
| Ini.RebaseLoses | lib/ini/ini.go:939-957 | a concrete unpruned file on which Rebase loses the other's value |
| Ini.RebaseGets | lib/ini/ini.go:962-966 | Gets after Rebase, for any two files: the other's values are added one by one behind those of the first section of the name, each moving to the end if it is there, and the values of later twin sections follow; without such a section the other's first one is taken over as it is |
| Ini.RebasePrunedGets | lib/ini/ini.go:962-966 | of pruned files Gets gives the last of equal values of both, one behind the other |
| IniObjects.Section.AddUniqValue | lib/ini/section.go:171-190 | moves or adds the variable in place |
| IniObjects.Section.AddVariable | lib/ini/section.go:192-207 | stores the line, an empty value as "true" |
| IniObjects.Section.Add | lib/ini/section.go:131-163 | adds the variable unless it is there with that value, an empty value as "true" |
| IniObjects.Section.Set | lib/ini/section.go:308-332 | gives the last variable of the key the value, or adds it |
| IniObjects.Section.Unset | lib/ini/section.go:335-357 | removes the last variable of the key |
| IniObjects.File.GetSection | lib/ini/ini.go:1130-1149 | the last section of the name, with its place |
| IniObjects.File.Add | lib/ini/ini.go:622-659 | changes the file as the call on values does: the variable goes into the last section of the name, or into a new one, an empty value as "true" |
| IniObjects.File.Set | lib/ini/ini.go:693-726 | the same for Set, which keeps an empty value in a section that it makes |
| IniObjects.File.Unset | lib/ini/ini.go:728-748 | the same for Unset, and tells whether there is such a section |
| IniCalls.StoredOk | lib/ini/section.go:192-207 | a parsed variable is never stored empty and has its key in lower case, blank lines have no key |
| IniCalls.RunTold | lib/ini/ini.go:622-748 | over every run of Add, Set and Unset each variable carries the name, key and value of the call that stored it last; the value is empty exactly if that call was a Set of an empty value that made its section |
| IniCalls.FoundIsStored | lib/ini/ini.go:825-849 | so what a lookup finds after a run was stored by a call for that section and key, with its value |
| IniCalls.PruneAfterCalls | lib/ini/ini.go:902-934 | after every run of calls on a parsed file Prune keeps a lookup if and only if the value found was not stored by a Set of an empty value for which there was no section |
| IniCalls.PruneKeepsLookups | lib/ini/ini.go:902-934 | so a run without such a call leaves a file of which Prune keeps every lookup |
| IniCalls.HollowChanges | lib/ini/ini.go:711-722 | and right after such a call the lookup gives the empty value, and "true" once the file is pruned |
| IniCalls.EmptySetChanges | lib/ini/ini.go:702-722 | this happens on an empty file |
| IniLookups.CallValues | lib/ini/ini.go:622-748 | every accepted call on a file in order changes the values of its own section and key and no others: Add adds a value that the last section of the name does not have, Set puts its value in place of the last one if that section has one and adds it otherwise, Unset takes that last one away |
| IniLookups.GetAfterSet | lib/ini/ini.go:693-726 | a lookup right after Set finds what was set |
| IniLookups.GetAfterUnset | lib/ini/ini.go:728-748 | a lookup after Unset finds the value before the last |
| IniLookups.OthersKept | lib/ini/ini.go:622-748 | lookups of other sections and keys stay as they are, whatever the call |
| IniLookups.CallsKeepOk | lib/ini/ini.go:622-748 | every run keeps files in the order that this needs |
| IniLookups.ParsedValues | lib/ini/section.go:192-207 | in a parsed file Gets finds the values of all lines of that key in all sections of that name, in order, an empty one as "true" |
| IniLookups.TwoValues | lib/ini/section.go:239-252 | under a key with "a" and "b" Set puts "c" in place of "b", and Unset takes "b" away |
| IniCalls.RunOk | lib/ini/ini.go:622-748 | every run keeps keys and names in lower case and lines in the order that Prune relies on |
| IniCalls.ParsedStarts | lib/ini/ini.go:753-764 | a parsed file has no empty value, so runs can start from it |
| IniCalls.PrunedStarts | lib/ini/ini.go:902-934 | so can they from a pruned file |
| IniCalls.RebasedStarts | lib/ini/ini.go:962-966 | and from a file rebased on another one without empty values |
| IniObjects.Section.Get | lib/ini/section.go:213-233 | the last value of the key, or the default |
| IniObjects.Section.Gets | lib/ini/section.go:259-274 | all values of the key |
| IniObjects.MergeIn | lib/ini/ini.go:939-957 | merges into the first section of the name in place, or shares the new section |
| IniObjects.File.Prune | lib/ini/ini.go:902-934 | rebuilds the sections as the function says, from new objects only |
| IniObjects.File.Rebase | lib/ini/ini.go:962-966 | merges section by section, in place |
| IniObjects.File.Get | lib/ini/ini.go:825-849 | the backward scan |
| IniObjects.File.Gets | lib/ini/ini.go:867-888 | the forward scan |
| IniValue.Escape | lib/ini/variable.go:104-131 | quotes the value and escapes backspace, line end, tab, backslash and quote |
| IniValue.QuotedRoundTrip | lib/ini/reader.go:509-638 | reading an escaped value, with a comment behind it or not, gives exactly that value, whatever it holds |
| IniText.EscapeMeans | lib/ini/reader.go:555-589 | what every character behind a backslash means, inside a value and whatever is around it: two stand for themselves, three for control characters, a line end joins the next line, and all others are refused |
| IniText.QuotedMeans | lib/ini/reader.go:591-632 | inside quotes every other character is one of the value, and a line end is refused |
| IniText.UnquotedMeans | lib/ini/reader.go:591-632 | outside quotes blanks are held back, # and ; start a comment, and a line end ends the value without the blanks |
| IniText.Words | lib/ini/reader.go:509-638 | the text of two words and a comment |
| IniText.Folded | lib/ini/reader.go:557-562 | a line that a backslash joins to the next |
| IniText.PartlyQuoted | lib/ini/reader.go:598-604 | a value of which a part is quoted |
| IniText.Unclosed | lib/ini/reader.go:627-632 | quotes that are not closed are refused |
| IniText.BlankMoves | lib/ini/reader.go:570-579 | outside quotes a blank before an escaped tab is read behind it |
| IniText.EscapeWrites | lib/ini/variable.go:104-131 | what escape writes for any character |
| IniText.KeyBegins | lib/ini/reader.go:398-465 | a variable begins with a letter |
| IniText.KeyMeans | lib/ini/reader.go:398-465 | what may stand behind the characters of a key; a key alone has the value "true" |
| IniText.BehindKey | lib/ini/reader.go:471-503 | what may stand behind a key and a blank |
| IniText.KeyAndValue | lib/ini/reader.go:398-638 | the line of one key and one value |
| IniValue.PlainExact | lib/ini/reader.go:509-638 | a value written without quotes is read back if and only if it has no special character and no blank at either end |
| IniValue.ValueBound | lib/ini/reader.go:509-638 | a value never has more characters than its text |
| IniValue.PrintedRoundTrip | lib/ini/variable.go:40-102 | a printed variable, quoted or plain, is read back with key, value and comment |
| IniValue.PrintedExact | lib/ini/variable.go:40-102 | a printed line gives its value back if and only if it is quoted or plain |
| IniValue.UnquotedLost | lib/ini/variable.go:46-50 | a concrete line that is read, printed and then read differently |
| IniReader.Reader.ValueCommit | lib/ini/reader.go:640-651 | moves the buffer, with or without held-back spaces, to the value |
| IniReader.Reader.ValueWriteByte | lib/ini/reader.go:653-660 | writes the spaces held back and then the byte |
| IniReader.Reader.ParseComment | lib/ini/reader.go:223-246 | reads to the end of the line |
| IniReader.Reader.ParseVarValue | lib/ini/reader.go:509-638 | the byte-at-a-time machine reads what the parsing function says and stops where it stops |
| IniReader.Reader.ParsePossibleValue | lib/ini/reader.go:471-503 | the same behind a key and a space |
| IniReader.Reader.ParseVariable | lib/ini/reader.go:398-465 | the same for a whole variable line |
| Tokens.TokenAt | lib/bytes/bytes.go:238-259 | whether the token is at the position |
| Tokens.TokenFind | lib/bytes/bytes.go:477-511 | the scan with its reset after a failed match |
| Tokens.FindExact | lib/bytes/bytes.go:477-511 | TokenFind finds the first occurrence in every line if and only if all characters of the token are the same |
| Tokens.Missed | lib/bytes/bytes.go:499-503 | for any other token, a line that holds it and in which it is not found |
| Tokens.EncloseToken | lib/bytes/bytes.go:204-231 | puts the marks around every place where TokenFind, going on behind the last one, finds the token, and tells whether there is one |
| Tokens.EnclosedOne | lib/bytes/bytes.go:204-231 | for a token of one character these are all its occurrences |
| Tokens.SkipAfterToken | lib/bytes/bytes.go:399-446 | the position behind the token |
| Tokens.CutUntilToken | lib/bytes/bytes.go:104-173 | what is before the token, with its escapes removed |
| Tokens.CutFirst | lib/bytes/bytes.go:104-173 | without escapes, for tokens of any length: what is before the first occurrence, or the whole rest of the line without one |
| Tokens.SkipFirst | lib/bytes/bytes.go:399-446 | and the position behind the first occurrence, or the end of the line |
| Tokens.CutLong | lib/bytes/bytes.go:104-173 | a token of two characters that is escaped once |
| Tokens.CutBackslash | lib/bytes/bytes.go:104-173 | a backslash before another character stays, and two of them are one |
| Tokens.EncloseLong | lib/bytes/bytes.go:204-231 | a token of two characters is enclosed as a whole |
| Dsv.MarkedTwice | lib/dsv/writer.go:188-202 | escaping the backslash and then the quote escapes both, character by character |
| Dsv.EscapeOne | lib/dsv/writer.go:188-202 | for marks of one character the two passes of escaping are that |
| Dsv.CutEsc | lib/bytes/bytes.go:104-173 | cutting with escapes takes back what the writer escaped |
| Dsv.RightQuoteReads | lib/dsv/readerinterface.go:172-213 | a quoted value is read back over however many lines it runs, with the position behind its quote |
| Dsv.RowRoundTrip | lib/dsv/readerinterface.go:273-381 | parsing what WriteRow wrote gives back the row, for quoted columns with any values and plain columns with plain values, and leaves the rest of the file |
| DsvSkip.AnyLine | lib/dsv/readerinterface.go:273-381 | whatever is in a line, skipping columns changes nothing but what is recorded: all values of the other columns, and of the skipped ones at most empty values |
| DsvSkip.SkippedRoundTrip | lib/dsv/readerinterface.go:356-376 | parsing a written row with skipped columns gives exactly the values of the others, and an empty value of a skipped column if it has no quotes and a separator |
| DsvSkip.FileSkips | lib/dsv/readerinterface.go:57-109 | the same for every row of a written file |
| DsvSkip.SecondOnly | lib/dsv/readerinterface.go:356-357 | of the line 'a','b' with the first column skipped "b" is recorded |
| DsvSkip.EmptyRecorded | lib/dsv/readerinterface.go:287-294 | of the line ,b with the first column skipped an empty value is recorded, too |
| DsvRead.FileRoundTrip | lib/dsv/readerinterface.go:57-109 | for rows that fit their columns, reading a written file gives back its rows if and only if no first line of a row is all white space and, where lines are trimmed, none begins or ends with white space; then nothing is rejected or left |
| DsvRead.FileShown | lib/dsv/readerinterface.go:394-411 | without trimming, and where no left quote is white space, reading gives exactly the rows whose first line is not all white space |
| DsvRead.FileRead | lib/dsv/readerinterface.go:387-434 | with or without trimming: rows whose first line is all white space are left out and all others read, if the former are single lines and trimming changes none of the latter |
| DsvRead.TrimmedDiffers | lib/dsv/readerinterface.go:413-417 | a row whose first line trimming changes is not read as it was written |
| DsvRead.BlankLost | lib/dsv/readerinterface.go:394-411 | a concrete row that is written as a tab and never read |
| DsvRead.BlankQuote | lib/dsv/readerinterface.go:394-411 | with a tab as left quote the first line of a row can be skipped and its second line rejected |
| DsvRead.SpaceLost | lib/dsv/readerinterface.go:413-415 | a concrete value that loses its last space when lines are trimmed |
| DsvRead.TabQuote | lib/dsv/readerinterface.go:292-301 | with a tab as left quote a trimmed row can be read back, which is why left quotes are no white space in the condition |
| DsvRead.QuotedText | lib/dsv/writer.go:188-202 | how a value with a quote and a backslash is written |
| DsvRead.BlankSeparated | lib/dsv/readerinterface.go:330-346 | where columns end with a blank: a blank is an empty value, and otherwise all blanks behind the value go with it |
| DsvRead.PastTheEnd | lib/dsv/readerinterface.go:347-350 | a column behind one that took the rest of the line from its middle is out of range |
| DsvRead.ReadInPortions | lib/dsv/readerinterface.go:74-86 | reading in portions of at most max rows reads the same rows, and rejects the same lines, as reading all at once, whatever is in the file |
| DsvRead.RowsInFile | lib/dsv/readerinterface.go:57-109 | the rows read and the lines rejected take up no more lines than the file has |
| Dsv.PlainExact | lib/dsv/writer.go:188-202 | an unquoted column is read back if and only if its value has no backslash, separator or line end, although the writer escapes them |
| Dsv.BackslashLost | lib/dsv/writer.go:188-202 | a concrete value that is not |
| DsvObjects.WriteRow | lib/dsv/writer.go:154-216 | writes the row column by column, for marks of any length |
| DsvObjects.ParsingSkipSpace | lib/dsv/readerinterface.go:244-255 | skips blanks |
| DsvObjects.Reader.ReadLine | lib/dsv/reader.go:489-498 | one line without its end, or what is left and an error |
| DsvObjects.Reader.FetchNextLine | lib/dsv/reader.go:503-510 | the next line joined to the last |
| DsvObjects.Reader.ParsingRightQuote | lib/dsv/readerinterface.go:172-213 | the loop over lines |
| DsvObjects.Reader.ParseLine | lib/dsv/readerinterface.go:273-381 | the loop over columns, with the lines it fetches |
| DsvObjects.Reader.ReadRow | lib/dsv/readerinterface.go:387-434 | skips empty lines, trims the line if asked to, and parses it |
| DsvObjects.Reader.Read | lib/dsv/readerinterface.go:57-109 | the loop over rows: what goes into the dataset and what is rejected, up to the limit or the end of the file |

## Left out

- DnsWire.MessageRoundTrip: covers packets of at most 0x10000 bytes and names of labels of 1 to 63 bytes without backslash, empty label or trailing dot; the branches for escapes, the root name and over-long labels are in the bodies of PackDomainName and Escape but no round trip is stated for them.
- DnsPack.Message.Pack: says what the packet is only for valid names and packets below 0x10000 bytes, where the 16-bit offset does not wrap.
- DnsPack.Message.PackDomainName: for names with escapes, empty labels or labels over 63 bytes only the lengths are described.
- DnsPack.Message.PackLabels: says what is written for valid names at offsets below 0x10000.
- DnsPack.Message.PackQuestion: says what is written for a valid name.
- DnsPack.Message.PackMINFO: says what is written for valid names at offsets below 0x10000.
- DnsPack.Message.PackA: the address is four bytes instead of their text.
- DnsPack.Message.PackRData: the record types named below, with valid names.
- DnsPack.Message.PackRR: records other than OPT, with valid names.
- DnsUnpack.ResourceRecord.UnpackRData: other record types count as undefined.
- DnsUnpack.Unpack: on an error the partly filled message is not described.
- DnsUnpack.ResourceRecord.UnpackDomainName: following more pointers than the packet has bytes counts as undefined, because the source's recursion has no bound on packets that were not produced by packing.
- DnsUnpack.UnpackQuestion: on an error the packet and the partly filled question are not described.
- DNS record types other than A, NS, CNAME, MB, MG, MR, PTR, MX, MINFO, SRV and WKS; in the source the packers of SOA, TXT, AAAA and OPT move the offset by other amounts than they append, and HINFO and NULL are read in another layout than they are written.
- net.ParseIP and IP.String: address data is four bytes.
- Bit operations on flag bytes are written as arithmetic on their values.
- DnsCache.ServedTwice: for packets that Pack wrote, without OPT records, and ages that fit 32 bits; answer.get is a function on the cache on values, and its copy of the packet is the value.
- DnsCacheObjects.Caches.Upsert: the new answer is not already in the cache; storing the same object twice would clear its message.
- DnsCacheObjects.Caches.Prune: time is in whole seconds, and the worker that calls prune is left out; methods guarded by the mutex are atomic steps.
- WsClient.CutExact: bounds the next packet by 126 times 2^48 bytes, below which a misread 64-bit length cannot be complete.
- WsClient.RunAnyCut: UTF-8 validity and the answers of the handlers are parameters; the handlers' calls are a log of events.
- WsObjects.Frame.Pack: the random mask key is a parameter.
- WsObjects.Frame.Unpack: the packet is passed by value, so unmasking it in place is not visible to the caller.
- WsManager.ClientManager.FinFrames: stored frames are values, and a stored list of fragments is not empty; the slice that Conns returns is a value too, so its sharing with the stored one is not modelled.
- Sockets, TLS, deadlines, the handshake, the receiving loop around Serve, and closing handlers.
- IntsSort.InplaceMergesort: the index array is at least as long as the data or has at most one element, since otherwise Swap leaves indices behind or panics, and is not the same array; the variants for other number types are the same algorithm.
- IntsSort.SortByIndex: copies through a list of valid indices, as the source needs to not panic.
- PartitionObjects.Memory.Append: the growth of capacities is a parameter that goes from 1 to 2, from 2 to 4, and always grows, as Go's does for strings; arrays that nothing refers to stay in the memory, and the copy of its elements that each call of Partition makes is a value until it becomes a block.
- Stirling.StirlingS2: integers do not overflow and powers are exact instead of floating point; a negative n with another k that is neither negative nor 1 is excluded, because the source then converts an infinite power.
- Ini.PruneGet: requires what the reader and addVariable establish (`Ini.IniOk`): lower-case keys and names, blank lines without a key, and only the lines before the first header without a section name.
- Ini.Lower: folds ASCII letters only.
- IniObjects.File.Add: no section stands in the file twice; the same for Set and Unset.
- IniObjects.File.Rebase: the two files are different and share no section before the call.
- IniReader.Reader.ParseVariable: letters, digits and spaces of a key are the ASCII ones; text is a sequence of characters, so invalid UTF-8 and the saved format of a line are not modelled; on an error only the error is described.
- IniValue.PrintedRoundTrip: for variables without a saved format, as add and set make them; a parsed line that is printed through its saved format is not modelled.
- IniValue.PrintedExact: the same.
- INI sections as text, marshalling, and file access.
- Dsv.RowRoundTrip: marks of one character and string columns in the order of the row; looking columns up by name and other column types are left out.
- DsvRead.FileShown: left quotes are not white space (`DsvRead.BlankQuote` shows what can happen otherwise); `DsvRead.FileRead` covers the files with such quotes whose blank rows are single lines.
- DsvRead.FileRoundTrip: where lines are trimmed, left quotes are not white space (`DsvRead.TabQuote` shows what can happen otherwise).
- DsvObjects.Reader.ParsingRightQuote: the source's mixing of error types at the end of the file is one error here.
- DsvObjects.Reader.Read: the file is text in memory, white space is that of Unicode on characters, and the numbers of lines in messages are left out; a slice out of range, which panics, ends the reading.
- Skipping lines at the head of a file, the writers around WriteRow, and raw rows.
- Everything else in the repository: servers, zone files, SMTP, HTTP, git, SSH, SQL, memfs, hunspell and the commands.

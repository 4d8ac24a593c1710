# LCM: a verified model

Dafny 4.11 models of the LCM runtime kept under `upstream/`: the C library, the
Java library, the code generator lcm-gen and the logger, with proofs of what they
are for. `dafny verify dfyconfig.toml` checks everything.

- **Receiving over UDP.** `RingLayout`, `RingLinks` and `RingBuffer` are the
  variable-size ring allocator, as a layout of records and as the linked list in
  memory. `BufQueue` is the buffer queue. `ReceivePipeline` is the read thread and the
  handle caller as a state machine with one step for each lock region and each access
  to the notify pipe; `PipelineData` and `PipelineRuns` follow message bytes and buffer
  structures through it; `UdpReceiver` runs the steps on the real ring. Handlers that
  call lcm_handle again are part of the model: it shows exactly when they run into a
  failed assert, and that nothing else does.
  `PipelineProgress` says what each thread can always do and when a datagram is dropped.
- **Fragments.** `FragmentSender` cuts messages up, `FragmentTable` and `Reassembler`
  put them together with eviction, `FragmentDelivery`, `FragmentRepeats` and
  `FragmentRounds` say exactly when a message arrives. `JavaFragments`, `JavaDelivery`
  and `JavaProvider` do the same for the Java provider, which remembers the fragments
  it has. `EndToEnd` joins sender, reassembly and pipeline, and `JavaEndToEnd` the two
  sides in Java: what is published is what the handlers are given.
- **Files and logs.** `BufferedFile` is the block cache against a plain file,
  `EventLogFormat`, `MagicRegister`, `EventLog` and `JavaLog` are the
  self-resynchronising log, its C and Java readers, and the bisection for a time stamp;
  `EventLogCut` is what both make of a log that breaks off.
- **Messages.** `Schema` is a set of declarations as data, `Codec` the emitted
  encoders and decoders as functions, `CoreTypes` and `CodecMethods` the same as
  loops over a buffer, `Messages` the whole message with its fingerprint,
  `Fingerprint` the hash in three languages and `HashText` what it tells apart,
  `PythonEncoder` the batching Python emitter, `Parser` and `ParserMethods` the
  declaration parser and `Grammar` the texts it takes. `ArrayLengths` and `DeclaredTypes`
  say what values and bytes a declaration stands for.
- **Queues and caches.** `Registry` and `Dispatching` are the per-channel handler lists
  and what callbacks do to them, `Subscriptions` the C object over them,
  `JavaLists` and `JavaSubscriptions` the same in Java, `LoggerProtocol` and `LoggerThreads` the two threads
  of the logger, `Aggregator` the bounded queue.

Code that changes things in place is modelled by classes and loops and proved
against functions; what the sources promise is then proved about those functions
and about all runs. Bytes are the integers 0 to 255.

Some promises do not hold without a condition, and the model says which.

- C reassembly counts fragments without telling them apart: `IntactExactly`.
- The Java fragment count leaves the channel's NUL out: `WholeExactly`.
- A member may be its own array size: `CodecReadyExactly`.
- Dispatch walks the live handler array: `DispatchCallsAll`, and `FreedOnceExactly` for
  the list of handlers it frees.
- The ring refuses an exact fit: `AllocRefusesExactly`.
- `ringbuffer.h` promises that only the oldest or the newest chunk need be released:
  `AbortsExactly` and `NestedHandleAborts` say when the receive path keeps to that.
- A subscriber may change the lists while the Java loop walks over them:
  `ReceivedExactly`.
- The C log reader takes a cut header for an empty event: `CutLogReadsBack`.
- The buffered file writes wrongly behind its end: `Write` says exactly when.

## Model

| member | source | states |
|---|---|---|
| RingLayout.RecordLengthCovers | upstream/lcm/ringbuffer.c:103-104 | rounding a request up gives a record with room for it exactly when the 32-bit sum does not wrap |
| RingLayout.DisjointAndBounded | upstream/lcm/ringbuffer.c:36-69 | in a well-placed ring no two live records overlap, their lengths sum to at most the size, and to 0 only when the list is empty |
| RingLayout.WrappedWhenHeadAboveTail | upstream/lcm/ringbuffer.c:131-145 | the pointer comparison in alloc tells the wrapped from the unwrapped ring without ambiguity |
| RingLayout.AllocKeepsPlaced | upstream/lcm/ringbuffer.c:92-160 | a successful alloc keeps the records aligned, inside the buffer and contiguous in at most two runs, and adds one record at the end of the list |
| RingLayout.AllocPlaces | upstream/lcm/ringbuffer.c:127-145 | the record goes behind the newest one if it fits there, and to the front of the buffer otherwise |
| RingLayout.AllocRefusesExactly | upstream/lcm/ringbuffer.c:127-145 | on a non-empty ring alloc returns NULL exactly when the record fits neither behind the newest one nor, strictly, before the oldest one |
| RingLayout.ExactFitIsRefused | upstream/lcm/ringbuffer.c:140 | the strict comparison does refuse a record that would fit exactly |
| RingLayout.ShrinkKeepsPlaced | upstream/lcm/ringbuffer.c:167-192 | shrinking the newest record keeps the placement, changes that record only and lowers the total by what was cut |
| RingLayout.DeallocOldestKeepsPlaced | upstream/lcm/ringbuffer.c:198-231 | releasing the oldest record keeps the placement and takes exactly its length off the total |
| RingLayout.DeallocNewestKeepsPlaced | upstream/lcm/ringbuffer.c:198-231 | the same for the newest record |
| RingLayout.HeadersNotShared | upstream/lcm/ringbuffer.c:173-177 | live records have different addresses, so a buffer address determines its record |
| RingBuffer.Ring.Allocate | upstream/lcm/ringbuffer.c:92-160 | the linked list in memory after alloc represents the layout after alloc; NULL is returned exactly when the layout has no place |
| RingBuffer.Ring.ShrinkLast | upstream/lcm/ringbuffer.c:167-192 | the linked list represents the shrunk layout |
| RingBuffer.Ring.Deallocate | upstream/lcm/ringbuffer.c:198-231 | the linked list represents the layout without the released end record, in both wrap states and for the last record |
| RingBuffer.Ring.WritePayload | upstream/lcm/lcm_udp.c:780-790 | filling a payload destroys no live record header |
| BufQueue.Queue.Enqueue | upstream/lcm/lcm_udp.c:297-305 | the intrusive list with its tail pointer represents the old contents followed by the new element |
| BufQueue.Queue.Dequeue | upstream/lcm/lcm_udp.c:279-295 | the first element is unlinked and returned; an empty queue gives NULL and an usable tail pointer |
| ReceivePipeline.RingStep | upstream/lcm/lcm_udp.c:655-870 | every step that fails no assert keeps the ring records equal, in order, to the buffers dispatched, queued and held by the read thread |
| ReceivePipeline.PipeStep | upstream/lcm/lcm_udp.c:857-866 | every step keeps notify bytes plus notified callers at 1 while a message is queued and at 0 otherwise, and never reaches the no-packet branch |
| ReceivePipeline.AbortsExactly | upstream/lcm/ringbuffer.c:176-205 | an assert of the ring code fails exactly at the release of a buffer that is neither the oldest nor the newest ring record |
| ReceivePipeline.TouchedExactly | upstream/lcm/ringbuffer.c:10-25 | the ring code may write the 28 header bytes of a record and no other byte |
| PipelineData.DataStep | upstream/lcm/lcm_udp.c:655-870 | every step keeps the completed messages equal to those delivered followed by those pending, byte for byte, while ring memory is written |
| PipelineRuns.CountStep | upstream/lcm/lcm_udp.c:731-759 | no step loses, invents or duplicates a buffer structure |
| PipelineRuns.EveryRun | upstream/lcm/lcm_udp.c:655-1087 | every run without a failed assert is in order in all these respects |
| PipelineRuns.NoReentryNoAbort | upstream/lcm/lcm_udp.c:1028-1087 | if handlers never call lcm_handle, no assert of the ring fails in any interleaving |
| PipelineRuns.NestedHandleAborts | upstream/lcm/lcm_udp.c:1074-1084 | in every reachable state a call nested in the dispatch of a ring message, giving a ring message back, runs into the assert of dealloc exactly when the ring holds a queued message or the record of the read thread |
| PipelineProgress.NeverStuck | upstream/lcm/lcm_udp.c:655-1087 | in every reachable state the read thread can go on with any datagram, and outside its lock region so can the innermost lcm_handle, which waits for nothing while a message is queued |
| PipelineProgress.DiscardsExactly | upstream/lcm/lcm_udp.c:727-759 | a datagram that finds no buffer is thrown away exactly when no lcm_buf_t is empty or the ring has no room for 65536 bytes and a header |
| EndToEnd.HandlersGetMessages | upstream/lcm/lcm_udp.c:655-1087 | over any run without a failed assert the handlers have been given, in order, with their channels and byte for byte, the first of the messages the datagrams brought; the others are waiting |
| EndToEnd.PublishedIsDelivered | upstream/lcm/lcm_udp.c:511-1087 | a sender's messages, short and fragmented, that have come in whole are dispatched, or wait to be, with their channels and bytes in the order published, whatever others send, however the two threads interleave and wherever in the stream the run stops, if nothing of the sender's before is lost, repeated or evicted |
| EndToEnd.NotWantedIsNotGiven | upstream/lcm/lcm_udp.c:553-555 | over any run, a sender whose packets are all on channels without subscribers brings no message |
| EndToEnd.AbortIsReached | upstream/lcm/lcm_udp.c:1028-1087 | such a state does come up over the whole receiving process: any three published short messages, a ring with room for a datagram's record behind those of the first two messages, three buffers and a handler that calls lcm_handle lead from the start to the failed assert |
| UdpReceiver.Receiver.TakeRecord | upstream/lcm/lcm_udp.c:729-759 | the code of the lock region does the step TakeBuffer on the real ring |
| UdpReceiver.Receiver.ReceiveDatagram | upstream/lcm/lcm_udp.c:780-830 | receiving into the held record, and releasing it for a completed fragmented message, is the step Receive |
| UdpReceiver.Receiver.ShrinkRecord | upstream/lcm/lcm_udp.c:828-836 | the shrink behind udp_read_packet is the step Shrink and meets its asserts |
| UdpReceiver.Receiver.DequeueFilled | upstream/lcm/lcm_udp.c:1050-1066 | after a notification there is a queued message; taking it and re-notifying is the step Dequeue |
| UdpReceiver.Receiver.ReleaseBuffer | upstream/lcm/lcm_udp.c:1076-1084 | giving the record and the structure back is the step Release |
| FragmentSender.Tiling | upstream/lcm/lcm_udp.c:944-1012 | the fragments' data parts are not empty, start at byte 0, follow one another and end at the last byte |
| FragmentSender.SentExactly | upstream/lcm/lcm_udp.c:887-1025 | by the length of channel, NUL and data: one packet below 1400 and from 2^31 on, none above 65535 fragments, else the least number of fragments, all of 1400 bytes but the last |
| FragmentSender.Sender.Publish | upstream/lcm/lcm_udp.c:887-1025 | what is sent is a prefix of the packets of the message, all of them if no send fails; status and sequence number are given in every case, refusals included |
| FragmentSender.Sender.SendFragments | upstream/lcm/lcm_udp.c:944-1012 | the sending loop produces the consecutive 1400-byte pieces of channel, NUL and data with their headers |
| FragmentTable.ReceiveKeepsBounds | upstream/lcm/lcm_udp.c:511-620 | every datagram keeps frag_bufs_total_size equal to the sum of the buffers' sizes, below 2^24 + 2^28, with at most 1001 buffers |
| FragmentTable.EvictSpares | upstream/lcm/lcm_udp.c:497-509 | eviction removes the chosen victims and nothing else |
| FragmentTable.EvictsExactly | upstream/lcm/lcm_udp.c:497-509 | each buffer thrown out is a least recently used one, and is so only while those left hold more than 2^24 bytes or are more than 1000; in the end neither holds |
| FragmentTable.NothingEvicted | upstream/lcm/lcm_udp.c:497-509 | in every run, below the limits no datagram throws out a buffer |
| FragmentTable.CreatesExactly | upstream/lcm/lcm_udp.c:536-559 | a first fragment starts a buffer exactly if its channel is subscribed and at most 63 bytes long, the size is at most 2^28, and the message is not under way |
| FragmentTable.HugeIsDropped | upstream/lcm/lcm_udp.c:536-539 | no fragment of a larger message delivers or stores anything |
| FragmentTable.Unsubscribed | upstream/lcm/lcm_udp.c:552-555 | fragments on channels without subscribers deliver nothing and leave no buffer |
| FragmentTable.MemoryBound | upstream/lcm/lcm_udp.c:1419-1423 | over every run the total is exact, never wraps, and the table stays within its limits |
| Reassembler.FragmentStore.FindLru | upstream/lcm/lcm_udp.c:486-495 | whatever order the hash table is walked in, a least recently updated buffer is found |
| Reassembler.FragmentStore.AddFragmentBuffer | upstream/lcm/lcm_udp.c:497-509 | the loop ends, removes a least recently updated buffer each time and stops as soon as both limits are met |
| Reassembler.FragmentStore.RecvMessageFragment | upstream/lcm/lcm_udp.c:511-620 | the code is the table function Receive, for any contents malloc leaves in a new buffer |
| FragmentDelivery.AllArrived | upstream/lcm/lcm_udp.c:590-606 | a buffer in which every fragment's part has arrived holds the message |
| FragmentDelivery.DeliveredOnce | upstream/lcm/lcm_udp.c:511-620 | fragment 0 first and the others in any order, between any other traffic that does not evict it: exactly one delivery, of the same channel and bytes |
| FragmentRounds.DeliveryCount | upstream/lcm/lcm_udp.c:511-620 | however one message's fragments are lost, repeated and reordered, this many messages are made of them: one for each complete round behind a fragment 0, or, of two fragments with less data than one holds, one for each fragment 1 right behind an odd number of fragments 0 |
| FragmentRounds.IntactExactly | upstream/lcm/lcm_udp.c:593-606 | for any sequence of fragments of any length the k-th message made is sure to be the one sent exactly when the k-th round repeats no fragment; with less data than one fragment holds it always is |
| FragmentRepeats.RoundIntactExactly | upstream/lcm/lcm_udp.c:593-606 | one round, as many fragments as the message has and fragment 0 first, is sure to give the message back exactly when no fragment is repeated |
| FragmentRepeats.ShortRoundTrip | upstream/lcm/lcm_udp.c:622-652 | a short packet comes out as the channel and data that were published |
| FragmentRepeats.ShortTakenExactly | upstream/lcm/lcm_udp.c:622-652 | a short message is taken exactly if it is subscribed to and its name has at most 63 bytes |
| JavaFragments.JavaTiling | upstream/lcm-java/lcm/lcm/UDPMulticastProvider.java:106-180 | the Java fragments follow one another from byte 0 and end at the last byte, or one short of it exactly when channel plus data fill whole fragments |
| JavaFragments.AllMarked | upstream/lcm-java/lcm/lcm/UDPMulticastProvider.java:276-289 | with every fragment marked the data is the message, up to the byte nobody sends |
| JavaDelivery.FragmentComes | upstream/lcm-java/lcm/lcm/UDPMulticastProvider.java:267-289 | a repeated fragment changes nothing, except that fragment 0 of a message under 64000 bytes drops the buffer; a new one is marked and copied; the last one delivers |
| JavaDelivery.OnlySentMessages | upstream/lcm-java/lcm/lcm/UDPMulticastProvider.java:235-290 | fragments repeated, lost, reordered and mixed with other senders: nothing but a message that was sent is ever handed on |
| JavaDelivery.JavaDeliveredOnce | upstream/lcm-java/lcm/lcm/UDPMulticastProvider.java:235-290 | the message is handed on once, when its last missing fragment comes, repeats notwithstanding |
| JavaDelivery.WholeExactly | upstream/lcm-java/lcm/lcm/UDPMulticastProvider.java:127-128 | every run in which all fragments of a message come behind its first fragment 0 (with data under 64000 bytes: before another fragment 0) hands on that message, and nothing but it as it was sent, whatever its bytes and whatever is repeated, exactly when channel plus data is not a multiple of 64000 |
| JavaDelivery.LastByteLost | upstream/lcm-java/lcm/lcm/UDPMulticastProvider.java:127-128 | for the other sizes there is such a run, all fragments in order, whose message arrives changed |
| JavaEndToEnd.RefusedExactly | upstream/lcm-java/lcm/lcm/UDPMulticastProvider.java:106-127 | publishEx sends nothing exactly if channel plus data is above 64000 and the channel does not fit into a fragment or the sum is no int |
| JavaEndToEnd.PublishedIsHandedOn | upstream/lcm-java/lcm/lcm/UDPMulticastProvider.java:106-318 | over any run, whatever others send and wherever the packets of a sender stop, its messages, short and fragmented, are handed on in the order published with channel and bytes, all of them if all packets came; only the last byte of a message in fragments whose channel and data are a multiple of 64000 is a zero |
| JavaProvider.Publisher.PublishEx | upstream/lcm-java/lcm/lcm/UDPMulticastProvider.java:106-180 | what is sent is the packets that `PublishedIsHandedOn` takes apart again; nothing, and no new sequence number, on refusal or exception, sizes beyond int included |
| JavaProvider.FragmentBuffer.Receive | upstream/lcm-java/lcm/lcm/UDPMulticastProvider.java:276-284 | marking, copying in place and counting down change this buffer as specified |
| JavaProvider.ReaderThread.HandleFragment | upstream/lcm-java/lcm/lcm/UDPMulticastProvider.java:235-290 | with all buffers as separate objects the method does what the table function says, and throws exactly when it says so |
| BufferedFile.BufferedRandomAccessFile.FlushBuffer | upstream/lcm-java/lcm/util/BufferedRandomAccessFile.java:76-85 | write-back leaves the contents and makes the disk equal to them |
| BufferedFile.BufferedRandomAccessFile.BufferSeek | upstream/lcm-java/lcm/util/BufferedRandomAccessFile.java:88-109 | seeking moves the cursor and changes no byte of the contents, across blocks and with dirty buffers |
| BufferedFile.BufferedRandomAccessFile.Read | upstream/lcm-java/lcm/util/BufferedRandomAccessFile.java:111-120 | the byte at the cursor, or EOF exactly at or past the end |
| BufferedFile.BufferedRandomAccessFile.ReadFully | upstream/lcm-java/lcm/util/BufferedRandomAccessFile.java:173-194 | copies the asked bytes, or all that are left before EOF, into the given stretch of the array; behind the end of the file it copies nothing and ends with the EOF or the index exception |
| BufferedFile.BufferedRandomAccessFile.Write | upstream/lcm-java/lcm/util/BufferedRandomAccessFile.java:326-350 | overwrites or appends one byte at the cursor of the plain file |
| BufferedFile.PutBytesExactly | upstream/lcm-java/lcm/util/BufferedRandomAccessFile.java:318-350 | after writing, the bytes written are in the file from the old position on, those around are as before, a gap is zeros and the position is behind |
| BufferedFile.ReadsBack | upstream/lcm-java/lcm/util/BufferedRandomAccessFile.java:111-200 | what was written is read back |
| BufferedFile.InsideIsAllowed | upstream/lcm-java/lcm/util/BufferedRandomAccessFile.java:70-200 | runs that seek no further than to the end of the file are among those of `PerformAll` |
| BufferedFile.BufferedRandomAccessFile.WriteLong | upstream/lcm-java/lcm/util/BufferedRandomAccessFile.java:220-230 | writes the eight bytes, most significant first |
| BufferedFile.BufferedRandomAccessFile.ReadInt | upstream/lcm-java/lcm/util/BufferedRandomAccessFile.java:209-218 | the four bytes at the cursor as a signed big-endian number, or EOF, anywhere |
| BufferedFile.BufferedRandomAccessFile.Close | upstream/lcm-java/lcm/util/BufferedRandomAccessFile.java:39-43 | the disk equals the contents afterwards |
| BufferedFile.PerformAll | upstream/lcm-java/lcm/util/BufferedRandomAccessFile.java:70-350 | every run of seeks, reads and writes gives the replies, bytes, length and position of a plain byte array with a cursor, if no write or bulk read happens behind the end of the file |
| Bytes.IntRoundTrip | upstream/lcm/ioutils.h:16-55 | decoding undoes encoding on the whole signed range of n bytes |
| Bytes.DecodeLong | upstream/lcm/ioutils.h:42-55 | a 64-bit number is its signed high half and its unsigned low half |
| MagicRegister.RegisterStep | upstream/lcm/eventlog.c:54-61 | the shifting register shows the magic word exactly when the last four bytes read are the magic word |
| EventLogFormat.WrittenLogReadsBack | upstream/lcm/eventlog.c:49-114 | a complete log read from offset 0 gives exactly the events written, for all 64-bit timestamps and channels under 1000 bytes |
| EventLogFormat.ResynchronisedRead | upstream/lcm/eventlog.c:49-93 | in a log whose only magic words are record headers, reading from any byte gives exactly the events that start there or later |
| EventLogFormat.LongChannelAborts | upstream/lcm/eventlog.c:63-73 | a record is returned if its channel has less than 1000 bytes, and fails the assert otherwise |
| EventLogCut.CutLogReadsBack | upstream/lcm/eventlog.c:49-93 | a log cut off inside a record gives the events before it, and one event without channel and data more exactly if the cut is in the header behind the magic word and before the length of a channel with a name |
| EventLogCut.JavaCutLogReadsBack | upstream/lcm-java/lcm/logging/Log.java:78-115 | the Java reader gives the events before the cut and nothing more |
| EventLogFormat.LogBytesSnoc | upstream/lcm/eventlog.c:95-114 | writing one more event appends its record |
| EventLog.Log.WriteEvent | upstream/lcm/eventlog.c:95-114 | the record of the event, numbered by the log's own count, is appended |
| EventLog.Log.Fwrite64 | upstream/lcm/ioutils.h:22-28 | writing the halves writes the eight bytes of the number |
| EventLog.Log.ReadNextEvent | upstream/lcm/eventlog.c:49-93 | scanning and reading give the result, the position and the count of the record found, at EOF and for the assert too |
| EventLog.Log.SeekToTimestamp | upstream/lcm/eventlog.c:152-193 | the bisection ends on every file; its brackets are an earlier and a later event or the file ends; status 0 leaves the file at the first event from the middle on, which has the target time or is not inside the bracket (or is within 10^-12 of the file of its ends) |
| EventLog.FoundWhere | upstream/lcm/eventlog.c:152-193 | in a log sorted by time status 0 means an event of the target time, or a later one with every event of the target time in the first half of the bracket |
| EventLog.BracketsTarget | upstream/lcm/eventlog.c:184-187 | in a log sorted by time every event at the target time lies between the brackets |
| EventLog.GivesUpPastLastRecord | upstream/lcm/eventlog.c:167-169 | with no negative times the search fails exactly when the middle lies past the start of the last record |
| JavaLog.Log.Write | upstream/lcm-java/lcm/logging/Log.java:137-149 | the record of the event is written at the cursor |
| JavaLog.Log.ReadNext | upstream/lcm-java/lcm/logging/Log.java:78-115 | the loop returns the next event with acceptable lengths, resuming the scan behind a rejected header, or EOF |
| JavaLog.OldMagicIsHarmless | upstream/lcm-java/lcm/logging/Log.java:84-104 | the magic word left in the register after a rejected header never makes a false match |
| JavaLog.ReadersAgree | upstream/lcm-java/lcm/logging/Log.java:78-115 | on such a log, from any offset, the Java reader gives the events of the C reader whose lengths are within its limits |
| JavaLog.ReturnedExactly | upstream/lcm-java/lcm/logging/Log.java:95-115 | a record is returned exactly if its channel has 1 to 255 bytes and its data 1 to 2^24 - 1; else the search goes on behind the header |
| Codec.DecodeFields | upstream/lcmgen/emit_c.c:423-453 | decoding ends on every schema whose by-value nesting is finite: an array of variable size leaves fewer bytes than its struct began with |
| CodecRoundTrip.RoundTrip | upstream/lcmgen/emit_c.c:370-453 | decoding the encoding of any value of any well-formed schema, with anything behind it, gives the value and leaves what was behind |
| CodecPrefix.DecodeExtends | upstream/lcmgen/emit_c.c:423-453 | more bytes behind a decodable buffer change nothing but what is left over |
| CodecPrefix.TruncatedIsRefused | upstream/lcmgen/emit_c.c:423-453 | an encoding cut short anywhere is refused |
| CodecPrefix.DecodedIsValue | upstream/lcmgen/emit_c.c:423-453 | whatever bytes are decoded, numbers are in range and arrays as long as their size members say |
| ArrayLengths.ValueExactly | upstream/lcmgen/emit_c.c:294-306 | a record is a value exactly if each array dimension is as long as its constant or as the value of the member it names, none for a negative one and no array of numbers at all, and what is inside is of the type |
| ArrayLengths.LengthIsSizeMember | upstream/lcmgen/emit_c.c:294-306 | t a[n] has n elements |
| ArrayLengths.DecodedLengths | upstream/lcmgen/emit_c.c:433-441 | whatever bytes are decoded, every array has the length that the decoded size members and constants say |
| DeclaredTypes.IntegerRanges | upstream/lcm/lcm_coretypes.h:40-355 | what numbers a member declared int8_t, int16_t, int32_t, int64_t, byte or boolean holds |
| DeclaredTypes.NumberBytes | upstream/lcm/lcm_coretypes.h:40-355 | each declared number type goes out most significant byte first in its number of bytes |
| DeclaredTypes.StringRange | upstream/lcm/lcm_coretypes.h:357-418 | a string has no NUL and at most 2^31 - 2 bytes |
| DeclaredTypes.MessageBytes | upstream/lcmgen/emit_c.c:402-421 | a message is the fingerprint, most significant byte first, and the members in order |
| DeclaredTypes.ExampleValue | upstream/lcmgen/emit_c.c:370-453 | with n = 2 and a = {7, 8} the bytes 0 0 0 2 7 8 are decoded to just that, in a schema that also has recursive structs and arrays of arrays |
| CoreTypes.Int16DecodeArray | upstream/lcm/lcm_coretypes.h:153-169 | the numbers read are the signed big-endian words from the offset on, or an error exactly when maxlen is too small |
| CoreTypes.Int32EncodeArray | upstream/lcm/lcm_coretypes.h:189-208 | the words are written in place, most significant byte first, exactly if they fit; otherwise nothing is |
| CoreTypes.Int64EncodeArray | upstream/lcm/lcm_coretypes.h:246-269 | the same for 64 bits |
| CoreTypes.Int64DecodeArray | upstream/lcm/lcm_coretypes.h:271-290 | a 64-bit word read in two halves is the signed number |
| CoreTypes.StringEncodeArray | upstream/lcm/lcm_coretypes.h:382-398 | lengths and terminated strings are written one after the other exactly if all fit; nothing outside the given bytes changes |
| CoreTypes.StringDecode | upstream/lcm/lcm_coretypes.h:400-418 | length and bytes up to the NUL, or an error |
| CodecMethods.EncodeRec | upstream/lcmgen/emit_c.c:370-400 | the emitted member loop writes the encoding in place exactly if it fits |
| CodecMethods.EncodeArrayAt | upstream/lcmgen/emit_c.c:312-347 | the emitted nested loops around one call for the last dimension write the array |
| CodecMethods.DecodeRec | upstream/lcmgen/emit_c.c:423-453 | the emitted member loop, taking array sizes from members already read, decodes the struct |
| CodecMethods.DecodeArrayAt | upstream/lcmgen/emit_c.c:423-453 | the emitted nested loops decode the array |
| CodecMethods.BoundsDoNotMatter | upstream/lcmgen/emit_c.c:423-453 | what proves decoding ends has no influence on its result |
| Messages.MessageRoundTrip | upstream/lcmgen/emit_c.c:402-421 | T_decode undoes T_encode, whatever follows |
| Messages.OtherTypeIsRefused | upstream/lcmgen/emit_c.c:485-506 | a message of a type with another fingerprint is refused, whatever declarations the sender had |
| Messages.SizeIsLength | upstream/lcmgen/emit_c.c:520-548 | the emitted size function gives the length of the encoding |
| Messages.EncodedSizeIsLength | upstream/lcmgen/emit_c.c:550-575 | T_encoded_size is the length of the message |
| Messages.EncodeMessage | upstream/lcmgen/emit_c.c:402-421 | T_encode succeeds exactly when maxlen is at least T_encoded_size and then writes the message and nothing else |
| Messages.DecodeMessage | upstream/lcmgen/emit_c.c:485-506 | T_decode consumes and returns what the specification finds in the maxlen bytes |
| PythonEncoder.EmitEncodeOne | upstream/lcmgen/emit_python.c:453-522 | the emitter with its two queues puts out the specified program |
| PythonEncoder.RecordSame | upstream/lcmgen/emit_python.c:371-522 | running the emitted program on any value writes the bytes of the C encoder |
| PythonEncoder.EmitStruct | upstream/lcmgen/emit_python.c:453-522 | the same, stated of the emitter's output for every schema and value |
| Fingerprint.StructHash | upstream/lcmgen/lcmgen.c:238-272 | the loops compute the base hash |
| HashText.BaseHashOfText | upstream/lcmgen/lcmgen.c:116-141 | the base hash is one update for each character of the text of the members: names with lengths, primitive types, dimension counts, modes and sizes |
| HashText.UpdateKeeps | upstream/lcmgen/lcmgen.c:116-121 | an update forgets nothing: of two values that differ no character makes one |
| HashText.ChangedCharacter | upstream/lcmgen/lcmgen.c:238-272 | member lists whose text differs in one character have the same base hash exactly if the characters agree in their low eight bits |
| HashText.KnownHash | upstream/lcmgen/lcmgen.c:238-272 | struct { int32_t x; } has 0x6992dce02262640e |
| HashText.SignStep | upstream/lcmgen/lcmgen.c:116-121 | an update over the sign bit, in numbers |
| HashText.TellsApart | upstream/lcmgen/emit_c.c:232-272 | types whose members of struct type hash alike have one fingerprint exactly if they have one base hash |
| HashText.MemberTypeCounts | upstream/lcmgen/emit_c.c:232-272 | if the texts agree and the type of just one member hashes differently, so do the structs |
| HashText.ChangedDeclarationIsRefused | upstream/lcmgen/emit_c.c:485-506 | a message is refused by a receiver whose declaration differs in one character of a name, type or size, if no member is a struct |
| Fingerprint.BaseHashIgnoresStructNames | upstream/lcmgen/lcmgen.c:252-257 | the base hash does not depend on what member structs are called |
| Fingerprint.JavaHash | upstream/lcmgen/emit_java.c:587-608 | the Java recursion over one pushed and popped list computes the C value and restores the list, also on cyclic types |
| Fingerprint.PythonAgrees | upstream/lcmgen/emit_python.c:555-598 | the Python recursion with unsigned masks gives the 64 bits of the C value |
| Fingerprint.FewerUnvisited | upstream/lcmgen/emit_c.c:240-247 | each level of the recursion has one type fewer left that is not among the parents |
| Fingerprint.RenamingKeepsHash | upstream/lcmgen/emit_c.c:232-272 | an injective renaming of struct types leaves every hash unchanged |
| Fingerprint.FingerprintsAgree | upstream/lcmgen/emit_c.c:232-274 | the three languages write one fingerprint, and it survives renaming |
| Parser.StructParsed | upstream/lcmgen/lcmgen.c:465-632 | every accepted struct has pairwise distinct member and constant names, positive constant sizes, and variable sizes that are earlier scalar integers or, first dimension only, the member itself |
| Parser.CodecReadyExactly | upstream/lcmgen/lcmgen.c:516-553 | an accepted struct has the sizes the codec needs exactly when no member is its own size |
| Parser.PrimitiveDeclared | upstream/lcmgen/lcmgen.c:148-179 | the word a primitive type is hashed with is the one it is declared with |
| Parser.StructDeclared | upstream/lcmgen/lcmgen.c:148-179 | any other word is a struct: as it stands if it has a package or none is set, else of the package at hand |
| Grammar.ParsedExactly | upstream/lcmgen/lcmgen.c:377-632 | the parser takes exactly the texts made of lines of members and constants whose meaning has distinct names and proper sizes, and gives that meaning |
| Grammar.ParsePrint | upstream/lcmgen/lcmgen.c:377-632 | every such struct can be written down, and is parsed back unchanged |
| Grammar.SelfSizeAccepted | upstream/lcmgen/lcmgen.c:500-553 | int32_t n[n] is accepted |
| DeclaredTypes.SizeTypes | upstream/lcmgen/lcmgen.c:500-553 | an array size is a member declared int8_t, int16_t, int32_t or int64_t |
| ParserMethods.LcmStruct.CheckDim | upstream/lcmgen/lcmgen.c:505-553 | the size token is accepted as specified |
| ParserMethods.LcmStruct.ParseMember | upstream/lcmgen/lcmgen.c:465-575 | consuming tokens and appending to the lists does what the grammar functions say, error exits included |
| ParserMethods.ParseStruct | upstream/lcmgen/lcmgen.c:614-632 | the same for a whole struct |
| Registry.RemoveFastElements | upstream/lcm/lcm.c:264-271 | the swap removal takes one occurrence out of the list's contents |
| Registry.CacheAgrees | upstream/lcm/lcm.c:249-375 | over every run of subscribe, unsubscribe and lookup, inside callbacks or not, each cached list holds exactly the matching subscriptions |
| Registry.SubscribedExactly | upstream/lcm/lcm.c:290-345 | after any run the master list holds just the subscriptions made and not taken back since |
| Dispatching.DispatchCallsAll | upstream/lcm/lcm.c:388-435 | exactly the handlers matching at the start are called, once each and in list order, if and only if no callback unsubscribes a handler still to be called, or subscribes to the channel while fewer subscriptions match than at the start but more than were called before |
| Dispatching.CarelessMisses | upstream/lcm/lcm.c:408-416 | the failing half: any other callback leaves out a handler that matched at the start |
| Dispatching.SparingIsCareful | upstream/lcm/lcm.c:388-435 | callbacks that unsubscribe no listed handler meet the condition, whatever they subscribe |
| Dispatching.DispatchKeepsInv | upstream/lcm/lcm.c:388-435 | after a dispatch each cached list holds exactly the matching subscriptions, whatever the callbacks did |
| Dispatching.FreedOnceExactly | upstream/lcm/lcm.c:418-432 | each handler unsubscribed by a callback is in to_remove once if and only if handlers are unsubscribed from the end of the list only and nothing takes their slots |
| Dispatching.DispatchDropsFlags | upstream/lcm/lcm.c:401-420 | callback_scheduled is a flag and no count: a dispatch clears it for each handler in its slots, outer dispatches or not, and for no other |
| Dispatching.FreedUnderOuter | upstream/lcm/lcm.c:322-420 | a handler still ahead in an outer dispatch, unsubscribed after an inner one, is freed at once and left in its slot exactly when its pattern matches the inner channel and no live slot of the outer list is behind its own |
| Dispatching.SelfUnsubscribe | upstream/lcm/lcm.c:388-435 | the first of several handlers unsubscribing itself: all are called once, but that one is not freed once |
| Subscriptions.Lcm.HasHandlers | upstream/lcm/lcm.c:376-386 | true exactly when some subscription matches |
| Subscriptions.Lcm.Subscribe | upstream/lcm/lcm.c:273-320 | the lists in place become those of the specification |
| Subscriptions.Lcm.Unsubscribe | upstream/lcm/lcm.c:322-346 | the same, and the result says whether the handler was known |
| Subscriptions.Lcm.DispatchHandlers | upstream/lcm/lcm.c:388-435 | the three loops over the live array do what the specification says, for any callback behaviour |
| JavaLists.MatchingKept | upstream/lcm-java/lcm/lcm/LCM.java:187-207 | unsubscribing and matching can be done in either order |
| JavaLists.KeptExactly | upstream/lcm-java/lcm/lcm/LCM.java:187-207 | gone are the records with that pattern and subscriber, null standing for any; each other one is there as often as before |
| JavaLists.ListsAgree | upstream/lcm-java/lcm/lcm/LCM.java:143-209 | over every run of subscribe and unsubscribe, by subscribers too, each cached list is the matching records in subscription order |
| JavaLists.ReceivedExactly | upstream/lcm-java/lcm/lcm/LCM.java:215-238 | the matching subscribers are notified in order up to the first that adds to or takes from the channel's list; with none it returns, else only if the list is then as long as the number notified, and otherwise throws a ConcurrentModificationException |
| JavaLists.AllNotifiedExactly | upstream/lcm-java/lcm/lcm/LCM.java:215-238 | all are notified, without an exception, exactly if none but the last touches the list and the last leaves its length |
| JavaSubscriptions.Lcm.Subscribe | upstream/lcm-java/lcm/lcm/LCM.java:143-164 | master list and matching cached lists gain the record |
| JavaSubscriptions.Lcm.Unsubscribe | upstream/lcm-java/lcm/lcm/LCM.java:175-209 | the named records leave all lists, each removal counted; the others stay |
| JavaSubscriptions.Lcm.ReceiveMessage | upstream/lcm-java/lcm/lcm/LCM.java:215-238 | the loop over the iterator does what the specification says, for any subscribers |
| LoggerProtocol.StepKeeps | upstream/lcm-logger/lcm_logger.c:87-209 | every step of either thread keeps the byte count, the order, the log and the counts right |
| LoggerProtocol.EveryRun | upstream/lcm-logger/lcm_logger.c:87-209 | in every interleaving write_queue_size counts what is held and stays within the maximum, accepted plus dropped is received, the log is a numbered prefix of the accepted messages, and logsize is the file length after bookkeeping |
| LoggerProtocol.AcceptedExactly | upstream/lcm-logger/lcm_logger.c:149-190 | at any moment of any run a message is accepted exactly if 40 + channel + 1 + data bytes fit beside the memory held, and else dropped and counted; a filtered one changes nothing |
| LoggerProtocol.AllWritten | upstream/lcm-logger/lcm_logger.c:87-209 | whenever both threads are at rest every accepted message is in the log and no memory is counted |
| LoggerProtocol.LogReadsBack | upstream/lcm-logger/lcm_logger.c:149-209 | the log can be read back at any moment and gives the first accepted messages, numbered from 0, with their times, channels and data |
| LoggerThreads.Logger.Reserve | upstream/lcm-logger/lcm_logger.c:150-183 | the lock region of the handler is the step Arrive |
| LoggerThreads.Logger.AccountFor | upstream/lcm-logger/lcm_logger.c:96-105 | without the exit flag what was popped is an event, never the exit note; the lock region is the step Account |
| LoggerThreads.Logger.WriteToLog | upstream/lcm-logger/lcm_logger.c:107-122 | writing through the event log is the step WriteEvent |
| Aggregator.TrimIsLongestSuffix | upstream/lcm-java/lcm/lcm/MessageAggregator.java:62-66 | what is kept is the longest suffix of old queue and new message within both limits |
| Aggregator.ReceiveKeepsLongest | upstream/lcm-java/lcm/lcm/MessageAggregator.java:52-70 | with the two limits of the object |
| Aggregator.MessageAggregator.MessageReceived | upstream/lcm-java/lcm/lcm/MessageAggregator.java:52-70 | what is left is the longest suffix within its two limits, with its byte count; it throws exactly for a negative limit |
| Aggregator.MessageAggregator.GetNextMessage | upstream/lcm-java/lcm/lcm/MessageAggregator.java:114-139 | the oldest message present, or received while waiting, or null |
| Aggregator.InOrderOnce | upstream/lcm-java/lcm/lcm/MessageAggregator.java:52-139 | over every run messages come out in arrival order and none twice, whatever the limits do |
| Aggregator.NothingLost | upstream/lcm-java/lcm/lcm/MessageAggregator.java:52-139 | while all that is held or comes in fits into the limits, what went in is what came out, in order, and what is still held |

## Left out

- RingBuffer.Ring.Allocate: requests within 63 of 2^32, whose rounded length wraps to less than a header (`RecordLengthCovers`); its only caller asks for 65536 bytes.
- ReceivePipeline: the unlocked enqueue at upstream/lcm/lcm_udp.c:752 is one step, so what a race with the handle caller does to the queue is not shown.
- UdpReceiver: the buffer queues are sequences; the intrusive list is proved separately in `BufQueue`.
- EndToEnd.PublishedIsDelivered: the stream of a sender has each packet once, fragment 0 of a message first, up to where it stops; `IntactExactly` says what becomes of other streams.
- FragmentRounds.IntactExactly: one sender alone, so nothing is evicted; `DeliveredOnce` has the other senders.
- Reassembler.FragmentStore.RecvMessageFragment: fragment 0 without a NUL and offsets near 2^32 are excluded by `PacketOk`, as malformed packets are throughout; the C fragment buffers are values in a map, so sharing of one lcm_frag_buf_t between pointers is not modelled.
- JavaProvider.ReaderThread.HandleFragment: message sizes and offsets are natural numbers; Java's negative ones come from malformed packets only.
- Subscriptions.Lcm.DispatchHandlers: callback_scheduled and marked_for_deletion are sets of addresses, and scripts do not dispatch again: `FreedUnderOuter` takes an inner dispatch with idle callbacks; memory is not freed, so what a stale slot or a handler freed twice (`FreedOnceExactly`) does next is not shown.
- JavaSubscriptions.Lcm.ReceiveMessage: subscribers that cause another message to be received while they are notified, and the closed flag.
- JavaEndToEnd.PublishedIsHandedOn: the stream of a sender has its packets once and in order; `WholeExactly` and `OnlySentMessages` have repeats, losses and other orders. A short packet without a NUL stands with the exceptions, though readStringZ may find one in what the receive buffer held before.
- BufferedFile.BufferedRandomAccessFile.WriteLong: a cursor behind the end of the file, where already the first byte makes the file wrong (`Write`).
- BufferedFile.PerformAll: writes behind the end of the file, and bulk reads there that start inside a block; peek, readLine, the UTF and floating-point accessors and the commented-out block write.
- EventLog.Log.SeekToTimestamp: fractions are exact reals; rounding of doubles is not modelled.
- EventLog.Log.WriteEvent: the 64-bit wrap of the event count, and failed or short writes; the logger's retry and exit on a full disk likewise.
- JavaLog.Log.ReadNext: channel names are bytes, not strings of a character set.
- CodecPrefix.DecodedIsValue: an int64_t size member is cut to int in the emitted call, so received sizes of 2^31 and more are not covered.
- CodecRoundTrip.RoundTrip: sizes and positions are unbounded integers, so encodings of 2 GiB and more are not covered.
- CoreTypes.StringDecode: negative and unterminated string lengths, on which the C code has no defined behaviour, are errors here.
- Schema: `depth` records that by-value nesting of structs is finite, as a C compiler enforces; enums and the emitted Python decoder are left out (their array code is wrong), and so are clone, cleanup and the C++ and C# emitters.
- PythonEncoder: values are already bytes and machine words; the text of the emitted statements is a small syntax tree.
- Parser: starts from tokens; strtol and the spelling of constant values are parameters; enums, packages and imports are not parsed.
- Fingerprint: caching of the computed hash and enum hashes.
- Sockets, select, thread creation, kernel timestamps, loss statistics and messages on stderr; clock readings and regular-expression matching are parameters.
- The TCP and file providers, the log player, the graphical tools and conftron's own scripts: thin or interface code.

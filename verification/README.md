# A model of the message bus

This project models, in Dafny, the parts of a C++ publish/subscribe simulation
framework that carry its messages, and proves what those parts promise.

| module | models | main results |
|---|---|---|
| `Common`, `Bits`, `Keys` | octets, machine widths, bit lengths, the order of `std::map` keys | |
| `Wire` | varints, tags, length-delimited records, as in the Protocol Buffers Encoding specification ("Base 128 Varints", "Length-Delimited Records") | size formula, record round trip, parse of concatenations, refusal of oversize records |
| `UdmMessagePb`, `TopicListPb` | the generated messages: parse loops, serializers, cached sizes, merge | the bytes field by field, exact round trips, "Last One Wins", stability of re-encoding, size equals bytes written |
| `ByteArrays`, `Frames` | the owned buffer and the frame `topic "@" NUL protobuf`, decoded with the `strtok` of section 7.24.5.8 of ISO/IEC 9899:2011 | what every topic does to its frame, exactly which topics bring every message of theirs back, object to object member by member, fixed point of relaying |
| `SafeQueues` | the blocking queue as steps of any number of threads | no lost wakeup, what is out and what is queued as a function of the steps, exactly when `terminate` frees everybody |
| `Registries`, `Bus` | admission by locks, publish thread, notifiers, item registries, queries | lock map, admitted sequence, deliveries, registries and query replies as functions of the history, over every run |
| `RequestCodec`, `Datagrams` | the requests and messages of the UDP socket | exact round trip of requests; what a datagram brings of a message and what it never does |
| `Fanout` | the UDP notifier: subscription table, received and sent datagrams | in any visiting order a message goes once to exactly the endpoints subscribed to its topic |
| `Delivery` | the bus with that notifier attached | over every run, which datagram each call sends, and to whom exactly once |
| `Timers` | the timer service under add, cancel, worker and clock | callbacks at most once, never before the delay asked for, never after a confirmed cancel; index and queue agree; every timer accounted for; exact drain under cancels, ticks and stops |
| `Requests` | queues, handlers and drains, nested ones included | every accepted request in one place; the first registration before a dispatch decides; arrival order; full rounds under any interference |
| `Serializer` | save and load over arbitrary schemas and JSON trees | exactly which values and which schemas survive; what a value leaves of the data it is loaded over |
| `Numerals`, `LogStreams` | numerals in bases 2 to 16, the table-driven integer printer | minimal padded numeral that reads back |
| `Arenas` | the bump allocator with free lists inside recycled memory | regions disjoint, allocations fresh, size classes exact, a fitting cached block is found |

Each part has the same build: values and functions that say what an operation
means, lemmas about those functions, and a class or method in the form of the
source (fields updated in place, loops over buffers) whose contract ties it to
the functions. Where several threads act, a `State` and its `Step`s describe
every interleaving of the sections the source runs under its mutex; the lemmas
then speak of every run. A class in such a module keeps the state as a ghost
field, and each of its methods is one step, or several.

Readings that matter:

- A C++ exception is `None`, or `false` where the source's function returns a
  flag. `VerifyUTF8` is a parameter, any predicate on octets.
- `utf8`, jsoncpp's conversions between scalar kinds, the clock, the choice of
  `top()`, the thread a notification wakes and the order of an `unordered_map`
  are arbitrary.
- The priority queue of the timer service compares shared pointers and never
  calls the timers' own comparison, so `top()` may return any queued timer.
- `handleAll` promises at most one request a queue when false; the code runs the
  same loop either way, and so does the model.
- A lock state other than NONE, LOCK and UNLOCK is passed on, as in the code.
- The locked flag of an item is filed under topic, name and unit, a lock under
  topic and name only; the model keeps the two as different as the code does.
- A `UdmMsg` writes eight parameters and its decoder asserts seven; the model is
  the program without assertions. Integers lie in memory with the low octet first.
- Members of a decoded message keep the records it did not know, and encoding the
  same object again writes them.

Where the code keeps a promise only under a condition, the condition is proved exact:

- Every message with a topic survives its frame iff what the decoder finds of the topic in front of the payload is accepted and sets nothing but a topic name (`Frames.SafeTopicsExactly`). Nothing is found there iff the topic holds neither `@` nor a NUL (`Frames.OffsetIsHeaderSize`); such a topic is safe, and a few others are (`Frames.UncleanTopicCanBeSafe`, `Frames.ResidueCanNameATopic`).
- A message with a clean topic survives a UDP datagram, received into a fresh object, iff it has no lock, no value and no NUL in its strings (`Datagrams.DatagramRoundTripExactly`): the encoder takes the size of the value from a buffer that is still empty, and the decoder reads the lock as a parameter of another type.
- Two nodes share a registry key iff they share topic and name, as long as no topic holds `@` (`Registries.KeysIdentify`, with two that collide); a lock is that of one variable among topics of one length (`Bus.LocksIdentify`, with two that collide).
- `terminate` frees every waiting consumer iff at most one waits (`SafeQueues.TerminateFreesAtMostOne`, with a run that strands one).
- The timer index lists every live timer after `addTimer` iff the entry had none pending (`Timers.AddKeepsIndexExactly`, with a run that hides one).
- A message survives its own encoding iff its strings are readable and its lengths fit the size prefix, a list iff the same holds of its nodes (`UdmMessagePb.RoundTripExactly`, `TopicListPb.ListRoundTripExactly`, `TopicListPb.AcceptedListCanOutgrowItself`, `Bus.QueryShowsTheRegistry`).
- A value survives the serializer iff it is restorable, and a schema loses nothing iff it is lossless (`Serializer.MemberRoundTrip`, `Serializer.LosslessExactly`): a `char` is saved as a number and read as a bool, and a vector element that writes no member becomes a null that no load accepts.
- A byte array built from a string is sound iff the string is not empty (`ByteArrays.ByteArray.FromString`).

## Model

| member | source | states |
|---|---|---|
| Wire.RawVarintOfEncoded | sys/ThirdParty.win/include/google/protobuf/parse_context.h:538-552 | A base-128 varint is read back from the front of any buffer, with exactly its own bytes consumed, whenever its groups fit the reader's limit |
| Wire.VarintIsBase128 | sys/ThirdParty.win/include/google/protobuf/io/coded_stream.h:1744-1752 | A number is written as its base-128 digits, low ones first, the high bit on all but the last, and no digit to spare |
| Wire.ReadersGiveUp | sys/ThirdParty.win/include/google/protobuf/parse_context.h:538-575 | A tag or a size that does not end within five octets, an integer that does not end within ten, is refused |
| Wire.VarintSizeIsEncodedLength | sys/ThirdParty.win/include/google/protobuf/io/coded_stream.h:1744-1752 | The branch-free size formula equals the length of the encoding for every 64-bit value, ten bytes at most, five for 32-bit values |
| Wire.LowInt32OfSignExtend | sys/ThirdParty.win/include/google/protobuf/parse_context.h:728-732 | What ReadVarint32 keeps of a 64-bit varint: the low 32 bits of a sign-extended int32, negative ones included, are that int32 again |
| Wire.LowInt32Is | sys/ThirdParty.win/include/google/protobuf/parse_context.h:728-732 | The 32-bit reader keeps every number modulo 2^32, as a signed int |
| Wire.ReadFieldOfEncoded | sys/ThirdParty.win/include/google/protobuf/parse_context.h:561-575 | Every record with a field number and a length the reader accepts is read back from the front of any buffer, with exactly its bytes consumed |
| Wire.OversizeFailsParse | sys/ThirdParty.win/include/google/protobuf/parse_context.h:701-713 | A buffer of encoded records one of which is longer than the reader allows is refused as a whole, whatever records stand around it |
| Wire.TruncatedIsRefused | sys/ThirdParty.win/include/google/protobuf/parse_context.h:538-575 | A record that breaks off is refused, wherever it breaks off |
| Wire.OtherTagsAreRefused | sys/ThirdParty.win/include/google/protobuf/parse_context.h:538-575 | Field number zero and the wire types 3, 4, 6 and 7 are refused |
| Wire.ParseOfEncoded | sys/ThirdParty.win/include/google/protobuf/parse_context.h:927-942 | Parsing encoded records and then the rest of the buffer is applying the records one by one and parsing the rest |
| Wire.ParseExtends | sys/ThirdParty.win/include/google/protobuf/parse_context.h:927-942 | Behind any accepted byte string the parse goes on from what that string gave, so parsing can be split at every accepted prefix |
| Wire.ParseKeeps | sys/ThirdParty.win/include/google/protobuf/parse_context.h:927-942 | Any property of messages that every accepted record keeps holds of whatever a parse returns, for every byte string |
| Wire.AppendString | Exec/UdmMessage/udmMessage.pb.cc:361-369 | The string branch of the serializer appends the encoding of the record, or nothing for the empty string |
| Wire.AppendVarint | Exec/UdmMessage/udmMessage.pb.cc:355-359 | The integer branch of the serializer appends the encoding of the record, or nothing for zero |
| UdmMessagePb.ApplyRecordsIsMerge | Exec/UdmMessage/udmMessage.pb.cc:495-528 | Last one wins: running the parse loop over a message's records, from any message, is MergeImpl of that message into it |
| UdmMessagePb.WireLayout | Exec/UdmMessage/udmMessage.pb.cc:349-425 | The bytes written are these, in this order: each field behind the tag byte of the schema, 8, 18, 26, 34, 42, 48, 56 and 66, nothing for a default, and the unknown records |
| UdmMessagePb.ParseSerialized | Exec/UdmMessage/udmMessage.pb.cc:247-425 | Parsing a serialized message in front of anything merges it into the target and goes on with what follows |
| UdmMessagePb.RoundTripExactly | Exec/UdmMessage/udmMessage.pb.cc:247-425 | A message comes back unchanged exactly when its strings are readable and every length fits the size prefix; otherwise its own bytes are refused |
| UdmMessagePb.MergedExactly | Exec/UdmMessage/udmMessage.pb.cc:247-425 | The same into any message already parsed: exactly the well-formed messages are merged in, any other makes the parse fail |
| UdmMessagePb.TypeIsLost | Exec/UdmMessage/udmMessage.pb.cc:247-347 | Behind refused bytes that end in a NUL, two messages that differ in their types only leave the same type, if they are accepted at all |
| UdmMessagePb.ConcatenationMerges | Exec/UdmMessage/udmMessage.pb.cc:247-425 | The bytes of two messages, one after the other, parse to the merge of the second into the first |
| UdmMessagePb.ParsedIsWellFormed | Exec/UdmMessage/udmMessage.pb.cc:247-347 | Whatever is accepted, in any field order, with repeats, long varints or unknown fields, satisfies the encoder's invariant |
| UdmMessagePb.ReserializationIsStable | Exec/UdmMessage/udmMessage.pb.cc:247-425 | For every accepted byte string, writing the result and parsing it again gives the same message |
| UdmMessagePb.SizeOfRecords | Exec/UdmMessage/udmMessage.pb.cc:427-486 | The sum ByteSizeLong accumulates over the eight fields and the unknown records is the number of bytes the serializer writes |
| UdmMessagePb.UDMMessage.ParseRecord | Exec/UdmMessage/udmMessage.pb.cc:251-341 | One pass of the switch consumes exactly one record and applies it, or fails exactly when the record is unreadable or refused |
| UdmMessagePb.UDMMessage.InternalParse | Exec/UdmMessage/udmMessage.pb.cc:247-347 | The while loop accepts exactly the byte strings of the wire format and leaves the parsed message; it terminates as every pass consumes bytes |
| UdmMessagePb.UDMMessage.ParseFromArray | Exec/UdmMessage/udmMessage.pb.cc:247-347 | Parsing forgets the old contents and then accepts exactly what the wire format accepts |
| UdmMessagePb.UDMMessage.InternalSerialize | Exec/UdmMessage/udmMessage.pb.cc:349-425 | Field by field, the bytes appended behind the target are the encoding of the message |
| UdmMessagePb.UDMMessage.ByteSizeLong | Exec/UdmMessage/udmMessage.pb.cc:427-486 | The size returned and cached is the length of the encoding |
| UdmMessagePb.UDMMessage.SerializeToArray | Exec/UdmMessage/udmMessage.pb.cc:349-486 | Succeeds exactly when the encoding fits INT_MAX and the space, and then yields the encoding |
| UdmMessagePb.UDMMessage.MergeImpl | Exec/UdmMessage/udmMessage.pb.cc:495-528 | The field-by-field merge keeps what the source leaves at its default and appends unknown records |
| UdmMessagePb.UDMMessage.CopyFrom | Exec/UdmMessage/udmMessage.pb.cc:530-535 | Copying yields the source's value, self-copy included |
| UdmMessagePb.UDMMessage.Clear | Exec/UdmMessage/udmMessage.pb.cc:230-245 | Every field and the unknown records return to the default |
| TopicListPb.NodeRoundTripExactly | Exec/UdmMessage/topicList.pb.cc:211-320 | A node comes back unchanged exactly when its strings are readable and fit; otherwise its own bytes are refused |
| TopicListPb.NodeLayout | Exec/UdmMessage/topicList.pb.cc:276-320 | A node is written field by field behind the tag bytes 10, 18, 24 and 32, nothing for a default, and its unknown records |
| TopicListPb.ListLayout | Exec/UdmMessage/topicList.pb.cc:540-566 | A list is written as its type behind 8, each node behind 18 and its length, and the unknown records |
| TopicListPb.ListRoundTripExactly | Exec/UdmMessage/topicList.pb.cc:490-566 | A list of any number of nodes comes back exactly when every node is readable and fits its size prefix, and otherwise the list is refused |
| TopicListPb.ListConcatenationMerges | Exec/UdmMessage/topicList.pb.cc:490-566 | The bytes of two lists, one after the other, parse to the first list with the second merged in: nodes append, the last type wins |
| TopicListPb.ParsedListIsSound | Exec/UdmMessage/topicList.pb.cc:490-538 | Every accepted list holds only sound nodes and records it does not know |
| TopicListPb.ListReserialization | Exec/UdmMessage/topicList.pb.cc:490-566 | An accepted list is reproduced by its own encoding exactly when its nodes, re-encoded, still fit the prefix |
| TopicListPb.AcceptedListCanOutgrowItself | Exec/UdmMessage/topicList.pb.cc:490-566 | Some accepted list is refused after its own encoding: a node near the size limit whose type came in a five-byte varint is written with ten bytes |
| TopicListPb.ListOutweighsItsNodes | Exec/UdmMessage/topicList.pb.cc:568-589 | No nested message is longer than the list that holds it |
| TopicListPb.Node.ParseRecord | Exec/UdmMessage/topicList.pb.cc:215-270 | One pass of the switch consumes exactly one record and applies it, or fails exactly when it is unreadable or refused |
| TopicListPb.Node.InternalParse | Exec/UdmMessage/topicList.pb.cc:211-274 | The loop accepts exactly the wire format of a node |
| TopicListPb.Node.InternalSerialize | Exec/UdmMessage/topicList.pb.cc:276-320 | The bytes appended are the encoding of the node |
| TopicListPb.Node.ByteSizeLong | Exec/UdmMessage/topicList.pb.cc:322-355 | The size returned and cached is the length of the encoding, two bytes for a set flag |
| TopicListPb.Node.MergeImpl | Exec/UdmMessage/topicList.pb.cc:364-385 | The merge keeps what the source leaves at its default; a set flag stays set |
| TopicListPb.TopicList.ParseNodes | Exec/UdmMessage/topicList.pb.cc:506-515 | The inner loop on ExpectTag<18> reads node after node and stops where the outer loop would go on, with the same outcome as one record at a time |
| TopicListPb.TopicList.InternalParse | Exec/UdmMessage/topicList.pb.cc:490-538 | Outer and inner loop together accept exactly the wire format of a list |
| TopicListPb.TopicList.ParseFromArray | Exec/UdmMessage/topicList.pb.cc:490-538 | Parsing forgets the old contents and makes only new nodes |
| TopicListPb.TopicList.InternalSerialize | Exec/UdmMessage/topicList.pb.cc:540-566 | Nodes written behind their cached sizes give the encoding of the list, provided every cached size is current |
| TopicListPb.TopicList.ByteSizeLong | Exec/UdmMessage/topicList.pb.cc:568-589 | The size is the number of bytes the serializer will write, and every nested cached size is made current |
| TopicListPb.TopicList.SerializeToArray | Exec/UdmMessage/topicList.pb.cc:540-589 | Sizing first makes the caches current, so the bytes produced are the encoding; refused beyond INT_MAX or the space |
| TopicListPb.TopicList.MergeImpl | Exec/UdmMessage/topicList.pb.cc:598-611 | The list's own nodes stay in front, and every node behind them is a new object with the value of the source's node: copied, not shared; the source is left as it was |
| ByteArrays.ByteArray.Sized | Exec/Common/ByteArray.cpp:25-34 | A zeroed array of the asked size |
| ByteArrays.ByteArray.FromString | Exec/Common/ByteArray.cpp:35-44 | Holds the string and its terminator; exactly for the empty string the size exceeds what was allocated |
| ByteArrays.ByteArray.FromBuffer | Exec/Common/ByteArray.cpp:45-64 | Holds exactly the bytes of the buffer |
| ByteArrays.ByteArray.ReMalloc | Exec/Common/ByteArray.cpp:213-230 | Room for the asked size without stale bytes: what was in use reads as zero and the size stays within the capacity |
| ByteArrays.ByteArray.SetSize | Exec/Common/ByteArray.cpp:244-252 | The size is set only within the capacity |
| ByteArrays.ByteArray.SetBytes | Exec/Common/ByteArray.cpp:93-111 | The contents become exactly the buffer, the capacity never shrinks |
| ByteArrays.ByteArray.SetTwo | Exec/Common/ByteArray.cpp:113-129 | The contents become exactly the two buffers |
| ByteArrays.ByteArray.Append | Exec/Common/ByteArray.cpp:79-92 | Appends within the capacity or changes nothing, and says which |
| ByteArrays.ByteArray.AppendTwo | Exec/Common/ByteArray.cpp:130-140 | Appends both buffers, growing without losing the contents |
| ByteArrays.ByteArray.ByteExternMalloc | Exec/Common/ByteArray.cpp:269-281 | Growth keeps contents and size |
| ByteArrays.ByteArray.Assign | Exec/Common/ByteArray.cpp:141-161 | A copy of an allocated array in storage of its own; from an unallocated one the target keeps its contents |
| ByteArrays.ByteArray.Plus | Exec/Common/ByteArray.cpp:185-204 | A new array with both contents; the operands are untouched |
| Frames.StrtokSplits | Exec/Common/UdmMessage.cpp:162-171 | In a terminated buffer the leading delimiters are skipped, the token runs to the next delimiter or terminator, and that octet alone is overwritten |
| Frames.StrtokIsIdempotent | Exec/Common/UdmMessage.cpp:162-171 | On every buffer, a second strtok finds the same token and writes nothing new |
| Frames.RelayedFrameIsFixed | Exec/Common/UdmMessage.cpp:157-198 | Decoding the bytes a hop stored gives that hop's message and stores the same bytes, for every received buffer |
| Frames.EveryHopAgrees | Exec/Common/UdmMessage.cpp:157-198 | Along a relay of any length, from any received buffer, every hop decodes what the first one did |
| Frames.OffsetIsHeaderSize | Exec/Common/UdmMessage.cpp:161-171 | The decoder starts parsing exactly at the payload, with nothing of the header left over, if and only if the topic holds neither the delimiter nor a terminator |
| Frames.FrameRoundTrip | Exec/Common/UdmMessage.cpp:76-155 | The frame of a message, under its own topic as all encoders write it, gives the message back when the topic is safe and the message well-formed, and is refused when the message is not |
| Frames.FrameDecodes | Exec/Common/UdmMessage.cpp:157-198 | Behind every topic, safe or not, the decoder parses the residue of the topic and then the payload, and stores the header as strtok leaves it |
| Frames.SafeTopicsExactly | Exec/Common/UdmMessage.cpp:76-155 | For every topic a message can carry: every well-formed message with that topic comes back from its frame if and only if what the topic leaves in front of the payload is accepted and sets nothing but a topic name |
| Frames.CleanTopicIsSafe | Exec/Common/UdmMessage.cpp:161-171 | A topic without delimiter and terminator, the empty one included, is safe |
| Frames.UncleanTopicCanBeSafe | Exec/Common/UdmMessage.cpp:161-171 | An unclean topic that is safe all the same: its residue is the record of a zero message type |
| Frames.ResidueCanNameATopic | Exec/Common/UdmMessage.cpp:161-171 | A safe topic whose residue sets a topic name, which the payload then overwrites |
| Frames.FrameSurvivesRelay | Exec/Common/UdmMessage.cpp:157-198 | A frame with a safe topic reaches every hop of a relay with its message unchanged |
| Frames.TrailingAtIsRejected | Exec/Common/UdmMessage.cpp:161-171 | A clean non-empty topic with one delimiter at its end is not safe: behind it no message is ever decoded |
| Frames.UndelimitedIsRefused | Exec/Common/UdmMessage.cpp:161-179 | A buffer whose token ends in its terminator, with no delimiter before it, is refused |
| Frames.UdmMessage.SerializeMembers | Exec/Common/UdmMessage.cpp:56-93 | Whatever the object and its buffer held before, the message has each member in its own field and the stored bytes are exactly its frame; fails only beyond INT_MAX |
| Frames.UdmMessage.SerializeAs | Exec/Common/UdmMessage.cpp:95-155 | The same for explicit arguments, with sender, time and lock taken from the members |
| Frames.UdmMessage.WriteFrame | Exec/Common/UdmMessage.cpp:76-93 | Header and payload cover every byte of the reused buffer, so none is stale |
| Frames.UdmMessage.Strtok | Exec/Common/UdmMessage.cpp:163-171 | The scan over a terminated buffer finds the token and overwrites only the delimiter that ended it |
| Frames.UdmMessage.Deserialize | Exec/Common/UdmMessage.cpp:157-198 | Accepts exactly the decodable buffers; the members show the message, framing them again would frame that message, and the stored bytes are the overwritten ones |
| Frames.Transfer | Exec/Common/UdmMessage.cpp:56-198 | What one object frames, another shows member by member, type, topic, variable, unit, sender, time, lock and payload, behind any safe topic and exactly when the message is well-formed and below INT_MAX |
| SafeQueues.NoLostWakeup | Exec/Common/include/SafeQueue.h:53-94 | In every run with any producers, consumers and spurious wakeups, before terminate, items never outnumber notified consumers while somebody sleeps |
| SafeQueues.FirstInFirstOut | Exec/Common/include/SafeQueue.h:53-94 | In every run, what was handed out and then what is queued are the items of the pushes before the first terminate, in order, and how many are out is a matter of the steps alone |
| SafeQueues.NextIsHandedOut | Exec/Common/include/SafeQueue.h:66-94 | In every run a step hands out the next accepted item exactly when it asks for one, one is left, and nothing was terminated before; no other step hands out anything |
| SafeQueues.TerminateFreesAtMostOne | Exec/Common/include/SafeQueue.h:96-105 | The first terminate leaves nobody asleep if and only if at most one thread slept |
| SafeQueues.OverlookedSleepersStayAsleep | Exec/Common/include/SafeQueue.h:53-105 | A consumer overlooked by terminate is never notified again: only a spurious wakeup could free it |
| SafeQueues.TerminateFreesSingleConsumer | Exec/Common/include/SafeQueue.h:66-105 | With a single consumer terminate leaves nobody asleep, in every run |
| SafeQueues.TerminateCanStrandAConsumer | Exec/Common/include/SafeQueue.h:96-105 | A run with two consumers in which terminate leaves one asleep |
| SafeQueues.SafeQueue.Push | Exec/Common/include/SafeQueue.h:53-64 | Refused exactly after terminate; otherwise the item is at the back, everything else as it was, and one sleeper, if any, notified |
| SafeQueues.SafeQueue.Pop | Exec/Common/include/SafeQueue.h:66-81 | One locked section: waits, ends or takes the front, exactly as the flag and the queue say; only this thread changes its place |
| SafeQueues.SafeQueue.TryPop | Exec/Common/include/SafeQueue.h:83-94 | Takes the front, or nothing when empty or terminated |
| SafeQueues.SafeQueue.Terminate | Exec/Common/include/SafeQueue.h:96-105 | Raises the flag once, with one notification |
| Keys.LessIsLexicographic | Exec/UdmService/udm/UDMSerBusiness.cpp:144-152 | One key is before another iff, where they first differ, it ends or has the smaller octet |
| Keys.AscendingAscends | Exec/UdmService/udm/UDMSerBusiness.cpp:144-152 | A map is traversed in strictly ascending key order |
| Keys.Ascending | Exec/UdmService/udm/UDMSerBusiness.cpp:144-152 | The traversal visits each key of the map once and nothing else |
| Registries.RegistryMeans | Exec/UdmService/udm/UDMSerBusiness.cpp:284-295 | A key is registered iff some node with it was ever offered; its node is the first one offered, with the locked flag of the latest flush since |
| Registries.EntriesAreForever | Exec/UdmService/udm/UDMSerBusiness.cpp:284-295 | After any further events a registered key has the same topic, name, type and unknown records |
| Registries.KeysIdentify | Exec/UdmService/udm/UDMSerBusiness.cpp:284-295 | As long as no topic holds the separator, two nodes share a key iff they share topic and name |
| Registries.KeysCanCollide | Exec/UdmService/udm/UDMSerBusiness.cpp:284-295 | Two different topics that share a key, one of them with the separator in it |
| Registries.AnswerListsTheRegistry | Exec/UdmService/udm/UDMSerBusiness.cpp:144-152 | A reply is the request with, behind its nodes, one node per registered key, each key once, in key order, that carries topic, name, type and flag of the item |
| Bus.LocksAreExact | Exec/UdmService/udm/UDMSerBusiness.cpp:84-117 | The lock map as a fold over everything received: an id is in it iff some LOCK of it has no UNLOCK after it, and it holds the first LOCK since the last UNLOCK |
| Bus.LockMapIsExact | Exec/UdmService/udm/UDMSerBusiness.cpp:84-119 | In every reachable state, of the messages given to onRecv by the steps of the run, whatever the publish thread and the notifiers did in between |
| Bus.AdmissionIsExact | Exec/UdmService/udm/UDMSerBusiness.cpp:84-119 | Published and queued messages together are exactly those received before terminate that were no UNLOCK and no NONE with a locked id, in order of arrival |
| Bus.NotifiersSeeThePublications | Exec/UdmService/udm/UDMSerBusiness.cpp:245-256 | Each notifier has been called with a contiguous stretch of the admitted sequence, in order, from where it joined, missing at most the message in delivery |
| Bus.RegistriesAreExact | Exec/UdmService/udm/UDMSerBusiness.cpp:54-119 | In every reachable state each registry holds the first node offered under each key with the flag of the latest flush since, by a log that is a function of the steps: one flush for every message received that flips its id and concerns the registry, and at the k-th registering the nodes of the k-th admitted message |
| Bus.LogIsOf | Exec/UdmService/udm/UDMSerBusiness.cpp:258-298 | The log a registry was built by is, event by event and in order, the one the steps call for |
| Bus.RegistrationIsForever | Exec/UdmService/udm/UDMSerBusiness.cpp:54-83 | Along every run a registered key keeps everything but its locked flag |
| Bus.ReceiveChanges | Exec/UdmService/udm/UDMSerBusiness.cpp:54-119 | Exactly the messages that lock an unlocked id or unlock a locked one change the lock map and the flags, and the type picks the registry |
| Bus.ReplyArrives | Exec/UdmService/udm/UDMSerBusiness.cpp:153-165 | A reply list of sound nodes, encoded, framed with the empty topic and decoded, arrives whole if and only if it fits the size prefix and the responder's name is readable and fits; else nothing is decoded |
| Bus.QueryShowsTheRegistry | Exec/UdmService/udm/UDMSerBusiness.cpp:121-165 | In every reachable state, whatever the query bytes, the client decodes the request's nodes and then, in key order, the requests for type 0, the subscribed variables for type 1 and the published ones for any other, from that sender, if and only if the list and the name fit |
| Bus.AnnouncedIsListed | Exec/UdmService/udm/UDMSerBusiness.cpp:258-298 | Once a published topic list is registered, each of its nodes is found under its topic and name in the registry that queries of the same type are answered from |
| Bus.FlushFinds | Exec/UdmService/udm/UDMSerBusiness.cpp:54-83 | As long as no topic holds the separator, a message flushes exactly the node of its topic whose name is its variable and unit |
| Bus.LocksIdentify | Exec/UdmService/udm/UDMSerBusiness.cpp:84-117 | Among topics of one length, one topic included, a lock is that of one topic and variable |
| Bus.LocksCanCollide | Exec/UdmService/udm/UDMSerBusiness.cpp:84-117 | Two messages of different topics and variables that share a lock |
| Bus.UDMSerBusiness.OnRecv | Exec/UdmService/udm/UDMSerBusiness.cpp:84-119 | One call is one admission step; true for an UNLOCK and for whatever the history lets pass while the queue is open |
| Bus.UDMSerBusiness.FlushItemLockedStatus | Exec/UdmService/udm/UDMSerBusiness.cpp:54-83 | The flag under the message's key changes in the request registry, or in both variable registries, if registered there |
| Bus.UDMSerBusiness.AddNotify | Exec/UdmService/udm/UDMSerBusiness.cpp:48-52 | A new notifier has been called with nothing yet |
| Bus.UDMSerBusiness.InsertNodes | Exec/UdmService/udm/UDMSerBusiness.cpp:284-295 | The loop registers the nodes in order, each unless its key is taken |
| Bus.UDMSerBusiness.RegisterNodes | Exec/UdmService/udm/UDMSerBusiness.cpp:258-298 | Only a topic list registers nodes, and only in the registry its type selects |
| Bus.UDMSerBusiness.PublishThreadCycle | Exec/UdmService/udm/UDMSerBusiness.cpp:245-302 | Whatever messages, new notifiers and terminations other threads bring between its pieces, one cycle is a run in which the publish thread takes a message, calls notifiers to the end of the list, and registers the nodes |
| Bus.CycleAlone | Exec/UdmService/udm/UDMSerBusiness.cpp:245-302 | A cycle nothing interrupts hands the front message once to every notifier and then registers its nodes |
| Bus.UDMSerBusiness.AddNodes | Exec/UdmService/udm/UDMSerBusiness.cpp:144-152 | The loop over the map appends the copies in key order, as new nodes, and leaves the list's own nodes in front |
| Bus.UDMSerBusiness.OnRequestAllItems | Exec/UdmService/udm/UDMSerBusiness.cpp:121-165 | Answers exactly the parsable queries whose reply is below INT_MAX; the client then decodes, from the responder, the request and the registry that the history gives the type, with the fields of each item |
| RequestCodec.RequestRoundTripExactly | Exec/Common/UdmRequestQueue.cpp:1013-1088 | A request is read back, whatever follows it, if and only if its two names fit their 16-bit sizes |
| RequestCodec.RequestLayout | Exec/Common/UdmRequestQueue.cpp:1013-1044 | The bytes of a request with one parameter, sizes in network order |
| RequestCodec.ShortParameterIsRefused | Exec/Common/UdmRequestQueue.cpp:289-307 | A parameter that breaks off is refused |
| RequestCodec.ShortRequestIsRefused | Exec/Common/UdmRequestQueue.cpp:1046-1088 | A request that breaks off before its parameters is refused |
| RequestCodec.SerializeParameter | Exec/Common/UdmRequestQueue.cpp:256-265 | Appends type, size in network order and bytes |
| RequestCodec.SerializeRequest | Exec/Common/UdmRequestQueue.cpp:1013-1044 | The predicted size makes room for everything, so that no append is refused and the buffer holds the encoding |
| RequestCodec.DeserializeParameters | Exec/Common/UdmRequestQueue.cpp:1079-1085 | The loop over count and bytes reads exactly the parameters of the format |
| RequestCodec.DeserializeRequest | Exec/Common/UdmRequestQueue.cpp:1046-1088 | Reads exactly the encoded requests; None where the source throws, asserts, or reads beyond the buffer |
| Datagrams.DatagramDecodes | Exec/Common/UdmMsg.cpp:119-140 | Behind every topic, the decoder reads the request behind the residue of the topic |
| Datagrams.MessageLayout | Exec/Common/UdmMsg.cpp:78-103 | The bytes of the eight parameters: four texts with their terminators, time, type, lock, and an empty array |
| Datagrams.OtherParametersShow | Exec/Common/UdmMsg.cpp:141-174 | A value added as a string or as bytes, and a lock added as a bool, are shown, though the byte array form never adds them so |
| Datagrams.DatagramShows | Exec/Common/UdmMsg.cpp:78-177 | Behind a clean topic, whatever the value was and whatever the receive buffer held behind the datagram, it shows the message without its value and lock, its strings up to their first NUL |
| Datagrams.DatagramRoundTripExactly | Exec/Common/UdmMsg.cpp:78-177 | A message survives its datagram if and only if it has no lock, no NUL in a string, and the value the receiving object already held |
| Datagrams.UndelimitedIsRefused | Exec/Common/UdmMsg.cpp:119-136 | A datagram whose token ends in its terminator, with no delimiter before it, is refused |
| Datagrams.UdmMsg.Serialize | Exec/Common/UdmMsg.cpp:78-103 | The buffer holds header and request |
| Datagrams.UdmMsg.Deserialize | Exec/Common/UdmMsg.cpp:119-177 | Shows exactly the decodable datagrams and stores them as strtok left them |
| Fanout.KeysIdentifyEndpoints | Exec/UdmService/udm/UdpSocketService.cpp:133-141 | Two endpoints never share a subscriber key |
| Fanout.KeyText | Exec/UdmService/udm/UdpSocketService.cpp:133-141 | An endpoint's key as text |
| Fanout.TableIsExact | Exec/UdmService/udm/UdpSocketService.cpp:93-109 | After any subscriptions, an endpoint's entry holds exactly the topics that very endpoint asked for, and its own address |
| Fanout.UdpServerCtx.RecvMsg | Exec/UdmService/udm/UdpSocketService.cpp:87-132 | From any receive buffer: one shorter than its header is dropped, an undefined one fails, and of the rest exactly the subscriptions reach the table, under the decoded topic; queries and data are passed on |
| Fanout.SubscriptionIsHeard | Exec/UdmService/udm/UdpSocketService.cpp:87-109 | A subscription to a clean topic, encoded and received into a buffer of any further contents, is taken as a subscription to that topic |
| Fanout.NothingLocksByDatagram | Exec/UdmService/udm/UdpSocketService.cpp:87-132 | No message with a clean topic that the sockets' own encoder sends is dropped or fails, and none that reaches the bus or a query carries a lock or a value |
| Fanout.UdpServerCtx.RecvSubscribe | Exec/UdmService/udm/UdpSocketService.cpp:93-109 | Adds the one subscription; no subscriber object is shared or replaced |
| Fanout.UdpServerCtx.OnCommonMessage | Exec/UdmService/udm/UdpSocketService.cpp:221-247 | One datagram is built, and in whatever order the map is visited it is sent once to every endpoint that has subscribed to the topic by then and to no other |
| Fanout.SubscribersDecode | Exec/UdmService/udm/UdpSocketService.cpp:221-247 | What a subscriber decodes of the datagram of a message with a clean topic, member by member: all but the value and the lock, strings up to their first NUL |
| Fanout.RecipientsAreSubscribers | Exec/UdmService/udm/UdpSocketService.cpp:238-246 | The same for the addresses picked from any table that means its subscriptions, in any order of its keys |
| Delivery.SubscribersGetThePublications | Exec/UdmService/udm/UdpSocketService.cpp:221-247 | In every interleaving of bus steps and subscriptions, with any visiting order each time: the step that is the k-th call of the notifier sends the datagram of the k-th admitted message since it joined, once to every endpoint that subscribed to its topic at an earlier step and never to another; nothing else is ever sent |
| Delivery.BusRuns | Exec/UdmService/udm/UDMSerBusiness.cpp:245-256 | What the bus does in such a run is a run of the bus, so everything proved of those holds here |
| Delivery.RunKeepsInv | Exec/UdmService/udm/UDMSerBusiness.cpp:245-256 | Along every run what was sent is what the bus handed to the notifier, in order, one sending for each such step, and the table is that of the subscriptions taken |
| Delivery.HandOverIsPossible | Exec/UdmService/udm/UdpSocketService.cpp:238-246 | The bus is never kept from calling the notifier: the table can always be visited |
| Timers.CallbacksAreSound | Exec/Common/UdmTimer.cpp:51-63 | In every run a timer's callback runs at most once, never for a timer cancelTimer reported cancelled, and at a step after one that added the timer, when at least the delay asked for there has passed, whichever timer top() yields |
| Timers.TimersAreAsAsked | Exec/Common/UdmTimer.cpp:114-126 | A timer exists iff a step before any stop added it, with the entry and the deadline that step asked for |
| Timers.InspectedEarlyExactly | Exec/Common/UdmTimer.cpp:143-176 | A live timer on top is taken out iff the delay it was added with has passed; before that nothing changes |
| Timers.IndexIsSound | Exec/Common/UdmTimer.cpp:114-176 | In every reachable state an index entry names a queued, uncancelled timer of its own key |
| Timers.AddKeepsIndexExactly | Exec/Common/UdmTimer.cpp:114-126 | Adding keeps every live timer in the index if and only if the entry has none pending (or the service has stopped) |
| Timers.IndexIsExact | Exec/Common/UdmTimer.cpp:114-176 | Along runs that never re-add a pending entry the index is exactly the live queued timers |
| Timers.ReAddingHidesATimer | Exec/Common/UdmTimer.cpp:114-126 | A run that re-adds a pending entry and leaves a live timer outside the index |
| Timers.WorkerDrains | Exec/Common/UdmTimer.cpp:143-176 | Once all deadlines have passed, in every run that adds nothing, each iteration that finds a timer takes exactly one out, whatever cancels, clock ticks, callbacks and stops come between |
| Timers.EveryTimerIsAccountedFor | Exec/Common/UdmTimer.cpp:128-176 | In every run that adds nothing, due or not, a timer gone from the queue was cancelled before, confirmed cancelled since, has fired, or is about to; and only a timer gone and never cancelled has fired |
| Timers.DrainTakesExactlyQueueLength | Exec/Common/UdmTimer.cpp:143-176 | In such a run the queue is empty exactly after as many iterations that find a timer as there were timers, and then exactly the never cancelled ones have fired |
| Timers.StackTimer.AddTimer | Exec/Common/UdmTimer.cpp:114-126 | Unless stopped, the timer is queued with the present time and its delay as deadline; the index keeps the earlier timer of the entry; nothing else changes |
| Timers.StackTimer.CancelTimer | Exec/Common/UdmTimer.cpp:128-141 | True exactly when the index had the entry, and then that timer is cancelled for good |
| Timers.StackTimer.Cycle | Exec/Common/UdmTimer.cpp:143-176 | One locked pass: drops a cancelled top, waits for an early one, or takes a due one out of queue and index |
| Timers.StackTimer.Execute | Exec/Common/UdmTimer.cpp:51-58 | A timer the worker took out always runs its callback: nothing can cancel it in between |
| Timers.StackTimer.Stop | Exec/Common/UdmTimer.cpp:105-113 | Stops further additions and changes nothing else |
| Requests.EveryRequestHasOnePlace | Exec/Element/RequestQueueIntf.cpp:137-248 | In every run of pushes, registrations, clears and any number of drains, nested or side by side, the request of each push is in the queue, in one drain, or was dispatched, discarded or cleared by exactly one later step |
| Requests.RegistrationsDecide | Exec/Element/RequestQueueIntf.cpp:68-186 | In every run a dispatch step calls a handler if and only if one was registered for the name at an earlier step, and it is the handler of the first such step; otherwise the request is discarded |
| Requests.ArrivalOrderIsKept | Exec/Element/RequestQueueIntf.cpp:137-186 | In every run requests are taken in order of arrival within a drain and from an earlier drain to a later one, in whatever order the drains advance |
| Requests.NothingStaysBehind | Exec/Element/RequestQueueIntf.cpp:137-194 | Whatever was pushed before a drain began or a clear ran is no longer in the queue afterwards, in every run |
| Requests.RunKeepsInv | Exec/Element/RequestQueueIntf.cpp:137-186 | Every run keeps the invariant behind these, and its history holds one event for every step, of that step's kind |
| Requests.DrainAlone | Exec/Element/RequestQueueIntf.cpp:137-165 | A drain nothing interferes with empties its queue, touches no other, and calls the handlers of exactly its requests that have one, in order |
| Requests.RoundTells | Exec/Element/RequestQueueIntf.cpp:107-186 | In a round over any queues, whatever pushes, registrations and clears handlers and other threads make to any queue after each dispatch: the calls for a queue are exactly the dispatches added to its history, in order, and of a queue visited nothing is left but what was pushed during the round |
| Requests.RoundAlone | Exec/Element/RequestQueueIntf.cpp:107-129 | A round nothing interferes with calls for everything queued, queue after queue and in order of arrival, and leaves queues it does not visit alone |
| Requests.RoundVisitsAll | Exec/Element/RequestQueueIntf.cpp:107-129 | A full round visits every queue exactly once |
| Requests.RoundAscends | Exec/Element/RequestQueueIntf.cpp:107-129 | A full round goes through topics and names in map order |
| Requests.RequestQueueIntf.Match | Exec/Element/RequestQueueIntf.cpp:250-273 | The queue registered under that topic and that name, or null exactly when there is none |
| Requests.RequestQueueIntf.RegisterQueue | Exec/Element/RequestQueueIntf.cpp:31-66 | The topic has the named and the default queue afterwards, new ones empty, and nothing registered is replaced |
| Requests.RequestQueueIntf.RegisterTopic | Exec/Element/RequestQueueIntf.cpp:15-29 | The topic has its default queue afterwards and nothing registered is replaced |
| Requests.RequestQueueIntf.RegisterQueueHandler | Exec/Element/RequestQueueIntf.cpp:68-92 | Adds a handler to one queue unless the name has one; without the queue nothing changes |
| Requests.RequestQueueIntf.PushRequest | Exec/Element/RequestQueueIntf.cpp:211-248 | Accepted exactly when the queue is registered, at its back; no other queue changes |
| Requests.RequestQueueIntf.ClearQueue | Exec/Element/RequestQueueIntf.cpp:188-194 | Empties one registered queue and no other |
| Requests.RequestQueueIntf.HandleRequestQueueData | Exec/Element/RequestQueueIntf.cpp:137-186 | Whatever handlers or other threads do to any queue after each dispatch, the loop drains the queue as it was when moved out and returns the number of calls, whatever handleAll is |
| Requests.RequestQueueIntf.HandleRequestQueue | Exec/Element/RequestQueueIntf.cpp:131-135 | Drains one queue under the same interference; an unknown one calls nothing |
| Requests.RequestQueueIntf.HandleTopic | Exec/Element/RequestQueueIntf.cpp:114-121 | Drains the queues of one topic in the order of their names, under the same interference |
| Requests.RequestQueueIntf.HandleRequestQueues | Exec/Element/RequestQueueIntf.cpp:107-129 | Drains every queue, topics and names in map order, under the same interference, and returns true exactly when some handler was called |
| Serializer.MemberRoundTrip | Exec/SerializeConfig/include/Serialization.h:62-149 | Saving any value of any schema with distinct names and loading it into a default member restores it if and only if it holds no char outside empty vectors, nothing in a type without a SERIALIZE body, and only basic or writing elements in vectors |
| Serializer.LoadsOver | Exec/SerializeConfig/include/Serialization.h:77-149 | Loaded over any data, not only a default one, a restorable value leaves what it lays over it: scalars replace, vectors append, members are laid over one by one, objects that write nothing change nothing |
| Serializer.ChildRoundTrip | Exec/SerializeConfig/include/Serialization.h:56-94 | The same for the whole object, nested structs, empty vectors and all-empty structs included |
| Serializer.LosslessExactly | Exec/SerializeConfig/include/Serialization.h:62-149 | Every value of a schema survives if and only if the schema has no char, no type without a SERIALIZE body, and vectors only of basic types or of structs with a member that is no vector |
| Serializer.ArrayRoundTrip | Exec/SerializeConfig/Json/JsonSerialization.cpp:180-225 | The elements of a vector come back if and only if each is restorable and, when not basic, writes at least one member |
| Serializer.SavedKeeps | Exec/SerializeConfig/Json/JsonSerialization.cpp:237-240 | With distinct names, saving further members leaves every saved one readable as stored |
| Serializer.SavedKeysExactly | Exec/SerializeConfig/Json/JsonSerialization.cpp:166-240 | The keys of a saved object are the names of its members, empty vectors alone left out |
| Serializer.OddTrees | Exec/SerializeConfig/Json/JsonSerialization.cpp:206-251 | A vector keeps its elements on a tree without any and throws on an object with members; a struct with a member throws on a scalar or an array |
| Serializer.MissingMember | Exec/SerializeConfig/include/Serialization.h:62-121 | Where nothing is stored, a basic member becomes zero whatever it was, a char throws, and any other member stays as it is |
| Serializer.ChildIsNull | Exec/SerializeConfig/include/Serialization.h:71-73 | A nested object is null exactly when no member of it stores anything |
| Serializer.SilentIsDefault | Exec/SerializeConfig/include/Serialization.h:88-92 | A struct that stores nothing is the default one, so skipping it on load loses nothing |
| Serializer.Read | Exec/SerializeConfig/Json/JsonSerialization.cpp:121-164 | Whatever jsoncpp's conversions between kinds do, what a load accepts has the member's type and is never a char; a value of the type itself is read back unchanged |
| Serializer.ShortsAreCut | Exec/SerializeConfig/Json/JsonSerialization.cpp:121-164 | A number beyond 16 bits is loaded into a short as its low 16 bits, signed or not |
| Serializer.MixedArrays | Exec/SerializeConfig/Json/JsonSerialization.cpp:206-225 | The first element decides the cast: an object among basic elements and anything else among objects throws, and objects for a basic type load as zeros |
| Serializer.JsonCppObjectAdapter.WriteValue | Exec/SerializeConfig/Json/JsonSerialization.cpp:166-173 | Afterwards the key reads as the scalar, every other key reads as before, and no other key has appeared |
| Serializer.JsonCppObjectAdapter.ReadValue | Exec/SerializeConfig/Json/JsonSerialization.cpp:175-178 | Reads what is under the key; the null a missing key leaves behind changes no later answer |
| Serializer.JsonCppObjectAdapter.WriteArray | Exec/SerializeConfig/Json/JsonSerialization.cpp:180-204 | Afterwards the key reads as the array and every other key as before; an empty array leaves no trace |
| Serializer.JsonCppObjectAdapter.UpdateChildObject | Exec/SerializeConfig/Json/JsonSerialization.cpp:237-240 | Afterwards the key reads as the child's tree, null included, and every other key as before |
| Serializer.JsonCppObjectAdapter.ChildObject | Exec/SerializeConfig/Json/JsonSerialization.cpp:242-251 | A copy of the tree under the key, or null when there is none |
| Serializer.SaveToObject | Exec/SerializeConfig/include/Serialization.h:62-121 | Both overloads store under the key what the schema says, or nothing for an empty vector |
| Serializer.SwapMemberForWrite | Exec/SerializeConfig/include/Serialization.h:56-57 | The members are saved in order into an empty object; without a SERIALIZE body nothing is |
| Serializer.LoadFromObject | Exec/SerializeConfig/include/Serialization.h:77-149 | Both overloads load exactly what is under the key, or throw when it does not fit |
| Serializer.LoadVector | Exec/SerializeConfig/include/Serialization.h:123-149 | The two loops accept exactly the arrays every element of which can be cast, and append |
| Serializer.SwapMemberForRead | Exec/SerializeConfig/include/Serialization.h:56-94 | The members are loaded independently of one another; one that throws makes the whole load throw |
| Numerals.NumeralDenotes | sys/ThirdParty.win/include/log4z/log4z.h:705-802 | The minimal numeral reads back as its value and has no leading zero |
| Numerals.DigitsAreTabled | sys/ThirdParty.win/include/log4z/log4z.h:707-737 | The digits are those of the tables, upper case in base 16, lower case in the other bases |
| Numerals.PrintedTextDenotes | sys/ThirdParty.win/include/log4z/log4z.h:705-802 | The printed text reads back as the value and is as wide as asked for or as the numeral needs, whatever base from 2 to 16 and width |
| Numerals.NumeralFits | sys/ThirdParty.win/include/log4z/log4z.h:740-791 | No 64-bit value needs more than 64 digits, so the digit loop ends because the value is used up |
| LogStreams.PairsAreNumeral | sys/ThirdParty.win/include/log4z/log4z.h:751-782 | Two digits at a time from the tables, less one leading zero, is the minimal numeral |
| LogStreams.PairsFit | sys/ThirdParty.win/include/log4z/log4z.h:751-782 | The pairs of any value fit the local buffer |
| LogStreams.Log4zStream.PairLoop | sys/ThirdParty.win/include/log4z/log4z.h:753-761 | The loop for bases 10 and 16 ends because the value is used up, never because the buffer is, and leaves the digit pairs at the end of the buffer |
| LogStreams.Log4zStream.FillPairs | sys/ThirdParty.win/include/log4z/log4z.h:751-782 | Less one leading zero, the end of the buffer is the minimal numeral |
| LogStreams.Log4zStream.FillDigits | sys/ThirdParty.win/include/log4z/log4z.h:783-791 | The loop for the other bases fills the tail with the minimal numeral, inside its bounds |
| LogStreams.Log4zStream.Pad | sys/ThirdParty.win/include/log4z/log4z.h:793-797 | Zeros up to the width, the digits unmoved |
| LogStreams.Log4zStream.WriteULongLong | sys/ThirdParty.win/include/log4z/log4z.h:705-802 | With more than 64 bytes free the padded minimal numeral is appended, otherwise nothing |
| LogStreams.Log4zStream.WriteLongLong | sys/ThirdParty.win/include/log4z/log4z.h:694-703 | A minus sign for a negative value, then the numeral of its magnitude |
| LogStreams.Log4zStream.WriteString | sys/ThirdParty.win/include/log4z/log4z.h:905-919 | As much of the string as there is room for |
| LogStreams.Log4zStream.WriteChar | sys/ThirdParty.win/include/log4z/log4z.h:895-903 | The character, if more than one byte is free |
| Arenas.ClassesMeet | sys/ThirdParty.win/include/google/protobuf/arena_impl.h:229-245 | A block filed under a class is at least as large as any request served from that class |
| Arenas.ClassesAreExact | sys/ThirdParty.win/include/google/protobuf/arena_impl.h:229-245 | The class of a request is the least whose blocks suffice, the class of a returned block the greatest it fills |
| Arenas.NewTableIsLarger | sys/ThirdParty.win/include/google/protobuf/arena_impl.h:295-311 | A returned block that becomes the table holds all old heads, is strictly longer and covers its own class |
| Arenas.TakeFromGapKeepsInv | sys/ThirdParty.win/include/google/protobuf/arena_impl.h:272-279 | Cutting a block from the gap keeps all regions disjoint, aligned and inside the block, and all lists linked |
| Arenas.TakeCleanupKeepsInv | sys/ThirdParty.win/include/google/protobuf/arena_impl.h:345-355 | So does cutting a cleanup node from the other end |
| Arenas.TakeCachedKeepsInv | sys/ThirdParty.win/include/google/protobuf/arena_impl.h:236-244 | So does taking the head of a free list |
| Arenas.PutOnListKeepsInv | sys/ThirdParty.win/include/google/protobuf/arena_impl.h:316-319 | So does linking a returned block, whose first word becomes the link, into its list |
| Arenas.BecomeTableKeepsInv | sys/ThirdParty.win/include/google/protobuf/arena_impl.h:297-314 | So does turning a returned block into the free-list table |
| Arenas.WriteLiveKeepsInv | sys/ThirdParty.win/include/google/protobuf/arena_impl.h:229-355 | Whatever the program writes into a live allocation disturbs no list, no table and no cleanup node |
| Arenas.OwnersDoNotOverlap | sys/ThirdParty.win/include/google/protobuf/arena_impl.h:224-355 | Two regions with different owners share no word |
| Arenas.RegionsAreDisjoint | sys/ThirdParty.win/include/google/protobuf/arena_impl.h:224-355 | In every valid state gap, table, cached blocks, cleanup nodes and live allocations are pairwise disjoint and inside the block |
| Arenas.SerialArena.AllocateFromExisting | sys/ThirdParty.win/include/google/protobuf/arena_impl.h:272-279 | Serves the asked bytes from the gap, fresh and 8-aligned, disturbing nothing in use |
| Arenas.SerialArena.TryAllocateFromCachedBlock | sys/ThirdParty.win/include/google/protobuf/arena_impl.h:229-245 | With a cached block on the list for requests of this size, between the powers of two around it, the block last filed there; null iff there is none |
| Arenas.SerialArena.AllocateAligned | sys/ThirdParty.win/include/google/protobuf/arena_impl.h:255-269 | When an array asks and the list for its size has a block, the block last filed there; else the front of the gap; fresh either way; none exactly when the fallback would be called |
| Arenas.SerialArena.MaybeAllocateAligned | sys/ThirdParty.win/include/google/protobuf/arena_impl.h:327-333 | A fresh block exactly when the gap has room |
| Arenas.SerialArena.AllocateAlignedWithCleanup | sys/ThirdParty.win/include/google/protobuf/arena_impl.h:335-355 | The block returned starts where the gap started and the node where it now ends; both were gap before, the block is live and the node a cleanup node afterwards, and nothing in use is disturbed |
| Arenas.SerialArena.Allocate | sys/ThirdParty.win/include/google/protobuf/arena.h:793-815 | For any byte count and alignment, an address of that alignment inside a fresh block with room for the bytes, the block smaller than one alignment more; none only when the padded size does not fit |
| Arenas.SerialArena.AllocateWithDestructor | sys/ThirdParty.win/include/google/protobuf/arena.h:592-612 | The same with a fresh cleanup node that names the aligned address and its destructor |
| Arenas.AlignedFits | sys/ThirdParty.win/include/google/protobuf/arena.h:793-815 | The next aligned address and the bytes behind it lie inside every block of the padded size |
| Arenas.SerialArena.AddCleanup | sys/ThirdParty.win/include/google/protobuf/arena_impl.h:358-363 | One new cleanup node with the given contents, and no other change to anything in use |
| Arenas.SerialArena.ReturnArrayMemory | sys/ThirdParty.win/include/google/protobuf/arena_impl.h:282-323 | The returned block becomes the head of the list whose power of two it fills, or, with no such list, a table of one entry a word and at most 64; everything else in use stays as it was |
| Arenas.SerialArena.WriteLive | sys/ThirdParty.win/include/google/protobuf/arena_impl.h:229-355 | A client's write stays within its own allocation and keeps the arena valid |

## Left out

- UdmMessagePb.UDMMessage.ByteSizeLong: requires every string to be shorter than 2^32 bytes, beyond which the library's 32-bit size arithmetic truncates.
- UdmMessagePb.UDMMessage.SerializeToArray: requires the same, for the same reason.
- TopicListPb.TopicList.ByteSizeLong: requires every nested message to be shorter than 2^31 bytes, because sizes are cached as int.
- TopicListPb.TopicList.SerializeToArray: requires the same, for the same reason.
- TopicListPb.Node.ByteSizeLong: requires every string to be shorter than 2^32 bytes.
- Fanout.KeysIdentifyEndpoints: an endpoint is an IPv4 address and a port, printed in decimal; the library calls that print them and the byte order of the port are taken at their word.
- Frames.UdmMessage.Deserialize: requires a terminator in the received buffer, because the source's strtok reads on beyond a buffer without one.
- Frames.UdmMessage.Strtok: requires a terminator, for the same reason.
- Frames.UdmMessage.SerializeMembers: requires header and payload to be less than 2^32 bytes, because the source's sizes are 32-bit and wrap, and the header is then copied beyond the buffer.
- Frames.UdmMessage.SerializeAs: requires the same, for the same reason.
- Frames.UdmMessage.WriteFrame: requires the same, for the same reason.
- Bus.UDMSerBusiness.OnRequestAllItems: requires every node of the reply to be shorter than 2^31 bytes and its frame shorter than 2^32, where the source's sizes wrap; what the client shows is stated for a responder whose unknown records are ones a decode leaves behind.
- Frames.Transfer: requires a safe topic, records a decode leaves behind, and sizes that do not wrap; otherwise Frames.FrameDecodes says what is read.
- Bus.UDMSerBusiness.PublishThreadCycle: other threads act finitely often in one cycle, as notifiers could otherwise be added faster than they are called.
- Requests.RequestQueueIntf.HandleRequestQueueData: handlers may push, register handlers and clear, in any queue; a drain or a new queue from inside a handler is not part of this contract. The lemmas over runs cover drains inside drains.
- Requests.RequestQueueIntf.HandleRequestQueue: the same; takes a moved-from queue to be empty, as the standard containers leave it; the byte counts kept beside a queue are not modelled.
- Requests.RequestQueueIntf.HandleTopic: the same.
- Requests.RequestQueueIntf.HandleRequestQueues: the same.
- LogStreams.Log4zStream.WriteULongLong: requires a width of 0 to 64, because the source pads beyond its local buffer otherwise; a negative width becomes a huge unsigned one.
- LogStreams.Log4zStream.Pad: requires a width of 0 to 64, for the same reason.
- LogStreams.Log4zStream.WriteLongLong: requires a width of 0 to 64, for the same reason; takes the magnitude of the least 64-bit value to be 2^63, as two's complement hardware does; the negation is undefined in C++.
- LogStreams.LutDec: the two-digit tables are given by the digits they hold, not spelt out.
- Arenas.SerialArena.AllocateAligned: the fallback that obtains a new block is not visible in the source; the model answers None there, so every region lies in one block.
- Arenas.SerialArena.Allocate: an alignment above 8 is for sizes of whole words, which the arena asserts; the hook that records allocations is not modelled.
- Arenas.SerialArena.AllocateWithDestructor: the same.
- Arenas.SerialArena.ReturnArrayMemory: requires at least 16 bytes of a live allocation, which the source asserts on 64-bit platforms.
- Serializer.LoadFromObject: jsoncpp's conversions between scalar kinds are an arbitrary function of kind and value; reals are exact, without rounding.
- Fanout.UdpServerCtx.RecvMsg: requires a terminator in the received buffer, as strtok reads on beyond a buffer without one; an undefined decoding leaves the model's table alone.
- Fanout.UdpServerCtx.OnCommonMessage: requires a datagram of less than 2^32 bytes, where the source's sizes wrap; a send that fails is only logged.
- Delivery.SubscribersGetThePublications: says what is sent, not that the network delivers it.
- Datagrams.DatagramShows: requires a clean topic and a datagram of less than 2^32 bytes; behind other topics Datagrams.DatagramDecodes says what is read, and a residue may be crafted that the decoder takes for a header.
- Datagrams.DatagramRoundTripExactly: requires the same.
- Datagrams.UdmMsg.Deserialize: requires a terminator in the received buffer; an undefined outcome leaves the object alone, where the source may have set some members.
- RequestCodec.RequestRoundTripExactly: requires parameters, and their number, below 2^32.
- RequestCodec.RequestLayout: one parameter and less than 250 octets in all, so that every size is a single octet.
- RequestCodec.ShortRequestIsRefused: the source checks no sizes there and reads beyond the buffer; the model answers None.
- RequestQueue's own format, and the string form of UdmMsg's encoder, which nothing modelled here calls.
- Wire groups: a group start is refused, where the library would skip a well-formed group.
- UTF-8 validation, the nesting limit of the parser and zero-copy streams: library code.
- The paged query overload: its index never advances, so the code does not decide what paging means.
- Unsynchronised access in the bus and the subscriber table (lock map, notifier list, flags flushed without the items mutex, subscriptions during a send): each call is one atomic step.
- Timer order by deadline and the end of the worker after `stop`: the queue does not compare deadlines, and the flag is not checked again before waiting.
- Wakeups of the timer's worker: an iteration may happen at any moment.
- The registration callback `registerRequest`, `clearAllQueues`, logging, moving and copying of queues.
- The one-array form of `appendBytes` and assignment from a pointer: the same code as the forms modelled.
- JSON text, files, sockets, ZeroMQ, libuv, DLL loading, threads' start and end: input and output.
- Kernels, executives, factories, and the other back ends.

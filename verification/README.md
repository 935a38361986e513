# Verified models of contrail-controller

A Dafny model of the algorithmic core of contrail-controller: the bit set and index allocator of
`src/base`, the sFlow parser, the Kafka UVE aggregation, the stat walker, the Redis and generator
connection machinery of `src/analytics`, and the codecs around them. Code that updates objects in
place is modelled by classes and loops proved against specification functions; what the
repository relies on is then proved of those functions, for all inputs or over all runs.

The formats are those of section 5 of "sFlow Version 5" with the padding of section 4.10 of RFC 4506, the IPv4 header
of section 3.1 of RFC 791, the base64 alphabet of section 4 of RFC 4648, and the parameters of section 6.3 of RFC 5424
without its escapes.

`dafny verify dfyconfig.toml` checks everything.

| module | models |
|---|---|
| `Words`, `BitSets`, `NumberedText` | 64-bit words, `BitSet` as a set of naturals, its two texts |
| `IndexAllocators` | the round-robin allocator and its runs |
| `SFlow`, `SFlowWire`, `SFlowParsers` | packet headers, the datagram grammar with a reference parser, the cursor parser |
| `UveAggregators`, `KafkaRebalance`, `KafkaRuns` | delayed commits and the stale gate, rebalance, every run of both |
| `OrderedMaps`, `StatWalkers` | `std::map` and `std::multimap` as sorted entries, the walker and its walks |
| `RedisConnections`, `Generators` | connection state machines and everything reachable in them |
| `Dependencies` | intrusive back-references |
| `Base64`, `StructuredSyslog`, `SyslogBodies`, `BgpAsAService`, `UvePartitions` | codecs, key hashing and key splitting |
| `Options`, `Bytes` | shared types |

## Edge cases and disagreements

- BGP-as-a-service ports (`src/base/bgp_as_service_utils.cc:31-82`): the last port of a range does not
  survive encode and decode. `BgpAsAService.RoundTrip` gives the exact condition for every port and index, with all
  32-bit wrap-around, and `BgpAsAService.LastPort` the pair that comes back instead.
- Structured syslog (`src/analytics/structured_syslog_server.cc:46-57`): parameters added to `T [id ]` or to
  `T [id k="v" ]` come back with a space before the first key. `SyslogBodies.DecorateThenExtract` gives the exact
  condition for every body that the parser accepts: behind two spaces the parameters must end with a closing quote,
  behind one space there must be none at all. `SyslogBodies.LooseSpace` and `SyslogBodies.LooseExamples` show bodies
  that fail, `SyslogBodies.WrittenSurvives` that parameters written one space apart do not.
- The defer timer (`src/analytics/generator.cc:247-265` with `src/base/timer.cc:19-54`): a timer that has fired is not
  running, yet starting it does nothing until its task has ended. Back pressure between the handler and that end
  holds the state machine back with no timer to release it. `Generators.StuckExactly` says over every run when this is
  so, and `Generators.StuckRun` that it happens from every state with a running timer.
- `StatWalker::Pop` says that the last value read gets used (`src/analytics/stat_walker.cc:123-124`); the insertions
  keep the first. The model follows the code.
- `BuildComplement` and `BuildIntersection` empty their target first, so a target that is also an argument loses its
  members before they are read. The contracts say what comes out in that case as well.
- `find_next_clear(npos)` wraps around to position 0 (`src/base/bitset.cc:324-329`).
- The Kafka offset commit is called inside the arguments of a log line (`src/analytics/uve_aggregator.cc:54-58`), so
  whether it happens depends on the log level. It is a parameter of the model, and the safety results hold either way.
- Kafka offsets committed for a partition can go back: a replayed message that opens an epoch is committed although a
  later offset was committed before. `KafkaRuns.CommitsAscend` says that this happens at replays only, and
  `KafkaRuns.CommitGoesBack` that it happens.
- `FromString(ToString(b)) == b` always holds; the other order, printing what was read, gives the text back exactly
  when it has only `0` and `1` and does not end in `0` (`BitSets.BinaryReprint`).

## Model

| member | source | states |
|---|---|---|
| Words.NumBitsSet | src/base/bitset.cc:96-103 | Clearing the lowest set bit until nothing is left counts exactly the set bits. |
| Words.KernighanBits | src/base/bitset.cc:96-103 | `w & (w - 1)` has exactly the bits of `w` without the least one. |
| Words.FindFirstSet64 | src/base/bitset.cc:22-34 | One more than the least set bit, 0 exactly when there is none. |
| Words.FindLastSet32 | src/base/bitset.cc:45-72 | The masked shifts end at one more than the greatest set bit; 0 exactly for 0. |
| Words.FindLastSet64 | src/base/bitset.cc:79-91 | One more than the greatest set bit, 0 exactly when there is none. |
| Words.MaskBits | src/base/bitset.cc:125-153 | The mask of a position holds that bit only. |
| BitSets.CanonicalEqual | src/base/bitset.cc:369-377 | With non-zero last blocks, two block vectors are equal if and only if they hold the same members. |
| BitSets.CanonicalLength | src/base/bitset.cc:536-544 | With a non-zero last block, a subset never has more blocks, which justifies comparing sizes first. |
| BitSets.CanonicalEmpty | src/base/bitset.cc:172-181 | With a non-zero last block, no blocks means no members and conversely. |
| BitSets.SubsetBlocks | src/base/bitset.cc:536-544 | Inclusion is inclusion block by block. |
| BitSets.TrimKeeps | src/base/bitset.cc:209-226 | Dropping zero blocks from the end keeps the members and restores the canonical form. |
| BitSets.BitSet.constructor | src/base/bitset.h:17-59 | A new bit set is valid and empty. |
| BitSets.BitSet.SetBit | src/base/bitset.cc:125-131 | Adds one member, growing the vector when needed, and keeps the canonical form. |
| BitSets.BitSet.ResetBit | src/base/bitset.cc:136-143 | Removes one member, or none beyond the end, and compacts. |
| BitSets.BitSet.Test | src/base/bitset.cc:146-153 | Decides membership, also beyond the end. |
| BitSets.BitSet.Clear | src/base/bitset.cc:158-160 | Leaves no member. |
| BitSets.BitSet.None | src/base/bitset.cc:172-174 | Looking at the size alone decides emptiness. |
| BitSets.BitSet.Any | src/base/bitset.cc:179-181 | Looking at the size alone decides whether there is a member. |
| BitSets.BitSet.Count | src/base/bitset.cc:194-200 | Is the cardinality. |
| BitSets.BitSet.Compact | src/base/bitset.cc:209-226 | Makes any block vector canonical without changing its members. |
| BitSets.BitSet.FindFirst | src/base/bitset.cc:242-249 | The least member, npos exactly when there is none. |
| BitSets.BitSet.FindNext | src/base/bitset.cc:255-279 | The least member above a position, npos exactly when there is none. |
| BitSets.BitSet.FindLast | src/base/bitset.cc:288-298 | The greatest member, npos exactly when there is none. |
| BitSets.BitSet.FindFirstClear | src/base/bitset.cc:307-315 | The least position that is not a member. |
| BitSets.BitSet.FindNextClear | src/base/bitset.cc:324-349 | The least non-member above a position; 0 after npos. |
| BitSets.Enumerates | src/base/bitset.cc:242-279 | Iterating find_next visits exactly the members, ascending, each once. |
| BitSets.BitSet.Intersects | src/base/bitset.cc:354-361 | Decides whether the intersection has a member. |
| BitSets.BitSet.Equals | src/base/bitset.cc:369-377 | Block-wise comparison decides set equality. |
| BitSets.BitSet.Intersection | src/base/bitset.cc:389-394 | A new bit set with the common members; the arguments keep theirs. |
| BitSets.BitSet.Union | src/base/bitset.cc:399-422 | A new, canonical bit set with the members of both. |
| BitSets.BitSet.IntersectWith | src/base/bitset.cc:430-441 | In-place intersection, right also when both sides are the same object. |
| BitSets.BitSet.UnionWith | src/base/bitset.cc:449-457 | In-place union, right also when both sides are the same object. |
| BitSets.BitSet.Set | src/base/bitset.cc:462-465 | Adds all members of another bit set. |
| BitSets.BitSet.Reset | src/base/bitset.cc:470-477 | Removes all members of another bit set, right also for itself. |
| BitSets.BitSet.BuildComplement | src/base/bitset.cc:486-498 | The members of the left argument that the right one lacks; exact results when the target is an argument. |
| BitSets.BitSet.BuildIntersection | src/base/bitset.cc:509-531 | The common members, canonical without compaction; exact results when the target is an argument. |
| BitSets.BitSet.Contains | src/base/bitset.cc:536-544 | Sizes first and then blocks decides inclusion. |
| BitSets.BitSet.ToString | src/base/bitset.cc:551-561 | Character `i` is `1` exactly for members, up to the greatest. |
| BitSets.BitSet.FromString | src/base/bitset.cc:572-585 | Holds exactly the positions of `1`, whatever other characters there are. |
| BitSets.BinaryRoundTrip | src/base/bitset.cc:551-585 | A printed bit set reads back as itself, and has one text only. |
| BitSets.BinaryReprint | src/base/bitset.cc:551-585 | A text is what its own set prints if and only if it is binary and does not end in `0`. |
| BitSets.BinarySample | src/base/bitset.cc:551-585 | The text as it looks: `1011` for 0, 2 and 3. |
| BitSets.BitSet.ToNumberedString | src/base/bitset.cc:593-619 | The text decodes to the maximal runs of consecutive members. |
| BitSets.BitSet.NumberPosition | src/base/bitset.cc:600-613 | One turn of the loop extends the open run or closes it and opens the next. |
| NumberedText.DecodePrint | src/base/bitset.cc:593-619 | Any list of runs, printed, decodes to itself. |
| NumberedText.PrintSample | src/base/bitset.cc:587-619 | The text as it looks: `1-3,10-12`, and a dash for nothing. |
| NumberedText.RunsUnique | src/base/bitset.cc:593-619 | A set has only one list of maximal runs, so the text determines the set and the ranges are maximal. |
| IndexAllocators.IndexAllocator.constructor | src/base/index_allocator.h:16-17 | No index is held and there is no last index. |
| IndexAllocators.IndexAllocator.AllocIndex | src/base/index_allocator.cc:7-24 | Issues the free index nearest after the last one, going round; npos exactly when none is free. |
| IndexAllocators.IndexAllocator.FreeIndex | src/base/index_allocator.cc:26-29 | Frees one index and leaves the cursor where it is. |
| IndexAllocators.IndexAllocator.NoneIndexSet | src/base/index_allocator.cc:31-33 | Whether nothing is held. |
| IndexAllocators.IndexAllocator.AnyIndexSet | src/base/index_allocator.cc:35-37 | Whether something is held. |
| IndexAllocators.HeldIsOutstanding | src/base/index_allocator.cc:7-29 | After every run the bit set holds exactly the indices issued and not freed since. |
| IndexAllocators.Safety | src/base/index_allocator.cc:7-29 | In every run an allocation answers an index in range that is not outstanding, and fails exactly when all are. |
| IndexAllocators.Fairness | src/base/index_allocator.cc:7-24 | An index that is free is issued before the run makes more allocations than lie between the cursor and it. |
| IndexAllocators.Closer | src/base/index_allocator.cc:7-24 | Every allocation of another index brings the cursor strictly closer to a free one and never past it. |
| SFlow.DecodeEncodedEthernet | src/analytics/sflow_parser.cc:316-348 | An Ethernet header, tagged or not, decodes to its addresses, VLAN and type, and the size is where its body starts. |
| SFlow.DecodeEncodedIpv4 | src/analytics/sflow_parser.cc:350-369 | An IPv4 header with any options decodes to its fields at any offset, and the size is where its payload starts. |
| SFlow.TransportOf | src/analytics/sflow_parser.cc:371-428 | Every payload of every protocol is TCP, UDP, ICMP, one of them cut short, or of a protocol that is skipped. |
| SFlow.DecodeEncodedPorts | src/analytics/sflow_parser.cc:371-428 | Ports of TCP and UDP, the identifier of an ICMP echo and the type of other ICMP messages come back; no ports for the rest; failure exactly when the header is cut short. |
| SFlow.DecodeEncodedIp | src/analytics/sflow_parser.cc:350-428 | An IPv4 packet with any options and any payload gives its fields and ports wherever it starts, and counts as IP unless its transport header is cut short. |
| SFlow.DecodeEncodedPacket | src/analytics/sflow_parser.cc:240-314 | The whole decoded packet, for every payload, through Ethernet and as plain IPv4. |
| SFlow.DecodeOtherFrame | src/analytics/sflow_parser.cc:240-262 | A frame of another type, or with an IPv4 header cut short, gives its Ethernet fields only. |
| SFlow.IsIpExactly | src/analytics/sflow_parser.cc:240-428 | For every byte string: it counts as IP if and only if frame, tag, IPv4 header and, at the place the header itself gives, the transport header its protocol needs are all there; and as Ethernet if and only if frame and tag are. |
| SFlow.AssignedNumbers | src/analytics/sflow_parser.cc:240-428 | The protocol, frame and ICMP numbers and the header sizes. |
| SFlowWire.ParseRecordSound | src/analytics/sflow_parser.cc:175-219 | A parsed record is word for word what is there and fills its declared length, rounded up. |
| SFlowWire.Padded | src/analytics/sflow_parser.cc:430-443 | The least number of words that hold so many bytes. |
| SFlowWire.RecordBytes | src/analytics/sflow_parser.cc:175-219 | In bytes: behind its two words a parsed record fills the length it declares and less than four bytes more. |
| SFlowWire.RecordLayout | src/analytics/sflow_parser.cc:175-239 | A header record word by word, with its numbers. |
| SFlowWire.ParseSampleSound | src/analytics/sflow_parser.cc:137-221 | The same for a sample, with its fields and all its records. |
| SFlowWire.SampleBytes | src/analytics/sflow_parser.cc:56-111 | In bytes: behind its two words a parsed sample fills the length it declares and less than four bytes more. |
| SFlowWire.SampleLayouts | src/analytics/sflow_parser.cc:137-174 | The compact and the expanded sample word by word, with their numbers. |
| SFlowWire.HeaderLayouts | src/analytics/sflow_parser.cc:115-135 | The header word by word, with an IPv4 and an IPv6 agent. |
| SFlowWire.ParseWireSound | src/analytics/sflow_parser.cc:45-113 | A parsed datagram is valid and is word for word what the buffer starts with. |
| SFlowWire.ParseWireComplete | src/analytics/sflow_parser.cc:45-113 | Every valid datagram is parsed back, whatever follows it. |
| SFlowParsers.SFlowParser.ReadData32NoCheck | src/analytics/sflow_parser.cc:453-455 | Reads a word inside the buffer and moves one word. |
| SFlowParsers.SFlowParser.ReadData32 | src/analytics/sflow_parser.cc:457-463 | Fails exactly at the end, and then does not move. |
| SFlowParsers.SFlowParser.SkipBytes | src/analytics/sflow_parser.cc:440-451 | Moves by the padded length and fails exactly when that is past the end. |
| SFlowParsers.SFlowParser.ReadAddress | src/analytics/sflow_parser.cc:475-496 | Reads the words of an address, all of them or, without moving, none. |
| SFlowParsers.SFlowParser.ReadSFlowHeader | src/analytics/sflow_parser.cc:115-135 | Succeeds exactly when the reference parser does, with its header and cursor. |
| SFlowParsers.SFlowParser.ReadSFlowFlowHeader | src/analytics/sflow_parser.cc:223-314 | Succeeds exactly when the header fits the datagram, and gives the bytes and the decoded packet of the record. |
| SFlowParsers.SFlowParser.ReadSFlowFlowSample | src/analytics/sflow_parser.cc:137-221 | Succeeds exactly when fields and all declared records parse, and keeps the header records in order. |
| SFlowParsers.SFlowParser.ReadRecords | src/analytics/sflow_parser.cc:175-219 | The record loop refines the recursive parser of records for any declared count. |
| SFlowParsers.SFlowParser.ReadRecord | src/analytics/sflow_parser.cc:175-219 | One turn of it, with the check that contents and length agree. |
| SFlowParsers.SFlowParser.ReadFields | src/analytics/sflow_parser.cc:137-174 | The fixed fields in the compact and the expanded form. |
| SFlowParsers.SFlowParser.ReadSample | src/analytics/sflow_parser.cc:56-111 | One turn of the sample loop: a valid sample, or failure exactly when there is none. |
| SFlowParsers.SFlowParser.Parse | src/analytics/sflow_parser.cc:45-113 | Returns 0 exactly when the reference parser succeeds, with the view of its result; at most length/8 headers are read. |
| SFlowParsers.KeptOfRecord | src/analytics/sflow_parser.cc:223-314 | What is kept of a record, field by field, with its bytes and its decoded packet. |
| SFlowParsers.KeptOfSample | src/analytics/sflow_parser.cc:137-221 | What is kept of a sample, field by field. |
| SFlowParsers.KeptOfWire | src/analytics/sflow_parser.cc:45-135 | What is kept of a datagram, field by field. |
| SFlowParsers.Accepts | src/analytics/sflow_parser.cc:45-113 | A buffer is accepted if and only if it starts with a valid datagram of version 5. |
| SFlowParsers.ParseBytes | src/analytics/sflow_parser.cc:45-113 | A valid datagram as bytes is parsed back, with up to three stray bytes after it. |
| SFlowParsers.RoundTrip | src/analytics/sflow_parser.cc:45-113 | `parse(serialise(d)) == d` for every well-formed datagram. |
| UveAggregators.UVEAggregator.constructor | src/analytics/uve_aggregator.h:29-36 | Every partition starts as if cleared. |
| UveAggregators.Period | src/analytics/uve_aggregator.cc:43-46 | The whole hours in a monotonic time. |
| UveAggregators.UVEAggregator.Clear | src/analytics/uve_aggregator.cc:17-28 | Empties one partition and leaves the others as they were. |
| UveAggregators.UVEAggregator.Update | src/analytics/uve_aggregator.cc:30-81 | What changes in one partition, whether the message passes the gate, and which message is committed; no other partition changes. |
| KafkaRebalance.RebalanceCb.constructor | src/analytics/kafka_processor.cc:225-231 | No partition is tracked. |
| KafkaRebalance.RebalanceCb.Group | src/analytics/kafka_processor.cc:126-143 | The map built from the assignment holds, per topic, exactly the listed partitions. |
| KafkaRebalance.RebalanceCb.ClearLost | src/analytics/kafka_processor.cc:184-192 | Exactly the lost partitions are emptied, whatever the order. |
| KafkaRebalance.RebalanceCb.AssignTopic | src/analytics/kafka_processor.cc:171-203 | One topic takes over the new set and empties what it lost; no other topic changes. |
| KafkaRebalance.RebalanceCb.AssignAll | src/analytics/kafka_processor.cc:164-203 | The same for every topic, whatever the order. |
| KafkaRebalance.RebalanceCb.Rebalance | src/analytics/kafka_processor.cc:117-224 | Kept partitions are never emptied, lost ones always are; a revocation changes nothing. |
| KafkaRuns.SlotStep | src/analytics/kafka_processor.cc:164-224 | What any step does to any one partition. |
| KafkaRuns.StateIsHistory | src/analytics/uve_aggregator.cc:17-81 | In every reachable state a partition holds its last accepted offset, its epoch and that epoch's first message; untracked partitions hold nothing. |
| KafkaRuns.GateOrder | src/analytics/uve_aggregator.cc:67-80 | Between two clears the accepted offsets are some zeros and then strictly increasing. |
| KafkaRuns.GateExactly | src/analytics/uve_aggregator.cc:67-80 | In every run a message passes if and only if only zeros have passed since the last clear, or it is above all that have. |
| KafkaRuns.OpenerCovered | src/analytics/uve_aggregator.cc:46-80 | The held message, stale or not, is at most the last accepted offset. |
| KafkaRuns.CommitSafety | src/analytics/uve_aggregator.cc:46-65 | A commit happens on a change of epoch only, is of the message that opened the epoch before, and is covered by an accepted offset. |
| KafkaRuns.CommitDue | src/analytics/uve_aggregator.cc:46-65 | In every reachable state a commit is due exactly at a change of epoch, of that epoch's opener if there is one. |
| KafkaRuns.OpenersInOrder | src/analytics/uve_aggregator.cc:46-80 | No message that opened an epoch is above the last accepted offset, and one that passed the gate is not below any before it. |
| KafkaRuns.CommitsAscend | src/analytics/uve_aggregator.cc:46-65 | A commit is below an earlier one since the last clear only if its message was a stale replay. |
| KafkaRuns.CommitGoesBack | src/analytics/uve_aggregator.cc:46-80 | For any offsets with such a replay there is a run in which it is committed after the later offset. |
| KafkaRuns.PrefixRun | src/analytics/uve_aggregator.cc:30-81 | Every prefix of a run is a run, so what holds of last events holds of all. |
| OrderedMaps.InsertAscending | src/analytics/stat_walker.cc:58-93 | Inserting a key that is missing keeps the entries sorted and unique. |
| OrderedMaps.SameLookups | src/analytics/stat_walker.cc:58-132 | Sorted entries with the same lookups are the same entries. |
| OrderedMaps.LessIs | src/analytics/stat_walker.cc:38-129 | The order of the maps is that of `std::string`: a proper prefix, or smaller at the first difference. |
| StatWalkers.PathIsJoined | src/analytics/stat_walker.cc:17-34 | The record name is the dotted path if and only if the outermost name is not empty or is alone. |
| StatWalkers.FillStep | src/analytics/stat_walker.cc:58-93 | Adding one tag keeps first-level tags unique and every value the first one given. |
| StatWalkers.OneTag | src/analytics/stat_walker.cc:58-80 | A tag alone: without a prefix it stands for itself, with one it goes under the prefix if it has a value. |
| StatWalkers.FillAllMeets | src/analytics/stat_walker.cc:96-119 | After all tags, both levels hold exactly the first value given for each name. |
| StatWalkers.MeetsUnique | src/analytics/stat_walker.cc:58-93 | Only one multimap has unique first-level tags with those values at both levels. |
| StatWalkers.FlatSupplied | src/analytics/stat_walker.cc:122-129 | An attribute taken from tags comes from the least first-level tag that offers it, as its own value or a second-level one. |
| StatWalkers.RecordMeaning | src/analytics/stat_walker.cc:95-132 | A record has the path as name, and exactly the multimap of first values as tags; own attributes win over tags, and every other attribute comes from the least first-level tag that offers it. |
| StatWalkers.RecordTags | src/analytics/stat_walker.cc:101-119 | Name by name, at both levels: a record has the value of the top tags, or else of the outermost node that sets it, and nothing when none does. |
| StatWalkers.NodeNames | src/analytics/stat_walker.cc:36-54 | Every tag and attribute of a pushed node stands under the node's own path, in order. |
| StatWalkers.StatWalker.constructor | src/analytics/stat_walker.h:48-53 | An empty stack and nothing emitted. |
| StatWalkers.StatWalker.PathName | src/analytics/stat_walker.cc:17-25 | The loop over the stack computes the path. |
| StatWalkers.StatWalker.Push | src/analytics/stat_walker.cc:12-56 | Puts one node on the stack with tags and attributes under their full names. |
| StatWalkers.StatWalker.QualifyAll | src/analytics/stat_walker.cc:38-54 | Insertion one by one gives every entry, in order, under its full name. |
| StatWalkers.StatWalker.FillFrom | src/analytics/stat_walker.cc:101-119 | The loop over tags fills them in order. |
| StatWalkers.StatWalker.FlatInto | src/analytics/stat_walker.cc:122-129 | The final tags of both levels become attributes where none exists yet. |
| StatWalkers.StatWalker.Pop | src/analytics/stat_walker.cc:95-132 | Emits exactly one record of the innermost node and takes that node off. |
| StatWalkers.Walk | src/analytics/ruleeng.cc:415-475 | A walk over any tree emits its records in post-order, skips elements with bad tags, and leaves the stack as it was. |
| StatWalkers.RecordCount | src/analytics/ruleeng.cc:415-475 | One record per node that is walked. |
| StatWalkers.ExecuteForest | src/analytics/ruleeng.cc:415-475 | The calls of a forest, followed by any others, emit the forest's records and then theirs. |
| StatWalkers.WellNestedWalk | src/analytics/stat_walker.cc:134-136 | Every well-nested sequence of calls is the walk of some forest and ends with the stack it began with. |
| RedisConnections.Callbacks.constructor | src/analytics/redis_connection.cc:128-147 | No context is registered. |
| RedisConnections.Callbacks.TakeConnect | src/analytics/redis_connection.cc:128-147 | A connect callback is taken once and the disconnect callback stays. |
| RedisConnections.Callbacks.TakeDisconnect | src/analytics/redis_connection.cc:166-187 | A disconnect callback is taken once; an unknown context changes nothing. |
| RedisConnections.RedisAsyncConnection.constructor | src/analytics/redis_connection.cc:23-43 | No context, nothing waiting, no calls. |
| RedisConnections.RedisAsyncConnection.Connect | src/analytics/redis_connection.cc:189-223 | A context is registered, or one timer waits after an error. |
| RedisConnections.RedisAsyncConnection.ConnectCallbackProcess | src/analytics/redis_connection.cc:88-114 | Connected, or no context, unregistered and one timer waiting. |
| RedisConnections.RedisAsyncConnection.DisconnectCallbackProcess | src/analytics/redis_connection.cc:149-164 | No context, unregistered, and one reconnect posted when the client has a callback. |
| RedisConnections.RedisAsyncConnection.Command | src/analytics/redis_connection.cc:284-319 | Succeeds only when connected, and exactly one counter moves. |
| RedisConnections.InitialGood | src/analytics/redis_connection.cc:23-43 | New connections meet the invariant. |
| RedisConnections.CauseTaken | src/analytics/redis_connection.cc:69-86 | Whoever attempts a connect has no context and nothing else waiting. |
| RedisConnections.ApplyGood | src/analytics/redis_connection.cc:69-223 | Every enabled event of any connection keeps the invariant and no assert fires. |
| RedisConnections.StepLeaves | src/analytics/redis_connection.cc:69-223 | How each event leaves its connection: which of context, state, timer and posted reconnect it has then; and that other connections do not change. |
| RedisConnections.CountersTally | src/analytics/redis_connection.cc:284-319 | Over every run each counter grew by its own commands: accepted while connected, refused while connected, issued while not connected. |
| RedisConnections.Reachable | src/analytics/OpServerProxy.cc:290-316 | Over every run: no assert fires, a started connection has a live registered context or exactly one reconnect waiting, connected implies live, and commands issued equal the three counters together. |
| Generators.DeferTimeKept | src/analytics/generator.cc:219-245 | The defer time stays in the initial time doubled at most six times, or the maximum. |
| Generators.Deferral | src/analytics/generator.cc:219-245 | What back pressure gets at each of the eight levels: 300 ms the first time, then one level up, the same or the lowest, by the time since expiry. |
| Generators.BackoffLevel | src/analytics/generator.cc:219-245 | For every sequence of gaps the deferral is the one of the level they lead to. |
| Generators.DeferAntitone | src/analytics/generator.cc:228-244 | The later back pressure comes after the timer expired, the shorter the deferral. |
| Generators.SustainedPressure | src/analytics/generator.cc:228-244 | Back pressure that keeps coming doubles the deferral every time, from 300 ms up to 30000 ms. |
| Generators.SandeshGenerator.constructor | src/analytics/generator.cc:82-110 | Bound to its session, connected once. |
| Generators.SandeshGenerator.ConnectSession | src/analytics/generator.cc:317-327 | Session, state machine and timer appear together and connects goes up. |
| Generators.SandeshGenerator.DisconnectSession | src/analytics/generator.cc:139-166 | They vanish together for the bound session and nothing changes for another. |
| Generators.SandeshGenerator.ProcessRulesCb | src/analytics/generator.cc:247-265 | Back pressure holds the state machine unless the timer is running, and starts a timer that is idle. |
| Generators.SandeshGenerator.DeferTimerExpired | src/analytics/generator.cc:168-175 | Records the time and releases the state machine; the timer stays fired. |
| Generators.ApplyGood | src/analytics/generator.cc:139-265 | Every enabled event keeps the invariant and no assert fires. |
| Generators.DisconnectAsserts | src/analytics/generator.cc:193-195 | In every reachable state a disconnect of a bound session hits the assert on stopping the timer if and only if the timer has fired. |
| Generators.Reachable | src/analytics/generator.cc:82-327 | Over every run: session, state machine and timer together, connects minus resets 1 or 0 accordingly, held back whenever a handler is to come, and the defer time in its set. |
| Generators.CountersTally | src/analytics/generator.cc:82-166 | Over every run connects and resets are the times the generator was bound and dropped. |
| Generators.PressedExactly | src/analytics/generator.cc:247-265 | Back pressure is ignored while the timer runs; otherwise it sets the time of the next level and starts an idle timer. |
| Generators.PressedAfterExpiry | src/analytics/generator.cc:168-265 | Back pressure after an expiry is timed from that expiry. |
| Generators.PressedAfterReconnect | src/analytics/generator.cc:139-327 | After a disconnect and a connect the deferrals start over at 300 ms. |
| Generators.OtherSession | src/analytics/generator.cc:162-165 | A disconnect of another session changes nothing. |
| Generators.StuckStep | src/base/timer.cc:19-54 | Which single steps leave a state machine held back with no handler to come, and which end that. |
| Generators.StuckExactly | src/analytics/generator.cc:247-265 | Over every run: a state machine is so held back if and only if back pressure came between handler and end of the timer's task, and neither later back pressure nor a disconnect has resumed it. |
| Generators.StuckRun | src/base/timer.cc:108-117 | From every state with a running timer there is such a run. |
| Generators.SummaryIsConnected | src/analytics/collector.cc:366-394 | Over every run the summary lists exactly the generators some session is bound to. |
| Generators.Collector.constructor | src/analytics/collector.cc:61-76 | No generators; the invariant holds. |
| Generators.Collector.Bind | src/analytics/collector.cc:216-240 | Creates or reconnects the generator, or leaves everything when it has a session. |
| Generators.Collector.ReceiveSandeshCtrlMsg | src/analytics/collector.cc:213-273 | Refines the step of the state machine, with success exactly when the session gets bound. |
| Generators.Collector.DisconnectSession | src/analytics/collector.cc:275-287 | Refines the step of the state machine. |
| Generators.Collector.GetGeneratorSummaryInfo | src/analytics/collector.cc:366-394 | Lists the generators with more connects than resets, each once. |
| Dependencies.Object.Add | src/base/dependency.h:98-100 | The node goes to the end of the list. |
| Dependencies.Object.Remove | src/base/dependency.h:102-104 | Exactly that node leaves the list. |
| Dependencies.Ref.constructor | src/base/dependency.h:19-24 | A new reference keeps every pointer and list linked both ways, and changes them as the operation says. |
| Dependencies.Ref.Reset | src/base/dependency.h:32-40 | So does redirecting one, also to the object it already points to. |
| Dependencies.Ref.Link | src/base/dependency.h:36-39 | The second half of it. |
| Dependencies.Ref.Clear | src/base/dependency.h:42-47 | So does clearing one. |
| Dependencies.Ref.Destroy | src/base/dependency.h:26-30 | So does destroying one, and no list holds it then. |
| Dependencies.ClearList | src/base/dependency.h:106-111 | Terminates with an empty list, nulls every reference it held, and touches no other. |
| Dependencies.RecordedStep | src/base/dependency.h:19-111 | After every method all lists and pointers are what the operations so far, with its own added, give. |
| Dependencies.RecordedNew | src/base/dependency.h:19-24 | So is a reference just constructed. |
| Dependencies.ListIsHistory | src/base/dependency.h:19-47 | After any operations a reference is in an object's list exactly when it points there, once, in the order it came to. |
| Base64.EncodeBytes | lib/hiredis/base64.cpp:41-82 | The buffered loop computes the encoding by groups of three. |
| Base64.EncodeTail | lib/hiredis/base64.cpp:61-78 | The partial group, filled up and padded in place, is the encoding of its bytes. |
| Base64.DecodeText | lib/hiredis/base64.cpp:84-123 | The buffered loop computes the decoding by groups of four, stopping at the first character outside the alphabet. |
| Base64.DecodeTail | lib/hiredis/base64.cpp:108-120 | The partial group, completed in place, gives the bytes that do not depend on the completion. |
| Base64.EncodedLength | lib/hiredis/base64.cpp:41-82 | Four characters for every three bytes begun. |
| Base64.EncodedShape | lib/hiredis/base64.cpp:41-82 | Letters of the alphabet, and at the end one `=` for every byte missing in the last group. |
| Base64.Alphabet | lib/hiredis/base64.cpp:31-35 | The alphabet, written out. |
| Base64.AlphabetOnly | lib/hiredis/base64.cpp:31-39 | Its characters and no others have a position in it. |
| Base64.QuadNumber | lib/hiredis/base64.cpp:48-53 | Four positions are the digits to the base 64 of the number whose digits to the base 256 are the bytes. |
| Base64.TripleNumber | lib/hiredis/base64.cpp:94-100 | And back. |
| Base64.DecodedLength | lib/hiredis/base64.cpp:84-123 | Decoding looks at the leading letters only, and gives three bytes for four of them and one less than are left over. |
| Base64.GroupPrefix | lib/hiredis/base64.cpp:104-120 | The bytes emitted of a partial group do not depend on what fills it up. |
| Base64.GroupRoundTrip | lib/hiredis/base64.cpp:48-58 | A full group stays in the alphabet and decodes to its bytes. |
| Base64.RoundTrip | lib/hiredis/base64.cpp:41-123 | Decoding an encoding gives the bytes back, for every byte string. |
| Base64.Injective | lib/hiredis/base64.cpp:41-82 | Different bytes have different encodings. |
| StructuredSyslog.DecorateMsg | src/analytics/structured_syslog_server.cc:46-57 | Inserts a parameter before the first bracket from a position on; nothing without a bracket or a message. |
| StructuredSyslog.ParseStructuredPart | src/analytics/structured_syslog_server.cc:59-87 | The loop stores and repeats exactly the pairs of the text, and fails exactly on a missing quote. |
| StructuredSyslog.ReadParams | src/analytics/structured_syslog_server.cc:59-87 | Parameters separated by spaces are read back in order. |
| StructuredSyslog.DecoratedMessage | src/analytics/structured_syslog_server.cc:46-57 | Repeated decoration puts the parameters before the bracket in order. |
| StructuredSyslog.UndecoratedMessage | src/analytics/structured_syslog_server.cc:50-53 | Without a closing bracket nothing is added. |
| StructuredSyslog.ReadMore | src/analytics/structured_syslog_server.cc:63-85 | Text behind any text that is read well is read from where the reader stopped. |
| StructuredSyslog.ReadDecorated | src/analytics/structured_syslog_server.cc:59-87 | Added parameters behind any text that is read well come back as they were if and only if none are added or the text ends with the closing quote of its last parameter; otherwise the first key takes along what was not read. |
| StructuredSyslog.ClosedParams | src/analytics/structured_syslog_server.cc:59-87 | Parameters written one space apart end so. |
| SyslogBodies.ExtractIs | src/analytics/structured_syslog_server.cc:120-166 | A body with two spaces before its first closing bracket is cut into tag, hardware and parameters there. |
| SyslogBodies.CutMeaning | src/analytics/structured_syslog_server.cc:130-166 | The body is tag, space, hardware behind one character, space, parameters up to the next closing bracket, and the rest. |
| SyslogBodies.CutExactly | src/analytics/structured_syslog_server.cc:124-158 | A body is cut if and only if it has an opening bracket with a closing one behind it, and two spaces. |
| SyslogBodies.RereadIs | src/analytics/structured_syslog_server.cc:46-57 | In a decorated message the parameters stand before the first closing bracket of the body, which still has its element. |
| SyslogBodies.TwoSpaces | src/analytics/structured_syslog_server.cc:46-166 | Two spaces before the bracket: the tag stays and the parameters come back as behind the text before them. |
| SyslogBodies.NoHardwareSpace | src/analytics/structured_syslog_server.cc:46-166 | One space: the tag stays and exactly the added parameters come back, which is right if and only if there were no others. |
| SyslogBodies.NoTagSpace | src/analytics/structured_syslog_server.cc:134-139 | No space: the added text ends the tag, which changes. |
| SyslogBodies.DecorateThenExtract | src/analytics/structured_syslog_server.cc:46-166 | For every body that is cut and read well: decorated, cut and read again it gives its tag and then old and added pairs in order, if and only if none are added or the body is ready, a condition on its text. |
| SyslogBodies.WrittenBody | src/analytics/structured_syslog_server.cc:120-166 | A body as devices write it is cut as written, and is ready if and only if its parameters end with a closing quote. |
| SyslogBodies.WrittenSurvives | src/analytics/structured_syslog_server.cc:46-166 | Such a body with parameters one space apart, at least one, survives any decoration. |
| SyslogBodies.LooseSpace | src/analytics/structured_syslog_server.cc:46-166 | With no parameters, or with a space after the last, it survives none. |
| SyslogBodies.LooseExamples | src/analytics/structured_syslog_server.cc:46-166 | `T [id ]` and `T [id k="v" ]` are such bodies. |
| SyslogBodies.BracketInHeader | src/analytics/structured_syslog_server.cc:46-57 | A header with a closing bracket takes the parameters instead of the body. |
| StructuredSyslog.StoredFirst | src/analytics/structured_syslog_server.cc:74-83 | The first pair of a key wins, as a number for integer fields and as text for others, and a key already stored wins over all. |
| StructuredSyslog.AtolIs | src/analytics/structured_syslog_server.cc:74-79 | Spaces, a sign, digits and a rest, as every text can be read, give the signed value of the digits. |
| StructuredSyslog.AtolDecimal | src/analytics/structured_syslog_server.cc:74-79 | A printed number comes back. |
| StructuredSyslog.SpacesAre | src/analytics/structured_syslog_server.cc:74-79 | Which characters are skipped. |
| BgpAsAService.RoundTrip | src/base/bgp_as_service_utils.cc:31-82 | For every port and index: decode gives both back if and only if, for index 0, the port is in the range or just before a range of one port; otherwise the index fits 32 bits, the port is in the range shifted down by one, and the derived port is past the range and does not wrap into it. |
| BgpAsAService.EncodeIs | src/base/bgp_as_service_utils.cc:63-82 | The derived port is the port and the index times the size of the range, in 32 bits. |
| BgpAsAService.Unconfigured | src/base/bgp_as_service_utils.cc:38-40 | Without a configured range ports are taken as they are, both ways. |
| BgpAsAService.LastPort | src/base/bgp_as_service_utils.cc:31-82 | The last port of the range comes back as the port before the range, one index up. |
| BgpAsAService.Injective | src/base/bgp_as_service_utils.cc:63-82 | No two ports and indices of a range share a derived port below 2^32. |
| UvePartitions.ClassesTile | src/analytics/viz_collector.h:97-139 | From 15 partitions on, every partition is in exactly one class and no class is empty. |
| UvePartitions.ClassLayout | src/analytics/viz_collector.h:97-139 | Where each class starts and how large it is; below 15 partitions every class has them all. |
| UvePartitions.DjbHash | src/analytics/OpServerProxy.cc:53-58 | The shift-and-add loop computes the hash in 32 bits. |
| UvePartitions.DjbIs | src/analytics/OpServerProxy.cc:53-58 | The hash is 5381 * 33^n and the sum of the characters times powers of 33, in 32 bits. |
| UvePartitions.TopicExists | src/analytics/OpServerProxy.cc:521-532 | The topic of any key exists and lies in its table's class. |
| UvePartitions.TopicIs | src/analytics/OpServerProxy.cc:611-623 | The topic is the class of the table offset by that polynomial of `table:rest`. |
| UvePartitions.ControlTables | src/analytics/viz.sandesh:516-522 | The tables of control nodes. |
| UvePartitions.PhysicalTables | src/analytics/viz.sandesh:523-525 | The tables of physical nodes. |
| UvePartitions.InstanceTables | src/analytics/viz.sandesh:526-530 | The tables of machines and interfaces. |
| UvePartitions.TakeApart | src/analytics/OpServerProxy.cc:686-697 | Splitting and rejoining loses nothing: table, colon and rest are the key, and the table has no colon. |
| UvePartitions.DeleteMatchesUpdate | src/analytics/OpServerProxy.cc:611-702 | A deleted UVE gets the table, rest and topic of its update; the table is recovered if and only if it has no colon. |

## Left out

- Words: unsigned 64-bit words are bounded naturals with digit-wise operations, not bit vectors; the `ffs` of the C library is a function.
- BitSets.BitSet.SetBit: positions stop at 64 * (2^58 - 1), so that a size in bits stays below npos; no vector can be that long.
- BitSets.BitSet.FromString: texts stop at the same length.
- IndexAllocators.IndexAllocator.constructor: the greatest index stops at the same position.
- SFlow: the TCP flags of a packet are not kept; the type of service is what `ntohs` makes of one byte on a little-endian machine, and the struct sizes are those of such a platform.
- SFlowParsers.RoundTrip: well-formed data has flow samples and header records only, as the collector keeps nothing of the other kinds; the reference parser covers all kinds.
- Base64.DecodeText: texts stop below 2^31 characters, where the source's signed counter would overflow.
- UveAggregators.UVEAggregator.Update: the XML of an accepted message and the UVE cache it goes to are not modelled; offsets are unsigned and unbounded.
- KafkaRebalance.RebalanceCb.Rebalance: the assign and unassign calls to the consumer appear in `KafkaRuns` only, as the set of granted partitions; the tracked topics are visited in any order.
- KafkaRuns: the consumer delivers only messages of partitions it was assigned, and assignments list known topics and partitions.
- StatWalkers.Walk: the tree stands for the XML after its tags annotations were resolved; that resolution and the visitors are not modelled, and neither are timestamps and the table name.
- RedisConnections: hiredis calls the connect callback once per context, and the disconnect callback only after a successful one; a destroyed connection, SSL, authentication and replies are not modelled.
- Generators.Collector.ReceiveSandeshCtrlMsg: comes on a session that is not bound yet; the checks of message type, instance id, node type and Redis state before it, and the close queued on a mismatch, are not modelled.
- Generators.SandeshGenerator.ProcessRulesCb: the clock is a parameter that does not run backwards, as the source asserts; counters do not wrap.
- StructuredSyslog.ParseStructuredPart: the conversion of integer fields does not overflow.
- SyslogBodies.ExtractIs: the configuration looked up by the tag, and the syslog header before the body, are not modelled.
- BgpAsAService.RoundTrip: the range has a start that is not 0 and not above its end; for other ranges the source divides by a range that may be 0.
- UvePartitions.TakeApart: the source indexes the second piece without a check, so a key without a colon is excluded.
- Generators.StuckExactly: the database queue watermarks also set the dequeue flag, and a timer that ends in its error handler runs no expiry handler; neither is an event of the model, so what is said of held-back state machines is about back pressure alone.
- Generators.ApplyGood: no disconnect comes while the timer's task runs, as both belong to the task of the state machine; a fired timer cannot be cancelled, which the source asserts.
- Threads and mutexes: every section under a lock is one step.
- Logging, tracing, UVE sending and the order of object destruction.
- The Cassandra layer (`db_handler.cc`, `vizd_table_desc.cc`), option parsing, process start-up, introspection and the Python API client: plumbing that would only add easy members.
- The Boost Spirit grammars, TCP framing of syslog, regular expressions, grok and protobuf reflection: their meaning is in other libraries.
- The Redis Lua scripts, librdkafka and hiredis themselves.

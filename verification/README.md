# A verified model of SimpleIoT's replicated store, its codec, and its serial protocols

SimpleIoT is a graph store that is replicated between systems: points, of which the last write
wins, sit on nodes and edges; an XOR hash on every edge sums up what lies below it; and a sync
client compares hashes and exchanges points. Beside it the repository has a codec between Go
structs and points, a Modbus stack, a COBS framing layer, and smaller tools. This project models
the parts that carry an argument and proves what they are for. `dafny verify dfyconfig.toml`
checks all of it. Automatic induction is switched off on every lemma, so each induction is
written out.

Where the code does less than its comments say, the model follows the code, and the lemma states
exactly when the promise is kept.

## Layout

| files | what they model |
|---|---|
| `Points`, `Hashes`, `HashIndex`, `Store`, `Repair` | points and their merge, the hash of an edge, its incremental update on a graph with diamonds, the writes of the store as a class over its tables, and the repair pass |
| `SyncPoints`, `SyncTree`, `SyncRound`, `SyncConvergence`, `SyncDigest`, `SyncRuns` | the exchange of one node's points, one round of `syncNode` over a tree, any number of rounds, the hash by exclusive or that the rounds compare and when it can be relied on, and runs of two replicas with writes, forwards, losses and comparisons |
| `Decimal`, `Fields`, `Encoding`, `WireForm`, `Encoder`, `Decoding`, `Capacity`, `Decoder` | field types and values in place of reflection; what encoding, comparing and decoding give, told point by point, and the loops that compute it, with lists that grow in place |
| `Patches`, `FieldLaws`, `FieldPatches`, `MapChanges`, `Codec`, `CodecLimits` | the laws of the codec: first for points with different keys, then for a field, for maps with any keys, then for a struct; which struct types lose changes, and inputs for which it fails |
| `Words`, `Crc`, `Registers`, `Pdu`, `Requests`, `Transport` | Modbus down to the bits, and what requests and responses mean told from their bytes: MODBUS over Serial Line V1.02 section 6.2.2, MODBUS Application Protocol V1.1b3 sections 6.1 to 6.6, 6.11, 6.12 and 7, MODBUS Messaging on TCP/IP V1.0b section 3.1.3 |
| `Cobs`, `CobsStream`, `CobsRuns` | the in-place COBS decoder against the encoding of Cheshire and Baker, framing of a stream of device reads, and payload after payload out of it |
| `Rename`, `Schedule` | new ids for an imported tree; schedule windows |

A method with a loop is proved against a function of its inputs or its old state; what the
program promises is then proved about those functions.

## Model

| member | source | states |
|---|---|---|
| Points.PutAllKeepsNewest | store/sqlite.go:475-505 | the merged table has exactly the identities offered, and for each an offered point that no offered point is newer than |
| Points.PutAllKeepsLast | store/sqlite.go:475-505 | of the newest points offered for an identity the last is held, and one that was there gives way to a point that is as new |
| Points.MergeIgnoresOrder | store/sqlite.go:475-505 | with times that tell points apart, the result of merging does not depend on order or repetition |
| Points.Collapse | data/point.go:377-401 | the result holds each value of the map of joined keys once, in any order |
| Points.CollapseKeepsIdsIff | data/point.go:377-401 | no identity is lost exactly when no two identities of the batch run together as type and key joined |
| Points.CollapseThenMerge | data/point.go:377-401 | merging what Collapse leaves, in any order, equals merging the batch point by point |
| Points.CollapseKeepsLatest | data/point.go:377-401 | for every identity the latest point of the batch survives |
| HashIndex.CalcHashOf | data/node.go:236-251 | the loops compute the exclusive or of node points, edge points and child hashes |
| HashIndex.PathsByLastEdge | store/sqlite.go:843-864 | on any acyclic graph, counting upward paths by their last edge gives the parity that counting by the first edge gives |
| HashIndex.OwnEdgesOnce | store/sqlite.go:843-864 | the paths from a node that end with an edge out of it are odd in number: just that edge |
| HashIndex.UpdateHashHelper | store/sqlite.go:843-864 | every cached hash takes the update once for every upward path through its edge, diamonds included |
| HashIndex.UpdateHash | store/sqlite.go:815-841 | the table afterwards is the one with the update applied by path parity |
| HashIndex.ChildHashUpdated | store/sqlite.go:815-864 | the sum of the child hashes of any node moves by the parity of the paths that reach it |
| HashIndex.UpdateElsewhere | store/sqlite.go:815-864 | an edge that is not the node's own is correct after an update exactly if it was before |
| HashIndex.UpdateAtNode | store/sqlite.go:815-864 | the node's own edges take the change and their child hashes do not move |
| Store.MergeBatch | store/sqlite.go:475-505 | the loop over a batch computes the rows and the hash change that the functions define |
| Store.BatchHashIsChange | store/sqlite.go:475-505 | the change worked out row by row is the change of the hash of all rows |
| Store.BatchIsMerge | store/sqlite.go:421-505 | a batch leaves for every identity the latest of its row and the points of the batch |
| Store.OneByOneMerges | store/sqlite.go:475-505 | the points written as batches of their own leave the latest for every identity, and their hash changes sum to the change of the hash of all rows |
| Store.SameRowsSameHash | data/node.go:236-251 | tables with the same points have the same hash whatever their order |
| Store.HashReads | data/point.go:62-81 | two points count alike in every hash exactly if both tell a node type or neither does and type, key, time, value and text are the same |
| Store.CollapsedBatchIsOneByOne | store/sqlite.go:421-505 | Collapse followed by the store merge gives the points and the hash change of merging one by one |
| Store.BatchHashIsOff | store/sqlite.go:421-505 | for every batch, by how much the change worked out row by row misses the change of the hash of all rows: by every replaced point that the program did not back out |
| Store.HashRightIff | store/sqlite.go:421-505 | for batches with at most two points for a row, as Collapse leaves them, the change comes out right for every checksum of time, type, key, text and value exactly if no point of the batch that replaced a row, and differs from it in these, is replaced by a later one |
| Store.CollapsedAtMostTwo | data/point.go:377-401 | Collapse leaves at most two points that stand for one row |
| Store.NodeWriteIff | store/sqlite.go:421-559 | a batch for a node keeps every hash of an acyclic graph correct exactly if its change is worked out right or no edge leads to the node |
| Store.NodeWriteKeepsHashes | store/sqlite.go:421-559 | a batch for a node whose points have rows of their own, or of which none is lost, keeps every hash of an acyclic graph correct |
| Store.BlankKeyBreaksHash | store/sqlite.go:421-505 | an instance: a blank key and "0" in one batch pass Collapse as two, and break the hash for some checksum exactly if both update an existing row that the first differs from in what the checksum reads |
| Store.DbSqlite.NodePoints | store/sqlite.go:421-559 | the new tables in full; a row that was there is replaced by the last point of the batch that is not older, every other point gets a row of its own, points without a time the current one; correct hashes stay correct exactly if the change is worked out right or no edge leads to the node |
| Store.NodeRowsWritten | store/sqlite.go:471-505 | the rows after a batch: which point of it replaces a row, which stay, and one new row for each point that had none |
| Store.EdgeRowsWritten | store/sqlite.go:650-688 | the same for an edge, without the points that tell the node type |
| Store.WrittenIsNewest | store/sqlite.go:475-505 | every point of a batch has a row afterwards, which is at least as new if no other point of the batch goes there |
| Store.NodeTypeIs | store/sqlite.go:650-658 | the type of a new edge is the text of the last node type point of the batch, and none without one |
| Store.PassedUpIff | store/sqlite.go:652-688 | for an edge whose hash is off in a table that is right otherwise, passing a change up from its node makes the table right exactly if the change is what the edge is off by and is zero or the node has one parent |
| Store.EdgeWriteIff | store/sqlite.go:652-688 | writing any batch to an existing edge keeps every hash correct exactly if its hash change is worked out right and is zero or the node has one parent |
| Store.NewEdgeIff | store/sqlite.go:730-805 | a new edge, with any batch, leaves every hash correct exactly if the hashes of the node's children cancel and, unless the new hash is zero, no other parent exists |
| Store.DbSqlite.EdgePoints | store/sqlite.go:561-813 | each refusal and its exact cause; every point but a node type is written, to the edge that there is or to one more with the two ends and the type told, and all other edges keep all but their hashes; for existing and new edges exactly when correct hashes stay correct, whatever the batch |
| Repair.Verify | store/sqlite.go:289-327 | the walk writes to every edge it meets the hash computed from what was read before, and to no other |
| Repair.VerifyNodeHashes | store/sqlite.go:261-341 | without fix nothing changes; with it the edges met from the root get recomputed hashes, and all others keep theirs |
| Repair.MetIsClosed | store/sqlite.go:288-327 | with an edge the walk meets all edges below it |
| Repair.OrphansDoNotMatter | store/sqlite.go:261-341 | over any number of passes the edges met get the hashes that passes over all edges would give them |
| Repair.LowSettles | store/sqlite.go:261-341 | from the k-th pass on an edge with fewer than k levels below stays put |
| Repair.RepairConverges | store/sqlite.go:261-341 | after k passes every edge with fewer than k levels below is correct, whatever the hashes were; height plus one passes repair all |
| Repair.FixedIffConsistent | store/sqlite.go:261-341 | a pass changes nothing exactly if every hash is correct |
| Repair.OnePassIff | store/sqlite.go:261-341 | one pass corrects an edge exactly if the errors in the stored hashes of its children cancel before the pass |
| SyncPoints.Exchange | client/sync.go:690-732 | exactly the points are sent that the other side lacks or has older |
| SyncPoints.SentIsTaken | client/sync.go:690-732 | merging what is sent gives the per-identity newest of both sides |
| SyncRound.SyncClient.SendNodesRemote | client/sync.go:499-524 | a subtree that the other side lacks arrives there whole |
| SyncRound.SyncClient.SendNodesLocal | client/sync.go:529-550 | one node arrives, since the children are read on the receiving side |
| SyncRound.SyncClient.SyncNode | client/sync.go:552-839 | one round gives on the whole subtree the replicas that the node-by-node definition gives, for any hash of subtrees that does not collide between the two replicas the round begins with; at the root it leaves the edge points of either side alone |
| SyncRound.SyncClient.FetchMissing | client/sync.go:781-836 | of the missing subtrees exactly the top nodes arrive; with the common children done, everything below the node has ended its round |
| SyncConvergence.RunRounds | client/sync.go:552-839 | k calls at the root compute k rounds of the node-by-node definition, if in the k states that the rounds begin with equal hashes mean equal subtrees |
| SyncConvergence.RootEdgeStays | client/sync.go:734-739 | no number of rounds changes the edge points of the root on either side; where the root was missing it comes with its edge points |
| SyncConvergence.AfterRounds | client/sync.go:499-839 | after k rounds the other side has everything and this side all nodes with at most k missing on their way up, in final form |
| SyncConvergence.ConvergedIff | client/sync.go:499-839 | the trees have converged after k rounds exactly if no upstream node has more than k nodes missing on its way to the root |
| SyncConvergence.DepthRoundsConverge | client/sync.go:499-839 | as many rounds as the upstream tree is deep are enough, and later rounds change nothing |
| SyncConvergence.StableIff | client/sync.go:552-839 | a round changes nothing exactly if nothing is missing any more |
| SyncConvergence.FinalIsNewest | client/sync.go:690-732 | the final records are the same on both sides and hold the newest copy of every point of either |
| SyncConvergence.TiesStay | client/sync.go:690-839 | after any rounds both copies of a node hold the newest points of either, and of points with the same time that differ each side its own |
| SyncDigest.DigestSplits | data/node.go:236-251 | the exclusive or over a subtree is that of the node's own points, its edge points and the hashes of its children |
| SyncDigest.StoredIsDigest | client/sync.go:646-662 | in a store with correct hashes the hash that syncNode compares, the root's edge points backed out, is the exclusive or over the subtree |
| SyncDigest.XorSums | client/sync.go:646-662 | it depends on the subtree alone, as the rounds ask of a hash |
| SyncDigest.ReliableIff | client/sync.go:646-662 | equal hashes mean equal subtrees, for two replicas, exactly if at no common node the checksums of the points that differ cancel |
| SyncDigest.RoundsReliableIff | client/sync.go:646-662 | what SyncConvergence.RunRounds asks of the hash, for a round: that in the state it begins with nowhere the points that differ cancel |
| SyncDigest.TwoDiffer | client/sync.go:646-662 | two points that differ, such as an old and a new one, are noticed exactly if their checksums differ |
| SyncRuns.TimesNeverFall | client/sync.go:209-222 | in any step the stored time of an identity does not fall |
| SyncRuns.StepForwardsOnce | client/sync.go:209-222 | a publication that is delivered is forwarded at most once |
| SyncRuns.NoneGoesBack | client/sync.go:78 | without echo no publication that was itself made by forwarding is forwarded, or waits to be |
| SyncRuns.ForwardEnds | client/sync.go:78 | a forward takes its message off the queues for good exactly if the connections do not echo; else the publication it makes waits to be forwarded back |
| SyncRuns.EchoNeverEnds | client/sync.go:78 | with echo, a run without losses never becomes quiet after its first write |
| SyncRuns.RunsKeep | client/sync.go:209-222 | over any interleaving no stored point was invented, none is forgotten by both sides, none is forwarded twice, and without echo none is forwarded back |
| SyncRuns.QuietRunsAgree | client/sync.go:387-409 | when nothing was lost and nothing is on the way both sides hold the newest of all writes |
| SyncRuns.ComparisonRecovers | client/sync.go:690-732 | after any losses one comparison gives both sides the newest of all writes |
| SyncRuns.ComparisonIsForwarded | client/sync.go:690-732 | what a comparison sends to the local side waits to be forwarded up, what it sends up comes back only with echo |
| Decimal.AtoiOfItoa | data/decode.go:320-330 | the text of an index is read back as that index |
| Decimal.AtoiOfSigned | data/decode.go:320-330 | texts of digits with a sign and zeros in front are read as the number, up to 64 bits |
| Decimal.ItoaStarts | data/encode.go:64-88 | the text of an index has digits only and no zero in front |
| Fields.SetValReads | data/decode.go:455-502 | a point made from a scalar sets the scalar, in any cell, and a tombstone the zero value |
| Fields.DeletedIff | data/decode.go:455-462 | a point is deleted exactly if its tombstone is a positive odd number |
| Fields.SetValOfAny | data/decode.go:455-502 | what any point sets a cell to: fractions are cut off towards zero, values that do not fit are refused |
| Encoder.FromPrimitive | data/encode.go:18-62 | refuses exactly the integers below -9007199254740991 or above 9007199254740991; else the point with its value, text and tombstone |
| Encoder.AppendPoints | data/encode.go:64-193 | fails exactly for more than 1000 elements or an integer beyond 53 bits; else appends the points of the value |
| WireForm.EntriesAre | data/encode.go:64-193 | one point without a key for a scalar, one for each list element under its index, for each map entry under its key, for each struct field under its point tag, else its edgepoint tag, else its name |
| Encoder.Encode | data/encode.go:229-267 | fails exactly where a field has more than 1000 elements or an integer beyond 53 bits; else the points of all fields in order, which Codec.DecodeOfEncode decodes again |
| Encoding.AddAllKeepsNewest | data/point.go:282-313 | points added one after the other leave one point for each identity: the first of the newest that were offered, with the largest tombstone |
| Encoding.FilledIs | data/point.go:282-313 | a point that is added gets the key "0" and the current time if it has none, and keeps the rest |
| Encoder.DiffField | data/encode.go:271-448 | fails exactly for more than 1000 elements or a changed integer beyond 53 bits; else adds the points that Codec.MergeOfDiff merges, for maps in any order of visiting |
| WireForm.DiffEntriesAre | data/encode.go:338-447 | the difference of a field holds exactly what is new or differs, with its new value, and what is gone |
| Encoder.DiffPoints | data/encode.go:271-448 | fails exactly where a new value has more than 1000 elements or a changed integer is beyond 53 bits; sends nothing exactly if nothing changed and no pointer moved; else the points of all differences, of which Codec.MergeOfDiff says when applying them gives the new value |
| Decoder.GroupPoints | data/decode.go:313-352 | the groups are the points of each type in order, with their largest index and a key that is none |
| Decoding.KeysOfLists | data/decode.go:320-330 | which keys are list indices, and of what |
| Decoding.OtherKeys | data/decode.go:320-330 | a key with anything but digits behind a sign is no list index |
| Decoding.GroupMeans | data/decode.go:313-352 | keyMaxInt is the largest index of a point that is not deleted, keyNotIndex tells if some key is no index |
| Decoding.PrimHolds | data/decode.go:247-263 | a scalar takes the last point, unless one of them does not fit |
| Capacity.ListHolds | data/decode.go:101-172 | a list is refused exactly for a key that is no index or an index over 1000; if it is taken, every element is what the last point for it makes of it, or as it was, or zero, and exactly the trailing deleted ones are cut off |
| Decoding.DictHolds | data/decode.go:173-219 | refuses more than 1000 points; else takes points up to the first that does not fit, and under every key the last point taken decides: deleted, its value, or as it was |
| Decoding.LastByKeyIs | data/decode.go:220-246 | the map of values holds for every key the last point with that key |
| Decoding.FlatHolds | data/decode.go:220-246 | every field takes the value of the last point with its key, or stays; up to the first field without a key or with a value that does not fit, and the fields behind that one stay |
| Decoding.ValidFieldsAre | data/decode.go:63-95 | which names keep a pointed-to struct from going nil: those whose last point is not deleted, and the fields without points |
| Decoding.FieldsHold | data/decode.go:353-450 | every field is decoded for itself; an error in one does not keep the others from being set, a panic ends the run |
| Decoder.Trim | data/decode.go:156-172 | the walk over sorted deleted indices finds the length without the trailing deleted run |
| Decoding.TrimLength | data/decode.go:156-172 | what is dropped is a trailing run of deleted indices, and the longest one |
| Decoder.Var.SetSlice | data/decode.go:101-172 | the backing store, length and outcome in full |
| Decoder.Var.SetValue | data/decode.go:59-264 | the field afterwards as if lists were always copied, and exactly when there are zeros behind the end again |
| Decoder.Decode | data/decode.go:301-450 | all fields afterwards, which Codec.DecodeOfEncode and Codec.MergeOfDiff say more about; an error in one does not keep the others from being set |
| Capacity.ReuseIsCopy | data/decode.go:122-135 | with zeros behind the end, re-slicing into spare capacity equals copying to a new list |
| Capacity.StaysCleanIff | data/decode.go:101-172 | behind the end there are zeros again exactly if every trimmed element was last deleted, or set to zero |
| Capacity.RunsAgree | data/decode.go:101-172 | over any run of batches that meet this condition reuse and copying give the same lists |
| Capacity.LateSetComesBack | data/decode.go:101-172 | an instance: an element deleted and then set by one batch is trimmed and comes back when the list grows |
| Patches.ListMerges | data/decode.go:101-172 | points that lead from one list to another give the second exactly if its last element is not written as a tombstone |
| Patches.DictMerges | data/decode.go:173-219 | points that lead from one map to another give the second exactly if there are at most 1000 of them and no key that stays is written as a tombstone |
| Patches.FlatMerges | data/decode.go:220-246 | points that lead from one struct to another always give the second |
| FieldLaws.FieldMerges | data/decode.go:59-264 | for a field of any type, decoding the points of a patch gives the wanted value exactly if nothing that stays is written as a tombstone; and when it is refused |
| FieldPatches.EncodesPatch | data/encode.go:64-193 | for fields other than maps: an encoding is a patch from the zero value, and keeps everything exactly if no nil pointer stands where it is dropped |
| FieldPatches.DiffsPatch | data/encode.go:288-447 | for fields other than maps: if the inner fields with an edgepoint name stay, a difference is a patch from before to after; and when it keeps everything |
| FieldPatches.NotNamedStays | data/decode.go:220-246 | an inner field that no point has the name of stays as it was, whatever the points |
| FieldPatches.LostNames | data/encode.go:419-433 | if an inner field with an edgepoint name changed, or a struct that has one became nil, the difference does not give the second value |
| MapChanges.MapArrives | data/encode.go:338-388 | for any two maps, blank keys included: how many points a difference has, when it is refused, and what stands under every key after it was applied |
| MapChanges.BlankKeyArrives | data/decode.go:199-202 | if nothing else is written as "0", an entry with a blank key is never changed or removed itself: its new value comes to stand under "0", and removing it removes "0" |
| MapChanges.MapMergesIff | data/encode.go:338-388 | for any two maps, applying the difference gives the second exactly if at most 1000 names changed, no value became nil, and the blank key stays; if only its pointer moved, its rewrite under "0" must give what stands there |
| MapChanges.EncodedMapArrives | data/decode.go:173-219 | every encoded map decodes, each entry under its own key, the blank one under "0", where it and an entry "0" leave the later one, and none under the blank key |
| Codec.DecodeOfEncode | data/encode.go:229-267 | decoding an encoding never fails, and gives the struct back exactly if no map has a blank key, no list ends in nil, no map holds nil, and no pointed-to struct is all nil |
| Codec.PlainDecodeOfEncode | data/decode.go:301-450 | without pointers in lists and maps, and with a non-pointer field in pointed-to structs, an accepted struct comes back exactly if no map has a blank key |
| Codec.MergeOfDiff | data/merge.go:73-86 | applying the difference to the first value gives the second exactly if every field merges back and no inner field with an edgepoint name changed or went with its struct |
| Codec.PlainMergeOfDiff | data/encode.go:271-448 | without such pointers, applying the difference gives the second value exactly if no map has more than 1000 keys changed or removed or a change under a blank key, and no inner field with an edgepoint name changed or went with its struct |
| CodecLimits.ReplacedMapIsRefused | data/decode.go:178-183 | replacing all keys of maps with together more than 1000 is diffed but refused when applied |
| CodecLimits.AllSurviveIff | data/encode.go:419-433 | for any struct type whose inner structs have at most 1000 fields: every change that merges back but for names survives exactly if no inner field is named by an edgepoint tag alone |
| CodecLimits.BlankKeyIsRenamed | data/decode.go:199-202 | an instance: an entry with a blank key comes back under "0" |
| CodecLimits.EdgePointNameIsLost | data/encode.go:419-433 | an instance: a change of an inner field named by an edgepoint tag is written under a name that decoding ignores |
| Crc.RtuCrc | modbus/crc.go:9-26 | the nested loops compute the CRC register of the polynomial from 0xFFFF on, bytes swapped; Crc.CrcNumber tells it in numbers |
| Crc.CrcNumber | modbus/crc.go:9-26 | the CRC of any frame in arithmetic: from 0xFFFF on, a bit at a time, and the low byte of the register first |
| Crc.KnownCrc | modbus/crc.go:9-26 | an instance: the frame 02 07 of the specification has the CRC bytes 41 12 |
| Crc.CheckRtuCrc | modbus/crc.go:35-48 | refuses frames of fewer than four bytes and frames whose last two bytes are not the CRC |
| Crc.CheckIsZeroRegister | modbus/crc.go:35-48 | a frame of at least four bytes is accepted exactly if the register over the whole of it ends at zero |
| Crc.StepToZero | modbus/crc.go:13-21 | the bit step is invertible at zero |
| Crc.FeedIsLinear | modbus/crc.go:9-26 | feeding bits is linear |
| Crc.ErrorUnseenIff | modbus/crc.go:9-48 | an error in an accepted frame goes unseen exactly if the error pattern alone feeds zero to zero |
| Crc.BurstIsSeen | modbus/crc.go:9-48 | no nonzero burst within 16 consecutive bits feeds zero to zero |
| Crc.FeedParity | modbus/crc.go:13-21 | the parity of the bits fed is the parity of the register |
| Crc.ErrorsAreDetected | modbus/crc.go:9-48 | every nonzero burst of 16 bits and every odd number of flipped bits is detected, in frames of any length |
| Crc.LeadingZeroIsSeen | modbus/crc.go:10 | a frame that is accepted is refused with one more zero byte in front: the register does not start from zero |
| Registers.Regs.AddReg | modbus/reg.go:41-57 | registers that exist stay as they are, the others of the range are added as zero |
| Registers.Regs.WriteReg | modbus/reg.go:102-115 | the outcome and the whole new file |
| Registers.ReadAfterWrite | modbus/reg.go:79-115 | a read sees the last accepted write to that address and nothing else |
| Registers.WriteFails | modbus/reg.go:79-115 | a write fails exactly for a register that is missing or refuses the value, with which exception, and then changes nothing |
| Registers.CoilIsBit | modbus/reg.go:133-148 | coil n is bit n modulo 16, from the lowest, of register n divided by 16 |
| Registers.CoilAfterSet | modbus/reg.go:133-170 | setting a coil sets it and leaves every other coil, though sixteen share a register |
| Pdu.ProcessRequest | modbus/pdu.go:38-161 | the reply, its exceptions and panics, and the registers afterwards for every request |
| Requests.TooShortIff | modbus/modbus.go:51-63 | which requests are too short, code by code |
| Requests.UnknownFunction | modbus/pdu.go:156-157 | any other function code is answered with exception 1 and changes nothing |
| Requests.WriteSingleCoil | modbus/pdu.go:89-108 | FF 00 switches the coil on and 00 00 off, and every other coil stays; other values are answered with exception 3, a missing register with exception 2 |
| Requests.WriteSingleRegister | modbus/pdu.go:127-137 | the register reads as the word of the request and all others as before; exception 2 for a missing one and 3 for a refused value |
| Requests.WriteMultipleRegisters | modbus/pdu.go:139-152 | the words of the request stand in the registers in order and all others are as before, up to the first that is missing, exception 2, or refuses, exception 3 |
| Requests.WriteMultipleCoils | modbus/pdu.go:110-125 | the bits of the request, lowest first, stand in the coils and all others are as before, up to the first in a register that is missing or refuses |
| Requests.ReadRegisters | modbus/pdu.go:69-87 | the answer byte by byte: twice the count modulo 256, then the values, high byte first; exception 2 if one is missing |
| Requests.ReadCoils | modbus/pdu.go:50-68 | the answer byte by byte: the number of bytes, then the coils, lowest bit first, filled up with zeros; exception 2 if a register is missing |
| Pdu.WriteBitsEffect | modbus/pdu.go:110-125 | however far a multiple-coil write gets, the coils reached hold the new bits and all others what they held |
| Pdu.WriteCoilsMeaning | modbus/pdu.go:110-125 | the server takes out of a well-formed request the bits that were put in |
| Pdu.ReadCoilsAnswer | modbus/pdu.go:50-68 | for every count, a read of present coils is answered with their values, packed, exactly if the buffer has a first byte and room for every coil that is on; else the program panics |
| Pdu.CoilLimits | modbus/pdu.go:53-55 | up to 2032 coils are always answered, 2033 to 2040 never, more only if a coil is off |
| Pdu.CoilsReadBack | modbus/pdu.go:50-125 | after a coil write a read of any range gives the written bits inside the written range and the old ones outside, or panics where no reply can be built |
| Pdu.RespReadBits | modbus/pdu.go:165-191 | the client takes the byte count for the number of bits, refuses short responses and other functions, and panics if the bytes end too soon |
| Requests.CoilsSeen | modbus/pdu.go:165-191 | which bits of the answer the client takes, and its refusals |
| Pdu.ReadCoilsIsCutShort | modbus/pdu.go:165-191 | for every count, the client gets one bit for every byte of the answer: the coils it asked for exactly if it asked for one |
| Pdu.ReadRegsAnswer | modbus/pdu.go:69-87 | reading present registers panics exactly from 0x8000 on, and the client gets all of them exactly for 1 to 127 |
| Pdu.RespReadRegs | modbus/pdu.go:195-219 | refuses short responses, other functions and fewer bytes than announced; else the words behind the byte count |
| Requests.RegistersRead | modbus/pdu.go:195-219 | which words of the answer the client takes, and its refusals |
| Pdu.ReplyRead | modbus/pdu.go:195-219 | the client reads back the words that were packed |
| Transport.RTU.Encode | modbus/rtu.go:42-50 | the frame: address, function, data, CRC |
| Transport.RtuFrameBytes | modbus/rtu.go:42-50 | the RTU frame byte by byte |
| Transport.RTU.Decode | modbus/rtu.go:53-72 | refuses a bad CRC, else takes the frame apart |
| Transport.RtuRoundTrip | modbus/rtu.go:42-72 | decoding an encoded frame gives the request back |
| Transport.RtuRefusesErrors | modbus/rtu.go:53-72 | an encoded frame with a burst of 16 bits or an odd number of errors is refused |
| Transport.TCP.Encode | modbus/tcp.go:57-81 | the MBAP frame, and the next transaction id at a client |
| Transport.TcpFrameBytes | modbus/tcp.go:57-81 | the MBAP header byte by byte; the length field is the number of bytes behind it for data up to 65533 bytes |
| Transport.TCP.Decode | modbus/tcp.go:84-109 | refuses short frames, frames without data and, at a client, other transaction ids |
| Transport.TcpRoundTrip | modbus/tcp.go:57-109 | decoding an encoded frame gives the request back, if it has data and the id is the awaited one |
| Transport.StaleAnswers | modbus/tcp.go:57-109 | over any run the client refuses an answer to any of the preceding 65535 requests, and refuses an answer with data exactly if its request is not congruent modulo 65536 |
| Transport.TransactionsDeliver | modbus/pdu.go:38-161 | request, server and answer over RTU and TCP deliver what processing the request gives |
| Transport.RegistersArrive | modbus/pdu.go:69-87 | over both transports the registers stay and the client gets all the requested ones exactly for counts from 1 to 127, which covers the limit of 125 |
| Cobs.DecodeInPlace | client/cobs-wrapper.go:47-97 | decoding in one buffer computes the byte-by-byte machine; the write index stays behind the read index |
| Cobs.EncodeHasNoZero | client/cobs-wrapper.go:168-181 | an encoded payload has no zero byte |
| Cobs.KnownEncodings | client/cobs-wrapper.go:168-181 | instances: the encodings of a payload with a zero, of the empty one, and of a full block with and without the byte behind it |
| Cobs.RunEncoded | client/cobs-wrapper.go:47-97 | read past its first code byte, an encoding gives its payload |
| Cobs.DecodeEncoded | client/cobs-wrapper.go:47-97 | zeros, an encoding in either form after a full block, then the end or a zero: the payload comes back, unless all is at most two bytes long |
| Cobs.CutFrame | client/cobs-wrapper.go:47-97 | a frame cut anywhere gives the start of the payload if no zero follows; with the final zero in place it is refused unless the cut is between blocks, for every payload and every cut |
| Cobs.BoundaryIff | client/cobs-wrapper.go:87-90 | a cut is between blocks exactly if what is left is itself the frame of a start of the payload |
| Cobs.WholeFrame | client/cobs-wrapper.go:47-97 | the end of a frame is such a cut and holds the whole payload |
| CobsStream.CobsWrapper.Read | client/cobs-wrapper.go:102-166 | which frame is decoded and which bytes stay, from leftovers or from device reads split anywhere; exactly when it fails with the error of the device or with too much data, and that the leftovers then stay |
| CobsStream.EndIs | client/cobs-wrapper.go:108-127 | a frame ends at the first zero behind a byte that is none |
| CobsStream.ReadTakesFirst | client/cobs-wrapper.go:102-166 | a read takes exactly the first frame of the stream and leaves the others in order |
| CobsStream.ReadDecodesFirst | client/cobs-wrapper.go:102-166 | the bytes that a read decodes are the first frame of the stream behind zeros |
| CobsRuns.ReadPayload | client/cobs-wrapper.go:102-166 | one read gives the next payload whole, and leaves the stream without its frame; from device reads that stop at a zero behind a frame the leftovers stay whole frames and zeros, within a budget for the zeros |
| CobsRuns.ReadPayloads | client/cobs-wrapper.go:102-166 | n payloads come out of n reads whole, in order, none lost or repeated, from any split into device reads of which those where a frame ends stop at the end of a frame or at a zero behind it, given room for the zeros that stay left over |
| CobsStream.SplitFramesSurviveIff | client/cobs-wrapper.go:127-130 | with leftovers in which no frame ends, later reads decode what was sent, whatever it is, exactly if the leftovers are nothing but zeros |
| CobsStream.SplitFrameIsGarbled | client/cobs-wrapper.go:127-130 | an instance: a frame split between leftovers and device comes out wrong |
| Rename.Renamer.Replace | client/node.go:661-695 | a subtree is renamed by one growing map of old to new ids |
| Rename.ReplaceIds | client/node.go:656-699 | same shape, parents linked to new ids, ids and references equal afterwards exactly when before, blank ids unique, blank references left; the result then passes checkIDs exactly under a parent that is not blank |
| Rename.ChecksIff | client/node.go:628-649 | checkIDs accepts a renamed tree exactly if the parent is not blank |
| Rename.TranslatedIsConsistent | client/node.go:656-699 | an injective translation with unused ids for blanks is a consistent renaming |
| Schedule.TimeRanges.FilterWeekdays | client/schedule.go:187-207 | the ranges that start on a listed weekday, in order |
| Schedule.TimeRanges.FilterDates | client/schedule.go:137-184 | each range once for every listing of its date; fails exactly if a date is unreadable and a range is left |
| Schedule.TimeRanges.In | client/schedule.go:127-135 | some range contains the time |
| Schedule.AllowedIs | client/schedule.go:137-207 | on which days a window may start: the weekday and the date are listed, or there is no list |
| Schedule.OnWeekdayIs | client/schedule.go:187-207 | the weekday of a range is that of its start in UTC, counted from Sunday |
| Schedule.HourMinRead | client/schedule.go:97 | the time read is the first text of the form hh:mm or h:mm, as minutes of the day |
| Schedule.DateRead | client/schedule.go:98 | the date read is the first text of the form yyyy-mm-dd |
| Schedule.WindowContains | client/schedule.go:67-82 | a window in nanoseconds: up to the end on the same day or, if that is not later, on the next |
| Schedule.WeekdaysGoOn | client/schedule.go:187-207 | the first day of 1970 was a Thursday, and the weekdays go round |
| Schedule.CandidatesSuffice | client/schedule.go:67-82 | the windows of today and yesterday are enough to find a time in the window of any allowed day |
| Schedule.ActiveForTime | client/schedule.go:28-95 | errors and their causes; for times of day, active exactly in the windows of the days both lists allow |
| Schedule.SufficeIff | client/schedule.go:67-82 | these two windows are enough for all times and lists exactly for a start before 24:00 and an end not after it, or where every window is empty |
| Schedule.MidnightIsMissed | client/schedule.go:67-82 | a window with an end after 24:00 is missed after midnight on a day that is not listed |
| Schedule.LateStartIsMissed | client/schedule.go:67-82 | a window with a start from 24:00 on is looked for on the wrong day |

## Left out

- SQLite, NATS, protobuf, YAML, HTTP, serial ports and sockets: a transaction is one step on the tables, a send an acknowledged step on a replica, a device a list of reads.
- Reflection and struct tags: a struct is a list of fields with types and tags, inner fields with edgepoint tags included; outer fields with edgepoint, node and child tags, fixed-size arrays, pointers to lists and maps, and FindNodeInStruct are not modelled.
- The CRC-32 of a point is a parameter. It reads what the program's reads, but as separate values, while the program runs type, key and text together.
- The bytes Data of a point; in the comparison of points neither Data nor Origin matters.
- Floating point: values are reals, so NaN, the sign of zero and the rounding of float32 are not modelled, and a float outside the 64-bit range converts as on x86-64.
- Aliasing: pointers in structs are values, and DiffPoints is told which of them point elsewhere; an imported tree is rebuilt where the program rewrites it in place.
- The point of the current time in Points.Add is a function of the call, not a clock.
- Store.DbSqlite.NodePoints: the collection of rows and their writing, two loops in the program, are one; the node types and the caches of the store are not modelled.
- Store.DbSqlite.EdgePoints: tombstoned edges, undeletion and moving a node are writes like others; the broadcast of changes is not modelled.
- Repair.VerifyNodeHashes: reads are taken to see the table as it was before the transaction. The comment in store/sqlite.go says children are fixed first so that the parent sees it; the parent's hash is computed from hashes read before, and the model follows the code.
- SyncRound.SyncClient.SyncNode: no tombstoned edges, one parent for each node, points with the same type, key and time are the same; the write of the sync count and the choice of the root are not modelled. sendNodesLocal reads the children of the node on the local side, not on the side it copies from, and the model follows the code.
- SyncConvergence.RunRounds: takes equal hashes to mean equal subtrees in the states that its rounds begin with, which no hash of 32 bits gives for all replicas; SyncDigest.ReliableIff says for which states the program's hash does.
- Codec.MergeOfDiff: the outer fields have different types of points, and DiffPoints has no name for one inner field that is a name of another.
- SyncRuns.RunsKeep: the runs are those of the points of one node; edge points are forwarded in the same way.
- Pdu.RespReadBits: it returns one bit for each byte of the answer, not the coils asked for; the exact extent is stated.
- CobsStream.CobsWrapper.Read: the copy of the leftovers goes past the end of the caller's buffer, so the model leaves the buffer as it is there; the caller passes a zeroed buffer, as client/serial.go does.
- The COBS encoder and the CCITT CRC of serial packets are library code; the encoder is written from its published definition.
- Schedule.ActiveForTime: the calendar from day numbers to dates is a parameter, and times are those of UTC.
- The words of MODBUS registers as 32-bit numbers and floats, servers, clients, timeouts and retries.
- SendNode, rules, the network manager, the user interface and the other clients: plumbing, or easy members.

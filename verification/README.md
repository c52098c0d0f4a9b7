# kvdb verification

A Dafny model of kvdb, a server that stores Redis data types as flat byte keys in an
ordered key-value store, with proofs that the stored form and the paged scans agree with
the plain object a client thinks of: a sorted set, a hash, a deque, a log, a bit array, a
counter. `dafny verify dfyconfig.toml` checks the whole project.

## How it is built

The store is one ordered map from byte strings to byte strings per column family. Its
order is byte-wise; a write batch applies as a whole. `StorageEngine` is a class with the
store as its field and the iterator loops as methods. Every command is a method on it
whose contract speaks of the abstract object, and whole runs of commands are methods over
command sequences.

| file | part of the server |
|---|---|
| `bytes`, `decimal`, `bits` | byte order, big-endian and decimal integers, bits of bytes |
| `store`, `engine` | ordered store, forward and reverse pages, deletion by prefix |
| `encoding`, `context` | keys, records, namespaces, the entries of one key |
| `score`, `zset`, `zsetwrite`, `zsetread` | sorted sets and their two indexes |
| `hashscan`, `hash` | hashes and resumable iteration |
| `resp`, `respstream`, `connection` | wire protocol and the read loop |
| `transaction` | MULTI, EXEC, DISCARD, WATCH |
| `list`, `stream`, `bits`, `bitmap`, `bitop` | the other data types |
| `counter`, `counterorder`, `countersum` | INCR, DECR and APPEND under shard locks, all interleavings |
| `keyspace` | DEL, FLUSHDB, DBSIZE |

## Properties that fail, and exactly when they hold

- ZREM, HSET and HDEL look for names in the store and not in their own batch, so a name
  given twice is counted twice: `ZremSizeExact`, `HsetSizeExact`, `RemovalSizeExact`.
  Inputs: `ZremRepeatedName`, `HsetRepeatedName`.
- ZRANGEBYSCORE skips the key it seeks to: `ByScoreExact`. Input: `ByScoreMissesEmptyMember`.
- A ZRANGE stop before the first entry is read as 0: `RankRangeExact`. Input: `RankRangeBeforeFirst`.
- Reverse paging starts at prefix + eight 0xFF bytes: `ReverseScanReaches`. Inputs:
  `NineBytesMissed`, `LoneEmptyKeyIsMissed`.
- A generated stream sequence number wraps at 2^64: `NewIdIsGreater`, for runs `RunIncreases`.
  Input: `NewIdWraps`.
- BITCOUNT forces a range that misses the array onto its nearest byte: `CountRangeExact`.
  Input: `CountRangePastEnd`.
- An EXEC or DISCARD without MULTI is refused and keeps the watch list: `EndCleans`. Input:
  `WatchOutlivesExec`.
- A HSCAN cursor is cut every two bytes and panics inside a character: `SplitsExactly`. Input:
  `CursorCutsCharacter`.
- DEL of a key that exists only in the old form without a namespace reports success and
  leaves it in place, so naming it again counts it again: `DeletedIsGone`, `DelCountsKeys`.
  Input: `LegacyOutlivesDel`.
- DEL purges the one version the record names, while BITOP gives its destination a new one
  and leaves the old entries: `DeletedLeavesNothing`. Inputs: `BitopThenDel`, `StaleOutlivesDel`.
- An INCR can be lost where one key writes the record from before namespaces that another key
  reads: `LostExactly`. Input: `AliasedIncr`.
- A key of 16 MiB or more without a namespace can lie inside a named one, even under the
  metadata key of one of its keys: `LegacyKeyUnderNamespace`. Inputs: `LongLegacyKeyCaught`,
  `LongKeysAlias`, `AliasedDel`.

Where the code and its comments differ, the model follows the code: hash commands do not
look at expiry although `src/cmd/hash.rs:26` says they do, and a FLUSHDB without a
namespace removes the keys of every namespace (`src/cmd/admin.rs:65-67`).

## Conventions

- A new version is a parameter; commands that may create a key require that nothing is
  stored under that version yet, since the code relies on `generate_version` for this.
- The clock, the results of parsing numbers from arguments and floating-point addition are
  parameters. A score is a 64-bit pattern that is not a NaN.
- A command is one atomic step, except in `counter` and `transaction`, whose subject is
  what happens between steps.
- Unsigned arithmetic wraps where the code lets it (release build). Lists and streams are
  those whose elements 64-bit indices and sizes can count.
- Keys are under 2^32 bytes and namespaces at most 255 bytes, as the length fields and the
  configuration check demand.

## Model

| member | source | states |
|---|---|---|
| OrderedStore.LastWins | src/storage.rs:151-172 | after a batch the last operation on a key decides: the value of a put, absence after a delete |
| OrderedStore.BatchKeeps | src/storage.rs:151-172 | a key that no operation of a batch names keeps its value or its absence |
| Storage.StorageEngine.PrefixScan | src/storage.rs:174-193 | the entries are exactly those whose key carries the prefix, in key order |
| Storage.StorageEngine.CountPrefix | src/storage.rs:362-380 | the count is the number of keys that carry the prefix |
| Storage.StorageEngine.PrefixScanPage | src/storage.rs:197-256 | the loop with its look-ahead and boundary flags returns the forward page: the next entries after the cursor, and a next cursor only if more follow |
| Storage.StorageEngine.PrefixScanPageReverse | src/storage.rs:262-328 | the reverse loop returns the page of entries before the cursor in descending order |
| Storage.StorageEngine.DeletePrefix | src/storage.rs:340-359 | though it deletes its own cursor key between pages, it ends, removes exactly the keys with the prefix and touches nothing else |
| OrderedStore.PageAt | src/storage.rs:197-256 | a page read from the cursor after p keys is the next slice of the one-shot scan; a limit of 0 acts as 1 |
| OrderedStore.PageFrom | src/storage.rs:219-225 | the same from any start key at or above the prefix: the start key itself is skipped |
| OrderedStore.ChainedPages | src/storage.rs:197-256 | pages chained by their next cursors are the one-shot prefix scan, for every limit; the chain ends exactly at the page that reaches the end |
| OrderedStore.PagesHoldProduct | src/storage.rs:197-256 | k full pages hold k * limit entries, k when the limit is 0 |
| OrderedStore.StuckCursor | src/storage.rs:197-256 | the one chain that never advances: an empty prefix, an empty stored key, pages of one |
| OrderedStore.ReversePageAt | src/storage.rs:262-328 | a reverse page read after p keys is the next slice of the reversed scan, for every prefix and limit, and its cursor stands at the end of that slice |
| OrderedStore.ReverseChainedPages | src/storage.rs:262-328 | reverse pages chained by their cursors are the reversed scan, for every prefix and limit; the chain ends exactly at the page that reaches the end |
| OrderedStore.ReverseScanReaches | src/storage.rs:262-328 | a reverse chain read to its end visits exactly the reversed scan, each key once, if and only if no key of the prefix lies above prefix + eight 0xFF bytes and the prefix does not hold the empty key alone |
| OrderedStore.NineBytesMissed | src/storage.rs:262-328 | the input on which the first half of that condition matters: prefix + nine 0xFF bytes |
| OrderedStore.EightBytesReached | src/storage.rs:262-328 | prefix + eight 0xFF bytes is still reached |
| OrderedStore.LoneEmptyKeyIsMissed | src/storage.rs:262-328 | the input on which the second half of that condition matters |
| Encoding.ParseMetadataKeyInverts | src/encoding.rs:17-65 | parsing a metadata key gives back the user key |
| Encoding.ParseSubKeyInverts | src/encoding.rs:68-116 | parsing a subkey gives back key, version and rest |
| Encoding.SubKeyPrefixExact | src/encoding.rs:68-73 | a subkey starts with the prefix of a key and version if and only if it belongs to that key and version |
| Encoding.MetadataKeyInjective | src/encoding.rs:17-31 | different keys of a namespace have different metadata keys |
| Encoding.NamespacesApart | src/encoding.rs:17-31 | a key of a named namespace carries the header of a namespace if and only if it is that namespace |
| Encoding.LegacyKeyUnderNamespace | src/encoding.rs:17-31 | a key without a namespace carries the header of a named one exactly when its length byte and first bytes happen to spell that header |
| Encoding.ShortLegacyKeysApart | src/encoding.rs:17-31 | so it never does when the key is under 2^24 bytes |
| Encoding.LongLegacyKeyCaught | src/encoding.rs:17-31 | a longer key for which it does |
| Encoding.LongKeysAlias | src/encoding.rs:17-31 | two keys over 2^24 bytes, one in a namespace and one without, that have the same metadata key |
| Encoding.MetadataRoundTrip | src/encoding.rs:120-177 | a record decodes to itself, except that only lists keep head and tail |
| Encoding.FlagBytes | src/types.rs:31-60 | the first byte of a record of each type |
| Encoding.StringRoundTrip | src/encoding.rs:180-198 | a string value decodes to its flags, expiry and payload |
| Contexts.GetMetaAfterPut | src/cmd/mod.rs:83-96 | a record written under the namespace is the one found, whatever legacy record stands behind it |
| Contexts.ViewFrame | src/cmd/mod.rs:67-70 | a command that touches one versioned prefix leaves the entries of every unrelated prefix as they were |
| Contexts.ScanIsView | src/storage.rs:174-193 | a prefix scan lists the entries of a key in the order of what follows the prefix |
| Contexts.RemovalSizeExact | src/cmd/zset.rs:655-669 | taking one off a size per mention leaves the true count if and only if no present name is given twice or every present name is given |
| Scores.PositionIsValueOrder | src/cmd/zset.rs:31-44 | the order used for scores is the order of the IEEE 754 numbers of their bit patterns, both infinities included |
| Scores.PatternKinds | src/cmd/zset.rs:31-44 | by the fields of the format: which patterns are finite numbers, infinities and no numbers, and that both zeros are zero |
| Scores.ScoreRoundTrip | src/cmd/zset.rs:31-58 | decoding an encoded score gives back its bit pattern |
| Scores.ScoreCodeRoundTrip | src/cmd/zset.rs:31-58 | encoding a decoded code gives back the code |
| Scores.ScoreCodeOrder | src/cmd/zset.rs:31-44 | byte order of codes is the order of IEEE 754-2008 section 5.10 (totalOrder) on all non-NaN scores |
| Scores.ScoreMemberOrder | src/cmd/zset.rs:142-155 | score keys sort by score and then by member |
| Scores.ScoreCodeBelowCeiling | src/cmd/zset.rs:31-44 | no number encodes to eight 0xFF bytes, so reverse paging of the score index misses nothing |
| Scores.EncodeScore | src/cmd/zset.rs:31-44 | the byte-flipping loop computes the code |
| Scores.DecodeScore | src/cmd/zset.rs:46-58 | the byte-flipping loop computes the pattern of a code |
| SortedSets.IndexBijection | src/cmd/zset.rs:138-168 | when both stored forms agree on a sorted set, every member has exactly one index entry, it carries the stored score, there is no stale entry, and all three sizes are equal |
| SortedSets.SetScore | src/cmd/zset.rs:401-422 | the writes that store a score keep both forms agreeing, whatever the old score was |
| SortedSets.RemoveScore | src/cmd/zset.rs:655-669 | the writes that remove a member keep both forms agreeing |
| SortedSets.RankingSorted | src/cmd/zset.rs:142-168 | the ranking lists exactly the scored members, strictly ascending by score and member |
| SortedSets.RankCounts | src/cmd/zset.rs:682-728 | the rank of a member is the number of entries before it |
| SortedSetWrites.Zadd | src/cmd/zset.rs:266-433 | every legal and illegal flag mix: refused arguments change nothing; otherwise the scores and the reply are those of ZADD on a map, both stored forms agree with them, and the size grows by the members added; a plain ZADD writes the record even when no score is taken; no other key or version is touched |
| SortedSetWrites.ZaddScores | src/cmd/zset.rs:380-399 | told by the numbers: NX keeps every score, XX adds no member, GT leaves the greater of old and given score, LT the lesser, without them the score is the given number, and an unnamed member keeps its own |
| SortedSetWrites.UpdatesMeaning | src/cmd/zset.rs:364-369 | the score that counts for a member is the last one given for it |
| SortedSetWrites.ZaddReply | src/cmd/zset.rs:401-433 | with CH the reply counts the members added or given another number, without it those added |
| SortedSetWrites.ZaddLegal | src/cmd/zset.rs:266-284 | ZADD takes at least one score and member, exactly one with INCR, not NX with XX, and at most one of NX, GT and LT |
| SortedSetWrites.ZsetMetaCases | src/cmd/zset.rs:90-136 | an expired record of any type is absent, a live one of another type is refused |
| SortedSetWrites.ZaddIncr | src/cmd/zset.rs:285-362 | ZADD INCR: nil when a flag holds it back, the new score otherwise, an error when the sum is not finite |
| SortedSetWrites.IncrScores | src/cmd/zset.rs:285-362 | NX skips members, XX skips others, a new member starts from the increment, a sum that is no finite number is refused, GT and LT store only a strictly greater or lesser number, and what is stored is the reply |
| SortedSetWrites.ZaddBatch | src/cmd/zset.rs:371-423 | the loop over the distinct members, in any order, builds a batch and counters that agree with the map operation |
| SortedSetWrites.CollectUpdates | src/cmd/zset.rs:364-369 | the last score given for a member wins, and one score that does not parse refuses the command |
| SortedSetWrites.Zincrby | src/cmd/zset.rs:836-887 | the score goes up by the increment in both forms; a sum that is not finite changes nothing |
| SortedSetWrites.Zrem | src/cmd/zset.rs:641-680 | the named members leave both forms together; reply and size count every mention; nothing is written when none is present |
| SortedSetWrites.ZremSizeExact | src/cmd/zset.rs:655-669 | ZREM leaves size equal to the member count if and only if no present member is named twice or every member is named |
| SortedSetWrites.ZremRepeatedName | src/cmd/zset.rs:655-669 | ZREM k a a on members a and b replies 2 and leaves b with size 0 |
| SortedSetWrites.RunZset | src/cmd/zset.rs:266-433 | every run of ZADD, ZINCRBY and ZREM: every reply is that of the map the earlier commands mean, both stored forms agree on the final map, and the size is what the commands made of it |
| SortedSetWrites.SizeStaysExact | src/cmd/zset.rs:641-680 | a command keeps the size equal to the member count if and only if it is no ZREM that names a present member twice without naming all, and fewer than 2^64 members result |
| SortedSetWrites.RunSizeExact | src/cmd/zset.rs:641-680 | the size equals the member count all along a run if and only if every command of it is such |
| SortedSetReads.NextPage | src/cmd/zset.rs:174-211 | a page of the score index, forward or reverse, is the next stretch of the ranking or of its reverse |
| SortedSetReads.WalkOrder | src/cmd/zset.rs:174-211 | the walk goes from the least number to the greatest, the reverse walk the other way |
| SortedSetReads.RankRangeExact | src/cmd/zset.rs:934-946 | the rank window holds exactly the indices between the bounds if and only if stop does not lie before the first entry while start reaches it |
| SortedSetReads.RankRangeBeforeFirst | src/cmd/zset.rs:934-946 | ZRANGE k 0 -4 on three entries reads the first one |
| SortedSetReads.RankRangeInside | src/cmd/zset.rs:934-946 | rank i goes by i and by i - len, and 0 to -1 is everything |
| SortedSetReads.CollectRankRange | src/cmd/zset.rs:950-1010 | skipping and collecting over pages equals a slice of the ranking or of its reverse |
| SortedSetReads.Zrange | src/cmd/zset.rs:435-475 | ZRANGE and ZREVRANGE are the same window on the ranking and on its reverse, the window taken from the stored size even where it differs from the member count |
| SortedSetReads.Zrank | src/cmd/zset.rs:682-795 | ZRANK is the position in the ranking, ZREVRANK the position from the end, nil for a non-member |
| SortedSetReads.RanksMirror | src/cmd/zset.rs:730-795 | wherever a member stands in the ranking and in its reverse, the two positions add up to ZCARD - 1 and both entries carry its score |
| SortedSetReads.Zrangebyscore | src/cmd/zset.rs:477-534 | the entries after the seek key up to max, offset dropped, count taken, over any number of pages |
| SortedSetReads.KeepMeaning | src/cmd/zset.rs:505-520 | what is kept are the entries whose number lies between the bounds, in their order |
| SortedSetReads.LimitedMeaning | src/cmd/zset.rs:505-520 | LIMIT drops the first entries and then keeps at most count, 0 standing for all |
| SortedSetReads.ByScoreExact | src/cmd/zset.rs:477-534 | that is "filter min..max" if and only if min <= max fails or no member is one the seek passes over: an empty member scored exactly min, or a score -0.0 under a min of 0.0 |
| SortedSetReads.ByScoreMissesEmptyMember | src/cmd/zset.rs:477-534 | ZRANGEBYSCORE k 0 0 misses the empty member scored 0 |
| SortedSetReads.Zrevrangebyscore | src/cmd/zset.rs:578-639 | filter min..max on the reversed ranking, offset dropped, count taken |
| HashScans.CursorRoundTrip | src/cmd/hash.rs:222-240 | a cursor text is UTF-8, reads back as its key, and only the empty key is written "0" |
| HashScans.HexForms | src/cmd/hash.rs:229-240 | a cursor digit may be of either case, and a lone digit may have a plus sign |
| HashScans.TextIsValid | src/cmd/hash.rs:247-249 | the bytes of any characters one after another are a cursor that is text |
| HashScans.ValidIsText | src/cmd/hash.rs:247-249 | and a cursor that is text is the bytes of some characters |
| HashScans.SplitsExactly | src/cmd/hash.rs:229-240 | decoding a cursor panics on a slice if and only if some pair of bytes ends inside a character and every pair before it is hexadecimal |
| HashScans.CursorCutsCharacter | src/cmd/hash.rs:229-240 | the cursor "aéb" on which it does |
| HashScans.PageIsFields | src/cmd/hash.rs:264-287 | the store page from the place after a field is the next page of fields in field order |
| HashScans.ScanKept | src/cmd/hash.rs:244-287 | the invariant of an iteration under any writes: ascending, sound, and nothing present throughout has been passed over |
| HashScans.ScanGuarantee | src/cmd/hash.rs:244-287 | a finished iteration returns no field twice, nothing that was not in the hash with that value at its page, and every field that was there throughout |
| HashScans.ScanEnds | src/cmd/hash.rs:244-287 | once the hash stops growing, an iteration ends within as many further pages as the hash has fields, for any COUNT including 0 |
| Hashes.Hset | src/cmd/hash.rs:59-87 | fields get the last value given, other fields and keys stay; reply and size count every mention of a field that was not stored |
| Hashes.HsetArguments | src/cmd/hash.rs:68-78 | argument 2 * i names a field that afterwards holds argument 2 * i + 1, unless a later pair names it again |
| Hashes.HsetOthersKept | src/cmd/hash.rs:68-78 | a field that is no even argument keeps its value |
| Hashes.HashMetaCases | src/cmd/hash.rs:28-50 | a record of another type is refused, and expiry makes no difference |
| Hashes.HsetSizeExact | src/cmd/hash.rs:68-78 | that count is right if and only if no new field is given twice |
| Hashes.HsetRepeatedName | src/cmd/hash.rs:68-78 | HSET k f v f w on an absent key replies 2 and stores one field |
| Hashes.Hdel | src/cmd/hash.rs:158-185 | the named fields go; reply and size count every mention of a present field; nothing is written when none is present |
| Hashes.Hscan | src/cmd/hash.rs:244-287 | errors in their order, the panic on a cursor cut inside a character as an aborted command, "0" for an absent key, otherwise one page from whatever key the cursor names |
| Hashes.ScanFromPlace | src/cmd/hash.rs:264-287 | following a returned cursor continues exactly where the page ended, and "0" is returned only at the end |
| Hashes.Iterate | src/cmd/hash.rs:244-287 | a client following cursors from "0" to "0" while HSET and HDEL run between its pages gets every field present throughout, each field once, nothing that was not there; it reaches "0" when from some page on no field is added and more pages follow than the hash then has fields |
| Hashes.Hgetall | src/cmd/hash.rs:125-156 | all fields with their values in field order, over any number of pages |
| Decimals.IntTextRoundTrip | src/protocol.rs:86-90 | printed integers read back exactly when they fit 64 bits |
| Decimals.IntTextCanonical | src/protocol.rs:178-244 | zero is one digit, no other number has a leading zero, a minus sign stands exactly before negative ones |
| Decimals.ParseForms | src/protocol.rs:86-90 | a plus sign and leading zeros make no difference, a sign alone and text with another character are no number |
| RespProtocol.RoundTrip | src/protocol.rs:21-167 | printing a value at any depth and parsing it, with anything after it, gives the value and its exact length if its texts hold no line end and survive decoding, its doubles reread and its lengths fit; and only then gives the value back |
| RespProtocol.WireForms | src/protocol.rs:178-244 | the type byte of every kind of value, and the forms of true, false, null and the null bulk string |
| RespProtocol.WireCounts | src/protocol.rs:178-244 | what the counts count: bytes, values or pairs |
| RespProtocol.ParseOne | src/protocol.rs:21-38 | a successful parse consumes at least 3 bytes and at most the buffer |
| RespStreams.ParseLocal | src/protocol.rs:61-167 | a result depends on exactly the bytes it consumes: any stream that starts with them gives the same result |
| RespStreams.ParseStable | src/protocol.rs:61-167 | bytes that arrive later never change a result already reached |
| RespStreams.PrefixesNeedMore | src/protocol.rs:61-167 | every strict prefix of a printed value asks for more |
| RespStreams.Parse | src/protocol.rs:21-167 | the recursive parser computes the parse function |
| RespStreams.ParseLoop | src/protocol.rs:107-120 | the loop over the values of an array or set computes it, adding up the bytes consumed |
| RespStreams.ParseMapLoop | src/protocol.rs:143-155 | the loop over the pairs of a map computes it |
| RespStreams.PrintInto | src/protocol.rs:178-244 | the recursive printer appends the wire form of the value to the buffer |
| Connections.NextCommand | src/protocol.rs:41-58 | a command cut off the buffer takes between 3 bytes and all of it |
| Connections.OtherForms | src/protocol.rs:41-58 | a text or bulk string alone is a command of one word, in an array a text is a word and anything else an empty one, an integer alone is no command |
| Connections.DrainMore | src/server.rs:122-135 | later bytes only add commands after those already cut off |
| Connections.Connection.TakeCommands | src/server.rs:122-135 | the parse and advance loop takes every complete command and leaves the rest waiting |
| Connections.Connection.Serve | src/server.rs:122-243 | for any split of the stream into reads, the commands, the bytes left and the fate of the connection are those of the whole stream |
| Connections.ServesWhatWasSent | src/server.rs:122-135 | commands sent as arrays of bulk strings come out as sent, nothing left over |
| Connections.ServeClient | src/server.rs:122-243 | and they do so however the network cuts up the stream |
| Connections.StuckForever | src/protocol.rs:41-58 | a complete value that is no command blocks the connection: nothing sent after it is executed |
| Transactions.Session.Handle | src/server.rs:138-207 | one input: the reply, the new transaction state, the commands executed and the store they leave, in every state and for every command kind |
| Transactions.NamesInAnyCase | src/server.rs:136-138 | MULTI, DISCARD, WATCH and EXEC are exactly the names with those letters, each in either case |
| Transactions.WatchKeys | src/server.rs:250-268 | the snapshot is the metadata of each key at that moment |
| Transactions.WatchedChanged | src/server.rs:271-293 | true if and only if some watched key has other metadata than its snapshot |
| Transactions.ExecuteQueue | src/server.rs:296-313 | each queued command runs once, in order, on the store others have left before it |
| Transactions.RunSession | src/server.rs:110-246 | for every sequence of inputs and any writes of others in between: the state is what the inputs say, every input executes exactly what is due, an EXEC from the store its check saw, is answered accordingly, and nothing else touches the store |
| Transactions.OpenMeaning | src/server.rs:139-150 | a transaction is open from a MULTI exactly when that MULTI has not been ended and every earlier one was ended before it |
| Transactions.OpenNone | src/server.rs:152-163 | no transaction is open exactly when every MULTI has been ended by EXEC or DISCARD |
| Transactions.LastWatchMeaning | src/server.rs:165-199 | a WATCH is in force exactly when it stood outside MULTI, every later WATCH stood inside one, and every later EXEC or DISCARD met no open MULTI |
| Transactions.EndCleans | src/server.rs:152-199 | EXEC and DISCARD leave nothing open or queued; they lift the watch if and only if a MULTI was open |
| Transactions.WatchOutlivesExec | src/server.rs:180-187 | WATCH k and then EXEC without MULTI leaves the watch in force |
| Transactions.QueueIsPositions | src/server.rs:202-207 | the queue holds exactly the plain commands after the open MULTI, in their order |
| Transactions.JobPositions | src/server.rs:179-207 | every command executed is the plain command sent at its own position, positions ascending within an input |
| Transactions.RunsOnce | src/server.rs:179-207 | no two executed commands of a run, of one input or of two, come from the same position |
| Lists.IndexRoundTrip | src/cmd/list.rs:76-85 | an index decodes from its code |
| Lists.IndexOrder | src/cmd/list.rs:76-78 | byte order of index codes is numeric order, negative indices first |
| Lists.ListScan | src/cmd/list.rs:248-283 | a scan of the subkeys meets the elements from head to tail |
| Lists.Push | src/cmd/list.rs:87-117 | LPUSH and RPUSH: the elements join at that end in order, size = tail - head + 1, live indices exactly head..tail, reply the new length |
| Lists.Pop | src/cmd/list.rs:129-211 | LPOP and RPOP with and without a count: the elements returned and the list left; head and tail reset when nothing is left; a count of 0 is answered before the key is read |
| Lists.PushEnds | src/cmd/list.rs:87-117 | LPUSH puts its elements one after another at position 0, RPUSH at the last position |
| Lists.PopOneAnswer | src/cmd/list.rs:129-211 | without a count the reply is the element at that end, or nil |
| Lists.PopManyAnswer | src/cmd/list.rs:129-211 | with a count it is the first elements from that end |
| Lists.StackLaw | src/cmd/list.rs:87-211 | popping where one pushed returns the elements last first and leaves the list as it was |
| Lists.QueueLaw | src/cmd/list.rs:87-211 | popping at the other end of an empty list returns them in the order pushed |
| Lists.TakenAndRest | src/cmd/list.rs:129-211 | what is popped and what is left make up the list |
| Lists.ListMetaCases | src/cmd/list.rs:35-58 | a record of another type is refused, an expired list is absent |
| Lists.Lrange | src/cmd/list.rs:221-286 | paged LRANGE equals the slice of the sequence |
| Lists.SliceMeaning | src/cmd/list.rs:233-246 | that slice is the elements whose positions lie between the bounds, counted from the end when negative |
| Lists.SliceInside | src/cmd/list.rs:233-246 | element i goes by i and by i - length, between two elements lies the stretch from one to the other, and 0 to -1 is the whole list |
| Lists.Lindex | src/cmd/list.rs:288-311 | LINDEX is the element at the position, nil outside |
| Lists.IndexIsSlice | src/cmd/list.rs:288-311 | LINDEX i is the one element of LRANGE i i |
| Lists.RunList | src/cmd/list.rs:87-211 | every run of pushes and pops from either end: all replies and the final list are those of the sequence operations |
| Streams.IdRoundTrip | src/cmd/stream.rs:166-171 | an entry ID decodes from its 16 bytes |
| Streams.IdOrder | src/cmd/stream.rs:166-171 | byte order of encoded IDs is the order of IDs |
| Streams.FormatIdRoundTrip | src/cmd/stream.rs:173-197 | the ID in a reply parses back to the entry it was given for |
| Streams.NewIdIsGreater | src/cmd/stream.rs:245-279 | whatever the clock does, a generated or accepted ID is above the last one if and only if the generated sequence number does not wrap |
| Streams.ExplicitIds | src/cmd/stream.rs:245-279 | a complete ID is taken as it is, unless the stream has entries and it is not above the last one |
| Streams.NextAtLeast | src/cmd/stream.rs:245-279 | a generated ID is the least one above the last that is not before its millisecond |
| Streams.SpecForms | src/cmd/stream.rs:245-279 | "*", a millisecond with "-*", and a complete ID are read as such |
| Streams.NewIdWraps | src/cmd/stream.rs:245-279 | after 5-18446744073709551615, 5-* gives 5-0 |
| Streams.FieldsRoundTrip | src/cmd/stream.rs:201-238 | a field list decodes to itself when its parts are under 2^32 bytes |
| Streams.EncodeFieldList | src/cmd/stream.rs:201-209 | the encoding loop |
| Streams.DecodeFieldList | src/cmd/stream.rs:212-238 | the decoding loop computes the recursive decoding, failures included |
| Streams.StreamRoundTrip | src/cmd/stream.rs:30-69 | the stream record decodes to itself |
| Streams.Xadd | src/cmd/stream.rs:281-325 | the entry is stored under its new ID and appended to the log, size and last ID follow, nothing else is touched; a refused ID changes nothing |
| Streams.XaddFields | src/cmd/stream.rs:300-312 | the appended entry holds the arguments two by two, each field before its value |
| Streams.StreamOfCommon | src/cmd/stream.rs:71-110 | a stream record in the common form has the last ID 0-0 |
| Streams.StreamOfCases | src/cmd/stream.rs:71-110 | a record of another type is refused, an expired stream is absent |
| Streams.RunXadd | src/cmd/stream.rs:281-325 | every run of XADD with any ID forms and any clock, wrapping ones included: the stored entries are the accepted ones in order, size is their number, the last ID that of the last one, replies are the IDs or the refusals |
| Streams.RunIncreases | src/cmd/stream.rs:245-325 | the IDs of a run strictly increase if and only if no accepted command of it makes the sequence number wrap |
| Streams.ReadPage | src/cmd/stream.rs:388-407 | a page is the next stretch of the log with IDs and fields decoded intact |
| Streams.Xrange | src/cmd/stream.rs:409-468 | XRANGE is the log filtered to start..end and cut at COUNT, over any number of pages; a COUNT of 0 wraps to no limit |
| Streams.BoundsCoverAll | src/cmd/stream.rs:342-359 | XRANGE k - + is the whole log |
| Streams.MillisBound | src/cmd/stream.rs:342-359 | a start of a millisecond and "-" keeps exactly the entries from that millisecond on |
| Streams.KeepMeaning | src/cmd/stream.rs:409-468 | what is kept are the entries not below start and not above end, in their order |
| Streams.LimitedMeaning | src/cmd/stream.rs:409-468 | COUNT keeps the first entries, 0 and none keep all |
| Streams.Xread | src/cmd/stream.rs:470-524 | XREAD returns for each key the entries after its ID, keys without any left out; otherwise the error of the first key, in their order, with a bad ID or else a bad record |
| Streams.AfterIsTail | src/cmd/stream.rs:470-524 | what XREAD returns for a key is the tail of its log above the ID |
| Streams.AfterEntry | src/cmd/stream.rs:470-524 | from the ID of an entry that is what follows it, without the entry |
| Streams.AllNewerOrder | src/cmd/stream.rs:470-524 | the reply lists the keys that have newer entries in the order given |
| Bits.FlippedBits | src/cmd/bitmap.rs:136-141 | writing one bit changes that bit and no other, also past the end |
| Bits.FlippedWeight | src/cmd/bitmap.rs:128-141 | setting bit o of an empty array gives byte o / 8 the value 2^(o % 8) |
| Bits.OnesInIs | src/cmd/bitmap.rs:200-228 | the number counted in a range of bytes is the number of set bits in it, as SETBIT and GETBIT number them |
| Bits.ByteFnBits | src/cmd/bitmap.rs:332-337 | the byte operation acts on each bit |
| Bitmaps.Setbit | src/cmd/bitmap.rs:119-157 | the bit array gets that bit, the reply is the old bit, size grows to cover the byte, no fragment holds a byte at or beyond size |
| Bitmaps.Getbit | src/cmd/bitmap.rs:159-179 | the bit of the array, 0 beyond its end |
| Bitmaps.RunSetbit | src/cmd/bitmap.rs:119-179 | every run of SETBIT refines a bit function: each reply is the last bit written before it, and so is every final bit |
| Bitmaps.RunIsLastWrite | src/cmd/bitmap.rs:119-157 | every bit of the array after a run is the last one written to it, or its first value |
| Bitmaps.LastWriteMeaning | src/cmd/bitmap.rs:119-157 | that is the bit of the last legal command for the offset |
| Bitmaps.BitmapMetaCases | src/cmd/bitmap.rs:35-58 | a record of another type is refused, an expired bitmap is absent |
| Bitmaps.Bitcount | src/cmd/bitmap.rs:181-230 | counting over fragments equals the number of set bits of the array in the clamped byte range |
| Bitmaps.OnesBetweenIs | src/cmd/bitmap.rs:181-230 | the count between two positions is the number of set bits in the bytes that lie there |
| Bitmaps.CountRangeInside | src/cmd/bitmap.rs:108-117 | byte i goes by i and by i - size, a range inside the array counts the set bits of its bytes, 0 to -1 all of them |
| Bitmaps.CountRangeExact | src/cmd/bitmap.rs:108-117 | that is the number of set bits between the bounds if and only if the range does not lie past an end whose byte has set bits |
| Bitmaps.CountRangePastEnd | src/cmd/bitmap.rs:108-117 | BITCOUNT k 5 9 of the single byte 1 is 1 |
| BitOperations.ResultBits | src/cmd/bitmap.rs:254-350 | at every bit of the longest source AND means all, OR any, XOR an odd number, NOT the opposite; missing and short sources count as zeros |
| BitOperations.HowManyIs | src/cmd/bitmap.rs:317-340 | the number that decides a bit is the number of sources that have it |
| BitOperations.LongestIsMaximum | src/cmd/bitmap.rs:254-278 | the length of the result is the greatest length of a source |
| BitOperations.Bitop | src/cmd/bitmap.rs:254-350 | dest becomes a bitmap holding that result whatever it held, also when it is a source; reply and size are the longest length; errors change nothing |
| BitOperations.NotSource | src/cmd/bitmap.rs:309-316 | the unwrap in NOT is never reached on a missing source |
| BitOperations.FoldFragment | src/cmd/bitmap.rs:317-340 | the nested loops compute the fold of the sources on one fragment |
| BitOperations.Combine | src/cmd/bitmap.rs:324-339 | one more source folded into the buffer in place |
| Counters.Run | src/cmd/string.rs:367-399 | INCR, DECR and APPEND under the lock are one atomic read-modify-write |
| Counters.ReadStringCases | src/cmd/string.rs:43-59 | another type is refused, an expired string is absent, otherwise its payload is read |
| Counters.CountMeaning | src/cmd/string.rs:367-389 | INCR and DECR: the number read, 0 for an absent key, goes up or down by one, is stored as text without expiry and is the reply; text that is no number and the ends of the range are refused and left |
| Counters.AppendMeaning | src/cmd/string.rs:391-399 | APPEND: the key then holds the old text followed by the suffix, and the reply is its length |
| Counters.ExclusiveKept | src/storage.rs:125-128 | a shard lock is held by exactly the client inside it, in every step |
| Counters.UpToDateKept | src/cmd/string.rs:367-399 | what a client has read is what the store holds until it writes, in every step of any client |
| Counters.ShortKeysSound | src/cmd/string.rs:367-399 | without a namespace, or with keys under 2^24 bytes, no client reaches the record another reads, so the conditions of the rows on interleavings hold |
| Counters.Linearizable | src/cmd/string.rs:367-399 | every interleaving of any number of clients is a one-by-one execution with the same store and replies, in the order of the writes |
| CounterOrders.Partition | src/cmd/string.rs:367-399 | clients whose keys chain up to a key and clients whose keys do not may run in either order, with the same store and replies |
| CounterOrders.InsertOutcome | src/cmd/string.rs:367-399 | a client that writes late what it read early leaves the store and the replies of an order in which it runs at an earlier place |
| CounterOrders.PlaceKept | src/cmd/string.rs:367-399 | every other client that has read keeps a place in that order at which it would read the same |
| CounterOrders.Serializable | src/cmd/string.rs:367-399 | in every system, records shared under different locks included, every interleaving is some one-by-one execution with the same store and replies |
| CounterSums.NoLostUpdate | src/cmd/string.rs:367-389 | after any interleaving a counter is its initial value plus the successful INCRs minus the successful DECRs |
| CounterSums.NoLostSuffix | src/cmd/string.rs:391-399 | after any interleaving a key that clients append to holds its initial text followed by the suffixes of those that have run, in one order, and each reply is the length at that client's turn |
| CounterSums.LostExactly | src/cmd/string.rs:367-389 | that holds for every interleaving of a system if and only if the counter has a record of its own or no client writes the one from before namespaces that it reads |
| CounterSums.AliasedIncr | src/cmd/string.rs:367-389 | two keys over 2^24 bytes for which an INCR of one raises the other |
| CounterSums.CountersAddUp | src/cmd/string.rs:367-389 | with room in the range every INCR and DECR succeeds, the sum is of all that have run, and each reply is the value at that client's turn |
| Keyspace.Del | src/cmd/string.rs:308-351 | DEL removes each named key in turn and counts those found |
| Keyspace.DelOne | src/cmd/string.rs:308-351 | one key: its record, its subkeys at its version and, for a sorted set, its score entries |
| Keyspace.PurgedIs | src/cmd/string.rs:337-351 | the version a record names is purged for every type but strings, score entries for sorted sets |
| Keyspace.DeletedLeavesNothing | src/cmd/string.rs:337-351 | a DEL leaves no entry of the key in a family if and only if the key had none there but at the version its record names, and in the score index at that one only if it is a sorted set |
| Keyspace.BitopThenDel | src/cmd/bitmap.rs:280-350 | BITOP onto a key and then DEL of it: the record is gone, and every entry the key had before the BITOP is still there in both families |
| Keyspace.StaleOutlivesDel | src/cmd/string.rs:337-351 | a record at version 2 and an entry at version 1: the DEL leaves the entry |
| Keyspace.DeletedTouches | src/cmd/string.rs:308-351 | one key: nothing but its record and its entries at the recorded version is removed or changed |
| Keyspace.AllDeletedTouches | src/cmd/string.rs:308-351 | any keys: what is neither a named record nor an entry at a version a named key records stays |
| Keyspace.PurgeIsExact | src/cmd/string.rs:337-351 | the purged prefix covers exactly the key's own subkeys at that version, not those of another version, key or namespace |
| Keyspace.DeletedIsGone | src/cmd/string.rs:308-333 | the key is gone afterwards if and only if no record from before namespaces stands behind it |
| Keyspace.LegacyOutlivesDel | src/cmd/string.rs:308-333 | a store with only such a record: DEL k leaves it, and DEL k k replies 2 for one key |
| Keyspace.FoundAfterDel | src/cmd/string.rs:308-333 | after a DEL a key is found if and only if it had a record of its own and was not named, or has a record from before namespaces that is no named key's own |
| Keyspace.DelCountsKeys | src/cmd/string.rs:308-333 | the reply is never below the number of different existing keys named, and equals it if and only if no key with a record from before namespaces is named twice; two named keys must not share one record |
| Keyspace.ShortKeysUnaliased | src/cmd/string.rs:308-333 | keys under 2^24 bytes never share a record |
| Keyspace.AliasedDel | src/cmd/string.rs:308-333 | two longer keys that do: DEL of both replies 1 |
| Keyspace.Flushdb | src/cmd/admin.rs:116-125 | every family loses exactly the keys under the namespace header |
| Keyspace.FlushEmptiesOwn | src/cmd/admin.rs:116-125 | nothing of the namespace is left |
| Keyspace.FlushKeepsOthers | src/cmd/admin.rs:68-79 | every other namespace keeps everything, and so do short keys from before namespaces |
| Keyspace.Dbsize | src/cmd/admin.rs:81-114 | the number of unexpired records under the header, counted over pages |
| Keyspace.ExpiryIsStored | src/cmd/admin.rs:81-114 | a string or record counts as expired from the time stored in it on, 0 and below standing for never |
| Keyspace.DbsizeCountsOwn | src/cmd/admin.rs:68-104 | for a named namespace those are its own keys and no others |

## Left out

- SADD, SREM, SINTER, SDIFF, SUNION and the other set commands: the same page loops over the same subkeys as the hash, with a set in place of a map.
- GET, SET, MSET, EXPIRE, TTL and the other string commands; only the strings that INCR, DECR and APPEND use are modelled. EXPIRE and PERSIST rewrite a stream's record without its last ID; runs that contain them are not covered.
- HGET, HMGET, HEXISTS, HLEN, ZSCORE, ZCARD, LLEN, XLEN: single reads.
- Cluster slots, replication, Pub/Sub, Lua scripts, configuration, metrics and the command line.
- RocksDB itself, its options, log, checkpoints and errors; every read and write succeeds here.
- Floating-point text and arithmetic: scores arrive as bit patterns, addition is a parameter, RESP doubles are printed and read by given functions.
- Lossy UTF-8 decoding of simple strings is a given function, and the converse half of `RespProtocol.RoundTrip` asks that it creates no line end.
- Memory: vectors have no capacity limit. The panic on the negative count of a map or set is the outcome Crash.
- The texts of error replies; a reply is modelled as which error it is.
- Pub/Sub messages that a connection writes between replies.
- Isolation of EXEC: other clients may write between the check and each queued command, and the model lets them.
- Streams.Xrange: reads logs whose IDs increase; `RunIncreases` says when they do.
- Streams.Xread: the same.
- Streams.RunXadd: requires fewer than 2^64 entries.
- Lists.Push: requires that the indices do not leave the 64-bit range, which takes 2^62 pushes.
- Hashes.Iterate: the iteration follows one version of the hash; a DEL and a new HSET between two pages start another one.
- CounterOrders.Serializable: clients are INCR, DECR and APPEND only; a SET, which takes no lock, is not among them. The order need not be the order in time.
- Counters.Linearizable: for the order of the writes, clients of which one writes the record from before namespaces that another reads must share a lock, which only keys of 2^24 bytes or more can break (`ShortKeysSound`); `Serializable` has no such condition.
- Counters.UpToDateKept: the same condition on such clients.
- CounterSums.NoLostUpdate: the counter must have a record of its own or none that another key writes; `LostExactly` says that this is needed.
- CounterSums.CountersAddUp: the same condition.
- CounterSums.NoLostSuffix: the same condition, for a string without expiry.
- CounterSums.LostExactly: speaks of counters that exist and of INCR and DECR on the record they read, away from the ends of the range.
- Keyspace.DelCountsKeys: two named keys must not share one record, which only keys of 2^24 bytes or more can; `AliasedDel` shows why.

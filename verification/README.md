# Verified model of the iRODS C client library

The client library is mostly thin wrappers around remote calls. This project models the places
where it runs an algorithm or a protocol of its own, and proves what they promise:

- **The string-keyed hash table** (`src/core/hashtable.cpp`): chains of heap buckets, updates in
  place, a fixed-size mode and a mode that doubles itself by re-inserting every entry.
  `Hashing.dfy` has the two string hashes, `KeyedLists.dfy` says what a table is for (every key has
  a list of values, oldest first), `ChainedTable.dfy` is the table as a value, `TableLaws.dfy` holds
  growth, cost and conservation, and `HashTable.dfy` is the table in the heap.
- **The Base64 codec** (`src/core/base64.cpp`): `Base64.dfy` says what it computes, group by group,
  `Base64Laws.dfy` proves the laws and `Base64Codec.dfy` has the two loops that write into the
  caller's buffer.
- **The configuration store** (`include/core/irods_configuration_parser.hpp`): `ConfigTree.dfy` has
  trees of typed values and the laws of setting and getting along paths, `ConfigurationParser.dfy`
  the store that is updated in place.
- **Policy-enforced calls** (`include/core/irods_plugin_base.hpp`, `include/core/apiHandler.hpp`,
  both with `ENABLE_RE`): `Policy.dfy`.
- **Server-driven transfers** (`src/api/rcDataObjPut.cpp`, `rcDataObjGet.cpp`, `rcDataObjRsync.cpp`,
  `rcExecMyRule.cpp`): `Transfer.dfy` and `ServerRequests.dfy` say what the calls do and prove the
  protocol, `Connection.dfy` has the calls as they change the connection.

The parts that work step by step are classes and loops, each proved against a function on values;
the laws are proved about those functions. Rule engine, operations, server, local files and
transfer routines are arbitrary functions of the whole history so far, so a statement about them
holds for every behaviour, including one that changes from call to call.

`dafny verify dfyconfig.toml` checks everything.

Where the model follows the code against first impressions, with a lemma at a concrete input where a
promise is broken:

- `B_hash` reads its bytes through `unsigned char*`, so only `sdbm_hash` sees negative characters.
- Three `=` in the last Base64 group ask for no capacity but write one byte.
  `Base64Laws.WritesWithinCapacity` says exactly when that byte is one too many, and
  `Base64Codec.Base64Decode` asks its caller for room behind the capacity only in that case.
  `Base64Laws.OneByteIsTooMany` is an input for which it happens.
- `plugin_base::call` finds out that an operation is missing after its pre rules ran, and then runs
  no except rules; `api_entry::call_handler` finds out first. A missing operation also gets an empty
  entry in the operation table. `Policy.FailedCastRunsNoExceptRules` is such a call.
- `rcDataObjGet` overwrites the status of a failed transfer with that of the checksum verification.
  `Transfer.GetHidesFailure` says exactly when the failure is lost, and
  `Transfer.FailedGetMaySucceed` is a get that loses it.
- A server that accepted a put or a get is sent no completion when it wants RBUDP on an encrypted
  connection, or, for a put, when the environment cannot be read a second time.
  `Transfer.PutCompletes` and `Transfer.GetCompletes` say exactly when;
  `Transfer.AcceptedPutMayEndSilently` is a put that does so.
- A read of another path that fails keeps failing after a set, but the error may turn from "value was
  not a map" into "key not found"; `ConfigTree.OthersUnchanged` says exactly when, and
  `ConfigTree.ErrorMayChange` is a read for which it does.

## Model

| member | source | states |
|---|---|---|
| Hashing.BHash | src/core/hashtable.cpp:293-301 | the wrapping loop over a NUL-terminated buffer computes the Bernstein hash of the string in front of the NUL |
| Hashing.BernsteinIsPolynomial | src/core/hashtable.cpp:293-301 | that hash is 5381 * 33^n plus the sum of c[i] * 33^(n-1-i), modulo 2^64, over unsigned characters |
| Hashing.SdbmHash | src/core/hashtable.cpp:302-310 | the wrapping loop computes the sdbm hash of sign-extended characters |
| Hashing.SdbmIsPolynomial | src/core/hashtable.cpp:302-310 | that hash is the sum of c[i] * 65599^(n-1-i), modulo 2^64 |
| Hashing.ChainOfIsModulo | src/core/hashtable.cpp:125-126 | the chain of a key, found by repeated subtraction, is its hash modulo the size |
| Hashing.IndexOf | src/core/hashtable.cpp:125-126 | the index every operation of the table computes, from the hash loop over the key, is the chain of the key |
| ChainedTable.StepRefines | src/core/hashtable.cpp:99-233 | every operation on every well-formed table does to each key's list, and returns, what the map does, and keeps placement, count and load factor |
| ChainedTable.StepActs | src/core/hashtable.cpp:99-233 | spelled out: insert appends and returns 1, update and delete replace and remove the oldest value and return it, lookup returns it, 0 stands for none, and no other key changes |
| ChainedTable.DoublingPreserves | src/core/hashtable.cpp:103-119 | doubling keeps every key's list in order, re-places every entry, keeps `len`, and leaves room |
| ChainedTable.RunRefines | src/core/hashtable.cpp:99-233 | every run of operations from every well-formed table gives the map's results and final lists |
| ChainedTable.ModeAndSizeDoNotShow | src/core/hashtable.cpp:46-233 | new tables of any two sizes and modes give the same results on the same run |
| ChainedTable.OverwrittenValues | src/core/hashtable.cpp:164-180 | overwriting in a chain changes only the oldest value of its key, and nothing if the key is absent |
| ChainedTable.SplicedValues | src/core/hashtable.cpp:184-218 | splicing a chain removes only the oldest value of its key |
| TableLaws.AmortisedCost | src/core/hashtable.cpp:103-137 | after any run the doublings have moved exactly size - s entries, size is s * 2^k and not below the load, and after a doubling it is below twice the peak load and twice the inserts |
| TableLaws.ReinsertionNeverDoubles | src/core/hashtable.cpp:103-118 | no recursive insert into the doubled table finds it full, so the recursion is one level deep |
| TableLaws.TeardownIsHeld | src/core/hashtable.cpp:260-283 | teardown passes each remaining value to the callback exactly once |
| TableLaws.TeardownAt | src/core/hashtable.cpp:260-283 | each entry is called back behind the chains in front of its own and behind the entries that follow it in its chain |
| TableLaws.Conservation | src/core/hashtable.cpp:99-283 | over any run ended by a teardown, values stored are those displaced, removed or passed to the callback, with multiplicity |
| HashTable.Hashtable.constructor | src/core/hashtable.cpp:46-93 | a new table in either mode is valid and empty |
| HashTable.Hashtable.InsertIntoHashTable | src/core/hashtable.cpp:99-160 | the insert in the heap, with its recursive rehash, is the insert step on the value, keeps the table valid, and terminates |
| HashTable.Hashtable.Double | src/core/hashtable.cpp:104-119 | re-inserting all chains into a new table and taking it over yields the doubled table; the counter of moves grows by one beside each recursive call |
| HashTable.Hashtable.UpdateInHashTable | src/core/hashtable.cpp:164-180 | the update in place is the update step and returns what it displaced |
| HashTable.Hashtable.DeleteFromHashTable | src/core/hashtable.cpp:184-218 | relinking around the first match is the delete step and returns what it removed |
| HashTable.Hashtable.LookupFromHashTable | src/core/hashtable.cpp:222-233 | the walk finds the oldest value, or NULL |
| HashTable.Unlink | src/core/hashtable.cpp:188-215 | both cases of the delete, at the head and behind it, leave the chain linked without its first match |
| HashTable.Hashtable.LookupBucketFromHashTable | src/core/hashtable.cpp:237-248 | the result is the first bucket of the key in its chain, or NULL |
| HashTable.NextBucket | src/core/hashtable.cpp:249-258 | from any bucket of a chain the result is the next bucket of the key behind it, or NULL |
| HashTable.Hashtable.EnumerateBuckets | src/core/hashtable.cpp:237-258 | following nextBucket until NULL meets each bucket of the key once and reads the key's list in order |
| HashTable.Hashtable.DeleteHashTable | src/core/hashtable.cpp:260-272 | a fixed-size table calls back chain by chain, tail first; a doubling one or a NULL callback never calls |
| HashTable.DeleteBucket | src/core/hashtable.cpp:273-283 | the recursion calls back from the end of the chain to its head |
| HashTable.RunOperations | src/core/hashtable.cpp:99-233 | any run on a table in the heap returns what the run on the map returns and ends in the map's lists |
| HashTable.RunTwice | src/core/hashtable.cpp:46-233 | two new tables in the heap of any sizes and modes answer every run alike |
| HashTable.Lifetime | src/core/hashtable.cpp:46-283 | a fixed-size table in the heap that is filled, used and deleted accounts for every value |
| HashTable.InsertionCost | src/core/hashtable.cpp:99-138 | the moves counted in the heap are size - s, below twice the inserts |
| Base64Codec.Base64Encode | src/core/base64.cpp:45-81 | 0 or -324000 exactly at 4*((n+2)/3)+1; the encoding and a NUL are written and nothing behind them |
| Base64Codec.Base64Decode | src/core/base64.cpp:91-137 | the one-pass state machine returns 0, -324000 or -325000, writes and leaves alone what group-wise decoding says, on every input and capacity |
| Base64Codec.OneSymbol | src/core/base64.cpp:103-130 | what each mapped character does to the state (t, y, z, g), in every case, is one step of group-wise decoding |
| Base64Codec.EncodeAndDecode | src/core/base64.cpp:45-137 | encoding and decoding through buffers of exactly the needed sizes gives the bytes back |
| Base64.TablesInvert | src/core/base64.cpp:9-35 | the two tables are inverse to each other |
| Base64.TablesAreTheAlphabet | src/core/base64.cpp:9-35 | both tables are the alphabet of section 4 of RFC 4648, character by character, with '=' at 254 and everything else at 255 |
| Base64.BitOperations | src/core/base64.cpp:58-127 | the arithmetic of the model equals the shifts and masks of the program |
| Base64Laws.DecodeAccepts | src/core/base64.cpp:97-136 | OK exactly for a multiple of four symbols with '=' only as a suffix of k <= 3 and capacity at least 3m - k; the length is 3m - min(k, 2) |
| Base64Laws.DecodeOverflows | src/core/base64.cpp:118-121 | overflow exactly when some leading groups are well formed and do not fit, whatever follows |
| Base64Laws.DecodeRejects | src/core/base64.cpp:97-136 | a well-formed input overflows exactly below its need and is never invalid; a malformed one that fits is invalid |
| Base64Laws.WritesWithinCapacity | src/core/base64.cpp:118-128 | no byte is written behind the capacity, except one exactly when a group with three '=' meets a capacity that is used up |
| Base64Laws.OneByteIsTooMany | src/core/base64.cpp:118-128 | "Q===" with capacity 0 decodes to one byte |
| Base64Laws.NoiseIsIgnored | src/core/base64.cpp:98-102 | inserting or deleting unmapped characters anywhere changes neither code nor output |
| Base64Laws.RoundTrip | src/core/base64.cpp:45-137 | decoding an encoding gives the bytes back if they fit and overflows otherwise |
| Base64Laws.ReverseRoundTrip | src/core/base64.cpp:45-137 | encoding what a canonical string decodes to gives the string back |
| Base64Laws.ImageOfEncode | src/core/base64.cpp:45-81 | the encodings are exactly the canonical strings of section 3.5 of RFC 4648, whose padding is the character '=' |
| Base64Laws.EncodeIsInjective | src/core/base64.cpp:45-81 | different bytes have different encodings |
| Base64Laws.EncodingEnds | src/core/base64.cpp:56-77 | the length of an encoding, and that it is alphabet characters followed by none, one or two '=', as the input length tells |
| Base64Laws.EncodingIsBigEndian | src/core/base64.cpp:57-75 | each group of four characters is the 24 bits of its three bytes, the first byte in front, missing bytes as zero bits |
| Base64Laws.WrittenBytes | src/core/base64.cpp:118-128 | whatever the outcome, each byte written is its eight bits of the 24 bits of its group |
| Base64Laws.HowItEnds | src/core/base64.cpp:97-136 | every call decodes some full groups and then ends in one of the listed ways, with this code and this many bytes written |
| ConfigurationParser.ConfigurationStore.SetPath | include/core/irods_configuration_parser.hpp:46-73 | the walk that creates and converts as it goes either stores the value as one set on the tree or throws and leaves the root as it was |
| ConfigurationParser.ConfigurationStore.GetPath | include/core/irods_configuration_parser.hpp:87-115 | the walk reads what the path leads to, with the error of the step that fails; a leaf is returned exactly at its own type, a map exactly as a map, an empty value never |
| ConfigurationParser.ConfigurationStore.Set | include/core/irods_configuration_parser.hpp:37-44 | the single-key set is the set on the one-element path |
| ConfigurationParser.ConfigurationStore.Get | include/core/irods_configuration_parser.hpp:75-85 | -1800000 for a missing key, -1822000 for a value of another type, and the same as the get on the one-element path |
| ConfigTree.SetFailsAtLeaf | include/core/irods_configuration_parser.hpp:55-69 | a set is refused exactly when a leaf stands in front of its last key |
| ConfigTree.EmptyAccepts | include/core/irods_configuration_parser.hpp:61-65 | once the walk has reached an empty value it can no longer throw |
| ConfigTree.OneKeyFurther | include/core/irods_configuration_parser.hpp:93-108 | one key further a read gives the entry, -1800000 in a map without the key, -1822000 below anything else, and keeps an earlier error |
| ConfigTree.ChildAdded | include/core/irods_configuration_parser.hpp:57-65 | creating the next entry does not change what the set will give, and changes nothing if the entry exists |
| ConfigTree.GetAfterSet | include/core/irods_configuration_parser.hpp:46-115 | after a set, reading at the path or below it reads the stored value |
| ConfigTree.GetBack | include/core/irods_configuration_parser.hpp:46-115 | after a set of a leaf, a map or an empty value, which typed gets return it and which fail |
| ConfigTree.PrefixesAreMaps | include/core/irods_configuration_parser.hpp:55-66 | after a set every place in front of the path holds a map |
| ConfigTree.OthersUnchanged | include/core/irods_configuration_parser.hpp:46-115 | reads along incomparable paths give the same value or error, except exactly where the set turned a shared empty value into a map |
| ConfigTree.ErrorMayChange | include/core/irods_configuration_parser.hpp:61-65 | a set below the empty value at "a" changes the error of reading another key there |
| ConfigTree.OtherGetsUnchanged | include/core/irods_configuration_parser.hpp:46-115 | a typed get elsewhere that succeeded is unchanged, one that failed still fails |
| ConfigTree.SetTwice | include/core/irods_configuration_parser.hpp:46-73 | a second set at the same path replaces the first and is refused together with it |
| ConfigTree.SetsCommute | include/core/irods_configuration_parser.hpp:46-73 | sets on incomparable paths commute, refusals included |
| ConfigTree.LastSetIsRead | include/core/irods_configuration_parser.hpp:46-115 | in any run, a set at a path that is accepted decides what is read there and below it, whatever was set before and whatever is set elsewhere later |
| Policy.InvokePolicyEnforcementPoint | include/core/irods_plugin_base.hpp:323-366 | the loop over namespaces is the phase: outcome, out parameter and events |
| Policy.PhaseReports | include/core/irods_plugin_base.hpp:334-364 | a phase's events are rules of its class whose error, results and out parameter are what the engine gave, chained through the out parameter, and its result is the last failure or success |
| Policy.LastFailureIs | include/core/irods_plugin_base.hpp:347-355 | the result of a phase is the error of the failed rule behind which none failed, or the initial one if none failed |
| Policy.RuleNames | include/core/irods_plugin_base.hpp:337 | the rules are named ns + "pep_" + operation and "_pre", "_post" or "_except" |
| Policy.AnswerIsKept | include/core/irods_plugin_base.hpp:334-340 | what rule_exists is handed is its own last answer, false at first |
| Policy.MatchesRunOnceInOrder | include/core/irods_plugin_base.hpp:336-363 | exactly the namespaces whose rule passes the check and is found to exist at its turn run it, once each and in order |
| Policy.PhaseRuns | include/core/irods_plugin_base.hpp:334-364 | all of this of one phase as its caller sees it, with each rule reading what the one before it wrote and seeing the results it left |
| Policy.PluginBase.Call | include/core/irods_plugin_base.hpp:150-269 | the call is the four-phase machine; at most an empty entry is added to the operations |
| Policy.PluginCallIsSafe | include/core/irods_plugin_base.hpp:150-269 | for every engine: each phase is such a phase; the operation's error and results are what the operation gave; who runs after what, at most once, which error is returned, when except rules run, and what the phases and their rules are handed |
| Policy.ToStringIsDecimal | include/core/irods_plugin_base.hpp:197 | the code in the formatted error is in decimal without leading zeros |
| Policy.FailedCastRunsNoExceptRules | include/core/irods_plugin_base.hpp:212-267 | with rules for every phase, a call of a missing operation runs its pre rule and nothing else |
| Policy.PluginBase.AddOperation | include/core/irods_plugin_base.hpp:115-148 | an empty name is refused, any other is stored |
| Policy.ApiEntry.CallHandler | include/core/apiHandler.hpp:169-282 | the handler call is the four-phase machine behind the lookup and the cast |
| Policy.HandlerCallIsSafe | include/core/apiHandler.hpp:75-282 | the same safety for handlers: a return value below 0 other than -99999999 is a failure, and which code is returned in every case |
| Policy.QuietRuns | include/core/apiHandler.hpp:328-369 | the rules of a handler are handed no out parameter, and their errors and results are the engine's |
| Policy.ApiEntry.AddOperation | include/core/apiHandler.hpp:150-167 | an empty key is refused, any other is stored and becomes the operation called |
| Transfer.PutIsOrderly | src/api/rcDataObjPut.cpp:149-237 | a put is nothing, a request, a complaint, or one transfer and one completion of its failure or of a descriptor |
| Transfer.GetIsOrderly | src/api/rcDataObjGet.cpp:114-211 | the same for a get, which may also write included data |
| Transfer.PutDoesThis | src/api/rcDataObjPut.cpp:97-253 | when a put sends a request and with which size, flag and operation; by which route data then moves; that its failure or the portal's descriptor is completed; the status returned and the input left |
| Transfer.GetDoesThis | src/api/rcDataObjGet.cpp:91-272 | the same for a get, with included data and checksum verification |
| Transfer.OrderlyCounts | src/api/rcDataObjGet.cpp:132-211 | at most one completion, exactly one for every transfer besides included data, and no reply of the outer call is read |
| Transfer.PutCompletes | src/api/rcDataObjPut.cpp:149-230 | an accepted put sends exactly one completion, or none exactly when RBUDP meets encryption or the environment cannot be read; any other put sends none |
| Transfer.GetCompletes | src/api/rcDataObjGet.cpp:123-211 | an accepted get sends exactly one completion, or none exactly when RBUDP meets encryption; any other get sends none |
| Transfer.AcceptedPutMayEndSilently | src/api/rcDataObjPut.cpp:181-191 | an accepted put with RBUDP on an encrypted connection ends without a completion |
| Transfer.PutThreadsTell | src/api/rcDataObjPut.cpp:109-222 | behind a request, the thread count of the connection is set exactly for portal and RBUDP transfers and for refused RBUDP, and is the portal's; without one it is 0 or as before |
| Transfer.GetThreadsTell | src/api/rcDataObjGet.cpp:132-203 | the same for a get |
| Transfer.RetrySendsTheSame | src/api/rcDataObjPut.cpp:102-145 | a put with the input that an earlier put handed back sends the same request, whatever happened since, if there was data |
| Transfer.PutReportsFailure | src/api/rcDataObjPut.cpp:224-237 | a put whose transfer fails returns that failure |
| Transfer.GetHidesFailure | src/api/rcDataObjGet.cpp:204-248 | a get whose transfer fails returns success exactly when a checksum was asked for and sent and the local file verifies |
| Transfer.FailedGetMaySucceed | src/api/rcDataObjGet.cpp:204-248 | a get whose stream fails completes the failure and returns 0 |
| Connection.RcComm.RcDataObjPut | src/api/rcDataObjPut.cpp:96-238 | status and messages of the put, the input it hands back and the thread count it leaves, branch by branch and as PutDoes describes them |
| Connection.RcComm.RcDataObjGet | src/api/rcDataObjGet.cpp:90-249 | status and messages of the get, the input it hands back and the thread count it leaves, branch by branch and as GetDoes describes them |
| Connection.RcComm.RcOprComplete | src/api/rcOprComplete.cpp:31-38 | one completion message with its code |
| Connection.RcComm.RcDataObjRsync | src/api/rcDataObjRsync.cpp:87-214 | a PUT_ACTION reply puts, a GET_ACTION reply gets, any other reply starts the request loop; status, messages and the input handed back; the call keeps the protocol and consumes exactly the replies it reads |
| Connection.RcComm.RcExecMyRule | src/api/rcExecMyRule.cpp:35-90 | the request loop, round by round; the call keeps the protocol, consumes exactly the replies it reads and hands back the parameters of the last one |
| ServerRequests.LoopIsRounds | src/api/rcDataObjRsync.cpp:127-211 | for every script the loop is exactly as many rounds as there are requests; round k puts, gets or does nothing as request k asks, completes the named descriptor or the outcome, and reads reply k + 1 |
| ServerRequests.LoopKeepsProtocol | src/api/rcExecMyRule.cpp:42-87 | these rounds: n replies read, each directly behind a completion, n to 2n completions, and the status of the reply that ends the loop is returned |
| ServerRequests.RsyncKeepsProtocol | src/api/rcDataObjRsync.cpp:93-213 | the same for the whole rsync call; a direct put or get is the put or get of the caller's input, whose success becomes 99999992, or -317000 without a path |
| ServerRequests.LastSlash | src/core/stringOpr.cpp:236-246 | the position of the last slash, or -1 |
| ServerRequests.SplitPathIs | src/core/stringOpr.cpp:229-258 | the file is what follows the last slash; no slash and parts of 1088 characters or more are errors |

## Left out

- Allocation failure, `free`, regions and leaks: buckets are garbage collected and allocation succeeds.
- Table size 0 or negative, and `int` overflow of a table size: hashing modulo zero is undefined, so sizes start at 1 and are unbounded.
- Hashing.IndexOf: keys are sequences, copied into a NUL-terminated buffer to be hashed, so the copying of key strings into the table is not modelled.
- HashTable.Hashtable.InsertIntoHashTable: one body stands for the identical tails of the fixed-size and the doubling branch, and the walks of update, lookup and delete share `Seek` and `SeekBefore`.
- Buffer lengths near 2^64 in the codec, where `4 * ((inlen + 2) / 3)` would wrap around.
- Base64Codec.Base64Encode: the input is a sequence, so an output buffer that overlaps the input is not modelled; the same holds for Base64Codec.Base64Decode.
- ConfigurationParser.ConfigurationStore.SetPath: the cursor is the path to the value it refers to, so references that callers keep into the tree are not modelled; of a thrown exception only the code is.
- JSON loading and writing, copying, and removal of keys in the configuration store: they add easy members.
- C++ type identity of stored values: a leaf carries a tag in place of its type, and storing a `boost::any` as the value is not modelled.
- Rule engine, operation bodies and the logger: arbitrary functions; exceptions thrown by rules or operations are not modelled.
- Policy.ApiEntry.CallHandler: error codes are unbounded, so the narrowing of `long long` codes to `int` is not modelled.
- Builds without `ENABLE_RE`, where a call is the operation alone.
- Sockets, files, threads, RBUDP and checksums: arbitrary functions of the history that return a status.
- Connection.RcComm.RcDataObjPut: a server that accepts a put without included data is taken to send a portal description, since the program reads it unchecked; the input is handed back as a result, so a caller who shares it with another call is not modelled.
- Connection.RcComm.RcDataObjGet: restart files and verbose output change neither status nor messages and are not modelled; the same holds for Connection.RcComm.RcDataObjPut.
- A server that never stops asking: scripts are finite, and reading past the end gives the error of a lost connection.
- The pack engine, the hierarchy and key-value parsers, authentication, plugin loading and the one-line wrappers.

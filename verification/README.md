# Verification of whatsmeow's protocol core

whatsmeow is a client library for the WhatsApp web protocol. This project models the parts of it where bytes, hashes,
counters, caches and concurrent steps have to stay in agreement, and proves that they do, for every input and every
run. Where the code falls short of what it is meant to do, the code is kept as it is and the exact condition under
which it does meet its purpose is proved.

`dafny verify dfyconfig.toml` checks the whole project.

| modules | subject |
|---|---|
| `LTHash`, `AppState`, `AppStateProcessor`, `AppStateSync`, `AppStateEncode`, `AppStateAccept`, `HashCounts` | app state synchronisation: the homomorphic hash, patches, snapshots, recovery, paging, the sender's encoder, what is accepted byte by byte, and what agreement means under every hash expansion |
| `SqlMacs`, `AppStateSql`, `AppStateSqlRuns`, `AppStateSqlOrder`, `AppStateSqlStore` | the same on the SQL store, whose inserts can be refused |
| `Tokens`, `XmlFormat`, `XmlRoundTrip`, `XmlTree`, `XmlExact`, `XmlWire`, `XmlReject`, `XmlWriter`, `XmlReader` | the binary XML codec |
| `Frames`, `Reassembly` | length-prefixed frames over a chunked stream |
| `Noise`, `NoiseSockets`, `Connection` | keys, counters and IVs; a node's whole way from one end to the other |
| `Waiters`, `WaiterDelivery`, `WaiterTable` | the response waiters under every interleaving |
| `SessionCache`, `SessionDevice` | the session write-back cache |
| `DecryptOnce`, `DecryptProgress` | the decrypted-event buffer under crashes and redelivery |
| `Reporting`, `ReportingToken`, `ReportingFilter`, `ReportingLaws`, `ReportingTies`, `ReportingSorts` | the reporting-token filter |
| `Jid`, `JidText`, `RecentMessages`, `GroupCache` | identifiers, the recent-message ring, the group member cache |
| `Bytes`, `Decimal` | shared definitions |

Most subjects come in three layers: a specification on values (for app state, mutations applied one at a time; for the
codec, a grammar; for the transport, a stream), the code in its own form (classes, loops, in-place arrays) proved to
compute that specification, and the laws of the specification. HMAC, HKDF, AES, SHA-256, the ratchet, the
serialisers and zlib are function-valued parameters; the only laws assumed of them are stated as `Lawful` predicates
(decryption undoes encryption, deserialisation undoes serialisation).

## Where the code differs from what one would expect

- socket/framesocket.go:172 counts the three length bytes into the received length before they are dropped.
  `Process` takes that skew as a parameter: with 3 (the code), frames are delivered exactly if no chunk ends between a
  length prefix and the end of its body (`SourceReassemblyIff`); with 0, for every chunking (`ExactReassembly`).
- appstate/encode.go:312-314 looks for previous values in the store only, not back inside the patch being encoded. Sender
  and receiver agree under every hash expansion exactly if both see each value displaced equally often up to multiples
  of 2^16 (`AlwaysAgreeIff`); with fresh values that means that no index is repeated (`AlwaysAgreeIffDistinct`).
- A snapshot never subtracts, so it keeps hash and table in agreement, under every expansion, exactly if it displaces each
  value a multiple of 2^16 times (`SnapshotAlwaysAgreesIff`); one that names an index twice does not (`TwiceInSnapshot`).
- The SQL table of mutation MACs is keyed by version and index and takes only 32-byte MACs. An insert is refused if an
  index is repeated, taken at that version, or a MAC has another length (`InsertSucceedsIff`), and a row with a lower
  version than a stored one is not seen (`PutRefinesIff`). storeMACs has by then written version and hash. So a patch that
  sets an index twice without removing it after the first time leaves a persisted hash that is no longer the sum of the
  persisted table (`RepeatedSetBreaks`). Agreement survives the write of a patch exactly if the counts match
  (`WriteAgreesIff`), with fresh values exactly if the store can take it (`FreshWriteAgreesIff`); the same is given for
  snapshots (`SnapshotWriteAgreesIff`, `FreshSnapshotWriteAgreesIff`) and recoveries (`RecoveryWriteAgreesIff`). It holds
  over every run whose writes the store takes (`EverySqlRunAgrees`), and the first write that it does not take loses it
  (`FirstUntakenBreaks`). With MAC validation off, which no caller asks for, a missing index MAC would reach SQLite as
  NULL and pass both its checks; the model counts it as an index of no bytes, which is refused.
- request.go:82-86 sends after letting the lock go; a run fails exactly if a send follows a cancellation of the same
  channel (`RunFailsIff`), and the cancellation then lies between the take and the send (`FailureIsInFlight`).
- reportingtoken.go:169 sorts with an unstable sort, at every level of the message. The extracted bytes do not depend on it
  exactly if the bytes of tied fields commute at every level that is descended into (`SortIrrelevantIff`); a field that
  occurs twice, at the top or inside a submessage, makes them depend on it (`RepeatedField`, `RepeatedInside`).
- A tree comes back from the XML codec as it was exactly if it is readable (no empty or reserved tag and no list of 2^16
  entries, at any level) and canonical (`ComesBackIff`). Readable trees that are not canonical come back in a normal
  form (`MarshalRoundTrip`); in a tree whose sizes fit and whose tags are not empty, a reserved tag at any level makes
  decoding fail (`NodeFails`).
- A session record is shared by reference: changing a cached one without storing it becomes visible, unlike with direct
  access (`UnseenIffCareful`). ContainsSession looks past the cache (`ContainsAgreesIff`).
- types/jid.go:216 says that the output of String can be parsed; that holds exactly for `Printable` identifiers
  (`StringParsesIff`). The empty default case of NewADJID leaves the server empty for agents that name no domain.
- A recent message whose key is added again within 256 adds is lost when its first slot is overwritten, and one with
  an empty ID is never evicted (`FoundIff`).

## Model

| member | source | states |
|---|---|---|
| LTHash.PerformPointwiseWithOverflow | appstate/lthash/lthash.go:45-58 | the byte loop, in place, is the word-wise sum or difference modulo 2^16 |
| LTHash.PointwiseWord | appstate/lthash/lthash.go:45-58 | every 16-bit little-endian word of the result is that of the operands combined modulo 2^16 |
| LTHash.MultipleOp | appstate/lthash/lthash.go:39-43 | the loop over inputs, in place, folds them into the hash in order |
| LTHash.SubtractThenAddInPlace | appstate/lthash/lthash.go:34-37 | in place: all subtractions, then all additions |
| LTHash.SubtractThenAddCopy | appstate/lthash/lthash.go:27-32 | every word of the copy is the base word minus and plus the integer sums of the inputs' words, modulo 2^16 |
| LTHash.SubtractThenAddWord | appstate/lthash/lthash.go:27-58 | the update is addition and subtraction in the 64-fold product of integers modulo 2^16 |
| LTHash.OnlyMultisetsMatter | appstate/lthash/lthash.go:27-58 | the result depends only on the multisets of inputs, not on their order |
| LTHash.Composes | appstate/lthash/lthash.go:27-58 | two updates are one update with the lists joined |
| LTHash.Undoes | appstate/lthash/lthash.go:27-58 | swapping the two lists undoes an update |
| LTHash.SubtractionsAgreeIff | appstate/lthash/lthash.go:27-58 | two subtractions lead to the same hash exactly if their word sums agree modulo 2^16 |
| LTHash.CarryGoesUp | appstate/lthash/lthash.go:45-58 | a carry goes from the first byte of a word to the second and not beyond it |
| AppState.Conservation | appstate/decode.go:199-212 | for every weight of values: table after = table before + added - displaced, over any mutations |
| AppState.SequentialIsBatch | appstate/hash.go:39-65 | updating the hash mutation by mutation is one batch subtraction and addition |
| AppState.BatchAgreesIff | appstate/hash.go:39-65 | from an agreeing hash and table, subtracting any list keeps agreement exactly if it weighs what was displaced |
| AppState.MutationsKeepAgreement | appstate/hash.go:39-65 | hash = sum of table survives any mutations, with indexes set and removed repeatedly in any order |
| AppState.PatchKeepsAgreement | appstate/decode.go:380-402 | every accepted patch keeps hash = sum of table |
| AppState.PatchesKeepAgreement | appstate/decode.go:380-405 | so does every list of patches, whether it ends in an error or not |
| AppState.PatchesPage | appstate/decode.go:380-405 | a list in one call or in two gives the same collection, mutations and error |
| AppState.FailureKeepsPrefix | appstate/decode.go:380-405 | a failure at one patch leaves exactly the state after the patches before it |
| AppState.SnapshotAgreesIff | appstate/decode.go:257-310 | a snapshot keeps agreement exactly if what it displaces weighs nothing; distinct new indexes displace nothing |
| AppStateAccept.DecodedIff | appstate/decode.go:136-182 | a mutation opens exactly if its content MAC over these bytes matches, it decrypts and parses, and its index is the HMAC of the parsed index; what is handed on is spelled out |
| AppStateAccept.RefusedBecause | appstate/decode.go:136-182 | the first check that fails decides the error |
| AppStateAccept.AllDecodedIff | appstate/decode.go:191-226 | a list opens exactly if each of its mutations does, and they are handed on in order |
| AppStateAccept.VerdictIff | appstate/decode.go:341-352 | the checks in their order: key, snapshot MAC, value lengths, patch MAC, with both MACs written out byte by byte |
| AppStateAccept.PatchAcceptedIff | appstate/decode.go:312-402 | for every collection and patch: accepted exactly if both MACs are the ones over these bytes and every mutation opens; with the new state, table and mutations |
| AppStateAccept.PatchRefusedBecause | appstate/decode.go:312-402 | a refused patch is refused by the first check that fails |
| AppStateAccept.SnapshotAcceptedIff | appstate/decode.go:257-310 | the same for snapshots |
| HashCounts.SumsAgreeIff | appstate/lthash/lthash.go:27-58 | two lists have the same word sums under every expansion exactly if each item occurs equally often in both, up to multiples of 2^16 |
| HashCounts.TablesAgreeIff | appstate/hash.go:39-65 | a hash agreeing with one table agrees with another, under every expansion, exactly if each value has equally many rows in both, up to multiples of 2^16 |
| HashCounts.SnapshotAlwaysAgreesIff | appstate/decode.go:268-284 | under every expansion and whatever was stored, a snapshot keeps agreement exactly if it displaces each value a multiple of 2^16 times |
| HashCounts.TwiceInSnapshot | appstate/decode.go:268-284 | a snapshot that names one index twice breaks agreement on an empty collection |
| AppStateProcessor.RemoveCommutes | appstate/decode.go:121-127 | taking an index out of both lists is removing it from the table they produce |
| AppStateProcessor.ListsAreMutations | appstate/decode.go:121-134 | on any table, deleting and inserting what a patch lists is applying its mutations one by one |
| AppStateProcessor.PatchOutput.RemoveMAC | appstate/decode.go:121-127 | on any table, delete-then-put now has the effect it had, followed by removing the index |
| AppStateProcessor.PatchOutput.AddMAC | appstate/decode.go:129-134 | on any table, delete-then-put now has the effect it had, followed by setting the index |
| AppStateProcessor.FindPrevious | appstate/decode.go:322-335 | the look-back in patch and store finds the entry of the table after the mutations before it |
| AppStateProcessor.UpdateHash | appstate/hash.go:39-65 | the loop subtracts what the chosen look-up displaces and adds the new values; a value shorter than its MAC is a panic |
| AppStateProcessor.AppStateStore.PutAppStateVersion | store/sqlstore/store.go:505-508 | version and hash of the one collection are replaced, its table is kept |
| AppStateProcessor.AppStateStore.DeleteAppStateVersion | store/sqlstore/store.go:530-533 | the collection is gone with its table |
| AppStateProcessor.AppStateStore.DeleteAppStateMutationMACs | store/sqlstore/store.go:572-590 | the named indexes are gone |
| AppStateProcessor.AppStateStore.PutAppStateMutationMACs | store/store.go:73-81 | a store that takes every row: put in order, the last one for an index wins |
| AppStateProcessor.FirstErrorWins | appstate/decode.go:191-226 | the first mutation that cannot be decoded decides the error |
| AppStateProcessor.DecodeMutations | appstate/decode.go:191-226 | decodes all mutations or gives the first error; the two lists are those of the mutations and have their effect one by one |
| AppStateProcessor.Processor.StoreMACs | appstate/decode.go:228-242 | on a store that refuses nothing, version, hash and table of the one collection become the new ones |
| AppStateProcessor.Processor.DecodeSnapshot | appstate/decode.go:257-310 | on a store that refuses nothing: store, mutations and error of the one-by-one specification; beside an error, no mutations and the refused state |
| AppStateProcessor.ValidatePatch | appstate/decode.go:312-354 | the new hash is the one-by-one hash; the verdict is that of the snapshot and patch MACs |
| AppStateProcessor.ValidateSnapshot | appstate/decode.go:265-295 | the loop turns records into sets; the hash adds them all; the verdict is that of the snapshot MAC |
| AppStateProcessor.Processor.DecodePatch | appstate/decode.go:380-402 | on such a store, one turn of the loop: store, mutations and error of the specification; beside an error, what was there before |
| AppStateProcessor.Processor.DecodePatches | appstate/decode.go:357-406 | on such a store: store, returned state, mutations and error of a whole list, also what is returned beside the error of a patch |
| AppStateSync.ProcessRecovery | appstate/recovery.go:51-97 | the loops install exactly the recovered collection, or leave the store alone and report the first error |
| AppStateSync.RecoveryAgreesIff | appstate/recovery.go:51-97 | with distinct indexes, hash and table agree exactly if the supplied hash sums the records |
| AppStateSync.RecoveredRows | appstate/recovery.go:59-83 | each record is stored under the HMAC of its index with the index key, with the MAC and action it carries |
| AppStateSync.RecoverableIff | appstate/recovery.go:59-68 | the records are accepted exactly if all keys are known and all indexes parse |
| AppStateSync.RecoveredIff | appstate/recovery.go:52-56 | a recovery is accepted exactly if its hash has 128 bytes and its records are |
| AppStateSync.RecoveryInstalls | appstate.go:120-135 | a recovery that is newer and opens is installed; any other changes nothing |
| AppStateAccept.RecoversWhatWasDecoded | appstate/recovery.go:59-83 | recovering a record gives the mutation that decoding the same record gives, index MAC included |
| AppStateAccept.RecoveryIsSnapshot | appstate/recovery.go:51-97 | recovering the records of a snapshot installs the very collection that the snapshot installs |
| AppStateSync.WhereSyncStarts | appstate.go:48-64 | from nothing if asked to or if nothing is stored, otherwise from what is stored, or not at all |
| AppStateSync.UnwantedSnapshots | appstate.go:77-81 | a snapshot nobody asked for, or over a state that is not empty, is refused |
| AppStateSync.FullSyncForgets | appstate.go:48-60 | the outcome of a full synchronisation does not depend on what was stored |
| AppStateSync.SyncPersists | appstate.go:73-89 | a complete answer that applies is what the store holds afterwards; other collections stay |
| AppStateSync.PagingIsTransparent | appstate.go:73-89 | any division of a list into pages gives the run of the whole list |
| AppStateSync.SyncLoop | appstate.go:73-89 | the paging loop's store, mutations, state and error are those of the pages in order |
| AppStateSync.FetchAppState | appstate.go:42-97 | reset, early return and paging; the returned state is the persisted one; beside an error nothing is handed on |
| AppStateSync.HandleAppStateRecovery | appstate.go:99-150 | a recovery takes effect only if it is newer than what is stored; what is installed is handed on, and nothing else |
| AppStateSync.EventKeepsAgreement | appstate.go:42-150 | on a store that refuses nothing, a synchronisation or recovery keeps hash = sum of table in every collection |
| AppStateSync.EveryRunAgrees | appstate.go:42-150 | on a store that refuses nothing, after every run of synchronisations and recoveries from empty, every hash is the sum of its table |
| AppStateEncode.EncodePatch | appstate/encode.go:263-337 | the loop seals every mutation in order, or reports the missing key or failure, and stamps both MACs over the sender's hash |
| AppStateEncode.SealedIff | appstate/encode.go:274-309 | a mutation is sealed exactly if it serialises and encrypts, and then these are its index MAC and the bytes of its value |
| AppStateEncode.EncodedIff | appstate/encode.go:273-310 | a patch is encoded exactly if every mutation can be sealed |
| AppStateEncode.SealedFor | appstate/encode.go:311-336 | both MACs are for the version after the sender's, over these bytes |
| AppStateEncode.OpensWhatWasSealed | appstate/encode.go:272-310 | the receiver opens a sealed mutation to its index, value and version |
| AppStateEncode.OpensAll | appstate/decode.go:136-226 | all of them, in order |
| AppStateEncode.HashesAgreeIff | appstate/encode.go:312-314 | sender's and receiver's hashes are equal exactly if what each subtracts weighs the same; distinct indexes suffice |
| AppStateEncode.AcceptedIff | appstate/decode.go:312-354 | a peer in the same state accepts exactly if its own snapshot MAC is the sender's, and then gets the original mutations |
| AppStateEncode.DistinctPatchIsAccepted | appstate/encode.go:263-337 | with distinct indexes every peer in the same state accepts, yields the originals and reaches the sender's hash |
| AppStateEncode.DisplacedOnce | appstate/decode.go:322-335 | a fresh value that is displaced inside its patch is displaced once |
| AppStateEncode.RepeatedIndexDisagrees | appstate/encode.go:312-314 | for every patch with fresh values that repeats an index there is a hash expansion under which sender and receiver differ |
| AppStateEncode.AlwaysAgreeIff | appstate/encode.go:312-314 | for every patch, sender and receiver agree under all expansions exactly if both see each value displaced equally often, up to multiples of 2^16 |
| AppStateEncode.AlwaysAgreeIffDistinct | appstate/encode.go:312-314 | with fresh values, as fresh IVs make them, that is the case exactly if no index is repeated |
| SqlMacs.InsertSucceedsIff | store/sqlstore/upgrades/00-latest-schema.sql:89-98 | the transaction succeeds exactly if the indexes are distinct and free at that version and all MACs have 32 bytes, and then adds exactly those rows |
| SqlMacs.ShortMacIsRefused | store/sqlstore/upgrades/00-latest-schema.sql:93-94 | an index MAC or value MAC that is not 32 bytes long is refused |
| SqlMacs.PutRefinesIff | store/sqlstore/store.go:502-570 | an insert acts like putting into a map exactly if indexes are distinct and free, MACs have 32 bytes, and no index is hidden by a later version with another value |
| SqlMacs.DeleteRefines | store/sqlstore/store.go:572-590 | deleting indexes always acts like deleting from the map |
| SqlMacs.OrderlyRunRefines | store/sqlstore/store.go:492-598 | over every run with rising versions, distinct indexes and 32-byte MACs, no insert fails and the table is the map |
| AppStateSql.SeenUnique | store/sqlstore/store.go:592-598 | there is one table that lookups of the highest version show |
| AppStateSql.WriteAgreesIff | appstate/decode.go:228-242 | for every patch and any rows, the new hash agrees with what its three writes leave, under every expansion, exactly if each value has as many rows as after applying the patch, up to multiples of 2^16 |
| AppStateSql.WriteIsTakenIff | appstate/decode.go:228-242 | the three writes leave what the mutations one by one leave exactly if the store takes the rows: distinct, 32 bytes, free, and not hidden by a later version with another value |
| AppStateSql.FreshWriteAgreesIff | appstate/decode.go:228-242 | with fresh values, exactly if the store can take the rows: distinct indexes, 32-byte MACs, a version above those kept |
| AppStateSql.ListedIff | appstate/decode.go:121-134 | a patch lists an index for insertion exactly if it sets it for good, and twice exactly if it sets it twice |
| AppStateSql.DistinctIffSetOnce | appstate/decode.go:121-134 | the rows listed are distinct exactly if no index is set twice without a remove after the first time |
| AppStateSql.RepeatedSetBreaks | appstate/decode.go:228-242 | a patch that sets an index twice with fresh values is refused after version and hash are written, and agreement is lost under some expansion |
| AppStateSql.UntakenBreaks | appstate/decode.go:228-242 | so is agreement after any write of fresh values that the store does not take |
| AppStateSql.SnapshotWriteAgreesIff | appstate/decode.go:257-310 | for every snapshot and any rows, agreement survives its write, under every expansion, exactly if each value has as many rows as before plus as often as the snapshot has it, modulo 2^16 |
| AppStateSql.FreshSnapshotWriteAgreesIff | appstate/decode.go:257-310 | for different values on an empty collection, exactly if no index occurs twice and all MACs have 32 bytes |
| AppStateSqlStore.SqlStore.PutAppStateMutationMACs | store/sqlstore/store.go:535-570 | the loop inserts all rows or, refused at any of them, none |
| AppStateSqlStore.SqlStore.GetAppStateMutationMAC | store/sqlstore/store.go:592-598 | the value of the index in the table that lookups show |
| AppStateSqlStore.SqlStore.StoreMACs | appstate/decode.go:228-242 | version first, then the deletions, then an insert that may be refused with the other two done |
| AppStateSqlStore.SqlProcessor.DecodeAndStore | appstate/decode.go:393-401 | what was validated is decoded and written; a refused insert is an error with version, hash and deletions in place |
| AppStateSqlStore.SqlProcessor.DecodePatch | appstate/decode.go:380-403 | one turn of the loop on the SQL store, with its look-ups, its refused writes and what is returned beside an error |
| AppStateSqlStore.SqlProcessor.DecodeSnapshot | appstate/decode.go:257-310 | the same for a snapshot |
| AppStateSqlStore.SqlProcessor.DecodePatches | appstate/decode.go:357-406 | the loops over a whole list on the SQL store compute the run of the specification, up to the first error or refused write |
| AppStateSqlRuns.PatchesShow | appstate/decode.go:380-405 | if the store takes the write of every accepted patch of a list, it shows the run on the map store: state, table, mutations, error |
| AppStateSqlRuns.PagesShow | appstate.go:73-89 | so it is for a paged synchronisation |
| AppStateSqlRuns.FirstUntakenBreaks | appstate/decode.go:380-405 | the first accepted patch of a list whose write is not taken, if its values are fresh, loses agreement under some expansion |
| AppStateSqlRuns.RecoveryWriteAgreesIff | appstate/recovery.go:84-96 | a recovery leaves hash and table in agreement exactly if its rows are taken and the hash sums the records, or they are refused and the hash is that of nothing |
| AppStateSqlRuns.SqlRunIsMapRun | appstate.go:42-150 | so it is for every run of synchronisations and recoveries whose writes the store takes |
| AppStateSqlRuns.EverySqlRunAgrees | appstate.go:42-150 | after every such run from an empty SQL store, every persisted hash is the sum of the rows that lookups show |
| AppStateSqlOrder.MutationsTaken | appstate/decode.go:191-242 | mutations opened with their MACs checked are taken if their version is newer and no index is set twice |
| AppStateSqlOrder.OrderlyRunIsTaken | appstate.go:42-150 | the store takes every write of a run whose patches have rising versions and set no index twice |
| Tokens.BuildIndex | binary/token/token.go:30-43 | both index maps lead back to their tokens and know every token |
| Tokens.IndexSingle | binary/token/token.go:33-37 | the loop over single tokens, with the empty ones left out |
| Tokens.IndexDouble | binary/token/token.go:38-42 | the nested loops over the dictionaries |
| XmlRoundTrip.StringRoundTrip | binary/encoder.go:135-149 | every text, in whichever of its encodings, is read back with the rest of the input untouched |
| XmlRoundTrip.PackedRoundTrip | binary/encoder.go:223-309 | nibble and hex packing, odd lengths included, are undone |
| XmlRoundTrip.JidRoundTrip | binary/encoder.go:161-188 | each of the four identifier encodings is read back to the fields it carries |
| XmlRoundTrip.ValueRoundTrip | binary/decoder.go:168-223 | any value followed by any rest is read back in normal form with that rest |
| XmlRoundTrip.AttrsRoundTrip | binary/decoder.go:306-330 | so are attributes, in the order they were written |
| XmlRoundTrip.NodesRoundTrip | binary/decoder.go:332-350 | so are lists of nodes |
| XmlRoundTrip.NodeRoundTrip | binary/decoder.go:352-384 | so are nodes: decode(encode(n) + rest) = (normal form of n, rest) |
| XmlTree.MarshalRoundTrip | binary/node.go:123-139 | for readable trees, Unmarshal after Unpack after Marshal gives the normal form with nothing left over, for every walk of the attribute maps |
| XmlTree.CanonicalIff | binary/encoder.go:81-199 | the canonical nodes are exactly the ones equal to their normal form |
| XmlTree.CanonicalRoundTrip | binary/node.go:123-139 | canonical trees come back as they were |
| XmlTree.ReservedTag | binary/encoder.go:82-86 | a root with the reserved tag "0" is reported as invalid |
| XmlTree.EmptyTag | binary/decoder.go:352-384 | so is a root with an empty tag, whatever its size |
| XmlExact.ReservedNeverParsed | binary/encoder.go:82-86 | a node with the reserved tag is not read back, whatever follows it |
| XmlExact.NodeFails | binary/decoder.go:352-384 | nor is any tree with sizes that fit, no empty tag, and the reserved tag at any level, in content or in attributes |
| XmlExact.NodeDecodable | binary/decoder.go:155-384 | whatever is decoded has no empty tag and no more entries than two bytes of size announce, at every level |
| XmlExact.CanonicalFromMaps | binary/encoder.go:81-199 | with distinct keys, a tree whose normal form has the same maps is canonical |
| XmlExact.ComesBackIff | binary/node.go:123-139 | every tree the encoder accepts comes back as it was exactly if it is readable and canonical at every level |
| Decimal.ItoaIsDecimal | binary/encoder.go:109-120 | every 64-bit integer is written so that it parses back, with a minus sign exactly if negative, and no leading zeros |
| XmlWire.IntegersArrive | binary/encoder.go:109-120 | an integer attribute is read as a text that parses to the same integer |
| XmlWire.FlagsArrive | binary/encoder.go:121-122 | a flag is read as the text true or false |
| XmlWire.TokenBytes | binary/encoder.go:135-149 | a token is one byte, a token of a dictionary two |
| XmlWire.PackedBytes | binary/encoder.go:223-309 | two texts packed, byte by byte |
| XmlWire.PackedWhen | binary/encoder.go:135-149 | exactly which texts are packed as nibbles and which as hex |
| XmlWire.LengthBytes | binary/encoder.go:64-77 | the three forms of a length, byte by byte |
| XmlWire.ListBytes | binary/encoder.go:211-221 | the three forms of a list header |
| XmlWire.DeviceBytes | binary/encoder.go:161-188 | the bytes of a device identifier on each server: domain, device, user |
| XmlWire.OtherIdentifierBytes | binary/encoder.go:161-188 | the bytes of the other identifiers |
| XmlWire.NodeBytes | binary/encoder.go:81-99 | the bytes of nodes, with empty attributes left out |
| XmlReject.NodeExtends | binary/decoder.go:21-406 | on every byte string, bytes behind what is decoded change nothing but what is left over |
| XmlReject.TruncatedIsRefused | binary/decoder.go:21-38 | no message that is cut short is decoded |
| XmlReject.LeftoverIsReported | binary/node.go:130-139 | a message with bytes left over is reported, with how many |
| XmlReject.FlagByte | binary/unpack.go:21-31 | only the second bit of the flag byte matters |
| XmlReject.PackedValues | binary/decoder.go:118-153 | which packed values are characters |
| XmlReject.UnknownTokens | binary/decoder.go:168-223 | bytes that start nothing are errors |
| XmlReject.TokensAreRead | binary/decoder.go:168-223 | every token in the tables is read; one past its dictionary is an error |
| XmlReject.OddNothing | binary/decoder.go:83-116 | a packed text of odd length without bytes slices out of range |
| XmlReject.BadIdentifiers | binary/decoder.go:225-304 | a wrong or missing server is an error, a part that is not a text a failed type assertion |
| XmlReject.BadKeysAndTags | binary/decoder.go:306-384 | a key that is not a text is an error, a tag that is not a text a failed type assertion |
| XmlReject.LastKeyCounts | binary/decoder.go:306-330 | of two attributes with one key the later counts |
| XmlTree.ValueProgress | binary/decoder.go:168-223 | on every byte string, a value that is read takes at least one byte and three per node in it |
| XmlTree.AttrsProgress | binary/decoder.go:306-330 | attributes never give bytes back |
| XmlTree.NodesProgress | binary/decoder.go:332-350 | a list takes at least three bytes per node in it |
| XmlTree.NodeProgress | binary/decoder.go:352-384 | a node takes at least three bytes and three per node in it, so there are at most len/3 nodes |
| XmlTree.EveryNodeCounts | binary/decoder.go:332-384 | the count takes in every node, in content and in attributes |
| XmlWriter.BinaryEncoder.PushIntN | binary/encoder.go:32-42 | appends the big-endian bytes |
| XmlWriter.BinaryEncoder.PushInt20 | binary/encoder.go:44-46 | appends 20 bits in three bytes |
| XmlWriter.BinaryEncoder.WriteByteLength | binary/encoder.go:64-77 | appends the length tag of the grammar |
| XmlWriter.BinaryEncoder.WriteBytes | binary/encoder.go:151-154 | appends length and bytes |
| XmlWriter.BinaryEncoder.WritePackedBytes | binary/encoder.go:223-250 | the loop over pairs appends the packed form of the grammar |
| XmlWriter.BinaryEncoder.WriteString | binary/encoder.go:135-149 | token, packed or raw, as the grammar chooses |
| XmlWriter.BinaryEncoder.WriteListStart | binary/encoder.go:211-221 | appends the list header |
| XmlWriter.BinaryEncoder.WriteJID | binary/encoder.go:161-188 | appends one of the four identifier encodings |
| XmlWriter.BinaryEncoder.CountAttributes | binary/encoder.go:201-209 | the loop counts the attributes that are written |
| XmlWriter.BinaryEncoder.WriteAttributes | binary/encoder.go:190-199 | appends them in order |
| XmlWriter.BinaryEncoder.Write | binary/encoder.go:101-133 | appends the grammar's form of any value |
| XmlWriter.BinaryEncoder.WriteNode | binary/encoder.go:81-99 | appends the grammar's form of a node |
| XmlWriter.Marshal | binary/node.go:123-127 | the whole encoder produces what the grammar says |
| XmlReader.BinaryDecoder.ReadByte | binary/decoder.go:29-38 | reads one byte or fails at the end, cursor in range |
| XmlReader.BinaryDecoder.ReadIntN | binary/decoder.go:40-59 | the loop reads a big-endian number |
| XmlReader.BinaryDecoder.ReadInt20 | binary/decoder.go:69-77 | reads 20 bits |
| XmlReader.BinaryDecoder.ReadBytesOrString | binary/decoder.go:386-406 | reads so many bytes, as text or as bytes |
| XmlReader.BinaryDecoder.ReadPacked8 | binary/decoder.go:83-153 | the loop unpacks what the grammar unpacks |
| XmlReader.BinaryDecoder.ReadListSize | binary/decoder.go:155-166 | reads the list header |
| XmlReader.BinaryDecoder.Read | binary/decoder.go:168-223 | on every input: value, new cursor, error and panic of the grammar |
| XmlReader.BinaryDecoder.ReadJIDPair | binary/decoder.go:225-239 | the same for user and server |
| XmlReader.BinaryDecoder.ReadInteropJID | binary/decoder.go:241-266 | the same for interop identifiers |
| XmlReader.BinaryDecoder.ReadFBJID | binary/decoder.go:268-288 | the same for Messenger identifiers |
| XmlReader.BinaryDecoder.ReadADJID | binary/decoder.go:290-304 | the same for device identifiers |
| XmlReader.BinaryDecoder.ReadAttributes | binary/decoder.go:306-330 | the loop fills the attribute map as the grammar says |
| XmlReader.BinaryDecoder.ReadList | binary/decoder.go:332-350 | the loop fills the list of nodes as the grammar says |
| XmlReader.BinaryDecoder.ReadNode | binary/decoder.go:352-384 | on every input: node, new cursor, error and panic of the grammar |
| XmlReader.Unmarshal | binary/node.go:130-139 | the whole decoder, the check for leftover bytes included |
| JidText.ParsedIsNameable | types/jid.go:158-200 | what is parsed has no '@' or '.' in the user, no '@' in the server and no integrator |
| JidText.ADStringParsesIff | types/jid.go:158-212 | ParseJID undoes ADString exactly on the identifiers that some text parses to, and those are the nameable ones |
| JidText.StringParsesIff | types/jid.go:158-226 | ParseJID undoes String exactly on printable identifiers |
| JidText.ADStringInjective | types/jid.go:210-212 | ADString is injective on nameable identifiers |
| JidText.WrittenForms | types/jid.go:210-226 | one identifier in each of the written forms, character by character |
| JidText.RefusedTexts | types/jid.go:164-191 | too many dots or colons are refused |
| JidText.RefusedNumbers | types/jid.go:171-186 | after the dot: too many colons and texts that are not numbers are refused |
| JidText.WideNumbers | types/jid.go:193-197 | numbers are cut down to the width of their field |
| Decimal.AtoiRefuses | types/jid.go:175-195 | what is not a number of 64 bits is refused |
| Frames.FrameSocket.SendFrame | socket/framesocket.go:120-150 | the wire grows by the header (once) and the prefixed frame, or not at all |
| Frames.FrameSocket.FrameComplete | socket/framesocket.go:152-159 | the frame is handed on and the receiver starts afresh |
| Frames.FrameSocket.Turn | socket/framesocket.go:161-200 | one turn of the loop makes progress and is one step of the stream specification |
| Frames.FrameSocket.StartFrame | socket/framesocket.go:163-187 | a length prefix, put together from parts if need be, and the body as far as it is there |
| Frames.FrameSocket.ContinueFrame | socket/framesocket.go:188-198 | more of a body that has begun; a count past its end slices out of range |
| Frames.FrameSocket.ProcessData | socket/framesocket.go:161-200 | a chunk of any size is processed as the stream specification says; slices out of range are its crash |
| Frames.SendAll | socket/framesocket.go:120-150 | over every sequence of sends the wire is the header once, then the accepted frames with their lengths |
| Frames.AcceptedInOrder | socket/framesocket.go:120-150 | the frames accepted are all those of fewer than 2^24 bytes, in their order |
| Frames.FirstFrameBytes | socket/framesocket.go:120-150 | the first frame on the wire, byte by byte |
| Frames.LongestFrame | socket/framesocket.go:120-150 | frames of up to 2^24 - 1 bytes can be sent |
| Reassembly.CutAnywhere | socket/framesocket.go:161-200 | with an exact count, a chunk can be cut anywhere |
| Reassembly.ChunkingIsIrrelevant | socket/framesocket.go:161-200 | with an exact count, only the bytes matter |
| Reassembly.ExactReassembly | socket/framesocket.go:161-200 | with an exact count, every chunking delivers exactly the frames sent |
| Reassembly.SourceReassemblyIff | socket/framesocket.go:161-200 | with the code's count, the frames are delivered exactly if no chunk ends between a prefix and the end of its body |
| Reassembly.OneByteFrameCut | socket/framesocket.go:172-173 | a one-byte frame cut after its prefix is lost by the code and delivered with an exact count |
| Noise.IVInjective | socket/noisesocket.go:73-77 | different counts give different IVs |
| Noise.IVFollowsNoise | socket/noisesocket.go:73-77 | the IV is that of section 12.4 of the Noise Protocol Framework |
| Noise.StepKeepsInv | socket/noisehandshake.go:59-117 | every step keeps each counter equal to the number of uses of its key, modulo 2^32 |
| Noise.RunKeepsInv | socket/noisehandshake.go:59-117 | so does every run in which the derived keys differ |
| Noise.NonceDiscipline | socket/noisehandshake.go:59-117 | over every run with distinct keys, no (key, IV) pair repeats exactly if no key is used more than 2^32 times |
| NoiseSockets.NoiseHandshake.Start | socket/noisehandshake.go:39-53 | first hash, salt and key from the pattern, then the header authenticated |
| NoiseSockets.NoiseHandshake.Authenticate | socket/noisehandshake.go:55-57 | only the hash moves on |
| NoiseSockets.NoiseHandshake.PostIncrementCounter | socket/noisehandshake.go:59-62 | returns the old count; the new one wraps at 2^32 |
| NoiseSockets.NoiseHandshake.Encrypt | socket/noisehandshake.go:64-68 | seals under the current count and hash, then counts and authenticates |
| NoiseSockets.NoiseHandshake.Decrypt | socket/noisehandshake.go:70-76 | counts also on failure, authenticates only on success |
| NoiseSockets.NoiseHandshake.MixIntoKey | socket/noisehandshake.go:105-117 | the counter is reset together with a new key |
| NoiseSockets.NoiseHandshake.Finish | socket/noisehandshake.go:78-95 | a socket with the two final keys and both counters at zero |
| NoiseSockets.NoiseSocket.SendFrame | socket/noisesocket.go:91-110 | a context already cancelled changes nothing; otherwise the counter moves on whether or not the sealed frame reaches the wire |
| NoiseSockets.NoiseSocket.ReceiveEncryptedFrame | socket/noisesocket.go:112-120 | the counter moves on whether or not the frame opens |
| Connection.HandshakeAgrees | socket/noisehandshake.go:55-117 | two ends that take the same steps keep equal state and open everything sealed for them |
| Connection.StartFollowsNoise | socket/noisehandshake.go:39-53 | first hash, chaining key and key |
| Connection.StepsFollowNoise | socket/noisehandshake.go:55-117 | MixHash, MixKey, EncryptAndHash and DecryptAndHash of section 5.2 of the Noise Protocol Framework |
| Connection.EndsMeet | socket/noisehandshake.go:78-95 | the client writes with the first derived key and reads with the second: what either end seals, the other opens |
| Connection.AfterHandshake | handshake.go:30-129 | after any handshake the transport keys are new and unused |
| Connection.TransportUses | socket/noisesocket.go:91-120 | each transport key is used once for every frame of its direction |
| Connection.WholeConnection | handshake.go:30-129 | over handshake and transport, no (key, IV) pair repeats exactly if at most 2^32 frames go each way |
| Connection.OpenedInPlace | socket/noisesocket.go:91-120 | a frame that arrives unaltered in its place is opened, whatever was done to the ones before it |
| Connection.NodesArrive | socket/noisesocket.go:91-120 | canonical nodes, marshalled, sealed, framed, suitably chunked, reassembled, opened and unmarshalled, arrive as sent and in order |
| Waiters.ClearStep | request.go:43-54 | clearing never takes its close branch: every waiter gets the disconnection and stays open |
| Waiters.StepKeepsInv | request.go:43-89 | every channel in the table is open and empty after every step; the only failing step is a send to a cancelled channel |
| Waiters.Run | request.go:43-89 | in every run each channel gets at most one node, its own answer or a disconnection |
| Waiters.CancelledMeansCancelEvent | request.go:64-69 | channels are closed by their own cancellation only |
| Waiters.RunFailsIff | request.go:43-89 | no send blocks and nothing is closed twice; a run fails exactly if in its events a send follows a cancellation of its channel |
| Waiters.FailureIsInFlight | request.go:64-89 | in every run that fails, the cancellation lies between the take of the channel and the send |
| Waiters.FailingRun | request.go:56-89 | register, take, cancel, send is such a run |
| Waiters.NeverTakenAgain | request.go:64-89 | over every run, a channel cancelled before it was taken is never taken |
| WaiterDelivery.SendDelivers | request.go:84-88 | a send that does not fail puts the answer to its own request into the channel, and touches no other |
| WaiterDelivery.ConsumeReads | request.go:160-161 | what the caller reads is what was delivered |
| WaiterDelivery.TableSteps | request.go:56-83 | what registering, taking, giving up and cancelling change |
| WaiterDelivery.SentIsDelivered | request.go:56-89 | in every run, a channel that is sent to has got exactly the answer to the request it was registered for |
| WaiterDelivery.StillWaiting | request.go:56-89 | a waiter stays in the table until it is taken, cancelled, cleared or registered again |
| WaiterDelivery.WaitingAreTold | request.go:43-54 | in every run, whoever still waits when the connection is lost is told of it |
| WaiterTable.Client.WaitResponse | request.go:56-62 | one registration step; the new channel is open and empty |
| WaiterTable.Client.CancelResponse | request.go:64-69 | one cancellation step |
| WaiterTable.Client.TakeWaiter | request.go:71-83 | the part under the lock: the waiter is removed and will be sent its answer |
| WaiterTable.Client.SendTaken | request.go:84-88 | the send fails exactly if the channel was cancelled in between; otherwise the answer to its own request is in the channel |
| WaiterTable.Client.ClearResponseWaiters | request.go:43-54 | the loop, in any order, is one clearing step |
| SessionCache.StepKeepsAgreement | store/sessioncache.go:47-125 | every step that is not careless shows what direct access shows and keeps the two stores in agreement |
| SessionCache.CarefulRunAgrees | store/sessioncache.go:47-125 | so does every run, any number of flushes included |
| SessionCache.CacheIsTransparent | store/sessioncache.go:72-125 | from prefetch to flush: same loads, and the store direct writes would have left |
| SessionCache.UnseenIffCareful | store/signal.go:85-120 | a step goes unnoticed by every later load exactly if it does not change a cached record without storing it |
| SessionCache.FlushWritesTouched | store/sessioncache.go:106-125 | a flush writes exactly the sessions stored to since the one before |
| SessionCache.ContainsAgreesIff | store/signal.go:122-129 | ContainsSession answers as direct access would exactly if the session is not a new one waiting for the flush |
| SessionDevice.Device.LoadSession | store/signal.go:85-103 | the cached record itself, or a new one read from the store; unreadable rows are errors |
| SessionDevice.Device.StoreSession | store/signal.go:109-120 | into the cache as dirty, or into the store |
| SessionDevice.Device.WithCachedSessions | store/sessioncache.go:72-104 | the cache becomes what can be read, with separate records, and the sessions that exist are reported |
| SessionDevice.Device.FetchAll | store/sessioncache.go:81-100 | the loop gives every readable session a record of its own and says which exist |
| SessionDevice.Device.DirtySessions | store/sessioncache.go:111-116 | the loop collects exactly the dirty entries, serialised |
| SessionDevice.Device.PutCachedSessions | store/sessioncache.go:106-125 | one flush step |
| SessionDevice.Device.UseSession | store/signal.go:85-120 | load, change in place and perhaps store is one step of the specification, with a cache and without |
| DecryptOnce.StepKeepsInv | message.go:488-538 | every step of any worker, and every crash, keeps the four invariants |
| DecryptOnce.EveryRun | message.go:488-538 | so they hold in every run |
| DecryptOnce.CommittedOnce | message.go:488-538 | the ratchet is where the committed ciphertexts take it; each hash is committed once, plus once per deletion of its row |
| DecryptOnce.SamePlaintext | message.go:500-519 | while the row is kept, every handler call for a hash has the committed plaintext |
| DecryptOnce.RedeliveryDecrypts | message.go:500-519 | a redelivery before the clearing, finished or not, gets that plaintext without touching the ratchet |
| DecryptOnce.ClearCloses | message.go:431-448 | clearing closes a hash exactly if no other worker still holds its plaintext |
| DecryptOnce.ClosedForGood | message.go:380-382 | once closed, no redelivery reaches the handler or the ratchet |
| DecryptProgress.FirstDelivery | message.go:521-531 | a first delivery that decrypts moves the ratchet, buffers the plaintext and commits once; nothing else changes |
| DecryptProgress.FailedDelivery | message.go:521-531 | one that does not decrypt, or is rolled back, changes nothing |
| DecryptProgress.SecondWorkerConflicts | message.go:521-531 | a worker that comes second to commit keeps nothing |
| DecryptProgress.ClearedIsSkipped | message.go:504-511 | a delivery whose row has been cleared is passed over |
| DecryptProgress.Handled | message.go:414-434 | who is called with what, and whether the row will be cleared, for every outcome |
| DecryptProgress.Cleared | message.go:435-448 | clearing empties the row; a clearing that fails leaves it |
| DecryptProgress.CrashAndForget | store/sqlstore/store.go:1142-1147 | a crash loses workers only, deleting old rows those rows only |
| DecryptProgress.DeliveredAgain | message.go:488-538 | from any state, even after a crash, an event that is not cleared and is delivered again reaches the handler once, with its plaintext, and is then cleared |
| DecryptOnce.Client.BufferedDecrypt | message.go:488-538 | an undisturbed call is the two steps of the machine: a buffered plaintext is returned, a cleared one is already processed, and a new one is decrypted and kept |
| DecryptOnce.Client.DecryptChild | message.go:344-448 | one child is four steps of the machine: the handler gets the plaintext, and the row is cleared exactly if it was dealt with |
| Reporting.UvarintRoundTrip | reportingtoken.go:148-151 | varints up to 2^64 are read back |
| ReportingToken.GetConfigForField | reportingtoken.go:76-83 | the loop finds the first configuration of the number |
| ReportingToken.OneField | reportingtoken.go:102-165 | one turn of the loop over fields, for every wire type |
| ReportingToken.BytesField | reportingtoken.go:138-160 | a length-delimited field, with recursion into submessages |
| ReportingToken.ExtractReportingTokenContent | reportingtoken.go:94-176 | on every byte string the cursor loop computes the recursive extraction |
| ReportingFilter.AnySortWillDo | reportingtoken.go:169 | whatever the sort does, distinctly numbered fields come out in one order |
| ReportingFilter.FilterIsExtraction | reportingtoken.go:94-176 | on well-formed messages the bytes extracted encode the filtered and sorted tree |
| ReportingLaws.ExtractionIsIdempotent | reportingtoken.go:94-176 | extracting again changes nothing |
| ReportingLaws.OrderIsIrrelevant | reportingtoken.go:94-176 | neither the order of the fields nor the sort matters |
| ReportingLaws.FirstIsFound | reportingtoken.go:76-83 | the first configuration with the number counts |
| ReportingLaws.WhatIsKept | reportingtoken.go:138-160 | when a field with a submessage is copied, cut down or dropped |
| ReportingLaws.VarintBytes | reportingtoken.go:148-151 | 300 as a varint, byte by byte |
| ReportingTies.DeterminedIff | reportingtoken.go:169 | at one level, the output is the same for every sort exactly if the bytes of tied entries commute |
| ReportingSorts.ScanIsRender | reportingtoken.go:94-167 | which fields a level keeps and how its loop ends do not depend on the sort |
| ReportingSorts.ExtractsAlike | reportingtoken.go:94-176 | nor do the length of the output and the numbers and lengths of the entries |
| ReportingSorts.AllSortsAgree | reportingtoken.go:94-176 | if ties commute at every level descended into, every sort gives the same bytes |
| ReportingSorts.ToldOutside | reportingtoken.go:138-160 | a difference inside a submessage always shows in the message |
| ReportingSorts.SortIrrelevantIff | reportingtoken.go:94-176 | for every input and configuration, the bytes are the same for all sorts exactly if ties commute at every level descended into |
| ReportingSorts.RepeatedField | reportingtoken.go:169 | a message with one field twice, two lawful sorts, two outputs |
| ReportingSorts.RepeatedInside | reportingtoken.go:169 | the same with the field repeated inside a submessage |
| RecentMessages.Client.AddRecentMessage | retry.go:78-90 | ring, pointer and map stay those of the history of adds |
| RecentMessages.Client.GetRecentMessage | retry.go:93-97 | looks up in the map of that history |
| RecentMessages.FoundIff | retry.go:78-97 | a key is found exactly if no slot that held it was overwritten since it was added last, with the last message |
| RecentMessages.LastAreFound | retry.go:78-97 | with distinct keys, exactly the last 256 are found, across any wrap-arounds |
| RecentMessages.KeysAreInSlots | retry.go:78-97 | the map's keys are always among the slots |
| GroupCache.Client.CacheGroupInfo | group.go:595-624 | the group gets its mode, flag and members in order; the loop also yields one mapping slot per member and the redacted phones; other groups stay |
| GroupCache.Client.UpdateGroupParticipantCache | group.go:972-1001 | the one known group changes by joins and leaves, as a multiset; other groups stay |
| GroupCache.JoinOne | group.go:984-991 | appended at the end if absent, otherwise nothing changes |
| GroupCache.LeaveOne | group.go:992-1000 | swap-removal takes exactly one copy away |
| GroupCache.SetLawIff | group.go:983-1000 | members afterwards are (members or joined) and not left exactly if no leaver has more copies than leaves |
| GroupCache.EveryRunIsTheSet | group.go:972-1001 | from a list without duplicates, every run leaves none and the folded set |
| GroupCache.RedactedAre | group.go:607-612 | the redacted phones are exactly those of participants with a display name and a LID |
| GroupCache.MappingIs | group.go:601-606 | a mapping holds the LID and the phone number of a participant who has both |

## Left out

- Request builders and response parsers (user.go, newsletter.go, upload.go, download.go, most of group.go and notification.go): field-by-field copying.
- Cryptographic primitives, libsignal, certificate and signature checks: parameters with the laws named in `Lawful`; that derived keys differ is a hypothesis of the nonce theorems.
- Generated protobuf code, static tables, and the contents of the token tables: only the sizes in `TablesFit` are assumed.
- Parsing of patch lists and downloading of external blobs (appstate/decode.go:37-113): patch lists are the model's input, and the collection named in an answer is taken to be the one asked for.
- Failures of the database itself while reading or writing app state, versions of 2^63 and more that drivers refuse, the key cache, warnings, and dispatch of events from mutations.
- AppStateProcessor.Processor.StoreMACs: is for a store that refuses no row; on the SQL store see `AppStateSqlStore.SqlStore.StoreMACs` and `AppStateSql.WriteAgreesIff`.
- AppStateProcessor.Processor.DecodeSnapshot: is for such a store; `AppStateSqlStore.SqlProcessor.DecodeSnapshot` has the refused insert.
- AppStateProcessor.Processor.DecodePatch: is for such a store; `AppStateSqlStore.SqlProcessor.DecodePatch` has the refused insert.
- AppStateProcessor.Processor.DecodePatches: is for such a store; `AppStateSqlStore.SqlProcessor.DecodePatches` has the refused insert.
- AppStateProcessor.AppStateStore.PutAppStateMutationMACs: is the put of such a store; `SqlMacs.PutRefinesIff` says exactly when the SQL insert acts like it.
- AppStateSync.EventKeepsAgreement: is for such a store; `AppStateSqlRuns.SqlRunIsMapRun` carries it over to the SQL store.
- AppStateSync.EveryRunAgrees: is for such a store; `AppStateSqlRuns.EverySqlRunAgrees` is the theorem for the SQL store.
- The list of extra indexes to remove in decodeMutations, which callers always leave empty.
- The little-endian parameter of the integer readers and writers, which is never set, and the zlib branch of Unpack beyond calling a parameter.
- Node text output and JSON input, and attribute getters.
- Timeouts, contexts and reconnection in sendIQ and retryFrame (request.go:152-235): a retry is a new registration under the same ID in the waiter machine.
- Reading and writing of sockets, goroutines and locks of the transport: the wire and the delivered frames are fields.
- Padding, retry receipts and acknowledgements around decryption: they end or continue a worker in the decryption machine.
- Sharing of one session record between two addresses, and errors of the session store.
- The persistent retry store behind the recent-message ring.
- qrchan.go, keepalive, media connection handling and other timing code.
- Reporting.ScanLevel: lengths of 2^62 and more, and slices past the end of the data, are one undefined outcome; Go may panic on them or, inside a submessage, read on into the enclosing message.
- AppStateEncode.AlwaysAgreeIffDistinct: assumes value MACs that are pairwise different and not stored yet, as fresh IVs make them; `AlwaysAgreeIff` is the exact condition for every patch.
- AppStateEncode.RepeatedIndexDisagrees: has the same assumption, for the same reason.
- AppStateSql.FreshWriteAgreesIff: has the same assumption; `WriteAgreesIff` is the exact condition for every patch.
- AppStateSql.RepeatedSetBreaks: has the same assumption.
- NoiseSockets.NoiseSocket.SendFrame: does not model a context that is cancelled while the frame is being written, where an error is returned though the frame may still go out; counters and wire are as without it.
- XmlExact.NodeFails: leaves out trees with an oversized list or an empty tag, where decoding goes on from a wrong size or fails earlier; `ComesBackIff` covers them.
- ReportingToken.ExtractReportingTokenContent: where Go would slice out of range, move its cursor backwards or handle a length of 2^62 and more, its result is one undefined outcome.
- SessionDevice.Device.UseSession: demands that no two addresses share a record object.
- RecentMessages.LastAreFound: is for distinct keys; `FoundIff` is the law for all runs.

# EVM state storage: commit, typed tables, merge and cleanup

A Dafny model of the EVM state store of the chain (`evm-utils/evm-state/src/storage/mod.rs`).
The store is a key-value database with these parts:

- a default column family of trie nodes, keyed by their hashes;
- a set of named column families;
- a `gc_enabled` flag, fixed when the store is opened.

The model proves properties of the following operations:

- **Open.** Opening creates the column families the flag selects.
- **`check_root_exist`.** This tells whether a trie root is retrievable.
- **`flush_changes`.** This folds a batch of per-address deltas into the account trie:
  - the storage trie of each updated account is edited;
  - new contract code goes to the `codes` family;
  - the new state root is returned.
- **`get` / `set` / `cf`.** These are the typed table access: a column, a key codec and a value codec.
- **`merge_from_db`.** This copies another archival store's nodes and codes into this one.
- **GC entry points.** These are the reference-counter entry points, all no-ops when GC is disabled.
- **`Cleaner::cleanup`.** This is the offline sweep. It deletes every node row and every code row that live state no longer reaches.

Modules, one file each:

- `types.dfy` (`EvmTypes`): the value types.
  - Bytes, 20-byte addresses and 32-byte words.
  - `U64` and `U256` as bounded naturals.
  - Accounts, and the default account of `unwrap_or_default`.
  - Trie nodes and hashes.
  - Hashes are *ideal*: a hash value records what was hashed. So content addressing (a node is stored under the hash of its contents) is exact, as Keccak-256 collision resistance makes it in practice.
  - A trie is flattened: the node stored under a root stands for the whole key-value map of that trie.
- `words.dfy` (`Words`): `U256::from_big_endian` on a storage word, its inverse, and the zero-word test.
- `tries.dfy` (`Tries`): the node table.
  - Reading the account trie or a storage trie at a root.
  - Writing a trie's root (`TrieCollection::apply`).
  - Read-back lemmas.
- `schema.dfy` (`Schema`): the column families, the schema chosen by the GC flag, and typed tables.
  - Key and value codecs are parameters that round-trip (decode after encode gives the value back).
- `commit.dfy` (`Commit`): what a batch of deltas does, stated on values.
  - The edited storage map and the resulting account map.
  - The code rows written.
  - The loop's step lemmas.
- `storage.dfy` (`Storage`): the `Storage` class.
  - Its node table and rows are fields that the methods update.
  - `FlushChanges`, `ApplyChanges` and `ApplyChange` are proved against `Commit`.
- `cleaner.dfy` (`Cleaner`): the `Cleaner` class, whose `Cleanup` deletes from its store, plus the pure filters it is proved against.

## Model

| member | source | states |
|---|---|---|
| Words.FromBigEndian | evm-utils/evm-state/src/storage/mod.rs:235 | a big-endian word's value fits in its byte length, and it is zero exactly when every byte is zero |
| Words.ReadWritten | evm-utils/evm-state/src/storage/mod.rs:235 | every integer that fits is read back from its big-endian bytes |
| Words.WrittenRead | evm-utils/evm-state/src/storage/mod.rs:235 | every byte string is the big-endian encoding of the integer it reads as, so the reading loses nothing |
| Words.ToU256 | evm-utils/evm-state/src/storage/mod.rs:232-235 | a word's U256 value is zero exactly when the word is `H256::default()`, the test the storage loop branches on |
| Tries.Persist | evm-utils/evm-state/src/storage/mod.rs:241-243 | applying a trie keeps the node table content-addressed, changes no stored node, and stores the non-empty root |
| Tries.AccountsRoot | evm-utils/evm-state/src/storage/mod.rs:254-255 | the root of an account map is the empty-trie hash exactly when the map is empty |
| Tries.StorageRoot | evm-utils/evm-state/src/storage/mod.rs:242-243 | the root of a storage map is the empty-trie hash exactly when the map is empty |
| Tries.AccountsAt | evm-utils/evm-state/src/storage/mod.rs:208-209 | the account trie opened at the empty root is the empty map; any other root that opens has its node stored |
| Tries.SlotsAt | evm-utils/evm-state/src/storage/mod.rs:229-231 | the storage trie opened at the empty root is the empty map; any other root that opens has its node stored |
| Tries.RootExistsIffReadable | evm-utils/evm-state/src/storage/mod.rs:173-180 | on a content-addressed table of this model, where the node under a root stands for its whole trie, a root exists exactly when an account trie or a storage trie can be read at it |
| Tries.AccountsReadBack | evm-utils/evm-state/src/storage/mod.rs:254-255 | the account trie applied at the end of a flush reads back as its map at its root |
| Tries.SlotsReadBack | evm-utils/evm-state/src/storage/mod.rs:241-243 | an applied storage trie reads back as its map at its root |
| Tries.StoredSlotsRead | evm-utils/evm-state/src/storage/mod.rs:241-246 | a storage root that exists in a content-addressed table reads back as the map it was built from |
| Tries.AccountsRootOfContents | evm-utils/evm-state/src/storage/mod.rs:208-209 | the root of the account map read at a root is that root |
| Tries.StorageRootOfContents | evm-utils/evm-state/src/storage/mod.rs:229-243 | the root of the storage map read at a root is that root, so an unedited storage trie keeps its root |
| Tries.ReadStable | evm-utils/evm-state/src/storage/mod.rs:239-246 | writing more nodes never changes what a readable root holds |
| Schema.ColumnsFor | evm-utils/evm-state/src/storage/mod.rs:103-117 | GC mode creates `codes` and `reference_counter`; archival mode creates `codes`, `transactions`, `receipts` and `transactions_per_block` |
| Schema.SchemasOverlapInCodes | evm-utils/evm-state/src/storage/mod.rs:103-117 | the two schemas share exactly the `codes` family |
| Schema.ColumnNamesDistinct | evm-utils/evm-state/src/storage/mod.rs:372-399 | the five `COLUMN_NAME` constants are pairwise distinct, so `cf_handle` finds a family by name; GC mode opens `codes` and `reference_counter`, archival mode `codes`, `transactions`, `receipts` and `transactions_per_block` |
| Schema.Read | evm-utils/evm-state/src/storage/mod.rs:405-417 | a value is found exactly when the encoded key has a row in the table's family, and it is what the row's bytes decode to |
| Schema.Write | evm-utils/evm-state/src/storage/mod.rs:419-426 | after `set`, the key reads back as the value; every other key of the table reads as before; no row of another family changes |
| Schema.FamilyRows | evm-utils/evm-state/src/storage/mod.rs:270-276 | the rows of one family are exactly that family's rows |
| Commit.EditStorage | evm-utils/evm-state/src/storage/mod.rs:229-238 | each index edited to a non-zero word maps to that word read big-endian; each index edited to zero is absent; other indices keep their value; a map holding no zero stays so |
| Commit.ZeroEditsKeepStorage | evm-utils/evm-state/src/storage/mod.rs:229-243 | writing zero to indices that were never set leaves the storage map and its root unchanged |
| Commit.PriorAccount | evm-utils/evm-state/src/storage/mod.rs:218 | `unwrap_or_default`: an address with an account holds it; any other starts at nonce 0, balance 0, the hash of empty code and the empty storage root (`EvmTypes.DefaultAccount`) |
| Commit.Updated | evm-utils/evm-state/src/storage/mod.rs:220-244 | the updated account takes the delta's nonce and balance and the new storage root; its code hash is the hash of non-empty code, else the one it had |
| Commit.Applied | evm-utils/evm-state/src/storage/mod.rs:211-251 | one delta: `Nothing` removes the address, `Just` leaves it present with the delta's nonce and balance, and no other address changes |
| Commit.ApplyStorageEdits | evm-utils/evm-state/src/storage/mod.rs:229-238 | the source's loop over the storage edits computes `EditStorage` |
| Commit.CommittedOn | evm-utils/evm-state/src/storage/mod.rs:208-251 | after the deltas of a set of addresses, each address holds the outcome of its delta if it was processed, and its prior account otherwise |
| Commit.CommittedOnNothing | evm-utils/evm-state/src/storage/mod.rs:208-209 | before any delta the account map is the one read at the prior root |
| Commit.CommittedOnStep | evm-utils/evm-state/src/storage/mod.rs:209-251 | one more delta removes its address (`Nothing`) or writes its updated account (`Just`) |
| Commit.CommittedOnNext | evm-utils/evm-state/src/storage/mod.rs:209-251 | inside the loop, the next address's account and storage read as before the batch, and applying its delta gives the map with that address processed |
| Commit.StoredRootsRead | evm-utils/evm-state/src/storage/mod.rs:239-246 | once every edited storage root is stored, the storage of each account with storage edits reads back as its edited map |
| Commit.BatchStep | evm-utils/evm-state/src/storage/mod.rs:209-251 | one delta, applied as the loop body applies it, keeps the loop state: node table extended, code rows of the processed addresses written, account map `CommittedOn`, storage roots stored |
| Commit.CommittedSpec | evm-utils/evm-state/src/storage/mod.rs:208-251 | after the batch: `Nothing` addresses are absent; untouched addresses keep their account; updated ones take the delta's nonce and balance; their code hash is the hash of non-empty code, else the prior one; their storage root is the root of the edited storage, or the prior root when the delta edits no storage |
| Commit.Committed | evm-utils/evm-state/src/storage/mod.rs:208-255 | after the batch only addresses that held an account or were updated hold one, and an empty batch leaves the accounts as they were |
| Commit.NewAccountStartsFromDefault | evm-utils/evm-state/src/storage/mod.rs:218-221 | an address absent before the batch starts from the default account: without code it points at the empty code, and its storage is its edits applied to empty storage |
| Commit.CreateThenRemove | evm-utils/evm-state/src/storage/mod.rs:208-255 | creating an account on the empty state and then removing it leaves the empty account trie, whose root is the empty-trie hash |
| Commit.CodeRowsInsert | evm-utils/evm-state/src/storage/mod.rs:223-227 | the code rows of one more code are the old rows with that code under its hash |
| Commit.CodeRowAdded | evm-utils/evm-state/src/storage/mod.rs:223-227 | `set::<Codes>` of one more code extends the code rows written so far by exactly that code |
| Commit.CodeRowsStep | evm-utils/evm-state/src/storage/mod.rs:223-227 | one delta writes exactly the code row of its non-empty code, and no row otherwise |
| Commit.WriteCode | evm-utils/evm-state/src/storage/mod.rs:223-227 | an update with non-empty code makes that code read back from `codes` under its hash; a delta without code changes no row; rows of other families never change |
| Commit.FlushedCodesRead | evm-utils/evm-state/src/storage/mod.rs:223-227 | after the batch, every non-empty code of an updated account reads back from `codes` under its hash |
| Commit.NoCodeNoCodeRows | evm-utils/evm-state/src/storage/mod.rs:223-227 | a batch with no non-empty code leaves the `codes` family unchanged |
| Storage.Storage.Open | evm-utils/evm-state/src/storage/mod.rs:99-128 | a fresh store holds exactly the families of its schema, and no rows |
| Storage.Storage.CheckRootExist | evm-utils/evm-state/src/storage/mod.rs:173-180 | true for the empty-trie root in every state; otherwise true exactly when the node table holds the root; on a valid store of this model, where a stored root stands for its whole trie, exactly when a trie can be read there |
| Storage.Storage.Get | evm-utils/evm-state/src/storage/mod.rs:405-417 | the family must exist (`cf` aborts) and the stored bytes must decode (`get` aborts); the result is present exactly when the encoded key's row is, and holds the decoded value |
| Storage.Storage.Set | evm-utils/evm-state/src/storage/mod.rs:419-432 | the family must exist; afterwards the key reads back as the value, every other key reads as before, and the node table is untouched |
| Storage.Storage.GcRegisterRootLink | evm-utils/evm-state/src/storage/mod.rs:289-295 | without GC the result is `Ok(())` |
| Storage.Storage.GcCount | evm-utils/evm-state/src/storage/mod.rs:297-302 | without GC the result is `Ok(0)` |
| Storage.Storage.GcRemoveReferences | evm-utils/evm-state/src/storage/mod.rs:313-318 | without GC the result is `Ok([])` |
| Storage.Storage.PurgeSlot | evm-utils/evm-state/src/storage/mod.rs:324-331 | without GC the result is `Ok(None)` |
| Storage.Storage.RegisterSlot | evm-utils/evm-state/src/storage/mod.rs:335-342 | without GC the result is `Ok(())` |
| Storage.Storage.ApplyStorage | evm-utils/evm-state/src/storage/mod.rs:229-243 | the storage trie at a root, edited and applied, gives the root of the edited map, which reads back as that map; with no edits the root is returned and nothing is stored |
| Storage.Storage.ApplyChange | evm-utils/evm-state/src/storage/mod.rs:209-251 | one delta: a removal drops the address; an update writes the account built from the delta, stores its code and, when it edits storage, its edited storage trie, which then reads back; without storage edits no node is written; stored nodes are never changed |
| Storage.Storage.ApplyChanges | evm-utils/evm-state/src/storage/mod.rs:208-252 | the batch loop yields `Committed` of the prior accounts, stores every edited storage root, and adds to `codes` exactly the batch's new codes |
| Storage.Storage.FlushChanges | evm-utils/evm-state/src/storage/mod.rs:198-256 | an empty batch returns the prior root and writes nothing; otherwise the returned root is the root of `Committed` of the accounts at the prior root, and reads back as that map; it exists; the storage of every account with storage edits reads back; `codes` gains exactly the new codes; no stored node changes |
| Storage.Storage.CopyNodes | evm-utils/evm-state/src/storage/mod.rs:265-267 | the node table becomes this store's with every row of the other added or overwritten, and stays content-addressed |
| Storage.Storage.CopyRows | evm-utils/evm-state/src/storage/mod.rs:271-276 | the rows become this store's with every given row added or overwritten |
| Storage.Storage.MergeFromDb | evm-utils/evm-state/src/storage/mod.rs:258-279 | both stores must be archival; afterwards the node table is this store's with the other's rows added or overwritten, and the rows gain the other's `codes` rows, keeping rows only this store has |
| Storage.Storage.MergeFromDbAsWritten | evm-utils/evm-state/src/storage/mod.rs:258-279 | the merge as written: the node rows are merged, and the code rows, iterated through this store's own `codes` handle, are this store's own, so the rows do not change |
| Storage.MergeOwnCodes | evm-utils/evm-state/src/storage/mod.rs:270-276 | copying a store's own `codes` rows onto it changes nothing |
| Storage.MergeAsWrittenMissesCodes | evm-utils/evm-state/src/storage/mod.rs:270-276 | a code row that only the other store has is missing after the merge as written and present, with its bytes, after the intended merge |
| Cleaner.KeepNodes | evm-utils/evm-state/src/storage/mod.rs:512-524 | the node rows kept are those whose key is live, with their nodes |
| Cleaner.KeepCodes | evm-utils/evm-state/src/storage/mod.rs:529-546 | the rows kept are those of other families and the code rows whose decoded hash is live, with their values |
| Cleaner.KeepNodesSpec | evm-utils/evm-state/src/storage/mod.rs:512-524 | node cleanup is idempotent, keeps the table content-addressed, and only removes rows |
| Cleaner.LiveTriesReadable | evm-utils/evm-state/src/storage/mod.rs:512-524 | every live trie reads as before the cleanup; a non-empty root that is not live no longer exists |
| Cleaner.KeepCodesSpec | evm-utils/evm-state/src/storage/mod.rs:529-546 | code cleanup is idempotent and leaves every other family alone |
| Cleaner.LiveCodesReadable | evm-utils/evm-state/src/storage/mod.rs:529-546 | through the `codes` table, a live hash's code reads as before, and any other hash's code is gone |
| Cleaner.StaleNodeKeys | evm-utils/evm-state/src/storage/mod.rs:512-520 | the first batch is exactly the stored node keys that are not live |
| Cleaner.StaleCodeKeys | evm-utils/evm-state/src/storage/mod.rs:534-542 | the pass fails exactly when some code key does not decode; otherwise the batch is exactly the code keys whose hash is not live |
| Cleaner.Cleaner.NewWith | evm-utils/evm-state/src/storage/mod.rs:489-498 | the cleaner holds the store and the live key sets it is given |
| Cleaner.Cleaner.Cleanup | evm-utils/evm-state/src/storage/mod.rs:501-550 | the node table becomes the live part of itself, in every outcome; the result is success exactly when every code key decodes, in which case the rows become `KeepCodes`, and otherwise the rows are unchanged |

## Left out

- Backup and restore (`backup`, `restore_from`, `HARD_BACKUPS_COUNT`), `DbWithClose`'s `Drop`, `default_db_opts`, `Location`, `get_inner_location` and `typed_for`. These are filesystem, thread and handle management.
- Store open: only a fresh location is modelled, so `Open` starts empty. Reopening an existing database is I/O.
- Database I/O failures are not modelled. `Error.Database` and the `?` on writes never occur: every read and write succeeds.
- Trie internals (`triedb`: node encoding, patches, `TrieCollection`). A trie is one node holding its map. A node is stored under an ideal hash that records its contents, so no two contents share a hash. Interior nodes, and the sharing of subtrees between tries, are not modelled.
- The rlp key codec and the bincode value codec are parameters `Codec(encode, decode)`. The model assumes only that decode after encode returns the value. Code hashing (`code.hash()`) is the ideal `CodeHash(code)`.
- The GC-enabled branches of the reference-counter functions are `todo!()`. So the GC functions and `FlushChanges` are modelled only with `gcEnabled == false`.
- Concurrency: concurrent writers and the single-writer discipline around a root are not modelled.
- Storage.Storage.FlushChanges: for a non-empty batch, requires that the prior root can be read; for every update that edits storage, requires that the account's storage root can be read. The source reads these tries lazily, and a missing node there is a trie error outside this model. An empty batch, and an update without storage edits, read no trie and carry no such requirement.
- Storage.Storage.MergeFromDb: models the evident intent, copying the other store's `codes` family. The code as written is `Storage.Storage.MergeFromDbAsWritten`; see "## Findings".
- Storage.Storage.CheckRootExist: the source looks up only the root node. Its comment says it is a temporary check for purged data, and interior nodes of a trie can be purged while its root stays. In this model a stored root stands for its whole trie, so "the root exists" and "the trie can be read" coincide; in the source the first does not imply the second.
- EvmTypes.DefaultAccount: the fields of `Account::default` (nonce 0, balance 0, the hash of empty code, the empty-trie storage root) are assumed, because the `Account` type is not part of this model.
- Storage.Storage.MergeFromDb: writes are row by row, and a failure part way is not modelled.
- Cleaner.Cleaner.Cleanup: the live key sets are inputs. The collectors that walk the live tries to build them are not part of this model.
- Cleaner.Cleaner.Cleanup: node keys are hashes in the model, so the error path for a default-family key that is not 32 bytes long cannot arise. Neither can the missing-`codes`-family error, since every valid store has that family.
- `account-decoder/src/parse_account_data.rs` is not part of this model. It dispatches to parsers whose source is not available.
- Schema: the GC and archival schemas are not disjoint. Both open `codes` (mod.rs:105, 111): `Schema.SchemasOverlapInCodes`.

## Findings

| source | as written | input that shows it | evidently intended | confidence | as-written member | corrected member |
|---|---|---|---|---|---|---|
| evm-utils/evm-state/src/storage/mod.rs:270-276 | the code rows of `other_db` are iterated with `self.cf::<Codes>()`, a handle of this store's own database, so the iteration reads this store's `codes` rows and writes them back onto themselves | two archival stores where only `other_db` holds a code row: after the merge this store still lacks it (`Storage.MergeAsWrittenMissesCodes`) | iterate `other_db`'s own `codes` family and copy its rows into this store | plausible; not executed | Storage.Storage.MergeFromDbAsWritten | Storage.Storage.MergeFromDb |

/** The storage handle: the default node table shared by every trie, the
    named column families of the schema chosen at open, and the GC flag.
    Commits, typed table access, merging and the GC entry points. */
module Storage {
  import opened EvmTypes
  import opened Tries
  import opened Schema
  import opened Commit

  /** Copying a store's own rows of one family onto it changes nothing. */
  lemma MergeOwnCodes(rows: Rows)
    ensures rows + FamilyRows(rows, Codes) == rows
  {
    MapsEqualByLookup(rows + FamilyRows(rows, Codes), rows);
  }

  /** A code row that only the other store has: the merge as written leaves
      it missing, the intended merge copies it with its bytes. */
  lemma MergeAsWrittenMissesCodes(mine: Rows, theirs: Rows, k: RowKey)
    requires k in theirs && k.column == Codes && k !in mine
    ensures k !in mine + FamilyRows(mine, Codes)
    ensures k in mine + FamilyRows(theirs, Codes) && (mine + FamilyRows(theirs, Codes))[k] == theirs[k]
  {
    MergeOwnCodes(mine);
    assert Lookup(FamilyRows(theirs, Codes), k) == Some(theirs[k]);
  }

  class Storage {
    /** The default column family: trie nodes under their hashes. */
    var nodes: NodeTable
    /** The rows of the named column families. */
    var rows: Rows
    /** The named column families created at open. */
    const columns: set<Column>
    const gcEnabled: bool

    /** The families are the schema's for the GC flag, every row lies in
        one of them, and the node table is content-addressed. */
    ghost predicate Valid()
      reads this
    {
      && columns == ColumnsFor(gcEnabled)
      && (forall k | k in rows :: k.column in columns)
      && ContentAddressed(nodes)
    }

    /** Open a store at a fresh location, creating the schema's families. */
    constructor Open(gcEnabled: bool)
      ensures Valid() && this.gcEnabled == gcEnabled
      ensures nodes == map[] && rows == map[]
    {
      this.gcEnabled := gcEnabled;
      columns := ColumnsFor(gcEnabled);
      nodes := map[];
      rows := map[];
    }

    /** True for the empty trie root, which is never stored, and otherwise
        exactly when a node is stored under the root; on a valid store that
        is exactly when a trie can be read at the root. */
    function CheckRootExist(root: Hash): (b: bool)
      reads this
      ensures root == EmptyTrieHash ==> b
      ensures root != EmptyTrieHash ==> (b <==> root in nodes)
      ensures Valid() ==> (b <==> AccountsAt(nodes, root).Some? || SlotsAt(nodes, root).Some?)
    {
      assert Valid() ==> (RootExists(nodes, root) <==> AccountsAt(nodes, root).Some? || SlotsAt(nodes, root).Some?) by {
        if Valid() {
          RootExistsIffReadable(nodes, root);
        }
      }
      root == EmptyTrieHash || root in nodes
    }

    /** `get::<S>`: the column must exist (`cf` aborts otherwise) and the
        stored bytes must decode (`get` aborts otherwise). */
    function Get<K, V>(t: Table<K, V>, key: K): (r: Option<V>)
      reads this
      requires t.column in columns
      requires Decodes(t, rows, key)
      ensures r.Some? <==> RowKey(t.column, t.key.encode(key)) in rows
      ensures r.Some? ==> t.value.decode(rows[RowKey(t.column, t.key.encode(key))]) == Some(r.value)
    {
      Read(t, rows, key)
    }

    /** `set::<S>`: write one row of one column. Reading the key back gives
        the value, other keys and every other column are unchanged. */
    method Set<K(!new), V(!new)>(t: Table<K, V>, key: K, value: V)
      requires Valid() && t.column in columns && Typed(t)
      modifies this
      ensures Valid() && nodes == old(nodes)
      ensures rows == Write(t, old(rows), key, value)
      ensures Decodes(t, rows, key) && Get(t, key) == Some(value)
      ensures forall k | k != key && old(Decodes(t, rows, k)) :: Decodes(t, rows, k) && Get(t, k) == old(Get(t, k))
    {
      rows := Write(t, rows, key, value);
    }

    /** `gc_register_root_link`: a no-op without GC. */
    function GcRegisterRootLink(rootLink: Hash): (r: Result<()>)
      requires !gcEnabled
      ensures r == Ok(())
    {
      Ok(())
    }

    /** `gc_count`: zero references without GC. */
    function GcCount(link: Hash): (r: Result<U64>)
      requires !gcEnabled
      ensures r == Ok(0)
    {
      Ok(0)
    }

    /** `gc_remove_references`: nothing becomes unreferenced without GC. */
    function GcRemoveReferences(references: seq<Hash>): (r: Result<seq<Hash>>)
      requires !gcEnabled
      ensures r == Ok([])
    {
      Ok([])
    }

    /** `purge_slot`: no root is released without GC. */
    function PurgeSlot(slot: Slot): (r: Result<Option<Hash>>)
      requires !gcEnabled
      ensures r == Ok(None)
    {
      Ok(None)
    }

    /** `register_slot`: a no-op without GC. */
    function RegisterSlot(slot: Slot, root: Hash): (r: Result<()>)
      requires !gcEnabled
      ensures r == Ok(())
    {
      Ok(())
    }

    /** The storage half of one update: open the storage trie at `root`,
        apply the edits, store the trie and return its new root, which reads
        back as the edited map. With no edits, applying the trie gives `root`
        back and nothing is stored. */
    method ApplyStorage(root: Hash, edits: map<Bytes32, Bytes32>) returns (newRoot: Hash)
      requires Valid()
      requires edits != map[] ==> SlotsAt(nodes, root).Some?
      modifies this
      ensures Valid() && Extends(nodes, old(nodes)) && rows == old(rows)
      ensures edits == map[] ==> newRoot == root && nodes == old(nodes)
      ensures edits != map[] ==>
        var slots := EditStorage(old(SlotsAt(nodes, root)).value, edits);
        newRoot == StorageRoot(slots) && SlotsAt(nodes, newRoot) == Some(slots)
    {
      newRoot := root;
      if edits != map[] {
        var slots := SlotsAt(nodes, root).value;
        slots := ApplyStorageEdits(slots, edits);
        newRoot := StorageRoot(slots);
        ghost var before := nodes;
        nodes := Persist(nodes, newRoot);
        SlotsReadBack(before, slots);
      }
    }

    /** One entry of the batch loop of `flush_changes`, on the account map
        being built. A removal drops the address. An update takes the
        delta's nonce and balance, stores non-empty code under its hash and
        points the account at it, applies the storage edits to the storage
        trie at the account's root, stores that trie and points the account
        at its new root. Without storage edits the trie is not read and the
        root stays. Other addresses are untouched. */
    method ApplyChange(codes: Table<Hash, Code>, accounts: map<Address, Account>, a: Address, change: Change)
      returns (next: map<Address, Account>)
      requires Valid() && !gcEnabled
      requires codes.column == Codes && Typed(codes)
      requires change.EditsStorage() ==> SlotsAt(nodes, PriorAccount(accounts, a).storageRoot).Some?
      modifies this
      ensures Valid() && Extends(nodes, old(nodes))
      ensures next == Applied(old(nodes), accounts, a, change)
      ensures change.EditsStorage() ==>
        var slots := EditStorage(old(SlotsAt(nodes, PriorAccount(accounts, a).storageRoot)).value, change.storage);
        SlotsAt(nodes, StorageRoot(slots)) == Some(slots)
      ensures !change.EditsStorage() ==> nodes == old(nodes)
      ensures rows == WriteCode(codes, old(rows), change)
    {
      match change.state {
        case Just(st) =>
          var account := PriorAccount(accounts, a);
          var updated := account.(nonce := st.nonce, balance := st.balance);
          if |st.code| != 0 {
            var codeHash := CodeHash(st.code);
            Set(codes, codeHash, st.code);
            updated := updated.(codeHash := codeHash);
          }
          var storageRoot := ApplyStorage(account.storageRoot, change.storage);
          updated := updated.(storageRoot := storageRoot);
          assert updated == Updated(account, st, storageRoot);
          var registered := GcRegisterRootLink(storageRoot);
          assert registered.Ok?;
          next := accounts[a := updated];
        case Nothing =>
          next := accounts - {a};
      }
    }

    /** One turn of the batch loop: the next delta, applied to the account
        map of the deltas done so far, keeps `BatchProgress`. */
    method ApplyNext(codes: Table<Hash, Code>, ghost nodes0: NodeTable, ghost rows0: Rows,
                     prior: map<Address, Account>, updates: ChangedState, ghost done: set<Address>,
                     a: Address, accounts: map<Address, Account>)
      returns (next: map<Address, Account>)
      requires Valid() && !gcEnabled
      requires codes.column == Codes && Typed(codes)
      requires StorageReadable(nodes0, prior, updates)
      requires a in updates && a !in done
      requires BatchProgress(codes, nodes0, rows0, prior, updates, done, nodes, rows, accounts)
      modifies this
      ensures Valid()
      ensures BatchProgress(codes, nodes0, rows0, prior, updates, done + {a}, nodes, rows, next)
    {
      CommittedOnNext(nodes0, nodes, prior, updates, done, a, accounts);
      ghost var nodes1, rows1 := nodes, rows;
      next := ApplyChange(codes, accounts, a, updates[a]);
      BatchStep(codes, nodes0, rows0, prior, updates, done, a, nodes1, rows1, accounts, nodes, rows, next);
    }

    /** The batch loop of `flush_changes` on the account trie's map: every
        delta is applied, giving `Committed` of the prior accounts; each
        updated account's storage root is stored; the codes column gains
        each new code under its hash; no node row is removed or changed. */
    method ApplyChanges(codes: Table<Hash, Code>, prior: map<Address, Account>, updates: ChangedState)
      returns (accounts: map<Address, Account>)
      requires Valid() && !gcEnabled
      requires codes.column == Codes && Typed(codes)
      requires StorageReadable(nodes, prior, updates)
      modifies this
      ensures Valid() && Extends(nodes, old(nodes))
      ensures accounts == Committed(old(nodes), prior, updates)
      ensures StorageRootsOf(old(nodes), prior, updates, updates.Keys) <= nodes.Keys + {EmptyTrieHash}
      ensures rows == old(rows) + CodeRows(codes, NewCodes(updates, updates.Keys))
    {
      ghost var nodes0, rows0 := nodes, rows;
      accounts := prior;
      var todo := updates.Keys;
      ghost var done: set<Address> := {};
      CommittedOnNothing(nodes0, prior, updates);
      assert CodeRows(codes, NewCodes(updates, {})) == map[];
      assert rows0 + map[] == rows0;
      while todo != {}
        invariant todo !! done && todo + done == updates.Keys
        invariant Valid()
        invariant BatchProgress(codes, nodes0, rows0, prior, updates, done, nodes, rows, accounts)
        decreases todo
      {
        var a :| a in todo;
        accounts := ApplyNext(codes, nodes0, rows0, prior, updates, done, a, accounts);
        todo := todo - {a};
        done := done + {a};
      }
    }

    /** `flush_changes`: open the account trie at `stateRoot`, apply the
        batch, store the new account trie and return its root. The new root
        reads back as `Committed` of the prior accounts; each updated
        account's storage root reads back as its edited storage; the codes
        column gains each new code under its hash; no node row is removed
        or changed. An empty batch returns `stateRoot` without reading the
        account trie. */
    method FlushChanges(stateRoot: Hash, updates: ChangedState, codes: Table<Hash, Code>)
      returns (newRoot: Hash)
      requires Valid() && !gcEnabled
      requires codes.column == Codes && Typed(codes)
      requires updates != map[] ==> AccountsAt(nodes, stateRoot).Some?
      requires AccountsAt(nodes, stateRoot).Some? ==> StorageReadable(nodes, AccountsAt(nodes, stateRoot).value, updates)
      modifies this
      ensures Valid() && Extends(nodes, old(nodes))
      ensures updates == map[] ==> newRoot == stateRoot && nodes == old(nodes)
      ensures old(AccountsAt(nodes, stateRoot)).Some? ==>
        newRoot == AccountsRoot(Committed(old(nodes), old(AccountsAt(nodes, stateRoot)).value, updates))
      ensures old(AccountsAt(nodes, stateRoot)).Some? ==>
        AccountsAt(nodes, newRoot) == Some(Committed(old(nodes), old(AccountsAt(nodes, stateRoot)).value, updates))
      ensures old(AccountsAt(nodes, stateRoot)).Some? ==> CheckRootExist(newRoot)
      ensures old(AccountsAt(nodes, stateRoot)).Some? ==>
        forall a | a in updates && updates[a].EditsStorage() ::
          var slots := NewSlots(old(nodes), old(AccountsAt(nodes, stateRoot)).value, updates, a);
          SlotsAt(nodes, StorageRoot(slots)) == Some(slots)
      ensures rows == old(rows) + CodeRows(codes, NewCodes(updates, updates.Keys))
    {
      if updates == map[] {
        // Nothing to apply: the account trie is neither read nor written.
        newRoot := stateRoot;
        assert updates.Keys == {};
        if AccountsAt(nodes, stateRoot).Some? {
          CommittedOnNothing(nodes, AccountsAt(nodes, stateRoot).value, updates);
          AccountsRootOfContents(nodes, stateRoot);
        }
        assert CodeRows(codes, NewCodes(updates, {})) == map[];
        assert rows + map[] == rows;
        return;
      }
      ghost var nodes0 := nodes;
      // The account trie, opened at the prior root.
      var prior := AccountsAt(nodes, stateRoot).value;
      var accounts := ApplyChanges(codes, prior, updates);
      newRoot := AccountsRoot(accounts);
      ghost var before := nodes;
      nodes := Persist(nodes, newRoot);
      AccountsReadBack(before, accounts);
      ExtendsTransitive(nodes, before, nodes0);
      assert before.Keys <= nodes.Keys;
      StoredRootsRead(nodes0, nodes, prior, updates);
    }

    /** Copy every row of `theirs` into the node table, replacing any
        row under the same key. */
    method CopyNodes(theirs: NodeTable)
      requires Valid() && ContentAddressed(theirs)
      modifies this
      ensures Valid()
      ensures nodes == old(nodes) + theirs && rows == old(rows)
    {
      ghost var nodes0 := nodes;
      var todo := theirs.Keys;
      while todo != {}
        invariant todo <= theirs.Keys
        invariant rows == old(rows)
        invariant forall h :: (Lookup(nodes, h) ==
          if h in theirs && h !in todo then Some(theirs[h]) else Lookup(nodes0, h))
        decreases todo
      {
        var h :| h in todo;
        nodes := nodes[h := theirs[h]];
        todo := todo - {h};
      }
      assert forall h :: Lookup(nodes, h) == Lookup(nodes0 + theirs, h);
      MapsEqualByLookup(nodes, nodes0 + theirs);
    }

    /** Copy every row of `theirs`, all in families this store has, into
        the named families, replacing any row under the same key. */
    method CopyRows(theirs: Rows)
      requires Valid() && forall k | k in theirs :: k.column in columns
      modifies this
      ensures Valid()
      ensures rows == old(rows) + theirs && nodes == old(nodes)
    {
      ghost var rows0 := rows;
      var keys := theirs.Keys;
      while keys != {}
        invariant keys <= theirs.Keys
        invariant nodes == old(nodes)
        invariant forall k :: (Lookup(rows, k) ==
          if k in theirs && k !in keys then Some(theirs[k]) else Lookup(rows0, k))
        decreases keys
      {
        var k :| k in keys;
        rows := rows[k := theirs[k]];
        keys := keys - {k};
      }
      assert forall k :: Lookup(rows, k) == Lookup(rows0 + theirs, k);
      MapsEqualByLookup(rows, rows0 + theirs);
    }

    /** `merge_from_db`: both stores archival (it aborts otherwise); every
        node row and every `codes` row of `other` is copied over, rows only
        `this` has are kept, and nothing else changes. The code rows are
        iterated with `other`'s own `codes` handle. */
    method MergeFromDb(other: Storage)
      requires Valid() && other.Valid()
      requires !gcEnabled && !other.gcEnabled
      modifies this
      ensures Valid()
      ensures nodes == old(nodes) + old(other.nodes)
      ensures rows == old(rows) + FamilyRows(old(other.rows), Codes)
    {
      CopyNodes(other.nodes);
      CopyRows(FamilyRows(other.rows, Codes));
    }

    /** `merge_from_db` as written: the code iteration on `other`'s database
        is given `this` store's `codes` handle, so it runs over this store's
        own code rows. The nodes are merged; the code rows are copied onto
        themselves and nothing of `other`'s codes arrives. */
    method MergeFromDbAsWritten(other: Storage)
      requires Valid() && other.Valid()
      requires !gcEnabled && !other.gcEnabled
      modifies this
      ensures Valid()
      ensures nodes == old(nodes) + old(other.nodes)
      ensures rows == old(rows)
    {
      CopyNodes(other.nodes);
      var mine := FamilyRows(rows, Codes);
      CopyRows(mine);
      MergeOwnCodes(old(rows));
    }
  }
}

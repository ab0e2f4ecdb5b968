/** The state-commit protocol on values: what a batch of per-address
    deltas does to the account trie, to each touched storage trie and to
    the code table. `Storage.FlushChanges` is proved against these. */
module Commit {
  import opened EvmTypes
  import opened Words
  import opened Tries
  import opened Schema

  datatype Maybe<T> = Nothing | Just(value: T)

  /** The new basic state of an account; empty code means "code unchanged". */
  datatype AccountState = AccountState(nonce: U64, balance: U256, code: Code)

  /** One address's delta: its new state, or Nothing for removal, and the
      storage words written (index to 32-byte big-endian word). */
  datatype Change = Change(state: Maybe<AccountState>, storage: map<Bytes32, Bytes32>) {
    /** An update that writes at least one storage word; only such a
        delta reads its storage trie and stores a new one. */
    predicate EditsStorage() {
      state.Just? && storage != map[]
    }
  }

  type ChangedState = map<Address, Change>

  /** A storage map holds no zero word: zero is stored as absence. */
  ghost predicate Sparse(slots: map<Bytes32, U256>) {
    forall i | i in slots :: slots[i] != 0
  }

  /** The storage map after the edits: a non-zero word is inserted (read
      big-endian), a zero word deletes the index, other indices keep their
      value. Sparse storage stays sparse. */
  function EditStorage(slots: map<Bytes32, U256>, edits: map<Bytes32, Bytes32>): (r: map<Bytes32, U256>)
    ensures forall i | i in edits :: i in r <==> !IsZero(edits[i])
    ensures forall i | i in edits && !IsZero(edits[i]) :: i in r && r[i] == ToU256(edits[i])
    ensures forall i | i !in edits :: Lookup(r, i) == Lookup(slots, i)
    ensures Sparse(slots) ==> Sparse(r)
  {
    map i | i in slots.Keys + edits.Keys && (i in edits ==> !IsZero(edits[i]))
      :: if i in edits then ToU256(edits[i]) else slots[i]
  }

  /** Edits that only write zero to indices that hold nothing change
      nothing: the storage map, and so its root, stay as they were. */
  lemma ZeroEditsKeepStorage(slots: map<Bytes32, U256>, edits: map<Bytes32, Bytes32>)
    requires forall i | i in edits :: IsZero(edits[i]) && i !in slots
    ensures EditStorage(slots, edits) == slots
    ensures StorageRoot(EditStorage(slots, edits)) == StorageRoot(slots)
  {
    var r := EditStorage(slots, edits);
    forall i ensures Lookup(r, i) == Lookup(slots, i) {
      if i in edits {
        assert i !in r && i !in slots;
      }
    }
    MapsEqualByLookup(r, slots);
  }

  /** One index after the edits: the edited word if the index was
      written (absent when zero), else its old value. */
  function SlotAfter(slots: map<Bytes32, U256>, edits: map<Bytes32, Bytes32>, i: Bytes32): Option<U256> {
    if i !in edits then Lookup(slots, i)
    else if IsZero(edits[i]) then None
    else Some(ToU256(edits[i]))
  }

  /** The source's loop over the storage edits, on the storage trie
      opened at the account's current root. */
  method ApplyStorageEdits(slots: map<Bytes32, U256>, edits: map<Bytes32, Bytes32>)
    returns (r: map<Bytes32, U256>)
    ensures r == EditStorage(slots, edits)
  {
    r := slots;
    var todo := edits.Keys;
    while todo != {}
      invariant todo <= edits.Keys
      invariant forall i :: Lookup(r, i) == if i in todo then Lookup(slots, i) else SlotAfter(slots, edits, i)
      decreases todo
    {
      var i :| i in todo;
      if !IsZero(edits[i]) {
        r := r[i := ToU256(edits[i])];
      } else {
        r := r - {i};
      }
      todo := todo - {i};
    }
    var e := EditStorage(slots, edits);
    assert forall i :: Lookup(e, i) == SlotAfter(slots, edits, i);
    MapsEqualByLookup(r, e);
  }

  /** The account an address holds before the batch (`unwrap_or_default`):
      its stored account, or for an address without one a zero nonce and
      balance, the hash of empty code and the empty storage trie. */
  function PriorAccount(prior: map<Address, Account>, a: Address): (r: Account)
    ensures a in prior ==> r == prior[a]
    ensures a !in prior ==>
      r.nonce == 0 && r.balance == 0 && r.codeHash == CodeHash([]) && r.storageRoot == EmptyTrieHash
  {
    if a in prior then prior[a] else DefaultAccount
  }

  /** Every account whose storage the batch edits has a readable storage trie. */
  ghost predicate StorageReadable(nodes: NodeTable, prior: map<Address, Account>, updates: ChangedState) {
    forall a | a in updates && updates[a].EditsStorage() ::
      SlotsAt(nodes, PriorAccount(prior, a).storageRoot).Some?
  }

  /** The storage map of an updated account after its edits. */
  function NewSlots(nodes: NodeTable, prior: map<Address, Account>, updates: ChangedState, a: Address): map<Bytes32, U256>
    requires StorageReadable(nodes, prior, updates)
    requires a in updates && updates[a].EditsStorage()
  {
    EditStorage(SlotsAt(nodes, PriorAccount(prior, a).storageRoot).value, updates[a].storage)
  }

  /** The storage root of an updated account. Without storage edits the
      storage trie is left unread and `apply` gives back the root it was
      opened at; otherwise it is the root of the edited map. */
  function NewStorageRoot(nodes: NodeTable, prior: map<Address, Account>, updates: ChangedState, a: Address): Hash
    requires StorageReadable(nodes, prior, updates)
    requires a in updates && updates[a].state.Just?
  {
    if updates[a].storage == map[] then PriorAccount(prior, a).storageRoot
    else StorageRoot(NewSlots(nodes, prior, updates, a))
  }

  /** An account after its delta: the new nonce and balance, the hash of
      non-empty code (else the old code hash), and its new storage root. */
  function Updated(base: Account, st: AccountState, storageRoot: Hash): (r: Account)
    ensures r.nonce == st.nonce && r.balance == st.balance && r.storageRoot == storageRoot
    ensures |st.code| == 0 ==> r.codeHash == base.codeHash
    ensures |st.code| != 0 ==> r.codeHash == CodeHash(st.code)
  {
    Account(st.nonce, st.balance, if |st.code| == 0 then base.codeHash else CodeHash(st.code), storageRoot)
  }

  /** One address's account after the batch, or None when it is removed. */
  function Outcome(nodes: NodeTable, prior: map<Address, Account>, updates: ChangedState, a: Address): Option<Account>
    requires StorageReadable(nodes, prior, updates)
  {
    if a !in updates then Lookup(prior, a)
    else match updates[a].state
      case Nothing => None
      case Just(st) => Some(Updated(PriorAccount(prior, a), st, NewStorageRoot(nodes, prior, updates, a)))
  }

  /** One address's account once the deltas of the addresses in `done`
      are applied. */
  function OutcomeAfter(nodes: NodeTable, prior: map<Address, Account>, updates: ChangedState, done: set<Address>, a: Address): Option<Account>
    requires StorageReadable(nodes, prior, updates)
  {
    if a in done then Outcome(nodes, prior, updates, a) else Lookup(prior, a)
  }

  /** The account trie's map once the deltas of the addresses in `done`
      are applied, in any order: each address holds its `OutcomeAfter`. */
  function CommittedOn(nodes: NodeTable, prior: map<Address, Account>, updates: ChangedState, done: set<Address>): (r: map<Address, Account>)
    requires StorageReadable(nodes, prior, updates)
    ensures forall a :: Lookup(r, a) == OutcomeAfter(nodes, prior, updates, done, a)
  {
    map a | a in prior.Keys + (done * updates.Keys) && OutcomeAfter(nodes, prior, updates, done, a).Some?
      :: OutcomeAfter(nodes, prior, updates, done, a).value
  }

  /** Before any delta the map is the prior one. */
  lemma CommittedOnNothing(nodes: NodeTable, prior: map<Address, Account>, updates: ChangedState)
    requires StorageReadable(nodes, prior, updates)
    ensures CommittedOn(nodes, prior, updates, {}) == prior
  {
    var r := CommittedOn(nodes, prior, updates, {});
    assert forall a :: Lookup(r, a) == Lookup(prior, a);
    MapsEqualByLookup(r, prior);
  }

  /** Applying one more delta removes the address or writes its new account. */
  lemma CommittedOnStep(nodes: NodeTable, prior: map<Address, Account>, updates: ChangedState, done: set<Address>, a: Address)
    requires StorageReadable(nodes, prior, updates)
    requires a in updates && a !in done
    ensures CommittedOn(nodes, prior, updates, done + {a}) ==
      match updates[a].state
      case Nothing => CommittedOn(nodes, prior, updates, done) - {a}
      case Just(st) => CommittedOn(nodes, prior, updates, done)[a := Updated(PriorAccount(prior, a), st, NewStorageRoot(nodes, prior, updates, a))]
  {
    var before := CommittedOn(nodes, prior, updates, done);
    var after := CommittedOn(nodes, prior, updates, done + {a});
    var step := match updates[a].state
      case Nothing => before - {a}
      case Just(st) => before[a := Updated(PriorAccount(prior, a), st, NewStorageRoot(nodes, prior, updates, a))];
    forall b ensures Lookup(after, b) == Lookup(step, b) {
      assert Lookup(after, b) == OutcomeAfter(nodes, prior, updates, done + {a}, b);
      if b != a {
        assert Lookup(before, b) == OutcomeAfter(nodes, prior, updates, done, b);
      }
    }
    MapsEqualByLookup(after, step);
  }

  /** Inside the batch loop, with the addresses in `done` applied to
      `accounts` on a node table that extends the one the batch started
      from: the next address's storage trie is still readable, and
      applying its delta to `accounts` gives the map with it done too. */
  lemma CommittedOnNext(nodes0: NodeTable, nodes: NodeTable, prior: map<Address, Account>, updates: ChangedState,
                        done: set<Address>, a: Address, accounts: map<Address, Account>)
    requires StorageReadable(nodes0, prior, updates) && Extends(nodes, nodes0)
    requires a in updates && a !in done
    requires accounts == CommittedOn(nodes0, prior, updates, done)
    ensures PriorAccount(accounts, a) == PriorAccount(prior, a)
    ensures updates[a].EditsStorage() ==>
      SlotsAt(nodes, PriorAccount(accounts, a).storageRoot) == SlotsAt(nodes0, PriorAccount(prior, a).storageRoot) &&
      SlotsAt(nodes, PriorAccount(accounts, a).storageRoot).Some?
    ensures CommittedOn(nodes0, prior, updates, done + {a}) ==
      match updates[a].state
      case Nothing => accounts - {a}
      case Just(st) => accounts[a := Updated(PriorAccount(accounts, a), st, NewStorageRoot(nodes0, prior, updates, a))]
  {
    CommittedOnStep(nodes0, prior, updates, done, a);
    assert Lookup(accounts, a) == Lookup(prior, a);
    ReadStable(nodes, nodes0, PriorAccount(prior, a).storageRoot);
  }

  /** The account map after one delta, the account's storage read at
      `nodes`: a removal drops the address, an update writes its account,
      and no other address changes. */
  function Applied(nodes: NodeTable, accounts: map<Address, Account>, a: Address, change: Change): (r: map<Address, Account>)
    requires change.EditsStorage() ==> SlotsAt(nodes, PriorAccount(accounts, a).storageRoot).Some?
    ensures change.state.Nothing? <==> a !in r
    ensures change.state.Just? ==> r[a].nonce == change.state.value.nonce && r[a].balance == change.state.value.balance
    ensures forall b | b != a :: Lookup(r, b) == Lookup(accounts, b)
  {
    match change.state
    case Nothing => accounts - {a}
    case Just(st) =>
      var root :=
        if change.storage == map[] then PriorAccount(accounts, a).storageRoot
        else StorageRoot(EditStorage(SlotsAt(nodes, PriorAccount(accounts, a).storageRoot).value, change.storage));
      accounts[a := Updated(PriorAccount(accounts, a), st, root)]
  }

  /** The storage roots the deltas of the addresses in `done` write. */
  function StorageRootsOf(nodes: NodeTable, prior: map<Address, Account>, updates: ChangedState, done: set<Address>): set<Hash>
    requires StorageReadable(nodes, prior, updates)
  {
    set a | a in done && a in updates && updates[a].EditsStorage() :: StorageRoot(NewSlots(nodes, prior, updates, a))
  }

  lemma StorageRootsOfStep(nodes: NodeTable, prior: map<Address, Account>, updates: ChangedState, done: set<Address>, a: Address)
    requires StorageReadable(nodes, prior, updates) && a in updates
    ensures StorageRootsOf(nodes, prior, updates, done + {a}) ==
      StorageRootsOf(nodes, prior, updates, done) +
      (if updates[a].EditsStorage() then {StorageRoot(NewSlots(nodes, prior, updates, a))} else {})
  {
  }

  /** Once every edited storage root of the batch is stored, the storage
      of each account the batch edits reads back as its edited map. */
  lemma StoredRootsRead(nodes0: NodeTable, nodes: NodeTable, prior: map<Address, Account>, updates: ChangedState)
    requires StorageReadable(nodes0, prior, updates) && ContentAddressed(nodes)
    requires StorageRootsOf(nodes0, prior, updates, updates.Keys) <= nodes.Keys + {EmptyTrieHash}
    ensures forall a | a in updates && updates[a].EditsStorage() ::
      var slots := NewSlots(nodes0, prior, updates, a);
      SlotsAt(nodes, StorageRoot(slots)) == Some(slots)
  {
    forall a | a in updates && updates[a].EditsStorage()
      ensures SlotsAt(nodes, StorageRoot(NewSlots(nodes0, prior, updates, a))) == Some(NewSlots(nodes0, prior, updates, a))
    {
      var slots := NewSlots(nodes0, prior, updates, a);
      assert StorageRoot(slots) in StorageRootsOf(nodes0, prior, updates, updates.Keys);
      StoredSlotsRead(nodes, slots);
    }
  }

  /** The state of the batch loop once the deltas of `done` are applied:
      the node table extends the starting one and holds every storage
      root written so far, the rows gained the codes written so far, and
      the account map is `CommittedOn` of `done`. */
  ghost predicate BatchProgress(t: Table<Hash, Code>, nodes0: NodeTable, rows0: Rows, prior: map<Address, Account>,
                                updates: ChangedState, done: set<Address>,
                                nodes: NodeTable, rows: Rows, accounts: map<Address, Account>)
    requires Typed(t) && StorageReadable(nodes0, prior, updates)
  {
    && Extends(nodes, nodes0)
    && rows == rows0 + CodeRows(t, NewCodes(updates, done))
    && accounts == CommittedOn(nodes0, prior, updates, done)
    && StorageRootsOf(nodes0, prior, updates, done) <= nodes.Keys + {EmptyTrieHash}
  }

  /** One delta of the batch, applied as `Storage.ApplyChange` does it,
      keeps `BatchProgress` with its address done. */
  lemma BatchStep(t: Table<Hash, Code>, nodes0: NodeTable, rows0: Rows, prior: map<Address, Account>,
                  updates: ChangedState, done: set<Address>, a: Address,
                  nodes: NodeTable, rows: Rows, accounts: map<Address, Account>,
                  nodes': NodeTable, rows': Rows, accounts': map<Address, Account>)
    requires Typed(t) && StorageReadable(nodes0, prior, updates)
    requires a in updates && a !in done
    requires BatchProgress(t, nodes0, rows0, prior, updates, done, nodes, rows, accounts)
    requires updates[a].EditsStorage() ==> SlotsAt(nodes, PriorAccount(accounts, a).storageRoot).Some?
    requires Extends(nodes', nodes)
    requires accounts' == Applied(nodes, accounts, a, updates[a])
    requires updates[a].EditsStorage() ==>
      var slots := EditStorage(SlotsAt(nodes, PriorAccount(accounts, a).storageRoot).value, updates[a].storage);
      SlotsAt(nodes', StorageRoot(slots)) == Some(slots)
    requires rows' == WriteCode(t, rows, updates[a])
    ensures BatchProgress(t, nodes0, rows0, prior, updates, done + {a}, nodes', rows', accounts')
  {
    CommittedOnNext(nodes0, nodes, prior, updates, done, a, accounts);
    CodeRowsStep(t, rows0, updates, done, a);
    StorageRootsOfStep(nodes0, prior, updates, done, a);
    ExtendsTransitive(nodes', nodes, nodes0);
    assert nodes.Keys <= nodes'.Keys;
    if updates[a].EditsStorage() {
      assert StorageRoot(NewSlots(nodes0, prior, updates, a)) in nodes'.Keys + {EmptyTrieHash};
    }
  }

  /** The account trie's map after the whole batch. */
  function Committed(nodes: NodeTable, prior: map<Address, Account>, updates: ChangedState): (r: map<Address, Account>)
    requires StorageReadable(nodes, prior, updates)
    ensures r.Keys <= prior.Keys + updates.Keys
    ensures updates == map[] ==> r == prior
  {
    CommittedOn(nodes, prior, updates, updates.Keys)
  }

  /** What the batch does to the account map: removed addresses are
      absent, untouched ones keep their account; an updated account takes
      the delta's nonce and balance, the hash of non-empty code (else its
      old code hash, the default one for a new account), and the root of
      its edited storage map, or its old storage root when it edits no
      storage. */
  lemma CommittedSpec(nodes: NodeTable, prior: map<Address, Account>, updates: ChangedState)
    requires StorageReadable(nodes, prior, updates)
    ensures var r := Committed(nodes, prior, updates);
      && (forall a | a in updates && updates[a].state.Nothing? :: a !in r)
      && (forall a | a !in updates :: Lookup(r, a) == Lookup(prior, a))
      && (forall a | a in updates && updates[a].state.Just? ::
            a in r && r[a].nonce == updates[a].state.value.nonce && r[a].balance == updates[a].state.value.balance)
      && (forall a | a in updates && updates[a].state.Just? && |updates[a].state.value.code| == 0 ::
            a in r && r[a].codeHash == PriorAccount(prior, a).codeHash)
      && (forall a | a in updates && updates[a].state.Just? && |updates[a].state.value.code| != 0 ::
            a in r && r[a].codeHash == CodeHash(updates[a].state.value.code))
      && (forall a | a in updates && updates[a].state.Just? && updates[a].storage == map[] ::
            a in r && r[a].storageRoot == PriorAccount(prior, a).storageRoot)
      && (forall a | a in updates && updates[a].EditsStorage() ::
            a in r && r[a].storageRoot == StorageRoot(NewSlots(nodes, prior, updates, a)))
  {
    var r := Committed(nodes, prior, updates);
    assert forall a :: Lookup(r, a) == Outcome(nodes, prior, updates, a);
  }

  /** An address absent before the batch starts from the default account:
      without code in its delta it points at the empty code, and its
      storage is its edits applied to the empty storage. */
  lemma NewAccountStartsFromDefault(nodes: NodeTable, prior: map<Address, Account>, updates: ChangedState, a: Address)
    requires StorageReadable(nodes, prior, updates)
    requires a !in prior && a in updates && updates[a].state.Just?
    ensures var r := Committed(nodes, prior, updates);
      && a in r
      && (|updates[a].state.value.code| == 0 ==> r[a].codeHash == CodeHash([]))
      && r[a].storageRoot == StorageRoot(EditStorage(map[], updates[a].storage))
  {
    CommittedSpec(nodes, prior, updates);
    assert PriorAccount(prior, a) == DefaultAccount;
    if updates[a].storage == map[] {
      assert EditStorage(map[], updates[a].storage) == map[];
    } else {
      assert SlotsAt(nodes, EmptyTrieHash) == Some(map[]);
    }
  }

  /** A batch that creates an account on the empty state, followed by a
      batch that removes it, leaves the empty account trie. */
  lemma CreateThenRemove(nodes: NodeTable, a: Address, st: AccountState, edits: map<Bytes32, Bytes32>)
    ensures StorageReadable(nodes, map[], map[a := Change(Just(st), edits)])
    ensures var created := Committed(nodes, map[], map[a := Change(Just(st), edits)]);
      && created.Keys == {a}
      && StorageReadable(nodes, created, map[a := Change(Nothing, map[])])
      && Committed(nodes, created, map[a := Change(Nothing, map[])]) == map[]
      && AccountsRoot(Committed(nodes, created, map[a := Change(Nothing, map[])])) == EmptyTrieHash
  {
    var create := map[a := Change(Just(st), edits)];
    assert SlotsAt(nodes, EmptyTrieHash) == Some(map[]);
    var created := Committed(nodes, map[], create);
    CommittedSpec(nodes, map[], create);
    assert created.Keys == {a};
    var remove := map[a := Change(Nothing, map[])];
    var removed := Committed(nodes, created, remove);
    CommittedSpec(nodes, created, remove);
    assert removed.Keys == {};
  }

  /** The non-empty codes of the updated accounts among `keys`. */
  function NewCodes(updates: ChangedState, keys: set<Address>): set<Code> {
    set a | a in keys && a in updates && updates[a].state.Just? && |updates[a].state.value.code| != 0
      :: updates[a].state.value.code
  }

  /** The code-table keys of `codes`: each code's hash, encoded. */
  function CodeKeys(t: Table<Hash, Code>, codes: set<Code>): set<RowKey> {
    set c | c in codes :: RowKey(t.column, t.key.encode(CodeHash(c)))
  }

  /** The code whose hash a code-table key encodes. */
  function CodeAt(t: Table<Hash, Code>, k: RowKey): Code {
    match t.key.decode(k.key)
    case Some(CodeHash(code)) => code
    case _ => []
  }

  /** The code-table rows written for `codes`: each code under its hash. */
  function CodeRows(t: Table<Hash, Code>, codes: set<Code>): Rows {
    map k | k in CodeKeys(t, codes) :: t.value.encode(CodeAt(t, k))
  }

  /** The rows after one delta: non-empty code is written under its hash,
      replacing any earlier row, and reads back through the table; without
      code nothing changes; rows of other families never change. */
  function WriteCode(t: Table<Hash, Code>, rows: Rows, change: Change): (r: Rows)
    requires Typed(t)
    ensures change.state.Just? && |change.state.value.code| != 0 ==>
      var code := change.state.value.code;
      Decodes(t, r, CodeHash(code)) && Read(t, r, CodeHash(code)) == Some(code)
    ensures !(change.state.Just? && |change.state.value.code| != 0) ==> r == rows
    ensures forall k: RowKey | k.column != t.column :: Lookup(r, k) == Lookup(rows, k)
  {
    if change.state.Just? && |change.state.value.code| != 0
    then Write(t, rows, CodeHash(change.state.value.code), change.state.value.code)
    else rows
  }

  /** Adding one address to the processed ones adds its code, if any. */
  lemma NewCodesStep(updates: ChangedState, done: set<Address>, a: Address)
    requires a in updates
    ensures NewCodes(updates, done + {a}) ==
      NewCodes(updates, done) +
      (if updates[a].state.Just? && |updates[a].state.value.code| != 0 then {updates[a].state.value.code} else {})
  {
  }

  /** An update of the right operand of a union is an update of the union. */
  lemma UnionUpdate<K, V>(base: map<K, V>, m: map<K, V>, k: K, v: V)
    ensures (base + m)[k := v] == base + m[k := v]
  {
  }

  /** The code rows of one more code: its row is added, or replaced. */
  lemma CodeRowsInsert(t: Table<Hash, Code>, codes: set<Code>, c: Code)
    requires Typed(t)
    ensures CodeRows(t, codes + {c}) ==
      CodeRows(t, codes)[RowKey(t.column, t.key.encode(CodeHash(c))) := t.value.encode(c)]
  {
    var k := RowKey(t.column, t.key.encode(CodeHash(c)));
    assert CodeKeys(t, codes + {c}) == CodeKeys(t, codes) + {k};
    assert CodeAt(t, k) == c by {
      assert t.key.decode(t.key.encode(CodeHash(c))) == Some(CodeHash(c));
    }
  }

  /** Writing one more code row extends the rows of the codes written so far. */
  lemma CodeRowAdded(t: Table<Hash, Code>, base: Rows, codes: set<Code>, c: Code)
    requires Typed(t)
    ensures Write(t, base + CodeRows(t, codes), CodeHash(c), c) == base + CodeRows(t, codes + {c})
  {
    var k := RowKey(t.column, t.key.encode(CodeHash(c)));
    var m := CodeRows(t, codes);
    CodeRowsInsert(t, codes, c);
    assert Write(t, base + m, CodeHash(c), c) == (base + m)[k := t.value.encode(c)];
    UnionUpdate(base, m, k, t.value.encode(c));
  }

  /** One more delta of the batch writes the code rows of one more address. */
  lemma CodeRowsStep(t: Table<Hash, Code>, base: Rows, updates: ChangedState, done: set<Address>, a: Address)
    requires Typed(t) && a in updates
    ensures WriteCode(t, base + CodeRows(t, NewCodes(updates, done)), updates[a])
      == base + CodeRows(t, NewCodes(updates, done + {a}))
  {
    NewCodesStep(updates, done, a);
    var before := NewCodes(updates, done);
    if updates[a].state.Just? && |updates[a].state.value.code| != 0 {
      var c := updates[a].state.value.code;
      assert NewCodes(updates, done + {a}) == before + {c};
      CodeRowAdded(t, base, before, c);
    } else {
      assert NewCodes(updates, done + {a}) == before;
    }
  }

  /** After the batch every non-empty code of an updated account reads
      back from the code table under its hash. */
  lemma FlushedCodesRead(t: Table<Hash, Code>, base: Rows, updates: ChangedState, a: Address)
    requires Typed(t)
    requires a in updates && updates[a].state.Just? && |updates[a].state.value.code| != 0
    ensures var rows := base + CodeRows(t, NewCodes(updates, updates.Keys));
      var code := updates[a].state.value.code;
      Decodes(t, rows, CodeHash(code)) && Read(t, rows, CodeHash(code)) == Some(code)
  {
    var code := updates[a].state.value.code;
    var k := RowKey(t.column, t.key.encode(CodeHash(code)));
    assert code in NewCodes(updates, updates.Keys);
    assert k in CodeKeys(t, NewCodes(updates, updates.Keys));
    assert t.key.decode(k.key) == Some(CodeHash(code));
    assert t.value.decode(t.value.encode(code)) == Some(code);
  }

  /** A batch without code writes no code row. */
  lemma NoCodeNoCodeRows(t: Table<Hash, Code>, base: Rows, updates: ChangedState)
    requires forall a | a in updates && updates[a].state.Just? :: |updates[a].state.value.code| == 0
    ensures base + CodeRows(t, NewCodes(updates, updates.Keys)) == base
  {
    assert NewCodes(updates, updates.Keys) == {};
    assert CodeRows(t, {}) == map[];
  }
}

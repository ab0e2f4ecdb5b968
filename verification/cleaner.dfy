/** The offline cleaner: given the trie node keys and the code hashes
    that live state still reaches (collected beforehand by walking the
    live tries), it deletes every other node row and every other code row.
    Node rows are deleted in one batch, then code rows in a second one. */
module Cleaner {
  import opened EvmTypes
  import opened Tries
  import opened Schema
  import Storage

  /** Why a cleanup stops: a key of the codes family is not an encoded hash. */
  datatype CleanupError = CodeKeyUndecodable

  datatype CleanupResult = Cleaned | Failed(cause: CleanupError)

  /** The node rows kept: those under a live key, with their nodes. */
  function KeepNodes(nodes: NodeTable, live: set<Hash>): (r: NodeTable)
    ensures r.Keys == nodes.Keys * live
    ensures forall h | h in r :: r[h] == nodes[h]
  {
    map h | h in nodes && h in live :: nodes[h]
  }

  /** Every key of the codes family decodes as a hash; the cleanup fails otherwise. */
  predicate CodeKeysDecode(t: Table<Hash, Code>, rows: Rows) {
    forall k | k in rows && k.column == t.column :: t.key.decode(k.key).Some?
  }

  /** A row the code cleanup keeps: one of another family, or a code row
      whose decoded hash is live. */
  predicate KeepsRow(t: Table<Hash, Code>, live: set<Hash>, k: RowKey)
    requires k.column == t.column ==> t.key.decode(k.key).Some?
  {
    k.column != t.column || t.key.decode(k.key).value in live
  }

  /** The rows kept by the code cleanup, with their values. */
  function KeepCodes(t: Table<Hash, Code>, rows: Rows, live: set<Hash>): (r: Rows)
    requires CodeKeysDecode(t, rows)
    ensures forall k :: k in r <==> k in rows && KeepsRow(t, live, k)
    ensures forall k | k in r :: r[k] == rows[k]
  {
    map k | k in rows && KeepsRow(t, live, k) :: rows[k]
  }

  /** The node cleanup keeps exactly the live trie keys: the kept key set is
      the intersection of the stored and the live keys. Cleaning again
      changes nothing, and the table stays content-addressed. */
  lemma KeepNodesSpec(nodes: NodeTable, live: set<Hash>)
    ensures KeepNodes(KeepNodes(nodes, live), live) == KeepNodes(nodes, live)
    ensures ContentAddressed(nodes) ==> ContentAddressed(KeepNodes(nodes, live))
    ensures Extends(nodes, KeepNodes(nodes, live))
  {
    var r := KeepNodes(nodes, live);
    assert KeepNodes(r, live).Keys == r.Keys;
  }

  /** Every live trie reads as before the cleanup; a trie whose root is
      not live no longer exists. */
  lemma LiveTriesReadable(nodes: NodeTable, live: set<Hash>, root: Hash)
    ensures root in live ==> AccountsAt(KeepNodes(nodes, live), root) == AccountsAt(nodes, root)
    ensures root in live ==> SlotsAt(KeepNodes(nodes, live), root) == SlotsAt(nodes, root)
    ensures root != EmptyTrieHash && root !in live ==> !RootExists(KeepNodes(nodes, live), root)
  {
  }

  /** The code cleanup is idempotent and leaves every other family alone. */
  lemma KeepCodesSpec(t: Table<Hash, Code>, rows: Rows, live: set<Hash>)
    requires CodeKeysDecode(t, rows)
    ensures CodeKeysDecode(t, KeepCodes(t, rows, live))
    ensures KeepCodes(t, KeepCodes(t, rows, live), live) == KeepCodes(t, rows, live)
    ensures forall k: RowKey | k.column != t.column :: Lookup(KeepCodes(t, rows, live), k) == Lookup(rows, k)
  {
    var r := KeepCodes(t, rows, live);
    assert KeepCodes(t, r, live).Keys == r.Keys;
  }

  /** Through the typed table: the code under a live hash reads as before,
      the code under any other hash is gone. */
  lemma LiveCodesReadable(t: Table<Hash, Code>, rows: Rows, live: set<Hash>, h: Hash)
    requires Typed(t) && CodeKeysDecode(t, rows) && Decodes(t, rows, h)
    ensures Decodes(t, KeepCodes(t, rows, live), h)
    ensures h in live ==> Read(t, KeepCodes(t, rows, live), h) == Read(t, rows, h)
    ensures h !in live ==> Read(t, KeepCodes(t, rows, live), h) == None
  {
    var k := RowKey(t.column, t.key.encode(h));
    assert t.key.decode(k.key) == Some(h);
  }

  /** The first batch of `cleanup`: a pass over the default family
      collecting every stored key that is not live. */
  method StaleNodeKeys(nodes: NodeTable, live: set<Hash>) returns (stale: set<Hash>)
    ensures stale == nodes.Keys - live
  {
    stale := {};
    var todo := nodes.Keys;
    while todo != {}
      invariant todo <= nodes.Keys
      invariant stale == (nodes.Keys - todo) - live
      decreases todo
    {
      var h :| h in todo;
      if h !in live {
        stale := stale + {h};
      }
      todo := todo - {h};
    }
  }

  /** The second batch of `cleanup`: a pass over the codes family
      collecting every key whose decoded hash is not live; it fails on
      the first key that does not decode. */
  method StaleCodeKeys(t: Table<Hash, Code>, rows: Rows, live: set<Hash>) returns (r: Option<set<RowKey>>)
    ensures r.Some? <==> CodeKeysDecode(t, rows)
    ensures r.Some? ==> forall k :: k in r.value <==> k in rows && !KeepsRow(t, live, k)
  {
    var stale: set<RowKey> := {};
    var keys := set k | k in rows && k.column == t.column;
    ghost var seen: set<RowKey> := {};
    while keys != {}
      invariant keys !! seen && keys + seen == set k | k in rows && k.column == t.column
      invariant forall k | k in seen :: t.key.decode(k.key).Some?
      invariant forall k :: k in stale <==> k in seen && t.key.decode(k.key).value !in live
      decreases keys
    {
      var k :| k in keys;
      match t.key.decode(k.key) {
        case None =>
          return None;
        case Some(h) =>
          if h !in live {
            stale := stale + {k};
          }
      }
      keys := keys - {k};
      seen := seen + {k};
    }
    return Some(stale);
  }

  /** `Cleaner`: the store and the live keys it is built with. */
  class Cleaner {
    const db: Storage.Storage
    /** The keys of every node of the live tries. */
    const trieKeys: set<Hash>
    /** The code hashes of the live accounts. */
    const codeHashes: set<Hash>

    /** `new_with`. */
    constructor NewWith(db: Storage.Storage, trieKeys: set<Hash>, codeHashes: set<Hash>)
      ensures this.db == db && this.trieKeys == trieKeys && this.codeHashes == codeHashes
    {
      this.db := db;
      this.trieKeys := trieKeys;
      this.codeHashes := codeHashes;
    }

    /** `cleanup`: collect the node keys that are not live and delete them
        in one batch; then collect the code keys whose hash is not live and
        delete them in a second batch. A code key that does not decode
        stops the cleanup with an error before the second batch is
        written, after the first one was. */
    method Cleanup(codes: Table<Hash, Code>) returns (r: CleanupResult)
      requires db.Valid() && codes.column == Codes
      modifies db
      ensures db.Valid()
      ensures db.nodes == KeepNodes(old(db.nodes), trieKeys)
      ensures r == Cleaned <==> CodeKeysDecode(codes, old(db.rows))
      ensures r == Cleaned ==> db.rows == KeepCodes(codes, old(db.rows), codeHashes)
      ensures r != Cleaned ==> db.rows == old(db.rows)
    {
      // The default family: delete every stored key that is not live.
      var stale := StaleNodeKeys(db.nodes, trieKeys);
      db.nodes := map h | h in db.nodes && h !in stale :: db.nodes[h];
      assert db.nodes == KeepNodes(old(db.nodes), trieKeys);
      KeepNodesSpec(old(db.nodes), trieKeys);

      // The codes family: delete every code key whose hash is not live.
      var staleCodes := StaleCodeKeys(codes, db.rows, codeHashes);
      if staleCodes.None? {
        return Failed(CodeKeyUndecodable);
      }
      db.rows := map k | k in db.rows && k !in staleCodes.value :: db.rows[k];
      assert db.rows == KeepCodes(codes, old(db.rows), codeHashes);
      r := Cleaned;
    }
  }
}

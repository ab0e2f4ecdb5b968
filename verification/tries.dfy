/** The trie capability the store uses, on the default node table:
    opening a trie at a root reads the node stored under that root, and
    applying a trie's accumulated edits stores its new root node and
    returns the root hash. Node encoding and the Merkle-Patricia layout
    belong to the trie library; here the node under a root holds the
    whole map of that trie. */
module Tries {
  import opened EvmTypes

  type NodeTable = map<Hash, Node>

  /** Content addressing: every node is stored under its own hash, and no
      node is stored for an empty trie. */
  ghost predicate ContentAddressed(nodes: NodeTable) {
    forall h | h in nodes :: h == NodeHash(nodes[h]) && !nodes[h].IsEmpty()
  }

  /** `big` keeps every row of `small` with its value. */
  ghost predicate Extends(big: NodeTable, small: NodeTable) {
    forall h | h in small :: h in big && big[h] == small[h]
  }

  /** The root hash of the account trie holding `m`: the empty-trie hash
      exactly for the empty map. */
  function AccountsRoot(m: map<Address, Account>): (r: Hash)
    ensures r == EmptyTrieHash <==> m == map[]
  {
    if m == map[] then EmptyTrieHash else NodeHash(AccountsNode(m))
  }

  /** The root hash of the storage trie holding `m`: the empty-trie hash
      exactly for the empty map. */
  function StorageRoot(m: map<Bytes32, U256>): (r: Hash)
    ensures r == EmptyTrieHash <==> m == map[]
  {
    if m == map[] then EmptyTrieHash else NodeHash(StorageNode(m))
  }

  /** The account trie at `root`, or None when it cannot be read (its root
      node is missing, or is not an account-trie node). The empty root
      reads as the empty map; any other root that reads has a stored node. */
  function AccountsAt(nodes: NodeTable, root: Hash): (r: Option<map<Address, Account>>)
    ensures root == EmptyTrieHash ==> r == Some(map[])
    ensures r.Some? && root != EmptyTrieHash ==> root in nodes
  {
    if root == EmptyTrieHash then Some(map[])
    else if root in nodes && nodes[root].AccountsNode? then Some(nodes[root].accounts)
    else None
  }

  /** The storage trie at `root`, or None when it cannot be read. The empty
      root reads as the empty map; any other root that reads has a stored
      node. */
  function SlotsAt(nodes: NodeTable, root: Hash): (r: Option<map<Bytes32, U256>>)
    ensures root == EmptyTrieHash ==> r == Some(map[])
    ensures r.Some? && root != EmptyTrieHash ==> root in nodes
  {
    if root == EmptyTrieHash then Some(map[])
    else if root in nodes && nodes[root].StorageNode? then Some(nodes[root].slots)
    else None
  }

  /** `TrieCollection::apply`: write the root node of the trie whose root
      hash is `root` (nothing for the empty trie). */
  function Persist(nodes: NodeTable, root: Hash): (r: NodeTable)
    requires ContentAddressed(nodes)
    requires root.NodeHash? ==> !root.node.IsEmpty()
    ensures ContentAddressed(r) && Extends(r, nodes)
    ensures root.NodeHash? ==> root in r
  {
    if root.NodeHash? then nodes[root := root.node] else nodes
  }

  /** A trie root that exists: the empty root, or a root whose node is stored. */
  predicate RootExists(nodes: NodeTable, root: Hash) {
    root == EmptyTrieHash || root in nodes
  }

  /** On a content-addressed table a root exists exactly when a trie,
      of one kind or the other, can be read at it. */
  lemma RootExistsIffReadable(nodes: NodeTable, root: Hash)
    requires ContentAddressed(nodes)
    ensures RootExists(nodes, root) <==> AccountsAt(nodes, root).Some? || SlotsAt(nodes, root).Some?
  {
    if root in nodes {
      assert nodes[root].AccountsNode? || nodes[root].StorageNode?;
    }
  }

  /** Applying an account trie's edits and reading it back yields its map. */
  lemma {:induction false} AccountsReadBack(nodes: NodeTable, m: map<Address, Account>)
    requires ContentAddressed(nodes)
    ensures AccountsAt(Persist(nodes, AccountsRoot(m)), AccountsRoot(m)) == Some(m)
  {
  }

  /** Applying a storage trie's edits and reading it back yields its map. */
  lemma {:induction false} SlotsReadBack(nodes: NodeTable, m: map<Bytes32, U256>)
    requires ContentAddressed(nodes)
    ensures SlotsAt(Persist(nodes, StorageRoot(m)), StorageRoot(m)) == Some(m)
  {
  }

  /** A storage trie whose root exists in a content-addressed table reads
      back as the map it was built from. */
  lemma StoredSlotsRead(nodes: NodeTable, m: map<Bytes32, U256>)
    requires ContentAddressed(nodes) && RootExists(nodes, StorageRoot(m))
    ensures SlotsAt(nodes, StorageRoot(m)) == Some(m)
  {
    if m != map[] {
      var h := StorageRoot(m);
      assert h == NodeHash(nodes[h]);
    }
  }

  /** The converse round trip: the root of what is read at a root is that
      root, so re-applying an unchanged trie keeps its root hash. */
  lemma AccountsRootOfContents(nodes: NodeTable, root: Hash)
    requires ContentAddressed(nodes) && AccountsAt(nodes, root).Some?
    ensures AccountsRoot(AccountsAt(nodes, root).value) == root
  {
  }

  lemma StorageRootOfContents(nodes: NodeTable, root: Hash)
    requires ContentAddressed(nodes) && SlotsAt(nodes, root).Some?
    ensures StorageRoot(SlotsAt(nodes, root).value) == root
  {
  }

  /** Writing more nodes never changes what a readable root holds. */
  lemma ReadStable(big: NodeTable, small: NodeTable, root: Hash)
    requires Extends(big, small)
    ensures AccountsAt(small, root).Some? ==> AccountsAt(big, root) == AccountsAt(small, root)
    ensures SlotsAt(small, root).Some? ==> SlotsAt(big, root) == SlotsAt(small, root)
  {
  }

  lemma ExtendsTransitive(a: NodeTable, b: NodeTable, c: NodeTable)
    requires Extends(a, b) && Extends(b, c)
    ensures Extends(a, c)
  {
  }
}

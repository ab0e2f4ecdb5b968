/** Value types shared by the EVM state store: byte strings, fixed-width
    integers, ideal hashes, trie nodes and accounts. */
module EvmTypes {

  /** An octet. */
  newtype Byte = b: int | 0 <= b < 256

  type Bytes = seq<Byte>

  /** H256 used as data (a storage index or a storage word), 32 bytes. */
  type Bytes32 = b: Bytes | |b| == 32 witness seq(32, _ => 0)

  /** H160, an account address, 20 bytes. */
  type Address = b: Bytes | |b| == 20 witness seq(20, _ => 0)

  /** Contract byte code. */
  type Code = Bytes

  /** 256 to the power n: the number of values an n-byte string can hold. */
  function Pow256(n: nat): (p: nat)
    ensures p > 0
  {
    if n == 0 then 1 else 256 * Pow256(n - 1)
  }

  /** Powers of 256 multiply by adding exponents. */
  lemma {:induction false} Pow256Add(m: nat, n: nat)
    ensures Pow256(m + n) == Pow256(m) * Pow256(n)
  {
    if m > 0 {
      Pow256Add(m - 1, n);
    }
  }

  /** 256^32 is 2^256, the bound of a U256. */
  lemma Pow256Of32()
    ensures Pow256(32) == 0x1_0000_0000_0000_0000_0000_0000_0000_0000_0000_0000_0000_0000_0000_0000_0000_0000
  {
    assert Pow256(2) == 0x1_0000;
    Pow256Add(2, 2);
    assert Pow256(4) == 0x1_0000_0000;
    Pow256Add(4, 4);
    assert Pow256(8) == 0x1_0000_0000_0000_0000;
    Pow256Add(8, 8);
    assert Pow256(16) == 0x1_0000_0000_0000_0000_0000_0000_0000_0000;
    Pow256Add(16, 16);
  }

  type U64 = n: nat | n < 0x1_0000_0000_0000_0000

  /** U256: values below 2^256. */
  type U256 = n: nat | n < 0x1_0000_0000_0000_0000_0000_0000_0000_0000_0000_0000_0000_0000_0000_0000_0000_0000

  /** A slot number of the base chain. */
  type Slot = U64

  /** A trie node as the trie library stores it, flattened: the node under
      a root stands for the whole key-value map of the trie with that root. */
  datatype Node =
    | AccountsNode(accounts: map<Address, Account>)
    | StorageNode(slots: map<Bytes32, U256>)
  {
    predicate IsEmpty() {
      match this
      case AccountsNode(m) => m == map[]
      case StorageNode(m) => m == map[]
    }
  }

  /** An ideal 256-bit hash: the value records what was hashed, so two
      distinct contents never share a hash (the collision resistance of
      Keccak-256 that content addressing relies on). `OtherHash` is any
      value that is the hash of nothing this model writes. */
  datatype Hash =
    | EmptyTrieHash
    | NodeHash(node: Node)
    | CodeHash(code: Code)
    | OtherHash(bytes: Bytes32)

  datatype Account = Account(nonce: U64, balance: U256, codeHash: Hash, storageRoot: Hash)

  /** The account a lookup of an absent address yields (`unwrap_or_default`):
      zero nonce and balance, the hash of empty code, and the empty storage trie. */
  const DefaultAccount: Account := Account(0, 0, CodeHash([]), EmptyTrieHash)

  datatype Option<T> = None | Some(value: T)

  /** The store's error kinds; the store-level ones are never produced by
      this model, which leaves I/O failures out. */
  datatype Error = Database | Bincode | Key | Internal

  datatype Result<T> = Ok(value: T) | Err(error: Error)

  function Lookup<K, V>(m: map<K, V>, k: K): Option<V> {
    if k in m then Some(m[k]) else None
  }

  /** Maps are equal when every key looks up alike. */
  lemma MapsEqualByLookup<K, V>(m1: map<K, V>, m2: map<K, V>)
    requires forall k :: Lookup(m1, k) == Lookup(m2, k)
    ensures m1 == m2
  {
    assert m1.Keys == m2.Keys by {
      forall k ensures k in m1 <==> k in m2 {
        assert Lookup(m1, k) == Lookup(m2, k);
      }
    }
    forall k | k in m1 ensures m1[k] == m2[k] {
      assert Lookup(m1, k) == Lookup(m2, k);
    }
  }
}

/** The key-value schema: named column families, the set of them chosen
    by the GC flag when the store is opened, and typed tables (a column
    with a key codec and a value codec, the `SubStorage` descriptors). */
module Schema {
  import opened EvmTypes

  datatype Column =
    | Codes
    | ReferenceCounter
    | Transactions
    | Receipts
    | TransactionHashesPerBlock

  /** The name a family is created and looked up under. */
  function ColumnName(c: Column): string {
    match c
    case Codes => "codes"
    case ReferenceCounter => "reference_counter"
    case Transactions => "transactions"
    case Receipts => "receipts"
    case TransactionHashesPerBlock => "transactions_per_block"
  }

  /** The column families created at open: the GC schema keeps code and
      reference counters, the archival schema keeps code and the
      transaction archives. Both hold `codes`; only GC mode has counters. */
  function ColumnsFor(gcEnabled: bool): (cols: set<Column>)
    ensures Codes in cols
    ensures ReferenceCounter in cols <==> gcEnabled
    ensures Transactions in cols <==> !gcEnabled
    ensures Receipts in cols <==> !gcEnabled
    ensures TransactionHashesPerBlock in cols <==> !gcEnabled
  {
    if gcEnabled then {Codes, ReferenceCounter}
    else {Codes, Transactions, Receipts, TransactionHashesPerBlock}
  }

  /** The two schemas share exactly the `codes` column. */
  lemma SchemasOverlapInCodes()
    ensures ColumnsFor(true) * ColumnsFor(false) == {Codes}
  {
  }

  /** Every family has a name of its own, so looking a family up by name
      finds that family; these are the names each mode opens. */
  lemma ColumnNamesDistinct()
    ensures forall c: Column, d: Column :: ColumnName(c) == ColumnName(d) ==> c == d
    ensures (set c | c in ColumnsFor(true) :: ColumnName(c)) == {"codes", "reference_counter"}
    ensures (set c | c in ColumnsFor(false) :: ColumnName(c)) ==
      {"codes", "transactions", "receipts", "transactions_per_block"}
  {
    assert ColumnName(Codes) == "codes" && ColumnName(ReferenceCounter) == "reference_counter";
    assert ColumnName(Transactions) == "transactions" && ColumnName(Receipts) == "receipts";
    assert ColumnName(TransactionHashesPerBlock) == "transactions_per_block";
  }

  /** A byte codec supplied by a foreign library (rlp for keys, big-endian
      bincode for values). */
  datatype Codec<!T> = Codec(encode: T -> Bytes, decode: Bytes -> Option<T>)

  /** Decoding what was encoded gives the value back. */
  ghost predicate Lossless<T(!new)>(c: Codec<T>) {
    forall x :: c.decode(c.encode(x)) == Some(x)
  }

  /** A typed table: its column and the codecs of its keys and values. */
  datatype Table<!K, !V> = Table(column: Column, key: Codec<K>, value: Codec<V>)

  ghost predicate Typed<K(!new), V(!new)>(t: Table<K, V>) {
    Lossless(t.key) && Lossless(t.value)
  }

  /** A row's address in the store: its column family and its raw key. */
  datatype RowKey = RowKey(column: Column, key: Bytes)

  /** The named column families' rows, raw bytes under (family, raw key). */
  type Rows = map<RowKey, Bytes>

  /** The row for `key` is absent or holds bytes the value codec accepts;
      `get` aborts on anything else. */
  predicate Decodes<K, V>(t: Table<K, V>, rows: Rows, key: K) {
    var k := RowKey(t.column, t.key.encode(key));
    k in rows ==> t.value.decode(rows[k]).Some?
  }

  /** `get`: encode the key, look the row up in the table's family, decode
      the value. A value is found exactly when the encoded key has a row,
      and it is what that row's bytes decode to. */
  function Read<K, V>(t: Table<K, V>, rows: Rows, key: K): (r: Option<V>)
    requires Decodes(t, rows, key)
    ensures r.Some? <==> RowKey(t.column, t.key.encode(key)) in rows
    ensures r.Some? ==> t.value.decode(rows[RowKey(t.column, t.key.encode(key))]) == Some(r.value)
  {
    var k := RowKey(t.column, t.key.encode(key));
    if k in rows then Some(t.value.decode(rows[k]).value) else None
  }

  /** `set`: encode both and write the row, replacing any earlier value.
      Reading the key back gives the value; every other key of the table
      reads as before, and no row of another family changes. */
  function Write<K(!new), V(!new)>(t: Table<K, V>, rows: Rows, key: K, value: V): (r: Rows)
    requires Typed(t)
    ensures Decodes(t, r, key) && Read(t, r, key) == Some(value)
    ensures forall k :: k != key ==> Decodes(t, r, k) == Decodes(t, rows, k)
    ensures forall k | k != key && Decodes(t, rows, k) :: Read(t, r, k) == Read(t, rows, k)
    ensures forall k: RowKey | k.column != t.column :: Lookup(r, k) == Lookup(rows, k)
  {
    var r := rows[RowKey(t.column, t.key.encode(key)) := t.value.encode(value)];
    assert forall k :: k != key ==> t.key.encode(k) != t.key.encode(key) by {
      forall k | k != key ensures t.key.encode(k) != t.key.encode(key) {
        assert t.key.decode(t.key.encode(k)) == Some(k);
      }
    }
    r
  }

  /** The rows of one family. */
  function FamilyRows(rows: Rows, c: Column): (r: Rows)
    ensures forall k :: Lookup(r, k) == if k.column == c then Lookup(rows, k) else None
  {
    map k | k in rows && k.column == c :: rows[k]
  }
}

/** Reading a 32-byte storage word as a 256-bit unsigned integer, as
    `U256::from_big_endian` does, and recognising the all-zero word
    `H256::default()`. */
module Words {
  import opened EvmTypes

  /** The unsigned integer whose big-endian bytes are `b`: it fits in |b|
      bytes, and it is zero exactly when every byte is zero. */
  function FromBigEndian(b: Bytes): (n: nat)
    ensures n < Pow256(|b|)
    ensures n == 0 <==> forall i | 0 <= i < |b| :: b[i] == 0
  {
    if |b| == 0 then 0
    else
      var high := FromBigEndian(b[..|b| - 1]);
      assert forall i | 0 <= i < |b| - 1 :: b[..|b| - 1][i] == b[i];
      high * 256 + b[|b| - 1] as nat
  }

  /** The `len` big-endian bytes of `n`, most significant first. */
  function ToBigEndian(n: nat, len: nat): (b: Bytes)
    requires n < Pow256(len)
    ensures |b| == len
  {
    if len == 0 then []
    else ToBigEndian(n / 256, len - 1) + [(n % 256) as Byte]
  }

  /** Splitting off the low byte: quotient and remainder by 256. */
  lemma DivMod256(high: nat, low: nat)
    requires low < 256
    ensures (high * 256 + low) / 256 == high && (high * 256 + low) % 256 == low
  {
  }

  /** Every integer that fits in `len` bytes is read back from its
      big-endian encoding. */
  lemma {:induction false} ReadWritten(n: nat, len: nat)
    requires n < Pow256(len)
    ensures FromBigEndian(ToBigEndian(n, len)) == n
  {
    if len > 0 {
      ReadWritten(n / 256, len - 1);
      var e := ToBigEndian(n, len);
      assert e[..len - 1] == ToBigEndian(n / 256, len - 1);
      assert e[len - 1] as nat == n % 256;
    }
  }

  /** Every byte string is the big-endian encoding of what it reads as. */
  lemma {:induction false} WrittenRead(b: Bytes)
    ensures ToBigEndian(FromBigEndian(b), |b|) == b
  {
    if |b| > 0 {
      var init := b[..|b| - 1];
      WrittenRead(init);
      var high := FromBigEndian(init);
      DivMod256(high, b[|b| - 1] as nat);
      assert b == init + [b[|b| - 1]];
    }
  }

  /** The all-zero word. */
  predicate IsZero(w: Bytes32) {
    forall i | 0 <= i < 32 :: w[i] == 0
  }

  /** A storage word read as a U256. */
  function ToU256(w: Bytes32): (n: U256)
    ensures n == 0 <==> IsZero(w)
  {
    Pow256Of32();
    FromBigEndian(w)
  }
}

/**
  fnv_hash: the 64-bit FNV-1a hash of a byte buffer. Each byte is xored
  into the hash, which is then multiplied by the FNV prime; uint64_t
  arithmetic wraps modulo 2^64, as bv64 arithmetic does.
*/
module Fnv {
  const FNV_PRIME: bv64 := 0x100000001b3
  const FNV_OFFSET_BASIS: bv64 := 0xcbf29ce484222325

  /** One byte: xor, then multiply. */
  function Step(hash: bv64, b: bv8): bv64
  {
    (hash ^ (b as bv64)) * FNV_PRIME
  }

  /** The hash of `data`, each byte folded in after the bytes before it. */
  function Hash(data: seq<bv8>): bv64
  {
    if data == [] then FNV_OFFSET_BASIS else Step(Hash(data[..|data| - 1]), data[|data| - 1])
  }

  /** fnv_hash(data, len): the hash of the first `len` bytes of the buffer. */
  method FnvHash(data: array<bv8>, len: nat) returns (hash: bv64)
    requires len <= data.Length
    ensures hash == Hash(data[..len])
  {
    hash := FNV_OFFSET_BASIS;
    var i := 0;
    while i < len
      invariant i <= len && hash == Hash(data[..i])
    {
      assert data[..i + 1][..i] == data[..i] && data[..i + 1][i] == data[i];
      hash := Step(hash, data[i]);
      i := i + 1;
    }
  }

  /** The same hash as a left fold from a starting value, byte by byte from the front. */
  function FoldFrom(hash: bv64, data: seq<bv8>): bv64
    decreases |data|
  {
    if data == [] then hash else FoldFrom(Step(hash, data[0]), data[1..])
  }

  lemma {:induction false} FoldFromSnoc(hash: bv64, data: seq<bv8>, b: bv8)
    ensures FoldFrom(hash, data + [b]) == Step(FoldFrom(hash, data), b)
    decreases |data|
  {
    if data != [] {
      assert (data + [b])[1..] == data[1..] + [b];
      FoldFromSnoc(Step(hash, data[0]), data[1..], b);
    }
  }

  /** Hash is the left fold of Step from the offset basis. */
  lemma {:induction false} HashIsFold(data: seq<bv8>)
    ensures Hash(data) == FoldFrom(FNV_OFFSET_BASIS, data)
    decreases |data|
  {
    if data != [] {
      var init, last := data[..|data| - 1], data[|data| - 1];
      assert data == init + [last];
      HashIsFold(init);
      FoldFromSnoc(FNV_OFFSET_BASIS, init, last);
    }
  }

  /** Hashing can be resumed: the hash of `x + y` continues from the hash of `x`. */
  lemma {:induction false} FoldFromAppend(hash: bv64, x: seq<bv8>, y: seq<bv8>)
    ensures FoldFrom(hash, x + y) == FoldFrom(FoldFrom(hash, x), y)
    decreases |x|
  {
    if x != [] {
      assert (x + y)[0] == x[0] && (x + y)[1..] == x[1..] + y;
      FoldFromAppend(Step(hash, x[0]), x[1..], y);
    } else {
      assert x + y == y;
    }
  }

  lemma HashAppend(x: seq<bv8>, y: seq<bv8>)
    ensures Hash(x + y) == FoldFrom(Hash(x), y)
  {
    HashIsFold(x + y);
    HashIsFold(x);
    FoldFromAppend(FNV_OFFSET_BASIS, x, y);
  }

  /** The FNV-1a test vectors for "" and "a". */
  lemma TestVectors()
    ensures Hash([]) == 0xcbf29ce484222325
    ensures Hash([0x61]) == 0xaf63dc4c8601ec8c
  {
    assert [0x61 as bv8][..0] == [];
  }
}

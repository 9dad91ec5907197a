// Symbolic digests. Every domain-separated hash function of the source is one
// constructor of a free datatype, so distinct separators never collide and
// equal digests have equal preimages. `Foreign` stands for the 32-byte strings
// that are nobody's digest, which an untrusted proof may also carry.
module Hashing {
  datatype PoolId = Sprout | Sapling | Orchard | Ironwood

  const ALL_POOLS: seq<PoolId> := [Sprout, Sapling, Orchard, Ironwood]

  lemma EveryPool(pool: PoolId) returns (k: nat)
    ensures k < |ALL_POOLS| && ALL_POOLS[k] == pool
  {
    k := match pool case Sprout => 0 case Sapling => 1 case Orchard => 2 case Ironwood => 3;
  }

  /** 2^256: nullifiers are 256-bit big-endian integers. */
  const VALUE_LIMIT: nat := 0x1_0000_0000_0000_0000_0000_0000_0000_0000_0000_0000_0000_0000_0000_0000_0000_0000

  type Value = v: int | 0 <= v < VALUE_LIMIT witness 0

  datatype Leaf = Leaf(value: Value, nextValue: Value, nextIndex: nat)
  {
    /** Whether this leaf brackets `v`, that is, witnesses its absence. */
    predicate Covers(v: Value) {
      value < v && (nextValue == 0 || v < nextValue)
    }
  }

  const SENTINEL: Leaf := Leaf(0, 0, 0)

  type Byte = b: int | 0 <= b < 256

  /** What a transparent output's leaf digest is taken of. */
  datatype UtxoLeaf = UtxoLeaf(txid: seq<Byte>, vout: nat, height: nat, isCoinbase: bool, amount: nat,
    script: seq<Byte>)

  datatype Hash =
    | EmptyLeaf(pool: PoolId)
    | LeafDigest(pool: PoolId, leaf: Leaf)
    | Node(pool: PoolId, left: Hash, right: Hash)
    | SortedPad(pool: PoolId)
    | SortedLeaf(pool: PoolId, value: Value)
    | SortedNode(pool: PoolId, left: Hash, right: Hash)
    | UtxoDigest(utxo: UtxoLeaf)
    | Foreign(bits: nat)
}

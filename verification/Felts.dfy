/** Field elements and the two node hashes. The Starknet hash itself (Pedersen or Poseidon) is a parameter. */
module Felts {
  import opened BitStrings

  /** The Starknet prime, 2^251 + 17 * 2^192 + 1. */
  const PRIME: int := 0x800000000000011000000000000000000000000000000000000000000000001

  newtype Felt = x: int | 0 <= x < PRIME

  type StarkHash = (Felt, Felt) -> Felt

  /** The bits read as a big-endian number, reduced into the field. */
  function PathFelt(path: Bits): Felt {
    if path == [] then 0 else
      ((2 * (PathFelt(path[..|path| - 1]) as int) + if path[|path| - 1] then 1 else 0) % PRIME) as Felt
  }

  function HashBinaryNode(H: StarkHash, left: Felt, right: Felt): Felt {
    H(left, right)
  }

  function HashEdgeNode(H: StarkHash, path: Bits, child: Felt): Felt {
    ((H(child, PathFelt(path)) as int + |path|) % PRIME) as Felt
  }
}

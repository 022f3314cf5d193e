/** Field elements as free terms. Two terms are equal only when they were
    built the same way, so both hashes are collision-free by construction. */
module FieldTerms {
  import opened MerkleTree

  datatype Field =
    | Zero
    | Const(n: nat)
    | H1(x: Field)
    | H2(l: Field, r: Field)

  function Compress(l: Field, r: Field): Field { H2(l, r) }

  lemma CompressIsCollisionFree()
    ensures CollisionFree(Compress)
  {
  }
}

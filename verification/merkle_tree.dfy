/** Zero-padded binary Merkle trees over an arbitrary two-to-one hash.
    This is the reference definition that both the on-chain incremental tree
    and the SDK's level-by-level rebuild are proved equal to. */
module MerkleTree {

  function Pow2(n: nat): (p: nat)
    ensures p >= 1
  {
    if n == 0 then 1 else 2 * Pow2(n - 1)
  }

  /** Hash of an all-zero subtree of the given height. */
  function ZeroAt<F>(h: (F, F) -> F, zero: F, level: nat): F {
    if level == 0 then zero
    else h(ZeroAt(h, zero, level - 1), ZeroAt(h, zero, level - 1))
  }

  function Padded<F>(zero: F, leaves: seq<F>, i: nat): F {
    if i < |leaves| then leaves[i] else zero
  }

  /** The i-th node, counted from the left, at the given height. */
  function Node<F>(h: (F, F) -> F, zero: F, leaves: seq<F>, level: nat, i: nat): F {
    if level == 0 then Padded(zero, leaves, i)
    else h(Node(h, zero, leaves, level - 1, 2 * i), Node(h, zero, leaves, level - 1, 2 * i + 1))
  }

  function Root<F>(h: (F, F) -> F, zero: F, leaves: seq<F>, depth: nat): F {
    Node(h, zero, leaves, depth, 0)
  }

  /** The index of the ancestor, `level` levels up, of leaf i. */
  function Shift(i: nat, level: nat): nat {
    if level == 0 then i else Shift(i, level - 1) / 2
  }

  /** How many nodes of a level cover at least one of n leaves. */
  function Width(n: nat, level: nat): nat {
    if level == 0 then n else (Width(n, level - 1) + 1) / 2
  }

  function Sibling(i: nat): nat {
    if i % 2 == 0 then i + 1 else i - 1
  }

  // ---------- indices ----------

  lemma {:induction false} ShiftBelow(i: nat, level: nat, k: nat)
    ensures Shift(i, level) < k <==> i < k * Pow2(level)
  {
    if level == 0 {
    } else {
      ShiftBelow(i, level - 1, 2 * k);
      assert k * Pow2(level) == (2 * k) * Pow2(level - 1);
    }
  }

  /** Every index of a full tree of this depth has the root as its ancestor, and no other index has. */
  lemma ShiftToRoot(i: nat, depth: nat)
    ensures Shift(i, depth) == 0 <==> i < Pow2(depth)
  {
    ShiftBelow(i, depth, 1);
  }

  lemma {:induction false} WidthIsLastAncestor(n: nat, level: nat)
    ensures Width(n + 1, level) == Shift(n, level) + 1
  {
    if level > 0 {
      WidthIsLastAncestor(n, level - 1);
    }
  }

  /** Width is n divided by 2^level, rounded up. */
  lemma WidthIsCeiling(n: nat, level: nat)
    ensures n <= Width(n, level) * Pow2(level) < n + Pow2(level)
  {
    if n == 0 {
      WidthOfNothing(level);
    } else {
      WidthIsLastAncestor(n - 1, level);
      var w := Shift(n - 1, level);
      ShiftBelow(n - 1, level, w + 1);
      ShiftBelow(n - 1, level, w);
      assert (w + 1) * Pow2(level) == w * Pow2(level) + Pow2(level);
    }
  }

  lemma {:induction false} WidthOfNothing(level: nat)
    ensures Width(0, level) == 0
  {
    if level > 0 {
      WidthOfNothing(level - 1);
    }
  }

  // ---------- nodes ----------

  /** A node to the right of every leaf is the zero subtree. */
  lemma {:induction false} NodeBeyondLeaves<F>(h: (F, F) -> F, zero: F, leaves: seq<F>, level: nat, i: nat)
    requires Width(|leaves|, level) <= i
    ensures Node(h, zero, leaves, level, i) == ZeroAt(h, zero, level)
  {
    if level > 0 {
      NodeBeyondLeaves(h, zero, leaves, level - 1, 2 * i);
      NodeBeyondLeaves(h, zero, leaves, level - 1, 2 * i + 1);
    }
  }

  /** Appending a leaf leaves every node that is not its ancestor alone. */
  lemma {:induction false} NodeFrame<F>(h: (F, F) -> F, zero: F, leaves: seq<F>, c: F, level: nat, i: nat)
    requires Shift(|leaves|, level) != i
    ensures Node(h, zero, leaves + [c], level, i) == Node(h, zero, leaves, level, i)
  {
    if level > 0 {
      NodeFrame(h, zero, leaves, c, level - 1, 2 * i);
      NodeFrame(h, zero, leaves, c, level - 1, 2 * i + 1);
    }
  }

  // ---------- Merkle paths ----------

  /** What the withdrawal circuit computes from a leaf, its siblings and its
      path bits, lowest level first. */
  function Fold<F>(h: (F, F) -> F, leaf: F, siblings: seq<F>, bits: seq<nat>): F
    requires |siblings| == |bits|
  {
    if siblings == [] then leaf
    else
      var top := |siblings| - 1;
      var below := Fold(h, leaf, siblings[..top], bits[..top]);
      if bits[top] == 0 then h(below, siblings[top]) else h(siblings[top], below)
  }

  /** The leaf reached from node i by following the path bits downwards. */
  function Descend(i: nat, bits: seq<nat>): nat
    decreases |bits|
  {
    if bits == [] then i
    else
      var top := |bits| - 1;
      Descend(2 * i + (if bits[top] == 0 then 0 else 1), bits[..top])
  }

  /** The siblings and bits that belong to leaf i. */
  ghost predicate IsPath<F>(h: (F, F) -> F, zero: F, leaves: seq<F>, i: nat, siblings: seq<F>, bits: seq<nat>) {
    && |siblings| == |bits|
    && (forall l :: 0 <= l < |bits| ==> bits[l] == Shift(i, l) % 2)
    && (forall l :: 0 <= l < |siblings| ==>
          siblings[l] == Node(h, zero, leaves, l, Sibling(Shift(i, l))))
  }

  /** Completeness: a leaf's own path folds to its ancestor at every height. */
  lemma {:induction false} PathFolds<F>(h: (F, F) -> F, zero: F, leaves: seq<F>, i: nat, siblings: seq<F>, bits: seq<nat>)
    requires IsPath(h, zero, leaves, i, siblings, bits)
    ensures Fold(h, Padded(zero, leaves, i), siblings, bits) == Node(h, zero, leaves, |bits|, Shift(i, |bits|))
  {
    if |bits| > 0 {
      var top := |bits| - 1;
      PathFolds(h, zero, leaves, i, siblings[..top], bits[..top]);
    }
  }

  lemma PathFoldsToRoot<F>(h: (F, F) -> F, zero: F, leaves: seq<F>, i: nat, siblings: seq<F>, bits: seq<nat>)
    requires i < |leaves| <= Pow2(|bits|)
    requires IsPath(h, zero, leaves, i, siblings, bits)
    ensures Fold(h, leaves[i], siblings, bits) == Root(h, zero, leaves, |bits|)
  {
    PathFolds(h, zero, leaves, i, siblings, bits);
    ShiftToRoot(i, |bits|);
  }

  // ---------- collision-free hashes ----------

  ghost predicate CollisionFree<F(!new)>(h: (F, F) -> F) {
    forall a, b, c, d :: h(a, b) == h(c, d) ==> a == c && b == d
  }

  /** Binding: whatever folds to a node is the padded leaf that its bits lead to. */
  lemma {:induction false} PathBinds<F(!new)>(h: (F, F) -> F, zero: F, leaves: seq<F>, i: nat, leaf: F, siblings: seq<F>, bits: seq<nat>)
    requires CollisionFree(h)
    requires |siblings| == |bits|
    requires Fold(h, leaf, siblings, bits) == Node(h, zero, leaves, |bits|, i)
    ensures leaf == Padded(zero, leaves, Descend(i, bits))
    decreases |bits|
  {
    if |bits| > 0 {
      var top := |bits| - 1;
      var child := 2 * i + (if bits[top] == 0 then 0 else 1);
      PathBinds(h, zero, leaves, child, leaf, siblings[..top], bits[..top]);
    }
  }

  /** Equal nodes cover equal padded leaves. */
  lemma {:induction false} NodeBinds<F(!new)>(h: (F, F) -> F, zero: F, a: seq<F>, b: seq<F>, level: nat, i: nat, j: nat)
    requires CollisionFree(h)
    requires Node(h, zero, a, level, i) == Node(h, zero, b, level, i)
    requires Shift(j, level) == i
    ensures Padded(zero, a, j) == Padded(zero, b, j)
  {
    if level > 0 {
      NodeBinds(h, zero, a, b, level - 1, Shift(j, level - 1), j);
    }
  }

  /** Equal roots mean equal padded leaf vectors, and conversely. */
  lemma RootBinds<F(!new)>(h: (F, F) -> F, zero: F, a: seq<F>, b: seq<F>, depth: nat)
    requires CollisionFree(h)
    ensures Root(h, zero, a, depth) == Root(h, zero, b, depth)
       <==> forall j: nat | j < Pow2(depth) :: Padded(zero, a, j) == Padded(zero, b, j)
  {
    if Root(h, zero, a, depth) == Root(h, zero, b, depth) {
      forall j: nat | j < Pow2(depth) ensures Padded(zero, a, j) == Padded(zero, b, j) {
        ShiftToRoot(j, depth);
        NodeBinds(h, zero, a, b, depth, 0, j);
      }
    }
    if forall j: nat | j < Pow2(depth) :: Padded(zero, a, j) == Padded(zero, b, j) {
      forall j: nat | Shift(j, depth) == 0 ensures Padded(zero, a, j) == Padded(zero, b, j) {
        ShiftToRoot(j, depth);
      }
      NodeAgree(h, zero, a, b, depth, 0);
    }
  }

  lemma {:induction false} NodeAgree<F>(h: (F, F) -> F, zero: F, a: seq<F>, b: seq<F>, level: nat, i: nat)
    requires forall j: nat | Shift(j, level) == i :: Padded(zero, a, j) == Padded(zero, b, j)
    ensures Node(h, zero, a, level, i) == Node(h, zero, b, level, i)
  {
    if level == 0 {
      assert Shift(i, 0) == i;
    } else {
      forall j: nat | Shift(j, level - 1) == 2 * i ensures Padded(zero, a, j) == Padded(zero, b, j) {
        assert Shift(j, level) == i;
      }
      forall j: nat | Shift(j, level - 1) == 2 * i + 1 ensures Padded(zero, a, j) == Padded(zero, b, j) {
        assert Shift(j, level) == i;
      }
      NodeAgree(h, zero, a, b, level - 1, 2 * i);
      NodeAgree(h, zero, a, b, level - 1, 2 * i + 1);
    }
  }

  /** With nonzero leaves and a collision-free hash, the root determines how
      many leaves there are among prefixes of one sequence. */
  lemma RootsOfPrefixesDiffer<F(!new)>(h: (F, F) -> F, zero: F, leaves: seq<F>, depth: nat, j: nat, k: nat)
    requires CollisionFree(h)
    requires j < k <= |leaves| <= Pow2(depth)
    requires forall i :: 0 <= i < |leaves| ==> leaves[i] != zero
    ensures Root(h, zero, leaves[..j], depth) != Root(h, zero, leaves[..k], depth)
  {
    if Root(h, zero, leaves[..j], depth) == Root(h, zero, leaves[..k], depth) {
      ShiftToRoot(j, depth);
      NodeBinds(h, zero, leaves[..j], leaves[..k], depth, 0, j);
    }
  }
}

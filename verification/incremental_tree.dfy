/** The on-chain tree: one stored node per level, each root computed in
    O(depth), proved equal to the full zero-padded recomputation. */
module IncrementalTree {
  import opened MerkleTree

  datatype Insertion<F> = Insertion(filled: seq<F>, root: F)

  /** The stored hashes of all-zero subtrees, lowest first. */
  function ZeroHashes<F>(h: (F, F) -> F, zero: F, depth: nat): (zeros: seq<F>)
    ensures |zeros| == depth
    ensures forall l :: 0 <= l < depth ==> zeros[l] == ZeroAt(h, zero, l)
  {
    seq(depth, l requires 0 <= l => ZeroAt(h, zero, l))
  }

  /** The walk from a new leaf to the root, from `level` upwards. */
  function Climb<F>(h: (F, F) -> F, zeros: seq<F>, filled: seq<F>, index: nat, current: F, level: nat): (r: Insertion<F>)
    requires level <= |zeros| <= |filled|
    ensures |r.filled| == |filled|
    decreases |zeros| - level
  {
    if level == |zeros| then Insertion(filled, current)
    else if index % 2 == 0 then
      Climb(h, zeros, filled[level := current], index / 2, h(current, zeros[level]), level + 1)
    else
      Climb(h, zeros, filled, index / 2, h(filled[level], current), level + 1)
  }

  function Insert<F>(h: (F, F) -> F, zeros: seq<F>, filled: seq<F>, index: nat, leaf: F): (r: Insertion<F>)
    requires |zeros| <= |filled|
    ensures |r.filled| == |filled|
  {
    Climb(h, zeros, filled, index, leaf, 0)
  }

  /** Below the level l, the stored node is the left member of the pair that
      holds the last leaf's ancestor. */
  ghost predicate Tracks<F>(h: (F, F) -> F, zero: F, leaves: seq<F>, filled: seq<F>, depth: nat) {
    && depth <= |filled|
    && (|leaves| > 0 ==> forall l :: 0 <= l < depth ==>
          filled[l] == Node(h, zero, leaves, l, 2 * (Shift(|leaves| - 1, l) / 2)))
  }

  /** The ancestors of two neighbouring leaves are the same or neighbours. */
  lemma {:induction false} NextAncestor(n: nat, level: nat)
    requires n > 0
    ensures Shift(n - 1, level) <= Shift(n, level) <= Shift(n - 1, level) + 1
  {
    if level > 0 {
      NextAncestor(n, level - 1);
    }
  }

  /** When the new leaf's ancestor is a right child, its left sibling is the
      stored node, and the new leaf does not change it. */
  lemma LeftNeighbour<F>(h: (F, F) -> F, zero: F, leaves: seq<F>, c: F, level: nat)
    requires Shift(|leaves|, level) % 2 == 1
    ensures |leaves| > 0
    ensures 2 * (Shift(|leaves| - 1, level) / 2) == Shift(|leaves|, level) - 1
    ensures Node(h, zero, leaves + [c], level, Shift(|leaves|, level) - 1) == Node(h, zero, leaves, level, Shift(|leaves|, level) - 1)
  {
    ShiftOfZero(level);
    NextAncestor(|leaves|, level);
    NodeFrame(h, zero, leaves, c, level, Shift(|leaves|, level) - 1);
  }

  lemma {:induction false} ClimbRefines<F>(
      h: (F, F) -> F, zero: F, leaves: seq<F>, c: F, zeros: seq<F>, filled: seq<F>, current: F, level: nat)
    requires level <= |zeros| <= |filled|
    requires zeros == ZeroHashes(h, zero, |zeros|)
    requires current == Node(h, zero, leaves + [c], level, Shift(|leaves|, level))
    requires forall l :: 0 <= l < level ==>
               filled[l] == Node(h, zero, leaves + [c], l, 2 * (Shift(|leaves|, l) / 2))
    requires |leaves| > 0 ==> forall l :: level <= l < |zeros| ==>
               filled[l] == Node(h, zero, leaves, l, 2 * (Shift(|leaves| - 1, l) / 2))
    ensures var r := Climb(h, zeros, filled, Shift(|leaves|, level), current, level);
            && r.root == Node(h, zero, leaves + [c], |zeros|, Shift(|leaves|, |zeros|))
            && Tracks(h, zero, leaves + [c], r.filled, |zeros|)
    decreases |zeros| - level
  {
    var n := |leaves|;
    var index := Shift(n, level);
    if level == |zeros| {
    } else if index % 2 == 0 {
      WidthIsLastAncestor(n, level);
      NodeBeyondLeaves(h, zero, leaves + [c], level, index + 1);
      assert Shift(n, level + 1) == index / 2;
      assert h(current, zeros[level]) == Node(h, zero, leaves + [c], level + 1, index / 2);
      ClimbRefines(h, zero, leaves, c, zeros, filled[level := current], h(current, zeros[level]), level + 1);
    } else {
      LeftNeighbour(h, zero, leaves, c, level);
      assert Shift(n, level + 1) == index / 2;
      assert h(filled[level], current) == Node(h, zero, leaves + [c], level + 1, index / 2);
      ClimbRefines(h, zero, leaves, c, zeros, filled, h(filled[level], current), level + 1);
    }
  }

  lemma {:induction false} ShiftOfZero(level: nat)
    ensures Shift(0, level) == 0
  {
    if level > 0 {
      ShiftOfZero(level - 1);
    }
  }

  /** Refinement: while the tree is not full, one incremental insertion yields
      the root of the full recomputation and keeps the stored nodes right. */
  lemma InsertRefinesRebuild<F>(h: (F, F) -> F, zero: F, leaves: seq<F>, c: F, filled: seq<F>, depth: nat)
    requires |leaves| < Pow2(depth)
    requires Tracks(h, zero, leaves, filled, depth)
    ensures var r := Insert(h, ZeroHashes(h, zero, depth), filled, |leaves|, c);
            && r.root == Root(h, zero, leaves + [c], depth)
            && Tracks(h, zero, leaves + [c], r.filled, depth)
  {
    ClimbRefines(h, zero, leaves, c, ZeroHashes(h, zero, depth), filled, c, 0);
    ShiftToRoot(|leaves|, depth);
  }
}

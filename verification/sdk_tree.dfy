/** The SDK's Merkle tree: a list of leaves, rebuilt level by level whenever a
    root or a path is asked for. */
module SdkMerkleTree {
  import opened MerkleTree
  import opened Outcomes

  datatype TreeError = PoolFull | NotInitialized | IndexOutsideTree

  datatype Path<F> = Path(siblings: seq<F>, bits: seq<nat>)

  /** All nodes of one level of the rebuild, as the SDK keeps them. */
  ghost predicate IsLevel<F>(h: (F, F) -> F, zero: F, leaves: seq<F>, level: nat, nodes: seq<F>) {
    && |nodes| == Width(|leaves|, level)
    && forall i :: 0 <= i < |nodes| ==> nodes[i] == Node(h, zero, leaves, level, i)
  }

  class PoseidonMerkleTree<F(!new)> {
    const levels: nat
    const h: (F, F) -> F
    const zero: F
    var leaves: seq<F>
    var zeros: seq<F>

    /** Init has run: `zeros` holds the zero subtree of every height up to the root. */
    ghost predicate Ready()
      reads this
    {
      && |zeros| == levels + 1
      && forall l :: 0 <= l <= levels ==> zeros[l] == ZeroAt(h, zero, l)
    }

    ghost predicate Valid()
      reads this
    {
      && |leaves| <= Pow2(levels)
      && (zeros == [] || Ready())
    }

    constructor (h: (F, F) -> F, zero: F, levels: nat)
      ensures Valid() && leaves == [] && zeros == []
      ensures this.h == h && this.zero == zero && this.levels == levels
    {
      this.h := h;
      this.zero := zero;
      this.levels := levels;
      leaves := [];
      zeros := [];
    }

    method Init()
      requires Valid()
      modifies this`zeros
      ensures Valid() && Ready()
    {
      zeros := GenerateZeros();
    }

    method GenerateZeros() returns (result: seq<F>)
      ensures |result| == levels + 1
      ensures forall l :: 0 <= l <= levels ==> result[l] == ZeroAt(h, zero, l)
    {
      result := [zero];
      var i := 1;
      while i <= levels
        invariant 1 <= i <= levels + 1
        invariant |result| == i
        invariant forall l :: 0 <= l < i ==> result[l] == ZeroAt(h, zero, l)
      {
        result := result + [h(result[i - 1], result[i - 1])];
        i := i + 1;
      }
    }

    method Insert(leaf: F) returns (r: Result<nat, TreeError>)
      requires Valid()
      modifies this`leaves
      ensures Valid()
      ensures r == if |old(leaves)| < Pow2(levels) then Ok(|old(leaves)|) else Err(PoolFull)
      ensures leaves == if r.Ok? then old(leaves) + [leaf] else old(leaves)
    {
      if |leaves| >= Pow2(levels) {
        return Err(PoolFull);
      }
      r := Ok(|leaves|);
      leaves := leaves + [leaf];
    }

    /** Pairs up one level; a missing right member is the zero subtree. */
    method ParentLevel(current: seq<F>, level: nat, ghost from: seq<F>) returns (next: seq<F>)
      requires level < levels && (Ready() || |current| % 2 == 0)
      requires IsLevel(h, zero, from, level, current)
      ensures IsLevel(h, zero, from, level + 1, next)
    {
      next := [];
      var size := (|current| + 1) / 2;
      var i := 0;
      while i < size
        invariant 0 <= i <= size
        invariant |next| == i
        invariant forall k :: 0 <= k < i ==> next[k] == Node(h, zero, from, level + 1, k)
      {
        var left := current[i * 2];
        var right := if i * 2 + 1 < |current| then current[i * 2 + 1] else zeros[level];
        if i * 2 + 1 >= |current| {
          NodeBeyondLeaves(h, zero, from, level, 2 * i + 1);
        }
        next := next + [h(left, right)];
        i := i + 1;
      }
    }

    /** The other member of a node's pair. */
    method SiblingOf(current: seq<F>, level: nat, i: nat, ghost from: seq<F>) returns (sibling: F)
      requires level < levels && (Ready() || |current| % 2 == 0)
      requires IsLevel(h, zero, from, level, current) && i < |current|
      ensures sibling == Node(h, zero, from, level, Sibling(i))
    {
      var siblingIndex := if i % 2 == 0 then i + 1 else i - 1;
      if siblingIndex >= |current| {
        NodeBeyondLeaves(h, zero, from, level, siblingIndex);
      }
      sibling := if siblingIndex < |current| then current[siblingIndex] else zeros[level];
    }

    method ComputeRoot(from: seq<F>) returns (root: F)
      requires Ready() && 0 < |from| <= Pow2(levels)
      ensures root == Root(h, zero, from, levels)
    {
      var current := from;
      var level := 0;
      while level < levels
        invariant 0 <= level <= levels
        invariant IsLevel(h, zero, from, level, current)
      {
        current := ParentLevel(current, level, from);
        level := level + 1;
      }
      WidthIsLastAncestor(|from| - 1, levels);
      root := current[0];
    }

    method GetRoot() returns (r: Result<F, TreeError>)
      requires Valid()
      ensures r == if zeros == [] then Err(NotInitialized) else Ok(Root(h, zero, leaves, levels))
    {
      if |zeros| == 0 {
        return Err(NotInitialized);
      }
      if |leaves| == 0 {
        WidthOfNothing(levels);
        NodeBeyondLeaves(h, zero, leaves, levels, 0);
        return Ok(zeros[levels]);
      }
      var root := ComputeRoot(leaves);
      r := Ok(root);
    }

    /** Siblings and bits of one leaf, lowest level first. Without initialization
        there is no zero subtree to pair an odd end with, and hashing fails; a full
        tree has no odd ends. */
    method GetProof(index: int) returns (r: Result<Path<F>, TreeError>)
      requires Valid()
      ensures r == Err(IndexOutsideTree) <==> !(0 <= index < |leaves|)
      ensures r == Err(NotInitialized) <==> 0 <= index < |leaves| < Pow2(levels) && zeros == []
      ensures r.Err? ==> r.error == IndexOutsideTree || r.error == NotInitialized
      ensures r.Ok? ==>
        && |r.value.bits| == levels
        && IsPath(h, zero, leaves, index, r.value.siblings, r.value.bits)
        && Fold(h, leaves[index], r.value.siblings, r.value.bits) == Root(h, zero, leaves, levels)
    {
      if index < 0 || index >= |leaves| {
        return Err(IndexOutsideTree);
      }
      var siblings: seq<F> := [];
      var bits: seq<nat> := [];
      var current := leaves;
      var currentIndex := index;
      var level := 0;
      while level < levels
        invariant 0 <= level <= levels
        invariant IsLevel(h, zero, leaves, level, current)
        invariant currentIndex == Shift(index, level) < |current|
        invariant |bits| == level && IsPath(h, zero, leaves, index, siblings, bits)
        invariant zeros == [] ==> |leaves| == Under(|current|, level)
      {
        if |zeros| == 0 && |current| % 2 == 1 {
          OddLevelIsNotFull(|current|, level, levels);
          return Err(NotInitialized);
        }
        var sibling := SiblingOf(current, level, currentIndex, leaves);
        PathExtends(h, zero, leaves, index, siblings, bits, sibling);
        siblings := siblings + [sibling];
        bits := bits + [currentIndex % 2];
        if |zeros| == 0 {
          HalfAsManyAbove(|current|, level);
        }
        current := ParentLevel(current, level, leaves);
        currentIndex := currentIndex / 2;
        level := level + 1;
      }
      PathFoldsToRoot(h, zero, leaves, index, siblings, bits);
      UnderIsAtLeast(|current|, levels);
      r := Ok(Path(siblings, bits));
    }
  }

  lemma PathExtends<F>(h: (F, F) -> F, zero: F, leaves: seq<F>, i: nat, siblings: seq<F>, bits: seq<nat>, sibling: F)
    requires IsPath(h, zero, leaves, i, siblings, bits)
    requires sibling == Node(h, zero, leaves, |bits|, Sibling(Shift(i, |bits|)))
    ensures IsPath(h, zero, leaves, i, siblings + [sibling], bits + [Shift(i, |bits|) % 2])
  {
  }

  /** How many leaves lie under some complete nodes of a level. */
  function Under(nodes: nat, level: nat): nat {
    if level == 0 then nodes else 2 * Under(nodes, level - 1)
  }

  lemma {:induction false} HalfAsManyAbove(nodes: nat, level: nat)
    requires nodes % 2 == 0
    ensures Under(nodes, level) == Under(nodes / 2, level + 1)
  {
    if level > 0 {
      HalfAsManyAbove(nodes, level - 1);
    }
  }

  lemma {:induction false} UnderIsAtLeast(nodes: nat, level: nat)
    requires nodes > 0
    ensures Under(nodes, level) >= Pow2(level)
  {
    if level > 0 {
      UnderIsAtLeast(nodes, level - 1);
    }
  }

  /** A full tree has an even number of nodes at every level below the root. */
  lemma {:induction false} OddLevelIsNotFull(nodes: nat, level: nat, levels: nat)
    requires level < levels && nodes % 2 == 1
    ensures Under(nodes, level) != Pow2(levels)
    decreases level
  {
    if level > 0 {
      OddLevelIsNotFull(nodes, level - 1, levels - 1);
    }
  }

  /** Builds a tree from stored commitments; one commitment too many is refused. */
  method BuildTreeFromCommitments<B, F(!new)>(h: (F, F) -> F, zero: F, commitments: seq<B>, toField: B -> F, levels: nat)
    returns (r: Result<PoseidonMerkleTree<F>, TreeError>)
    ensures r.Ok? <==> |commitments| <= Pow2(levels)
    ensures r.Err? ==> r.error == PoolFull
    ensures r.Ok? ==>
      && fresh(r.value) && r.value.Valid() && r.value.Ready()
      && r.value.h == h && r.value.zero == zero && r.value.levels == levels
      && r.value.leaves == seq(|commitments|, i requires 0 <= i < |commitments| => toField(commitments[i]))
  {
    var tree := new PoseidonMerkleTree(h, zero, levels);
    tree.Init();
    var i := 0;
    while i < |commitments|
      invariant 0 <= i <= |commitments|
      invariant tree.Valid() && tree.Ready() && fresh(tree)
      invariant |tree.leaves| == i <= Pow2(levels)
      invariant forall k :: 0 <= k < i ==> tree.leaves[k] == toField(commitments[k])
    {
      var inserted := tree.Insert(toField(commitments[i]));
      if inserted.Err? {
        return Err(PoolFull);
      }
      i := i + 1;
    }
    r := Ok(tree);
  }
}

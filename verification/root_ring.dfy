/** The pool's ring of recent roots. */
module RootRing {
  import opened MerkleTree

  const ROOT_HISTORY_SIZE := 30

  function KnownSlots(count: nat): (n: nat)
    ensures n <= ROOT_HISTORY_SIZE
  {
    if count < ROOT_HISTORY_SIZE then count else ROOT_HISTORY_SIZE
  }

  function Push<F>(roots: seq<F>, count: nat, root: F): (r: seq<F>)
    requires |roots| == ROOT_HISTORY_SIZE
    ensures |r| == ROOT_HISTORY_SIZE
  {
    roots[count % ROOT_HISTORY_SIZE := root]
  }

  /** The check made by the program: only slots written so far count. */
  predicate Known<F(==)>(roots: seq<F>, count: nat, root: F)
    requires |roots| == ROOT_HISTORY_SIZE
  {
    root in roots[..KnownSlots(count)]
  }

  /** The check made by the relayer: every slot counts. */
  predicate HasKnownRoot<F(==)>(roots: seq<F>, root: F) {
    root in roots
  }

  /** The ring agrees with the history of all roots ever pushed. */
  ghost predicate Holds<F>(zero: F, roots: seq<F>, count: nat, history: seq<F>) {
    && |roots| == ROOT_HISTORY_SIZE
    && count == |history|
    && (forall k :: 0 <= k < |history| && |history| - k <= ROOT_HISTORY_SIZE ==> roots[k % ROOT_HISTORY_SIZE] == history[k])
    && (forall i :: |history| <= i < ROOT_HISTORY_SIZE ==> roots[i] == zero)
  }

  lemma PushHolds<F>(zero: F, roots: seq<F>, count: nat, history: seq<F>, root: F)
    requires Holds(zero, roots, count, history)
    ensures Holds(zero, Push(roots, count, root), count + 1, history + [root])
  {
    var n := |history|;
    var next := Push(roots, count, root);
    forall k | 0 <= k < n + 1 && n + 1 - k <= ROOT_HISTORY_SIZE
      ensures next[k % ROOT_HISTORY_SIZE] == (history + [root])[k]
    {
      if k < n {
        SlotsDiffer(k, n);
      }
    }
  }

  lemma SlotsDiffer(k: nat, n: nat)
    requires k < n < k + ROOT_HISTORY_SIZE
    ensures k % ROOT_HISTORY_SIZE != n % ROOT_HISTORY_SIZE
  {
  }

  /** The newest root sits where clients look for it. */
  lemma NewestRoot<F>(zero: F, roots: seq<F>, count: nat, history: seq<F>)
    requires Holds(zero, roots, count, history) && count > 0
    ensures roots[(count - 1) % ROOT_HISTORY_SIZE] == history[|history| - 1]
  {
  }

  /** The accepted roots are exactly the last thirty ones. */
  lemma KnownIffRecent<F(!new)>(zero: F, roots: seq<F>, count: nat, history: seq<F>, root: F)
    requires Holds(zero, roots, count, history)
    ensures Known(roots, count, root)
       <==> exists k :: 0 <= k < |history| && |history| - k <= ROOT_HISTORY_SIZE && history[k] == root
  {
    var n := |history|;
    if Known(roots, count, root) {
      var i :| 0 <= i < KnownSlots(count) && roots[i] == root;
      var k := if n < ROOT_HISTORY_SIZE then i else n - 1 - (n - 1 - i) % ROOT_HISTORY_SIZE;
      assert k % ROOT_HISTORY_SIZE == i;
      assert history[k] == root;
    }
    if k :| 0 <= k < n && n - k <= ROOT_HISTORY_SIZE && history[k] == root {
      assert roots[..KnownSlots(count)][k % ROOT_HISTORY_SIZE] == root;
    }
  }

  /** The relayer's check accepts whatever the program accepts, and on top of
      that only the zero root of a ring that is not full yet. */
  lemma RelayerRootCheck<F(!new)>(zero: F, roots: seq<F>, count: nat, history: seq<F>, root: F)
    requires Holds(zero, roots, count, history)
    ensures HasKnownRoot(roots, root)
       <==> Known(roots, count, root) || (count < ROOT_HISTORY_SIZE && root == zero)
  {
    if Known(roots, count, root) {
      var i :| 0 <= i < KnownSlots(count) && roots[i] == root;
      assert root in roots;
    }
    if count < ROOT_HISTORY_SIZE && root == zero {
      assert roots[count] == root;
    }
    if i :| 0 <= i < |roots| && roots[i] == root {
      assert i < KnownSlots(count) ==> roots[..KnownSlots(count)][i] == root;
    }
  }

  // ---------- roots of a growing tree ----------

  /** The root after each of the leaves was appended. */
  function RootsOf<F>(h: (F, F) -> F, zero: F, leaves: seq<F>, depth: nat): (history: seq<F>)
    ensures |history| == |leaves|
    ensures forall k :: 0 <= k < |leaves| ==> history[k] == Root(h, zero, leaves[..k + 1], depth)
  {
    seq(|leaves|, k requires 0 <= k < |leaves| => Root(h, zero, leaves[..k + 1], depth))
  }

  lemma RootsOfGrows<F>(h: (F, F) -> F, zero: F, leaves: seq<F>, c: F, depth: nat)
    ensures RootsOf(h, zero, leaves + [c], depth) == RootsOf(h, zero, leaves, depth) + [Root(h, zero, leaves + [c], depth)]
  {
    var longer := leaves + [c];
    forall k | 0 <= k < |longer|
      ensures RootsOf(h, zero, longer, depth)[k] == (RootsOf(h, zero, leaves, depth) + [Root(h, zero, longer, depth)])[k]
    {
      if k < |leaves| {
        assert longer[..k + 1] == leaves[..k + 1];
      } else {
        assert longer[..k + 1] == longer;
      }
    }
  }

  /** A root taken after k deposits is accepted after n deposits exactly when
      fewer than thirty deposits followed it. */
  lemma AcceptedIffFewerThanThirtyFollow<F(!new)>(
      h: (F, F) -> F, zero: F, leaves: seq<F>, depth: nat, roots: seq<F>, k: nat)
    requires CollisionFree(h)
    requires |leaves| <= Pow2(depth)
    requires forall i :: 0 <= i < |leaves| ==> leaves[i] != zero
    requires Holds(zero, roots, |leaves|, RootsOf(h, zero, leaves, depth))
    requires 1 <= k <= |leaves|
    ensures Known(roots, |leaves|, Root(h, zero, leaves[..k], depth)) <==> |leaves| - k < ROOT_HISTORY_SIZE
  {
    var history := RootsOf(h, zero, leaves, depth);
    var root := Root(h, zero, leaves[..k], depth);
    assert history[k - 1] == root;
    KnownIffRecent(zero, roots, |leaves|, history, root);
    forall j | 0 <= j < |leaves| && history[j] == root
      ensures j == k - 1
    {
      if j + 1 < k {
        RootsOfPrefixesDiffer(h, zero, leaves, depth, j + 1, k);
      } else if k < j + 1 {
        RootsOfPrefixesDiffer(h, zero, leaves, depth, k, j + 1);
      }
    }
  }
}

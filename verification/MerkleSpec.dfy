/** The simple specification of a Merkle tree: every node hash by full recursion over padded leaves. */
module MerkleSpec {
  import opened Shifts

  /** Leaves flushed left, all others equal to pad. The combine function is left uninterpreted. */
  datatype Tree<!H> = Tree(combine: (H, H) -> H, pad: H, leaves: seq<H>)

  function LeafAt<H>(t: Tree<H>, i: nat): H {
    if i < |t.leaves| then t.leaves[i] else t.pad
  }

  /** Hash of the i-th node of height j. */
  function Node<H>(t: Tree<H>, j: nat, i: nat): H {
    if j == 0 then LeafAt(t, i) else t.combine(Node(t, j - 1, 2 * i), Node(t, j - 1, 2 * i + 1))
  }

  /** Hash of a node of height j that has only pad leaves below it. */
  function Pristine<H>(combine: (H, H) -> H, pad: H, j: nat): H {
    if j == 0 then pad else combine(Pristine(combine, pad, j - 1), Pristine(combine, pad, j - 1))
  }

  /** How many nodes of height j have at least one of n leaves below them. */
  function Count(n: nat, j: nat): nat {
    if j == 0 then n else (Count(n, j - 1) + 1) / 2
  }

  /** Count is n / 2^j rounded up. */
  lemma {:induction false} CountIsCeiling(n: nat, j: nat)
    ensures n <= Shl(Count(n, j), j) < n + Pow2(j)
  {
    if j > 0 {
      CountIsCeiling(n, j - 1);
      var c := Count(n, j - 1);
      if c % 2 == 1 {
        ShlAdd(c, 1, j - 1);
        ShlOne(j - 1);
      }
    }
  }

  /** A level needs at most one entry exactly when all leaves are below its first node. */
  lemma CountFits(n: nat, j: nat)
    ensures Count(n, j) <= 1 <==> n <= Pow2(j)
  {
    CountIsCeiling(n, j);
    ShlZero(j);
    ShlOne(j);
    if Count(n, j) >= 2 {
      ShlAdd(1, 1, j);
      ShlAdd(2, Count(n, j) - 2, j);
    }
  }

  lemma {:induction false} PristineNode<H>(t: Tree<H>, j: nat, i: nat)
    requires i >= Count(|t.leaves|, j)
    ensures Node(t, j, i) == Pristine(t.combine, t.pad, j)
  {
    if j > 0 {
      PristineNode(t, j - 1, 2 * i);
      PristineNode(t, j - 1, 2 * i + 1);
    }
  }

  lemma {:induction false} PristineAdd<H>(combine: (H, H) -> H, pad: H, j: nat, k: nat)
    ensures Pristine(combine, Pristine(combine, pad, j), k) == Pristine(combine, pad, j + k)
  {
    if k > 0 {
      PristineAdd(combine, pad, j, k - 1);
    }
  }

  function LeafFrom<H>(t: Tree<H>, base: nat, d: nat): H {
    LeafAt(t, base + d)
  }

  /** The n leaves from a on in t are the n leaves from b on in u. */
  ghost predicate SameLeaves<H>(t: Tree<H>, a: nat, u: Tree<H>, b: nat, n: nat) {
    forall d: nat :: d < n ==> LeafFrom(t, a, d) == LeafFrom(u, b, d)
  }

  /** A node depends only on the leaves below it, so equal leaf windows give equal nodes. */
  lemma {:induction false} NodeLocal<H>(t: Tree<H>, u: Tree<H>, j: nat, i: nat, i': nat)
    requires t.combine == u.combine
    requires SameLeaves(t, Shl(i, j), u, Shl(i', j), Pow2(j))
    ensures Node(t, j, i) == Node(u, j, i')
  {
    if j == 0 {
      assert LeafFrom(t, i, 0) == LeafFrom(u, i', 0);
    } else {
      var half := Pow2(j - 1);
      ShlAdd(2 * i, 1, j - 1);
      ShlAdd(2 * i', 1, j - 1);
      ShlOne(j - 1);
      var right, right' := Shl(2 * i + 1, j - 1), Shl(2 * i' + 1, j - 1);
      forall d: nat | d < half
        ensures LeafFrom(t, right, d) == LeafFrom(u, right', d)
      {
        assert LeafFrom(t, Shl(i, j), half + d) == LeafFrom(u, Shl(i', j), half + d);
      }
      NodeLocal(t, u, j - 1, 2 * i, 2 * i');
      NodeLocal(t, u, j - 1, 2 * i + 1, 2 * i' + 1);
    }
  }

  /** Appending leaves cannot touch a node that is followed by another non-pristine node of its height. */
  lemma {:induction false} NodeSettled<H>(t: Tree<H>, more: seq<H>, j: nat, i: nat)
    requires i + 1 < Count(|t.leaves|, j)
    ensures Node(t.(leaves := t.leaves + more), j, i) == Node(t, j, i)
  {
    if j > 0 {
      NodeSettled(t, more, j - 1, 2 * i);
      NodeSettled(t, more, j - 1, 2 * i + 1);
    }
  }

  lemma {:induction false} CountMonotone(n: nat, m: nat, j: nat)
    requires n <= m
    ensures Count(n, j) <= Count(m, j)
  {
    if j > 0 {
      CountMonotone(n, m, j - 1);
    }
  }

  /** Appending pad leaves (hashes of all-zero words) changes no node of the tree. */
  lemma {:induction false} PadLeavesAreInvisible<H>(t: Tree<H>, n: nat, j: nat, i: nat)
    ensures Node(t.(leaves := t.leaves + seq(n, _ => t.pad)), j, i) == Node(t, j, i)
  {
    NodeLocal(t.(leaves := t.leaves + seq(n, _ => t.pad)), t, j, i, i);
  }

  /** Leaves past the capacity 2^root of a tree reach no node inside it. */
  lemma NodesIgnoreOverflow<H>(t: Tree<H>, root: nat, j: nat, i: nat)
    requires j <= root && i < Pow2(root - j) && |t.leaves| > Pow2(root)
    ensures Node(t, j, i) == Node(t.(leaves := t.leaves[..Pow2(root)]), j, i)
  {
    var rest := Pow2(root - j) - i - 1;
    ShlAdd(i, 1, j);
    ShlAdd(i + 1, rest, j);
    ShlOne(j);
    ShlOne(root - j);
    ShlOne(root);
    ShlShl(1, root - j, j);
    hide Pow2, Shl, Node;
    NodeLocal(t, t.(leaves := t.leaves[..Pow2(root)]), j, i, i);
  }

  /** The tree with one node's hash replaced by x, and everything that is not above it left alone. */
  function Replaced<H>(t: Tree<H>, h: nat, n: nat, x: H, j: nat, i: nat): H {
    if j == h && i == n then x
    else if j == 0 then LeafAt(t, i)
    else t.combine(Replaced(t, h, n, x, j - 1, 2 * i), Replaced(t, h, n, x, j - 1, 2 * i + 1))
  }

  /** Replacing a node changes no node outside the path from it to the root. */
  lemma {:induction false} ReplacedElsewhere<H>(t: Tree<H>, h: nat, n: nat, x: H, j: nat, i: nat)
    requires j < h || Shr(n, j - h) != i
    ensures Replaced(t, h, n, x, j, i) == Node(t, j, i)
  {
    if j > 0 {
      if j > h {
        ShrStep(n, j - h - 1);
      }
      ReplacedElsewhere(t, h, n, x, j - 1, 2 * i);
      ReplacedElsewhere(t, h, n, x, j - 1, 2 * i + 1);
    }
  }

  /** Replacing a stored leaf is rebuilding the tree with that leaf. */
  lemma {:induction false} ReplacedLeaf<H>(t: Tree<H>, n: nat, x: H, j: nat, i: nat)
    requires n < |t.leaves|
    ensures Replaced(t, 0, n, x, j, i) == Node(t.(leaves := t.leaves[n := x]), j, i)
  {
    if j > 0 {
      ReplacedLeaf(t, n, x, j - 1, 2 * i);
      ReplacedLeaf(t, n, x, j - 1, 2 * i + 1);
    }
  }
}

/** Hash-tree proofs as values: climbing, verification, slicing, and what they mean for a Merkle tree. */
module ProofSpec {
  import opened Shifts
  import opened MerkleSpec

  datatype Proof<H> = Proof(log2Root: nat, log2Target: nat, address: nat, target: H, root: H, siblings: seq<H>)

  /** What the constructor of a proof enforces. */
  predicate WellSized<H>(p: Proof<H>) {
    p.log2Root > 0 && p.log2Target <= p.log2Root && |p.siblings| == p.log2Root - p.log2Target
  }

  function Sibling<H>(p: Proof<H>, s: nat): H
    requires |p.siblings| == p.log2Root - p.log2Target && p.log2Target <= s < p.log2Root
  {
    p.siblings[s - p.log2Target]
  }

  /** Same sizes and the same sibling at every size: the same list of siblings. */
  lemma SameSiblings<H>(p: Proof<H>, q: Proof<H>)
    requires p.log2Target == q.log2Target <= p.log2Root == q.log2Root
    requires |p.siblings| == |q.siblings| == p.log2Root - p.log2Target
    requires forall s :: p.log2Target <= s < p.log2Root ==> Sibling(p, s) == Sibling(q, s)
    ensures p.siblings == q.siblings
  {
    forall i | 0 <= i < |p.siblings|
      ensures p.siblings[i] == q.siblings[i]
    {
      assert Sibling(p, p.log2Target + i) == Sibling(q, p.log2Target + i);
    }
  }

  /** The two children, left then right, of the node on the path at size s + 1. */
  function Pair<H>(p: Proof<H>, s: nat, hash: H): (H, H)
    requires WellSized(p) && p.log2Target <= s < p.log2Root
  {
    var sibling := Sibling(p, s);
    if Bit(p.address, s) then (sibling, hash) else (hash, sibling)
  }

  /** The hash reached at size `size` when the target node has the given hash. */
  function Climb<H>(combine: (H, H) -> H, p: Proof<H>, hash: H, size: nat): H
    requires WellSized(p) && p.log2Target <= size <= p.log2Root
    decreases size
  {
    if size == p.log2Target then hash
    else
      var pair := Pair(p, size - 1, Climb(combine, p, hash, size - 1));
      combine(pair.0, pair.1)
  }

  ghost predicate Verifies<H>(combine: (H, H) -> H, p: Proof<H>)
    requires WellSized(p)
  {
    Climb(combine, p, p.target, p.log2Root) == p.root
  }

  // ---------- slices ----------

  function Sliced<H>(combine: (H, H) -> H, p: Proof<H>, root: nat, target: nat): (q: Proof<H>)
    requires WellSized(p) && 0 < root <= p.log2Root && p.log2Target <= target <= root
    ensures WellSized(q) && q.address == p.address - p.address % Pow2(target)
  {
    ShrIsDivision(p.address, target);
    Proof(root, target, Align(p.address, target),
          Climb(combine, p, p.target, target), Climb(combine, p, p.target, root),
          p.siblings[target - p.log2Target..root - p.log2Target])
  }

  lemma SliceKeepsSibling<H>(combine: (H, H) -> H, p: Proof<H>, root: nat, target: nat, s: nat)
    requires WellSized(p) && 0 < root <= p.log2Root && p.log2Target <= target <= s < root
    ensures Sibling(Sliced(combine, p, root, target), s) == Sibling(p, s)
  {
    hide Climb;
  }

  lemma {:induction false} ClimbOfSlice<H>(combine: (H, H) -> H, p: Proof<H>, root: nat, target: nat, size: nat)
    requires WellSized(p) && 0 < root <= p.log2Root && p.log2Target <= target <= size <= root
    ensures var q := Sliced(combine, p, root, target);
            Climb(combine, q, q.target, size) == Climb(combine, p, p.target, size)
  {
    if size > target {
      ClimbOfSlice(combine, p, root, target, size - 1);
      AlignKeepsHigh(p.address, target, size - 1);
    }
  }

  /** A slice verifies whether or not the proof it came from does, so slicing never reports an invalid result. */
  lemma SliceVerifies<H>(combine: (H, H) -> H, p: Proof<H>, root: nat, target: nat)
    requires WellSized(p) && 0 < root <= p.log2Root && p.log2Target <= target <= root
    ensures Verifies(combine, Sliced(combine, p, root, target))
  {
    ClimbOfSlice(combine, p, root, target, root);
  }

  /** Slicing a slice is slicing once. */
  lemma SliceOfSlice<H>(combine: (H, H) -> H, p: Proof<H>, root: nat, target: nat, root': nat, target': nat)
    requires WellSized(p) && 0 < root' <= root <= p.log2Root && p.log2Target <= target <= target' <= root'
    ensures Sliced(combine, Sliced(combine, p, root, target), root', target') == Sliced(combine, p, root', target')
  {
    ClimbOfSlice(combine, p, root, target, target');
    ClimbOfSlice(combine, p, root, target, root');
    AlignAlign(p.address, target, target');
    var q := Sliced(combine, p, root, target);
    var r, o := Sliced(combine, q, root', target'), Sliced(combine, p, root', target');
    forall s | target' <= s < root'
      ensures Sibling(r, s) == Sibling(o, s)
    {
      SliceKeepsSibling(combine, p, root, target, s);
      SliceKeepsSibling(combine, q, root', target', s);
      SliceKeepsSibling(combine, p, root', target', s);
    }
    hide Climb, Sibling;
    SameSiblings(r, o);
  }

  /** A proof is its own full slice exactly when it verifies and its address is aligned. */
  lemma FullSlice<H>(combine: (H, H) -> H, p: Proof<H>)
    requires WellSized(p)
    ensures Sliced(combine, p, p.log2Root, p.log2Target) == p
            <==> Verifies(combine, p) && p.address % Pow2(p.log2Target) == 0
  {
    AlignClears(p.address, p.log2Target);
    hide Align;
    assert p.siblings[0..p.log2Root - p.log2Target] == p.siblings;
  }

  // ---------- proofs issued by a tree ----------

  /** A node of size k at the given address, in a tree whose leaves have size `leaf`. */
  function NodeAt<H>(t: Tree<H>, leaf: nat, address: nat, k: nat): H
    requires leaf <= k
  {
    Node(t, k - leaf, Shr(address, k))
  }

  /** The node at an address is the one whose number is the quotient by its size. */
  lemma NodeAtIs<H>(t: Tree<H>, leaf: nat, address: nat, k: nat)
    requires leaf <= k
    ensures 0 <= address / Pow2(k) && NodeAt(t, leaf, address, k) == Node(t, k - leaf, address / Pow2(k))
  {
    ShrIsDivision(address, k);
  }

  function SiblingAt<H>(t: Tree<H>, leaf: nat, address: nat, s: nat): H
    requires leaf <= s
  {
    Node(t, s - leaf, Twin(Shr(address, s)))
  }

  /** The proof of the node of size k at an address, up to its ancestor of size `root`. */
  function Issued<H>(t: Tree<H>, leaf: nat, root: nat, address: nat, k: nat): (p: Proof<H>)
    requires leaf <= k <= root
    ensures root > 0 ==> WellSized(p)
    ensures p.log2Root == root && p.log2Target == k && |p.siblings| == root - k
    ensures forall s :: k <= s < root ==> Sibling(p, s) == SiblingAt(t, leaf, address, s)
  {
    Proof(root, k, address, NodeAt(t, leaf, address, k), NodeAt(t, leaf, address, root),
          seq(root - k, (d: nat) => SiblingAt(t, leaf, address, k + d)))
  }

  /** A parent's children are the node on the path and its sibling, in the order of the path bit. */
  lemma PathChildren<H>(t: Tree<H>, leaf: nat, address: nat, s: nat)
    requires leaf <= s
    ensures NodeAt(t, leaf, address, s + 1) ==
            if Bit(address, s) then t.combine(SiblingAt(t, leaf, address, s), NodeAt(t, leaf, address, s))
            else t.combine(NodeAt(t, leaf, address, s), SiblingAt(t, leaf, address, s))
  {
    ShrStep(address, s);
    var x := Shr(address, s);
    assert x == 2 * (x / 2) + x % 2;
  }

  lemma {:induction false} ClimbOfIssued<H>(t: Tree<H>, leaf: nat, root: nat, address: nat, k: nat, size: nat)
    requires leaf <= k <= size <= root && 0 < root
    ensures var p := Issued(t, leaf, root, address, k);
            Climb(t.combine, p, p.target, size) == NodeAt(t, leaf, address, size)
  {
    if size > k {
      ClimbOfIssued(t, leaf, root, address, k, size - 1);
      PathChildren(t, leaf, address, size - 1);
    }
  }

  /** Completeness: every proof a tree issues verifies. */
  lemma IssuedVerifies<H>(t: Tree<H>, leaf: nat, root: nat, address: nat, k: nat)
    requires leaf <= k <= root && 0 < root
    ensures Verifies(t.combine, Issued(t, leaf, root, address, k))
  {
    ClimbOfIssued(t, leaf, root, address, k, root);
  }

  /** Slicing an issued proof gives, field for field, the proof issued for the enclosing aligned node. */
  lemma SliceOfIssued<H>(t: Tree<H>, leaf: nat, root: nat, address: nat, k: nat, root': nat, k': nat)
    requires leaf <= k <= k' <= root' <= root && 0 < root'
    ensures Sliced(t.combine, Issued(t, leaf, root, address, k), root', k')
            == Issued(t, leaf, root', address - address % Pow2(k'), k')
  {
    hide Climb, Node, Shr, Align, Pow2;
    ShrIsDivision(address, k');
    var p := Issued(t, leaf, root, address, k);
    var q := Issued(t, leaf, root', Align(address, k'), k');
    ClimbOfIssued(t, leaf, root, address, k, k');
    ClimbOfIssued(t, leaf, root, address, k, root');
    AlignKeepsHigh(address, k', k');
    AlignKeepsHigh(address, k', root');
    var r := Sliced(t.combine, p, root', k');
    forall s | k' <= s < root'
      ensures Sibling(r, s) == Sibling(q, s)
    {
      AlignKeepsHigh(address, k', s);
      SliceKeepsSibling(t.combine, p, root', k', s);
    }
    SameSiblings(r, q);
  }

  /** One step up the path of a replaced node: its sibling is untouched. */
  lemma ReplacedParent<H>(t: Tree<H>, h: nat, n: nat, x: H, j: nat, i: nat)
    requires h <= j && Shr(n, j - h) == i
    ensures Replaced(t, h, n, x, j + 1, i / 2) ==
            if i % 2 == 1 then t.combine(Node(t, j, Twin(i)), Replaced(t, h, n, x, j, i))
            else t.combine(Replaced(t, h, n, x, j, i), Node(t, j, Twin(i)))
  {
    ReplacedElsewhere(t, h, n, x, j, Twin(i));
    hide Node, Shr;
    assert i == 2 * (i / 2) + i % 2;
  }

  /** Update through a proof: climbing with a new target hash gives the root of the tree with that node replaced. */
  lemma {:induction false} ClimbReplaces<H>(t: Tree<H>, leaf: nat, root: nat, address: nat, k: nat, x: H, size: nat)
    requires leaf <= k <= size <= root && 0 < root
    ensures Climb(t.combine, Issued(t, leaf, root, address, k), x, size)
            == Replaced(t, k - leaf, Shr(address, k), x, size - leaf, Shr(address, size))
  {
    if size > k {
      var s := size - 1;
      ClimbReplaces(t, leaf, root, address, k, x, s);
      ShrStep(address, s);
      ShrShr(address, k, s - k);
      ReplacedParent(t, k - leaf, Shr(address, k), x, s - leaf, Shr(address, s));
      hide Replaced, Node, Shr, NodeAt;
    }
  }

  // ---------- binding ----------

  /** The tree's own children of the path node of size s + 1. */
  function TreePair<H>(t: Tree<H>, leaf: nat, address: nat, s: nat): (H, H)
    requires leaf <= s
  {
    (Node(t, s - leaf, 2 * Shr(address, s + 1)), Node(t, s - leaf, 2 * Shr(address, s + 1) + 1))
  }

  /** At size s the proof and the tree combine two different pairs into the same hash. */
  ghost predicate CollisionAt<H>(t: Tree<H>, leaf: nat, p: Proof<H>, s: nat)
    requires WellSized(p) && leaf <= p.log2Target
  {
    p.log2Target <= s < p.log2Root &&
    var mine, yours := Pair(p, s, Climb(t.combine, p, p.target, s)), TreePair(t, leaf, p.address, s);
    mine != yours && t.combine(mine.0, mine.1) == t.combine(yours.0, yours.1)
  }

  lemma {:induction false} BindDown<H>(t: Tree<H>, leaf: nat, p: Proof<H>, size: nat)
    requires WellSized(p) && leaf <= p.log2Target <= size <= p.log2Root
    requires forall s :: !CollisionAt(t, leaf, p, s)
    requires Climb(t.combine, p, p.target, size) == NodeAt(t, leaf, p.address, size)
    ensures p.target == NodeAt(t, leaf, p.address, p.log2Target)
    ensures forall s :: p.log2Target <= s < size ==> Sibling(p, s) == SiblingAt(t, leaf, p.address, s)
    decreases size
  {
    if size > p.log2Target {
      var s := size - 1;
      assert !CollisionAt(t, leaf, p, s);
      ShrStep(p.address, s);
      var x := Shr(p.address, s);
      assert x == 2 * (x / 2) + x % 2;
      BindDown(t, leaf, p, s);
    }
  }

  /** Binding: a verifying proof that ends in the tree's root is the proof the tree itself issues,
      unless one of its levels exhibits a collision of the combine function. */
  lemma VerifiedIsIssued<H>(t: Tree<H>, leaf: nat, p: Proof<H>)
    requires WellSized(p) && leaf <= p.log2Target && Shr(p.address, p.log2Root) == 0
    requires p.root == Node(t, p.log2Root - leaf, 0)
    requires Verifies(t.combine, p)
    ensures p == Issued(t, leaf, p.log2Root, p.address, p.log2Target) || exists s :: CollisionAt(t, leaf, p, s)
  {
    if forall s :: !CollisionAt(t, leaf, p, s) {
      BindDown(t, leaf, p, p.log2Root);
      var q := Issued(t, leaf, p.log2Root, p.address, p.log2Target);
      SameSiblings(p, q);
    }
  }

  ghost predicate Injective<H(!new)>(combine: (H, H) -> H) {
    forall a, b, c, d :: combine(a, b) == combine(c, d) ==> a == c && b == d
  }

  /** Under an injective combine function, the target hash of a verifying proof is the tree's node hash. */
  lemma VerifiedBindsTarget<H(!new)>(t: Tree<H>, leaf: nat, p: Proof<H>)
    requires WellSized(p) && leaf <= p.log2Target && Shr(p.address, p.log2Root) == 0
    requires Injective(t.combine)
    requires p.root == Node(t, p.log2Root - leaf, 0)
    ensures Verifies(t.combine, p) <==> p == Issued(t, leaf, p.log2Root, p.address, p.log2Target)
  {
    IssuedVerifies(t, leaf, p.log2Root, p.address, p.log2Target);
    if Verifies(t.combine, p) {
      VerifiedIsIssued(t, leaf, p);
    }
  }
}

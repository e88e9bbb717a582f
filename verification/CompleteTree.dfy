/** misc/complete-merkle-tree.cpp: the tree that stores only the non-pristine prefix of each level. */
module CompleteTree {
  import opened Amounts
  import opened Shifts
  import opened MerkleSpec
  import opened ProofSpec
  import opened PristineTree
  import opened HashTreeProofs

  /** Everything a level of height j must store: its non-pristine nodes, in order. */
  function ExactLevel<H>(t: Tree<H>, j: nat): (s: seq<H>)
    ensures |s| == Count(|t.leaves|, j)
    ensures forall i :: 0 <= i < |s| ==> s[i] == Node(t, j, i)
  {
    seq(Count(|t.leaves|, j), (i: nat) => Node(t, j, i))
  }

  /** What bubbling up relies on: a level is not too long and right everywhere but in its last entry. */
  ghost predicate Stale<H>(level: seq<H>, t: Tree<H>, j: nat) {
    |level| <= Count(|t.leaves|, j) &&
    forall i :: 0 <= i && i + 1 < |level| ==> level[i] == Node(t, j, i)
  }

  /** A level that was exact before leaves were appended is merely stale afterwards. */
  lemma ExactBecomesStale<H>(t: Tree<H>, more: seq<H>, j: nat)
    ensures Stale(ExactLevel(t, j), t.(leaves := t.leaves + more), j)
  {
    CountMonotone(|t.leaves|, |t.leaves + more|, j);
    forall i | 0 <= i && i + 1 < Count(|t.leaves|, j)
      ensures Node(t.(leaves := t.leaves + more), j, i) == Node(t, j, i)
    {
      NodeSettled(t, more, j, i);
    }
  }

  function Resize<H>(s: seq<H>, n: nat, blank: H): (r: seq<H>)
    ensures |r| == n && forall i :: 0 <= i < n && i < |s| ==> r[i] == s[i]
  {
    if n <= |s| then s[..n] else s + seq(n - |s|, _ => blank)
  }

  /** The body of bubble_up for one level: it recomputes only from the old last entry on. */
  method RedoLevel<H>(combine: (H, H) -> H, prev: seq<H>, next: seq<H>, pristine: H, blank: H,
                      ghost t: Tree<H>, ghost j: nat) returns (redone: seq<H>)
    requires combine == t.combine && pristine == Pristine(t.combine, t.pad, j)
    requires prev == ExactLevel(t, j) && Stale(next, t, j + 1)
    ensures redone == ExactLevel(t, j + 1)
  {
    var firstEntry := if |next| > 0 then |next| - 1 else |next|;
    redone := Resize(next, (|prev| + 1) / 2, blank);
    assert firstEntry <= |redone|;
    var lastSafeEntry := |prev| / 2;
    while firstEntry < lastSafeEntry
      invariant firstEntry <= |redone| == (|prev| + 1) / 2
      invariant forall i :: 0 <= i < firstEntry ==> redone[i] == Node(t, j + 1, i)
    {
      redone := redone[firstEntry := combine(prev[2 * firstEntry], prev[2 * firstEntry + 1])];
      firstEntry := firstEntry + 1;
    }
    if |prev| > 2 * lastSafeEntry {
      PristineNode(t, j, 2 * lastSafeEntry + 1);
      redone := redone[lastSafeEntry := combine(prev[|prev| - 1], pristine)];
    }
  }

  class CompleteMerkleTree<H(==)> {
    const log2Root: nat
    const log2Leaf: nat
    const log2Word: nat
    const hasher: Hasher<H>
    const blank: H
    const pristine: PristineMerkleTree<H>
    var levels: seq<seq<H>>

    ghost predicate Sized()
      reads this
    {
      log2Word <= log2Leaf <= log2Root < 64 && |levels| == log2Root - log2Leaf + 1 &&
      pristine.Valid() && pristine.hasher == hasher && pristine.log2Root == log2Root && pristine.log2Word == log2Word
    }

    function Level(size: nat): seq<H>
      reads this
      requires Sized() && log2Leaf <= size <= log2Root
    {
      levels[log2Root - size]
    }

    /** The leaves pushed so far, padded with pristine leaves: what the tree stands for. */
    ghost function Content(): Tree<H>
      reads this
      requires Sized()
    {
      Tree(hasher.combine, ZeroHash(hasher, log2Word, log2Leaf), Level(log2Leaf))
    }

    ghost predicate Valid()
      reads this
    {
      Sized() && forall d :: 0 <= d < |levels| ==> levels[d] == ExactLevel(Content(), |levels| - 1 - d)
    }

    /** Allocates the levels; Build makes the checks that come before. */
    constructor (root: nat, leaf: nat, word: nat, hasher: Hasher<H>, blank: H)
      requires word <= leaf <= root < 64
      ensures Sized() && log2Root == root && log2Leaf == leaf && log2Word == word && this.hasher == hasher
      ensures forall d :: 0 <= d < |levels| ==> levels[d] == []
    {
      log2Root, log2Leaf, log2Word, this.hasher, this.blank := root, leaf, word, hasher, blank;
      pristine := new PristineMerkleTree<H>(root, word, hasher, blank);
      levels := seq(root - leaf + 1, _ => []);
    }

    /** The constructor from leaves with its size checks; null stands for the range errors. Any number of
        leaves is accepted. */
    static method Build(root: int, leaf: int, word: int, hasher: Hasher<H>, blank: H, leaves: seq<H>)
      returns (t: CompleteMerkleTree?<H>)
      ensures t == null <==> !(0 <= word <= leaf <= root < 64)
      ensures t != null ==> fresh(t) && t.Valid() && t.log2Root == root && t.log2Leaf == leaf && t.log2Word == word
      ensures t != null ==>
                t.hasher == hasher && t.Content() == Tree(hasher.combine, ZeroHash(hasher, word, leaf), leaves)
      ensures t != null ==> (|t.Level(root)| <= 1 <==> |leaves| <= Pow2(root - leaf))
    {
      if root < 0 || leaf < 0 || word < 0 || leaf > root || word > leaf || root >= 64 {
        return null;
      }
      t := new CompleteMerkleTree<H>(root, leaf, word, hasher, blank);
      t.levels := t.levels[root - leaf := leaves];
      t.BubbleUp();
      CountFits(|leaves|, root - leaf);
    }

    /** bubble_up: repairs every level above the leaves. */
    method BubbleUp()
      requires Sized()
      requires forall d :: 0 <= d < |levels| - 1 ==> Stale(levels[d], Content(), |levels| - 1 - d)
      modifies this`levels
      ensures Valid() && Content() == old(Content())
    {
      ghost var t := Content();
      var size := log2Leaf + 1;
      while size <= log2Root
        invariant log2Leaf + 1 <= size <= log2Root + 1
        invariant Sized() && Content() == t
        invariant forall d :: log2Root - size < d < |levels| ==> levels[d] == ExactLevel(t, |levels| - 1 - d)
        invariant forall d :: 0 <= d <= log2Root - size ==> Stale(levels[d], t, |levels| - 1 - d)
      {
        var pad := pristine.GetHash(size - 1);
        PristineAdd(hasher.combine, hasher.word(Zeros(Pow2(log2Word))), log2Leaf - log2Word, size - 1 - log2Leaf);
        var redone := RedoLevel(hasher.combine, Level(size - 1), Level(size), pad.value, blank, t, size - 1 - log2Leaf);
        levels := levels[log2Root - size := redone];
        size := size + 1;
      }
    }

    /** get_node_hash: any node in range, stored or pristine, or the range error. */
    method GetNodeHash(address: nat, size: int) returns (r: Lookup<H>)
      requires Valid()
      ensures r == if log2Leaf <= size <= log2Root && address < Pow2(log2Root)
                   then Found(NodeAt(Content(), log2Leaf, address, size)) else OutOfRange
    {
      ShrVanishes(address, log2Root);
      if size < log2Leaf || size > log2Root {
        return OutOfRange;
      }
      var index := Shr(address, size);
      ShrShr(address, size, log2Root - size);
      ShrVanishes(index, log2Root - size);
      if index >= Pow2(log2Root - size) {
        return OutOfRange;
      }
      if index < |Level(size)| {
        return Found(Level(size)[index]);
      }
      PristineNode(Content(), size - log2Leaf, index);
      PristineAdd(hasher.combine, hasher.word(Zeros(Pow2(log2Word))), log2Leaf - log2Word, size - log2Leaf);
      r := pristine.GetHash(size);
    }

    /** get_root_hash */
    method GetRootHash() returns (hash: H)
      requires Valid()
      ensures hash == Node(Content(), log2Root - log2Leaf, 0)
    {
      ShrVanishes(0, log2Root);
      var root := GetNodeHash(0, log2Root);
      hash := root.value;
    }

    /** push_back: appends one leaf unless the tree is full. */
    method PushBack(hash: H) returns (ok: bool)
      requires Valid()
      modifies this`levels
      ensures Valid()
      ensures ok <==> |old(Content()).leaves| < Pow2(log2Root - log2Leaf)
      ensures Content() == if ok then old(Content()).(leaves := old(Content()).leaves + [hash]) else old(Content())
    {
      var leaves := Level(log2Leaf);
      if |leaves| >= Pow2(log2Root - log2Leaf) {
        return false;
      }
      ghost var t := Content();
      levels := levels[log2Root - log2Leaf := leaves + [hash]];
      forall d | 0 <= d < |levels| - 1
        ensures Stale(levels[d], Content(), |levels| - 1 - d)
      {
        ExactBecomesStale(t, [hash], |levels| - 1 - d);
      }
      BubbleUp();
      return true;
    }

    /** get_proof: the proof of a node; null for a bad size, a misaligned or out-of-range address, or a root of
        size 0. */
    method GetProof(address: nat, size: int) returns (p: HashTreeProof?<H>)
      requires Valid()
      ensures p == null <==> !(log2Leaf <= size <= log2Root && 0 < log2Root &&
                               address % Pow2(size) == 0 && address < Pow2(log2Root))
      ensures p != null ==> fresh(p) && p.Valid() && p.Data() == Issued(Content(), log2Leaf, log2Root, address, size)
    {
      if size < log2Leaf || size > log2Root {
        return null;
      }
      AlignClears(address, size);
      ShrVanishes(address, log2Root);
      if address != Align(address, size) {
        return null;
      }
      p := HashTreeProof.Build(log2Root, size, blank);
      if p == null {
        return null;
      }
      var root := GetRootHash();
      var target := GetNodeHash(address, size);
      if target.OutOfRange? {
        return null;
      }
      p.rootHash := root;
      p.targetAddress := address;
      p.targetHash := target.value;
      FillSiblings(p, address, size);
    }

    /** The loop of get_proof: looks each sibling up by flipping one bit of the target address. */
    method FillSiblings(p: HashTreeProof<H>, address: nat, size: nat)
      requires Valid() && log2Leaf <= size <= log2Root && 0 < log2Root && Shr(address, log2Root) == 0
      requires p.Valid() && p.log2RootSize == log2Root && p.log2TargetSize == size
      modifies p`siblingHashes
      ensures p.Valid() && p.siblingHashes == Issued(Content(), log2Leaf, log2Root, address, size).siblings
    {
      ghost var issued := Issued(Content(), log2Leaf, log2Root, address, size);
      var s := size;
      while s < log2Root
        invariant size <= s <= log2Root && p.Valid()
        invariant forall k :: size <= k < s ==> Sibling(p.Data(), k) == Sibling(issued, k)
      {
        FlipStaysInside(address, s, log2Root);
        ShrFlip(address, s);
        var sibling := GetNodeHash(Flip(address, s), s);
        ghost var before := p.Data();
        var stored := p.SetSiblingHash(sibling.value, s);
        assert forall k :: size <= k < s ==> Sibling(p.Data(), k) == Sibling(before, k);
        s := s + 1;
      }
      SameSiblings(p.Data(), issued);
    }
  }

  /** Flipping a bit below the root keeps an address inside the tree. */
  lemma FlipStaysInside(address: nat, s: nat, root: nat)
    requires s < root && Shr(address, root) == 0
    ensures Shr(Flip(address, s), root) == 0 && Flip(address, s) < Pow2(root)
  {
    ShrVanishes(Flip(address, s), root);
    ShrFlip(address, s);
    ShrShr(address, s, root - s);
    ShrShr(Flip(address, s), s, root - s);
    var x := Shr(address, s);
    assert Twin(x) / 2 == x / 2;
  }
}

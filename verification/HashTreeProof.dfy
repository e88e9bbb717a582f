/** misc/hash-tree-proof.h: the proof object, its bubbling loop and its slicing loops. */
module HashTreeProofs {
  import opened Shifts
  import opened ProofSpec
  import opened PristineTree

  class HashTreeProof<H(==)> {
    var targetAddress: nat
    const log2TargetSize: int
    var targetHash: H
    const log2RootSize: int
    var rootHash: H
    var siblingHashes: seq<H>

    ghost predicate Valid()
      reads this
    {
      0 < log2RootSize && 0 <= log2TargetSize <= log2RootSize && |siblingHashes| == log2RootSize - log2TargetSize
    }

    /** The proof as a value. */
    ghost function Data(): (p: Proof<H>)
      reads this
      requires Valid()
      ensures WellSized(p)
    {
      Proof(log2RootSize, log2TargetSize, targetAddress, targetHash, rootHash, siblingHashes)
    }

    /** Allocates the siblings; Build makes the checks that come with it. */
    constructor (root: int, target: int, blank: H)
      requires 0 < root && 0 <= target <= root
      ensures Valid()
      ensures Data() == Proof(root, target, 0, blank, blank, seq(root - target, _ => blank))
    {
      targetAddress, log2TargetSize, targetHash := 0, target, blank;
      log2RootSize, rootHash := root, blank;
      siblingHashes := seq(root - target, _ => blank);
    }

    /** The constructor with its size checks; null stands for the range errors. */
    static method Build(root: int, target: int, blank: H) returns (p: HashTreeProof?<H>)
      ensures p == null <==> !(0 < root && 0 <= target <= root)
      ensures p != null ==>
                fresh(p) && p.Valid() &&
                p.Data() == Proof(root, target, 0, blank, blank, seq(root - target, _ => blank))
    {
      if root <= 0 || target < 0 || target > root {
        return null;
      }
      p := new HashTreeProof<H>(root, target, blank);
    }

    /** get_sibling_hash, with the range check of log2_size_to_index. */
    method GetSiblingHash(size: int) returns (r: Lookup<H>)
      requires Valid()
      ensures r == if log2TargetSize <= size < log2RootSize then Found(Sibling(Data(), size)) else OutOfRange
    {
      var index := size - log2TargetSize;
      if index < 0 || index >= |siblingHashes| {
        return OutOfRange;
      }
      return Found(siblingHashes[index]);
    }

    /** set_sibling_hash: replaces the hash at one size, or reports the range error and changes nothing. */
    method SetSiblingHash(hash: H, size: int) returns (ok: bool)
      requires Valid()
      modifies this`siblingHashes
      ensures Valid()
      ensures ok <==> log2TargetSize <= size < log2RootSize
      ensures siblingHashes == if ok then old(siblingHashes)[size - log2TargetSize := hash] else old(siblingHashes)
    {
      var index := size - log2TargetSize;
      if index < 0 || index >= |siblingHashes| {
        return false;
      }
      siblingHashes := siblingHashes[index := hash];
      return true;
    }

    /** The step every loop below makes: combine a path hash with its sibling, in the order of the address bit. */
    method Join(combine: (H, H) -> H, size: int, hash: H) returns (parent: H)
      requires Valid() && log2TargetSize <= size < log2RootSize
      ensures var pair := Pair(Data(), size, hash); parent == combine(pair.0, pair.1)
    {
      var sibling := GetSiblingHash(size);
      if Bit(targetAddress, size) {
        parent := combine(sibling.value, hash);
      } else {
        parent := combine(hash, sibling.value);
      }
    }

    /** bubble_up: the root hash obtained by giving the target node a new hash. */
    method BubbleUp(combine: (H, H) -> H, newTargetHash: H) returns (hash: H)
      requires Valid()
      ensures hash == Climb(combine, Data(), newTargetHash, log2RootSize)
    {
      hash := newTargetHash;
      var size := log2TargetSize;
      while size < log2RootSize
        invariant log2TargetSize <= size <= log2RootSize
        invariant hash == Climb(combine, Data(), newTargetHash, size)
      {
        hash := Join(combine, size, hash);
        size := size + 1;
      }
    }

    method Verify(combine: (H, H) -> H) returns (ok: bool)
      requires Valid()
      ensures ok <==> Verifies(combine, Data())
    {
      var hash := BubbleUp(combine, targetHash);
      ok := hash == rootHash;
    }

    /** slice: null stands for the range errors; the final check of the new proof never fails. */
    method Slice(combine: (H, H) -> H, newRoot: int, newTarget: int, blank: H) returns (q: HashTreeProof?<H>)
      requires Valid()
      ensures q == null <==> !(0 < newRoot <= log2RootSize && log2TargetSize <= newTarget <= newRoot)
      ensures q != null ==> fresh(q) && q.Valid() && q.Data() == Sliced(combine, Data(), newRoot, newTarget)
      ensures q != null ==> q.targetAddress == targetAddress - targetAddress % Pow2(newTarget)
    {
      if newRoot <= 0 || newTarget < 0 || newTarget > newRoot || newRoot > log2RootSize || newTarget < log2TargetSize {
        return null;
      }
      q := Build(newRoot, newTarget, blank);
      var hash := targetHash;
      var size := log2TargetSize;
      while size < newTarget
        invariant log2TargetSize <= size <= newTarget
        invariant hash == Climb(combine, Data(), targetHash, size)
        modifies {}
      {
        hash := Join(combine, size, hash);
        size := size + 1;
      }
      q.targetHash := hash;
      q.rootHash := CopySiblings(combine, q, hash);
      q.targetAddress := Align(targetAddress, newTarget);
      SliceVerifies(combine, Data(), newRoot, newTarget);
      var verified := q.Verify(combine);
      assert verified;
    }

    /** The second loop of slice: copies the siblings kept by q and climbs on to its root. */
    method CopySiblings(combine: (H, H) -> H, q: HashTreeProof<H>, hash: H) returns (root: H)
      requires Valid() && q.Valid() && q != this
      requires q.log2RootSize <= log2RootSize && log2TargetSize <= q.log2TargetSize
      requires hash == Climb(combine, Data(), targetHash, q.log2TargetSize)
      modifies q`siblingHashes
      ensures q.Valid() && root == Climb(combine, Data(), targetHash, q.log2RootSize)
      ensures q.siblingHashes == Sliced(combine, Data(), q.log2RootSize, q.log2TargetSize).siblings
    {
      root := hash;
      var size := q.log2TargetSize;
      while size < q.log2RootSize
        invariant q.log2TargetSize <= size <= q.log2RootSize && q.Valid()
        invariant root == Climb(combine, Data(), targetHash, size)
        invariant forall s :: q.log2TargetSize <= s < size ==> Sibling(q.Data(), s) == Sibling(Data(), s)
      {
        root := Join(combine, size, root);
        var sibling := GetSiblingHash(size);
        ghost var before := q.Data();
        var stored := q.SetSiblingHash(sibling.value, size);
        assert forall s :: q.log2TargetSize <= s < size ==> Sibling(q.Data(), s) == Sibling(before, s);
        size := size + 1;
      }
      ghost var sliced := Sliced(combine, Data(), q.log2RootSize, q.log2TargetSize);
      forall s | q.log2TargetSize <= s < q.log2RootSize
        ensures Sibling(q.Data(), s) == Sibling(sliced, s)
      {
        SliceKeepsSibling(combine, Data(), q.log2RootSize, q.log2TargetSize, s);
      }
      hide Climb, Sibling;
      SameSiblings(q.Data(), sliced);
    }
  }
}

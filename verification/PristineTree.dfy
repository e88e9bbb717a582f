/** misc/pristine-merkle-tree.cpp: the hashes of all-zero subtrees of every size. */
module PristineTree {
  import opened Amounts
  import opened Shifts
  import opened MerkleSpec

  /** The hash function as it is used: over the bytes of a word, and over two concatenated hashes. */
  datatype Hasher<!H> = Hasher(word: seq<byte> -> H, combine: (H, H) -> H)

  datatype Lookup<+T> = Found(value: T) | OutOfRange

  /** Hash of 2^size zero bytes as a tree of words of size `word`. */
  function ZeroHash<H>(hasher: Hasher<H>, word: nat, size: nat): H
    requires word <= size
  {
    Pristine(hasher.combine, hasher.word(Zeros(Pow2(word))), size - word)
  }

  class PristineMerkleTree<H> {
    const log2Root: int
    const log2Word: int
    const hashes: seq<H>
    ghost const hasher: Hasher<H>

    ghost predicate Valid() {
      0 <= log2Word <= log2Root && |hashes| == log2Root - log2Word + 1 &&
      forall k :: log2Word <= k <= log2Root ==> hashes[k - log2Word] == ZeroHash(hasher, log2Word, k)
    }

    /** Fills the table; Build makes the checks that come with it. */
    constructor (root: int, word: int, hasher: Hasher<H>, blank: H)
      requires 0 <= word <= root
      ensures Valid() && log2Root == root && log2Word == word && this.hasher == hasher
    {
      var hs := seq(root - word + 1, _ => blank);
      hs := hs[0 := hasher.word(Zeros(Pow2(word)))];
      var i := 1;
      while i < |hs|
        invariant 1 <= i <= |hs| == root - word + 1
        invariant forall j :: 0 <= j < i ==> hs[j] == ZeroHash(hasher, word, word + j)
      {
        hs := hs[i := hasher.combine(hs[i - 1], hs[i - 1])];
        i := i + 1;
      }
      log2Root, log2Word, hashes, this.hasher := root, word, hs, hasher;
    }

    /** The constructor with its size checks; null stands for the range errors. */
    static method Build(root: int, word: int, hasher: Hasher<H>, blank: H) returns (t: PristineMerkleTree?<H>)
      ensures t == null <==> !(0 <= word <= root)
      ensures t != null ==> t.Valid() && t.log2Root == root && t.log2Word == word && t.hasher == hasher
    {
      if root < 0 || word < 0 || word > root {
        return null;
      }
      t := new PristineMerkleTree<H>(root, word, hasher, blank);
    }

    /** get_hash: the pristine hash of the given size, or the range error. */
    method GetHash(size: int) returns (r: Lookup<H>)
      requires Valid()
      ensures r == if log2Word <= size <= log2Root then Found(ZeroHash(hasher, log2Word, size)) else OutOfRange
    {
      if size < log2Word || size > log2Root {
        return OutOfRange;
      }
      return Found(hashes[size - log2Word]);
    }
  }
}

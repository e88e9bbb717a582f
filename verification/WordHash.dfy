/** misc/i-hasher.h: the recursive Merkle hash of a byte buffer, and its agreement with trees of word hashes. */
module WordHash {
  import opened Amounts
  import opened Shifts
  import opened MerkleSpec
  import opened PristineTree

  /** get_merkle_tree_hash; OutOfRange stands for its two size errors. */
  function MerkleTreeHash<H>(hasher: Hasher<H>, data: seq<byte>, leafLength: nat): Lookup<H>
    decreases |data|
  {
    if |data| > leafLength then
      if |data| % 2 == 1 then OutOfRange
      else
        var half := |data| / 2;
        var left := MerkleTreeHash(hasher, data[..half], leafLength);
        var right := MerkleTreeHash(hasher, data[half..], leafLength);
        if left.Found? && right.Found? then Found(hasher.combine(left.value, right.value)) else OutOfRange
    else if |data| != leafLength then OutOfRange
    else Found(hasher.word(data))
  }

  /** The order of the halves: the hash of two words combines the left word's hash with the right one's. */
  lemma TwoWords<H>(hasher: Hasher<H>, a: seq<byte>, b: seq<byte>)
    requires |a| == |b| > 0
    ensures MerkleTreeHash(hasher, a + b, |a|) == Found(hasher.combine(hasher.word(a), hasher.word(b)))
  {
    var d := a + b;
    assert |d| / 2 == |a| && d[..|a|] == a && d[|a|..] == b;
  }

  /** leaf_hashes: the hashes of the consecutive words of a buffer. */
  function WordHashes<H>(hasher: Hasher<H>, data: seq<byte>, word: nat): seq<H>
    requires word > 0
  {
    if |data| < word then [] else [hasher.word(data[..word])] + WordHashes(hasher, data[word..], word)
  }

  /** n bytes are a whole number of words. */
  predicate Whole(n: nat, word: nat)
    requires word > 0
  {
    n == 0 || (n >= word && Whole(n - word, word))
  }

  lemma {:induction false} WholeSplits(a: nat, b: nat, word: nat)
    requires word > 0 && Whole(a, word)
    ensures Whole(a + b, word) <==> Whole(b, word)
  {
    if a > 0 {
      WholeSplits(a - word, b, word);
    }
  }

  lemma {:induction false} WholeShl(word: nat, m: nat)
    requires word > 0
    ensures Whole(Shl(word, m), word)
  {
    if m > 0 {
      WholeShl(word, m - 1);
      ShlStep(word, m - 1);
      WholeSplits(Shl(word, m - 1), Shl(word, m - 1), word);
    }
  }

  lemma {:induction false} WordHashesConcat<H>(hasher: Hasher<H>, a: seq<byte>, b: seq<byte>, word: nat)
    requires word > 0 && Whole(|a|, word)
    ensures WordHashes(hasher, a + b, word) == WordHashes(hasher, a, word) + WordHashes(hasher, b, word)
  {
    if a == [] {
      assert a + b == b;
    } else {
      assert (a + b)[..word] == a[..word] && (a + b)[word..] == a[word..] + b;
      WordHashesConcat(hasher, a[word..], b, word);
    }
  }

  lemma {:induction false} WordCount<H>(hasher: Hasher<H>, data: seq<byte>, word: nat, m: nat)
    requires word > 0 && |data| == Shl(word, m)
    ensures |WordHashes(hasher, data, word)| == Pow2(m)
  {
    if m == 0 {
      assert WordHashes(hasher, data[word..], word) == [];
    } else {
      ShlStep(word, m - 1);
      WholeShl(word, m - 1);
      var h := Shl(word, m - 1);
      assert data == data[..h] + data[h..];
      WordHashesConcat(hasher, data[..h], data[h..], word);
      WordCount(hasher, data[..h], word, m - 1);
      WordCount(hasher, data[h..], word, m - 1);
    }
  }

  lemma {:induction false} ShlGrows(a: nat, m: nat)
    ensures Shl(a, m) >= a
  {
    if m > 0 {
      ShlGrows(a, m - 1);
      ShlStep(a, m - 1);
    }
  }

  lemma TreeHashHalves<H>(hasher: Hasher<H>, data: seq<byte>, word: nat)
    requires |data| > word && |data| % 2 == 0
    ensures var half := |data| / 2;
            var a, b := MerkleTreeHash(hasher, data[..half], word), MerkleTreeHash(hasher, data[half..], word);
            MerkleTreeHash(hasher, data, word) ==
              (if a.Found? && b.Found? then Found(hasher.combine(a.value, b.value)) else OutOfRange)
  {
  }

  /** A tree whose left half is full: its two top children are the roots of the two leaf runs. */
  lemma SplitNode<H>(l: Tree<H>, r: Tree<H>, j: nat)
    requires l.combine == r.combine && l.pad == r.pad && |l.leaves| == Pow2(j)
    ensures Node(l.(leaves := l.leaves + r.leaves), j, 0) == Node(l, j, 0)
    ensures Node(l.(leaves := l.leaves + r.leaves), j, 1) == Node(r, j, 0)
  {
    ShlZero(j);
    ShlOne(j);
    NodeLocal(l.(leaves := l.leaves + r.leaves), l, j, 0, 0);
    NodeLocal(l.(leaves := l.leaves + r.leaves), r, j, 1, 0);
  }

  /** The root over the words of two buffers of 2^m words each. */
  lemma JoinedRoot<H>(hasher: Hasher<H>, l: seq<byte>, r: seq<byte>, word: nat, m: nat, pad: H)
    requires word > 0 && |l| == |r| == Shl(word, m)
    ensures Node(Tree(hasher.combine, pad, WordHashes(hasher, l + r, word)), m + 1, 0) ==
            hasher.combine(Node(Tree(hasher.combine, pad, WordHashes(hasher, l, word)), m, 0),
                           Node(Tree(hasher.combine, pad, WordHashes(hasher, r, word)), m, 0))
  {
    hide WordHashes, Shl, Whole, Pow2;
    WholeShl(word, m);
    WordHashesConcat(hasher, l, r, word);
    WordCount(hasher, l, word, m);
    SplitNode(Tree(hasher.combine, pad, WordHashes(hasher, l, word)),
              Tree(hasher.combine, pad, WordHashes(hasher, r, word)), m);
  }

  /** The recursive hash of 2^m words is the root of height m over the hashes of those words. */
  lemma {:induction false} TreeHashIsRoot<H>(hasher: Hasher<H>, data: seq<byte>, word: nat, m: nat, pad: H)
    requires word > 0 && |data| == Shl(word, m)
    ensures MerkleTreeHash(hasher, data, word)
            == Found(Node(Tree(hasher.combine, pad, WordHashes(hasher, data, word)), m, 0))
  {
    if m == 0 {
      assert data[..word] == data;
    } else {
      var h := Shl(word, m - 1);
      ShlStep(word, m - 1);
      ShlGrows(word, m - 1);
      var l, r := data[..h], data[h..];
      assert data == l + r && |data| / 2 == h;
      TreeHashHalves(hasher, data, word);
      hide MerkleTreeHash, WordHashes, Shl, Node;
      TreeHashIsRoot(hasher, l, word, m - 1, pad);
      TreeHashIsRoot(hasher, r, word, m - 1, pad);
      JoinedRoot(hasher, l, r, word, m - 1, pad);
    }
  }

  /** The recursive hash is defined exactly on buffers of a power-of-two number of leaves. */
  lemma {:induction false} TreeHashDefined<H>(hasher: Hasher<H>, data: seq<byte>, word: nat)
    ensures MerkleTreeHash(hasher, data, word).Found? <==> exists m: nat :: |data| == Shl(word, m)
    decreases |data|
  {
    if m: nat :| |data| == Shl(word, m) {
      if word == 0 {
        ShlZero(m);
      } else {
        TreeHashIsRoot(hasher, data, word, m, hasher.word(data));
      }
    }
    if MerkleTreeHash(hasher, data, word).Found? {
      if |data| > word {
        var half := |data| / 2;
        TreeHashDefined(hasher, data[..half], word);
        var m: nat :| half == Shl(word, m);
        ShlStep(word, m);
        assert |data| == Shl(word, m + 1);
      } else {
        assert |data| == Shl(word, 0);
      }
    }
  }

  lemma {:induction false} ZeroWordHashes<H>(hasher: Hasher<H>, n: nat, word: nat) returns (k: nat)
    requires word > 0 && Whole(n, word)
    ensures WordHashes(hasher, Zeros(n), word) == seq(k, _ => hasher.word(Zeros(word)))
  {
    if n == 0 {
      k := 0;
    } else {
      assert Zeros(n)[..word] == Zeros(word) && Zeros(n)[word..] == Zeros(n - word);
      k := ZeroWordHashes(hasher, n - word, word);
      k := k + 1;
    }
  }

  /** A tree over the words of a buffer has the recursive hash of the zero-padded buffer as its root. */
  lemma PaddedRoot<H>(hasher: Hasher<H>, data: seq<byte>, word: nat, m: nat)
    requires word > 0 && Whole(|data|, word) && |data| <= Shl(word, m)
    ensures MerkleTreeHash(hasher, data + Zeros(Shl(word, m) - |data|), word)
            == Found(Node(Tree(hasher.combine, hasher.word(Zeros(word)), WordHashes(hasher, data, word)), m, 0))
  {
    hide MerkleTreeHash, Node, WordHashes, Shl, Whole;
    var pad, fill := hasher.word(Zeros(word)), Zeros(Shl(word, m) - |data|);
    WholeShl(word, m);
    WholeSplits(|data|, |fill|, word);
    TreeHashIsRoot(hasher, data + fill, word, m, pad);
    WordHashesConcat(hasher, data, fill, word);
    var k := ZeroWordHashes(hasher, |fill|, word);
    PadLeavesAreInvisible(Tree(hasher.combine, pad, WordHashes(hasher, data, word)), k, m, 0);
  }

  lemma PristineWord<H>(hasher: Hasher<H>, word: nat)
    ensures ZeroHash(hasher, word, word) == hasher.word(Zeros(Pow2(word)))
  {
  }

  /** What a complete tree built with leaf size = word size from a buffer's word hashes has as its root. */
  lemma WordTreeRoot<H>(hasher: Hasher<H>, data: seq<byte>, word: nat, root: nat)
    requires word <= root && Whole(|data|, Pow2(word)) && |data| <= Pow2(root)
    ensures MerkleTreeHash(hasher, data + Zeros(Pow2(root) - |data|), Pow2(word))
            == Found(Node(Tree(hasher.combine, ZeroHash(hasher, word, word), WordHashes(hasher, data, Pow2(word))),
                          root - word, 0))
  {
    hide MerkleTreeHash, Node, WordHashes, Shl, Pow2, Whole;
    ShlOne(word);
    ShlOne(root);
    ShlShl(1, word, root - word);
    PristineWord(hasher, word);
    PaddedRoot(hasher, data, Pow2(word), root - word);
  }

  /** The pristine hash of size k is the recursive hash of 2^k zero bytes. */
  lemma PristineIsZeroHash<H>(hasher: Hasher<H>, word: nat, k: nat)
    requires word <= k
    ensures MerkleTreeHash(hasher, Zeros(Pow2(k)), Pow2(word)) == Found(ZeroHash(hasher, word, k))
  {
    ShlOne(word);
    ShlOne(k);
    ShlShl(1, word, k - word);
    CountOfNone(k - word);
    PristineNode(Tree(hasher.combine, hasher.word(Zeros(Pow2(word))), []), k - word, 0);
    assert WordHashes(hasher, [], Pow2(word)) == [];
    hide MerkleTreeHash, WordHashes, Node, Shl, Pow2;
    PaddedRoot(hasher, [], Pow2(word), k - word);
    assert [] + Zeros(Pow2(k)) == Zeros(Pow2(k));
  }

  lemma {:induction false} CountOfNone(j: nat)
    ensures Count(0, j) == 0
  {
    if j > 0 {
      CountOfNone(j - 1);
    }
  }

  lemma {:induction false} WordsUpTo<H>(hasher: Hasher<H>, data: seq<byte>, word: nat, n: nat)
    requires |data| == Shl(n, word)
    ensures Whole(|data|, Pow2(word)) && |WordHashes(hasher, data, Pow2(word))| == n
  {
    var w := Pow2(word);
    if n == 0 {
      ShlZero(word);
    } else {
      ShlAdd(n - 1, 1, word);
      ShlOne(word);
      WordsUpTo(hasher, data[w..], word, n - 1);
    }
  }

  /** Any aligned window of the buffer: the tree node above it is the recursive hash of its bytes. */
  lemma WindowHash<H>(hasher: Hasher<H>, a: seq<byte>, b: seq<byte>, c: seq<byte>, word: nat, k: nat, i: nat)
    requires word <= k && |a| == Shl(i, k) && |b| == Pow2(k)
    ensures MerkleTreeHash(hasher, b, Pow2(word))
            == Found(Node(Tree(hasher.combine, ZeroHash(hasher, word, word), WordHashes(hasher, a + b + c, Pow2(word))),
                          k - word, i))
  {
    hide MerkleTreeHash, WordHashes, Shl, Pow2, Whole, Node, ZeroHash;
    var w, j, pad := Pow2(word), k - word, ZeroHash(hasher, word, word);
    ShlShl(i, j, word);
    ShlShl(1, j, word);
    ShlShl(1, word, j);
    ShlOne(j);
    ShlOne(k);
    ShlOne(word);
    WordsUpTo(hasher, a, word, Shl(i, j));
    WordsUpTo(hasher, b, word, Pow2(j));
    assert a + b + c == a + (b + c);
    WordHashesConcat(hasher, a, b + c, w);
    WordHashesConcat(hasher, b, c, w);
    TreeHashIsRoot(hasher, b, w, j, pad);
    ShlZero(j);
    NodeLocal(Tree(hasher.combine, pad, WordHashes(hasher, a + b + c, w)),
              Tree(hasher.combine, pad, WordHashes(hasher, b, w)), j, i, 0);
  }
}

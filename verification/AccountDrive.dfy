/** From ledger to proof: the balance records as bytes, the tree tools/account-driver-reader.cpp builds over them, and
    what a proof of one record means. */
module AccountDrive {
  import opened Amounts
  import opened Shifts
  import opened MerkleSpec
  import opened ProofSpec
  import opened PristineTree
  import opened HashTreeProofs
  import opened CompleteTree
  import opened WordHash
  import opened LedgerTypes
  import opened LedgerSpec
  import opened DenseStore

  // ---------- records as bytes ----------

  /** A 32-bit field as it lies in memory, least significant byte first. */
  function LittleEndian(v: nat, n: nat): (s: seq<byte>)
    ensures |s| == n
  {
    if n == 0 then [] else [v % 256] + LittleEndian(v / 256, n - 1)
  }

  lemma {:induction false} LittleEndianInjective(v: nat, w: nat, n: nat)
    requires v < Pow256(n) && w < Pow256(n)
    ensures LittleEndian(v, n) == LittleEndian(w, n) <==> v == w
  {
    if n > 0 {
      var s, t := LittleEndian(v, n), LittleEndian(w, n);
      assert s[0] == v % 256 && s[1..] == LittleEndian(v / 256, n - 1);
      assert t[0] == w % 256 && t[1..] == LittleEndian(w / 256, n - 1);
      LittleEndianInjective(v / 256, w / 256, n - 1);
    }
  }

  const RECORD: nat := 128
  const LOG2_RECORD: nat := 7
  const LOG2_WORD: nat := 5
  const WORD: nat := 32
  const ADDRESS_SPACE: nat := 0x1_0000_0000_0000_0000

  /** cma_ledger_account_balance in memory. */
  function Record(s: Slot): (r: seq<byte>)
    ensures |r| == RECORD
  {
    LittleEndian(s.kind, 4) + Bytes(s.owner, 20) + Bytes(s.token, 20) + Bytes(s.tokenId, 32) + Bytes(s.amount, 32) +
    Bytes(s.padding, 20)
  }

  /** The record of bytes r splits into its six fields. */
  lemma RecordFields(s: Slot)
    ensures var r := Record(s);
            r[..4] == LittleEndian(s.kind, 4) && r[4..24] == Bytes(s.owner, 20) && r[24..44] == Bytes(s.token, 20) &&
            r[44..76] == Bytes(s.tokenId, 32) && r[76..108] == Bytes(s.amount, 32) &&
            r[108..128] == Bytes(s.padding, 20)
  {
    hide LittleEndian, Bytes;
  }

  /** Equal bytes are equal records. */
  lemma RecordInjective(s: Slot, t: Slot)
    requires s.kind < Pow256(4) && t.kind < Pow256(4)
    ensures Record(s) == Record(t) <==> s == t
  {
    RecordFields(s);
    RecordFields(t);
    LimitsAreWidths();
    LittleEndianInjective(s.kind, t.kind, 4);
    BytesInjective(s.owner, t.owner, 20);
    BytesInjective(s.token, t.token, 20);
    BytesInjective(s.tokenId, t.tokenId, 32);
    BytesInjective(s.amount, t.amount, 32);
    BytesInjective(s.padding, t.padding, 20);
    hide Record, LittleEndian, Bytes, Pow256;
  }

  lemma {:induction false} ZeroBytes(n: nat)
    ensures Bytes(0, n) == Zeros(n) && LittleEndian(0, n) == Zeros(n)
  {
    if n > 0 {
      ZeroBytes(n - 1);
    }
  }

  lemma ZeroRecord()
    ensures Record(ZERO_SLOT) == Zeros(RECORD)
  {
    ZeroBytes(4);
    ZeroBytes(20);
    ZeroBytes(32);
    hide LittleEndian, Bytes;
  }

  /** The balance region in memory: the records one behind the other. */
  function Image(slots: seq<Slot>): (m: seq<byte>)
    ensures |m| == RECORD * |slots|
  {
    if slots == [] then [] else Record(slots[0]) + Image(slots[1..])
  }

  lemma {:induction false} ImageConcat(a: seq<Slot>, b: seq<Slot>)
    ensures Image(a + b) == Image(a) + Image(b)
  {
    if a == [] {
      assert a + b == b;
    } else {
      assert (a + b)[1..] == a[1..] + b;
      ImageConcat(a[1..], b);
      hide Record;
    }
  }

  lemma {:induction false} ZeroImage(slots: seq<Slot>)
    requires forall i :: 0 <= i < |slots| ==> slots[i] == ZERO_SLOT
    ensures Image(slots) == Zeros(RECORD * |slots|)
  {
    if slots != [] {
      ZeroImage(slots[1..]);
      ZeroRecord();
      hide Record;
      assert Zeros(RECORD * |slots|) == Zeros(RECORD) + Zeros(RECORD * |slots[1..]|);
    }
  }

  lemma ImageHead(slots: seq<Slot>)
    requires slots != []
    ensures Image(slots) == Record(slots[0]) + Image(slots[1..])
  {
    hide Record;
  }

  lemma Regroup(a: seq<byte>, b: seq<byte>, c: seq<byte>)
    ensures a + (b + c) == a + b + c
  {
  }

  lemma ImageAround(slots: seq<Slot>, i: nat)
    requires i < |slots|
    ensures Image(slots) == Image(slots[..i]) + Record(slots[i]) + Image(slots[i + 1..])
  {
    hide Record, Image;
    var used, rest := slots[..i], slots[i..];
    assert slots == used + rest && rest[1..] == slots[i + 1..];
    ImageConcat(used, rest);
    ImageHead(rest);
    Regroup(Image(used), Record(slots[i]), Image(slots[i + 1..]));
  }

  // ---------- sizes ----------

  lemma RecordShift(i: nat)
    ensures Shl(i, LOG2_RECORD) == RECORD * i && Pow2(LOG2_RECORD) == RECORD && Pow2(LOG2_WORD) == WORD
  {
    ShlIsMultiplication(i, LOG2_RECORD);
    assert Pow2(LOG2_RECORD) == 4 * Pow2(LOG2_WORD) && Pow2(5) == 4 * Pow2(3) && Pow2(3) == 8;
  }

  /** std::bit_width */
  function BitWidth(x: nat): nat {
    if x == 0 then 0 else 1 + BitWidth(x / 2)
  }

  /** The size of the smallest tree over n records that has a power of two of them. */
  function DriveSize(n: nat): nat {
    (if n < 1 then 0 else BitWidth(n - 1)) + LOG2_RECORD
  }

  lemma {:induction false} BitWidthExact(x: nat, w: nat)
    ensures BitWidth(x) <= w <==> x < Pow2(w)
  {
    if x > 0 && w > 0 {
      BitWidthExact(x / 2, w - 1);
    }
  }

  /** The size is the smallest, from the size of one record up, that has room for n records. */
  lemma DriveSmallest(n: nat, w: nat)
    requires w >= LOG2_RECORD
    ensures RECORD * n <= Pow2(w) <==> DriveSize(n) <= w
  {
    var v: nat := w - LOG2_RECORD;
    if n >= 1 {
      BitWidthExact(n - 1, v);
    }
    assert n <= Pow2(v) <==> DriveSize(n) <= w;
    hide Pow2, Shl, BitWidth, DriveSize;
    ShlOne(v);
    ShlOne(w);
    ShlShl(1, v, LOG2_RECORD);
    RecordShift(Pow2(v));
  }

  lemma DriveFits(n: nat)
    ensures RECORD * n <= Pow2(DriveSize(n))
  {
    DriveSmallest(n, DriveSize(n));
  }

  // ---------- the tree over the drive ----------

  function DriveTree<H>(hasher: Hasher<H>, slots: seq<Slot>): Tree<H> {
    Tree(hasher.combine, ZeroHash(hasher, LOG2_WORD, LOG2_WORD), WordHashes(hasher, Image(slots), WORD))
  }

  /** size_t arithmetic: the address of a record, modulo 2^64. */
  function AddressOf(index: nat): nat {
    index * RECORD % ADDRESS_SPACE
  }

  /** The proof of a record by its index, as the drive reader issues it. The reader does not check the index: `kind` is
      the type field it finds there, which inside the balance region is the record's own. Null for an unused record, a
      drive too large for a tree, or an address outside the tree. */
  method ProveRecord<H(==)>(hasher: Hasher<H>, blank: H, slots: seq<Slot>, index: nat, kind: nat)
    returns (p: HashTreeProof?<H>)
    requires index < |slots| ==> kind == slots[index].kind
    ensures p == null <==>
            kind == 0 || DriveSize(|slots|) >= 64 ||
            index * 128 % 0x1_0000_0000_0000_0000 >= Pow2(DriveSize(|slots|))
    ensures p != null ==>
              p.Valid() &&
              p.Data() ==
                Issued(DriveTree(hasher, slots), LOG2_WORD, DriveSize(|slots|), AddressOf(index), LOG2_RECORD)
    ensures index < |slots| && DriveSize(|slots|) < 64 ==>
              AddressOf(index) == RECORD * index && (p == null <==> slots[index].kind == 0)
  {
    hide Pow2, Shr, Shl, Align, AddressOf, Issued, DriveTree;
    DriveTreeIs(hasher, slots);
    AddressAligned(index);
    if index < |slots| && DriveSize(|slots|) < 64 {
      AddressExact(|slots|, index);
    }
    if kind == 0 {
      return null;
    }
    var log2Root := (if |slots| < 1 then 0 else BitWidth(|slots| - 1)) + LOG2_RECORD;
    var mt := CompleteMerkleTree.Build(log2Root, LOG2_WORD, LOG2_WORD, hasher, blank,
                                       WordHashes(hasher, Image(slots), WORD));
    if mt == null {
      return null;
    }
    p := mt.GetProof(AddressOf(index), LOG2_RECORD);
  }

  lemma DriveTreeIs<H>(hasher: Hasher<H>, slots: seq<Slot>)
    ensures DriveTree(hasher, slots) ==
            Tree(hasher.combine, ZeroHash(hasher, LOG2_WORD, LOG2_WORD), WordHashes(hasher, Image(slots), WORD))
  {
  }

  /** The wrapped address is a multiple of the record size. */
  lemma AddressAligned(index: nat)
    ensures AddressOf(index) == index * 128 % 0x1_0000_0000_0000_0000 && AddressOf(index) % Pow2(LOG2_RECORD) == 0
  {
    RecordShift(0);
    assert AddressOf(index) == 128 * (index % 0x200_0000_0000_0000);
  }

  /** Inside a drive that fits a tree no address wraps. */
  lemma AddressExact(n: nat, i: nat)
    requires i < n && DriveSize(n) < 64
    ensures AddressOf(i) == RECORD * i < Pow2(DriveSize(n))
  {
    hide Pow2, DriveSize, Shr;
    DriveFits(n);
    AddressInDrive(n, i);
    PowGrows(DriveSize(n), 63);
    AddressSpace();
  }

  lemma AddressSpace()
    ensures Pow2(63) < ADDRESS_SPACE
  {
    assert Pow2(8) == 256;
    Squared(8);
    Squared(16);
    Squared(32);
  }

  lemma Squared(k: nat)
    ensures Pow2(2 * k) == Pow2(k) * Pow2(k)
  {
    hide Pow2, Shl;
    ShlOne(k);
    ShlOne(2 * k);
    ShlShl(1, k, k);
    ShlIsMultiplication(Pow2(k), k);
  }

  lemma {:induction false} PowGrows(j: nat, k: nat)
    requires j <= k
    ensures Pow2(j) <= Pow2(k)
  {
    if j < k {
      PowGrows(j, k - 1);
    }
  }

  lemma AddressInDrive(n: nat, i: nat)
    requires i < n
    ensures Shr(RECORD * i, DriveSize(n)) == 0
    ensures Shr(RECORD * i, LOG2_RECORD) == i && Align(RECORD * i, LOG2_RECORD) == RECORD * i
  {
    DriveFits(n);
    ShrVanishes(RECORD * i, DriveSize(n));
    RecordShift(i);
    ShrShl(i, LOG2_RECORD, LOG2_RECORD);
  }

  /** The node above record i is the recursive hash of the record's bytes. */
  lemma RecordNode<H>(hasher: Hasher<H>, slots: seq<Slot>, i: nat)
    requires i < |slots|
    ensures MerkleTreeHash(hasher, Record(slots[i]), WORD)
            == Found(NodeAt(DriveTree(hasher, slots), LOG2_WORD, RECORD * i, LOG2_RECORD))
  {
    AddressInDrive(|slots|, i);
    RecordShift(i);
    ImageAround(slots, i);
    hide Record, Image;
    WindowHash(hasher, Image(slots[..i]), Record(slots[i]), Image(slots[i + 1..]), LOG2_WORD, LOG2_RECORD, i);
  }

  /** What an issued proof of a record says: it verifies, its target is the recursive hash of the record's 128 bytes,
      and its root is the recursive hash of the whole balance region, padded with zeros to a power of two. */
  lemma IssuedRecordProof<H>(hasher: Hasher<H>, slots: seq<Slot>, i: nat)
    requires i < |slots|
    ensures var p := Issued(DriveTree(hasher, slots), LOG2_WORD, DriveSize(|slots|), RECORD * i, LOG2_RECORD);
            Verifies(hasher.combine, p) &&
            MerkleTreeHash(hasher, Record(slots[i]), WORD) == Found(p.target) &&
            RECORD * |slots| <= Pow2(DriveSize(|slots|)) &&
            MerkleTreeHash(hasher, Image(slots) + Zeros(Pow2(DriveSize(|slots|)) - RECORD * |slots|), WORD)
            == Found(p.root)
  {
    var root := DriveSize(|slots|);
    IssuedVerifies(DriveTree(hasher, slots), LOG2_WORD, root, RECORD * i, LOG2_RECORD);
    RecordNode(hasher, slots, i);
    AddressInDrive(|slots|, i);
    DriveFits(|slots|);
    ImageIsWhole(slots);
    RecordShift(|slots|);
    hide Record, Image;
    WordTreeRoot(hasher, Image(slots), LOG2_WORD, root);
  }

  lemma ImageIsWhole(slots: seq<Slot>)
    ensures Whole(|Image(slots)|, WORD)
  {
    RecordShift(|slots|);
    ShlShl(|slots|, 2, 5);
    ShlIsMultiplication(Shl(|slots|, 2), 5);
    WholeMultiple(Shl(|slots|, 2), WORD);
  }

  lemma {:induction false} WholeMultiple(n: nat, word: nat)
    requires word > 0
    ensures Whole(n * word, word)
  {
    if n > 0 {
      WholeMultiple(n - 1, word);
      assert n * word - word == (n - 1) * word;
    }
  }

  /** The unused tail of the balance region cannot be seen: hashing only the occupied records gives the same nodes. */
  lemma OccupiedPrefixSuffices<H>(hasher: Hasher<H>, s: Store, r: Registry, max: nat, j: nat, i: nat)
    requires StoreOk(s, r, max)
    ensures Node(DriveTree(hasher, s.slots), j, i) == Node(DriveTree(hasher, s.slots[..|s.keys|]), j, i)
  {
    var used, free := s.slots[..|s.keys|], s.slots[|s.keys|..];
    assert s.slots == used + free;
    ImageConcat(used, free);
    ZeroImage(free);
    ImageIsWhole(used);
    ImageIsWhole(free);
    WordHashesConcat(hasher, Image(used), Image(free), WORD);
    RecordShift(0);
    var k := ZeroWordHashes(hasher, |Image(free)|, WORD);
    hide StoreOk, Image, WordHashes;
    PadLeavesAreInvisible(DriveTree(hasher, used), k, j, i);
  }

  // ---------- what a proof proves ----------

  ghost predicate WordInjective<H(!new)>(hasher: Hasher<H>) {
    forall a, b :: |a| == |b| && hasher.word(a) == hasher.word(b) ==> a == b
  }

  /** The hash that keeps everything: digests are the words and pairs they were made from. */
  datatype Digest = OfWord(word: seq<byte>) | OfPair(left: Digest, right: Digest)

  const FREE_HASHER: Hasher<Digest> := Hasher(w => OfWord(w), (l, r) => OfPair(l, r))

  /** Injective hashes exist, so the statements below are about something. */
  lemma FreeHasherIsInjective()
    ensures Injective(FREE_HASHER.combine) && WordInjective(FREE_HASHER)
  {
    assert forall a, b :: FREE_HASHER.combine(a, b) == OfPair(a, b);
  }

  /** Under injective hashes, buffers of one size with the same recursive hash are the same bytes. */
  lemma {:induction false} TreeHashInjective<H(!new)>(hasher: Hasher<H>, d: seq<byte>, e: seq<byte>, word: nat)
    requires Injective(hasher.combine) && WordInjective(hasher) && |d| == |e|
    requires MerkleTreeHash(hasher, d, word) == MerkleTreeHash(hasher, e, word)
    requires MerkleTreeHash(hasher, d, word).Found?
    ensures d == e
    decreases |d|
  {
    if |d| > word {
      var half := |d| / 2;
      var a, b := MerkleTreeHash(hasher, d[..half], word), MerkleTreeHash(hasher, d[half..], word);
      var f, g := MerkleTreeHash(hasher, e[..half], word), MerkleTreeHash(hasher, e[half..], word);
      assert hasher.combine(a.value, b.value) == hasher.combine(f.value, g.value);
      hide MerkleTreeHash;
      TreeHashInjective(hasher, d[..half], e[..half], word);
      TreeHashInjective(hasher, d[half..], e[half..], word);
      assert d == d[..half] + d[half..] && e == e[..half] + e[half..];
    }
  }

  /** Bytes anybody presents with a verifying proof against the root of the drive are the record stored there. */
  lemma PresentedRecord<H(!new)>(hasher: Hasher<H>, slots: seq<Slot>, p: Proof<H>, i: nat, d: seq<byte>)
    requires Injective(hasher.combine) && WordInjective(hasher) && i < |slots| && |d| == RECORD
    requires WellSized(p) && p.log2Root == DriveSize(|slots|) && p.log2Target == LOG2_RECORD && p.address == RECORD * i
    requires p.root == Node(DriveTree(hasher, slots), p.log2Root - LOG2_WORD, 0)
    requires MerkleTreeHash(hasher, d, WORD) == Found(p.target)
    ensures Verifies(hasher.combine, p) ==> d == Record(slots[i])
  {
    AddressInDrive(|slots|, i);
    if Verifies(hasher.combine, p) {
      VerifiedBindsTarget(DriveTree(hasher, slots), LOG2_WORD, p);
      RecordNode(hasher, slots, i);
      hide DriveTree, Record;
      TreeHashInjective(hasher, d, Record(slots[i]), WORD);
    }
  }

  lemma FieldValue(v: nat, n: nat)
    requires v < Pow256(n)
    ensures Value(Bytes(v, n)) == v
  {
    BytesRoundTrip(v, n);
    ModUnique(v, Pow256(n), 0, v);
  }

  /** Each field can be read off the bytes of a record. */
  lemma RecordValues(slot: Slot)
    requires slot.kind < 256
    ensures var d := Record(slot);
            d[..4] == [slot.kind, 0, 0, 0] && Value(d[4..24]) == slot.owner && Value(d[24..44]) == slot.token &&
            Value(d[44..76]) == slot.tokenId && Value(d[76..108]) == slot.amount && Value(d[108..128]) == slot.padding
  {
    KindBytes(slot.kind);
    hide Record, Value, Bytes, LittleEndian, Pow256;
    RecordFields(slot);
    LimitsAreWidths();
    FieldValue(slot.owner, 20);
    FieldValue(slot.token, 20);
    FieldValue(slot.tokenId, 32);
    FieldValue(slot.amount, 32);
    FieldValue(slot.padding, 20);
  }

  lemma KindBytes(v: nat)
    requires v < 256
    ensures LittleEndian(v, 4) == [v, 0, 0, 0]
  {
    assert LittleEndian(v / 256, 3) == LittleEndian(0, 3);
    ZeroBytes(3);
  }

  lemma UsedRecord(slot: Slot)
    requires 1 <= slot.kind <= 4
    ensures Record(slot) != Zeros(RECORD)
  {
    RecordFields(slot);
    hide Record, Bytes;
    assert Record(slot)[..4][0] == slot.kind;
  }

  /** The bytes of a record tell whether it is in use. */
  lemma RecordReads(s: Store, r: Registry, max: nat, i: nat)
    requires StoreOk(s, r, max) && i < max
    ensures Record(s.slots[i]) == Zeros(RECORD) <==> i >= |s.keys|
  {
    hide Record, Value, Bytes, LittleEndian;
    ZeroRecord();
    DenseLayout(s, r, max, i, i);
    if i < |s.keys| {
      assert SlotDescribes(r, s.keys[i], s.slots[i]);
      UsedRecord(s.slots[i]);
    }
  }

  /** End to end: 128 bytes with a verifying proof against the root of a ledger's drive are zero exactly for an unused
      record, and otherwise are the record of one key of the ledger. They hold that key's balance, its account's address
      and no padding, and while its asset is live they hold the code of its type, its address and its token id. */
  lemma ProvenBalance<H(!new)>(hasher: Hasher<H>, s: Store, r: Registry, max: nat, p: Proof<H>, i: nat, d: seq<byte>)
    requires StoreOk(s, r, max) && i < max && |d| == RECORD
    requires Injective(hasher.combine) && WordInjective(hasher)
    requires WellSized(p) && p.log2Root == DriveSize(max) && p.log2Target == LOG2_RECORD && p.address == RECORD * i
    requires p.root == Node(DriveTree(hasher, s.slots), p.log2Root - LOG2_WORD, 0)
    requires MerkleTreeHash(hasher, d, WORD) == Found(p.target) && Verifies(hasher.combine, p)
    ensures d == Zeros(RECORD) <==> i >= |s.keys|
    ensures i < |s.keys| ==>
              var k := s.keys[i];
              k in s.refs && k.account in r.accounts && Value(d[76..108]) == Balances(s)[k] &&
              Value(d[4..24]) == r.accounts[k.account].id % ADDRESS_LIMIT && Value(d[108..128]) == 0
    ensures i < |s.keys| && s.keys[i].asset in r.assets ==>
              var a := r.assets[s.keys[i].asset];
              d[..4] == [if a.kind.Base? then 1 else if a.kind.TokenAddress? then 2
                         else if a.kind.TokenAddressId? then 3 else 4, 0, 0, 0] &&
              Value(d[24..44]) == a.address && Value(d[44..76]) == a.tokenId
  {
    assert |s.slots| == max;
    PresentedRecord(hasher, s.slots, p, i, d);
    hide DriveTree, Record, Verifies, Injective, WordInjective, Node, MerkleTreeHash, Value;
    RecordReads(s, r, max, i);
    if i < |s.keys| {
      assert SlotDescribes(r, s.keys[i], s.slots[i]);
      RecordValues(s.slots[i]);
    }
  }
}

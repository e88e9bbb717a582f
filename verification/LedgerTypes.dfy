/** The vocabulary of src/ledger_impl.h: assets, accounts, their byte keys, requests and replies. */
module LedgerTypes {
  import opened Amounts

  /** 2^256: one more than the largest 32-byte amount. */
  const AMOUNT_LIMIT: nat := 0x1_0000_0000_0000_0000_0000_0000_0000_0000_0000_0000_0000_0000_0000_0000_0000_0000
  type Amount = v: nat | v < AMOUNT_LIMIT

  /** 2^160: addresses are 20 bytes. Addresses and 32-byte words stand for their big-endian values. */
  const ADDRESS_LIMIT: nat := 0x1_0000_0000_0000_0000_0000_0000_0000_0000_0000_0000
  type Address = v: nat | v < ADDRESS_LIMIT
  type Word = v: nat | v < AMOUNT_LIMIT

  datatype AssetType = PlainAsset | Base | TokenAddress | TokenAddressId | TokenAddressIdAmount {
    /** Asset types found through the key table. */
    predicate Keyed() {
      TokenAddress? || TokenAddressId? || TokenAddressIdAmount?
    }

    /** The enumeration value stored in a balance record. */
    function Code(): byte {
      match this
      case PlainAsset => 0
      case Base => 1
      case TokenAddress => 2
      case TokenAddressId => 3
      case TokenAddressIdAmount => 4
    }
  }

  /** The parts of the 53 key bytes of an asset. */
  datatype AssetKey = AssetKey(typeByte: byte, address: Address, tokenId: Word) {
    function Packed(): seq<byte> {
      [typeByte] + Bytes(address, 20) + Bytes(tokenId, 32)
    }
  }

  datatype Asset = Asset(kind: AssetType, address: Address, tokenId: Word, supply: Amount) {
    /** The key-table key; both id types share the type byte of TOKEN_ADDRESS_ID. */
    function Key(): AssetKey {
      if kind.TokenAddress? then AssetKey(2, address, 0) else AssetKey(3, address, tokenId)
    }

    /** Fields an asset type does not use are zero. */
    predicate Tidy() {
      (kind.PlainAsset? || kind.Base? ==> address == 0 && tokenId == 0) &&
      (kind.TokenAddress? ==> tokenId == 0)
    }
  }

  datatype AccountType = PlainAccount | WalletAddress | AccountId

  /** `id` is the 32-byte union of the account id and (12 fixed bytes, address). */
  datatype Account = Account(kind: AccountType, id: Word) {
    function Wallet(): Address {
      id % ADDRESS_LIMIT
    }
  }

  /** The first 12 of a word's 32 bytes are zero. */
  predicate ZeroPrefix(id: Word) {
    id < ADDRESS_LIMIT
  }

  /** Key of a balance: (asset id, account id). */
  datatype Key = Key(asset: nat, account: nat)

  datatype Retrieval = Find | Create | FindOrCreate | FindAndRemove {
    predicate Finds() {
      !Create?
    }

    predicate Creates() {
      Create? || FindOrCreate?
    }
  }

  datatype AssetQuery =
    | AssetById(id: nat)
    | BaseAsset(id: nat)
    | Token(address: Address)
    | TokenWithId(address: Address, tokenId: Word)
    | TokenWithIdAmount(address: Address, tokenId: Word)
  {
    /** The record a creation stores. */
    function Fresh(): Asset {
      match this
      case AssetById(_) => Asset(PlainAsset, 0, 0, 0)
      case BaseAsset(_) => Asset(Base, 0, 0, 0)
      case Token(a) => Asset(TokenAddress, a, 0, 0)
      case TokenWithId(a, t) => Asset(TokenAddressId, a, t, 0)
      case TokenWithIdAmount(a, t) => Asset(TokenAddressIdAmount, a, t, 0)
    }
  }

  /** The ways to name an account; "Bytes" is the addr_accid argument, "Record" the account argument. */
  datatype AccountQuery =
    | AccountById(id: nat)
    | WalletBytes(address: Address)
    | AccountIdBytes(word: Word)
    | WalletRecord(word: Word)
    | AccountIdRecord(word: Word)
  {
    /** The key an account is stored under. Only the AccountIdBytes path turns a zero-prefixed id into a wallet. */
    function Fresh(): Account {
      match this
      case AccountById(_) => Account(PlainAccount, 0)
      case WalletBytes(a) => Account(WalletAddress, a)
      case AccountIdBytes(w) => Account(if ZeroPrefix(w) then WalletAddress else AccountId, w)
      case WalletRecord(w) => Account(WalletAddress, w % ADDRESS_LIMIT)
      case AccountIdRecord(w) => Account(AccountId, w)
    }
  }

  datatype Error =
    | Invalid
    | InsufficientFunds
    | AccountNotFound
    | AssetNotFound
    | BalanceNotFound
    | SupplyOverflow
    | BalanceOverflow
    | InsertionError
    | MaxAssetsReached
    | MaxAccountsReached
    | MaxBalancesReached
    | AssetHasSupply
    | AccountHasBalance
    | RemoveError

  /** What a key table lookup found. */
  datatype Hit = Miss | Hit(id: nat)

  datatype Reply =
    | Done
    | AssetIs(assetId: nat, asset: Asset)
    | AccountIs(accountId: nat, account: Account)
    | Fail(error: Error)

  /** The operations of the C interface. */
  datatype Op =
    | RetrieveAsset(assetQuery: AssetQuery, retrieval: Retrieval)
    | RetrieveAccount(accountQuery: AccountQuery, retrieval: Retrieval)
    | Deposit(asset: nat, to: nat, amount: Amount)
    | Withdraw(asset: nat, from: nat, amount: Amount)
    | Transfer(asset: nat, from: nat, to: nat, amount: Amount)
    | Clear

  /** The limits are the widths of the byte arithmetic. */
  lemma LimitsAreWidths()
    ensures AMOUNT_LIMIT == Pow256(32) && ADDRESS_LIMIT == Pow256(20)
  {
    assert Pow256(8) == 0x1_0000_0000_0000_0000;
    assert Pow256(16) == 0x1_0000_0000_0000_0000_0000_0000_0000_0000;
    assert Pow256(24) == 0x1_0000_0000_0000_0000_0000_0000_0000_0000_0000_0000_0000_0000;
  }

  lemma {:induction false} ValueConcat(s: seq<byte>, t: seq<byte>)
    ensures Value(s + t) == Weight(Value(s), |t|) + Value(t)
  {
    if t == [] {
      assert s + t == s;
    } else {
      var n := |t| - 1;
      assert (s + t)[..|s| + n] == s + t[..n];
      ValueConcat(s, t[..n]);
    }
  }

  lemma {:induction false} WeightOfSome(x: nat, n: nat)
    ensures if x == 0 then Weight(x, n) == 0 else Weight(x, n) >= Pow256(n)
  {
    if n > 0 {
      WeightOfSome(x, n - 1);
    }
  }

  /** On bytes: a word starts with 12 zero bytes exactly when its value is that of an address, its last 20 bytes. */
  lemma ZeroPrefixBytes(w: seq<byte>)
    requires |w| == 32
    ensures w[..12] == Zeros(12) <==> Value(w) < ADDRESS_LIMIT
    ensures w[..12] == Zeros(12) ==> Value(w) == Value(w[12..])
  {
    LimitsAreWidths();
    assert w == w[..12] + w[12..];
    ValueConcat(w[..12], w[12..]);
    ValueBound(w[12..]);
    WeightOfSome(Value(w[..12]), 20);
    IsZeroMeansZero(w[..12]);
  }

  lemma {:induction false} WeightIsProduct(x: nat, n: nat)
    ensures Weight(x, n) == x * Pow256(n)
  {
    if n > 0 {
      WeightIsProduct(x, n - 1);
      assert 256 * (x * Pow256(n - 1)) == x * (256 * Pow256(n - 1));
    }
  }

  /** The wallet address of an account is the last 20 of its 32 id bytes. */
  lemma WalletIsLastBytes(kind: AccountType, w: seq<byte>)
    requires |w| == 32 && Value(w) < AMOUNT_LIMIT
    ensures Account(kind, Value(w)).Wallet() == Value(w[12..])
  {
    hide Value, Pow256, Weight;
    LimitsAreWidths();
    assert w == w[..12] + w[12..];
    ValueConcat(w[..12], w[12..]);
    ValueBound(w[12..]);
    WeightIsProduct(Value(w[..12]), 20);
    ModUnique(Value(w), ADDRESS_LIMIT, Value(w[..12]), Value(w[12..]));
  }

  lemma BytesInjective(x: nat, y: nat, n: nat)
    requires x < Pow256(n) && y < Pow256(n)
    ensures Bytes(x, n) == Bytes(y, n) <==> x == y
  {
    BytesRoundTrip(x, n);
    BytesRoundTrip(y, n);
    ModUnique(x, Pow256(n), 0, x);
    ModUnique(y, Pow256(n), 0, y);
  }

  /** The 53 key bytes: the type byte, 20 address bytes, 32 id bytes. */
  lemma PackedLayout(k: AssetKey)
    ensures var p := k.Packed();
            |p| == 53 && p[0] == k.typeByte && Value(p[1..21]) == k.address && Value(p[21..]) == k.tokenId
  {
    LimitsAreWidths();
    assert k.Packed()[1..21] == Bytes(k.address, 20);
    assert k.Packed()[21..] == Bytes(k.tokenId, 32);
    hide Value, Bytes, Pow256;
    BytesRoundTrip(k.address, 20);
    BytesRoundTrip(k.tokenId, 32);
    ModUnique(k.address, Pow256(20), 0, k.address);
    ModUnique(k.tokenId, Pow256(32), 0, k.tokenId);
  }

  /** Comparing the packed 53 key bytes is comparing their parts. */
  lemma PackedInjective(a: AssetKey, b: AssetKey)
    ensures a.Packed() == b.Packed() <==> a == b
  {
    LimitsAreWidths();
    assert a.Packed()[0] == a.typeByte && b.Packed()[0] == b.typeByte;
    assert a.Packed()[1..21] == Bytes(a.address, 20) && b.Packed()[1..21] == Bytes(b.address, 20);
    assert a.Packed()[21..] == Bytes(a.tokenId, 32) && b.Packed()[21..] == Bytes(b.tokenId, 32);
    BytesInjective(a.address, b.address, 20);
    BytesInjective(a.tokenId, b.tokenId, 32);
  }
}

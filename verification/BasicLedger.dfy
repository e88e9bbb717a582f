/** cma_ledger_basic: the reference ledger on plain maps. It never deletes a balance, has no limits, no base asset and
    no removal, and numbers assets and accounts by the size of their tables. */
module BasicLedgers {
  import opened LedgerTypes
  import opened LedgerSpec

  datatype Basic = Basic(
    assets: map<nat, Asset>, assetIds: map<AssetKey, nat>,
    accounts: map<nat, Account>, accountIds: map<Word, nat>,
    balances: map<Key, Amount>)

  datatype BasicOutcome = BasicOutcome(state: Basic, reply: Reply)

  const EMPTY_BASIC := Basic(map[], map[], map[], map[], map[])

  function BasicFindAsset(b: Basic, q: AssetQuery): Hit {
    match q
    case AssetById(id) => if id in b.assets then Hit(id) else Miss
    case _ => if q.Fresh().Key() in b.assetIds then Hit(b.assetIds[q.Fresh().Key()]) else Miss
  }

  function BasicCreateAsset(b: Basic, asset: Asset): BasicOutcome {
    var id := |b.assets|;
    if asset.kind.Keyed() && asset.Key() in b.assetIds then BasicOutcome(b, Fail(InsertionError))
    else
      var keyed := if asset.kind.Keyed() then b.(assetIds := b.assetIds[asset.Key() := id]) else b;
      if id in b.assets then BasicOutcome(keyed, Fail(InsertionError))
      else BasicOutcome(keyed.(assets := b.assets[id := asset]), AssetIs(id, asset))
  }

  /** A find-and-remove request does nothing here, and a base asset is an invalid type. */
  function BasicFileAsset(b: Basic, q: AssetQuery, op: Retrieval): BasicOutcome {
    var hit := BasicFindAsset(b, q);
    if q.BaseAsset? then BasicOutcome(b, Fail(Invalid))
    else if op.FindAndRemove? then BasicOutcome(b, Done)
    else if !op.Create? && hit.Hit? then
      BasicOutcome(b, if hit.id in b.assets then AssetIs(hit.id, b.assets[hit.id]) else Fail(AssetNotFound))
    else if op.Find? then BasicOutcome(b, Fail(AssetNotFound))
    else BasicCreateAsset(b, q.Fresh())
  }

  function BasicFindAccount(b: Basic, q: AccountQuery): Hit {
    if q.AccountById? then (if q.id in b.accounts then Hit(q.id) else Miss)
    else if q.Fresh().id in b.accountIds then Hit(b.accountIds[q.Fresh().id])
    else Miss
  }

  function BasicCreateAccount(b: Basic, account: Account): BasicOutcome {
    var id := |b.accounts|;
    if !account.kind.PlainAccount? && account.id in b.accountIds then BasicOutcome(b, Fail(InsertionError))
    else
      var keyed := if account.kind.PlainAccount? then b else b.(accountIds := b.accountIds[account.id := id]);
      if id in b.accounts then BasicOutcome(keyed, Fail(InsertionError))
      else BasicOutcome(keyed.(accounts := b.accounts[id := account]), AccountIs(id, account))
  }

  function BasicFileAccount(b: Basic, q: AccountQuery, op: Retrieval): BasicOutcome {
    var hit := BasicFindAccount(b, q);
    if op.FindAndRemove? then BasicOutcome(b, Done)
    else if !op.Create? && hit.Hit? then
      BasicOutcome(b, if hit.id in b.accounts then AccountIs(hit.id, b.accounts[hit.id]) else Fail(AccountNotFound))
    else if op.Find? then BasicOutcome(b, Fail(AccountNotFound))
    else BasicCreateAccount(b, q.Fresh())
  }

  /** Stores a balance, zero or not, and its asset's supply. */
  function BasicSettle(b: Basic, k: Key, balance: Amount, supply: Amount): Basic
    requires k.asset in b.assets
  {
    b.(balances := b.balances[k := balance], assets := b.assets[k.asset := b.assets[k.asset].(supply := supply)])
  }

  function BasicDeposit(b: Basic, asset: nat, to: nat, v: Amount): BasicOutcome {
    var k := Key(asset, to);
    if v == 0 then BasicOutcome(b, Fail(BalanceOverflow))
    else if asset !in b.assets then BasicOutcome(b, Fail(AssetNotFound))
    else if b.assets[asset].supply + v >= AMOUNT_LIMIT then BasicOutcome(b, Fail(SupplyOverflow))
    else if b.assets[asset].kind.TokenAddressId? && (b.assets[asset].supply != 0 || v != 1) then
      BasicOutcome(b, Fail(SupplyOverflow))
    else if to !in b.accounts then BasicOutcome(b, Fail(AccountNotFound))
    else if Balance(b.balances, k) + v >= AMOUNT_LIMIT then BasicOutcome(b, Fail(BalanceOverflow))
    else BasicOutcome(BasicSettle(b, k, Balance(b.balances, k) + v, b.assets[asset].supply + v), Done)
  }

  function BasicWithdraw(b: Basic, asset: nat, from: nat, v: Amount): BasicOutcome {
    var k := Key(asset, from);
    if asset !in b.assets then BasicOutcome(b, Fail(AssetNotFound))
    else if v > b.assets[asset].supply then BasicOutcome(b, Fail(SupplyOverflow))
    else if from !in b.accounts then BasicOutcome(b, Fail(AccountNotFound))
    else if v > Balance(b.balances, k) then BasicOutcome(b, Fail(InsufficientFunds))
    else BasicOutcome(BasicSettle(b, k, Balance(b.balances, k) - v, b.assets[asset].supply - v), Done)
  }

  function BasicTransfer(b: Basic, asset: nat, from: nat, to: nat, v: Amount): BasicOutcome {
    var kf, kt := Key(asset, from), Key(asset, to);
    if asset !in b.assets then BasicOutcome(b, Fail(AssetNotFound))
    else if from == to then BasicOutcome(b, Fail(Invalid))
    else if from !in b.accounts then BasicOutcome(b, Fail(AccountNotFound))
    else if v > Balance(b.balances, kf) then BasicOutcome(b, Fail(InsufficientFunds))
    else if to !in b.accounts then BasicOutcome(b, Fail(AccountNotFound))
    else if Balance(b.balances, kt) + v >= AMOUNT_LIMIT then BasicOutcome(b, Fail(BalanceOverflow))
    else
      BasicOutcome(b.(balances := b.balances[kf := Balance(b.balances, kf) - v][kt := Balance(b.balances, kt) + v]),
                   Done)
  }

  function BasicStep(b: Basic, op: Op): BasicOutcome {
    match op
    case RetrieveAsset(q, r) => BasicFileAsset(b, q, r)
    case RetrieveAccount(q, r) => BasicFileAccount(b, q, r)
    case Deposit(a, t, v) => BasicDeposit(b, a, t, v)
    case Withdraw(a, f, v) => BasicWithdraw(b, a, f, v)
    case Transfer(a, f, t, v) => BasicTransfer(b, a, f, t, v)
    case Clear => BasicOutcome(EMPTY_BASIC, Done)
  }

  /** What the operations of a run answer, in order. */
  function BasicReplies(b: Basic, ops: seq<Op>): seq<Reply>
    decreases |ops|
  {
    if ops == [] then [] else [BasicStep(b, ops[0]).reply] + BasicReplies(BasicStep(b, ops[0]).state, ops[1..])
  }

  function BasicRun(b: Basic, ops: seq<Op>): Basic
    decreases |ops|
  {
    if ops == [] then b else BasicRun(BasicStep(b, ops[0]).state, ops[1..])
  }

  class BasicLedger {
    var lassidToAsset: map<nat, Asset>
    var assetToLassid: map<AssetKey, nat>
    var laccidToAccount: map<nat, Account>
    var accountToLaccid: map<Word, nat>
    var accountAssetBalance: map<Key, Amount>

    ghost function State(): Basic
      reads this
    {
      Basic(lassidToAsset, assetToLassid, laccidToAccount, accountToLaccid, accountAssetBalance)
    }

    constructor ()
      ensures State() == EMPTY_BASIC
    {
      lassidToAsset, assetToLassid, laccidToAccount, accountToLaccid := map[], map[], map[], map[];
      accountAssetBalance := map[];
    }

    method CreateAsset(asset: Asset) returns (r: Reply)
      modifies this
      ensures BasicOutcome(State(), r) == BasicCreateAsset(old(State()), asset)
    {
      var currSize := |lassidToAsset|;
      if asset.kind.Keyed() {
        if asset.Key() in assetToLassid {
          return Fail(InsertionError);
        }
        assetToLassid := assetToLassid[asset.Key() := currSize];
      }
      if currSize in lassidToAsset {
        return Fail(InsertionError);
      }
      lassidToAsset := lassidToAsset[currSize := asset];
      return AssetIs(currSize, asset);
    }

    method RetrieveAsset(q: AssetQuery, op: Retrieval) returns (r: Reply)
      modifies this
      ensures BasicOutcome(State(), r) == BasicFileAsset(old(State()), q, op)
    {
      if q.BaseAsset? {
        return Fail(Invalid);
      }
      if op.Find? || op.FindOrCreate? {
        var hit := Miss;
        if q.AssetById? {
          if q.id in lassidToAsset {
            hit := Hit(q.id);
          }
        } else if q.Fresh().Key() in assetToLassid {
          hit := Hit(assetToLassid[q.Fresh().Key()]);
        }
        if hit.Hit? {
          return if hit.id in lassidToAsset then AssetIs(hit.id, lassidToAsset[hit.id]) else Fail(AssetNotFound);
        }
        if op.Find? {
          return Fail(AssetNotFound);
        }
      }
      if op.Create? || op.FindOrCreate? {
        r := CreateAsset(q.Fresh());
        return;
      }
      return Done;
    }

    method CreateAccount(account: Account) returns (r: Reply)
      modifies this
      ensures BasicOutcome(State(), r) == BasicCreateAccount(old(State()), account)
    {
      var currSize := |laccidToAccount|;
      if !account.kind.PlainAccount? {
        if account.id in accountToLaccid {
          return Fail(InsertionError);
        }
        accountToLaccid := accountToLaccid[account.id := currSize];
      }
      if currSize in laccidToAccount {
        return Fail(InsertionError);
      }
      laccidToAccount := laccidToAccount[currSize := account];
      return AccountIs(currSize, account);
    }

    method RetrieveAccount(q: AccountQuery, op: Retrieval) returns (r: Reply)
      modifies this
      ensures BasicOutcome(State(), r) == BasicFileAccount(old(State()), q, op)
    {
      if op.Find? || op.FindOrCreate? {
        var hit := Miss;
        if q.AccountById? {
          if q.id in laccidToAccount {
            hit := Hit(q.id);
          }
        } else if q.Fresh().id in accountToLaccid {
          hit := Hit(accountToLaccid[q.Fresh().id]);
        }
        if hit.Hit? {
          return if hit.id in laccidToAccount then AccountIs(hit.id, laccidToAccount[hit.id])
                 else Fail(AccountNotFound);
        }
        if op.Find? {
          return Fail(AccountNotFound);
        }
      }
      if op.Create? || op.FindOrCreate? {
        r := CreateAccount(q.Fresh());
        return;
      }
      return Done;
    }

    /** get_account_asset_balance: this ledger has no records, so a request for one is refused. */
    method GetBalance(k: Key, wantsRecord: bool) returns (v: Amount, r: Reply)
      ensures r == if wantsRecord then Fail(BalanceNotFound) else Done
      ensures !wantsRecord ==> v == Balance(State().balances, k)
    {
      if wantsRecord {
        return 0, Fail(BalanceNotFound);
      }
      if k !in accountAssetBalance {
        return 0, Done;
      }
      return accountAssetBalance[k], Done;
    }

    method SetBalance(k: Key, v: Amount)
      modifies this`accountAssetBalance
      ensures accountAssetBalance == old(accountAssetBalance)[k := v]
    {
      accountAssetBalance := accountAssetBalance[k := v];
    }

    method SetAssetSupply(asset: nat, supply: Amount)
      requires asset in lassidToAsset
      modifies this`lassidToAsset
      ensures lassidToAsset == old(lassidToAsset)[asset := old(lassidToAsset)[asset].(supply := supply)]
    {
      lassidToAsset := lassidToAsset[asset := lassidToAsset[asset].(supply := supply)];
    }

    method Deposit(asset: nat, to: nat, amount: Amount) returns (r: Reply)
      modifies this
      ensures BasicOutcome(State(), r) == BasicDeposit(old(State()), asset, to, amount)
    {
      if amount == 0 {
        return Fail(BalanceOverflow);
      }
      if asset !in lassidToAsset {
        return Fail(AssetNotFound);
      }
      var supply := lassidToAsset[asset].supply;
      if supply + amount >= AMOUNT_LIMIT {
        return Fail(SupplyOverflow);
      }
      if lassidToAsset[asset].kind.TokenAddressId? && (supply != 0 || amount != 1) {
        return Fail(SupplyOverflow);
      }
      if to !in laccidToAccount {
        return Fail(AccountNotFound);
      }
      var balance, _ := GetBalance(Key(asset, to), false);
      if balance + amount >= AMOUNT_LIMIT {
        return Fail(BalanceOverflow);
      }
      SetBalance(Key(asset, to), balance + amount);
      SetAssetSupply(asset, supply + amount);
      return Done;
    }

    method Withdraw(asset: nat, from: nat, amount: Amount) returns (r: Reply)
      modifies this
      ensures BasicOutcome(State(), r) == BasicWithdraw(old(State()), asset, from, amount)
    {
      if asset !in lassidToAsset {
        return Fail(AssetNotFound);
      }
      var supply := lassidToAsset[asset].supply;
      if amount > supply {
        return Fail(SupplyOverflow);
      }
      if from !in laccidToAccount {
        return Fail(AccountNotFound);
      }
      var balance, _ := GetBalance(Key(asset, from), false);
      if amount > balance {
        return Fail(InsufficientFunds);
      }
      SetBalance(Key(asset, from), balance - amount);
      SetAssetSupply(asset, supply - amount);
      return Done;
    }

    method Transfer(asset: nat, from: nat, to: nat, amount: Amount) returns (r: Reply)
      modifies this
      ensures BasicOutcome(State(), r) == BasicTransfer(old(State()), asset, from, to, amount)
    {
      if asset !in lassidToAsset {
        return Fail(AssetNotFound);
      }
      if from == to {
        return Fail(Invalid);
      }
      if from !in laccidToAccount {
        return Fail(AccountNotFound);
      }
      var balanceFrom, _ := GetBalance(Key(asset, from), false);
      if amount > balanceFrom {
        return Fail(InsufficientFunds);
      }
      if to !in laccidToAccount {
        return Fail(AccountNotFound);
      }
      var balanceTo, _ := GetBalance(Key(asset, to), false);
      if balanceTo + amount >= AMOUNT_LIMIT {
        return Fail(BalanceOverflow);
      }
      SetBalance(Key(asset, from), balanceFrom - amount);
      SetBalance(Key(asset, to), balanceTo + amount);
      return Done;
    }

    method Clear()
      modifies this
      ensures State() == EMPTY_BASIC
    {
      accountToLaccid, laccidToAccount := map[], map[];
      assetToLassid, lassidToAsset := map[], map[];
      accountAssetBalance := map[];
    }

    /** One call of the C interface. */
    method Execute(op: Op) returns (r: Reply)
      modifies this
      ensures BasicOutcome(State(), r) == BasicStep(old(State()), op)
    {
      match op {
        case RetrieveAsset(q, retrieval) => r := RetrieveAsset(q, retrieval);
        case RetrieveAccount(q, retrieval) => r := RetrieveAccount(q, retrieval);
        case Deposit(asset, to, amount) => r := Deposit(asset, to, amount);
        case Withdraw(asset, from, amount) => r := Withdraw(asset, from, amount);
        case Transfer(asset, from, to, amount) => r := Transfer(asset, from, to, amount);
        case Clear => Clear(); r := Done;
      }
    }

    /** A whole run of calls. */
    method Replay(ops: seq<Op>) returns (replies: seq<Reply>)
      modifies this
      ensures State() == BasicRun(old(State()), ops) && replies == BasicReplies(old(State()), ops)
    {
      hide State, BasicStep;
      ghost var start := State();
      replies := [];
      for i := 0 to |ops|
        invariant BasicRun(start, ops) == BasicRun(State(), ops[i..])
        invariant BasicReplies(start, ops) == replies + BasicReplies(State(), ops[i..])
      {
        assert ops[i..][0] == ops[i] && ops[i..][1..] == ops[i + 1..];
        var r := Execute(ops[i]);
        replies := replies + [r];
      }
    }
  }
}

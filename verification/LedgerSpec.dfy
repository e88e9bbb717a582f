/** The memory ledger as plain maps: one transition per operation, with the checks in the order of src/ledger_impl.cpp.
    Nothing here knows about balance arrays, pointers or counters. */
module LedgerSpec {
  import opened LedgerTypes

  /** The two-way asset and account tables, their limits, and the id counters. */
  datatype Registry = Registry(
    maxAccounts: nat, maxAssets: nat,
    assets: map<nat, Asset>, assetIds: map<AssetKey, nat>,
    accounts: map<nat, Account>, accountIds: map<Word, nat>,
    nextAsset: nat, nextAccount: nat, baseId: nat, baseDefined: bool)

  datatype Ledger = Ledger(reg: Registry, balances: map<Key, Amount>, maxBalances: nat)

  datatype Filing = Filing(reg: Registry, reply: Reply)

  datatype Outcome = Outcome(ledger: Ledger, reply: Reply)

  function Empty(maxAccounts: nat, maxAssets: nat, maxBalances: nat): Ledger {
    Ledger(Registry(maxAccounts, maxAssets, map[], map[], map[], map[], 0, 0, 0, false), map[], maxBalances)
  }

  function Balance(balances: map<Key, Amount>, k: Key): Amount {
    if k in balances then balances[k] else 0
  }

  // ---------- assets ----------

  function RemoveAsset(r: Registry, id: nat): Filing {
    if id !in r.assets then Filing(r, Fail(AssetNotFound))
    else
      var asset := r.assets[id];
      if asset.supply != 0 then Filing(r, Fail(AssetHasSupply))
      else if asset.kind.Keyed() && asset.Key() !in r.assetIds then Filing(r, Fail(RemoveError))
      else
        Filing(r.(assets := r.assets - {id},
                  assetIds := if asset.kind.Keyed() then r.assetIds - {asset.Key()} else r.assetIds,
                  baseDefined := r.baseDefined && !asset.kind.Base?), AssetIs(id, asset))
  }

  /** The insertion under the next id; a taken id is one of the throws that should not happen. */
  function StoreAsset(r: Registry, asset: Asset): Filing {
    var id := r.nextAsset;
    if id in r.assets then Filing(r, Fail(InsertionError))
    else
      Filing(r.(assets := r.assets[id := asset], nextAsset := id + 1,
                baseId := if asset.kind.Base? then id else r.baseId,
                baseDefined := r.baseDefined || asset.kind.Base?), AssetIs(id, asset))
  }

  /** The key of a keyed asset goes into the key table before its record is stored. */
  function KeyFirst(r: Registry, asset: Asset): Registry {
    if asset.kind.Keyed() then r.(assetIds := r.assetIds[asset.Key() := r.nextAsset]) else r
  }

  function CreateAsset(r: Registry, asset: Asset): Filing {
    if r.nextAsset >= r.maxAssets then Filing(r, Fail(MaxAssetsReached))
    else if asset.kind.Base? && r.baseDefined then Filing(r, Fail(InsertionError))
    else if asset.kind.Keyed() && asset.Key() in r.assetIds then Filing(r, Fail(InsertionError))
    else
      StoreAsset(KeyFirst(r, asset), asset)
  }

  /** The id a request names: itself, the base asset's, or the one in the key table. */
  function LookupAsset(r: Registry, q: AssetQuery, op: Retrieval): Hit {
    match q
    case AssetById(id) => Hit(id)
    case BaseAsset(id) => Hit(if op.Find? && r.baseDefined then r.baseId else id)
    case _ => if q.Fresh().Key() in r.assetIds then Hit(r.assetIds[q.Fresh().Key()]) else Miss
  }

  function FileAsset(r: Registry, q: AssetQuery, op: Retrieval): Filing {
    var hit := LookupAsset(r, q, op);
    if op.Finds() && hit.Hit? && hit.id in r.assets then
      if op.FindAndRemove? then RemoveAsset(r, hit.id) else Filing(r, AssetIs(hit.id, r.assets[hit.id]))
    else if op.Finds() && hit.Hit? && q.Fresh().kind.Keyed() then Filing(r, Fail(AssetNotFound))
    else if op.Creates() then CreateAsset(r, q.Fresh())
    else Filing(r, Fail(AssetNotFound))
  }

  // ---------- accounts ----------

  /** The keys that name an account. */
  function Holdings(keys: set<Key>, account: nat): set<Key> {
    set k | k in keys && k.account == account
  }

  function RemoveAccount(r: Registry, keys: set<Key>, id: nat): Filing {
    if id !in r.accounts then Filing(r, Fail(AccountNotFound))
    else if Holdings(keys, id) != {} then Filing(r, Fail(AccountHasBalance))
    else
      var account := r.accounts[id];
      if !account.kind.PlainAccount? && account.id !in r.accountIds then Filing(r, Fail(RemoveError))
      else
        Filing(r.(accounts := r.accounts - {id},
                  accountIds := if account.kind.PlainAccount? then r.accountIds else r.accountIds - {account.id}),
               AccountIs(id, account))
  }

  function CreateAccount(r: Registry, account: Account): Filing {
    var id := r.nextAccount;
    if id >= r.maxAccounts then Filing(r, Fail(MaxAccountsReached))
    else if !account.kind.PlainAccount? && account.id in r.accountIds then Filing(r, Fail(InsertionError))
    else
      var keyed :=
        if account.kind.PlainAccount? then r else r.(accountIds := r.accountIds[account.id := id]);
      if id in r.accounts then Filing(keyed, Fail(InsertionError))
      else Filing(keyed.(accounts := r.accounts[id := account], nextAccount := id + 1), AccountIs(id, account))
  }

  function LookupAccount(r: Registry, q: AccountQuery): Hit {
    if q.AccountById? then Hit(q.id)
    else if q.Fresh().id in r.accountIds then Hit(r.accountIds[q.Fresh().id])
    else Miss
  }

  function FileAccount(r: Registry, keys: set<Key>, q: AccountQuery, op: Retrieval): Filing {
    var hit := LookupAccount(r, q);
    if op.Finds() && hit.Hit? && hit.id in r.accounts then
      if op.FindAndRemove? then RemoveAccount(r, keys, hit.id) else Filing(r, AccountIs(hit.id, r.accounts[hit.id]))
    else if op.Finds() && hit.Hit? && !q.AccountById? then Filing(r, Fail(AccountNotFound))
    else if op.Creates() then CreateAccount(r, q.Fresh())
    else Filing(r, Fail(AccountNotFound))
  }

  // ---------- balances ----------

  datatype Posting = Posting(balances: map<Key, Amount>, reply: Reply)

  /** set_account_asset_balance: a stored balance set to zero is deleted, a missing one is stored even if zero. */
  function SetBalance(l: Ledger, k: Key, v: Amount): Posting {
    if k !in l.balances then
      if |l.balances| >= l.maxBalances then Posting(l.balances, Fail(MaxBalancesReached))
      else if k.asset !in l.reg.assets then Posting(l.balances, Fail(AssetNotFound))
      else if k.account !in l.reg.accounts then Posting(l.balances, Fail(AccountNotFound))
      else Posting(l.balances[k := v], Done)
    else if v != 0 then Posting(l.balances[k := v], Done)
    else if k.account !in l.reg.accounts then Posting(l.balances[k := 0], Fail(AccountNotFound))
    else Posting(l.balances - {k}, Done)
  }

  function SetSupply(r: Registry, id: nat, v: Amount): Registry
    requires id in r.assets
  {
    r.(assets := r.assets[id := r.assets[id].(supply := v)])
  }

  function Failed(l: Ledger, e: Error): Outcome {
    Outcome(l, Fail(e))
  }

  /** The end of a deposit or withdrawal: the balance is stored, and only if that worked the supply. */
  function Settle(l: Ledger, k: Key, balance: Amount, supply: Amount): Outcome
    requires k.asset in l.reg.assets
  {
    var p := SetBalance(l, k, balance);
    var reg := if p.reply.Fail? then l.reg else SetSupply(l.reg, k.asset, supply);
    Outcome(Ledger(reg, p.balances, l.maxBalances), p.reply)
  }

  function DepositStep(l: Ledger, asset: nat, account: nat, v: Amount): Outcome {
    if v == 0 then Failed(l, BalanceOverflow)
    else if asset !in l.reg.assets then Failed(l, AssetNotFound)
    else
      var a := l.reg.assets[asset];
      if a.supply + v >= AMOUNT_LIMIT then Failed(l, SupplyOverflow)
      else if a.kind.TokenAddressId? && (a.supply != 0 || v != 1) then Failed(l, SupplyOverflow)
      else if account !in l.reg.accounts then Failed(l, AccountNotFound)
      else if Balance(l.balances, Key(asset, account)) + v >= AMOUNT_LIMIT then Failed(l, BalanceOverflow)
      else Settle(l, Key(asset, account), Balance(l.balances, Key(asset, account)) + v, a.supply + v)
  }

  function WithdrawStep(l: Ledger, asset: nat, account: nat, v: Amount): Outcome {
    if asset !in l.reg.assets then Failed(l, AssetNotFound)
    else if v > l.reg.assets[asset].supply then Failed(l, SupplyOverflow)
    else if account !in l.reg.accounts then Failed(l, AccountNotFound)
    else if v > Balance(l.balances, Key(asset, account)) then Failed(l, InsufficientFunds)
    else Settle(l, Key(asset, account), Balance(l.balances, Key(asset, account)) - v, l.reg.assets[asset].supply - v)
  }

  /** transfer: the debit is stored before the credit is tried, and stays if the credit fails. */
  function TransferStep(l: Ledger, asset: nat, from: nat, to: nat, v: Amount): Outcome {
    var have, has := Balance(l.balances, Key(asset, from)), Balance(l.balances, Key(asset, to));
    if asset !in l.reg.assets then Failed(l, AssetNotFound)
    else if from == to then Failed(l, Invalid)
    else if from !in l.reg.accounts then Failed(l, AccountNotFound)
    else if v > have then Failed(l, InsufficientFunds)
    else if to !in l.reg.accounts then Failed(l, AccountNotFound)
    else if has + v >= AMOUNT_LIMIT then Failed(l, BalanceOverflow)
    else
      var debit := SetBalance(l, Key(asset, from), have - v);
      var m := l.(balances := debit.balances);
      if debit.reply.Fail? then Outcome(m, debit.reply)
      else
        var credit := SetBalance(m, Key(asset, to), has + v);
        Outcome(m.(balances := credit.balances), credit.reply)
  }

  /** clear: the tables go, but the id counters and the base asset flag stay. */
  function Cleared(l: Ledger): Ledger {
    Ledger(l.reg.(assets := map[], assetIds := map[], accounts := map[], accountIds := map[]), map[], l.maxBalances)
  }

  function Step(l: Ledger, op: Op): Outcome {
    match op
    case RetrieveAsset(q, r) => var f := FileAsset(l.reg, q, r); Outcome(l.(reg := f.reg), f.reply)
    case RetrieveAccount(q, r) => var f := FileAccount(l.reg, l.balances.Keys, q, r); Outcome(l.(reg := f.reg), f.reply)
    case Deposit(a, t, v) => DepositStep(l, a, t, v)
    case Withdraw(a, f, v) => WithdrawStep(l, a, f, v)
    case Transfer(a, f, t, v) => TransferStep(l, a, f, t, v)
    case Clear => Outcome(Cleared(l), Done)
  }

  /** The ledger after a whole run of operations, successful or not. */
  function Run(l: Ledger, ops: seq<Op>): Ledger
    decreases |ops|
  {
    if ops == [] then l else Run(Step(l, ops[0]).ledger, ops[1..])
  }

  /** What the operations of a run answer, in order. */
  function Replies(l: Ledger, ops: seq<Op>): seq<Reply>
    decreases |ops|
  {
    if ops == [] then [] else [Step(l, ops[0]).reply] + Replies(Step(l, ops[0]).ledger, ops[1..])
  }
}

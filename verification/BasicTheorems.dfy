/** What the basic ledger keeps. It is the reference: nothing fails halfway and every supply is always held. */
module BasicTheorems {
  import opened LedgerTypes
  import opened LedgerSpec
  import opened LedgerInvariants
  import opened BasicLedgers

  /** The keys are exactly the numbers below the table's size. */
  ghost predicate Dense<T>(m: map<nat, T>) {
    forall a: nat :: a in m <==> a < |m|
  }

  lemma OneMore<T>(m: map<nat, T>, a: nat, v: T)
    requires a !in m
    ensures |m[a := v]| == |m| + 1
  {
    assert m[a := v].Keys == m.Keys + {a};
  }

  lemma DenseGrows<T>(m: map<nat, T>, v: T)
    requires Dense(m)
    ensures |m| !in m && |m[|m| := v]| == |m| + 1 && Dense(m[|m| := v])
  {
    OneMore(m, |m|, v);
  }

  lemma DenseKept<T>(m: map<nat, T>, a: nat, v: T)
    requires Dense(m) && a in m
    ensures |m[a := v]| == |m| && Dense(m[a := v])
  {
    var c := m[a := v];
    assert c.Keys == m.Keys;
    forall x: nat
      ensures x in c <==> x < |c|
    {
      assert x in m <==> x < |m|;
    }
  }

  /** Ids are exactly the numbers below the table sizes, and balances belong to known assets and accounts. */
  ghost predicate Numbered(b: Basic) {
    Dense(b.assets) && Dense(b.accounts) &&
    forall k :: k in b.balances ==> k.asset in b.assets && k.account in b.accounts
  }

  function BasicHeld(b: Basic, asset: nat): nat {
    Total(b.balances, asset, |b.accounts|)
  }

  /** Every supply is the sum of the asset's balances. */
  ghost predicate BasicConserved(b: Basic) {
    forall a :: a in b.assets ==> b.assets[a].supply == BasicHeld(b, a)
  }

  ghost predicate BasicInv(b: Basic) {
    Numbered(b) && BasicConserved(b)
  }

  /** An operation that fails leaves the basic ledger as it was, whichever it is. */
  lemma BasicFailureIsAtomic(b: Basic, op: Op)
    requires BasicInv(b) && BasicStep(b, op).reply.Fail?
    ensures BasicStep(b, op).state == b
  {
    assert |b.assets| !in b.assets && |b.accounts| !in b.accounts;
    hide BasicConserved;
  }

  lemma NothingHeldYet(b: Basic, a: nat, x: nat)
    requires Numbered(b) && (a >= |b.assets| || x >= |b.accounts|)
    ensures Balance(b.balances, Key(a, x)) == 0
  {
    assert Key(a, x) in b.balances ==> Key(a, x).asset in b.assets && Key(a, x).account in b.accounts;
  }

  lemma NewAssetNumbered(b: Basic, asset: Asset, ids: map<AssetKey, nat>)
    requires Numbered(b)
    ensures Numbered(b.(assetIds := ids, assets := b.assets[|b.assets| := asset]))
  {
    DenseGrows(b.assets, asset);
    hide Dense;
  }

  lemma NewAssetKeeps(b: Basic, asset: Asset, ids: map<AssetKey, nat>)
    requires BasicInv(b) && asset.supply == 0
    ensures BasicInv(b.(assetIds := ids, assets := b.assets[|b.assets| := asset]))
  {
    var n, c := |b.assets|, b.(assetIds := ids, assets := b.assets[|b.assets| := asset]);
    NewAssetNumbered(b, asset, ids);
    hide Numbered;
    forall x: nat | x < |b.accounts|
      ensures Balance(b.balances, Key(n, x)) == 0
    {
      NothingHeldYet(b, n, x);
    }
    TotalZero(b.balances, n, |b.accounts|);
    forall a | a in c.assets
      ensures c.assets[a].supply == BasicHeld(c, a)
    {
      assert BasicHeld(c, a) == BasicHeld(b, a);
    }
  }

  lemma CreateAssetKeeps(b: Basic, asset: Asset)
    requires BasicInv(b) && asset.supply == 0
    ensures BasicInv(BasicCreateAsset(b, asset).state)
  {
    assert |b.assets| !in b.assets;
    NewAssetKeeps(b, asset, BasicCreateAsset(b, asset).state.assetIds);
    hide BasicInv;
  }

  lemma NewAccountNumbered(b: Basic, account: Account, ids: map<Word, nat>)
    requires Numbered(b)
    ensures Numbered(b.(accountIds := ids, accounts := b.accounts[|b.accounts| := account]))
    ensures |b.accounts[|b.accounts| := account]| == |b.accounts| + 1
  {
    DenseGrows(b.accounts, account);
    hide Dense;
  }

  lemma NewAccountKeeps(b: Basic, account: Account, ids: map<Word, nat>)
    requires BasicInv(b)
    ensures BasicInv(b.(accountIds := ids, accounts := b.accounts[|b.accounts| := account]))
  {
    var n, c := |b.accounts|, b.(accountIds := ids, accounts := b.accounts[|b.accounts| := account]);
    NewAccountNumbered(b, account, ids);
    hide Numbered;
    forall a | a in c.assets
      ensures c.assets[a].supply == BasicHeld(c, a)
    {
      NothingHeldYet(b, a, n);
    }
  }

  lemma CreateAccountKeeps(b: Basic, account: Account)
    requires BasicInv(b)
    ensures BasicInv(BasicCreateAccount(b, account).state)
  {
    assert |b.accounts| !in b.accounts;
    NewAccountKeeps(b, account, BasicCreateAccount(b, account).state.accountIds);
    hide BasicInv;
  }

  /** Storing a balance and its supply, moved by the same amount, keeps every sum right. */
  lemma SettleKeeps(b: Basic, k: Key, balance: Amount, supply: Amount)
    requires BasicInv(b) && k.asset in b.assets && k.account in b.accounts
    requires supply - balance == b.assets[k.asset].supply - Balance(b.balances, k)
    ensures BasicInv(BasicSettle(b, k, balance, supply))
  {
    var c := BasicSettle(b, k, balance, supply);
    DenseKept(b.assets, k.asset, c.assets[k.asset]);
    hide Dense;
    forall a | a in c.assets
      ensures c.assets[a].supply == BasicHeld(c, a)
    {
      TotalChange(b.balances, c.balances, k, a, |b.accounts|);
    }
  }

  /** Moving an amount between two accounts changes no sum. */
  lemma MoveKeeps(b: Basic, from: Key, to: Key, v: Amount)
    requires BasicInv(b) && from.asset == to.asset && to.asset in b.assets && from != to
    requires from.account in b.accounts && to.account in b.accounts
    requires v <= Balance(b.balances, from) && Balance(b.balances, to) + v < AMOUNT_LIMIT
    ensures BasicInv(
              b.(balances := b.balances[from := Balance(b.balances, from) - v][to := Balance(b.balances, to) + v]))
  {
    var mid := b.balances[from := Balance(b.balances, from) - v];
    var c := b.(balances := mid[to := Balance(b.balances, to) + v]);
    forall a | a in c.assets
      ensures c.assets[a].supply == BasicHeld(c, a)
    {
      TotalChange(b.balances, mid, from, a, |b.accounts|);
      TotalChange(mid, c.balances, to, a, |b.accounts|);
    }
  }

  lemma TransferKeeps(b: Basic, asset: nat, from: nat, to: nat, v: Amount)
    requires BasicInv(b)
    ensures BasicInv(BasicTransfer(b, asset, from, to, v).state)
  {
    hide BasicInv;
    if BasicTransfer(b, asset, from, to, v).reply.Done? {
      MoveKeeps(b, Key(asset, from), Key(asset, to), v);
    }
  }

  lemma DepositKeeps(b: Basic, asset: nat, to: nat, v: Amount)
    requires BasicInv(b)
    ensures BasicInv(BasicDeposit(b, asset, to, v).state)
  {
    hide BasicSettle, BasicInv;
    if BasicDeposit(b, asset, to, v).reply.Done? {
      var k := Key(asset, to);
      SettleKeeps(b, k, Balance(b.balances, k) + v, b.assets[asset].supply + v);
    }
  }

  lemma WithdrawKeeps(b: Basic, asset: nat, from: nat, v: Amount)
    requires BasicInv(b)
    ensures BasicInv(BasicWithdraw(b, asset, from, v).state)
  {
    hide BasicSettle, BasicInv;
    if BasicWithdraw(b, asset, from, v).reply.Done? {
      var k := Key(asset, from);
      SettleKeeps(b, k, Balance(b.balances, k) - v, b.assets[asset].supply - v);
    }
  }

  lemma BasicStepKeepsInv(b: Basic, op: Op)
    requires BasicInv(b)
    ensures BasicInv(BasicStep(b, op).state)
  {
    match op
    case RetrieveAsset(q, _) => CreateAssetKeeps(b, q.Fresh()); hide BasicCreateAsset, BasicInv;
    case RetrieveAccount(q, _) => CreateAccountKeeps(b, q.Fresh()); hide BasicCreateAccount, BasicInv;
    case Deposit(a, t, v) => DepositKeeps(b, a, t, v);
    case Withdraw(a, f, v) => WithdrawKeeps(b, a, f, v);
    case Transfer(a, f, t, v) => TransferKeeps(b, a, f, t, v);
    case Clear =>
  }

  /** What the basic ledger does not do: it refuses base assets, accepts removals without removing, and starts over when
      cleared. */
  lemma BasicRefusals(b: Basic, op: Op)
    ensures op.RetrieveAsset? && op.assetQuery.BaseAsset? ==> BasicStep(b, op) == BasicOutcome(b, Fail(Invalid))
    ensures (op.RetrieveAsset? && !op.assetQuery.BaseAsset?) || op.RetrieveAccount? ==>
              op.retrieval.FindAndRemove? ==> BasicStep(b, op) == BasicOutcome(b, Done)
    ensures op.Clear? ==> BasicStep(b, op) == BasicOutcome(Basic(map[], map[], map[], map[], map[]), Done)
  {
  }

  lemma {:induction false} BasicRunKeepsInv(b: Basic, ops: seq<Op>)
    requires BasicInv(b)
    ensures BasicInv(BasicRun(b, ops))
    decreases |ops|
  {
    if ops != [] {
      BasicStepKeepsInv(b, ops[0]);
      BasicRunKeepsInv(BasicStep(b, ops[0]).state, ops[1..]);
    }
  }

  /** Conservation without condition: in every state of the basic ledger each supply is the sum of its balances. */
  lemma BasicReachable(ops: seq<Op>)
    ensures BasicInv(BasicRun(EMPTY_BASIC, ops))
  {
    BasicRunKeepsInv(EMPTY_BASIC, ops);
  }
}

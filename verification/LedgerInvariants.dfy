/** What every operation of the ledger keeps, for every run. */
module LedgerInvariants {
  import opened LedgerTypes
  import opened LedgerSpec

  // ---------- the invariant ----------

  ghost predicate AssetFiled(r: Registry, id: nat)
    requires id in r.assets
  {
    var a := r.assets[id];
    id < r.nextAsset && a.Tidy() &&
    (a.kind.Keyed() ==> a.Key() in r.assetIds && r.assetIds[a.Key()] == id) &&
    (a.kind.Base? ==> r.baseDefined && r.baseId == id)
  }

  ghost predicate AccountFiled(r: Registry, id: nat)
    requires id in r.accounts
  {
    var a := r.accounts[id];
    id < r.nextAccount &&
    (a.kind.WalletAddress? ==> ZeroPrefix(a.id)) &&
    (!a.kind.PlainAccount? ==> a.id in r.accountIds && r.accountIds[a.id] == id)
  }

  ghost predicate AssetTable(r: Registry) {
    r.nextAsset <= r.maxAssets &&
    (forall id :: id in r.assets ==> AssetFiled(r, id)) &&
    (forall b :: b in r.assetIds ==>
      r.assetIds[b] in r.assets && r.assets[r.assetIds[b]].kind.Keyed() && r.assets[r.assetIds[b]].Key() == b)
  }

  ghost predicate AccountTable(r: Registry) {
    r.nextAccount <= r.maxAccounts &&
    (forall id :: id in r.accounts ==> AccountFiled(r, id)) &&
    (forall w :: w in r.accountIds ==>
      r.accountIds[w] in r.accounts && !r.accounts[r.accountIds[w]].kind.PlainAccount? &&
      r.accounts[r.accountIds[w]].id == w)
  }

  /** The two-way tables are exact inverses, ids are below their counters, and at most one base asset is live. */
  ghost predicate Tables(r: Registry) {
    AssetTable(r) && AccountTable(r)
  }

  /** A balance belongs to a live account and an issued asset, and a nonzero one to a live asset. */
  ghost predicate Placed(r: Registry, k: Key, v: Amount) {
    k.account in r.accounts && k.asset < r.nextAsset && (v != 0 ==> k.asset in r.assets)
  }

  ghost predicate Books(l: Ledger) {
    |l.balances| <= l.maxBalances && forall k :: k in l.balances ==> Placed(l.reg, k, l.balances[k])
  }

  /** Sum of an asset's balances over the account ids below n. */
  function Total(balances: map<Key, Amount>, asset: nat, n: nat): nat {
    if n == 0 then 0 else Total(balances, asset, n - 1) + Balance(balances, Key(asset, n - 1))
  }

  function Held(l: Ledger, asset: nat): nat {
    Total(l.balances, asset, l.reg.nextAccount)
  }

  /** The supply covers a sum of balances, and an id token has at most one unit. */
  ghost predicate Covered(a: Asset, held: nat) {
    held <= a.supply && (a.kind.TokenAddressId? ==> a.supply <= 1)
  }

  ghost predicate Solvent(l: Ledger) {
    forall a :: a in l.reg.assets ==> Covered(l.reg.assets[a], Held(l, a))
  }

  ghost predicate Inv(l: Ledger) {
    Tables(l.reg) && Books(l) && Solvent(l)
  }

  // ---------- sums ----------

  /** Changing one balance changes its asset's sum by the same amount and no other sum. */
  lemma {:induction false} TotalChange(b: map<Key, Amount>, c: map<Key, Amount>, k: Key, asset: nat, n: nat)
    requires forall j :: j != k ==> Balance(b, j) == Balance(c, j)
    ensures Total(c, asset, n) ==
            Total(b, asset, n) + if asset == k.asset && k.account < n then Balance(c, k) - Balance(b, k) else 0
  {
    if n > 0 {
      TotalChange(b, c, k, asset, n - 1);
    }
  }

  lemma {:induction false} TotalZero(b: map<Key, Amount>, asset: nat, n: nat)
    ensures Total(b, asset, n) == 0 <==> forall x: nat :: x < n ==> Balance(b, Key(asset, x)) == 0
  {
    if n > 0 {
      TotalZero(b, asset, n - 1);
    }
  }

  /** One balance, or two of different accounts, never exceed the sum. */
  lemma {:induction false} TotalCovers(b: map<Key, Amount>, asset: nat, n: nat, x: nat, y: nat)
    requires x < n && y < n
    ensures Balance(b, Key(asset, x)) + (if x == y then 0 else Balance(b, Key(asset, y))) <= Total(b, asset, n)
  {
    if x < n - 1 && y < n - 1 {
      TotalCovers(b, asset, n - 1, x, y);
    } else if x < n - 1 {
      TotalCovers(b, asset, n - 1, x, x);
    } else if y < n - 1 {
      TotalCovers(b, asset, n - 1, y, y);
    }
  }

  /** Every balance of a live asset is covered by its supply; two accounts' balances are covered together. */
  lemma BalancesWithinSupply(l: Ledger, asset: nat, x: nat, y: nat)
    requires Inv(l) && asset in l.reg.assets
    ensures Balance(l.balances, Key(asset, x)) + (if x == y then 0 else Balance(l.balances, Key(asset, y)))
            <= l.reg.assets[asset].supply
  {
    var n := l.reg.nextAccount;
    assert Covered(l.reg.assets[asset], Held(l, asset));
    assert x >= n ==> Key(asset, x) !in l.balances;
    assert y >= n ==> Key(asset, y) !in l.balances;
    if x < n && y < n {
      TotalCovers(l.balances, asset, n, x, y);
    } else if x < n {
      TotalCovers(l.balances, asset, n, x, x);
    } else if y < n {
      TotalCovers(l.balances, asset, n, y, y);
    }
  }

  // ---------- one balance ----------

  /** Setting a balance changes what one key reads and nothing else; a failure changes nothing in a sound ledger. */
  lemma SetBalanceReads(l: Ledger, k: Key, v: Amount)
    requires Books(l)
    ensures var p := SetBalance(l, k, v);
            p.reply.Done? || (p.reply.Fail? && p.balances == l.balances && k !in l.balances)
    ensures var p := SetBalance(l, k, v);
            forall j :: Balance(p.balances, j) == if j == k && p.reply.Done? then v else Balance(l.balances, j)
  {
    assert k in l.balances ==> Placed(l.reg, k, l.balances[k]);
  }

  lemma SetBalanceSize(l: Ledger, k: Key, v: Amount)
    requires Books(l)
    ensures |SetBalance(l, k, v).balances| <= l.maxBalances
  {
    if k !in l.balances {
      assert l.balances[k := v].Keys == l.balances.Keys + {k};
    } else {
      assert l.balances[k := v].Keys == l.balances.Keys;
      assert (l.balances - {k}).Keys == l.balances.Keys - {k};
    }
  }

  lemma SetBalanceKeepsBooks(l: Ledger, k: Key, v: Amount)
    requires Books(l) && k.asset < l.reg.nextAsset && (v != 0 ==> k.asset in l.reg.assets)
    ensures Books(l.(balances := SetBalance(l, k, v).balances))
  {
    SetBalanceSize(l, k, v);
    var b := SetBalance(l, k, v).balances;
    forall j | j in b
      ensures Placed(l.reg, j, b[j])
    {
      assert j in l.balances ==> Placed(l.reg, j, l.balances[j]);
    }
  }

  // ---------- tables ----------

  lemma NextAssetFree(r: Registry)
    requires AssetTable(r)
    ensures r.nextAsset !in r.assets
  {
  }

  lemma NextAccountFree(r: Registry)
    requires AccountTable(r)
    ensures r.nextAccount !in r.accounts
  {
  }

  lemma RemoveAssetTable(r: Registry, id: nat)
    requires AssetTable(r)
    ensures AssetTable(RemoveAsset(r, id).reg)
  {
  }

  lemma CreateAssetTable(r: Registry, asset: Asset)
    requires AssetTable(r) && asset.Tidy()
    ensures AssetTable(CreateAsset(r, asset).reg)
    ensures r.nextAsset !in r.assets
  {
    NextAssetFree(r);
    if CreateAsset(r, asset).reply.AssetIs? {
      StoreAssetTable(r, asset);
    }
  }

  lemma StoreAssetFiled(r: Registry, asset: Asset, id: nat)
    requires AssetTable(r) && asset.Tidy() && r.nextAsset !in r.assets
    requires asset.kind.Base? ==> !r.baseDefined
    requires asset.kind.Keyed() ==> asset.Key() !in r.assetIds
    ensures var s := StoreAsset(KeyFirst(r, asset), asset).reg; id in s.assets ==> AssetFiled(s, id)
  {
    if id in r.assets {
      assert AssetFiled(r, id);
      hide AssetTable;
    }
  }

  lemma StoreAssetTable(r: Registry, asset: Asset)
    requires AssetTable(r) && asset.Tidy() && r.nextAsset < r.maxAssets && r.nextAsset !in r.assets
    requires asset.kind.Base? ==> !r.baseDefined
    requires asset.kind.Keyed() ==> asset.Key() !in r.assetIds
    ensures AssetTable(StoreAsset(KeyFirst(r, asset), asset).reg)
  {
    hide AssetFiled;
    var s := StoreAsset(KeyFirst(r, asset), asset).reg;
    forall id | id in s.assets
      ensures AssetFiled(s, id)
    {
      StoreAssetFiled(r, asset, id);
    }
  }

  lemma RemoveAccountTable(r: Registry, b: set<Key>, id: nat)
    requires AccountTable(r)
    ensures AccountTable(RemoveAccount(r, b, id).reg)
  {
  }

  lemma CreateAccountTable(r: Registry, account: Account)
    requires AccountTable(r) && (account.kind.WalletAddress? ==> ZeroPrefix(account.id))
    ensures AccountTable(CreateAccount(r, account).reg)
    ensures r.nextAccount !in r.accounts
  {
  }

  lemma SetSupplyTable(r: Registry, id: nat, v: Amount)
    requires AssetTable(r) && id in r.assets
    ensures AssetTable(SetSupply(r, id, v))
  {
    var s := SetSupply(r, id, v);
    forall a | a in s.assets
      ensures AssetFiled(s, a)
    {
      assert AssetFiled(r, a);
      assert s.assets[a].Key() == r.assets[a].Key();
    }
  }

  // ---------- every operation keeps the invariant ----------

  lemma RemoveAssetKeepsInv(l: Ledger, id: nat)
    requires Inv(l)
    ensures Inv(l.(reg := RemoveAsset(l.reg, id).reg))
  {
    RemoveAssetTable(l.reg, id);
    var m := l.(reg := RemoveAsset(l.reg, id).reg);
    if m != l {
      assert Covered(l.reg.assets[id], Held(l, id));
      TotalZero(l.balances, id, l.reg.nextAccount);
      forall k | k in m.balances
        ensures Placed(m.reg, k, m.balances[k])
      {
        assert Placed(l.reg, k, l.balances[k]);
        if k.asset == id {
          assert AccountFiled(l.reg, k.account);
          assert Balance(l.balances, Key(id, k.account)) == 0;
        }
      }
      assert forall a :: a in m.reg.assets ==> a in l.reg.assets && m.reg.assets[a] == l.reg.assets[a];
    }
  }

  lemma CreateAssetKeepsInv(l: Ledger, asset: Asset)
    requires Inv(l) && asset.Tidy() && asset.supply == 0
    ensures Inv(l.(reg := CreateAsset(l.reg, asset).reg))
  {
    CreateAssetTable(l.reg, asset);
    var m := l.(reg := CreateAsset(l.reg, asset).reg);
    var id := l.reg.nextAsset;
    forall x: nat | x < l.reg.nextAccount
      ensures Balance(l.balances, Key(id, x)) == 0
    {
      assert Key(id, x) in l.balances ==> Placed(l.reg, Key(id, x), l.balances[Key(id, x)]);
    }
    TotalZero(l.balances, id, l.reg.nextAccount);
    forall k | k in m.balances
      ensures Placed(m.reg, k, m.balances[k])
    {
      assert Placed(l.reg, k, l.balances[k]);
    }
  }

  lemma RemoveAccountKeepsInv(l: Ledger, id: nat)
    requires Inv(l)
    ensures Inv(l.(reg := RemoveAccount(l.reg, l.balances.Keys, id).reg))
  {
    RemoveAccountTable(l.reg, l.balances.Keys, id);
    var m := l.(reg := RemoveAccount(l.reg, l.balances.Keys, id).reg);
    if m != l {
      forall k | k in m.balances
        ensures Placed(m.reg, k, m.balances[k])
      {
        assert Placed(l.reg, k, l.balances[k]);
        assert k !in Holdings(l.balances.Keys, id);
      }
    }
  }

  lemma CreateAccountKeepsInv(l: Ledger, account: Account)
    requires Inv(l) && (account.kind.WalletAddress? ==> ZeroPrefix(account.id))
    ensures Inv(l.(reg := CreateAccount(l.reg, account).reg))
  {
    CreateAccountTable(l.reg, account);
    var m := l.(reg := CreateAccount(l.reg, account).reg);
    forall k | k in m.balances
      ensures Placed(m.reg, k, m.balances[k])
    {
      assert Placed(l.reg, k, l.balances[k]);
    }
    CreateAccountKeepsSums(l, account);
  }

  lemma CreateAccountScope(r: Registry, account: Account)
    ensures var s := CreateAccount(r, account).reg;
            s.assets == r.assets && r.nextAccount <= s.nextAccount <= r.nextAccount + 1
  {
  }

  /** The id of a new account has no balance yet, so counting it in changes no sum. */
  lemma CreateAccountKeepsSums(l: Ledger, account: Account)
    requires AccountTable(l.reg) && Books(l) && Solvent(l)
    ensures Solvent(l.(reg := CreateAccount(l.reg, account).reg))
  {
    hide CreateAccount, AccountTable, Covered;
    var m := l.(reg := CreateAccount(l.reg, account).reg);
    CreateAccountScope(l.reg, account);
    NextAccountFree(l.reg);
    forall a | a in m.reg.assets
      ensures Held(m, a) == Held(l, a)
    {
      var k := Key(a, l.reg.nextAccount);
      assert k in l.balances ==> Placed(l.reg, k, l.balances[k]);
    }
  }

  /** A request for an asset leaves the tables alone, removes what it found, or creates what it asked for. */
  lemma FileAssetCases(r: Registry, q: AssetQuery, op: Retrieval)
    ensures var s, hit := FileAsset(r, q, op).reg, LookupAsset(r, q, op);
            s == r || (hit.Hit? && s == RemoveAsset(r, hit.id).reg) || s == CreateAsset(r, q.Fresh()).reg
  {
  }

  lemma FileAccountCases(r: Registry, b: set<Key>, q: AccountQuery, op: Retrieval)
    ensures var s, hit := FileAccount(r, b, q, op).reg, LookupAccount(r, q);
            s == r || (hit.Hit? && s == RemoveAccount(r, b, hit.id).reg) || s == CreateAccount(r, q.Fresh()).reg
  {
  }

  lemma RetrieveAssetKeepsInv(l: Ledger, q: AssetQuery, op: Retrieval)
    requires Inv(l)
    ensures Inv(l.(reg := FileAsset(l.reg, q, op).reg))
  {
    FileAssetCases(l.reg, q, op);
    var s, hit := FileAsset(l.reg, q, op).reg, LookupAsset(l.reg, q, op);
    if s == l.reg {
      assert l.(reg := s) == l;
    } else if hit.Hit? && s == RemoveAsset(l.reg, hit.id).reg {
      RemoveAssetKeepsInv(l, hit.id);
    } else {
      CreateAssetKeepsInv(l, q.Fresh());
    }
  }

  lemma RetrieveAccountKeepsInv(l: Ledger, q: AccountQuery, op: Retrieval)
    requires Inv(l)
    ensures Inv(l.(reg := FileAccount(l.reg, l.balances.Keys, q, op).reg))
  {
    FileAccountCases(l.reg, l.balances.Keys, q, op);
    var s, hit := FileAccount(l.reg, l.balances.Keys, q, op).reg, LookupAccount(l.reg, q);
    if s == l.reg {
      assert l.(reg := s) == l;
    } else if hit.Hit? && s == RemoveAccount(l.reg, l.balances.Keys, hit.id).reg {
      RemoveAccountKeepsInv(l, hit.id);
    } else {
      CreateAccountKeepsInv(l, q.Fresh());
    }
  }

  /** The sums after one balance was set. */
  lemma PostingMovesSum(l: Ledger, k: Key, v: Amount, asset: nat)
    requires Books(l)
    ensures var p := SetBalance(l, k, v);
            Total(p.balances, asset, l.reg.nextAccount) ==
            Held(l, asset) + if p.reply.Done? && asset == k.asset && k.account < l.reg.nextAccount
                             then v - Balance(l.balances, k) else 0
  {
    SetBalanceReads(l, k, v);
    TotalChange(l.balances, SetBalance(l, k, v).balances, k, asset, l.reg.nextAccount);
  }

  /** A posting that leaves its asset covered keeps the invariant. */
  lemma PostingKeepsInv(l: Ledger, k: Key, v: Amount)
    requires Inv(l) && k.asset in l.reg.assets && k.account in l.reg.accounts
    requires Held(l, k.asset) + v - Balance(l.balances, k) <= l.reg.assets[k.asset].supply
    ensures Inv(l.(balances := SetBalance(l, k, v).balances))
  {
    var m := l.(balances := SetBalance(l, k, v).balances);
    assert AssetFiled(l.reg, k.asset);
    SetBalanceKeepsBooks(l, k, v);
    forall a | a in m.reg.assets
      ensures Covered(m.reg.assets[a], Held(m, a))
    {
      assert Covered(l.reg.assets[a], Held(l, a));
      PostingMovesSum(l, k, v, a);
    }
  }

  lemma SettleShape(l: Ledger, k: Key, balance: Amount, supply: Amount)
    requires Books(l) && k.asset in l.reg.assets && k.account in l.reg.accounts
    ensures var o, p := Settle(l, k, balance, supply), SetBalance(l, k, balance);
            if p.reply.Done? then
              o == Outcome(Ledger(SetSupply(l.reg, k.asset, supply), p.balances, l.maxBalances), Done)
            else o == Failed(l, MaxBalancesReached)
  {
    SetBalanceReads(l, k, balance);
  }

  /** What changes when a balance and its asset's supply are stored together. */
  lemma SettleSums(l: Ledger, k: Key, balance: Amount, supply: Amount)
    requires Inv(l) && k.asset in l.reg.assets && k.account in l.reg.accounts
    requires SetBalance(l, k, balance).reply.Done?
    ensures forall a :: a in l.reg.assets ==>
              Total(SetBalance(l, k, balance).balances, a, l.reg.nextAccount)
              == Held(l, a) + if a == k.asset then balance - Balance(l.balances, k) else 0
  {
    assert AccountFiled(l.reg, k.account);
    forall a | a in l.reg.assets
      ensures Total(SetBalance(l, k, balance).balances, a, l.reg.nextAccount)
              == Held(l, a) + if a == k.asset then balance - Balance(l.balances, k) else 0
    {
      PostingMovesSum(l, k, balance, a);
    }
  }

  lemma SettleKeepsInv(l: Ledger, k: Key, balance: Amount, supply: Amount)
    requires Inv(l) && k.asset in l.reg.assets && k.account in l.reg.accounts
    requires supply - balance == l.reg.assets[k.asset].supply - Balance(l.balances, k)
    requires l.reg.assets[k.asset].kind.TokenAddressId? ==> supply <= 1
    requires SetBalance(l, k, balance).reply.Done?
    ensures Inv(Ledger(SetSupply(l.reg, k.asset, supply), SetBalance(l, k, balance).balances, l.maxBalances))
  {
    var b := SetBalance(l, k, balance).balances;
    var m := Ledger(SetSupply(l.reg, k.asset, supply), b, l.maxBalances);
    assert AssetFiled(l.reg, k.asset);
    SetSupplyTable(l.reg, k.asset, supply);
    SetBalanceKeepsBooks(l, k, balance);
    forall j | j in b
      ensures Placed(m.reg, j, b[j])
    {
      assert Placed(l.(balances := b).reg, j, b[j]);
    }
    SettleSums(l, k, balance, supply);
    forall a | a in m.reg.assets
      ensures Covered(m.reg.assets[a], Held(m, a))
    {
      assert Covered(l.reg.assets[a], Held(l, a));
    }
  }

  /** Deposit and withdraw end the same way: the invariant is kept, the asset's sum moves by the change of the
      balance, and a balance that cannot be stored leaves the ledger as it was. */
  ghost predicate Sound(l: Ledger, o: Outcome, asset: nat, change: int) {
    Inv(o.ledger) && (o.reply.Fail? ==> o.ledger == l) &&
    (o.reply.Done? ==>
      forall a :: a in l.reg.assets ==> Held(o.ledger, a) == Held(l, a) + if a == asset then change else 0)
  }

  lemma SettleSound(l: Ledger, k: Key, balance: Amount, supply: Amount)
    requires Inv(l) && k.asset in l.reg.assets && k.account in l.reg.accounts
    requires supply - balance == l.reg.assets[k.asset].supply - Balance(l.balances, k)
    requires l.reg.assets[k.asset].kind.TokenAddressId? ==> supply <= 1
    ensures Sound(l, Settle(l, k, balance, supply), k.asset, balance - Balance(l.balances, k))
    ensures Settle(l, k, balance, supply).reply != Fail(BalanceOverflow)
  {
    SettleShape(l, k, balance, supply);
    if SetBalance(l, k, balance).reply.Done? {
      SettleKeepsInv(l, k, balance, supply);
      SettleSums(l, k, balance, supply);
    }
  }

  /** The checks a deposit makes before it touches anything, apart from the overflow of the balance. */
  ghost predicate DepositAllowed(l: Ledger, asset: nat, account: nat, v: Amount) {
    v != 0 && asset in l.reg.assets && l.reg.assets[asset].supply + v < AMOUNT_LIMIT && account in l.reg.accounts &&
    (l.reg.assets[asset].kind.TokenAddressId? ==> l.reg.assets[asset].supply == 0 && v == 1)
  }

  /** What a deposit comes to: the two postings of Settle if it is allowed, otherwise an error and no change. */
  ghost predicate DepositOutcome(l: Ledger, asset: nat, account: nat, v: Amount, o: Outcome) {
    var k := Key(asset, account);
    if DepositAllowed(l, asset, account, v) then
      Balance(l.balances, k) + v < AMOUNT_LIMIT &&
      o == Settle(l, k, Balance(l.balances, k) + v, l.reg.assets[asset].supply + v)
    else o.reply.Fail? && o.ledger == l && (o.reply.error == BalanceOverflow <==> v == 0)
  }

  lemma DepositShape(l: Ledger, asset: nat, account: nat, v: Amount)
    requires Inv(l)
    ensures DepositOutcome(l, asset, account, v, DepositStep(l, asset, account, v))
  {
    if asset in l.reg.assets {
      BalancesWithinSupply(l, asset, account, account);
    }
  }

  lemma DepositOutcomeSound(l: Ledger, asset: nat, account: nat, v: Amount, o: Outcome)
    requires Inv(l) && DepositOutcome(l, asset, account, v, o)
    ensures Sound(l, o, asset, v)
    ensures o.reply == Fail(BalanceOverflow) <==> v == 0
  {
    hide Settle;
    if DepositAllowed(l, asset, account, v) {
      SettleSound(l, Key(asset, account), Balance(l.balances, Key(asset, account)) + v, l.reg.assets[asset].supply + v);
    }
  }

  /** Deposit: the invariant is kept, a failure changes nothing, and no sound ledger's balance can overflow: the code
      reports an overflow of the balance exactly for a deposit of zero. */
  lemma DepositSound(l: Ledger, asset: nat, account: nat, v: Amount)
    requires Inv(l)
    ensures Sound(l, DepositStep(l, asset, account, v), asset, v)
    ensures DepositStep(l, asset, account, v).reply == Fail(BalanceOverflow) <==> v == 0
  {
    DepositShape(l, asset, account, v);
    DepositOutcomeSound(l, asset, account, v, DepositStep(l, asset, account, v));
  }

  ghost predicate WithdrawAllowed(l: Ledger, asset: nat, account: nat, v: Amount) {
    asset in l.reg.assets && account in l.reg.accounts && v <= Balance(l.balances, Key(asset, account))
  }

  ghost predicate WithdrawOutcome(l: Ledger, asset: nat, account: nat, v: Amount, o: Outcome) {
    var k := Key(asset, account);
    if WithdrawAllowed(l, asset, account, v) then
      v <= l.reg.assets[asset].supply &&
      o == Settle(l, k, Balance(l.balances, k) - v, l.reg.assets[asset].supply - v)
    else o.reply.Fail? && o.ledger == l
  }

  /** A withdrawal the sender can afford never fails on the supply. */
  lemma WithdrawShape(l: Ledger, asset: nat, account: nat, v: Amount)
    requires Inv(l)
    ensures WithdrawOutcome(l, asset, account, v, WithdrawStep(l, asset, account, v))
  {
    if asset in l.reg.assets {
      BalancesWithinSupply(l, asset, account, account);
    }
  }

  lemma WithdrawOutcomeSound(l: Ledger, asset: nat, account: nat, v: Amount, o: Outcome)
    requires Inv(l) && WithdrawOutcome(l, asset, account, v, o)
    ensures Sound(l, o, asset, 0 - v)
  {
    hide Settle;
    if WithdrawAllowed(l, asset, account, v) {
      assert Covered(l.reg.assets[asset], Held(l, asset));
      SettleSound(l, Key(asset, account), Balance(l.balances, Key(asset, account)) - v, l.reg.assets[asset].supply - v);
    }
  }

  /** Withdraw: the invariant is kept and a failure changes nothing. */
  lemma WithdrawSound(l: Ledger, asset: nat, account: nat, v: Amount)
    requires Inv(l)
    ensures Sound(l, WithdrawStep(l, asset, account, v), asset, 0 - v)
  {
    WithdrawShape(l, asset, account, v);
    WithdrawOutcomeSound(l, asset, account, v, WithdrawStep(l, asset, account, v));
  }

  /** The checks a transfer makes before it touches a balance. */
  ghost predicate TransferAllowed(l: Ledger, op: Op)
    requires op.Transfer?
  {
    op.asset in l.reg.assets && op.from != op.to && op.from in l.reg.accounts && op.to in l.reg.accounts &&
    op.amount <= Balance(l.balances, Key(op.asset, op.from))
  }

  /** The posting that debits the sender. */
  function Debit(l: Ledger, op: Op): Posting
    requires op.Transfer? && op.amount <= Balance(l.balances, Key(op.asset, op.from))
  {
    SetBalance(l, Key(op.asset, op.from), Balance(l.balances, Key(op.asset, op.from)) - op.amount)
  }

  /** The posting that credits the receiver, once the sender was debited. */
  function Credit(l: Ledger, op: Op): Posting
    requires op.Transfer? && op.amount <= Balance(l.balances, Key(op.asset, op.from))
    requires Balance(l.balances, Key(op.asset, op.to)) + op.amount < AMOUNT_LIMIT
  {
    SetBalance(l.(balances := Debit(l, op).balances), Key(op.asset, op.to),
               Balance(l.balances, Key(op.asset, op.to)) + op.amount)
  }

  /** An allowed transfer is a debit and then, if that worked, a credit that cannot overflow. */
  lemma TransferShape(l: Ledger, op: Op)
    requires Inv(l) && op.Transfer? && TransferAllowed(l, op)
    ensures Balance(l.balances, Key(op.asset, op.to)) + op.amount < AMOUNT_LIMIT
    ensures Step(l, op) == if Debit(l, op).reply.Fail? then
                             Outcome(l.(balances := Debit(l, op).balances), Debit(l, op).reply)
                           else Outcome(l.(balances := Credit(l, op).balances), Credit(l, op).reply)
  {
    BalancesWithinSupply(l, op.asset, op.from, op.to);
  }

  /** After the debit: the invariant holds and the asset's sum is short by the amount. */
  lemma DebitSound(l: Ledger, op: Op)
    requires Inv(l) && op.Transfer? && TransferAllowed(l, op)
    ensures var m := l.(balances := Debit(l, op).balances);
            Inv(m) && (Debit(l, op).reply.Done? || m == l) &&
            Balance(m.balances, Key(op.asset, op.to)) == Balance(l.balances, Key(op.asset, op.to)) &&
            (forall a :: a in l.reg.assets ==>
              Held(m, a) == Held(l, a) - if a == op.asset && Debit(l, op).reply.Done? then op.amount else 0)
  {
    var k := Key(op.asset, op.from);
    var v := Balance(l.balances, k) - op.amount;
    assert Covered(l.reg.assets[op.asset], Held(l, op.asset));
    assert AccountFiled(l.reg, op.from);
    PostingKeepsInv(l, k, v);
    SetBalanceReads(l, k, v);
    forall a | a in l.reg.assets
      ensures Total(Debit(l, op).balances, a, l.reg.nextAccount)
              == Held(l, a) - if a == op.asset && Debit(l, op).reply.Done? then op.amount else 0
    {
      PostingMovesSum(l, k, v, a);
    }
  }

  /** Transfer: the invariant is kept, the balance cannot overflow, and success leaves every asset's sum unchanged. */
  lemma TransferSound(l: Ledger, op: Op)
    requires Inv(l) && op.Transfer?
    ensures var o := Step(l, op);
            Inv(o.ledger) && o.reply != Fail(BalanceOverflow) && o.ledger.reg == l.reg
    ensures var o := Step(l, op);
            o.reply.Done? ==> forall a :: a in l.reg.assets ==> Held(o.ledger, a) == Held(l, a)
  {
    hide Step, TransferStep;
    if TransferAllowed(l, op) {
      TransferShape(l, op);
      DebitSound(l, op);
      if Debit(l, op).reply.Done? {
        var m := l.(balances := Debit(l, op).balances);
        var k := Key(op.asset, op.to);
        var v := Balance(l.balances, k) + op.amount;
        assert Covered(l.reg.assets[op.asset], Held(l, op.asset));
        assert AccountFiled(l.reg, op.to);
        PostingKeepsInv(m, k, v);
        SetBalanceReads(m, k, v);
        forall a | a in l.reg.assets
          ensures Total(Credit(l, op).balances, a, l.reg.nextAccount)
                  == Held(m, a) + if a == op.asset && Credit(l, op).reply.Done? then op.amount else 0
        {
          PostingMovesSum(m, k, v, a);
        }
      }
    } else {
      TransferRefused(l, op);
    }
  }

  lemma TransferRefused(l: Ledger, op: Op)
    requires Inv(l) && op.Transfer? && !TransferAllowed(l, op)
    ensures Step(l, op).ledger == l && Step(l, op).reply.Fail? && Step(l, op).reply != Fail(BalanceOverflow)
  {
  }

  lemma StepKeepsInv(l: Ledger, op: Op)
    requires Inv(l)
    ensures Inv(Step(l, op).ledger)
  {
    match op
    case RetrieveAsset(q, r) => RetrieveAssetKeepsInv(l, q, r);
    case RetrieveAccount(q, r) => RetrieveAccountKeepsInv(l, q, r);
    case Deposit(a, t, v) => DepositSound(l, a, t, v);
    case Withdraw(a, f, v) => WithdrawSound(l, a, f, v);
    case Transfer(_, _, _, _) => TransferSound(l, op);
    case Clear =>
  }

  lemma {:induction false} RunKeepsInv(l: Ledger, ops: seq<Op>)
    requires Inv(l)
    ensures Inv(Run(l, ops))
    decreases |ops|
  {
    if ops != [] {
      StepKeepsInv(l, ops[0]);
      RunKeepsInv(Step(l, ops[0]).ledger, ops[1..]);
    }
  }

  /** Every reachable ledger, from creation with any limits through any operations, satisfies the invariant. */
  lemma ReachableInv(maxAccounts: nat, maxAssets: nat, maxBalances: nat, ops: seq<Op>)
    ensures Inv(Run(Empty(maxAccounts, maxAssets, maxBalances), ops))
  {
    RunKeepsInv(Empty(maxAccounts, maxAssets, maxBalances), ops);
  }
}

/** cma_ledger_memory: the ledger object with its tables, counters and dense balance lists, updated in place. */
module MemoryLedgers {
  import opened LedgerTypes
  import opened LedgerSpec
  import opened DenseStore
  import LedgerInvariants
  import LedgerTheorems

  datatype AccountEntry = AccountEntry(account: Account, nBalances: nat)

  function Plain(m: map<nat, AccountEntry>): (p: map<nat, Account>)
    ensures p.Keys == m.Keys
  {
    map id | id in m :: m[id].account
  }

  /** Every account's counter is the number of balance keys that name it. */
  ghost predicate Counted(m: map<nat, AccountEntry>, keys: set<Key>) {
    forall id :: id in m ==> m[id].nBalances == |Holdings(keys, id)|
  }

  /** Assets have issued ids and leave the fields they do not use at zero. */
  ghost predicate Filed(assets: map<nat, Asset>, next: nat) {
    forall id :: id in assets ==> id < next && assets[id].Tidy()
  }

  class MemoryLedger {
    const maxAccounts: nat
    const maxAssets: nat
    const maxBalances: nat
    const balances: array<Slot>
    var virtualBalances: seq<Amount>
    var lassidToAsset: map<nat, Asset>
    var assetToLassid: map<AssetKey, nat>
    var laccidToAccount: map<nat, AccountEntry>
    var accountToLaccid: map<Word, nat>
    var accountAssetBalance: map<Key, Ref>
    var lastBalances: seq<Key>
    var lastVirtualBalances: seq<Key>
    var nextAssetId: nat
    var nextAccountId: nat
    var baseAssetId: nat
    var baseAssetIdDefined: bool

    /** The balance lists as a value. */
    ghost function Stored(): Store
      reads this, balances
    {
      Store(balances[..], lastBalances, virtualBalances, lastVirtualBalances, accountAssetBalance)
    }

    /** The tables as a value. */
    ghost function Reg(): Registry
      reads this
    {
      Registry(maxAccounts, maxAssets, lassidToAsset, assetToLassid, Plain(laccidToAccount), accountToLaccid,
               nextAssetId, nextAccountId, baseAssetId, baseAssetIdDefined)
    }

    ghost predicate Valid()
      reads this, balances
    {
      StoreOk(Stored(), Reg(), maxBalances) && Counted(laccidToAccount, accountAssetBalance.Keys) &&
      Filed(lassidToAsset, nextAssetId)
    }

    /** The plain-map ledger this object implements. */
    ghost function Model(): Ledger
      reads this, balances
      requires Valid()
    {
      Ledger(Reg(), Balances(Stored()), maxBalances)
    }

    /** Creation over a zeroed balance region. */
    constructor (nAccounts: nat, nAssets: nat, nBalances: nat)
      ensures Valid() && Model() == Empty(nAccounts, nAssets, nBalances)
      ensures fresh(balances)
    {
      maxAccounts, maxAssets, maxBalances := nAccounts, nAssets, nBalances;
      balances := new Slot[nBalances](_ => ZERO_SLOT);
      virtualBalances, lastBalances, lastVirtualBalances := [], [], [];
      lassidToAsset, assetToLassid, laccidToAccount, accountToLaccid := map[], map[], map[], map[];
      accountAssetBalance := map[];
      nextAssetId, nextAccountId, baseAssetId, baseAssetIdDefined := 0, 0, 0, false;
    }

    // ---------- assets ----------

    method RemoveAsset(id: nat) returns (r: Reply)
      requires Valid()
      modifies this
      ensures Valid() && Stored() == old(Stored())
      ensures Filing(Reg(), r) == LedgerSpec.RemoveAsset(old(Reg()), id)
    {
      hide StoreOk, Counted, Holdings, Plain, Filed;
      RemoveAssetOk(Stored(), Reg(), maxBalances, id);
      if id !in lassidToAsset {
        return Fail(AssetNotFound);
      }
      var asset := lassidToAsset[id];
      if asset.supply != 0 {
        return Fail(AssetHasSupply);
      }
      match asset.kind {
        case PlainAsset =>
        case Base =>
          baseAssetIdDefined := false;
        case _ =>
          if asset.Key() !in assetToLassid {
            return Fail(RemoveError);
          }
          assetToLassid := assetToLassid - {asset.Key()};
      }
      lassidToAsset := lassidToAsset - {id};
      return AssetIs(id, asset);
    }

    method StoreAsset(asset: Asset) returns (r: Reply)
      requires Valid() && asset.Tidy()
      modifies this
      ensures Valid() && Stored() == old(Stored())
      ensures Filing(Reg(), r) == LedgerSpec.StoreAsset(old(Reg()), asset)
    {
      hide StoreOk, Counted, Holdings, Plain, Filed;
      StoreAssetOk(Stored(), Reg(), maxBalances, asset);
      if nextAssetId in lassidToAsset {
        return Fail(InsertionError);
      }
      r := AssetIs(nextAssetId, asset);
      if asset.kind.Base? {
        baseAssetId, baseAssetIdDefined := nextAssetId, true;
      }
      lassidToAsset, nextAssetId := lassidToAsset[nextAssetId := asset], nextAssetId + 1;
    }

    method CreateAsset(asset: Asset) returns (r: Reply)
      requires Valid() && asset.Tidy()
      modifies this
      ensures Valid() && Stored() == old(Stored())
      ensures Filing(Reg(), r) == LedgerSpec.CreateAsset(old(Reg()), asset)
    {
      hide StoreOk, Counted, Holdings, Plain, Filed, LedgerSpec.StoreAsset;
      if nextAssetId >= maxAssets {
        return Fail(MaxAssetsReached);
      }
      if asset.kind.Base? && baseAssetIdDefined {
        return Fail(InsertionError);
      }
      if asset.kind.Keyed() {
        if asset.Key() in assetToLassid {
          return Fail(InsertionError);
        }
        RegistryShrinks(Stored(), Reg(), Reg().(assetIds := assetToLassid[asset.Key() := nextAssetId]), maxBalances);
        assetToLassid := assetToLassid[asset.Key() := nextAssetId];
      }
      r := StoreAsset(asset);
    }

    /** retrieve_asset: find, create, or remove an asset by id, as the base asset, or by its token. */
    method RetrieveAsset(q: AssetQuery, op: Retrieval) returns (r: Reply)
      requires Valid()
      modifies this
      ensures Valid() && Stored() == old(Stored())
      ensures Filing(Reg(), r) == FileAsset(old(Reg()), q, op)
    {
      hide StoreOk, Counted, Holdings, LedgerSpec.RemoveAsset, LedgerSpec.CreateAsset;
      if op.Finds() {
        var hit := Miss;
        match q {
          case AssetById(id) => hit := Hit(id);
          case BaseAsset(id) => hit := Hit(if op.Find? && baseAssetIdDefined then baseAssetId else id);
          case _ =>
            var key := q.Fresh().Key();
            if key in assetToLassid {
              hit := Hit(assetToLassid[key]);
            }
        }
        if hit.Hit? && hit.id in lassidToAsset {
          if op.FindAndRemove? {
            r := RemoveAsset(hit.id);
            return;
          }
          return AssetIs(hit.id, lassidToAsset[hit.id]);
        }
        if (hit.Hit? && q.Fresh().kind.Keyed()) || !op.Creates() {
          return Fail(AssetNotFound);
        }
      }
      r := CreateAsset(q.Fresh());
    }

    // ---------- accounts ----------

    method RemoveAccount(id: nat) returns (r: Reply)
      requires Valid()
      modifies this
      ensures Valid() && Stored() == old(Stored())
      ensures Filing(Reg(), r) == LedgerSpec.RemoveAccount(old(Reg()), accountAssetBalance.Keys, id)
    {
      hide StoreOk, Counted, Holdings, Filed;
      RemoveAccountOk(Stored(), Reg(), maxBalances, id);
      CountedLess(laccidToAccount, accountAssetBalance.Keys, id);
      if id !in laccidToAccount {
        return Fail(AccountNotFound);
      }
      var entry := laccidToAccount[id];
      if entry.nBalances > 0 {
        return Fail(AccountHasBalance);
      }
      if !entry.account.kind.PlainAccount? {
        if entry.account.id !in accountToLaccid {
          return Fail(RemoveError);
        }
        accountToLaccid := accountToLaccid - {entry.account.id};
      }
      assert Plain(laccidToAccount - {id}) == Plain(laccidToAccount) - {id};
      laccidToAccount := laccidToAccount - {id};
      return AccountIs(id, entry.account);
    }

    method CreateAccount(account: Account) returns (r: Reply)
      requires Valid()
      modifies this
      ensures Valid() && Stored() == old(Stored())
      ensures Filing(Reg(), r) == LedgerSpec.CreateAccount(old(Reg()), account)
    {
      hide StoreOk;
      if nextAccountId >= maxAccounts {
        return Fail(MaxAccountsReached);
      }
      ghost var before := Reg();
      if !account.kind.PlainAccount? {
        if account.id in accountToLaccid {
          return Fail(InsertionError);
        }
        accountToLaccid := accountToLaccid[account.id := nextAccountId];
      }
      if nextAccountId in laccidToAccount {
        RegistryShrinks(Stored(), before, Reg(), maxBalances);
        return Fail(InsertionError);
      }
      laccidToAccount := laccidToAccount[nextAccountId := AccountEntry(account, 0)];
      assert Plain(laccidToAccount) == before.accounts[nextAccountId := account];
      r := AccountIs(nextAccountId, account);
      NoHoldings(Stored(), before, maxBalances, nextAccountId);
      nextAccountId := nextAccountId + 1;
      RegistryGrows(Stored(), before, Reg(), maxBalances);
    }

    /** retrieve_account: find, create, or remove an account by id, wallet address or 32-byte id. */
    method RetrieveAccount(q: AccountQuery, op: Retrieval) returns (r: Reply, held: Hit)
      requires Valid()
      modifies this
      ensures Valid() && Stored() == old(Stored())
      ensures Filing(Reg(), r) == FileAccount(old(Reg()), accountAssetBalance.Keys, q, op)
      ensures var hit := LookupAccount(old(Reg()), q);
              held == if op.Finds() && hit.Hit? && hit.id in old(Reg()).accounts
                      then Hit(|Holdings(accountAssetBalance.Keys, hit.id)|) else Miss
    {
      hide StoreOk, Holdings, LedgerSpec.RemoveAccount, LedgerSpec.CreateAccount;
      held := Miss;
      if op.Finds() {
        var hit := Miss;
        if q.AccountById? {
          hit := Hit(q.id);
        } else if q.Fresh().id in accountToLaccid {
          hit := Hit(accountToLaccid[q.Fresh().id]);
        }
        if hit.Hit? && hit.id in laccidToAccount {
          held := Hit(laccidToAccount[hit.id].nBalances);
          if op.FindAndRemove? {
            r := RemoveAccount(hit.id);
            return;
          }
          return AccountIs(hit.id, laccidToAccount[hit.id].account), held;
        }
        if (hit.Hit? && !q.AccountById?) || !op.Creates() {
          return Fail(AccountNotFound), held;
        }
      }
      r := CreateAccount(q.Fresh());
    }

    // ---------- balances ----------

    /** get_account_asset_balance: the balance, zero if none is stored, and the record index of a withdrawable one. */
    method GetBalance(k: Key) returns (v: Amount, record: Hit)
      requires Valid()
      ensures v == Balance(Model().balances, k)
      ensures record.Hit? <==> exists i :: 0 <= i < |lastBalances| && lastBalances[i] == k
      ensures record.Hit? ==>
                record.id < |lastBalances| && lastBalances[record.id] == k && balances[record.id].amount == v
      ensures k.asset in lassidToAsset && k in accountAssetBalance ==>
                k.account in laccidToAccount &&
                (record.Hit? <==> !lassidToAsset[k.asset].kind.PlainAsset? &&
                                  laccidToAccount[k.account].account.kind.WalletAddress?)
    {
      if k !in accountAssetBalance {
        return 0, Miss;
      }
      assert InPlace(Stored(), k);
      if k.asset in lassidToAsset {
        RecordExactly(Stored(), Reg(), maxBalances, k);
      }
      match accountAssetBalance[k] {
        case Virtual(i) => return virtualBalances[i], Miss;
        case Withdrawable(i) => return balances[i].amount, Hit(i);
      }
    }

    /** set_account_asset_balance: creates, updates or deletes the entry. */
    method SetBalance(k: Key, v: Amount) returns (r: Reply)
      requires Valid()
      modifies this, balances
      ensures Valid() && Reg() == old(Reg())
      ensures Posting(Model().balances, r) == LedgerSpec.SetBalance(old(Model()), k, v)
      ensures r.Fail? || (v != 0 && v == Balance(old(Model()).balances, k)) ==> Stored() == old(Stored())
    {
      hide Linked, Described, Counted, Holdings, InPlace, Read;
      KeyPlaces(Stored(), Reg(), maxBalances);
      if k in accountAssetBalance {
        ChangeEntry(k, v);
        return Done;
      }
      assert |Balances(Stored())| == |accountAssetBalance| by {
        assert |Balances(Stored()).Keys| == |accountAssetBalance.Keys|;
      }
      if |accountAssetBalance| >= maxBalances {
        return Fail(MaxBalancesReached);
      }
      if k.asset !in lassidToAsset {
        return Fail(AssetNotFound);
      }
      if k.account !in laccidToAccount {
        return Fail(AccountNotFound);
      }
      ghost var before := Stored();
      if lassidToAsset[k.asset].kind.PlainAsset? || !laccidToAccount[k.account].account.kind.WalletAddress? {
        AddVirtualBalances(before, k, v);
        InsertVirtual(k, v);
      } else {
        InsertWithdrawable(k, v);
        AddWithdrawableBalances(before, k, SlotFor(Reg().assets[k.asset], Reg().accounts[k.account], v));
      }
      return Done;
    }

    /** The second half of set_account_asset_balance: the entry exists. */
    method ChangeEntry(k: Key, v: Amount)
      requires Valid() && k in accountAssetBalance
      modifies this, balances
      ensures Valid() && Reg() == old(Reg())
      ensures Model().balances == if v != 0 then old(Model()).balances[k := v] else old(Model()).balances - {k}
      ensures v != 0 && v == old(Model()).balances[k] ==> Stored() == old(Stored())
    {
      hide Described, Counted, Holdings, InPlace, Read, Linked, Balances;
      ghost var before := Stored();
      UpdateToSame(before, k);
      UpdateBalances(before, k, v);
      UpdateLinked(before, k, v);
      Overwrite(k, v);
      if v == 0 {
        RemoveBalances(Stored(), k);
        if accountAssetBalance[k].Virtual? {
          DeleteVirtual(k);
        } else {
          DeleteWithdrawable(k);
        }
        assert Balances(before)[k := 0] - {k} == Balances(before) - {k};
      }
    }

    /** Counts one balance more or less for an account; the account itself is untouched. */
    method Recount(account: nat, n: nat)
      requires account in laccidToAccount
      modifies this`laccidToAccount
      ensures laccidToAccount == old(laccidToAccount)[account := old(laccidToAccount)[account].(nBalances := n)]
      ensures Reg() == old(Reg())
    {
      laccidToAccount := laccidToAccount[account := laccidToAccount[account].(nBalances := n)];
      assert Plain(laccidToAccount) == Plain(old(laccidToAccount));
    }

    method InsertVirtual(k: Key, v: Amount)
      requires Valid() && k !in accountAssetBalance && |accountAssetBalance| < maxBalances
      requires k.asset in lassidToAsset && k.account in laccidToAccount && VirtualFits(Reg(), k)
      requires k.asset < nextAssetId
      modifies this
      ensures Valid() && Reg() == old(Reg()) && Stored() == AddVirtual(old(Stored()), k, v)
    {
      hide Described, Balances, Read, InPlace, Holdings, Counted, StoreOk, Linked, Plain, Filed;
      ghost var before := Stored();
      OkLinked(before, Reg(), maxBalances);
      AddVirtualOk(before, Reg(), maxBalances, k, v);
      virtualBalances := virtualBalances + [v];
      accountAssetBalance := accountAssetBalance[k := Virtual(|virtualBalances| - 1)];
      lastVirtualBalances := lastVirtualBalances + [k];
      assert accountAssetBalance.Keys == before.refs.Keys + {k};
      CountedUp(laccidToAccount, before.refs.Keys, k);
      Recount(k.account, laccidToAccount[k.account].nBalances + 1);
    }

    /** Writes only the fields the asset's type has; the rest of a free slot is zero already. */
    method InsertWithdrawable(k: Key, v: Amount)
      requires Valid() && k !in accountAssetBalance && |accountAssetBalance| < maxBalances
      requires k.asset in lassidToAsset && k.account in laccidToAccount && k.asset < nextAssetId
      requires lassidToAsset[k.asset].Tidy() && !lassidToAsset[k.asset].kind.PlainAsset?
      requires laccidToAccount[k.account].account.kind.WalletAddress?
      modifies this, balances
      ensures Valid() && Reg() == old(Reg()) && |old(Stored()).keys| < |old(Stored()).slots|
      ensures Stored() ==
                AddWithdrawable(old(Stored()), k, SlotFor(Reg().assets[k.asset], Reg().accounts[k.account], v))
    {
      hide Described, Balances, Read, InPlace, Holdings, Counted, StoreOk, Linked, Filed;
      ghost var before := Stored();
      var asset, account := lassidToAsset[k.asset], laccidToAccount[k.account].account;
      ghost var slot := SlotFor(asset, account, v);
      OkLinked(before, Reg(), maxBalances);
      AddWithdrawableOk(before, Reg(), maxBalances, k, slot);
      var newIndex := |lastBalances|;
      DenseLayout(before, Reg(), maxBalances, newIndex, newIndex);
      FillSlot(newIndex, asset, account, v);
      accountAssetBalance := accountAssetBalance[k := Withdrawable(newIndex)];
      lastBalances := lastBalances + [k];
      assert accountAssetBalance.Keys == before.refs.Keys + {k};
      CountedUp(laccidToAccount, before.refs.Keys, k);
      Recount(k.account, laccidToAccount[k.account].nBalances + 1);
    }

    /** Writes the fields of a new record into a free slot, one by one. */
    method FillSlot(i: nat, asset: Asset, account: Account, v: Amount)
      requires i < balances.Length && balances[i] == ZERO_SLOT && asset.Tidy()
      modifies balances
      ensures balances[..] == old(balances[..])[i := SlotFor(asset, account, v)]
      ensures balances[i].owner == account.id % ADDRESS_LIMIT && balances[i].amount == v && balances[i].padding == 0
      ensures balances[i].token == (if asset.kind.Keyed() then asset.address else 0)
      ensures balances[i].tokenId ==
              (if asset.kind.TokenAddressId? || asset.kind.TokenAddressIdAmount? then asset.tokenId else 0)
    {
      balances[i] := balances[i].(kind := asset.kind.Code());
      balances[i] := balances[i].(owner := account.Wallet());
      balances[i] := balances[i].(amount := v);
      match asset.kind {
        case PlainAsset | Base =>
        case TokenAddress =>
          balances[i] := balances[i].(token := asset.address);
        case TokenAddressId | TokenAddressIdAmount =>
          balances[i] := balances[i].(token := asset.address);
          balances[i] := balances[i].(tokenId := asset.tokenId);
      }
    }

    /** Overwrites the amount of a stored balance. */
    method Overwrite(k: Key, v: Amount)
      requires Valid() && k in accountAssetBalance
      modifies this`virtualBalances, balances
      ensures Valid() && Reg() == old(Reg()) && Stored() == Update(old(Stored()), k, v)
    {
      ghost var before := Stored();
      UpdateOk(before, Reg(), maxBalances, k, v);
      assert InPlace(before, k);
      match accountAssetBalance[k] {
        case Virtual(i) =>
          virtualBalances := virtualBalances[i := v];
        case Withdrawable(i) =>
          balances[i] := balances[i].(amount := v);
          assert balances[..] == before.slots[i := before.slots[i].(amount := v)];
      }
    }

    /** "Transfer last to current" of a virtual balance; with a single balance there is nothing to move. The branches
        that throw because a key list or the map misses an entry are dead. */
    method MoveLastVirtual(k: Key)
      requires Linked(Stored()) && k in accountAssetBalance && accountAssetBalance[k].Virtual?
      modifies this`virtualBalances, this`accountAssetBalance, this`lastVirtualBalances
      ensures var s, i := old(Stored()), old(accountAssetBalance[k].index);
              InPlace(s, k) && virtualBalances == s.amounts[i := s.amounts[|s.amounts| - 1]] &&
              lastVirtualBalances == s.virtualKeys[i := s.virtualKeys[|s.virtualKeys| - 1]] &&
              accountAssetBalance == s.refs[s.virtualKeys[|s.virtualKeys| - 1] := Virtual(i)]
    {
      ghost var before := Stored();
      assert InPlace(before, k);
      if |accountAssetBalance| > 1 {
        if |lastVirtualBalances| == 0 {
          assert false;
        }
        var lastKey := lastVirtualBalances[|lastVirtualBalances| - 1];
        if lastKey !in accountAssetBalance {
          assert false;
        }
        var position := FindKey(lastVirtualBalances, k);
        if position == |lastVirtualBalances| {
          assert false;
        }
        assert accountAssetBalance[lastKey] == Virtual(|virtualBalances| - 1);
        var current, last := accountAssetBalance[k].index, accountAssetBalance[lastKey].index;
        assert position == current by {
          assert before.refs[before.virtualKeys[position]] == Virtual(position);
        }
        virtualBalances := virtualBalances[current := virtualBalances[last]];
        accountAssetBalance := accountAssetBalance[lastKey := Virtual(current)];
        lastVirtualBalances := lastVirtualBalances[position := lastKey];
      }
    }

    /** The deletion of a virtual balance. */
    method DeleteVirtual(k: Key)
      requires Valid() && k in accountAssetBalance && accountAssetBalance[k].Virtual?
      modifies this
      ensures Valid() && Reg() == old(Reg()) && Stored() == Remove(old(Stored()), k)
    {
      hide StoreOk, Described, Balances, Read, Counted, Holdings, Linked, InPlace, Remove, Plain, Filed;
      ghost var before, reg := Stored(), Reg();
      DeletionOk(before, reg, maxBalances, laccidToAccount, k);
      if k.account !in laccidToAccount {
        assert false;
      }
      RemoveVirtualIs(before, k);
      MoveLastVirtual(k);
      assert Reg() == reg;
      Recount(k.account, laccidToAccount[k.account].nBalances - 1);
      lastVirtualBalances, virtualBalances, accountAssetBalance :=
        lastVirtualBalances[..|lastVirtualBalances| - 1], virtualBalances[..|virtualBalances| - 1],
        accountAssetBalance - {k};
      assert Reg() == reg;
      assert Stored() == Remove(before, k);
    }

    /** The same for a withdrawable balance: the last record is copied field by field, and its slot zeroed. */
    method MoveLastWithdrawable(k: Key)
      requires Linked(Stored()) && k in accountAssetBalance && accountAssetBalance[k].Withdrawable?
      requires forall i :: 0 <= i < balances.Length ==> balances[i].padding == 0
      modifies this`accountAssetBalance, this`lastBalances, balances
      ensures var s, i := old(Stored()), old(accountAssetBalance[k].index);
              InPlace(s, k) && balances[..] == s.slots[i := s.slots[|s.keys| - 1]][|s.keys| - 1 := ZERO_SLOT] &&
              lastBalances == s.keys[i := s.keys[|s.keys| - 1]] &&
              accountAssetBalance == s.refs[s.keys[|s.keys| - 1] := Withdrawable(i)]
    {
      ghost var before := Stored();
      assert InPlace(before, k);
      var current := accountAssetBalance[k].index;
      if |accountAssetBalance| > 1 {
        if |lastBalances| == 0 {
          assert false;
        }
        var lastKey := lastBalances[|lastBalances| - 1];
        if lastKey !in accountAssetBalance {
          assert false;
        }
        var position := FindKey(lastBalances, k);
        if position == |lastBalances| {
          assert false;
        }
        assert accountAssetBalance[lastKey] == Withdrawable(|lastBalances| - 1);
        var last := accountAssetBalance[lastKey].index;
        assert position == current by {
          assert before.refs[before.keys[position]] == Withdrawable(position);
        }
        if lastKey != k {
          CopySlot(last, current);
        }
        balances[last] := ZERO_SLOT;
        accountAssetBalance := accountAssetBalance[lastKey := Withdrawable(current)];
        lastBalances := lastBalances[position := lastKey];
      } else {
        balances[current] := ZERO_SLOT;
      }
    }

    /** The deletion of a withdrawable balance. */
    method DeleteWithdrawable(k: Key)
      requires Valid() && k in accountAssetBalance && accountAssetBalance[k].Withdrawable?
      modifies this, balances
      ensures Valid() && Reg() == old(Reg()) && Stored() == Remove(old(Stored()), k)
    {
      hide StoreOk, Described, Balances, Read, Counted, Holdings, Linked, InPlace, Remove, Plain, Filed;
      ghost var before, reg := Stored(), Reg();
      DeletionOk(before, reg, maxBalances, laccidToAccount, k);
      if k.account !in laccidToAccount {
        assert false;
      }
      RemoveWithdrawableIs(before, k);
      MoveLastWithdrawable(k);
      assert Reg() == reg;
      Recount(k.account, laccidToAccount[k.account].nBalances - 1);
      lastBalances, accountAssetBalance := lastBalances[..|lastBalances| - 1], accountAssetBalance - {k};
      assert Reg() == reg;
      assert Stored() == Remove(before, k);
    }

    /** Copies every field but the padding. */
    method CopySlot(from: nat, to: nat)
      requires from < balances.Length && to < balances.Length && balances[from].padding == balances[to].padding
      modifies balances
      ensures balances[..] == old(balances[..])[to := old(balances[from])]
    {
      balances[to] := balances[to].(kind := balances[from].kind);
      balances[to] := balances[to].(owner := balances[from].owner);
      balances[to] := balances[to].(token := balances[from].token);
      balances[to] := balances[to].(tokenId := balances[from].tokenId);
      balances[to] := balances[to].(amount := balances[from].amount);
    }

    // ---------- operations ----------

    method SetAssetSupply(asset: nat, supply: Amount)
      requires Valid() && asset in lassidToAsset
      modifies this`lassidToAsset
      ensures Valid() && Stored() == old(Stored()) && Reg() == SetSupply(old(Reg()), asset, supply)
    {
      ghost var before := Reg();
      lassidToAsset := lassidToAsset[asset := lassidToAsset[asset].(supply := supply)];
      RegistryShrinks(Stored(), before, Reg(), maxBalances);
    }

    method Deposit(asset: nat, to: nat, amount: Amount) returns (r: Reply)
      requires Valid()
      modifies this, balances
      ensures Valid() && Outcome(Model(), r) == DepositStep(old(Model()), asset, to, amount)
      ensures r.Fail? ==> Stored() == old(Stored())
    {
      hide StoreOk, Counted, Filed, Balances, LedgerSpec.SetBalance;
      if amount == 0 {
        return Fail(BalanceOverflow);
      }
      if asset !in lassidToAsset {
        return Fail(AssetNotFound);
      }
      var supply := lassidToAsset[asset].supply;
      if supply + amount >= AMOUNT_LIMIT {
        return Fail(SupplyOverflow);
      }
      if lassidToAsset[asset].kind.TokenAddressId? && (supply != 0 || amount != 1) {
        return Fail(SupplyOverflow);
      }
      if to !in laccidToAccount {
        return Fail(AccountNotFound);
      }
      var balance, _ := GetBalance(Key(asset, to));
      if balance + amount >= AMOUNT_LIMIT {
        return Fail(BalanceOverflow);
      }
      r := SetBalance(Key(asset, to), balance + amount);
      if r.Fail? {
        return;
      }
      SetAssetSupply(asset, supply + amount);
    }

    method Withdraw(asset: nat, from: nat, amount: Amount) returns (r: Reply)
      requires Valid()
      modifies this, balances
      ensures Valid() && Outcome(Model(), r) == WithdrawStep(old(Model()), asset, from, amount)
      ensures r.Fail? ==> Stored() == old(Stored())
    {
      hide StoreOk, Counted, Filed, Balances, LedgerSpec.SetBalance;
      if asset !in lassidToAsset {
        return Fail(AssetNotFound);
      }
      var supply := lassidToAsset[asset].supply;
      if amount > supply {
        return Fail(SupplyOverflow);
      }
      if from !in laccidToAccount {
        return Fail(AccountNotFound);
      }
      var balance, _ := GetBalance(Key(asset, from));
      if amount > balance {
        return Fail(InsufficientFunds);
      }
      r := SetBalance(Key(asset, from), balance - amount);
      if r.Fail? {
        return;
      }
      SetAssetSupply(asset, supply - amount);
    }

    method Transfer(asset: nat, from: nat, to: nat, amount: Amount) returns (r: Reply)
      requires Valid()
      modifies this, balances
      ensures Valid() && Outcome(Model(), r) == TransferStep(old(Model()), asset, from, to, amount)
      ensures r.Fail? && !LedgerTheorems.Torn(old(Model()), Op.Transfer(asset, from, to, amount)) ==>
                Stored() == old(Stored())
    {
      hide StoreOk, Counted, Filed, Balances, LedgerSpec.SetBalance, LedgerTheorems.Torn, Posted;
      if asset !in lassidToAsset {
        return Fail(AssetNotFound);
      }
      if from == to {
        return Fail(Invalid);
      }
      if from !in laccidToAccount {
        return Fail(AccountNotFound);
      }
      var balanceFrom, _ := GetBalance(Key(asset, from));
      if amount > balanceFrom {
        return Fail(InsufficientFunds);
      }
      if to !in laccidToAccount {
        return Fail(AccountNotFound);
      }
      var balanceTo, _ := GetBalance(Key(asset, to));
      if balanceTo + amount >= AMOUNT_LIMIT {
        return Fail(BalanceOverflow);
      }
      PostedIsTheStep(Model(), Op.Transfer(asset, from, to, amount));
      r := PostTransfer(asset, from, to, amount, balanceFrom - amount, balanceTo + amount);
    }

    /** The end of transfer: the debit is stored, and only then the credit is tried. */
    method PostTransfer(asset: nat, from: nat, to: nat, ghost amount: Amount, newFrom: Amount, newTo: Amount)
      returns (r: Reply)
      requires Valid() && Postable(Model(), Op.Transfer(asset, from, to, amount))
      requires newFrom == Balance(Model().balances, Key(asset, from)) - amount
      requires newTo == Balance(Model().balances, Key(asset, to)) + amount
      modifies this, balances
      ensures Valid() && Reg() == old(Reg())
      ensures Posting(Model().balances, r) == Posted(old(Model()), Op.Transfer(asset, from, to, amount))
      ensures r.Fail? && !LedgerTheorems.Torn(old(Model()), Op.Transfer(asset, from, to, amount)) ==>
                Stored() == old(Stored())
    {
      hide StoreOk, Counted, Filed, Balances, LedgerSpec.SetBalance, LedgerTheorems.Torn, Linked, Balance;
      ghost var before, op := Model(), Op.Transfer(asset, from, to, amount);
      BalancesFit(Stored(), Reg(), maxBalances);
      r := SetBalance(Key(asset, from), newFrom);
      assert Posting(Model().balances, r) == LedgerInvariants.Debit(before, op);
      if r.Fail? {
        return;
      }
      assert Model() == before.(balances := LedgerInvariants.Debit(before, op).balances);
      r := SetBalance(Key(asset, to), newTo);
      assert Posting(Model().balances, r) == LedgerInvariants.Credit(before, op);
      if r.Fail? {
        CreditRefused(before, op);
      }
    }

    /** The loop of clear over the used slots. */
    method ZeroUsedSlots()
      requires Valid()
      modifies balances
      ensures forall j :: 0 <= j < balances.Length ==> balances[j] == ZERO_SLOT
    {
      ghost var before := Stored();
      FreeSlotsZero(before, Reg(), maxBalances);
      hide StoreOk, Counted, Filed;
      for i := 0 to |lastBalances|
        invariant forall j :: 0 <= j < balances.Length ==> balances[j] == if j < i then ZERO_SLOT else before.slots[j]
      {
        balances[i] := ZERO_SLOT;
      }
    }

    /** The second half of clear: every list and table is emptied. */
    method EmptyTables()
      modifies this
      ensures lastBalances == [] && virtualBalances == [] && lastVirtualBalances == []
      ensures laccidToAccount == map[] && lassidToAsset == map[] && accountAssetBalance == map[]
      ensures Reg() == old(Reg()).(assets := map[], assetIds := map[], accounts := map[], accountIds := map[])
    {
      virtualBalances, lastBalances, lastVirtualBalances := [], [], [];
      laccidToAccount, accountToLaccid := map[], map[];
      lassidToAsset, assetToLassid := map[], map[];
      accountAssetBalance := map[];
    }

    /** clear: zeroes the used slots and empties the tables; the counters and the base asset flag stay. */
    method Clear()
      requires Valid()
      modifies this, balances
      ensures Valid() && Model() == Cleared(old(Model()))
    {
      hide StoreOk, Counted, Linked, Balances, Filed, Described, InPlace, Read, Plain;
      OkLinked(Stored(), Reg(), maxBalances);
      ZeroUsedSlots();
      EmptyTables();
      EmptyOk(balances[..], Reg(), maxBalances);
      TablesEmpty(nextAssetId);
    }

    /** One call of the C interface: whatever the object does, its plain-map ledger takes the specified step, and unless
        a transfer is torn a failure leaves the stored lists, records included, as they were. */
    method Execute(op: Op) returns (r: Reply)
      requires Valid()
      modifies this, balances
      ensures Valid() && Outcome(Model(), r) == Step(old(Model()), op)
      ensures r.Fail? && !LedgerTheorems.Torn(old(Model()), op) ==> Stored() == old(Stored())
    {
      match op {
        case RetrieveAsset(q, retrieval) => r := RetrieveAsset(q, retrieval);
        case RetrieveAccount(q, retrieval) =>
          var reply, _ := RetrieveAccount(q, retrieval);
          r := reply;
        case Deposit(asset, to, amount) => r := Deposit(asset, to, amount);
        case Withdraw(asset, from, amount) => r := Withdraw(asset, from, amount);
        case Transfer(asset, from, to, amount) => r := Transfer(asset, from, to, amount);
        case Clear => Clear(); r := Done;
      }
    }

    /** A whole run of calls: the plain-map ledger goes through the specified run and gives its replies. */
    method Replay(ops: seq<Op>) returns (replies: seq<Reply>)
      requires Valid()
      modifies this, balances
      ensures Valid() && Model() == Run(old(Model()), ops) && replies == Replies(old(Model()), ops)
    {
      hide Valid, Model, Step;
      ghost var start := Model();
      replies := [];
      for i := 0 to |ops|
        invariant Valid() && Run(start, ops) == Run(Model(), ops[i..])
        invariant Replies(start, ops) == replies + Replies(Model(), ops[i..])
      {
        SuffixStep(ops, i);
        var r := Execute(ops[i]);
        replies := replies + [r];
      }
    }
  }

  lemma SuffixStep(ops: seq<Op>, i: nat)
    requires i < |ops|
    ensures ops[i..] != [] && ops[i..][0] == ops[i] && ops[i..][1..] == ops[i + 1..]
  {
  }

  /** The checks of a transfer have passed. */
  ghost predicate Postable(l: Ledger, op: Op) {
    op.Transfer? && LedgerInvariants.TransferAllowed(l, op) &&
    Balance(l.balances, Key(op.asset, op.to)) + op.amount < AMOUNT_LIMIT
  }

  /** What storing the two balances of a transfer comes to. */
  ghost function Posted(l: Ledger, op: Op): Posting
    requires Postable(l, op)
  {
    if LedgerInvariants.Debit(l, op).reply.Fail? then LedgerInvariants.Debit(l, op) else LedgerInvariants.Credit(l, op)
  }

  lemma PostedIsTheStep(l: Ledger, op: Op)
    requires Postable(l, op)
    ensures var p := Posted(l, op);
            TransferStep(l, op.asset, op.from, op.to, op.amount) == Outcome(l.(balances := p.balances), p.reply)
  {
    hide LedgerSpec.SetBalance;
  }

  /** When the credit is refused after the debit was stored: the transfer is torn, or the debit took nothing from a
      balance that is there. */
  lemma CreditRefused(l: Ledger, op: Op)
    requires Postable(l, op) && |l.balances| <= l.maxBalances
    requires !LedgerInvariants.Debit(l, op).reply.Fail? && LedgerInvariants.Credit(l, op).reply.Fail?
    ensures LedgerTheorems.Torn(l, op) || (op.amount == 0 && Balance(l.balances, Key(op.asset, op.from)) != 0)
  {
    var k, j := Key(op.asset, op.from), Key(op.asset, op.to);
    var m := l.(balances := LedgerInvariants.Debit(l, op).balances);
    LedgerTheorems.PostingCases(l, k, Balance(l.balances, k) - op.amount);
    LedgerTheorems.PostingCases(m, j, Balance(l.balances, j) + op.amount);
    hide LedgerSpec.SetBalance;
  }

  lemma BalancesFit(s: Store, r: Registry, max: nat)
    requires StoreOk(s, r, max)
    ensures Linked(s) && |Balances(s)| <= max
  {
    assert |Balances(s).Keys| == |s.refs.Keys|;
  }

  /** Writing the amount that is there already changes nothing. */
  lemma UpdateToSame(s: Store, k: Key)
    requires Linked(s) && k in s.refs
    ensures Update(s, k, Balances(s)[k]) == s
  {
    assert InPlace(s, k);
  }

  /** The position of a key in a key list, or its length. */
  method FindKey(keys: seq<Key>, k: Key) returns (i: nat)
    ensures i <= |keys| && (i < |keys| ==> keys[i] == k) && k !in keys[..i]
  {
    i := 0;
    while i < |keys| && keys[i] != k
      invariant i <= |keys| && k !in keys[..i]
    {
      i := i + 1;
    }
  }

  // ---------- counters and tables ----------

  lemma HoldingsAdd(keys: set<Key>, k: Key)
    requires k !in keys
    ensures forall id :: |Holdings(keys + {k}, id)| == |Holdings(keys, id)| + if id == k.account then 1 else 0
  {
    forall id: nat
      ensures |Holdings(keys + {k}, id)| == |Holdings(keys, id)| + if id == k.account then 1 else 0
    {
      assert Holdings(keys + {k}, id) == Holdings(keys, id) + if id == k.account then {k} else {};
    }
  }

  lemma HoldingsRemove(keys: set<Key>, k: Key)
    requires k in keys
    ensures |Holdings(keys, k.account)| > 0
    ensures forall id :: |Holdings(keys - {k}, id)| == |Holdings(keys, id)| - if id == k.account then 1 else 0
  {
    HoldingsAdd(keys - {k}, k);
    assert keys - {k} + {k} == keys;
  }

  lemma CountedUp(m: map<nat, AccountEntry>, keys: set<Key>, k: Key)
    requires Counted(m, keys) && k !in keys && k.account in m
    ensures Counted(m[k.account := m[k.account].(nBalances := m[k.account].nBalances + 1)], keys + {k})
  {
    HoldingsAdd(keys, k);
  }

  lemma CountedDown(m: map<nat, AccountEntry>, keys: set<Key>, k: Key)
    requires Counted(m, keys) && k in keys && k.account in m
    ensures m[k.account].nBalances > 0
    ensures Counted(m[k.account := m[k.account].(nBalances := m[k.account].nBalances - 1)], keys - {k})
  {
    HoldingsRemove(keys, k);
  }

  /** What deleting an entry needs and gives: its account is live and counted, and one count less is right after it. */
  lemma DeletionOk(s: Store, r: Registry, max: nat, m: map<nat, AccountEntry>, k: Key)
    requires StoreOk(s, r, max) && k in s.refs && r.accounts.Keys == m.Keys && Counted(m, s.refs.Keys)
    ensures Linked(s) && |s.slots| == max && |s.amounts| == |s.virtualKeys| && StoreOk(Remove(s, k), r, max)
    ensures forall i :: 0 <= i < |s.slots| ==> s.slots[i].padding == 0
    ensures k.account in m && m[k.account].nBalances > 0
    ensures Counted(m[k.account := m[k.account].(nBalances := m[k.account].nBalances - 1)], Remove(s, k).refs.Keys)
  {
    OkLinked(s, r, max);
    RemoveOk(s, r, max, k);
    KeyPlaces(s, r, max);
    RemoveKeys(s, k);
    hide StoreOk, Linked, Remove, Counted;
    CountedDown(m, s.refs.Keys, k);
  }

  lemma RemoveVirtualIs(s: Store, k: Key)
    requires Linked(s) && k in s.refs && s.refs[k].Virtual?
    ensures var i, last := s.refs[k].index, |s.virtualKeys| - 1;
            |s.amounts| == |s.virtualKeys| && i <= last &&
            Remove(s, k) == Store(s.slots, s.keys, s.amounts[i := s.amounts[last]][..last],
                                  s.virtualKeys[i := s.virtualKeys[last]][..last],
                                  s.refs[s.virtualKeys[last] := Virtual(i)] - {k})
  {
    assert InPlace(s, k);
  }

  lemma RemoveWithdrawableIs(s: Store, k: Key)
    requires Linked(s) && k in s.refs && s.refs[k].Withdrawable?
    ensures var i, last := s.refs[k].index, |s.keys| - 1;
            i <= last < |s.slots| &&
            Remove(s, k) == Store(s.slots[i := s.slots[last]][last := ZERO_SLOT], s.keys[i := s.keys[last]][..last],
                                  s.amounts, s.virtualKeys, s.refs[s.keys[last] := Withdrawable(i)] - {k})
  {
    assert InPlace(s, k);
  }

  lemma RemoveKeys(s: Store, k: Key)
    requires Linked(s) && k in s.refs
    ensures Remove(s, k).refs.Keys == s.refs.Keys - {k}
  {
    RemoveSwaps(s, k);
  }

  lemma TablesEmpty(next: nat)
    ensures var none: map<Key, Ref> := map[]; Counted(map[], none.Keys) && Filed(map[], next) && Plain(map[]) == map[]
  {
  }

  lemma FreeSlotsZero(s: Store, r: Registry, max: nat)
    requires StoreOk(s, r, max)
    ensures |s.keys| <= |s.slots| && forall i :: |s.keys| <= i < |s.slots| ==> s.slots[i] == ZERO_SLOT
  {
  }

  lemma EmptyOk(slots: seq<Slot>, r: Registry, max: nat)
    requires |slots| == max && forall i :: 0 <= i < max ==> slots[i] == ZERO_SLOT
    ensures var s := Store(slots, [], [], [], map[]); StoreOk(s, r, max) && Linked(s) && Balances(s) == map[]
  {
  }

  lemma OkLinked(s: Store, r: Registry, max: nat)
    requires StoreOk(s, r, max)
    ensures Linked(s) && |s.slots| == max && |s.amounts| == |s.virtualKeys|
    ensures forall i :: 0 <= i < |s.slots| ==> s.slots[i].padding == 0
  {
    forall i | 0 <= i < |s.slots|
      ensures s.slots[i].padding == 0
    {
      assert i < |s.keys| ==> SlotDescribes(r, s.keys[i], s.slots[i]);
    }
  }

  /** Every stored key names a live account and an issued asset. */
  lemma KeyPlaces(s: Store, r: Registry, max: nat)
    requires StoreOk(s, r, max)
    ensures forall k :: k in s.refs ==> k.account in r.accounts && k.asset < r.nextAsset
  {
    forall k | k in s.refs
      ensures k.account in r.accounts
    {
      assert InPlace(s, k);
      match s.refs[k]
      case Virtual(i) => assert VirtualFits(r, s.virtualKeys[i]);
      case Withdrawable(i) => assert SlotDescribes(r, s.keys[i], s.slots[i]);
    }
  }

  /** Removing an asset, or changing keys, flags or supplies, keeps the layout. */
  lemma RegistryShrinks(s: Store, r: Registry, r': Registry, max: nat)
    requires StoreOk(s, r, max) && r'.nextAsset == r.nextAsset && r'.accounts == r.accounts
    requires forall a :: a in r'.assets ==> a in r.assets && r'.assets[a].(supply := 0) == r.assets[a].(supply := 0)
    ensures StoreOk(s, r', max)
  {
    KeyPlaces(s, r, max);
    RegistryChange(s, r, r', max);
  }

  /** Adding an asset with the next id, or an account, keeps the layout. */
  lemma RegistryGrows(s: Store, r: Registry, r': Registry, max: nat)
    requires StoreOk(s, r, max) && r.nextAsset <= r'.nextAsset
    requires forall x :: x in r.accounts ==> x in r'.accounts && r'.accounts[x] == r.accounts[x]
    requires forall a :: a in r'.assets && a < r.nextAsset ==> a in r.assets && r'.assets[a] == r.assets[a]
    ensures StoreOk(s, r', max)
  {
    KeyPlaces(s, r, max);
    RegistryChange(s, r, r', max);
  }

  lemma RemoveAssetOk(s: Store, r: Registry, max: nat, id: nat)
    requires StoreOk(s, r, max) && Filed(r.assets, r.nextAsset)
    ensures var t := LedgerSpec.RemoveAsset(r, id).reg;
            StoreOk(s, t, max) && Filed(t.assets, t.nextAsset) && t.accounts == r.accounts
  {
    hide StoreOk;
    RegistryShrinks(s, r, LedgerSpec.RemoveAsset(r, id).reg, max);
  }

  lemma StoreAssetOk(s: Store, r: Registry, max: nat, asset: Asset)
    requires StoreOk(s, r, max) && Filed(r.assets, r.nextAsset) && asset.Tidy()
    ensures var t := LedgerSpec.StoreAsset(r, asset).reg;
            StoreOk(s, t, max) && Filed(t.assets, t.nextAsset) && t.accounts == r.accounts
  {
    hide StoreOk;
    RegistryGrows(s, r, LedgerSpec.StoreAsset(r, asset).reg, max);
  }

  lemma RemoveAccountOk(s: Store, r: Registry, max: nat, id: nat)
    requires StoreOk(s, r, max)
    ensures StoreOk(s, LedgerSpec.RemoveAccount(r, s.refs.Keys, id).reg, max)
  {
    KeyPlaces(s, r, max);
    hide StoreOk;
    var t := LedgerSpec.RemoveAccount(r, s.refs.Keys, id).reg;
    if t != r {
      forall k | k in s.refs
        ensures k.account != id
      {
        assert k.account == id ==> k in Holdings(s.refs.Keys, id);
      }
      RegistryChange(s, r, t, max);
    }
  }

  lemma CountedLess(m: map<nat, AccountEntry>, keys: set<Key>, id: nat)
    requires Counted(m, keys)
    ensures Counted(m - {id}, keys)
    ensures id in m ==> (m[id].nBalances > 0 <==> Holdings(keys, id) != {})
  {
  }

  lemma NoHoldings(s: Store, r: Registry, max: nat, id: nat)
    requires StoreOk(s, r, max) && id !in r.accounts
    ensures |Holdings(s.refs.Keys, id)| == 0
  {
    KeyPlaces(s, r, max);
    assert Holdings(s.refs.Keys, id) == {};
  }
}

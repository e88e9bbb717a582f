/** The balance storage of the memory ledger as one value: two dense lists, their key lists, and the map of references
    into them. Deletion is swap-with-last. */
module DenseStore {
  import opened LedgerTypes
  import opened LedgerSpec

  /** cma_ledger_account_balance: 4 + 20 + 20 + 32 + 32 + 20 bytes. */
  datatype Slot = Slot(kind: nat, owner: Address, token: Address, tokenId: Word, amount: Amount, padding: Address)

  const ZERO_SLOT := Slot(0, 0, 0, 0, 0, 0)

  /** Which list holds a balance, and where; the source keeps pointers into lists that never move. */
  datatype Ref = Virtual(index: nat) | Withdrawable(index: nat)

  datatype Store = Store(
    slots: seq<Slot>, keys: seq<Key>, amounts: seq<Amount>, virtualKeys: seq<Key>, refs: map<Key, Ref>)

  // ---------- what is stored ----------

  predicate InPlace(s: Store, k: Key)
    requires k in s.refs
  {
    match s.refs[k]
    case Virtual(i) => i < |s.virtualKeys| && s.virtualKeys[i] == k
    case Withdrawable(i) => i < |s.keys| && s.keys[i] == k
  }

  /** Keys, lists and references are one to one. */
  ghost predicate Linked(s: Store) {
    |s.keys| <= |s.slots| && |s.amounts| == |s.virtualKeys| && |s.refs| == |s.keys| + |s.virtualKeys| &&
    (forall i :: 0 <= i < |s.keys| ==> s.keys[i] in s.refs && s.refs[s.keys[i]] == Withdrawable(i)) &&
    (forall i :: 0 <= i < |s.virtualKeys| ==> s.virtualKeys[i] in s.refs && s.refs[s.virtualKeys[i]] == Virtual(i)) &&
    (forall k :: k in s.refs ==> InPlace(s, k))
  }

  /** A balance read through its reference. */
  function Read(s: Store, k: Key): Amount
    requires Linked(s) && k in s.refs
  {
    assert InPlace(s, k);
    match s.refs[k]
    case Virtual(i) => s.amounts[i]
    case Withdrawable(i) => s.slots[i].amount
  }

  /** The plain map the storage stands for. */
  ghost function Balances(s: Store): (b: map<Key, Amount>)
    requires Linked(s)
    ensures b.Keys == s.refs.Keys
  {
    map k | k in s.refs :: Read(s, k)
  }

  /** The record of a withdrawable balance, padding included. */
  function SlotFor(asset: Asset, account: Account, amount: Amount): Slot {
    Slot(asset.kind.Code(), account.Wallet(), asset.address, asset.tokenId, amount, 0)
  }

  /** An occupied slot names its account's wallet, and while its asset is live it is exactly the asset's record. */
  ghost predicate SlotDescribes(r: Registry, k: Key, slot: Slot) {
    1 <= slot.kind <= 4 && slot.padding == 0 &&
    k.account in r.accounts && r.accounts[k.account].kind.WalletAddress? &&
    slot.owner == r.accounts[k.account].Wallet() &&
    (k.asset in r.assets ==> slot == SlotFor(r.assets[k.asset], r.accounts[k.account], slot.amount))
  }

  /** A virtual balance of a live asset is one that could not be withdrawn. */
  ghost predicate VirtualFits(r: Registry, k: Key) {
    k.account in r.accounts &&
    (k.asset in r.assets ==> r.assets[k.asset].kind.PlainAsset? || !r.accounts[k.account].kind.WalletAddress?)
  }

  ghost predicate Described(s: Store, r: Registry) {
    |s.keys| <= |s.slots| &&
    (forall i :: 0 <= i < |s.keys| ==> SlotDescribes(r, s.keys[i], s.slots[i])) &&
    (forall i :: |s.keys| <= i < |s.slots| ==> s.slots[i] == ZERO_SLOT) &&
    (forall i :: 0 <= i < |s.virtualKeys| ==> VirtualFits(r, s.virtualKeys[i]))
  }

  ghost predicate StoreOk(s: Store, r: Registry, max: nat) {
    Linked(s) && Described(s, r) && |s.slots| == max && |s.refs| <= max &&
    forall k :: k in s.refs ==> k.asset < r.nextAsset
  }

  // ---------- the store operations ----------

  function AddVirtual(s: Store, k: Key, v: Amount): Store {
    s.(amounts := s.amounts + [v], virtualKeys := s.virtualKeys + [k], refs := s.refs[k := Virtual(|s.virtualKeys|)])
  }

  function AddWithdrawable(s: Store, k: Key, slot: Slot): Store
    requires |s.keys| < |s.slots|
  {
    s.(slots := s.slots[|s.keys| := slot], keys := s.keys + [k], refs := s.refs[k := Withdrawable(|s.keys|)])
  }

  function Update(s: Store, k: Key, v: Amount): Store
    requires Linked(s) && k in s.refs
  {
    assert InPlace(s, k);
    match s.refs[k]
    case Virtual(i) => s.(amounts := s.amounts[i := v])
    case Withdrawable(i) => s.(slots := s.slots[i := s.slots[i].(amount := v)])
  }

  /** Swap-with-last: the last entry takes over k's position of the list, and k is forgotten. */
  function RemoveVirtual(s: Store, k: Key): Store
    requires Linked(s) && k in s.refs && s.refs[k].Virtual?
  {
    assert InPlace(s, k);
    var i, last := s.refs[k].index, |s.virtualKeys| - 1;
    var moved := s.virtualKeys[last];
    s.(amounts := s.amounts[i := s.amounts[last]][..last],
       virtualKeys := s.virtualKeys[i := moved][..last],
       refs := s.refs[moved := Virtual(i)] - {k})
  }

  /** The same for a withdrawable balance, whose freed slot is zeroed. */
  function RemoveWithdrawable(s: Store, k: Key): Store
    requires Linked(s) && k in s.refs && s.refs[k].Withdrawable?
  {
    assert InPlace(s, k);
    var i, last := s.refs[k].index, |s.keys| - 1;
    var moved := s.keys[last];
    s.(slots := s.slots[i := s.slots[last]][last := ZERO_SLOT],
       keys := s.keys[i := moved][..last],
       refs := s.refs[moved := Withdrawable(i)] - {k})
  }

  function Remove(s: Store, k: Key): Store
    requires Linked(s) && k in s.refs
  {
    if s.refs[k].Virtual? then RemoveVirtual(s, k) else RemoveWithdrawable(s, k)
  }

  // ---------- each operation changes exactly one balance ----------

  lemma SameBalances(s: Store, b: map<Key, Amount>)
    requires Linked(s) && b.Keys == s.refs.Keys
    requires forall k :: k in s.refs ==> b[k] == Read(s, k)
    ensures Balances(s) == b
  {
  }

  lemma AddVirtualInPlace(s: Store, k: Key, v: Amount, j: Key)
    requires Linked(s) && k !in s.refs && (j == k || j in s.refs)
    ensures InPlace(AddVirtual(s, k, v), j)
  {
    assert j != k ==> InPlace(s, j);
  }

  lemma AddVirtualLinked(s: Store, k: Key, v: Amount)
    requires Linked(s) && k !in s.refs
    ensures Linked(AddVirtual(s, k, v))
  {
    hide InPlace;
    var t := AddVirtual(s, k, v);
    assert t.refs.Keys == s.refs.Keys + {k};
    forall j | j in t.refs
      ensures InPlace(t, j)
    {
      AddVirtualInPlace(s, k, v, j);
    }
  }

  lemma AddVirtualBalances(s: Store, k: Key, v: Amount)
    requires Linked(s) && k !in s.refs
    ensures Linked(AddVirtual(s, k, v)) && Balances(AddVirtual(s, k, v)) == Balances(s)[k := v]
  {
    AddVirtualLinked(s, k, v);
    forall j | j in s.refs
      ensures Read(AddVirtual(s, k, v), j) == Read(s, j)
    {
      assert InPlace(s, j);
    }
    SameBalances(AddVirtual(s, k, v), Balances(s)[k := v]);
  }

  lemma AddWithdrawableLinked(s: Store, k: Key, slot: Slot)
    requires Linked(s) && k !in s.refs && |s.keys| < |s.slots|
    ensures Linked(AddWithdrawable(s, k, slot))
  {
    var t := AddWithdrawable(s, k, slot);
    assert t.refs.Keys == s.refs.Keys + {k};
    forall j | j in t.refs
      ensures InPlace(t, j)
    {
      assert j != k ==> InPlace(s, j);
    }
  }

  lemma AddWithdrawableBalances(s: Store, k: Key, slot: Slot)
    requires Linked(s) && k !in s.refs && |s.keys| < |s.slots|
    ensures Linked(AddWithdrawable(s, k, slot))
    ensures Balances(AddWithdrawable(s, k, slot)) == Balances(s)[k := slot.amount]
  {
    AddWithdrawableLinked(s, k, slot);
    forall j | j in s.refs
      ensures Read(AddWithdrawable(s, k, slot), j) == Read(s, j)
    {
      assert InPlace(s, j);
    }
    SameBalances(AddWithdrawable(s, k, slot), Balances(s)[k := slot.amount]);
  }

  lemma UpdateLinked(s: Store, k: Key, v: Amount)
    requires Linked(s) && k in s.refs
    ensures Linked(Update(s, k, v)) && Update(s, k, v).refs == s.refs
  {
    var t := Update(s, k, v);
    forall j | j in s.refs
      ensures InPlace(t, j)
    {
      assert InPlace(s, j);
    }
  }

  lemma UpdateBalances(s: Store, k: Key, v: Amount)
    requires Linked(s) && k in s.refs
    ensures Linked(Update(s, k, v)) && Balances(Update(s, k, v)) == Balances(s)[k := v]
  {
    var t := Update(s, k, v);
    UpdateLinked(s, k, v);
    forall j | j in s.refs
      ensures Read(t, j) == if j == k then v else Read(s, j)
    {
      assert InPlace(s, j) && InPlace(s, k);
    }
    SameBalances(t, Balances(s)[k := v]);
  }

  /** Entry by entry: t is s with the last virtual entry moved to position i and k forgotten. */
  ghost predicate SwappedVirtual(s: Store, t: Store, k: Key, i: nat, last: nat) {
    |s.amounts| == |s.virtualKeys| == last + 1 && |t.amounts| == |t.virtualKeys| == last &&
    t.slots == s.slots && t.keys == s.keys && t.refs.Keys == s.refs.Keys - {k} &&
    (forall x :: 0 <= x < last ==>
      t.virtualKeys[x] == s.virtualKeys[if x == i then last else x] &&
      t.amounts[x] == s.amounts[if x == i then last else x]) &&
    (forall j :: j in t.refs ==> t.refs[j] == if j == s.virtualKeys[last] then Virtual(i) else s.refs[j])
  }

  ghost predicate SwappedWithdrawable(s: Store, t: Store, k: Key, i: nat, last: nat) {
    |s.keys| == last + 1 <= |s.slots| == |t.slots| && |t.keys| == last &&
    t.amounts == s.amounts && t.virtualKeys == s.virtualKeys && t.refs.Keys == s.refs.Keys - {k} &&
    (forall x :: 0 <= x < last ==>
      t.keys[x] == s.keys[if x == i then last else x] && t.slots[x] == s.slots[if x == i then last else x]) &&
    (forall x :: last <= x < |t.slots| ==> t.slots[x] == if x == last then ZERO_SLOT else s.slots[x]) &&
    (forall j :: j in t.refs ==> t.refs[j] == if j == s.keys[last] then Withdrawable(i) else s.refs[j])
  }

  lemma RemoveSwaps(s: Store, k: Key)
    requires Linked(s) && k in s.refs
    ensures if s.refs[k].Virtual? then SwappedVirtual(s, Remove(s, k), k, s.refs[k].index, |s.virtualKeys| - 1)
            else SwappedWithdrawable(s, Remove(s, k), k, s.refs[k].index, |s.keys| - 1)
  {
    assert InPlace(s, k);
  }

  lemma SwappedVirtualInPlace(s: Store, t: Store, k: Key, i: nat, last: nat, j: Key)
    requires Linked(s) && k in s.refs && s.refs[k] == Virtual(i) && SwappedVirtual(s, t, k, i, last) && j in t.refs
    ensures InPlace(t, j)
  {
    assert InPlace(s, j) && InPlace(s, k);
  }

  lemma SwappedVirtualForward(s: Store, t: Store, k: Key, i: nat, last: nat, x: nat)
    requires Linked(s) && k in s.refs && s.refs[k] == Virtual(i) && SwappedVirtual(s, t, k, i, last)
    ensures x < |t.virtualKeys| ==> t.virtualKeys[x] in t.refs && t.refs[t.virtualKeys[x]] == Virtual(x)
    ensures x < |t.keys| ==> t.keys[x] in t.refs && t.refs[t.keys[x]] == Withdrawable(x)
  {
    assert InPlace(s, k);
    if x < |t.virtualKeys| {
      var y := if x == i then last else x;
      assert s.refs[s.virtualKeys[y]] == Virtual(y) && s.virtualKeys[y] != k;
    }
    if x < |t.keys| {
      assert s.refs[s.keys[x]] == Withdrawable(x) && s.refs[s.virtualKeys[last]] == Virtual(last);
    }
  }

  lemma SwappedVirtualLinked(s: Store, t: Store, k: Key, i: nat, last: nat)
    requires Linked(s) && k in s.refs && s.refs[k] == Virtual(i) && SwappedVirtual(s, t, k, i, last)
    ensures Linked(t)
  {
    assert |t.refs| == |s.refs| - 1;
    forall j | j in t.refs
      ensures InPlace(t, j)
    {
      SwappedVirtualInPlace(s, t, k, i, last, j);
    }
    forall x | 0 <= x < |t.virtualKeys|
      ensures t.virtualKeys[x] in t.refs && t.refs[t.virtualKeys[x]] == Virtual(x)
    {
      SwappedVirtualForward(s, t, k, i, last, x);
    }
    forall x | 0 <= x < |t.keys|
      ensures t.keys[x] in t.refs && t.refs[t.keys[x]] == Withdrawable(x)
    {
      SwappedVirtualForward(s, t, k, i, last, x);
    }
    hide InPlace;
  }

  lemma SwappedVirtualReads(s: Store, t: Store, k: Key, i: nat, last: nat)
    requires Linked(s) && k in s.refs && s.refs[k] == Virtual(i) && SwappedVirtual(s, t, k, i, last) && Linked(t)
    ensures forall j :: j in t.refs ==> Read(t, j) == Read(s, j)
  {
    forall j | j in t.refs
      ensures Read(t, j) == Read(s, j)
    {
      assert InPlace(s, j) && InPlace(t, j);
    }
  }

  lemma SwappedWithdrawableInPlace(s: Store, t: Store, k: Key, i: nat, last: nat, j: Key)
    requires Linked(s) && k in s.refs && s.refs[k] == Withdrawable(i)
    requires SwappedWithdrawable(s, t, k, i, last) && j in t.refs
    ensures InPlace(t, j)
  {
    assert InPlace(s, j) && InPlace(s, k);
  }

  lemma SwappedWithdrawableForward(s: Store, t: Store, k: Key, i: nat, last: nat, x: nat)
    requires Linked(s) && k in s.refs && s.refs[k] == Withdrawable(i) && SwappedWithdrawable(s, t, k, i, last)
    ensures x < |t.keys| ==> t.keys[x] in t.refs && t.refs[t.keys[x]] == Withdrawable(x)
    ensures x < |t.virtualKeys| ==> t.virtualKeys[x] in t.refs && t.refs[t.virtualKeys[x]] == Virtual(x)
  {
    assert InPlace(s, k);
    if x < |t.keys| {
      var y := if x == i then last else x;
      assert s.refs[s.keys[y]] == Withdrawable(y) && s.keys[y] != k;
    }
    if x < |t.virtualKeys| {
      assert s.refs[s.virtualKeys[x]] == Virtual(x) && s.refs[s.keys[last]] == Withdrawable(last);
    }
  }

  lemma SwappedWithdrawableLinked(s: Store, t: Store, k: Key, i: nat, last: nat)
    requires Linked(s) && k in s.refs && s.refs[k] == Withdrawable(i) && SwappedWithdrawable(s, t, k, i, last)
    ensures Linked(t)
  {
    assert |t.refs| == |s.refs| - 1;
    forall j | j in t.refs
      ensures InPlace(t, j)
    {
      SwappedWithdrawableInPlace(s, t, k, i, last, j);
    }
    forall x | 0 <= x < |t.keys|
      ensures t.keys[x] in t.refs && t.refs[t.keys[x]] == Withdrawable(x)
    {
      SwappedWithdrawableForward(s, t, k, i, last, x);
    }
    forall x | 0 <= x < |t.virtualKeys|
      ensures t.virtualKeys[x] in t.refs && t.refs[t.virtualKeys[x]] == Virtual(x)
    {
      SwappedWithdrawableForward(s, t, k, i, last, x);
    }
    hide InPlace;
  }

  lemma SwappedWithdrawableReads(s: Store, t: Store, k: Key, i: nat, last: nat)
    requires Linked(s) && k in s.refs && s.refs[k] == Withdrawable(i)
    requires SwappedWithdrawable(s, t, k, i, last) && Linked(t)
    ensures forall j :: j in t.refs ==> Read(t, j) == Read(s, j)
  {
    forall j | j in t.refs
      ensures Read(t, j) == Read(s, j)
    {
      assert InPlace(s, j) && InPlace(t, j);
    }
  }

  /** Deleting one key by swap-with-last leaves every other key's balance as it was, though one of them moved. */
  lemma RemoveBalances(s: Store, k: Key)
    requires Linked(s) && k in s.refs
    ensures Linked(Remove(s, k)) && Remove(s, k).refs.Keys == s.refs.Keys - {k}
    ensures Balances(Remove(s, k)) == Balances(s) - {k}
  {
    RemoveSwaps(s, k);
    hide Remove;
    if s.refs[k].Virtual? {
      SwappedVirtualLinked(s, Remove(s, k), k, s.refs[k].index, |s.virtualKeys| - 1);
      SwappedVirtualReads(s, Remove(s, k), k, s.refs[k].index, |s.virtualKeys| - 1);
    } else {
      SwappedWithdrawableLinked(s, Remove(s, k), k, s.refs[k].index, |s.keys| - 1);
      SwappedWithdrawableReads(s, Remove(s, k), k, s.refs[k].index, |s.keys| - 1);
    }
    SameBalances(Remove(s, k), Balances(s) - {k});
  }

  // ---------- each operation keeps the layout ----------

  lemma AddVirtualOk(s: Store, r: Registry, max: nat, k: Key, v: Amount)
    requires StoreOk(s, r, max) && k !in s.refs && |s.refs| < max && k.asset < r.nextAsset && VirtualFits(r, k)
    ensures StoreOk(AddVirtual(s, k, v), r, max)
  {
    AddVirtualLinked(s, k, v);
  }

  lemma AddWithdrawableOk(s: Store, r: Registry, max: nat, k: Key, slot: Slot)
    requires StoreOk(s, r, max) && k !in s.refs && |s.refs| < max && k.asset < r.nextAsset && SlotDescribes(r, k, slot)
    ensures |s.keys| < |s.slots| && StoreOk(AddWithdrawable(s, k, slot), r, max)
  {
    AddWithdrawableLinked(s, k, slot);
  }

  lemma UpdateOk(s: Store, r: Registry, max: nat, k: Key, v: Amount)
    requires StoreOk(s, r, max) && k in s.refs
    ensures StoreOk(Update(s, k, v), r, max)
  {
    UpdateLinked(s, k, v);
    assert InPlace(s, k);
    var t := Update(s, k, v);
    forall i | 0 <= i < |t.keys|
      ensures SlotDescribes(r, t.keys[i], t.slots[i])
    {
      assert SlotDescribes(r, s.keys[i], s.slots[i]);
    }
  }

  lemma RemoveDescribed(s: Store, r: Registry, k: Key)
    requires Linked(s) && Described(s, r) && k in s.refs
    ensures Described(Remove(s, k), r) && |Remove(s, k).slots| == |s.slots|
  {
    assert InPlace(s, k);
    RemoveSwaps(s, k);
    hide Remove;
  }

  lemma RemoveOk(s: Store, r: Registry, max: nat, k: Key)
    requires StoreOk(s, r, max) && k in s.refs
    ensures StoreOk(Remove(s, k), r, max)
  {
    RemoveBalances(s, k);
    RemoveDescribed(s, r, k);
    hide Remove;
  }

  /** The tables may change under a store as long as they keep its accounts and the records of its live assets. */
  lemma RegistryChange(s: Store, r: Registry, r': Registry, max: nat)
    requires StoreOk(s, r, max) && r.nextAsset <= r'.nextAsset
    requires forall k :: k in s.refs ==> k.account in r'.accounts && r'.accounts[k.account] == r.accounts[k.account]
    requires forall k :: k in s.refs && k.asset in r'.assets ==>
               k.asset in r.assets && r'.assets[k.asset].(supply := 0) == r.assets[k.asset].(supply := 0)
    ensures StoreOk(s, r', max)
  {
    forall i | 0 <= i < |s.keys|
      ensures SlotDescribes(r', s.keys[i], s.slots[i])
    {
      assert SlotDescribes(r, s.keys[i], s.slots[i]);
      var k := s.keys[i];
      if k.asset in r'.assets {
        assert r'.assets[k.asset].(supply := 0).kind == r'.assets[k.asset].kind;
        assert r'.assets[k.asset].(supply := 0).address == r'.assets[k.asset].address;
        assert r'.assets[k.asset].(supply := 0).tokenId == r'.assets[k.asset].tokenId;
      }
    }
    forall i | 0 <= i < |s.virtualKeys|
      ensures VirtualFits(r', s.virtualKeys[i])
    {
      assert VirtualFits(r, s.virtualKeys[i]);
      var k := s.virtualKeys[i];
      if k.asset in r'.assets {
        assert r'.assets[k.asset].(supply := 0).kind == r'.assets[k.asset].kind;
      }
    }
  }

  /** Dense layout: keys are distinct, and a slot is in use exactly below the length of the key list. */
  lemma DenseLayout(s: Store, r: Registry, max: nat, i: nat, j: nat)
    requires StoreOk(s, r, max) && i < max
    ensures s.slots[i].kind != 0 <==> i < |s.keys|
    ensures i >= |s.keys| ==> s.slots[i] == ZERO_SLOT
    ensures i < |s.keys| && j < |s.keys| && s.keys[i] == s.keys[j] ==> i == j
  {
    if i < |s.keys| {
      assert SlotDescribes(r, s.keys[i], s.slots[i]);
    }
  }

  /** A new record field by field: type code, low 20 bytes of the account's id, token fields, amount, no padding. */
  lemma SlotFields(asset: Asset, account: Account, amount: Amount)
    ensures var slot := SlotFor(asset, account, amount);
            slot.kind == (if asset.kind.PlainAsset? then 0 else if asset.kind.Base? then 1
                          else if asset.kind.TokenAddress? then 2 else if asset.kind.TokenAddressId? then 3 else 4) &&
            slot.owner == account.id % ADDRESS_LIMIT && slot.token == asset.address && slot.tokenId == asset.tokenId &&
            slot.amount == amount && slot.padding == 0
  {
  }

  /** While its asset is live, a stored balance has a record exactly if the asset leaves the ledger and the account is a
      wallet, and then the record holds, field by field, the asset's type and token, the wallet's address and the
      balance. */
  lemma RecordExactly(s: Store, r: Registry, max: nat, k: Key)
    requires StoreOk(s, r, max) && k in s.refs && k.asset in r.assets
    ensures k.account in r.accounts
    ensures s.refs[k].Withdrawable? <==>
            !r.assets[k.asset].kind.PlainAsset? && r.accounts[k.account].kind.WalletAddress?
    ensures s.refs[k].Withdrawable? ==>
              s.refs[k].index < |s.keys| &&
              var slot, a := s.slots[s.refs[k].index], r.assets[k.asset];
              slot.kind == (if a.kind.Base? then 1 else if a.kind.TokenAddress? then 2
                            else if a.kind.TokenAddressId? then 3 else 4) &&
              slot.owner == r.accounts[k.account].id % ADDRESS_LIMIT && slot.token == a.address &&
              slot.tokenId == a.tokenId && slot.amount == Balances(s)[k] && slot.padding == 0
  {
    assert InPlace(s, k);
    match s.refs[k]
    case Virtual(i) => assert VirtualFits(r, s.virtualKeys[i]);
    case Withdrawable(i) => assert SlotDescribes(r, s.keys[i], s.slots[i]);
  }
}

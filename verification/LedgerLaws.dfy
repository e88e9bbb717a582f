/** What each operation answers and changes, in the fields of its request. Nothing here speaks through the keys, default
    records or postings that the transitions are built from. */
module LedgerLaws {
  import opened LedgerTypes
  import opened LedgerSpec
  import opened LedgerInvariants
  import opened LedgerTheorems

  // ---------- naming assets ----------

  /** A token request is answered by an asset of its class (with or without an id) with its address and id. */
  predicate Answers(a: Asset, q: AssetQuery) {
    match q
    case AssetById(_) => false
    case BaseAsset(_) => false
    case Token(x) => a.kind.TokenAddress? && a.address == x
    case TokenWithId(x, t) =>
      (a.kind.TokenAddressId? || a.kind.TokenAddressIdAmount?) && a.address == x && a.tokenId == t
    case TokenWithIdAmount(x, t) =>
      (a.kind.TokenAddressId? || a.kind.TokenAddressIdAmount?) && a.address == x && a.tokenId == t
  }

  predicate NamesAsset(r: Registry, q: AssetQuery, op: Retrieval, id: nat) {
    id in r.assets &&
    match q
    case AssetById(i) => id == i
    case BaseAsset(i) => id == if op.Find? && r.baseDefined then r.baseId else i
    case _ => Answers(r.assets[id], q)
  }

  /** The record a creation stores: the type, address and id that were asked for, and no supply. */
  predicate Ordered(a: Asset, q: AssetQuery) {
    a.supply == 0 &&
    match q
    case AssetById(_) => a.kind.PlainAsset? && a.address == 0 && a.tokenId == 0
    case BaseAsset(_) => a.kind.Base? && a.address == 0 && a.tokenId == 0
    case Token(x) => a.kind.TokenAddress? && a.address == x && a.tokenId == 0
    case TokenWithId(x, t) => a.kind.TokenAddressId? && a.address == x && a.tokenId == t
    case TokenWithIdAmount(x, t) => a.kind.TokenAddressIdAmount? && a.address == x && a.tokenId == t
  }

  /** The key table holds exactly the live assets that token requests can name, under type byte, address and id. */
  lemma AssetKeysExact(r: Registry, key: AssetKey, id: nat)
    requires AssetTable(r)
    ensures key in r.assetIds && r.assetIds[key] == id <==>
            id in r.assets &&
            (if r.assets[id].kind.TokenAddress? then key == AssetKey(2, r.assets[id].address, 0)
             else (r.assets[id].kind.TokenAddressId? || r.assets[id].kind.TokenAddressIdAmount?) &&
                  key == AssetKey(3, r.assets[id].address, r.assets[id].tokenId))
  {
    if id in r.assets {
      assert AssetFiled(r, id);
    }
  }

  /** Two live assets that token requests can name are one exactly if they agree on class, address and id. */
  lemma TokenAssetsDistinct(r: Registry, a: nat, b: nat)
    requires AssetTable(r) && a in r.assets && b in r.assets
    requires !r.assets[a].kind.PlainAsset? && !r.assets[a].kind.Base?
    requires !r.assets[b].kind.PlainAsset? && !r.assets[b].kind.Base?
    ensures a == b <==>
            (r.assets[a].kind.TokenAddress? <==> r.assets[b].kind.TokenAddress?) &&
            r.assets[a].address == r.assets[b].address && r.assets[a].tokenId == r.assets[b].tokenId
  {
    assert AssetFiled(r, a) && AssetFiled(r, b);
  }

  lemma NamedIsLookedUp(r: Registry, q: AssetQuery, op: Retrieval, id: nat)
    requires AssetTable(r)
    ensures NamesAsset(r, q, op, id) <==> LookupAsset(r, q, op) == Hit(id) && id in r.assets
  {
    if !q.AssetById? && !q.BaseAsset? {
      AssetKeysExact(r, q.Fresh().Key(), id);
      hide AssetTable;
    }
  }

  // ---------- requests for assets ----------

  /** A find, or a find-or-create, that names a live asset answers with it and changes nothing. */
  lemma FindsAsset(l: Ledger, q: AssetQuery, op: Retrieval, id: nat)
    requires Inv(l) && op in {Find, FindOrCreate} && NamesAsset(l.reg, q, op, id)
    ensures Step(l, RetrieveAsset(q, op)) == Outcome(l, AssetIs(id, l.reg.assets[id]))
  {
    NamedIsLookedUp(l.reg, q, op, id);
    hide Inv, NamesAsset, LookupAsset, RemoveAsset, CreateAsset;
  }

  /** A find or a removal that names nothing live fails and changes nothing. */
  lemma MissesAsset(l: Ledger, q: AssetQuery, op: Retrieval)
    requires Inv(l) && op in {Find, FindAndRemove} && forall id :: !NamesAsset(l.reg, q, op, id)
    ensures Step(l, RetrieveAsset(q, op)) == Outcome(l, Fail(AssetNotFound))
  {
    var hit := LookupAsset(l.reg, q, op);
    if hit.Hit? {
      NamedIsLookedUp(l.reg, q, op, hit.id);
    }
    hide Inv, NamesAsset, LookupAsset, RemoveAsset, CreateAsset;
  }

  /** A removal takes exactly the named asset away, frees the base flag with a base asset, and is refused while any of
      it is in circulation. */
  lemma RemovesAsset(l: Ledger, q: AssetQuery, id: nat)
    requires Inv(l) && NamesAsset(l.reg, q, FindAndRemove, id)
    ensures var o, a := Step(l, RetrieveAsset(q, FindAndRemove)), l.reg.assets[id];
            if a.supply != 0 then o == Outcome(l, Fail(AssetHasSupply))
            else o.reply == AssetIs(id, a) &&
                 o.ledger == l.(reg := l.reg.(assets := l.reg.assets - {id}, assetIds := o.ledger.reg.assetIds,
                                              baseDefined := l.reg.baseDefined && !a.kind.Base?))
  {
    NamedIsLookedUp(l.reg, q, FindAndRemove, id);
    assert AssetFiled(l.reg, id);
    hide Inv, NamesAsset, LookupAsset, CreateAsset;
  }

  /** A creation fails for want of an id, for a base asset that is already defined, or for a token already there, in
      that order; otherwise it stores what was asked for under the next id. */
  lemma CreatesAsset(l: Ledger, q: AssetQuery, op: Retrieval)
    requires Inv(l)
    requires op.Create? || (op.FindOrCreate? && forall id :: !NamesAsset(l.reg, q, op, id))
    ensures var o, n := Step(l, RetrieveAsset(q, op)), l.reg.nextAsset;
            if n >= l.reg.maxAssets then o == Outcome(l, Fail(MaxAssetsReached))
            else if q.BaseAsset? && l.reg.baseDefined then o == Outcome(l, Fail(InsertionError))
            else if exists id :: id in l.reg.assets && Answers(l.reg.assets[id], q) then
              o == Outcome(l, Fail(InsertionError))
            else o.reply.AssetIs? && o.reply.assetId == n && Ordered(o.reply.asset, q) && n !in l.reg.assets &&
                 o.ledger == l.(reg := l.reg.(assets := l.reg.assets[n := o.reply.asset], nextAsset := n + 1,
                                              assetIds := o.ledger.reg.assetIds,
                                              baseId := if q.BaseAsset? then n else l.reg.baseId,
                                              baseDefined := l.reg.baseDefined || q.BaseAsset?))
  {
    NextAssetFree(l.reg);
    NotFoundCreates(l.reg, q, op);
    KeyTaken(l.reg, q);
    hide Inv, LookupAsset, RemoveAsset, Answers, FileAsset;
  }

  /** A request that creates is filed as a creation. */
  lemma NotFoundCreates(r: Registry, q: AssetQuery, op: Retrieval)
    requires AssetTable(r)
    requires op.Create? || (op.FindOrCreate? && forall id :: !NamesAsset(r, q, op, id))
    ensures FileAsset(r, q, op) == CreateAsset(r, q.Fresh())
  {
    var hit := LookupAsset(r, q, op);
    if hit.Hit? {
      NamedIsLookedUp(r, q, op, hit.id);
      if !q.AssetById? && !q.BaseAsset? {
        AssetKeysExact(r, q.Fresh().Key(), hit.id);
      }
    }
    hide AssetTable, NamesAsset, CreateAsset;
  }

  lemma KeyTaken(r: Registry, q: AssetQuery)
    requires AssetTable(r)
    ensures q.Fresh().kind.Keyed() && q.Fresh().Key() in r.assetIds <==>
            exists id :: id in r.assets && Answers(r.assets[id], q)
  {
    var key := q.Fresh().Key();
    if q.Fresh().kind.Keyed() && key in r.assetIds {
      AssetKeysExact(r, key, r.assetIds[key]);
      assert r.assetIds[key] in r.assets && Answers(r.assets[r.assetIds[key]], q);
    }
    if id :| id in r.assets && Answers(r.assets[id], q) {
      AssetKeysExact(r, key, id);
    }
    hide AssetTable;
  }

  // ---------- the base asset, ids and unused fields ----------

  /** At most one base asset is live. */
  lemma OneBaseAsset(r: Registry, a: nat, b: nat)
    requires AssetTable(r) && a in r.assets && b in r.assets && r.assets[a].kind.Base? && r.assets[b].kind.Base?
    ensures a == b && r.baseDefined && r.baseId == a
  {
    assert AssetFiled(r, a) && AssetFiled(r, b);
  }

  /** Live ids are below their counters and those within their limits; fields a type does not use are zero; wallets have
      an address for their id. */
  lemma LiveRecords(l: Ledger, a: nat, x: nat)
    requires Inv(l)
    ensures a in l.reg.assets ==>
              var asset := l.reg.assets[a];
              a < l.reg.nextAsset <= l.reg.maxAssets &&
              (asset.kind.PlainAsset? || asset.kind.Base? ==> asset.address == 0 && asset.tokenId == 0) &&
              (asset.kind.TokenAddress? ==> asset.tokenId == 0)
    ensures x in l.reg.accounts ==>
              x < l.reg.nextAccount <= l.reg.maxAccounts &&
              (l.reg.accounts[x].kind.WalletAddress? ==> l.reg.accounts[x].id < ADDRESS_LIMIT)
  {
    if a in l.reg.assets {
      assert AssetFiled(l.reg, a);
    }
    if x in l.reg.accounts {
      assert AccountFiled(l.reg, x);
    }
  }

  // ---------- naming accounts ----------

  /** The 32-byte word a request by bytes or by record stands for. */
  function RequestedWord(q: AccountQuery): nat
    requires !q.AccountById?
  {
    match q
    case WalletBytes(x) => x
    case AccountIdBytes(w) => w
    case WalletRecord(w) => w % ADDRESS_LIMIT
    case AccountIdRecord(w) => w
  }

  predicate NamesAccount(r: Registry, q: AccountQuery, id: nat) {
    id in r.accounts &&
    match q
    case AccountById(i) => id == i
    case _ => !r.accounts[id].kind.PlainAccount? && r.accounts[id].id == RequestedWord(q)
  }

  /** The account a creation stores. Only an id passed as bytes becomes a wallet if its first 12 bytes are zero. */
  predicate OrderedAccount(c: Account, q: AccountQuery) {
    match q
    case AccountById(_) => c.kind.PlainAccount? && c.id == 0
    case WalletBytes(x) => c.kind.WalletAddress? && c.id == x
    case AccountIdBytes(w) => c.id == w && (if w < ADDRESS_LIMIT then c.kind.WalletAddress? else c.kind.AccountId?)
    case WalletRecord(w) => c.kind.WalletAddress? && c.id == w % ADDRESS_LIMIT
    case AccountIdRecord(w) => c.kind.AccountId? && c.id == w
  }

  /** The key table holds exactly the live accounts that have an address or an id, under that id. */
  lemma AccountKeysExact(r: Registry, w: Word, id: nat)
    requires AccountTable(r)
    ensures w in r.accountIds && r.accountIds[w] == id <==>
            id in r.accounts && !r.accounts[id].kind.PlainAccount? && r.accounts[id].id == w
  {
    if id in r.accounts {
      assert AccountFiled(r, id);
    }
  }

  lemma NamedAccountIsLookedUp(r: Registry, q: AccountQuery, id: nat)
    requires AccountTable(r)
    ensures NamesAccount(r, q, id) <==> LookupAccount(r, q) == Hit(id) && id in r.accounts
  {
    if !q.AccountById? {
      AccountKeysExact(r, q.Fresh().id, id);
      hide AccountTable;
    }
  }

  lemma LookedUpIsAccountNamed(r: Registry, q: AccountQuery)
    requires AccountTable(r)
    ensures AccountKnown(r, q) <==> exists id :: NamesAccount(r, q, id)
  {
    var hit := LookupAccount(r, q);
    if hit.Hit? {
      NamedAccountIsLookedUp(r, q, hit.id);
      if !q.AccountById? {
        AccountKeysExact(r, q.Fresh().id, hit.id);
      }
    }
    if id :| NamesAccount(r, q, id) {
      NamedAccountIsLookedUp(r, q, id);
    }
    hide NamesAccount;
  }

  /** Two requests by bytes or record name the same account exactly if their words are the same. */
  lemma SameAccountExactly(r: Registry, p: AccountQuery, q: AccountQuery, id: nat)
    requires !p.AccountById? && !q.AccountById? && NamesAccount(r, p, id)
    ensures NamesAccount(r, q, id) <==> RequestedWord(p) == RequestedWord(q)
  {
  }

  // ---------- requests for accounts ----------

  lemma FindsAccount(l: Ledger, q: AccountQuery, op: Retrieval, id: nat)
    requires Inv(l) && op in {Find, FindOrCreate} && NamesAccount(l.reg, q, id)
    ensures Step(l, RetrieveAccount(q, op)) == Outcome(l, AccountIs(id, l.reg.accounts[id]))
  {
    NamedAccountIsLookedUp(l.reg, q, id);
    hide Inv, NamesAccount, LookupAccount, RemoveAccount, CreateAccount;
  }

  lemma MissesAccount(l: Ledger, q: AccountQuery, op: Retrieval)
    requires Inv(l) && op in {Find, FindAndRemove} && forall id :: !NamesAccount(l.reg, q, id)
    ensures Step(l, RetrieveAccount(q, op)) == Outcome(l, Fail(AccountNotFound))
  {
    var hit := LookupAccount(l.reg, q);
    if hit.Hit? {
      NamedAccountIsLookedUp(l.reg, q, hit.id);
    }
    hide Inv, NamesAccount, LookupAccount, RemoveAccount, CreateAccount;
  }

  /** A removal takes exactly the named account away, and is refused while any balance names it. */
  lemma RemovesAccount(l: Ledger, q: AccountQuery, id: nat)
    requires Inv(l) && NamesAccount(l.reg, q, id)
    ensures var o := Step(l, RetrieveAccount(q, FindAndRemove));
            if exists k :: k in l.balances && k.account == id then o == Outcome(l, Fail(AccountHasBalance))
            else o.reply == AccountIs(id, l.reg.accounts[id]) &&
                 o.ledger == l.(reg := l.reg.(accounts := l.reg.accounts - {id},
                                              accountIds := o.ledger.reg.accountIds))
  {
    NamedAccountIsLookedUp(l.reg, q, id);
    assert AccountFiled(l.reg, id);
    if k :| k in l.balances && k.account == id {
      assert k in Holdings(l.balances.Keys, id);
    }
    hide Inv, NamesAccount, LookupAccount, CreateAccount;
  }

  /** A creation fails for want of an id, or for an account already there; otherwise it stores what was asked for under
      the next id. */
  lemma CreatesAccount(l: Ledger, q: AccountQuery, op: Retrieval)
    requires Inv(l)
    requires op.Create? || (op.FindOrCreate? && forall id :: !NamesAccount(l.reg, q, id))
    ensures var o, n := Step(l, RetrieveAccount(q, op)), l.reg.nextAccount;
            if n >= l.reg.maxAccounts then o == Outcome(l, Fail(MaxAccountsReached))
            else if !q.AccountById? && exists id :: NamesAccount(l.reg, q, id) then
              o == Outcome(l, Fail(InsertionError))
            else o.reply.AccountIs? && o.reply.accountId == n && OrderedAccount(o.reply.account, q) &&
                 n !in l.reg.accounts &&
                 o.ledger == l.(reg := l.reg.(accounts := l.reg.accounts[n := o.reply.account], nextAccount := n + 1,
                                              accountIds := o.ledger.reg.accountIds))
  {
    NextAccountFree(l.reg);
    AccountNotFoundCreates(l.reg, l.balances.Keys, q, op);
    LookedUpIsAccountNamed(l.reg, q);
    hide Inv, LookupAccount, RemoveAccount, NamesAccount, FileAccount;
  }

  lemma AccountNotFoundCreates(r: Registry, keys: set<Key>, q: AccountQuery, op: Retrieval)
    requires AccountTable(r)
    requires op.Create? || (op.FindOrCreate? && forall id :: !NamesAccount(r, q, id))
    ensures FileAccount(r, keys, q, op) == CreateAccount(r, q.Fresh())
  {
    var hit := LookupAccount(r, q);
    if hit.Hit? {
      NamedAccountIsLookedUp(r, q, hit.id);
      if !q.AccountById? {
        AccountKeysExact(r, q.Fresh().id, hit.id);
      }
    }
    hide AccountTable, NamesAccount, CreateAccount;
  }

  /** Two requests in a row that ask for an account, creating it if need be, answer with the same account exactly if
      they ask for the same word. */
  lemma SecondRequest(l: Ledger, p: AccountQuery, q: AccountQuery)
    requires Inv(l) && !p.AccountById? && !q.AccountById?
    requires Step(l, RetrieveAccount(p, FindOrCreate)).reply.AccountIs?
    ensures var o := Step(l, RetrieveAccount(p, FindOrCreate));
            Step(o.ledger, RetrieveAccount(q, Find)).reply == o.reply <==> RequestedWord(p) == RequestedWord(q)
  {
    var o := Step(l, RetrieveAccount(p, FindOrCreate));
    StepKeepsInv(l, RetrieveAccount(p, FindOrCreate));
    FirstRequestNames(l, p);
    hide Step, Inv, NamesAccount, RequestedWord;
    SameAccountExactly(o.ledger.reg, p, q, o.reply.accountId);
    if RequestedWord(p) == RequestedWord(q) {
      FindsAccount(o.ledger, q, Find, o.reply.accountId);
    } else {
      OtherAnswer(o.ledger, q, o.reply.accountId);
    }
  }

  lemma FirstRequestNames(l: Ledger, p: AccountQuery)
    requires Inv(l) && !p.AccountById? && Step(l, RetrieveAccount(p, FindOrCreate)).reply.AccountIs?
    ensures var o := Step(l, RetrieveAccount(p, FindOrCreate));
            NamesAccount(o.ledger.reg, p, o.reply.accountId) &&
            o.reply.account == o.ledger.reg.accounts[o.reply.accountId]
  {
    if id :| NamesAccount(l.reg, p, id) {
      FindsAccount(l, p, FindOrCreate, id);
    } else {
      CreatesAccount(l, p, FindOrCreate);
    }
    hide Step, Inv;
  }

  lemma OtherAnswer(l: Ledger, q: AccountQuery, id: nat)
    requires Inv(l) && !NamesAccount(l.reg, q, id)
    ensures var e := Step(l, RetrieveAccount(q, Find)).reply; e.AccountIs? ==> e.accountId != id
  {
    if x :| NamesAccount(l.reg, q, x) {
      FindsAccount(l, q, Find, x);
    } else {
      MissesAccount(l, q, Find);
    }
    hide Step, Inv;
  }

  // ---------- balances ----------

  /** A balance as it is stored: setting a stored one to zero drops it. */
  function Stored(b: map<Key, Amount>, k: Key, v: Amount): map<Key, Amount> {
    if v == 0 && k in b then b - {k} else b[k := v]
  }

  lemma PostingStores(l: Ledger, k: Key, v: Amount)
    requires k.asset in l.reg.assets && k.account in l.reg.accounts
    ensures SetBalance(l, k, v) ==
            if k !in l.balances && |l.balances| >= l.maxBalances then Posting(l.balances, Fail(MaxBalancesReached))
            else Posting(Stored(l.balances, k, v), Done)
  {
  }

  /** A deposit: which code is reported, and what it adds to. */
  lemma Deposits(l: Ledger, a: nat, x: nat, v: Amount)
    requires Inv(l)
    ensures var k, o := Key(a, x), Step(l, Deposit(a, x, v));
            if v == 0 then o == Outcome(l, Fail(BalanceOverflow))
            else if a !in l.reg.assets then o == Outcome(l, Fail(AssetNotFound))
            else if l.reg.assets[a].supply + v >= AMOUNT_LIMIT then o == Outcome(l, Fail(SupplyOverflow))
            else if l.reg.assets[a].kind.TokenAddressId? && (l.reg.assets[a].supply != 0 || v != 1) then
              o == Outcome(l, Fail(SupplyOverflow))
            else if x !in l.reg.accounts then o == Outcome(l, Fail(AccountNotFound))
            else if k !in l.balances && |l.balances| >= l.maxBalances then o == Outcome(l, Fail(MaxBalancesReached))
            else Balance(l.balances, k) + v < AMOUNT_LIMIT && o.reply == Done &&
                 o.ledger ==
                   l.(balances := l.balances[k := Balance(l.balances, k) + v],
                      reg := l.reg.(assets :=
                               l.reg.assets[a := l.reg.assets[a].(supply := l.reg.assets[a].supply + v)]))
  {
    if a in l.reg.assets {
      BalancesWithinSupply(l, a, x, x);
    }
    if a in l.reg.assets && x in l.reg.accounts && Balance(l.balances, Key(a, x)) + v < AMOUNT_LIMIT {
      PostingStores(l, Key(a, x), Balance(l.balances, Key(a, x)) + v);
    }
    hide Inv, SetBalance;
  }

  /** A withdrawal: which code is reported, and what it takes from. */
  lemma Withdraws(l: Ledger, a: nat, x: nat, v: Amount)
    requires Inv(l)
    ensures var k, o := Key(a, x), Step(l, Withdraw(a, x, v));
            if a !in l.reg.assets then o == Outcome(l, Fail(AssetNotFound))
            else if v > l.reg.assets[a].supply then o == Outcome(l, Fail(SupplyOverflow))
            else if x !in l.reg.accounts then o == Outcome(l, Fail(AccountNotFound))
            else if v > Balance(l.balances, k) then o == Outcome(l, Fail(InsufficientFunds))
            else if k !in l.balances && |l.balances| >= l.maxBalances then o == Outcome(l, Fail(MaxBalancesReached))
            else o.reply == Done &&
                 o.ledger ==
                   l.(balances := Stored(l.balances, k, Balance(l.balances, k) - v),
                      reg := l.reg.(assets :=
                               l.reg.assets[a := l.reg.assets[a].(supply := l.reg.assets[a].supply - v)]))
  {
    if a in l.reg.assets && x in l.reg.accounts && v <= Balance(l.balances, Key(a, x)) {
      PostingStores(l, Key(a, x), Balance(l.balances, Key(a, x)) - v);
    }
    hide Inv, SetBalance, Stored;
  }

  /** A transfer: which code is reported, what it moves, and what is left when the receiver finds no room. */
  lemma Transfers(l: Ledger, a: nat, x: nat, y: nat, v: Amount)
    requires Inv(l)
    ensures var kx, ky, o := Key(a, x), Key(a, y), Step(l, Transfer(a, x, y, v));
            if a !in l.reg.assets then o == Outcome(l, Fail(AssetNotFound))
            else if x == y then o == Outcome(l, Fail(Invalid))
            else if x !in l.reg.accounts then o == Outcome(l, Fail(AccountNotFound))
            else if v > Balance(l.balances, kx) then o == Outcome(l, Fail(InsufficientFunds))
            else if y !in l.reg.accounts then o == Outcome(l, Fail(AccountNotFound))
            else if kx !in l.balances && |l.balances| >= l.maxBalances then o == Outcome(l, Fail(MaxBalancesReached))
            else
              var b := Stored(l.balances, kx, Balance(l.balances, kx) - v);
              if ky !in b && |b| >= l.maxBalances then o == Outcome(l.(balances := b), Fail(MaxBalancesReached))
              else Balance(l.balances, ky) + v < AMOUNT_LIMIT &&
                   o == Outcome(l.(balances := Stored(b, ky, Balance(l.balances, ky) + v)), Done)
  {
    var kx, ky := Key(a, x), Key(a, y);
    if a in l.reg.assets && x in l.reg.accounts && y in l.reg.accounts && x != y && v <= Balance(l.balances, kx) {
      BalancesWithinSupply(l, a, x, y);
      PostingStores(l, kx, Balance(l.balances, kx) - v);
      PostingStores(l.(balances := Stored(l.balances, kx, Balance(l.balances, kx) - v)), ky,
                    Balance(l.balances, ky) + v);
    }
    hide Inv, SetBalance, Stored;
  }

  // ---------- creation, clearing, runs ----------

  /** Every field of a new ledger. */
  lemma StartsEmpty(maxAccounts: nat, maxAssets: nat, maxBalances: nat)
    ensures var l := Empty(maxAccounts, maxAssets, maxBalances);
            l.reg.maxAccounts == maxAccounts && l.reg.maxAssets == maxAssets && l.maxBalances == maxBalances &&
            l.reg.assets == map[] && l.reg.assetIds == map[] && l.reg.accounts == map[] && l.reg.accountIds == map[] &&
            l.balances == map[] && l.reg.nextAsset == 0 && l.reg.nextAccount == 0 && !l.reg.baseDefined
  {
  }

  /** Every field of a ledger that was cleared. */
  lemma Clears(l: Ledger)
    ensures var o := Step(l, Clear);
            o.reply == Done && o.ledger.balances == map[] && o.ledger.maxBalances == l.maxBalances &&
            o.ledger.reg.assets == map[] && o.ledger.reg.assetIds == map[] &&
            o.ledger.reg.accounts == map[] && o.ledger.reg.accountIds == map[] &&
            o.ledger.reg.maxAccounts == l.reg.maxAccounts && o.ledger.reg.maxAssets == l.reg.maxAssets &&
            o.ledger.reg.nextAsset == l.reg.nextAsset && o.ledger.reg.nextAccount == l.reg.nextAccount &&
            o.ledger.reg.baseId == l.reg.baseId && o.ledger.reg.baseDefined == l.reg.baseDefined
  {
  }

  /** A run goes on where its first part ended, and answers one reply for every operation. */
  lemma {:induction false} RunsCompose(l: Ledger, xs: seq<Op>, ys: seq<Op>)
    ensures Run(l, xs + ys) == Run(Run(l, xs), ys)
    ensures |Replies(l, xs)| == |xs| && Replies(l, xs + ys) == Replies(l, xs) + Replies(Run(l, xs), ys)
    decreases |xs|
  {
    if xs == [] {
      assert xs + ys == ys;
    } else {
      assert (xs + ys)[1..] == xs[1..] + ys;
      hide Step;
      RunsCompose(Step(l, xs[0]).ledger, xs[1..], ys);
    }
  }

  /** What a find for the base asset gives is a base asset: the recorded id is never reused for another. */
  ghost predicate BaseRecorded(r: Registry) {
    r.baseDefined ==> r.baseId < r.nextAsset && (r.baseId in r.assets ==> r.assets[r.baseId].kind.Base?)
  }

  lemma StepKeepsBaseRecorded(l: Ledger, op: Op)
    requires Inv(l) && BaseRecorded(l.reg)
    ensures BaseRecorded(Step(l, op).ledger.reg)
  {
    match op
    case RetrieveAsset(q, r) =>
      if id :| NamesAsset(l.reg, q, r, id) && !r.Create? {
        if r.FindAndRemove? {
          RemovesAsset(l, q, id);
        } else {
          FindsAsset(l, q, r, id);
        }
      } else if r.Create? || r.FindOrCreate? {
        CreatesAsset(l, q, r);
      } else {
        MissesAsset(l, q, r);
      }
      hide Step, Inv;
    case RetrieveAccount(q, r) => FileAccountCases(l.reg, l.balances.Keys, q, r); hide FileAccount;
    case Deposit(a, t, v) => Deposits(l, a, t, v); hide Step;
    case Withdraw(a, f, v) => Withdraws(l, a, f, v); hide Step;
    case Transfer(a, f, t, v) => Transfers(l, a, f, t, v); hide Step;
    case Clear =>
  }

  lemma {:induction false} RunKeepsBaseRecorded(l: Ledger, ops: seq<Op>)
    requires Inv(l) && BaseRecorded(l.reg)
    ensures BaseRecorded(Run(l, ops).reg)
    decreases |ops|
  {
    if ops != [] {
      StepKeepsInv(l, ops[0]);
      StepKeepsBaseRecorded(l, ops[0]);
      hide Step, Inv, BaseRecorded;
      RunKeepsBaseRecorded(Step(l, ops[0]).ledger, ops[1..]);
    }
  }

  /** In every reachable ledger, a find for the base asset answers with the one live base asset exactly if there is one,
      whatever id it is given. */
  lemma BaseFoundExactly(maxAccounts: nat, maxAssets: nat, maxBalances: nat, ops: seq<Op>, i: nat, id: nat)
    ensures var l := Run(Empty(maxAccounts, maxAssets, maxBalances), ops);
            var e := Step(l, RetrieveAsset(BaseAsset(i), Find)).reply;
            l.reg.baseDefined ==>
              (e.AssetIs? && e.assetId == id <==> id in l.reg.assets && l.reg.assets[id].kind.Base?)
  {
    var start := Empty(maxAccounts, maxAssets, maxBalances);
    var l := Run(start, ops);
    ReachableInv(maxAccounts, maxAssets, maxBalances, ops);
    RunKeepsBaseRecorded(start, ops);
    hide Run, Step, Empty;
    var q := BaseAsset(i);
    if id in l.reg.assets && l.reg.assets[id].kind.Base? {
      OneBaseAsset(l.reg, id, id);
    }
    if l.reg.baseDefined {
      if l.reg.baseId in l.reg.assets {
        FindsAsset(l, q, Find, l.reg.baseId);
      } else {
        MissesAsset(l, q, Find);
      }
    }
    hide Inv;
  }
}

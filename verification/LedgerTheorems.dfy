/** What the invariant is for: failure atomicity, conservation, holders, and what can never be undone. */
module LedgerTheorems {
  import opened LedgerTypes
  import opened LedgerSpec
  import opened LedgerInvariants

  // ---------- failures ----------

  /** The one way an operation fails halfway: a transfer whose debit is stored and whose credit then finds the
      table full. A sender without an entry (so the amount is zero) even gets one first. */
  ghost predicate Torn(l: Ledger, op: Op) {
    op.Transfer? && TransferAllowed(l, op) && Key(op.asset, op.to) !in l.balances &&
    var k := Key(op.asset, op.from);
    if k in l.balances then 0 < op.amount < l.balances[k] && |l.balances| == l.maxBalances
    else |l.balances| + 1 == l.maxBalances
  }

  lemma MapSizes(b: map<Key, Amount>, k: Key, v: Amount)
    ensures |b[k := v]| == |b| + if k in b then 0 else 1
    ensures |b - {k}| == |b| - if k in b then 1 else 0
  {
    assert b[k := v].Keys == b.Keys + {k};
    assert (b - {k}).Keys == b.Keys - {k};
  }

  lemma PostingCases(l: Ledger, k: Key, v: Amount)
    requires k.asset in l.reg.assets && k.account in l.reg.accounts
    ensures var b, p := l.balances, SetBalance(l, k, v);
            if k !in b && |b| >= l.maxBalances then p == Posting(b, Fail(MaxBalancesReached))
            else if k in b && v == 0 then p == Posting(b - {k}, Done) && |p.balances| == |b| - 1
            else p == Posting(b[k := v], Done) && |p.balances| == |b| + if k in b then 0 else 1
  {
    MapSizes(l.balances, k, v);
  }

  /** What the debit does to the table, by what the sender has. */
  lemma DebitCases(l: Ledger, op: Op)
    requires Inv(l) && op.Transfer? && TransferAllowed(l, op)
    ensures var k, b, p := Key(op.asset, op.from), l.balances, Debit(l, op);
            if k !in b then (if |b| >= l.maxBalances then p.reply.Fail? && p.balances == b
                             else p.reply.Done? && p.balances == b[k := 0] && |p.balances| == |b| + 1)
            else if op.amount == b[k] then p.reply.Done? && p.balances == b - {k} && |p.balances| == |b| - 1
            else p.reply.Done? && p.balances == b[k := b[k] - op.amount] && |p.balances| == |b|
  {
    hide Inv, SetBalance;
    PostingCases(l, Key(op.asset, op.from), Balance(l.balances, Key(op.asset, op.from)) - op.amount);
  }

  /** The credit fails exactly for want of room. */
  lemma CreditCases(l: Ledger, op: Op)
    requires Inv(l) && op.Transfer? && TransferAllowed(l, op) && Debit(l, op).reply.Done?
    requires Balance(l.balances, Key(op.asset, op.to)) + op.amount < AMOUNT_LIMIT
    ensures var k, b, p := Key(op.asset, op.to), Debit(l, op).balances, Credit(l, op);
            (k in b <==> k in l.balances) &&
            if k !in b && |b| >= l.maxBalances then p == Posting(b, Fail(MaxBalancesReached)) else p.reply.Done?
  {
    DebitCases(l, op);
    hide Debit;
  }

  /** A transfer fails and yet changes the ledger exactly when it is torn. */
  lemma TransferAtomic(l: Ledger, op: Op)
    requires Inv(l) && op.Transfer?
    ensures Step(l, op).reply.Fail? || Step(l, op).reply.Done?
    ensures Step(l, op).reply.Fail? && Step(l, op).ledger != l <==> Torn(l, op)
    ensures Torn(l, op) ==> Step(l, op).reply == Fail(MaxBalancesReached) &&
                            Step(l, op).ledger == l.(balances := Debit(l, op).balances)
  {
    if !TransferAllowed(l, op) {
      TransferRefused(l, op);
    } else {
      TransferShape(l, op);
      DebitCases(l, op);
      if Debit(l, op).reply.Done? {
        CreditCases(l, op);
      }
      hide Step, Debit, Credit;
      var k := Key(op.asset, op.from);
      assert k in l.balances && op.amount == 0 ==> l.balances[k := l.balances[k]] == l.balances;
      assert k in l.balances && op.amount > 0 ==> l.balances[k := l.balances[k] - op.amount][k] != l.balances[k];
    }
  }

  lemma RetrieveFailureIsClean(l: Ledger, op: Op)
    requires Inv(l) && (op.RetrieveAsset? || op.RetrieveAccount?) && Step(l, op).reply.Fail?
    ensures Step(l, op).ledger == l
  {
    NextAssetFree(l.reg);
    NextAccountFree(l.reg);
  }

  /** Every operation that fails leaves the whole ledger as it was, except exactly the torn transfers. */
  lemma FailureIsAtomic(l: Ledger, op: Op)
    requires Inv(l) && Step(l, op).reply.Fail?
    ensures Step(l, op).ledger == l <==> !Torn(l, op)
  {
    match op
    case RetrieveAsset(_, _) => RetrieveFailureIsClean(l, op);
    case RetrieveAccount(_, _) => RetrieveFailureIsClean(l, op);
    case Deposit(a, t, v) => DepositSound(l, a, t, v);
    case Withdraw(a, f, v) => WithdrawSound(l, a, f, v);
    case Transfer(_, _, _, _) => TransferAtomic(l, op);
    case Clear =>
  }

  /** The request names a live asset: by its id, as the base asset, or by its key. */
  predicate AssetKnown(r: Registry, q: AssetQuery, op: Retrieval) {
    match q
    case AssetById(id) => id in r.assets
    case BaseAsset(id) => (if op.Find? && r.baseDefined then r.baseId else id) in r.assets
    case _ => q.Fresh().Key() in r.assetIds
  }

  /** The request names a live account: by its id or by its key. */
  predicate AccountKnown(r: Registry, q: AccountQuery) {
    if q.AccountById? then q.id in r.accounts else q.Fresh().id in r.accountIds
  }

  /** The throws that should not happen do not: a removal never misses a key table; a request reports something as
      missing exactly if it must not create and names nothing live, so a key table hit never misses the id table; and
      an insertion is refused exactly for a key, or the base asset, that is already taken. */
  lemma InternalThrowsUnreachable(l: Ledger, op: Op)
    requires Inv(l)
    ensures Step(l, op).reply != Fail(RemoveError)
    ensures op.RetrieveAsset? ==>
              Step(l, op).reply != Fail(AccountNotFound) &&
              (Step(l, op).reply == Fail(AssetNotFound) <==>
               !op.retrieval.Creates() && !AssetKnown(l.reg, op.assetQuery, op.retrieval))
    ensures op.RetrieveAccount? ==>
              Step(l, op).reply != Fail(AssetNotFound) &&
              (Step(l, op).reply == Fail(AccountNotFound) <==>
               !op.retrieval.Creates() && !AccountKnown(l.reg, op.accountQuery))
    ensures Step(l, op).reply == Fail(InsertionError) <==>
            (op.RetrieveAsset? && l.reg.nextAsset < l.reg.maxAssets &&
             (if op.assetQuery.BaseAsset? then
                l.reg.baseDefined && op.retrieval.Creates() &&
                (op.retrieval.Create? || op.assetQuery.id !in l.reg.assets)
              else
                op.retrieval.Create? && op.assetQuery.Fresh().kind.Keyed() &&
                op.assetQuery.Fresh().Key() in l.reg.assetIds))
            || (op.RetrieveAccount? && l.reg.nextAccount < l.reg.maxAccounts &&
                op.retrieval.Create? && !op.accountQuery.AccountById? && op.accountQuery.Fresh().id in l.reg.accountIds)
  {
    match op
    case RetrieveAsset(q, r) => FileAssetReplies(l.reg, q, r); hide FileAsset;
    case RetrieveAccount(q, r) => FileAccountReplies(l.reg, l.balances.Keys, q, r); hide FileAccount;
    case Deposit(a, t, v) => SettleReplies(l, Key(a, t)); hide SetBalance;
    case Withdraw(a, f, v) => SettleReplies(l, Key(a, f)); hide SetBalance;
    case Transfer(a, f, t, v) => TransferReplies(l, op); hide TransferStep;
    case Clear =>
  }

  lemma SettleReplies(l: Ledger, k: Key)
    ensures forall v: Amount :: var e := SetBalance(l, k, v).reply;
              e.Done? || (e.Fail? && e.error in {MaxBalancesReached, AssetNotFound, AccountNotFound})
  {
  }

  lemma TransferReplies(l: Ledger, op: Op)
    requires op.Transfer?
    ensures var e := Step(l, op).reply; e.Fail? ==> e.error !in {RemoveError, InsertionError}
  {
    SettleReplies(l, Key(op.asset, op.from));
    if op.amount <= Balance(l.balances, Key(op.asset, op.from)) {
      SettleReplies(l.(balances := Debit(l, op).balances), Key(op.asset, op.to));
    }
    hide SetBalance;
  }

  lemma FileAssetReplies(r: Registry, q: AssetQuery, op: Retrieval)
    requires AssetTable(r)
    ensures var e := FileAsset(r, q, op).reply;
            e != Fail(RemoveError) && e != Fail(AccountNotFound) &&
            (e == Fail(AssetNotFound) <==> !op.Creates() && !AssetKnown(r, q, op)) &&
            (e == Fail(InsertionError) <==>
              r.nextAsset < r.maxAssets &&
              if q.BaseAsset? then r.baseDefined && op.Creates() && (op.Create? || q.id !in r.assets)
              else op.Create? && q.Fresh().kind.Keyed() && q.Fresh().Key() in r.assetIds)
  {
    NextAssetFree(r);
    var hit := LookupAsset(r, q, op);
    assert hit.Hit? && hit.id in r.assets ==> AssetFiled(r, hit.id);
  }

  lemma FileAccountReplies(r: Registry, b: set<Key>, q: AccountQuery, op: Retrieval)
    requires AccountTable(r)
    ensures var e := FileAccount(r, b, q, op).reply;
            e != Fail(RemoveError) && e != Fail(AssetNotFound) &&
            (e == Fail(AccountNotFound) <==> !op.Creates() && !AccountKnown(r, q)) &&
            (e == Fail(InsertionError) <==>
              r.nextAccount < r.maxAccounts && op.Create? && !q.AccountById? && q.Fresh().id in r.accountIds)
  {
    NextAccountFree(r);
    var hit := LookupAccount(r, q);
    assert hit.Hit? && hit.id in r.accounts ==> AccountFiled(r, hit.id);
  }

  // ---------- conservation ----------

  /** The part of an asset's supply that no account holds. */
  ghost function Gap(l: Ledger, a: nat): int
    requires a in l.reg.assets
  {
    l.reg.assets[a].supply - Held(l, a)
  }

  ghost predicate Conserved(l: Ledger) {
    forall a :: a in l.reg.assets ==> Gap(l, a) == 0
  }

  ghost function Loss(l: Ledger, op: Op, a: nat): nat {
    if Torn(l, op) && op.asset == a then op.amount else 0
  }

  /** Only a torn transfer opens a gap, by its amount; no other operation changes one. */
  lemma GapStep(l: Ledger, op: Op, a: nat)
    requires Inv(l) && a in Step(l, op).ledger.reg.assets
    ensures Gap(Step(l, op).ledger, a) == if a in l.reg.assets then Gap(l, a) + Loss(l, op, a) else 0
  {
    match op
    case RetrieveAsset(q, r) => GapFileAsset(l, q, r, a);
    case RetrieveAccount(q, r) => GapFileAccount(l, q, r, a);
    case Deposit(b, t, v) => GapDeposit(l, b, t, v, a);
    case Withdraw(b, f, v) => GapWithdraw(l, b, f, v, a);
    case Transfer(_, _, _, _) => GapTransfer(l, op, a);
    case Clear =>
  }

  lemma GapFileAsset(l: Ledger, q: AssetQuery, op: Retrieval, a: nat)
    requires Inv(l) && a in FileAsset(l.reg, q, op).reg.assets
    ensures Gap(l.(reg := FileAsset(l.reg, q, op).reg), a) == if a in l.reg.assets then Gap(l, a) else 0
  {
    FileAssetEvolves(l.reg, q, op);
    FileAssetNew(l.reg, q, op);
    hide FileAsset;
    if a !in l.reg.assets {
      forall x: nat | x < l.reg.nextAccount
        ensures Balance(l.balances, Key(a, x)) == 0
      {
        assert Key(a, x) in l.balances ==> Placed(l.reg, Key(a, x), l.balances[Key(a, x)]);
      }
      TotalZero(l.balances, a, l.reg.nextAccount);
    }
  }

  /** Filing an asset request touches no account, no stored asset's record, and stores only fresh records. */
  lemma FileAssetNew(r: Registry, q: AssetQuery, op: Retrieval)
    ensures var s := FileAsset(r, q, op).reg;
            s.nextAccount == r.nextAccount &&
            forall a :: a in s.assets ==> s.assets[a] == if a in r.assets then r.assets[a] else q.Fresh()
  {
    FileAssetCases(r, q, op);
    hide FileAsset, LookupAsset;
  }

  lemma GapFileAccount(l: Ledger, q: AccountQuery, op: Retrieval, a: nat)
    requires Inv(l) && a in FileAccount(l.reg, l.balances.Keys, q, op).reg.assets
    ensures a in l.reg.assets && Gap(l.(reg := FileAccount(l.reg, l.balances.Keys, q, op).reg), a) == Gap(l, a)
  {
    hide FileAccount, Inv;
    FileAccountScope(l.reg, l.balances.Keys, q, op);
    NoBalanceYet(l, a);
  }

  /** The next account id has no balance. */
  lemma NoBalanceYet(l: Ledger, a: nat)
    requires Inv(l)
    ensures Key(a, l.reg.nextAccount) !in l.balances
  {
    var k := Key(a, l.reg.nextAccount);
    NextAccountFree(l.reg);
    assert k in l.balances ==> Placed(l.reg, k, l.balances[k]);
  }

  lemma FileAccountScope(r: Registry, b: set<Key>, q: AccountQuery, op: Retrieval)
    ensures var s := FileAccount(r, b, q, op).reg;
            s.assets == r.assets && r.nextAccount <= s.nextAccount <= r.nextAccount + 1
  {
    FileAccountCases(r, b, q, op);
    CreateAccountScope(r, q.Fresh());
    hide FileAccount, CreateAccount;
  }

  lemma GapDeposit(l: Ledger, asset: nat, account: nat, v: Amount, a: nat)
    requires Inv(l) && a in DepositStep(l, asset, account, v).ledger.reg.assets
    ensures a in l.reg.assets && Gap(DepositStep(l, asset, account, v).ledger, a) == Gap(l, a)
  {
    DepositSound(l, asset, account, v);
    DepositShape(l, asset, account, v);
  }

  lemma GapWithdraw(l: Ledger, asset: nat, account: nat, v: Amount, a: nat)
    requires Inv(l) && a in WithdrawStep(l, asset, account, v).ledger.reg.assets
    ensures a in l.reg.assets && Gap(WithdrawStep(l, asset, account, v).ledger, a) == Gap(l, a)
  {
    WithdrawSound(l, asset, account, v);
    WithdrawShape(l, asset, account, v);
  }

  lemma GapTransfer(l: Ledger, op: Op, a: nat)
    requires Inv(l) && op.Transfer? && a in l.reg.assets
    ensures Step(l, op).ledger.reg == l.reg && Gap(Step(l, op).ledger, a) == Gap(l, a) + Loss(l, op, a)
  {
    hide Step, Debit;
    TransferSound(l, op);
    TransferAtomic(l, op);
    if Torn(l, op) {
      DebitSound(l, op);
      TornDebitIsStored(l, op);
    } else if Step(l, op).reply.Fail? {
      assert Step(l, op).ledger == l;
    }
  }

  lemma TornDebitIsStored(l: Ledger, op: Op)
    requires Inv(l) && Torn(l, op)
    ensures Debit(l, op).reply.Done?
  {
    DebitCases(l, op);
    hide Debit;
  }

  /** Conservation: supply equals the sum of balances after an operation exactly when it is not a torn transfer of a
      nonzero amount. */
  lemma ConservationExact(l: Ledger, op: Op)
    requires Inv(l) && Conserved(l)
    ensures Conserved(Step(l, op).ledger) <==> !(Torn(l, op) && op.amount > 0)
  {
    var m := Step(l, op).ledger;
    forall a | a in m.reg.assets
      ensures Gap(m, a) == if a in l.reg.assets then Loss(l, op, a) else 0
    {
      GapStep(l, op, a);
    }
    if Torn(l, op) {
      GapTransfer(l, op, op.asset);
    }
  }

  /** No transfer of the run is torn with a nonzero amount. */
  ghost predicate Lossless(l: Ledger, ops: seq<Op>)
    decreases |ops|
  {
    ops != [] ==> !(Torn(l, ops[0]) && ops[0].amount > 0) && Lossless(Step(l, ops[0]).ledger, ops[1..])
  }

  lemma {:induction false} RunConserves(l: Ledger, ops: seq<Op>)
    requires Inv(l) && Conserved(l) && Lossless(l, ops)
    ensures Conserved(Run(l, ops))
    decreases |ops|
  {
    if ops != [] {
      StepKeepsInv(l, ops[0]);
      ConservationExact(l, ops[0]);
      RunConserves(Step(l, ops[0]).ledger, ops[1..]);
    }
  }

  /** What a torn transfer loses is never recovered: short of clearing the ledger, the asset stays live for good and
      the gap between its supply and its balances never closes. */
  lemma {:induction false} LostForGood(l: Ledger, ops: seq<Op>, a: nat)
    requires Inv(l) && a in l.reg.assets && Gap(l, a) > 0 && Clear !in ops
    ensures a in Run(l, ops).reg.assets && Gap(Run(l, ops), a) >= Gap(l, a)
    decreases |ops|
  {
    if ops != [] {
      var m := Step(l, ops[0]).ledger;
      StepKeepsInv(l, ops[0]);
      SuppliedAssetStays(l, ops[0], a);
      GapStep(l, ops[0], a);
      assert Clear !in ops[1..];
      LostForGood(m, ops[1..], a);
    }
  }

  /** Over a run that does not clear the ledger, supplies and balances still agree at the end exactly when no transfer
      on the way was torn. */
  lemma {:induction false} RunConservesExactly(l: Ledger, ops: seq<Op>)
    requires Inv(l) && Conserved(l) && Clear !in ops
    ensures Conserved(Run(l, ops)) <==> Lossless(l, ops)
    decreases |ops|
  {
    if ops != [] {
      var m := Step(l, ops[0]).ledger;
      StepKeepsInv(l, ops[0]);
      ConservationExact(l, ops[0]);
      assert Clear !in ops[1..];
      if Torn(l, ops[0]) && ops[0].amount > 0 {
        var a := ops[0].asset;
        hide Step, Inv, Torn, Gap, Loss;
        GapIsLoss(l, ops[0]);
        LostForGood(m, ops[1..], a);
        GapNotConserved(Run(m, ops[1..]), a);
      } else {
        hide Step, Inv, Torn;
        RunConservesExactly(m, ops[1..]);
      }
    }
  }

  lemma GapIsLoss(l: Ledger, op: Op)
    requires Inv(l) && Conserved(l) && Torn(l, op)
    ensures op.asset in Step(l, op).ledger.reg.assets && Gap(Step(l, op).ledger, op.asset) == op.amount
  {
    GapTransfer(l, op, op.asset);
    hide Step;
    assert Gap(l, op.asset) == 0;
  }

  lemma GapNotConserved(l: Ledger, a: nat)
    requires a in l.reg.assets && Gap(l, a) > 0
    ensures !Conserved(l)
  {
  }

  /** From creation on: every ledger reached without clearing has each supply equal to the sum of its balances exactly
      when no transfer that led there was torn. */
  lemma ReachableConservation(maxAccounts: nat, maxAssets: nat, maxBalances: nat, ops: seq<Op>)
    requires Clear !in ops
    ensures var l := Empty(maxAccounts, maxAssets, maxBalances); Conserved(Run(l, ops)) <==> Lossless(l, ops)
  {
    RunConservesExactly(Empty(maxAccounts, maxAssets, maxBalances), ops);
  }

  lemma SuppliedAssetStays(l: Ledger, op: Op, a: nat)
    requires Inv(l) && a in l.reg.assets && l.reg.assets[a].supply > 0 && !op.Clear?
    ensures a in Step(l, op).ledger.reg.assets
  {
    StepEvolves(l, op);
    hide Step;
  }

  // ---------- how the tables evolve ----------

  ghost predicate BaseLive(r: Registry) {
    exists a :: a in r.assets && r.assets[a].kind.Base?
  }

  /** What any operation may do to the tables: ids only grow, whatever is new has a new id, what stays keeps its
      identity, and the base flag is given up only with the base asset and taken only when free. */
  ghost predicate Evolves(r: Registry, s: Registry) {
    r.nextAsset <= s.nextAsset && r.nextAccount <= s.nextAccount &&
    (forall a :: a in s.assets ==>
      if a in r.assets then s.assets[a].(supply := 0) == r.assets[a].(supply := 0)
      else a >= r.nextAsset && (s.assets[a].kind.Base? ==> !r.baseDefined)) &&
    (forall x :: x in s.accounts ==> if x in r.accounts then s.accounts[x] == r.accounts[x] else x >= r.nextAccount) &&
    (r.baseDefined && !BaseLive(r) ==> s.baseDefined)
  }

  /** Short of clearing, assets in circulation are kept. */
  ghost predicate KeepsSupplied(r: Registry, s: Registry) {
    forall a :: a in r.assets && r.assets[a].supply > 0 ==> a in s.assets
  }

  lemma RemoveAssetEvolves(r: Registry, id: nat)
    ensures Evolves(r, RemoveAsset(r, id).reg) && KeepsSupplied(r, RemoveAsset(r, id).reg)
  {
  }

  lemma StoreAssetEvolves(r: Registry, asset: Asset)
    requires asset.kind.Base? ==> !r.baseDefined
    ensures Evolves(r, StoreAsset(r, asset).reg) && KeepsSupplied(r, StoreAsset(r, asset).reg)
  {
  }

  lemma CreateAssetEvolves(r: Registry, asset: Asset)
    ensures Evolves(r, CreateAsset(r, asset).reg) && KeepsSupplied(r, CreateAsset(r, asset).reg)
  {
    if asset.kind.Base? ==> !r.baseDefined {
      StoreAssetEvolves(KeyFirst(r, asset), asset);
      hide StoreAsset;
    }
  }

  lemma RemoveAccountEvolves(r: Registry, b: set<Key>, id: nat)
    ensures Evolves(r, RemoveAccount(r, b, id).reg) && KeepsSupplied(r, RemoveAccount(r, b, id).reg)
  {
  }

  lemma CreateAccountEvolves(r: Registry, account: Account)
    ensures Evolves(r, CreateAccount(r, account).reg) && KeepsSupplied(r, CreateAccount(r, account).reg)
  {
  }

  lemma SetSupplyEvolves(r: Registry, id: nat, v: Amount)
    requires id in r.assets
    ensures Evolves(r, SetSupply(r, id, v)) && KeepsSupplied(r, SetSupply(r, id, v))
  {
  }

  /** A deposit or withdrawal changes at most its asset's supply in the tables. */
  lemma SettlingRegistry(l: Ledger, op: Op)
    requires op.Deposit? || op.Withdraw?
    ensures var s := Step(l, op).ledger.reg;
            s == l.reg || (op.asset in l.reg.assets && exists v: Amount :: s == SetSupply(l.reg, op.asset, v))
  {
    hide SetBalance;
  }

  lemma FileAssetEvolves(r: Registry, q: AssetQuery, op: Retrieval)
    ensures Evolves(r, FileAsset(r, q, op).reg) && KeepsSupplied(r, FileAsset(r, q, op).reg)
  {
    FileAssetCases(r, q, op);
    var hit := LookupAsset(r, q, op);
    CreateAssetEvolves(r, q.Fresh());
    if hit.Hit? {
      RemoveAssetEvolves(r, hit.id);
    }
    hide FileAsset, RemoveAsset, CreateAsset, LookupAsset;
  }

  lemma FileAccountEvolves(r: Registry, b: set<Key>, q: AccountQuery, op: Retrieval)
    ensures Evolves(r, FileAccount(r, b, q, op).reg) && KeepsSupplied(r, FileAccount(r, b, q, op).reg)
  {
    FileAccountCases(r, b, q, op);
    var hit := LookupAccount(r, q);
    CreateAccountEvolves(r, q.Fresh());
    if hit.Hit? {
      RemoveAccountEvolves(r, b, hit.id);
    }
    hide FileAccount, RemoveAccount, CreateAccount, LookupAccount;
  }

  lemma StepEvolvesFiling(l: Ledger, op: Op)
    requires op.RetrieveAsset? || op.RetrieveAccount?
    ensures var s := Step(l, op).ledger.reg; Evolves(l.reg, s) && KeepsSupplied(l.reg, s)
  {
    hide FileAsset, FileAccount;
    if op.RetrieveAsset? {
      FileAssetEvolves(l.reg, op.assetQuery, op.retrieval);
    } else {
      FileAccountEvolves(l.reg, l.balances.Keys, op.accountQuery, op.retrieval);
    }
  }

  lemma StepEvolvesSettling(l: Ledger, op: Op)
    requires op.Deposit? || op.Withdraw?
    ensures var s := Step(l, op).ledger.reg; Evolves(l.reg, s) && KeepsSupplied(l.reg, s)
  {
    hide Step;
    SettlingRegistry(l, op);
    if Step(l, op).ledger.reg != l.reg {
      var v: Amount :| Step(l, op).ledger.reg == SetSupply(l.reg, op.asset, v);
      SetSupplyEvolves(l.reg, op.asset, v);
    }
  }

  lemma StepEvolves(l: Ledger, op: Op)
    requires Inv(l)
    ensures Evolves(l.reg, Step(l, op).ledger.reg)
    ensures !op.Clear? ==> KeepsSupplied(l.reg, Step(l, op).ledger.reg)
  {
    if !op.Clear? {
      hide Step;
      if op.RetrieveAsset? || op.RetrieveAccount? {
        StepEvolvesFiling(l, op);
      } else if op.Transfer? {
        TransferSound(l, op);
      } else {
        StepEvolvesSettling(l, op);
      }
    }
  }

  // ---------- holders ----------

  /** An id token is held by at most one account, which holds one unit; if nothing was lost and it is in circulation,
      by exactly one. */
  lemma UniqueHolder(l: Ledger, a: nat, x: nat, y: nat)
    requires Inv(l) && a in l.reg.assets && l.reg.assets[a].kind.TokenAddressId?
    ensures l.reg.assets[a].supply <= 1
    ensures Balance(l.balances, Key(a, x)) > 0 ==> Balance(l.balances, Key(a, x)) == 1
    ensures Balance(l.balances, Key(a, x)) > 0 && Balance(l.balances, Key(a, y)) > 0 ==> x == y
    ensures Conserved(l) ==> (l.reg.assets[a].supply == 1 <==> exists z: nat :: Balance(l.balances, Key(a, z)) == 1)
  {
    assert Covered(l.reg.assets[a], Held(l, a));
    BalancesWithinSupply(l, a, x, y);
    if Conserved(l) {
      assert Gap(l, a) == 0;
      TotalZero(l.balances, a, l.reg.nextAccount);
      if l.reg.assets[a].supply == 1 {
        var z: nat :| z < l.reg.nextAccount && Balance(l.balances, Key(a, z)) != 0;
        BalancesWithinSupply(l, a, z, z);
      } else if z: nat :| Balance(l.balances, Key(a, z)) == 1 {
        BalancesWithinSupply(l, a, z, z);
      }
    }
  }

  // ---------- zero entries ----------

  ghost predicate StoredNonzero(l: Ledger) {
    forall k :: k in l.balances ==> l.balances[k] != 0
  }

  /** A zero amount asked of accounts without an entry, while there is room for one. */
  ghost predicate StoresZero(l: Ledger, op: Op) {
    |l.balances| < l.maxBalances &&
    ((op.Withdraw? && op.amount == 0 && WithdrawAllowed(l, op.asset, op.from, 0) &&
       Key(op.asset, op.from) !in l.balances) ||
     (op.Transfer? && op.amount == 0 && TransferAllowed(l, op) &&
       (Key(op.asset, op.from) !in l.balances || Key(op.asset, op.to) !in l.balances)))
  }

  /** An operation puts the first zero entry into the table exactly when it stores a zero amount. */
  lemma ZeroEntriesExact(l: Ledger, op: Op)
    requires Inv(l) && StoredNonzero(l)
    ensures StoredNonzero(Step(l, op).ledger) <==> !StoresZero(l, op)
  {
    match op
    case RetrieveAsset(_, _) =>
    case RetrieveAccount(_, _) =>
    case Deposit(a, t, v) =>
      DepositShape(l, a, t, v);
      if DepositAllowed(l, a, t, v) {
        ZeroSettle(l, Key(a, t), v, true);
      }
    case Withdraw(a, f, v) =>
      WithdrawShape(l, a, f, v);
      if WithdrawAllowed(l, a, f, v) {
        ZeroSettle(l, Key(a, f), v, false);
      }
    case Transfer(_, _, _, _) => ZeroTransfer(l, op);
    case Clear =>
  }

  lemma ZeroSettle(l: Ledger, k: Key, v: Amount, up: bool)
    requires Inv(l) && StoredNonzero(l)
    requires if up then 0 < v && Balance(l.balances, k) + v < AMOUNT_LIMIT else v <= Balance(l.balances, k)
    requires k.asset in l.reg.assets && k.account in l.reg.accounts
    ensures var w := if up then Balance(l.balances, k) + v else Balance(l.balances, k) - v;
            var b := SetBalance(l, k, w).balances;
            (forall j :: j in b ==> b[j] != 0) <==> !(!up && v == 0 && k !in l.balances && |l.balances| < l.maxBalances)
  {
    var w := if up then Balance(l.balances, k) + v else Balance(l.balances, k) - v;
    var b := SetBalance(l, k, w).balances;
    if !up && v == 0 && k !in l.balances && |l.balances| < l.maxBalances {
      assert k in b && b[k] == 0;
    }
  }

  lemma ZeroTransfer(l: Ledger, op: Op)
    requires Inv(l) && StoredNonzero(l) && op.Transfer?
    ensures StoredNonzero(Step(l, op).ledger) <==> !StoresZero(l, op)
  {
    if !TransferAllowed(l, op) {
      TransferRefused(l, op);
    } else {
      TransferShape(l, op);
      ZeroDebit(l, op);
      if Debit(l, op).reply.Done? {
        ZeroCredit(l, op);
      }
      hide Step, Debit, Credit, Inv, TransferAllowed;
      var kf, kt, e := Key(op.asset, op.from), Key(op.asset, op.to), Step(l, op).ledger.balances;
      assert forall j :: j in e && j != kf && j != kt ==> j in l.balances && e[j] == l.balances[j];
    }
  }

  /** The table after the debit: a zero entry appears exactly for a sender without one, if there is room. */
  lemma ZeroDebit(l: Ledger, op: Op)
    requires Inv(l) && StoredNonzero(l) && op.Transfer? && TransferAllowed(l, op)
    ensures var k, b, p := Key(op.asset, op.from), l.balances, Debit(l, op);
            (p.reply.Fail? ==> p.balances == b && k !in b && |b| >= l.maxBalances) &&
            (p.reply.Fail? || p.reply.Done?) &&
            ((k in p.balances && p.balances[k] == 0) <==> (k !in b && |b| < l.maxBalances)) &&
            (forall j :: j != k ==> (j in p.balances <==> j in b) && (j in b ==> p.balances[j] == b[j])) &&
            (k in b && op.amount == 0 ==> |p.balances| == |b|) && (k !in b ==> op.amount == 0)
  {
    DebitCases(l, op);
    hide Debit;
  }

  /** The table after the credit, in terms of the table after the debit. */
  lemma ZeroCredit(l: Ledger, op: Op)
    requires Inv(l) && StoredNonzero(l) && op.Transfer? && TransferAllowed(l, op)
    requires Balance(l.balances, Key(op.asset, op.to)) + op.amount < AMOUNT_LIMIT
    requires Debit(l, op).reply.Done?
    ensures var k, b, e := Key(op.asset, op.to), Debit(l, op).balances, Credit(l, op).balances;
            ((k in e && e[k] == 0) <==> (k !in l.balances && op.amount == 0 && |b| < l.maxBalances)) &&
            (forall j :: j != k ==> (j in e <==> j in b) && (j in b ==> e[j] == b[j]))
  {
    DebitCases(l, op);
    hide Debit;
  }

  /** No entry is zero now or after any operation of the run. */
  ghost predicate AlwaysNonzero(l: Ledger, ops: seq<Op>)
    decreases |ops|
  {
    StoredNonzero(l) && (ops != [] ==> AlwaysNonzero(Step(l, ops[0]).ledger, ops[1..]))
  }

  ghost predicate NeverStoresZero(l: Ledger, ops: seq<Op>)
    decreases |ops|
  {
    ops != [] ==> !StoresZero(l, ops[0]) && NeverStoresZero(Step(l, ops[0]).ledger, ops[1..])
  }

  /** Over a whole run, no entry is ever zero exactly when no operation stores a zero amount. */
  lemma {:induction false} RunNonzeroExactly(l: Ledger, ops: seq<Op>)
    requires Inv(l) && StoredNonzero(l)
    ensures AlwaysNonzero(l, ops) <==> NeverStoresZero(l, ops)
    decreases |ops|
  {
    if ops != [] {
      var m := Step(l, ops[0]).ledger;
      StepKeepsInv(l, ops[0]);
      ZeroEntriesExact(l, ops[0]);
      hide Step, Inv, StoresZero, StoredNonzero;
      if StoredNonzero(m) {
        RunNonzeroExactly(m, ops[1..]);
      }
    }
  }

  ghost predicate Positive(op: Op) {
    (op.Withdraw? || op.Transfer?) ==> op.amount > 0
  }

  /** With positive amounts only, every entry ever stored is nonzero and belongs to a live asset. */
  lemma {:induction false} PositiveRun(l: Ledger, ops: seq<Op>)
    requires Inv(l) && StoredNonzero(l) && forall op :: op in ops ==> Positive(op)
    ensures StoredNonzero(Run(l, ops)) && forall k :: k in Run(l, ops).balances ==> k.asset in Run(l, ops).reg.assets
    decreases |ops|
  {
    if ops != [] {
      assert ops[0] in ops;
      StepKeepsInv(l, ops[0]);
      ZeroEntriesExact(l, ops[0]);
      PositiveRun(Step(l, ops[0]).ledger, ops[1..]);
    } else {
      forall k | k in l.balances
        ensures k.asset in l.reg.assets
      {
        assert Placed(l.reg, k, l.balances[k]);
      }
    }
  }

  /** An entry whose asset is gone. */
  ghost predicate Orphan(l: Ledger, k: Key) {
    k in l.balances && k.asset !in l.reg.assets
  }

  lemma OrphanPosting(l: Ledger, k: Key, j: Key, v: Amount)
    requires Orphan(l, k) && j.asset in l.reg.assets
    ensures k in SetBalance(l, j, v).balances
  {
  }

  lemma OrphanEntryStays(l: Ledger, op: Op, k: Key)
    requires Inv(l) && Orphan(l, k) && !op.Clear?
    ensures k in Step(l, op).ledger.balances
  {
    match op
    case RetrieveAsset(q, r) =>
    case RetrieveAccount(q, r) =>
    case Deposit(a, t, v) =>
      DepositShape(l, a, t, v);
      if DepositAllowed(l, a, t, v) {
        OrphanPosting(l, k, Key(a, t), Balance(l.balances, Key(a, t)) + v);
      }
      hide SetBalance, DepositStep;
    case Withdraw(a, f, v) =>
      WithdrawShape(l, a, f, v);
      if WithdrawAllowed(l, a, f, v) {
        OrphanPosting(l, k, Key(a, f), Balance(l.balances, Key(a, f)) - v);
      }
      hide SetBalance, WithdrawStep;
    case Transfer(_, _, _, _) => OrphanTransfer(l, op, k); hide TransferStep;
  }

  lemma OrphanTransfer(l: Ledger, op: Op, k: Key)
    requires Inv(l) && Orphan(l, k) && op.Transfer?
    ensures k in Step(l, op).ledger.balances
  {
    if TransferAllowed(l, op) {
      TransferShape(l, op);
      OrphanPosting(l, k, Key(op.asset, op.from), Balance(l.balances, Key(op.asset, op.from)) - op.amount);
      OrphanPosting(l.(balances := Debit(l, op).balances), k, Key(op.asset, op.to),
                    Balance(l.balances, Key(op.asset, op.to)) + op.amount);
    } else {
      TransferRefused(l, op);
    }
    hide SetBalance, Step;
  }

  lemma OrphanStep(l: Ledger, op: Op, k: Key)
    requires Inv(l) && Orphan(l, k) && !op.Clear?
    ensures Orphan(Step(l, op).ledger, k)
  {
    assert Placed(l.reg, k, l.balances[k]);
    OrphanEntryStays(l, op, k);
    StepEvolves(l, op);
    hide Step;
  }

  /** An orphaned entry can never be cleared away by itself, so its account can never be removed either. */
  lemma {:induction false} OrphanForGood(l: Ledger, ops: seq<Op>, k: Key)
    requires Inv(l) && Orphan(l, k) && Clear !in ops
    ensures Orphan(Run(l, ops), k) && k.account in Run(l, ops).reg.accounts
    decreases |ops|
  {
    if ops != [] {
      StepKeepsInv(l, ops[0]);
      OrphanStep(l, ops[0], k);
      assert Clear !in ops[1..];
      OrphanForGood(Step(l, ops[0]).ledger, ops[1..], k);
    } else {
      assert Placed(l.reg, k, l.balances[k]);
    }
  }

  // ---------- stranded entries ----------

  /** Every entry, zero or not, belongs to a live asset. */
  ghost predicate EntriesLive(l: Ledger) {
    forall k :: k in l.balances ==> k.asset in l.reg.assets
  }

  /** A removal of an asset out of circulation that some entry still names. */
  ghost predicate Strands(l: Ledger, op: Op) {
    op.RetrieveAsset? && op.retrieval.FindAndRemove? &&
    var hit := LookupAsset(l.reg, op.assetQuery, op.retrieval);
    hit.Hit? && hit.id in l.reg.assets && l.reg.assets[hit.id].supply == 0 &&
    exists k :: k in l.balances && k.asset == hit.id
  }

  lemma PostingStaysLive(l: Ledger, k: Key, v: Amount)
    requires EntriesLive(l) && k.asset in l.reg.assets
    ensures EntriesLive(l.(balances := SetBalance(l, k, v).balances))
  {
  }

  /** A request for an asset takes an asset away exactly if it removes one out of circulation. */
  lemma FileAssetLeaves(r: Registry, q: AssetQuery, op: Retrieval, a: nat)
    requires AssetTable(r) && a in r.assets
    ensures a !in FileAsset(r, q, op).reg.assets <==>
            op.FindAndRemove? && LookupAsset(r, q, op) == Hit(a) && r.assets[a].supply == 0
  {
    assert AssetFiled(r, a);
    NextAssetFree(r);
  }

  lemma StrandingFiling(l: Ledger, op: Op)
    requires Inv(l) && EntriesLive(l) && op.RetrieveAsset?
    ensures EntriesLive(Step(l, op).ledger) <==> !Strands(l, op)
  {
    hide FileAsset, LookupAsset, AssetTable;
    forall a | a in l.reg.assets
      ensures a !in FileAsset(l.reg, op.assetQuery, op.retrieval).reg.assets <==>
              op.retrieval.FindAndRemove? && LookupAsset(l.reg, op.assetQuery, op.retrieval) == Hit(a) &&
              l.reg.assets[a].supply == 0
    {
      FileAssetLeaves(l.reg, op.assetQuery, op.retrieval, a);
    }
  }

  lemma StrandingDeposit(l: Ledger, asset: nat, account: nat, v: Amount)
    requires Inv(l) && EntriesLive(l)
    ensures EntriesLive(DepositStep(l, asset, account, v).ledger)
  {
    hide DepositStep, Settle, Inv, EntriesLive;
    DepositShape(l, asset, account, v);
    if DepositAllowed(l, asset, account, v) {
      var k := Key(asset, account);
      SettleStaysLive(l, k, Balance(l.balances, k) + v, l.reg.assets[asset].supply + v);
    }
  }

  lemma StrandingWithdrawal(l: Ledger, asset: nat, account: nat, v: Amount)
    requires Inv(l) && EntriesLive(l)
    ensures EntriesLive(WithdrawStep(l, asset, account, v).ledger)
  {
    hide WithdrawStep, Settle, Inv, EntriesLive;
    WithdrawShape(l, asset, account, v);
    if WithdrawAllowed(l, asset, account, v) {
      var k := Key(asset, account);
      SettleStaysLive(l, k, Balance(l.balances, k) - v, l.reg.assets[asset].supply - v);
    }
  }

  lemma SettleStaysLive(l: Ledger, k: Key, balance: Amount, supply: Amount)
    requires EntriesLive(l) && k.asset in l.reg.assets
    ensures EntriesLive(Settle(l, k, balance, supply).ledger)
  {
    PostingStaysLive(l, k, balance);
    hide SetBalance;
  }

  lemma StrandingTransfer(l: Ledger, op: Op)
    requires Inv(l) && EntriesLive(l) && op.Transfer?
    ensures EntriesLive(Step(l, op).ledger)
  {
    hide Step, SetBalance, EntriesLive, Inv;
    if TransferAllowed(l, op) {
      TransferShape(l, op);
      var m := l.(balances := Debit(l, op).balances);
      PostingStaysLive(l, Key(op.asset, op.from), Balance(l.balances, Key(op.asset, op.from)) - op.amount);
      PostingStaysLive(m, Key(op.asset, op.to), Balance(l.balances, Key(op.asset, op.to)) + op.amount);
    } else {
      TransferRefused(l, op);
    }
  }

  /** An operation leaves an entry without its asset exactly if it strands one. */
  lemma StrandingExact(l: Ledger, op: Op)
    requires Inv(l) && EntriesLive(l)
    ensures EntriesLive(Step(l, op).ledger) <==> !Strands(l, op)
  {
    match op
    case RetrieveAsset(_, _) => StrandingFiling(l, op);
    case RetrieveAccount(q, r) => FileAccountScope(l.reg, l.balances.Keys, q, r); hide FileAccount;
    case Deposit(a, t, v) => StrandingDeposit(l, a, t, v);
    case Withdraw(a, f, v) => StrandingWithdrawal(l, a, f, v);
    case Transfer(_, _, _, _) => StrandingTransfer(l, op);
    case Clear =>
  }

  /** No operation of the run strands an entry. */
  ghost predicate NeverStrands(l: Ledger, ops: seq<Op>)
    decreases |ops|
  {
    ops != [] ==> !Strands(l, ops[0]) && NeverStrands(Step(l, ops[0]).ledger, ops[1..])
  }

  /** Over a run that does not clear the ledger, every entry belongs to a live asset at the end exactly when no
      operation on the way stranded one. */
  lemma {:induction false} RunStrandsExactly(l: Ledger, ops: seq<Op>)
    requires Inv(l) && EntriesLive(l) && Clear !in ops
    ensures EntriesLive(Run(l, ops)) <==> NeverStrands(l, ops)
    decreases |ops|
  {
    if ops != [] {
      var m := Step(l, ops[0]).ledger;
      StepKeepsInv(l, ops[0]);
      StrandingExact(l, ops[0]);
      assert Clear !in ops[1..];
      hide Step, Inv, Strands;
      if EntriesLive(m) {
        RunStrandsExactly(m, ops[1..]);
      } else {
        var k :| k in m.balances && k.asset !in m.reg.assets;
        OrphanForGood(m, ops[1..], k);
      }
    }
  }

  /** From creation on: short of clearing, no account is burdened with an entry it cannot lose exactly when no removal
      on the way stranded an entry. */
  lemma ReachableStranding(maxAccounts: nat, maxAssets: nat, maxBalances: nat, ops: seq<Op>)
    requires Clear !in ops
    ensures var l := Empty(maxAccounts, maxAssets, maxBalances); EntriesLive(Run(l, ops)) <==> NeverStrands(l, ops)
  {
    RunStrandsExactly(Empty(maxAccounts, maxAssets, maxBalances), ops);
  }

  lemma RunFour(l: Ledger, a: Op, b: Op, c: Op, d: Op)
    ensures Run(l, [a, b, c, d]) == Step(Step(Step(Step(l, a).ledger, b).ledger, c).ledger, d).ledger
  {
    var l1 := Step(l, a).ledger;
    var l2 := Step(l1, b).ledger;
    var l3 := Step(l2, c).ledger;
    hide Step;
    assert [a, b, c, d][1..] == [b, c, d] && [b, c, d][1..] == [c, d] && [c, d][1..] == [d] && [d][1..] == [];
    assert Run(l3, [d]) == Run(Step(l3, d).ledger, []);
    assert Run(l2, [c, d]) == Run(l3, [d]);
    assert Run(l1, [b, c, d]) == Run(l2, [c, d]);
  }

  /** Four calls that strand an account: create it and an asset, withdraw nothing, remove the asset. */
  lemma OrphanReachable()
    ensures Orphan(Run(Empty(1, 1, 1),
                       [RetrieveAccount(AccountById(0), Create), RetrieveAsset(AssetById(0), Create),
                        Withdraw(0, 0, 0), RetrieveAsset(AssetById(0), FindAndRemove)]), Key(0, 0))
  {
    hide Run, Step;
    var a, b := RetrieveAccount(AccountById(0), Create), RetrieveAsset(AssetById(0), Create);
    var c, d := Withdraw(0, 0, 0), RetrieveAsset(AssetById(0), FindAndRemove);
    RunFour(Empty(1, 1, 1), a, b, c, d);
    var l0 := Empty(1, 1, 1);
    PlainAccountCreated(l0);
    var l1 := Step(l0, a).ledger;
    PlainAssetCreated(l1);
    var l2 := Step(l1, b).ledger;
    ZeroWithdrawal(l2);
    RemovalOrphans(Step(l2, c).ledger);
  }

  lemma PlainAccountCreated(l: Ledger)
    requires l.reg.nextAccount < l.reg.maxAccounts && l.reg.nextAccount !in l.reg.accounts
    ensures Step(l, RetrieveAccount(AccountById(0), Create)).ledger ==
            l.(reg := l.reg.(accounts := l.reg.accounts[l.reg.nextAccount := AccountById(0).Fresh()],
                             nextAccount := l.reg.nextAccount + 1))
  {
  }

  lemma PlainAssetCreated(l: Ledger)
    requires l.reg.nextAsset < l.reg.maxAssets && l.reg.nextAsset !in l.reg.assets
    ensures Step(l, RetrieveAsset(AssetById(0), Create)).ledger ==
            l.(reg := l.reg.(assets := l.reg.assets[l.reg.nextAsset := AssetById(0).Fresh()],
                             nextAsset := l.reg.nextAsset + 1))
  {
  }

  lemma ZeroWithdrawal(l: Ledger)
    requires l.reg.assets == map[0 := AssetById(0).Fresh()] && 0 in l.reg.accounts && l.balances == map[]
    requires l.maxBalances == 1
    ensures var m := Step(l, Withdraw(0, 0, 0)).ledger; m.reg.assets == l.reg.assets && Key(0, 0) in m.balances
  {
    assert SetSupply(l.reg, 0, 0).assets == l.reg.assets;
  }

  lemma RemovalOrphans(l: Ledger)
    requires l.reg.assets == map[0 := AssetById(0).Fresh()] && Key(0, 0) in l.balances
    ensures Orphan(Step(l, RetrieveAsset(AssetById(0), FindAndRemove)).ledger, Key(0, 0))
  {
  }

  /** A reachable torn transfer of a nonzero amount: one balance slot, two accounts, and half the sender's units. */
  lemma TornReachable()
    ensures Torn(Run(Empty(2, 1, 1),
                     [RetrieveAccount(AccountById(0), Create), RetrieveAccount(AccountById(0), Create),
                      RetrieveAsset(AssetById(0), Create), Deposit(0, 0, 2)]),
                 Transfer(0, 0, 1, 1))
  {
    hide Run, Step;
    var a, b, c := RetrieveAccount(AccountById(0), Create), RetrieveAsset(AssetById(0), Create), Deposit(0, 0, 2);
    var l0 := Empty(2, 1, 1);
    RunFour(l0, a, a, b, c);
    PlainAccountCreated(l0);
    var l1 := Step(l0, a).ledger;
    PlainAccountCreated(l1);
    var l2 := Step(l1, a).ledger;
    PlainAssetCreated(l2);
    FirstDeposit(Step(l2, b).ledger);
  }

  lemma FirstDeposit(l: Ledger)
    requires l.reg.assets == map[0 := AssetById(0).Fresh()] && 0 in l.reg.accounts && 1 in l.reg.accounts
    requires l.balances == map[] && l.maxBalances == 1
    ensures Torn(Step(l, Deposit(0, 0, 2)).ledger, Transfer(0, 0, 1, 1))
  {
    assert Step(l, Deposit(0, 0, 2)).ledger.balances == map[Key(0, 0) := 2];
  }

  // ---------- identifiers and clear ----------

  /** Both token types with an id share a key, so an (address, id) pair is live under one of them at most, and under
      one id. */
  lemma OneTypePerPair(r: Registry, a: nat, b: nat)
    requires AssetTable(r) && a in r.assets && b in r.assets
    requires r.assets[a].kind.TokenAddressId? || r.assets[a].kind.TokenAddressIdAmount?
    requires r.assets[b].kind.TokenAddressId? || r.assets[b].kind.TokenAddressIdAmount?
    ensures r.assets[a].address == r.assets[b].address && r.assets[a].tokenId == r.assets[b].tokenId <==> a == b
  {
    assert AssetFiled(r, a) && AssetFiled(r, b);
  }

  /** Ids are never reused: whatever an operation or a run adds has an id the ledger had not issued before, and a
      live asset keeps its identity. */
  lemma {:induction false} IdsNeverReused(l: Ledger, ops: seq<Op>)
    requires Inv(l)
    ensures var m := Run(l, ops);
            l.reg.nextAsset <= m.reg.nextAsset && l.reg.nextAccount <= m.reg.nextAccount &&
            (forall a :: a in m.reg.assets && a < l.reg.nextAsset ==>
              a in l.reg.assets && m.reg.assets[a].(supply := 0) == l.reg.assets[a].(supply := 0)) &&
            (forall x :: x in m.reg.accounts && x < l.reg.nextAccount ==>
              x in l.reg.accounts && m.reg.accounts[x] == l.reg.accounts[x])
    decreases |ops|
  {
    if ops != [] {
      StepKeepsInv(l, ops[0]);
      StepEvolves(l, ops[0]);
      hide Step;
      IdsNeverReused(Step(l, ops[0]).ledger, ops[1..]);
    }
  }

  /** The base asset flag is set but no base asset is live. */
  ghost predicate BaseLocked(r: Registry) {
    r.baseDefined && !BaseLive(r)
  }

  lemma BaseLockedStep(l: Ledger, op: Op)
    requires Inv(l) && BaseLocked(l.reg)
    ensures BaseLocked(Step(l, op).ledger.reg)
  {
    StepEvolves(l, op);
    hide Step;
    var s := Step(l, op).ledger.reg;
    forall a | a in s.assets
      ensures !s.assets[a].kind.Base?
    {
      if a in l.reg.assets {
        assert s.assets[a].(supply := 0).kind == s.assets[a].kind && !l.reg.assets[a].kind.Base?;
      }
    }
  }

  /** Clear is not a reset: it locks the base asset out exactly when one was defined. */
  lemma ClearLocksBase(l: Ledger)
    ensures BaseLocked(Step(l, Clear).ledger.reg) <==> l.reg.baseDefined
  {
  }

  /** Once locked out, no run ever makes a base asset live again, not even one that clears the ledger again. */
  lemma {:induction false} BaseLockedForGood(l: Ledger, ops: seq<Op>)
    requires Inv(l) && BaseLocked(l.reg)
    ensures BaseLocked(Run(l, ops).reg)
    decreases |ops|
  {
    if ops != [] {
      StepKeepsInv(l, ops[0]);
      BaseLockedStep(l, ops[0]);
      BaseLockedForGood(Step(l, ops[0]).ledger, ops[1..]);
    }
  }
}

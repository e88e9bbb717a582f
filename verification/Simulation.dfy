/** The memory ledger and the basic ledger answer alike, although one deletes zero balances and the other keeps them. */
module Simulation {
  import opened LedgerTypes
  import opened LedgerSpec
  import opened LedgerInvariants
  import opened LedgerTheorems
  import opened BasicLedgers

  ghost predicate SameTables(r: Registry, b: Basic) {
    b.assets == r.assets && b.assetIds == r.assetIds && b.accounts == r.accounts && b.accountIds == r.accountIds &&
    |b.assets| == r.nextAsset && |b.accounts| == r.nextAccount
  }

  ghost predicate SameReadings(m: map<Key, Amount>, n: map<Key, Amount>) {
    forall k :: Balance(m, k) == Balance(n, k)
  }

  /** Same tables, next ids equal to table sizes, and every balance reads the same. */
  ghost predicate Alike(l: Ledger, b: Basic) {
    SameTables(l.reg, b) && SameReadings(l.balances, b.balances)
  }

  lemma SameAt(l: Ledger, b: Basic, k: Key)
    requires Alike(l, b)
    ensures SameTables(l.reg, b) && Balance(l.balances, k) == Balance(b.balances, k)
  {
  }

  /** The operations both ledgers offer: no base asset, no removal, no clearing. */
  predicate Shared(op: Op) {
    match op
    case RetrieveAsset(q, r) => !q.BaseAsset? && !r.FindAndRemove?
    case RetrieveAccount(_, r) => !r.FindAndRemove?
    case Clear => false
    case _ => true
  }

  predicate Full(r: Reply) {
    r.Fail? && (r.error.MaxAssetsReached? || r.error.MaxAccountsReached? || r.error.MaxBalancesReached?)
  }

  lemma CreateAssetAlike(r: Registry, b: Basic, asset: Asset)
    requires AssetTable(r) && SameTables(r, b) && !asset.kind.Base? && !Full(CreateAsset(r, asset).reply)
    ensures CreateAsset(r, asset).reply == BasicCreateAsset(b, asset).reply
    ensures SameTables(CreateAsset(r, asset).reg, BasicCreateAsset(b, asset).state)
    ensures BasicCreateAsset(b, asset).state.balances == b.balances
  {
    NextAssetFree(r);
    hide AssetTable;
  }

  lemma AssetsAlike(r: Registry, b: Basic, q: AssetQuery, op: Retrieval)
    requires AssetTable(r) && SameTables(r, b) && !q.BaseAsset? && !op.FindAndRemove?
    requires !Full(FileAsset(r, q, op).reply)
    ensures FileAsset(r, q, op).reply == BasicFileAsset(b, q, op).reply
    ensures SameTables(FileAsset(r, q, op).reg, BasicFileAsset(b, q, op).state)
    ensures BasicFileAsset(b, q, op).state.balances == b.balances
  {
    if !Full(CreateAsset(r, q.Fresh()).reply) {
      CreateAssetAlike(r, b, q.Fresh());
    }
    hide CreateAsset, BasicCreateAsset, RemoveAsset, AssetFiled;
  }

  lemma CreateAccountAlike(r: Registry, b: Basic, account: Account)
    requires AccountTable(r) && SameTables(r, b) && !Full(CreateAccount(r, account).reply)
    ensures CreateAccount(r, account).reply == BasicCreateAccount(b, account).reply
    ensures SameTables(CreateAccount(r, account).reg, BasicCreateAccount(b, account).state)
    ensures BasicCreateAccount(b, account).state.balances == b.balances
  {
    NextAccountFree(r);
    hide AccountTable;
  }

  lemma AccountsAlike(r: Registry, keys: set<Key>, b: Basic, q: AccountQuery, op: Retrieval)
    requires AccountTable(r) && SameTables(r, b) && !op.FindAndRemove?
    requires !Full(FileAccount(r, keys, q, op).reply)
    ensures FileAccount(r, keys, q, op).reply == BasicFileAccount(b, q, op).reply
    ensures SameTables(FileAccount(r, keys, q, op).reg, BasicFileAccount(b, q, op).state)
    ensures BasicFileAccount(b, q, op).state.balances == b.balances
  {
    if !Full(CreateAccount(r, q.Fresh()).reply) {
      CreateAccountAlike(r, b, q.Fresh());
    }
    hide CreateAccount, BasicCreateAccount, RemoveAccount, AccountFiled;
  }

  lemma SupplyAlike(r: Registry, b: Basic, k: Key, balance: Amount, supply: Amount)
    requires SameTables(r, b) && k.asset in r.assets
    ensures SameTables(SetSupply(r, k.asset, supply), BasicSettle(b, k, balance, supply))
  {
    assert SetSupply(r, k.asset, supply).assets.Keys == r.assets.Keys;
  }

  lemma SettleAlike(l: Ledger, b: Basic, k: Key, balance: Amount, supply: Amount)
    requires Inv(l) && Alike(l, b) && k.asset in l.reg.assets && k.account in l.reg.accounts
    requires !Full(Settle(l, k, balance, supply).reply)
    ensures Settle(l, k, balance, supply).reply == Done
    ensures Alike(Settle(l, k, balance, supply).ledger, BasicSettle(b, k, balance, supply))
  {
    SettleShape(l, k, balance, supply);
    SetBalanceReads(l, k, balance);
    hide SetBalance, Settle, Inv;
    SupplyAlike(l.reg, b, k, balance, supply);
    hide SameTables, SetSupply;
  }

  /** A deposit both ledgers refuse, they refuse with the same code. */
  lemma DepositRefusedAlike(l: Ledger, b: Basic, asset: nat, to: nat, v: Amount)
    requires SameTables(l.reg, b) && Balance(l.balances, Key(asset, to)) == Balance(b.balances, Key(asset, to))
    requires !DepositAllowed(l, asset, to, v)
    ensures DepositStep(l, asset, to, v).reply == BasicDeposit(b, asset, to, v).reply
    ensures DepositStep(l, asset, to, v).ledger == l && BasicDeposit(b, asset, to, v).state == b
  {
    hide Settle, BasicSettle, Balance;
  }

  lemma BasicDepositTaken(b: Basic, asset: nat, to: nat, v: Amount)
    requires v != 0 && asset in b.assets && to in b.accounts && b.assets[asset].supply + v < AMOUNT_LIMIT
    requires b.assets[asset].kind.TokenAddressId? ==> b.assets[asset].supply == 0 && v == 1
    requires Balance(b.balances, Key(asset, to)) + v < AMOUNT_LIMIT
    ensures BasicDeposit(b, asset, to, v) ==
            BasicOutcome(
              BasicSettle(b, Key(asset, to), Balance(b.balances, Key(asset, to)) + v, b.assets[asset].supply + v), Done)
  {
  }

  lemma DepositTakenAlike(l: Ledger, b: Basic, asset: nat, to: nat, v: Amount, o: Outcome)
    requires Inv(l) && Alike(l, b) && DepositAllowed(l, asset, to, v) && DepositOutcome(l, asset, to, v, o)
    requires !Full(o.reply)
    ensures o.reply == BasicDeposit(b, asset, to, v).reply && Alike(o.ledger, BasicDeposit(b, asset, to, v).state)
  {
    hide Settle, BasicSettle, Inv, Alike, BasicDeposit, Balance;
    var k := Key(asset, to);
    SameAt(l, b, k);
    BasicDepositTaken(b, asset, to, v);
    SettleAlike(l, b, k, Balance(l.balances, k) + v, l.reg.assets[asset].supply + v);
  }

  lemma DepositAlike(l: Ledger, b: Basic, asset: nat, to: nat, v: Amount)
    requires Inv(l) && Alike(l, b) && !Full(DepositStep(l, asset, to, v).reply)
    ensures DepositStep(l, asset, to, v).reply == BasicDeposit(b, asset, to, v).reply
    ensures Alike(DepositStep(l, asset, to, v).ledger, BasicDeposit(b, asset, to, v).state)
  {
    hide Inv, Alike, DepositStep, BasicDeposit, DepositOutcome, DepositAllowed, Balance, SameTables;
    DepositShape(l, asset, to, v);
    SameAt(l, b, Key(asset, to));
    if DepositAllowed(l, asset, to, v) {
      DepositTakenAlike(l, b, asset, to, v, DepositStep(l, asset, to, v));
    } else {
      DepositRefusedAlike(l, b, asset, to, v);
    }
  }

  lemma WithdrawRefusedAlike(l: Ledger, b: Basic, asset: nat, from: nat, v: Amount)
    requires SameTables(l.reg, b) && Balance(l.balances, Key(asset, from)) == Balance(b.balances, Key(asset, from))
    requires !WithdrawAllowed(l, asset, from, v)
    ensures WithdrawStep(l, asset, from, v).reply == BasicWithdraw(b, asset, from, v).reply
    ensures WithdrawStep(l, asset, from, v).ledger == l && BasicWithdraw(b, asset, from, v).state == b
  {
    hide Settle, BasicSettle, Balance;
  }

  lemma BasicWithdrawTaken(b: Basic, asset: nat, from: nat, v: Amount)
    requires asset in b.assets && from in b.accounts && v <= b.assets[asset].supply
    requires v <= Balance(b.balances, Key(asset, from))
    ensures BasicWithdraw(b, asset, from, v) ==
            BasicOutcome(
              BasicSettle(b, Key(asset, from), Balance(b.balances, Key(asset, from)) - v, b.assets[asset].supply - v),
              Done)
  {
  }

  lemma WithdrawTakenAlike(l: Ledger, b: Basic, asset: nat, from: nat, v: Amount, o: Outcome)
    requires Inv(l) && Alike(l, b) && WithdrawAllowed(l, asset, from, v) && WithdrawOutcome(l, asset, from, v, o)
    requires !Full(o.reply)
    ensures o.reply == BasicWithdraw(b, asset, from, v).reply && Alike(o.ledger, BasicWithdraw(b, asset, from, v).state)
  {
    hide Settle, BasicSettle, Inv, Alike, BasicWithdraw, Balance;
    var k := Key(asset, from);
    SameAt(l, b, k);
    BasicWithdrawTaken(b, asset, from, v);
    SettleAlike(l, b, k, Balance(l.balances, k) - v, l.reg.assets[asset].supply - v);
  }

  lemma WithdrawAlike(l: Ledger, b: Basic, asset: nat, from: nat, v: Amount)
    requires Inv(l) && Alike(l, b) && !Full(WithdrawStep(l, asset, from, v).reply)
    ensures WithdrawStep(l, asset, from, v).reply == BasicWithdraw(b, asset, from, v).reply
    ensures Alike(WithdrawStep(l, asset, from, v).ledger, BasicWithdraw(b, asset, from, v).state)
  {
    hide Inv, Alike, WithdrawStep, BasicWithdraw, WithdrawOutcome, WithdrawAllowed, Balance, SameTables;
    WithdrawShape(l, asset, from, v);
    SameAt(l, b, Key(asset, from));
    if WithdrawAllowed(l, asset, from, v) {
      WithdrawTakenAlike(l, b, asset, from, v, WithdrawStep(l, asset, from, v));
    } else {
      WithdrawRefusedAlike(l, b, asset, from, v);
    }
  }

  /** What both halves of an allowed transfer leave to read. */
  lemma TransferReads(l: Ledger, op: Op)
    requires Inv(l) && op.Transfer? && TransferAllowed(l, op) && !Full(Step(l, op).reply)
    ensures Step(l, op).reply == Done && Step(l, op).ledger.reg == l.reg
    ensures var kf, kt := Key(op.asset, op.from), Key(op.asset, op.to);
            forall k :: Balance(Step(l, op).ledger.balances, k) ==
              if k == kt then Balance(l.balances, kt) + op.amount
              else if k == kf then Balance(l.balances, kf) - op.amount
              else Balance(l.balances, k)
  {
    TransferShape(l, op);
    DebitSound(l, op);
    var kf, kt := Key(op.asset, op.from), Key(op.asset, op.to);
    SetBalanceReads(l, kf, Balance(l.balances, kf) - op.amount);
    if Debit(l, op).reply.Done? {
      SetBalanceReads(l.(balances := Debit(l, op).balances), kt, Balance(l.balances, kt) + op.amount);
    }
    SettleReplies(l, kf);
    SettleReplies(l.(balances := Debit(l, op).balances), kt);
    hide Step, SetBalance, Inv;
    TransferNeverMissing(l, op);
  }

  /** Past its checks a transfer can only fail for want of room. */
  lemma TransferNeverMissing(l: Ledger, op: Op)
    requires Inv(l) && op.Transfer? && TransferAllowed(l, op)
    ensures Step(l, op).reply == Done || Step(l, op).reply == Fail(MaxBalancesReached)
  {
    TransferShape(l, op);
    DebitCases(l, op);
    DebitRefusal(l, op);
    hide Step, Debit;
    if Debit(l, op).reply.Done? {
      CreditCases(l, op);
      CreditDone(l, op);
    }
  }

  lemma DebitRefusal(l: Ledger, op: Op)
    requires op.Transfer? && TransferAllowed(l, op)
    ensures Debit(l, op).reply in {Done, Fail(MaxBalancesReached)}
  {
  }

  lemma CreditDone(l: Ledger, op: Op)
    requires op.Transfer? && TransferAllowed(l, op)
    requires Balance(l.balances, Key(op.asset, op.to)) + op.amount < AMOUNT_LIMIT
    ensures Credit(l, op).reply in {Done, Fail(MaxBalancesReached)}
  {
    hide Debit;
  }

  lemma BasicTransferTaken(b: Basic, op: Op)
    requires op.Transfer? && op.asset in b.assets && op.from != op.to && op.from in b.accounts && op.to in b.accounts
    requires op.amount <= Balance(b.balances, Key(op.asset, op.from))
    requires Balance(b.balances, Key(op.asset, op.to)) + op.amount < AMOUNT_LIMIT
    ensures var o := BasicStep(b, op); o.reply == Done && o.state == b.(balances := o.state.balances)
    ensures var kf, kt := Key(op.asset, op.from), Key(op.asset, op.to);
            forall k :: Balance(BasicStep(b, op).state.balances, k) ==
              if k == kt then Balance(b.balances, kt) + op.amount
              else if k == kf then Balance(b.balances, kf) - op.amount
              else Balance(b.balances, k)
  {
  }

  lemma TransferAlike(l: Ledger, b: Basic, op: Op)
    requires Inv(l) && Alike(l, b) && op.Transfer? && !Full(Step(l, op).reply)
    ensures Step(l, op).reply == BasicStep(b, op).reply
    ensures Alike(Step(l, op).ledger, BasicStep(b, op).state)
  {
    SameAt(l, b, Key(op.asset, op.from));
    SameAt(l, b, Key(op.asset, op.to));
    BalancesReadable(l, op);
    if TransferAllowed(l, op) {
      hide Step, Inv, BasicStep, Balance;
      TransferReads(l, op);
      BasicTransferTaken(b, op);
    } else {
      TransferRefusedAlike(l, b, op);
      hide Step, BasicStep, Inv;
    }
  }

  lemma TransferRefusedAlike(l: Ledger, b: Basic, op: Op)
    requires op.Transfer? && SameTables(l.reg, b) && !TransferAllowed(l, op)
    requires Balance(l.balances, Key(op.asset, op.from)) == Balance(b.balances, Key(op.asset, op.from))
    ensures Step(l, op).reply == BasicStep(b, op).reply && Step(l, op).ledger == l && BasicStep(b, op).state == b
  {
    hide SetBalance, Balance;
  }

  lemma BalancesReadable(l: Ledger, op: Op)
    requires Inv(l) && op.Transfer?
    ensures op.asset in l.reg.assets && op.from != op.to && op.amount <= Balance(l.balances, Key(op.asset, op.from)) ==>
              Balance(l.balances, Key(op.asset, op.to)) + op.amount < AMOUNT_LIMIT
  {
    if op.asset in l.reg.assets {
      BalancesWithinSupply(l, op.asset, op.from, op.to);
    }
  }

  /** One shared operation that finds room: the same reply, and states that stay alike. */
  lemma SharedStepAlike(l: Ledger, b: Basic, op: Op)
    requires Inv(l) && Alike(l, b) && Shared(op) && !Full(Step(l, op).reply)
    ensures Step(l, op).reply == BasicStep(b, op).reply
    ensures Alike(Step(l, op).ledger, BasicStep(b, op).state)
  {
    match op
    case RetrieveAsset(q, r) => AssetsAlike(l.reg, b, q, r);
    case RetrieveAccount(q, r) => AccountsAlike(l.reg, l.balances.Keys, b, q, r);
    case Deposit(a, t, v) => DepositAlike(l, b, a, t, v);
    case Withdraw(a, f, v) => WithdrawAlike(l, b, a, f, v);
    case Transfer(_, _, _, _) => TransferAlike(l, b, op);
  }

  // ---------- when the ledgers part ----------

  /** The operation needs an id or a balance slot and none is free. */
  ghost predicate Crowded(l: Ledger, op: Op) {
    match op
    case RetrieveAsset(q, r) =>
      r.Creates() && l.reg.nextAsset >= l.reg.maxAssets && !(r.FindOrCreate? && AssetKnown(l.reg, q, r))
    case RetrieveAccount(q, r) =>
      r.Creates() && l.reg.nextAccount >= l.reg.maxAccounts && !(r.FindOrCreate? && AccountKnown(l.reg, q))
    case Deposit(a, t, v) => DepositAllowed(l, a, t, v) && NoSlot(l, Key(a, t))
    case Withdraw(a, f, v) => WithdrawAllowed(l, a, f, v) && NoSlot(l, Key(a, f))
    case Transfer(_, _, _, _) => TransferAllowed(l, op) && NoSlotForTransfer(l, op)
    case Clear => false
  }

  predicate NoSlot(l: Ledger, k: Key) {
    k !in l.balances && |l.balances| >= l.maxBalances
  }

  /** The sender needs a slot for its zero, or the receiver needs one that the debit does not free. */
  predicate NoSlotForTransfer(l: Ledger, op: Op)
    requires op.Transfer?
  {
    var k, b := Key(op.asset, op.from), l.balances;
    NoSlot(l, k) ||
    (Key(op.asset, op.to) !in b &&
     |b| + (if k !in b then 1 else if op.amount == b[k] then -1 else 0) >= l.maxBalances)
  }

  lemma AssetsCrowded(r: Registry, q: AssetQuery, op: Retrieval)
    requires AssetTable(r)
    ensures Full(FileAsset(r, q, op).reply) <==>
            op.Creates() && r.nextAsset >= r.maxAssets && !(op.FindOrCreate? && AssetKnown(r, q, op))
  {
    hide AssetFiled;
  }

  lemma AccountsCrowded(r: Registry, keys: set<Key>, q: AccountQuery, op: Retrieval)
    requires AccountTable(r)
    ensures Full(FileAccount(r, keys, q, op).reply) <==>
            op.Creates() && r.nextAccount >= r.maxAccounts && !(op.FindOrCreate? && AccountKnown(r, q))
  {
    hide AccountFiled;
  }

  lemma SettleCrowded(l: Ledger, k: Key, balance: Amount, supply: Amount)
    requires k.asset in l.reg.assets && k.account in l.reg.accounts
    ensures Full(Settle(l, k, balance, supply).reply) <==> NoSlot(l, k)
  {
    PostingCases(l, k, balance);
    hide SetBalance;
  }

  lemma DepositCrowded(l: Ledger, asset: nat, account: nat, v: Amount)
    requires Inv(l)
    ensures Full(DepositStep(l, asset, account, v).reply) <==>
            DepositAllowed(l, asset, account, v) && NoSlot(l, Key(asset, account))
  {
    DepositShape(l, asset, account, v);
    if DepositAllowed(l, asset, account, v) {
      hide DepositStep, Settle, Inv;
      var k := Key(asset, account);
      SettleCrowded(l, k, Balance(l.balances, k) + v, l.reg.assets[asset].supply + v);
    } else {
      hide Settle, Inv;
    }
  }

  lemma WithdrawCrowded(l: Ledger, asset: nat, account: nat, v: Amount)
    requires Inv(l)
    ensures Full(WithdrawStep(l, asset, account, v).reply) <==>
            WithdrawAllowed(l, asset, account, v) && NoSlot(l, Key(asset, account))
  {
    WithdrawShape(l, asset, account, v);
    if WithdrawAllowed(l, asset, account, v) {
      hide WithdrawStep, Settle, Inv;
      var k := Key(asset, account);
      SettleCrowded(l, k, Balance(l.balances, k) - v, l.reg.assets[asset].supply - v);
    } else {
      hide Settle, Inv;
    }
  }

  lemma TransferCrowded(l: Ledger, op: Op)
    requires Inv(l) && op.Transfer?
    ensures Full(Step(l, op).reply) <==>
            TransferAllowed(l, op) && NoSlotForTransfer(l, op)
  {
    if TransferAllowed(l, op) {
      TransferShape(l, op);
      DebitCases(l, op);
      TransferNeverMissing(l, op);
      hide Step, Debit, Credit;
      if Debit(l, op).reply.Done? {
        CreditCases(l, op);
      }
      hide Inv;
    } else {
      TransferRefusedPlainly(l, op);
      hide Step;
    }
  }

  /** An operation reports a full table exactly if it needs room where there is none. */
  lemma CrowdedExact(l: Ledger, op: Op)
    requires Inv(l)
    ensures Full(Step(l, op).reply) <==> Crowded(l, op)
  {
    match op
    case RetrieveAsset(q, r) => AssetsCrowded(l.reg, q, r); hide FileAsset, AssetKnown;
    case RetrieveAccount(q, r) => AccountsCrowded(l.reg, l.balances.Keys, q, r); hide FileAccount, AccountKnown;
    case Deposit(a, t, v) => DepositCrowded(l, a, t, v); hide DepositStep, DepositAllowed, NoSlot;
    case Withdraw(a, f, v) => WithdrawCrowded(l, a, f, v); hide WithdrawStep, WithdrawAllowed, NoSlot;
    case Transfer(_, _, _, _) => TransferCrowded(l, op);
    case Clear =>
  }

  /** The operations on which both ledgers do the same, from any states that are alike. The basic ledger refuses base
      assets, ignores removals, starts over when cleared, and is never full. */
  ghost predicate Agrees(l: Ledger, op: Op) {
    if op.Clear? then l.reg.nextAsset == 0 && l.reg.nextAccount == 0 else Shared(op) && !Crowded(l, op)
  }

  lemma BasicNeverFull(b: Basic, op: Op)
    ensures !Full(BasicStep(b, op).reply)
  {
  }

  /** Outside the shared operations the replies differ, except that both ledgers accept being cleared. */
  lemma UnsharedStepDiffers(l: Ledger, b: Basic, op: Op)
    requires !Shared(op) && !op.Clear?
    ensures Step(l, op).reply != BasicStep(b, op).reply
  {
  }

  /** Exactly when the two ledgers agree on an operation: for everything but clearing they agree if and only if they
      give the same reply, and then their states stay alike. */
  lemma StepAlike(l: Ledger, b: Basic, op: Op)
    requires Inv(l) && Alike(l, b)
    ensures Step(l, op).reply == BasicStep(b, op).reply && Alike(Step(l, op).ledger, BasicStep(b, op).state)
            <==> Agrees(l, op)
    ensures !op.Clear? ==> (Step(l, op).reply == BasicStep(b, op).reply <==> Agrees(l, op))
  {
    if !op.Clear? {
      hide Step, BasicStep, Inv, Alike, Crowded;
      CrowdedExact(l, op);
      BasicNeverFull(b, op);
      if !Shared(op) {
        UnsharedStepDiffers(l, b, op);
      } else if !Crowded(l, op) {
        SharedStepAlike(l, b, op);
      }
    }
  }

  // ---------- runs ----------

  /** The ledgers agree on every operation of the run. */
  ghost predicate AgreeThroughout(l: Ledger, ops: seq<Op>)
    decreases |ops|
  {
    ops != [] ==> Agrees(l, ops[0]) && AgreeThroughout(Step(l, ops[0]).ledger, ops[1..])
  }

  /** Every operation of the run gets the same reply from both ledgers and leaves them alike. */
  ghost predicate AlikeThroughout(l: Ledger, b: Basic, ops: seq<Op>)
    decreases |ops|
  {
    ops != [] ==>
      var o, p := Step(l, ops[0]), BasicStep(b, ops[0]);
      o.reply == p.reply && Alike(o.ledger, p.state) && AlikeThroughout(o.ledger, p.state, ops[1..])
  }

  /** Over any run, the ledgers give the same replies and stay alike throughout exactly if they agree throughout; then
      all ids, result codes, tables, supplies and balances are the same. A run that clears nothing gets the same replies
      only if they do. */
  lemma {:induction false} RunAlike(l: Ledger, b: Basic, ops: seq<Op>)
    requires Inv(l) && Alike(l, b)
    ensures AlikeThroughout(l, b, ops) <==> AgreeThroughout(l, ops)
    ensures AgreeThroughout(l, ops) ==> Replies(l, ops) == BasicReplies(b, ops) && Alike(Run(l, ops), BasicRun(b, ops))
    ensures Clear !in ops ==> (Replies(l, ops) == BasicReplies(b, ops) <==> AgreeThroughout(l, ops))
    decreases |ops|
  {
    if ops != [] {
      StepAlike(l, b, ops[0]);
      StepKeepsInv(l, ops[0]);
      hide Step, BasicStep, Inv, Alike, Agrees;
      var m, c := Step(l, ops[0]).ledger, BasicStep(b, ops[0]).state;
      assert Clear !in ops ==> Clear !in ops[1..] && !ops[0].Clear?;
      assert Replies(l, ops)[0] == Step(l, ops[0]).reply && Replies(l, ops)[1..] == Replies(m, ops[1..]);
      assert BasicReplies(b, ops)[0] == BasicStep(b, ops[0]).reply;
      assert BasicReplies(b, ops)[1..] == BasicReplies(c, ops[1..]);
      if Agrees(l, ops[0]) {
        RunAlike(m, c, ops[1..]);
      }
    }
  }

  /** Enough free ids, and two free balance slots, per operation. */
  predicate Room(l: Ledger, n: nat) {
    l.reg.nextAsset + n <= l.reg.maxAssets && l.reg.nextAccount + n <= l.reg.maxAccounts &&
    |l.balances| + 2 * n <= l.maxBalances
  }

  ghost predicate OneMoreAsset(r: Registry, f: Filing) {
    !Full(f.reply) && f.reg.nextAsset <= r.nextAsset + 1 && f.reg.nextAccount == r.nextAccount &&
    f.reg.maxAssets == r.maxAssets && f.reg.maxAccounts == r.maxAccounts
  }

  lemma RemovalUsesRoom(r: Registry, id: nat)
    ensures OneMoreAsset(r, RemoveAsset(r, id))
  {
  }

  lemma CreationUsesRoom(r: Registry, asset: Asset)
    requires r.nextAsset < r.maxAssets
    ensures OneMoreAsset(r, CreateAsset(r, asset))
  {
  }

  lemma AssetUsesRoom(r: Registry, q: AssetQuery, op: Retrieval)
    requires r.nextAsset < r.maxAssets
    ensures OneMoreAsset(r, FileAsset(r, q, op))
  {
    hide RemoveAsset, CreateAsset;
    var hit := LookupAsset(r, q, op);
    if hit.Hit? {
      RemovalUsesRoom(r, hit.id);
    }
    CreationUsesRoom(r, q.Fresh());
  }

  lemma AccountUsesRoom(r: Registry, keys: set<Key>, q: AccountQuery, op: Retrieval)
    requires r.nextAccount < r.maxAccounts
    ensures var f := FileAccount(r, keys, q, op);
            !Full(f.reply) && f.reg.nextAccount <= r.nextAccount + 1 && f.reg.nextAsset == r.nextAsset &&
            f.reg.maxAssets == r.maxAssets && f.reg.maxAccounts == r.maxAccounts
  {
  }

  lemma FilingUsesRoom(l: Ledger, op: Op, n: nat)
    requires (op.RetrieveAsset? || op.RetrieveAccount?) && Room(l, n + 1)
    ensures !Full(Step(l, op).reply) && Room(Step(l, op).ledger, n)
  {
    hide FileAsset, FileAccount;
    if op.RetrieveAsset? {
      AssetUsesRoom(l.reg, op.assetQuery, op.retrieval);
    } else {
      AccountUsesRoom(l.reg, l.balances.Keys, op.accountQuery, op.retrieval);
    }
  }

  lemma SettlingUsesRoom(l: Ledger, op: Op, n: nat)
    requires (op.Deposit? || op.Withdraw?) && Room(l, n + 1)
    ensures !Full(Step(l, op).reply) && Room(Step(l, op).ledger, n)
  {
    PostingUsesRoom(l, Key(op.asset, if op.Deposit? then op.to else op.from));
    hide SetBalance;
  }

  lemma StepUsesRoom(l: Ledger, op: Op, n: nat)
    requires Inv(l) && Shared(op) && Room(l, n + 1)
    ensures !Full(Step(l, op).reply) && Room(Step(l, op).ledger, n)
  {
    hide Step;
    if op.RetrieveAsset? || op.RetrieveAccount? {
      FilingUsesRoom(l, op, n);
    } else if op.Transfer? {
      TransferUsesRoom(l, op);
    } else {
      SettlingUsesRoom(l, op, n);
    }
  }

  lemma PostingUsesRoom(l: Ledger, k: Key)
    ensures forall v: Amount :: var p := SetBalance(l, k, v);
              |p.balances| <= |l.balances| + 1 && (|l.balances| < l.maxBalances ==> !Full(p.reply))
  {
    forall v: Amount
      ensures var p := SetBalance(l, k, v);
              |p.balances| <= |l.balances| + 1 && (|l.balances| < l.maxBalances ==> !Full(p.reply))
    {
      assert l.balances[k := v].Keys == l.balances.Keys + {k};
      assert (l.balances - {k}).Keys == l.balances.Keys - {k};
    }
  }

  lemma TransferUsesRoom(l: Ledger, op: Op)
    requires Inv(l) && op.Transfer? && |l.balances| + 2 <= l.maxBalances
    ensures !Full(Step(l, op).reply)
    ensures |Step(l, op).ledger.balances| <= |l.balances| + 2 && Step(l, op).ledger.reg == l.reg
    ensures Step(l, op).ledger.maxBalances == l.maxBalances
  {
    if TransferAllowed(l, op) {
      TransferShape(l, op);
      PostingUsesRoom(l, Key(op.asset, op.from));
      PostingUsesRoom(l.(balances := Debit(l, op).balances), Key(op.asset, op.to));
      hide Step, SetBalance, Inv;
    } else {
      TransferRefusedPlainly(l, op);
    }
  }

  lemma TransferRefusedPlainly(l: Ledger, op: Op)
    requires Inv(l) && op.Transfer? && !TransferAllowed(l, op)
    ensures Step(l, op).ledger == l && !Full(Step(l, op).reply)
  {
  }

  lemma {:induction false} RoomIsEnough(l: Ledger, ops: seq<Op>)
    requires Inv(l) && Room(l, |ops|)
    requires forall op :: op in ops ==> Shared(op)
    ensures AgreeThroughout(l, ops)
    decreases |ops|
  {
    if ops != [] {
      assert ops[0] in ops;
      StepUsesRoom(l, ops[0], |ops| - 1);
      CrowdedExact(l, ops[0]);
      StepKeepsInv(l, ops[0]);
      hide Step, Inv, Room, Crowded;
      RoomIsEnough(Step(l, ops[0]).ledger, ops[1..]);
    }
  }

  /** From creation: with enough room the two ledgers cannot be told apart by shared operations. */
  lemma FreshLedgersAlike(maxAccounts: nat, maxAssets: nat, maxBalances: nat, ops: seq<Op>)
    requires |ops| <= maxAccounts && |ops| <= maxAssets && 2 * |ops| <= maxBalances
    requires forall op :: op in ops ==> Shared(op)
    ensures var l := Empty(maxAccounts, maxAssets, maxBalances);
            Replies(l, ops) == BasicReplies(EMPTY_BASIC, ops) && Alike(Run(l, ops), BasicRun(EMPTY_BASIC, ops))
  {
    var l := Empty(maxAccounts, maxAssets, maxBalances);
    assert Inv(l) && Room(l, |ops|) && Alike(l, EMPTY_BASIC);
    hide Inv, Room, Alike, Run, Replies, BasicRun, BasicReplies, AgreeThroughout;
    RoomIsEnough(l, ops);
    RunAlike(l, EMPTY_BASIC, ops);
  }
}

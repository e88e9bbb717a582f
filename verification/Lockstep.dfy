/** The two ledger objects side by side: their callers cannot tell them apart as long as the ledgers agree. */
module Lockstep {
  import opened LedgerTypes
  import opened LedgerSpec
  import opened LedgerInvariants
  import opened BasicLedgers
  import opened MemoryLedgers
  import opened Simulation

  /** The same calls made on both objects. The replies are the same, and the states stay alike, if the ledgers agree on
      every call; and if none of the calls clears, the replies are the same only then. */
  method RunBoth(memory: MemoryLedger, basic: BasicLedger, ops: seq<Op>)
    returns (replies: seq<Reply>, basicReplies: seq<Reply>)
    requires memory.Valid() && Inv(memory.Model()) && Alike(memory.Model(), basic.State())
    modifies memory, memory.balances, basic
    ensures memory.Valid() && Inv(memory.Model())
    ensures AgreeThroughout(old(memory.Model()), ops) ==>
              replies == basicReplies && Alike(memory.Model(), basic.State())
    ensures Clear !in ops ==> (replies == basicReplies <==> AgreeThroughout(old(memory.Model()), ops))
  {
    hide Inv, Alike, AgreeThroughout, Run, Replies, BasicRun, BasicReplies;
    RunAlike(memory.Model(), basic.State(), ops);
    RunKeepsInv(memory.Model(), ops);
    replies := memory.Replay(ops);
    basicReplies := basic.Replay(ops);
  }

  /** A balance read from both objects while they are alike. */
  method ReadBoth(memory: MemoryLedger, basic: BasicLedger, k: Key) returns (v: nat, w: nat)
    requires memory.Valid() && Alike(memory.Model(), basic.State())
    ensures v == w == Balance(memory.Model().balances, k)
  {
    SameAt(memory.Model(), basic.State(), k);
    var a, _ := memory.GetBalance(k);
    var b, _ := basic.GetBalance(k, false);
    v, w := a, b;
  }

  /** From creation, with one id and two balance slots for every call: the same replies, and the same balances after. */
  method RunBothFresh(ops: seq<Op>, k: Key) returns (same: bool)
    requires forall op :: op in ops ==> Shared(op)
    ensures same
  {
    var memory := new MemoryLedger(|ops|, |ops|, 2 * |ops|);
    var basic := new BasicLedger();
    ghost var l := memory.Model();
    assert Inv(l) && Room(l, |ops|) && Alike(l, basic.State());
    RoomIsEnough(l, ops);
    var replies, basicReplies := RunBoth(memory, basic, ops);
    var v, w := ReadBoth(memory, basic, k);
    same := replies == basicReplies && v == w;
  }
}

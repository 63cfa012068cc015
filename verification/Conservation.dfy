/** One ledger on its own: no submitted transaction is lost, duplicated or reordered by mining. */
module Conservation {
  import opened Bytes
  import opened Ledger

  datatype LedgerState = LedgerState(chain: Chain, pending: seq<Tx>)

  datatype Op = Add(tx: Tx) | MineAll(miner: string, rewardTime: real, blockTime: real)

  /** `add_transaction` and `mine_pending_transactions`; mining an empty pool is a ValueError. */
  ghost predicate Step(h: Hashing, target: string, s: LedgerState, op: Op, s': LedgerState)
    requires s.chain != []
  {
    match op
    case Add(tx) => s' == s.(pending := s.pending + [tx])
    case MineAll(miner, rewardTime, blockTime) =>
      if s.pending == [] then s' == s
      else
        && |s'.chain| == |s.chain| + 1 && s'.chain == s.chain + [Last(s'.chain)] && s'.pending == []
        && MinedFrom(h, target, NextContent(h, s.chain, s.pending, RewardTx(miner, rewardTime), blockTime, 0),
                     Last(s'.chain))
  }

  /** Appending a block mined from a non-empty pool, and emptying the pool, is the mining step. */
  lemma MinedIsStep(h: Hashing, target: string, s: LedgerState, miner: string, rewardTime: real, blockTime: real,
        b: BlockDict)
    requires s.chain != [] && s.pending != []
    requires MinedFrom(h, target, NextContent(h, s.chain, s.pending, RewardTx(miner, rewardTime), blockTime, 0), b)
    ensures Step(h, target, s, MineAll(miner, rewardTime, blockTime), LedgerState(s.chain + [b], []))
  {}

  ghost predicate IsRun(h: Hashing, target: string, states: seq<LedgerState>, ops: seq<Op>) {
    && |states| == |ops| + 1
    && |states[0].chain| == 1 && states[0].pending == []
    && forall i :: 0 <= i < |ops| ==> states[i].chain != [] && Step(h, target, states[i], ops[i], states[i + 1])
  }

  /** The submission history. */
  ghost function Submitted(ops: seq<Op>): seq<Tx> {
    if ops == [] then []
    else Submitted(ops[..|ops| - 1]) + if ops[|ops| - 1].Add? then [ops[|ops| - 1].tx] else []
  }

  /** A block's transactions without the final entry. */
  ghost function Payload(b: BlockDict): seq<Tx> {
    var txs := b.content.transactions;
    if txs == [] then [] else txs[..|txs| - 1]
  }

  /** The payloads of all blocks after the genesis block, in order. */
  ghost function Payloads(c: Chain): seq<seq<Tx>>
    requires c != []
  {
    seq(|c| - 1, i requires 0 <= i < |c| - 1 => Payload(c[i + 1]))
  }

  /** The final entries of all blocks after the genesis block. */
  ghost function FinalEntries(c: Chain): seq<Tx>
    requires c != [] && forall i :: 1 <= i < |c| ==> c[i].content.transactions != []
  {
    seq(|c| - 1, i requires 0 <= i < |c| - 1 => c[i + 1].content.transactions[|c[i + 1].content.transactions| - 1])
  }

  /** The reward one operation appends. */
  ghost function Earned(s: LedgerState, op: Op): seq<Tx> {
    if op.MineAll? && s.pending != [] then [RewardTx(op.miner, op.rewardTime)] else []
  }

  /** The rewards that mining appended, one per MineAll that found something to mine. */
  ghost function Rewards(states: seq<LedgerState>, ops: seq<Op>): seq<Tx>
    requires |states| == |ops| + 1
  {
    if ops == [] then []
    else
      var k := |ops| - 1;
      Rewards(states[..k + 1], ops[..k]) + Earned(states[k], ops[k])
  }

  lemma MinedPayload(c: Chain, b: BlockDict, pending: seq<Tx>, reward: Tx)
    requires c != [] && b.content.transactions == pending + [reward]
    ensures Payloads(c + [b]) == Payloads(c) + [pending]
  {
    assert Payload(b) == pending;
  }

  /** The ledger accounts for `history` and carries `rewards`. */
  ghost predicate Accounts(s: LedgerState, history: seq<Tx>, rewards: seq<Tx>) {
    && s.chain != []
    && Concat(Payloads(s.chain)) + s.pending == history
    && (forall i :: 1 <= i < |s.chain| ==> s.chain[i].content.transactions != [])
    && FinalEntries(s.chain) == rewards
  }

  lemma MineAccounts(h: Hashing, target: string, s: LedgerState, op: Op, s': LedgerState,
        history: seq<Tx>, rewards: seq<Tx>)
    requires Accounts(s, history, rewards) && op.MineAll? && s.pending != [] && Step(h, target, s, op, s')
    ensures Accounts(s', history, rewards + [RewardTx(op.miner, op.rewardTime)])
  {
    var reward, b := RewardTx(op.miner, op.rewardTime), Last(s'.chain);
    MinedExtends(h, target, s.chain, s.pending, reward, op.blockTime, b);
    MinedPayload(s.chain, b, s.pending, reward);
    ConcatSnoc(Payloads(s.chain), s.pending);
    forall i | 1 <= i < |s'.chain| ensures s'.chain[i].content.transactions != [] {
      if i < |s.chain| {
        assert s'.chain[i] == s.chain[i];
      }
    }
    assert FinalEntries(s'.chain) == FinalEntries(s.chain) + [reward];
  }

  lemma AddAccounts(s: LedgerState, tx: Tx, history: seq<Tx>, rewards: seq<Tx>)
    requires Accounts(s, history, rewards)
    ensures Accounts(s.(pending := s.pending + [tx]), history + [tx], rewards)
  {
    assert Concat(Payloads(s.chain)) + (s.pending + [tx]) == (Concat(Payloads(s.chain)) + s.pending) + [tx];
  }

  /** One operation keeps the account: what it submits and what it earns is added. */
  lemma StepAccounts(h: Hashing, target: string, s: LedgerState, op: Op, s': LedgerState,
        history: seq<Tx>, rewards: seq<Tx>)
    requires Accounts(s, history, rewards) && Step(h, target, s, op, s')
    ensures Accounts(s', history + (if op.Add? then [op.tx] else []), rewards + Earned(s, op))
  {
    if op.Add? {
      AddAccounts(s, op.tx, history, rewards);
    } else if s.pending != [] {
      MineAccounts(h, target, s, op, s', history, rewards);
    } else {
      assert history + [] == history && rewards + [] == rewards;
    }
  }

  /** A run without its last operation is a run, and the last operation is a step. */
  lemma RunPrefix(h: Hashing, target: string, states: seq<LedgerState>, ops: seq<Op>)
    requires IsRun(h, target, states, ops) && ops != []
    ensures var k := |ops| - 1;
      && IsRun(h, target, states[..k + 1], ops[..k])
      && states[k].chain != [] && Step(h, target, states[k], ops[k], states[k + 1])
  {}

  /** Main result: flatten the blocks' payloads, add the pending pool, and the whole submission
      history is back, in order; each mined block ends in its reward, height-1 of them. */
  lemma {:induction false} NothingLost(h: Hashing, target: string, states: seq<LedgerState>, ops: seq<Op>)
    requires IsRun(h, target, states, ops)
    ensures Accounts(states[|ops|], Submitted(ops), Rewards(states, ops))
    ensures |Rewards(states, ops)| == |states[|ops|].chain| - 1
  {
    if ops == [] {
      assert Payloads(states[0].chain) == [];
    } else {
      var k := |ops| - 1;
      RunPrefix(h, target, states, ops);
      NothingLost(h, target, states[..k + 1], ops[..k]);
      StepAccounts(h, target, states[k], ops[k], states[k + 1],
                   Submitted(ops[..k]), Rewards(states[..k + 1], ops[..k]));
    }
  }
}

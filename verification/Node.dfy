/** One node as a value, and everything that can happen to it, whatever its peers send. */
module Node {
  import opened Bytes
  import opened Ledger

  datatype NodeState = NodeState(chain: Chain, pending: seq<Tx>, seen: set<string>)

  /** The outcome of the locked part of `_receive_block`, tests in the code's order. */
  datatype Verdict = BadProof | Stale | NoLink | Accepted

  function Judge(h: Hashing, target: string, c: Chain, b: BlockDict): Verdict
    requires c != []
  {
    if !ProofHolds(h, target, b) then BadProof
    else if b.content.index <= Last(c).content.index then Stale
    else if b.content.previousHash != Last(c).hash then NoLink
    else Accepted
  }

  /** Order of the tests aside, a block is accepted exactly when it is proven, links to the tip and
      has a greater index; that the index is the next one is not tested. */
  lemma AcceptedExactly(h: Hashing, target: string, c: Chain, b: BlockDict)
    requires c != []
    ensures Judge(h, target, c, b).Accepted?
       <==> LinkHolds(h, target, Last(c), b) && Last(c).content.index < b.content.index
  {}

  /** Each verdict in the dictionaries' own fields, the tests in the code's order. */
  lemma VerdictInFields(h: Hashing, target: string, c: Chain, b: BlockDict)
    requires c != []
    ensures var (tip, verdict) := (c[|c| - 1], Judge(h, target, c, b));
      var proven := target <= b.hash && b.hash == h.sha(h.blockText(b.content));
      && (verdict.BadProof? <==> !proven)
      && (verdict.Stale? <==> proven && b.content.index <= tip.content.index)
      && (verdict.NoLink? <==> proven && b.content.index > tip.content.index && b.content.previousHash != tip.hash)
      && (verdict.Accepted? <==> proven && b.content.index > tip.content.index && b.content.previousHash == tip.hash)
  {}

  /** The non-empty file hashes a block's transactions carry. */
  function ConfirmedHashes(txs: seq<Tx>): set<string> {
    set tx | tx in txs && tx.fileHash.Some? && tx.fileHash.value != "" :: tx.fileHash.value
  }

  predicate Survives(tx: Tx, confirmed: set<string>) {
    !(tx.fileHash.Some? && tx.fileHash.value in confirmed)
  }

  /** The pending pool without the confirmed files' transactions. */
  function Unconfirmed(pending: seq<Tx>, confirmed: set<string>): seq<Tx>
  {
    if pending == [] then []
    else
      var rest := Unconfirmed(pending[..|pending| - 1], confirmed);
      var tx := pending[|pending| - 1];
      if Survives(tx, confirmed) then rest + [tx] else rest
  }

  /** Survivors stay as often as they were there, the confirmed entries go. */
  lemma {:induction false} UnconfirmedKeeps(pending: seq<Tx>, confirmed: set<string>, tx: Tx)
    ensures multiset(Unconfirmed(pending, confirmed))[tx]
         == if Survives(tx, confirmed) then multiset(pending)[tx] else 0
  {
    if pending != [] {
      UnconfirmedKeeps(pending[..|pending| - 1], confirmed, tx);
      assert pending == pending[..|pending| - 1] + [pending[|pending| - 1]];
    }
  }

  /** The pool keeps its order: filtering goes through concatenation. */
  lemma {:induction false} UnconfirmedAdd(a: seq<Tx>, b: seq<Tx>, confirmed: set<string>)
    ensures Unconfirmed(a + b, confirmed) == Unconfirmed(a, confirmed) + Unconfirmed(b, confirmed)
  {
    if b == [] {
      assert a + b == a;
    } else {
      UnconfirmedAdd(a, b[..|b| - 1], confirmed);
      assert (a + b)[..|a + b| - 1] == a + b[..|b| - 1];
    }
  }

  /** The locked part of `_receive_block`. */
  function LockBlock(h: Hashing, target: string, s: NodeState, b: BlockDict): NodeState
    requires s.chain != []
  {
    if Judge(h, target, s.chain, b).Accepted? then
      s.(chain := s.chain + [b],
         pending := Unconfirmed(s.pending, ConfirmedHashes(b.content.transactions)))
    else s
  }

  lemma ConfirmedInFields(txs: seq<Tx>, tx: Tx)
    ensures tx.fileHash.Some? && tx.fileHash.value in ConfirmedHashes(txs) <==>
      tx.fileHash.Some? && tx.fileHash.value != "" && exists j :: 0 <= j < |txs| && txs[j].fileHash == tx.fileHash
  {
    if j :| 0 <= j < |txs| && txs[j].fileHash == tx.fileHash {
      assert txs[j] in txs;
    }
  }

  /** The positions of the kept entries, in order. */
  ghost function KeptAt(pending: seq<Tx>, confirmed: set<string>): (at: seq<nat>)
    ensures forall k :: 0 <= k < |at| ==> at[k] < |pending|
  {
    if pending == [] then []
    else
      var k := |pending| - 1;
      var rest := KeptAt(pending[..k], confirmed);
      if pending[k].fileHash.Some? && pending[k].fileHash.value in confirmed then rest else rest + [k]
  }

  lemma {:induction false} KeptIncreases(pending: seq<Tx>, confirmed: set<string>)
    ensures forall k, l :: 0 <= k < l < |KeptAt(pending, confirmed)| ==>
      KeptAt(pending, confirmed)[k] < KeptAt(pending, confirmed)[l]
  {
    if pending != [] {
      KeptIncreases(pending[..|pending| - 1], confirmed);
    }
  }

  lemma {:induction false} KeptEntries(pending: seq<Tx>, confirmed: set<string>)
    ensures |Unconfirmed(pending, confirmed)| == |KeptAt(pending, confirmed)|
    ensures forall k :: 0 <= k < |KeptAt(pending, confirmed)| ==>
      Unconfirmed(pending, confirmed)[k] == pending[KeptAt(pending, confirmed)[k]]
  {
    if pending != [] {
      KeptEntries(pending[..|pending| - 1], confirmed);
    }
  }

  lemma {:induction false} KeptExactly(pending: seq<Tx>, confirmed: set<string>, i: nat)
    requires i < |pending|
    ensures i !in KeptAt(pending, confirmed) <==>
      pending[i].fileHash.Some? && pending[i].fileHash.value in confirmed
  {
    var k := |pending| - 1;
    var rest := KeptAt(pending[..k], confirmed);
    if i < k {
      KeptExactly(pending[..k], confirmed, i);
      assert i in rest <==> i in rest + [k];
    } else {
      assert k !in rest;
      assert k in rest + [k];
    }
  }

  /** Main result on the pool: when a block is accepted, exactly the entries whose non-empty file hash
      some transaction of the block carries leave it, and the others keep their order. */
  lemma AcceptedPool(h: Hashing, target: string, s: NodeState, b: BlockDict) returns (at: seq<nat>)
    requires s.chain != [] && Judge(h, target, s.chain, b).Accepted?
    ensures var s' := LockBlock(h, target, s, b);
      && s'.chain == s.chain + [b] && s'.seen == s.seen
      && |s'.pending| == |at|
      && (forall k :: 0 <= k < |at| ==> at[k] < |s.pending| && s'.pending[k] == s.pending[at[k]])
    ensures forall k, l :: 0 <= k < l < |at| ==> at[k] < at[l]
    ensures forall i :: 0 <= i < |s.pending| ==> (i !in at <==>
      s.pending[i].fileHash.Some? && s.pending[i].fileHash.value != "" &&
      exists j :: 0 <= j < |b.content.transactions| && b.content.transactions[j].fileHash == s.pending[i].fileHash)
  {
    var confirmed := ConfirmedHashes(b.content.transactions);
    at := KeptAt(s.pending, confirmed);
    KeptIncreases(s.pending, confirmed);
    KeptEntries(s.pending, confirmed);
    forall i | 0 <= i < |s.pending| ensures i !in at <==>
      s.pending[i].fileHash.Some? && s.pending[i].fileHash.value != "" &&
      exists j :: 0 <= j < |b.content.transactions| && b.content.transactions[j].fileHash == s.pending[i].fileHash
    {
      KeptExactly(s.pending, confirmed, i);
      ConfirmedInFields(b.content.transactions, s.pending[i]);
    }
  }

  /** The same by counting: a confirmed entry is gone, any other occurs as often as before. */
  lemma AcceptedPoolCounts(h: Hashing, target: string, s: NodeState, b: BlockDict, tx: Tx)
    requires s.chain != [] && Judge(h, target, s.chain, b).Accepted?
    ensures var confirmed := tx.fileHash.Some? && tx.fileHash.value != "" &&
        exists j :: 0 <= j < |b.content.transactions| && b.content.transactions[j].fileHash == tx.fileHash;
      multiset(LockBlock(h, target, s, b).pending)[tx] == if confirmed then 0 else multiset(s.pending)[tx]
  {
    UnconfirmedKeeps(s.pending, ConfirmedHashes(b.content.transactions), tx);
    ConfirmedInFields(b.content.transactions, tx);
  }

  /** A block that is not accepted leaves the node as it is. */
  lemma RejectedChangesNothing(h: Hashing, target: string, s: NodeState, b: BlockDict)
    requires s.chain != [] && !Judge(h, target, s.chain, b).Accepted?
    ensures LockBlock(h, target, s, b) == s
  {}

  predicate SameEntry(p: Tx, tx: Tx) {
    p.fileHash == tx.fileHash && p.timestamp == tx.timestamp
  }

  /** `NEW_TX`: queued unless an entry with the same file hash and timestamp is pending. */
  function QueueTx(s: NodeState, tx: Tx): NodeState {
    if exists i :: 0 <= i < |s.pending| && SameEntry(s.pending[i], tx) then s
    else s.(pending := s.pending + [tx])
  }

  /** A transaction is dropped exactly when a pending one has both its file hash and its time stamp,
      absent keys being equal to each other; otherwise it goes to the end of the pool. */
  lemma QueuedInFields(s: NodeState, tx: Tx)
    ensures var known := (exists i :: 0 <= i < |s.pending| &&
                            s.pending[i].fileHash == tx.fileHash && s.pending[i].timestamp == tx.timestamp);
      && QueueTx(s, tx).pending == (if known then s.pending else s.pending + [tx])
      && QueueTx(s, tx).chain == s.chain && QueueTx(s, tx).seen == s.seen
  {
    if i :| 0 <= i < |s.pending| && s.pending[i].fileHash == tx.fileHash && s.pending[i].timestamp == tx.timestamp {
      assert SameEntry(s.pending[i], tx);
    }
  }

  /** The atomic steps of a node. `_receive_block` is two of them: the unlocked check-and-mark of
      the hash and the locked rest, so that handlers may interleave between the two. */
  datatype Event =
    | MarkSeen(hash: string)
    | Lock(block: BlockDict)
    | RecvChain(wires: seq<Wire>)
    | NewTx(tx: Tx)
    | Submit(tx: Tx)
    | Mine(reward: Tx, blockTime: real)

  ghost predicate Step(h: Hashing, target: string, s: NodeState, e: Event, s': NodeState)
    requires s.chain != []
  {
    match e
    case MarkSeen(hash) => s' == s.(seen := s.seen + {hash})
    case Lock(b) => s' == LockBlock(h, target, s, b)
    case RecvChain(wires) => s' == s.(chain := Replace(h, target, s.chain, wires))
    case NewTx(tx) => s' == QueueTx(s, tx)
    case Submit(tx) => s' == s.(pending := s.pending + [tx])
    case Mine(reward, blockTime) =>
      if s.pending == [] then s' == s
      else exists b :: MinedFrom(h, target, NextContent(h, s.chain, s.pending, reward, blockTime, 0), b)
             && s' == s.(chain := s.chain + [b], pending := [])
  }

  /** How a chain may move in one step. */
  ghost predicate Moves(h: Hashing, target: string, c: Chain, c': Chain)
    requires c != []
  {
    || c' == c
    || (|c'| == |c| + 1 && c' == c + [c'[|c|]] && LinkHolds(h, target, Last(c), c'[|c|]))
    || (|c'| > |c| && ValidChain(h, target, c'))
  }

  lemma StepMoves(h: Hashing, target: string, s: NodeState, e: Event, s': NodeState)
    requires s.chain != [] && Step(h, target, s, e, s')
    ensures Moves(h, target, s.chain, s'.chain)
    ensures ValidChain(h, target, s.chain) ==> ValidChain(h, target, s'.chain)
  {
    match e
    case Lock(b) =>
      if Judge(h, target, s.chain, b).Accepted? && ValidChain(h, target, s.chain) {
        AppendValid(h, target, s.chain, b);
      }
    case Mine(reward, blockTime) =>
      if s.pending != [] {
        var b :| MinedFrom(h, target, NextContent(h, s.chain, s.pending, reward, blockTime, 0), b)
             && s' == s.(chain := s.chain + [b], pending := []);
        MinedExtends(h, target, s.chain, s.pending, reward, blockTime, b);
        if ValidChain(h, target, s.chain) {
          AppendValid(h, target, s.chain, b);
        }
      }
    case _ =>
  }

  /** A finite run: one more state than events, each pair of neighbours a step. */
  ghost predicate IsRun(h: Hashing, target: string, states: seq<NodeState>, events: seq<Event>) {
    && |states| == |events| + 1
    && forall i :: 0 <= i < |events| ==>
         states[i].chain != [] && Step(h, target, states[i], events[i], states[i + 1])
  }

  /** Main result: whatever blocks and chains arrive and however they interleave with mining, a
      valid chain stays valid, its height never drops, and every change is one linked block
      appended or a strictly longer valid chain taken over. */
  lemma {:induction false} AnyRunKeepsValidity(h: Hashing, target: string, states: seq<NodeState>, events: seq<Event>)
    requires IsRun(h, target, states, events)
    requires states[0].chain != [] && ValidChain(h, target, states[0].chain)
    ensures forall i :: 0 <= i < |states| ==> states[i].chain != [] && ValidChain(h, target, states[i].chain)
    ensures forall i :: 0 <= i < |events| ==> Moves(h, target, states[i].chain, states[i + 1].chain)
    ensures forall i, j :: 0 <= i <= j < |states| ==> |states[i].chain| <= |states[j].chain|
  {
    if events != [] {
      var k := |events| - 1;
      AnyRunKeepsValidity(h, target, states[..|states| - 1], events[..k]);
      StepMoves(h, target, states[k], events[k], states[k + 1]);
    }
  }

  /** No step lowers the height, whatever the chain was like before. */
  lemma {:induction false} HeightsGrow(h: Hashing, target: string, states: seq<NodeState>, events: seq<Event>,
        i: nat, j: nat)
    requires IsRun(h, target, states, events) && i <= j < |states|
    ensures |states[i].chain| <= |states[j].chain|
  {
    if i < j {
      HeightsGrow(h, target, states, events, i, j - 1);
      StepMoves(h, target, states[j - 1], events[j - 1], states[j]);
    }
  }

  /** Interleaved synchronisation: every valid chain that arrived during the run is no longer than
      the final one. */
  lemma FinalHeightCoversResponses(h: Hashing, target: string, states: seq<NodeState>, events: seq<Event>, i: nat)
    requires IsRun(h, target, states, events)
    requires i < |events| && events[i].RecvChain? && Usable(h, target, Some(events[i].wires))
    ensures |events[i].wires| <= |states[|states| - 1].chain|
  {
    HeightsGrow(h, target, states, events, i + 1, |states| - 1);
    assert Step(h, target, states[i], events[i], states[i + 1]);
  }

  // ---- sync_chain without interference ------------------------------------------------------

  /** A response is a chain message or nothing; the loop takes them in order, and a response that
      makes `replace_chain` raise ends it. */
  function Sync(h: Hashing, target: string, c: Chain, responses: seq<Option<seq<Wire>>>): Chain
    decreases |responses|
  {
    if responses == [] then c
    else match responses[0]
      case None => Sync(h, target, c, responses[1..])
      case Some(wires) =>
        if ReplaceAnswer(h, target, c, wires).Raised? then c
        else Sync(h, target, Replace(h, target, c, wires), responses[1..])
  }

  predicate Usable(h: Hashing, target: string, r: Option<seq<Wire>>) {
    r.Some? && (forall i :: 0 <= i < |r.value| ==> r.value[i].Complete?)
    && ValidChain(h, target, BlocksOf(r.value))
  }

  /** `best` is the first longest of c and the usable responses, in order. */
  ghost predicate FirstLongest(h: Hashing, target: string, c: Chain, rs: seq<Option<seq<Wire>>>, best: Chain) {
    && |best| >= |c|
    && (forall i :: 0 <= i < |rs| && Usable(h, target, rs[i]) ==> |rs[i].value| <= |best|)
    && (best == c || exists i :: 0 <= i < |rs| && FirstAt(h, target, c, rs, best, i))
  }

  /** `best` is response i, longer than c and than every usable response before it. */
  ghost predicate FirstAt(h: Hashing, target: string, c: Chain, rs: seq<Option<seq<Wire>>>, best: Chain, i: nat)
    requires i < |rs|
  {
    && Usable(h, target, rs[i]) && best == BlocksOf(rs[i].value) && |c| < |best|
    && forall j :: 0 <= j < i && Usable(h, target, rs[j]) ==> |rs[j].value| < |best|
  }

  function Max(a: nat, b: nat): nat {
    if a < b then b else a
  }

  /** The greatest length among c and the usable responses. */
  ghost function Height(h: Hashing, target: string, c: Chain, rs: seq<Option<seq<Wire>>>): (m: nat)
    ensures |c| <= m && forall i :: 0 <= i < |rs| && Usable(h, target, rs[i]) ==> |rs[i].value| <= m
  {
    if rs == [] then |c|
    else
      var rest := Height(h, target, c, rs[1..]);
      if Usable(h, target, rs[0]) then Max(rest, |rs[0].value|) else rest
  }

  /** Response k raises: it is longer than all that counted before it and lacks a key somewhere. */
  ghost predicate Stops(h: Hashing, target: string, c: Chain, rs: seq<Option<seq<Wire>>>, k: nat)
    requires k < |rs|
  {
    && rs[k].Some? && |rs[k].value| > Height(h, target, c, rs[..k])
    && exists i :: 0 <= i < |rs[k].value| && rs[k].value[i].Malformed?
  }

  /** No response behind a raising one is longer than all before that one. */
  ghost predicate NothingMissed(h: Hashing, target: string, c: Chain, rs: seq<Option<seq<Wire>>>) {
    forall k, i :: 0 <= k < i < |rs| && Stops(h, target, c, rs, k) && Usable(h, target, rs[i]) ==>
      |rs[i].value| <= Height(h, target, c, rs[..k])
  }

  /** The chain after one response that does not raise. */
  function Offered(h: Hashing, target: string, c: Chain, r: Option<seq<Wire>>): (c': Chain)
    ensures r.Some? && ReplaceAnswer(h, target, c, r.value).Ok? && Usable(h, target, r) ==> |r.value| <= |c'|
    ensures c' == c || (Usable(h, target, r) && c' == BlocksOf(r.value) && |c'| > |c|)
  {
    if r.Some? then Replace(h, target, c, r.value) else c
  }

  predicate Raises(h: Hashing, target: string, c: Chain, r: Option<seq<Wire>>) {
    r.Some? && ReplaceAnswer(h, target, c, r.value).Raised?
  }

  lemma {:induction false} HeightStep(h: Hashing, target: string, c: Chain, r: Option<seq<Wire>>,
        rest: seq<Option<seq<Wire>>>)
    requires !Raises(h, target, c, r)
    ensures Height(h, target, c, [r] + rest) == Height(h, target, Offered(h, target, c, r), rest)
  {
    HeightFrom(h, target, c, Offered(h, target, c, r), rest);
    assert ([r] + rest)[1..] == rest;
  }

  lemma {:induction false} HeightFrom(h: Hashing, target: string, c: Chain, d: Chain, rs: seq<Option<seq<Wire>>>)
    requires |c| <= |d|
    ensures Height(h, target, d, rs) == Max(|d|, Height(h, target, c, rs))
  {
    if rs != [] {
      HeightFrom(h, target, c, d, rs[1..]);
    }
  }

  lemma StopsStep(h: Hashing, target: string, c: Chain, r: Option<seq<Wire>>, rest: seq<Option<seq<Wire>>>, k: nat)
    requires !Raises(h, target, c, r) && k < |rest|
    ensures Stops(h, target, c, [r] + rest, k + 1) <==> Stops(h, target, Offered(h, target, c, r), rest, k)
    ensures Height(h, target, c, ([r] + rest)[..k + 1])
         == Height(h, target, Offered(h, target, c, r), rest[..k])
  {
    assert ([r] + rest)[..k + 1] == [r] + rest[..k];
    HeightStep(h, target, c, r, rest[..k]);
  }

  lemma NothingMissedStep(h: Hashing, target: string, c: Chain, r: Option<seq<Wire>>, rest: seq<Option<seq<Wire>>>)
    requires !Raises(h, target, c, r)
    ensures NothingMissed(h, target, c, [r] + rest) <==> NothingMissed(h, target, Offered(h, target, c, r), rest)
  {
    var rs, c' := [r] + rest, Offered(h, target, c, r);
    assert !Stops(h, target, c, rs, 0);
    if NothingMissed(h, target, c, rs) {
      forall k, i | 0 <= k < i < |rest| && Stops(h, target, c', rest, k) && Usable(h, target, rest[i])
        ensures |rest[i].value| <= Height(h, target, c', rest[..k])
      {
        StopsStep(h, target, c, r, rest, k);
        assert rs[i + 1] == rest[i];
      }
    }
    if NothingMissed(h, target, c', rest) {
      forall k, i | 0 <= k < i < |rs| && Stops(h, target, c, rs, k) && Usable(h, target, rs[i])
        ensures |rs[i].value| <= Height(h, target, c, rs[..k])
      {
        StopsStep(h, target, c, r, rest, k - 1);
        assert rs[i] == rest[i - 1];
      }
    }
  }

  lemma FirstLongestStep(h: Hashing, target: string, c: Chain, r: Option<seq<Wire>>,
        rest: seq<Option<seq<Wire>>>, best: Chain)
    requires !Raises(h, target, c, r) && FirstLongest(h, target, Offered(h, target, c, r), rest, best)
    ensures FirstLongest(h, target, c, [r] + rest, best)
  {
    var rs, c' := [r] + rest, Offered(h, target, c, r);
    forall i | 0 <= i < |rs| && Usable(h, target, rs[i]) ensures |rs[i].value| <= |best| {
      if i > 0 { assert rs[i] == rest[i - 1]; }
    }
    if best != c' {
      var i :| 0 <= i < |rest| && FirstAt(h, target, c', rest, best, i);
      assert rs[i + 1] == rest[i];
      forall j | 0 <= j < i + 1 && Usable(h, target, rs[j]) ensures |rs[j].value| < |best| {
        if j > 0 { assert rs[j] == rest[j - 1]; }
      }
      assert FirstAt(h, target, c, rs, best, i + 1);
    } else if best != c {
      assert FirstAt(h, target, c, rs, best, 0);
    }
  }

  lemma FirstLongestUnstep(h: Hashing, target: string, c: Chain, r: Option<seq<Wire>>,
        rest: seq<Option<seq<Wire>>>, best: Chain)
    requires !Raises(h, target, c, r) && FirstLongest(h, target, c, [r] + rest, best)
    ensures FirstLongest(h, target, Offered(h, target, c, r), rest, best)
  {
    var rs, c' := [r] + rest, Offered(h, target, c, r);
    assert rs[0] == r;
    forall i | 0 <= i < |rest| && Usable(h, target, rest[i]) ensures |rest[i].value| <= |best| {
      assert rs[i + 1] == rest[i];
    }
    if best != c && best != c' {
      var i :| 0 <= i < |rs| && FirstAt(h, target, c, rs, best, i);
      assert i > 0 && rs[i] == rest[i - 1];
      forall j | 0 <= j < i - 1 && Usable(h, target, rest[j]) ensures |rest[j].value| < |best| {
        assert rs[j + 1] == rest[j];
      }
      assert FirstAt(h, target, c', rest, best, i - 1);
    }
  }

  /** Main result: `sync_chain` ends with the first longest of our chain and all valid responses
      exactly when no valid response behind a raising one is longer than all before that one. */
  lemma {:induction false} SyncIsFirstLongest(h: Hashing, target: string, c: Chain, rs: seq<Option<seq<Wire>>>)
    ensures FirstLongest(h, target, c, rs, Sync(h, target, c, rs)) <==> NothingMissed(h, target, c, rs)
    decreases |rs|
  {
    if rs == [] {
    } else if Raises(h, target, c, rs[0]) {
      assert rs[..0] == [];
      assert Stops(h, target, c, rs, 0);
    } else {
      var r, rest := rs[0], rs[1..];
      var c', best := Offered(h, target, c, r), Sync(h, target, c, rs);
      assert rs == [r] + rest;
      SyncIsFirstLongest(h, target, c', rest);
      NothingMissedStep(h, target, c, r, rest);
      if FirstLongest(h, target, c', rest, best) {
        FirstLongestStep(h, target, c, r, rest, best);
      } else if FirstLongest(h, target, c, rs, best) {
        FirstLongestUnstep(h, target, c, r, rest, best);
      }
    }
  }

  /** In any case the result is the first longest up to the first response that raises. */
  lemma {:induction false} SyncUpToStop(h: Hashing, target: string, c: Chain, rs: seq<Option<seq<Wire>>>, k: nat)
    requires k <= |rs| && (k < |rs| ==> Stops(h, target, c, rs, k))
    requires forall j :: 0 <= j < k ==> !Stops(h, target, c, rs, j)
    ensures FirstLongest(h, target, c, rs[..k], Sync(h, target, c, rs))
    decreases |rs|
  {
    if rs != [] {
      assert rs[..0] == [];
      assert Raises(h, target, c, rs[0]) <==> Stops(h, target, c, rs, 0);
      if k > 0 {
        var r, rest := rs[0], rs[1..];
        assert rs == [r] + rest;
        forall j | 0 <= j < |rest|
          ensures Stops(h, target, c, rs, j + 1) <==> Stops(h, target, Offered(h, target, c, r), rest, j)
        {
          StopsStep(h, target, c, r, rest, j);
        }
        SyncUpToStop(h, target, Offered(h, target, c, r), rest, k - 1);
        FirstLongestStep(h, target, c, r, rest[..k - 1], Sync(h, target, c, rs));
        assert rs[..k] == [r] + rest[..k - 1];
      }
    }
  }

  /** One longer response with a missing key hides every longer valid response behind it. */
  lemma SyncMissesLonger(h: Hashing, target: string, c: Chain, broken: seq<Wire>, valid: seq<Wire>)
    requires |broken| > |c| && broken[|c|].Malformed?
    requires |valid| > |c| && Usable(h, target, Some(valid))
    ensures Sync(h, target, c, [Some(broken), Some(valid)]) == c
    ensures !FirstLongest(h, target, c, [Some(broken), Some(valid)], c)
  {
    assert Raises(h, target, c, Some(broken));
    assert [Some(broken), Some(valid)][1] == Some(valid);
  }

  /** A concrete case: if every block hashes to "x" and the difficulty is 0, two blocks that link ... */
  lemma TwoBlocksUsable(h: Hashing, target: string, c: Chain, next: BlockDict)
    requires (forall x :: BlockHash(h, x) == "x") && target == Target(0)
    requires |c| == 1 && c[0].hash == "x" && next == BlockDict(Content(1, 0.0, [], "x", 0, ""), "x")
    ensures Usable(h, target, Some(ToWire(c + [next])))
  {
    assert BlocksOf(ToWire(c + [next])) == c + [next];
    assert LinkHolds(h, target, c[0], next);
  }

  /** ... are received and not taken over. */
  lemma SyncMissesTwoBlocks(h: Hashing, target: string, c: Chain, next: BlockDict, broken: seq<Wire>)
    requires (forall x :: BlockHash(h, x) == "x") && target == Target(0)
    requires |c| == 1 && c[0].hash == "x" && next == BlockDict(Content(1, 0.0, [], "x", 0, ""), "x")
    requires broken == [Complete(c[0]), Malformed("")]
    ensures Sync(h, target, c, [Some(broken), Some(ToWire(c + [next]))]) == c
    ensures !FirstLongest(h, target, c, [Some(broken), Some(ToWire(c + [next]))], c)
  {
    TwoBlocksUsable(h, target, c, next);
    SyncMissesLonger(h, target, c, broken, ToWire(c + [next]));
  }
}

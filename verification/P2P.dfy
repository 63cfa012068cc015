/** The network node object: its handlers, each proved to take the steps of module Node. */
module P2P {
  import opened Bytes
  import opened Ledger
  import opened Node
  import opened Blockchain

  /** How handling a NEW_BLOCK message ended. */
  datatype Handled = Duplicate | Undecodable | Judged(verdict: Verdict)

  /** The whole of `_receive_block` when nothing interleaves. */
  function Receive(h: Hashing, target: string, s: NodeState, data: Wire): (NodeState, Handled)
    requires s.chain != []
  {
    var hash := if data.Complete? then data.block.hash else data.hash;
    if hash in s.seen then (s, Duplicate)
    else
      var marked := s.(seen := s.seen + {hash});
      if data.Malformed? then (marked, Undecodable)
      else (LockBlock(h, target, marked, data.block), Judged(Judge(h, target, s.chain, data.block)))
  }

  /** The thread a handler leaves running: forward the block to all peers but the origin, or
      `sync_chain`. */
  datatype Thread = NoThread | GossipThread(block: BlockDict, origin: string) | SyncThread

  function Starts(handled: Handled, data: Wire, sender: string): Thread {
    if handled == Judged(Accepted) && data.Complete? then GossipThread(data.block, sender)
    else if handled == Judged(NoLink) then SyncThread
    else NoThread
  }

  /** A sync starts exactly for an unseen, complete, proven block above the tip that does not link. */
  lemma SyncStartsExactly(h: Hashing, target: string, s: NodeState, data: Wire, sender: string)
    requires s.chain != []
    ensures Starts(Receive(h, target, s, data).1, data, sender) == SyncThread <==>
      && data.Complete? && data.block.hash !in s.seen
      && ProofHolds(h, target, data.block)
      && Last(s.chain).content.index < data.block.content.index
      && data.block.content.previousHash != Last(s.chain).hash
  {}

  /** Gossip starts exactly for an unseen, complete block that extends the tip, and the chain has
      grown by that block then and only then. */
  lemma GossipStartsExactly(h: Hashing, target: string, s: NodeState, data: Wire, sender: string)
    requires s.chain != []
    ensures var (s', handled) := Receive(h, target, s, data);
      && (Starts(handled, data, sender).GossipThread? <==>
           && data.Complete? && data.block.hash !in s.seen
           && LinkHolds(h, target, Last(s.chain), data.block)
           && Last(s.chain).content.index < data.block.content.index)
      && (s'.chain != s.chain <==> Starts(handled, data, sender).GossipThread?)
      && (Starts(handled, data, sender).GossipThread? ==>
           && Starts(handled, data, sender) == GossipThread(data.block, sender)
           && s'.chain == s.chain + [data.block])
  {
    if data.Complete? {
      AcceptedExactly(h, target, s.chain, data.block);
    }
  }

  /** What a message does to the node, in its own fields: the hash is marked in any case, and the chain
      grows by the block exactly if it is new, complete, proven, above the tip and linked to it. */
  lemma ReceiveInFields(h: Hashing, target: string, s: NodeState, data: Wire)
    requires s.chain != []
    ensures var (s', tip) := (Receive(h, target, s, data).0, s.chain[|s.chain| - 1]);
      var grows := data.Complete? && data.block.hash !in s.seen
        && target <= data.block.hash && data.block.hash == h.sha(h.blockText(data.block.content))
        && data.block.content.index > tip.content.index && data.block.content.previousHash == tip.hash;
      && s'.seen == s.seen + {if data.Complete? then data.block.hash else data.hash}
      && s'.chain == (if grows then s.chain + [data.block] else s.chain)
      && (!grows ==> s'.pending == s.pending)
  {
    if data.Complete? {
      VerdictInFields(h, target, s.chain, data.block);
    }
  }

  /** The documented promise "a rejected block triggers a sync" is met exactly by unseen, complete
      blocks that are proven and above the tip. */
  lemma RejectionSyncsExactly(h: Hashing, target: string, s: NodeState, data: Wire, sender: string)
    requires s.chain != []
    ensures var handled := Receive(h, target, s, data).1;
      (handled != Judged(Accepted) ==> Starts(handled, data, sender) == SyncThread) <==>
        && data.Complete? && data.block.hash !in s.seen
        && ProofHolds(h, target, data.block)
        && Last(s.chain).content.index < data.block.content.index
  {
    SyncStartsExactly(h, target, s, data, sender);
  }

  /** A rejected block without a sync: a rival of the tip, at the same height on another fork. */
  lemma RivalRejectedSilently(h: Hashing, target: string, tip: BlockDict, rival: BlockDict, sender: string)
    requires rival.content.index == tip.content.index && rival != tip
    ensures var (s', handled) := Receive(h, target, NodeState([tip], [], {}), Complete(rival));
      && s' == NodeState([tip], [], {rival.hash}) && handled != Judged(Accepted)
      && Starts(handled, Complete(rival), sender) == NoThread
  {
    assert Last([tip]) == tip;
  }

  /** The messages `_dispatch` knows; an absent address, block, transaction or chunk hash is None. */
  datatype Message =
    | Hello(addr: Option<string>)
    | GetChain
    | ChainMsg(chain: seq<Wire>)
    | NewBlock(block: Option<Wire>)
    | NewTxMsg(tx: Option<Tx>)
    | GetChunk(chunkHash: Option<string>)
    | GetPeers
    | OtherMsg

  datatype Reply =
    | HelloAck(nodeId: string, peers: set<string>, height: nat)
    | ChainReply(chain: Chain, height: nat)
    | Chunk(chunkHash: string, data: Bytes)
    | ChunkNotFound(wanted: Option<string>)
    | Peers(peers: set<string>)

  class P2PNode {
    const nodeId: string
    const blockchain: CloudBlockchain
    var peers: set<string>
    var seenBlockHashes: set<string>
    var chunkStore: map<string, Bytes>

    ghost predicate Valid()
      reads this, blockchain, blockchain.chain
    {
      blockchain.Valid()
    }

    ghost function State(): (s: NodeState)
      reads this, blockchain, blockchain.chain
      ensures Valid() ==> s.chain != []
    {
      NodeState(blockchain.Dicts(), blockchain.pendingTransactions, seenBlockHashes)
    }

    ghost function H(): Hashing {
      blockchain.hashing
    }

    ghost function Goal(): string {
      blockchain.pow.target
    }

    constructor (nodeId: string, h: Hashing, difficulty: nat, now: real)
      ensures Valid() && fresh(blockchain) && H() == h && Goal() == Target(difficulty)
      ensures |State().chain| == 1 && State().pending == [] && State().seen == {}
      ensures peers == {} && chunkStore == map[]
    {
      var ledger := new CloudBlockchain(h, difficulty, now);
      this.nodeId := nodeId;
      this.blockchain := ledger;
      this.peers := {};
      this.seenBlockHashes := {};
      this.chunkStore := map[];
    }

    /** `store_chunk` */
    method StoreChunk(chunkHash: string, data: Bytes)
      modifies this`chunkStore
      ensures chunkStore == old(chunkStore)[chunkHash := data]
    {
      chunkStore := chunkStore[chunkHash := data];
    }

    /** `_dispatch`: what each message does to the ledger and the peer set, what it answers and
        which thread it leaves behind. A longer chain with a missing key raises. */
    method Dispatch(msg: Message, sender: string, now: real) returns (r: Result<Option<Reply>>, started: Thread)
      requires Valid()
      modifies this`peers, this`seenBlockHashes, blockchain`chain, blockchain`pendingTransactions
      ensures Valid()
      ensures r.Ok? && r.value.Some? <==> msg.Hello? || msg.GetChain? || msg.GetChunk? || msg.GetPeers?
      ensures r.Raised? <==> msg.ChainMsg? && ReplaceAnswer(H(), Goal(), old(State()).chain, msg.chain).Raised?
      ensures peers == old(peers) + if msg.Hello? then {if msg.addr.Some? then msg.addr.value else sender} else {}
      ensures match msg
        case Hello(_) => r == Ok(Some(HelloAck(nodeId, peers, |State().chain|)))
        case GetChain => r == Ok(Some(ChainReply(State().chain, |State().chain|)))
        case GetPeers => r == Ok(Some(Peers(peers)))
        case GetChunk(chunkHash) =>
          r == Ok(Some(if chunkHash.Some? && chunkHash.value in chunkStore
                       then Chunk(chunkHash.value, chunkStore[chunkHash.value])
                       else ChunkNotFound(chunkHash)))
        case _ => true
      ensures match msg
        case ChainMsg(wires) => Step(H(), Goal(), old(State()), RecvChain(wires), State())
        case NewBlock(Some(data)) => State() == Receive(H(), Goal(), old(State()), data).0
        case NewTxMsg(Some(tx)) => Step(H(), Goal(), old(State()), NewTx(tx), State())
        case _ => State() == old(State())
      ensures started == match msg
        case NewBlock(Some(data)) => Starts(Receive(H(), Goal(), old(State()), data).1, data, sender)
        case _ => NoThread
    {
      started := NoThread;
      match msg {
        case Hello(addr) =>
          var peerAddr := Or(addr, sender);
          peers := peers + {peerAddr};
          return Ok(Some(HelloAck(nodeId, peers, |blockchain.chain|))), started;
        case GetChain =>
          var c, height := HandleGetChain();
          return Ok(Some(ChainReply(c, height))), started;
        case ChainMsg(wires) =>
          var replaced := HandleChain(wires, now);
          if replaced.Raised? {
            return Raised(KeyError), started;
          }
        case NewBlock(Some(data)) =>
          var handled;
          handled, started := ReceiveBlock(data, sender, now);
        case NewTxMsg(Some(tx)) =>
          HandleNewTx(tx);
        case GetChunk(chunkHash) =>
          if chunkHash.Some? && chunkHash.value in chunkStore {
            return Ok(Some(Chunk(chunkHash.value, chunkStore[chunkHash.value]))), started;
          }
          return Ok(Some(ChunkNotFound(chunkHash))), started;
        case GetPeers =>
          return Ok(Some(Peers(peers))), started;
        case _ =>
      }
      return Ok(None), started;
    }

    /** CHAIN: under the lock, try to take the chain over. */
    method HandleChain(incoming: seq<Wire>, now: real) returns (r: Result<bool>)
      requires Valid()
      modifies blockchain`chain
      ensures Valid() && Step(H(), Goal(), old(State()), RecvChain(incoming), State())
      ensures r == ReplaceAnswer(H(), Goal(), old(State()).chain, incoming)
    {
      r := blockchain.ReplaceChain(incoming, now);
    }

    /** GET_CHAIN: the chain as dictionaries. */
    method HandleGetChain() returns (c: Chain, height: nat)
      requires Valid()
      ensures c == State().chain && height == |c|
    {
      c := blockchain.Dicts();
      height := |blockchain.chain|;
    }

    /** NEW_TX: under the lock, queue it unless a pending entry matches. */
    method HandleNewTx(tx: Tx)
      requires Valid()
      modifies blockchain`pendingTransactions
      ensures Valid() && Step(H(), Goal(), old(State()), NewTx(tx), State())
    {
      var already := false;
      var pending := blockchain.pendingTransactions;
      for i := 0 to |pending|
        invariant already <==> exists k :: 0 <= k < i && SameEntry(pending[k], tx)
      {
        if SameEntry(pending[i], tx) {
          already := true;
        }
      }
      if !already {
        var expected := blockchain.AddTransaction(tx);
      }
    }

    /** `submit_transaction`: always queued. */
    method SubmitTransaction(tx: Tx)
      requires Valid()
      modifies blockchain`pendingTransactions
      ensures Valid() && Step(H(), Goal(), old(State()), Submit(tx), State())
    {
      var expected := blockchain.AddTransaction(tx);
    }

    /** The locked part of the mining loop, then the unlocked marking of the new hash. */
    method MineOnce(rewardTime: real, blockTime: real) returns (r: Result<Block>)
      requires Valid()
      requires blockchain.pendingTransactions != [] ==>
        exists n: nat :: GoodNonce(H(), Goal(),
          NextContent(H(), State().chain, State().pending, RewardTx(nodeId, rewardTime), blockTime, 0), n)
      modifies this`seenBlockHashes, blockchain`chain, blockchain`pendingTransactions
      ensures Valid()
      ensures Step(H(), Goal(), old(State()), Mine(RewardTx(nodeId, rewardTime), blockTime),
                   State().(seen := old(seenBlockHashes)))
      ensures seenBlockHashes == old(seenBlockHashes) + if r.Ok? then {Last(State().chain).hash} else {}
      ensures r.Ok? <==> old(State()).pending != []
    {
      r := blockchain.MinePendingTransactions(nodeId, rewardTime, blockTime);
      if r.Ok? {
        seenBlockHashes := seenBlockHashes + {r.value.hash};
        assert State().chain == old(State()).chain + [r.value.ToDict()];
      }
    }

    /** The unlocked start of `_receive_block`: true if the hash was seen before. */
    method CheckAndMark(hash: string) returns (duplicate: bool)
      requires Valid()
      modifies this`seenBlockHashes
      ensures duplicate <==> hash in old(seenBlockHashes)
      ensures duplicate ==> seenBlockHashes == old(seenBlockHashes)
      ensures Step(H(), Goal(), old(State()), MarkSeen(hash), State())
    {
      duplicate := hash in seenBlockHashes;
      if !duplicate {
        seenBlockHashes := seenBlockHashes + {hash};
      }
    }

    /** The non-empty file hashes of a block's transactions. */
    method Confirmed(txs: seq<Tx>) returns (hashes: set<string>)
      ensures hashes == ConfirmedHashes(txs)
    {
      hashes := {};
      for i := 0 to |txs|
        invariant hashes == ConfirmedHashes(txs[..i])
      {
        assert txs[..i + 1] == txs[..i] + [txs[i]];
        if txs[i].fileHash.Some? && txs[i].fileHash.value != "" {
          hashes := hashes + {txs[i].fileHash.value};
        }
      }
      assert txs[..|txs|] == txs;
    }

    /** The list comprehension that drops confirmed transactions. */
    method DropConfirmed(pending: seq<Tx>, confirmed: set<string>) returns (kept: seq<Tx>)
      ensures kept == Unconfirmed(pending, confirmed)
    {
      kept := [];
      for i := 0 to |pending|
        invariant kept == Unconfirmed(pending[..i], confirmed)
      {
        assert pending[..i + 1][..i] == pending[..i];
        if Survives(pending[i], confirmed) {
          kept := kept + [pending[i]];
        }
      }
      assert pending[..|pending|] == pending;
    }

    /** The locked part of `_receive_block`. */
    method AcceptLocked(candidate: Block) returns (verdict: Verdict)
      requires Valid() && candidate.hashing == H()
      modifies blockchain`chain, blockchain`pendingTransactions
      ensures Valid()
      ensures verdict == Judge(H(), Goal(), old(State()).chain, old(candidate.ToDict()))
      ensures Step(H(), Goal(), old(State()), Lock(old(candidate.ToDict())), State())
    {
      var last := blockchain.LastBlock();
      assert last.ToDict() == Last(State().chain);
      if !blockchain.pow.IsValidProof(candidate) {
        return BadProof;
      }
      if candidate.index <= last.index {
        return Stale;
      }
      if candidate.previousHash != last.hash {
        return NoLink;
      }
      blockchain.chain := blockchain.chain + [candidate];
      var confirmed := Confirmed(candidate.transactions);
      blockchain.pendingTransactions := DropConfirmed(blockchain.pendingTransactions, confirmed);
      assert State().chain == old(State()).chain + [candidate.ToDict()];
      return Accepted;
    }

    /** NEW_BLOCK from start to end, with the thread it leaves behind. */
    method ReceiveBlock(data: Wire, sender: string, now: real) returns (handled: Handled, started: Thread)
      requires Valid()
      modifies this`seenBlockHashes, blockchain`chain, blockchain`pendingTransactions
      ensures Valid()
      ensures (State(), handled) == Receive(H(), Goal(), old(State()), data)
      ensures started == Starts(handled, data, sender)
    {
      var hash := if data.Complete? then data.block.hash else data.hash;
      var duplicate := CheckAndMark(hash);
      if duplicate {
        assert seenBlockHashes == old(seenBlockHashes);
        return Duplicate, NoThread;
      }
      var candidate := Block.FromDict(blockchain.hashing, data, now);
      if candidate.Raised? {
        return Undecodable, NoThread;
      }
      var verdict := AcceptLocked(candidate.value);
      handled := Judged(verdict);
      if verdict.BadProof? || verdict.Stale? {
        return handled, NoThread;
      }
      if verdict.Accepted? {
        return handled, GossipThread(data.block, sender);
      }
      return handled, SyncThread;
    }

    /** Forward to every peer but the origin; peers that do not answer are dropped. */
    method GossipBlock(origin: string, answering: set<string>) returns (sentTo: set<string>)
      modifies this`peers
      ensures sentTo == old(peers) - {origin}
      ensures peers == old(peers) - (sentTo - answering)
    {
      var todo, dead := peers, {};
      sentTo := {};
      while todo != {}
        invariant todo <= peers && peers == old(peers)
        invariant sentTo == peers - todo - {origin}
        invariant dead == sentTo - answering
        decreases todo
      {
        var peer :| peer in todo;
        todo := todo - {peer};
        if peer != origin {
          sentTo := sentTo + {peer};
          if peer !in answering {
            dead := dead + {peer};
          }
        }
      }
      peers := peers - dead;
    }

    /** Offer every peer's response to `replace_chain`, in order. A KeyError ends the loop. */
    method SyncChain(responses: seq<Option<seq<Wire>>>, now: real)
      requires Valid()
      modifies blockchain`chain
      ensures Valid()
      ensures State() == old(State()).(chain := Sync(H(), Goal(), old(State()).chain, responses))
    {
      for i := 0 to |responses|
        invariant Valid() && blockchain.pendingTransactions == old(blockchain.pendingTransactions)
        invariant seenBlockHashes == old(seenBlockHashes)
        invariant Sync(H(), Goal(), State().chain, responses[i..]) == Sync(H(), Goal(), old(State()).chain, responses)
      {
        assert responses[i..][1..] == responses[i + 1..];
        match responses[i] {
          case None =>
          case Some(wires) =>
            var replaced := blockchain.ReplaceChain(wires, now);
            if replaced.Raised? {
              return;
            }
        }
      }
    }
  }
}

/** The flooding model takes exactly the steps of `_receive_block` and `_gossip_block`. */
module GossipLink {
  import opened Ledger
  import opened Node
  import opened P2P
  import Gossip

  /** The addresses that node numbers stand for. */
  ghost function Addresses(nodes: set<nat>, addr: nat -> string): set<string> {
    set p | p in nodes :: addr(p)
  }

  /** Whom the gossip thread sends to, and the peers left once the silent ones are dropped. */
  ghost function Targets(peers: set<nat>, addr: nat -> string, started: Thread): set<nat> {
    if started.GossipThread? then set p | p in peers && addr(p) != started.origin else {}
  }

  ghost function Kept(peers: set<nat>, addr: nat -> string, started: Thread, answering: set<string>): set<nat> {
    set p | p in peers && (p in Targets(peers, addr, started) ==> addr(p) in answering)
  }

  /** Both are what the method `GossipBlock` promises. */
  lemma TargetsAreGossiped(peers: set<nat>, addr: nat -> string, started: Thread, answering: set<string>)
    requires started.GossipThread?
    ensures Addresses(Targets(peers, addr, started), addr) == Addresses(peers, addr) - {started.origin}
    ensures Addresses(Kept(peers, addr, started, answering), addr)
         == Addresses(peers, addr) - (Addresses(Targets(peers, addr, started), addr) - answering)
  {
    var ps, ts := Addresses(peers, addr), Addresses(Targets(peers, addr, started), addr);
    forall a | a in ps - {started.origin} ensures a in ts {
      var p :| p in peers && addr(p) == a;
      assert p in Targets(peers, addr, started);
    }
  }

  /** Handling a delivered block is one step of the flooding model: the hash is checked and added
      at once, and copies go to the targets of the gossip thread if one starts. */
  lemma DeliveryIsGossipStep(h: Hashing, target: string, flood: Gossip.Flood, s: NodeState, n: nat, b: BlockDict,
                             addr: nat -> string, sender: string, answering: set<string>)
    requires s.chain != [] && n < |flood.seen| && n < |flood.peers| && flood.seen[n] == s.seen
    requires (n, b.hash) in flood.inFlight
    ensures var (s', handled) := Receive(h, target, s, Complete(b));
      var started := Starts(handled, Complete(b), sender);
      var targets := Targets(flood.peers[n], addr, started);
      Gossip.Step(flood, (n, b.hash), targets, false,
        Gossip.Flood(flood.peers[n := Kept(flood.peers[n], addr, started, answering)],
                     flood.seen[n := s'.seen],
                     flood.inFlight - multiset{(n, b.hash)} + Gossip.Copies(targets, b.hash),
                     flood.sent[b.hash := flood.sent[b.hash] + |targets|]))
  {
    var started := Starts(Receive(h, target, s, Complete(b)).1, Complete(b), sender);
    assert b.hash in s.seen ==> Targets(flood.peers[n], addr, started) == {};
    assert Gossip.Copies({}, b.hash) == multiset{};
  }
}

/** The mutable objects of the ledger, each method proved against the value-level functions. */
module Blockchain {
  import opened Bytes
  import opened MerkleTree
  import opened Ledger
  import opened Access
  import Conservation

  class Block {
    const hashing: Hashing
    var index: int
    var timestamp: real
    var transactions: seq<Tx>
    var previousHash: string
    var nonce: int
    var merkleRoot: string
    var hash: string

    function Content(): Content
      reads this
    {
      Ledger.Content(index, timestamp, transactions, previousHash, nonce, merkleRoot)
    }

    function ComputeHash(): string
      reads this
    {
      BlockHash(hashing, Content())
    }

    function ToDict(): BlockDict
      reads this
    {
      BlockDict(Content(), hash)
    }

    /** `now` is the reading of the clock. */
    constructor (h: Hashing, index: int, transactions: seq<Tx>, previousHash: string, nonce: int, now: real)
      ensures hashing == h
      ensures Content() == Ledger.Content(index, now, transactions, previousHash, nonce, MerkleRoot(h, transactions))
      ensures hash == ComputeHash()
    {
      var root := ComputeMerkleRoot(h, transactions);
      var c := Ledger.Content(index, now, transactions, previousHash, nonce, root);
      this.hashing := h;
      this.index := index;
      this.timestamp := now;
      this.transactions := transactions;
      this.previousHash := previousHash;
      this.nonce := nonce;
      this.merkleRoot := root;
      this.hash := BlockHash(h, c);
    }

    static method ComputeMerkleRoot(h: Hashing, transactions: seq<Tx>) returns (root: string)
      ensures root == MerkleRoot(h, transactions)
    {
      if transactions == [] {
        return h.sha("empty");
      }
      var levels;
      root, levels := RootLoop(NodeHash(h), Leaves(h, transactions));
    }

    /** A missing key is a KeyError; otherwise the object carries exactly the dictionary's fields,
        the recomputed timestamp, Merkle root and hash being overwritten. */
    static method FromDict(h: Hashing, data: Wire, now: real) returns (r: Result<Block>)
      ensures r.Ok? <==> data.Complete?
      ensures r.Raised? ==> r.error == KeyError
      ensures r.Ok? ==> fresh(r.value) && r.value.hashing == h && r.value.ToDict() == data.block
    {
      if data.Malformed? {
        return Raised(KeyError);
      }
      var c := data.block.content;
      var block := new Block(h, c.index, c.transactions, c.previousHash, c.nonce, now);
      block.timestamp := c.timestamp;
      block.merkleRoot := c.merkleRoot;
      block.hash := data.block.hash;
      return Ok(block);
    }
  }

  class ProofOfWork {
    const difficulty: nat
    const target: string

    constructor (difficulty: nat)
      ensures this.difficulty == difficulty && target == Target(difficulty)
    {
      this.difficulty := difficulty;
      this.target := Target(difficulty);
    }

    /** The nonce search; it ends when some nonce is good, and then at the least one. */
    method Mine(block: Block) returns (nonce: int)
      requires exists n: nat :: GoodNonce(block.hashing, target, block.Content(), n)
      modifies block`nonce, block`hash
      ensures MinedFrom(block.hashing, target, old(block.Content()), block.ToDict())
      ensures nonce == block.nonce
    {
      ghost var h, c := block.hashing, block.Content();
      ghost var good: nat :| GoodNonce(h, target, c, good);
      block.nonce := 0;
      while !(target <= block.ComputeHash())
        invariant 0 <= block.nonce <= good
        invariant block.Content() == c.(nonce := block.nonce)
        invariant forall n: nat :: n < block.nonce ==> !GoodNonce(h, target, c, n)
        decreases good - block.nonce
      {
        assert block.nonce != good;
        block.nonce := block.nonce + 1;
      }
      block.hash := block.ComputeHash();
      nonce := block.nonce;
    }

    predicate IsValidProof(block: Block)
      reads block
    {
      target <= block.hash && block.hash == block.ComputeHash()
    }
  }

  class CloudBlockchain {
    const hashing: Hashing
    const pow: ProofOfWork
    var chain: seq<Block>
    var pendingTransactions: seq<Tx>

    /** The chain as a value: one dictionary per block. */
    function Dicts(): (c: Chain)
      reads this, chain
      ensures |c| == |chain| && forall i :: 0 <= i < |c| ==> c[i] == chain[i].ToDict()
    {
      seq(|chain|, i requires 0 <= i < |chain| reads this, chain => chain[i].ToDict())
    }

    /** The transactions, block by block. */
    function BlockTxs(): (b: Blocks)
      reads this, chain
      ensures |b| == |chain| && forall i :: 0 <= i < |b| ==> b[i] == chain[i].transactions
    {
      seq(|chain|, i requires 0 <= i < |chain| reads this, chain => chain[i].transactions)
    }

    /** The ledger as module Conservation sees it. */
    ghost function Account(): Conservation.LedgerState
      reads this, chain
    {
      Conservation.LedgerState(Dicts(), pendingTransactions)
    }

    ghost predicate Valid()
      reads this, chain
    {
      chain != [] && forall i :: 0 <= i < |chain| ==> chain[i].hashing == hashing
    }

    /** A new ledger holds only its own genesis block. */
    constructor (h: Hashing, difficulty: nat, now: real)
      ensures Valid() && hashing == h && pow.target == Target(difficulty)
      ensures fresh(chain) && pendingTransactions == []
      ensures |Dicts()| == 1
      ensures Dicts()[0].content == Ledger.Content(0, now, [], ZeroHash(), 0, MerkleRoot(h, []))
      ensures Dicts()[0].hash == BlockHash(h, Dicts()[0].content)
    {
      var genesis := new Block(h, 0, [], ZeroHash(), 0, now);
      var proof := new ProofOfWork(difficulty);
      hashing := h;
      pow := proof;
      chain := [genesis];
      pendingTransactions := [];
    }

    function LastBlock(): Block
      requires chain != []
      reads this
    {
      chain[|chain| - 1]
    }

    /** Queue a transaction; the answer is the expected block index. */
    method AddTransaction(tx: Tx) returns (expected: int)
      requires Valid()
      modifies this`pendingTransactions
      ensures Valid() && chain == old(chain)
      ensures Conservation.Step(hashing, pow.target, old(Account()), Conservation.Add(tx), Account())
      ensures expected == Last(Dicts()).content.index + 1
    {
      pendingTransactions := pendingTransactions + [tx];
      expected := LastBlock().index + 1;
    }

    /** Mine everything pending plus a reward into one block at the tip. With nothing pending it
        is a ValueError. A good nonce is taken to exist; the search does not end otherwise. */
    method MinePendingTransactions(minerId: string, rewardTime: real, blockTime: real) returns (r: Result<Block>)
      requires Valid()
      requires pendingTransactions != [] ==>
        exists n: nat :: GoodNonce(hashing, pow.target,
          NextContent(hashing, Dicts(), pendingTransactions, RewardTx(minerId, rewardTime), blockTime, 0), n)
      modifies this`chain, this`pendingTransactions
      ensures Valid()
      ensures r == Raised(ValueError) <==> old(pendingTransactions) == []
      ensures r.Raised? ==> r.error == ValueError
      ensures r.Ok? ==> fresh(r.value) && chain == old(chain) + [r.value] && r.value.ToDict() == Last(Dicts())
      ensures Conservation.Step(hashing, pow.target, old(Account()),
                                Conservation.MineAll(minerId, rewardTime, blockTime), Account())
    {
      if pendingTransactions == [] {
        return Raised(ValueError);
      }
      var rewardTx := RewardTx(minerId, rewardTime);
      var txs := pendingTransactions + [rewardTx];
      var newBlock := new Block(hashing, |chain|, txs, LastBlock().hash, 0, blockTime);
      var nonce := pow.Mine(newBlock);
      chain := chain + [newBlock];
      pendingTransactions := [];
      assert Dicts() == old(Dicts()) + [newBlock.ToDict()];
      Conservation.MinedIsStep(hashing, pow.target, old(Account()), minerId, rewardTime, blockTime, newBlock.ToDict());
      return Ok(newBlock);
    }

    // ---- Validation and consensus -----------------------------------------------------------

    /** The loop of `is_valid` over any list of blocks. */
    method ChainIsValid(blocks: seq<Block>) returns (valid: bool)
      requires forall i :: 0 <= i < |blocks| ==> blocks[i].hashing == hashing
      ensures valid <==> forall i :: 1 <= i < |blocks| ==>
        LinkHolds(hashing, pow.target, blocks[i - 1].ToDict(), blocks[i].ToDict())
    {
      var i := 1;
      while i < |blocks|
        invariant 1 <= i
        invariant forall j :: 1 <= j < i && j < |blocks| ==>
          LinkHolds(hashing, pow.target, blocks[j - 1].ToDict(), blocks[j].ToDict())
      {
        var current, previous := blocks[i], blocks[i - 1];
        if current.hash != current.ComputeHash() {
          return false;
        }
        if current.previousHash != previous.hash {
          return false;
        }
        if !pow.IsValidProof(current) {
          return false;
        }
        i := i + 1;
      }
      return true;
    }

    method IsValid() returns (valid: bool)
      requires Valid()
      ensures valid <==> ValidChain(hashing, pow.target, Dicts())
    {
      valid := ChainIsValid(chain);
    }

    /** Adopt a strictly longer chain that decodes and passes `is_valid`; keep ours otherwise. */
    method ReplaceChain(newChain: seq<Wire>, now: real) returns (r: Result<bool>)
      requires Valid()
      modifies this`chain
      ensures Valid()
      ensures r == ReplaceAnswer(hashing, pow.target, old(Dicts()), newChain)
      ensures Dicts() == Replace(hashing, pow.target, old(Dicts()), newChain)
      ensures r != Ok(true) ==> chain == old(chain)
    {
      if |newChain| <= |chain| {
        return Ok(false);
      }
      var candidate := DecodeAll(newChain, now);
      if candidate.Raised? {
        return Raised(KeyError);
      }
      var valid := ChainIsValid(candidate.value);
      assert valid <==> ValidChain(hashing, pow.target, BlocksOf(newChain));
      if !valid {
        return Ok(false);
      }
      chain := candidate.value;
      assert Dicts() == BlocksOf(newChain);
      return Ok(true);
    }

    /** The `from_dict` loop of `replace_chain`; the first malformed block stops it. */
    method DecodeAll(wires: seq<Wire>, now: real) returns (r: Result<seq<Block>>)
      ensures r.Ok? <==> forall i :: 0 <= i < |wires| ==> wires[i].Complete?
      ensures r.Raised? ==> r.error == KeyError
      ensures r.Ok? ==> |r.value| == |wires| && forall i :: 0 <= i < |wires| ==>
        r.value[i].hashing == hashing && r.value[i].ToDict() == wires[i].block
    {
      var candidate: seq<Block> := [];
      for k := 0 to |wires|
        invariant |candidate| == k
        invariant forall i :: 0 <= i < k ==> wires[i].Complete?
        invariant forall i :: 0 <= i < k ==>
          candidate[i].hashing == hashing && candidate[i].ToDict() == wires[i].block
      {
        var block := Block.FromDict(hashing, wires[k], now);
        if block.Raised? {
          return Raised(KeyError);
        }
        candidate := candidate + [block.value];
      }
      return Ok(candidate);
    }

    // ---- Queries ----------------------------------------------------------------------------

    method GetFileMetadata(file: string) returns (meta: Option<Tx>)
      requires Valid()
      ensures meta == Metadata(BlockTxs(), file)
    {
      ghost var blocks := BlockTxs();
      var i := |chain|;
      assert blocks[..i] == blocks;
      while i > 0
        invariant 0 <= i <= |chain|
        invariant Metadata(blocks, file) == Metadata(blocks[..i], file)
      {
        i := i - 1;
        assert blocks[..i + 1][..i] == blocks[..i];
        var txs := chain[i].transactions;
        var j := 0;
        while j < |txs|
          invariant 0 <= j <= |txs|
          invariant FirstUpload(txs, file) == FirstUpload(txs[j..], file)
        {
          if IsUpload(txs[j], file) {
            return Some(txs[j]);
          }
          j := j + 1;
        }
      }
      return None;
    }

    /** The first loop of `check_access`. */
    method AnyDelete(file: string) returns (found: bool)
      requires Valid()
      ensures found <==> Deleted(Concat(BlockTxs()), file)
    {
      ghost var blocks := BlockTxs();
      ghost var txs := Concat(blocks);
      var i := |chain|;
      while i > 0
        invariant 0 <= i <= |chain|
        invariant !Deleted(Concat(blocks[i..]), file)
      {
        i := i - 1;
        var inBlock := chain[i].transactions;
        assert blocks[i..] == [blocks[i]] + blocks[i + 1..];
        assert Concat(blocks[i..]) == inBlock + Concat(blocks[i + 1..]);
        for j := 0 to |inBlock|
          invariant forall k :: 0 <= k < j ==> !IsDelete(inBlock[k], file)
        {
          if IsDelete(inBlock[j], file) {
            DeletedInBlock(blocks, i, j, file);
            return true;
          }
        }
      }
      assert blocks[0..] == blocks;
      return false;
    }

    /** `clock(k)` is the reading taken at the k-th transaction of the chain. */
    method CheckAccess(user: string, file: string, clock: Clock) returns (hasAccess: bool)
      requires Valid()
      ensures hasAccess == CheckSpec(Concat(BlockTxs()), user, file, clock)
    {
      var deleted := AnyDelete(file);
      if deleted {
        return false;
      }
      hasAccess := ReplayChain(user, file, clock);
    }

    /** The second loop of `check_access`. */
    method ReplayChain(user: string, file: string, clock: Clock) returns (hasAccess: bool)
      requires Valid()
      ensures hasAccess == Replay(false, Concat(BlockTxs()), user, file, clock)
    {
      ghost var blocks := BlockTxs();
      hasAccess := false;
      var start := 0;
      for i := 0 to |chain|
        invariant start == |Concat(blocks[..i])|
        invariant hasAccess == Replay(false, Concat(blocks[..i]), user, file, clock)
      {
        hasAccess := ReplayBlock(hasAccess, Concat(blocks[..i]), start, chain[i].transactions, user, file, clock);
        start := start + |chain[i].transactions|;
        ConcatSnoc(blocks[..i], blocks[i]);
        assert blocks[..i + 1] == blocks[..i] + [blocks[i]];
      }
      assert blocks[..|chain|] == blocks;
    }

    /** The inner loop of the replay: one block, after the transactions `before`, `start` many. */
    static method ReplayBlock(has: bool, ghost before: seq<Tx>, start: nat, txs: seq<Tx>,
          user: string, file: string, clock: Clock)
        returns (hasAccess: bool)
      requires start == |before|
      requires has == Replay(false, before, user, file, clock)
      ensures hasAccess == Replay(false, before + txs, user, file, clock)
    {
      hasAccess := has;
      assert before + txs[..0] == before;
      for j := 0 to |txs|
        invariant hasAccess == Replay(false, before + txs[..j], user, file, clock)
      {
        var tx := txs[j];
        assert before + txs[..j + 1] == (before + txs[..j]) + [tx];
        ReplaySnoc(before + txs[..j], tx, user, file, clock);
        if Concerns(tx, file) {
          var now := clock(start + j);
          match tx.kind
          case Upload =>
            if tx.owner == Some(user) {
              hasAccess := true;
            }
            if user in ListOf(tx) {
              hasAccess := true;
            }
          case Grant =>
            if tx.targetUser == Some(user) {
              hasAccess := tx.expiresAt.None? || now < tx.expiresAt.value;
            }
          case Revoke =>
            if tx.targetUser == Some(user) {
              hasAccess := false;
            }
          case _ =>
        }
      }
      assert txs[..|txs|] == txs;
    }

    /** The users with access, in no particular order. */
    method GetAccessList(file: string) returns (access: set<string>)
      requires Valid()
      ensures access == ListSpec(BlockTxs(), file)
    {
      var meta := GetFileMetadata(file);
      if meta.None? {
        return {};
      }
      ghost var blocks, base := BlockTxs(), BaseAccess(meta.value);
      access := BaseAccess(meta.value);
      for i := 0 to |chain|
        invariant access == AccessFold(base, Concat(blocks[..i]), file)
      {
        access := AccessBlock(access, base, Concat(blocks[..i]), chain[i].transactions, file);
        ConcatSnoc(blocks[..i], blocks[i]);
        assert blocks[..i + 1] == blocks[..i] + [blocks[i]];
      }
      assert blocks[..|chain|] == blocks;
    }

    static method AccessBlock(current: set<string>, ghost base: set<string>, ghost before: seq<Tx>,
          txs: seq<Tx>, file: string)
        returns (access: set<string>)
      requires current == AccessFold(base, before, file)
      ensures access == AccessFold(base, before + txs, file)
    {
      access := current;
      assert before + txs[..0] == before;
      for j := 0 to |txs|
        invariant access == AccessFold(base, before + txs[..j], file)
      {
        var tx := txs[j];
        assert before + txs[..j + 1] == (before + txs[..j]) + [tx];
        FoldSnoc(base, before + txs[..j], tx, file);
        if Concerns(tx, file) {
          if tx.kind.Grant? {
            access := access + {Or(tx.targetUser, "")};
          } else if tx.kind.Revoke? {
            access := access - {Or(tx.targetUser, "")};
          }
        }
      }
      assert txs[..|txs|] == txs;
    }
  }

  lemma {:induction false} DeletedInBlock(blocks: Blocks, i: nat, j: nat, file: string)
    requires i < |blocks| && j < |blocks[i]| && IsDelete(blocks[i][j], file)
    ensures Deleted(Concat(blocks), file)
  {
    if i == 0 {
      assert Concat(blocks)[j] == blocks[0][j];
    } else {
      DeletedInBlock(blocks[1..], i - 1, j, file);
      var rest := Concat(blocks[1..]);
      var k :| 0 <= k < |rest| && IsDelete(rest[k], file);
      assert Concat(blocks)[|blocks[0]| + k] == rest[k];
    }
  }
}

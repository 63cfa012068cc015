/** The end of an upload: the stored file is entered in the ledger, and who may read it then. */
module UploadLedger {
  import opened Bytes
  import opened Ledger
  import opened Access
  import opened Blockchain
  import opened Conservation
  import T = Transfer

  /** `make_upload_tx` with the arguments of `handle_upload_done`; `rest` holds the other keys. */
  function UploadTx(owner: string, fileHash: string, now: real, rest: string): Tx {
    Tx(Upload, Some(fileHash), Some(owner), Some([]), None, None, Some(now), None, rest)
  }

  /** The entry is an UPLOAD of the file by its owner, shared with nobody. */
  lemma UploadTxInFields(owner: string, fileHash: string, now: real, rest: string)
    ensures var tx := UploadTx(owner, fileHash, now, rest);
      && tx.kind == Upload && tx.fileHash == Some(fileHash) && tx.owner == Some(owner)
      && tx.accessList == Some([]) && tx.targetUser == None && tx.expiresAt == None
      && tx.timestamp == Some(now) && tx.miner == None && tx.rest == rest
  {}

  /** The clock readings and the unread keys of the new entry. */
  datatype Stamp = Stamp(txTime: real, rewardTime: real, blockTime: real, rest: string)

  /** The transactions of the block mined for an upload. */
  function UploadBlockTxs(pending: seq<Tx>, owner: string, fileHash: string, at: Stamp): seq<Tx> {
    pending + [UploadTx(owner, fileHash, at.txTime, at.rest)] + [RewardTx("server", at.rewardTime)]
  }

  lemma DeletedAdd(a: seq<Tx>, b: seq<Tx>, file: string)
    ensures Deleted(a + b, file) <==> Deleted(a, file) || Deleted(b, file)
  {
    if Deleted(a, file) {
      var i :| 0 <= i < |a| && IsDelete(a[i], file);
      assert IsDelete((a + b)[i], file);
    }
    if Deleted(b, file) {
      var i :| 0 <= i < |b| && IsDelete(b[i], file);
      assert IsDelete((a + b)[|a| + i], file);
    }
  }

  /** With the upload's block on top, the uploader passes `check_access` exactly when no DELETE of
      the same content was ever recorded: storing a deleted file again does not give access back. */
  lemma UploaderHasAccess(blocks: Blocks, pending: seq<Tx>, owner: string, fileHash: string, at: Stamp, clock: Clock)
    ensures var txs := Concat(blocks + [UploadBlockTxs(pending, owner, fileHash, at)]);
      CheckSpec(txs, owner, fileHash, clock) <==> !Deleted(Concat(blocks) + pending, fileHash)
  {
    var before := Concat(blocks) + pending;
    var added := [UploadTx(owner, fileHash, at.txTime, at.rest), RewardTx("server", at.rewardTime)];
    ConcatSnoc(blocks, UploadBlockTxs(pending, owner, fileHash, at));
    assert Concat(blocks) + UploadBlockTxs(pending, owner, fileHash, at) == before + added;
    DeletedAdd(before, added, fileHash);
    CheckIsNewest(before + added, owner, fileHash, clock);
    assert Affects((before + added)[|before|], owner, fileHash);
  }

  /** Nobody else's access changes, unless the pool speaks of them. */
  lemma OthersKeepAccess(blocks: Blocks, pending: seq<Tx>, owner: string, fileHash: string, at: Stamp,
        user: string, file: string, clock: Clock)
    requires user != owner || file != fileHash
    requires forall i :: 0 <= i < |pending| ==>
      Silent(pending[i], user, file) && !(pending[i].fileHash == Some(file) && pending[i].kind == Delete)
    ensures CheckSpec(Concat(blocks + [UploadBlockTxs(pending, owner, fileHash, at)]), user, file, clock)
       <==> CheckSpec(Concat(blocks), user, file, clock)
  {
    var added := UploadBlockTxs(pending, owner, fileHash, at);
    ConcatSnoc(blocks, added);
    forall i | 0 <= i < |added|
      ensures Silent(added[i], user, file) && !(added[i].fileHash == Some(file) && added[i].kind == Delete)
    {
      if i < |pending| {
        assert added[i] == pending[i];
      }
    }
    SilentTail(Concat(blocks), added, user, file, clock);
  }

  lemma {:induction false} SilentTail(txs: seq<Tx>, tail: seq<Tx>, user: string, file: string, clock: Clock)
    requires forall i :: 0 <= i < |tail| ==>
      Silent(tail[i], user, file) && !(tail[i].fileHash == Some(file) && tail[i].kind == Delete)
    ensures CheckSpec(txs + tail, user, file, clock) <==> CheckSpec(txs, user, file, clock)
  {
    if tail == [] {
      assert txs + tail == txs;
    } else {
      var n := |tail| - 1;
      SilentTail(txs, tail[..n], user, file, clock);
      assert txs + tail == txs + tail[..n] + [tail[n]];
      ReplaySnoc(txs + tail[..n], tail[n], user, file, clock);
      DeletedAdd(txs + tail[..n], [tail[n]], file);
      assert Silent(tail[n], user, file);
    }
  }

  /** The transactions of a chain of dictionaries. */
  function TxsOf(c: Chain): (b: Blocks)
    ensures |b| == |c| && forall i :: 0 <= i < |b| ==> b[i] == c[i].content.transactions
  {
    seq(|c|, i requires 0 <= i < |c| => c[i].content.transactions)
  }

  /** Submitting and mining appends one block with the pool, the entry and the reward. */
  lemma AddThenMine(h: Hashing, target: string, s: LedgerState, tx: Tx, t: LedgerState, mine: Op, u: LedgerState)
    requires s.chain != [] && t.chain != [] && mine.MineAll?
    requires Step(h, target, s, Add(tx), t) && Step(h, target, t, mine, u)
    ensures u.pending == []
    ensures TxsOf(u.chain) == TxsOf(s.chain) + [s.pending + [tx] + [RewardTx(mine.miner, mine.rewardTime)]]
  {
    MinedExtends(h, target, t.chain, t.pending, RewardTx(mine.miner, mine.rewardTime), mine.blockTime, Last(u.chain));
  }

  /** The block of this entry has a good nonce. */
  ghost predicate Minable(h: Hashing, target: string, s: LedgerState, tx: Tx, miner: string, at: Stamp) {
    s.chain != [] && exists n: nat :: GoodNonce(h, target,
      NextContent(h, s.chain, s.pending + [tx], RewardTx(miner, at.rewardTime), at.blockTime, 0), n)
  }

  /** The two ledger calls under the lock. */
  method Record(ledger: CloudBlockchain, tx: Tx, miner: string, at: Stamp)
    requires ledger.Valid()
    requires Minable(ledger.hashing, ledger.pow.target, ledger.Account(), tx, miner, at)
    modifies ledger
    ensures ledger.Valid() && ledger.Account().pending == []
    ensures TxsOf(ledger.Account().chain) == TxsOf(old(ledger.Account().chain))
      + [old(ledger.Account().pending) + [tx] + [RewardTx(miner, at.rewardTime)]]
  {
    ghost var s := ledger.Account();
    var expected := ledger.AddTransaction(tx);
    ghost var t := ledger.Account();
    var block := ledger.MinePendingTransactions(miner, at.rewardTime, at.blockTime);
    AddThenMine(ledger.hashing, ledger.pow.target, s, tx, t, MineAll(miner, at.rewardTime, at.blockTime),
                ledger.Account());
  }

  /** The whole of DONE: the reassembly, then the entry in the ledger and its block. A good nonce is
      taken to exist for the block of every file. */
  method FinishUpload(server: T.Server, ledger: CloudBlockchain, tid: string, md5: string, owner: string,
        sha: Bytes -> string, at: Stamp)
      returns (r: T.Reply)
    requires ledger.Valid()
    requires forall f :: Minable(ledger.hashing, ledger.pow.target, ledger.Account(),
                                 UploadTx(owner, f, at.txTime, at.rest), "server", at)
    modifies server, ledger
    ensures ledger.Valid()
    ensures (server.State(), r) == T.DoneSpec(server.z, old(server.State()), tid, md5)
    ensures !r.DoneOk? ==> ledger.Account() == old(ledger.Account())
    ensures r.DoneOk? ==>
      && ledger.Account().pending == []
      && TxsOf(ledger.Account().chain) == TxsOf(old(ledger.Account().chain))
           + [UploadBlockTxs(old(ledger.Account().pending), owner, sha(r.data), at)]
  {
    r := server.HandleUploadDone(tid, md5);
    if r.DoneOk? {
      Record(ledger, UploadTx(owner, sha(r.data), at.txTime, at.rest), "server", at);
    }
  }
}

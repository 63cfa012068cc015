/** Transactions, block contents and what makes a chain valid. SHA-256 and the JSON texts it is
    applied to are parameters, so every statement holds for any such functions. */
module Ledger {
  import opened Bytes
  import opened MerkleTree

  datatype Kind = Upload | Delete | Grant | Revoke | UpdateMeta | MiningReward | OtherKind(name: string)

  /** A transaction dictionary: absent keys are None, keys no modelled code reads are in `rest`. */
  datatype Tx = Tx(
    kind: Kind,
    fileHash: Option<string>,
    owner: Option<string>,
    accessList: Option<seq<string>>,
    targetUser: Option<string>,
    expiresAt: Option<real>,
    timestamp: Option<real>,
    miner: Option<string>,
    rest: string)

  /** The six fields a block hash covers. */
  datatype Content = Content(
    index: int,
    timestamp: real,
    transactions: seq<Tx>,
    previousHash: string,
    nonce: int,
    merkleRoot: string)

  /** The dictionary of `to_dict`: the hashed fields and the stored hash. */
  datatype BlockDict = BlockDict(content: Content, hash: string)

  type Chain = seq<BlockDict>

  /** sha: text -> hex digest; txText, blockText: the sorted-key JSON texts. */
  datatype Hashing = Hashing(sha: string -> string, txText: Tx -> string, blockText: Content -> string)

  function BlockHash(h: Hashing, c: Content): string {
    h.sha(h.blockText(c))
  }

  function NodeHash(h: Hashing): Node<string> {
    (a: string, b: string) => h.sha(a + b)
  }

  function Leaves(h: Hashing, txs: seq<Tx>): (r: seq<string>)
    ensures |r| == |txs|
    ensures forall i :: 0 <= i < |txs| ==> r[i] == h.sha(h.txText(txs[i]))
  {
    seq(|txs|, i requires 0 <= i < |txs| => h.sha(h.txText(txs[i])))
  }

  function MerkleRoot(h: Hashing, txs: seq<Tx>): string {
    if txs == [] then h.sha("empty") else TreeRoot(NodeHash(h), Leaves(h, txs))
  }

  /** "0" * difficulty */
  function Target(difficulty: nat): string {
    seq(difficulty, _ => '0')
  }

  /** "0" * 64, the previous hash of a genesis block. */
  function ZeroHash(): string {
    Target(64)
  }

  predicate ProofHolds(h: Hashing, target: string, b: BlockDict) {
    target <= b.hash && b.hash == BlockHash(h, b.content)
  }

  predicate LinkHolds(h: Hashing, target: string, prev: BlockDict, b: BlockDict) {
    b.hash == BlockHash(h, b.content) && b.content.previousHash == prev.hash && ProofHolds(h, target, b)
  }

  /** `is_valid`: every block from position 1 on is hashed, linked and proven. */
  predicate ValidChain(h: Hashing, target: string, c: Chain) {
    forall i :: 1 <= i < |c| ==> LinkHolds(h, target, c[i - 1], c[i])
  }

  function Last(c: Chain): BlockDict
    requires c != []
  {
    c[|c| - 1]
  }

  lemma AppendValid(h: Hashing, target: string, c: Chain, b: BlockDict)
    requires c != [] && ValidChain(h, target, c) && LinkHolds(h, target, Last(c), b)
    ensures ValidChain(h, target, c + [b])
  {
    forall i | 1 <= i < |c| + 1 ensures LinkHolds(h, target, (c + [b])[i - 1], (c + [b])[i]) {
      if i < |c| {
        assert LinkHolds(h, target, c[i - 1], c[i]);
      }
    }
  }

  // ---- Validity in the dictionaries' own fields ---------------------------------------------

  /** Starting with the target is starting with `difficulty` zeros. */
  lemma TargetIsPrefix(difficulty: nat, s: string)
    ensures Target(difficulty) <= s <==> |s| >= difficulty && forall k :: 0 <= k < difficulty ==> s[k] == '0'
  {}

  lemma ZeroHashIs()
    ensures |ZeroHash()| == 64 && forall k :: 0 <= k < 64 ==> ZeroHash()[k] == '0'
  {}

  /** `is_valid_proof` on the stored hash and the text of the contents. */
  lemma ProofInFields(h: Hashing, target: string, b: BlockDict)
    ensures ProofHolds(h, target, b) <==> target <= b.hash && b.hash == h.sha(h.blockText(b.content))
  {}

  /** `is_valid`: every block from position 1 on stores the digest of its whole text, starts with the
      target and names the stored hash before it. */
  lemma ValidInFields(h: Hashing, target: string, c: Chain)
    ensures ValidChain(h, target, c) <==> forall i :: 1 <= i < |c| ==>
      && c[i].hash == h.sha(h.blockText(c[i].content))
      && target <= c[i].hash
      && c[i].content.previousHash == c[i - 1].hash
  {
    if ValidChain(h, target, c) {
      forall i | 1 <= i < |c|
        ensures c[i].hash == h.sha(h.blockText(c[i].content)) && target <= c[i].hash
             && c[i].content.previousHash == c[i - 1].hash
      {
        assert LinkHolds(h, target, c[i - 1], c[i]);
      }
    }
  }

  /** A block altered under its old hash keeps a chain valid exactly when it still names the block
      before it and its text has the old digest: then the text is the same or the digest collides. */
  lemma AlteredUnderSameHash(h: Hashing, target: string, c: Chain, i: nat, altered: Content)
    requires ValidChain(h, target, c) && 1 <= i < |c|
    ensures ValidChain(h, target, c[i := BlockDict(altered, c[i].hash)]) <==>
      && altered.previousHash == c[i].content.previousHash
      && h.sha(h.blockText(altered)) == h.sha(h.blockText(c[i].content))
    ensures ValidChain(h, target, c[i := BlockDict(altered, c[i].hash)]) ==>
      || h.blockText(altered) == h.blockText(c[i].content)
      || ShaCollision(h, (h.blockText(altered), h.blockText(c[i].content)))
  {
    var d := c[i := BlockDict(altered, c[i].hash)];
    assert LinkHolds(h, target, c[i - 1], c[i]);
    assert ValidChain(h, target, d) ==> LinkHolds(h, target, d[i - 1], d[i]);
    if LinkHolds(h, target, d[i - 1], d[i]) {
      forall j | 1 <= j < |d| ensures LinkHolds(h, target, d[j - 1], d[j]) {
        if j != i {
          assert LinkHolds(h, target, c[j - 1], c[j]);
        }
      }
    }
  }

  /** A block dictionary off the wire: complete, or missing a key that `from_dict` reads. */
  datatype Wire = Complete(block: BlockDict) | Malformed(hash: string)

  function BlocksOf(wires: seq<Wire>): (c: Chain)
    requires forall i :: 0 <= i < |wires| ==> wires[i].Complete?
    ensures |c| == |wires| && forall i :: 0 <= i < |c| ==> c[i] == wires[i].block
  {
    seq(|wires|, i requires 0 <= i < |wires| => wires[i].block)
  }

  function ToWire(c: Chain): (wires: seq<Wire>)
    ensures |wires| == |c| && forall i :: 0 <= i < |c| ==> wires[i] == Complete(c[i])
  {
    seq(|c|, i requires 0 <= i < |c| => Complete(c[i]))
  }

  /** The answer of `replace_chain`: the length test comes first, then decoding, then `is_valid`. */
  function ReplaceAnswer(h: Hashing, target: string, c: Chain, wires: seq<Wire>): Result<bool> {
    if |wires| <= |c| then Ok(false)
    else if exists i :: 0 <= i < |wires| && wires[i].Malformed? then Raised(KeyError)
    else Ok(ValidChain(h, target, BlocksOf(wires)))
  }

  /** The chain after `replace_chain`. */
  function Replace(h: Hashing, target: string, c: Chain, wires: seq<Wire>): Chain {
    if ReplaceAnswer(h, target, c, wires) == Ok(true) then BlocksOf(wires) else c
  }

  /** A received chain is taken over exactly when it is longer, complete and valid, block for block;
      it raises exactly when it is longer and a key is missing. */
  lemma ReplaceInFields(h: Hashing, target: string, c: Chain, wires: seq<Wire>)
    ensures var taken := |wires| > |c| && (forall i :: 0 <= i < |wires| ==> wires[i].Complete?)
        && forall i :: 1 <= i < |wires| ==>
             && wires[i].block.hash == h.sha(h.blockText(wires[i].block.content))
             && target <= wires[i].block.hash
             && wires[i].block.content.previousHash == wires[i - 1].block.hash;
      && (ReplaceAnswer(h, target, c, wires) == Ok(true) <==> taken)
      && (taken ==> |Replace(h, target, c, wires)| == |wires|)
      && (taken ==> forall i :: 0 <= i < |wires| ==> Replace(h, target, c, wires)[i] == wires[i].block)
      && (!taken ==> Replace(h, target, c, wires) == c)
    ensures ReplaceAnswer(h, target, c, wires) == Raised(KeyError) <==>
      |wires| > |c| && exists i :: 0 <= i < |wires| && wires[i].Malformed?
  {
    if forall i :: 0 <= i < |wires| ==> wires[i].Complete? {
      ValidInFields(h, target, BlocksOf(wires));
    }
  }

  // ---- Mining -------------------------------------------------------------------------------

  function RewardTx(miner: string, time: real): Tx {
    Tx(MiningReward, None, None, None, None, None, Some(time), Some(miner), "reward_storage_credits: 100")
  }

  /** What the next block says, up to its nonce. */
  function NextContent(h: Hashing, c: Chain, pending: seq<Tx>, reward: Tx, blockTime: real, nonce: int): Content
    requires c != []
  {
    var txs := pending + [reward];
    Content(|c|, blockTime, txs, Last(c).hash, nonce, MerkleRoot(h, txs))
  }

  predicate GoodNonce(h: Hashing, target: string, c: Content, nonce: nat) {
    target <= BlockHash(h, c.(nonce := nonce))
  }

  /** `b` is the block the nonce search ends at: the least good nonce from 0 on. */
  ghost predicate MinedFrom(h: Hashing, target: string, c: Content, b: BlockDict) {
    && b.content.nonce >= 0
    && b.content == c.(nonce := b.content.nonce)
    && b.hash == BlockHash(h, b.content)
    && GoodNonce(h, target, c, b.content.nonce)
    && forall n: nat :: n < b.content.nonce ==> !GoodNonce(h, target, c, n)
  }

  lemma MinedExtends(h: Hashing, target: string, c: Chain, pending: seq<Tx>, reward: Tx, blockTime: real, b: BlockDict)
    requires c != [] && MinedFrom(h, target, NextContent(h, c, pending, reward, blockTime, 0), b)
    ensures LinkHolds(h, target, Last(c), b)
    ensures b.content.index == |c| && b.content.transactions == pending + [reward]
  {}

  /** The mined block, field by field: the search stops at the least nonce from 0 on whose digest
      starts with the target. */
  lemma MinedInFields(h: Hashing, target: string, c: Chain, pending: seq<Tx>, reward: Tx, blockTime: real, b: BlockDict)
    requires c != []
    ensures MinedFrom(h, target, NextContent(h, c, pending, reward, blockTime, 0), b) <==>
      && b.content.index == |c| && b.content.timestamp == blockTime
      && b.content.transactions == pending + [reward]
      && b.content.previousHash == c[|c| - 1].hash
      && b.content.merkleRoot == MerkleRoot(h, pending + [reward])
      && b.content.nonce >= 0
      && b.hash == h.sha(h.blockText(b.content)) && target <= b.hash
      && forall n: nat :: n < b.content.nonce ==> !(target <= h.sha(h.blockText(b.content.(nonce := n))))
  {
    var next := NextContent(h, c, pending, reward, blockTime, 0);
    if b.content == next.(nonce := b.content.nonce) {
      forall n: nat ensures GoodNonce(h, target, next, n) <==> target <= h.sha(h.blockText(b.content.(nonce := n))) {
        assert next.(nonce := n) == b.content.(nonce := n);
      }
    }
  }

  /** The reward belongs to no file. */
  lemma RewardInFields(miner: string, time: real)
    ensures var tx := RewardTx(miner, time);
      tx.kind == MiningReward && tx.miner == Some(miner) && tx.timestamp == Some(time) && tx.fileHash == None
  {}

  // ---- Tamper evidence ----------------------------------------------------------------------

  /** Two different block contents with one digest: either one text, or a collision of the texts. */
  ghost predicate ContentClash(h: Hashing, p: (Content, Content)) {
    p.0 != p.1
    && (h.blockText(p.0) == h.blockText(p.1) || ShaCollision(h, (h.blockText(p.0), h.blockText(p.1))))
  }

  /** Walk back from two equal tips to the first differing contents. */
  function FindTampering(c: Chain, d: Chain): Option<(Content, Content)>
    requires |c| == |d|
  {
    if |c| <= 1 then None
    else if Last(c).content != Last(d).content then Some((Last(c).content, Last(d).content))
    else FindTampering(c[..|c| - 1], d[..|d| - 1])
  }

  /** Valid chains of one length with one tip hash agree on every block from position 1 on and on
      the genesis hash, or the walk returns two different contents with one text or two texts with
      one digest. */
  lemma {:induction false} TamperEvident(h: Hashing, target: string, c: Chain, d: Chain)
    requires |c| == |d| > 0 && ValidChain(h, target, c) && ValidChain(h, target, d)
    requires Last(c).hash == Last(d).hash
    ensures FindTampering(c, d) == None ==> c[0].hash == d[0].hash && c[1..] == d[1..]
    ensures FindTampering(c, d).Some? ==> ContentClash(h, FindTampering(c, d).value)
  {
    var k := |c| - 1;
    if k > 0 {
      assert LinkHolds(h, target, c[k - 1], c[k]) && LinkHolds(h, target, d[k - 1], d[k]);
      if Last(c).content == Last(d).content {
        var c', d' := c[..k], d[..k];
        forall i | 1 <= i < k ensures LinkHolds(h, target, c'[i - 1], c'[i]) && LinkHolds(h, target, d'[i - 1], d'[i]) {
          assert LinkHolds(h, target, c[i - 1], c[i]) && LinkHolds(h, target, d[i - 1], d[i]);
        }
        TamperEvident(h, target, c', d');
        assert c[1..] == c'[1..] + [c[k]] && d[1..] == d'[1..] + [d[k]];
      }
    }
  }

  /** Although documented as checked, the genesis content is not: any first block may take its place
      if it carries the same hash (or nothing follows it). */
  lemma GenesisSwap(h: Hashing, target: string, c: Chain, g: BlockDict)
    requires c != [] && ValidChain(h, target, c)
    ensures ValidChain(h, target, c[0 := g]) <==> |c| == 1 || g.hash == c[0].hash
  {
    var d := c[0 := g];
    if |c| > 1 {
      assert LinkHolds(h, target, c[0], c[1]) && d[1] == c[1];
      if g.hash == c[0].hash {
        forall i | 1 <= i < |d| ensures LinkHolds(h, target, d[i - 1], d[i]) {
          assert LinkHolds(h, target, c[i - 1], c[i]);
        }
      } else {
        assert !LinkHolds(h, target, d[0], d[1]);
      }
    }
  }

  // ---- Merkle binding -----------------------------------------------------------------------

  ghost predicate HexDigests(h: Hashing) {
    forall s :: |h.sha(s)| == 64
  }

  /** Two different texts with one digest. */
  ghost predicate ShaCollision(h: Hashing, p: (string, string)) {
    p.0 != p.1 && h.sha(p.0) == h.sha(p.1)
  }

  /** The first position where the transaction texts differ. */
  ghost function FirstDifference(h: Hashing, xs: seq<Tx>, ys: seq<Tx>): (d: nat)
    requires |xs| == |ys|
    ensures d <= |xs|
    ensures forall i :: 0 <= i < d ==> h.txText(xs[i]) == h.txText(ys[i])
    ensures d < |xs| ==> h.txText(xs[d]) != h.txText(ys[d])
  {
    if xs == [] || h.txText(xs[0]) != h.txText(ys[0]) then 0
    else FirstDifference(h, xs[1..], ys[1..]) + 1
  }

  /** The collision that two different lists with one Merkle root lead to: two transaction texts,
      or the two texts hashed at the first inner node whose children differ. */
  ghost function MerkleCollision(h: Hashing, xs: seq<Tx>, ys: seq<Tx>): Option<(string, string)>
    requires |xs| == |ys| > 0
  {
    var d := FirstDifference(h, xs, ys);
    if d == |xs| then None
    else
      var k := CeilLog2(|xs|);
      match FindClash(NodeHash(h), Extend(Leaves(h, xs), k), Extend(Leaves(h, ys), k), k)
      case Some(c) => Some((c.l1 + c.r1, c.l2 + c.r2))
      case None => Some((h.txText(xs[d]), h.txText(ys[d])))
  }

  /** Equal Merkle roots over equally many transactions: the same texts in the same order, or the
      search returns a collision of the digest function. */
  lemma MerkleRootBinds(h: Hashing, xs: seq<Tx>, ys: seq<Tx>)
    requires HexDigests(h) && |xs| == |ys| > 0
    requires MerkleRoot(h, xs) == MerkleRoot(h, ys)
    ensures MerkleCollision(h, xs, ys) == None ==> forall i :: 0 <= i < |xs| ==> h.txText(xs[i]) == h.txText(ys[i])
    ensures MerkleCollision(h, xs, ys).Some? ==> ShaCollision(h, MerkleCollision(h, xs, ys).value)
  {
    var node, lx, ly, k := NodeHash(h), Leaves(h, xs), Leaves(h, ys), CeilLog2(|xs|);
    var d := FirstDifference(h, xs, ys);
    if d < |xs| {
      PerfectRootBinds(node, Extend(lx, k), Extend(ly, k), k);
      match FindClash(node, Extend(lx, k), Extend(ly, k), k)
      case Some(c) =>
        ExtendDigests(lx, k);
        ExtendDigests(ly, k);
        ClashDigests(h, Extend(lx, k), Extend(ly, k), k);
        SameJoin(c.l1, c.r1, c.l2, c.r2);
      case None =>
        ExtendInjective(lx, ly, k);
        assert lx[d] == ly[d];
    }
  }

  /** The loop of `_compute_merkle_root` on texts: `rounds[0]` digests the transactions, each later
      round the neighbours of the one before, a last odd one with itself, down to one. */
  ghost predicate HashRounds(h: Hashing, txs: seq<Tx>, rounds: seq<seq<string>>) {
    && rounds != [] && |rounds[|rounds| - 1]| == 1
    && |rounds[0]| == |txs|
    && (forall i :: 0 <= i < |txs| ==> rounds[0][i] == h.sha(h.txText(txs[i])))
    && forall j :: 0 <= j < |rounds| - 1 ==> |rounds[j]| > 1 && HashRound(h, rounds[j], rounds[j + 1])
  }

  ghost predicate HashRound(h: Hashing, below: seq<string>, above: seq<string>) {
    && |above| == (|below| + 1) / 2
    && forall i :: 0 <= i < |above| ==>
         above[i] == h.sha(below[2 * i] + if 2 * i + 1 < |below| then below[2 * i + 1] else below[2 * i])
  }

  /** The Merkle root of no transactions is the digest of "empty"; of others, what the rounds end in. */
  lemma MerkleRootIsLastRound(h: Hashing, txs: seq<Tx>, root: string)
    ensures txs == [] ==> MerkleRoot(h, txs) == h.sha("empty")
    ensures txs != [] ==>
      (MerkleRoot(h, txs) == root <==> exists rounds :: HashRounds(h, txs, rounds) && rounds[|rounds| - 1] == [root])
  {
    if txs != [] {
      var node, leaves := NodeHash(h), Leaves(h, txs);
      forall rounds ensures HashRounds(h, txs, rounds) <==> AreRounds(node, rounds, leaves) {
        SameRounds(h, txs, rounds);
      }
      var known := RoundsExist(node, leaves);
      RoundsEndAtRoot(node, known, leaves);
      assert HashRounds(h, txs, known);
      forall rounds | HashRounds(h, txs, rounds) ensures rounds[|rounds| - 1] == [MerkleRoot(h, txs)] {
        RoundsEndAtRoot(node, rounds, leaves);
      }
    }
  }

  lemma SameRounds(h: Hashing, txs: seq<Tx>, rounds: seq<seq<string>>)
    ensures HashRounds(h, txs, rounds) <==> AreRounds(NodeHash(h), rounds, Leaves(h, txs))
  {
    forall j | 0 <= j < |rounds| - 1
      ensures HashRound(h, rounds[j], rounds[j + 1]) <==> IsRound(NodeHash(h), rounds[j], rounds[j + 1])
    {
      SameRoundOfHashes(h, rounds[j], rounds[j + 1]);
    }
    if rounds != [] && HashRounds(h, txs, rounds) {
      assert rounds[0] == Leaves(h, txs);
    }
  }

  lemma SameRoundOfHashes(h: Hashing, below: seq<string>, above: seq<string>)
    ensures HashRound(h, below, above) <==> IsRound(NodeHash(h), below, above)
  {}

  lemma {:induction false} ExtendDigests(xs: seq<string>, k: nat)
    requires 1 <= |xs| <= Pow2(k) && forall i :: 0 <= i < |xs| ==> |xs[i]| == 64
    ensures forall i :: 0 <= i < |Extend(xs, k)| ==> |Extend(xs, k)[i]| == 64
  {
    if k > 0 {
      if |xs| > Pow2(k - 1) {
        ExtendDigests(xs[Pow2(k - 1)..], k - 1);
      } else {
        ExtendDigests(xs, k - 1);
      }
    }
  }

  lemma {:induction false} RootIsDigest(h: Hashing, xs: seq<string>, k: nat)
    requires HexDigests(h) && |xs| == Pow2(k) && forall i :: 0 <= i < |xs| ==> |xs[i]| == 64
    ensures |PerfectRoot(NodeHash(h), xs, k)| == 64
  {
    if k == 0 {
      assert |xs[0]| == 64;
    }
  }

  /** The children at a clash are digests, so the texts hashed there split in one way only. */
  lemma {:induction false} ClashDigests(h: Hashing, xs: seq<string>, ys: seq<string>, k: nat)
    requires HexDigests(h) && |xs| == |ys| == Pow2(k)
    requires forall i :: 0 <= i < |xs| ==> |xs[i]| == 64 && |ys[i]| == 64
    requires FindClash(NodeHash(h), xs, ys, k).Some?
    ensures var c := FindClash(NodeHash(h), xs, ys, k).value; |c.l1| == |c.l2| == 64
  {
    if k > 0 {
      var half, node := Pow2(k - 1), NodeHash(h);
      RootIsDigest(h, xs[..half], k - 1);
      RootIsDigest(h, ys[..half], k - 1);
      if FindClash(node, xs[..half], ys[..half], k - 1).Some? {
        ClashDigests(h, xs[..half], ys[..half], k - 1);
      } else if FindClash(node, xs[half..], ys[half..], k - 1).Some? {
        ClashDigests(h, xs[half..], ys[half..], k - 1);
      }
    }
  }

  lemma SameJoin(a: string, b: string, c: string, d: string)
    requires |a| == |c|
    ensures a + b == c + d ==> a == c && b == d
  {
    if a + b == c + d {
      assert a == (a + b)[..|a|] && b == (a + b)[|a|..];
      assert c == (c + d)[..|c|] && d == (c + d)[|c|..];
    }
  }
}

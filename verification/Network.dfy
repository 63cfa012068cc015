/** A finite set of honest nodes. Any block ever created and any chain ever published may be
    delivered to any node at any time, any number of times or never: losing, duplicating and
    reordering messages are all included. The seen-hash check is not relied on at all, so handlers
    that race past it are included too. */
module Network {
  import opened Bytes
  import opened Ledger
  import opened Node

  /** created: every block some node made. published: every chain some node sent.
      log: every single-block append so far, as (node, block). */
  datatype Net = Net(nodes: seq<NodeState>, created: set<BlockDict>, published: set<Chain>, log: seq<(nat, BlockDict)>)

  /** A node acts, or answers GET_CHAIN with its chain. */
  datatype Action = Act(node: nat, event: Event) | Publish(node: nat)

  ghost predicate Sent(published: set<Chain>, wires: seq<Wire>) {
    exists c :: c in published && wires == ToWire(c)
  }

  /** What an honest network may feed to a node. */
  ghost predicate Honest(s: Net, e: Event) {
    match e
    case Lock(b) => b in s.created
    case RecvChain(wires) => Sent(s.published, wires)
    case _ => true
  }

  /** The block the event appended, if it appended one. */
  ghost function Appended(e: Event, c: Chain, c': Chain): Option<BlockDict> {
    if (e.Lock? || e.Mine?) && |c'| == |c| + 1 then Some(c'[|c|]) else None
  }

  ghost function Created(e: Event, c: Chain, c': Chain): set<BlockDict> {
    if e.Mine? && Appended(e, c, c').Some? then {Appended(e, c, c').value} else {}
  }

  ghost function Logged(n: nat, e: Event, c: Chain, c': Chain): seq<(nat, BlockDict)> {
    if Appended(e, c, c').Some? then [(n, Appended(e, c, c').value)] else []
  }

  ghost predicate NetStep(h: Hashing, target: string, s: Net, a: Action, s': Net) {
    a.node < |s.nodes| && s.nodes[a.node].chain != [] &&
    match a
    case Publish(n) => s' == s.(published := s.published + {s.nodes[n].chain})
    case Act(n, e) =>
      && Honest(s, e)
      && |s'.nodes| == |s.nodes|
      && Step(h, target, s.nodes[n], e, s'.nodes[n])
      && s'.nodes == s.nodes[n := s'.nodes[n]]
      && s'.created == s.created + Created(e, s.nodes[n].chain, s'.nodes[n].chain)
      && s'.published == s.published
      && s'.log == s.log + Logged(n, e, s.nodes[n].chain, s'.nodes[n].chain)
  }

  ghost predicate IsGenesis(h: Hashing, b: BlockDict) {
    && b.content.index == 0 && b.content.transactions == [] && b.content.previousHash == ZeroHash()
    && b.content.nonce == 0 && b.content.merkleRoot == MerkleRoot(h, [])
    && b.hash == BlockHash(h, b.content)
  }

  /** Every node starts with a genesis block of its own (the time stamps may differ). */
  ghost predicate Init(h: Hashing, s: Net) {
    && (forall n :: 0 <= n < |s.nodes| ==> |s.nodes[n].chain| == 1 && IsGenesis(h, s.nodes[n].chain[0]))
    && s.created == (set n | 0 <= n < |s.nodes| :: s.nodes[n].chain[0])
    && s.published == {} && s.log == []
  }

  ghost predicate IsNetRun(h: Hashing, target: string, states: seq<Net>, actions: seq<Action>) {
    && |states| == |actions| + 1
    && Init(h, states[0])
    && forall i :: 0 <= i < |actions| ==> NetStep(h, target, states[i], actions[i], states[i + 1])
  }

  /** No two different block contents made in the run have one hash. */
  ghost predicate CollisionFree(h: Hashing, created: set<BlockDict>) {
    forall a, b :: a in created && b in created && BlockHash(h, a.content) == BlockHash(h, b.content)
      ==> a.content == b.content
  }

  // ---- The invariant ------------------------------------------------------------------------

  /** Blocks carry their true hash; all but genesis blocks follow an earlier created block. */
  ghost predicate Rooted(h: Hashing, created: set<BlockDict>, b: BlockDict) {
    && b.hash == BlockHash(h, b.content)
    && b.content.index >= 0
    && (b.content.index > 0 ==> exists p :: p in created && Parent(p, b))
  }

  ghost predicate Parent(p: BlockDict, b: BlockDict) {
    b.content.previousHash == p.hash && b.content.index == p.content.index + 1
  }

  /** A chain of created blocks, each at the position its index says, linked by hashes. */
  ghost predicate Sound(created: set<BlockDict>, c: Chain) {
    && c != []
    && (forall i :: 0 <= i < |c| ==> c[i] in created && c[i].content.index == i)
    && forall i :: 1 <= i < |c| ==> c[i].content.previousHash == c[i - 1].hash
  }

  ghost predicate Inv(h: Hashing, s: Net) {
    && (forall b :: b in s.created ==> Rooted(h, s.created, b))
    && (forall n :: 0 <= n < |s.nodes| ==> Sound(s.created, s.nodes[n].chain))
    && (forall c :: c in s.published ==> Sound(s.created, c))
    && LogInv(s)
  }

  /** Each logged append is at or below the node's tip now; no append is logged twice. */
  ghost predicate LogInv(s: Net) {
    && (forall k :: 0 <= k < |s.log| ==>
          s.log[k].0 < |s.nodes| && s.log[k].1.content.index < |s.nodes[s.log[k].0].chain|)
    && forall j, k :: 0 <= j < k < |s.log| ==> s.log[j] != s.log[k]
  }

  lemma InitInv(h: Hashing, s: Net)
    requires Init(h, s)
    ensures Inv(h, s)
  {
    forall b | b in s.created ensures Rooted(h, s.created, b) {
      var n :| 0 <= n < |s.nodes| && s.nodes[n].chain[0] == b;
    }
  }

  lemma SoundGrows(created: set<BlockDict>, more: set<BlockDict>, c: Chain)
    requires Sound(created, c) && created <= more
    ensures Sound(more, c)
  {}

  /** Under collision freedom, a block that links to the tip carries the next index. */
  lemma LinkedIndex(h: Hashing, created: set<BlockDict>, c: Chain, b: BlockDict)
    requires CollisionFree(h, created) && Sound(created, c)
    requires forall x :: x in created ==> Rooted(h, created, x)
    requires b in created && b.content.index > 0 && b.content.previousHash == Last(c).hash
    ensures b.content.index == |c|
  {
    var p :| p in created && Parent(p, b);
    var tip := Last(c);
    assert tip in created && Rooted(h, created, tip) && Rooted(h, created, p);
    assert BlockHash(h, p.content) == BlockHash(h, tip.content);
    assert p.content == tip.content;
  }

  lemma AppendSound(created: set<BlockDict>, c: Chain, b: BlockDict)
    requires Sound(created, c) && b in created && b.content.index == |c|
    requires b.content.previousHash == Last(c).hash
    ensures Sound(created, c + [b])
  {}

  lemma MinedSound(h: Hashing, target: string, created: set<BlockDict>, s: NodeState, reward: Tx,
        blockTime: real, b: BlockDict)
    requires Sound(created, s.chain) && forall x :: x in created ==> Rooted(h, created, x)
    requires MinedFrom(h, target, NextContent(h, s.chain, s.pending, reward, blockTime, 0), b)
    ensures forall x :: x in created + {b} ==> Rooted(h, created + {b}, x)
    ensures Sound(created + {b}, s.chain + [b])
    ensures b.content.index == |s.chain|
  {
    var tip := Last(s.chain);
    assert tip in created + {b} && Parent(tip, b);
    RootedGrows(h, created, b);
    SoundGrows(created, created + {b}, s.chain);
    AppendSound(created + {b}, s.chain, b);
  }

  lemma LockedSound(h: Hashing, target: string, created: set<BlockDict>, c: Chain, b: BlockDict)
    requires CollisionFree(h, created) && Sound(created, c) && b in created
    requires forall x :: x in created ==> Rooted(h, created, x)
    requires Judge(h, target, c, b).Accepted?
    ensures Sound(created, c + [b]) && b.content.index == |c|
  {
    LinkedIndex(h, created, c, b);
    AppendSound(created, c, b);
  }

  /** What one honest event does to a node's chain. */
  ghost predicate GoodEffect(h: Hashing, created: set<BlockDict>, e: Event, c: Chain, c': Chain) {
    var created' := created + Created(e, c, c');
    && Sound(created', c')
    && (forall b :: b in created' ==> Rooted(h, created', b))
    && |c| <= |c'|
    && (Appended(e, c, c').Some? ==> Appended(e, c, c').value.content.index == |c|)
  }

  /** Nothing new was created. */
  lemma PlainEffect(h: Hashing, created: set<BlockDict>, e: Event, c: Chain, c': Chain)
    requires Created(e, c, c') == {} && Sound(created, c') && |c| <= |c'|
    requires forall b :: b in created ==> Rooted(h, created, b)
    ensures GoodEffect(h, created, e, c, c')
  {
    assert created + {} == created;
  }

  lemma MineEffect(h: Hashing, target: string, created: set<BlockDict>, s: NodeState, e: Event, t: NodeState)
    requires e.Mine? && Sound(created, s.chain) && forall x :: x in created ==> Rooted(h, created, x)
    requires s.pending != [] && Step(h, target, s, e, t)
    ensures GoodEffect(h, created, e, s.chain, t.chain)
  {
    var b :| MinedFrom(h, target, NextContent(h, s.chain, s.pending, e.reward, e.blockTime, 0), b)
         && t == s.(chain := s.chain + [b], pending := []);
    MinedSound(h, target, created, s, e.reward, e.blockTime, b);
  }

  lemma EventSound(h: Hashing, target: string, s: Net, n: nat, e: Event, t: NodeState)
    requires CollisionFree(h, s.created) && Inv(h, s) && n < |s.nodes| && Honest(s, e)
    requires Step(h, target, s.nodes[n], e, t)
    ensures GoodEffect(h, s.created, e, s.nodes[n].chain, t.chain)
  {
    var c := s.nodes[n].chain;
    assert Sound(s.created, c);
    if e.Mine? && s.nodes[n].pending != [] {
      MineEffect(h, target, s.created, s.nodes[n], e, t);
    } else {
      if e.Lock? && Judge(h, target, c, e.block).Accepted? {
        LockedSound(h, target, s.created, c, e.block);
      } else if e.RecvChain? {
        var d :| d in s.published && e.wires == ToWire(d);
        assert Sound(s.created, d) && BlocksOf(e.wires) == d;
      }
      PlainEffect(h, s.created, e, c, t.chain);
    }
  }

  lemma RootedGrows(h: Hashing, created: set<BlockDict>, b: BlockDict)
    requires forall x :: x in created ==> Rooted(h, created, x)
    requires Rooted(h, created + {b}, b)
    ensures forall x :: x in created + {b} ==> Rooted(h, created + {b}, x)
  {
    forall x | x in created + {b} ensures Rooted(h, created + {b}, x) {
      if x != b && x.content.index > 0 {
        var p :| p in created && Parent(p, x);
        assert p in created + {b} && Parent(p, x);
      }
    }
  }

  /** The part of the step about chains and created blocks ... */
  lemma StepSound(h: Hashing, target: string, s: Net, n: nat, e: Event, s': Net)
    requires CollisionFree(h, s.created) && Inv(h, s) && NetStep(h, target, s, Act(n, e), s')
    ensures forall b :: b in s'.created ==> Rooted(h, s'.created, b)
    ensures forall m :: 0 <= m < |s'.nodes| ==> Sound(s'.created, s'.nodes[m].chain)
    ensures forall c :: c in s'.published ==> Sound(s'.created, c)
  {
    EventSound(h, target, s, n, e, s'.nodes[n]);
    forall m | 0 <= m < |s'.nodes| ensures Sound(s'.created, s'.nodes[m].chain) {
      if m != n {
        SoundGrows(s.created, s'.created, s.nodes[m].chain);
      }
    }
    forall c | c in s'.published ensures Sound(s'.created, c) {
      SoundGrows(s.created, s'.created, c);
    }
  }

  /** ... and the part about the log of appends: a new entry lies above all of the node's old ones. */
  lemma LogGrows(s: Net, s': Net, n: nat, added: Option<BlockDict>)
    requires LogInv(s) && n < |s.nodes| == |s'.nodes|
    requires s'.nodes == s.nodes[n := s'.nodes[n]] && |s.nodes[n].chain| <= |s'.nodes[n].chain|
    requires s'.log == s.log + if added.Some? then [(n, added.value)] else []
    requires added.Some? ==> added.value.content.index == |s.nodes[n].chain| < |s'.nodes[n].chain|
    ensures LogInv(s')
  {
    forall k | 0 <= k < |s.log| ensures s.log[k].1.content.index < |s'.nodes[s.log[k].0].chain| {
      assert s.log[k].0 < |s.nodes|;
    }
    if added.None? {
      assert s'.log == s.log;
    }
  }

  lemma StepLog(h: Hashing, target: string, s: Net, n: nat, e: Event, s': Net)
    requires CollisionFree(h, s.created) && Inv(h, s) && NetStep(h, target, s, Act(n, e), s')
    ensures LogInv(s')
  {
    EventSound(h, target, s, n, e, s'.nodes[n]);
    LogGrows(s, s', n, Appended(e, s.nodes[n].chain, s'.nodes[n].chain));
  }

  lemma StepInv(h: Hashing, target: string, s: Net, a: Action, s': Net)
    requires CollisionFree(h, s'.created) && Inv(h, s) && NetStep(h, target, s, a, s')
    ensures Inv(h, s')
  {
    match a
    case Publish(n) =>
    case Act(n, e) =>
      assert CollisionFree(h, s.created);
      StepSound(h, target, s, n, e, s');
      StepLog(h, target, s, n, e, s');
  }

  lemma {:induction false} CreatedGrows(h: Hashing, target: string, states: seq<Net>, actions: seq<Action>, i: nat)
    requires IsNetRun(h, target, states, actions) && i < |states|
    ensures states[i].created <= states[|states| - 1].created
    decreases |states| - i
  {
    if i < |actions| {
      assert NetStep(h, target, states[i], actions[i], states[i + 1]);
      CreatedGrows(h, target, states, actions, i + 1);
    }
  }

  lemma {:induction false} RunInv(h: Hashing, target: string, states: seq<Net>, actions: seq<Action>, i: nat)
    requires IsNetRun(h, target, states, actions) && i < |states|
    requires CollisionFree(h, states[|states| - 1].created)
    ensures Inv(h, states[i])
  {
    if i == 0 {
      InitInv(h, states[0]);
    } else {
      RunInv(h, target, states, actions, i - 1);
      CreatedGrows(h, target, states, actions, i);
      assert NetStep(h, target, states[i - 1], actions[i - 1], states[i]);
      StepInv(h, target, states[i - 1], actions[i - 1], states[i]);
    }
  }

  // ---- The results --------------------------------------------------------------------------

  /** Main result: in every reachable state of an honest network whose block contents do not
      collide, every block in a node's chain was created by a node and sits where its index says. */
  lemma ChainsAreGenuine(h: Hashing, target: string, states: seq<Net>, actions: seq<Action>, i: nat, n: nat, pos: nat)
    requires IsNetRun(h, target, states, actions) && i < |states|
    requires CollisionFree(h, states[|states| - 1].created)
    requires n < |states[i].nodes| && pos < |states[i].nodes[n].chain|
    ensures states[i].nodes[n].chain[pos] in states[i].created
    ensures states[i].nodes[n].chain[pos].content.index == pos
  {
    RunInv(h, target, states, actions, i);
    assert Sound(states[i].created, states[i].nodes[n].chain);
  }

  lemma {:induction false} SamePrefix(h: Hashing, created: set<BlockDict>, c: Chain, d: Chain, p: nat)
    requires CollisionFree(h, created) && Sound(created, c) && Sound(created, d)
    requires forall b :: b in created ==> Rooted(h, created, b)
    requires p < |c| && p < |d| && c[p].hash == d[p].hash
    ensures c[..p + 1] == d[..p + 1]
  {
    assert Rooted(h, created, c[p]) && Rooted(h, created, d[p]);
    assert c[p] == d[p];
    if p > 0 {
      SamePrefix(h, created, c, d, p - 1);
      assert c[..p + 1] == c[..p] + [c[p]] && d[..p + 1] == d[..p] + [d[p]];
    }
  }

  /** Main result: two chains with one hash anywhere are identical up to there, and that hash is at
      the same position in both. */
  lemma OneHashOnePrefix(h: Hashing, target: string, states: seq<Net>, actions: seq<Action>,
        i: nat, n: nat, m: nat, p: nat, q: nat)
    requires IsNetRun(h, target, states, actions) && i < |states|
    requires CollisionFree(h, states[|states| - 1].created)
    requires n < |states[i].nodes| && m < |states[i].nodes|
    requires p < |states[i].nodes[n].chain| && q < |states[i].nodes[m].chain|
    requires states[i].nodes[n].chain[p].hash == states[i].nodes[m].chain[q].hash
    ensures p == q
    ensures states[i].nodes[n].chain[..p + 1] == states[i].nodes[m].chain[..p + 1]
  {
    RunInv(h, target, states, actions, i);
    CreatedGrows(h, target, states, actions, i);
    var s := states[i];
    var c, d := s.nodes[n].chain, s.nodes[m].chain;
    assert Sound(s.created, c) && Sound(s.created, d);
    assert Rooted(h, s.created, c[p]) && Rooted(h, s.created, d[q]);
    assert c[p].content == d[q].content;
    SamePrefix(h, s.created, c, d, p);
  }

  /** Main result: mining and receiving together append a block to a node at most once in a run,
      although nothing here consults the seen-hash set. */
  lemma AppendedAtMostOnce(h: Hashing, target: string, states: seq<Net>, actions: seq<Action>, j: nat, k: nat)
    requires IsNetRun(h, target, states, actions)
    requires CollisionFree(h, states[|states| - 1].created)
    requires j < k < |states[|states| - 1].log|
    ensures states[|states| - 1].log[j] != states[|states| - 1].log[k]
  {
    RunInv(h, target, states, actions, |states| - 1);
  }

  /** The tip index of a node never drops, so the locked index test turns away every block that
      the node appended before. */
  lemma SecondCopyRejected(h: Hashing, target: string, states: seq<Net>, actions: seq<Action>, i: nat, k: nat)
    requires IsNetRun(h, target, states, actions) && i < |states|
    requires CollisionFree(h, states[|states| - 1].created)
    requires k < |states[i].log|
    ensures var (n, b) := states[i].log[k];
      && n < |states[i].nodes| && states[i].nodes[n].chain != []
      && !Judge(h, target, states[i].nodes[n].chain, b).Accepted?
  {
    RunInv(h, target, states, actions, i);
    var (n, b) := states[i].log[k];
    assert Sound(states[i].created, states[i].nodes[n].chain);
  }

  /** Every node's chain passes `is_valid` in every reachable state, collisions or not. */
  lemma {:induction false} ChainsStayValid(h: Hashing, target: string, states: seq<Net>,
        actions: seq<Action>, i: nat, n: nat)
    requires IsNetRun(h, target, states, actions) && i < |states|
    requires n < |states[i].nodes|
    ensures |states[i].nodes| == |states[0].nodes|
    ensures states[i].nodes[n].chain != [] && ValidChain(h, target, states[i].nodes[n].chain)
  {
    if i > 0 {
      var s, a := states[i - 1], actions[i - 1];
      assert NetStep(h, target, s, a, states[i]);
      ChainsStayValid(h, target, states, actions, i - 1, n);
      if a.Act? && a.node == n {
        StepMoves(h, target, s.nodes[n], a.event, states[i].nodes[n]);
      }
    }
  }
}

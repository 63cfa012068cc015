/** Flooding with racing handlers: the seen-hash test, the mark and the locked rest of
    `_receive_block` are separate steps, so several handlers may hold copies of one block that all
    passed the test. In an honest network a block goes out only with its append, and that bounds
    the flooding without the seen set. */
module Racing {
  import opened Bytes
  import opened Ledger
  import opened Node
  import opened Network
  import Gossip

  /** A block on its way to a node. */
  type Copy = (nat, BlockDict)

  /** tested: handlers past the seen-hash test; marked: handlers that wait for the lock;
      sent: all copies ever sent of each block. */
  datatype Race = Race(
    net: Net,
    peers: seq<set<nat>>,
    inFlight: multiset<Copy>,
    tested: multiset<Copy>,
    marked: multiset<Copy>,
    sent: multiset<BlockDict>)

  /** The first four are what happens to a copy of a block; the last is anything else a node does,
      mining and chain replacement included. `targets` get a copy of an appended block. */
  datatype Move =
    | Lose(copy: Copy)
    | Test(copy: Copy)
    | Mark(copy: Copy)
    | Locked(copy: Copy, targets: set<nat>)
    | Other(action: Action, targets: set<nat>)

  /** Only an append is followed by copies, to peers of the node that appended. */
  ghost predicate Spread(s: Race, s': Race, base: multiset<Copy>, targets: set<nat>) {
    if |s'.net.log| > |s.net.log| then
      var (n, b) := s'.net.log[|s.net.log|];
      && n < |s.peers| && targets <= s.peers[n]
      && s'.inFlight == base + Gossip.Copies(targets, b)
      && s'.sent == s.sent[b := s.sent[b] + |targets|]
    else s'.inFlight == base && s'.sent == s.sent
  }

  ghost predicate PeersShrink(s: Race, s': Race) {
    |s'.peers| == |s.peers| && forall n :: 0 <= n < |s.peers| ==> s'.peers[n] <= s.peers[n]
  }

  ghost predicate RaceStep(h: Hashing, target: string, s: Race, v: Move, s': Race) {
    && PeersShrink(s, s')
    && match v
       case Lose(m) =>
         && m in s.inFlight
         && s' == s.(peers := s'.peers, inFlight := s.inFlight - multiset{m})
       case Test(m) =>
         && m in s.inFlight && m.0 < |s.net.nodes|
         && s' == s.(peers := s'.peers, inFlight := s.inFlight - multiset{m},
                     tested := if m.1.hash in s.net.nodes[m.0].seen then s.tested else s.tested + multiset{m})
       case Mark(m) =>
         && m in s.tested
         && NetStep(h, target, s.net, Act(m.0, MarkSeen(m.1.hash)), s'.net)
         && s' == s.(peers := s'.peers, net := s'.net,
                     tested := s.tested - multiset{m}, marked := s.marked + multiset{m})
       case Locked(m, targets) =>
         && m in s.marked
         && NetStep(h, target, s.net, Act(m.0, Lock(m.1)), s'.net)
         && s'.tested == s.tested && s'.marked == s.marked - multiset{m}
         && Spread(s, s', s.inFlight, targets)
       case Other(a, targets) =>
         && !(a.Act? && a.event.Lock?) && NetStep(h, target, s.net, a, s'.net)
         && s'.tested == s.tested && s'.marked == s.marked
         && Spread(s, s', s.inFlight, targets)
  }

  /** Fresh nodes, no message under way. */
  ghost predicate Start(h: Hashing, s: Race) {
    && Init(h, s.net) && |s.peers| == |s.net.nodes|
    && s.inFlight == multiset{} && s.tested == multiset{} && s.marked == multiset{} && s.sent == multiset{}
  }

  ghost predicate IsRaceRun(h: Hashing, target: string, states: seq<Race>, moves: seq<Move>) {
    && |states| == |moves| + 1 && Start(h, states[0])
    && forall i :: 0 <= i < |moves| ==> RaceStep(h, target, states[i], moves[i], states[i + 1])
  }

  // ---- Copies of one block ------------------------------------------------------------------

  /** The peers of those of the first n nodes that appended the block themselves. */
  ghost function AppendDegrees(peers: seq<set<nat>>, log: seq<Copy>, b: BlockDict, n: nat): nat
    requires n <= |peers|
  {
    if n == 0 then 0
    else AppendDegrees(peers, log, b, n - 1) + if (n - 1, b) in log then |peers[n - 1]| else 0
  }

  lemma {:induction false} AppendsAtMostAll(peers: seq<set<nat>>, log: seq<Copy>, b: BlockDict, n: nat)
    requires n <= |peers|
    ensures AppendDegrees(peers, log, b, n) <= Gossip.Degrees(peers, n)
  {
    if n > 0 {
      AppendsAtMostAll(peers, log, b, n - 1);
    }
  }

  lemma {:induction false} AppendsGrow(peers: seq<set<nat>>, log: seq<Copy>, e: Copy, b: BlockDict, n: nat)
    requires n <= |peers| && e !in log && e.0 < |peers|
    ensures AppendDegrees(peers, log + [e], b, n)
         == AppendDegrees(peers, log, b, n) + if e.1 == b && e.0 < n then |peers[e.0]| else 0
  {
    if n > 0 {
      AppendsGrow(peers, log, e, b, n - 1);
    }
  }

  /** Against the peer sets of the start: every append pays for its copies. */
  ghost predicate SentBounded(s: Race, peers: seq<set<nat>>) {
    && |peers| == |s.peers| == |s.net.nodes|
    && (forall n :: 0 <= n < |peers| ==> s.peers[n] <= peers[n])
    && (forall b :: b in s.sent ==> b in s.net.created)
    && forall b :: s.sent[b] <= AppendDegrees(peers, s.net.log, b, |peers|)
  }

  /** Only created blocks are under way, so that the network never has to refuse one. */
  ghost predicate Carried(s: Race) {
    forall m :: m in s.inFlight || m in s.tested || m in s.marked ==> m.1 in s.net.created
  }

  /** The network part of a move: nothing, or one step that logs at most one append. */
  lemma NetMove(h: Hashing, target: string, s: Race, v: Move, s': Race)
    requires RaceStep(h, target, s, v, s') && CollisionFree(h, s'.net.created) && Inv(h, s.net)
    ensures Inv(h, s'.net) && s.net.created <= s'.net.created && |s'.net.nodes| == |s.net.nodes|
    ensures LogStep(s.net, s'.net)
  {
    match v
    case Lose(_) =>
    case Test(_) =>
    case Mark(m) => LoggedStep(h, target, s.net, Act(m.0, MarkSeen(m.1.hash)), s'.net);
    case Locked(m, _) => LoggedStep(h, target, s.net, Act(m.0, Lock(m.1)), s'.net);
    case Other(a, _) => LoggedStep(h, target, s.net, a, s'.net);
  }

  lemma LoggedStep(h: Hashing, target: string, s: Net, a: Action, s': Net)
    requires NetStep(h, target, s, a, s') && CollisionFree(h, s'.created) && Inv(h, s)
    ensures Inv(h, s') && s.created <= s'.created && |s'.nodes| == |s.nodes|
    ensures LogStep(s, s')
  {
    StepInv(h, target, s, a, s');
    if a.Act? {
      var added := Appended(a.event, s.nodes[a.node].chain, s'.nodes[a.node].chain);
      if added.Some? {
        assert s'.log[|s.log|] == (a.node, added.value);
        assert added.value in s'.nodes[a.node].chain && Sound(s'.created, s'.nodes[a.node].chain);
      }
    }
  }

  /** Nothing was logged, or one append that is new. */
  ghost predicate LogStep(s: Net, s': Net) {
    || s'.log == s.log
    || (|s'.log| == |s.log| + 1 && s'.log == s.log + [s'.log[|s.log|]]
        && s'.log[|s.log|] !in s.log && s'.log[|s.log|].1 in s'.created)
  }

  /** An append pays for the copies that follow it. */
  lemma SpreadPaid(s: Race, s': Race, targets: set<nat>, peers: seq<set<nat>>, b: BlockDict)
    requires Spread(s, s', s.inFlight, targets) && LogStep(s.net, s'.net)
    requires |peers| == |s.peers| && forall n :: 0 <= n < |peers| ==> s.peers[n] <= peers[n]
    requires s.sent[b] <= AppendDegrees(peers, s.net.log, b, |peers|)
    ensures s'.sent[b] <= AppendDegrees(peers, s'.net.log, b, |peers|)
  {
    if s'.net.log != s.net.log {
      var e := s'.net.log[|s.net.log|];
      Gossip.SubsetSize(targets, peers[e.0]);
      AppendsGrow(peers, s.net.log, e, b, |peers|);
    }
  }

  lemma SpreadSent(s: Race, s': Race, targets: set<nat>, peers: seq<set<nat>>)
    requires Spread(s, s', s.inFlight, targets) && LogStep(s.net, s'.net) && PeersShrink(s, s')
    requires SentBounded(s, peers) && |s'.net.nodes| == |s.net.nodes| && s.net.created <= s'.net.created
    ensures SentBounded(s', peers)
  {
    forall b ensures s'.sent[b] <= AppendDegrees(peers, s'.net.log, b, |peers|) {
      SpreadPaid(s, s', targets, peers, b);
    }
  }

  lemma SpreadCarried(s: Race, s': Race, targets: set<nat>)
    requires Spread(s, s', s.inFlight, targets) && Carried(s) && s.net.created <= s'.net.created
    requires |s'.net.log| > |s.net.log| ==> s'.net.log[|s.net.log|].1 in s'.net.created
    ensures forall m :: m in s'.inFlight ==> m.1 in s'.net.created
  {
    if |s'.net.log| > |s.net.log| {
      var b := s'.net.log[|s.net.log|].1;
      forall m | m in s'.inFlight ensures m.1 in s'.net.created {
        assert m in s.inFlight || m in Gossip.Copies(targets, b);
      }
    }
  }

  /** Moves without a spread append nothing and send nothing. */
  lemma QuietMove(h: Hashing, target: string, s: Race, v: Move, s': Race)
    requires RaceStep(h, target, s, v, s') && !v.Locked? && !v.Other?
    ensures s'.net.log == s.net.log && s'.sent == s.sent
    ensures forall m :: m in s'.inFlight ==> m in s.inFlight
  {}

  lemma StepCarried(h: Hashing, target: string, s: Race, v: Move, s': Race)
    requires RaceStep(h, target, s, v, s') && CollisionFree(h, s'.net.created) && Inv(h, s.net) && Carried(s)
    ensures Carried(s')
  {
    NetMove(h, target, s, v, s');
    if v.Locked? || v.Other? {
      SpreadCarried(s, s', v.targets);
    }
  }

  lemma StepSent(h: Hashing, target: string, s: Race, v: Move, s': Race, peers: seq<set<nat>>)
    requires RaceStep(h, target, s, v, s') && CollisionFree(h, s'.net.created)
    requires Inv(h, s.net) && SentBounded(s, peers)
    ensures Inv(h, s'.net) && SentBounded(s', peers)
  {
    NetMove(h, target, s, v, s');
    if v.Locked? || v.Other? {
      SpreadSent(s, s', v.targets, peers);
    } else {
      QuietMove(h, target, s, v, s');
    }
  }

  // ---- How long copies keep the network busy ------------------------------------------------

  /** Steps that the copies under way can still take. */
  ghost function Work(s: Race): nat {
    3 * |s.inFlight| + 2 * |s.tested| + |s.marked|
  }

  /** How many moves handled or lost a copy. */
  ghost function CopyMoves(moves: seq<Move>): nat {
    if moves == [] then 0
    else CopyMoves(moves[..|moves| - 1]) + if moves[|moves| - 1].Other? then 0 else 1
  }

  lemma SpreadWork(s: Race, s': Race, targets: set<nat>)
    requires Spread(s, s', s.inFlight, targets)
    ensures |s'.inFlight| + |s.sent| == |s.inFlight| + |s'.sent|
  {
    if |s'.net.log| > |s.net.log| {
      Gossip.CopiesCount(targets, s'.net.log[|s.net.log|].1);
    }
  }

  lemma StepWork(h: Hashing, target: string, s: Race, v: Move, s': Race)
    requires RaceStep(h, target, s, v, s')
    ensures Work(s') + (if v.Other? then 0 else 1) + 3 * |s.sent| <= Work(s) + 3 * |s'.sent|
  {
    if v.Locked? || v.Other? {
      SpreadWork(s, s', v.targets);
    }
  }

  lemma {:induction false} MultisetBound<T>(m: multiset<T>, keys: set<T>, most: nat)
    requires forall x :: x in m ==> x in keys
    requires forall x :: m[x] <= most
    ensures |m| <= Times(|keys|, most)
  {
    if keys == {} {
      assert m == multiset{};
    } else {
      var x :| x in keys;
      MultisetBound(m[x := 0], keys - {x}, most);
    }
  }

  /** What holds after every run. */
  ghost predicate RaceInv(h: Hashing, s: Race, peers: seq<set<nat>>, copyMoves: nat) {
    Inv(h, s.net) && SentBounded(s, peers) && Carried(s) && copyMoves + Work(s) <= 3 * |s.sent|
  }

  lemma {:induction false} RunRaceInv(h: Hashing, target: string, states: seq<Race>, moves: seq<Move>)
    requires IsRaceRun(h, target, states, moves) && CollisionFree(h, states[|moves|].net.created)
    ensures RaceInv(h, states[|moves|], states[0].peers, CopyMoves(moves))
  {
    if moves == [] {
      InitInv(h, states[0].net);
    } else {
      var k := |moves| - 1;
      var s, v, s' := states[k], moves[k], states[k + 1];
      assert RaceStep(h, target, s, v, s');
      CreatedKept(h, target, s, v, s');
      RunRaceInv(h, target, states[..k + 1], moves[..k]);
      StepSent(h, target, s, v, s', states[0].peers);
      StepCarried(h, target, s, v, s');
      StepWork(h, target, s, v, s');
    }
  }

  lemma CreatedKept(h: Hashing, target: string, s: Race, v: Move, s': Race)
    requires RaceStep(h, target, s, v, s') && CollisionFree(h, s'.net.created)
    ensures CollisionFree(h, s.net.created)
  {
    assert s.net.created <= s'.net.created;
  }

  /** Main result: with handlers racing past the seen test, mining and chain replacement going on,
      and messages lost or reordered, a block is sent at most once along every peer link, the
      miner's broadcast included, and the copies are handled in a bounded number of steps: three per
      link and created block. */
  lemma RacingFloodsEnd(h: Hashing, target: string, states: seq<Race>, moves: seq<Move>, b: BlockDict)
    requires IsRaceRun(h, target, states, moves) && CollisionFree(h, states[|moves|].net.created)
    ensures var (end, links) := (states[|moves|], Gossip.Degrees(states[0].peers, |states[0].peers|));
      && end.sent[b] <= links
      && CopyMoves(moves) <= 3 * Times(|end.net.created|, links)
  {
    RunRaceInv(h, target, states, moves);
    var end, peers := states[|moves|], states[0].peers;
    var links := Gossip.Degrees(peers, |peers|);
    forall x ensures end.sent[x] <= links {
      AppendsAtMostAll(peers, end.net.log, x, |peers|);
    }
    MultisetBound(end.sent, end.net.created, links);
  }
}

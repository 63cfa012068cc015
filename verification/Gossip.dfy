/** Why the flooding of a block dies out: each node passes a hash on at most once. */
module Gossip {
  import opened Bytes

  /** peers and seen per node; messages in flight as (destination, block hash); `sent` counts the
      forwarded copies of every hash. */
  datatype Flood = Flood(
    peers: seq<set<nat>>,
    seen: seq<set<string>>,
    inFlight: multiset<(nat, string)>,
    sent: multiset<string>)

  /** Sizes agree, and messages concern known nodes and hashes. */
  ghost predicate Valid(s: Flood, hashes: set<string>) {
    && |s.peers| == |s.seen|
    && (forall n, p :: 0 <= n < |s.peers| && p in s.peers[n] ==> p < |s.peers|)
    && (forall m :: m in s.inFlight ==> m.0 < |s.peers| && m.1 in hashes)
  }

  /** Peer sets only lose members (unreachable peers are dropped). */
  ghost predicate PeersShrink(s: Flood, s': Flood) {
    |s'.peers| == |s.peers| && forall n :: 0 <= n < |s.peers| ==> s'.peers[n] <= s.peers[n]
  }

  /** One message per target. */
  ghost function Copies<T(!new)>(targets: set<nat>, what: T): multiset<(nat, T)> {
    multiset(set t | t in targets :: (t, what))
  }

  /** A message is lost, or its receiver does an atomic check-and-add of the hash: a seen hash is
      dropped; a new one is marked and, if the block is accepted, forwarded to some of the peers
      (all but the origin, or none when the block is rejected). */
  ghost predicate Step(s: Flood, m: (nat, string), targets: set<nat>, lost: bool, s': Flood) {
    && m in s.inFlight && m.0 < |s.seen| && m.0 < |s.peers|
    && PeersShrink(s, s')
    && if lost || m.1 in s.seen[m.0] then
         s'.seen == s.seen && s'.inFlight == s.inFlight - multiset{m} && s'.sent == s.sent
       else
         && targets <= s.peers[m.0]
         && s'.seen == s.seen[m.0 := s.seen[m.0] + {m.1}]
         && s'.inFlight == s.inFlight - multiset{m} + Copies(targets, m.1)
         && s'.sent == s.sent[m.1 := s.sent[m.1] + |targets|]
  }

  datatype Move = Move(message: (nat, string), targets: set<nat>, lost: bool)

  ghost predicate IsRun(states: seq<Flood>, moves: seq<Move>, hashes: set<string>) {
    && |states| == |moves| + 1 && Valid(states[0], hashes)
    && forall i :: 0 <= i < |moves| ==>
         Step(states[i], moves[i].message, moves[i].targets, moves[i].lost, states[i + 1])
  }

  /** Copies the first n nodes may still forward: one round of peers per unseen hash. */
  ghost function Budget(s: Flood, hashes: set<string>, n: nat): nat
    requires n <= |s.peers| && |s.peers| == |s.seen|
  {
    if n == 0 then 0
    else Budget(s, hashes, n - 1) + Times(|hashes - s.seen[n - 1]|, |s.peers[n - 1]|)
  }

  /** Messages in flight plus what may still be forwarded. */
  ghost function Potential(s: Flood, hashes: set<string>): nat
    requires |s.peers| == |s.seen|
  {
    |s.inFlight| + Budget(s, hashes, |s.peers|)
  }

  lemma {:induction false} TimesGrows(k: nat, a: nat, b: nat)
    requires a <= b
    ensures Times(k, a) <= Times(k, b)
  {
    if k > 0 {
      TimesGrows(k - 1, a, b);
    }
  }

  lemma {:induction false} CopiesCount<T(!new)>(targets: set<nat>, what: T)
    ensures |Copies(targets, what)| == |targets|
  {
    if targets == {} {
      assert (set t | t in targets :: (t, what)) == {};
    } else {
      var t :| t in targets;
      CopiesCount(targets - {t}, what);
      assert (set u | u in targets :: (u, what)) == (set u | u in targets - {t} :: (u, what)) + {(t, what)};
      assert Copies(targets, what) == Copies(targets - {t}, what) + multiset{(t, what)};
    }
  }

  lemma SubsetSize<T>(a: set<T>, b: set<T>)
    requires a <= b
    ensures |a| <= |b|
  {
    assert b == a + (b - a);
    assert |b| == |a| + |b - a|;
  }

  /** The budget of the first n nodes does not grow, and drops by the receiver's degree when it
      sees a new hash. */
  lemma {:induction false} BudgetStep(s: Flood, v: Move, s': Flood, hashes: set<string>, n: nat)
    requires Valid(s, hashes) && Step(s, v.message, v.targets, v.lost, s') && n <= |s.peers|
    ensures |s'.peers| == |s'.seen| == |s.peers|
    ensures var (to, hash) := v.message;
      var isNew := !v.lost && hash !in s.seen[to] && to < n;
      Budget(s', hashes, n) + (if isNew then |s.peers[to]| else 0) <= Budget(s, hashes, n)
  {
    if n > 0 {
      BudgetStep(s, v, s', hashes, n - 1);
      var k, to, hash := n - 1, v.message.0, v.message.1;
      SubsetSize(s'.peers[k], s.peers[k]);
      TimesGrows(|hashes - s'.seen[k]|, |s'.peers[k]|, |s.peers[k]|);
      if k == to && !v.lost && hash !in s.seen[to] {
        assert hash in hashes - s.seen[k];
        assert hashes - s'.seen[k] == (hashes - s.seen[k]) - {hash};
      }
    }
  }

  lemma StepShrinks(s: Flood, v: Move, s': Flood, hashes: set<string>)
    requires Valid(s, hashes) && Step(s, v.message, v.targets, v.lost, s')
    ensures Valid(s', hashes) && Potential(s', hashes) < Potential(s, hashes)
  {
    BudgetStep(s, v, s', hashes, |s.peers|);
    var (to, hash) := v.message;
    if !v.lost && hash !in s.seen[to] {
      CopiesCount(v.targets, hash);
      SubsetSize(v.targets, s.peers[to]);
      assert |s'.inFlight| == |s.inFlight| - 1 + |v.targets|;
      forall m | m in s'.inFlight ensures m.0 < |s'.peers| && m.1 in hashes {
        if m !in s.inFlight {
          assert m in Copies(v.targets, hash);
        }
      }
    }
  }

  /** Main result: without new mining every run of deliveries and forwards is finite; its length
      is at most the messages in flight plus one round of peers per unseen (node, hash) pair. */
  lemma {:induction false} GossipTerminates(states: seq<Flood>, moves: seq<Move>, hashes: set<string>)
    requires IsRun(states, moves, hashes)
    ensures Valid(states[|moves|], hashes)
    ensures |moves| + Potential(states[|moves|], hashes) <= Potential(states[0], hashes)
  {
    if moves != [] {
      var k := |moves| - 1;
      GossipTerminates(states[..k + 1], moves[..k], hashes);
      StepShrinks(states[k], moves[k], states[k + 1], hashes);
    }
  }

  // ---- Forwards of one block ----------------------------------------------------------------

  /** The peers of the first n nodes, added up. */
  ghost function Degrees(peers: seq<set<nat>>, n: nat): nat
    requires n <= |peers|
  {
    if n == 0 then 0 else Degrees(peers, n - 1) + |peers[n - 1]|
  }

  /** The same over the nodes that have seen the hash. */
  ghost function SeenDegrees(peers: seq<set<nat>>, seen: seq<set<string>>, hash: string, n: nat): nat
    requires n <= |peers| == |seen|
  {
    if n == 0 then 0
    else SeenDegrees(peers, seen, hash, n - 1) + if hash in seen[n - 1] then |peers[n - 1]| else 0
  }

  lemma {:induction false} SeenAtMostAll(peers: seq<set<nat>>, seen: seq<set<string>>, hash: string, n: nat)
    requires n <= |peers| == |seen|
    ensures SeenDegrees(peers, seen, hash, n) <= Degrees(peers, n)
  {
    if n > 0 {
      SeenAtMostAll(peers, seen, hash, n - 1);
    }
  }

  lemma {:induction false} SeenGrows(peers: seq<set<nat>>, seen: seq<set<string>>, to: nat,
        newHash: string, hash: string, n: nat)
    requires n <= |peers| == |seen| && to < |seen| && newHash !in seen[to]
    ensures SeenDegrees(peers, seen[to := seen[to] + {newHash}], hash, n)
         == SeenDegrees(peers, seen, hash, n) + if hash == newHash && to < n then |peers[to]| else 0
  {
    if n > 0 {
      SeenGrows(peers, seen, to, newHash, hash, n - 1);
    }
  }

  /** Main result: counted from any state, a block is forwarded at most once along every peer
      link: at most as many copies as all peer sets have members together. */
  lemma {:induction false} ForwardsBounded(states: seq<Flood>, moves: seq<Move>, hashes: set<string>, hash: string)
    requires IsRun(states, moves, hashes) && states[0].sent == multiset{}
    ensures |states[|moves|].seen| == |states[0].peers| && PeersShrink(states[0], states[|moves|])
    ensures states[|moves|].sent[hash] <= SeenDegrees(states[0].peers, states[|moves|].seen, hash, |states[0].peers|)
    ensures states[|moves|].sent[hash] <= Degrees(states[0].peers, |states[0].peers|)
  {
    if moves != [] {
      var k := |moves| - 1;
      ForwardsBounded(states[..k + 1], moves[..k], hashes, hash);
      var s, v := states[k], moves[k];
      var (to, newHash) := v.message;
      assert Step(s, v.message, v.targets, v.lost, states[k + 1]);
      if !v.lost && newHash !in s.seen[to] {
        SeenGrows(states[0].peers, s.seen, to, newHash, hash, |states[0].peers|);
        SubsetSize(v.targets, states[0].peers[to]);
      }
    }
    SeenAtMostAll(states[0].peers, states[|moves|].seen, hash, |states[0].peers|);
  }
}

/** The Merkle tree of a list of leaves, for any way `node` of hashing two neighbours together. */
module MerkleTree {
  import opened Bytes

  type Node<!T> = (T, T) -> T

  function Pow2(k: nat): (p: nat)
    ensures p >= 1
  {
    if k == 0 then 1 else 2 * Pow2(k - 1)
  }

  /** ceil(log2 n): the least k with n <= 2^k. */
  function CeilLog2(n: nat): (k: nat)
    requires n >= 1
    ensures n <= Pow2(k) && (k > 0 ==> Pow2(k - 1) < n)
  {
    if n == 1 then 0 else CeilLog2((n + 1) / 2) + 1
  }

  /** One round of the loop: one parent per pair of neighbours, a last odd hash paired with itself. */
  function LevelUp<T>(node: Node<T>, hs: seq<T>): (r: seq<T>)
    ensures |hs| <= 2 * |r| <= |hs| + 1
  {
    if hs == [] then []
    else if |hs| == 1 then [node(hs[0], hs[0])]
    else [node(hs[0], hs[1])] + LevelUp(node, hs[2..])
  }

  /** Reference: the root of the perfect binary tree over 2^k leaves. */
  function PerfectRoot<T>(node: Node<T>, xs: seq<T>, k: nat): T
    requires |xs| == Pow2(k)
  {
    if k == 0 then xs[0]
    else node(PerfectRoot(node, xs[..Pow2(k - 1)], k - 1), PerfectRoot(node, xs[Pow2(k - 1)..], k - 1))
  }

  /** Reference: the leaves extended to 2^k by repeating the last subtree wherever one is missing. */
  function Extend<T>(xs: seq<T>, k: nat): (r: seq<T>)
    requires 1 <= |xs| <= Pow2(k)
    ensures |r| == Pow2(k)
    ensures xs <= r
  {
    if k == 0 then xs
    else if |xs| > Pow2(k - 1) then xs[..Pow2(k - 1)] + Extend(xs[Pow2(k - 1)..], k - 1)
    else Extend(xs, k - 1) + Extend(xs, k - 1)
  }

  lemma Regroup<T>(a: seq<T>, b: seq<T>, c: seq<T>)
    ensures a + b + c == a + (b + c)
  {}

  /** A front part with 2m hashes goes through a round on its own. */
  lemma {:induction false} LevelUpAdd<T>(node: Node<T>, l: seq<T>, r: seq<T>, m: nat)
    requires |l| == 2 * m
    ensures LevelUp(node, l + r) == LevelUp(node, l) + LevelUp(node, r)
    decreases m
  {
    if m == 0 {
      assert l + r == r;
    } else {
      LevelUpAdd(node, l[2..], r, m - 1);
      assert (l + r)[2..] == l[2..] + r && (l + r)[..2] == l[..2];
      LevelUpFront(node, l);
      LevelUpFront(node, l + r);
      Regroup([node(l[0], l[1])], LevelUp(node, l[2..]), LevelUp(node, r));
    }
  }

  lemma LevelUpFront<T>(node: Node<T>, hs: seq<T>)
    requires |hs| >= 2
    ensures LevelUp(node, hs) == [node(hs[0], hs[1])] + LevelUp(node, hs[2..])
  {}

  lemma ExtendSplit<T>(l: seq<T>, r: seq<T>, k: nat)
    requires k > 0 && |l| == Pow2(k - 1) && 1 <= |r| <= Pow2(k - 1)
    ensures Extend(l + r, k) == l + Extend(r, k - 1)
  {
    assert (l + r)[..|l|] == l && (l + r)[|l|..] == r;
  }

  lemma ExtendDouble<T>(hs: seq<T>, k: nat)
    requires k > 0 && 1 <= |hs| <= Pow2(k - 1)
    ensures Extend(hs, k) == Extend(hs, k - 1) + Extend(hs, k - 1)
  {}

  lemma RootSplit<T>(node: Node<T>, l: seq<T>, r: seq<T>, k: nat)
    requires k > 0 && |l| == |r| == Pow2(k - 1)
    ensures PerfectRoot(node, l + r, k) == node(PerfectRoot(node, l, k - 1), PerfectRoot(node, r, k - 1))
  {
    assert (l + r)[..|l|] == l && (l + r)[|l|..] == r;
  }

  lemma ExtendPairOfLeaves<T>(hs: seq<T>)
    requires 1 <= |hs| <= 2
    ensures Pow2(1) == 2 && Extend(hs, 1) == if |hs| == 1 then hs + hs else hs
  {
    if |hs| == 2 {
      ExtendSplit(hs[..1], hs[1..], 1);
      assert hs == hs[..1] + hs[1..];
    }
  }

  /** A round on the extended leaves is the extension of the next level. */
  lemma {:induction false} ExtendThenPair<T>(node: Node<T>, hs: seq<T>, k: nat)
    requires k > 0 && 1 <= |hs| <= Pow2(k)
    ensures LevelUp(node, Extend(hs, k)) == Extend(LevelUp(node, hs), k - 1)
    decreases k, 1
  {
    if k == 1 {
      PairExtendOne(node, hs);
    } else if |hs| <= Pow2(k - 1) {
      ShortExtendThenPair(node, hs, k);
    } else {
      LongExtendThenPair(node, hs, k);
    }
  }

  lemma {:induction false} ShortExtendThenPair<T>(node: Node<T>, hs: seq<T>, k: nat)
    requires k > 1 && 1 <= |hs| <= Pow2(k - 1)
    ensures LevelUp(node, Extend(hs, k)) == Extend(LevelUp(node, hs), k - 1)
    decreases k, 0
  {
    ExtendThenPair(node, hs, k - 1);
    PairExtendDouble(node, hs, k);
  }

  lemma {:induction false} LongExtendThenPair<T>(node: Node<T>, hs: seq<T>, k: nat)
    requires k > 1 && Pow2(k - 1) < |hs| <= Pow2(k)
    ensures LevelUp(node, Extend(hs, k)) == Extend(LevelUp(node, hs), k - 1)
    decreases k, 0
  {
    var l, r := hs[..Pow2(k - 1)], hs[Pow2(k - 1)..];
    ExtendThenPair(node, r, k - 1);
    PairExtendSplit(node, l, r, k);
    assert hs == l + r;
  }

  lemma PairExtendOne<T>(node: Node<T>, hs: seq<T>)
    requires 1 <= |hs| <= Pow2(1)
    ensures LevelUp(node, Extend(hs, 1)) == Extend(LevelUp(node, hs), 0)
  {
    ExtendPairOfLeaves(hs);
    if |hs| == 2 {
      assert LevelUp(node, hs[2..]) == [];
    } else {
      assert LevelUp(node, (hs + hs)[2..]) == [];
    }
  }

  lemma PairExtendDouble<T>(node: Node<T>, hs: seq<T>, k: nat)
    requires k > 1 && 1 <= |hs| <= Pow2(k - 1)
    requires LevelUp(node, Extend(hs, k - 1)) == Extend(LevelUp(node, hs), k - 2)
    ensures LevelUp(node, Extend(hs, k)) == Extend(LevelUp(node, hs), k - 1)
  {
    var sub := Extend(hs, k - 1);
    LevelUpAdd(node, sub, sub, Pow2(k - 2));
    ExtendDouble(hs, k);
    ExtendDouble(LevelUp(node, hs), k - 1);
  }

  lemma PairExtendSplit<T>(node: Node<T>, l: seq<T>, r: seq<T>, k: nat)
    requires k > 1 && |l| == Pow2(k - 1) && 1 <= |r| <= Pow2(k - 1)
    requires LevelUp(node, Extend(r, k - 1)) == Extend(LevelUp(node, r), k - 2)
    ensures LevelUp(node, Extend(l + r, k)) == Extend(LevelUp(node, l + r), k - 1)
  {
    ExtendSplit(l, r, k);
    LevelUpAdd(node, l, Extend(r, k - 1), Pow2(k - 2));
    LevelUpAdd(node, l, r, Pow2(k - 2));
    ExtendSplit(LevelUp(node, l), LevelUp(node, r), k - 1);
  }

  /** The root of a perfect tree is the root of its next level. */
  lemma {:induction false} RootOfPairs<T>(node: Node<T>, xs: seq<T>, k: nat)
    requires k > 0 && |xs| == Pow2(k)
    ensures PerfectRoot(node, LevelUp(node, xs), k - 1) == PerfectRoot(node, xs, k)
    decreases k
  {
    var l, r := xs[..Pow2(k - 1)], xs[Pow2(k - 1)..];
    if k > 1 {
      RootOfPairs(node, l, k - 1);
      RootOfPairs(node, r, k - 1);
      RootOfPairsJoined(node, l, r, k);
    }
    assert xs == l + r;
  }

  lemma RootOfPairsJoined<T>(node: Node<T>, l: seq<T>, r: seq<T>, k: nat)
    requires k > 1 && |l| == |r| == Pow2(k - 1)
    requires PerfectRoot(node, LevelUp(node, l), k - 2) == PerfectRoot(node, l, k - 1)
    requires PerfectRoot(node, LevelUp(node, r), k - 2) == PerfectRoot(node, r, k - 1)
    ensures PerfectRoot(node, LevelUp(node, l + r), k - 1) == PerfectRoot(node, l + r, k)
  {
    LevelUpAdd(node, l, r, Pow2(k - 2));
    RootSplit(node, LevelUp(node, l), LevelUp(node, r), k - 1);
    RootSplit(node, l, r, k);
  }

  /** The list has depth k: it fits 2^k leaves but not 2^(k-1). */
  predicate AtDepth<T>(hs: seq<T>, k: nat) {
    1 <= |hs| <= Pow2(k) && (k > 0 ==> Pow2(k - 1) < |hs|)
  }

  function RootAt<T>(node: Node<T>, hs: seq<T>, k: nat): T
    requires AtDepth(hs, k)
  {
    PerfectRoot(node, Extend(hs, k), k)
  }

  /** One round keeps the reference root and takes one level off. */
  lemma LevelUpKeepsRoot<T>(node: Node<T>, hs: seq<T>, k: nat)
    requires k > 0 && AtDepth(hs, k)
    ensures AtDepth(LevelUp(node, hs), k - 1)
    ensures RootAt(node, LevelUp(node, hs), k - 1) == RootAt(node, hs, k)
  {
    ExtendThenPair(node, hs, k);
    RootOfPairs(node, Extend(hs, k), k);
  }

  /** The reference root of a non-empty list of leaf hashes. */
  function TreeRoot<T>(node: Node<T>, leaves: seq<T>): T
    requires leaves != []
  {
    RootAt(node, leaves, CeilLog2(|leaves|))
  }

  /** Repeating the last hash of an odd list does not change its next level. */
  lemma {:induction false} OddLevel<T>(node: Node<T>, hs: seq<T>, m: nat)
    requires |hs| == 2 * m + 1
    ensures LevelUp(node, hs + [hs[|hs| - 1]]) == LevelUp(node, hs)
  {
    var l, last := hs[..2 * m], hs[|hs| - 1];
    LevelUpAdd(node, l, [last], m);
    LevelUpAdd(node, l, [last, last], m);
    assert hs == l + [last] && hs + [last] == l + [last, last];
  }

  /** The body of the loop: duplicate the last hash of an odd list, then pair up neighbours. */
  method NextLevel<T>(node: Node<T>, hashes: seq<T>) returns (r: seq<T>)
    requires hashes != []
    ensures r == LevelUp(node, hashes)
  {
    var even := hashes;
    if |hashes| % 2 != 0 {
      OddLevel(node, hashes, |hashes| / 2);
      even := even + [even[|even| - 1]];
    }
    r := PairLevel(node, even, (|hashes| + 1) / 2);
  }

  /** The pairing comprehension over an even list. */
  method PairLevel<T>(node: Node<T>, even: seq<T>, ghost m: nat) returns (r: seq<T>)
    requires |even| == 2 * m
    ensures r == LevelUp(node, even)
  {
    r := [];
    var i := 0;
    ghost var j := 0;
    while i < |even|
      invariant i == 2 * j && j <= m
      invariant r + LevelUp(node, even[i..]) == LevelUp(node, even)
    {
      assert even[i..][2..] == even[i + 2..];
      LevelUpFront(node, even[i..]);
      Regroup(r, [node(even[i], even[i + 1])], LevelUp(node, even[i + 2..]));
      r := r + [node(even[i], even[i + 1])];
      i, j := i + 2, j + 1;
    }
    assert even[i..] == [];
  }

  /** The `while` loop of `_compute_merkle_root`; `levels` counts its rounds. */
  method RootLoop<T>(node: Node<T>, leaves: seq<T>) returns (root: T, levels: nat)
    requires leaves != []
    ensures root == TreeRoot(node, leaves)
    ensures levels == CeilLog2(|leaves|)
  {
    var hashes := leaves;
    ghost var k := CeilLog2(|leaves|);
    levels := 0;
    while |hashes| > 1
      invariant AtDepth(hashes, k)
      invariant RootAt(node, hashes, k) == TreeRoot(node, leaves)
      invariant levels + k == CeilLog2(|leaves|)
      decreases k
    {
      LevelUpKeepsRoot(node, hashes, k);
      hashes := NextLevel(node, hashes);
      k := k - 1;
      levels := levels + 1;
    }
    assert k == 0;
    root := hashes[0];
  }

  // ---- Binding ------------------------------------------------------------------------------

  /** Two different pairs of children with one parent hash. */
  datatype Clash<T> = Clash(l1: T, r1: T, l2: T, r2: T)

  ghost predicate IsClash<T(!new)>(node: Node<T>, c: Clash<T>) {
    (c.l1, c.r1) != (c.l2, c.r2) && node(c.l1, c.r1) == node(c.l2, c.r2)
  }

  /** Walk down two trees with equal roots to the first node whose children differ. */
  ghost function FindClash<T(!new)>(node: Node<T>, xs: seq<T>, ys: seq<T>, k: nat): Option<Clash<T>>
    requires |xs| == |ys| == Pow2(k)
  {
    if k == 0 then None
    else
      var half := Pow2(k - 1);
      var c := Clash(PerfectRoot(node, xs[..half], k - 1), PerfectRoot(node, xs[half..], k - 1),
                     PerfectRoot(node, ys[..half], k - 1), PerfectRoot(node, ys[half..], k - 1));
      if (c.l1, c.r1) != (c.l2, c.r2) then Some(c)
      else
        var left := FindClash(node, xs[..half], ys[..half], k - 1);
        if left.Some? then left else FindClash(node, xs[half..], ys[half..], k - 1)
  }

  /** Equal roots over 2^k leaves: equal leaves, or the walk ends at a clash. */
  lemma {:induction false} PerfectRootBinds<T(!new)>(node: Node<T>, xs: seq<T>, ys: seq<T>, k: nat)
    requires |xs| == |ys| == Pow2(k)
    requires PerfectRoot(node, xs, k) == PerfectRoot(node, ys, k)
    ensures FindClash(node, xs, ys, k) == None ==> xs == ys
    ensures FindClash(node, xs, ys, k).Some? ==> IsClash(node, FindClash(node, xs, ys, k).value)
  {
    if k > 0 {
      var half := Pow2(k - 1);
      assert xs == xs[..half] + xs[half..] && ys == ys[..half] + ys[half..];
      if PerfectRoot(node, xs[..half], k - 1) == PerfectRoot(node, ys[..half], k - 1)
         && PerfectRoot(node, xs[half..], k - 1) == PerfectRoot(node, ys[half..], k - 1) {
        PerfectRootBinds(node, xs[..half], ys[..half], k - 1);
        PerfectRootBinds(node, xs[half..], ys[half..], k - 1);
      }
    }
  }

  /** Lists of equal length have equal extensions only if they are equal. */
  lemma ExtendInjective<T>(xs: seq<T>, ys: seq<T>, k: nat)
    requires 1 <= |xs| == |ys| <= Pow2(k)
    requires Extend(xs, k) == Extend(ys, k)
    ensures xs == ys
  {
    assert xs == Extend(xs, k)[..|xs|] && ys == Extend(ys, k)[..|ys|];
  }

  /** Two lists of the same depth have one root exactly when their extensions agree, unless the
      walk finds a clash. */
  lemma TreeRootBinds<T(!new)>(node: Node<T>, xs: seq<T>, ys: seq<T>)
    requires xs != [] && ys != [] && CeilLog2(|xs|) == CeilLog2(|ys|)
    ensures var k := CeilLog2(|xs|);
      var clash := FindClash(node, Extend(xs, k), Extend(ys, k), k);
      && (Extend(xs, k) == Extend(ys, k) ==> TreeRoot(node, xs) == TreeRoot(node, ys))
      && (TreeRoot(node, xs) == TreeRoot(node, ys) ==>
            Extend(xs, k) == Extend(ys, k) || (clash.Some? && IsClash(node, clash.value)))
  {
    var k := CeilLog2(|xs|);
    if TreeRoot(node, xs) == TreeRoot(node, ys) {
      PerfectRootBinds(node, Extend(xs, k), Extend(ys, k), k);
    }
  }

  /** Without equal lengths the root does not bind the list: repeating the last leaf of an odd
      list never changes it. */
  lemma OddTailRepeats<T>(node: Node<T>, xs: seq<T>)
    requires |xs| % 2 == 1 && |xs| > 1
    ensures xs + [xs[|xs| - 1]] != xs
    ensures TreeRoot(node, xs + [xs[|xs| - 1]]) == TreeRoot(node, xs)
  {
    var k, longer := CeilLog2(|xs|), xs + [xs[|xs| - 1]];
    assert Pow2(k) == 2 * Pow2(k - 1);
    CeilLog2Unique(|longer|, k);
    OddLevel(node, xs, |xs| / 2);
    LevelUpKeepsRoot(node, xs, k);
    LevelUpKeepsRoot(node, longer, k);
  }

  lemma {:induction false} CeilLog2Unique(n: nat, k: nat)
    requires 1 <= n <= Pow2(k) && (k > 0 ==> Pow2(k - 1) < n)
    ensures CeilLog2(n) == k
  {
    if CeilLog2(n) < k {
      Pow2Monotone(CeilLog2(n), k - 1);
    } else if k < CeilLog2(n) {
      Pow2Monotone(k, CeilLog2(n) - 1);
    }
  }

  lemma {:induction false} Pow2Monotone(j: nat, k: nat)
    requires j <= k
    ensures Pow2(j) <= Pow2(k)
  {
    if j < k {
      Pow2Monotone(j, k - 1);
    }
  }

  // ---- The rounds themselves ----------------------------------------------------------------

  /** Each hash of a round is made of two neighbours below, a last odd one being taken twice. */
  ghost predicate IsRound<T>(node: Node<T>, below: seq<T>, above: seq<T>) {
    && |above| == (|below| + 1) / 2
    && forall i :: 0 <= i < |above| ==>
         above[i] == node(below[2 * i], if 2 * i + 1 < |below| then below[2 * i + 1] else below[2 * i])
  }

  /** From the leaves, round by round, to a single hash. */
  ghost predicate AreRounds<T>(node: Node<T>, rounds: seq<seq<T>>, leaves: seq<T>) {
    && rounds != [] && rounds[0] == leaves && |rounds[|rounds| - 1]| == 1
    && forall j :: 0 <= j < |rounds| - 1 ==> |rounds[j]| > 1 && IsRound(node, rounds[j], rounds[j + 1])
  }

  lemma {:induction false} LevelUpIsRound<T>(node: Node<T>, hs: seq<T>)
    ensures IsRound(node, hs, LevelUp(node, hs))
  {
    if |hs| > 1 {
      LevelUpIsRound(node, hs[2..]);
      var above, rest := LevelUp(node, hs), LevelUp(node, hs[2..]);
      forall i | 0 <= i < |above|
        ensures above[i] == node(hs[2 * i], if 2 * i + 1 < |hs| then hs[2 * i + 1] else hs[2 * i])
      {
        if i > 0 {
          assert above[i] == rest[i - 1];
        }
      }
    }
  }

  lemma SameRound<T>(node: Node<T>, below: seq<T>, above: seq<T>)
    requires IsRound(node, below, above)
    ensures above == LevelUp(node, below)
  {
    LevelUpIsRound(node, below);
  }

  lemma RootAtItsDepth<T>(node: Node<T>, hs: seq<T>, k: nat)
    requires AtDepth(hs, k)
    ensures TreeRoot(node, hs) == RootAt(node, hs, k)
  {
    CeilLog2Unique(|hs|, k);
  }

  lemma TreeRootStep<T>(node: Node<T>, leaves: seq<T>, k: nat)
    requires k > 0 && AtDepth(leaves, k)
    ensures LevelUp(node, leaves) != [] && TreeRoot(node, LevelUp(node, leaves)) == TreeRoot(node, leaves)
  {
    LevelUpKeepsRoot(node, leaves, k);
    RootAtItsDepth(node, leaves, k);
    RootAtItsDepth(node, LevelUp(node, leaves), k - 1);
  }

  /** Whatever the rounds are called, they end at the reference root. */
  lemma {:induction false} RoundsEndAtRoot<T>(node: Node<T>, rounds: seq<seq<T>>, leaves: seq<T>)
    requires AreRounds(node, rounds, leaves)
    ensures leaves != [] && rounds[|rounds| - 1] == [TreeRoot(node, leaves)]
  {
    if |rounds| == 1 {
      assert TreeRoot(node, leaves) == leaves[0];
    } else {
      assert IsRound(node, rounds[0], rounds[1]);
      SameRound(node, leaves, rounds[1]);
      TreeRootStep(node, leaves, CeilLog2(|leaves|));
      RoundsEndAtRoot(node, rounds[1..], rounds[1]);
    }
  }

  lemma {:induction false} RoundsExist<T>(node: Node<T>, leaves: seq<T>) returns (rounds: seq<seq<T>>)
    requires leaves != []
    ensures AreRounds(node, rounds, leaves)
    decreases |leaves|
  {
    if |leaves| == 1 {
      rounds := [leaves];
    } else {
      var rest := RoundsExist(node, LevelUp(node, leaves));
      LevelUpIsRound(node, leaves);
      rounds := [leaves] + rest;
    }
  }
}

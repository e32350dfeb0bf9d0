/** The ordered Merkle root over a block's transaction ids: the level-by-level loop, the top-down tree it is
    proved to build, and what the root binds. */
module MerkleList {
  import opened ByteStrings
  import opened Hashing

  /** The largest power of two below `n`: where the tree over `n` items splits. */
  function SplitPoint(n: nat): (k: nat)
    requires n >= 2
    ensures 1 <= k < n <= 2 * k
    ensures n > 2 ==> k % 2 == 0
  {
    if n == 2 then 1 else 2 * SplitPoint((n + 1) / 2)
  }

  /** The reference: a left subtree over the first power of two, the rest on the right. */
  function Reduce(h: HashFn, ds: seq<Digest>): Digest
    requires ds != []
    decreases |ds|
  {
    if |ds| == 1 then ds[0]
    else var k := SplitPoint(|ds|); HashNode(h, Reduce(h, ds[..k]), Reduce(h, ds[k..]))
  }

  function LeafDigests(h: HashFn, leaves: seq<Bytes>): (ds: seq<Digest>)
    ensures |ds| == |leaves| && forall i | 0 <= i < |leaves| :: ds[i] == HashLeaf(h, leaves[i])
  {
    seq(|leaves|, i requires 0 <= i < |leaves| => HashLeaf(h, leaves[i]))
  }

  const EMPTY_STRING: Bytes := [0x00]

  /** Empty input has a fixed root of its own. */
  function RootOf(h: HashFn, leaves: seq<Bytes>): Digest {
    if leaves == [] then h(EMPTY_STRING) else Reduce(h, LeafDigests(h, leaves))
  }

  /** One level up: neighbours hashed together, an odd last node promoted unchanged. */
  function PairUp(h: HashFn, ds: seq<Digest>): (r: seq<Digest>)
    ensures |r| == (|ds| + 1) / 2
  {
    if |ds| < 2 then ds else [HashNode(h, ds[0], ds[1])] + PairUp(h, ds[2..])
  }

  /** Pairing up commutes with cutting at an even place. */
  lemma {:induction false} PairUpCut(h: HashFn, ds: seq<Digest>, k: nat)
    requires 2 * k <= |ds|
    ensures PairUp(h, ds)[..k] == PairUp(h, ds[..2 * k]) && PairUp(h, ds)[k..] == PairUp(h, ds[2 * k..])
  {
    if k == 0 {
      assert ds[..0] == [] && ds[0..] == ds;
    } else {
      PairUpCut(h, ds[2..], k - 1);
      assert ds[2..][..2 * (k - 1)] == ds[..2 * k][2..];
      assert ds[2..][2 * (k - 1)..] == ds[2 * k..];
    }
  }

  /** A level has the root of the level below it. */
  lemma {:induction false} PairUpKeepsRoot(h: HashFn, ds: seq<Digest>)
    requires |ds| >= 1
    ensures Reduce(h, PairUp(h, ds)) == Reduce(h, ds)
    decreases |ds|
  {
    if |ds| == 2 {
      assert ds[..1] == [ds[0]] && ds[1..] == [ds[1]];
    } else if |ds| > 2 {
      var k := SplitPoint(|ds|);
      PairUpCut(h, ds, k / 2);
      PairUpKeepsRoot(h, ds[..k]);
      PairUpKeepsRoot(h, ds[k..]);
    }
  }

  lemma PairUpStep(h: HashFn, ds: seq<Digest>)
    ensures |ds| < 2 ==> PairUp(h, ds) == ds
    ensures |ds| >= 2 ==> PairUp(h, ds) == [HashNode(h, ds[0], ds[1])] + PairUp(h, ds[2..])
  {
  }

  /** The inner loop: one level up. */
  method PairLevel(h: HashFn, level: seq<Digest>) returns (next: seq<Digest>)
    ensures next == PairUp(h, level)
  {
    hide PairUp, HashNode;
    next := [];
    var i := 0;
    ghost var rest := level;
    while i < |level|
      invariant 0 <= i && rest == (if i <= |level| then level[i..] else [])
      invariant next + PairUp(h, rest) == PairUp(h, level)
    {
      PairUpStep(h, rest);
      if i + 1 < |level| {
        next := next + [HashNode(h, level[i], level[i + 1])];
        rest := rest[2..];
      } else {
        next := next + [level[i]];
        rest := [];
        PairUpStep(h, []);
      }
      i := i + 2;
    }
    PairUpStep(h, []);
  }

  /** **Refinement.** The loop over levels computes the root of the top-down tree. */
  method MerkleRoot(h: HashFn, leaves: seq<Bytes>) returns (root: Digest)
    ensures root == RootOf(h, leaves)
  {
    if |leaves| == 0 { return h([0x00]); }
    var level := LeafDigests(h, leaves);
    while |level| > 1
      invariant |level| >= 1 && Reduce(h, level) == RootOf(h, leaves)
      decreases |level|
    {
      PairUpKeepsRoot(h, level);
      level := PairLevel(h, level);
    }
    return level[0];
  }

  // ----- binding -----

  /** Every string hashed on the way to the root of `ds`. */
  function ReduceStrings(h: HashFn, ds: seq<Digest>): set<Bytes>
    requires ds != []
    decreases |ds|
  {
    if |ds| == 1 then {}
    else
      var k := SplitPoint(|ds|);
      {NodeString(Reduce(h, ds[..k]), Reduce(h, ds[k..]))} + ReduceStrings(h, ds[..k]) + ReduceStrings(h, ds[k..])
  }

  function RootStrings(h: HashFn, leaves: seq<Bytes>): set<Bytes> {
    if leaves == [] then {EMPTY_STRING}
    else (set v | v in leaves :: LeafString(v)) + ReduceStrings(h, LeafDigests(h, leaves))
  }

  ghost predicate IsLeaf(h: HashFn, d: Digest, s: set<Bytes>) {
    exists v :: LeafString(v) in s && d == HashLeaf(h, v)
  }

  ghost predicate AllLeaves(h: HashFn, ds: seq<Digest>, s: set<Bytes>) {
    forall i | 0 <= i < |ds| :: IsLeaf(h, ds[i], s)
  }

  lemma LeafIsNotRoot(h: HashFn, d: Digest, ds: seq<Digest>, s: set<Bytes>)
    requires IsLeaf(h, d, s) && |ds| > 1 && ReduceStrings(h, ds) <= s && CollisionFree(h, s)
    ensures d != Reduce(h, ds)
  {
    var v :| LeafString(v) in s && d == HashLeaf(h, v);
    var k := SplitPoint(|ds|);
    LeafIsNotNode(v, Reduce(h, ds[..k]), Reduce(h, ds[k..]));
  }

  /** The two halves of a list of leaf digests. */
  lemma Halves(h: HashFn, ds: seq<Digest>, s: set<Bytes>) returns (l: seq<Digest>, r: seq<Digest>)
    requires |ds| > 1 && ReduceStrings(h, ds) <= s && AllLeaves(h, ds, s)
    ensures ds == l + r && l != [] && r != []
    ensures Reduce(h, ds) == HashNode(h, Reduce(h, l), Reduce(h, r))
    ensures NodeString(Reduce(h, l), Reduce(h, r)) in s
    ensures ReduceStrings(h, l) <= s && ReduceStrings(h, r) <= s
    ensures AllLeaves(h, l, s) && AllLeaves(h, r, s)
  {
    hide HashNode, NodeString, IsLeaf;
    var k := SplitPoint(|ds|);
    l, r := ds[..k], ds[k..];
  }

  /** Equal roots over leaf digests force equal digest lists, lengths included. */
  lemma {:induction false} ReduceBinds(h: HashFn, ds: seq<Digest>, es: seq<Digest>, s: set<Bytes>)
    requires ds != [] && es != [] && Reduce(h, ds) == Reduce(h, es) && CollisionFree(h, s)
    requires ReduceStrings(h, ds) <= s && ReduceStrings(h, es) <= s
    requires AllLeaves(h, ds, s) && AllLeaves(h, es, s)
    ensures ds == es
    decreases |ds|
  {
    hide ReduceStrings, NodeString, IsLeaf;
    if |ds| == 1 && |es| > 1 { LeafIsNotRoot(h, ds[0], es, s); }
    if |es| == 1 && |ds| > 1 { LeafIsNotRoot(h, es[0], ds, s); }
    if |ds| > 1 && |es| > 1 {
      var a, b := Halves(h, ds, s);
      var c, d := Halves(h, es, s);
      NodeStringSplits(Reduce(h, a), Reduce(h, b), Reduce(h, c), Reduce(h, d));
      ReduceBinds(h, a, c, s);
      ReduceBinds(h, b, d, s);
    }
  }

  lemma LeafDigestsBind(h: HashFn, xs: seq<Bytes>, ys: seq<Bytes>, s: set<Bytes>)
    requires LeafDigests(h, xs) == LeafDigests(h, ys) && CollisionFree(h, s)
    requires forall v | v in xs + ys :: LeafString(v) in s
    ensures xs == ys
  {
    forall i | 0 <= i < |xs| ensures |xs| == |ys| && xs[i] == ys[i] {
      assert |xs| == |LeafDigests(h, ys)|;
      assert xs[i] in xs + ys && ys[i] in xs + ys;
      assert LeafDigests(h, xs)[i] == LeafDigests(h, ys)[i];
      LeafStringInjective(xs[i], ys[i]);
    }
    assert |xs| == |LeafDigests(h, ys)|;
  }

  /** A non-empty list's root is the hash of one of its own strings. */
  lemma RootIsHashed(h: HashFn, leaves: seq<Bytes>)
    requires leaves != []
    ensures |leaves| == 1 ==> RootOf(h, leaves) == HashLeaf(h, leaves[0])
    ensures |leaves| > 1 ==> exists l: Digest, r: Digest ::
                NodeString(l, r) in RootStrings(h, leaves) && RootOf(h, leaves) == HashNode(h, l, r)
  {
    var ds := LeafDigests(h, leaves);
    if |leaves| > 1 {
      var k := SplitPoint(|ds|);
      assert NodeString(Reduce(h, ds[..k]), Reduce(h, ds[k..])) in RootStrings(h, leaves);
    }
  }

  /** The empty list shares its root with the one-leaf list whose leaf is empty, and with nothing else. */
  predicate EmptyPair(xs: seq<Bytes>, ys: seq<Bytes>) { xs == [] && ys == [[]] }

  lemma EmptyLeafSharesRoot(h: HashFn)
    ensures RootOf(h, []) == RootOf(h, [[]])
  {
    assert LeafString([]) == EMPTY_STRING;
    assert LeafDigests(h, [[]])[0] == h(EMPTY_STRING);
  }

  lemma EmptyRootBinds(h: HashFn, ys: seq<Bytes>)
    requires RootOf(h, []) == RootOf(h, ys) && ys != []
    requires CollisionFree(h, {EMPTY_STRING} + RootStrings(h, ys))
    ensures ys == [[]]
  {
    RootIsHashed(h, ys);
    if |ys| == 1 {
      assert ys[0] in ys;
      assert LeafString(ys[0]) == EMPTY_STRING;
      assert |LeafString(ys[0])| == 1 + |ys[0]|;
    }
  }

  /** **Binding.** For leaves of any length, equal roots mean equal lists, length included, with one exception
      that 32-byte leaves rule out: the empty list and the list of one empty leaf. */
  lemma RootBindsList(h: HashFn, xs: seq<Bytes>, ys: seq<Bytes>)
    requires CollisionFree(h, RootStrings(h, xs) + RootStrings(h, ys))
    ensures RootOf(h, xs) == RootOf(h, ys) <==> xs == ys || EmptyPair(xs, ys) || EmptyPair(ys, xs)
  {
    var s := RootStrings(h, xs) + RootStrings(h, ys);
    EmptyLeafSharesRoot(h);
    if RootOf(h, xs) == RootOf(h, ys) {
      if xs == [] || ys == [] {
        if xs == [] && ys != [] { EmptyRootBinds(h, ys); }
        if ys == [] && xs != [] { EmptyRootBinds(h, xs); }
      } else {
        var ds, es := LeafDigests(h, xs), LeafDigests(h, ys);
        assert forall v | v in xs + ys :: LeafString(v) in s;
        forall i | 0 <= i < |ds| ensures IsLeaf(h, ds[i], s) { assert xs[i] in xs; }
        forall i | 0 <= i < |es| ensures IsLeaf(h, es[i], s) { assert ys[i] in ys; }
        ReduceBinds(h, ds, es, s);
        LeafDigestsBind(h, xs, ys, s);
      }
    }
  }
}

/** Inclusion and exclusion proofs over the Sparse Merkle Tree: completeness, soundness and binding. */
module MerkleProofs {
  import opened ByteStrings
  import opened Hashing
  import opened SparseMerkle

  /** What a peer hands over: neither the leaf nor any sibling need be 32 bytes long. */
  datatype MerkleProof = MerkleProof(leaf: Bytes, siblings: seq<Bytes>)

  /** Hash upward from `node`, at depth `i` on `path`. */
  function Fold(h: HashFn, path: Path, i: nat, node: Bytes, siblings: seq<Bytes>): Bytes
    requires i <= |path| == |siblings|
    decreases i
  {
    if i == 0 then node
    else Fold(h, path, i - 1, h(StepString(path[i - 1], node, siblings[i - 1])), siblings)
  }

  /** The strings `Fold` hashes. */
  function FoldStrings(h: HashFn, path: Path, i: nat, node: Bytes, siblings: seq<Bytes>): set<Bytes>
    requires i <= |path| == |siblings|
    decreases i
  {
    if i == 0 then {} else
      var s := StepString(path[i - 1], node, siblings[i - 1]);
      {s} + FoldStrings(h, path, i - 1, h(s), siblings)
  }

  predicate Verify(h: HashFn, root: Bytes, path: Path, value: Option<Bytes>, proof: MerkleProof) {
    && |proof.siblings| == |path|
    && proof.leaf == LeafDigest(h, value)
    && Fold(h, path, |path|, proof.leaf, proof.siblings) == root
  }

  /** Every string hashed by an accepting verification. */
  function VerifyStrings(h: HashFn, path: Path, value: Option<Bytes>, proof: MerkleProof): set<Bytes>
    requires |proof.siblings| == |path|
  {
    (if value.Some? then {LeafString(value.value)} else {})
    + FoldStrings(h, path, |path|, proof.leaf, proof.siblings)
  }

  function Prove(h: HashFn, st: Smt, path: Path): MerkleProof {
    MerkleProof(LeafDigest(h, Get(st.values, path)), Siblings(h, st.nodes, st.root, path))
  }

  /** Two folds along one path that meet at the top started from the same node. */
  lemma {:induction false} FoldsMeet(h: HashFn, path: Path, i: nat, x: Bytes, y: Bytes,
                                     xs: seq<Bytes>, ys: seq<Bytes>, s: set<Bytes>)
    requires i <= |path| == |xs| == |ys| && |x| == |y| == 32
    requires FoldStrings(h, path, i, x, xs) <= s && FoldStrings(h, path, i, y, ys) <= s && CollisionFree(h, s)
    requires Fold(h, path, i, x, xs) == Fold(h, path, i, y, ys)
    ensures x == y
    decreases i
  {
    if i > 0 {
      var a, b := StepString(path[i - 1], x, xs[i - 1]), StepString(path[i - 1], y, ys[i - 1]);
      FoldsMeet(h, path, i - 1, h(a), h(b), xs, ys, s);
      if path[i - 1] { NodeStringSplits(xs[i - 1], x, ys[i - 1], y); }
      else { NodeStringSplits(x, xs[i - 1], y, ys[i - 1]); }
    }
  }

  lemma LeafDigestBinds(h: HashFn, v: Option<Bytes>, w: Option<Bytes>, s: set<Bytes>)
    requires LeafDigest(h, v) == LeafDigest(h, w) && Secure(h, s)
    requires (v.Some? ==> LeafString(v.value) in s) && (w.Some? ==> LeafString(w.value) in s)
    ensures v == w
  {
    if v.Some? && w.Some? { LeafStringInjective(v.value, w.value); }
  }

  /** **Binding.** No root opens to two different answers for one key, whoever made the two proofs, unless the
      two verifications between them exhibit a collision or a preimage of the empty-leaf placeholder. */
  lemma ProofsAgree(h: HashFn, root: Bytes, path: Path, v: Option<Bytes>, p: MerkleProof,
                    w: Option<Bytes>, q: MerkleProof)
    requires Verify(h, root, path, v, p) && Verify(h, root, path, w, q)
    requires Secure(h, VerifyStrings(h, path, v, p) + VerifyStrings(h, path, w, q))
    ensures v == w
  {
    var s := VerifyStrings(h, path, v, p) + VerifyStrings(h, path, w, q);
    FoldsMeet(h, path, |path|, p.leaf, q.leaf, p.siblings, q.siblings, s);
    LeafDigestBinds(h, v, w, s);
  }

  /** Folding the reference siblings climbs the reference tree, hashing only its own inner nodes. */
  lemma {:induction false} FoldClimbs(h: HashFn, height: nat, st: Smt, path: Path, i: nat, siblings: seq<Digest>)
    requires Refines(h, height, st) && SiblingsOf(h, height, st.values, path, siblings) && i <= height
    ensures var node := SubtreeRoot(h, height, st.values, path[..i]);
            && Fold(h, path, i, node, siblings) == st.root
            && FoldStrings(h, path, i, node, siblings) <= st.hashed
    decreases i
  {
    if i == 0 {
      assert path[..0] == [];
    } else {
      var q := path[..i - 1];
      assert path[..i] == q + [path[i - 1]];
      assert siblings[i - 1] == SubtreeRoot(h, height, st.values, SiblingPath(path, i - 1));
      assert Kept(h, height, st, q);
      FoldClimbs(h, height, st, path, i - 1, siblings);
    }
  }

  /** **Completeness.** In every reachable tree the proof made for a key verifies for what the map holds there,
      present or absent, and verifying it hashes nothing new. */
  lemma ProveVerifies(h: HashFn, height: nat, ops: seq<Op>, path: Path)
    requires OpsFit(ops, height) && |path| == height
    requires CollisionFree(h, Run(h, height, ops).hashed)
    ensures var st := Run(h, height, ops);
            && Verify(h, st.root, path, Get(FinalMap(ops), path), Prove(h, st, path))
            && VerifyStrings(h, path, Get(FinalMap(ops), path), Prove(h, st, path)) <= st.hashed
  {
    var st := Run(h, height, ops);
    RunInv(h, height, ops);
    WalkMeetsSiblings(h, height, st, path);
    assert path[..height] == path;
    FoldClimbs(h, height, st, path, height, Siblings(h, st.nodes, st.root, path));
  }

  /** **Soundness.** A proof accepted against a reachable tree's root, for any value or for absence, tells what
      the map holds, unless its strings and the run's own exhibit a collision or a placeholder preimage. */
  lemma VerifiedIsHeld(h: HashFn, height: nat, ops: seq<Op>, path: Path, v: Option<Bytes>, proof: MerkleProof)
    requires OpsFit(ops, height) && |path| == height
    requires Verify(h, Run(h, height, ops).root, path, v, proof)
    requires Secure(h, Run(h, height, ops).hashed + VerifyStrings(h, path, v, proof))
    ensures v == Get(FinalMap(ops), path)
  {
    var st := Run(h, height, ops);
    assert CollisionFree(h, st.hashed);
    ProveVerifies(h, height, ops, path);
    ProofsAgree(h, st.root, path, v, proof, Get(FinalMap(ops), path), Prove(h, st, path));
  }

  lemma RootBindsAt(h: HashFn, height: nat, ops: seq<Op>, ops': seq<Op>, path: Path)
    requires OpsFit(ops, height) && OpsFit(ops', height) && |path| == height
    requires Run(h, height, ops).root == Run(h, height, ops').root
    requires Secure(h, Run(h, height, ops).hashed + Run(h, height, ops').hashed)
    ensures Get(FinalMap(ops), path) == Get(FinalMap(ops'), path)
  {
    var st, st' := Run(h, height, ops), Run(h, height, ops');
    assert CollisionFree(h, st.hashed) && CollisionFree(h, st'.hashed);
    ProveVerifies(h, height, ops, path);
    ProveVerifies(h, height, ops', path);
    ProofsAgree(h, st.root, path, Get(FinalMap(ops), path), Prove(h, st, path),
                Get(FinalMap(ops'), path), Prove(h, st', path));
  }

  lemma SameLookups(m: map<Path, Bytes>, m': map<Path, Bytes>, height: nat)
    requires forall p | p in m :: |p| == height
    requires forall p | p in m' :: |p| == height
    requires forall p: Path | |p| == height :: Get(m, p) == Get(m', p)
    ensures m == m'
  {
    forall p ensures p in m <==> p in m' {
      if p in m || p in m' { assert Get(m, p) == Get(m', p); }
    }
    forall p | p in m ensures m[p] == m'[p] { assert Get(m, p) == Get(m', p); }
  }

  /** **The root binds the map.** Two runs that end at one root hold the same map. */
  lemma RootBindsMap(h: HashFn, height: nat, ops: seq<Op>, ops': seq<Op>)
    requires OpsFit(ops, height) && OpsFit(ops', height)
    requires Run(h, height, ops).root == Run(h, height, ops').root
    requires Secure(h, Run(h, height, ops).hashed + Run(h, height, ops').hashed)
    ensures FinalMap(ops) == FinalMap(ops')
  {
    RunInv(h, height, ops);
    RunInv(h, height, ops');
    forall p: Path | |p| == height ensures Get(FinalMap(ops), p) == Get(FinalMap(ops'), p) {
      RootBindsAt(h, height, ops, ops', p);
    }
    SameLookups(FinalMap(ops), FinalMap(ops'), height);
  }
}

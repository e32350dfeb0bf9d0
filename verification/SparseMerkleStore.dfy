/** The `SparseMerkleTree` class over 256-bit keys: loops over a mutable node map, proved to perform exactly the
    steps of `SparseMerkle`, so that every whole-run theorem there speaks about this object. */
module SparseMerkleStore {
  import opened ByteStrings
  import opened Hashing
  import opened SparseMerkle
  import opened MerkleProofs

  const TREE_HEIGHT: nat := 256

  /** `n >> k`. */
  function ShiftRight(n: nat, k: nat): nat {
    if k == 0 then n else ShiftRight(n / 2, k - 1)
  }

  /** The `i`-th bit of a key, most significant first. */
  predicate Bit(key: Digest, i: nat)
    requires i < TREE_HEIGHT
  {
    ShiftRight(key[i / 8], 7 - i % 8) % 2 == 1
  }

  function PathOf(key: Digest): (p: Path)
    ensures |p| == TREE_HEIGHT && forall i | 0 <= i < TREE_HEIGHT :: p[i] == Bit(key, i)
  {
    seq(TREE_HEIGHT, i requires 0 <= i < TREE_HEIGHT => Bit(key, i))
  }

  function Pow2(k: nat): nat { if k == 0 then 1 else 2 * Pow2(k - 1) }

  /** What a bit is worth in its byte, from the most significant down. */
  function BitValue(i: nat): nat
    requires i < 8
  {
    [128, 64, 32, 16, 8, 4, 2, 1][i]
  }

  lemma {:induction false} ShiftIsDivision(n: nat, k: nat)
    requires k < 8
    ensures ShiftRight(n, k) == n / BitValue(7 - k)
  {
    if k > 0 { ShiftIsDivision(n / 2, k - 1); }
  }

  /** Bit `i` of a key is the one worth 128, 64, … down to 1 in byte `i / 8`. */
  lemma BitIs(key: Digest, i: nat)
    requires i < TREE_HEIGHT
    ensures Bit(key, i) <==> key[i / 8] / BitValue(i % 8) % 2 == 1
  {
    ShiftIsDivision(key[i / 8], 7 - i % 8);
  }

  lemma {:induction false} FromBits(a: nat, b: nat, width: nat)
    requires a < Pow2(width) && b < Pow2(width)
    requires forall k: nat | k < width :: ShiftRight(a, k) % 2 == ShiftRight(b, k) % 2
    ensures a == b
  {
    if width > 0 {
      assert ShiftRight(a, 0) % 2 == ShiftRight(b, 0) % 2;
      forall k: nat | k < width - 1 ensures ShiftRight(a / 2, k) % 2 == ShiftRight(b / 2, k) % 2 {
        assert ShiftRight(a, k + 1) % 2 == ShiftRight(b, k + 1) % 2;
      }
      FromBits(a / 2, b / 2, width - 1);
    }
  }

  /** Distinct keys occupy distinct leaves. */
  lemma PathOfInjective(key: Digest, key': Digest)
    requires PathOf(key) == PathOf(key')
    ensures key == key'
  {
    forall j | 0 <= j < 32 ensures key[j] == key'[j] {
      forall k: nat | k < 8 ensures ShiftRight(key[j], k) % 2 == ShiftRight(key'[j], k) % 2 {
        var i := 8 * j + (7 - k);
        assert i / 8 == j && i % 8 == 7 - k;
        assert PathOf(key)[i] == PathOf(key')[i];
      }
      assert Pow2(8) == 256;
      FromBits(key[j], key'[j], 8);
    }
  }

  /** `values`, keyed by bytes, is the map `m`, keyed by paths. */
  ghost predicate SameMap(values: map<Digest, Bytes>, m: map<Path, Bytes>) {
    && (forall k: Digest | k in values :: PathOf(k) in m && m[PathOf(k)] == values[k])
    && (forall p | p in m :: exists k: Digest :: k in values && PathOf(k) == p)
  }

  lemma SameMapWrite(values: map<Digest, Bytes>, m: map<Path, Bytes>, key: Digest, value: Bytes)
    requires SameMap(values, m)
    ensures SameMap(values[key := value], m[PathOf(key) := value])
  {
    var values', m' := values[key := value], m[PathOf(key) := value];
    forall k: Digest | k in values' ensures PathOf(k) in m' && m'[PathOf(k)] == values'[k] {
      if k != key && PathOf(k) == PathOf(key) { PathOfInjective(k, key); }
    }
    forall p | p in m' ensures exists k: Digest :: k in values' && PathOf(k) == p {
      if p == PathOf(key) {
        assert key in values';
      } else {
        var k: Digest :| k in values && PathOf(k) == p;
        assert k in values';
      }
    }
  }

  lemma SameMapGet(values: map<Digest, Bytes>, m: map<Path, Bytes>, key: Digest)
    requires SameMap(values, m)
    ensures (if key in values then Some(values[key]) else None) == Get(m, PathOf(key))
  {
    if PathOf(key) in m {
      var k: Digest :| k in values && PathOf(k) == PathOf(key);
      PathOfInjective(k, key);
    }
  }

  /** The defaults of every level `0..=TREE_HEIGHT`. */
  method ComputeDefaults(h: HashFn) returns (defaults: seq<Digest>)
    ensures |defaults| == TREE_HEIGHT + 1
    ensures forall i | 0 <= i <= TREE_HEIGHT :: defaults[i] == DefaultDigest(h, i)
  {
    defaults := [ZERO];
    var level: nat := 1;
    while level <= TREE_HEIGHT
      invariant 1 <= level <= TREE_HEIGHT + 1 && |defaults| == level
      invariant forall i | 0 <= i < level :: defaults[i] == DefaultDigest(h, i)
    {
      var below := defaults[level - 1];
      defaults := defaults + [HashNode(h, below, below)];
      level := level + 1;
    }
  }

  /** Check a proof by hashing from the leaf up. */
  method VerifyMerkleProof(h: HashFn, root: Bytes, key: Digest, value: Option<Bytes>, proof: MerkleProof)
    returns (ok: bool)
    ensures ok <==> Verify(h, root, PathOf(key), value, proof)
  {
    if |proof.siblings| != TREE_HEIGHT { return false; }
    var expectedLeaf := if value.None? then ZERO else HashLeaf(h, value.value);
    if proof.leaf != expectedLeaf { return false; }
    var node := proof.leaf;
    var level: nat := 1;
    ghost var path := PathOf(key);
    while level <= TREE_HEIGHT
      invariant 1 <= level <= TREE_HEIGHT + 1
      invariant Fold(h, path, TREE_HEIGHT + 1 - level, node, proof.siblings)
             == Fold(h, path, TREE_HEIGHT, proof.leaf, proof.siblings)
    {
      var sibling := proof.siblings[TREE_HEIGHT - level];
      node := if Bit(key, TREE_HEIGHT - level) then HashNode(h, sibling, node) else HashNode(h, node, sibling);
      level := level + 1;
    }
    return node == root;
  }

  lemma ChildrenAre(h: HashFn, nodes: map<Digest, (Digest, Digest)>, cur: Digest, level: nat, d: Digest)
    requires level >= 1 && d == DefaultDigest(h, level - 1)
    ensures Children(h, nodes, cur, level) == if cur in nodes then nodes[cur] else (d, d)
  {
  }

  lemma NoSiblings(h: HashFn, nodes: map<Digest, (Digest, Digest)>, cur: Digest, path: Path)
    requires path == []
    ensures Siblings(h, nodes, cur, path) == []
  {
  }

  /** One level of the walk down, for the loop. */
  lemma WalkOneLevel(h: HashFn, nodes: map<Digest, (Digest, Digest)>, cur: Digest, path: Path, k: nat,
                     done: seq<Digest>)
    requires k < |path|
    ensures var c := Children(h, nodes, cur, |path| - k);
            done + Siblings(h, nodes, cur, path[k..])
            == (done + [if path[k] then c.0 else c.1])
               + Siblings(h, nodes, if path[k] then c.1 else c.0, path[k + 1..])
  {
    assert path[k..][1..] == path[k + 1..];
  }

  class SparseMerkleTree {
    const h: HashFn
    const height: nat
    const defaults: seq<Digest>
    var nodes: map<Digest, (Digest, Digest)>
    var valueStore: map<Digest, Bytes>
    var rootHash: Digest
    /** Every insert so far. */
    ghost var ops: seq<Op>

    /** The value-level tree this object stands for. */
    ghost function View(): Smt
      reads this
    {
      Run(h, height, ops)
    }

    ghost predicate Valid()
      reads this
    {
      && height == TREE_HEIGHT && |defaults| == height + 1
      && (forall i {:trigger defaults[i]} | 0 <= i <= height :: defaults[i] == DefaultDigest(h, i))
      && OpsFit(ops, height)
      && nodes == View().nodes && rootHash == View().root
      && SameMap(valueStore, FinalMap(ops))
    }

    constructor (hash: HashFn)
      ensures Valid() && ops == [] && h == hash && valueStore == map[]
    {
      h, height := hash, TREE_HEIGHT;
      var ds := ComputeDefaults(hash);
      defaults := ds;
      nodes, valueStore := map[], map[];
      rootHash := ds[TREE_HEIGHT];
      ops := [];
    }

    method SiblingsFor(key: Digest) returns (siblings: seq<Digest>)
      requires Valid()
      ensures siblings == Siblings(h, nodes, rootHash, PathOf(key))
    {
      hide Run, FinalMap, SameMap, OpsFit, Siblings, Children, DefaultDigest, Bit;
      siblings := [];
      var cur := rootHash;
      var level: nat := height;
      ghost var path, k := PathOf(key), 0;
      ghost var all := Siblings(h, nodes, rootHash, path);
      assert path[0..] == path;
      while level >= 1
        invariant level <= height && k == height - level && |path| == height
        invariant siblings + Siblings(h, nodes, cur, path[k..]) == all
      {
        var children := if cur in nodes then nodes[cur] else (defaults[level - 1], defaults[level - 1]);
        ChildrenAre(h, nodes, cur, level, defaults[level - 1]);
        WalkOneLevel(h, nodes, cur, path, k, siblings);
        if Bit(key, height - level) {
          siblings, cur := siblings + [children.0], children.1;
        } else {
          siblings, cur := siblings + [children.1], children.0;
        }
        k := k + 1;
        level := level - 1;
      }
      NoSiblings(h, nodes, cur, path[k..]);
    }

    /** Recompute the path from a leaf to a new root, storing every non-default parent. */
    method RecomputePath(key: Digest, leaf: Digest, siblings: seq<Digest>, ghost before: Smt)
      requires height == TREE_HEIGHT && |defaults| == height + 1
      requires forall i {:trigger defaults[i]} | 0 <= i <= height :: defaults[i] == DefaultDigest(h, i)
      requires |siblings| == height && before.nodes == nodes
      modifies this`nodes, this`rootHash
      ensures var after := Recompute(h, before, PathOf(key), height, leaf, siblings);
              nodes == after.nodes && rootHash == after.root
    {
      var node := leaf;
      var level: nat := 1;
      ghost var path, st := PathOf(key), before;
      ghost var after := Recompute(h, before, path, height, leaf, siblings);
      while level <= height
        invariant 1 <= level <= height + 1 && st.nodes == nodes
        invariant Recompute(h, st, path, height + 1 - level, node, siblings) == after
      {
        var sibling := siblings[height - level];
        var pair := if Bit(key, height - level) then (sibling, node) else (node, sibling);
        var parent := HashNode(h, pair.0, pair.1);
        if parent != defaults[level] {
          nodes := nodes[parent := pair];
        }
        st := StorePair(h, st, level, pair);
        node := parent;
        level := level + 1;
      }
      rootHash := node;
    }

    /** Insert or overwrite. */
    method Put(key: Digest, value: Bytes)
      requires Valid()
      modifies this
      ensures Valid() && ops == old(ops) + [Op(PathOf(key), value)]
      ensures valueStore == old(valueStore)[key := value]
    {
      hide Run, FinalMap, SameMap, OpsFit, Recompute, Siblings, HashLeaf, LeafString, PathOf, DefaultDigest;
      var siblings := SiblingsFor(key);
      var leaf := HashLeaf(h, value);
      ghost var path, before := PathOf(key), View();
      SameMapWrite(valueStore, FinalMap(ops), key, value);
      valueStore := valueStore[key := value];
      RecomputePath(key, leaf, siblings,
                    Smt(nodes, before.values[path := value], before.root, before.hashed + {LeafString(value)}));
      RunAppend(h, height, ops, Op(path, value));
      ops := ops + [Op(path, value)];
    }

    /** The root commits to the stored map, whatever was written before and in whatever order. */
    method Root() returns (root: Digest)
      requires Valid()
      ensures CollisionFree(h, View().hashed) ==> root == SubtreeRoot(h, height, FinalMap(ops), [])
    {
      root := rootHash;
      if CollisionFree(h, View().hashed) { RootIsRootOfMap(h, height, ops); }
    }

    method Lookup(key: Digest) returns (value: Option<Bytes>)
      requires Valid()
      ensures value == Get(FinalMap(ops), PathOf(key))
    {
      value := if key in valueStore then Some(valueStore[key]) else None;
      SameMapGet(valueStore, FinalMap(ops), key);
    }

    /** A proof that verifies for exactly what the tree holds at `key`. */
    method ProveKey(key: Digest) returns (proof: MerkleProof)
      requires Valid()
      ensures CollisionFree(h, View().hashed) ==>
                Verify(h, rootHash, PathOf(key), Get(FinalMap(ops), PathOf(key)), proof)
    {
      var siblings := SiblingsFor(key);
      var stored := Lookup(key);
      proof := MerkleProof(if stored.None? then ZERO else HashLeaf(h, stored.value), siblings);
      if CollisionFree(h, View().hashed) {
        ProveVerifies(h, height, ops, PathOf(key));
        RunInv(h, height, ops);
      }
    }
  }
}

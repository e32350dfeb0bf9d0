/** The content-addressed Sparse Merkle Tree as a transition system over values, and the reference tree it
    must agree with. Everything here holds for an arbitrary height and for paths of that many branch bits. */
module SparseMerkle {
  import opened ByteStrings
  import opened Hashing

  /** Branch decisions from the root down; `true` descends right. */
  type Path = seq<bool>

  // ----- the reference: the root of a plain map -----

  function LeafDigest(h: HashFn, v: Option<Bytes>): Digest {
    match v
    case None => ZERO
    case Some(value) => HashLeaf(h, value)
  }

  function Get(m: map<Path, Bytes>, p: Path): Option<Bytes> {
    if p in m then Some(m[p]) else None
  }

  /** The digest the full binary tree over `m` has at the subtree `p`, with no sharing and no storage. */
  function SubtreeRoot(h: HashFn, height: nat, m: map<Path, Bytes>, p: Path): Digest
    requires |p| <= height
    decreases height - |p|
  {
    if |p| == height then LeafDigest(h, Get(m, p))
    else HashNode(h, SubtreeRoot(h, height, m, p + [false]), SubtreeRoot(h, height, m, p + [true]))
  }

  /** The string whose hash is the inner node at `p`. */
  function SubtreeString(h: HashFn, height: nat, m: map<Path, Bytes>, p: Path): Bytes
    requires |p| < height
  {
    NodeString(SubtreeRoot(h, height, m, p + [false]), SubtreeRoot(h, height, m, p + [true]))
  }

  // ----- the tree: stored nodes, found by their hash -----

  /** `hashed` logs every string hashed so far; it carries no computation. */
  datatype Smt = Smt(nodes: map<Digest, (Digest, Digest)>, values: map<Path, Bytes>, root: Digest,
                     hashed: set<Bytes>)

  /** The empty-subtree digest of a level. */
  function DefaultDigest(h: HashFn, level: nat): Digest {
    if level == 0 then ZERO else HashNode(h, DefaultDigest(h, level - 1), DefaultDigest(h, level - 1))
  }

  function DefaultStrings(h: HashFn, level: nat): (s: set<Bytes>)
    ensures forall i | 0 <= i < level :: NodeString(DefaultDigest(h, i), DefaultDigest(h, i)) in s
  {
    if level == 0 then {}
    else DefaultStrings(h, level - 1) + {NodeString(DefaultDigest(h, level - 1), DefaultDigest(h, level - 1))}
  }

  function Empty(h: HashFn, height: nat): Smt {
    Smt(map[], map[], DefaultDigest(h, height), DefaultStrings(h, height))
  }

  /** An unstored node is taken for an empty subtree of its level. */
  function Children(h: HashFn, nodes: map<Digest, (Digest, Digest)>, node: Digest, level: nat): (Digest, Digest)
    requires level >= 1
  {
    if node in nodes then nodes[node] else (DefaultDigest(h, level - 1), DefaultDigest(h, level - 1))
  }

  /** Siblings met walking `path` down from `cur`, which stands `|path|` levels above the leaves. */
  function Siblings(h: HashFn, nodes: map<Digest, (Digest, Digest)>, cur: Digest, path: Path): (s: seq<Digest>)
    ensures |s| == |path|
    decreases |path|
  {
    if path == [] then [] else
      var (l, r) := Children(h, nodes, cur, |path|);
      if path[0] then [l] + Siblings(h, nodes, r, path[1..]) else [r] + Siblings(h, nodes, l, path[1..])
  }

  /** The string a node and its sibling hash to, in tree order. */
  function StepString(right: bool, node: Bytes, sibling: Bytes): Bytes {
    if right then NodeString(sibling, node) else NodeString(node, sibling)
  }

  function InOrder(right: bool, node: Digest, sibling: Digest): (Digest, Digest) {
    if right then (sibling, node) else (node, sibling)
  }

  /** Hash a pair of children and store it under its digest, unless that is the level's default. */
  function StorePair(h: HashFn, st: Smt, level: nat, pair: (Digest, Digest)): Smt {
    var parent := HashNode(h, pair.0, pair.1);
    Smt(if parent != DefaultDigest(h, level) then st.nodes[parent := pair] else st.nodes,
        st.values, st.root, st.hashed + {NodeString(pair.0, pair.1)})
  }

  /** Hash upward from `node`, at depth `i` on `path`, storing every parent. */
  function Recompute(h: HashFn, st: Smt, path: Path, i: nat, node: Digest, siblings: seq<Digest>): Smt
    requires i <= |path| == |siblings|
    decreases i
  {
    if i == 0 then Smt(st.nodes, st.values, node, st.hashed) else
      var pair := InOrder(path[i - 1], node, siblings[i - 1]);
      Recompute(h, StorePair(h, st, |path| - i + 1, pair), path, i - 1, HashNode(h, pair.0, pair.1), siblings)
  }

  function Insert(h: HashFn, st: Smt, path: Path, value: Bytes): Smt {
    var siblings := Siblings(h, st.nodes, st.root, path);
    var st' := Smt(st.nodes, st.values[path := value], st.root, st.hashed + {LeafString(value)});
    Recompute(h, st', path, |path|, HashLeaf(h, value), siblings)
  }

  // ----- whole runs -----

  datatype Op = Op(path: Path, value: Bytes)

  ghost predicate OpsFit(ops: seq<Op>, height: nat) {
    forall o | o in ops :: |o.path| == height
  }

  function Run(h: HashFn, height: nat, ops: seq<Op>): Smt {
    if ops == [] then Empty(h, height)
    else var o := ops[|ops| - 1]; Insert(h, Run(h, height, ops[..|ops| - 1]), o.path, o.value)
  }

  /** What a plain map holds after the same writes. */
  function FinalMap(ops: seq<Op>): map<Path, Bytes> {
    if ops == [] then map[]
    else var o := ops[|ops| - 1]; FinalMap(ops[..|ops| - 1])[o.path := o.value]
  }

  // ----- the invariant -----

  ghost predicate ContentAddressed(h: HashFn, st: Smt) {
    forall d | d in st.nodes ::
      NodeString(st.nodes[d].0, st.nodes[d].1) in st.hashed && HashNode(h, st.nodes[d].0, st.nodes[d].1) == d
  }

  ghost predicate Bookkept(h: HashFn, height: nat, st: Smt) {
    && ContentAddressed(h, st)
    && DefaultStrings(h, height) <= st.hashed
    && (forall p | p in st.values :: |p| == height && LeafString(st.values[p]) in st.hashed)
  }

  /** The inner node of the reference tree at `p` has been hashed, and is stored unless it is a default. */
  ghost predicate Kept(h: HashFn, height: nat, st: Smt, p: Path)
    requires |p| < height
  {
    && SubtreeString(h, height, st.values, p) in st.hashed
    && var d := SubtreeRoot(h, height, st.values, p);
       d in st.nodes || d == DefaultDigest(h, height - |p|)
  }

  ghost predicate Refines(h: HashFn, height: nat, st: Smt) {
    && st.root == SubtreeRoot(h, height, st.values, [])
    && forall p: Path {:trigger Kept(h, height, st, p)} | |p| < height :: Kept(h, height, st, p)
  }

  ghost predicate Inv(h: HashFn, height: nat, st: Smt) {
    Bookkept(h, height, st) && (CollisionFree(h, st.hashed) ==> Refines(h, height, st))
  }

  lemma {:induction false} EmptySubtree(h: HashFn, height: nat, p: Path)
    requires |p| <= height
    ensures SubtreeRoot(h, height, map[], p) == DefaultDigest(h, height - |p|)
    decreases height - |p|
  {
    if |p| < height {
      EmptySubtree(h, height, p + [false]);
      EmptySubtree(h, height, p + [true]);
    }
  }

  lemma EmptyInv(h: HashFn, height: nat)
    ensures Inv(h, height, Empty(h, height))
  {
    var st := Empty(h, height);
    EmptySubtree(h, height, []);
    forall p: Path | |p| < height ensures Kept(h, height, st, p) {
      EmptySubtree(h, height, p);
      EmptySubtree(h, height, p + [false]);
      EmptySubtree(h, height, p + [true]);
    }
  }

  /** Writing at `q` changes only the subtrees above `q`. */
  lemma {:induction false} OffPathUnchanged(h: HashFn, height: nat, m: map<Path, Bytes>, q: Path, v: Bytes, p: Path)
    requires |p| <= height && !(p <= q)
    ensures SubtreeRoot(h, height, m[q := v], p) == SubtreeRoot(h, height, m, p)
    decreases height - |p|
  {
    if |p| < height {
      assert forall b: bool :: p <= p + [b];
      OffPathUnchanged(h, height, m, q, v, p + [false]);
      OffPathUnchanged(h, height, m, q, v, p + [true]);
    }
  }

  /** The sibling subtree of `path` at depth `i`. */
  function SiblingPath(path: Path, i: nat): Path
    requires i < |path|
  {
    path[..i] + [!path[i]]
  }

  /** Looking up the children of any subtree of the reference tree finds that subtree's children: a populated
      subtree is never mistaken for an empty one, and a stale node is never mistaken for a current one. */
  lemma ChildrenRight(h: HashFn, height: nat, st: Smt, p: Path)
    requires Inv(h, height, st) && CollisionFree(h, st.hashed) && |p| < height
    ensures Children(h, st.nodes, SubtreeRoot(h, height, st.values, p), height - |p|)
              == (SubtreeRoot(h, height, st.values, p + [false]), SubtreeRoot(h, height, st.values, p + [true]))
  {
    assert Kept(h, height, st, p);
    var l, r := SubtreeRoot(h, height, st.values, p + [false]), SubtreeRoot(h, height, st.values, p + [true]);
    var d := DefaultDigest(h, height - |p| - 1);
    assert NodeString(d, d) in st.hashed;
    var c := Children(h, st.nodes, HashNode(h, l, r), height - |p|);
    assert NodeString(c.0, c.1) in st.hashed;
    NodeStringSplits(c.0, c.1, l, r);
  }

  /** One level of the walk down. */
  lemma SiblingsStep(h: HashFn, height: nat, st: Smt, path: Path, i: nat)
    requires Inv(h, height, st) && CollisionFree(h, st.hashed) && i < |path| == height
    ensures Siblings(h, st.nodes, SubtreeRoot(h, height, st.values, path[..i]), path[i..])
              == [SubtreeRoot(h, height, st.values, SiblingPath(path, i))]
                 + Siblings(h, st.nodes, SubtreeRoot(h, height, st.values, path[..i + 1]), path[i + 1..])
  {
    hide Inv, CollisionFree, SubtreeRoot, Children;
    ChildrenRight(h, height, st, path[..i]);
    assert path[i..][1..] == path[i + 1..];
    assert path[..i + 1] == path[..i] + [path[i]];
  }

  lemma {:induction false} SiblingsRight(h: HashFn, height: nat, st: Smt, path: Path, i: nat, k: nat)
    requires Inv(h, height, st) && CollisionFree(h, st.hashed) && i <= k < |path| == height
    ensures Siblings(h, st.nodes, SubtreeRoot(h, height, st.values, path[..i]), path[i..])[k - i]
              == SubtreeRoot(h, height, st.values, SiblingPath(path, k))
    decreases height - i
  {
    hide Inv, CollisionFree, SubtreeRoot, Siblings, SiblingPath;
    SiblingsStep(h, height, st, path, i);
    if i < k { SiblingsRight(h, height, st, path, i + 1, k); }
  }

  /** `siblings` are the reference digests beside `path`. */
  ghost predicate SiblingsOf(h: HashFn, height: nat, m: map<Path, Bytes>, path: Path, siblings: seq<Digest>) {
    && |path| == |siblings| == height
    && forall k | 0 <= k < height :: siblings[k] == SubtreeRoot(h, height, m, SiblingPath(path, k))
  }

  lemma WalkMeetsSiblings(h: HashFn, height: nat, st: Smt, path: Path)
    requires Inv(h, height, st) && CollisionFree(h, st.hashed) && |path| == height
    ensures SiblingsOf(h, height, st.values, path, Siblings(h, st.nodes, st.root, path))
  {
    assert path[..0] == [] && path[0..] == path;
    forall k | 0 <= k < height { SiblingsRight(h, height, st, path, 0, k); }
  }

  // ----- insert keeps the invariant -----

  /** Every inner node is kept except those above depth `i` on `path`. */
  ghost predicate KeptFrom(h: HashFn, height: nat, st: Smt, path: Path, i: nat) {
    forall p: Path {:trigger Kept(h, height, st, p)} | |p| < height && !(p <= path && |p| < i) :: Kept(h, height, st, p)
  }

  lemma StorePairBookkept(h: HashFn, height: nat, st: Smt, level: nat, pair: (Digest, Digest))
    requires Bookkept(h, height, st)
    ensures var st' := StorePair(h, st, level, pair);
            Bookkept(h, height, st') && st'.values == st.values && st.hashed <= st'.hashed
  {
    hide DefaultDigest, DefaultStrings, HashNode, NodeString, LeafString;
  }

  lemma {:induction false} RecomputeBookkept(h: HashFn, height: nat, st: Smt, path: Path, i: nat, node: Digest,
                                             siblings: seq<Digest>)
    requires Bookkept(h, height, st) && i <= |path| == |siblings|
    ensures var st' := Recompute(h, st, path, i, node, siblings);
            Bookkept(h, height, st') && st'.values == st.values && st.hashed <= st'.hashed
    decreases i
  {
    hide Bookkept, StorePair, HashNode, InOrder;
    if i == 0 {
      RootIsFree(h, height, st, node);
    } else {
      var pair := InOrder(path[i - 1], node, siblings[i - 1]);
      var st' := StorePair(h, st, |path| - i + 1, pair);
      StorePairBookkept(h, height, st, |path| - i + 1, pair);
      RecomputeBookkept(h, height, st', path, i - 1, HashNode(h, pair.0, pair.1), siblings);
    }
  }

  /** The bookkeeping says nothing of the root. */
  lemma RootIsFree(h: HashFn, height: nat, st: Smt, node: Digest)
    requires Bookkept(h, height, st)
    ensures Bookkept(h, height, Smt(st.nodes, st.values, node, st.hashed))
  {
  }

  lemma KeptGrows(h: HashFn, height: nat, st: Smt, st': Smt, p: Path)
    requires |p| < height && Kept(h, height, st, p)
    requires st'.values == st.values && st.nodes.Keys <= st'.nodes.Keys && st.hashed <= st'.hashed
    ensures Kept(h, height, st', p)
  {
  }

  /** A node and its sibling are the children of the node above. */
  lemma ParentOf(h: HashFn, height: nat, m: map<Path, Bytes>, path: Path, i: nat, siblings: seq<Digest>)
    requires SiblingsOf(h, height, m, path, siblings) && 1 <= i <= height
    ensures var pair := InOrder(path[i - 1], SubtreeRoot(h, height, m, path[..i]), siblings[i - 1]);
            && NodeString(pair.0, pair.1) == SubtreeString(h, height, m, path[..i - 1])
            && HashNode(h, pair.0, pair.1) == SubtreeRoot(h, height, m, path[..i - 1])
  {
    assert path[..i] == path[..i - 1] + [path[i - 1]];
    assert siblings[i - 1] == SubtreeRoot(h, height, m, SiblingPath(path, i - 1));
  }

  /** Storing that pair keeps the node above as well. */
  lemma StoreKeeps(h: HashFn, height: nat, st: Smt, path: Path, i: nat, pair: (Digest, Digest))
    requires |path| == height && 1 <= i <= height && KeptFrom(h, height, st, path, i)
    requires NodeString(pair.0, pair.1) == SubtreeString(h, height, st.values, path[..i - 1])
    requires HashNode(h, pair.0, pair.1) == SubtreeRoot(h, height, st.values, path[..i - 1])
    ensures KeptFrom(h, height, StorePair(h, st, height - i + 1, pair), path, i - 1)
  {
    hide SubtreeRoot, SubtreeString, DefaultDigest, HashNode, NodeString;
    var st' := StorePair(h, st, height - i + 1, pair);
    var q := path[..i - 1];
    forall p: Path | |p| < height && !(p <= path && |p| < i - 1) ensures Kept(h, height, st', p) {
      if p != q {
        assert !(p <= path && |p| < i);
        KeptGrows(h, height, st, st', p);
      }
    }
  }

  lemma AllKeptRefines(h: HashFn, height: nat, st: Smt, path: Path, node: Digest)
    requires node == SubtreeRoot(h, height, st.values, []) && KeptFrom(h, height, st, path, 0)
    ensures Refines(h, height, Smt(st.nodes, st.values, node, st.hashed))
  {
    var st' := Smt(st.nodes, st.values, node, st.hashed);
    hide SubtreeRoot;
    forall p: Path | |p| < height ensures Kept(h, height, st', p) { KeptGrows(h, height, st, st', p); }
  }

  lemma {:induction false} RecomputeRight(h: HashFn, height: nat, st: Smt, path: Path, i: nat, node: Digest,
                                          siblings: seq<Digest>)
    requires SiblingsOf(h, height, st.values, path, siblings) && i <= height
    requires node == SubtreeRoot(h, height, st.values, path[..i]) && KeptFrom(h, height, st, path, i)
    ensures Refines(h, height, Recompute(h, st, path, i, node, siblings))
    decreases i
  {
    hide SubtreeRoot, SubtreeString, KeptFrom, Refines, InOrder, HashNode, NodeString;
    if i == 0 {
      assert path[..0] == [];
      AllKeptRefines(h, height, st, path, node);
    } else {
      var pair := InOrder(path[i - 1], node, siblings[i - 1]);
      ParentOf(h, height, st.values, path, i, siblings);
      StoreKeeps(h, height, st, path, i, pair);
      RecomputeRight(h, height, StorePair(h, st, height - i + 1, pair), path, i - 1, HashNode(h, pair.0, pair.1),
                     siblings);
    }
  }

  /** A write at `path` leaves the siblings of `path` as they were. */
  lemma WriteKeepsSiblings(h: HashFn, height: nat, m: map<Path, Bytes>, path: Path, value: Bytes,
                           siblings: seq<Digest>)
    requires SiblingsOf(h, height, m, path, siblings)
    ensures SiblingsOf(h, height, m[path := value], path, siblings)
  {
    forall k | 0 <= k < height
      ensures siblings[k] == SubtreeRoot(h, height, m[path := value], SiblingPath(path, k))
    {
      assert SiblingPath(path, k)[k] != path[k];
      OffPathUnchanged(h, height, m, path, value, SiblingPath(path, k));
    }
  }

  /** And keeps every inner node off `path`. */
  lemma WriteKeepsOffPath(h: HashFn, height: nat, st: Smt, st': Smt, path: Path, value: Bytes, p: Path)
    requires |p| < height && !(p <= path) && Kept(h, height, st, p)
    requires st'.values == st.values[path := value] && st.nodes == st'.nodes && st.hashed <= st'.hashed
    ensures Kept(h, height, st', p)
  {
    assert p <= p + [false] && p <= p + [true];
    OffPathUnchanged(h, height, st.values, path, value, p);
    OffPathUnchanged(h, height, st.values, path, value, p + [false]);
    OffPathUnchanged(h, height, st.values, path, value, p + [true]);
  }

  lemma InsertRight(h: HashFn, height: nat, st: Smt, path: Path, value: Bytes)
    requires Inv(h, height, st) && |path| == height && CollisionFree(h, st.hashed)
    ensures Refines(h, height, Insert(h, st, path, value))
  {
    var siblings := Siblings(h, st.nodes, st.root, path);
    var st' := Smt(st.nodes, st.values[path := value], st.root, st.hashed + {LeafString(value)});
    WalkMeetsSiblings(h, height, st, path);
    WriteKeepsSiblings(h, height, st.values, path, value, siblings);
    forall p: Path | |p| < height && !(p <= path && |p| < height) ensures Kept(h, height, st', p) {
      WriteKeepsOffPath(h, height, st, st', path, value, p);
    }
    assert path[..height] == path;
    RecomputeRight(h, height, st', path, height, HashLeaf(h, value), siblings);
  }

  lemma InsertInv(h: HashFn, height: nat, st: Smt, path: Path, value: Bytes)
    requires Inv(h, height, st) && |path| == height
    ensures Inv(h, height, Insert(h, st, path, value))
    ensures Insert(h, st, path, value).values == st.values[path := value]
  {
    var st' := Smt(st.nodes, st.values[path := value], st.root, st.hashed + {LeafString(value)});
    var fin := Insert(h, st, path, value);
    RecomputeBookkept(h, height, st', path, height, HashLeaf(h, value), Siblings(h, st.nodes, st.root, path));
    if CollisionFree(h, fin.hashed) {
      assert CollisionFree(h, st.hashed);
      InsertRight(h, height, st, path, value);
    }
  }

  /** One more write. */
  lemma RunAppend(h: HashFn, height: nat, ops: seq<Op>, o: Op)
    ensures Run(h, height, ops + [o]) == Insert(h, Run(h, height, ops), o.path, o.value)
    ensures FinalMap(ops + [o]) == FinalMap(ops)[o.path := o.value]
    ensures OpsFit(ops, height) && |o.path| == height ==> OpsFit(ops + [o], height)
  {
    assert (ops + [o])[..|ops|] == ops;
  }

  lemma {:induction false} RunInv(h: HashFn, height: nat, ops: seq<Op>)
    requires OpsFit(ops, height)
    ensures Inv(h, height, Run(h, height, ops)) && Run(h, height, ops).values == FinalMap(ops)
  {
    if ops == [] {
      EmptyInv(h, height);
    } else {
      var o := ops[|ops| - 1];
      RunInv(h, height, ops[..|ops| - 1]);
      InsertInv(h, height, Run(h, height, ops[..|ops| - 1]), o.path, o.value);
    }
  }

  /** **Refinement.** After any sequence of inserts and overwrites the root is that of the final plain map,
      unless two of the strings hashed in that very run collide. */
  lemma RootIsRootOfMap(h: HashFn, height: nat, ops: seq<Op>)
    requires OpsFit(ops, height)
    requires CollisionFree(h, Run(h, height, ops).hashed)
    ensures Run(h, height, ops).root == SubtreeRoot(h, height, FinalMap(ops), [])
  {
    RunInv(h, height, ops);
  }

  /** Insertion order and intermediate values never show in the root. */
  lemma RootIgnoresHistory(h: HashFn, height: nat, ops: seq<Op>, ops': seq<Op>)
    requires OpsFit(ops, height) && OpsFit(ops', height) && FinalMap(ops) == FinalMap(ops')
    requires CollisionFree(h, Run(h, height, ops).hashed) && CollisionFree(h, Run(h, height, ops').hashed)
    ensures Run(h, height, ops).root == Run(h, height, ops').root
  {
    RootIsRootOfMap(h, height, ops);
    RootIsRootOfMap(h, height, ops');
  }
}

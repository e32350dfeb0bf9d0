/** The domain-separated hash both Merkle trees are built from.

    Blake3 is a parameter `h`. Nothing is assumed of it: a claim that would need collision resistance is
    stated relative to an explicit finite set of strings, those actually hashed, and says what follows when
    no two of *them* collide. */
module Hashing {
  import opened ByteStrings

  type Digest = d: Bytes | |d| == 32 witness Zeros(32)

  type HashFn = Bytes -> Digest

  /** `Hash::ZERO`: the empty-leaf placeholder, 32 zero bytes and not the hash of anything. */
  const ZERO: Digest := Zeros(32)

  function LeafString(value: Bytes): Bytes { [0x00] + value }

  function NodeString(l: Bytes, r: Bytes): Bytes { [0x01] + l + r }

  function HashLeaf(h: HashFn, value: Bytes): Digest { h(LeafString(value)) }

  function HashNode(h: HashFn, l: Bytes, r: Bytes): Digest { h(NodeString(l, r)) }

  /** No two distinct strings of `s` share a digest. */
  ghost predicate CollisionFree(h: HashFn, s: set<Bytes>) {
    forall x, y | x in s && y in s && h(x) == h(y) :: x == y
  }

  /** Nor does any string of `s` hash to the empty-leaf placeholder. */
  ghost predicate Secure(h: HashFn, s: set<Bytes>) {
    CollisionFree(h, s) && forall x | x in s :: h(x) != ZERO
  }

  /** A node string is 65 bytes: the tag, the left child, the right child. A leaf string is its tag and the value. */
  lemma StringLayout(l: Digest, r: Digest, value: Bytes)
    ensures |NodeString(l, r)| == 65 && NodeString(l, r)[0] == 1
    ensures NodeString(l, r)[1..33] == l && NodeString(l, r)[33..65] == r
    ensures |LeafString(value)| == 1 + |value| && LeafString(value)[0] == 0 && LeafString(value)[1..] == value
  {
  }

  lemma LeafStringInjective(v: Bytes, w: Bytes)
    requires LeafString(v) == LeafString(w)
    ensures v == w
  {
    assert v == LeafString(v)[1..] && w == LeafString(w)[1..];
  }

  /** One 32-byte child fixes the split point, so the other may have any length. */
  lemma NodeStringSplits(l: Bytes, r: Bytes, l': Bytes, r': Bytes)
    requires NodeString(l, r) == NodeString(l', r')
    requires |l| == |l'| || |r| == |r'|
    ensures l == l' && r == r'
  {
    var s, s' := NodeString(l, r), NodeString(l', r');
    assert |s| == 1 + |l| + |r| && |s'| == 1 + |l'| + |r'|;
    assert l == s[1..1 + |l|] && r == s[1 + |l|..];
    assert l' == s'[1..1 + |l'|] && r' == s'[1 + |l'|..];
  }

  lemma LeafIsNotNode(v: Bytes, l: Bytes, r: Bytes)
    ensures LeafString(v) != NodeString(l, r)
  {
    assert LeafString(v)[0] == 0 && NodeString(l, r)[0] == 1;
  }
}

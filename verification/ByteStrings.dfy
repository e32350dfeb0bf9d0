/** Bytes, byte strings and the fixed-width little-endian integers every codec shares. */
module ByteStrings {

  type Byte = b: int | 0 <= b < 256

  type Bytes = seq<Byte>

  datatype Option<+T> = None | Some(value: T)

  ghost predicate Distinct<T>(v: seq<T>) { forall i, j | 0 <= i < j < |v| :: v[i] != v[j] }

  /** `256^k`: the number of values a `k`-byte integer can hold. */
  function Pow256(k: nat): (r: nat)
    ensures r >= 1
  {
    if k == 0 then 1 else 256 * Pow256(k - 1)
  }

  /** The `width` low bytes of `n`, least significant first. */
  function LittleEndian(n: nat, width: nat): (b: Bytes)
    ensures |b| == width
  {
    if width == 0 then [] else [n % 256] + LittleEndian(n / 256, width - 1)
  }

  /** The integer whose little-endian bytes are `b`. */
  function FromLittleEndian(b: Bytes): (n: nat)
  {
    if b == [] then 0 else b[0] + 256 * FromLittleEndian(b[1..])
  }

  /** Least significant first: what follows `k` bytes is worth `256^k` times as much. */
  lemma {:induction false} FromLittleEndianAppend(a: Bytes, b: Bytes)
    ensures FromLittleEndian(a + b) == FromLittleEndian(a) + Pow256(|a|) * FromLittleEndian(b)
  {
    if a == [] {
      assert a + b == b;
    } else {
      assert (a + b)[1..] == a[1..] + b;
      FromLittleEndianAppend(a[1..], b);
      Scale(FromLittleEndian(a[1..]), Pow256(|a| - 1), FromLittleEndian(b));
    }
  }

  lemma Scale(x: nat, p: nat, y: nat)
    ensures 256 * (x + p * y) == 256 * x + (256 * p) * y
  {
  }

  lemma {:induction false} FromLittleEndianBound(b: Bytes)
    ensures FromLittleEndian(b) < Pow256(|b|)
  {
    if b != [] { FromLittleEndianBound(b[1..]); }
  }

  lemma {:induction false} DecodeEncode(n: nat, width: nat)
    requires n < Pow256(width)
    ensures FromLittleEndian(LittleEndian(n, width)) == n
  {
    if width > 0 {
      DecodeEncode(n / 256, width - 1);
      assert LittleEndian(n, width)[1..] == LittleEndian(n / 256, width - 1);
    }
  }

  lemma {:induction false} EncodeDecode(b: Bytes)
    ensures LittleEndian(FromLittleEndian(b), |b|) == b
  {
    if b != [] {
      EncodeDecode(b[1..]);
      assert FromLittleEndian(b) / 256 == FromLittleEndian(b[1..]);
      assert FromLittleEndian(b) % 256 == b[0];
    }
  }

  function Zeros(n: nat): (s: Bytes)
    ensures |s| == n && forall i | 0 <= i < n :: s[i] == 0
  {
    seq(n, _ => 0)
  }

  /** `enc` stands in `buf` at offset `at`. */
  predicate StandsAt(buf: Bytes, at: nat, enc: Bytes) {
    at + |enc| <= |buf| && buf[at..at + |enc|] == enc
  }

  lemma StandsAtSplit(buf: Bytes, at: nat, a: Bytes, b: Bytes)
    requires StandsAt(buf, at, a + b)
    ensures StandsAt(buf, at, a) && StandsAt(buf, at + |a|, b)
  {
    var w := buf[at..at + |a + b|];
    assert w[..|a|] == a && w[|a|..] == b;
  }

  lemma StandsAtAppend(buf: Bytes, at: nat, a: Bytes, b: Bytes)
    ensures StandsAt(buf, at, a + b) <==> StandsAt(buf, at, a) && StandsAt(buf, at + |a|, b)
  {
    if StandsAt(buf, at, a + b) { StandsAtSplit(buf, at, a, b); }
    if StandsAt(buf, at, a) && StandsAt(buf, at + |a|, b) {
      assert buf[at..at + |a + b|] == buf[at..at + |a|] + buf[at + |a|..at + |a| + |b|];
    }
  }

  /** Byte-lexicographic order. */
  predicate AtMost(a: Bytes, b: Bytes)
    decreases |a|
  {
    a == [] || (b != [] && (a[0] < b[0] || (a[0] == b[0] && AtMost(a[1..], b[1..]))))
  }

  lemma {:induction false} SmallerAt(a: Bytes, b: Bytes, k: nat)
    requires k < |a| && k < |b| && a[..k] == b[..k] && a[k] < b[k]
    ensures AtMost(a, b)
  {
    if k > 0 {
      assert a[0] == a[..k][0] && b[0] == b[..k][0];
      assert a[1..][..k - 1] == a[..k][1..] && b[1..][..k - 1] == b[..k][1..];
      SmallerAt(a[1..], b[1..], k - 1);
    }
  }

  lemma {:induction false} PrefixFirst(a: Bytes, b: Bytes)
    requires a <= b
    ensures AtMost(a, b)
  {
    if a != [] { PrefixFirst(a[1..], b[1..]); }
  }

  /** Byte order: `a` comes no later than `b` only if it is a prefix of it or smaller at the first byte where they
      differ. */
  lemma {:induction false} FirstDifference(a: Bytes, b: Bytes) returns (k: nat)
    requires AtMost(a, b) && !(a <= b)
    ensures k < |a| && k < |b| && a[..k] == b[..k] && a[k] < b[k]
  {
    k := 0;
    if a[0] == b[0] {
      assert a == [a[0]] + a[1..] && b == [b[0]] + b[1..];
      k := FirstDifference(a[1..], b[1..]);
      assert a[..k + 1] == [a[0]] + a[1..][..k] && b[..k + 1] == [b[0]] + b[1..][..k];
      k := k + 1;
    }
  }

  /** `a` comes no later than `b`: it is a prefix of it, or smaller at the first byte where they differ. */
  lemma AtMostIff(a: Bytes, b: Bytes)
    ensures AtMost(a, b)
       <==> a <= b || exists k :: 0 <= k < |a| && k < |b| && a[..k] == b[..k] && a[k] < b[k]
  {
    hide AtMost;
    if AtMost(a, b) && !(a <= b) { var k := FirstDifference(a, b); }
    if a <= b { PrefixFirst(a, b); }
    if k :| 0 <= k < |a| && k < |b| && a[..k] == b[..k] && a[k] < b[k] { SmallerAt(a, b, k); }
  }

  lemma {:induction false} AtMostTotal(a: Bytes, b: Bytes)
    ensures AtMost(a, b) || AtMost(b, a)
  {
    if a != [] && b != [] { AtMostTotal(a[1..], b[1..]); }
  }

  lemma {:induction false} AtMostAntisymmetric(a: Bytes, b: Bytes)
    requires AtMost(a, b) && AtMost(b, a)
    ensures a == b
  {
    if a != [] && b != [] {
      AtMostAntisymmetric(a[1..], b[1..]);
      assert a == [a[0]] + a[1..] && b == [b[0]] + b[1..];
    }
  }

  lemma {:induction false} AtMostTransitive(a: Bytes, b: Bytes, c: Bytes)
    requires AtMost(a, b) && AtMost(b, c)
    ensures AtMost(a, c)
  {
    if a != [] && b != [] && c != [] && a[0] == b[0] == c[0] { AtMostTransitive(a[1..], b[1..], c[1..]); }
  }
}

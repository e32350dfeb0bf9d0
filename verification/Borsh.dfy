/** Borsh encodings as value-level writers. Each `Put…(x, rest)` is the encoding of `x` followed by `rest`, so that
    unique decodability reads: equal streams mean equal values *and* equal rests. */
module Borsh {
  import opened ByteStrings

  // ----- primitives -----

  predicate FitsUint(n: int, width: nat) { 0 <= n < Pow256(width) }

  predicate FitsBytes(b: Bytes) { |b| < 0x1_0000_0000 }

  function PutU8(b: Byte, rest: Bytes): Bytes { [b] + rest }

  function PutUint(n: int, width: nat, rest: Bytes): Bytes { LittleEndian(if n < 0 then 0 else n, width) + rest }

  function PutFixed(b: Bytes, rest: Bytes): Bytes { b + rest }

  /** `String`, `AccountId` and `Vec<u8>`: a u32 length, then the bytes. */
  function PutBytes(b: Bytes, rest: Bytes): Bytes { PutUint(|b|, 4, b + rest) }

  lemma AppendCancel(a: Bytes, b: Bytes, r: Bytes, s: Bytes)
    requires a + r == b + s && |a| == |b|
    ensures a == b && r == s
  {
    assert a == (a + r)[..|a|] && b == (b + s)[..|b|];
    assert r == (a + r)[|a|..] && s == (b + s)[|b|..];
  }

  lemma UintCancel(n: int, m: int, width: nat, r: Bytes, s: Bytes)
    requires FitsUint(n, width) && FitsUint(m, width) && PutUint(n, width, r) == PutUint(m, width, s)
    ensures n == m && r == s
  {
    AppendCancel(LittleEndian(n, width), LittleEndian(m, width), r, s);
    DecodeEncode(n, width);
    DecodeEncode(m, width);
  }

  lemma BytesCancel(a: Bytes, b: Bytes, r: Bytes, s: Bytes)
    requires FitsBytes(a) && FitsBytes(b) && PutBytes(a, r) == PutBytes(b, s)
    ensures a == b && r == s
  {
    assert Pow256(4) == 0x1_0000_0000;
    UintCancel(|a|, |b|, 4, a + r, b + s);
    AppendCancel(a, b, r, s);
  }

  /** The primitives cancel, in the form the composite encodings use them. */
  lemma PrimitivesCancel()
    ensures forall a, b, r, s :: PutU8(a, r) == PutU8(b, s) ==> a == b && r == s
    ensures forall n, m, w, r, s :: FitsUint(n, w) && FitsUint(m, w) && PutUint(n, w, r) == PutUint(m, w, s) ==>
              n == m && r == s
    ensures forall a, b, r, s :: |a| == |b| && PutFixed(a, r) == PutFixed(b, s) ==> a == b && r == s
    ensures forall a, b, r, s :: FitsBytes(a) && FitsBytes(b) && PutBytes(a, r) == PutBytes(b, s) ==>
              a == b && r == s
  {
    forall a: Byte, b: Byte, r: Bytes, s: Bytes | PutU8(a, r) == PutU8(b, s) ensures a == b && r == s {
      AppendCancel([a], [b], r, s);
    }
    forall n, m, w, r, s | FitsUint(n, w) && FitsUint(m, w) && PutUint(n, w, r) == PutUint(m, w, s)
      ensures n == m && r == s
    {
      UintCancel(n, m, w, r, s);
    }
    forall a, b, r, s | |a| == |b| && PutFixed(a, r) == PutFixed(b, s) ensures a == b && r == s {
      AppendCancel(a, b, r, s);
    }
    forall a, b, r, s | FitsBytes(a) && FitsBytes(b) && PutBytes(a, r) == PutBytes(b, s) ensures a == b && r == s {
      BytesCancel(a, b, r, s);
    }
  }
}

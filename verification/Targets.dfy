/** Share difficulty and targets: 256-bit long division by limbs, the compact Stratum target, and how a seal is
    judged. Seals and targets are 32 bytes read big-endian. */
module Targets {
  import opened ByteStrings
  import opened Hashing

  const LIMB: nat := 0x1_0000_0000_0000_0000

  function Pow(b: nat, k: nat): nat { if k == 0 then 1 else b * Pow(b, k - 1) }

  /** The integer whose big-endian bytes are `b`. */
  function FromBigEndian(b: Bytes): nat {
    if b == [] then 0 else 256 * FromBigEndian(b[..|b| - 1]) + b[|b| - 1]
  }

  function BigEndian(n: nat, width: nat): (b: Bytes)
    ensures |b| == width
  {
    if width == 0 then [] else BigEndian(n / 256, width - 1) + [n % 256]
  }

  lemma {:induction false} BigEndianRoundTrip(n: nat, width: nat)
    requires n < Pow256(width)
    ensures FromBigEndian(BigEndian(n, width)) == n
  {
    if width > 0 {
      BigEndianRoundTrip(n / 256, width - 1);
      assert BigEndian(n, width)[..width - 1] == BigEndian(n / 256, width - 1);
    }
  }

  lemma {:induction false} BigEndianOfBytes(b: Bytes)
    ensures BigEndian(FromBigEndian(b), |b|) == b
  {
    if b != [] {
      var n := |b| - 1;
      BigEndianOfBytes(b[..n]);
      assert FromBigEndian(b) / 256 == FromBigEndian(b[..n]) && FromBigEndian(b) % 256 == b[n];
      assert b == b[..n] + [b[n]];
    }
  }

  lemma {:induction false} FromBigEndianBound(b: Bytes)
    ensures FromBigEndian(b) < Pow256(|b|)
  {
    if b != [] { FromBigEndianBound(b[..|b| - 1]); }
  }

  lemma {:induction false} FromBigEndianAppend(a: Bytes, b: Bytes)
    ensures FromBigEndian(a + b) == FromBigEndian(a) * Pow256(|b|) + FromBigEndian(b)
  {
    if b == [] {
      assert a + b == a;
    } else {
      var n := |b| - 1;
      FromBigEndianAppend(a, b[..n]);
      assert (a + b)[..|a + b| - 1] == a + b[..n];
      assert 256 * (FromBigEndian(a) * Pow256(n)) == FromBigEndian(a) * Pow256(n + 1);
    }
  }

  /** Byte order is numeric order, so comparing byte arrays compares the numbers. */
  lemma {:induction false} ByteOrderIsNumeric(a: Bytes, b: Bytes)
    requires |a| == |b|
    ensures AtMost(a, b) <==> FromBigEndian(a) <= FromBigEndian(b)
    decreases |a|
  {
    hide FromBigEndian, Pow256;
    if a != [] {
      var x, y, p := FromBigEndian(a[1..]), FromBigEndian(b[1..]), Pow256(|a| - 1);
      HeadFirst(a);
      HeadFirst(b);
      FromBigEndianBound(a[1..]);
      FromBigEndianBound(b[1..]);
      ByteOrderIsNumeric(a[1..], b[1..]);
      HeadDecides(a[0], b[0], x, y, p);
    }
  }

  lemma OneByte(x: Byte)
    ensures FromBigEndian([x]) == x
  {
    assert [x][..0] == [];
  }

  lemma HeadFirst(a: Bytes)
    requires a != []
    ensures FromBigEndian(a) == a[0] * Pow256(|a| - 1) + FromBigEndian(a[1..])
  {
    hide FromBigEndian, Pow256;
    OneByte(a[0]);
    assert a == [a[0]] + a[1..];
    FromBigEndianAppend([a[0]], a[1..]);
  }

  lemma HeadDecides(a: nat, b: nat, x: nat, y: nat, p: nat)
    requires x < p && y < p
    ensures a < b ==> a * p + x < b * p + y
    ensures b < a ==> b * p + y < a * p + x
  {
    if a < b { assert (a + 1) * p <= b * p; }
    if b < a { assert (b + 1) * p <= a * p; }
  }

  // ----- the limb loop -----

  /** `floor((2^256 - 1) / d)`, with difficulty 0 taken as 1. */
  function TargetOf(difficulty: nat): nat { (Pow(LIMB, 4) - 1) / (if difficulty == 0 then 1 else difficulty) }

  /** What one limb of long division leaves. */
  lemma LimbStep(d: nat, rem: nat, q: nat, k: nat)
    requires 1 <= d < LIMB && rem < d && q * d + rem == Pow(LIMB, k) - 1
    ensures var cur := rem * LIMB + (LIMB - 1);
            && cur < LIMB * LIMB && cur / d < LIMB && cur % d < d
            && (q * LIMB + cur / d) * d + cur % d == Pow(LIMB, k + 1) - 1
  {
    var cur := rem * LIMB + (LIMB - 1);
    assert (rem + 1) * LIMB <= d * LIMB <= LIMB * LIMB;
    DivBelow(cur, d, LIMB);
    var c, r := cur / d, cur % d;
    assert cur == d * c + r;
    assert (q * LIMB + c) * d + r == LIMB * (q * d) + (d * c + r);
    assert LIMB * (q * d + rem) == LIMB * (q * d) + LIMB * rem;
  }

  lemma MulMonotone(a: nat, b: nat, c: nat)
    ensures a <= b ==> c * a <= c * b
  {
  }

  lemma DivBelow(n: nat, d: nat, bound: nat)
    requires d > 0 && n < d * bound
    ensures n / d < bound
  {
    var q := n / d;
    assert n == d * q + n % d;
    MulMonotone(bound, q, d);
  }

  lemma QuotientUnique(n: nat, d: nat, q: nat, r: nat)
    requires d > 0 && q * d + r == n && r < d
    ensures q == n / d
  {
    var q', r' := n / d, n % d;
    assert n == d * q' + r';
    MulMonotone(q + 1, q', d);
    MulMonotone(q' + 1, q, d);
  }

  /** One limb more of a big-endian value. */
  lemma LimbAppend(out: Bytes, limb: nat)
    requires limb < LIMB
    ensures FromBigEndian(out + BigEndian(limb, 8)) == FromBigEndian(out) * LIMB + limb
  {
    assert Pow256(8) == LIMB;
    BigEndianRoundTrip(limb, 8);
    FromBigEndianAppend(out, BigEndian(limb, 8));
  }

  /** **Exact division.** The loop over four 64-bit limbs yields `floor((2^256 - 1) / d)`; the running value
      always fits 128 bits and each quotient 64, so neither the shift nor the cast loses anything. */
  method DifficultyToTarget256(difficulty: nat) returns (out: Bytes)
    requires difficulty < LIMB
    ensures |out| == 32 && FromBigEndian(out) == TargetOf(difficulty)
    ensures out == BigEndian(TargetOf(difficulty), 32)
  {
    var d := if difficulty < 1 then 1 else difficulty;
    out := [];
    var rem: nat := 0;
    var limb: nat := 0;
    while limb < 4
      invariant limb <= 4 && |out| == 8 * limb && rem < d
      invariant FromBigEndian(out) * d + rem == Pow(LIMB, limb) - 1
    {
      LimbStep(d, rem, FromBigEndian(out), limb);
      var cur := rem * LIMB + (LIMB - 1);
      LimbAppend(out, cur / d);
      out := out + BigEndian(cur / d, 8);
      rem := cur % d;
      limb := limb + 1;
    }
    QuotientUnique(Pow(LIMB, 4) - 1, d, FromBigEndian(out), rem);
    BigEndianOfBytes(out);
  }

  lemma {:induction false} Pow256Add(a: nat, b: nat)
    ensures Pow256(a + b) == Pow256(a) * Pow256(b)
  {
    if a > 0 {
      Pow256Add(a - 1, b);
      assert a - 1 + b == a + b - 1;
      Regroup(Pow256(a - 1), Pow256(b));
    }
  }

  lemma Regroup(x: nat, y: nat)
    ensures 256 * (x * y) == (256 * x) * y
  {
  }

  lemma EightBytesIsLimb()
    ensures Pow256(8) == LIMB
  {
  }

  lemma ThirtyTwoBytes()
    ensures Pow256(32) == LIMB * LIMB * (LIMB * LIMB)
  {
    hide Pow256;
    EightBytesIsLimb();
    Pow256Add(8, 8);
    Pow256Add(16, 16);
  }

  lemma FourLimbs()
    ensures Pow(LIMB, 4) == LIMB * LIMB * (LIMB * LIMB)
  {
  }

  lemma QuotientBelow(n: nat, d: nat)
    requires d > 0
    ensures n / d <= n
  {
    var q, r := n / d, n % d;
    assert n == d * q + r;
    MulMonotone(1, d, q);
  }

  /** A target fits its 32 bytes. */
  lemma TargetFits(difficulty: nat)
    ensures TargetOf(difficulty) < Pow256(32)
  {
    hide Pow256, Pow;
    ThirtyTwoBytes();
    FourLimbs();
    QuotientBelow(Pow(LIMB, 4) - 1, if difficulty == 0 then 1 else difficulty);
  }

  /** A higher difficulty is a strictly harder target, over the whole 64-bit range. */
  lemma HarderIsSmaller(d: nat, e: nat)
    requires 1 <= d < e < LIMB
    ensures TargetOf(e) < TargetOf(d)
  {
    var n := Pow(LIMB, 4) - 1;
    assert LIMB * LIMB <= n;
    MulMonotone(d, LIMB, d);
    MulMonotone(d, LIMB, LIMB);
    StrictQuotients(n, d, e);
  }

  lemma QuotientAtLeastDivisor(n: nat, d: nat, q: nat, r: nat)
    requires n == d * q + r && r < d && d * d <= n
    ensures d <= q
  {
    MulMonotone(q + 1, d, d);
    assert d * (q + 1) == d * q + d;
  }

  lemma StrictQuotients(n: nat, d: nat, e: nat)
    requires 1 <= d < e && d * d <= n
    ensures n / e < n / d
  {
    var q, r := n / d, n % d;
    assert n == d * q + r;
    QuotientAtLeastDivisor(n, d, q, r);
    assert n < e * q by {
      MulMonotone(d + 1, e, q);
      assert q * (d + 1) == d * q + q;
      assert q * e == e * q;
    }
    DivBelow(n, e, q);
  }

  // ----- the compact target -----

  /** The integer a Stratum job's `target` field spells, and how many bytes it takes. */
  function CompactTarget(difficulty: nat): (nat, nat) {
    var d := if difficulty == 0 then 1 else difficulty;
    if d <= 0xFFFF_FFFF then (0xFFFF_FFFF / d, 4) else ((LIMB - 1) / d, 8)
  }

  lemma RegroupQuotient(a: nat, b: nat, q: nat, r: nat, s: nat)
    requires r < b && s < a
    ensures q * (a * b) + (a * r + s) == a * (b * q + r) + s
    ensures a * r + s < a * b
  {
    assert a * (b * q + r) == a * (b * q) + a * r;
    assert a * (b * q) == q * (a * b);
    MulMonotone(r + 1, b, a);
    assert a * (r + 1) == a * r + a;
  }

  lemma DivDiv(n: nat, a: nat, b: nat)
    requires a > 0 && b > 0
    ensures a * b > 0 && n / a / b == n / (a * b)
  {
    var q, s := n / a, n % a;
    assert n == a * q + s;
    var q', r := q / b, q % b;
    assert q == b * q' + r;
    RegroupQuotient(a, b, q', r, s);
    QuotientUnique(n, a * b, q', a * r + s);
  }

  /** Cutting low bits off before or after dividing gives the same. */
  lemma TopOfQuotient(n: nat, d: nat, cut: nat)
    requires d > 0 && cut > 0
    ensures n / d / cut == n / cut / d
  {
    DivDiv(n, d, cut);
    DivDiv(n, cut, d);
    assert d * cut == cut * d;
  }

  const TOP_32_CUT: nat := 0x1_0000_0000_0000_0000_0000_0000_0000_0000_0000_0000_0000_0000_0000_0000
  const TOP_64_CUT: nat := 0x1_0000_0000_0000_0000_0000_0000_0000_0000_0000_0000_0000_0000

  /** **The two targets agree.** The compact field is exactly the top 32 bits, or the top 64, of the full target. */
  lemma CompactIsTopOfTarget(difficulty: nat)
    requires difficulty < LIMB
    ensures var (value, width) := CompactTarget(difficulty);
            && ((width == 4 && value <= 0xFFFF_FFFF) || (width == 8 && value < LIMB))
            && value == TargetOf(difficulty) / (if width == 4 then TOP_32_CUT else TOP_64_CUT)
  {
    var d := if difficulty == 0 then 1 else difficulty;
    var n := Pow(LIMB, 4) - 1;
    if d <= 0xFFFF_FFFF {
      TopOfQuotient(n, d, TOP_32_CUT);
    } else {
      TopOfQuotient(n, d, TOP_64_CUT);
    }
  }

  // ----- judging a seal -----

  datatype ShareOutcome = TooWeak | Credited | Block

  /** A share target is never harder than the network's. */
  function EffectiveShareTarget(share: Digest, network: Digest): (t: Digest)
    ensures FromBigEndian(t)
         == if FromBigEndian(share) < FromBigEndian(network) then FromBigEndian(network) else FromBigEndian(share)
  {
    ByteOrderIsNumeric(network, share);
    if !AtMost(network, share) then network else share
  }

  /** Equality meets a target, for both thresholds. */
  function ClassifySeal(seal: Digest, shareTarget: Digest, networkTarget: Digest): (o: ShareOutcome)
    ensures o == Block <==> FromBigEndian(seal) <= FromBigEndian(networkTarget)
    ensures o == TooWeak <==> FromBigEndian(networkTarget) < FromBigEndian(seal)
                              && FromBigEndian(shareTarget) < FromBigEndian(seal)
  {
    ByteOrderIsNumeric(seal, networkTarget);
    ByteOrderIsNumeric(seal, shareTarget);
    if AtMost(seal, networkTarget) then Block else if AtMost(seal, shareTarget) then Credited else TooWeak
  }

  /** A block is a share that also cleared the network's difficulty: whatever meets the network target meets the
      effective share target, so nothing is credited but by the latter. */
  lemma EveryBlockIsAShare(seal: Digest, share: Digest, network: Digest)
    ensures var target := EffectiveShareTarget(share, network);
            && (FromBigEndian(seal) <= FromBigEndian(network) ==> FromBigEndian(seal) <= FromBigEndian(target))
            && (ClassifySeal(seal, target, network) != TooWeak <==> FromBigEndian(seal) <= FromBigEndian(target))
  {
  }
}

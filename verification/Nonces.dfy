/** Nonces on the Stratum wire and in the header blob. */
module Nonces {
  import opened ByteStrings
  import opened Borsh

  // ----- hex -----

  function HexDigit(n: nat): char
    requires n < 16
  {
    "0123456789abcdef"[n]
  }

  function Lower(c: char): char { if 'A' <= c <= 'Z' then (c as int + 32) as char else c }

  predicate SameIgnoringCase(a: string, b: string) {
    |a| == |b| && forall i | 0 <= i < |a| :: Lower(a[i]) == Lower(b[i])
  }

  /** Either case is read. */
  function DigitValue(c: char): Option<nat> {
    if '0' <= c <= '9' then Some(c as int - '0' as int)
    else if 'a' <= c <= 'f' then Some(c as int - 'a' as int + 10)
    else if 'A' <= c <= 'F' then Some(c as int - 'A' as int + 10)
    else None
  }

  function HexEncode(b: Bytes): string {
    if b == [] then "" else [HexDigit(b[0] / 16), HexDigit(b[0] % 16)] + HexEncode(b[1..])
  }

  function HexDecode(s: string): Option<Bytes> {
    if s == "" then Some([])
    else if |s| == 1 then None
    else
      match (DigitValue(s[0]), DigitValue(s[1]), HexDecode(s[2..]))
      case (Some(hi), Some(lo), Some(rest)) => if hi < 16 && lo < 16 then Some([16 * hi + lo] + rest) else None
      case _ => None
  }

  lemma DigitRoundTrip(n: nat)
    requires n < 16
    ensures DigitValue(HexDigit(n)) == Some(n)
  {
    assert HexDigit(n) == if n < 10 then (n + '0' as int) as char else (n - 10 + 'a' as int) as char;
  }

  lemma {:induction false} HexRoundTrip(b: Bytes)
    ensures HexDecode(HexEncode(b)) == Some(b) && |HexEncode(b)| == 2 * |b|
  {
    hide HexDigit, DigitValue;
    if b != [] {
      HexRoundTrip(b[1..]);
      DigitRoundTrip(b[0] / 16);
      DigitRoundTrip(b[0] % 16);
      assert HexEncode(b)[2..] == HexEncode(b[1..]);
      assert b == [b[0]] + b[1..];
    }
  }

  lemma DigitCases(c: char, n: nat)
    requires n < 16
    ensures DigitValue(c) == Some(n) <==> Lower(c) == HexDigit(n) == Lower(HexDigit(n))
  {
    assert HexDigit(n) == if n < 10 then (n + '0' as int) as char else (n - 10 + 'a' as int) as char;
  }

  lemma SamePair(c0: char, c1: char, rest: string, d0: char, d1: char, rest': string)
    ensures SameIgnoringCase([c0, c1] + rest, [d0, d1] + rest')
       <==> Lower(c0) == Lower(d0) && Lower(c1) == Lower(d1) && SameIgnoringCase(rest, rest')
  {
    var a, b := [c0, c1] + rest, [d0, d1] + rest';
    if SameIgnoringCase(a, b) {
      assert Lower(a[0]) == Lower(b[0]) && Lower(a[1]) == Lower(b[1]);
      forall i | 0 <= i < |rest| ensures Lower(rest[i]) == Lower(rest'[i]) {
        assert Lower(a[i + 2]) == Lower(b[i + 2]);
      }
    }
  }

  /** What decodes to `b` is its hex, in any mixture of cases. */
  lemma {:induction false} HexDecodesIff(s: string, b: Bytes)
    ensures HexDecode(s) == Some(b) <==> SameIgnoringCase(s, HexEncode(b))
    decreases |s|
  {
    hide HexDigit, DigitValue, Lower;
    HexRoundTrip(b);
    if |s| >= 2 && b != [] {
      var hi, lo := b[0] / 16, b[0] % 16;
      HexDecodesIff(s[2..], b[1..]);
      assert s == [s[0], s[1]] + s[2..] && b == [b[0]] + b[1..];
      SamePair(s[0], s[1], s[2..], HexDigit(hi), HexDigit(lo), HexEncode(b[1..]));
      PairDecodes(s[0], s[1], b[0]);
      HexStep(s, b);
    }
  }

  /** Two characters are read as the byte `x`. */
  predicate ReadsAs(c0: char, c1: char, x: Byte) {
    DigitValue(c0) == Some(x / 16) && DigitValue(c1) == Some(x % 16)
  }

  lemma HexStep(s: string, b: Bytes)
    requires |s| >= 2 && b != []
    ensures HexDecode(s) == Some(b) <==> ReadsAs(s[0], s[1], b[0]) && HexDecode(s[2..]) == Some(b[1..])
  {
    assert b == [b[0]] + b[1..];
    if HexDecode(s) == Some(b) { assert HexDecode(s).value[1..] == HexDecode(s[2..]).value; }
  }

  lemma PairDecodes(c0: char, c1: char, x: Byte)
    ensures ReadsAs(c0, c1, x) <==> Lower(c0) == Lower(HexDigit(x / 16)) && Lower(c1) == Lower(HexDigit(x % 16))
  {
    hide DigitValue, Lower, HexDigit;
    DigitCases(c0, x / 16);
    DigitCases(c1, x % 16);
    DigitCases(HexDigit(x / 16), x / 16);
    DigitCases(HexDigit(x % 16), x % 16);
    DigitRoundTrip(x / 16);
    DigitRoundTrip(x % 16);
  }

  // ----- nonces as miners spell them -----

  datatype NonceError = NotHex | WrongWidth

  datatype ParsedNonce = Nonce(value: nat) | BadNonce(error: NonceError)

  function StripPrefix(s: string): string { if "0x" <= s then s[2..] else s }

  /** Four or eight little-endian bytes, zero-extended to a u64. */
  function ParseNonce(s: string): ParsedNonce {
    match HexDecode(StripPrefix(s))
    case None => BadNonce(NotHex)
    case Some(b) => if |b| != 4 && |b| != 8 then BadNonce(WrongWidth) else Nonce(FromLittleEndian(b))
  }

  /** The bytes as the code holds them: a zeroed array with the decoded bytes copied to its front. */
  method ParseNonceHex(s: string) returns (r: ParsedNonce)
    ensures r == ParseNonce(s)
    ensures r.Nonce? ==> r.value < Pow256(8)
  {
    var stripped := StripPrefix(s);
    var bytes := HexDecode(stripped);
    if bytes.None? { return BadNonce(NotHex); }
    if |bytes.value| != 4 && |bytes.value| != 8 { return BadNonce(WrongWidth); }
    var le: Bytes := bytes.value + Zeros(8 - |bytes.value|);
    PaddingKeepsValue(bytes.value, 8 - |bytes.value|);
    FromLittleEndianBound(le);
    r := Nonce(FromLittleEndian(le));
  }

  lemma {:induction false} PaddingKeepsValue(b: Bytes, k: nat)
    ensures FromLittleEndian(b + Zeros(k)) == FromLittleEndian(b)
  {
    if b != [] {
      assert (b + Zeros(k))[1..] == b[1..] + Zeros(k);
      PaddingKeepsValue(b[1..], k);
    } else if k > 0 {
      assert b + Zeros(k) == Zeros(k) && Zeros(k)[1..] == [] + Zeros(k - 1);
      PaddingKeepsValue([], k - 1);
    } else {
      assert b + Zeros(k) == b;
    }
  }

  /** `hex` spells nonce `n` in `width` bytes, in any mixture of cases. */
  predicate Spells(hex: string, n: nat, width: nat) {
    n < Pow256(width) && SameIgnoringCase(hex, HexEncode(LittleEndian(n, width)))
  }

  lemma SpellsIff(hex: string, n: nat, width: nat)
    ensures Spells(hex, n, width)
       <==> var b := HexDecode(hex); b.Some? && |b.value| == width && FromLittleEndian(b.value) == n
  {
    hide HexDecode, HexEncode, SameIgnoringCase, LittleEndian, FromLittleEndian, Pow256;
    var b := HexDecode(hex);
    if Spells(hex, n, width) {
      HexDecodesIff(hex, LittleEndian(n, width));
      DecodeEncode(n, width);
    }
    if b.Some? && |b.value| == width && FromLittleEndian(b.value) == n {
      EncodeDecode(b.value);
      FromLittleEndianBound(b.value);
      HexDecodesIff(hex, b.value);
    }
  }

  /** In one of the two wire widths. */
  predicate SpellsNonce(hex: string, n: nat) { Spells(hex, n, 4) || Spells(hex, n, 8) }

  lemma HexIsUnprefixed(s: string)
    requires |s| >= 2 && s[0] == '0' && s[1] == 'x'
    ensures HexDecode(s).None?
  {
  }

  /** **One nonce, many spellings.** A string is read as nonce `n` exactly when it spells `n` in one of the two wire
      widths, or is `0x` followed by such a spelling. */
  lemma SpellingsParse(s: string, n: nat)
    ensures ParseNonce(s) == Nonce(n)
       <==> SpellsNonce(s, n) || (|s| >= 2 && s[0] == '0' && s[1] == 'x' && SpellsNonce(s[2..], n))
  {
    hide HexDecode, Spells, FromLittleEndian;
    SpellsIff(s, n, 4);
    SpellsIff(s, n, 8);
    if |s| >= 2 && s[0] == '0' && s[1] == 'x' {
      SpellsIff(s[2..], n, 4);
      SpellsIff(s[2..], n, 8);
      HexIsUnprefixed(s);
      assert s[..2] == "0x";
    }
  }

  // ----- the nonce in the blob -----

  datatype Header = Header(height: int, prevHash: Bytes, txRoot: Bytes, receiptsRoot: Bytes, stateRoot: Bytes,
                           timestampMs: int, proposer: Bytes, versionBits: int, bits: int, nonce: int)

  /** Everything of the header before its nonce, then `rest`. */
  function PutBeforeNonce(h: Header, rest: Bytes): Bytes {
    PutUint(h.height, 8, PutFixed(h.prevHash, PutFixed(h.txRoot, PutFixed(h.receiptsRoot, PutFixed(h.stateRoot,
      PutUint(h.timestampMs, 8, PutBytes(h.proposer, PutUint(h.versionBits, 4, PutUint(h.bits, 4, rest)))))))))
  }

  function EncodeHeader(h: Header): Bytes { PutBeforeNonce(h, PutUint(h.nonce, 8, [])) }

  lemma UintSlides(n: int, width: nat, p: Bytes, t: Bytes)
    ensures PutUint(n, width, p + t) == PutUint(n, width, p) + t
  {
  }

  lemma FixedSlides(b: Bytes, p: Bytes, t: Bytes)
    ensures PutFixed(b, p + t) == PutFixed(b, p) + t
  {
  }

  lemma BytesSlide(b: Bytes, p: Bytes, t: Bytes)
    ensures PutBytes(b, p + t) == PutBytes(b, p) + t
  {
    assert b + (p + t) == b + p + t;
    UintSlides(|b|, 4, b + p, t);
  }

  lemma NonceComesLast(h: Header, t: Bytes)
    ensures PutBeforeNonce(h, t) == PutBeforeNonce(h, []) + t
  {
    hide PutUint, PutFixed, PutBytes;
    assert [] + t == t;
    var p1 := PutUint(h.bits, 4, []);
    var p2 := PutUint(h.versionBits, 4, p1);
    var p3 := PutBytes(h.proposer, p2);
    var p4 := PutUint(h.timestampMs, 8, p3);
    var p5 := PutFixed(h.stateRoot, p4);
    var p6 := PutFixed(h.receiptsRoot, p5);
    var p7 := PutFixed(h.txRoot, p6);
    UintSlides(h.bits, 4, [], t);
    UintSlides(h.versionBits, 4, p1, t);
    BytesSlide(h.proposer, p2, t);
    UintSlides(h.timestampMs, 8, p3, t);
    FixedSlides(h.stateRoot, p4, t);
    FixedSlides(h.receiptsRoot, p5, t);
    FixedSlides(h.txRoot, p6, t);
    FixedSlides(h.prevHash, p7, t);
    UintSlides(h.height, 8, PutFixed(h.prevHash, p7), t);
  }

  /** The blob with the eight bytes at `offset` replaced. */
  function Spliced(blob: Bytes, offset: nat, nonce: nat): Bytes
    requires offset + 8 <= |blob|
  {
    blob[..offset] + LittleEndian(nonce, 8) + blob[offset + 8..]
  }

  /** Overwrite the nonce in place. */
  method SpliceNonce(blob: array<Byte>, offset: nat, nonce: nat)
    requires offset + 8 <= blob.Length
    modifies blob
    ensures blob[..] == Spliced(old(blob[..]), offset, nonce)
  {
    var le := LittleEndian(nonce, 8);
    var i := 0;
    while i < 8
      invariant 0 <= i <= 8
      invariant forall j | 0 <= j < blob.Length ::
                  blob[j] == if offset <= j < offset + i then le[j - offset] else old(blob[j])
    {
      blob[offset + i] := le[i];
      i := i + 1;
    }
  }

  /** **Splicing is re-encoding.** Writing a nonce over the last eight bytes of a header's encoding gives exactly
      the encoding of the header with that nonce, and different nonces give different blobs. */
  lemma SpliceIsReencode(h: Header, nonce: nat, nonce': nat)
    requires FitsUint(nonce, 8) && FitsUint(nonce', 8)
    ensures var blob := EncodeHeader(h);
            && |blob| >= 8
            && Spliced(blob, |blob| - 8, nonce) == EncodeHeader(h.(nonce := nonce))
            && (Spliced(blob, |blob| - 8, nonce) == Spliced(blob, |blob| - 8, nonce') ==> nonce == nonce')
  {
    hide PutBeforeNonce;
    var head := PutBeforeNonce(h, []);
    var blob := EncodeHeader(h);
    NonceComesLast(h, PutUint(h.nonce, 8, []));
    NonceComesLast(h, PutUint(nonce, 8, []));
    assert blob[..|blob| - 8] == head && blob[|blob|..] == [];
    SameHead(h, nonce);
    assert forall n: nat :: Spliced(blob, |blob| - 8, n) == head + LittleEndian(n, 8);
    if Spliced(blob, |blob| - 8, nonce) == Spliced(blob, |blob| - 8, nonce') {
      AppendCancel(head, head, LittleEndian(nonce, 8), LittleEndian(nonce', 8));
      DecodeEncode(nonce, 8);
      DecodeEncode(nonce', 8);
    }
  }

  lemma SameHead(h: Header, nonce: int)
    ensures EncodeHeader(h.(nonce := nonce)) == PutBeforeNonce(h, PutUint(nonce, 8, []))
  {
  }
}

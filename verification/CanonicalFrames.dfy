/** Which gossip frames are the encoding of the message they decode to. The decoder takes any nonzero byte for
    `Some` or `true`; the encoder writes 1. Those bytes are the only slack in the format. */
module CanonicalFrames {
  import opened ByteStrings
  import opened Hashing
  import opened Shares
  import opened Accounts
  import opened Wire

  /** The byte at `at` is one the encoder could have written as a flag. */
  predicate FlagAt(b: Bytes, at: nat) { at < |b| && b[at] <= 1 }

  /** The two flags of a share: its parent's option tag, and `isBlock`, nine bytes before its end. */
  predicate ShareFlags(b: Bytes, at: nat)
    requires GetShare(b, at).Ok?
  {
    var end := GetShare(b, at).at;
    FlagAt(b, at + 32) && end >= 9 && FlagAt(b, end - 9)
  }

  predicate ShareSeqFlags(b: Bytes, at: nat, n: nat)
    decreases n
  {
    n == 0 || (GetShare(b, at).Ok? && ShareFlags(b, at) && ShareSeqFlags(b, GetShare(b, at).at, n - 1))
  }

  /** Every option tag and every `isBlock` byte of a decodable frame is 0 or 1. */
  predicate FlagsCanonical(frame: Bytes)
    requires Decode(frame).Ok?
  {
    match frame[0]
    case 1 => FlagAt(frame, 33)
    case 2 => ShareFlags(frame, 1)
    case 3 => FlagAt(frame, 1)
    case _ => ShareSeqFlags(frame, 5, GetUint(frame, 1, 4).value)
  }

  // ----- each field stands in the frame as it would be written, flags apart -----

  lemma IdStands(b: Bytes, at: nat)
    requires GetId(b, at).Ok?
    ensures GetId(b, at).at == at + 32 && StandsAt(b, at, GetId(b, at).value)
  {
  }

  lemma OptIdStands(b: Bytes, at: nat)
    requires GetOptId(b, at).Ok?
    ensures var r := GetOptId(b, at);
            r.at == at + |PutOptId(r.value)| && (StandsAt(b, at, PutOptId(r.value)) <==> FlagAt(b, at))
  {
    var id := GetOptId(b, at).value;
    assert b[at..at + 1] == [b[at]];
    if id.Some? { StandsAtAppend(b, at, [1], id.value); }
  }

  lemma {:induction false} IdsStand(b: Bytes, at: nat, n: nat)
    requires GetIds(b, at, n).Ok? && at <= |b|
    ensures StandsAt(b, at, PutIds(GetIds(b, at, n).value))
    decreases n
  {
    if n > 0 {
      IdsStand(b, at + 32, n - 1);
      var ids := GetIds(b, at, n).value;
      assert ids[1..] == GetIds(b, at + 32, n - 1).value;
      StandsAtAppend(b, at, ids[0], PutIds(ids[1..]));
    }
  }

  lemma UnclesStand(b: Bytes, at: nat)
    requires GetUncles(b, at).Ok?
    ensures var r := GetUncles(b, at);
            && r.at == at + 1 + |PutIds(r.value)|
            && StandsAt(b, at, [|r.value| % 256]) && StandsAt(b, at + 1, PutIds(r.value))
  {
    var n := GetU8(b, at).value;
    IdsLength(b, at + 1, n);
    IdsStand(b, at + 1, n);
    assert b[at..at + 1] == [n];
  }

  lemma AccountStands(b: Bytes, at: nat)
    requires GetAccount(b, at).Ok?
    ensures var r := GetAccount(b, at);
            r.at == at + 1 + |r.value| && StandsAt(b, at, [|r.value| % 256]) && StandsAt(b, at + 1, r.value)
  {
    assert b[at..at + 1] == [GetU8(b, at).value];
  }

  lemma UintStands(b: Bytes, at: nat, width: nat)
    requires GetUint(b, at, width).Ok?
    ensures GetUint(b, at, width).at == at + width
    ensures StandsAt(b, at, LittleEndian(GetUint(b, at, width).value, width))
  {
    EncodeDecode(b[at..at + width]);
  }

  /** `isBlock` stands as written when its byte is 0 or 1. */
  lemma BoolStands(b: Bytes, at: nat)
    requires GetU8(b, at).Ok?
    ensures GetU8(b, at).at == at + 1
    ensures StandsAt(b, at, [if GetU8(b, at).value != 0 then 1 else 0]) <==> FlagAt(b, at)
  {
    assert b[at..at + 1] == [b[at]];
  }

  // ----- shares -----

  lemma TailStands(b: Bytes, at: nat, s: Share)
    requires StandsAt(b, at, [|s.finder| % 256]) && StandsAt(b, at + 1, s.finder)
    requires StandsAt(b, at + 1 + |s.finder|, LittleEndian(s.work, 16))
    requires StandsAt(b, at + 1 + |s.finder| + 17, LittleEndian(s.timestampMs, 8))
    ensures StandsAt(b, at, PutFromFinder(s))
       <==> StandsAt(b, at + 1 + |s.finder| + 16, [if s.isBlock then 1 else 0])
  {
    hide StandsAt, LittleEndian;
    var t8: Bytes := LittleEndian(s.timestampMs, 8);
    var t7: Bytes := [if s.isBlock then 1 else 0] + t8;
    var t6: Bytes := LittleEndian(s.work, 16) + t7;
    var a6 := at + 1 + |s.finder|;
    StandsAtAppend(b, at, [|s.finder| % 256], s.finder + t6);
    StandsAtAppend(b, at + 1, s.finder, t6);
    StandsAtAppend(b, a6, LittleEndian(s.work, 16), t7);
    StandsAtAppend(b, a6 + 16, [if s.isBlock then 1 else 0], t8);
  }

  lemma HeadStands(b: Bytes, at: nat, s: Share)
    requires StandsAt(b, at, s.id)
    requires StandsAt(b, at + 32 + |PutOptId(s.prev)|, [|s.uncles| % 256])
    requires StandsAt(b, at + 32 + |PutOptId(s.prev)| + 1, PutIds(s.uncles))
    ensures StandsAt(b, at, PutShare(s))
       <==> && StandsAt(b, at + 32, PutOptId(s.prev))
            && StandsAt(b, at + 32 + |PutOptId(s.prev)| + 1 + |PutIds(s.uncles)|, PutFromFinder(s))
  {
    hide StandsAt, PutOptId, PutIds, PutFromFinder;
    var t3: Bytes := PutIds(s.uncles) + PutFromFinder(s);
    var t2: Bytes := [|s.uncles| % 256] + t3;
    var t1: Bytes := PutOptId(s.prev) + t2;
    var a2 := at + 32 + |PutOptId(s.prev)|;
    StandsAtAppend(b, at, s.id, t1);
    StandsAtAppend(b, at + 32, PutOptId(s.prev), t2);
    StandsAtAppend(b, a2, [|s.uncles| % 256], t3);
    StandsAtAppend(b, a2 + 1, PutIds(s.uncles), PutFromFinder(s));
  }

  lemma ShareStands(b: Bytes, at: nat)
    requires GetShare(b, at).Ok?
    ensures StandsAt(b, at, PutShare(GetShare(b, at).value)) <==> ShareFlags(b, at)
  {
    hide GetId, GetOptId, GetUncles, GetAccount, GetUint, GetU8, PutOptId, PutIds, PutShare, PutFromFinder, StandsAt,
         FlagAt, LittleEndian;
    var s := GetShare(b, at).value;
    IdStands(b, at);
    var a2 := GetOptId(b, at + 32).at;
    OptIdStands(b, at + 32);
    UnclesStand(b, a2);
    var a3 := GetUncles(b, a2).at;
    AccountStands(b, a3);
    var a4 := GetAccount(b, a3).at;
    UintStands(b, a4, 16);
    BoolStands(b, a4 + 16);
    UintStands(b, a4 + 17, 8);
    TailStands(b, a3, s);
    HeadStands(b, at, s);
  }

  lemma {:induction false} ShareSeqStands(b: Bytes, at: nat, n: nat)
    requires GetShareSeq(b, at, n).Ok? && at <= |b|
    ensures StandsAt(b, at, PutShares(GetShareSeq(b, at, n).value)) <==> ShareSeqFlags(b, at, n)
    decreases n
  {
    hide GetShare, PutShare, ShareFlags, StandsAt;
    if n == 0 {
      NothingStands(b, at);
    } else {
      var s := GetShare(b, at);
      var v := GetShareSeq(b, at, n).value;
      assert v[1..] == GetShareSeq(b, s.at, n - 1).value;
      ShareEnds(b, at);
      ShareStands(b, at);
      ShareLength(b, at);
      ShareSeqStands(b, s.at, n - 1);
      StandsAtAppend(b, at, PutShare(v[0]), PutShares(v[1..]));
    }
  }

  lemma NothingStands(b: Bytes, at: nat)
    requires at <= |b|
    ensures StandsAt(b, at, [])
  {
  }

  lemma UintEnds(b: Bytes, at: nat, width: nat)
    ensures GetUint(b, at, width).Ok? ==> GetUint(b, at, width).at <= |b|
  {
  }

  lemma ShareEnds(b: Bytes, at: nat)
    requires GetShare(b, at).Ok?
    ensures GetShare(b, at).at <= |b|
  {
    hide GetId, GetOptId, GetUncles, GetAccount, GetUint, GetU8;
    var a := GetU8(b, GetUint(b, GetAccount(b, GetUncles(b, GetOptId(b, GetId(b, at).at).at).at).at, 16).at).at;
    UintEnds(b, a, 8);
  }

  // ----- frames -----

  lemma OptionFrameStands(b: Bytes)
    requires GetMessage(b).Ok? && b[0] == 3
    ensures StandsAt(b, 0, Encode(GetMessage(b).value)) <==> FlagAt(b, 1)
  {
    hide GetOptId, PutOptId, GetShare, GetBatch, StandsAt, FlagAt;
    var after := GetMessage(b).value.after;
    OptIdStands(b, 1);
    TagStands(b, 3);
    StandsAtAppend(b, 0, [3], PutOptId(after));
  }

  lemma TagStands(b: Bytes, tag: Byte)
    requires |b| > 0 && b[0] == tag
    ensures StandsAt(b, 0, [tag])
  {
    assert b[0..1] == [tag];
  }

  lemma HelloFrameStands(b: Bytes)
    requires GetMessage(b).Ok? && b[0] == 1
    ensures StandsAt(b, 0, Encode(GetMessage(b).value)) <==> FlagAt(b, 33)
  {
    hide GetId, GetOptId, PutOptId, GetShare, GetBatch, StandsAt, FlagAt;
    var m := GetMessage(b).value;
    IdStands(b, 1);
    OptIdStands(b, 33);
    TagStands(b, 1);
    StandsAtAppend(b, 0, [1], m.genesis + PutOptId(m.tip));
    StandsAtAppend(b, 1, m.genesis, PutOptId(m.tip));
  }

  lemma AnnounceFrameStands(b: Bytes)
    requires GetMessage(b).Ok? && b[0] == 2
    ensures GetShare(b, 1).Ok?
    ensures StandsAt(b, 0, Encode(GetMessage(b).value)) <==> ShareFlags(b, 1)
  {
    hide GetId, GetOptId, PutShare, GetShare, GetBatch, StandsAt, ShareFlags;
    ShareStands(b, 1);
    TagStands(b, 2);
    StandsAtAppend(b, 0, [2], PutShare(GetMessage(b).value.share));
  }

  lemma BatchFrameStands(b: Bytes)
    requires GetMessage(b).Ok? && b[0] == 4
    ensures GetUint(b, 1, 4).Ok?
    ensures StandsAt(b, 0, Encode(GetMessage(b).value)) <==> ShareSeqFlags(b, 5, GetUint(b, 1, 4).value)
  {
    hide GetId, GetOptId, GetShare, GetUint, GetShareSeq, PutShares, StandsAt, ShareSeqFlags, LittleEndian;
    var v := GetMessage(b).value.shares;
    var n := GetUint(b, 1, 4).value;
    UintEnds(b, 1, 4);
    UintStands(b, 1, 4);
    ShareSeqLength(b, 5, n);
    ShareSeqStands(b, 5, n);
    TagStands(b, 4);
    var body: Bytes := LittleEndian(|v|, 4) + PutShares(v);
    StandsAtAppend(b, 0, [4], body);
    StandsAtAppend(b, 1, LittleEndian(|v|, 4), PutShares(v));
  }

  lemma TagIsKnown(b: Bytes)
    requires GetMessage(b).Ok?
    ensures |b| > 0 && 1 <= b[0] <= 4
  {
    hide GetId, GetOptId, GetShare, GetBatch;
  }

  lemma MessageStands(frame: Bytes)
    requires Decode(frame).Ok?
    ensures StandsAt(frame, 0, Encode(Decode(frame).value)) <==> FlagsCanonical(frame)
  {
    hide GetMessage, Encode, StandsAt, FlagAt, ShareFlags, ShareSeqFlags;
    TagIsKnown(frame);
    match frame[0] {
      case 1 => HelloFrameStands(frame);
      case 2 => AnnounceFrameStands(frame);
      case 3 => OptionFrameStands(frame);
      case 4 => BatchFrameStands(frame);
    }
  }

  /** **Canonical frames.** A decodable frame is the encoding of what it decodes to exactly when its option tags and
      its `isBlock` bytes are 0 or 1. */
  lemma ReencodeIsIdentityIff(frame: Bytes)
    requires Decode(frame).Ok?
    ensures Encode(Decode(frame).value) == frame <==> FlagsCanonical(frame)
  {
    hide Decode, Encode, FlagsCanonical;
    ReencodeIsStable(frame);
    MessageStands(frame);
    StandsWhole(frame);
    assert frame[0..|frame|] == frame;
  }

  /** A frame that is not: an option tagged 2 decodes as `Some`, and `Some` is written with tag 1. */
  lemma OddTagIsRewritten(id: ShareId)
    ensures var frame := [3, 2] + id;
            Decode(frame) == Ok(GetShares(Some(id)), 34) && Encode(GetShares(Some(id))) == [3, 1] + id != frame
  {
    var frame := [3, 2] + id;
    assert frame[0..1] == [3] && frame[1..2] == [2] && frame[2..34] == id;
    assert ([3, 1] + id)[1] == 1;
    assert [3] + ([1] + id) == [3, 1] + id;
  }
}

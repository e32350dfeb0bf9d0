/** The share gossip wire format: what is written, what is read back, and how every malformed frame fails. */
module Wire {
  import opened ByteStrings
  import opened Hashing
  import opened Shares
  import opened Accounts

  const MAX_FRAME_BYTES: nat := 1024 * 1024
  const MAX_SHARES_PER_MESSAGE: nat := 256
  const MAX_UNCLES: nat := 8
  const MAX_ACCOUNT_LEN: nat := 64

  datatype ShareMessage =
    | Hello(genesis: ShareId, tip: Option<ShareId>)
    | Announce(share: Share)
    | GetShares(after: Option<ShareId>)
    | Batch(shares: seq<Share>)

  datatype WireError = Truncated | UnknownTag(tag: Byte) | TooLarge | TrailingBytes | BadAccount

  /** A value read, and where reading stopped; or why it failed. */
  datatype Read<+T> = Ok(value: T, at: nat) | Err(error: WireError) {
    predicate IsFailure() { Err? }
    function PropagateFailure<U>(): Read<U>
      requires Err?
    {
      Err(error)
    }
    function Extract(): (T, nat)
      requires Ok?
    {
      (value, at)
    }
  }

  // ----- writing -----

  function PutOptId(id: Option<ShareId>): Bytes {
    match id
    case None => [0]
    case Some(v) => [1] + v
  }

  function PutIds(ids: seq<ShareId>): (b: Bytes)
    ensures |b| == 32 * |ids|
  {
    if ids == [] then [] else ids[0] + PutIds(ids[1..])
  }

  /** Counts are cut to one byte and integers to their width, as the casts do. */
  function PutShare(s: Share): Bytes {
    s.id + (PutOptId(s.prev) + ([|s.uncles| % 256] + (PutIds(s.uncles) + PutFromFinder(s))))
  }

  function PutFromFinder(s: Share): Bytes {
    [|s.finder| % 256] + (s.finder
    + (LittleEndian(s.work, 16) + ([if s.isBlock then 1 else 0] + LittleEndian(s.timestampMs, 8))))
  }

  function PutShares(v: seq<Share>): Bytes {
    if v == [] then [] else PutShare(v[0]) + PutShares(v[1..])
  }

  function Encode(m: ShareMessage): Bytes {
    match m
    case Hello(genesis, tip) => [1] + (genesis + PutOptId(tip))
    case Announce(s) => [2] + PutShare(s)
    case GetShares(after) => [3] + PutOptId(after)
    case Batch(v) => [4] + (LittleEndian(|v|, 4) + PutShares(v))
  }

  // ----- reading: a cursor that can fail but never leave the buffer -----

  function Take(buf: Bytes, at: nat, n: nat): (r: Read<Bytes>)
    ensures r.Ok? ==> at <= r.at
  {
    if at + n > |buf| then Err(Truncated) else Ok(buf[at..at + n], at + n)
  }

  function GetU8(buf: Bytes, at: nat): (r: Read<Byte>)
    ensures r.Ok? ==> at <= r.at
  {
    var (b, at) :- Take(buf, at, 1);
    Ok(b[0], at)
  }

  function GetUint(buf: Bytes, at: nat, width: nat): (r: Read<nat>)
    ensures r.Ok? ==> at <= r.at
  {
    var (b, at) :- Take(buf, at, width);
    Ok(FromLittleEndian(b), at)
  }

  function GetId(buf: Bytes, at: nat): (r: Read<ShareId>)
    ensures r.Ok? ==> at <= r.at
  {
    var (b, at) :- Take(buf, at, 32);
    Ok(b, at)
  }

  function GetOptId(buf: Bytes, at: nat): (r: Read<Option<ShareId>>)
    ensures r.Ok? ==> at <= r.at
  {
    var (tag, at) :- GetU8(buf, at);
    if tag == 0 then Ok(None, at) else
      var (id, at) :- GetId(buf, at);
      Ok(Some(id), at)
  }

  function GetAccount(buf: Bytes, at: nat): (r: Read<AccountId>)
    ensures r.Ok? ==> at <= r.at
  {
    var (n, at) :- GetU8(buf, at);
    if n == 0 || n > MAX_ACCOUNT_LEN then Err(TooLarge) else
      var (b, at) :- Take(buf, at, n);
      if ValidAccountId(b) then Ok(b, at) else Err(BadAccount)
  }

  function GetIds(buf: Bytes, at: nat, n: nat): (r: Read<seq<ShareId>>)
    ensures r.Ok? ==> at <= r.at
    decreases n
  {
    if n == 0 then Ok([], at) else
      var (id, at) :- GetId(buf, at);
      var (rest, at) :- GetIds(buf, at, n - 1);
      Ok([id] + rest, at)
  }

  function GetUncles(buf: Bytes, at: nat): (r: Read<seq<ShareId>>)
    ensures r.Ok? ==> at <= r.at
  {
    var (n, at) :- GetU8(buf, at);
    if n > MAX_UNCLES then Err(TooLarge) else GetIds(buf, at, n)
  }

  function GetShare(buf: Bytes, at: nat): (r: Read<Share>)
    ensures r.Ok? ==> at <= r.at
  {
    var (id, at) :- GetId(buf, at);
    var (prev, at) :- GetOptId(buf, at);
    var (uncles, at) :- GetUncles(buf, at);
    var (finder, at) :- GetAccount(buf, at);
    var (work, at) :- GetUint(buf, at, 16);
    var (isBlock, at) :- GetU8(buf, at);
    var (timestampMs, at) :- GetUint(buf, at, 8);
    Ok(Share(id, prev, uncles, finder, work, isBlock != 0, timestampMs), at)
  }

  function GetShareSeq(buf: Bytes, at: nat, n: nat): (r: Read<seq<Share>>)
    ensures r.Ok? ==> at <= r.at
    decreases n
  {
    if n == 0 then Ok([], at) else
      var (s, at) :- GetShare(buf, at);
      var (rest, at) :- GetShareSeq(buf, at, n - 1);
      Ok([s] + rest, at)
  }

  function GetBatch(buf: Bytes, at: nat): (r: Read<seq<Share>>)
    ensures r.Ok? ==> at <= r.at
  {
    var (n, at) :- GetUint(buf, at, 4);
    if n > MAX_SHARES_PER_MESSAGE then Err(TooLarge) else GetShareSeq(buf, at, n)
  }

  function GetMessage(buf: Bytes): Read<ShareMessage> {
    var (tag, at) :- GetU8(buf, 0);
    match tag
    case 1 =>
      var (genesis, at) :- GetId(buf, at);
      var (tip, at) :- GetOptId(buf, at);
      Ok(Hello(genesis, tip), at)
    case 2 =>
      var (s, at) :- GetShare(buf, at);
      Ok(Announce(s), at)
    case 3 =>
      var (after, at) :- GetOptId(buf, at);
      Ok(GetShares(after), at)
    case 4 =>
      var (v, at) :- GetBatch(buf, at);
      Ok(Batch(v), at)
    case _ => Err(UnknownTag(tag))
  }

  function Decode(buf: Bytes): Read<ShareMessage> {
    if |buf| > MAX_FRAME_BYTES then Err(TooLarge) else
      var (m, at) :- GetMessage(buf);
      if at == |buf| then Ok(m, at) else Err(TrailingBytes)
  }

  // ----- bounds -----

  /** What the integer types of a share can hold. */
  predicate FitsTypes(s: Share) { s.work < Pow256(16) && s.timestampMs < Pow256(8) }

  predicate ShareInBounds(s: Share) {
    FitsTypes(s) && |s.uncles| <= MAX_UNCLES && ValidAccountId(s.finder)
  }

  predicate InBounds(m: ShareMessage) {
    match m
    case Hello(_, _) => true
    case Announce(s) => ShareInBounds(s)
    case GetShares(_) => true
    case Batch(v) => |v| <= MAX_SHARES_PER_MESSAGE && forall s | s in v :: ShareInBounds(s)
  }

  /** The bounds in numbers. */
  lemma BoundsAre(s: Share, v: seq<Share>)
    ensures ShareInBounds(s)
       <==> |s.uncles| <= 8 && ValidAccountId(s.finder) && s.work <= U128_MAX && s.timestampMs <= 0xFFFF_FFFF_FFFF_FFFF
    ensures InBounds(Batch(v)) <==> |v| <= 256 && forall x | x in v :: ShareInBounds(x)
  {
    hide ValidAccountId, Pow256;
    Widths();
  }

  lemma Widths()
    ensures Pow256(16) == U128_MAX + 1 && Pow256(8) == 0x1_0000_0000_0000_0000
  {
  }

  // ----- a frame cut short or run on -----

  predicate Comparable(b: Bytes, b': Bytes) { b <= b' || b' <= b }

  /** How a reader that stopped at `r` on one frame fares on a longer or shorter copy of it. */
  predicate Streams<T(==)>(r: Read<T>, r': Read<T>, b': Bytes) {
    r.Ok? ==> r' == if r.at <= |b'| then r else Err(Truncated)
  }

  lemma TakeStreams(b: Bytes, b': Bytes, at: nat, n: nat)
    requires Comparable(b, b') && at <= |b'|
    ensures Streams(Take(b, at, n), Take(b', at, n), b')
  {
    if at + n <= |b| && at + n <= |b'| { assert b[at..at + n] == b'[at..at + n]; }
  }

  lemma OptIdStreams(b: Bytes, b': Bytes, at: nat)
    requires Comparable(b, b') && at <= |b'|
    ensures Streams(GetOptId(b, at), GetOptId(b', at), b')
  {
    TakeStreams(b, b', at, 1);
    if at + 1 <= |b'| { TakeStreams(b, b', at + 1, 32); }
  }

  lemma AccountStreams(b: Bytes, b': Bytes, at: nat)
    requires Comparable(b, b') && at <= |b'|
    ensures Streams(GetAccount(b, at), GetAccount(b', at), b')
  {
    TakeStreams(b, b', at, 1);
    if at + 1 <= |b'| && GetU8(b, at).Ok? { TakeStreams(b, b', at + 1, GetU8(b, at).value); }
  }

  lemma {:induction false} IdsStream(b: Bytes, b': Bytes, at: nat, n: nat)
    requires Comparable(b, b') && at <= |b'|
    ensures Streams(GetIds(b, at, n), GetIds(b', at, n), b')
    decreases n
  {
    if n > 0 {
      TakeStreams(b, b', at, 32);
      if at + 32 <= |b'| { IdsStream(b, b', at + 32, n - 1); }
    }
  }

  lemma UnclesStream(b: Bytes, b': Bytes, at: nat)
    requires Comparable(b, b') && at <= |b'|
    ensures Streams(GetUncles(b, at), GetUncles(b', at), b')
  {
    TakeStreams(b, b', at, 1);
    if at + 1 <= |b'| && GetU8(b, at).Ok? { IdsStream(b, b', at + 1, GetU8(b, at).value); }
  }

  lemma IdStreams(b: Bytes, b': Bytes, at: nat)
    requires Comparable(b, b') && at <= |b'|
    ensures Streams(GetId(b, at), GetId(b', at), b')
  {
    TakeStreams(b, b', at, 32);
  }

  lemma U8Streams(b: Bytes, b': Bytes, at: nat)
    requires Comparable(b, b') && at <= |b'|
    ensures Streams(GetU8(b, at), GetU8(b', at), b')
  {
    TakeStreams(b, b', at, 1);
  }

  lemma UintStreams(b: Bytes, b': Bytes, at: nat, width: nat)
    requires Comparable(b, b') && at <= |b'|
    ensures Streams(GetUint(b, at, width), GetUint(b', at, width), b')
  {
    TakeStreams(b, b', at, width);
  }

  lemma ShareStreams(b: Bytes, b': Bytes, at: nat)
    requires Comparable(b, b') && at <= |b'|
    ensures Streams(GetShare(b, at), GetShare(b', at), b')
  {
    hide Comparable, GetId, GetOptId, GetUncles, GetAccount, GetUint, GetU8;
    if GetShare(b, at).Ok? {
      var a1 := GetId(b, at).at;
      var a2 := GetOptId(b, a1).at;
      var a3 := GetUncles(b, a2).at;
      var a4 := GetAccount(b, a3).at;
      var a5 := GetUint(b, a4, 16).at;
      var a6 := GetU8(b, a5).at;
      IdStreams(b, b', at);
      if a1 <= |b'| { OptIdStreams(b, b', a1); }
      if a2 <= |b'| { UnclesStream(b, b', a2); }
      if a3 <= |b'| { AccountStreams(b, b', a3); }
      if a4 <= |b'| { UintStreams(b, b', a4, 16); }
      if a5 <= |b'| { U8Streams(b, b', a5); }
      if a6 <= |b'| { UintStreams(b, b', a6, 8); }
    }
  }

  lemma {:induction false} ShareSeqStreams(b: Bytes, b': Bytes, at: nat, n: nat)
    requires Comparable(b, b') && at <= |b'|
    ensures Streams(GetShareSeq(b, at, n), GetShareSeq(b', at, n), b')
    decreases n
  {
    hide Comparable, GetShare;
    if n > 0 && GetShare(b, at).Ok? {
      ShareStreams(b, b', at);
      if GetShare(b, at).at <= |b'| { ShareSeqStreams(b, b', GetShare(b, at).at, n - 1); }
    }
  }

  lemma BatchStreams(b: Bytes, b': Bytes, at: nat)
    requires Comparable(b, b') && at <= |b'|
    ensures Streams(GetBatch(b, at), GetBatch(b', at), b')
  {
    hide Comparable, GetUint, GetShareSeq;
    UintStreams(b, b', at, 4);
    var n := GetUint(b, at, 4);
    if n.Ok? && n.at <= |b'| { ShareSeqStreams(b, b', n.at, n.value); }
  }

  lemma MessageStreams(b: Bytes, b': Bytes)
    requires Comparable(b, b')
    ensures Streams(GetMessage(b), GetMessage(b'), b')
  {
    hide Comparable, GetId, GetOptId, GetShare, GetBatch;
    TakeStreams(b, b', 0, 1);
    if GetU8(b, 0).Ok? && 1 <= |b'| {
      match GetU8(b, 0).value {
        case 1 =>
          IdStreams(b, b', 1);
          if GetId(b, 1).Ok? && GetId(b, 1).at <= |b'| { OptIdStreams(b, b', GetId(b, 1).at); }
        case 2 => ShareStreams(b, b', 1);
        case 3 => OptIdStreams(b, b', 1);
        case 4 => BatchStreams(b, b', 1);
        case _ =>
      }
    }
  }

  /** **Framing.** If a frame decodes, cutting it anywhere gives `Truncated` and nothing else, and running it on
      gives `TrailingBytes`, or `TooLarge` past the frame limit. */
  lemma FramesAreExact(frame: Bytes, cut: nat, tail: Bytes)
    requires Decode(frame).Ok?
    ensures cut < |frame| ==> Decode(frame[..cut]) == Err(Truncated)
    ensures tail != [] ==>
              Decode(frame + tail) == Err(if |frame + tail| > MAX_FRAME_BYTES then TooLarge else TrailingBytes)
  {
    if cut < |frame| { MessageStreams(frame, frame[..cut]); }
    MessageStreams(frame, frame + tail);
  }

  // ----- round trip -----

  lemma IdRoundTrip(b: Bytes, at: nat, id: ShareId)
    requires StandsAt(b, at, id)
    ensures GetId(b, at) == Ok(id, at + 32)
  {
  }

  lemma OptIdRoundTrip(b: Bytes, at: nat, id: Option<ShareId>)
    requires StandsAt(b, at, PutOptId(id))
    ensures GetOptId(b, at) == Ok(id, at + |PutOptId(id)|)
  {
    if id.Some? { StandsAtSplit(b, at, [1], id.value); }
    assert b[at..at + 1][0] == PutOptId(id)[0];
  }

  lemma {:induction false} IdsRoundTrip(b: Bytes, at: nat, ids: seq<ShareId>)
    requires StandsAt(b, at, PutIds(ids))
    ensures GetIds(b, at, |ids|) == Ok(ids, at + |PutIds(ids)|)
    decreases |ids|
  {
    if ids != [] {
      StandsAtSplit(b, at, ids[0], PutIds(ids[1..]));
      IdsRoundTrip(b, at + 32, ids[1..]);
      assert GetId(b, at) == Ok(ids[0], at + 32);
      assert ids == [ids[0]] + ids[1..];
    }
  }

  lemma UintRoundTrip(b: Bytes, at: nat, n: nat, width: nat)
    requires StandsAt(b, at, LittleEndian(n, width)) && n < Pow256(width)
    ensures GetUint(b, at, width) == Ok(n, at + width)
  {
    DecodeEncode(n, width);
  }

  lemma U8RoundTrip(b: Bytes, at: nat, x: Byte)
    requires StandsAt(b, at, [x])
    ensures GetU8(b, at) == Ok(x, at + 1)
  {
    assert b[at..at + 1][0] == x;
  }

  lemma UnclesRoundTrip(b: Bytes, at: nat, ids: seq<ShareId>)
    requires |ids| <= MAX_UNCLES
    requires StandsAt(b, at, [|ids| % 256]) && StandsAt(b, at + 1, PutIds(ids))
    ensures GetUncles(b, at) == Ok(ids, at + 1 + |PutIds(ids)|)
  {
    U8RoundTrip(b, at, |ids|);
    IdsRoundTrip(b, at + 1, ids);
  }

  lemma AccountRoundTrip(b: Bytes, at: nat, id: AccountId)
    requires ValidAccountId(id) && StandsAt(b, at, [|id| % 256]) && StandsAt(b, at + 1, id)
    ensures GetAccount(b, at) == Ok(id, at + 1 + |id|)
  {
    U8RoundTrip(b, at, |id|);
  }

  /** The fields of a share up to its uncles, read back where they were written. */
  lemma ShareHeadRoundTrip(b: Bytes, at: nat, s: Share)
    requires StandsAt(b, at, PutShare(s)) && |s.uncles| <= MAX_UNCLES
    ensures var a2 := at + 32 + |PutOptId(s.prev)|;
            var a4 := a2 + 1 + |PutIds(s.uncles)|;
            && GetId(b, at) == Ok(s.id, at + 32) && GetOptId(b, at + 32) == Ok(s.prev, a2)
            && GetUncles(b, a2) == Ok(s.uncles, a4) && StandsAt(b, a4, PutFromFinder(s))
            && at + |PutShare(s)| == a4 + |PutFromFinder(s)|
  {
    hide PutOptId, PutIds, GetId, GetOptId, GetUncles, PutFromFinder, StandsAt;
    var t3: Bytes := PutIds(s.uncles) + PutFromFinder(s);
    var t2: Bytes := [|s.uncles| % 256] + t3;
    var t1: Bytes := PutOptId(s.prev) + t2;
    var a2 := at + 32 + |PutOptId(s.prev)|;
    StandsAtSplit(b, at, s.id, t1);
    StandsAtSplit(b, at + 32, PutOptId(s.prev), t2);
    StandsAtSplit(b, a2, [|s.uncles| % 256], t3);
    StandsAtSplit(b, a2 + 1, PutIds(s.uncles), PutFromFinder(s));
    IdRoundTrip(b, at, s.id);
    OptIdRoundTrip(b, at + 32, s.prev);
    UnclesRoundTrip(b, a2, s.uncles);
  }

  lemma ShareTailStands(b: Bytes, at: nat, s: Share)
    requires StandsAt(b, at, PutFromFinder(s))
    ensures var a6 := at + 1 + |s.finder|;
            && StandsAt(b, at, [|s.finder| % 256]) && StandsAt(b, at + 1, s.finder)
            && StandsAt(b, a6, LittleEndian(s.work, 16)) && StandsAt(b, a6 + 16, [if s.isBlock then 1 else 0])
            && StandsAt(b, a6 + 17, LittleEndian(s.timestampMs, 8)) && |PutFromFinder(s)| == 26 + |s.finder|
  {
    hide LittleEndian, StandsAt;
    var t8: Bytes := LittleEndian(s.timestampMs, 8);
    var t7: Bytes := [if s.isBlock then 1 else 0] + t8;
    var t6: Bytes := LittleEndian(s.work, 16) + t7;
    var a6 := at + 1 + |s.finder|;
    StandsAtSplit(b, at, [|s.finder| % 256], s.finder + t6);
    StandsAtSplit(b, at + 1, s.finder, t6);
    StandsAtSplit(b, a6, LittleEndian(s.work, 16), t7);
    StandsAtSplit(b, a6 + 16, [if s.isBlock then 1 else 0], t8);
  }

  /** And the rest of them. */
  lemma ShareTailRoundTrip(b: Bytes, at: nat, s: Share)
    requires StandsAt(b, at, PutFromFinder(s)) && ShareInBounds(s)
    ensures var a6 := at + 1 + |s.finder|;
            && GetAccount(b, at) == Ok(s.finder, a6) && GetUint(b, a6, 16) == Ok(s.work, a6 + 16)
            && GetU8(b, a6 + 16) == Ok(if s.isBlock then 1 else 0, a6 + 17)
            && GetUint(b, a6 + 17, 8) == Ok(s.timestampMs, a6 + 25)
            && |PutFromFinder(s)| == 26 + |s.finder|
  {
    hide GetAccount, GetUint, GetU8, ValidAccountId, LittleEndian, Pow256, StandsAt, PutFromFinder;
    var a6 := at + 1 + |s.finder|;
    ShareTailStands(b, at, s);
    AccountRoundTrip(b, at, s.finder);
    UintRoundTrip(b, a6, s.work, 16);
    U8RoundTrip(b, a6 + 16, if s.isBlock then 1 else 0);
    UintRoundTrip(b, a6 + 17, s.timestampMs, 8);
  }

  lemma ShareRoundTrip(b: Bytes, at: nat, s: Share)
    requires StandsAt(b, at, PutShare(s)) && ShareInBounds(s)
    ensures GetShare(b, at) == Ok(s, at + |PutShare(s)|)
  {
    hide PutShare, PutFromFinder, PutOptId, PutIds, GetId, GetOptId, GetUncles, GetAccount, GetUint, GetU8, StandsAt,
         ValidAccountId, FitsTypes;
    ShareHeadRoundTrip(b, at, s);
    ShareTailRoundTrip(b, at + 32 + |PutOptId(s.prev)| + 1 + |PutIds(s.uncles)|, s);
  }

  lemma {:induction false} ShareSeqRoundTrip(b: Bytes, at: nat, v: seq<Share>)
    requires StandsAt(b, at, PutShares(v)) && forall s | s in v :: ShareInBounds(s)
    ensures GetShareSeq(b, at, |v|) == Ok(v, at + |PutShares(v)|)
    decreases |v|
  {
    hide PutShare, GetShare, ShareInBounds;
    if v != [] {
      StandsAtSplit(b, at, PutShare(v[0]), PutShares(v[1..]));
      ShareRoundTrip(b, at, v[0]);
      ShareSeqRoundTrip(b, at + |PutShare(v[0])|, v[1..]);
      assert v == [v[0]] + v[1..];
    }
  }

  lemma HelloRoundTrip(genesis: ShareId, tip: Option<ShareId>)
    ensures GetMessage(Encode(Hello(genesis, tip))) == Ok(Hello(genesis, tip), |Encode(Hello(genesis, tip))|)
  {
    hide GetOptId, PutOptId, GetShare, GetBatch;
    var b := Encode(Hello(genesis, tip));
    assert b[0..|b|] == b;
    StandsAtSplit(b, 0, [1], genesis + PutOptId(tip));
    StandsAtSplit(b, 1, genesis, PutOptId(tip));
    U8RoundTrip(b, 0, 1);
    OptIdRoundTrip(b, 33, tip);
  }

  lemma AnnounceRoundTrip(s: Share)
    requires ShareInBounds(s)
    ensures GetMessage(Encode(Announce(s))) == Ok(Announce(s), |Encode(Announce(s))|)
  {
    hide GetId, GetOptId, GetShare, PutShare, GetBatch, ShareInBounds;
    var b := Encode(Announce(s));
    assert b[0..|b|] == b;
    StandsAtSplit(b, 0, [2], PutShare(s));
    U8RoundTrip(b, 0, 2);
    ShareRoundTrip(b, 1, s);
  }

  lemma GetSharesRoundTrip(after: Option<ShareId>)
    ensures GetMessage(Encode(GetShares(after))) == Ok(GetShares(after), |Encode(GetShares(after))|)
  {
    hide GetId, GetOptId, PutOptId, GetShare, GetBatch;
    var b := Encode(GetShares(after));
    assert b[0..|b|] == b;
    StandsAtSplit(b, 0, [3], PutOptId(after));
    U8RoundTrip(b, 0, 3);
    OptIdRoundTrip(b, 1, after);
  }

  lemma StandsWhole(b: Bytes)
    ensures StandsAt(b, 0, b)
  {
  }

  lemma SmallCount(n: nat)
    requires n <= MAX_SHARES_PER_MESSAGE
    ensures n < Pow256(4)
  {
    assert Pow256(4) == 0x1_0000_0000;
  }

  lemma BatchBodyRoundTrip(b: Bytes, v: seq<Share>)
    requires |v| <= MAX_SHARES_PER_MESSAGE && forall s | s in v :: ShareInBounds(s)
    requires StandsAt(b, 1, LittleEndian(|v|, 4) + PutShares(v))
    ensures GetBatch(b, 1) == Ok(v, 5 + |PutShares(v)|)
  {
    hide GetShareSeq, PutShares, ShareInBounds, GetUint, LittleEndian, Pow256, StandsAt;
    StandsAtSplit(b, 1, LittleEndian(|v|, 4), PutShares(v));
    SmallCount(|v|);
    UintRoundTrip(b, 1, |v|, 4);
    ShareSeqRoundTrip(b, 5, v);
  }

  lemma BatchRoundTrip(v: seq<Share>)
    requires |v| <= MAX_SHARES_PER_MESSAGE && forall s | s in v :: ShareInBounds(s)
    ensures GetMessage(Encode(Batch(v))) == Ok(Batch(v), |Encode(Batch(v))|)
  {
    hide GetId, GetOptId, GetShare, GetBatch, PutShares, ShareInBounds, LittleEndian, StandsAt, GetU8;
    var b := Encode(Batch(v));
    var body: Bytes := LittleEndian(|v|, 4) + PutShares(v);
    StandsWhole(b);
    StandsAtSplit(b, 0, [4], body);
    U8RoundTrip(b, 0, 4);
    BatchBodyRoundTrip(b, v);
  }

  lemma MessageRoundTrip(m: ShareMessage)
    requires InBounds(m)
    ensures GetMessage(Encode(m)) == Ok(m, |Encode(m)|)
  {
    hide GetMessage, Encode, ShareInBounds;
    match m {
      case Hello(genesis, tip) => HelloRoundTrip(genesis, tip);
      case Announce(s) => AnnounceRoundTrip(s);
      case GetShares(after) => GetSharesRoundTrip(after);
      case Batch(v) => BatchRoundTrip(v);
    }
  }

  // ----- sizes -----

  /** The largest encoding of a share in bounds. */
  const MAX_SHARE_BYTES: nat := 32 + 33 + 1 + 32 * MAX_UNCLES + 1 + MAX_ACCOUNT_LEN + 16 + 1 + 8

  lemma ShareSize(s: Share)
    requires ShareInBounds(s)
    ensures |PutShare(s)| <= MAX_SHARE_BYTES
  {
  }

  lemma {:induction false} SharesSize(v: seq<Share>)
    requires forall s | s in v :: ShareInBounds(s)
    ensures |PutShares(v)| <= MAX_SHARE_BYTES * |v|
  {
    hide PutShare, ShareInBounds;
    if v != [] {
      assert v[0] in v;
      ShareSize(v[0]);
      SharesSize(v[1..]);
      assert |PutShares(v)| == |PutShare(v[0])| + |PutShares(v[1..])|;
      assert MAX_SHARE_BYTES * |v| == MAX_SHARE_BYTES * |v[1..]| + MAX_SHARE_BYTES;
    }
  }

  /** A message in bounds takes about a tenth of the largest frame. */
  lemma EncodingFitsFrame(m: ShareMessage)
    requires InBounds(m)
    ensures |Encode(m)| <= 5 + MAX_SHARES_PER_MESSAGE * MAX_SHARE_BYTES
    ensures 9 * |Encode(m)| < MAX_FRAME_BYTES
  {
    hide PutShare, PutShares, ShareInBounds, LittleEndian;
    if m.Announce? { ShareSize(m.share); }
    if m.Batch? { SharesSize(m.shares); }
  }

  // ----- what decoding yields -----

  /** Reading a share consumes exactly as many bytes as writing it would. */
  lemma {:induction false} IdsLength(b: Bytes, at: nat, n: nat)
    requires GetIds(b, at, n).Ok?
    ensures var r := GetIds(b, at, n); |r.value| == n && r.at == at + 32 * n
    decreases n
  {
    if n > 0 { IdsLength(b, at + 32, n - 1); }
  }

  lemma UnclesLength(b: Bytes, at: nat)
    requires GetUncles(b, at).Ok?
    ensures var r := GetUncles(b, at); |r.value| <= MAX_UNCLES && r.at == at + 1 + 32 * |r.value|
  {
    IdsLength(b, at + 1, GetU8(b, at).value);
  }

  lemma OptIdLength(b: Bytes, at: nat)
    requires GetOptId(b, at).Ok?
    ensures GetOptId(b, at).at == at + |PutOptId(GetOptId(b, at).value)|
  {
  }

  lemma AccountLength(b: Bytes, at: nat)
    requires GetAccount(b, at).Ok?
    ensures var r := GetAccount(b, at); ValidAccountId(r.value) && r.at == at + 1 + |r.value|
  {
  }

  lemma UintLength(b: Bytes, at: nat, width: nat)
    requires GetUint(b, at, width).Ok?
    ensures var r := GetUint(b, at, width); r.value < Pow256(width) && r.at == at + width
  {
    FromLittleEndianBound(b[at..at + width]);
  }

  /** Where a share ends, in terms of its own fields. */
  lemma PutShareLength(s: Share)
    ensures |PutShare(s)| == 32 + |PutOptId(s.prev)| + 1 + 32 * |s.uncles| + 1 + |s.finder| + 25
  {
  }

  lemma FixedLengths(b: Bytes, at: nat)
    ensures GetId(b, at).Ok? ==> GetId(b, at).at == at + 32
    ensures GetU8(b, at).Ok? ==> GetU8(b, at).at == at + 1
  {
  }

  lemma ShareLength(b: Bytes, at: nat)
    requires GetShare(b, at).Ok?
    ensures var r := GetShare(b, at); ShareInBounds(r.value) && r.at == at + |PutShare(r.value)|
  {
    hide GetId, GetOptId, GetUncles, GetAccount, GetUint, GetU8, PutOptId, PutShare, ValidAccountId, Pow256;
    var a1 := GetId(b, at).at;
    var a2 := GetOptId(b, a1).at;
    var a3 := GetUncles(b, a2).at;
    var a4 := GetAccount(b, a3).at;
    var a5 := GetUint(b, a4, 16).at;
    FixedLengths(b, at);
    OptIdLength(b, a1);
    UnclesLength(b, a2);
    AccountLength(b, a3);
    UintLength(b, a4, 16);
    FixedLengths(b, a5);
    UintLength(b, GetU8(b, a5).at, 8);
    PutShareLength(GetShare(b, at).value);
  }

  lemma {:induction false} ShareSeqLength(b: Bytes, at: nat, n: nat)
    requires GetShareSeq(b, at, n).Ok?
    ensures var r := GetShareSeq(b, at, n);
            |r.value| == n && r.at == at + |PutShares(r.value)| && forall s | s in r.value :: ShareInBounds(s)
    decreases n
  {
    hide GetShare, PutShare, ShareInBounds;
    if n > 0 {
      var s := GetShare(b, at);
      ShareSeqLength(b, s.at, n - 1);
      assert GetShareSeq(b, at, n).value[1..] == GetShareSeq(b, s.at, n - 1).value;
      ShareLength(b, at);
    }
  }

  lemma BatchLength(b: Bytes, at: nat)
    requires GetBatch(b, at).Ok?
    ensures var r := GetBatch(b, at);
            && |r.value| <= MAX_SHARES_PER_MESSAGE && (forall s | s in r.value :: ShareInBounds(s))
            && r.at == at + 4 + |PutShares(r.value)|
  {
    hide GetShareSeq, PutShares, ShareInBounds;
    ShareSeqLength(b, at + 4, GetUint(b, at, 4).value);
  }

  lemma MessageLength(b: Bytes)
    requires GetMessage(b).Ok?
    ensures var r := GetMessage(b); InBounds(r.value) && r.at == |Encode(r.value)|
  {
    hide GetOptId, PutOptId, GetShare, PutShare, PutShares, GetBatch, ShareInBounds, LittleEndian;
    match GetU8(b, 0).value {
      case 1 => OptIdLength(b, 33);
      case 2 => ShareLength(b, 1);
      case 3 => OptIdLength(b, 1);
      case 4 => BatchLength(b, 1);
    }
  }

  /** **Round trip.** A message survives encoding exactly when it is within the decoder's bounds. */
  lemma RoundTrip(m: ShareMessage)
    ensures Decode(Encode(m)) == Ok(m, |Encode(m)|) <==> InBounds(m)
  {
    hide GetMessage, Encode, InBounds;
    if InBounds(m) {
      MessageRoundTrip(m);
      EncodingFitsFrame(m);
    }
    if Decode(Encode(m)).Ok? { MessageLength(Encode(m)); }
  }

  /** **Re-encoding.** Whatever a frame decodes to is in bounds, re-encodes to a frame of the same length, and
      that frame decodes to the same message. */
  lemma ReencodeIsStable(frame: Bytes)
    requires Decode(frame).Ok?
    ensures var m := Decode(frame).value;
            InBounds(m) && |Encode(m)| == |frame| && Decode(Encode(m)) == Decode(frame)
  {
    hide GetMessage, Encode, InBounds;
    MessageLength(frame);
    RoundTrip(Decode(frame).value);
  }

  /** Two messages in bounds never share a frame. */
  lemma EncodeInjective(m: ShareMessage, m': ShareMessage)
    requires InBounds(m) && InBounds(m') && Encode(m) == Encode(m')
    ensures m == m'
  {
    hide Decode, Encode, InBounds;
    RoundTrip(m);
    RoundTrip(m');
  }
}

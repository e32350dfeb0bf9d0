/** The wire code in its own shape: a reader that advances a cursor, a writer that grows a buffer, and loops that
    fill vectors, each proved to do what `Wire` says on values. */
module WireIo {
  import opened ByteStrings
  import opened Hashing
  import opened Shares
  import opened Accounts
  import opened Wire

  lemma {:induction false} PutIdsAppend(ids: seq<ShareId>, id: ShareId)
    ensures PutIds(ids + [id]) == PutIds(ids) + id
  {
    if ids == [] {
      assert ids + [id] == [id] && PutIds([id]) == id + PutIds([id][1..]);
    } else {
      assert (ids + [id])[1..] == ids[1..] + [id];
      PutIdsAppend(ids[1..], id);
    }
  }

  lemma {:induction false} PutSharesAppend(v: seq<Share>, s: Share)
    ensures PutShares(v + [s]) == PutShares(v) + PutShare(s)
  {
    hide PutShare;
    if v == [] {
      assert v + [s] == [s] && PutShares([s]) == PutShare(s) + PutShares([s][1..]);
    } else {
      assert (v + [s])[1..] == v[1..] + [s];
      PutSharesAppend(v[1..], s);
    }
  }

  /** A read with items already collected put in front. */
  function Prefixed<T>(done: seq<T>, r: Read<seq<T>>): Read<seq<T>> {
    match r
    case Ok(rest, at) => Ok(done + rest, at)
    case Err(e) => Err(e)
  }

  lemma PrefixedEmpty<T>(r: Read<seq<T>>)
    ensures Prefixed([], r) == r
  {
    if r.Ok? { assert [] + r.value == r.value; }
  }

  lemma PrefixedShift<T>(done: seq<T>, x: T, r: Read<seq<T>>)
    ensures Prefixed(done, Prefixed([x], r)) == Prefixed(done + [x], r)
  {
    if r.Ok? { assert done + ([x] + r.value) == done + [x] + r.value; }
  }

  lemma Regroup(out: Bytes, a: Bytes, b: Bytes, c: Bytes)
    ensures out + a + b + c == out + (a + (b + c))
    ensures a == [] ==> out + b + c == out + (b + c)
  {
  }

  class FrameWriter {
    var out: Bytes

    constructor ()
      ensures out == []
    {
      out := [];
    }

    method Extend(b: Bytes)
      modifies this
      ensures out == old(out) + b
    {
      out := out + b;
    }

    method WriteOptId(id: Option<ShareId>)
      modifies this
      ensures out == old(out) + PutOptId(id)
    {
      match id {
        case None => Extend([0]);
        case Some(v) =>
          Extend([1]);
          Extend(v);
      }
    }

    method WriteIds(ids: seq<ShareId>)
      modifies this
      ensures out == old(out) + PutIds(ids)
    {
      var k := 0;
      while k < |ids|
        invariant 0 <= k <= |ids| && out == old(out) + PutIds(ids[..k])
      {
        Extend(ids[k]);
        PutIdsAppend(ids[..k], ids[k]);
        assert ids[..k + 1] == ids[..k] + [ids[k]];
        k := k + 1;
      }
      assert ids[..k] == ids;
    }

    method WriteShare(s: Share)
      modifies this
      ensures out == old(out) + PutShare(s)
    {
      Extend(s.id);
      WriteOptId(s.prev);
      Extend([|s.uncles| % 256]);
      WriteIds(s.uncles);
      WriteFromFinder(s);
    }

    method WriteFromFinder(s: Share)
      modifies this
      ensures out == old(out) + PutFromFinder(s)
    {
      Extend([|s.finder| % 256]);
      Extend(s.finder);
      Extend(LittleEndian(s.work, 16));
      Extend([if s.isBlock then 1 else 0]);
      Extend(LittleEndian(s.timestampMs, 8));
    }

    method WriteShares(v: seq<Share>)
      modifies this
      ensures out == old(out) + PutShares(v)
    {
      hide PutShare;
      var k := 0;
      while k < |v|
        invariant 0 <= k <= |v| && out == old(out) + PutShares(v[..k])
      {
        WriteShare(v[k]);
        PutSharesAppend(v[..k], v[k]);
        assert v[..k + 1] == v[..k] + [v[k]];
        k := k + 1;
      }
      assert v[..k] == v;
    }

    method WriteMessage(m: ShareMessage)
      modifies this
      ensures out == old(out) + Encode(m)
    {
      hide PutShare, PutShares, PutOptId, LittleEndian;
      match m {
        case Hello(genesis, tip) =>
          Extend([1]);
          Extend(genesis);
          WriteOptId(tip);
          Regroup(old(out), [1], genesis, PutOptId(tip));
        case Announce(s) =>
          Extend([2]);
          WriteShare(s);
          Regroup(old(out), [], [2], PutShare(s));
        case GetShares(after) =>
          Extend([3]);
          WriteOptId(after);
          Regroup(old(out), [], [3], PutOptId(after));
        case Batch(v) =>
          Extend([4]);
          Extend(LittleEndian(|v|, 4));
          WriteShares(v);
          Regroup(old(out), [4], LittleEndian(|v|, 4), PutShares(v));
      }
    }
  }

  /** A cursor that can only fail, never leave the frame. */
  class Reader {
    const buf: Bytes
    var at: nat

    ghost predicate Valid()
      reads this
    {
      at <= |buf|
    }

    constructor (frame: Bytes)
      ensures Valid() && buf == frame && at == 0
    {
      buf, at := frame, 0;
    }

    method TakeBytes(n: nat) returns (r: Read<Bytes>)
      requires Valid()
      modifies this
      ensures Valid() && r == Take(buf, old(at), n) && (r.Ok? ==> at == r.at)
    {
      var end := at + n;
      if end > |buf| { return Err(Truncated); }
      r := Ok(buf[at..end], end);
      at := end;
    }

    method ReadU8() returns (r: Read<Byte>)
      requires Valid()
      modifies this
      ensures Valid() && r == GetU8(buf, old(at)) && (r.Ok? ==> at == r.at)
    {
      var b := TakeBytes(1);
      if b.Err? { return b.PropagateFailure(); }
      r := Ok(b.value[0], at);
    }

    method ReadUint(width: nat) returns (r: Read<nat>)
      requires Valid()
      modifies this
      ensures Valid() && r == GetUint(buf, old(at), width) && (r.Ok? ==> at == r.at)
    {
      var b := TakeBytes(width);
      if b.Err? { return b.PropagateFailure(); }
      r := Ok(FromLittleEndian(b.value), at);
    }

    method ReadId() returns (r: Read<ShareId>)
      requires Valid()
      modifies this
      ensures Valid() && r == GetId(buf, old(at)) && (r.Ok? ==> at == r.at)
    {
      var b := TakeBytes(32);
      if b.Err? { return b.PropagateFailure(); }
      r := Ok(b.value, at);
    }

    method ReadOptId() returns (r: Read<Option<ShareId>>)
      requires Valid()
      modifies this
      ensures Valid() && r == GetOptId(buf, old(at)) && (r.Ok? ==> at == r.at)
    {
      var tag := ReadU8();
      if tag.Err? { return tag.PropagateFailure(); }
      if tag.value == 0 { return Ok(None, at); }
      var id := ReadId();
      if id.Err? { return id.PropagateFailure(); }
      r := Ok(Some(id.value), at);
    }

    method ReadAccount() returns (r: Read<AccountId>)
      requires Valid()
      modifies this
      ensures Valid() && r == GetAccount(buf, old(at)) && (r.Ok? ==> at == r.at)
    {
      var n := ReadU8();
      if n.Err? { return n.PropagateFailure(); }
      if n.value == 0 || n.value > MAX_ACCOUNT_LEN { return Err(TooLarge); }
      var b := TakeBytes(n.value);
      if b.Err? { return b.PropagateFailure(); }
      var fault := Validate(b.value);
      r := if fault.None? then Ok(b.value, at) else Err(BadAccount);
    }

    method ReadUncles() returns (r: Read<seq<ShareId>>)
      requires Valid()
      modifies this
      ensures Valid() && r == GetUncles(buf, old(at)) && (r.Ok? ==> at == r.at)
    {
      hide GetId, GetU8;
      var n := ReadU8();
      if n.Err? { return n.PropagateFailure(); }
      if n.value > MAX_UNCLES { return Err(TooLarge); }
      var uncles: seq<ShareId> := [];
      ghost var start := at;
      PrefixedEmpty(GetIds(buf, at, n.value));
      var k := 0;
      while k < n.value
        invariant 0 <= k <= n.value && Valid()
        invariant GetIds(buf, start, n.value) == Prefixed(uncles, GetIds(buf, at, n.value - k))
      {
        var id := ReadId();
        if id.Err? { return id.PropagateFailure(); }
        PrefixedShift(uncles, id.value, GetIds(buf, at, n.value - k - 1));
        uncles := uncles + [id.value];
        k := k + 1;
      }
      assert uncles + [] == uncles;
      r := Ok(uncles, at);
    }

    method ReadShare() returns (r: Read<Share>)
      requires Valid()
      modifies this
      ensures Valid() && r == GetShare(buf, old(at)) && (r.Ok? ==> at == r.at)
    {
      hide GetId, GetOptId, GetUncles, GetAccount, GetUint, GetU8;
      var id := ReadId();
      if id.Err? { return id.PropagateFailure(); }
      var prev := ReadOptId();
      if prev.Err? { return prev.PropagateFailure(); }
      var uncles := ReadUncles();
      if uncles.Err? { return uncles.PropagateFailure(); }
      var finder := ReadAccount();
      if finder.Err? { return finder.PropagateFailure(); }
      var work := ReadUint(16);
      if work.Err? { return work.PropagateFailure(); }
      var isBlock := ReadU8();
      if isBlock.Err? { return isBlock.PropagateFailure(); }
      var timestampMs := ReadUint(8);
      if timestampMs.Err? { return timestampMs.PropagateFailure(); }
      r := Ok(Share(id.value, prev.value, uncles.value, finder.value, work.value, isBlock.value != 0,
                    timestampMs.value), at);
    }

    method ReadBatch() returns (r: Read<seq<Share>>)
      requires Valid()
      modifies this
      ensures Valid() && r == GetBatch(buf, old(at)) && (r.Ok? ==> at == r.at)
    {
      hide GetShare;
      var n := ReadUint(4);
      if n.Err? { return n.PropagateFailure(); }
      if n.value > MAX_SHARES_PER_MESSAGE { return Err(TooLarge); }
      var v: seq<Share> := [];
      ghost var start := at;
      PrefixedEmpty(GetShareSeq(buf, at, n.value));
      var k := 0;
      while k < n.value
        invariant 0 <= k <= n.value && Valid()
        invariant GetShareSeq(buf, start, n.value) == Prefixed(v, GetShareSeq(buf, at, n.value - k))
      {
        var s := ReadShare();
        if s.Err? { return s.PropagateFailure(); }
        PrefixedShift(v, s.value, GetShareSeq(buf, at, n.value - k - 1));
        v := v + [s.value];
        k := k + 1;
      }
      assert v + [] == v;
      r := Ok(v, at);
    }

    method ReadMessage() returns (r: Read<ShareMessage>)
      requires Valid() && at == 0
      modifies this
      ensures Valid() && r == GetMessage(buf) && (r.Ok? ==> at == r.at)
    {
      hide GetShare, GetOptId, GetBatch;
      var tag := ReadU8();
      if tag.Err? { return tag.PropagateFailure(); }
      match tag.value {
        case 1 =>
          var genesis := ReadId();
          if genesis.Err? { return genesis.PropagateFailure(); }
          var tip := ReadOptId();
          if tip.Err? { return tip.PropagateFailure(); }
          r := Ok(Hello(genesis.value, tip.value), at);
        case 2 =>
          var s := ReadShare();
          if s.Err? { return s.PropagateFailure(); }
          r := Ok(Announce(s.value), at);
        case 3 =>
          var after := ReadOptId();
          if after.Err? { return after.PropagateFailure(); }
          r := Ok(GetShares(after.value), at);
        case 4 =>
          var v := ReadBatch();
          if v.Err? { return v.PropagateFailure(); }
          r := Ok(Batch(v.value), at);
        case _ => r := Err(UnknownTag(tag.value));
      }
    }
  }

  /** Decode a frame: refuse it outright past the size limit, and refuse anything left over. */
  method DecodeFrame(frame: Bytes) returns (r: Read<ShareMessage>)
    ensures r == Decode(frame)
  {
    hide GetMessage;
    if |frame| > MAX_FRAME_BYTES { return Err(TooLarge); }
    var reader := new Reader(frame);
    var m := reader.ReadMessage();
    if m.Err? { return m; }
    r := if reader.at == |reader.buf| then m else Err(TrailingBytes);
  }

  method EncodeFrame(m: ShareMessage) returns (frame: Bytes)
    ensures frame == Encode(m)
  {
    hide Encode;
    var w := new FrameWriter();
    w.WriteMessage(m);
    assert [] + Encode(m) == Encode(m);
    frame := w.out;
  }
}

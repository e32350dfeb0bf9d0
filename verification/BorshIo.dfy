/** The SDK's `BorshWriter` and the functions that drive it. A thrown `BorshError` is the latch `failed`: once set,
    the buffer means nothing. Every writer's contract says when it throws and, whatever is written next, what
    stands in the buffer. */
module BorshIo {
  import opened ByteStrings
  import opened Borsh
  import opened Actions
  import opened Transactions

  class BorshWriter {
    var buf: Bytes
    var failed: bool

    constructor ()
      ensures buf == [] && !failed
    {
      buf, failed := [], false;
    }

    method U8(b: Byte)
      modifies this
      ensures failed == old(failed) && forall rest: Bytes :: buf + rest == old(buf) + PutU8(b, rest)
    {
      buf := buf + [b];
    }

    /** Push the low bytes one at a time; whatever is left over did not fit. */
    method Uint(value: int, bytes: nat)
      modifies this
      ensures failed <==> old(failed) || !FitsUint(value, bytes)
      ensures !failed ==> forall rest: Bytes :: buf + rest == old(buf) + PutUint(value, bytes, rest)
    {
      if value < 0 {
        failed := true;
        return;
      }
      var v: nat := value;
      var i := 0;
      while i < bytes
        invariant 0 <= i <= bytes && failed == old(failed)
        invariant buf + LittleEndian(v, bytes - i) == old(buf) + LittleEndian(value, bytes)
        invariant v < Pow256(bytes - i) <==> value < Pow256(bytes)
      {
        assert LittleEndian(v, bytes - i) == [v % 256] + LittleEndian(v / 256, bytes - i - 1);
        buf := buf + [v % 256];
        v := v / 256;
        i := i + 1;
      }
      if v != 0 { failed := true; }
      forall rest: Bytes ensures buf + rest == old(buf) + PutUint(value, bytes, rest) {
        assert buf + LittleEndian(v, 0) == buf;
        assert old(buf) + LittleEndian(value, bytes) + rest == old(buf) + (LittleEndian(value, bytes) + rest);
      }
    }

    method Raw(b: Bytes)
      modifies this
      ensures failed == old(failed) && forall rest: Bytes :: buf + rest == old(buf) + PutFixed(b, rest)
    {
      buf := buf + b;
      assert forall rest: Bytes :: old(buf) + b + rest == old(buf) + (b + rest);
    }

    method Fixed(b: Bytes, len: nat)
      modifies this
      ensures failed <==> old(failed) || |b| != len
      ensures !failed ==> forall rest: Bytes :: buf + rest == old(buf) + PutFixed(b, rest)
    {
      if |b| != len {
        failed := true;
        return;
      }
      Raw(b);
    }

    /** A string or byte vector. */
    method VecU8(b: Bytes)
      modifies this
      ensures failed <==> old(failed) || !FitsBytes(b)
      ensures !failed ==> forall rest: Bytes :: buf + rest == old(buf) + PutBytes(b, rest)
    {
      assert Pow256(4) == 0x1_0000_0000;
      Uint(|b|, 4);
      ghost var mid := buf;
      Raw(b);
      if !failed {
        forall rest: Bytes ensures buf + rest == old(buf) + PutBytes(b, rest) {
          assert buf + rest == mid + (b + rest);
        }
      }
    }
  }

  method WriteVersionedPublicKey(w: BorshWriter, k: Versioned)
    modifies w
    ensures w.failed <==> old(w.failed) || !FitsKey(k)
    ensures !w.failed ==> forall rest: Bytes :: w.buf + rest == old(w.buf) + PutVersioned(k, rest)
  {
    hide PutU8, PutFixed;
    w.U8(if k.Ed25519? then 0 else 1);
    w.Fixed(k.raw, if k.Ed25519? then ED25519_PK_LEN else HYBRID_PK_LEN);
  }

  method WriteVersionedSignature(w: BorshWriter, s: Versioned)
    modifies w
    ensures w.failed <==> old(w.failed) || !FitsSignature(s)
    ensures !w.failed ==> forall rest: Bytes :: w.buf + rest == old(w.buf) + PutVersioned(s, rest)
  {
    hide PutU8, PutFixed;
    w.U8(if s.Ed25519? then 0 else 1);
    w.Fixed(s.raw, if s.Ed25519? then ED25519_SIG_LEN else HYBRID_SIG_LEN);
  }

  method WriteAsset(w: BorshWriter, a: Asset)
    modifies w
    ensures w.failed <==> old(w.failed) || !FitsAsset(a)
    ensures !w.failed ==> forall rest: Bytes :: w.buf + rest == old(w.buf) + PutAsset(a, rest)
  {
    hide PutU8, PutFixed;
    match a {
      case Sov => w.U8(0);
      case Token(id) =>
        w.U8(1);
        w.Fixed(id, 32);
    }
  }

  method WriteIntent(w: BorshWriter, i: Intent)
    modifies w
    ensures w.failed <==> old(w.failed) || !FitsIntent(i)
    ensures !w.failed ==> forall rest: Bytes :: w.buf + rest == old(w.buf) + PutIntent(i, rest)
  {
    hide PutUint, PutBytes, PutVersioned, PutAsset, FitsUint, FitsBytes, FitsKey, FitsAsset;
    w.VecU8(i.owner);
    WriteVersionedPublicKey(w, i.publicKey);
    w.Uint(i.nonce, 8);
    WriteAsset(w, i.giveAsset);
    w.Uint(i.giveAmount, 16);
    WriteAsset(w, i.wantAsset);
    w.Uint(i.minReceive, 16);
    w.Uint(i.expiryHeight, 8);
  }

  lemma {:induction false} PutStringsAppend(v: seq<Bytes>, x: Bytes, rest: Bytes)
    ensures PutStrings(v + [x], rest) == PutStrings(v, PutBytes(x, rest))
  {
    hide PutBytes;
    if v == [] {
      assert v + [x] == [x] && [x][1..] == [];
    } else {
      assert (v + [x])[1..] == v[1..] + [x];
      PutStringsAppend(v[1..], x, rest);
    }
  }

  /** A set of accounts goes out sorted, behind its count. */
  method WriteAccountSet(w: BorshWriter, accounts: seq<Bytes>)
    modifies w
    ensures w.failed <==> old(w.failed) || !FitsCount(|accounts|) || exists a :: a in accounts && !FitsBytes(a)
    ensures !w.failed ==> forall rest: Bytes ::
              w.buf + rest == old(w.buf) + PutUint(|Sort(accounts)|, 4, PutStrings(Sort(accounts), rest))
  {
    hide PutBytes, PutUint, FitsUint, FitsBytes, Sort;
    var sorted := Sort(accounts);
    SortFits(accounts);
    w.Uint(|sorted|, 4);
    ghost var mid, before := w.buf, w.failed;
    var k := 0;
    while k < |sorted|
      invariant 0 <= k <= |sorted|
      invariant w.failed <==> before || exists a :: a in sorted[..k] && !FitsBytes(a)
      invariant !w.failed ==> forall rest: Bytes :: w.buf + rest == mid + PutStrings(sorted[..k], rest)
    {
      ghost var sofar := w.buf;
      w.VecU8(sorted[k]);
      assert sorted[..k + 1] == sorted[..k] + [sorted[k]];
      if !w.failed {
        forall rest: Bytes ensures w.buf + rest == mid + PutStrings(sorted[..k + 1], rest) {
          assert w.buf + rest == sofar + PutBytes(sorted[k], rest);
          PutStringsAppend(sorted[..k], sorted[k], rest);
        }
      }
      k := k + 1;
    }
    assert sorted[..k] == sorted;
  }

  method WriteCompliancePolicy(w: BorshWriter, p: Policy)
    modifies w
    ensures w.failed <==> old(w.failed) || !FitsPolicy(p)
    ensures !w.failed ==> forall rest: Bytes ::
              w.buf + rest == old(w.buf) + PutPolicy(Policy(p.frozen, NormalControl(p.control), p.cap), rest)
  {
    hide PutU8, PutUint, PutStrings, FitsUint, FitsBytes, Sort;
    w.U8(if p.frozen then 1 else 0);
    match p.control {
      case Unrestricted => w.U8(0);
      case AllowList(accounts) =>
        w.U8(1);
        WriteAccountSet(w, accounts);
      case DenyList(accounts) =>
        w.U8(2);
        WriteAccountSet(w, accounts);
    }
    match p.cap {
      case None => w.U8(0);
      case Some(cap) =>
        w.U8(1);
        w.Uint(cap.maxPerWindow, 16);
        w.Uint(cap.windowBlocks, 8);
    }
  }

  lemma {:induction false} PutKeysAppend(v: seq<Versioned>, x: Versioned, rest: Bytes)
    ensures PutKeys(v + [x], rest) == PutKeys(v, PutVersioned(x, rest))
  {
    hide PutVersioned;
    if v == [] {
      assert v + [x] == [x] && [x][1..] == [];
    } else {
      assert (v + [x])[1..] == v[1..] + [x];
      PutKeysAppend(v[1..], x, rest);
    }
  }

  method WriteKeys(w: BorshWriter, keys: seq<Versioned>)
    modifies w
    ensures w.failed <==> old(w.failed) || exists k :: k in keys && !FitsKey(k)
    ensures !w.failed ==> forall rest: Bytes :: w.buf + rest == old(w.buf) + PutKeys(keys, rest)
  {
    hide PutVersioned, FitsKey;
    var i := 0;
    while i < |keys|
      invariant 0 <= i <= |keys|
      invariant w.failed <==> old(w.failed) || exists k :: k in keys[..i] && !FitsKey(k)
      invariant !w.failed ==> forall rest: Bytes :: w.buf + rest == old(w.buf) + PutKeys(keys[..i], rest)
    {
      ghost var sofar := w.buf;
      WriteVersionedPublicKey(w, keys[i]);
      assert keys[..i + 1] == keys[..i] + [keys[i]];
      if !w.failed {
        forall rest: Bytes ensures w.buf + rest == old(w.buf) + PutKeys(keys[..i + 1], rest) {
          assert w.buf + rest == sofar + PutVersioned(keys[i], rest);
          PutKeysAppend(keys[..i], keys[i], rest);
        }
      }
      i := i + 1;
    }
    assert keys[..i] == keys;
  }

  lemma {:induction false} PutApprovalsAppend(v: seq<Approval>, x: Approval, rest: Bytes)
    ensures PutApprovals(v + [x], rest) == PutApprovals(v, PutUint(x.signer, 2, PutVersioned(x.signature, rest)))
  {
    hide PutVersioned, PutUint;
    if v == [] {
      assert v + [x] == [x] && [x][1..] == [];
    } else {
      assert (v + [x])[1..] == v[1..] + [x];
      PutApprovalsAppend(v[1..], x, rest);
    }
  }

  method WriteApprovals(w: BorshWriter, approvals: seq<Approval>)
    modifies w
    ensures w.failed <==> old(w.failed) || exists p :: p in approvals && !FitsApproval(p)
    ensures !w.failed ==> forall rest: Bytes :: w.buf + rest == old(w.buf) + PutApprovals(approvals, rest)
  {
    hide PutVersioned, PutUint, FitsUint, FitsSignature;
    var i := 0;
    while i < |approvals|
      invariant 0 <= i <= |approvals|
      invariant w.failed <==> old(w.failed) || exists p :: p in approvals[..i] && !FitsApproval(p)
      invariant !w.failed ==> forall rest: Bytes :: w.buf + rest == old(w.buf) + PutApprovals(approvals[..i], rest)
    {
      var p := approvals[i];
      ghost var sofar := w.buf;
      w.Uint(p.signer, 2);
      ghost var mid := w.buf;
      WriteVersionedSignature(w, p.signature);
      assert approvals[..i + 1] == approvals[..i] + [p];
      assert p in approvals[..i + 1];
      assert forall q | q in approvals[..i] :: q in approvals[..i + 1];
      assert forall q | q in approvals[..i + 1] :: q == p || q in approvals[..i];
      if !w.failed {
        forall rest: Bytes ensures w.buf + rest == old(w.buf) + PutApprovals(approvals[..i + 1], rest) {
          assert w.buf + rest == mid + PutVersioned(p.signature, rest);
          assert mid + PutVersioned(p.signature, rest) == sofar + PutUint(p.signer, 2, PutVersioned(p.signature, rest));
          PutApprovalsAppend(approvals[..i], p, rest);
        }
      }
      i := i + 1;
    }
    assert approvals[..i] == approvals;
  }

  /** Transfers, contracts and hash locks. */
  method WriteTransferFields(w: BorshWriter, a: Action)
    requires 0 <= Tag(a) < 8
    modifies w
    ensures w.failed <==> old(w.failed) || !Fits(a)
    ensures !w.failed ==> forall rest: Bytes :: w.buf + rest == old(w.buf) + PutFields(a, rest)
  {
    hide PutUint, PutFixed, PutBytes, PutVersioned, PutIntent, PutPolicy, PutKeys, PutApprovals, PutAction, FitsUint,
         FitsBytes, FitsKey, FitsSignature, FitsIntent, FitsPolicy, FitsApproval;
    match a {
      case Transfer(to, amount) => w.VecU8(to); w.Uint(amount, 16);
      case ClaimVesting =>
      case Deploy(code) => w.VecU8(code);
      case Call(contract, gasLimit, calldata) => w.VecU8(contract); w.Uint(gasLimit, 8); w.VecU8(calldata);
      case Shielded(bundle) => w.VecU8(bundle);
      case HtlcLock(recipient, amount, hashlock, timeout) =>
        w.VecU8(recipient); w.Uint(amount, 16); w.Fixed(hashlock, 32); w.Uint(timeout, 8);
      case HtlcClaim(id, preimage) => w.Fixed(id, 32); w.VecU8(preimage);
      case HtlcRefund(id) => w.Fixed(id, 32);
    }
  }

  /** Tokens. */
  method WriteTokenFields(w: BorshWriter, a: Action)
    requires 8 <= Tag(a) < 11
    modifies w
    ensures w.failed <==> old(w.failed) || !Fits(a)
    ensures !w.failed ==> forall rest: Bytes :: w.buf + rest == old(w.buf) + PutFields(a, rest)
  {
    hide PutUint, PutFixed, PutBytes, PutVersioned, PutIntent, PutPolicy, PutKeys, PutApprovals, PutAction, FitsUint,
         FitsBytes, FitsKey, FitsSignature, FitsIntent, FitsPolicy, FitsApproval;
    match a {
      case TokenIssue(symbol, amount, to) => w.VecU8(symbol); w.Uint(amount, 16); w.VecU8(to);
      case TokenTransfer(asset, to, amount) => w.Fixed(asset, 32); w.VecU8(to); w.Uint(amount, 16);
      case TokenBurn(asset, amount) => w.Fixed(asset, 32); w.Uint(amount, 16);
    }
  }

  /** Intents, keys and names. */
  method WriteIntentFields(w: BorshWriter, a: Action)
    requires 12 <= Tag(a) < 17
    modifies w
    ensures w.failed <==> old(w.failed) || !Fits(a)
    ensures !w.failed ==> forall rest: Bytes :: w.buf + rest == old(w.buf) + PutFields(a, rest)
  {
    hide PutUint, PutFixed, PutBytes, PutVersioned, PutIntent, PutPolicy, PutKeys, PutApprovals, PutAction, FitsUint,
         FitsBytes, FitsKey, FitsSignature, FitsIntent, FitsPolicy, FitsApproval;
    match a {
      case IntentSettle(intent, signature, solver, amount) =>
        WriteIntent(w, intent); WriteVersionedSignature(w, signature); w.VecU8(solver); w.Uint(amount, 16);
      case IntentCancel(intent) => WriteIntent(w, intent);
      case RotateKey(key, proof) => WriteVersionedPublicKey(w, key); WriteVersionedSignature(w, proof);
      case RegisterName(name) => w.VecU8(name);
      case TransferName(name, to) => w.VecU8(name); w.VecU8(to);
    }
  }

  /** Collectibles and the signer set. */
  method WriteNftFields(w: BorshWriter, a: Action)
    requires 17 <= Tag(a) < 21
    modifies w
    ensures w.failed <==> old(w.failed) || !Fits(a)
    ensures !w.failed ==> forall rest: Bytes :: w.buf + rest == old(w.buf) + PutFields(a, rest)
  {
    hide PutUint, PutFixed, PutBytes, PutVersioned, PutIntent, PutPolicy, PutKeys, PutApprovals, PutAction, FitsUint,
         FitsBytes, FitsKey, FitsSignature, FitsIntent, FitsPolicy, FitsApproval;
    match a {
      case NftMint(symbol, id, to, metadata) => w.VecU8(symbol); w.VecU8(id); w.VecU8(to); w.VecU8(metadata);
      case NftTransfer(collection, id, to) => w.Fixed(collection, 32); w.VecU8(id); w.VecU8(to);
      case NftSetMeta(collection, id, metadata) => w.Fixed(collection, 32); w.VecU8(id); w.VecU8(metadata);
      case SetMultisig(signers, threshold) => w.Uint(|signers|, 4); WriteKeys(w, signers); w.Uint(threshold, 2);
    }
  }

  /** Proposals, vaults and the oracle. */
  method WriteVaultFields(w: BorshWriter, a: Action)
    requires 23 <= Tag(a) < 30
    modifies w
    ensures w.failed <==> old(w.failed) || !Fits(a)
    ensures !w.failed ==> forall rest: Bytes :: w.buf + rest == old(w.buf) + PutFields(a, rest)
  {
    hide PutUint, PutFixed, PutBytes, PutVersioned, PutIntent, PutPolicy, PutKeys, PutApprovals, PutAction, FitsUint,
         FitsBytes, FitsKey, FitsSignature, FitsIntent, FitsPolicy, FitsApproval;
    match a {
      case ApproveMultisig(account, proposal) => w.VecU8(account); w.Fixed(proposal, 32);
      case CancelMultisig(account, proposal) => w.VecU8(account); w.Fixed(proposal, 32);
      case VaultDeposit(amount) => w.Uint(amount, 16);
      case VaultMint(amount) => w.Uint(amount, 16);
      case VaultBurn(amount) => w.Uint(amount, 16);
      case VaultWithdraw(amount) => w.Uint(amount, 16);
      case OracleUpdate(price) => w.Uint(price, 16);
    }
  }

  /** A policy goes out with its account lists sorted. */
  method WriteSetPolicyFields(w: BorshWriter, a: Action)
    requires a.TokenSetPolicy?
    modifies w
    ensures w.failed <==> old(w.failed) || !Fits(a)
    ensures !w.failed ==> forall rest: Bytes :: w.buf + rest == old(w.buf) + PutFields(Normal(a), rest)
  {
    hide PutFixed, PutPolicy, FitsPolicy, NormalControl;
    w.Fixed(a.asset, 32);
    WriteCompliancePolicy(w, a.policy);
  }

  lemma NestedLayout(a: Action)
    ensures a.MultisigExec? ==>
              && (Fits(a) <==>
                    Fits(a.inner) && FitsCount(|a.approvals|) && forall p | p in a.approvals :: FitsApproval(p))
              && forall rest: Bytes :: PutFields(Normal(a), rest)
                   == PutAction(Normal(a.inner), PutUint(|a.approvals|, 4, PutApprovals(a.approvals, rest)))
    ensures a.ProposeMultisig? ==>
              && (Fits(a) <==> FitsBytes(a.account) && Fits(a.inner))
              && forall rest: Bytes :: PutFields(Normal(a), rest)
                   == PutBytes(a.account, PutAction(Normal(a.inner), rest))
  {
    hide PutAction, PutUint, PutBytes, PutApprovals, FitsUint, FitsBytes, FitsApproval;
  }

  /** Apart from nesting and policies nothing is normalised. */
  lemma NormalIsSame(a: Action)
    requires !a.TokenSetPolicy? && !a.MultisigExec? && !a.ProposeMultisig?
    ensures Normal(a) == a
  {
  }

  lemma TagRanges(a: Action)
    ensures Tag(a) < 30 && Tag(Normal(a)) == Tag(a)
    ensures a.TokenSetPolicy? <==> Tag(a) == 11
    ensures a.MultisigExec? <==> Tag(a) == 21
    ensures a.ProposeMultisig? <==> Tag(a) == 22
  {
  }

  /** Write an action: it throws exactly when some field, at any depth, does not fit, and otherwise leaves the
      tagged layout. */
  method WriteAction(w: BorshWriter, a: Action)
    modifies w
    ensures w.failed <==> old(w.failed) || !Fits(a)
    ensures !w.failed ==> forall rest: Bytes :: w.buf + rest == old(w.buf) + PutAction(Normal(a), rest)
    decreases a
  {
    hide PutU8, PutUint, PutBytes, PutApprovals, PutFields, Fits, FitsUint, FitsBytes, FitsApproval, Tag, Normal;
    TagRanges(a);
    NestedLayout(a);
    w.U8(Tag(a));
    ghost var tagged := w.buf;
    if a.MultisigExec? {
      WriteAction(w, a.inner);
      w.Uint(|a.approvals|, 4);
      WriteApprovals(w, a.approvals);
    } else if a.ProposeMultisig? {
      w.VecU8(a.account);
      WriteAction(w, a.inner);
    } else if a.TokenSetPolicy? {
      WriteSetPolicyFields(w, a);
    } else {
      NormalIsSame(a);
      if Tag(a) < 8 {
        WriteTransferFields(w, a);
      } else if Tag(a) < 11 {
        WriteTokenFields(w, a);
      } else if Tag(a) < 17 {
        WriteIntentFields(w, a);
      } else if Tag(a) < 21 {
        WriteNftFields(w, a);
      } else {
        WriteVaultFields(w, a);
      }
    }
    assert !w.failed ==> forall rest: Bytes :: w.buf + rest == tagged + PutFields(Normal(a), rest);
  }

  method WriteEnvelope(w: BorshWriter, t: Transaction)
    modifies w
    ensures w.failed <==> old(w.failed) || !FitsEnvelope(t)
    ensures !w.failed ==> forall rest: Bytes :: w.buf + rest == old(w.buf) + PutEnvelope(t, rest)
  {
    hide PutBytes, PutVersioned, PutUint, FitsBytes, FitsKey, FitsUint;
    w.VecU8(t.signer);
    WriteVersionedPublicKey(w, t.publicKey);
    w.Uint(t.nonce, 8);
  }

  /** The canonical signing bytes, or an error for exactly the transactions that do not fit. */
  method EncodeTx(t: Transaction) returns (bytes: Option<Bytes>)
    ensures bytes == if FitsTransaction(t) then Some(EncodeTransaction(t)) else None
  {
    hide PutEnvelope, PutAction, FitsEnvelope, Fits, Normal;
    var w := new BorshWriter();
    WriteEnvelope(w, t);
    WriteAction(w, t.action);
    if w.failed { return None; }
    assert w.buf + [] == w.buf && [] + PutTransaction(t, []) == PutTransaction(t, []);
    bytes := Some(w.buf);
  }

  /** Copy `b` into `out` at `at`, behind what is already there. */
  method Set(out: array<Byte>, at: nat, b: Bytes)
    requires at + |b| <= out.Length
    modifies out
    ensures out[..at + |b|] == old(out[..at]) + b
  {
    var i := 0;
    while i < |b|
      invariant 0 <= i <= |b| && out[..at + i] == old(out[..at]) + b[..i]
    {
      out[at + i] := b[i];
      i := i + 1;
    }
    assert b[..i] == b;
  }

  lemma FrameRegroups(d: SigningDomain, body: Bytes)
    ensures DOMAIN_TAG + [0] + d.chainId + [0] + d.genesis + body == Frame(d, body)
  {
  }

  /** Fill one array behind a moving index. */
  method FillFrame(d: SigningDomain, body: Bytes) returns (bytes: Bytes)
    ensures bytes == Frame(d, body)
  {
    hide Frame;
    var tag := DOMAIN_TAG;
    var out := new Byte[|tag| + 1 + |d.chainId| + 1 + |d.genesis| + |body|](_ => 0);
    assert out[..0] == [];
    var at := 0;
    Set(out, at, tag);
    at := at + |tag|;
    Set(out, at, [0x00]);
    at := at + 1;
    Set(out, at, d.chainId);
    at := at + |d.chainId|;
    Set(out, at, [0x00]);
    at := at + 1;
    Set(out, at, d.genesis);
    at := at + |d.genesis|;
    Set(out, at, body);
    assert out[..] == out[..at + |body|];
    assert [] + tag == tag;
    FrameRegroups(d, body);
    bytes := out[..];
  }

  /** The signing preimage of a transaction, bare or bound to a network. */
  method TransactionSigningBytes(t: Transaction, domain: Option<SigningDomain>) returns (bytes: Option<Bytes>)
    ensures bytes == if FitsTransaction(t) && (domain.Some? ==> |domain.value.genesis| == 32)
                     then Some(SigningBytes(t, domain)) else None
  {
    hide EncodeTransaction, FitsTransaction, Frame;
    var body := EncodeTx(t);
    if body.None? || domain.None? { return body; }
    if |domain.value.genesis| != 32 { return None; }
    var framed := FillFrame(domain.value, body.value);
    bytes := Some(framed);
  }
}

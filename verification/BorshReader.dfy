/** A reader for the layout of the thirty actions, the transaction envelope and the signing preimage. It knows the
    variant indices, widths and field order by itself; that it reads back whatever the writers produce is what fixes
    the bytes they produce. */
module BorshReader {
  import opened ByteStrings
  import opened Borsh
  import opened Actions
  import opened Accounts
  import opened Transactions
  import opened Nonces

  /** A value read off the front of a stream, and what is left of it. */
  datatype Parsed<+T> = Parsed(value: T, rest: Bytes) | Malformed {
    predicate IsFailure() { Malformed? }
    function PropagateFailure<U>(): Parsed<U>
      requires Malformed?
    {
      Malformed
    }
    function Extract(): (T, Bytes)
      requires Parsed?
    {
      (value, rest)
    }
  }

  // ----- primitives -----

  function ReadU8(b: Bytes): (r: Parsed<Byte>)
    ensures r.Parsed? ==> |r.rest| < |b|
  {
    if b == [] then Malformed else Parsed(b[0], b[1..])
  }

  function ReadFixed(b: Bytes, n: nat): (r: Parsed<Bytes>)
    ensures r.Parsed? ==> |r.rest| <= |b|
  {
    if |b| < n then Malformed else Parsed(b[..n], b[n..])
  }

  function ReadUint(b: Bytes, width: nat): (r: Parsed<nat>)
    ensures r.Parsed? ==> |r.rest| <= |b|
  {
    var (raw, b) :- ReadFixed(b, width);
    Parsed(FromLittleEndian(raw), b)
  }

  /** A u32 length, then the bytes. */
  function ReadBytes(b: Bytes): (r: Parsed<Bytes>)
    ensures r.Parsed? ==> |r.rest| <= |b|
  {
    var (n, b) :- ReadUint(b, 4);
    ReadFixed(b, n)
  }

  // ----- records -----

  function ReadKey(b: Bytes): (r: Parsed<Versioned>)
    ensures r.Parsed? ==> |r.rest| <= |b|
  {
    var (scheme, b) :- ReadU8(b);
    if scheme == 0 then
      var (raw, b) :- ReadFixed(b, 32);
      Parsed(Ed25519(raw), b)
    else if scheme == 1 then
      var (raw, b) :- ReadFixed(b, 32 + 1952);
      Parsed(Hybrid65(raw), b)
    else Malformed
  }

  function ReadSignature(b: Bytes): (r: Parsed<Versioned>)
    ensures r.Parsed? ==> |r.rest| <= |b|
  {
    var (scheme, b) :- ReadU8(b);
    if scheme == 0 then
      var (raw, b) :- ReadFixed(b, 64);
      Parsed(Ed25519(raw), b)
    else if scheme == 1 then
      var (raw, b) :- ReadFixed(b, 64 + 3309);
      Parsed(Hybrid65(raw), b)
    else Malformed
  }

  function ReadAsset(b: Bytes): (r: Parsed<Asset>)
    ensures r.Parsed? ==> |r.rest| <= |b|
  {
    var (tag, b) :- ReadU8(b);
    if tag == 0 then Parsed(Sov, b)
    else if tag == 1 then
      var (id, b) :- ReadFixed(b, 32);
      Parsed(Token(id), b)
    else Malformed
  }

  function ReadIntent(b: Bytes): (r: Parsed<Intent>)
    ensures r.Parsed? ==> |r.rest| <= |b|
  {
    var (owner, b) :- ReadBytes(b);
    var (publicKey, b) :- ReadKey(b);
    var (nonce, b) :- ReadUint(b, 8);
    var (giveAsset, b) :- ReadAsset(b);
    var (giveAmount, b) :- ReadUint(b, 16);
    var (wantAsset, b) :- ReadAsset(b);
    var (minReceive, b) :- ReadUint(b, 16);
    var (expiryHeight, b) :- ReadUint(b, 8);
    Parsed(Intent(owner, publicKey, nonce, giveAsset, giveAmount, wantAsset, minReceive, expiryHeight), b)
  }

  function ReadStrings(b: Bytes, n: nat): (r: Parsed<seq<Bytes>>)
    ensures r.Parsed? ==> |r.rest| <= |b|
    decreases n
  {
    if n == 0 then Parsed([], b) else
      var (first, b) :- ReadBytes(b);
      var (others, b) :- ReadStrings(b, n - 1);
      Parsed([first] + others, b)
  }

  function ReadAccounts(b: Bytes): (r: Parsed<seq<Bytes>>)
    ensures r.Parsed? ==> |r.rest| <= |b|
  {
    var (n, b) :- ReadUint(b, 4);
    ReadStrings(b, n)
  }

  function ReadControl(b: Bytes): (r: Parsed<TransferControl>)
    ensures r.Parsed? ==> |r.rest| <= |b|
  {
    var (tag, b) :- ReadU8(b);
    if tag == 0 then Parsed(Unrestricted, b)
    else if tag == 1 then
      var (accounts, b) :- ReadAccounts(b);
      Parsed(AllowList(accounts), b)
    else if tag == 2 then
      var (accounts, b) :- ReadAccounts(b);
      Parsed(DenyList(accounts), b)
    else Malformed
  }

  function ReadCap(b: Bytes): (r: Parsed<Option<SpendCap>>)
    ensures r.Parsed? ==> |r.rest| <= |b|
  {
    var (tag, b) :- ReadU8(b);
    if tag == 0 then Parsed(None, b)
    else if tag == 1 then
      var (maxPerWindow, b) :- ReadUint(b, 16);
      var (windowBlocks, b) :- ReadUint(b, 8);
      Parsed(Some(SpendCap(maxPerWindow, windowBlocks)), b)
    else Malformed
  }

  function ReadPolicy(b: Bytes): (r: Parsed<Policy>)
    ensures r.Parsed? ==> |r.rest| <= |b|
  {
    var (frozen, b) :- ReadU8(b);
    var (control, b) :- ReadControl(b);
    var (cap, b) :- ReadCap(b);
    if frozen > 1 then Malformed else Parsed(Policy(frozen == 1, control, cap), b)
  }

  function ReadKeys(b: Bytes, n: nat): (r: Parsed<seq<Versioned>>)
    ensures r.Parsed? ==> |r.rest| <= |b|
    decreases n
  {
    if n == 0 then Parsed([], b) else
      var (first, b) :- ReadKey(b);
      var (others, b) :- ReadKeys(b, n - 1);
      Parsed([first] + others, b)
  }

  function ReadApprovals(b: Bytes, n: nat): (r: Parsed<seq<Approval>>)
    ensures r.Parsed? ==> |r.rest| <= |b|
    decreases n
  {
    if n == 0 then Parsed([], b) else
      var (signer, b) :- ReadUint(b, 2);
      var (signature, b) :- ReadSignature(b);
      var (others, b) :- ReadApprovals(b, n - 1);
      Parsed([Approval(signer, signature)] + others, b)
  }

  // ----- actions, by variant index -----

  /** Variants 0 to 10, after the index. */
  function ReadMoney(tag: Byte, b: Bytes): (r: Parsed<Action>)
    ensures r.Parsed? ==> |r.rest| <= |b|
  {
    match tag
    case 0 =>
      var (to, b) :- ReadBytes(b);
      var (amount, b) :- ReadUint(b, 16);
      Parsed(Transfer(to, amount), b)
    case 1 => Parsed(ClaimVesting, b)
    case 2 =>
      var (code, b) :- ReadBytes(b);
      Parsed(Deploy(code), b)
    case 3 =>
      var (contract, b) :- ReadBytes(b);
      var (gasLimit, b) :- ReadUint(b, 8);
      var (calldata, b) :- ReadBytes(b);
      Parsed(Call(contract, gasLimit, calldata), b)
    case 4 =>
      var (bundle, b) :- ReadBytes(b);
      Parsed(Shielded(bundle), b)
    case 5 =>
      var (recipient, b) :- ReadBytes(b);
      var (amount, b) :- ReadUint(b, 16);
      var (hashlock, b) :- ReadFixed(b, 32);
      var (timeoutHeight, b) :- ReadUint(b, 8);
      Parsed(HtlcLock(recipient, amount, hashlock, timeoutHeight), b)
    case 6 =>
      var (id, b) :- ReadFixed(b, 32);
      var (preimage, b) :- ReadBytes(b);
      Parsed(HtlcClaim(id, preimage), b)
    case 7 =>
      var (id, b) :- ReadFixed(b, 32);
      Parsed(HtlcRefund(id), b)
    case 8 =>
      var (symbol, b) :- ReadBytes(b);
      var (amount, b) :- ReadUint(b, 16);
      var (to, b) :- ReadBytes(b);
      Parsed(TokenIssue(symbol, amount, to), b)
    case 9 =>
      var (asset, b) :- ReadFixed(b, 32);
      var (to, b) :- ReadBytes(b);
      var (amount, b) :- ReadUint(b, 16);
      Parsed(TokenTransfer(asset, to, amount), b)
    case 10 =>
      var (asset, b) :- ReadFixed(b, 32);
      var (amount, b) :- ReadUint(b, 16);
      Parsed(TokenBurn(asset, amount), b)
    case _ => Malformed
  }

  /** Variants 11 to 20, after the index. */
  function ReadHoldings(tag: Byte, b: Bytes): (r: Parsed<Action>)
    ensures r.Parsed? ==> |r.rest| <= |b|
  {
    match tag
    case 11 =>
      var (asset, b) :- ReadFixed(b, 32);
      var (policy, b) :- ReadPolicy(b);
      Parsed(TokenSetPolicy(asset, policy), b)
    case 12 =>
      var (intent, b) :- ReadIntent(b);
      var (signature, b) :- ReadSignature(b);
      var (solver, b) :- ReadBytes(b);
      var (amount, b) :- ReadUint(b, 16);
      Parsed(IntentSettle(intent, signature, solver, amount), b)
    case 13 =>
      var (intent, b) :- ReadIntent(b);
      Parsed(IntentCancel(intent), b)
    case 14 =>
      var (key, b) :- ReadKey(b);
      var (proof, b) :- ReadSignature(b);
      Parsed(RotateKey(key, proof), b)
    case 15 =>
      var (name, b) :- ReadBytes(b);
      Parsed(RegisterName(name), b)
    case 16 =>
      var (name, b) :- ReadBytes(b);
      var (to, b) :- ReadBytes(b);
      Parsed(TransferName(name, to), b)
    case 17 =>
      var (symbol, b) :- ReadBytes(b);
      var (tokenId, b) :- ReadBytes(b);
      var (to, b) :- ReadBytes(b);
      var (metadata, b) :- ReadBytes(b);
      Parsed(NftMint(symbol, tokenId, to, metadata), b)
    case 18 =>
      var (collection, b) :- ReadFixed(b, 32);
      var (tokenId, b) :- ReadBytes(b);
      var (to, b) :- ReadBytes(b);
      Parsed(NftTransfer(collection, tokenId, to), b)
    case 19 =>
      var (collection, b) :- ReadFixed(b, 32);
      var (tokenId, b) :- ReadBytes(b);
      var (metadata, b) :- ReadBytes(b);
      Parsed(NftSetMeta(collection, tokenId, metadata), b)
    case 20 =>
      var (n, b) :- ReadUint(b, 4);
      var (signers, b) :- ReadKeys(b, n);
      var (threshold, b) :- ReadUint(b, 2);
      Parsed(SetMultisig(signers, threshold), b)
    case _ => Malformed
  }

  /** Variants 23 to 29, after the index. */
  function ReadVault(tag: Byte, b: Bytes): (r: Parsed<Action>)
    ensures r.Parsed? ==> |r.rest| <= |b|
  {
    match tag
    case 23 =>
      var (account, b) :- ReadBytes(b);
      var (proposal, b) :- ReadFixed(b, 32);
      Parsed(ApproveMultisig(account, proposal), b)
    case 24 =>
      var (account, b) :- ReadBytes(b);
      var (proposal, b) :- ReadFixed(b, 32);
      Parsed(CancelMultisig(account, proposal), b)
    case 25 =>
      var (amount, b) :- ReadUint(b, 16);
      Parsed(VaultDeposit(amount), b)
    case 26 =>
      var (amount, b) :- ReadUint(b, 16);
      Parsed(VaultMint(amount), b)
    case 27 =>
      var (amount, b) :- ReadUint(b, 16);
      Parsed(VaultBurn(amount), b)
    case 28 =>
      var (amount, b) :- ReadUint(b, 16);
      Parsed(VaultWithdraw(amount), b)
    case 29 =>
      var (price, b) :- ReadUint(b, 16);
      Parsed(OracleUpdate(price), b)
    case _ => Malformed
  }

  function ReadAction(b: Bytes): (r: Parsed<Action>)
    ensures r.Parsed? ==> |r.rest| < |b|
    decreases |b|
  {
    var (tag, b) :- ReadU8(b);
    if tag <= 10 then ReadMoney(tag, b)
    else if tag <= 20 then ReadHoldings(tag, b)
    else if tag == 21 then
      var (inner, b) :- ReadAction(b);
      var (n, b) :- ReadUint(b, 4);
      var (approvals, b) :- ReadApprovals(b, n);
      Parsed(MultisigExec(inner, approvals), b)
    else if tag == 22 then
      var (account, b) :- ReadBytes(b);
      var (inner, b) :- ReadAction(b);
      Parsed(ProposeMultisig(account, inner), b)
    else ReadVault(tag, b)
  }

  function ReadTransaction(b: Bytes): Parsed<Transaction> {
    var (signer, b) :- ReadBytes(b);
    var (publicKey, b) :- ReadKey(b);
    var (nonce, b) :- ReadUint(b, 8);
    var (action, b) :- ReadAction(b);
    Parsed(Transaction(signer, publicKey, nonce, action), b)
  }

  // ----- reading back what was written -----

  lemma U8Reads(x: Byte, rest: Bytes)
    ensures ReadU8(PutU8(x, rest)) == Parsed(x, rest)
  {
  }

  lemma FixedReads(x: Bytes, rest: Bytes)
    ensures ReadFixed(PutFixed(x, rest), |x|) == Parsed(x, rest)
  {
    assert (x + rest)[..|x|] == x && (x + rest)[|x|..] == rest;
  }

  lemma UintReads(n: int, width: nat, rest: Bytes)
    requires FitsUint(n, width)
    ensures ReadUint(PutUint(n, width, rest), width) == Parsed(n, rest)
  {
    FixedReads(LittleEndian(n, width), rest);
    DecodeEncode(n, width);
  }

  lemma BytesRead(x: Bytes, rest: Bytes)
    requires FitsBytes(x)
    ensures ReadBytes(PutBytes(x, rest)) == Parsed(x, rest)
  {
    hide ReadUint, ReadFixed, PutUint;
    assert Pow256(4) == 0x1_0000_0000;
    UintReads(|x|, 4, x + rest);
    FixedReads(x, rest);
  }

  /** The primitives read back, in the form the composite readers meet them. */
  lemma PrimitivesRead()
    ensures forall x: Byte, r :: ReadU8(PutU8(x, r)) == Parsed(x, r)
    ensures forall x, n, r :: n == |x| ==> ReadFixed(PutFixed(x, r), n) == Parsed(x, r)
    ensures forall n, w, r :: FitsUint(n, w) ==> ReadUint(PutUint(n, w, r), w) == Parsed(n, r)
    ensures forall x, r :: FitsBytes(x) ==> ReadBytes(PutBytes(x, r)) == Parsed(x, r)
  {
    forall x: Byte, r: Bytes ensures ReadU8(PutU8(x, r)) == Parsed(x, r) { U8Reads(x, r); }
    forall x, n, r | n == |x| ensures ReadFixed(PutFixed(x, r), n) == Parsed(x, r) { FixedReads(x, r); }
    forall n, w, r | FitsUint(n, w) ensures ReadUint(PutUint(n, w, r), w) == Parsed(n, r) { UintReads(n, w, r); }
    forall x, r | FitsBytes(x) ensures ReadBytes(PutBytes(x, r)) == Parsed(x, r) { BytesRead(x, r); }
  }

  lemma KeyReads(k: Versioned, rest: Bytes)
    requires FitsKey(k)
    ensures ReadKey(PutVersioned(k, rest)) == Parsed(k, rest)
  {
    hide PutU8, PutFixed, ReadU8, ReadFixed;
    PrimitivesRead();
  }

  lemma SignatureReads(k: Versioned, rest: Bytes)
    requires FitsSignature(k)
    ensures ReadSignature(PutVersioned(k, rest)) == Parsed(k, rest)
  {
    hide PutU8, PutFixed, ReadU8, ReadFixed;
    PrimitivesRead();
  }

  lemma AssetReads(a: Asset, rest: Bytes)
    requires FitsAsset(a)
    ensures ReadAsset(PutAsset(a, rest)) == Parsed(a, rest)
  {
    hide PutU8, PutFixed, ReadU8, ReadFixed;
    PrimitivesRead();
  }

  /** Keys, signatures and assets likewise. */
  lemma RecordsRead()
    ensures forall k, r :: FitsKey(k) ==> ReadKey(PutVersioned(k, r)) == Parsed(k, r)
    ensures forall k, r :: FitsSignature(k) ==> ReadSignature(PutVersioned(k, r)) == Parsed(k, r)
    ensures forall a, r :: FitsAsset(a) ==> ReadAsset(PutAsset(a, r)) == Parsed(a, r)
  {
    forall k, r | FitsKey(k) ensures ReadKey(PutVersioned(k, r)) == Parsed(k, r) { KeyReads(k, r); }
    forall k, r | FitsSignature(k) ensures ReadSignature(PutVersioned(k, r)) == Parsed(k, r) { SignatureReads(k, r); }
    forall a, r | FitsAsset(a) ensures ReadAsset(PutAsset(a, r)) == Parsed(a, r) { AssetReads(a, r); }
  }

  lemma IntentReads(i: Intent, rest: Bytes)
    requires FitsIntent(i)
    ensures ReadIntent(PutIntent(i, rest)) == Parsed(i, rest)
  {
    hide PutBytes, PutUint, PutVersioned, PutAsset, ReadBytes, ReadUint, ReadKey, ReadAsset, FitsUint, FitsKey,
         FitsAsset, FitsBytes;
    PrimitivesRead();
    RecordsRead();
  }

  lemma {:induction false} StringsRead(v: seq<Bytes>, rest: Bytes)
    requires forall x | x in v :: FitsBytes(x)
    ensures ReadStrings(PutStrings(v, rest), |v|) == Parsed(v, rest)
  {
    hide PutBytes, ReadBytes;
    if v != [] {
      assert v[0] in v;
      BytesRead(v[0], PutStrings(v[1..], rest));
      StringsRead(v[1..], rest);
      assert v == [v[0]] + v[1..];
    }
  }

  lemma {:induction false} KeysRead(v: seq<Versioned>, rest: Bytes)
    requires forall k | k in v :: FitsKey(k)
    ensures ReadKeys(PutKeys(v, rest), |v|) == Parsed(v, rest)
  {
    hide PutVersioned, ReadKey;
    if v != [] {
      assert v[0] in v;
      KeyReads(v[0], PutKeys(v[1..], rest));
      KeysRead(v[1..], rest);
      assert v == [v[0]] + v[1..];
    }
  }

  lemma {:induction false} ApprovalsRead(v: seq<Approval>, rest: Bytes)
    requires forall p | p in v :: FitsApproval(p)
    ensures ReadApprovals(PutApprovals(v, rest), |v|) == Parsed(v, rest)
  {
    hide PutVersioned, PutUint, ReadUint, ReadSignature;
    if v != [] {
      assert FitsApproval(v[0]);
      var r := PutApprovals(v[1..], rest);
      UintReads(v[0].signer, 2, PutVersioned(v[0].signature, r));
      SignatureReads(v[0].signature, r);
      ApprovalsRead(v[1..], rest);
      assert v == [v[0]] + v[1..];
    }
  }

  lemma ControlReads(c: TransferControl, rest: Bytes)
    requires FitsControl(c)
    ensures ReadControl(PutControl(c, rest)) == Parsed(c, rest)
  {
    hide PutU8, ReadU8, PutUint, ReadUint, PutStrings, ReadStrings, FitsUint;
    PrimitivesRead();
    if !c.Unrestricted? { StringsRead(c.accounts, rest); }
  }

  lemma CapReads(cap: Option<SpendCap>, rest: Bytes)
    requires cap.Some? ==> FitsU128(cap.value.maxPerWindow) && FitsU64(cap.value.windowBlocks)
    ensures ReadCap(PutCap(cap, rest)) == Parsed(cap, rest)
  {
    hide PutU8, ReadU8, PutUint, ReadUint, FitsUint;
    PrimitivesRead();
  }

  lemma PolicyReads(p: Policy, rest: Bytes)
    requires FitsPolicy(p)
    ensures ReadPolicy(PutPolicy(p, rest)) == Parsed(p, rest)
  {
    hide PutU8, ReadU8, PutControl, ReadControl, PutCap, ReadCap, FitsControl, FitsUint;
    PrimitivesRead();
    CapReads(p.cap, rest);
    ControlReads(p.control, PutCap(p.cap, rest));
  }

  lemma MoneyReads(a: Action, rest: Bytes)
    requires Fits(a) && Tag(a) <= 10
    ensures ReadMoney(Tag(a), PutFields(a, rest)) == Parsed(a, rest)
  {
    hide PutBytes, PutUint, PutFixed, ReadBytes, ReadUint, ReadFixed, FitsUint, FitsBytes;
    PrimitivesRead();
  }

  lemma PolicyActionReads(a: Action, rest: Bytes)
    requires Fits(a) && a.TokenSetPolicy?
    ensures ReadHoldings(Tag(a), PutFields(a, rest)) == Parsed(a, rest)
  {
    hide PutFixed, ReadFixed, PutPolicy, ReadPolicy, FitsPolicy;
    PrimitivesRead();
    PolicyReads(a.policy, rest);
  }

  lemma IntentActionReads(a: Action, rest: Bytes)
    requires Fits(a) && (a.IntentSettle? || a.IntentCancel?)
    ensures ReadHoldings(Tag(a), PutFields(a, rest)) == Parsed(a, rest)
  {
    hide PutBytes, PutUint, ReadBytes, ReadUint, PutVersioned, ReadSignature, PutIntent, ReadIntent, FitsIntent,
         FitsSignature, FitsUint, FitsBytes;
    PrimitivesRead();
    RecordsRead();
    if a.IntentSettle? {
      IntentReads(a.intent, PutVersioned(a.signature, PutBytes(a.solver, PutU128(a.deliverAmount, rest))));
    } else {
      IntentReads(a.intent, rest);
    }
  }

  lemma MultisigActionReads(a: Action, rest: Bytes)
    requires Fits(a) && a.SetMultisig?
    ensures ReadHoldings(Tag(a), PutFields(a, rest)) == Parsed(a, rest)
  {
    hide PutUint, ReadUint, PutKeys, ReadKeys, FitsKey, FitsUint;
    PrimitivesRead();
    KeysRead(a.signers, PutUint(a.threshold, 2, rest));
  }

  lemma NameActionReads(a: Action, rest: Bytes)
    requires Fits(a) && 14 <= Tag(a) <= 19
    ensures ReadHoldings(Tag(a), PutFields(a, rest)) == Parsed(a, rest)
  {
    hide PutBytes, PutFixed, ReadBytes, ReadFixed, PutVersioned, ReadKey, ReadSignature, FitsKey, FitsSignature,
         FitsBytes;
    PrimitivesRead();
    RecordsRead();
  }

  lemma HoldingsRead(a: Action, rest: Bytes)
    requires Fits(a) && 11 <= Tag(a) <= 20
    ensures ReadHoldings(Tag(a), PutFields(a, rest)) == Parsed(a, rest)
  {
    hide PutFields, ReadHoldings, Fits;
    if a.TokenSetPolicy? {
      PolicyActionReads(a, rest);
    } else if a.IntentSettle? || a.IntentCancel? {
      IntentActionReads(a, rest);
    } else if a.SetMultisig? {
      MultisigActionReads(a, rest);
    } else {
      NameActionReads(a, rest);
    }
  }

  lemma VaultReads(a: Action, rest: Bytes)
    requires Fits(a) && 23 <= Tag(a)
    ensures ReadVault(Tag(a), PutFields(a, rest)) == Parsed(a, rest)
  {
    hide PutBytes, PutUint, PutFixed, ReadBytes, ReadUint, ReadFixed, FitsUint, FitsBytes;
    PrimitivesRead();
  }

  lemma ExecReads(a: Action, rest: Bytes)
    requires Fits(a) && a.MultisigExec?
    requires ReadAction(PutAction(a.inner, PutUint(|a.approvals|, 4, PutApprovals(a.approvals, rest))))
          == Parsed(a.inner, PutUint(|a.approvals|, 4, PutApprovals(a.approvals, rest)))
    ensures ReadAction(PutU8(21, PutFields(a, rest))) == Parsed(a, rest)
  {
    hide PutU8, ReadU8, PutUint, ReadUint, PutApprovals, ReadApprovals, PutAction, FitsUint, FitsApproval, ReadMoney,
         ReadHoldings, ReadVault;
    PrimitivesRead();
    ApprovalsRead(a.approvals, rest);
  }

  lemma ProposeReads(a: Action, rest: Bytes)
    requires Fits(a) && a.ProposeMultisig? && ReadAction(PutAction(a.inner, rest)) == Parsed(a.inner, rest)
    ensures ReadAction(PutU8(22, PutFields(a, rest))) == Parsed(a, rest)
  {
    hide PutU8, ReadU8, PutBytes, ReadBytes, PutAction, FitsBytes, ReadMoney, ReadHoldings, ReadVault;
    PrimitivesRead();
  }

  lemma FlatReads(a: Action, rest: Bytes)
    requires Fits(a) && !a.MultisigExec? && !a.ProposeMultisig?
    ensures ReadAction(PutU8(Tag(a), PutFields(a, rest))) == Parsed(a, rest)
  {
    hide PutU8, ReadU8, PutFields, ReadMoney, ReadHoldings, ReadVault, Fits;
    PrimitivesRead();
    if Tag(a) <= 10 {
      MoneyReads(a, rest);
    } else if Tag(a) <= 20 {
      HoldingsRead(a, rest);
    } else {
      VaultReads(a, rest);
    }
  }

  lemma InnerFits(a: Action)
    requires Fits(a) && (a.MultisigExec? || a.ProposeMultisig?)
    ensures Fits(a.inner)
  {
  }

  /** Every action that can be written is read back from the front of any stream. */
  lemma {:induction false} ActionReads(a: Action, rest: Bytes)
    requires Fits(a)
    ensures ReadAction(PutAction(a, rest)) == Parsed(a, rest)
  {
    hide PutFields, ReadAction, Fits;
    if a.MultisigExec? {
      InnerFits(a);
      ActionReads(a.inner, PutUint(|a.approvals|, 4, PutApprovals(a.approvals, rest)));
      ExecReads(a, rest);
    } else if a.ProposeMultisig? {
      InnerFits(a);
      ActionReads(a.inner, rest);
      ProposeReads(a, rest);
    } else {
      FlatReads(a, rest);
    }
  }

  /** **The canonical bytes.** Whatever follows it, the encoding of a transaction is read back as that transaction,
      account lists in written order. */
  lemma TransactionReads(t: Transaction, rest: Bytes)
    requires FitsTransaction(t)
    ensures ReadTransaction(PutTransaction(t, rest)) == Parsed(NormalTransaction(t), rest)
    ensures ReadTransaction(EncodeTransaction(t)) == Parsed(NormalTransaction(t), [])
  {
    TransactionReadsFrom(t, rest);
    TransactionReadsFrom(t, []);
  }

  lemma TransactionReadsFrom(t: Transaction, rest: Bytes)
    requires FitsTransaction(t)
    ensures ReadTransaction(PutTransaction(t, rest)) == Parsed(NormalTransaction(t), rest)
  {
    hide PutBytes, PutUint, PutVersioned, PutAction, ReadBytes, ReadUint, ReadKey, ReadAction, FitsUint, FitsKey,
         FitsBytes, Normal, Fits;
    PrimitivesRead();
    RecordsRead();
    NormalFits(t.action);
    ActionReads(Normal(t.action), rest);
  }

  // ----- signed transactions and the signing preimage -----

  function ReadSigned(b: Bytes): Parsed<(Transaction, Versioned)> {
    var (t, b) :- ReadTransaction(b);
    var (signature, b) :- ReadSignature(b);
    Parsed((t, signature), b)
  }

  lemma SignedReads(t: Transaction, signature: Versioned)
    requires FitsTransaction(t) && FitsSignature(signature)
    ensures ReadSigned(EncodeSigned(t, signature)) == Parsed((NormalTransaction(t), signature), [])
  {
    hide PutTransaction, ReadTransaction, PutVersioned, ReadSignature, NormalTransaction, FitsTransaction,
         FitsSignature;
    TransactionReads(t, PutVersioned(signature, []));
    SignatureReads(signature, []);
  }

  /** The bytes up to the first `stop`, which is dropped. */
  function ReadUntil(b: Bytes, stop: Byte): Parsed<Bytes> {
    if b == [] then Malformed
    else if b[0] == stop then Parsed([], b[1..])
    else
      var (others, rest) :- ReadUntil(b[1..], stop);
      Parsed([b[0]] + others, rest)
  }

  /** `sov:tx:v1` and a NUL. */
  predicate IsFramed(b: Bytes) {
    |b| >= 10 && b[0] == 's' as int && b[1] == 'o' as int && b[2] == 'v' as int && b[3] == ':' as int
    && b[4] == 't' as int && b[5] == 'x' as int && b[6] == ':' as int && b[7] == 'v' as int && b[8] == '1' as int
    && b[9] == 0
  }

  /** The network, if one is named, and the transaction. */
  function ReadPreimage(b: Bytes): Parsed<(Option<SigningDomain>, Transaction)> {
    if IsFramed(b) then
      var (chainId, b) :- ReadUntil(b[10..], 0);
      var (genesis, b) :- ReadFixed(b, 32);
      var (t, b) :- ReadTransaction(b);
      Parsed((Some(SigningDomain(chainId, genesis)), t), b)
    else
      var (t, b) :- ReadTransaction(b);
      Parsed((None, t), b)
  }

  lemma {:induction false} UntilReads(a: Bytes, stop: Byte, rest: Bytes)
    requires stop !in a
    ensures ReadUntil(a + ([stop] + rest), stop) == Parsed(a, rest)
  {
    var b := a + ([stop] + rest);
    if a == [] {
      assert b[1..] == rest;
    } else {
      assert b[1..] == a[1..] + ([stop] + rest) && a == [a[0]] + a[1..];
      UntilReads(a[1..], stop, rest);
    }
  }

  lemma FrameReads(d: SigningDomain, body: Bytes)
    ensures var b := Frame(d, body); IsFramed(b) && b[10..] == d.chainId + ([0] + (d.genesis + body))
  {
    assert Frame(d, body) == DOMAIN_TAG + [0] + (d.chainId + ([0] + (d.genesis + body)));
  }

  lemma BodyIsUnframed(t: Transaction)
    requires |t.signer| <= MAX_LEN
    ensures !IsFramed(EncodeTransaction(t))
  {
    var rest := t.signer + PutVersioned(t.publicKey, PutU64(t.nonce, PutAction(Normal(t.action), [])));
    assert EncodeTransaction(t) == LittleEndian(|t.signer|, 4) + rest;
    assert EncodeTransaction(t)[1] == LittleEndian(|t.signer|, 4)[1] == (|t.signer| / 256) % 256 == 0;
  }

  /** **The preimage.** What is signed tells the network, or that none is named, and the transaction. */
  lemma PreimageReads(t: Transaction, d: Option<SigningDomain>)
    requires FitsTransaction(t) && ValidAccountId(t.signer) && (d.Some? ==> ValidDomain(d.value))
    ensures ReadPreimage(SigningBytes(t, d)) == Parsed((d, NormalTransaction(t)), [])
  {
    hide EncodeTransaction, ReadTransaction, ReadUntil, ReadFixed, Frame, IsFramed, NormalTransaction, FitsTransaction;
    TransactionReads(t, []);
    match d {
      case None => BodyIsUnframed(t);
      case Some(domain) =>
        var body := EncodeTransaction(t);
        FrameReads(domain, body);
        UntilReads(domain.chainId, 0, domain.genesis + body);
        FixedReads(domain.genesis, body);
        assert PutFixed(domain.genesis, body) == domain.genesis + body;
    }
  }

  // ----- block headers -----

  function ReadHeader(b: Bytes): Parsed<Header> {
    var (height, b) :- ReadUint(b, 8);
    var (prevHash, b) :- ReadFixed(b, 32);
    var (txRoot, b) :- ReadFixed(b, 32);
    var (receiptsRoot, b) :- ReadFixed(b, 32);
    var (stateRoot, b) :- ReadFixed(b, 32);
    var (timestampMs, b) :- ReadUint(b, 8);
    var (proposer, b) :- ReadBytes(b);
    var (versionBits, b) :- ReadUint(b, 4);
    var (bits, b) :- ReadUint(b, 4);
    var (nonce, b) :- ReadUint(b, 8);
    var h := Header(height, prevHash, txRoot, receiptsRoot, stateRoot, timestampMs, proposer, versionBits, bits, nonce);
    Parsed(h, b)
  }

  predicate FitsHeader(h: Header) {
    && FitsU64(h.height) && FitsHash(h.prevHash) && FitsHash(h.txRoot) && FitsHash(h.receiptsRoot)
    && FitsHash(h.stateRoot) && FitsU64(h.timestampMs) && FitsBytes(h.proposer)
    && FitsUint(h.versionBits, 4) && FitsUint(h.bits, 4) && FitsU64(h.nonce)
  }

  /** **The header blob.** A header is read back from its encoding, the nonce last. */
  lemma HeaderReads(h: Header)
    requires FitsHeader(h)
    ensures ReadHeader(EncodeHeader(h)) == Parsed(h, [])
  {
    hide PutUint, PutFixed, PutBytes, ReadUint, ReadFixed, ReadBytes, FitsUint, FitsBytes;
    PrimitivesRead();
  }
}

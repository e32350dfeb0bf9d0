/** The thirty transaction actions and their Borsh layout. Text is held as its UTF-8 bytes, hex fields as the bytes
    they spell, keys and signatures by scheme. */
module Actions {
  import opened ByteStrings
  import opened Borsh

  const ED25519_PK_LEN: nat := 32
  const HYBRID_PK_LEN: nat := 1984
  const ED25519_SIG_LEN: nat := 64
  const HYBRID_SIG_LEN: nat := 3373

  /** A versioned public key or signature: the scheme byte is part of what is signed. */
  datatype Versioned = Ed25519(raw: Bytes) | Hybrid65(raw: Bytes)

  datatype Asset = Sov | Token(asset: Bytes)

  datatype Intent = Intent(owner: Bytes, publicKey: Versioned, nonce: int, giveAsset: Asset, giveAmount: int,
                           wantAsset: Asset, minReceive: int, expiryHeight: int)

  datatype TransferControl = Unrestricted | AllowList(accounts: seq<Bytes>) | DenyList(accounts: seq<Bytes>)

  datatype SpendCap = SpendCap(maxPerWindow: int, windowBlocks: int)

  datatype Policy = Policy(frozen: bool, control: TransferControl, cap: Option<SpendCap>)

  datatype Approval = Approval(signer: int, signature: Versioned)

  datatype Action =
    | Transfer(to: Bytes, amount: int)
    | ClaimVesting
    | Deploy(code: Bytes)
    | Call(contract: Bytes, gasLimit: int, calldata: Bytes)
    | Shielded(bundle: Bytes)
    | HtlcLock(recipient: Bytes, amount: int, hashlock: Bytes, timeoutHeight: int)
    | HtlcClaim(htlcId: Bytes, preimage: Bytes)
    | HtlcRefund(htlcId: Bytes)
    | TokenIssue(symbol: Bytes, amount: int, to: Bytes)
    | TokenTransfer(asset: Bytes, to: Bytes, amount: int)
    | TokenBurn(asset: Bytes, amount: int)
    | TokenSetPolicy(asset: Bytes, policy: Policy)
    | IntentSettle(intent: Intent, signature: Versioned, solver: Bytes, deliverAmount: int)
    | IntentCancel(intent: Intent)
    | RotateKey(newKey: Versioned, proof: Versioned)
    | RegisterName(name: Bytes)
    | TransferName(name: Bytes, to: Bytes)
    | NftMint(symbol: Bytes, tokenId: Bytes, to: Bytes, metadata: Bytes)
    | NftTransfer(collection: Bytes, tokenId: Bytes, to: Bytes)
    | NftSetMeta(collection: Bytes, tokenId: Bytes, metadata: Bytes)
    | SetMultisig(signers: seq<Versioned>, threshold: int)
    | MultisigExec(inner: Action, approvals: seq<Approval>)
    | ProposeMultisig(account: Bytes, inner: Action)
    | ApproveMultisig(account: Bytes, proposal: Bytes)
    | CancelMultisig(account: Bytes, proposal: Bytes)
    | VaultDeposit(amount: int)
    | VaultMint(amount: int)
    | VaultBurn(amount: int)
    | VaultWithdraw(amount: int)
    | OracleUpdate(price: int)

  // ----- what can be encoded: everything else throws -----

  predicate FitsKey(k: Versioned) { |k.raw| == if k.Ed25519? then ED25519_PK_LEN else HYBRID_PK_LEN }

  predicate FitsSignature(s: Versioned) { |s.raw| == if s.Ed25519? then ED25519_SIG_LEN else HYBRID_SIG_LEN }

  predicate FitsHash(b: Bytes) { |b| == 32 }

  predicate FitsU64(n: int) { FitsUint(n, 8) }

  predicate FitsU128(n: int) { FitsUint(n, 16) }

  predicate FitsAsset(a: Asset) { a.Token? ==> FitsHash(a.asset) }

  predicate FitsIntent(i: Intent) {
    && FitsBytes(i.owner) && FitsKey(i.publicKey) && FitsU64(i.nonce) && FitsAsset(i.giveAsset)
    && FitsU128(i.giveAmount) && FitsAsset(i.wantAsset) && FitsU128(i.minReceive) && FitsU64(i.expiryHeight)
  }

  predicate FitsCount(n: nat) { FitsUint(n, 4) }

  predicate FitsApproval(p: Approval) { FitsUint(p.signer, 2) && FitsSignature(p.signature) }

  predicate FitsControl(c: TransferControl) {
    c.Unrestricted? || (FitsCount(|c.accounts|) && forall a | a in c.accounts :: FitsBytes(a))
  }

  predicate FitsPolicy(p: Policy) {
    FitsControl(p.control) && (p.cap.Some? ==> FitsU128(p.cap.value.maxPerWindow) && FitsU64(p.cap.value.windowBlocks))
  }

  predicate Fits(a: Action) {
    match a
    case Transfer(to, amount) => FitsBytes(to) && FitsU128(amount)
    case ClaimVesting => true
    case Deploy(code) => FitsBytes(code)
    case Call(contract, gasLimit, calldata) => FitsBytes(contract) && FitsU64(gasLimit) && FitsBytes(calldata)
    case Shielded(bundle) => FitsBytes(bundle)
    case HtlcLock(recipient, amount, hashlock, timeout) =>
      FitsBytes(recipient) && FitsU128(amount) && FitsHash(hashlock) && FitsU64(timeout)
    case HtlcClaim(id, preimage) => FitsHash(id) && FitsBytes(preimage)
    case HtlcRefund(id) => FitsHash(id)
    case TokenIssue(symbol, amount, to) => FitsBytes(symbol) && FitsU128(amount) && FitsBytes(to)
    case TokenTransfer(asset, to, amount) => FitsHash(asset) && FitsBytes(to) && FitsU128(amount)
    case TokenBurn(asset, amount) => FitsHash(asset) && FitsU128(amount)
    case TokenSetPolicy(asset, policy) => FitsHash(asset) && FitsPolicy(policy)
    case IntentSettle(intent, signature, solver, amount) =>
      FitsIntent(intent) && FitsSignature(signature) && FitsBytes(solver) && FitsU128(amount)
    case IntentCancel(intent) => FitsIntent(intent)
    case RotateKey(key, proof) => FitsKey(key) && FitsSignature(proof)
    case RegisterName(name) => FitsBytes(name)
    case TransferName(name, to) => FitsBytes(name) && FitsBytes(to)
    case NftMint(symbol, id, to, metadata) => FitsBytes(symbol) && FitsBytes(id) && FitsBytes(to) && FitsBytes(metadata)
    case NftTransfer(collection, id, to) => FitsHash(collection) && FitsBytes(id) && FitsBytes(to)
    case NftSetMeta(collection, id, metadata) => FitsHash(collection) && FitsBytes(id) && FitsBytes(metadata)
    case SetMultisig(signers, threshold) =>
      FitsCount(|signers|) && (forall k | k in signers :: FitsKey(k)) && FitsUint(threshold, 2)
    case MultisigExec(inner, approvals) =>
      Fits(inner) && FitsCount(|approvals|) && forall p | p in approvals :: FitsApproval(p)
    case ProposeMultisig(account, inner) => FitsBytes(account) && Fits(inner)
    case ApproveMultisig(account, proposal) => FitsBytes(account) && FitsHash(proposal)
    case CancelMultisig(account, proposal) => FitsBytes(account) && FitsHash(proposal)
    case VaultDeposit(amount) => FitsU128(amount)
    case VaultMint(amount) => FitsU128(amount)
    case VaultBurn(amount) => FitsU128(amount)
    case VaultWithdraw(amount) => FitsU128(amount)
    case OracleUpdate(price) => FitsU128(price)
  }

  // ----- layout -----

  function PutU64(n: int, rest: Bytes): Bytes { PutUint(n, 8, rest) }

  function PutU128(n: int, rest: Bytes): Bytes { PutUint(n, 16, rest) }

  function PutVersioned(k: Versioned, rest: Bytes): Bytes {
    PutU8(if k.Ed25519? then 0 else 1, PutFixed(k.raw, rest))
  }

  function PutAsset(a: Asset, rest: Bytes): Bytes {
    match a
    case Sov => PutU8(0, rest)
    case Token(id) => PutU8(1, PutFixed(id, rest))
  }

  function PutIntent(i: Intent, rest: Bytes): Bytes {
    PutBytes(i.owner, PutVersioned(i.publicKey, PutU64(i.nonce, PutAsset(i.giveAsset, PutU128(i.giveAmount,
      PutAsset(i.wantAsset, PutU128(i.minReceive, PutU64(i.expiryHeight, rest))))))))
  }

  function PutStrings(v: seq<Bytes>, rest: Bytes): Bytes {
    if v == [] then rest else PutBytes(v[0], PutStrings(v[1..], rest))
  }

  function PutControl(c: TransferControl, rest: Bytes): Bytes {
    match c
    case Unrestricted => PutU8(0, rest)
    case AllowList(accounts) => PutU8(1, PutUint(|accounts|, 4, PutStrings(accounts, rest)))
    case DenyList(accounts) => PutU8(2, PutUint(|accounts|, 4, PutStrings(accounts, rest)))
  }

  function PutCap(cap: Option<SpendCap>, rest: Bytes): Bytes {
    match cap
    case None => PutU8(0, rest)
    case Some(c) => PutU8(1, PutU128(c.maxPerWindow, PutU64(c.windowBlocks, rest)))
  }

  function PutPolicy(p: Policy, rest: Bytes): Bytes {
    PutU8(if p.frozen then 1 else 0, PutControl(p.control, PutCap(p.cap, rest)))
  }

  function PutKeys(v: seq<Versioned>, rest: Bytes): Bytes {
    if v == [] then rest else PutVersioned(v[0], PutKeys(v[1..], rest))
  }

  function PutApprovals(v: seq<Approval>, rest: Bytes): Bytes {
    if v == [] then rest
    else PutUint(v[0].signer, 2, PutVersioned(v[0].signature, PutApprovals(v[1..], rest)))
  }

  /** The variant index. */
  function Tag(a: Action): Byte {
    match a
    case Transfer(_, _) => 0
    case ClaimVesting => 1
    case Deploy(_) => 2
    case Call(_, _, _) => 3
    case Shielded(_) => 4
    case HtlcLock(_, _, _, _) => 5
    case HtlcClaim(_, _) => 6
    case HtlcRefund(_) => 7
    case TokenIssue(_, _, _) => 8
    case TokenTransfer(_, _, _) => 9
    case TokenBurn(_, _) => 10
    case TokenSetPolicy(_, _) => 11
    case IntentSettle(_, _, _, _) => 12
    case IntentCancel(_) => 13
    case RotateKey(_, _) => 14
    case RegisterName(_) => 15
    case TransferName(_, _) => 16
    case NftMint(_, _, _, _) => 17
    case NftTransfer(_, _, _) => 18
    case NftSetMeta(_, _, _) => 19
    case SetMultisig(_, _) => 20
    case MultisigExec(_, _) => 21
    case ProposeMultisig(_, _) => 22
    case ApproveMultisig(_, _) => 23
    case CancelMultisig(_, _) => 24
    case VaultDeposit(_) => 25
    case VaultMint(_) => 26
    case VaultBurn(_) => 27
    case VaultWithdraw(_) => 28
    case OracleUpdate(_) => 29
  }

  function PutAction(a: Action, rest: Bytes): Bytes
    decreases a, 1
  {
    PutU8(Tag(a), PutFields(a, rest))
  }

  /** The variant's fields in declaration order. */
  function PutFields(a: Action, rest: Bytes): Bytes
    decreases a, 0
  {
    match a
    case Transfer(to, amount) => PutBytes(to, PutU128(amount, rest))
    case ClaimVesting => rest
    case Deploy(code) => PutBytes(code, rest)
    case Call(contract, gasLimit, calldata) => PutBytes(contract, PutU64(gasLimit, PutBytes(calldata, rest)))
    case Shielded(bundle) => PutBytes(bundle, rest)
    case HtlcLock(recipient, amount, hashlock, timeout) =>
      PutBytes(recipient, PutU128(amount, PutFixed(hashlock, PutU64(timeout, rest))))
    case HtlcClaim(id, preimage) => PutFixed(id, PutBytes(preimage, rest))
    case HtlcRefund(id) => PutFixed(id, rest)
    case TokenIssue(symbol, amount, to) => PutBytes(symbol, PutU128(amount, PutBytes(to, rest)))
    case TokenTransfer(asset, to, amount) => PutFixed(asset, PutBytes(to, PutU128(amount, rest)))
    case TokenBurn(asset, amount) => PutFixed(asset, PutU128(amount, rest))
    case TokenSetPolicy(asset, policy) => PutFixed(asset, PutPolicy(policy, rest))
    case IntentSettle(intent, signature, solver, amount) =>
      PutIntent(intent, PutVersioned(signature, PutBytes(solver, PutU128(amount, rest))))
    case IntentCancel(intent) => PutIntent(intent, rest)
    case RotateKey(key, proof) => PutVersioned(key, PutVersioned(proof, rest))
    case RegisterName(name) => PutBytes(name, rest)
    case TransferName(name, to) => PutBytes(name, PutBytes(to, rest))
    case NftMint(symbol, id, to, metadata) => PutBytes(symbol, PutBytes(id, PutBytes(to, PutBytes(metadata, rest))))
    case NftTransfer(collection, id, to) => PutFixed(collection, PutBytes(id, PutBytes(to, rest)))
    case NftSetMeta(collection, id, metadata) => PutFixed(collection, PutBytes(id, PutBytes(metadata, rest)))
    case SetMultisig(signers, threshold) => PutUint(|signers|, 4, PutKeys(signers, PutUint(threshold, 2, rest)))
    case MultisigExec(inner, approvals) => PutAction(inner, PutUint(|approvals|, 4, PutApprovals(approvals, rest)))
    case ProposeMultisig(account, inner) => PutBytes(account, PutAction(inner, rest))
    case ApproveMultisig(account, proposal) => PutBytes(account, PutFixed(proposal, rest))
    case CancelMultisig(account, proposal) => PutBytes(account, PutFixed(proposal, rest))
    case VaultDeposit(amount) => PutU128(amount, rest)
    case VaultMint(amount) => PutU128(amount, rest)
    case VaultBurn(amount) => PutU128(amount, rest)
    case VaultWithdraw(amount) => PutU128(amount, rest)
    case OracleUpdate(price) => PutU128(price, rest)
  }

  // ----- unique decodability -----

  lemma KeyCancel(k: Versioned, l: Versioned, r: Bytes, s: Bytes)
    requires FitsKey(k) && FitsKey(l) && PutVersioned(k, r) == PutVersioned(l, s)
    ensures k == l && r == s
  {
    hide PutU8, PutFixed;
    PrimitivesCancel();
  }

  lemma SignatureCancel(k: Versioned, l: Versioned, r: Bytes, s: Bytes)
    requires FitsSignature(k) && FitsSignature(l) && PutVersioned(k, r) == PutVersioned(l, s)
    ensures k == l && r == s
  {
    hide PutU8, PutFixed;
    PrimitivesCancel();
  }

  lemma AssetCancel(a: Asset, b: Asset, r: Bytes, s: Bytes)
    requires FitsAsset(a) && FitsAsset(b) && PutAsset(a, r) == PutAsset(b, s)
    ensures a == b && r == s
  {
    hide PutU8, PutFixed;
    PrimitivesCancel();
  }

  lemma IntentCancels(i: Intent, j: Intent, r: Bytes, s: Bytes)
    requires FitsIntent(i) && FitsIntent(j) && PutIntent(i, r) == PutIntent(j, s)
    ensures i == j && r == s
  {
    hide PutU8, PutFixed, PutBytes, PutUint, PutVersioned, PutAsset, FitsUint;
    PrimitivesCancel();
    var r3, s3 := PutU64(i.expiryHeight, r), PutU64(j.expiryHeight, s);
    var r2, s2 := PutU128(i.minReceive, r3), PutU128(j.minReceive, s3);
    var r1, s1 := PutU128(i.giveAmount, PutAsset(i.wantAsset, r2)), PutU128(j.giveAmount, PutAsset(j.wantAsset, s2));
    KeyCancel(i.publicKey, j.publicKey, PutU64(i.nonce, PutAsset(i.giveAsset, r1)),
              PutU64(j.nonce, PutAsset(j.giveAsset, s1)));
    AssetCancel(i.giveAsset, j.giveAsset, r1, s1);
    AssetCancel(i.wantAsset, j.wantAsset, r2, s2);
  }

  lemma {:induction false} StringsCancel(v: seq<Bytes>, w: seq<Bytes>, r: Bytes, s: Bytes)
    requires |v| == |w| && (forall a | a in v :: FitsBytes(a)) && (forall a | a in w :: FitsBytes(a))
    requires PutStrings(v, r) == PutStrings(w, s)
    ensures v == w && r == s
    decreases |v|
  {
    hide PutBytes;
    if v != [] {
      assert v[0] in v && w[0] in w;
      BytesCancel(v[0], w[0], PutStrings(v[1..], r), PutStrings(w[1..], s));
      StringsCancel(v[1..], w[1..], r, s);
    }
  }

  lemma {:induction false} KeysCancel(v: seq<Versioned>, w: seq<Versioned>, r: Bytes, s: Bytes)
    requires |v| == |w| && (forall k | k in v :: FitsKey(k)) && (forall k | k in w :: FitsKey(k))
    requires PutKeys(v, r) == PutKeys(w, s)
    ensures v == w && r == s
    decreases |v|
  {
    hide PutVersioned;
    if v != [] {
      assert v[0] in v && w[0] in w;
      KeyCancel(v[0], w[0], PutKeys(v[1..], r), PutKeys(w[1..], s));
      KeysCancel(v[1..], w[1..], r, s);
    }
  }

  lemma {:induction false} ApprovalsCancel(v: seq<Approval>, w: seq<Approval>, r: Bytes, s: Bytes)
    requires |v| == |w| && (forall p | p in v :: FitsApproval(p)) && (forall p | p in w :: FitsApproval(p))
    requires PutApprovals(v, r) == PutApprovals(w, s)
    ensures v == w && r == s
    decreases |v|
  {
    hide PutVersioned, PutUint;
    if v != [] {
      assert FitsApproval(v[0]) && FitsApproval(w[0]);
      var r', s' := PutApprovals(v[1..], r), PutApprovals(w[1..], s);
      UintCancel(v[0].signer, w[0].signer, 2, PutVersioned(v[0].signature, r'), PutVersioned(w[0].signature, s'));
      SignatureCancel(v[0].signature, w[0].signature, r', s');
      ApprovalsCancel(v[1..], w[1..], r, s);
    }
  }

  lemma ControlCancel(c: TransferControl, d: TransferControl, r: Bytes, s: Bytes)
    requires FitsControl(c) && FitsControl(d) && PutControl(c, r) == PutControl(d, s)
    ensures c == d && r == s
  {
    hide PutU8, PutUint, PutStrings, FitsUint, FitsBytes;
    PrimitivesCancel();
    if !c.Unrestricted? && !d.Unrestricted? { StringsCancel(c.accounts, d.accounts, r, s); }
  }

  lemma PolicyCancel(p: Policy, q: Policy, r: Bytes, s: Bytes)
    requires FitsPolicy(p) && FitsPolicy(q) && PutPolicy(p, r) == PutPolicy(q, s)
    ensures p == q && r == s
  {
    hide PutU8, PutUint, PutControl, FitsUint, FitsControl;
    PrimitivesCancel();
    ControlCancel(p.control, q.control, PutCap(p.cap, r), PutCap(q.cap, s));
  }

  lemma SettleCancel(a: Action, b: Action, r: Bytes, s: Bytes)
    requires a.IntentSettle? && b.IntentSettle? && Fits(a) && Fits(b) && PutFields(a, r) == PutFields(b, s)
    ensures a == b && r == s
  {
    hide PutBytes, PutUint, PutVersioned, PutIntent, FitsUint, FitsBytes, FitsIntent, FitsSignature;
    PrimitivesCancel();
    var ra, sb := PutBytes(a.solver, PutU128(a.deliverAmount, r)), PutBytes(b.solver, PutU128(b.deliverAmount, s));
    IntentCancels(a.intent, b.intent, PutVersioned(a.signature, ra), PutVersioned(b.signature, sb));
    SignatureCancel(a.signature, b.signature, ra, sb);
  }

  lemma MultisigCancel(a: Action, b: Action, r: Bytes, s: Bytes)
    requires a.SetMultisig? && b.SetMultisig? && Fits(a) && Fits(b) && PutFields(a, r) == PutFields(b, s)
    ensures a == b && r == s
  {
    hide PutUint, PutKeys, FitsUint, FitsKey;
    PrimitivesCancel();
    KeysCancel(a.signers, b.signers, PutUint(a.threshold, 2, r), PutUint(b.threshold, 2, s));
  }

  lemma RotateCancel(a: Action, b: Action, r: Bytes, s: Bytes)
    requires a.RotateKey? && b.RotateKey? && Fits(a) && Fits(b) && PutFields(a, r) == PutFields(b, s)
    ensures a == b && r == s
  {
    hide PutVersioned, FitsKey, FitsSignature;
    KeyCancel(a.newKey, b.newKey, PutVersioned(a.proof, r), PutVersioned(b.proof, s));
    SignatureCancel(a.proof, b.proof, r, s);
  }

  /** The variants built from flat fields alone. */
  predicate Flat(a: Action) {
    !a.TokenSetPolicy? && !a.IntentSettle? && !a.IntentCancel? && !a.RotateKey? && !a.SetMultisig?
    && !a.MultisigExec? && !a.ProposeMultisig?
  }

  /** One tag, one variant. */
  lemma SameTag(a: Action, b: Action)
    requires Tag(a) == Tag(b)
    ensures (a.TokenSetPolicy? <==> b.TokenSetPolicy?) && (a.IntentSettle? <==> b.IntentSettle?)
    ensures (a.IntentCancel? <==> b.IntentCancel?) && (a.RotateKey? <==> b.RotateKey?)
    ensures (a.SetMultisig? <==> b.SetMultisig?) && (a.MultisigExec? <==> b.MultisigExec?)
    ensures (a.ProposeMultisig? <==> b.ProposeMultisig?)
  {
  }

  lemma FlatCancelLow(a: Action, b: Action, r: Bytes, s: Bytes)
    requires Flat(a) && Tag(a) == Tag(b) && Tag(a) < 11
    requires Fits(a) && Fits(b) && PutFields(a, r) == PutFields(b, s)
    ensures a == b && r == s
  {
    hide PutFixed, PutBytes, PutUint, FitsUint, FitsBytes;
    PrimitivesCancel();
  }

  lemma FlatCancelHigh(a: Action, b: Action, r: Bytes, s: Bytes)
    requires Flat(a) && Tag(a) == Tag(b) && Tag(a) >= 11
    requires Fits(a) && Fits(b) && PutFields(a, r) == PutFields(b, s)
    ensures a == b && r == s
  {
    hide PutFixed, PutBytes, PutUint, FitsUint, FitsBytes;
    PrimitivesCancel();
  }

  lemma SetPolicyCancel(a: Action, b: Action, r: Bytes, s: Bytes)
    requires a.TokenSetPolicy? && b.TokenSetPolicy? && Fits(a) && Fits(b) && PutFields(a, r) == PutFields(b, s)
    ensures a == b && r == s
  {
    hide PutFixed, PutPolicy, FitsPolicy;
    AppendCancelFixed(a.asset, b.asset, PutPolicy(a.policy, r), PutPolicy(b.policy, s));
    PolicyCancel(a.policy, b.policy, r, s);
  }

  lemma AppendCancelFixed(a: Bytes, b: Bytes, r: Bytes, s: Bytes)
    requires |a| == |b| && PutFixed(a, r) == PutFixed(b, s)
    ensures a == b && r == s
  {
    AppendCancel(a, b, r, s);
  }

  lemma TagCancel(a: Action, b: Action, r: Bytes, s: Bytes)
    requires PutAction(a, r) == PutAction(b, s)
    ensures Tag(a) == Tag(b) && PutFields(a, r) == PutFields(b, s)
  {
    hide Tag, PutFields;
    AppendCancel([Tag(a)], [Tag(b)], PutFields(a, r), PutFields(b, s));
  }

  /** What follows the inner action of a `MultisigExec`. */
  function PutTail(a: Action, rest: Bytes): Bytes
    requires a.MultisigExec?
  {
    PutUint(|a.approvals|, 4, PutApprovals(a.approvals, rest))
  }

  lemma TailCancel(a: Action, b: Action, r: Bytes, s: Bytes)
    requires a.MultisigExec? && b.MultisigExec? && Fits(a) && Fits(b) && PutTail(a, r) == PutTail(b, s)
    ensures a.approvals == b.approvals && r == s
  {
    hide PutUint, PutApprovals, FitsUint, FitsApproval;
    UintCancel(|a.approvals|, |b.approvals|, 4, PutApprovals(a.approvals, r), PutApprovals(b.approvals, s));
    ApprovalsCancel(a.approvals, b.approvals, r, s);
  }

  /** The parts of a nested action's fields. */
  lemma NestedParts(a: Action, rest: Bytes)
    requires Fits(a)
    ensures a.MultisigExec? ==> Fits(a.inner) && PutFields(a, rest) == PutAction(a.inner, PutTail(a, rest))
    ensures a.ProposeMultisig? ==>
              && Fits(a.inner) && FitsBytes(a.account)
              && PutFields(a, rest) == PutBytes(a.account, PutAction(a.inner, rest))
  {
    hide *;
    if a.MultisigExec? { ExecParts(a, rest); }
    if a.ProposeMultisig? { ProposeParts(a, rest); }
  }

  lemma ExecParts(a: Action, rest: Bytes)
    requires Fits(a) && a.MultisigExec?
    ensures Fits(a.inner) && PutFields(a, rest) == PutAction(a.inner, PutTail(a, rest))
  {
    hide PutAction, PutUint, PutApprovals, PutBytes, FitsBytes, FitsUint, FitsApproval;
  }

  lemma ProposeParts(a: Action, rest: Bytes)
    requires Fits(a) && a.ProposeMultisig?
    ensures Fits(a.inner) && FitsBytes(a.account)
    ensures PutFields(a, rest) == PutBytes(a.account, PutAction(a.inner, rest))
  {
    hide PutAction, PutUint, PutApprovals, PutBytes, FitsBytes, FitsUint, FitsApproval;
  }

  /** **Unique decodability.** Reading any byte stream from the front, at most one action and one rest fit. */
  lemma {:induction false} ActionCancel(a: Action, b: Action, r: Bytes, s: Bytes)
    requires Fits(a) && Fits(b) && PutAction(a, r) == PutAction(b, s)
    ensures a == b && r == s
    decreases a
  {
    hide Tag, Fits, PutAction, PutFields, PutBytes, PutTail, FitsBytes;
    TagCancel(a, b, r, s);
    SameTag(a, b);
    NestedParts(a, r);
    NestedParts(b, s);
    if a.TokenSetPolicy? {
      SetPolicyCancel(a, b, r, s);
    } else if a.IntentSettle? {
      SettleCancel(a, b, r, s);
    } else if a.IntentCancel? {
      CancelCancel(a, b, r, s);
    } else if a.RotateKey? {
      RotateCancel(a, b, r, s);
    } else if a.SetMultisig? {
      MultisigCancel(a, b, r, s);
    } else if a.MultisigExec? {
      ActionCancel(a.inner, b.inner, PutTail(a, r), PutTail(b, s));
      TailCancel(a, b, r, s);
    } else if a.ProposeMultisig? {
      BytesCancel(a.account, b.account, PutAction(a.inner, r), PutAction(b.inner, s));
      ActionCancel(a.inner, b.inner, r, s);
    } else if Tag(a) < 11 {
      FlatCancelLow(a, b, r, s);
    } else {
      FlatCancelHigh(a, b, r, s);
    }
  }

  lemma CancelCancel(a: Action, b: Action, r: Bytes, s: Bytes)
    requires a.IntentCancel? && b.IntentCancel? && Fits(a) && Fits(b) && PutFields(a, r) == PutFields(b, s)
    ensures a == b && r == s
  {
    hide PutIntent, FitsIntent;
    IntentCancels(a.intent, b.intent, r, s);
  }
}

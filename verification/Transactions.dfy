/** Transactions: the canonical bytes, the domain-framed signing preimage, and what each of them pins down. */
module Transactions {
  import opened ByteStrings
  import opened Hashing
  import opened Borsh
  import opened Actions
  import opened Accounts
  import opened MerkleList

  // ----- account sets are written in order -----

  predicate Sorted(v: seq<Bytes>) { forall i, j | 0 <= i < j < |v| :: AtMost(v[i], v[j]) }

  function InsertSorted(x: Bytes, v: seq<Bytes>): seq<Bytes> {
    if v == [] then [x] else if AtMost(x, v[0]) then [x] + v else [v[0]] + InsertSorted(x, v[1..])
  }

  function Sort(v: seq<Bytes>): seq<Bytes> {
    if v == [] then [] else InsertSorted(v[0], Sort(v[1..]))
  }

  /** Putting a least element in front of a sorted list. */
  lemma SortedCons(x: Bytes, v: seq<Bytes>)
    requires Sorted(v) && forall j | 0 <= j < |v| :: AtMost(x, v[j])
    ensures Sorted([x] + v)
  {
    hide AtMost;
    var w := [x] + v;
    forall i, j | 0 <= i < j < |w| ensures AtMost(w[i], w[j]) { assert w[j] == v[j - 1]; }
  }

  lemma {:induction false} InsertSortedContents(x: Bytes, v: seq<Bytes>)
    ensures multiset(InsertSorted(x, v)) == multiset(v) + multiset{x}
  {
    hide AtMost;
    if v != [] {
      assert v == [v[0]] + v[1..];
      InsertSortedContents(x, v[1..]);
    }
  }

  lemma {:induction false} InsertSortedRight(x: Bytes, v: seq<Bytes>)
    requires Sorted(v)
    ensures Sorted(InsertSorted(x, v)) && multiset(InsertSorted(x, v)) == multiset(v) + multiset{x}
  {
    hide AtMost;
    InsertSortedContents(x, v);
    if v != [] {
      AtMostTotal(x, v[0]);
      if AtMost(x, v[0]) {
        forall j | 0 < j < |v| ensures AtMost(x, v[j]) { AtMostTransitive(x, v[0], v[j]); }
        SortedCons(x, v);
      } else {
        InsertSortedRight(x, v[1..]);
        var w := InsertSorted(x, v[1..]);
        forall j | 0 <= j < |w| ensures AtMost(v[0], w[j]) {
          assert w[j] in multiset(w);
          if w[j] != x { assert w[j] in v[1..]; }
        }
        SortedCons(v[0], w);
      }
    }
  }

  lemma {:induction false} SortRight(v: seq<Bytes>)
    ensures Sorted(Sort(v)) && multiset(Sort(v)) == multiset(v)
  {
    if v != [] {
      assert v == [v[0]] + v[1..];
      SortRight(v[1..]);
      InsertSortedRight(v[0], Sort(v[1..]));
    }
  }

  lemma DropFirst(v: seq<Bytes>)
    requires v != []
    ensures multiset(v[1..]) == multiset(v) - multiset{v[0]}
  {
    assert v == [v[0]] + v[1..];
  }

  /** The head of a sorted list is its least element. */
  lemma SortedHead(v: seq<Bytes>, x: Bytes)
    requires Sorted(v) && v != [] && x in multiset(v)
    ensures AtMost(v[0], x)
  {
    var j :| 0 <= j < |v| && v[j] == x;
    if j == 0 { AtMostTotal(x, x); }
  }

  lemma {:induction false} SortedUnique(v: seq<Bytes>, w: seq<Bytes>)
    requires Sorted(v) && Sorted(w) && multiset(v) == multiset(w)
    ensures v == w
    decreases |v|
  {
    hide AtMost;
    assert |v| == |multiset(v)| && |w| == |multiset(w)|;
    if v != [] {
      SortedHead(v, w[0]);
      SortedHead(w, v[0]);
      AtMostAntisymmetric(v[0], w[0]);
      DropFirst(v);
      DropFirst(w);
      SortedUnique(v[1..], w[1..]);
    }
  }

  /** Two account lists are written alike exactly when they hold the same accounts. */
  lemma SortCanonical(v: seq<Bytes>, w: seq<Bytes>)
    ensures Sort(v) == Sort(w) <==> multiset(v) == multiset(w)
  {
    SortRight(v);
    SortRight(w);
    if multiset(v) == multiset(w) { SortedUnique(Sort(v), Sort(w)); }
  }

  function NormalControl(c: TransferControl): TransferControl {
    match c
    case Unrestricted => c
    case AllowList(accounts) => AllowList(Sort(accounts))
    case DenyList(accounts) => DenyList(Sort(accounts))
  }

  /** The action with every account list in written order: all that the encoding forgets. */
  function Normal(a: Action): Action {
    match a
    case TokenSetPolicy(asset, p) => TokenSetPolicy(asset, Policy(p.frozen, NormalControl(p.control), p.cap))
    case MultisigExec(inner, approvals) => MultisigExec(Normal(inner), approvals)
    case ProposeMultisig(account, inner) => ProposeMultisig(account, Normal(inner))
    case _ => a
  }

  lemma NormalControlFits(c: TransferControl)
    ensures FitsControl(NormalControl(c)) <==> FitsControl(c)
  {
    hide Sort, FitsUint, FitsBytes;
    if !c.Unrestricted? { SortFits(c.accounts); }
  }

  lemma NormalPolicyFits(a: Action)
    requires a.TokenSetPolicy?
    ensures Fits(Normal(a)) <==> Fits(a)
  {
    hide NormalControl, FitsControl, FitsUint, FitsBytes;
    NormalControlFits(a.policy.control);
  }

  lemma {:induction false} NormalFits(a: Action)
    ensures Fits(Normal(a)) <==> Fits(a)
  {
    hide NormalControl, FitsControl, FitsUint, FitsBytes, FitsApproval;
    if a.TokenSetPolicy? {
      NormalPolicyFits(a);
    } else if a.MultisigExec? || a.ProposeMultisig? {
      NormalFits(a.inner);
    } else {
      assert Normal(a) == a;
    }
  }

  lemma SortFits(v: seq<Bytes>)
    ensures |Sort(v)| == |v|
    ensures (forall x | x in Sort(v) :: FitsBytes(x)) <==> (forall x | x in v :: FitsBytes(x))
  {
    SortRight(v);
    assert |v| == |multiset(v)| && |Sort(v)| == |multiset(Sort(v))|;
    assert forall x :: x in Sort(v) <==> x in multiset(Sort(v));
    assert forall x :: x in v <==> x in multiset(v);
  }

  // ----- transactions -----

  datatype Transaction = Transaction(signer: Bytes, publicKey: Versioned, nonce: int, action: Action)

  predicate FitsEnvelope(t: Transaction) { FitsBytes(t.signer) && FitsKey(t.publicKey) && FitsU64(t.nonce) }

  predicate FitsTransaction(t: Transaction) { FitsEnvelope(t) && Fits(t.action) }

  function NormalTransaction(t: Transaction): Transaction { t.(action := Normal(t.action)) }

  /** Signer, key and nonce, then `rest`. */
  function PutEnvelope(t: Transaction, rest: Bytes): Bytes {
    PutBytes(t.signer, PutVersioned(t.publicKey, PutU64(t.nonce, rest)))
  }

  /** The canonical encoding, then `rest`. */
  function PutTransaction(t: Transaction, rest: Bytes): Bytes { PutEnvelope(t, PutAction(Normal(t.action), rest)) }

  function EncodeTransaction(t: Transaction): Bytes { PutTransaction(t, []) }

  /** The encoding pins the transaction down up to the order of account lists, and tells where it ends. */
  lemma TransactionCancel(t: Transaction, u: Transaction, r: Bytes, s: Bytes)
    requires FitsTransaction(t) && FitsTransaction(u) && PutTransaction(t, r) == PutTransaction(u, s)
    ensures NormalTransaction(t) == NormalTransaction(u) && r == s
  {
    hide PutBytes, PutVersioned, PutUint, PutAction, FitsBytes, FitsKey, FitsUint;
    var ta, ua := PutAction(Normal(t.action), r), PutAction(Normal(u.action), s);
    NormalFits(t.action);
    NormalFits(u.action);
    BytesCancel(t.signer, u.signer, PutVersioned(t.publicKey, PutU64(t.nonce, ta)),
                PutVersioned(u.publicKey, PutU64(u.nonce, ua)));
    KeyCancel(t.publicKey, u.publicKey, PutU64(t.nonce, ta), PutU64(u.nonce, ua));
    UintCancel(t.nonce, u.nonce, 8, ta, ua);
    ActionCancel(Normal(t.action), Normal(u.action), r, s);
  }

  /** A signed transaction: the signing bytes, then the scheme byte and the raw signature. */
  function EncodeSigned(t: Transaction, signature: Versioned): Bytes { PutTransaction(t, PutVersioned(signature, [])) }

  /** No signed transaction can be reread with its boundary between body and signature moved. */
  lemma SignedInjective(t: Transaction, sig: Versioned, u: Transaction, sig': Versioned)
    requires FitsTransaction(t) && FitsTransaction(u) && FitsSignature(sig) && FitsSignature(sig')
    requires EncodeSigned(t, sig) == EncodeSigned(u, sig')
    ensures NormalTransaction(t) == NormalTransaction(u) && sig == sig'
  {
    TransactionCancel(t, u, PutVersioned(sig, []), PutVersioned(sig', []));
    SignatureCancel(sig, sig', [], []);
  }

  // ----- the signing domain -----

  datatype SigningDomain = SigningDomain(chainId: Bytes, genesis: Bytes)

  /** `sov:tx:v1`. */
  const DOMAIN_TAG: Bytes := [115, 111, 118, 58, 116, 120, 58, 118, 49]

  predicate ValidDomain(d: SigningDomain) { |d.genesis| == 32 && 0 !in d.chainId }

  function Frame(d: SigningDomain, body: Bytes): Bytes { DOMAIN_TAG + ([0] + (d.chainId + ([0] + (d.genesis + body)))) }

  function SigningBytes(t: Transaction, domain: Option<SigningDomain>): Bytes {
    match domain
    case None => EncodeTransaction(t)
    case Some(d) => Frame(d, EncodeTransaction(t))
  }

  /** A NUL ends the chain id, so two chain ids without one cannot share a frame. */
  lemma {:induction false} NulEnds(a: Bytes, b: Bytes, r: Bytes, s: Bytes)
    requires 0 !in a && 0 !in b && a + ([0] + r) == b + ([0] + s)
    ensures a == b && r == s
    decreases |a|
  {
    var x, y := a + ([0] + r), b + ([0] + s);
    assert x[|a|] == 0 && y[|b|] == 0;
    assert forall i | 0 <= i < |a| :: x[i] == a[i];
    assert forall i | 0 <= i < |b| :: y[i] == b[i];
    AppendCancel(a, b, [0] + r, [0] + s);
    AppendCancel([0], [0], r, s);
  }

  lemma FrameInjective(d: SigningDomain, e: SigningDomain, r: Bytes, s: Bytes)
    requires ValidDomain(d) && ValidDomain(e) && Frame(d, r) == Frame(e, s)
    ensures d == e && r == s
  {
    var x, y := d.genesis + r, e.genesis + s;
    AppendCancel(DOMAIN_TAG, DOMAIN_TAG, [0] + (d.chainId + ([0] + x)), [0] + (e.chainId + ([0] + y)));
    AppendCancel([0], [0], d.chainId + ([0] + x), e.chainId + ([0] + y));
    NulEnds(d.chainId, e.chainId, x, y);
    AppendCancel(d.genesis, e.genesis, r, s);
  }

  /** An unframed preimage starts with a signer length of at most 64; read as a length, the tag is far larger. */
  lemma FrameIsNotBody(d: SigningDomain, t: Transaction, r: Bytes)
    requires |t.signer| <= MAX_LEN
    ensures Frame(d, r) != EncodeTransaction(t)
  {
    var rest := t.signer + PutVersioned(t.publicKey, PutU64(t.nonce, PutAction(Normal(t.action), [])));
    assert EncodeTransaction(t) == LittleEndian(|t.signer|, 4) + rest;
    assert EncodeTransaction(t)[1] == LittleEndian(|t.signer|, 4)[1] == (|t.signer| / 256) % 256 == 0;
    assert Frame(d, r)[1] == DOMAIN_TAG[1];
  }

  /** **Signatures bind.** With valid signers and NUL-free chain ids, one preimage belongs to one network, or to
      none, and to one transaction up to the order of account lists: a signature made for one can never be
      presented for another. */
  lemma SigningBytesBind(t: Transaction, d: Option<SigningDomain>, u: Transaction, e: Option<SigningDomain>)
    requires FitsTransaction(t) && FitsTransaction(u) && ValidAccountId(t.signer) && ValidAccountId(u.signer)
    requires (d.Some? ==> ValidDomain(d.value)) && (e.Some? ==> ValidDomain(e.value))
    ensures SigningBytes(t, d) == SigningBytes(u, e) <==> d == e && NormalTransaction(t) == NormalTransaction(u)
  {
    hide PutTransaction, FitsTransaction, Normal;
    if d == e && NormalTransaction(t) == NormalTransaction(u) { SameNormalSameBytes(t, u); }
    if SigningBytes(t, d) == SigningBytes(u, e) {
      if d.Some? && e.None? { FrameIsNotBody(d.value, u, EncodeTransaction(t)); }
      if d.None? && e.Some? { FrameIsNotBody(e.value, t, EncodeTransaction(u)); }
      if d.Some? && e.Some? { FrameInjective(d.value, e.value, EncodeTransaction(t), EncodeTransaction(u)); }
      TransactionCancel(t, u, [], []);
    }
  }

  lemma SameNormalSameBytes(t: Transaction, u: Transaction)
    requires NormalTransaction(t) == NormalTransaction(u)
    ensures EncodeTransaction(t) == EncodeTransaction(u)
  {
  }

  // ----- ids and the transaction root -----

  function TransactionId(h: HashFn, t: Transaction): Digest { h(EncodeTransaction(t)) }

  function TransactionIds(h: HashFn, ts: seq<Transaction>): (ids: seq<Bytes>)
    ensures |ids| == |ts| && forall i | 0 <= i < |ts| :: ids[i] == TransactionId(h, ts[i])
  {
    seq(|ts|, i requires 0 <= i < |ts| => TransactionId(h, ts[i]))
  }

  function TxRoot(h: HashFn, ts: seq<Transaction>): Digest { RootOf(h, TransactionIds(h, ts)) }

  /** Every string hashed for a block's transaction root: the transactions themselves, then the tree. */
  ghost function TxRootStrings(h: HashFn, ts: seq<Transaction>): set<Bytes> {
    (set t | t in ts :: EncodeTransaction(t)) + RootStrings(h, TransactionIds(h, ts))
  }

  /** **The header binds the block.** Equal transaction roots mean the same transactions in the same order, up to
      the order of account lists, unless hashing these two blocks exhibits a collision. */
  lemma TxRootBinds(h: HashFn, ts: seq<Transaction>, us: seq<Transaction>)
    requires (forall t | t in ts :: FitsTransaction(t)) && (forall u | u in us :: FitsTransaction(u))
    requires CollisionFree(h, TxRootStrings(h, ts) + TxRootStrings(h, us))
    requires TxRoot(h, ts) == TxRoot(h, us)
    ensures |ts| == |us| && forall i | 0 <= i < |ts| :: NormalTransaction(ts[i]) == NormalTransaction(us[i])
  {
    hide EncodeTransaction, PutTransaction, FitsTransaction, NormalTransaction, RootOf, RootStrings;
    var xs, ys := TransactionIds(h, ts), TransactionIds(h, us);
    RootBindsList(h, xs, ys);
    assert |xs| > 0 ==> |xs[0]| == 32;
    assert |ys| > 0 ==> |ys[0]| == 32;
    assert xs == ys;
    forall i | 0 <= i < |ts| ensures NormalTransaction(ts[i]) == NormalTransaction(us[i]) {
      assert ts[i] in ts && us[i] in us;
      assert EncodeTransaction(ts[i]) in TxRootStrings(h, ts) && EncodeTransaction(us[i]) in TxRootStrings(h, us);
      assert xs[i] == ys[i];
      SameBytesSameNormal(ts[i], us[i]);
    }
  }

  lemma SameBytesSameNormal(t: Transaction, u: Transaction)
    requires FitsTransaction(t) && FitsTransaction(u) && EncodeTransaction(t) == EncodeTransaction(u)
    ensures NormalTransaction(t) == NormalTransaction(u)
  {
    hide PutTransaction, FitsTransaction, NormalTransaction;
    TransactionCancel(t, u, [], []);
  }
}

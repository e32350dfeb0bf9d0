/** The world-state commitment: slots, account encoding, and what the state root pins down. */
module StateRoot {
  import opened ByteStrings
  import opened Hashing
  import opened Borsh
  import opened Accounts
  import opened SparseMerkle
  import opened MerkleProofs
  import opened SparseMerkleStore
  import opened BorshIo

  // ----- slots: three families of strings -----

  function AccountString(id: Bytes): Bytes { id }

  function ReservedString(name: Bytes): Bytes { [0x02] + name }

  function ContractString(id: Bytes, key: Bytes): Bytes { id + ([0x01] + key) }

  /** No account, scalar or contract entry shares a slot string with one of another family, and contract entries
      are told apart by account and key. */
  lemma SlotFamiliesDisjoint(id: Bytes, other: Bytes, key: Bytes, key': Bytes, name: Bytes)
    requires ValidAccountId(id) && ValidAccountId(other)
    ensures AccountString(id) != ReservedString(name)
    ensures AccountString(id) != ContractString(other, key)
    ensures ReservedString(name) != ContractString(id, key)
    ensures ContractString(id, key) == ContractString(other, key') ==> id == other && key == key'
  {
    assert ContractString(other, key)[|other|] == 1;
    assert ReservedString(name)[0] == 2;
    assert ContractString(id, key)[0] == id[0];
    if ContractString(id, key) == ContractString(other, key') {
      assert ContractString(id, key)[|id|] == 1 && ContractString(other, key')[|other|] == 1;
      assert forall i | 0 <= i < |id| :: ContractString(id, key)[i] == id[i] != 1;
      assert forall i | 0 <= i < |other| :: ContractString(other, key')[i] == other[i] != 1;
      AppendCancel(id, other, [0x01] + key, [0x01] + key');
      AppendCancel([0x01], [0x01], key, key');
    }
  }

  // ----- accounts -----

  datatype AccountState = AccountState(nonce: int, balance: int, locked: int, unlockHeight: int,
                                       publicKey: Option<Bytes>, code: Option<Bytes>)

  predicate FitsNumbers(a: AccountState) {
    FitsUint(a.nonce, 8) && FitsUint(a.balance, 16) && FitsUint(a.locked, 16) && FitsUint(a.unlockHeight, 8)
  }

  predicate FitsAccount(a: AccountState) {
    && FitsNumbers(a)
    && (a.publicKey.Some? ==> |a.publicKey.value| == 32) && (a.code.Some? ==> FitsBytes(a.code.value))
  }

  function PutKeyOption(k: Option<Bytes>, rest: Bytes): Bytes {
    match k
    case None => PutU8(0, rest)
    case Some(b) => PutU8(1, PutU8(0, PutFixed(b, rest)))
  }

  function PutCodeOption(c: Option<Bytes>, rest: Bytes): Bytes {
    match c
    case None => PutU8(0, rest)
    case Some(b) => PutU8(1, PutBytes(b, rest))
  }

  function PutNumbers(a: AccountState, rest: Bytes): Bytes {
    PutUint(a.nonce, 8, PutUint(a.balance, 16, PutUint(a.locked, 16, PutUint(a.unlockHeight, 8, rest))))
  }

  function PutAccount(a: AccountState, rest: Bytes): Bytes {
    PutNumbers(a, PutKeyOption(a.publicKey, PutCodeOption(a.code, rest)))
  }

  lemma AccountCancel(a: AccountState, b: AccountState, r: Bytes, s: Bytes)
    requires FitsAccount(a) && FitsAccount(b) && PutAccount(a, r) == PutAccount(b, s)
    ensures a == b && r == s
  {
    hide PutU8, PutFixed, PutBytes, PutUint, FitsUint, FitsBytes;
    PrimitivesCancel();
  }

  /** The key carries its scheme byte behind the option tag. */
  method WriteKeyOption(w: BorshWriter, key: Option<Bytes>)
    modifies w
    ensures w.failed <==> old(w.failed) || (key.Some? && |key.value| != 32)
    ensures !w.failed ==> forall rest: Bytes :: w.buf + rest == old(w.buf) + PutKeyOption(key, rest)
  {
    hide PutU8, PutFixed;
    if key.Some? {
      w.U8(1);
      w.U8(0);
      w.Fixed(key.value, 32);
    } else {
      w.U8(0);
    }
  }

  method WriteCodeOption(w: BorshWriter, code: Option<Bytes>)
    modifies w
    ensures w.failed <==> old(w.failed) || (code.Some? && !FitsBytes(code.value))
    ensures !w.failed ==> forall rest: Bytes :: w.buf + rest == old(w.buf) + PutCodeOption(code, rest)
  {
    hide PutU8, PutBytes, FitsBytes;
    if code.Some? {
      w.U8(1);
      w.VecU8(code.value);
    } else {
      w.U8(0);
    }
  }

  method WriteNumbers(w: BorshWriter, a: AccountState)
    modifies w
    ensures w.failed <==> old(w.failed) || !FitsNumbers(a)
    ensures !w.failed ==> forall rest: Bytes :: w.buf + rest == old(w.buf) + PutNumbers(a, rest)
  {
    hide PutUint, FitsUint;
    w.Uint(a.nonce, 8);
    w.Uint(a.balance, 16);
    w.Uint(a.locked, 16);
    w.Uint(a.unlockHeight, 8);
  }

  lemma AccountParts(a: AccountState)
    ensures FitsAccount(a) <==> FitsNumbers(a) && !(a.publicKey.Some? && |a.publicKey.value| != 32)
                                && !(a.code.Some? && !FitsBytes(a.code.value))
    ensures PutAccount(a, []) == PutNumbers(a, PutKeyOption(a.publicKey, PutCodeOption(a.code, [])))
  {
  }

  /** The account encoding throws exactly when a field does not fit. */
  method EncodeAccount(a: AccountState) returns (bytes: Option<Bytes>)
    ensures bytes == if FitsAccount(a) then Some(PutAccount(a, [])) else None
  {
    hide *;
    var w := new BorshWriter();
    WriteNumbers(w, a);
    ghost var numbers := w.buf;
    WriteKeyOption(w, a.publicKey);
    ghost var key := w.buf;
    WriteCodeOption(w, a.code);
    AccountParts(a);
    if w.failed { return None; }
    ghost var code: Bytes := PutCodeOption(a.code, []);
    assert w.buf + [] == key + code;
    assert key + code == numbers + PutKeyOption(a.publicKey, code);
    assert numbers + PutKeyOption(a.publicKey, code) == [] + PutNumbers(a, PutKeyOption(a.publicKey, code));
    assert w.buf + [] == w.buf && [] + PutAccount(a, []) == PutAccount(a, []);
    bytes := Some(w.buf);
  }

  // ----- a state as the list of its writes -----

  datatype NamedAccount = NamedAccount(id: Bytes, account: AccountState)

  datatype ReservedEntry = ReservedEntry(name: Bytes, value: Bytes)

  /** A slot string and the value committed there. */
  datatype Write = Write(slot: Bytes, value: Bytes)

  function AccountWrites(v: seq<NamedAccount>): (w: seq<Write>)
    ensures |w| == |v|
  {
    if v == [] then [] else
      var last := v[|v| - 1];
      AccountWrites(v[..|v| - 1]) + [Write(AccountString(last.id), PutAccount(last.account, []))]
  }

  function ReservedWrites(v: seq<ReservedEntry>): (w: seq<Write>)
    ensures |w| == |v|
  {
    if v == [] then [] else
      var last := v[|v| - 1];
      ReservedWrites(v[..|v| - 1]) + [Write(ReservedString(last.name), last.value)]
  }

  function OpOf(h: HashFn, w: Write): Op { Op(PathOf(h(w.slot)), w.value) }

  function OpsOf(h: HashFn, ws: seq<Write>): (ops: seq<Op>)
    ensures |ops| == |ws|
  {
    if ws == [] then [] else OpsOf(h, ws[..|ws| - 1]) + [OpOf(h, ws[|ws| - 1])]
  }

  function Writes(accounts: seq<NamedAccount>, reserved: seq<ReservedEntry>): seq<Write> {
    AccountWrites(accounts) + ReservedWrites(reserved)
  }

  /** What stands at each slot string: the last write wins. */
  function SlotMap(ws: seq<Write>): map<Bytes, Bytes> {
    if ws == [] then map[] else SlotMap(ws[..|ws| - 1])[ws[|ws| - 1].slot := ws[|ws| - 1].value]
  }

  function SlotStrings(ws: seq<Write>): set<Bytes> { set w | w in ws :: w.slot }

  lemma {:induction false} OpsOfFit(h: HashFn, ws: seq<Write>)
    ensures OpsFit(OpsOf(h, ws), TREE_HEIGHT)
  {
    if ws != [] { OpsOfFit(h, ws[..|ws| - 1]); }
  }

  lemma SlotStringsStep(ws: seq<Write>)
    requires ws != []
    ensures SlotStrings(ws) == SlotStrings(ws[..|ws| - 1]) + {ws[|ws| - 1].slot}
  {
    assert ws == ws[..|ws| - 1] + [ws[|ws| - 1]];
  }

  /** Hashing the slot strings loses nothing while they do not collide. */
  lemma {:induction false} SlotMapOnPaths(h: HashFn, ws: seq<Write>, s: set<Bytes>, slot: Bytes)
    requires SlotStrings(ws) <= s && CollisionFree(h, s) && slot in s
    ensures Get(FinalMap(OpsOf(h, ws)), PathOf(h(slot)))
         == if slot in SlotMap(ws) then Some(SlotMap(ws)[slot]) else None
  {
    if ws != [] {
      var last := ws[|ws| - 1];
      SlotStringsStep(ws);
      SlotMapOnPaths(h, ws[..|ws| - 1], s, slot);
      assert OpsOf(h, ws)[..|ws| - 1] == OpsOf(h, ws[..|ws| - 1]);
      if PathOf(h(slot)) == PathOf(h(last.slot)) { PathOfInjective(h(slot), h(last.slot)); }
    }
  }

  lemma {:induction false} FinalMapDomain(h: HashFn, ws: seq<Write>, p: Path)
    requires p in FinalMap(OpsOf(h, ws))
    ensures exists slot :: slot in SlotMap(ws) && p == PathOf(h(slot))
  {
    var last := ws[|ws| - 1];
    assert OpsOf(h, ws)[..|ws| - 1] == OpsOf(h, ws[..|ws| - 1]);
    if p != PathOf(h(last.slot)) {
      FinalMapDomain(h, ws[..|ws| - 1], p);
      var slot :| slot in SlotMap(ws[..|ws| - 1]) && p == PathOf(h(slot));
      assert slot in SlotMap(ws);
    } else {
      assert last.slot in SlotMap(ws);
    }
  }

  lemma {:induction false} SlotMapKeys(ws: seq<Write>)
    ensures SlotMap(ws).Keys == SlotStrings(ws)
  {
    if ws != [] {
      SlotMapKeys(ws[..|ws| - 1]);
      SlotStringsStep(ws);
    }
  }

  /** Equal slot maps make equal tree contents. */
  lemma SameSlotsSameMap(h: HashFn, ws: seq<Write>, ws': seq<Write>)
    requires SlotMap(ws) == SlotMap(ws') && CollisionFree(h, SlotStrings(ws))
    ensures FinalMap(OpsOf(h, ws)) == FinalMap(OpsOf(h, ws'))
  {
    SlotMapKeys(ws);
    SlotMapKeys(ws');
    var m, m' := FinalMap(OpsOf(h, ws)), FinalMap(OpsOf(h, ws'));
    forall p ensures Get(m, p) == Get(m', p) {
      if p in m || p in m' {
        if p in m { FinalMapDomain(h, ws, p); } else { FinalMapDomain(h, ws', p); }
        var slot :| slot in SlotMap(ws) && p == PathOf(h(slot));
        SlotMapOnPaths(h, ws, SlotStrings(ws), slot);
        SlotMapOnPaths(h, ws', SlotStrings(ws), slot);
      }
    }
    assert forall p :: p in m <==> Get(m, p).Some?;
    assert forall p :: p in m' <==> Get(m', p).Some?;
  }

  /** And equal tree contents come from equal slot maps. */
  lemma SameMapSameSlots(h: HashFn, ws: seq<Write>, ws': seq<Write>)
    requires FinalMap(OpsOf(h, ws)) == FinalMap(OpsOf(h, ws'))
    requires CollisionFree(h, SlotStrings(ws) + SlotStrings(ws'))
    ensures SlotMap(ws) == SlotMap(ws')
  {
    SlotMapKeys(ws);
    SlotMapKeys(ws');
    var s := SlotStrings(ws) + SlotStrings(ws');
    forall slot | slot in s
      ensures (slot in SlotMap(ws) <==> slot in SlotMap(ws'))
      ensures slot in SlotMap(ws) ==> SlotMap(ws)[slot] == SlotMap(ws')[slot]
    {
      SlotMapOnPaths(h, ws, s, slot);
      SlotMapOnPaths(h, ws', s, slot);
    }
  }

  // ----- accounts and scalars behind the slots -----

  /** The account each id ends up with. */
  function AccountMap(v: seq<NamedAccount>): map<Bytes, AccountState> {
    if v == [] then map[] else AccountMap(v[..|v| - 1])[v[|v| - 1].id := v[|v| - 1].account]
  }

  function ReservedMap(v: seq<ReservedEntry>): map<Bytes, Bytes> {
    if v == [] then map[] else ReservedMap(v[..|v| - 1])[v[|v| - 1].name := v[|v| - 1].value]
  }

  ghost predicate ValidState(accounts: seq<NamedAccount>) {
    forall a | a in accounts :: ValidAccountId(a.id) && FitsAccount(a.account)
  }

  lemma {:induction false} AccountMapValid(v: seq<NamedAccount>)
    requires ValidState(v)
    ensures forall id | id in AccountMap(v) :: ValidAccountId(id) && FitsAccount(AccountMap(v)[id])
  {
    hide ValidAccountId, FitsAccount;
    if v != [] {
      assert v[|v| - 1] in v;
      AccountMapValid(v[..|v| - 1]);
    }
  }

  lemma ReservedStringInjective(a: Bytes, b: Bytes)
    requires ReservedString(a) == ReservedString(b)
    ensures a == b
  {
    AppendCancel([0x02], [0x02], a, b);
  }

  /** The writes put each account under its id and each scalar under its tagged name, and nothing else. */
  lemma {:induction false} AccountSlots(v: seq<NamedAccount>)
    requires ValidState(v)
    ensures SlotMap(AccountWrites(v)).Keys == AccountMap(v).Keys
    ensures forall id | id in AccountMap(v) :: SlotMap(AccountWrites(v))[id] == PutAccount(AccountMap(v)[id], [])
  {
    hide ValidAccountId, FitsAccount, PutAccount;
    if v != [] {
      AccountSlots(v[..|v| - 1]);
      assert AccountWrites(v)[..|v| - 1] == AccountWrites(v[..|v| - 1]);
    }
  }

  /** A slot holds what the reserved writes last put there, or else what the account writes did. */
  lemma {:induction false} SlotMapAppend(ws: seq<Write>, ws': seq<Write>)
    ensures SlotMap(ws + ws') == SlotMap(ws) + SlotMap(ws')
  {
    if ws' == [] {
      assert ws + ws' == ws;
    } else {
      assert (ws + ws')[..|ws + ws'| - 1] == ws + ws'[..|ws'| - 1];
      SlotMapAppend(ws, ws'[..|ws'| - 1]);
    }
  }

  lemma {:induction false} ReservedSlots(v: seq<ReservedEntry>, slot: Bytes)
    ensures slot in SlotMap(ReservedWrites(v)) ==>
              exists name :: name in ReservedMap(v) && slot == ReservedString(name)
    ensures forall name | name in ReservedMap(v) ::
              ReservedString(name) in SlotMap(ReservedWrites(v))
              && SlotMap(ReservedWrites(v))[ReservedString(name)] == ReservedMap(v)[name]
  {
    if v != [] {
      var front, last := v[..|v| - 1], v[|v| - 1];
      ReservedSlots(front, slot);
      assert ReservedWrites(v)[..|v| - 1] == ReservedWrites(front);
      if slot in SlotMap(ReservedWrites(v)) {
        if slot == ReservedString(last.name) {
          assert last.name in ReservedMap(v);
        } else {
          var name :| name in ReservedMap(front) && slot == ReservedString(name);
          assert name in ReservedMap(v);
        }
      }
      forall name | name in ReservedMap(v)
        ensures ReservedString(name) in SlotMap(ReservedWrites(v))
        ensures SlotMap(ReservedWrites(v))[ReservedString(name)] == ReservedMap(v)[name]
      {
        if name != last.name && ReservedString(name) == ReservedString(last.name) {
          ReservedStringInjective(name, last.name);
        }
      }
    }
  }

  lemma SlotOfAccount(accounts: seq<NamedAccount>, reserved: seq<ReservedEntry>, id: Bytes)
    requires ValidState(accounts) && ValidAccountId(id)
    ensures var m := SlotMap(Writes(accounts, reserved));
            && (id in m <==> id in AccountMap(accounts))
            && (id in m ==> m[id] == PutAccount(AccountMap(accounts)[id], []))
  {
    hide PutAccount, FitsAccount;
    AccountSlots(accounts);
    SlotMapAppend(AccountWrites(accounts), ReservedWrites(reserved));
    ReservedSlots(reserved, id);
    assert id !in SlotMap(ReservedWrites(reserved)) by {
      if id in SlotMap(ReservedWrites(reserved)) {
        var name :| name in ReservedMap(reserved) && id == ReservedString(name);
        SlotFamiliesDisjoint(id, id, [], [], name);
      }
    }
  }

  lemma SlotOfReserved(accounts: seq<NamedAccount>, reserved: seq<ReservedEntry>, name: Bytes)
    requires ValidState(accounts)
    ensures var m := SlotMap(Writes(accounts, reserved));
            && (ReservedString(name) in m <==> name in ReservedMap(reserved))
            && (name in ReservedMap(reserved) ==> m[ReservedString(name)] == ReservedMap(reserved)[name])
  {
    hide PutAccount, FitsAccount;
    var slot := ReservedString(name);
    AccountSlots(accounts);
    AccountMapValid(accounts);
    SlotMapAppend(AccountWrites(accounts), ReservedWrites(reserved));
    ReservedSlots(reserved, slot);
    if slot in SlotMap(AccountWrites(accounts)) { SlotFamiliesDisjoint(slot, slot, [], [], name); }
    if slot in SlotMap(ReservedWrites(reserved)) {
      var other :| other in ReservedMap(reserved) && slot == ReservedString(other);
      ReservedStringInjective(name, other);
    }
  }

  // ----- the state root -----

  /** The tree a state is committed in. */
  function StateTree(h: HashFn, accounts: seq<NamedAccount>, reserved: seq<ReservedEntry>): Smt {
    Run(h, TREE_HEIGHT, OpsOf(h, Writes(accounts, reserved)))
  }

  /** Every string hashed in committing a state: slot strings, leaves and inner nodes. */
  function StateStrings(h: HashFn, accounts: seq<NamedAccount>, reserved: seq<ReservedEntry>): set<Bytes> {
    StateTree(h, accounts, reserved).hashed + SlotStrings(Writes(accounts, reserved))
  }

  /** The slots of a state are its accounts and its scalars, and nothing else. */
  lemma SlotMapDomain(accounts: seq<NamedAccount>, reserved: seq<ReservedEntry>, slot: Bytes)
    requires ValidState(accounts) && slot in SlotMap(Writes(accounts, reserved))
    ensures (slot in AccountMap(accounts) && ValidAccountId(slot))
            || exists name :: name in ReservedMap(reserved) && slot == ReservedString(name)
  {
    hide PutAccount, FitsAccount, ValidAccountId;
    AccountSlots(accounts);
    AccountMapValid(accounts);
    SlotMapAppend(AccountWrites(accounts), ReservedWrites(reserved));
    ReservedSlots(reserved, slot);
  }

  lemma SameStateSameSlots(a: seq<NamedAccount>, r: seq<ReservedEntry>, a': seq<NamedAccount>, r': seq<ReservedEntry>)
    requires ValidState(a) && ValidState(a') && AccountMap(a) == AccountMap(a') && ReservedMap(r) == ReservedMap(r')
    ensures SlotMap(Writes(a, r)) == SlotMap(Writes(a', r'))
  {
    hide PutAccount, FitsAccount, ValidAccountId, SlotMap, Writes;
    var m, m' := SlotMap(Writes(a, r)), SlotMap(Writes(a', r'));
    forall slot | slot in m || slot in m' ensures slot in m && slot in m' && m[slot] == m'[slot] {
      if slot in m { SlotMapDomain(a, r, slot); } else { SlotMapDomain(a', r', slot); }
      if slot in AccountMap(a) && ValidAccountId(slot) {
        SlotOfAccount(a, r, slot);
        SlotOfAccount(a', r', slot);
      } else {
        var name :| name in ReservedMap(r) && slot == ReservedString(name);
        SlotOfReserved(a, r, name);
        SlotOfReserved(a', r', name);
      }
    }
  }

  lemma SameSlotsSameAccounts(a: seq<NamedAccount>, r: seq<ReservedEntry>, a': seq<NamedAccount>,
                              r': seq<ReservedEntry>, id: Bytes)
    requires ValidState(a) && ValidState(a') && SlotMap(Writes(a, r)) == SlotMap(Writes(a', r'))
    requires id in AccountMap(a)
    ensures id in AccountMap(a') && AccountMap(a)[id] == AccountMap(a')[id]
  {
    hide PutAccount, SlotMap, Writes, ValidAccountId, FitsAccount;
    AccountMapValid(a);
    AccountMapValid(a');
    SlotOfAccount(a, r, id);
    SlotOfAccount(a', r', id);
    AccountCancel(AccountMap(a)[id], AccountMap(a')[id], [], []);
  }

  lemma SameSlotsSameState(a: seq<NamedAccount>, r: seq<ReservedEntry>, a': seq<NamedAccount>, r': seq<ReservedEntry>)
    requires ValidState(a) && ValidState(a') && SlotMap(Writes(a, r)) == SlotMap(Writes(a', r'))
    ensures AccountMap(a) == AccountMap(a') && ReservedMap(r) == ReservedMap(r')
  {
    hide SlotMap, Writes, ValidState;
    forall id | id in AccountMap(a) ensures id in AccountMap(a') && AccountMap(a)[id] == AccountMap(a')[id] {
      SameSlotsSameAccounts(a, r, a', r', id);
    }
    forall id | id in AccountMap(a') ensures id in AccountMap(a) { SameSlotsSameAccounts(a', r', a, r, id); }
    forall name
      ensures name in ReservedMap(r) <==> name in ReservedMap(r')
      ensures name in ReservedMap(r) ==> ReservedMap(r)[name] == ReservedMap(r')[name]
    {
      SlotOfReserved(a, r, name);
      SlotOfReserved(a', r', name);
    }
  }

  lemma SameStateSameRoot(h: HashFn, a: seq<NamedAccount>, r: seq<ReservedEntry>, a': seq<NamedAccount>,
                          r': seq<ReservedEntry>)
    requires ValidState(a) && ValidState(a') && AccountMap(a) == AccountMap(a') && ReservedMap(r) == ReservedMap(r')
    requires CollisionFree(h, StateStrings(h, a, r)) && CollisionFree(h, StateStrings(h, a', r'))
    ensures StateTree(h, a, r).root == StateTree(h, a', r').root
  {
    hide Run, Writes, OpsOf, SlotMap, ValidState, AccountMap, ReservedMap, FinalMap, SlotStrings;
    var ws, ws' := Writes(a, r), Writes(a', r');
    OpsOfFit(h, ws);
    OpsOfFit(h, ws');
    SameStateSameSlots(a, r, a', r');
    SameSlotsSameMap(h, ws, ws');
    RootIgnoresHistory(h, TREE_HEIGHT, OpsOf(h, ws), OpsOf(h, ws'));
  }

  /** **The state root is the state.** Two states of valid, encodable accounts have one root exactly when every id
      ends with the same account and every scalar with the same value, whatever the order they were listed in,
      unless committing them exhibits a collision or a placeholder preimage. */
  lemma StateRootBinds(h: HashFn, a: seq<NamedAccount>, r: seq<ReservedEntry>, a': seq<NamedAccount>,
                       r': seq<ReservedEntry>)
    requires ValidState(a) && ValidState(a')
    requires Secure(h, StateStrings(h, a, r) + StateStrings(h, a', r'))
    ensures (StateTree(h, a, r).root == StateTree(h, a', r').root)
            <==> (AccountMap(a) == AccountMap(a') && ReservedMap(r) == ReservedMap(r'))
  {
    hide Run, Writes, OpsOf, SlotMap, ValidState, AccountMap, ReservedMap, FinalMap, SlotStrings;
    var ws, ws' := Writes(a, r), Writes(a', r');
    OpsOfFit(h, ws);
    OpsOfFit(h, ws');
    if AccountMap(a) == AccountMap(a') && ReservedMap(r) == ReservedMap(r') { SameStateSameRoot(h, a, r, a', r'); }
    if StateTree(h, a, r).root == StateTree(h, a', r').root {
      RootBindsMap(h, TREE_HEIGHT, OpsOf(h, ws), OpsOf(h, ws'));
      SameMapSameSlots(h, ws, ws');
      SameSlotsSameState(a, r, a', r');
    }
  }

  ghost predicate DistinctIds(v: seq<NamedAccount>) {
    forall i, j | 0 <= i < j < |v| :: v[i].id != v[j].id
  }

  lemma {:induction false} AccountMapLookup(v: seq<NamedAccount>, id: Bytes)
    requires DistinctIds(v)
    ensures id in AccountMap(v) <==> exists a :: a in v && a.id == id
    ensures forall a | a in v :: a.id in AccountMap(v) && AccountMap(v)[a.id] == a.account
  {
    if v != [] {
      var front, last := v[..|v| - 1], v[|v| - 1];
      AccountMapLookup(front, id);
      assert v == front + [last];
      forall a | a in v ensures a.id in AccountMap(v) && AccountMap(v)[a.id] == a.account {
        if a != last { assert a in front; }
      }
    }
  }

  lemma SameMembers(v: seq<NamedAccount>, w: seq<NamedAccount>)
    requires DistinctIds(v) && DistinctIds(w) && multiset(v) == multiset(w)
    ensures AccountMap(v) == AccountMap(w) && (ValidState(v) ==> ValidState(w))
  {
    forall a ensures a in v <==> a in w { assert a in multiset(v) <==> a in multiset(w); }
    forall id
      ensures id in AccountMap(v) <==> id in AccountMap(w)
      ensures id in AccountMap(v) ==> AccountMap(v)[id] == AccountMap(w)[id]
    {
      AccountMapLookup(v, id);
      AccountMapLookup(w, id);
    }
  }

  /** Listing distinct accounts in another order leaves the root as it is. */
  lemma PermutedAccountsAgree(h: HashFn, v: seq<NamedAccount>, w: seq<NamedAccount>, r: seq<ReservedEntry>)
    requires ValidState(v) && DistinctIds(v) && DistinctIds(w) && multiset(v) == multiset(w)
    requires CollisionFree(h, StateStrings(h, v, r)) && CollisionFree(h, StateStrings(h, w, r))
    ensures StateTree(h, v, r).root == StateTree(h, w, r).root
  {
    hide StateTree, StateStrings, ValidState, AccountMap;
    SameMembers(v, w);
    SameStateSameRoot(h, v, r, w, r);
  }

  lemma NextWrite(h: HashFn, base: seq<Write>, w: Write)
    ensures OpsOf(h, base + [w]) == OpsOf(h, base) + [OpOf(h, w)]
  {
    assert (base + [w])[..|base|] == base;
  }

  lemma NextAccount(v: seq<NamedAccount>, i: nat)
    requires i < |v|
    ensures AccountWrites(v[..i + 1])
         == AccountWrites(v[..i]) + [Write(AccountString(v[i].id), PutAccount(v[i].account, []))]
  {
    assert v[..i + 1][..i] == v[..i];
  }

  lemma NextReserved(v: seq<ReservedEntry>, i: nat, base: seq<Write>)
    requires i < |v|
    ensures base + ReservedWrites(v[..i + 1])
         == (base + ReservedWrites(v[..i])) + [Write(ReservedString(v[i].name), v[i].value)]
  {
    assert v[..i + 1][..i] == v[..i];
  }

  method InsertAccounts(tree: SparseMerkleTree, accounts: seq<NamedAccount>) returns (ok: bool)
    requires tree.Valid() && tree.ops == []
    modifies tree
    ensures ok <==> forall a | a in accounts :: FitsAccount(a.account)
    ensures ok ==> tree.Valid() && tree.ops == OpsOf(tree.h, AccountWrites(accounts))
  {
    hide Run, PutAccount, FitsAccount, AccountWrites, SparseMerkleTree.Valid;
    var i := 0;
    assert accounts[..0] == [] && OpsOf(tree.h, AccountWrites([])) == [] by { NoWrites(tree.h); }
    while i < |accounts|
      invariant 0 <= i <= |accounts| && tree.Valid()
      invariant tree.ops == OpsOf(tree.h, AccountWrites(accounts[..i]))
      invariant forall a | a in accounts[..i] :: FitsAccount(a.account)
    {
      var bytes := EncodeAccount(accounts[i].account);
      if bytes.None? {
        assert accounts[i] in accounts;
        return false;
      }
      tree.Put(tree.h(AccountString(accounts[i].id)), bytes.value);
      NextAccount(accounts, i);
      NextWrite(tree.h, AccountWrites(accounts[..i]), Write(AccountString(accounts[i].id), bytes.value));
      assert accounts[..i + 1] == accounts[..i] + [accounts[i]];
      i := i + 1;
    }
    assert accounts[..i] == accounts;
    ok := true;
  }

  lemma NoWrites(h: HashFn)
    ensures OpsOf(h, AccountWrites([])) == []
  {
  }

  method InsertReserved(tree: SparseMerkleTree, reserved: seq<ReservedEntry>, ghost base: seq<Write>)
    requires tree.Valid() && tree.ops == OpsOf(tree.h, base)
    modifies tree
    ensures tree.Valid() && tree.ops == OpsOf(tree.h, base + ReservedWrites(reserved))
  {
    hide Run, SparseMerkleTree.Valid;
    var i := 0;
    assert reserved[..0] == [] && base + [] == base;
    while i < |reserved|
      invariant 0 <= i <= |reserved| && tree.Valid()
      invariant tree.ops == OpsOf(tree.h, base + ReservedWrites(reserved[..i]))
    {
      tree.Put(tree.h(ReservedString(reserved[i].name)), reserved[i].value);
      NextReserved(reserved, i, base);
      NextWrite(tree.h, base + ReservedWrites(reserved[..i]),
                Write(ReservedString(reserved[i].name), reserved[i].value));
      i := i + 1;
    }
    assert reserved[..i] == reserved;
  }

  /** Rebuild the tree and return its root; an account that does not encode throws. */
  method ComputeStateRoot(h: HashFn, accounts: seq<NamedAccount>, reserved: seq<ReservedEntry>)
    returns (root: Option<Digest>)
    ensures root.None? <==> !forall a | a in accounts :: FitsAccount(a.account)
    ensures root.Some? ==> root.value == StateTree(h, accounts, reserved).root
  {
    hide Run, PutAccount, FitsAccount, OpsOf, AccountWrites, ReservedWrites;
    var tree := new SparseMerkleTree(h);
    var ok := InsertAccounts(tree, accounts);
    if !ok { return None; }
    InsertReserved(tree, reserved, AccountWrites(accounts));
    root := Some(tree.rootHash);
  }
}

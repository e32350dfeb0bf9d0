/** A reader for what the state root commits to: the account record and the three families of slot strings. Like
    `BorshReader` it knows the layout by itself. */
module StateReader {
  import opened ByteStrings
  import opened Borsh
  import opened Accounts
  import opened BorshReader
  import opened StateRoot

  // ----- accounts -----

  function ReadKeyOption(b: Bytes): Parsed<Option<Bytes>> {
    var (tag, b) :- ReadU8(b);
    if tag == 0 then Parsed(None, b)
    else if tag == 1 then
      var (scheme, b) :- ReadU8(b);
      var (raw, b) :- ReadFixed(b, 32);
      if scheme == 0 then Parsed(Some(raw), b) else Malformed
    else Malformed
  }

  function ReadCodeOption(b: Bytes): Parsed<Option<Bytes>> {
    var (tag, b) :- ReadU8(b);
    if tag == 0 then Parsed(None, b)
    else if tag == 1 then
      var (code, b) :- ReadBytes(b);
      Parsed(Some(code), b)
    else Malformed
  }

  function ReadAccount(b: Bytes): Parsed<AccountState> {
    var (nonce, b) :- ReadUint(b, 8);
    var (balance, b) :- ReadUint(b, 16);
    var (locked, b) :- ReadUint(b, 16);
    var (unlockHeight, b) :- ReadUint(b, 8);
    var (publicKey, b) :- ReadKeyOption(b);
    var (code, b) :- ReadCodeOption(b);
    Parsed(AccountState(nonce, balance, locked, unlockHeight, publicKey, code), b)
  }

  lemma OptionsRead(key: Option<Bytes>, code: Option<Bytes>, rest: Bytes)
    requires (key.Some? ==> |key.value| == 32) && (code.Some? ==> FitsBytes(code.value))
    ensures ReadKeyOption(PutKeyOption(key, rest)) == Parsed(key, rest)
    ensures ReadCodeOption(PutCodeOption(code, rest)) == Parsed(code, rest)
  {
    hide PutU8, PutFixed, PutBytes, ReadU8, ReadFixed, ReadBytes, FitsBytes;
    PrimitivesRead();
  }

  /** **The account bytes.** An account is read back from its encoding, whatever follows. */
  lemma AccountReads(a: AccountState, rest: Bytes)
    requires FitsAccount(a)
    ensures ReadAccount(PutAccount(a, rest)) == Parsed(a, rest)
  {
    hide PutUint, ReadUint, PutKeyOption, ReadKeyOption, PutCodeOption, ReadCodeOption, FitsUint, FitsBytes;
    PrimitivesRead();
    OptionsRead(a.publicKey, a.code, PutCodeOption(a.code, rest));
    OptionsRead(a.publicKey, a.code, rest);
  }

  // ----- slots -----

  datatype Slot = AccountSlot(id: Bytes) | ReservedSlot(name: Bytes) | ContractSlot(id: Bytes, key: Bytes)

  /** A leading 0x02 marks a protocol scalar; the first 0x01 ends the account of a contract entry. */
  function ReadSlot(b: Bytes): Slot {
    if b != [] && b[0] == 0x02 then ReservedSlot(b[1..]) else
      match ReadUntil(b, 0x01)
      case Malformed => AccountSlot(b)
      case Parsed(id, key) => ContractSlot(id, key)
  }

  lemma {:induction false} NoStop(b: Bytes, stop: Byte)
    requires stop !in b
    ensures ReadUntil(b, stop).Malformed?
  {
    if b != [] { NoStop(b[1..], stop); }
  }

  /** **The slot strings.** Each tells its family and its parts. */
  lemma SlotsRead(id: Bytes, key: Bytes, name: Bytes)
    requires ValidAccountId(id)
    ensures ReadSlot(AccountString(id)) == AccountSlot(id)
    ensures ReadSlot(ReservedString(name)) == ReservedSlot(name)
    ensures ReadSlot(ContractString(id, key)) == ContractSlot(id, key)
  {
    assert forall i | 0 <= i < |id| :: id[i] != 1 && id[i] != 2;
    assert ContractString(id, key)[0] == id[0];
    NoStop(id, 0x01);
    UntilReads(id, 0x01, key);
  }
}

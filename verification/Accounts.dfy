/** Account ids: the validation both the node and the SDK apply. */
module Accounts {
  import opened ByteStrings

  const MIN_LEN: nat := 2
  const MAX_LEN: nat := 64

  predicate IsSeparator(b: Byte) { b == '-' as int || b == '_' as int || b == '.' as int }

  predicate IsLowerAlnum(b: Byte) {
    'a' as int <= b <= 'z' as int || '0' as int <= b <= '9' as int
  }

  lemma Letters(b: Byte)
    ensures 'a' as int <= b <= 'z' as int <==> b as char in "abcdefghijklmnopqrstuvwxyz"
  {
  }

  lemma Digits(b: Byte)
    ensures '0' as int <= b <= '9' as int <==> b as char in "0123456789"
  {
  }

  /** The alphabet, character by character. */
  lemma Alphabet(b: Byte)
    ensures IsSeparator(b) <==> b as char in "-_."
    ensures IsLowerAlnum(b) <==> b as char in "abcdefghijklmnopqrstuvwxyz" || b as char in "0123456789"
  {
    Letters(b);
    Digits(b);
  }

  /** Allowed length and bytes; separators neither lead, trail nor touch. */
  predicate ValidAccountId(id: Bytes) {
    && MIN_LEN <= |id| <= MAX_LEN
    && !IsSeparator(id[0]) && !IsSeparator(id[|id| - 1])
    && (forall i | 0 <= i < |id| :: IsLowerAlnum(id[i]) || IsSeparator(id[i]))
    && (forall i | 0 <= i < |id| - 1 :: !(IsSeparator(id[i]) && IsSeparator(id[i + 1])))
  }

  predicate Allowed(b: Byte) { IsLowerAlnum(b) || IsSeparator(b) }

  /** The bytes before `n` hold nothing the forward pass objects to. */
  predicate CleanBefore(id: Bytes, n: nat)
    requires n <= |id|
  {
    && (forall i | 0 <= i < n :: Allowed(id[i]))
    && (forall i | 0 <= i < n - 1 :: !(IsSeparator(id[i]) && IsSeparator(id[i + 1])))
  }

  datatype AccountIdError = Length | EdgeSeparator | InvalidChar(at: nat) | AdjacentSeparators(at: nat)

  /** Why an id is refused: its length, then its edges, then the first byte the forward pass objects to. */
  predicate Explains(id: Bytes, error: AccountIdError) {
    var sized := MIN_LEN <= |id| <= MAX_LEN;
    var edged := sized && (IsSeparator(id[0]) || IsSeparator(id[|id| - 1]));
    match error
    case Length => !sized
    case EdgeSeparator => edged
    case InvalidChar(at) => sized && !edged && at < |id| && CleanBefore(id, at) && !Allowed(id[at])
    case AdjacentSeparators(at) =>
      sized && !edged && 0 < at < |id| && CleanBefore(id, at) && IsSeparator(id[at - 1]) && IsSeparator(id[at])
  }

  /** The validator's single forward pass accepts exactly the declared rule and otherwise says what is wrong. */
  method Validate(id: Bytes) returns (error: Option<AccountIdError>)
    ensures error.None? <==> ValidAccountId(id)
    ensures error.Some? ==> Explains(id, error.value)
  {
    if |id| < MIN_LEN || |id| > MAX_LEN { return Some(Length); }
    if IsSeparator(id[0]) || IsSeparator(id[|id| - 1]) { return Some(EdgeSeparator); }
    var prevSep := false;
    var i := 0;
    while i < |id|
      invariant 0 <= i <= |id|
      invariant prevSep <==> i > 0 && IsSeparator(id[i - 1])
      invariant CleanBefore(id, i)
    {
      if !Allowed(id[i]) { return Some(InvalidChar(i)); }
      if IsSeparator(id[i]) {
        if prevSep {
          assert IsSeparator(id[i - 1]) && IsSeparator(id[i - 1 + 1]);
          return Some(AdjacentSeparators(i));
        }
        prevSep := true;
      } else {
        prevSep := false;
      }
      i := i + 1;
    }
    error := None;
  }

  /** There is one explanation at most, so the contract pins the error down. */
  lemma ExplainedOnce(id: Bytes, e: AccountIdError, e': AccountIdError)
    requires Explains(id, e) && Explains(id, e')
    ensures e == e'
  {
    if e.AdjacentSeparators? { assert id[e.at - 1 + 1] == id[e.at]; }
    if e'.AdjacentSeparators? { assert id[e'.at - 1 + 1] == id[e'.at]; }
  }
}

/** Shares of the sharechain. */
module Shares {
  import opened ByteStrings
  import opened Hashing

  const U128_MAX: nat := 0xFFFF_FFFF_FFFF_FFFF_FFFF_FFFF_FFFF_FFFF

  type ShareId = Digest

  type AccountId = Bytes

  datatype Share = Share(id: ShareId, prev: Option<ShareId>, uncles: seq<ShareId>, finder: AccountId,
                         work: nat, isBlock: bool, timestampMs: nat)
}

# Verified model of SOV's sharechain, state commitment, codecs and pool bridge

SOV is a proof-of-work chain with a trustless mining pool. This project models the parts of it where being wrong is
expensive and proves what they promise, for every input and every run:

- **The sharechain** (`Shares`, `Payouts`, `ShareLedger`, `ShareTheorems`, `AcceptRules`, `ShareRoots`,
  `UncleCitations`, `WindowWeights`, `WorkWidths`, `ShareChainStore`): a DAG of shares with heaviest-work fork choice,
  uncles and pay-per-last-N-shares payouts. `ShareTheorems.Run` is the chain after any sequence of deliveries; the class
  `ShareChain` runs the loops and is proved to hold exactly that state.
- **The state commitment** (`SparseMerkle`, `MerkleProofs`, `SparseMerkleStore`, `StateRoot`, `StateReader`): a
  content-addressed Sparse Merkle Tree that stores only non-default nodes and finds children by their hash, against the
  root of a plain map. The theorems hold for any height; the class works on 256-bit keys.
- **Codecs** (`Wire`, `CanonicalFrames`, `WireIo`, `Borsh`, `Actions`, `Transactions`, `BorshIo`, `BorshReader`,
  `MerkleList`): the share gossip frames, the thirty transaction actions, the domain-framed signing preimage and the
  transaction Merkle root.
- **The pool bridge** (`Targets`, `Nonces`, `JobBook`, `JobProgress`): 256-bit long division by limbs, nonce spelling
  and splicing, and the job book as a state machine whose events are the critical sections of the threads.
- **Smaller cores** (`SpendVelocity`, `Inbox`, `EntropyHealth`, `Accounts`).

## Conventions

*Hashes are a parameter.* Nothing is assumed of Blake3. The trees carry an explicit set of the strings they hashed, and
a claim that rests on collision resistance says: unless two strings of that set collide (`CollisionFree`), or one of them
hashes to the all-zero placeholder (`Secure`). Seals are a parameter too.

*Values and objects.* Code that mutates an object is a class or a method with loops, proved equal to a function on
values; the theorems are about the function. Code that computes is functions.

*Writers and readers.* Where a function writes bytes, an independent reader with its own tags and field order reads them
back; where the code decides, a theorem says exactly when it decides so, without the order in which it looks.

*Errors.* A thrown `BorshError` is a latch on the writer or a `None`; a Rust `Err` is a datatype.

*Text is bytes.* Strings are held as their UTF-8 bytes and hex fields as the bytes they spell.

## Where the documentation and the code part ways

- `SpendLimit` is documented as a cap within *any* window of `window_blocks` heights. The code's windows tumble, so that
  is true only when nothing can be sent, the cap is zero, or the window is at most one block
  (`SpendVelocity.EverySpanLimitedIff`); `SpendVelocity.StraddleSpendsTwice` is the run that spends twice the cap, and
  `SpendVelocity.SpanNeverExceedsTwice` shows that twice is the most.
- A share's `prev` is documented as absent only for the first share ever. The code admits any number of such shares:
  `ShareRoots.TwoRoots` is the run, and a chain keeps a single root exactly as long as no share without a parent,
  acceptable otherwise, reaches a chain that is not empty (`ShareRoots.StepKeepsOneRootIff`,
  `ShareRoots.RunHasOneRootIff`).
- Payouts are documented to sum to exactly the reward, and a finder to be unable to keep it. That holds of an accepted
  block exactly when it builds on another share (`ShareTheorems.BlockPaysIffItBuilds`); a block without a parent is
  accepted with empty payouts (`ShareRoots.FirstBlockPaysNobody`).
- The uncle check is there so that nothing is paid twice for one piece of work. It keeps main-line shares from being
  uncled, but two shares of a branch may cite one uncle and it is paid for both (`UncleCitations.CountedTwice`); a
  window counts every piece of work once exactly when no two of its shares cite a common uncle
  (`UncleCitations.CountedOnceIff`).
- The decoder reads any nonzero byte as `Some` or `true`, so a frame need not be the encoding of what it decodes to:
  `CanonicalFrames.OddTagIsRewritten` is such a frame. It is exactly when those bytes are 0 or 1
  (`CanonicalFrames.ReencodeIsIdentityIff`); any other re-encodes to the same length and the same message.

## Model

| member | source | states |
|---|---|---|
| ShareTheorems.MainLineNeverUncle | tools/sov-sharechain/src/lib.rs:320-341 | On any branch of any reachable chain no main-line share is cited as an uncle by another share of the branch, in either direction: no work is paid twice as share and uncle |
| ShareTheorems.SameSharesSameChain | tools/sov-sharechain/src/lib.rs:298-381 | Two peers holding the same shares, in whatever orders they arrived, agree on all heights and cumulative works, on payouts on every parent, on the tip's work, and on the tip when one share is strictly heaviest |
| ShareTheorems.PayoutsNeverChange | tools/sov-sharechain/src/lib.rs:242-266 | What is due on a known parent is unchanged by every later delivery |
| ShareTheorems.AcceptedBlocksStayRight | tools/sov-sharechain/src/lib.rs:343-355 | An accepted block share's embedded payouts equal the recomputed ones in every later state |
| ShareTheorems.PayoutsReadOnlyTheWindow | tools/sov-sharechain/src/lib.rs:248-266 | Payouts depend only on the last 1000 shares and the uncles they cite |
| ShareTheorems.PayoutsSumToReward | tools/sov-sharechain/src/lib.rs:239-270 | In every reachable chain the payouts on a known parent sum to exactly the reward; on no parent or an unknown one nothing is paid |
| ShareTheorems.BlockPaysIffItBuilds | tools/sov-sharechain/src/lib.rs:343-355 | An accepted block with a positive reward pays it out exactly when it has a parent, and pays nobody exactly when it has none |
| ShareRoots.FirstBlockPaysNobody | tools/sov-sharechain/src/lib.rs:14-20 | The first block of a chain is accepted with empty payouts, whatever the reward |
| ShareRoots.StepKeepsOneRootIff | tools/sov-sharechain/src/lib.rs:310-318 | A chain with at most one parentless share keeps at most one exactly unless it is not empty and the delivery is an admissible share without a parent |
| ShareRoots.RunHasOneRootIff | tools/sov-sharechain/src/lib.rs:107-108 | Only the first share of a run is parentless exactly when no later delivery is an admissible share without a parent |
| ShareRoots.TwoRoots | tools/sov-sharechain/src/lib.rs:107-108 | Two parentless shares delivered to an empty chain are both accepted |
| UncleCitations.CountedOnceIff | tools/sov-sharechain/src/lib.rs:320-341 | On any parent of any reachable chain a window counts every share once, as main line or uncle, exactly when no two of its shares cite a common uncle |
| WindowWeights.CountedContribute | tools/sov-sharechain/src/lib.rs:248-266 | Each contribution of a window goes to the finder of one counted share: its work if it is on the main line, three quarters of it, rounded down, if it is an uncle |
| WindowWeights.PayoutsSplitTheWindow | tools/sov-sharechain/src/lib.rs:242-291 | The payouts on any parent split the reward over the finders of the last 1000 shares of its branch and the uncles those cite, each weighing exactly what their shares and uncles are worth |
| WindowWeights.CumulativeWorkIsWorth | tools/sov-sharechain/src/lib.rs:357-359 | A share's cumulative work is what its whole branch and the uncles cited on it are worth |
| UncleCitations.CitedAgain | tools/sov-sharechain/src/lib.rs:335-341 | Whatever share of a branch cited an uncle, the next share on it is accepted citing it again |
| UncleCitations.CountedTwice | tools/sov-sharechain/src/lib.rs:257-263 | The run whose window counts one uncle twice |
| Payouts.SplitIsExact | tools/sov-sharechain/src/lib.rs:268-290 | For any weights with positive sum and any positive reward the payouts sum to exactly the reward |
| Payouts.SplitIsFair | tools/sov-sharechain/src/lib.rs:272-289 | Everyone gets at least the floor of their proportion; only the heaviest account, smallest id on ties, gets more, by fewer grains than there are earning accounts; nobody outside the window is paid |
| Payouts.RemainderGoesToTop | tools/sov-sharechain/src/lib.rs:273-289 | Everyone is paid exactly the floor of their proportion and the rest goes to the heaviest account, on a tie to the one first in byte order |
| Payouts.SplitIsMonotone | tools/sov-sharechain/src/lib.rs:273-289 | A larger weight never earns less |
| WorkWidths.PayoutsFitIff | tools/sov-sharechain/src/lib.rs:242-291 | No product, counter, sum or amount of a payout leaves 128 bits exactly when the 75% products of the cited uncles, the window's total and the reward times the heaviest weight fit |
| WorkWidths.DivisionFitsIff | tools/sov-sharechain/src/lib.rs:272-289 | The division alone is exact exactly when the reward times the heaviest weight fits |
| WorkWidths.AcceptFitsIff | tools/sov-sharechain/src/lib.rs:333-359 | The arithmetic of any delivery, accepted or refused at whatever point, is exact exactly when the uncles taken in, the payouts of a block and the cumulative work of an accepted share fit |
| WorkWidths.RunFitsIff | tools/sov-sharechain/src/lib.rs:333-359 | Every accepted share of a run was recorded exactly if and only if in the final chain the tip's work and the product of every cited uncle fit |
| WorkWidths.RunPayoutsFitIff | tools/sov-sharechain/src/lib.rs:242-291 | After such a run the tally on any parent is exact, and the payout is exactly when the reward times the heaviest weight fits |
| WindowWeights.WindowBelowWork | tools/sov-sharechain/src/lib.rs:255-263 | A window's total never exceeds its parent's cumulative work, and equals it once the window reaches the root |
| ShareLedger.AcceptInv | tools/sov-sharechain/src/lib.rs:298-381 | Accepting keeps every structural rule (parents known one level below, cumulative work equal to the recursive sum with uncles at 75%, uncle rules, maximal tip), adds exactly one entry and never lightens the tip |
| AcceptRules.AcceptedIff | tools/sov-sharechain/src/lib.rs:298-355 | A share is accepted exactly when it is new, has work, a known parent or none, uncles that are known, not itself, off its branch and cited once, and, if a block, exactly the payouts due |
| AcceptRules.RefusedIff | tools/sov-sharechain/src/lib.rs:304-355 | Each refusal gives exactly the error of the first rule broken, and for uncles the first offender |
| AcceptRules.AcceptedRecords | tools/sov-sharechain/src/lib.rs:357-379 | An accepted share is filed one above its parent with the parent's work, its own and three quarters of each uncle's, becomes the tip exactly when strictly heavier, and changes nothing else |
| AcceptRules.UncleWeightIsThreeQuarters | tools/sov-sharechain/src/lib.rs:340-340 | An uncle weighs three quarters of its work, rounded down |
| ShareTheorems.RunExtends | tools/sov-sharechain/src/lib.rs:361-380 | Over a whole run nothing accepted is altered or forgotten and the tip's work never decreases |
| ShareTheorems.TipIsHeaviestLeaf | tools/sov-sharechain/src/lib.rs:371-379 | The tip is known, heaviest, and nobody's parent |
| ShareTheorems.BranchReachesRoot | tools/sov-sharechain/src/lib.rs:357-357 | A branch counts height + 1 shares and ends at one that builds on nothing |
| ShareChainStore.FindHeaviest | tools/sov-sharechain/src/lib.rs:283-285 | The scan returns the heaviest account, smallest id on a tie |
| ShareChainStore.CutAll | tools/sov-sharechain/src/lib.rs:272-279 | The cut loop collects exactly the positive floors and their sum, in any visiting order |
| ShareChainStore.SplitReward | tools/sov-sharechain/src/lib.rs:268-290 | The division code computes the specified split |
| ShareChainStore.ShareChain.TallyShare | tools/sov-sharechain/src/lib.rs:255-263 | One share and its uncles are added to the tally at full and 75% weight |
| ShareChainStore.ShareChain.PayoutsFor | tools/sov-sharechain/src/lib.rs:242-291 | The walk-back loop and division compute the specified payouts for any parent, known or not |
| ShareChainStore.ShareChain.AncestryOf | tools/sov-sharechain/src/lib.rs:322-332 | The ancestry walk collects exactly the branch, and its repeat guard never fires early |
| ShareChainStore.ShareChain.CheckUncles | tools/sov-sharechain/src/lib.rs:333-341 | The uncle scan returns the first offender, or the 75% work of all of them |
| ShareChainStore.ShareChain.Accept | tools/sov-sharechain/src/lib.rs:298-381 | The mutating accept performs exactly the specified step: each refusal with its error and no trace, acceptance with the new entry and fork choice |
| ShareChainStore.ShareChain.BestBranch | tools/sov-sharechain/src/lib.rs:218-229 | The best branch lists the tip's branch newest first, height + 1 long, ending at a root |
| ShareChainStore.ShareChain.TipWork | tools/sov-sharechain/src/lib.rs:200-205 | Bounds the cumulative work of every known share |
| ShareChainStore.ShareChain.HeightOf | tools/sov-sharechain/src/lib.rs:421-423 | A known share's height is the number of shares it builds on |
| SparseMerkle.RootIsRootOfMap | sdk/src/smt.ts:110-155 | After any inserts and overwrites the root is the recursively defined root of the final plain map |
| SparseMerkle.RootIgnoresHistory | sdk/src/smt.ts:149-155 | Insertion order and overwritten values never show in the root |
| SparseMerkle.ChildrenRight | sdk/src/smt.ts:109-115 | A child lookup by hash never takes a populated subtree for an empty one or a stale node for a current one |
| SparseMerkle.InsertInv | sdk/src/smt.ts:117-155 | Insert keeps the store content-addressed and every non-default inner node present |
| MerkleProofs.ProveVerifies | sdk/src/smt.ts:157-163 | In every reachable tree a proof verifies for what the map holds, present or absent |
| MerkleProofs.VerifiedIsHeld | sdk/src/smt.ts:62-82 | Any proof accepted against a reachable root, for a value or for absence, tells what the map holds |
| MerkleProofs.ProofsAgree | sdk/src/smt.ts:67-82 | No root opens to two answers for one key, even with siblings of arbitrary length |
| MerkleProofs.RootBindsMap | sdk/src/smt.ts:99-102 | Two trees with one root hold the same map |
| SparseMerkleStore.PathOfInjective | sdk/src/smt.ts:35-39 | The MSB-first bits of a 256-bit key determine the key |
| SparseMerkleStore.BitIs | sdk/src/smt.ts:35-39 | Bit i of a key is the one worth 128, 64, down to 1 in byte i / 8 |
| Hashing.StringLayout | sdk/src/borsh.ts:379-392 | A node string is its tag, the left child and the right child; a leaf string its tag and the value |
| SparseMerkleStore.ComputeDefaults | sdk/src/smt.ts:45-52 | The defaults loop yields the empty-subtree digest of every level |
| SparseMerkleStore.VerifyMerkleProof | sdk/src/smt.ts:67-82 | The verification loop accepts exactly the proofs that fold to the root |
| SparseMerkleStore.SparseMerkleTree.SiblingsFor | sdk/src/smt.ts:118-132 | The descent loop collects the siblings of the key's path |
| SparseMerkleStore.SparseMerkleTree.RecomputePath | sdk/src/smt.ts:135-147 | The ascent loop stores every non-default parent and sets the root |
| SparseMerkleStore.SparseMerkleTree.Put | sdk/src/smt.ts:150-155 | Insert performs the specified step and updates the value map at that key alone |
| SparseMerkleStore.SparseMerkleTree.Root | sdk/src/smt.ts:100-102 | The object's root is the root of the map it holds |
| SparseMerkleStore.SparseMerkleTree.Lookup | sdk/src/smt.ts:105-107 | Reading a key gives what the map holds |
| SparseMerkleStore.SparseMerkleTree.ProveKey | sdk/src/smt.ts:158-163 | The proof produced verifies for the key's value or its absence |
| StateRoot.StateRootBinds | sdk/src/state.ts:104-121 | Two states share a root exactly when every id has the same account and every reserved scalar the same value |
| StateRoot.PermutedAccountsAgree | sdk/src/state.ts:109-121 | Listing distinct accounts in another order gives the same root, unless the strings of one listing collide |
| StateRoot.SlotFamiliesDisjoint | sdk/src/state.ts:30-52 | Account, reserved and contract slot strings never coincide, and contract strings determine account and key |
| StateRoot.AccountCancel | sdk/src/state.ts:70-88 | The account encoding is uniquely decodable |
| StateReader.AccountReads | sdk/src/state.ts:70-88 | An independent reader reads an account back: nonce, balance, locked, unlock height, key, code |
| StateReader.SlotsRead | sdk/src/state.ts:30-52 | Each slot string is read back as its family and parts |
| StateRoot.EncodeAccount | sdk/src/state.ts:70-88 | The writer produces that encoding and throws exactly when a field does not fit |
| StateRoot.ComputeStateRoot | sdk/src/state.ts:109-121 | The insert loops build exactly the specified tree, failing exactly when some account does not encode |
| Wire.RoundTrip | tools/sov-sharechain/src/wire.rs:236-300 | A message decodes back to itself if and only if it is within the decoder's bounds |
| Wire.EncodingFitsFrame | tools/sov-sharechain/src/wire.rs:40-60 | A message in bounds takes less than a ninth of the largest frame |
| Wire.BoundsAre | tools/sov-sharechain/src/wire.rs:40-60 | The decoder's bounds in numbers |
| Wire.FramesAreExact | tools/sov-sharechain/src/wire.rs:129-300 | Every proper prefix of a decodable frame is Truncated, every proper extension TrailingBytes, or TooLarge past the limit |
| Wire.ReencodeIsStable | tools/sov-sharechain/src/wire.rs:163-234 | A decoded message is in bounds and re-encodes to a frame of the same length that decodes to it |
| CanonicalFrames.ReencodeIsIdentityIff | tools/sov-sharechain/src/wire.rs:163-234 | A decodable frame is the encoding of what it decodes to exactly when every option tag and every isBlock byte in it is 0 or 1 |
| CanonicalFrames.OddTagIsRewritten | tools/sov-sharechain/src/wire.rs:163-168 | A frame with an option tagged 2 decodes, and re-encodes with tag 1 |
| Wire.EncodeInjective | tools/sov-sharechain/src/wire.rs:195-262 | Two messages in bounds never share a frame |
| WireIo.DecodeFrame | tools/sov-sharechain/src/wire.rs:270-300 | The cursor-driven decoder computes the specified decoding, every error included |
| WireIo.EncodeFrame | tools/sov-sharechain/src/wire.rs:237-262 | The buffer-growing encoder writes the specified frame |
| WireIo.Reader.ReadShare | tools/sov-sharechain/src/wire.rs:210-234 | Reading a share advances the cursor exactly past it or fails as specified |
| WireIo.FrameWriter.WriteShare | tools/sov-sharechain/src/wire.rs:195-208 | Writing a share appends exactly its encoding |
| Accounts.Validate | sdk/src/account.ts:62-98 | The single forward pass accepts exactly the declared account ids and otherwise reports the first violation in the order length, edge separator, first bad byte |
| Accounts.ExplainedOnce | sdk/src/account.ts:57-61 | An id has at most one such report |
| Accounts.Alphabet | sdk/src/account.ts:23-29 | The separators and the lower-case letters and digits, character by character |
| Actions.ActionCancel | sdk/src/borsh.ts:165-286 | Reading any byte stream from the front, at most one of the thirty recursive actions and one rest fit |
| BorshReader.ActionReads | sdk/src/borsh.ts:165-286 | An independent reader with its own variant indices, widths and field order reads every encodable action back from the front of any stream |
| BorshReader.PolicyReads | sdk/src/borsh.ts:148-163 | Policies are read back, flag, control and limit in that order |
| BorshReader.IntentReads | sdk/src/borsh.ts:136-146 | Intents are read back field by field |
| Actions.PolicyCancel | sdk/src/borsh.ts:148-163 | The policy encoding is uniquely decodable |
| Actions.IntentCancels | sdk/src/borsh.ts:130-146 | The intent encoding is uniquely decodable |
| Transactions.SigningBytesBind | sdk/src/tx-builder.ts:136-172 | For valid signers and NUL-free chain ids two signing preimages are equal exactly when the optional domains are and the transactions are, up to the order of account lists |
| BorshReader.PreimageReads | sdk/src/tx-builder.ts:148-172 | The preimage is read back as the network it names, or none, and the transaction |
| Transactions.FrameIsNotBody | sdk/src/tx-builder.ts:148-172 | A framed preimage is never an unframed one, because a signer is at most 64 bytes |
| Transactions.TransactionCancel | sdk/src/borsh.ts:330-337 | The canonical encoding pins the transaction down and tells where it ends |
| BorshReader.TransactionReads | sdk/src/borsh.ts:330-337 | The canonical bytes of every encodable transaction are read back as it, account lists in written order, whatever follows |
| Transactions.SignedInjective | sdk/src/borsh.ts:342-355 | A signed transaction cannot be reread with the boundary between body and signature moved |
| BorshReader.SignedReads | sdk/src/borsh.ts:342-355 | Signed bytes are read back as the transaction and its signature |
| Transactions.SortCanonical | sdk/src/borsh.ts:122-128 | Two account lists are written alike exactly when they hold the same accounts |
| ByteStrings.AtMostIff | sdk/src/borsh.ts:122-128 | The order lists are sorted by: a prefix first, otherwise the smaller byte at the first difference |
| Transactions.TxRootBinds | sdk/src/borsh.ts:358-417 | Equal transaction roots mean the same transactions in the same order, up to the order of account lists |
| BorshIo.BorshWriter.Uint | sdk/src/borsh.ts:64-73 | The byte loop writes the little-endian integer and throws exactly when it does not fit |
| BorshIo.WriteAccountSet | sdk/src/borsh.ts:124-128 | Accounts go out sorted behind their count |
| BorshIo.WriteAction | sdk/src/borsh.ts:165-286 | Writing an action leaves its tagged layout and throws exactly when some field, at any depth, does not fit |
| BorshIo.EncodeTx | sdk/src/borsh.ts:330-337 | The driver produces the canonical bytes, or an error for exactly the transactions that do not fit |
| BorshIo.TransactionSigningBytes | sdk/src/tx-builder.ts:148-172 | The array filled behind a moving index is the specified preimage; a genesis that is not 32 bytes throws |
| MerkleList.MerkleRoot | sdk/src/borsh.ts:399-412 | The level-by-level loop terminates with the root of the top-down tree that splits at the largest power of two |
| MerkleList.PairUpKeepsRoot | sdk/src/borsh.ts:402-410 | Pairing neighbours and promoting an odd last node keeps the root |
| MerkleList.RootBindsList | sdk/src/borsh.ts:394-412 | Equal roots mean equal lists, length included; the one exception, the empty list against one empty leaf, cannot arise from 32-byte leaves |
| Targets.DifficultyToTarget256 | tools/sov-stratum/src/share.rs:14-27 | The limb loop yields exactly floor((2^256 - 1) / d) for every 64-bit difficulty |
| Targets.LimbStep | tools/sov-stratum/src/share.rs:16-25 | One limb of the division is exact, its running value fits 128 bits and its quotient 64 |
| Targets.HarderIsSmaller | tools/sov-stratum/src/share.rs:10-13 | The target is strictly decreasing in the difficulty over the whole range |
| Targets.CompactIsTopOfTarget | tools/sov-stratum/src/share.rs:40-51 | The compact value is exactly the top 32, or 64, bits of the full target |
| JobBook.MinerReadsTopBits | tools/sov-stratum/src/share.rs:44-51 | Reading the hex field back gives exactly those bits, 8 or 16 characters by difficulty |
| Targets.ByteOrderIsNumeric | tools/sov-stratum/src/share.rs:67-79 | Comparing big-endian byte arrays compares the numbers |
| Targets.EffectiveShareTarget | tools/sov-stratum/src/share.rs:29-38 | The share target is the easier of the two |
| Targets.ClassifySeal | tools/sov-stratum/src/share.rs:64-79 | Block exactly at or below the network target, too weak exactly above both |
| Targets.EveryBlockIsAShare | tools/sov-stratum/src/share.rs:6-8 | Every seal meeting the network target meets the effective share target, and credit is given exactly by the latter |
| Nonces.ParseNonceHex | tools/sov-stratum/src/job.rs:142-154 | Zero-padding into eight bytes reads the little-endian value, within 64 bits |
| Nonces.SpellingsParse | tools/sov-stratum/src/job.rs:138-154 | A string is read as a nonce exactly when it is the nonce's little-endian hex in one of the two widths and any mixture of cases, or 0x followed by that |
| Nonces.SpliceNonce | tools/sov-stratum/src/job.rs:132-136 | The in-place write changes exactly the eight bytes at the offset |
| Nonces.SpliceIsReencode | tools/sov-stratum/src/job.rs:4-9 | Splicing a nonce over a header's last eight bytes is re-encoding the header with it, and is injective |
| BorshReader.HeaderReads | chain/crates/types/src/block.rs:24-58 | A header is read back from its encoding, fields in declared order and the nonce last |
| JobBook.CreditedAtMostOnce | tools/sov-stratum/src/main.rs:467-543 | Over every interleaving no job and nonce is credited or forwarded twice, and nothing is forwarded uncredited |
| JobBook.AwardsAreEarned | tools/sov-stratum/src/main.rs:504-527 | A credit means the seal met the effective share target, a forward that it met the network target |
| JobBook.BookMatchesOrder | tools/sov-stratum/src/main.rs:275-301 | The book's keys are its order queue, without repeats and at most 4096 |
| JobBook.ReplayEarnsNothing | tools/sov-stratum/src/main.rs:476-502 | After any run, submitting a nonce already considered, in any spelling the parser reads and whatever other threads do between lookup and mark, changes no mark, credit or forward |
| JobProgress.SubmitIsTakenUp | tools/sov-stratum/src/main.rs:467-502 | A submit for a live job of the miner's own, with a readable nonce not considered before, is taken up for judging under that job's entry, whatever other threads do |
| JobProgress.JudgeCredits | tools/sov-stratum/src/main.rs:504-527 | A submit taken up is credited exactly when the claimed hash is absent or right and the seal is at or below the share target |
| JobProgress.WinnersAreForwarded | tools/sov-stratum/src/main.rs:515-527 | It is forwarded to the node exactly when the claim holds and the seal is at or below the network target, whatever other threads do between judging and forwarding |
| JobProgress.LookupIff | tools/sov-stratum/src/main.rs:476-490 | A lookup finds an entry exactly for a readable nonce and a live job issued to that miner, and otherwise changes nothing |
| JobProgress.IssuedJobIsLive | tools/sov-stratum/src/main.rs:275-301 | Whatever other threads do between its steps, issuing a job leaves it in the book under the id drawn, for that miner and template, at the easier of the two targets, with no nonce considered |
| JobProgress.EvictKeepsNewest | tools/sov-stratum/src/main.rs:296-300 | Eviction keeps the newest 4096 of the queue and drops exactly the others from the book |
| JobProgress.StaleJobsExpire | tools/sov-stratum/src/main.rs:438-444 | After the book is cleared no submit is taken up until a job is filed |
| JobBook.LiveJobs.File | tools/sov-stratum/src/main.rs:283-301 | The eviction loop drops the oldest jobs until the book is within its limit |
| SpendVelocity.WindowNeverExceeds | chain/crates/compliance/src/controls.rs:137-164 | No accounting window of any run approves more than the cap |
| SpendVelocity.ApprovedIff | chain/crates/compliance/src/controls.rs:120-165 | A transfer is approved exactly when the account is not frozen, the counterparty is on the allow list if there is one and off the deny list if there is one, and what is spent in the counting window fits the cap and 128 bits; the window returned is the counting one with the amount added |
| SpendVelocity.RejectedIff | chain/crates/compliance/src/controls.rs:120-165 | Each rejection gives exactly the error of the first rule broken, with its figures |
| SpendVelocity.OnlyPermitted | chain/crates/compliance/src/controls.rs:36-45 | No run approves a transfer by a frozen account or to an unlisted or denied counterparty, and whatever it approves was attempted |
| SpendVelocity.SpanNeverExceedsTwice | chain/crates/compliance/src/controls.rs:120-165 | In any window_blocks consecutive heights at most twice the cap is approved |
| SpendVelocity.EverySpanLimitedIff | chain/crates/compliance/src/controls.rs:47-56 | The documented cap on every span holds exactly when nothing can be sent, the cap is zero, or the window is at most one block |
| SpendVelocity.StraddleSpendsTwice | chain/crates/compliance/src/controls.rs:137-164 | The run that spends the cap on both sides of a rollover |
| Inbox.RunKeepsLongestSuffix | tools/sov-sharechain/src/gossip.rs:71-96 | After any pushes and drains the inbox holds exactly what the longest fitting suffix since the last drain is, and its counter is that size |
| Inbox.KeepIsLongestSuffix | tools/sov-sharechain/src/gossip.rs:74-88 | What is kept is a suffix that fits, and every longer suffix overflows |
| Inbox.InboxQueue.Push | tools/sov-sharechain/src/gossip.rs:72-89 | The eviction loop keeps exactly that, and its empty-queue fallback is unreachable |
| Inbox.InboxQueue.Drain | tools/sov-sharechain/src/gossip.rs:90-96 | Draining hands over what was kept, in order, and empties the inbox |
| EntropyHealth.HealthCheck | sdk/src/rng.ts:202-270 | The check passes exactly the buffers no declarative test objects to and names the first that does |
| EntropyHealth.HealthyIff | sdk/src/rng.ts:202-270 | A buffer is healthy exactly when it has two different bytes, no seven alike in a row, no value or difference 20 times in a block of 512, every value if 8192 bytes or more, and ones and zeros within five square roots of its bits |
| EntropyHealth.MaxWindowCount | sdk/src/rng.ts:151-165 | The statistic reaches a cutoff exactly when some full window is that crowded |
| EntropyHealth.PopcountCounts | sdk/src/rng.ts:168-172 | The masked sums count the one bits of every byte |
| EntropyHealth.ShortPeriodRejected | sdk/src/rng.ts:237-248 | Every startup-sized buffer of period below 256 is rejected |
| EntropyHealth.ProgressionRejected | sdk/src/rng.ts:250-257 | Every arithmetic progression mod 256 of at least 513 bytes is rejected |
| EntropyHealth.GateFailsClosed | sdk/src/rng.ts:326-343 | Over any sequence of calls bytes are delivered exactly when the first call's startup buffer was drawn and healthy and this call's draw succeeded; otherwise every call is refused with the first error |
| EntropyHealth.ShortPeriodNeverDelivers | sdk/src/rng.ts:291-308 | A platform whose startup buffer has a period below 256 is never drawn from |
| EntropyHealth.EntropyGate.FillSecure | sdk/src/rng.ts:298-343 | Each call of the object answers as the specified sequence does and latches the first call's verdict |

## Left out

- Sockets, threads as such, timeouts, JSON-RPC and command lines: drivers for external processes.
- Blake3, Ed25519, ML-DSA, RandomX and the sealed link: hashes and seals are parameters.
- `next_share_difficulty` and `next_difficulty`: the first delegates to an LWMA elsewhere in the chain, the second is
  floating point.
- Wrapped `u128` results in the sharechain: work and grains are unbounded here. `WorkWidths` says exactly when the
  code's arithmetic is exact; what a wrapped value would do is not modelled. Heights are unbounded too: their 64 bits
  would take 2^64 shares to fill.
- The `checked_add` overflow of the wire reader's cursor: frames are at most a megabyte, so it cannot arise.
- TypeScript string details: `TextEncoder` replaces lone surrogates and `sort` compares UTF-16 units. The model starts
  from the UTF-8 bytes and sorts those, which agrees on account ids, whose characters are ASCII.
- The hex and decimal parsing of JSON fields in the SDK: fields are the bytes and integers they spell.
- `validateAction` and the supply cap on amounts: per-field checks that would only add easy members.
- Built-in workers of the pool (`worker_loop`) submit to the node without a job, a nonce set or a credit, so the
  at-most-once results are about miners' submits.
- Job ids: the 64-bit sequence number and its hex form are a natural number, so its wrap-around after 2^64 jobs is not
  modelled.
- The order in which the payout code visits accounts is left open: the result is proved the same for every order.
- The test-only `__forceUnhealthyForTests` switch of the entropy gate.
- The main chain's own ledger, fork choice, emission and runtime; the GUI, dashboards and tools.

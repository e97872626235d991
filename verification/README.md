# dogepool, verified

A Dafny model of a merged-mining pool: how it turns a block template into stratum jobs, headers, block submissions and
AuxPow proofs, and how it turns found blocks and shares into balances and payments.  Hash functions are parameters
(any total function to 32 bytes; no collision assumption is used anywhere), tables are sequences and maps, amounts are
exact reals, and nodes, wallets and database statements answer as they like.

`dafny verify dfyconfig.toml` checks everything.

## Layout

| file | source | content |
|---|---|---|
| `Base`, `Hex` | | shared vocabulary, sequence facts, hexadecimal text |
| `Encoding` | `bitcoin/encoding.go`, `utils/byte.go` | little-endian integers, compact sizes, byte reversals |
| `Merkle` | `bitcoin/merkle.go` | stratum steps against the full Merkle tree |
| `AuxTree`, `AuxBranch` | `bitcoin/auxMerkelBranch.go`, `pool/work.go` | slots, committed root, branch, mask |
| `Wire` | | the published formats as an independent reference: writer, reader, reading undoes writing |
| `Coinbase` | `bitcoin/coinbase.go`, `bitcoin/transaction.go` | height push, coinbase halves, outputs |
| `Block` | `bitcoin/generator.go`, `bitcoin/header.go`, `bitcoin/submission.go` | job, header, digest, submission |
| `MergedMining` | `pool/work.go`, `bitcoin/auxpow.go` | commitment and AuxPow, and what an auxiliary chain accepts |
| `ShareCheck` | `pool/share.go`, `bitcoin/target.go` | targets, difficulties, share classification |
| `Extranonce` | `pool/extraNonce.go` | unique extranonces |
| `ShareBuffer` | `pool/buffer.go`, `pool/work.go` | share buffer under concurrency |
| `Failover` | `rpc/manager.go` | node search and its interleavings |
| `Shares` | `persistence/share.go` | share table, cursor query, paging |
| `Ledger` | `persistence/balance.go`, `persistence/payment.go` | balances, change log, payments, and what failing statements leave behind |
| `Crediting` | `payouts/rewards.go`, `payouts/pplns.go` | a list of credits, statement by statement, until one fails |
| `Schemes` | `payouts/prop.go`, `payouts/pplns.go`, `payouts/solo.go` | splitting one reward |
| `Rewards` | `payouts/rewards.go` | pool recipients and dispatch |
| `Blocks` | `persistence/found.go`, `payouts/unlock.go` | block table and status sweep |
| `Payer`, `PayerRuns` | `payouts/payer.go` | a payout pass, and what passes and runs keep |
| `Manager` | `payouts/manager.go` | the endless loop, and solvency |

## Main results

1. **Stratum refinement** (`Merkle.StratumRefinement`): for every text input, steps plus running hash succeed exactly
   when all texts are hexadecimal, and give the root of the full tree.
2. **Merged mining from job to acceptance** (`MergedMining.MinedShareIsAccepted`): for every job whose coinbase ends
   in the commitment, every submission of well-sized fields and all tree heights, the AuxPow text exists exactly when
   the blocks fit the branch's tree, reads back whole exactly when slot and branch count are below ten, always ties
   coinbase to header, and is accepted exactly when, besides, what stands behind the first magic bytes of the script
   names the branch's root, height and slot.  When those are the commitment's own, that is when branch and commitment
   use one height; they are its own exactly when no magic bytes start in front of it
   (`MergedMining.CommitmentFirstIff`); an extranonce can hold some (`MergedMining.MagicInExtranonce`).
3. **What is submitted** (`Block.SubmittedBlockIsCommitted`, from `Block.HeaderCommits`, `Block.SubmissionIsBlock` and
   `Block.HeaderRootCoversBlock`): from job and share to one block, with transactions in plain, witness or integrating
   form and an extension block behind them or not; its header's root covers exactly the transactions it carries.
4. **Money conservation over runs, under every failing statement** (`PayerRuns.RunsConserve`), with the exact condition
   key by key and chain by chain; **sent is recorded, exactly when**, for every answer of the nodes
   (`PayerRuns.SentIsRecordedIff`), and the accounts of a pass under every failing statement
   (`PayerRuns.PassAccounts`, `PayerRuns.FaultySentIsRecordedIff`, `PayerRuns.FaultyPassConservesIff`).
5. **Who is credited what** (`Rewards.CalculateBlockRewards`, credit by credit, whichever fails), **reward at most once,
   exactly when, over runs** (`Blocks.RewardedAtMostOnce`), **no over-award** (`Rewards.NeverOverAwards`,
   `Rewards.LoggedWithinReward`), and all of it in the manager loop: every turn, whatever fails in it, keeps the books
   solvent up to what failing updates and statements left behind (`Manager.Manager.RunPass`).  The same turn in the
   nodes' and shares' own numbers: what each row becomes (`Blocks.SweepIsAsAnswered`), what is credited at most
   (`Manager.EarnedIsReported`), what PPLNS pays (`Schemes.PplnsRewards`), which shares stay (`Manager.Round.SharesLeft`)
   and what a completed payout pass leaves and records (`PayerRuns.CompletedPassRows`, `PayerRuns.CompletedPassRecords`).
6. **Paging refinement, exactly when** (`Shares.PagingVisitsAll`, `Schemes.PagedScanIsUnpaged`).
7. **No share lost or doubled in any interleaving** (`ShareBuffer.NoShareLostOrDoubled`), and **the active index stays
   in range exactly when** at most one thread searches or there is one node (`Failover.InRangeIff`).  The program
   searches from one goroutine only (pool/server.go:55, pool/nodes.go:99), so its index is safe.

## Where the code departs from its evident intent

The model does what the code does; each departure has its exact condition or a concrete input.

- The branch is built for 8 slots but the commitment for 16 (bitcoin/auxMerkelBranch.go:18, pool/work.go:22): where the
  commitment is found, such a proof is never accepted (`MergedMining.AcceptedIffSameHeight`); the branch ends one level below the committed root
  (`AuxBranch.LowerTreeReachesLeftChild`), and Dogecoin's own slot 8 makes it panic (`AuxBranch.DogecoinOutsideBranchTree`).
- Mask and branch count are printed in decimal and are right exactly below ten (`AuxBranch.DecimalTexts`); from ten on
  no proof reads out of the text (`MergedMining.AuxPowReadsBack`).
- A compact size of 253 panics (`Encoding.VarUintIsCompactSize`): so do a coinbase script of 253 bytes, an output
  script of 253 bytes, and a block of 253 transactions (`Coinbase.InitialTextBytes`, `Coinbase.TransactionOutBytes`,
  `Block.SubmissionIsBlock`).
- Heights from 2^63 on overrun the nine-byte buffer (`Coinbase.HeightRoundTrip`).
- The full reward is written into three outputs, so the outputs add up to the coinbase value only when it is zero
  (`Coinbase.OutputsSpendThreefold`).
- A transaction id of odd length silently becomes the empty text and counts as an empty hash
  (`Merkle.OddIdCountsAsEmpty`), so an id list becomes a root exactly when every id of even length is hexadecimal
  (`Merkle.IdsBecomeRootIff`).
- A template version from 2^32 on is cut in the header but printed in full in the job (`Block.JobVersionAgrees`).
- The slot-conflict warning reads the slot of the block's position, not of its chain, so more blocks than slots panic
  (`AuxTree.LeavesOk`).
- Two balances of a chain that resolve to one address overwrite each other before sending, while both are recorded
  (`PayerRuns.SharedAddressUnderpays`); nothing is lost exactly when only zeros are overwritten
  (`PayerRuns.SendManyTotal`, `PayerRuns.NothingLostIff`).
- A payout pass that stops at a later chain has paid the earlier ones but recorded nothing; the next pass pays them
  again (`PayerRuns.InterruptedPassPaysTwice`).  Sent is recorded exactly when a pass that stops sent nothing of value
  and a complete one overwrites only zeros (`PayerRuns.SentIsRecordedIff`, `PayerRuns.NotNegativePassIff`).
- A statement that fails while payments are recorded leaves sent amounts unrecorded, or a recorded payment with its
  balance still standing (`PayerRuns.FaultySentIsRecordedIff`, `PayerRuns.FaultyPassConservesIff`); one that fails behind
  a logged change leaves that change out of its balance for good (`Ledger.AddAmountAgrees`, `PayerRuns.RunsConserve`).
- In exact arithmetic PROP uses up the whole reward and its guard refuses a remainder of zero, so it pays nobody as soon
  as one share is covered (`Schemes.PropRewards`).
- PPLNS never updates its accumulated score: the window caps single shares only, a capped share exhausts the reward, and
  the round fails unless all covered shares together score below the window; then part of the reward goes to nobody
  (`Schemes.PplnsRewards`).  Miners get all of what is left for them exactly with SOLO (`Rewards.MinersGetTheirShare`).
- A block whose update fails after its reward was credited is rewarded again by the next sweep that does not stall
  (`Blocks.RewardedAgainIff`): a block is rewarded once for every failed update and once more when it is saved, so none
  is rewarded twice exactly when none has an update that failed twice, or that failed before another one succeeded
  (`Blocks.RewardedAtMostOnce`).
- A block whose reward calculation ends with an error is saved as confirmed and never tried again, so credits behind a
  failing one are lost (`Manager.FailedRewardIsNeverRetried`).
- One pending block the node cannot answer for, or whose coinbase does not match, stops the sweep for all
  (`Blocks.OneBadBlockStallsSweep`), and nothing else does (`Blocks.ClassifiedIffAnswered`).
- A page boundary between shares of one timestamp skips shares (`Shares.PagingVisitsAll`, `Shares.TieSkipsShare`).

## Model

| member | source | states |
|---|---|---|
| Encoding.FromLEOfLE | bitcoin/encoding.go:47-99 | for every value and width, bytes written least significant first read back as the value modulo 256^width: the truncation of the conversions to uint16, uint32 and uint64 |
| Encoding.LEOfFromLE | bitcoin/encoding.go:47-99 | conversely every byte string is what writing its value in its width yields |
| Encoding.FourByteNumber | bitcoin/encoding.go:47-99 | four bytes and their number written out: b0 + 2^8 b1 + 2^16 b2 + 2^24 b3, both ways |
| Encoding.VarUintIsCompactSize | bitcoin/encoding.go:17-38 | for every 64-bit value, varUint succeeds exactly when the value is not 253, and then writes the CompactSize of the Bitcoin developer reference |
| Encoding.CompactSizeRoundTrip | bitcoin/encoding.go:17-38 | for every 64-bit value and every suffix, reading what was written gives the value and exactly the suffix |
| Encoding.VarUintShortest | bitcoin/encoding.go:17-38 | no byte string in any of the four forms that reads back as the value is shorter than what varUint writes |
| Encoding.VarUintPrefixFree | bitcoin/encoding.go:17-38 | the codes are prefix-free: if two codes start one stream, values and remainders agree |
| Encoding.ReverseBytes | utils/byte.go:3-9 | the loop fills a fresh slice with the bytes in opposite order |
| Encoding.Reverse | bitcoin/encoding.go:124-132 | the same result, written from the far end |
| Encoding.ReverseHexBytes | bitcoin/encoding.go:134-144 | two-character groups in opposite order; an error exactly on odd length |
| Encoding.ReverseHex4Bytes | bitcoin/encoding.go:146-158 | eight-character groups in opposite order; an error exactly when the length is not a multiple of 8 |
| Encoding.PairsReversedInvolution | bitcoin/encoding.go:134-144 | reversing byte pairs twice changes nothing |
| Encoding.WordsReversedInvolution | bitcoin/encoding.go:146-158 | reversing 4-byte words twice changes nothing |
| Encoding.JobPrevHashAgrees | bitcoin/encoding.go:134-158 | swapping the bytes of every word of the job's previous hash gives the byte order the header uses |
| Encoding.PairsReversedDecodes | bitcoin/encoding.go:134-144 | reversing the text pairwise is reversing the bytes it stands for |
| Merkle.TemplateMerkleBranchSteps | bitcoin/merkle.go:20-59 | for every list of texts, terminates, fails exactly when a text behind the first is not hexadecimal, and returns the right-hand neighbours met on the way up from an unknown leaf in front |
| Merkle.JoinLevel | bitcoin/merkle.go:42-53 | one level of joins from index 2 on, with an odd last text paired with itself; fails exactly when some text does not decode |
| Merkle.MakeHeaderMerkleRoot | bitcoin/merkle.go:77-92 | climbs the steps with the running value on the left, or fails on the first text that is not hexadecimal |
| Merkle.MerkleSteps | bitcoin/merkle.go:9-18 | the steps over the byte-reversed ids, an odd-length id counting as empty |
| Merkle.IdsBecomeRootIff | bitcoin/merkle.go:9-18 | for every id list: it becomes a root exactly when the coinbase and every id of even length are hexadecimal, and then the full root over the byte-reversed ids, an odd-length id counting as empty |
| Merkle.OddIdCountsAsEmpty | bitcoin/merkle.go:10-15 | concrete input: the id "abc" becomes the empty text, and the job is built over an empty hash without an error |
| Merkle.StepsFoldToRoot | bitcoin/merkle.go:20-92 | for every leaf and every list, climbing the compressed steps gives the root of the full Bitcoin Merkle tree with odd last nodes doubled |
| Merkle.StepCount | bitcoin/merkle.go:20-59 | the number of steps is ceil(log2(n + 1)) for n transactions |
| Merkle.StratumRefinement | bitcoin/merkle.go:20-92 | for every coinbase text and id list, steps then root succeed exactly when all are hexadecimal, and equal the full root over the coinbase hash and all ids |
| AuxTree.ExpectedIndex | bitcoin/auxMerkelBranch.go:37-45 | with every step wrapping at 32 bits, a slot below 2^h |
| AuxTree.WrappingIsInvisible | getExpectedIndex.py:2-7 | for all h below 32 and every id, the wrapping computation equals the unbounded one with nonce 0 |
| AuxTree.SlotFormula | bitcoin/auxMerkelBranch.go:37-45 | the slot of every id is ((12345 + id) * 1103515245 + 12345) mod 2^h |
| AuxTree.SlotCollision | bitcoin/auxMerkelBranch.go:37-45 | two ids share a slot exactly when they are congruent modulo 2^h |
| AuxTree.BuildMerkleLeaf | bitcoin/auxMerkelBranch.go:47-68 | fills the slots in place in block order; malformed hash, missing warning slot or missing own slot end it as in the code; unclaimed slots are 32 zero bytes |
| AuxTree.LeavesOk | bitcoin/auxMerkelBranch.go:47-68 | leaves exist exactly when every block has a hexadecimal hash, a position and a slot inside the tree |
| AuxTree.PlaceLast | bitcoin/auxMerkelBranch.go:50-59 | every slot ends up with its last claimant's reversed hash, or as it was |
| AuxTree.PlaceWider | bitcoin/auxMerkelBranch.go:47-68 | blocks that fit a smaller tree stand in the left part of a bigger one, and the rest stays empty |
| AuxTree.BuildMerkleRoot | pool/work.go:38-68 | the root of the full tree over the leaves; a panic when there are none |
| AuxTree.PairLevel | pool/work.go:53-64 | one level of the full tree, an odd last node joined with itself |
| AuxTree.BranchFoldsToRoot | bitcoin/auxMerkelBranch.go:88-99 | for every tree of 2^k leaves and every index, climbing from the leaf along its neighbours reaches the root |
| AuxBranch.DecimalTexts | bitcoin/auxMerkelBranch.go:27-83 | the decimal mask and count texts are the intended little-endian bytes exactly below ten |
| AuxBranch.LastMatch | bitcoin/auxMerkelBranch.go:80-86 | the search ends with the last slot holding the hash, and with none exactly when no slot does |
| AuxBranch.BuildMerkleBranchesAndMask | bitcoin/auxMerkelBranch.go:70-101 | branch and mask of the last slot holding the block's hash; panics and the empty result on malformed hashes as in the code |
| AuxBranch.ClimbFrom | bitcoin/auxMerkelBranch.go:89-99 | the level loop returns the neighbours on the way up, one a level |
| AuxBranch.MaskProves | bitcoin/auxMerkelBranch.go:70-101 | whenever the hash stands in a slot, the branch climbs along the mask to the root of that tree |
| AuxBranch.MaskIsSlot | bitcoin/auxMerkelBranch.go:58-86 | in every tree the blocks fit, whatever its size, the hash stands in the slot of the index height and the mask is that slot |
| AuxBranch.MaskIsExpectedSlot | bitcoin/auxMerkelBranch.go:37-101 | with one height on both sides and ids, hashes as required, the mask of every block is the slot its chain expects |
| AuxBranch.DistinctSlots | bitcoin/auxMerkelBranch.go:37-68 | ids pairwise distinct modulo 2^h get distinct slots, and the leaves exist |
| AuxBranch.RootSplit | pool/work.go:51-67 | the root over two halves is the hash of the halves' roots |
| AuxBranch.LowerTreeReachesLeftChild | bitcoin/auxMerkelBranch.go:17-31 | a branch from a tree one level lower than the committed one only reaches the left child of the committed root |
| AuxBranch.DogecoinOutsideBranchTree | bitcoin/auxMerkelBranch.go:17-31 | concrete input: chain id 0x62 falls into slot 8 of 16, commits, and panics with 8 slots |
| AuxBranch.MakeAuxChainMerkleBranch | bitcoin/auxMerkelBranch.go:17-31 | count text, concatenated branch and mask, for any tree size the caller passes |
| Coinbase.EncodeNumber | bitcoin/coinbase.go:25-49 | for every 64-bit height, fills the buffer in place with the height push, or panics when nine digits are needed |
| Coinbase.HeightDigits | bitcoin/coinbase.go:36-45 | little-endian digits of the number with the top byte at most 0x7f |
| Coinbase.HeightRoundTrip | bitcoin/coinbase.go:25-49 | encoding succeeds exactly below 2^63, and then the BIP 34 reader gives the height back, whatever follows |
| Coinbase.HeightIsMinimal | bitcoin/coinbase.go:25-49 | above 16 the first byte is the data length, the top byte at most 0x7f, and no script number for the height is shorter |
| Coinbase.CoinbaseInitial | bitcoin/coinbase.go:51-85 | version, null input, declared script length and height push as text, or the panic of the height or of length 253 |
| Coinbase.InitialTextBytes | bitcoin/coinbase.go:51-85 | the text exists exactly when the height is below 2^63 and the declared length is not 253, and decodes to the standard bytes |
| Coinbase.TransactionOutBytes | bitcoin/transaction.go:3-6 | an output text exists exactly when its script is not 253 bytes long, and decodes to the standard output |
| Coinbase.PubKeyScriptBytes | bitcoin/coinbase.go:124-144 | for every hexadecimal key the script text is the pay-to-public-key-hash script |
| Coinbase.CoinbaseTransactionOutputs | bitcoin/coinbase.go:146-174 | succeeds exactly for payable keys and commitments; count and text of the outputs for every commitment, and for a hexadecimal one the standard outputs: the commitment first if any, then the full reward three times |
| Coinbase.OutputsSpendThreefold | bitcoin/coinbase.go:158-171 | the outputs total three times the coinbase value, so they equal it exactly when it is zero |
| Coinbase.CoinbaseFinal | bitcoin/coinbase.go:94-111 | the text of sequence, count, outputs and lock time, decoding to the tail of the standard transaction when the commitment is hexadecimal |
| Coinbase.CoinbaseIsOneTransaction | bitcoin/coinbase.go:51-174 | initial, extranonce and final text are exactly one transaction with one null input, the declared script length equal to the script written, and nothing left over |
| Block.BlockHeader | bitcoin/header.go:9-47 | fails exactly when a field is not hexadecimal; else all fields but the root byte-reversed behind the 32-bit version |
| Block.HeaderTextIsHeader | bitcoin/header.go:9-47 | fields of standard size give 80 bytes that read back as one header, the version cut to 32 bits |
| Block.BitcoinBlock.MakeHeader | bitcoin/generator.go:62-94 | new coinbase and header fields in every outcome: which error keeps the old header and which blanks it |
| Block.BitcoinBlock.Sum | bitcoin/generator.go:114-142 | the digest as a little-endian number, its reversed text in the hash field, and which errors leave that field alone |
| Block.BitcoinBlock.Submit | bitcoin/generator.go:144-161 | header, count, coinbase, transaction data, then the extension block if there is one; errors and panics included |
| Block.BuildJob | bitcoin/generator.go:30-45 | a template becomes a job exactly when hash length, height, script lengths, key and ids allow it, with these texts, and otherwise fails for the first part that does not |
| Block.Generator.GenerateWork | bitcoin/generator.go:19-60 | a fresh block object and a job with the same texts and the printed job number, version and time; which chain names, templates and texts succeed and the reason of each failure; a counter that grows exactly on success |
| Block.HeaderCommits | bitcoin/generator.go:62-94 | for every well-formed template and well-sized submission, the coinbase is one transaction and the header is the header whose root covers it and all template ids |
| Block.MinedOutputs | bitcoin/coinbase.go:146-174 | the outputs of a mined coinbase one by one: commitment without value if any, then the template's value to the key's hash, to the key text itself and to the bytes aa aa |
| Block.MinerBuildsSameHeader | bitcoin/generator.go:47-55 | what a miner builds from the job, reading the previous hash word by word, is the pool's header, and the job's version text gives its version bytes exactly below 2^32 |
| Block.JobVersionAgrees | bitcoin/generator.go:53 | the printed version has the eight digits of a header field exactly when it fits 32 bits, and then reads backwards as the version the header uses |
| Block.JobTimeAgrees | bitcoin/generator.go:55 | the unpadded time has the eight digits of a header field exactly from 16^7 to 2^32, and then names that time |
| Block.SubmissionIsBlock | bitcoin/generator.go:144-161 | the submission exists exactly when the block has not 253 transactions, is hexadecimal exactly when the extension block is, and reads back as one block: header, coinbase, template transactions in whatever form, and behind them exactly the extension block |
| Block.HeaderRootCoversBlock | bitcoin/submission.go:20-40 | when each template id is the byte-reversed digest of its transaction's plain form, the submitted header's root is the full root over the digests of exactly the submitted transactions |
| Block.SubmittedBlockIsCommitted | bitcoin/generator.go:62-161 | from job and share to submission: it reads back exactly without 253 transactions and with a hexadecimal extension block, as the mined coinbase and all template transactions under a header whose root is the full root over them |
| MergedMining.CreateMergedMiningCoinbase | pool/work.go:18-35 | the commitment exists exactly when every block fits, and holds magic, reversed root, size and nonce; the scan for fa be 6d 6d finds it at its start, and its text starts with "fabe6d6d" |
| MergedMining.CommitmentReads | pool/work.go:71-88 | the fields behind the first magic bytes read back as the committed root, size and nonce |
| MergedMining.MagicAtCommitment | pool/work.go:71-81 | a script in which 0xfa does not come before the commitment has its first fa be 6d 6d there |
| MergedMining.CommitmentFirstIff | pool/work.go:71-81 | the first magic bytes of a script that ends in the commitment are the commitment's exactly when none start in front of it |
| MergedMining.MagicInExtranonce | pool/work.go:151-157 | concrete family: an extranonce whose second half is the magic bytes has them in front of the commitment, so the commitment's are not the first |
| MergedMining.CommitmentFound | pool/work.go:21-81 | an auxiliary chain that scans the coinbase script finds exactly the committed root, size and nonce |
| MergedMining.AcceptedIffSameHeight | bitcoin/auxpow.go:11-24 | the proof built by the pool, as data, passes the check of the merged mining specification exactly when branch and commitment use one tree height |
| MergedMining.SerializeParentBranch | bitcoin/auxpow.go:49-55 | count, hashes and zero index; the panic on 253 hashes |
| MergedMining.MakeAuxPow | bitcoin/auxpow.go:11-32 | the five parts in order from the block's fields, or the panic without hash or template |
| MergedMining.AuxPowReadsBack | bitcoin/auxpow.go:26-55 | for every tree and slot: the text reads as one proof with nothing left over exactly when slot and branch count are below ten, and then as the proof it was made from |
| MergedMining.AuxBranchTooLong | bitcoin/auxMerkelBranch.go:27-34 | from ten on, an auxiliary branch text that decodes at all is longer than its own count byte says |
| MergedMining.ParentBranchProves | bitcoin/auxpow.go:17-23 | whatever the auxiliary trees look like, the coinbase hash folded with the parent branch is the Merkle root in the header |
| MergedMining.ScriptEndsInCommitment | pool/work.go:108-121 | the coinbase script is everything in front of the commitment, then the commitment |
| MergedMining.MinedShareIsAccepted | pool/work.go:91-129 | from job and every submission to the serialized proof, for all tree heights: when the text exists, when it reads back whole and ties coinbase to header, that it is accepted exactly when the fields behind the first magic bytes name the branch's root, height and slot, and, when these are the commitment's, exactly when it reads back and both heights are the same |
| ShareCheck.NumberOfText | bitcoin/target.go:16-18 | every integer reads back from its hexadecimal text |
| ShareCheck.SignedTexts | bitcoin/target.go:16-18 | which texts are numbers at all: digits, at least one, behind one sign at most; and which number |
| ShareCheck.DifficultyOfNumber | bitcoin/target.go:14-36 | a target's difficulty is the highest target 00000000ffff00..00 over it, infinite exactly for zero |
| ShareCheck.TargetIsBigEndian | bitcoin/target.go:16-18 | a target of whole bytes is read most significant byte first |
| ShareCheck.AuxTargetIsLittleEndian | pool/share.go:36-37 | an auxiliary target is read least significant byte first |
| ShareCheck.CreditedBound | bitcoin/target.go:20-52 | for every positive difficulty d: the credited one is infinite exactly above the highest target, else d <= d' < d * (1 + 1/t) with t the floored pool target |
| ShareCheck.FlagChains | pool/share.go:23-43 | one flag a chain, set exactly when the sum is at most its target, or both are missing; the panics of nil and odd-length targets |
| ShareCheck.ValidateAndWeighShare | pool/share.go:13-55 | status, flags and credited difficulty, exactly when it panics, and the hash left in the block; a digest that is nil cannot arise after a successful header |
| ShareCheck.SolvesByBytes | pool/share.go:30-43 | with targets of whole bytes every comparison goes through, in the byte order of its chain |
| ShareCheck.Classification | pool/share.go:45-54 | candidate exactly when the sum is at most some chain's target; valid exactly when it is not and the sum is at most the floored pool target |
| Extranonce.RandomHex | pool/extraNonce.go:29-37 | one lower-case digit a random number, in order |
| Extranonce.Extranonces.Unique | pool/extraNonce.go:10-27 | the first draw not used before; over the whole run no text is handed out twice |
| Extranonce.DifferentReservedBytes | pool/extraNonce.go:10-27 | pool and miner parts fill the reserved bytes, and different pool parts always give different bytes |
| ShareBuffer.NextAccounts | pool/buffer.go:19-36 | every single action keeps each accepted share in exactly one place, and only appends to table and history |
| ShareBuffer.NoShareLostOrDoubled | pool/buffer.go:19-36 | in every interleaving of appends, swap, all-or-nothing write and put-back: accepted = stored + in flight + buffered, as multisets |
| ShareBuffer.QuietTurnStoresAll | pool/buffer.go:19-36 | after any history, one undisturbed successful turn leaves every share ever accepted in the table |
| ShareBuffer.PoolServer.Receive | pool/work.go:181-193 | the locked append is the machine's accept action |
| ShareBuffer.PoolServer.Take | pool/buffer.go:23-26 | the first locked section takes the whole buffer |
| ShareBuffer.PoolServer.Write | pool/buffer.go:28 | stores all of the batch or none |
| ShareBuffer.PoolServer.PutBackRefused | pool/buffer.go:31-33 | puts a refused batch behind what came in meanwhile |
| ShareBuffer.PoolServer.Turn | pool/buffer.go:20-35 | one turn with arrivals during the write: what is left in buffer and table, every share accounted for |
| Failover.Manager.NextNode | rpc/manager.go:89-95 | the next index in the ring, the old one plus one modulo the number of nodes |
| Failover.Manager.RestorePrimary | rpc/manager.go:57-59 | index zero |
| Failover.Manager.FindHealthyNode | rpc/manager.go:61-75 | at most one probe a node; succeeds exactly when some node is healthy, at the first healthy one after the current in ring order; on error the index is where it was |
| Failover.Manager.CheckAndRecover | rpc/manager.go:35-55 | keeps a healthy node; otherwise succeeds exactly when some node is healthy, moves to the first one behind the current, and leaves a watcher exactly when it moved |
| Failover.UndisturbedIsNextNode | rpc/manager.go:89-95 | the memory accesses of one undisturbed search step are the sequential step |
| Failover.TwoFindersCollide | rpc/manager.go:89-95 | with two searching threads and two nodes or more, some interleaving takes the index past the end |
| Failover.InRangeIff | rpc/manager.go:57-95 | the index stays in range in every interleaving with restores exactly when at most one thread searches or there is one node |
| Shares.ShareTable.InsertBatch | persistence/share.go:27-60 | all shares or none |
| Shares.ShareTable.GetSharesBefore | persistence/share.go:62-95 | the row loop returns the newest matching shares up to the page size |
| Shares.ShareTable.DeleteSharesBefore | persistence/share.go:160-170 | drops this pool's older shares, or nothing when the statement fails |
| Shares.KeptExact | persistence/share.go:160-170 | exactly this pool's shares older than the bound are dropped, every other row stays as often as it was |
| Shares.SortedIsPermutation | persistence/share.go:64 | the query's order is newest first and a permutation of the rows |
| Shares.BelowIsExact | persistence/share.go:65-69 | the cursor condition cuts a descending list exactly at its bound |
| Shares.VisitedFits | payouts/prop.go:24-57 | ties or not, paging sees no row twice |
| Shares.PagingVisitsAll | payouts/prop.go:24-57 | for every page size, paging visits every row once and in order exactly when no page ends between rows of one timestamp |
| Shares.TieSkipsShare | payouts/prop.go:50-56 | for every page size: when the first page ends inside a timestamp, the row behind it is seen less often than it is stored |
| Shares.DistinctTimesNoTies | payouts/prop.go:24-57 | distinct timestamps never tie at a page boundary |
| Shares.NextPage | payouts/prop.go:56 | asking again below the last row continues exactly where the page ended |
| Ledger.Tables.AddAmount | persistence/balance.go:31-95 | new log and balances in every outcome of its three statements, through the insert and the update path |
| Ledger.Tables.InsertPayment | persistence/payment.go:24-36 | appends one payment and nothing else |
| Ledger.AddAmountAgrees | persistence/balance.go:31-95 | books in which every balance is the sum of its changes stay so exactly when no statement failed behind the logged change, or the amount is zero |
| Ledger.AddAmountTotals | persistence/balance.go:31-95 | one call moves balances and credits of its own pool and chain by the amount, and of no other |
| Ledger.BalancedWithoutSlips | persistence/balance.go:31-95 | books are in order up to nothing left behind exactly when every balance is the sum of its log and every pool and chain conserves money |
| Ledger.CreditBalanced | persistence/balance.go:31-95 | whichever of its three statements fails, a credit keeps the books in order up to the one change that missed its balance |
| Crediting.CreditAllLogs | payouts/pplns.go:74-86 | of a list of credits exactly those up to the failing one reach the log, in their order, and no payment changes |
| Crediting.CreditAllBalanced | payouts/pplns.go:74-86 | a list of credits keeps the books in order up to what its failing credit leaves behind |
| Crediting.CreditBoth | payouts/rewards.go:14-21 | two lists tried one behind the other are one list: the second starts exactly when the first went through |
| Crediting.ListedSums | payouts/pplns.go:74-86 | whatever order Go's map iteration takes, every address gets its own amount once and all together the total |
| Schemes.CoveredExact | payouts/prop.go:19-25 | a scan starts on exactly this pool's shares created at or before the block, newest first |
| Schemes.CoveredCounts | payouts/prop.go:19-25 | each of them as often as it is stored |
| Schemes.ScanStep | payouts/prop.go:50-56 | one page keeps the scan on course, and the shares left below the cursor get fewer |
| Schemes.PagedScanIsUnpaged | payouts/prop.go:24-57 | the paged scan is the unpaged one exactly without ties at page ends, and its cutoff is the newest covered share |
| Schemes.TalliedTotal | payouts/prop.go:35-48 | all miners together have what all shares are worth |
| Schemes.TallyPage | payouts/prop.go:35-48 | adds one page to every miner's score, the total and the cutoff |
| Schemes.ScanProp | payouts/prop.go:24-57 | terminates with the scores, total and cutoff of the shares visited; a score is the sum of the miner's difficulties, each over its network difficulty |
| Schemes.SplitProp | payouts/prop.go:59-68 | rewards proportional to scores; with any share at all, nothing remains |
| Schemes.WholeReward | payouts/prop.go:59-68 | for every non-empty list of shares the proportional split is the whole reward |
| Schemes.PropRewards | payouts/prop.go:14-88 | in exact arithmetic it succeeds exactly when no share is covered and the reward is positive, and never changes the books |
| Schemes.AwardAll | payouts/pplns.go:74-86 | in some map order, every miner is credited its own amount until a statement fails, and the result says whether one did |
| Schemes.CappedRefused | payouts/pplns.go:49-61 | a share that reaches the window always uses up what is left |
| Schemes.UncappedIff | payouts/pplns.go:55-61 | below the window, something is left exactly when the reward is positive and scores stay below the window |
| Schemes.PplnsShare | payouts/pplns.go:43-63 | one share capped, paid and checked |
| Schemes.PplnsPage | payouts/pplns.go:43-63 | one page of shares, refused exactly when the scheme does not pay |
| Schemes.ScanPplns | payouts/pplns.go:32-72 | terminates, succeeds exactly when the scheme pays, and then sum of rewards + remaining = reward over all pages |
| Schemes.PplnsRewards | payouts/pplns.go:17-89 | the scheme pays exactly without shares or with a positive reward and quotients difficulty / network difficulty that sum to less than 2; then every miner is credited its quotients * reward / 2, in some order until a statement fails, else the books are untouched; at one network difficulty d a positive reward is paid exactly when the difficulties sum to less than 2 d, at own difficulties * reward / (2 d) |
| Schemes.WorkInWindow | payouts/pplns.go:47-56 | at one network difficulty d: the quotients sum to less than 2 exactly when the difficulties sum to less than 2 d, and pay own difficulties * reward / (2 d) |
| Schemes.QuotientsPayByWork | payouts/pplns.go:43-61 | a split by quotients is, at every single network difficulty, paid and shared by work: a positive reward exactly below two network difficulties of work, each miner own difficulties * reward / (2 d) |
| Schemes.PplnsNeverOverAwards | payouts/pplns.go:28-61 | a paying round hands out at most the reward, and strictly less of a positive one |
| Rewards.CalculatePoolReward | payouts/rewards.go:23-53 | recipients are credited their percentages one by one, the node's own address passed over, until a statement fails; what is left is returned; the exact failure condition |
| Rewards.RecipientGetsItsShare | payouts/rewards.go:30-50 | a recipient listed once gets exactly its percentage, the node's own address and strangers get nothing |
| Rewards.RecipientIsCredited | payouts/rewards.go:30-50 | for a block: a recipient listed once is credited its percentage on top of what it mined, and nothing on top exactly when it is the address the active node pays to |
| Rewards.TakenWithin | payouts/rewards.go:30-50 | with percentages that are not negative and sum to at most one, credited <= taken <= reward |
| Rewards.CalculateMinerRewards | payouts/rewards.go:55-59 | which miners a scheme credits what (SOLO: the finder the whole rest; PPLNS: each miner its scores), one by one until a statement fails, and for all three schemes exactly when it succeeds |
| Rewards.PplnsCredit | payouts/pplns.go:43-61 | what a miner is credited for a block with PPLNS: its difficulties, each over its network difficulty, times half of what the recipients left, when the round pays, and else nothing |
| Rewards.CalculateBlockRewards | payouts/rewards.go:14-21 | the books after everything tried for one block, credit by credit, whichever statement fails; exactly when it succeeds, and the cutoff returned |
| Rewards.BlockCreditsSums | payouts/rewards.go:14-59 | the credits of a block together are, for every address, its percentages plus what the scheme gives it, whatever the order |
| Rewards.LoggedAs | payouts/rewards.go:43-46 | every logged credit of a block names the pool, the block's chain, the address, its amount and the block's height |
| Rewards.LoggedWithinReward | payouts/rewards.go:14-59 | whichever statement fails, what reaches the log for a block lies between zero and its reward |
| Rewards.NeverOverAwards | payouts/rewards.go:14-59 | for every scheme and outcome, all credits for one block together stay between zero and its reward |
| Rewards.MinersGetTheirShare | payouts/rewards.go:55-59 | the miners get all of a positive rest exactly with SOLO, and anything exactly with SOLO or a paying PPLNS round with a share |
| Blocks.ClassifyBlocks | payouts/unlock.go:31-100 | block by block: confirmed with the reported amount when mature, pending with the reported amount when immature, orphaned with zero otherwise, no other field touched; an error exactly when a block has no answer |
| Blocks.GetConfirmed | persistence/found.go:37-45 | the confirmed blocks in order |
| Blocks.SaveAllIsSwept | payouts/manager.go:49-54 | updating by id is, row by row, replacing pending blocks of the pool by their verdict |
| Blocks.StepEvolves | payouts/unlock.go:83-96 | statuses only leave pending, final rows never change, whatever nodes say and updates do |
| Blocks.AttemptedIds | payouts/manager.go:29-35 | rewards are calculated exactly for the pending blocks that just matured, each once a sweep |
| Blocks.StepAccounted | payouts/manager.go:16-54 | every turn, whichever updates fail, keeps the account: calculations started = blocks that stand as confirmed + updates of matured blocks that failed, as multisets |
| Blocks.AtMostOnceIff | payouts/manager.go:16-54 | in accounted tables, no calculation was started twice exactly when no block's update failed twice or failed before it was saved; without a failed update every started block stands as confirmed |
| Blocks.RewardedAtMostOnce | payouts/manager.go:16-54 | over every run of arrivals and sweeps, whichever updates fail: each block's reward is calculated once if it stands as confirmed and once for every failed update of it, with the exact condition under which none is calculated twice |
| Blocks.RewardedAgainIff | payouts/manager.go:49-54 | a block rewarded in one sweep is rewarded in the next as well exactly when its update failed, the nodes answer for all pending blocks the second time, and it still counts as mature |
| Blocks.SavesAllIff | payouts/manager.go:49-54 | a sweep adds no failed update exactly when it stalls or the updates of all matured blocks succeed |
| Blocks.OneBadBlockStallsSweep | payouts/unlock.go:31-100 | one pending block without an answer leaves all blocks as they were; otherwise every row gets its verdict |
| Blocks.SweepIsAsAnswered | payouts/manager.go:21-54 | a sweep in the nodes' own answers, row by row: what a pending block of the pool whose update succeeds becomes, and that all else is untouched |
| Blocks.ClassifiedIffAnswered | payouts/unlock.go:34-99 | the sweep goes through exactly when no pending block of the pool is without an answer |
| Blocks.SettledForEver | payouts/unlock.go:83-96 | over every later run, whichever updates fail, a row that left pending stands unchanged |
| Blocks.MaturedIsSettled | payouts/manager.go:29-54 | a matured block whose update succeeds is confirmed for ever and attempted in no later sweep |
| Payer.SplitDashed | payouts/payer.go:121 | a login of one address a chain splits back into those addresses |
| Payer.FindBalanceAddress | payouts/payer.go:117-145 | the part of the login at the chain's position; error for an unknown chain, panic for a missing part |
| Payer.PaidAtOwnAddress | payouts/payer.go:117-145 | every chain pays the login's own address for that chain |
| Payer.ResolvesTo | payouts/payer.go:117-145 | for every login and chain: the whole login without merged mining or without a dash, else the part at the chain's first position, the error of an unknown chain or the panic of a missing part |
| Payer.CollectDue | payouts/payer.go:17-28 | the balances over threshold, chain by chain: exactly the rows of the pool on a listed chain whose amount is at least the miner's own threshold, or the chain's minimum without one; an error exactly on a missing payout configuration |
| Payer.GroupPayments | payouts/payer.go:75-91 | one output map a chain, later balances replacing earlier ones at one address; fails exactly when an address does not resolve |
| Payer.SendGroups | payouts/payer.go:93-111 | sends chain by chain in any order, stopping at the first refusal; what was sent stays sent |
| Payer.RecordPayment | payouts/payer.go:44-67 | one payment row and one negative change, cut short where a statement fails |
| Payer.RecordPayments | payouts/payer.go:36-68 | all rows in order until one fails |
| Payer.PayoutBalances | payouts/payer.go:16-71 | books, wallet and result of a whole pass in every outcome |
| PayerRuns.RecordOneConserves | payouts/payer.go:50-67 | recording a payment conserves money exactly when the reset is not cut short (or nothing moves) |
| Payer.CollectDueRows | persistence/balance.go:122-155 | for every list of chains: collected are exactly this pool's rows on a listed chain whose amount is at least the miner's own threshold, else the minimum |
| PayerRuns.PassConserves | payouts/payer.go:16-71 | whatever the nodes answer, a pass without failing statement loses and invents nothing |
| PayerRuns.PaidBalancesAreZero | payouts/payer.go:36-68 | a completed pass leaves zero at every key that was due and the old amount at every other |
| PayerRuns.CompletedPassRows | payouts/payer.go:16-71 | after a completed pass, row by row: zero on a listed chain at or over the miner's own threshold, else the minimum; every other row as it was |
| PayerRuns.CompletedPassRecords | payouts/payer.go:36-68 | a completed pass appends, for each collected row in order, one payment with its pool, chain, resolved address, amount and its chain's transaction, and one change that takes the amount off, and nothing else |
| PayerRuns.SendManyTotal | payouts/payer.go:78-91 | for all amounts: what is sent for a chain plus what is overwritten is what is due |
| PayerRuns.NothingLostIff | payouts/payer.go:89 | without negative balances nothing is lost exactly when only zeros are overwritten |
| PayerRuns.SharedAddressUnderpays | payouts/payer.go:89 | concrete input: two logins with one address, two coins owed, one sent |
| PayerRuns.SentEqualsRecorded | payouts/payer.go:16-114 | a completed pass records the due total a chain, and sends it less the balances overwritten |
| PayerRuns.PassAccounts | payouts/payer.go:16-114 | for every answer of the nodes and every failing statement, what a pass sends and what it records for each chain |
| PayerRuns.SentIsRecordedIff | payouts/payer.go:93-114 | for all amounts and every answer of the nodes, sent is recorded on all chains exactly when a pass that stops sent nothing in total on any chain, or a complete one overwrote nothing in total |
| PayerRuns.NotNegativePassIff | payouts/payer.go:93-114 | without negative balances: exactly when a pass that stops sent only zeros, or a complete one overwrites only zeros |
| PayerRuns.PositivePassIff | payouts/payer.go:93-114 | with positive balances: exactly when nothing was sent, or everything was and no address is paid twice |
| PayerRuns.FaultySentIsRecordedIff | payouts/payer.go:36-68 | under every failing statement of a complete pass: exactly when on each chain the overwritten amount is the unrecorded one |
| PayerRuns.FaultyDistinctIff | payouts/payer.go:36-68 | with positive balances at distinct addresses: exactly when no payment was left out |
| PayerRuns.FaultyPassConservesIff | payouts/payer.go:50-67 | a pass conserves money exactly when no reset of a balance other than zero fails behind its payment |
| PayerRuns.PassBalanced | payouts/payer.go:16-71 | a pass keeps the books in order up to the reset it cut short, whatever the nodes answer and whichever statement fails |
| PayerRuns.InterruptedPassPaysTwice | payouts/payer.go:93-108 | a pass that stops at a later chain, then a complete one, in whatever orders: the earlier chain is paid twice and recorded once |
| PayerRuns.ApplyKeeps | payouts/payer.go:16-71 | every credit and every pass, whichever statement fails, keeps the books in order up to what was left behind |
| PayerRuns.RunsConserve | payouts/payer.go:16-114 | after any sequence of credits and passes under every failing statement, for each pool, chain and address: what separates a balance from its log, and credits from balances + recorded payments, is exactly what failing statements left behind; so agreement and conservation hold exactly when that adds up to nothing, and always when no statement failed |
| PayerRuns.NoFaultNoSlips | payouts/payer.go:36-68 | a credit or pass leaves something behind only when a statement fails behind a logged change or a recorded payment |
| Manager.EarnedBySweep | payouts/manager.go:49-54 | what a sweep adds to what is earned, with the matured blocks it fails to save, is exactly what newly matured |
| Manager.EarnedIsReported | payouts/unlock.go:83-96 | what newly matured blocks bring in is the sum of the amounts the nodes report for the pool's pending blocks they call mature |
| Manager.FailedRewardIsNeverRetried | payouts/manager.go:29-54 | a block whose calculation ends with an error, by scheme or statement: who is still credited, and that it is saved as confirmed and attempted in no later sweep of any run |
| Manager.Round.WithinEarned | payouts/manager.go:29-46 | whatever fails, what reaches the log for any list of confirmed blocks is no more than they earned, pool by pool and chain by chain |
| Manager.Round.Logs | payouts/manager.go:29-46 | rewarding blocks in turn adds to the log exactly each block's credits up to its failing one, in order |
| Manager.Round.Balances | payouts/manager.go:29-46 | rewarding blocks in turn keeps the books in order up to what their failing credits left behind |
| Manager.Round.CreditsEveryKey | payouts/manager.go:29-46 | without failing statements the log grows, key by key, by exactly what the blocks are to credit |
| Manager.PassCreditsNothing | payouts/manager.go:57 | a payout pass, whichever statement fails, adds nothing to the credits |
| Manager.OwedPlusPaidWithinEarned | payouts/manager.go:12-63 | what is owed and what was paid never exceed what confirmed blocks brought in, but for blocks rewarded without being saved and balances paid without being reset |
| Manager.Manager.Insert | persistence/found.go:51-62 | a new pending block keeps the tables valid |
| Manager.Manager.RewardConfirmed | payouts/manager.go:29-46 | books after rewarding the confirmed blocks in turn, with failing statements, failing deletions and arriving shares; and the share table, share by share: one that no calculation deletes stays as often as it was stored and came in, a deleted one as often as it came in since |
| Manager.Round.SharesLeft | payouts/manager.go:35-44 | after any number of calculations, how often each share is stored: SOLO deletes the pool's shares older than the block when every credit and the deletion go through, and nothing else is deleted |
| Manager.Round.NoOldShareStays | payouts/solo.go:19 | with SOLO and without failing statements, every share of the pool left that is older than a rewarded block came in after that block's calculation |
| Manager.Round.AllSharesStay | payouts/manager.go:35-45 | with PROP and PPLNS the share table is the old one followed by what came in |
| Manager.Manager.SaveUpdates | payouts/manager.go:49-54 | one update by id after the other, failures skipped |
| Manager.Manager.Payout | payouts/manager.go:57-61 | the books and wallet of one pass, with order up to what it leaves behind and credits kept |
| Manager.Manager.RunPass | payouts/manager.go:16-62 | one turn of the loop, whatever fails in it: rows as the nodes answered, credits grown by at most the amounts reported for matured blocks, shares, wallet and what failing statements leave behind as specified, and afterwards every calculation accounted for, books in order up to what was left behind, and credits within what confirmed and unsaved blocks brought in |

## Left out

- Manager.Manager.RewardConfirmed: shares arrive between two calculations, not while one of them pages; a failing read of the shares is not modelled.
- Manager.Manager.RunPass: the panic for a confirmed block of a chain without a node manager is not modelled; the sweep before it fails for such a chain.
- Schemes.PropRewards: exact reals; IEEE rounding, which can leave a small positive or negative remainder, is not modelled.
- ShareCheck.CreditedBound: exact rationals; the rounding of big.Float and float64 is not modelled.
- ShareCheck.ValidateAndWeighShare: the chain's share multiplier is a parameter that is not zero.
- Extranonce.Extranonces.Unique: random draws are given and one of them is new, so the loop's termination is assumed; random seeding is not modelled.
- Block.BitcoinBlock.Sum: a block object always has its chain; the error for a missing one is not modelled.
- AuxBranch.MakeAuxChainMerkleBranch: tree size and index height are parameters; the source passes 8 and 4.
- MergedMining.CreateMergedMiningCoinbase: tree size and index height are parameters; the source passes 16 and 4.
- Failover.Manager.FindHealthyNode: the answers of the nodes are fixed during one search; the watcher's sleep and repeated probes are left out.
- Shares.ShareTable.GetSharesBefore: rows of one timestamp come in the table's order; a database may return them in any order.
- Payer.SendGroups: an unknown chain and a refusing node are one outcome, a node without answer.
- Read failures of the database, SQL text, connections and the schema's rounding of amounts.
- RPC, HTTP, ZMQ, TCP, JSON, logging, configuration files, the API and the command line.
- Confirmation progress, block effort, network difficulty and hash rate statistics: averages that change no balance.
- Error texts: an error is a reason, and a Go run-time panic is the reason `Panic`.
- SHA-256, RIPEMD-160 and scrypt internals: parameters of fixed output length.
- Address patterns of the coins, and the uncalled TargetFromBits and removeInsignificantBytesLittleEndian.
- Text is one character a byte; wall-clock time is a number counted from Go's zero time.
- Whether the found-block table rejects duplicates of one mined block: ids come from the database sequence.

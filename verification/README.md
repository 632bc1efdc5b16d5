# Verification of libbitcoin-system

A Dafny model of the consensus and wire logic of libbitcoin-system and of the algorithms under it,
with proofs of what they promise. `dafny verify dfyconfig.toml` checks all of it.

The model follows the program's own division.

- **Commitment and money.** `Merkle` models the tree over transaction ids and the tests of block
  malleation, which fold leaf indexes and never build the tree. `Ledger` models block validation over
  the set of unspent outputs, and bounds the supply over every run of blocks; `Commitment` joins both.
- **Chain state.** `ChainState` models promotion of a header's context by sliding windows against
  what a query from scratch would fetch, and the scans that find required work; `Activation` the rules
  that either activates; `MedianTimePast` the median of the preceding timestamps.
- **Ciphers.** `PolyLimbs`, `PolyFinish` and `Poly1305` model the one time authenticator down to its
  words and lanes; `Field25519`, `X25519` and `Ladder25519` the field and the scalar multiplication;
  `ChaChaBlock`, `ChaCha20`, `Aead` and `ForwardSecure` the stream cipher, authenticated encryption
  and the rekeying protocol.
- **Codecs.** `Base58` (over `Radix`), `Golomb` and `GolombStack` (over `Bits` and `Sorting`), `Base32`
  and `Bech32`, `Calendar` and `Der`, `Script`, and the transaction codec in `Wire`,
  `TransactionCodec`, `TransactionReader`, `TransactionWriter` and `TransactionCache`.
- **Parallel algorithms.** `Execution` models the partition of ranges, reduction and sorting;
  `ThreadPool` the worker pool as a state machine over its locked steps; `NestedPool` algorithms that
  tasks of the pool call.

`Words` holds bitwise operations, saturating sums and little-endian numbers, and `Common` what several
modules share.

Conventions. A method models code that changes variables in a loop and is proved against a function
or a property; what the code promises is proved of that function as lemmas. What a method and its
function share is stated once more in numbers, bits or bytes, or by the vectors of the standards.
Words are integers with their width written out. Merkle hashing is a free constructor, and a
transaction id is the transaction itself, so that both are injective and acyclic. Other digests,
compact difficulty arithmetic and item hashing are function parameters.

Where code and expectation part:

- A serialized transaction with no inputs and exactly one output announces witnesses and is not read
  back (`TransactionCodec.ReadIff` has the exact condition).
- Hashes cached from a block's serialization are those of recomputation except for a coinbase with a
  witness that is not the first transaction (`TransactionCache.CachedAreComputed`).
- With the Litecoin time warp patch, promotion keeps the timestamp before the one that the map
  requests (`ChainState.RunMatchesMap`).
- The bits window after promotion may be longer or shorter than the one that the map requests, from
  genesis at most retarget heights: `ChainState.RunMatchesMap` and `ChainState.GenesisAgrees` have the
  exact heights and settings, and `ChainState.BitsDisagree` one of them. This never changes the work
  required (`ChainState.WorkRequired`).
- Promotion caches the hash of a checkpoint whose forks are not configured, and the map does not
  request it (`ChainState.RunMatchesMap`, `ChainState.HashesDisagree`). The rules of bip9 follow from
  the hash alone, so that the two states can activate different rules: `Activation.RulesAgree` has the
  exact condition, and `Activation.RulesDisagree` an instance.
- The state of a block from that of the pool has no hash, and caches a null one at a checkpoint, where
  its header activates the rules and it does not (`Activation.BlockMatchesRule`,
  `Activation.BlockForgets`).
- A malleated block is said to spend a point twice. It need not if the transactions repeated have no
  inputs (`Commitment.MalleatedSpends`, `Commitment.MalleatedWithoutInputs`), but then these are
  rejected, so that a checked block is never malleated (`Commitment.CheckedNotMalleated`).
- An interval of zero rekeys when a 32 bit counter wraps, and then a message has the rekeying nonce
  (`ForwardSecure.RekeyNonceReserved`, `ForwardSecure.RekeyNonceUsed`).
- Times from 1 January 10000 (253402300800 seconds) are written but not read back (`Der.TimeIff`,
  and `Der.TimeNotRead` for the first of them). Times before 2050 are read with four digits of the
  year too, and then not written as they were read (`Der.SecondsRewritten`, `Der.EpochRewritten`).
- Without bip42 the subsidy restarts, and supply is bounded only if it is zero
  (`Ledger.BoundedIffBip42`).
- The search of a filter for several targets can miss one that it holds, even of two targets
  (`GolombStack.HigherMissed`, `GolombStack.ItemMissed`). No filter of a size is missed if and only if
  the ranges of the targets meet a condition on neighbours (`GolombStack.CompleteIffCovered`).
- A task submitted to the worker pool once all its workers have exited never runs, and a worker can
  exit while tasks are still to come (`ThreadPool.AllRunOnce`, `ThreadPool.LateNeverRuns`,
  `ThreadPool.ExitedBeforeWork`).
- Tasks of the pool that call a parallel algorithm keep their workers, and can keep all of them from
  the chunks that they wait on. If chunks call nothing themselves this can happen exactly when as many
  tasks call an algorithm as there are workers (`NestedPool.StuckIffCallers`).
- Scripts beyond the read limit can have different signature operation counts over bytes and over
  operations (`Script.CountsDiffer`).

## Model

| member | source | states |
|---|---|---|
| `Merkle.MerkleRoot` | include/bitcoin/system/impl/hash/sha/algorithm_merkle.ipp:559-577 | The halving loop yields the root of the tree defined level by level, for any count of digests. |
| `Merkle.RootInjective` | include/bitcoin/system/impl/hash/sha/algorithm_merkle.ipp:559-577 | Two lists of one length with one root are equal. |
| `Merkle.MerkleIndex` | src/chain/block.cpp:603-634 | The index folding loop yields the leaf that fills a position of the last node once merkle cloning has padded it to the width, without building the tree. |
| `Merkle.NodeAt` | src/chain/block.cpp:602-604 | The node at an index of the level of a width is the node over the leaves that it covers, padded by cloning. |
| `Merkle.CeilingedIsCount` | src/chain/block.cpp:590-600 | The ceilinged quotient is the count of nodes of the level of that width. |
| `Merkle.LastNodes` | src/chain/block.cpp:647-672 | The last two nodes of an even level are equal exactly when the leaves under the prior one are the padded leaves under the last one. |
| `Merkle.IsMalleated32Width` | src/chain/block.cpp:652-673 | The test on leaves at one width is true exactly when the level of that width has an even count above two and equal last nodes. |
| `Merkle.ShorterAt` | src/chain/block.cpp:647-651 | From malleation at a width, a strictly shorter list with the same root. |
| `Merkle.Collision` | src/chain/block.cpp:647-651 | Two lists of different lengths with one root part at a width where only the longer one holds a copy of the last node. |
| `Merkle.ShorterIffMalleated` | src/chain/block.cpp:647-651 | A list has the root of a shorter non-empty list if and only if it is malleated at some width. |
| `Merkle.IsMalleated32` | src/chain/block.cpp:636-646 | True exactly when a strictly shorter non-empty list of ids has the same root, for every list of ids. |
| `Merkle.LongerAt` | src/chain/block.cpp:590-600 | From an odd level above one, a strictly longer list with the same root. |
| `Merkle.LongerIffMalleable` | src/chain/block.cpp:561-600 | A non-empty list has the root of a longer list if and only if it is malleable at some width. |
| `Merkle.IsMalleable32` | src/chain/block.cpp:561-570 | True exactly when a strictly longer list of ids has the same root; false of the empty list. |
| `Merkle.Identify` | src/chain/block.cpp:959-968 | Success means that the ids have the root, that no shorter list does and that the 64 byte form is not malleated; failure means one of these is false. |
| `Merkle.IdentityUnique` | src/chain/block.cpp:959-968 | At most one non-empty list of ids is identified by a root. |
| `Merkle.MerkleBranch` | src/chain/block.cpp:467-483 | The loop yields the siblings of a position from the leaves up, and nothing for a position out of range. |
| `Merkle.BranchProves` | src/chain/block.cpp:467-483 | A branch of the depth of the tree leads a digest to the root exactly when it is the branch and the digest is the leaf. |
| `Ledger.NoSelfReference` | src/chain/block.cpp:402-421 | No transaction can refer to its own outputs, since ids are well founded. |
| `Ledger.IsForwardReference` | src/chain/block.cpp:402-421 | The reverse scan is true exactly when some transaction spends one that comes after it. |
| `Ledger.IsInternalDoubleSpend` | src/chain/block.cpp:432-454 | True exactly when two inputs of the block (but the coinbase) spend one point, within or across transactions. |
| `Ledger.Check` | src/chain/block.cpp:988-1009 | Given the verdicts on size, malleation, root and coinbase script, exactly the code of the first test that fails, in the order of the source, each test stated in points and outputs; success exactly for blocks of one leading coinbase, no forward reference, no point spent twice and no transaction empty or spending nothing. |
| `Ledger.CheckedIff` | src/chain/block.cpp:402-454 | What a checked block satisfies by the sets of points that the tests build is what it satisfies by comparing inputs with each other. |
| `Ledger.Populate` | src/chain/block.cpp:834-884 | Success exactly when no input spends an immature or locked output of the block, each failure code names such an input, and on success prevouts are the unspent outputs overlaid by those of the block. |
| `Ledger.PopulateInputs` | src/chain/block.cpp:862-880 | The same for the inputs of one transaction, in order. |
| `Ledger.CeilingedSum` | src/chain/transaction.cpp:688-712 | The saturating sum is the sum capped at the largest word. |
| `Ledger.Accept` | src/chain/block.cpp:1039-1053 | Given the verdict on signature operations, success exactly when the coinbase outputs sum to no more than fees and halved subsidy, and every other transaction has its prevouts and outputs of no greater sum, all sums capped at the largest word; each failure code is that of its cause. |
| `Ledger.AcceptIff` | src/chain/transaction.cpp:969-981 | A transaction is accepted if and only if it spends nothing, or misses no prevout and its outputs sum to no more than its prevouts; each of the two failures has its own condition. |
| `Ledger.SubsidyIs` | src/chain/block.cpp:764-771 | The subsidy is the initial one divided by two to the count of intervals, or without bip42 to that count modulo 64. |
| `Ledger.InputsBacked` | src/chain/block.cpp:834-884 | In a checked, populated and accepted block the inputs of each transaction spend outputs that exist at that point, at the populated value. |
| `Ledger.TransactionStep` | src/chain/transaction.cpp:688-720 | One transaction changes the unspent total by at most its outputs less its inputs. |
| `Ledger.Conserved` | src/chain/block.cpp:764-806 | Past each transaction of a valid block the unspent total and the fees so far do not exceed the total before the block, and no sum has saturated. |
| `Ledger.BlockCreatesSubsidy` | src/chain/block.cpp:793-806 | A valid block adds at most its subsidy to the unspent total, and its fee, spend and reward sums are exact. |
| `Ledger.IssuedBelowMaximum` | src/settings.cpp:484-499 | Under bip42 the subsidies of all heights sum to at most the maximum money. |
| `Ledger.UnboundedWithoutBip42` | src/chain/block.cpp:755-771 | Without bip42 the subsidy restarts, and the supply exceeds any bound. |
| `Ledger.BoundedIffBip42` | src/chain/block.cpp:755-771 | Some amount bounds what is ever issued if and only if bip42 is active or there is no initial subsidy. |
| `Ledger.ExtendsBacking` | src/chain/block.cpp:1039-1053 | Every valid block keeps the unspent total backed by the subsidies so far. |
| `Ledger.SupplyBounded` | src/settings.cpp:484-499 | Along every run of valid blocks the unspent total never exceeds the subsidies so far, nor these the maximum money, and no sum of any block saturates, given a maximum below the largest word. |
| `Ledger.Extend` | src/chain/block.cpp:1039-1053 | Validation of one block in the order of the source succeeds exactly when it is checked, populated and accepted in the same terms and no verdict is against it, and then yields a next state of that run. |
| `Commitment.MalleatedSpends` | src/chain/block.cpp:990-991 | A malleated block spends a point twice if and only if it does so without the transactions that malleation repeats, or one of these has an input. |
| `Commitment.MalleatedWithoutInputs` | src/chain/block.cpp:990-991 | A malleated block that does not spend a point twice. |
| `Commitment.CheckedNotMalleated` | src/chain/block.cpp:988-1008 | A block that passes the checks is not malleated at any width. |
| `Commitment.CheckedCommits` | src/chain/block.cpp:959-1008 | Two blocks that pass the checks and have one merkle root have the same transactions. |
| `Words.BitwiseIs` | include/bitcoin/system/impl/math/bits.ipp:101-123 | Every bit of the conjunction, disjunction and exclusive or of two numbers is that of their bits. |
| `PolyLimbs.MultiplyExact` | src/crypto/poly1305.cpp:147-157 | The products of reduced limbs are exact in 64 bits, also where lanes multiply only 32 bits, and denote the product modulo the prime. |
| `PolyLimbs.ReduceExact` | src/crypto/poly1305.cpp:160-186 | The partial carry neither overflows nor loses a bit, yields reduced limbs and changes the value by a multiple of the prime. |
| `PolyLimbs.StepCongruent` | src/crypto/poly1305.cpp:147-186 | A step of the accumulator is the product modulo 2^130 - 5. |
| `PolyLimbs.LoadExact` | src/crypto/poly1305.cpp:98-117 | The five limbs of a block denote its little-endian number with the high bit. |
| `PolyFinish.ClampExact` | src/crypto/poly1305.cpp:64-85 | The clamped limbs denote the clamped r of section 2.5 of RFC 8439, and are reduced. |
| `PolyFinish.CarryAllExact` | src/crypto/poly1305.cpp:439-515 | The final carries leave limbs in range (h1 below 2^26 before packing) of a congruent value. |
| `PolyFinish.SelectExact` | src/crypto/poly1305.cpp:439-515 | The branch free selection yields the representative below 2^130 - 5. |
| `PolyFinish.PackExact` | src/crypto/poly1305.cpp:439-515 | Packing by shift and bit-or yields the number modulo 2^128. |
| `PolyFinish.FinishExact` | src/crypto/poly1305.cpp:439-515 | The tag is (the accumulator modulo the prime, plus the pad) modulo 2^128 for every reduced accumulator. |
| `Poly1305.HornerIsPolynomial` | src/crypto/poly1305.cpp:370-402 | The accumulator of successive blocks is the polynomial in r of section 2.5 of RFC 8439. |
| `Poly1305.Ladder` | src/crypto/poly1305.cpp:286-365 | The ladder holds the powers of r. |
| `Poly1305.FirstGroup` | src/crypto/poly1305.cpp:286-365 | The first group of lanes, with the accumulator in the first lane, combines to the first blocks. |
| `Poly1305.CombineStep` | src/crypto/poly1305.cpp:286-365 | Stepping every lane by r to the lane count and adding a group continues the sequential evaluation. |
| `Poly1305.GroupAdvances` | src/crypto/poly1305.cpp:286-365 | The limbs of every lane track that evaluation. |
| `Poly1305.LanesRecombine` | src/crypto/poly1305.cpp:229-365 | Weighting lanes by descending powers and summing yields an accumulator congruent to the sequential one. |
| `Poly1305.XBlocks` | src/crypto/poly1305.cpp:286-365 | For any positive lane count up to eight it consumes exactly the whole groups and is congruent to the sequential loop over them. |
| `Poly1305.Blocks` | src/crypto/poly1305.cpp:370-402 | Whatever widths a platform has, the accumulator is congruent to Horner evaluation over all the blocks. |
| `Poly1305.Authenticator.constructor` | src/crypto/poly1305.cpp:71-85 | An authenticator of a key with nothing written. |
| `Poly1305.Authenticator.Write` | src/crypto/poly1305.cpp:405-436 | Any split into writes reaches the state of the concatenated message. |
| `Poly1305.Authenticator.Flush` | src/crypto/poly1305.cpp:439-520 | The tag is that of section 2.5 of RFC 8439 for the key and all that was written. |
| `ChainState.DistanceIs` | src/chain/chain_state.cpp:65-78 | The distance back to a retarget height is the remainder of the height. |
| `ChainState.RetargetNext` | src/chain/chain_state.cpp:378-388 | The retarget height of the next height is this one at a retarget height, and otherwise the same. |
| `ChainState.Promotes` | src/chain/chain_state.cpp:707-761 | Promotion of a state whose windows and retarget timestamp conform to a history conforms to the history with one more header. |
| `ChainState.RunConforms` | src/chain/chain_state.cpp:821-855 | The same for every run of headers from any conforming state. |
| `ChainState.RunRetarget` | src/chain/chain_state.cpp:740-749 | The retarget timestamp of a run is that of its whole history once it has been promoted from a retarget height, and until then that of its start. |
| `ChainState.LengthGrows` | src/chain/chain_state.cpp:707-761 | The closed form of the length of the bits window, from the length and height of any start, meets each step of promotion. |
| `ChainState.RunBits` | src/chain/chain_state.cpp:707-761 | The bits after any run from any start are exactly the last ones of its history, of that length. |
| `ChainState.RunHashes` | src/chain/chain_state.cpp:821-855 | After any run the hash of a checkpoint is that of the header promoted to at its height, whatever the forks, or else that of the start. |
| `ChainState.BlockMatchesHeader` | src/chain/chain_state.cpp:775-805 | The states of a header and of its block differ in the hash alone, kept and cached, and exactly when it is not null. |
| `ChainState.PoolIs` | src/chain/chain_state.cpp:707-761 | The state of the pool has the next height, no hash or bits, the signalled version, the timestamp of the header below, and its values last in each window. |
| `ChainState.FromMapConforms` | src/chain/chain_state.cpp:621-670 | A state of exactly what the map requests conforms if and only if the Litecoin patch does not read another timestamp. |
| `ChainState.MapIs` | src/chain/chain_state.cpp:343-372 | The windows requested: the timestamps of eleven headers, the versions of the sample unless no rule needs them, and one bits or those of an interval, each of the headers just below. |
| `ChainState.MapReads` | src/chain/chain_state.cpp:621-670 | The retarget timestamp is of the last multiple of the interval below, and each checkpoint hash is requested exactly under its forks. |
| `ChainState.RunMatchesMap` | src/chain/chain_state.cpp:621-855 | After any run from a state of the map at any height to another, each part against what the map requests there: self values, version and timestamp windows are equal; the retarget timestamp is if and only if the Litecoin patch reads no other or no retarget height was promoted from; the bits are if and only if the closed length is the one requested; and the hash of each checkpoint is if and only if its forks are configured, it is not within the run, or its header has a null hash. |
| `ChainState.GenesisAgrees` | src/chain/chain_state.cpp:343-362 | From genesis the bits are those requested if and only if the height is zero or no retarget height, or the network is difficult, does not retarget or has the block storm patch, or the interval is one, or it and the height are two. |
| `ChainState.PatchDisagrees` | src/chain/chain_state.cpp:740-749 | A history on which the patch makes them differ. |
| `ChainState.BitsDisagree` | src/chain/chain_state.cpp:343-362 | At height 3 with an interval of 3 the run holds two bits where the map requests one. |
| `ChainState.HashesDisagree` | src/chain/chain_state.cpp:628-645 | Without bip68, bip112 and bip113 and with a checkpoint at height 1, the run holds the hash there and the map requests none. |
| `Activation.RulesAgree` | src/chain/chain_state.cpp:156-341 | After any run from a state of the map, all active rules and the minimum version are those of the map at the height reached if and only if, for each bip9 checkpoint, its forks are configured, it is not within the run, or the header there is as much the one configured as a null hash is; bip30 always agrees. |
| `Activation.RulesDisagree` | src/chain/chain_state.cpp:300-308 | Without the forks of bit 0 the run activates its rules and the map does not. |
| `Activation.BlockMatchesRule` | src/chain/chain_state.cpp:775-805 | The states of a header and of its block activate the rules of a checkpoint alike unless it is at their height and exactly one of the hash and the null hash is the one configured. |
| `Activation.BlockForgets` | src/chain/chain_state.cpp:775-805 | At the checkpoint itself a header activates the rules of its bit and its block does not. |
| `Activation.ActivateIs` | src/chain/chain_state.cpp:156-341 | Each rule is active exactly by its fork, time, heights, count of signalling versions in signed order, checkpoint and exceptions. |
| `Activation.MinimumIs` | src/chain/chain_state.cpp:282-298 | The minimum version is that of the first of bip65, bip66 and bip34 that is frozen or enforced, or zero. |
| `Activation.CountIs` | src/chain/chain_state.cpp:241-248 | The count of versions is the size of the set of places that hold one not below in signed order. |
| `ChainState.AnchorNearest` | src/chain/chain_state.cpp:476-484 | The height that a scan of all bits stops at is the greatest that is a retarget height or has other bits than the limit. |
| `ChainState.AnchorReached` | src/chain/chain_state.cpp:532-562 | That height is no farther back than the most recent retarget height. |
| `ChainState.ScanBits` | src/chain/chain_state.cpp:486-505 | The reverse scan of a window never underflows the height, and finds the bits of that height exactly when the window reaches it. |
| `ChainState.EasyWorkRequired` | src/chain/chain_state.cpp:532-562 | The scan always stops within the window of a conforming state, so that the assertion after it is unreachable, and yields the work of the whole history. |
| `ChainState.WorkRequiredRetargetBits` | src/chain/chain_state.cpp:486-505 | The bits retargeted are those of the whole history. |
| `ChainState.WorkRequired` | src/chain/chain_state.cpp:415-447 | Any conforming state, promoted or from scratch, requires the work that its whole history requires. |
| `ChainState.RequiredIs` | src/chain/chain_state.cpp:415-467 | That work, in heights and timestamps: after a multiple of the interval the bits of the header below (or with the block storm patch of the anchor) scaled by the time between two headers within its bounds; the limit after a late block of the test network, and otherwise the bits of the anchor; and the bits of the header below on other networks between these heights. |
| `ChainState.AnchorIff` | src/chain/chain_state.cpp:476-484 | The anchor is the one height below which is a multiple of the interval or has other bits than the limit, and above which none is. |
| `ChainState.LimitIs` | src/chain/chain_state.cpp:451-466 | The timespan is the time between two timestamps, or the nearer of its bounds outside them. |
| `MedianTimePast.MedianRank` | src/chain/chain_state.cpp:399-410 | The median is one of the times, and is below a bound exactly when more than half of them, rounded down, are. |
| `MedianTimePast.MedianNone` | src/chain/chain_state.cpp:399-410 | The median of no times is zero. |
| `MedianTimePast.PushKeepsMedian` | src/chain/chain_state.cpp:736-738 | Pushing a time not below the median, with or without dropping the oldest, does not lower the median. |
| `MedianTimePast.MedianNeverDecreases` | src/chain/chain_state.cpp:399-410 | Along every run in which each timestamp exceeds the median time past of its own state, median time past never decreases. |
| `Field25519.CarryKeeps` | src/crypto/x25519.cpp:160-176 | A pass of carries changes the value by a multiple of 2^255 - 19. |
| `Field25519.CarryTwice` | src/crypto/x25519.cpp:160-176 | Two passes reduce any limbs within 2^62. |
| `Field25519.CarryThrice` | src/crypto/x25519.cpp:248-253 | A third pass leaves only digits. |
| `X25519.CarryPass` | src/crypto/x25519.cpp:160-176 | The in place loop computes that pass with no word overflowing. |
| `X25519.Add` | src/crypto/x25519.cpp:191-196 | The sum of the field elements, within the bound that products need. |
| `X25519.Subtract` | src/crypto/x25519.cpp:198-203 | The difference of the field elements, within that bound. |
| `X25519.MultiplyLimbs` | src/crypto/x25519.cpp:208-212 | The double loop computes the product of the values without overflow. |
| `X25519.Multiply` | src/crypto/x25519.cpp:205-223 | The product of the field elements, reduced, also when operands and result are one array. |
| `X25519.SelectLimb` | src/crypto/x25519.cpp:179-189 | The masked exclusive or swaps two words when the bit is one and keeps them when it is zero. |
| `X25519.Select` | src/crypto/x25519.cpp:179-189 | The arrays are swapped exactly when the bit is one. |
| `X25519.ExponentExact` | src/crypto/x25519.cpp:231-245 | The chain of squares and products raises to 2^255 - 21. |
| `X25519.Invert` | src/crypto/x25519.cpp:231-245 | The element raised to two less than the prime. |
| `X25519.SubtractPrime` | src/crypto/x25519.cpp:255-275 | One pass subtracts the prime exactly when the value is not below it. |
| `X25519.Pack` | src/crypto/x25519.cpp:248-283 | The little-endian bytes of the unique representative in [0, p), for any limbs within 2^62. |
| `X25519.Unpack` | src/crypto/x25519.cpp:286-296 | The little-endian number without its top bit, in canonical limbs. |
| `Ladder25519.ClampExact` | src/crypto/x25519.cpp:60-65 | A clamped scalar has the bits of the scalar but the lowest three, which are zero, and from bit 254 on, of which that one alone is set. |
| `Ladder25519.SteppedIsLadder` | src/crypto/x25519.cpp:80-108 | Swapping in and out at every step is the deferred swap of section 5 of RFC 7748. |
| `Ladder25519.ClimbRung` | src/crypto/x25519.cpp:87-106 | One step of the ladder in place is the step of RFC 7748 on integers modulo the prime, with all operands within bounds. |
| `Ladder25519.ClimbIs` | src/crypto/x25519.cpp:57-106 | With its constant that step computes the doubling and differential addition of the curve of coefficient 486662, as polynomials in the coordinates modulo the prime. |
| `Ladder25519.ScalarMultiply` | src/crypto/x25519.cpp:55-126 | For every scalar and point the result is that of the ladder of RFC 7748 over those polynomials, and failure is exactly the zero result. |
| `Radix.Capacity` | src/radix/base_58.cpp:94-96 | A comparison of two fixed powers bounds all powers with lengths in that ratio. |
| `Base58.EncodeCapacity` | src/radix/base_58.cpp:93-96 | The encoding buffer holds every number of that many bytes. |
| `Base58.DecodeCapacity` | src/radix/base_58.cpp:164-165 | The decoding buffer holds every number of that many characters. |
| `Base58.MultiplyAdd` | src/radix/base_58.cpp:76-87 | The in place reverse loop multiplies the number by the scale and adds the value, and carries nothing out (both pack_value and unpack_char). |
| `Base58.EncodeBase58` | src/radix/base_58.cpp:89-124 | The text is a one for each leading zero byte and the minimal base58 digits of the number, for every byte string. |
| `Base58.DecodeBase58` | src/radix/base_58.cpp:157-189 | True exactly for texts of the alphabet, and then a zero for each leading one and the minimal bytes of the number; otherwise nothing. |
| `Base58.DecodeEncode` | src/radix/base_58.cpp:89-189 | Every byte string is recovered from its text. |
| `Base58.EncodeDecode` | src/radix/base_58.cpp:89-189 | Every base58 text is recovered from its bytes. |
| `ChaChaBlock.LaneRounds` | src/crypto/chacha20.cpp:50-119 | Each lane of the rounds over wide words is the rounds over that lane. |
| `ChaChaBlock.XNextIsBlocks` | src/crypto/chacha20.cpp:287-340 | A wide pass yields as many sequential blocks as it has lanes, counters included. |
| `ChaChaBlock.RotatesLeft` | src/crypto/chacha20.cpp:50-60 | The words are rotated to the left: the product by a power of two with what overflows put back at the bottom. |
| `ChaChaBlock.QuarterVector` | src/crypto/chacha20.cpp:50-60 | The quarter round of section 2.1.1 of RFC 8439 on its words. |
| `ChaChaBlock.ColumnsAre` | src/crypto/chacha20.cpp:64-71 | Four quarter rounds take the columns of the state. |
| `ChaChaBlock.DiagonalsAre` | src/crypto/chacha20.cpp:64-75 | And four its diagonals. |
| `ChaChaBlock.InitialIs` | src/crypto/chacha20.cpp:287-311 | The state is the constant, then the words of key, counter and nonce, for all words. |
| `ChaChaBlock.BlockVector` | src/crypto/chacha20.cpp:80-119 | The block of section 2.3.2 of RFC 8439, word by word. |
| `ChaChaBlock.SerializedAt` | src/crypto/chacha20.cpp:287-340 | Each word of a block is serialized little-endian at its place. |
| `ChaCha20.PartitionIrrelevant` | src/crypto/chacha20.cpp:432-467 | Every partition of a message into calls yields the same bytes. |
| `ChaCha20.CryptedTwice` | src/crypto/chacha20.cpp:432-467 | Applying a keystream twice from one position restores the message. |
| `ChaCha20.Cipher.SetKey` | src/crypto/chacha20.cpp:393-401 | The keystream of the key from its start. |
| `ChaCha20.Cipher.Seek` | src/crypto/chacha20.cpp:403-412 | The keystream of the nonce and counter from its start. |
| `ChaCha20.NonceIs` | src/crypto/chacha20.cpp:403-412 | The words of the nonce are those of its twelve bytes: four of the first part and eight of the second, little-endian. |
| `ChaCha20.Cipher.Next` | src/crypto/chacha20.cpp:415-430 | The buffer holds the next block and the counter advances as a word. |
| `ChaCha20.Cipher.XCrypt` | src/crypto/chacha20.cpp:344-376 | Whole wide groups of any lane count are applied and consumed. |
| `ChaCha20.Cipher.Crypt` | src/crypto/chacha20.cpp:432-467 | Whatever mix of buffered, wide, whole and partial blocks a call triggers, byte i is combined with byte i mod 64 of block counter + i / 64 since the seek, in place or not, and nothing else is written. |
| `ChaCha20.Cipher.Draw` | src/crypto/chacha20.cpp:469-472 | The next bytes of that keystream. |
| `Aead.OpenIffSealed` | src/crypto/chacha20_poly1305.cpp:90-136 | A message opens to a plaintext exactly when it is that plaintext sealed. |
| `Aead.Mac` | src/crypto/chacha20_poly1305.cpp:58-81 | The tag over the padded additional data, the padded text and their sizes. |
| `Aead.Sealer.Authenticate` | src/crypto/chacha20_poly1305.cpp:58-81 | The tag under the one-time key of block zero. |
| `Aead.Sealer.Encrypt` | src/crypto/chacha20_poly1305.cpp:90-107 | The output is the sealed concatenation of both parts (section 2.8 of RFC 8439), and nothing else is written. |
| `Aead.Sealer.Decrypt` | src/crypto/chacha20_poly1305.cpp:109-136 | True exactly when the message opens, and then the output is the plaintext; otherwise zeros. |
| `Aead.Sealer.StreamKey` | src/crypto/chacha20_poly1305.cpp:138-144 | The keystream of a nonce from block one. |
| `ForwardSecure.Counts` | src/crypto/fschacha20_poly1305.cpp:40-53 | In every state the packets are below the interval, and with the rekeys count the messages. |
| `ForwardSecure.NonceRepeats` | src/crypto/fschacha20_poly1305.cpp:61-67 | Two messages have one nonce exactly when their numbers differ by whole wraps of the 64 bit rekey counter. |
| `ForwardSecure.RekeyNonceReserved` | src/crypto/fschacha20_poly1305.cpp:40-53 | In every run no message has the rekeying nonce if and only if the interval is not zero. |
| `ForwardSecure.RekeyNonceUsed` | src/crypto/fschacha20_poly1305.cpp:40-53 | With an interval of zero the message of that number has the rekeying nonce. |
| `ForwardSecure.Peer.Advance` | src/crypto/fschacha20_poly1305.cpp:40-53 | The state of one more message, with the key replaced when an interval completes. |
| `ForwardSecure.Peer.Encrypt` | src/crypto/fschacha20_poly1305.cpp:61-67 | The output is sealed under the key and nonce of the number of the message. |
| `ForwardSecure.Peer.Decrypt` | src/crypto/fschacha20_poly1305.cpp:69-75 | The message is opened under the key and nonce of its number, and the state advances whether it is authentic or not. |
| `ForwardSecure.Lockstep` | src/crypto/fschacha20_poly1305.cpp:61-75 | A peer with the same key after as many messages opens what was sealed and nothing else. |
| `ForwardSecure.ChunkPeer.Crypt` | src/crypto/fschacha20.cpp:37-52 | A chunk is combined with the keystream of the chunks before it, across rekeys. |
| `ForwardSecure.ChunksRecovered` | src/crypto/fschacha20.cpp:37-52 | A peer with the same key recovers every chunk of every stream, across any number of rekeys (BIP324). |
| `Golomb.Encode` | src/filter/golomb.cpp:233-247 | For every word and exponent the bits appended are the quotient in unary, a zero and the remainder in binary, of at most 64 bits. |
| `Golomb.Decode` | src/filter/golomb.cpp:249-257 | The number and the position after it, with zeros read beyond the end. |
| `Golomb.DecodeCode` | src/filter/golomb.cpp:233-257 | Every word is decoded from its code for every exponent, which is exactly consumed. |
| `Golomb.HashDistinct` | src/filter/golomb.cpp:36-66 | In order, exactly one hash for each distinct item. |
| `Golomb.RangeMonotone` | src/filter/golomb.cpp:259-264 | Scaling hashes to a bound keeps their order. |
| `Golomb.RangeIff` | src/filter/golomb.cpp:259-264 | The range is the one number whose product by 2^64 is the greatest not above the product of hash and bound. |
| `Golomb.RangeBelow` | src/filter/golomb.cpp:259-264 | The range of every hash is below the bound. |
| `Golomb.HashedSetIs` | src/filter/golomb.cpp:272-288 | The numbers coded are in order the ranges of the hashes of the items. |
| `Golomb.SortRanges` | src/filter/golomb.cpp:272-288 | Sorting hashes and then scaling them is scaling them and then sorting. |
| `Golomb.ConstructHashes` | src/filter/golomb.cpp:80-95 | The codes of the differences of scaled hashes, or nothing if the bound overflows. |
| `Golomb.ConstructItems` | src/filter/golomb.cpp:98-110 | The codes of the differences of the sorted scaled hashes of items. |
| `Golomb.FormsAgree` | src/filter/golomb.cpp:80-110 | Both forms write the same bits for distinct items. |
| `Golomb.MatchRange` | src/filter/golomb.cpp:136-158 | The search of arbitrary bits by successive decoding. |
| `Golomb.MatchSingle` | src/filter/golomb.cpp:136-158 | The search for the range value of a target. |
| `Golomb.MatchIffShared` | src/filter/golomb.cpp:136-158 | Without overflow a target matches a constructed set if and only if some item has a range in common with it, by the bounds of its product, whatever padding follows. |
| `GolombStack.MatchStack` | src/filter/golomb.cpp:182-210 | The nested loops over arbitrary bits and targets are the search of the numbers decoded. |
| `GolombStack.NumbersCoded` | src/filter/golomb.cpp:249-257 | The numbers decoded from codes are those encoded, whatever padding follows. |
| `GolombStack.SearchSound` | src/filter/golomb.cpp:182-210 | A search of any numbers finds only what they share with the targets. |
| `GolombStack.CoveredFinds` | src/filter/golomb.cpp:199-206 | Covered targets are found in every set of the size that shares a number with them. |
| `GolombStack.MissedNumbers` | src/filter/golomb.cpp:199-206 | For any targets that are not covered, a set of the size that shares a number with them and is missed. |
| `GolombStack.CompleteIffCovered` | src/filter/golomb.cpp:182-210 | No set of a size is missed if and only if the last two ranges of the targets are equal and every other one is at most one above its predecessor or equal to its successor (or there are less than two, or the size is zero; of a size of one only the last two matter). |
| `GolombStack.HigherMissed` | src/filter/golomb.cpp:199-206 | Of two targets with different ranges the higher one is not found in the set of it alone. |
| `GolombStack.ItemMissed` | src/filter/golomb.cpp:182-210 | The filter built of one item is not matched by that item and another of a lower range, whatever padding follows. |
| `GolombStack.StackMatches` | src/filter/golomb.cpp:182-210 | Targets that match the set built of items share a range with one, and covered targets match if and only if they do. |
| `Wire.VariableIff` | include/bitcoin/system/impl/stream/streamers/byte_reader.ipp:201-223 | A size of variable length is read exactly from its shortest form. |
| `Wire.VariableForm` | include/bitcoin/system/impl/stream/streamers/byte_writer.ipp:183-204 | That form: the byte itself below 253, or a byte of 253, 254 or 255 and two, four or eight little-endian bytes. |
| `TransactionCodec.ReadIff` | src/chain/transaction.cpp:158-264 | A transaction is read from bytes if and only if they are its serialization, it is well formed and it is not of no inputs and one output. |
| `TransactionCodec.WellFormedIff` | src/chain/transaction.cpp:158-235 | A transaction is well formed if and only if its numbers fit their fields, its counts and elements their limits, and it is segregated exactly when an input has a witness. |
| `TransactionCodec.InputFields` | src/chain/input.cpp:188-228 | The fields of an input at their places. |
| `TransactionCodec.OutputFields` | src/chain/output.cpp:127-160 | The fields of an output at their places. |
| `TransactionCodec.TransactionFields` | src/chain/transaction.cpp:238-263 | The parts of a transaction at their places, with and without witnesses. |
| `TransactionCodec.OneOutputMisread` | src/chain/transaction.cpp:166-169 | A transaction of one output alone is not read back from its own serialization. |
| `TransactionCodec.ReadNominally` | src/chain/transaction.cpp:158-212 | Without witnesses exactly the same bytes are accepted and consumed, for the nominal transaction. |
| `TransactionCodec.StackIff` | src/chain/witness.cpp:168-250 | A witness is read from bytes if and only if they are its serialization. |
| `TransactionCodec.SkipReads` | src/chain/witness.cpp:198-219 | Skipping a witness consumes what reading it consumes, and tells whether it is empty. |
| `TransactionReader.FromData` | src/chain/transaction.cpp:158-212 | The loops over a stream that stays invalid once it is read what the parser specifies, with and without witnesses. |
| `TransactionReader.ReadWitnessesFrom` | src/chain/transaction.cpp:179-200 | The witness of each input, and whether any has an element. |
| `TransactionReader.SkipWitnessesFrom` | src/chain/transaction.cpp:179-200 | The same bytes passed over. |
| `TransactionWriter.Writer.WriteTransaction` | src/chain/transaction.cpp:238-263 | The loops append the serialization that is read back. |
| `TransactionWriter.Writer.WriteStack` | src/chain/witness.cpp:238-250 | The loop appends the serialization of a witness. |
| `TransactionCache.SizeIsLength` | src/chain/transaction.cpp:266-307 | The saturating size equals the count of bytes written, up to the largest word, with and without witnesses. |
| `TransactionCache.DesegregatedIsNominal` | src/chain/transaction_cache.cpp:39-57 | For every transaction with witnesses the three slices hashed concatenate to its serialization without. |
| `TransactionCache.CachedTransaction.Hash` | src/chain/transaction_cache.cpp:60-85 | With or without a cached value, the canonical hash. |
| `TransactionCache.CachedTransaction.GetHash` | src/chain/transaction_cache.cpp:104-116 | The canonical hash, cached from then on. |
| `TransactionCache.SetHash` | src/chain/block.cpp:297-318 | The hashes cached for one transaction are those of its own serializations, and its size advances the buffer to the next. |
| `TransactionCache.SetHashes` | src/chain/block.cpp:284-320 | Over the serialization of its own block, every transaction gets the hash of its nominal serialization, and all but the first that have witnesses that of their whole serialization. |
| `TransactionCache.CachedAreComputed` | src/chain/block.cpp:284-320 | What is cached is what recomputation would give if and only if the transaction is first, has no witness or is no coinbase. |
| `TransactionCache.LateCoinbaseDiffers` | src/chain/transaction_cache.cpp:64-69 | A coinbase with a witness that is not first would get another hash than recomputation gives. |
| `Script.OperationWrites` | src/chain/operation.cpp:195-304 | An operation serializes to the bytes that it was read from, underflow or not. |
| `Script.ReadsPush` | src/chain/operation.cpp:195-250 | By the numbers of opcodes: data of up to 75 bytes by the opcode, or of a size in one, two or four little-endian bytes, and none otherwise. |
| `Script.ReadsRest` | src/chain/operation.cpp:195-250 | What is not all there, or larger than four million bytes, is one invalid operation that holds it, and nothing else is. |
| `Script.OperationHasSize` | src/chain/operation.cpp:647-667 | The size is that of the bytes written. |
| `Script.ParseWrites` | src/chain/script.cpp:261-298 | Every byte string is a list of operations that serializes to it, of its size, in which only the last may underflow. |
| `Script.ParseIff` | src/chain/script.cpp:261-298 | Operations are those of bytes if and only if they are well formed and serialize to them. |
| `Script.FromData` | src/chain/script.cpp:261-298 | The loop yields those operations. |
| `Script.ToData` | src/chain/script.cpp:354-362 | The loop yields that serialization. |
| `Script.SignatureOperations` | src/chain/script_extract.cpp:215-237 | The loop over operations. |
| `Script.StreamSignatureOperations` | src/chain/script_extract.cpp:188-211 | The loop over bytes. |
| `Script.TallyIs` | src/chain/script_extract.cpp:171-207 | By the numbers of opcodes: one for a signature, and for several the number that the opcode before pushes if accurate, or else twenty. |
| `Script.CountsDiffer` | src/chain/script_extract.cpp:188-237 | For every script the two counts differ exactly by what is counted beyond the first push that is there but exceeds the read limit. |
| `Script.CountsAgree` | src/chain/script_extract.cpp:188-237 | For scripts no larger than max_bytes the counts are equal. |
| `Script.CountsCanDiffer` | src/chain/script_extract.cpp:188-237 | A larger script on which they differ. |
| `Calendar.DateOfDays` | src/x509/der.cpp:78-108 | Every valid date from 1970 is recovered from its days. |
| `Calendar.DaysOfDate` | src/x509/der.cpp:78-108 | Every count of days is recovered from its date, which is valid. |
| `Calendar.DaysCount` | src/x509/der.cpp:61-89 | The epoch is day zero and each next date of the calendar is the next day. |
| `Calendar.YearOrdered` | src/x509/der.cpp:78-108 | A date is before a year if and only if its days are before the first of January. |
| `Der.BeginsIff` | src/x509/der.cpp:362-400 | What is accepted at the front of data is exactly what is written for its tag and content, with the remainder untouched: low tags, definite minimal lengths, contents below 2^32 bytes. |
| `Der.TlvForm` | src/x509/der.cpp:431-452 | Byte by byte: the tag, a length below 128 as it is, or else the count of its bytes plus 128 and those bytes from the highest, which is not zero, and the content. |
| `Der.ByteWidthIs` | src/x509/der.cpp:431-452 | The bytes counted by bit width are those of the minimal big-endian length. |
| `Der.Writer.Write` | src/x509/der.cpp:431-452 | The loop appends the tag, that length and the content. |
| `Der.Reader.NextEncoding` | src/x509/der.cpp:362-400 | The loop reads that length, or makes the reader invalid and empty. |
| `Der.Reader.Read` | src/x509/der.cpp:133-138 | The content and the remainder, if the tag is the expected one. |
| `Der.UnsignedIff` | src/x509/der.cpp:182-227 | Each word has exactly one content that is read as it. |
| `Der.WordIff` | src/x509/der.cpp:201-227 | A word is read from data if and only if it begins with what is written for that word. |
| `Der.WordVectors` | src/x509/der.cpp:480-483 | The encodings of 0, 127, 128 and 256. |
| `Der.Reader.ReadUnsigned` | src/x509/der.cpp:201-227 | The loop reads that word. |
| `Der.Writer.WriteInteger` | src/x509/der.cpp:466-478 | Whatever leading zeros a magnitude has, its minimal content is written. |
| `Der.Writer.WriteUnsigned` | src/x509/der.cpp:480-483 | The encoding of a word that is read back. |
| `Der.TimeIff` | src/x509/der.cpp:297-358 | A written time is read back if and only if it is before 253402300800 seconds, the first of January 10000. |
| `Der.EpochVector` | src/x509/der.cpp:512-544 | The epoch is written 700101000000Z under the tag 0x17. |
| `Der.FullYearVector` | src/x509/der.cpp:512-544 | The first of January 2050 is written 20500101000000Z under the tag 0x18. |
| `Der.TimeNotRead` | src/x509/der.cpp:297-358 | That second is written with the year 0000, which is not read. |
| `Der.SecondsRead` | src/x509/der.cpp:297-358 | What is written for a time is read back under its own tag, with the remainder untouched, if and only if it is before that second. |
| `Der.TimeRewritten` | src/x509/der.cpp:297-358 | A time read from a text is written as that text if and only if the text has two digits of the year or the time is not before 2050. |
| `Der.SecondsRewritten` | src/x509/der.cpp:297-358 | What was read as a time is written as it was read if and only if it has the tag of two digits or the time is not before 2050 (2524608000 seconds). |
| `Der.EpochRewritten` | src/x509/der.cpp:297-358 | The epoch with four digits of the year is read, and written otherwise. |
| `Der.Reader.ReadTime` | src/x509/der.cpp:297-358 | The loops read the time that the text tells, or make the reader invalid. |
| `Der.Writer.WriteTime` | src/x509/der.cpp:512-544 | The loops write that text. |
| `Bech32.StepLinear` | src/hash/checksum.cpp:107-124 | The checksum step is linear over exclusive or. |
| `Bech32.AppendedVerifies` | src/hash/checksum.cpp:150-167 | For every prefix, values and constant the appended checksum verifies under that constant. |
| `Bech32.OneErrorDetected` | src/hash/checksum.cpp:161-167 | Values that verify do not verify once any one of them is changed. |
| `Bech32.ChecksumOf` | src/hash/checksum.cpp:107-124 | The loop over the values. |
| `Bech32.VerifyChecksum` | src/hash/checksum.cpp:161-167 | True exactly when the prefixed values have the constant. |
| `Bech32.StandardsVerify` | src/hash/checksum.cpp:161-167 | A12UEL5L of BIP173 and A1LQFN3A of BIP350 verify, each under its own constant only. |
| `Bech32.PrefixAt` | src/hash/checksum.cpp:161-167 | The values of a prefix are the high bits of its characters in lower case, a zero and their low bits. |
| `Bech32.BuildChecked` | src/hash/checksum.cpp:176-190 | The version, the unpacked program and the checksum, or nothing for a version above five bits. |
| `Bech32.ExtractChecked` | src/hash/checksum.cpp:192-206 | The version and the packed program of values that are long enough. |
| `Bech32.BuiltVerifies` | src/hash/checksum.cpp:176-206 | For every version below 32, program and prefix, what is built verifies under either constant, and the same version and program are extracted from it. |
| `Base32.PackedUnpacked` | src/radix/base_32b.cpp:110-151 | Every byte string is recovered from its groups of five bits. |
| `Base32.Pack` | src/radix/base_32b.cpp:110-136 | The loop, with a last byte of only padding removed and any other of such a failure. |
| `Base32.Unpack` | src/radix/base_32b.cpp:138-151 | The loop, with zeros read past the end. |
| `Execution.Bounds` | include/bitcoin/system/execution.hpp:109-142 | A partition of the range into tasks that differ by at most one element, none of them empty unless the range is. |
| `Execution.ReducePartials` | include/bitcoin/system/execution.hpp:227-246 | The reduction of the partial results of chunks is the reduction of the range for an associative operation. |
| `Execution.ParallelReduce` | include/bitcoin/system/execution.hpp:227-246 | Serial or in chunks, the result is the fold of the whole range, for an associative operation. |
| `Execution.ParallelTransform` | include/bitcoin/system/execution.hpp:191-206 | Serial or in chunks, every element of the output is the operation of the element at its place. |
| `Execution.MergeSorts` | include/bitcoin/system/execution.hpp:307-333 | Merging two sorted runs yields a sorted run. |
| `Execution.MergePass` | include/bitcoin/system/execution.hpp:307-333 | One round of pairwise merges leaves fewer sorted runs over the same elements. |
| `Execution.ParallelSort` | include/bitcoin/system/execution.hpp:290-333 | The range becomes sorted by any comparison that is a strict weak order, with the same elements, for any floor and count of workers. |
| `ThreadPool.RunInvariant` | src/execution.cpp:43-79 | In every state of every interleaving of submitting, working and stopping each task is queued, running or completed as often as it was submitted, and a worker has exited only if the pool is stopped. |
| `ThreadPool.ExitedOnEmpty` | src/execution.cpp:66-73 | A worker that has exited did so when the pool was stopped and the queue empty. |
| `ThreadPool.ExitedBeforeWork` | include/bitcoin/system/execution.hpp:55-64 | A run in which a task is queued after a worker has exited. |
| `ThreadPool.AllRunOnce` | src/execution.cpp:43-79 | Over every interleaving, once all workers have exited each submitted task has run exactly once if and only if none was submitted when all had already exited. |
| `ThreadPool.LateNeverRuns` | include/bitcoin/system/execution.hpp:55-64 | A run in which a task is submitted when no worker is left, and does not run. |
| `ThreadPool.DrainBounded` | src/execution.cpp:60-79 | A stopped pool takes only so many steps as its work and the tasks that still arrive allow, whatever its workers do. |
| `ThreadPool.NoDeadlock` | src/execution.cpp:60-79 | A stopped pool whose workers have not all exited has a worker that can step. |
| `ThreadPool.Drains` | src/execution.cpp:43-53 | Every run that has stopped the pool, with tasks submitted by others and by running tasks, can be ended by its workers alone, and then each task has run once if and only if none came too late. |
| `NestedPool.NextInvariant` | include/bitcoin/system/execution.hpp:143-162 | Every step keeps each future done, running or queued, and every worker waiting only on later ones than its own. |
| `NestedPool.HaltedIff` | include/bitcoin/system/execution.hpp:143-162 | No worker can step if and only if all work is done or every worker waits on a future that is not done. |
| `NestedPool.CallersKept` | include/bitcoin/system/execution.hpp:143-162 | No step of a worker adds to the tasks, queued or held, that call an algorithm. |
| `NestedPool.NestedCompletes` | include/bitcoin/system/execution.hpp:143-162 | With fewer of these tasks than workers, nested to any depth, every run of the workers is bounded and one that can not go on has done every task. |
| `NestedPool.ReachStuck` | include/bitcoin/system/execution.hpp:143-162 | From as many of these in the queue as there are workers left, a run after which every worker is blocked. |
| `NestedPool.StuckIffCallers` | include/bitcoin/system/execution.hpp:143-162 | For tasks whose chunks call nothing, some run gets stuck if and only if as many tasks call an algorithm as there are workers. |
| `NestedPool.LoadedBySubmits` | include/bitcoin/system/execution.hpp:143-162 | Submitting tasks one by one leaves the pool with them in its queue, in order. |

## Left out

- Ledger.Check: size, merkle root, coinbase script and signature operation tests are verdicts given
  to it; contextual checks, scripts, locktimes other than the verdict of is_internally_locked,
  coinbase maturity across blocks and the witness commitment are not modelled.
- Merkle.Identify: the 64 byte form of malleation, which the source calls infeasible for a valid
  coinbase, is a verdict given to it.
- Ledger.Populate: prevouts are a map from points to values, and not pointers cached on inputs.
- ChainState.WorkRequired: compact bits and 256 bit scaling are parameters; only which bits and which
  timespan enter them is proved.
- Activation.RulesAgree: rules that follow from the configuration alone, and cumulative work.
- Vector intrinsics and the ChaCha20 transposition network: a wide word is a sequence of lanes.
- Elliptic curve theory of the ladder, primality of 2^255 - 19, and any claim of secrecy.
- Wiping of secrets and constant time: comparison of tags is equality.
- ChaCha20.Cipher.Crypt: an output that overlaps its input from above is not modelled; the source
  promises only that both may be the same.
- Base58.EncodeBase58: the alphabet is given by its ranges of characters and not as a table.
- Golomb.Encode: bits are a sequence, without the packing into bytes, and siphash is a parameter.
- TransactionCodec.ReadIff: a script is its bytes, which `Script.ParseWrites` justifies; values of
  transactions from streams that became invalid are not modelled.
- Script.FromData: the flags for success, invalid and roller opcodes, text forms and the interpreter.
- Der.Reader.Read: object identifiers, bit strings, booleans, strings and nested readers.
- Bech32.BuildChecked: characters of a prefix are bytes below 128, and the text encoding and the
  witness address rules are not modelled.
- Execution.ParallelSort: chunks are sorted and merged one after the other, since they do not
  overlap; std::sort and std::inplace_merge are a reference sort and merge, and std::reduce is a fold
  from the left.
- ThreadPool.Drains: a task is submitted, taken and finished in single steps; exceptions are not
  modelled, and futures only in `NestedPool`.
- NestedPool.StuckIffCallers: for calls nested deeper, completion is proved for fewer callers than
  workers in all, and a stuck run for as many of them in the queue.
- Integers of sizes and counts are unbounded where no width matters, as in `Calendar`.
- secp256k1, SHA and AES, certificates, wallets, configuration, printing and other codecs.

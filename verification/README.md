# MONEU, modelled and proved in Dafny

This project models the parts of the MONEU node that carry its hardest logic and proves
what they promise, for every input and every run. `dafny verify dfyconfig.toml` checks it.

What is modelled, file by file:

- **256-bit integers** (`Limbs`, `LimbSteps`, `ArithUint256`, `Compact`, `Bytes32`). Eight
  32-bit limbs updated in place; each operator is proved against integers modulo 2^256. The
  compact target format is proved to be the best approximation from below.
- **Consensus arithmetic** (`Pow`, `Asert`, `Polynomials`, `Exponential`, `Subsidy`).
  Proof-of-work checking, the periodic retarget, the exponential rule (aserti3-2d), chain work
  and the subsidy schedule. The cubic of the exponential rule is proved to be the power of two
  it stands for to within the promised 0.013 percent at all 65536 fractions: `Polynomials`
  bounds polynomials over intervals exactly, and `Exponential` follows sixteen squarings.
- **Transaction pool** (`MempoolSpec`, `MempoolRules`, `Mempool`). A class with the five maps
  and the byte count of the source; what each operation does to the entries is stated as set
  and graph facts and every run is shown to keep the maps in agreement.
- **Hashing** (`Bits`, `Sha256`, `Hashing`, `Hmac`, `Pbkdf2`). Three forms of the SHA-256
  transform, the streaming context, HMAC and PBKDF2 on cached digests, each against the
  plain definition in FIPS 180-4, RFC 2104 or RFC 8018. Words are integers below 2^32 and
  the bitwise operators are defined on them bit by bit.
- **Mining** (`Header`, `Miner`). Header layout and cached hash, the midstate fast path, the
  processor loop and the final check of the graphics-card loop. The clock, the chain tip and
  the card are inputs: a run is given the list of what it is shown in each turn.
- **Codecs** (`Radix`, `Base58`, `Base58Check`, `ByteIo`, `Codec`). Base58 on the digit and
  word buffers of the C code, and transactions, blocks and undo records.
- **Network** (`Wire`, `Eviction`, `AddrMan`). The send queue under partial writes and pushes
  from other threads, reassembly of messages from arbitrary reads, the choice of a peer to
  drop, and the address tables. Pushes from other threads are injected at every write.
- **Wallet** (`WalletLeaves`). Single-use leaves over signing, failed saves and restarts.

Where code and documentation differ the code is followed. The pool header says that
transactions with equal fee rates are listed in order of admission; the code lists the later
admission first, and so does the model.

Five promises turned out to hold only under a condition, and the condition is proved exact:

- A message survives every cut of the stream into reads exactly up to a payload of
  `MAX_PROTOCOL_MSG_SIZE - READ_CHUNK_SIZE + 1` bytes (`Wire.Delivery`,
  `Wire.LargerPayloadFails`).
- The address count equals new plus tried exactly when every slot holds a known entry of its
  own. A loaded line breaks this exactly when it gives one address a slot in both tables
  (`AddrMan.CountsAddUp`, `AddrMan.LineExactly`, `AddrMan.LoadExactly`).
- A parsed transaction prints back to the bytes it was read from exactly when every script
  size in them is in its shortest form and nothing follows the lock time; a block, when all its
  transactions are like that and nothing follows the last (`Codec.TxPrints`,
  `Codec.BlockPrints`). `Codec.TrailingBytes` and `Codec.LongFormLost` give inputs that fail.
- With more than twenty fully connected inbound peers there is a victim exactly when some
  member of the worst of the remaining groups connected at or after the epoch
  (`Eviction.EvictOneInboundPeer`). The condition is about the peers left by the protections,
  whose ties the source leaves to an unstable sort; no connection before the epoch is enough.
- An eviction raises the rolling fee rate above the evicted one exactly when the evicted rate
  is at most `INT64_MAX - 1000` (`Mempool.Mempool.TrimLocked`, `MempoolRules.BumpableExactly`).

The Base58Check scan for leading zeros stays within its buffer except on a buffer of zeros that
ends in its own checksum, under a text with at least as many leading ones; that condition is
exact too (`Base58Check.OverrunExactly`), though no such buffer is known.

## Model

| member | source | states |
|---|---|---|
| ArithUint256.Uint256.AddAssign | src/crypto/arith_uint256.h:144-154 | the new value is the sum modulo 2^256, for every pair of operands |
| ArithUint256.Uint256.Complement | src/crypto/arith_uint256.h:80-86 | the value is 2^256 - 1 minus the operand |
| ArithUint256.Uint256.Increment | src/crypto/arith_uint256.h:182-189 | adds one modulo 2^256, the carry loop stopping early included |
| ArithUint256.Uint256.Negate | src/crypto/arith_uint256.h:88-95 | the additive inverse modulo 2^256 |
| ArithUint256.Uint256.SubAssign | src/crypto/arith_uint256.h:156-160 | the difference modulo 2^256, also when operand and receiver are the same object |
| ArithUint256.Uint256.MulWordAssign | src/crypto/arith_uint256.cpp:52-62 | the product with a 32-bit word modulo 2^256 |
| ArithUint256.Uint256.MulAssign | src/crypto/arith_uint256.cpp:65-80 | the product modulo 2^256, also with itself |
| ArithUint256.Uint256.ShiftLeftAssign | src/crypto/arith_uint256.cpp:16-31 | multiplication by 2^shift modulo 2^256 for every shift |
| ArithUint256.Uint256.ShiftRightAssign | src/crypto/arith_uint256.cpp:34-49 | floor division by 2^shift for every shift |
| ArithUint256.Uint256.DivAssign | src/crypto/arith_uint256.cpp:83-108 | shift-subtract division is the exact floor for every nonzero divisor; a zero divisor fails and leaves zero |
| ArithUint256.Uint256.DivideBits | src/crypto/arith_uint256.cpp:96-107 | the loop over quotient bits ends with the floor of numerator over divisor |
| ArithUint256.Uint256.DivideBit | src/crypto/arith_uint256.cpp:98-102 | one bit of the quotient: the partial quotient, the remainder and the bits still clear stay in step |
| ArithUint256.Uint256.CompareTo | src/crypto/arith_uint256.cpp:111-121 | the sign of the difference of the two values |
| ArithUint256.Uint256.EqualTo | src/crypto/arith_uint256.cpp:124-136 | true exactly when the value is the given 64-bit number |
| ArithUint256.Uint256.Bits | src/crypto/arith_uint256.cpp:161-176 | the exact bit length, 0 for zero |
| ArithUint256.Uint256.GetLow64 | src/crypto/arith_uint256.h:264-268 | the value modulo 2^64 |
| ArithUint256.Uint256.SetCompact | src/crypto/arith_uint256.cpp:192-213 | the decoded magnitude modulo 2^256, with exact negative and overflow flags |
| ArithUint256.Uint256.GetCompact | src/crypto/arith_uint256.cpp:215-238 | the compact encoding of the value, with the sign bit only on request and only on a nonzero mantissa |
| LimbSteps.DivTake | src/crypto/arith_uint256.cpp:98-102 | subtracting the aligned divisor and setting the quotient bit keeps numerator = quotient * divisor + remainder |
| LimbSteps.MulRowStep | src/crypto/arith_uint256.cpp:68-77 | one row of long multiplication adds one limb times the other factor at its weight |
| LimbSteps.ShlDone | src/crypto/arith_uint256.cpp:21-29 | the limbs the left-shift loop leaves stand for the product modulo 2^256 |
| LimbSteps.ShrDone | src/crypto/arith_uint256.cpp:39-47 | the limbs the right-shift loop leaves stand for the floor |
| Compact.OverflowTest | src/crypto/arith_uint256.cpp:209-211 | the three-way size and mantissa test is true exactly when the magnitude does not fit 256 bits |
| Compact.EncodeIsLargest | src/crypto/arith_uint256.cpp:215-238 | the encoded value is at most x and no non-negative compact value lies above it and up to x |
| Compact.EncodeMonotone | src/crypto/arith_uint256.cpp:215-238 | a larger number never encodes to a smaller value |
| Compact.EncodeExact | src/crypto/arith_uint256.cpp:215-238 | every value the format can hold encodes to itself in value |
| Compact.EncodeIdempotent | src/crypto/arith_uint256.cpp:215-238 | encoding the decoded encoding gives the same 32 bits |
| Compact.EncodeFields | src/crypto/arith_uint256.cpp:228-236 | an encoding never has the sign bit set |
| Bytes32.FromBytes | src/crypto/arith_uint256.cpp:240-253 | the limbs hold the number the 32 big-endian bytes spell |
| Bytes32.ToBytes | src/crypto/arith_uint256.cpp:255-267 | the bytes spell the number the limbs hold |
| Bytes32.Compare | src/consensus/pow.cpp:193-196 | comparing bytes in order agrees with comparing the numbers |
| Pow.CheckProofOfWork | src/consensus/pow.cpp:13-30 | accepts exactly when the target is usable, within the limit, and the hash number is at most the target |
| Pow.PowLimitIs | src/consensus/pow.cpp:20-21 | the easiest target is 65535 * 2^208 |
| Pow.CalculateNextWorkRequired | src/consensus/pow.cpp:32-67 | the new bits encode the rescaled target, any wrap of the 256-bit product included, for all times whose difference fits 64 bits; unusable bits give the limit |
| Pow.Rescale | src/consensus/pow.cpp:60-64 | multiply, divide and cap in place give the rescaled target |
| Pow.RetargetBounded | src/consensus/pow.cpp:32-67 | from a target within the limit nothing wraps and the result is at most the limit and at most four times the old target |
| Pow.RetargetSteady | src/consensus/pow.cpp:32-67 | a period of exactly the ideal length leaves the target alone |
| Pow.RetargetMonotone | src/consensus/pow.cpp:32-67 | a slower period is never given a harder target |
| Pow.RetargetScales | src/consensus/pow.cpp:32-67 | a period between 80 and 400 percent of two weeks scales the target by what it took, a shorter one by four fifths, a longer one by four, rounded down and held to the limit |
| Pow.CalculateASERT | src/consensus/pow.cpp:81-136 | the limb computation returns the specified target for every reference, time and height the 64-bit offset can hold, and the limit for every unusable reference |
| Pow.ShiftAndClamp | src/consensus/pow.cpp:109-135 | shifting, the lost-bits test and the two clamps give floor(n * 2^k) held to [1, limit], with no bit lost unnoticed |
| Pow.ScaleUp | src/consensus/pow.cpp:120-126 | shifting left and back is the identity exactly when no bit was lost; otherwise the true value is above the limit |
| Asert.Factor | src/consensus/pow.cpp:102-105 | the cubic never exceeds 64 bits, and its factor stays in [65536, 131071]; how well it approximates is FactorFollows |
| Exponential.FactorFollows | src/consensus/pow.cpp:102-105 | the promised error: for every fraction f the 65536th power of factor / 65536 lies between 0.99987^65536 and 1.00013^65536 times 2^f, so the factor is 2^(f/65536) to within 0.013 percent |
| Exponential.SquareDoubles | src/consensus/pow.cpp:102-105 | a cubic close to the factor, squared, is its value at twice the fraction, doubled past the half, to within four parts in a million, at every fraction |
| Exponential.FollowsPower | src/consensus/pow.cpp:102-105 | over k doublings these errors never add up: its 2^k-th power at every multiple of 2^(16-k) is the power of two to within the 2^k-th power of one such error |
| Exponential.FactorNear | src/consensus/pow.cpp:102-105 | the rounded factor is within one part in 8000 of that cubic at every fraction |
| Asert.UnclampedStep | src/consensus/pow.cpp:96-128 | one more 65536th of a half-life never lowers the target, the wrap of the fraction included |
| Asert.TargetRisesWithTime | src/consensus/pow.cpp:81-136 | the target never falls as the time difference grows |
| Asert.TargetFallsWithHeight | src/consensus/pow.cpp:81-136 | the target never rises as the height difference grows |
| Asert.TargetAtHalfLives | src/consensus/pow.cpp:81-136 | at exactly k half-lives the target is ref * 2^k, rounded down and clamped |
| Pow.CalculateASERTBits | src/consensus/pow.cpp:143-170 | the bits encode the exponential target, from the anchor bits or the limit when those are unusable |
| Pow.AsertBitsRise | src/consensus/pow.cpp:143-170 | what the bits decode to never falls as the parent time grows, the rounding of the compact format included |
| Pow.AsertBitsFall | src/consensus/pow.cpp:143-170 | what the bits decode to never rises as the parent height grows |
| Pow.GetBlockProof | src/consensus/pow.cpp:172-184 | the bytes spell floor(2^256 / (target + 1)), zero for unusable bits |
| Pow.WorkOf | src/consensus/pow.cpp:182-182 | ~target / (target + 1) + 1 is that quotient, without 2^256 ever being formed |
| Pow.WorkMonotone | src/consensus/pow.cpp:172-184 | a harder target is never worth less work |
| Pow.AddChainWork | src/consensus/pow.cpp:186-191 | the total is the sum modulo 2^256 |
| Subsidy.SupplyCap | src/chainparams.cpp:40-44 | for every n the subsidies of the first n blocks sum to at most MAX_MONEY |
| Subsidy.Schedule | src/chainparams.cpp:208-212 | 77 coins for block 0, the same within an era, and half of it rounded down one era later, at every height |
| Subsidy.SupplyWithReserve | src/chainparams.cpp:208-212 | what is issued and what the current era can still issue never exceed two full first eras |
| Subsidy.SubsidyEnds | src/chainparams.cpp:208-212 | the subsidy is zero exactly from LAST_SUBSIDY_HEIGHT on |
| Mempool.Mempool.Run | src/consensus/mempool.cpp:452-646 | every run of public calls passes through states each of which follows from the one before by its call, entries, admission counter and rolling rate alike; it keeps all five maps and the byte count in agreement, the byte budget, every outpoint and leaf with at most one entry, and only entries that passed the admission tests; every rate asked is zero or at least one increment and never rises between two queries unless something was evicted between them |
| Mempool.Mempool.constructor | src/consensus/mempool.cpp:54-62 | an empty pool agrees with itself |
| Mempool.Mempool.RemoveLocked | src/consensus/mempool.cpp:122-139 | removes one entry from every index and nothing else |
| MempoolSpec.WithoutAgrees | src/consensus/mempool.cpp:122-139 | erasing one entry from everything keeps the indexes in agreement with the entries |
| MempoolSpec.WithAgrees | src/consensus/mempool.cpp:535-555 | entering a conflict-free entry everywhere keeps the indexes in agreement with the entries |
| Mempool.Mempool.CollectDescendantsLocked | src/consensus/mempool.cpp:349-373 | lists exactly the descendants, each once, the root first |
| Mempool.Descendants | src/consensus/mempool.cpp:349-373 | the breadth-first search terminates with exactly the least closed set around the root |
| MempoolSpec.ClosureIsReachability | src/consensus/mempool.cpp:349-373 | an entry is in that set exactly when a chain of in-pool spends leads to it from a root |
| MempoolSpec.ClosureUnique | src/consensus/mempool.cpp:349-373 | any set that holds the roots, is closed under spending and lies in every such set is the closure |
| MempoolSpec.ClosureInTwoSteps | src/consensus/mempool.cpp:375-383 | removing one closure and then another leaves what removing the closure of both root sets leaves |
| Mempool.Mempool.RemoveRecursiveLocked | src/consensus/mempool.cpp:375-383 | removes exactly the closure of the root and counts it |
| Mempool.Mempool.TrimLocked | src/consensus/mempool.cpp:416-434 | ends within the byte budget after evicting, each time, the cheapest entry of an over-full pool with all its descendants; the rolling rate then prices out exactly those victims whose rate leaves room for an increment in 64 bits |
| Mempool.OneMoreRepriced | src/consensus/mempool.cpp:422-428 | one bump keeps the rate sound and prices out its victim exactly when the victim's rate leaves room; earlier victims stay as they were |
| MempoolRules.BumpableExactly | src/consensus/mempool.cpp:418-428 | for every transaction of more than one byte there is room for the increment exactly when its fee is at most INT64_MAX / 1000 |
| MempoolRules.EvictionsRemoveClosure | src/consensus/mempool.cpp:416-434 | what trimming takes out is exactly the closure of the victims |
| MempoolRules.SurvivorsPayMore | src/consensus/mempool.cpp:416-434 | the fee key of every survivor exceeds that of every victim, and no victim paid a thousandth per byte more than a survivor does, fee and size multiplied out |
| Mempool.Mempool.ExpireLocked | src/consensus/mempool.cpp:436-450 | keeps exactly the entries young enough and counts the others, which leave without their descendants |
| Mempool.CountAncestors | src/consensus/mempool.cpp:385-408 | one more than the number of in-pool ancestors |
| MempoolRules.AncestorsUnique | src/consensus/mempool.cpp:385-408 | a set holding the parents, closed upward and inside every such set is the set of ancestors |
| Mempool.ConflictFree | src/consensus/mempool.cpp:460-483 | true exactly when no entry spends an input or uses a leaf of the transaction and it names no leaf twice |
| Mempool.ChainLimitsHold | src/consensus/mempool.cpp:501-533 | true exactly when the ancestor limit holds for the transaction and the descendant limit for each direct parent |
| Mempool.Mempool.GetMinFeeRateLocked | src/consensus/mempool.cpp:99-120 | in every sound state, the frozen one included, the rate asked is zero or at least one increment, is the least the rolling rate left in force asks for, and is never above the rate asked before |
| MempoolRules.DecayLowers | src/consensus/mempool.cpp:106-113 | decay only lowers the rolling rate and keeps it zero, or at least half an increment once a block has followed the last bump |
| Mempool.AnswerStep | src/consensus/mempool.cpp:99-120 | one more call keeps the answers in order: none exceeds an earlier one since which nothing was evicted |
| Mempool.Mempool.GetMinFeeRate | src/consensus/mempool.cpp:621-624 | answers a rate that is zero or at least one increment and leaves the pool valid |
| Mempool.Mempool.AddTransaction | src/consensus/mempool.cpp:452-560 | succeeds exactly when the transaction is admissible to the unexpired pool, which asks its fee per size to meet the rate in force, and survives the trim; in either case the entries, the counter and the rolling rate end as specified |
| MempoolSpec.FeeRate | src/consensus/mempool.cpp:487-492 | the rate times the size is at most a thousand fees and the next rate times it more, for every fee the product can hold; the highest rate for every larger one |
| MempoolRules.RateMeets | src/consensus/mempool.cpp:487-495 | comparing whole rates decides whether a thousand fees reach the rate asked times the size |
| MempoolRules.RankMeans | src/consensus/mempool.cpp:487-492 | an entry of a lower rate pays less per byte, fee times size compared crosswise, and one of an equal rate less than a thousandth more |
| MempoolRules.MinRate | src/consensus/mempool.cpp:99-120 | asks nothing for a rate of zero, one increment up to one, and the nearest whole rate above |
| Mempool.Mempool.RemoveTransaction | src/consensus/mempool.cpp:562-565 | removes that entry alone |
| Mempool.Mempool.RemoveForBlock | src/consensus/mempool.cpp:567-592 | what goes is exactly the closure of the block transactions and the entries in conflict with them |
| MempoolRules.AfterBlock | src/consensus/mempool.cpp:567-592 | afterwards no entry is a block transaction, spends an outpoint it spends, uses a leaf of one whose proofs parse, or spends an output of something removed |
| Mempool.Mempool.GetTransactions | src/consensus/mempool.cpp:607-619 | at most maxCount transactions in strictly falling fee key, and nothing left out ranks above one listed; so nothing listed later, or left out, pays a thousandth per byte more than one listed |
| Mempool.NothingShared | src/consensus/mempool.cpp:122-139 | when the indexes agree no two entries share an outpoint or a leaf |
| Mempool.Mempool.Clear | src/consensus/mempool.cpp:636-644 | an empty pool that agrees with itself |
| Base58.AlphabetInverse | src/crypto/base58.c:31-43 | the two alphabet tables are inverse to each other |
| Base58.Alphabet | src/crypto/base58.c:31-43 | the digits are exactly the letters and figures other than 0, O, I and l, in the order of their codes |
| Base58.DecodeEncode | src/crypto/base58.c:62-183 | decoding the encoding of any byte string gives it back, leading zeros included |
| Base58.EncodeDecode | src/crypto/base58.c:62-183 | encoding a decoding gives the text back, so no two texts decode alike |
| Base58.BufferSuffices | src/crypto/base58.c:155-157 | 138/100 + 1 digits always hold the number, shown by integers alone |
| Base58.AddByte | src/crypto/base58.c:160-167 | one byte into the digit buffer: all digits are those of 256 times the number plus the byte, though the loop stops at the high mark |
| Base58.B58Enc | src/crypto/base58.c:147-183 | succeeds exactly when the text fits, with the text and the size, and reports the size needed otherwise |
| Base58.AddDigit | src/crypto/base58.c:93-98 | one character into the word buffer, and the carry that did not fit |
| Base58.ReadText | src/crypto/base58.c:86-103 | fails exactly on a foreign character or a number that needs more bytes than asked for |
| Base58.WriteBytes | src/crypto/base58.c:105-117 | the bytes written stand for the same number as the words |
| Base58.B58ToBin | src/crypto/base58.c:62-130 | succeeds exactly on a text whose decoding fits, with the decoding right-aligned behind zeros and its length |
| Base58.RoundTrip | src/crypto/base58.c:62-183 | both buffers in turn return every byte string, for every buffer at least as long |
| Radix.SteppedNum | src/crypto/base58.c:94-98 | multiply-and-add digit by digit gives factor * number + addend exactly when no carry is left over |
| Base58Check.B58Check | src/crypto/base58.c:132-145 | the result code: too short, wrong checksum, leading zeros that do not match the text, or the first byte, on every buffer the scan stays within |
| Base58Check.OverrunExactly | src/crypto/base58.c:138-141 | the scan for leading zeros leaves the buffer exactly when all bytes are zero, they end in their own checksum, and the text has at least as many ones |
| Base58Check.EncodeCheck | src/crypto/base58.c:185-199 | succeeds exactly for data within the limit whose text fits, with the text of data and checksum |
| Base58Check.DecodeCheck | src/crypto/base58.c:201-217 | returns the data exactly when the text decodes within the buffer and ends in its checksum |
| Base58Check.OnesOnlyOverrun | src/crypto/base58.c:201-217 | an acceptable text makes that scan leave the buffer exactly when it consists of ones only |
| Base58Check.CheckRoundTrip | src/crypto/base58.c:185-217 | decoding an encoding returns the data for every buffer large enough |
| Bits.XorBit | src/crypto/sha2.c:138-155 | bit i of the exclusive or is the parity of the two bits |
| Bits.RotrBit | src/crypto/sha2.c:138-138 | rotating takes bit i + n, coming round, to bit i |
| Sha256.FunctionsByBit | src/crypto/sha2.c:145-155 | the six functions bit by bit: a choice, a majority, and the parity of three bits that rotate or fall off |
| Sha256.InitialIsRoots | src/crypto/sha2.c:209-218 | the initial words are the first 32 fractional bits of the square roots of the first eight primes |
| Sha256.RoundConstants0 | src/crypto/sha2.c:189-206 | the first eight round constants are the first 32 fractional bits of the cube roots of the first eight primes; seven lemmas like it cover the other 56 |
| Sha256.NextIsSchedule | src/crypto/sha2.c:814-821 | the rolling update computes the next word of the 64-word schedule |
| Sha256.WindowSlides | src/crypto/sha2.c:814-821 | the sixteen words always are the last sixteen of the schedule, each at its index modulo 16 |
| Sha256.Transform | src/crypto/sha2.c:780-847 | the looped transform is the compression function of section 6.2.2 of FIPS 180-4, also when the output is its own state or data buffer |
| Sha256.TransformUnrolled | src/crypto/sha2.c:701-776 | the unrolled transform, whose rounds rename instead of moving registers, is the same function |
| Sha256.UnrolledRound | src/crypto/sha2.c:705-721 | two changed registers under rotated names are one full round |
| Sha256.KernelTransform | src/node/miner_kernel.h:30-46 | the mining kernel, with all 64 schedule words at hand, computes the same function |
| Hashing.GapIsLeast | src/crypto/sha2.c:914-937 | the zero padding is the shortest that leaves room for the length field |
| Hashing.Context.constructor | src/crypto/sha2.c:683-690 | a new context has taken in the empty message |
| Hashing.Context.Resume | src/crypto/sha2.c:692-699 | a context set up from a state and a count has taken in the blocks behind them |
| Hashing.Context.Init | src/crypto/sha2.c:683-690 | a used context can be started again |
| Hashing.Context.Update | src/crypto/sha2.c:851-907 | a context that has taken in a message has then taken in the message and the data, whatever was in the buffer |
| Hashing.Context.Final | src/crypto/sha2.c:909-961 | the digest of the whole message padded per section 5.1.1 of FIPS 180-4, in one block or two, and a cleared context |
| Hashing.HashParts | src/crypto/sha2.c:851-961 | however a message is cut into updates the digest is that of the whole |
| Hashing.Raw | src/crypto/sha2.c:983-988 | the digest of the data |
| Hashing.UsedSpace | src/crypto/sha2.c:859-859 | the buffer position read from the bit counter is the message length modulo 64 even where the counter wraps |
| Hmac.HmacContext.constructor | src/crypto/hmac.c:30-46 | the context holds the outer pad and has taken in the inner pad, keys longer than a block hashed first |
| Hmac.HmacContext.Update | src/crypto/hmac.c:48-51 | takes the data in behind the message so far |
| Hmac.HmacContext.Final | src/crypto/hmac.c:53-60 | the code of section 2 of RFC 2104, and a cleared context |
| Hmac.HmacSha256 | src/crypto/hmac.c:62-68 | the code of section 2 of RFC 2104 for every key and message |
| Hmac.Prepare | src/crypto/hmac.c:70-102 | the two digests are the compressed outer and inner pads, the second made from the first by word operations |
| Pbkdf2.HmacWords | src/crypto/pbkdf2.c:61-62 | two transforms from the cached digests on a padded 32-byte message are one whole HMAC |
| Pbkdf2.Pbkdf2Context.constructor | src/crypto/pbkdf2.c:30-56 | the state after one iteration: the first HMAC, of salt and block number |
| Pbkdf2.Pbkdf2Context.Update | src/crypto/pbkdf2.c:58-68 | runs up to the count the first time and that many more later, each iteration xor-ing in the next HMAC |
| Pbkdf2.Pbkdf2Context.Final | src/crypto/pbkdf2.c:70-78 | the bytes of the block for the iterations done, and a context wiped of them and of the password |
| Pbkdf2.DeriveKey | src/crypto/pbkdf2.c:80-103 | the derived key of section 5.2 of RFC 8018 for every password, salt, count and length, last block cut; a count of zero acts as one |
| Header.BlockHeader.GetHash | src/primitives/block.cpp:72-86 | the hash of what the fields say now, cached or not |
| Header.BlockHeader.SetTimestamp | src/primitives/block.h:59-59 | changes the time and forgets the cached hash |
| Header.BlockHeader.SetNonce | src/primitives/block.h:62-62 | changes the nonce and forgets the cached hash |
| Header.BlockHeader.Serialize | src/primitives/block.cpp:107-119 | the 120-byte layout |
| Header.BlockHeader.SerializeTo | src/primitives/block.cpp:121-146 | succeeds exactly when the buffer is long enough, writes the same layout and nothing behind it |
| Header.BlockHeader.Deserialize | src/primitives/block.cpp:148-167 | fails exactly on short data; printing the result gives the first 120 bytes back |
| ByteIo.LittleEndian | src/primitives/block.cpp:13-43 | the first byte counts once, each later one 256 times as much as the one before it |
| Header.DecodeEncode | src/primitives/block.cpp:107-167 | printing what was parsed gives the same bytes |
| Header.EncodeDecode | src/primitives/block.cpp:107-167 | parsing what was printed gives the same header, whatever follows it |
| Miner.HeaderHash | src/miner.cpp:227-259 | two transforms from the midstate give SHA-256 of the 120 bytes, padding over two blocks |
| Miner.SetNonceWord | src/miner.cpp:440-443 | replacing word 13 by the byte-reversed nonce turns the blocks of a header into those of the header with that nonce |
| Miner.MiningBlocks.Build | src/miner.cpp:227-259 | the three blocks are those of the header |
| Miner.MiningBlocks.Attempt | src/miner.cpp:440-447 | the words returned are the hash of the header with that nonce, and the blocks stay good for the next |
| Miner.MiningBlocks.Try | src/miner.cpp:440-465 | true exactly when the header with that nonce solves the block |
| Miner.TopWordSkips | src/miner.cpp:449-449 | a hash whose top word exceeds the top word of the target exceeds the target |
| Miner.RunNonceLoop | src/miner.cpp:375-492 | for every run, of any length: true leaves a header that solves the block; every turn before it tried the next nonce at the time last set and failed; nothing found means the turns ran out or a refresh test after 65536 of them ended it; only time and nonce change, and unusable bits change nothing |
| Miner.Recheck | src/miner.cpp:323-341 | accepts a reported nonce exactly when the header with it solves the block |
| Miner.RunNonceLoopGpu | src/miner.cpp:261-373 | whatever the card reports, for every run: a nonce is accepted in the first turn in which it solves the block at the time then set, no turn before having ended the search; nothing found means the turns ran out or one ended it; only time and nonce change |
| Wire.RoundTrip | src/net/net.cpp:78-123 | a message parses back exactly when its payload is within the limit and it carries the magic of this network |
| Wire.ParsedPrintsBack | src/net/net.cpp:98-123 | whatever parses prints back to the bytes it was parsed from |
| Wire.Sender.PushMessage | src/net/net.cpp:211-214 | adds the message behind everything pushed before, and keeps what was pushed conserved |
| Wire.Sender.Pass | src/net/net.cpp:2283-2351 | one pass, with partial, blocked and failing writes and pushes in between, ends in the specified state; sent and pending bytes together stay what was pushed in push order; if the socket takes something in as many turns as bytes are pending, everything pushed before the pass is sent |
| Wire.WriteOutKeeps | src/net/net.cpp:2299-2328 | the writing loop conserves what was pushed before it and hears exactly the arrivals of the turns it took |
| Wire.WriteOutEmpties | src/net/net.cpp:2299-2328 | the writing loop empties its queue whenever the socket takes something in as many turns as bytes are pending |
| Wire.PassKeeps | src/net/net.cpp:2283-2351 | what is left goes back in front of what arrived meanwhile, and nothing is lost or reordered while connected |
| Wire.PassEmpties | src/net/net.cpp:2283-2351 | such a pass keeps the connection, sends all that was pushed before it and leaves only the arrivals queued |
| Wire.WriteOutEnds | src/net/net.cpp:2299-2328 | writing breaks exactly when the last turn taken failed; the note of a stall is cleared exactly when some byte was taken; without that nothing was sent |
| Wire.PassOutcome | src/net/net.cpp:2283-2351 | a pass ends the connection exactly when its last write failed, or when bytes are left, none was taken and the stall is sixty seconds old; the stall noted afterwards is none, this pass or the one before by the same tests |
| Wire.Patience | src/net/net.cpp:2329-2351 | a socket that is only full for now keeps its connection for sixty seconds |
| Wire.StallMeans | src/net/net.cpp:2329-2351 | over every run: a noted stall is the time of a pass that left bytes behind, since which no byte was taken |
| Wire.EndsOnly | src/net/net.cpp:2283-2351 | over every run: a connection ends in a pass only, on a failed write or sixty seconds after a pass since which not one byte was taken |
| Wire.RunSender | src/net/net.cpp:2264-2353 | the loop over any run of pushes and passes ends in the state that folding the calls specifies |
| Wire.RunKeeps | src/net/net.cpp:2264-2353 | over every run what was sent is a beginning of the pushes and arrivals printed in the order of the calls, all of it once the queue is empty |
| Wire.EndToEnd | src/net/net.cpp:1026-1088 | for every sender run and every cut of what it sent into reads, a receiver that finds nothing wrong with the messages handles a beginning of them in push order, and all of them once the queue is empty |
| Wire.EventuallyHandled | src/net/net.cpp:2264-2353 | once a run ends with a pass in which the socket takes something in as many turns as bytes were pending, exactly what was pushed before that pass has been handled |
| Wire.WriteConserves | src/net/net.cpp:2305-2328 | a partial write moves bytes from pending to sent and changes nothing else |
| Wire.Receiver.HandleRead | src/net/net.cpp:1026-1088 | one read: the buffer, the messages handled, the penalty points and the connection end as specified on every input, malformed or not |
| Wire.AnyStream | src/net/net.cpp:1026-1088 | whatever bytes arrive, however cut: the messages handled, printed, are what the bytes begin with and the buffer is what follows; while open that is every byte, and no whole message of this network waits; the connection ends only on too much data, an announced size above the limit, the ban score of foreign messages, or a handler |
| Wire.DrainAccounts | src/net/net.cpp:1048-1088 | handling what is in the buffer loses no byte, whatever the bytes are |
| Wire.Delivery | src/net/net.cpp:1026-1088 | for every cut of the stream, or of a beginning of it, into reads of at most a chunk, the messages are handled in order, each once it is whole, and the whole stream wholly |
| Wire.ReceiveFollows | src/net/net.cpp:1035-1047 | one read keeps up with the stream and cannot overfill the buffer |
| Wire.LargerPayloadFails | src/net/net.cpp:1040-1046 | the payload bound of the delivery result is exact: any larger payload within the declared limit is lost under some cut |
| Eviction.ProtectBest | src/net/net.cpp:1797-1802 | sets the k best aside, nothing lost or added, and clears a list of at most k |
| Eviction.ProtectByNetwork | src/net/net.cpp:1829-1877 | sets aside exactly as many onion and local peers as there are up to a quarter of the candidates, the longest connected of each first |
| Eviction.Rank | src/net/net.cpp:1797-1884 | of more than twenty candidates twenty are protected by four rankings and half of the others by time connected; ceil((m - 20) / 2) are left |
| Eviction.WorstGroup | src/net/net.cpp:1886-1907 | the largest group, among equals the one whose oldest member is newest, among those the first by name |
| Eviction.WorstUnique | src/net/net.cpp:1886-1907 | there is only one such group |
| Eviction.NewestOf | src/net/net.cpp:1909-1920 | the first newest member of a group, exactly when one connected at or after the epoch |
| Eviction.EvictOneInboundPeer | src/net/net.cpp:1755-1934 | no victim up to twenty fully connected inbound nodes; above that the victim is the newest node of the worst group left by the protections, fully connected, inbound and connected at or after the epoch, and it is missing exactly when that whole group connected before the epoch; at least so many other nodes are no worse by group hash, ping, last transaction, last block, time connected and own network as each protection keeps |
| Eviction.CandidateIs | src/net/net.cpp:1773-1793 | a candidate is some fully connected inbound node, field by field |
| Eviction.CandidateCount | src/net/net.cpp:1768-1795 | there are as many candidates as fully connected inbound nodes |
| Eviction.SparedBy | src/net/net.cpp:1797-1884 | what the six protections mean for a victim in terms of the nodes: four others no higher by group hash, eight no longer by ping if it was measured, four no earlier by transaction and four by block, a quarter of those beyond twenty connected as long, and if it came over an own network a quarter that did |
| Eviction.SameGroup | src/net/addrman.cpp:118-145 | two addresses share a group exactly when both are hidden services with the same first character, or share the first two bytes of an IPv4 or the first eight of an IPv6 address, or are the same unparsed text |
| AddrMan.AddrManager.AddLocked | src/net/addrman.cpp:178-210 | takes its slot unless a good address holds it, and only a terrible one can be forgotten; every entry keeps a slot |
| AddrMan.AddrManager.Add | src/net/addrman.cpp:212-225 | refuses an empty address or port zero and changes nothing; otherwise the tables end as AddLocked leaves them for the entry heard now |
| AddrMan.AddrManager.Attempt | src/net/addrman.cpp:227-237 | the attempt count and time of a known address change and nothing else does |
| AddrMan.AddrManager.Good | src/net/addrman.cpp:239-278 | the whole new state: a known address ends in its tried slot and no new slot; whoever held the slot moves back if its new slot is free and is forgotten otherwise |
| AddrMan.AddrManager.Load | src/net/addrman.cpp:432-468 | every line taken in turn; every entry keeps a slot; the counts still add up if no line doubles an address, and, when all known entries are good and the lines not skipped are timely, only if |
| AddrMan.LineExactly | src/net/addrman.cpp:448-464 | one loaded line breaks the sum of counts exactly when it is usable, was once reached, finds its tried slot free, and is known already or finds room in the new table |
| AddrMan.LoadExactly | src/net/addrman.cpp:432-468 | a whole load keeps the sum exactly when no line in turn doubles an address, for good entries and lines that are timely or skipped |
| AddrMan.AddrManager.Select | src/net/addrman.cpp:280-346 | finds an address exactly when some known one is not terrible, whatever the coins say |
| AddrMan.SizeBound | src/net/addrman.cpp:178-278 | at most (1024 + 256) * 64 entries |
| AddrMan.FewNewBuckets | src/net/addrman.cpp:147-155 | whatever one source group tells about lands in at most 64 of the 1024 new buckets |
| AddrMan.FewTriedBuckets | src/net/addrman.cpp:157-162 | the reached addresses of one group lie in at most 8 of the 256 tried buckets |
| AddrMan.GoodMeans | src/net/addrman.cpp:89-107 | an address is kept exactly when it was tried within a minute, or was seen within thirty days and at most ten minutes ahead and was tried less than three times, or once reached, less than ten times or reached within a week |
| AddrMan.StaysTerrible | src/net/addrman.cpp:89-107 | time alone restores no address, other than one seen too far ahead |
| AddrMan.CountsAddUp | src/net/addrman.cpp:366-391 | size equals new count plus tried count exactly when every slot holds a known entry of its own |
| AddrMan.Run | src/net/addrman.cpp:178-468 | every run ends in the state that folding the calls specifies; each entry has a slot, each tried key one tried slot, the size is bounded, and without loading the counts add up |
| AddrMan.LoadCountsTwice | src/net/addrman.cpp:454-464 | any once-reached address loaded into an empty manager is counted in both tables, so the sum fails with loading |
| WalletLeaves.DeriveLeafIndices | src/wallet/noise_otp.cpp:330-359 | the leaves are read from the hash over transaction, pool and both indices, all within the pool |
| WalletLeaves.MarkedBits | src/node/wallet_manager.cpp:1086-1093 | marking a leaf marks that leaf and no other; a leaf beyond the map is not recorded |
| WalletLeaves.Wallet.MarkNoiseLeafUsed | src/node/wallet_manager.cpp:1086-1093 | the used leaves are the old ones and the given one |
| WalletLeaves.Wallet.SaveToFile | src/node/wallet_manager.cpp:1131-1138 | the trimmed bitmap on disk lists the same leaves as memory; a failed save changes nothing |
| WalletLeaves.Wallet.LoadFromFile | src/node/wallet_manager.cpp:1308-1331 | memory lists exactly the leaves of the file, of either version, and an implausible file is refused |
| WalletLeaves.Wallet.Sign | src/node/wallet_manager.cpp:855-941 | succeeds exactly when enough leaves remain, none is used or asked for twice, and the save succeeds; then all are on disk |
| WalletLeaves.History | src/node/wallet_manager.cpp:855-941 | the loop over any history of signing, failed saves, chain updates and restarts gives each step its outcome, and no two signed transactions share a leaf |
| WalletLeaves.NoLeafTwice | src/node/wallet_manager.cpp:855-941 | over every history the leaves of two transactions that were signed are disjoint |
| Codec.CompactBack | src/primitives/transaction.cpp:175-223 | every 64-bit size reads back, at its computed length |
| Codec.CompactShortest | src/primitives/transaction.cpp:198-223 | longer forms of a size are accepted; the bytes are the writer's own exactly when the form is shortest |
| Codec.InputBack | src/primitives/transaction.cpp:91-141 | an input reads back exactly when its proof is within the limit, at its computed length |
| Codec.OutputBack | src/primitives/transaction.cpp:225-257 | an output reads back exactly when its value is not negative and its script within the limit |
| Codec.AllBack | src/primitives/transaction.cpp:441-456 | a printed list reads back exactly when each of its items does |
| Codec.TxBack | src/primitives/transaction.cpp:415-463 | a transaction parses back to itself, whatever follows it, exactly when it is within the limits |
| Codec.TxPrints | src/primitives/transaction.cpp:415-463 | whatever parses prints to at most the bytes it was read from, and to exactly those when every script size stands in its shortest form and nothing follows the lock time |
| Codec.TrailingBytes | src/primitives/transaction.cpp:433-463 | with anything behind it a printed transaction still parses, and then does not print back |
| Codec.LongFormLost | src/primitives/transaction.cpp:198-223 | a transaction with one size in three bytes instead of one parses to its last byte and does not print back |
| Codec.ListTight | src/primitives/transaction.cpp:441-456 | a list prints to as many bytes as it was read from exactly when each of its items does |
| Codec.TxLength | src/primitives/transaction.cpp:401-431 | the printed length is the computed size, with or without proofs |
| Codec.SerializeTx | src/primitives/transaction.cpp:415-431 | the loops print that layout at the computed size; what either form determines is TxDetermined and ProofsCut |
| Codec.TxDetermined | src/primitives/transaction.cpp:415-431 | in either form two transactions with the same bytes are the same, up to the proofs the shorter form leaves out |
| Codec.ProofsCut | src/primitives/transaction.cpp:109-118 | the shorter form is the longer one with every proof and its length cut out |
| Codec.DeserializeTx | src/primitives/transaction.cpp:433-463 | the loops read exactly what the specification reads, on every input |
| Codec.BlockBack | src/primitives/block.cpp:316-357 | a block parses back to itself exactly when it has at most 10000 transactions, each within its limits |
| Codec.BlockPrints | src/primitives/block.cpp:316-357 | whatever parses prints to at most the bytes it was read from, and to exactly those when every transaction is canonical and nothing follows the last one |
| Codec.BlockLength | src/primitives/block.cpp:306-328 | the printed length is the computed size |
| Codec.SerializeBlock | src/primitives/block.cpp:316-328 | the loop prints that layout at the computed size |
| Codec.DeserializeBlock | src/primitives/block.cpp:330-357 | the loop reads exactly what the specification reads, on every input |
| Codec.CoinBack | src/storage/block_undo.cpp:29-50 | a coin reads back, negative values included |
| Codec.UndoBack | src/storage/block_undo.cpp:52-98 | an undo record parses back to itself exactly when neither count is above the limit |
| Codec.SerializeUndo | src/storage/block_undo.cpp:52-63 | the nested loops print that layout |
| Codec.DeserializeUndo | src/storage/block_undo.cpp:65-98 | the nested loops read exactly what the specification reads, on every input |

## Left out

- Chain state, the UTXO set, block and transaction validation and noise proofs are not part of this model.
- Sockets, timers, the RPC server, the command line, logging, configuration and file systems are not modelled; where they matter their outcomes are parameters.
- The pool's `Save` and `Load`: they would only add another codec and repeated calls to `AddTransaction`.
- The pool takes a transaction's hash, size and leaf keys as given fields, so `ExtractLeafKeys`, `HashToKey` and `OutpointKey` are not modelled; outpoints are pairs.
- Mempool.Mempool.GetMinFeeRateLocked: rates are real numbers and the exponential decay is a parameter, so floating-point rounding is not modelled.
- Mempool.Mempool.AddTransaction: the 64-bit sequence counter is an unbounded integer.
- Mempool.Mempool.TrimLocked: the signed sum of evicted rate and increment wraps around where the language leaves it undefined.
- Mempool.Mempool.ValidateForPool: has no row of its own; its tests are part of `Admissible` in AddTransaction and of what Run keeps of every entry.
- Pow.CalculateASERT: requires, when the reference is usable, that the height and time offsets fit the 64-bit arithmetic the source does them in.
- Pow.CalculateNextWorkRequired: requires the signed difference of the two times to fit 64 bits, since the source's behaviour is undefined otherwise.
- Pow.CalculateASERTBits: requires the same of its time difference and offset, when the anchor bits are usable.
- Header.BlockHeader.SetTimestamp: the other setters follow the same pattern and are not repeated.
- Hashing.Context.Update: the in-place byte reversal of the buffer on little-endian machines is modelled as reading big-endian words from it; the leftover bytes behind the message are never read.
- Hashing.Context.Final: the length field is the bit count modulo 2^64, as in the source; FIPS 180-4 excludes longer messages.
- Pbkdf2.DeriveKey: requires a key length below 2^31, the range of the source's `int`.
- Base58Check.B58Check: requires that the scan for leading zeros stays within the buffer, by the exact condition of OverrunExactly; the source reads on past the buffer otherwise.
- Base58Check.DecodeCheck: requires an acceptable text not to consist of ones only, for the same reason.
- Miner.RunNonceLoop: hash-rate reporting is left out, and the masked shifts that reverse the nonce are written as the four bytes they select.
- Miner.RunNonceLoopGpu: the search on the card is not modelled, only that its answer is checked again.
- Wire.Receiver.HandleRead: what a handler does to the peer is a function of the message and of how many came before it.
- Eviction.ProtectBest: the library sort is modelled by taking out a best candidate at a time, so the order of those left is not that of the sort, and which of several equally new members of a group goes is not fixed.
- Eviction.EvictOneInboundPeer: the system's address parser and the keyed hash of the group are fields of a node.
- AddrMan.AddrManager.Select: the weighted coin is a parameter and the scan order is arbitrary; `Chance` is not modelled.
- AddrMan.AddrManager.AddLocked: the keyed hash and the network group are arbitrary functions, tables map slots to keys instead of resizing vectors, and counters are unbounded.
- WalletLeaves.Wallet.SaveToFile: only the leaf map of the wallet file is modelled, and replacing the file is one step.
- SHA-512, SHA-1, RIPEMD-160, Keccak, Ed25519 and AES are not part of this model.
- Script templates, Merkle roots, orphan blocks and seed lists would only add easier members.

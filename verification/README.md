# Push Chain node: verified core

A Dafny model of the parts of the Push Chain node and its universal client whose
behaviour is decided by intricate code, with proofs of what they promise. The command
`dafny verify dfyconfig.toml` checks the whole project.

| file | what it models |
|---|---|
| `Basics.dfy` | machine integers, optional values, division facts |
| `Varint.dfy` | base-128 varints: reader, printer, size |
| `ChainMetaWire.dfy` | the ChainMeta parser as a stream of records, and its locality |
| `ChainMetaCodec.dfy` | laws of the wire format: merge, round trips, packed lists |
| `ChainMetaMessage.dfy` | the message object: size, backward marshal, unmarshal |
| `RewardSplit.dfy` | the boost arithmetic of one denomination |
| `RewardBoost.dfy` | the uvalidator begin blocker over coin sets and module accounts |
| `Base58.dfy` | Base58 as base conversion |
| `Canonical.dfy` | canonical ballot and storage keys |
| `Signer.dfy` | the signer's sequence cache and retry loop |
| `ChainSync.dfy` | one synchronization of the chain manager on values, and its runs |
| `ChainManager.dfy` | the chain manager object with its lock |
| `RoundRobin.dfy` | endpoint failover |
| `MsgPolicy.dfy` | gasless transactions and the message filter |
| `Ballots.dfy` | ballots, quorum, and when a ballot can still be decided |
| `BallotKeeper.dfy` | the ballot keeper and its runs |

## How the models are built

- **ChainMeta codec.** Reading a buffer does not depend on the message being filled. The
  reference is therefore a stream of records (`Records`) folded into a message (`Fold`). The
  imperative parser is proved equal to it for every byte string, error kinds included. Go
  strings are byte sequences. The disjunction of the shift loop is bitwise (`Or`) and is proved to be a
  sum (`OrIsSum`); masks and shifts are remainders and products. The helpers `Sov`, `EncodeVarint`
  and `Skip` of the protobuf runtime are written out as in `x/uexecutor/types/chain_meta.pb.go`, which
  carries the same algorithms. A buffer is shorter than 2^63 bytes, as every Go slice is. `Left` says what the parser leaves in the
  message, after an error too.
- **Rewards.** A decimal is an integer count of 10^-18. Voting powers are non-negative and their
  sum fits an int64, which the consensus engine guarantees. Reward entries are the log of calls
  to the distribution keeper, which may refuse one. A run of blocks adds any income to the fee collector
  and lets distribution sweep it after each block, as the order in `app/app.go:1096-1097` has it.
- **Canonical keys.** The meaning of a value (`HexMeaning`, `SolanaTxMeaning`,
  `SolanaAddressMeaning`) is defined without the canonicalizers: the bytes it denotes, or the
  trimmed text when it is malformed. The kernel lemmas say that two values share a key exactly
  when their meanings are equal. The Keccak digest behind EIP-55 is a parameter, so the lemmas
  hold for every digest.
- **Signer.** The environment of a call says whether the messages can be wrapped and, for each attempt,
  which local step fails, what the query answers and how each broadcast sequence is answered. A
  successful broadcast carries a response. The chain is a committed and a mempool sequence.
- **Chain manager.** Creating a client may fail, per list entry. The read-write lock is modelled
  where a method asks for it while its own goroutine holds it. A run of the manager freezes there.
- **Ballots.** The threshold of a ballot is what its opening vote asks for: more than two thirds for
  inbound, outbound and fund-migration votes, everyone for a TSS key.
- **Message policy.** `WellPacked` says that inner messages unpack to the type their URL names.

## Where the code does not do what one would expect

- A packed list is bounded by the buffer, not by its declared length: the last element of a
  packed chunk may take bytes of the next record (`PackedOverrunExample`). It does so exactly when the
  chunk is not empty and its last byte has the high bit set (`PackedEndsAtDeclaredEnd`).
- "One form per value" fails for Solana addresses: `0x00` and `1` denote the same byte and
  get different keys (`SolanaAddressesCanDiffer`). Well-formed addresses of the same bytes share a
  key exactly when they use the same notation (`SolanaAddressKernel`).
- The removal of stale chains holds the read lock while it asks for the write lock. A sync
  of a fetched list completes exactly when the list still names every managed chain (`FetchAndUpdate`).
  A run blocks exactly at its first list that does not (`RunBlocksIff`, `EmptyListBlocks`).
- Against a chain with pending transactions whose query reports the committed sequence, a call of the
  signer succeeds exactly when its cache is the mempool sequence (`SucceedsIff`, `PendingCanDefeatCall`).
- A non-zero code is taken for a consumed sequence, but broadcasts are synchronous
  (`universalClient/pushcore/pushCore.go:289`), so a code of any kind means that the mempool did not
  take this broadcast. A call caches the sequence after such a broadcast exactly when the first
  broadcast not refused as mismatched, or the third one, is answered with a code
  (`UntakenSequenceCountedIff`, `OtherCodeAdvancesCache`). For mismatch codes alone that takes three
  refusals, the last by code (`RefusedSequenceCountedIff`, `MismatchCanAdvanceCache`).
- The round robin is unfair when the 32-bit counter wraps, unless the number of
  endpoints divides 2^32 (`FairIff`, `WrapCanBeUnfair`).
- Recomputing a ballot's quorum is meant to be followed by a new vote, but voters who have voted
  cannot vote again. A recomputed ballot can be decided exactly when it is open
  (`CanBeDecidedIff`), and it can hold a full quorum and still be stuck (`RecomputedCanBeStuck`).
- Recomputing also replaces the voters and the threshold of a ballot that needs every participant. It
  can then pass without a participant who is still a voter (`RecomputedLosesUnanimity`) or who was
  dropped (`RecomputedDropsParticipants`). For each participant, `RecomputedUnanimityIff` says exactly
  when: never with a kept yes; with a pending vote, when the others left reach the new threshold; when
  dropped or after a no, when the votes left reach it; and in each case only while someone is left.
- The admin revert says to recompute a stuck ballot in order to expire it. Recomputations expire a
  pending ballot exactly when one of them finds no eligible voter (`RecomputationsExpireIff`), so a
  stuck ballot whose voters are still eligible stays pending (`StuckBallotStaysPending`).
- An authz execution without inner messages is a gasless transaction (`EmptyExecIsGasless`). A gasless
  transaction carries no whitelisted message exactly when it consists of such executions
  (`GaslessCarriesNothingIff`).

## Model

| member | source | states |
|---|---|---|
| Varint.ReadVarintLoop | api/uexecutor/v1/chain_meta.pulsar.go:808-822 | on every buffer and index the shift loop yields the 64-bit varint there and the index after it, overflow after ten bytes, or unexpected end; in every case it has gathered exactly the bits of the bytes it read |
| Varint.VarintMeans | api/uexecutor/v1/chain_meta.pulsar.go:808-822 | a varint is read exactly when one of the next ten bytes has no continuation bit; its value is the little-endian value of the seven-bit groups up to there in 64 bits; otherwise ten bytes overflow and fewer are an unexpected end |
| Varint.GatheredMeans | api/uexecutor/v1/chain_meta.pulsar.go:1128-1142 | a read that fails has gathered the low bits of up to ten bytes, least significant first |
| Varint.OrIsSum | api/uexecutor/v1/chain_meta.pulsar.go:818-818 | a bitwise disjunction of bits below a position and bits from it on is their sum |
| Varint.OrShifted | api/uexecutor/v1/chain_meta.pulsar.go:818-818 | the bitwise OR of one loop turn neither carries nor wraps, so it is the sum modulo 2^64 and stays below the next shift |
| Varint.SovIsLength | x/uexecutor/types/chain_meta.pb.go:374-376 | the predicted size, from the bit length, is the number of bytes the varint loop writes, for every value |
| Varint.EncodedMeans | api/uexecutor/v1/chain_meta.pulsar.go:714-722 | a printed varint is the little-endian value with continuation bits on all bytes but the last, and it is minimal |
| Varint.VarintRoundTrip | api/uexecutor/v1/chain_meta.pulsar.go:714-722 | every 64-bit value is read back from its varint, whatever bytes follow |
| Varint.VarintLength | api/uexecutor/v1/chain_meta.pulsar.go:809-812 | no 64-bit value needs more than the ten bytes the reader allows |
| Varint.EncodeVarintAt | x/uexecutor/types/chain_meta.pb.go:317-327 | the varint lands directly below the offset, the bytes above and below it are kept, and the returned base is the offset less the predicted size |
| Varint.PutVarint | api/uexecutor/v1/chain_meta.pulsar.go:714-722 | the inline loop writes exactly the varint's bytes from j on and nothing else |
| ChainMetaWire.ReadRecord | api/uexecutor/v1/chain_meta.pulsar.go:806-1179 | every record that is read ends after its start and inside the buffer, also when the unknown branch rewinds to the tag; this is the termination and bounds argument |
| ChainMetaWire.RecordWindow | api/uexecutor/v1/chain_meta.pulsar.go:806-1179 | a record read inside a window of a buffer is read the same, at the shifted place, in the whole buffer |
| ChainMetaWire.RecordCut | api/uexecutor/v1/chain_meta.pulsar.go:806-1179 | a record depends on nothing outside the bytes it consumes |
| ChainMetaWire.SkipCut | x/uexecutor/types/chain_meta.pb.go:760-837 | a successful skip, nested groups included, depends only on the prefix it consumes |
| ChainMetaCodec.ConcatIsMerge | api/uexecutor/v1/chain_meta.pulsar.go:806-1184 | once a parses, a+b parses exactly when b does, and then equals parsing b into the result of a |
| ChainMetaCodec.RecordsConcat | api/uexecutor/v1/chain_meta.pulsar.go:806-1179 | once a is a record stream, a+b is one exactly when b is, and its records are those of a then those of b |
| ChainMetaCodec.FoldLists | api/uexecutor/v1/chain_meta.pulsar.go:894-1175 | list fields, signers and unknown bytes are what was there followed by what the records carry, in order; unknown bytes only when not discarded |
| ChainMetaCodec.FoldScalars | api/uexecutor/v1/chain_meta.pulsar.go:862-1161 | chain id, median index and applied height take the last record's value, or stay |
| ChainMetaCodec.StreamRoundTrip | api/uexecutor/v1/chain_meta.pulsar.go:806-1184 | every printable record stream, in any order and any split into chunks, parses back to itself |
| ChainMetaCodec.PackedAndUnpackedAgree | api/uexecutor/v1/chain_meta.pulsar.go:896-1123 | any split of a list into packed chunks and single-varint records appends the same list, for all three list fields and any starting message |
| ChainMetaCodec.TextTags | api/uexecutor/v1/chain_meta.pulsar.go:832-895 | parsing tag 0x0a with any bytes sets the chain id, and tag 0x12 appends a signer, into any message |
| ChainMetaCodec.PackedTags | api/uexecutor/v1/chain_meta.pulsar.go:896-1123 | parsing tags 0x1a, 0x22 and 0x2a with any packed list appends it to prices, chain heights and storage times, into any message |
| ChainMetaCodec.VarintTags | api/uexecutor/v1/chain_meta.pulsar.go:896-1161 | parsing tags 0x18, 0x20 and 0x28 with any varint appends it to the same lists, and 0x30 and 0x38 set the median index and the applied height |
| ChainMetaCodec.BoundsTable | api/uexecutor/v1/chain_meta.pulsar.go:836-861 | a length-delimited field is refused for a negative or overflowing length, then for running past the end, and otherwise spans exactly its length |
| ChainMetaCodec.RefusedTags | api/uexecutor/v1/chain_meta.pulsar.go:823-1127 | an end-group tag, a field number that is not positive in 32 signed bits, and each wrong wire type are refused with their own error, whatever follows |
| ChainMetaCodec.TextRecords | api/uexecutor/v1/chain_meta.pulsar.go:832-895 | fields 1 and 2 under any spelling of tag and length carry exactly the spanned bytes |
| ChainMetaCodec.VarintRecords | api/uexecutor/v1/chain_meta.pulsar.go:896-1161 | fields 3 to 7 under any spelling of a varint tag carry exactly that varint, each to its own field |
| ChainMetaCodec.PackedRecords | api/uexecutor/v1/chain_meta.pulsar.go:914-968 | fields 3 to 5 under any spelling of a packed tag carry the packed elements, each to its own list |
| ChainMetaCodec.PackedElements | api/uexecutor/v1/chain_meta.pulsar.go:951-968 | packed elements are varint after varint until the declared end is reached |
| ChainMetaCodec.FixedWidths | x/uexecutor/types/chain_meta.pb.go:795-827 | an unknown record of wire type 1 takes eight bytes after its tag and one of wire type 5 four, or ends unexpectedly; wire types 6 and 7 are refused |
| ChainMetaCodec.VarintWidth | x/uexecutor/types/chain_meta.pb.go:782-794 | an unknown record of wire type 0 ends after its varint |
| ChainMetaCodec.LengthWidth | x/uexecutor/types/chain_meta.pb.go:797-816 | an unknown record of wire type 2 ends after the bytes its length announces |
| ChainMetaCodec.GroupBrackets | x/uexecutor/types/chain_meta.pb.go:817-823 | a group starts with its tag, ends right after the matching end tag, and an end tag without a start is refused |
| ChainMetaCodec.GroupStepsOver | x/uexecutor/types/chain_meta.pb.go:760-837 | inside a group at any depth a complete field, groups included, is stepped over |
| ChainMetaCodec.RoundTrip | api/uexecutor/v1/chain_meta.pulsar.go:677-1185 | printing and parsing into an empty message gives the message back, for every message whose unknown bytes are a stream of unknown records; empty signers included |
| ChainMetaCodec.ParsedUnknownIsClean | api/uexecutor/v1/chain_meta.pulsar.go:1162-1178 | the unknown bytes the parser collects are always such a stream, so every parsed message round-trips |
| ChainMetaCodec.ParsePrintParse | api/uexecutor/v1/chain_meta.pulsar.go:677-1185 | whatever any buffer parses to, the print of that message parses to it again |
| ChainMetaCodec.EncodeInjective | api/uexecutor/v1/chain_meta.pulsar.go:677-792 | two messages with such unknown bytes and the same print are equal |
| ChainMetaCodec.PackedEndsAtDeclaredEnd | api/uexecutor/v1/chain_meta.pulsar.go:951-968 | a packed chunk ends at its declared end exactly when it is empty or its last byte closes a varint |
| ChainMetaCodec.PackedOverrunExample | api/uexecutor/v1/chain_meta.pulsar.go:951-968 | a one-byte chunk that opens a varint takes the next byte of the buffer and parses |
| ChainMetaCodec.FailedParseKeepsPrefix | api/uexecutor/v1/chain_meta.pulsar.go:806-1184 | a failed parse has applied exactly the records before the first error, which parse on their own, and then what the failing record wrote before failing |
| ChainMetaCodec.AbandonedScalars | api/uexecutor/v1/chain_meta.pulsar.go:1128-1161 | a scalar record that fails leaves the bits of up to ten bytes in its field |
| ChainMetaCodec.AbandonedLists | api/uexecutor/v1/chain_meta.pulsar.go:896-1123 | a list record that fails leaves the elements before the failing one in its own list |
| ChainMetaCodec.AbandonedOthers | api/uexecutor/v1/chain_meta.pulsar.go:806-1178 | any other failing record leaves the message as it was |
| ChainMetaCodec.ParsedIsLeft | api/uexecutor/v1/chain_meta.pulsar.go:806-1184 | a successful parse leaves exactly the parsed message |
| ChainMetaMessage.ReadLength | api/uexecutor/v1/chain_meta.pulsar.go:836-861 | length prefixes with the negative-length, int64-overflow and end-of-buffer errors, in that order |
| ChainMetaMessage.ReadIntsLoop | api/uexecutor/v1/chain_meta.pulsar.go:896-971 | the list case reads exactly the record, or fails with its first error; the list has grown by the values read up to there |
| ChainMetaMessage.ReadPackedLoop | api/uexecutor/v1/chain_meta.pulsar.go:951-968 | the packed loop reads to the end of the chunk or to its first error and has appended every element read before it |
| ChainMetaMessage.Skip | x/uexecutor/types/chain_meta.pb.go:760-837 | the skipping loop agrees with the recursive definition on every byte string and terminates |
| ChainMetaMessage.EncodeByField | api/uexecutor/v1/chain_meta.pulsar.go:693-782 | the print is the chain id under 0x0a, the signers, the packed lists under 0x1a, 0x22 and 0x2a, the scalars under 0x30 and 0x38, with defaults left out, then the unknown bytes |
| ChainMetaMessage.ChainMeta.Size | api/uexecutor/v1/chain_meta.pulsar.go:618-675 | the computed size is the length of the print |
| ChainMetaMessage.ChainMeta.Marshal | api/uexecutor/v1/chain_meta.pulsar.go:677-792 | the backward fill stops with its cursor at 0 and the buffer holds exactly the print, after what the caller's buffer held |
| ChainMetaMessage.PutSigners | api/uexecutor/v1/chain_meta.pulsar.go:767-775 | the signers are written last to first below the cursor, everything above is kept and nothing below is touched |
| ChainMetaMessage.PutPacked | api/uexecutor/v1/chain_meta.pulsar.go:707-726 | a packed list is written below the cursor with its exact size and tag, everything above is kept and nothing below is touched |
| ChainMetaMessage.PutInts | api/uexecutor/v1/chain_meta.pulsar.go:714-722 | the forward inner loop fills exactly the gap reserved for the varints and touches nothing around it |
| ChainMetaMessage.PutText | api/uexecutor/v1/chain_meta.pulsar.go:776-782 | a string field is written below the cursor with its length and tag, everything above is kept and nothing below is touched |
| ChainMetaMessage.ChainMeta.Unmarshal | api/uexecutor/v1/chain_meta.pulsar.go:793-1185 | on every byte string the parser terminates; it succeeds exactly when the whole buffer is a record stream, then the message is the fold of it, and otherwise it returns the first error; the message it leaves is given in both cases |
| ChainMetaMessage.ChainMeta.UnmarshalRecord | api/uexecutor/v1/chain_meta.pulsar.go:806-1178 | one turn of the outer loop applies exactly the record at the index; a record that fails leaves the list elements or scalar bits read before the error and nothing else |
| RewardSplit.IntegerProductExact | x/uvalidator/abci.go:109-147 | an integer times a decimal is exact under rounding and under truncation |
| RewardSplit.EffectiveIsWeighted | x/uvalidator/abci.go:96-115 | effective power is the total power plus 0.148 of the universal power, exactly |
| RewardSplit.PositivePowerDivides | x/uvalidator/abci.go:36-46 | positive total power makes the divisor of every fraction positive |
| RewardSplit.BoostIdentity | x/uvalidator/abci.go:142-160 | the recorded boosts fall short of the exact ones by the fees times the truncation residues |
| RewardSplit.ResidueBound | x/uvalidator/abci.go:146-146 | truncating the fractions loses less than one unit of the divisor per universal validator |
| RewardSplit.BoostBound | x/uvalidator/abci.go:97-168 | the boosts never exceed 37/287 of the fees, so the remainder is never negative |
| RewardSplit.BoostBoundIsTight | x/uvalidator/abci.go:97-160 | with universal validators only, the boosts miss 37/287 of the fees by at most one fraction unit per validator |
| RewardSplit.BackingGap | x/uvalidator/abci.go:146-191 | recorded rewards exceed the coins sent by at least 0 and less than one base unit |
| RewardSplit.ReturnedIdentity | x/uvalidator/abci.go:163-172 | the returned coins, scaled, are the fees' unboosted share plus the truncation residues |
| RewardSplit.TwoStagesRefineOneSplit | x/uvalidator/abci.go:97-200 | boost plus the power-proportional share of the returned coins differs from the single split by effective power by at most one fraction unit (fees times 10^-18) below, none for plain validators, and by one fraction unit per universal validator plus one base unit above |
| RewardBoost.EntriesRecordBoosts | x/uvalidator/abci.go:125-161 | what a block records in a denomination is the total boost of that denomination |
| RewardBoost.EntryIsBoost | x/uvalidator/abci.go:142-147 | each recorded entry is the exact product of the fees and its validator's fraction, in every denomination |
| RewardBoost.EntriesCredit | x/uvalidator/abci.go:125-161 | each universal validator is credited its own boost in every denomination, and no other validator anything |
| RewardBoost.Ledger.Send | x/uvalidator/abci.go:91-94 | a module-to-module send moves all coins or, when funds are short, nothing; other accounts are untouched |
| RewardBoost.Ledger.EffectivePower | x/uvalidator/abci.go:96-115 | the first loop fails exactly when a lookup fails, and otherwise sums the effective power |
| RewardBoost.Ledger.RecordBoosts | x/uvalidator/abci.go:122-161 | the second loop succeeds exactly when distribution accepts every boost; it records one entry per universal validator in vote order and sums them, and up to a refusal it has recorded a prefix |
| RewardBoost.Ledger.Split | x/uvalidator/abci.go:163-172 | sent and returned coins add up to the fees in every denomination, so the clamp is not taken and the fractional change alters nothing |
| RewardBoost.ChangeNeverCounts | x/uvalidator/abci.go:170-172 | adding less than one unit of change to whole coins and truncating gives the coins back |
| RewardBoost.Ledger.Settle | x/uvalidator/abci.go:181-198 | both sends succeed and move exactly the boost coins and the remainder |
| RewardBoost.Ledger.AllocateTokens | x/uvalidator/abci.go:70-202 | succeeds exactly when there are no fees, or every lookup succeeds and distribution accepts every boost; then the uvalidator account is back at its balance, fee collector and distribution hold the returned and the sent part of the fees, and the entries are the boosts; on failure the fees stay in the uvalidator account |
| RewardBoost.Ledger.Distribute | x/uvalidator/abci.go:122-202 | from fees held by the uvalidator account: fails exactly when a boost is refused, and then moves no coins; otherwise the fees leave it, the whole boosts to distribution and the rest to the fee collector |
| RewardBoost.Ledger.BeginBlocker | x/uvalidator/abci.go:31-66 | no power or first block changes nothing; succeeds exactly then, without fees, or when no lookup or boost fails; with power after the first block the fee collector keeps the returned part, distribution gains the sent part and the entries are the boosts; coins are conserved in every outcome and unbacked rewards are in [0, 1) base units |
| RewardBoost.BackingGapOverRun | x/uvalidator/abci.go:146-191 | over any k blocks with any income, skipped blocks included, the recorded rewards lead the coins sent by at least 0 and less than k base units |
| RewardBoost.Ledger.RunBlocks | x/uvalidator/abci.go:31-202 | over successive states of the ledger, with income before and a sweep by distribution after every begin blocker: the uvalidator balance is unchanged, entries and distribution balance grow by the run's totals, and rewards plus swept coins lead the coins distribution holds by [0, k) base units; the run fails only at a lookup or refused boost |
| RewardBoost.Ledger.RunBlock | x/uvalidator/abci.go:31-66 | one block of such a run, in every denomination |
| Base58.ConvertBack | utils/canonical.go:122-122 | converting digits to another base, leading zeros kept, and back gives the same digits, for all bases |
| Base58.EncodeDecode | utils/canonical.go:122-122 | decoding the Base58 form of any byte string gives the byte string |
| Base58.DecodeEncode | utils/canonical.go:41-51 | every Base58 string is the encoding of what it decodes to |
| Base58.DecodeInjective | utils/canonical.go:97-109 | distinct Base58 strings denote distinct byte strings |
| Base58.AlphabetIs | utils/canonical.go:21-21 | the alphabet is the digits but 0, the upper-case letters but I and O, and the lower-case letters but l |
| Base58.IndexIsRank | utils/canonical.go:21-21 | of two alphabet characters the one with the smaller code point has the smaller index, so an index is a rank |
| Base58.DecodeIsPositional | utils/canonical.go:122-122 | the decoded bytes read in base 256 have the value of the text read in base 58, and as many leading zeros as the text has leading 1 |
| Base58.DecodeKeepsOrder | utils/canonical.go:122-122 | among texts of one length with decodings of one length, the order of the texts is the order of the bytes |
| Canonical.LowerIsHex | utils/canonical.go:73-80 | lower-casing a hexadecimal string prints its bytes |
| Canonical.HexAt | utils/canonical.go:79-123 | each byte is printed as its high and its low digit in 0-9a-f |
| Canonical.HexTable | utils/canonical.go:33-39 | the value of each of the sixteen digits in either case |
| Canonical.TrimIs | utils/canonical.go:61-66 | trimming cuts white space at both ends and nothing else |
| Canonical.ChecksumKeepsBytes | utils/canonical.go:61-69 | the EIP-55 form of an address denotes the same bytes, for every digest |
| Canonical.ChecksumCase | utils/canonical.go:61-69 | EIP-55: a letter is upper-cased exactly when its digest nibble is at least 8 |
| Canonical.TxHashKernelEVM | utils/canonical.go:145-191 | on an eip155 chain two hashes share a key exactly when both are well formed with equal bytes or both are malformed with equal trimmed text; keys are fixed points |
| Canonical.AddressKernelEVM | utils/canonical.go:128-201 | the same for addresses, and the plain EVM variant gives the same key |
| Canonical.TxHashFormEVM | utils/canonical.go:71-80 | the key of an EVM hash spelled out: 64 hex digits, with or without 0x, become 0x and lower-case hex, other text is trimmed |
| Canonical.AddressFormEVM | utils/canonical.go:61-69 | the key of an EVM address spelled out: 40 hex digits become 0x and the checksummed hex, other text is trimmed |
| Canonical.StrictIffWellFormedEVM | utils/canonical.go:130-161 | the strict variants reject exactly the non-empty malformed values and otherwise agree with the lenient ones |
| Canonical.HexBlobKernel | utils/canonical.go:82-95 | free-length payloads share a form exactly when they denote the same bytes or are the same malformed text; forms are fixed points |
| Canonical.HexBlobForm | utils/canonical.go:82-95 | the form of a payload spelled out: a positive even number of hex digits becomes 0x and lower-case hex, other text is trimmed |
| Canonical.TxHashKernelSolana | utils/canonical.go:111-126 | Solana transaction ids share a key exactly when hex or 64-byte Base58 denote the same bytes, or the other text is equal; keys are fixed points |
| Canonical.TxHashFormSolana | utils/canonical.go:97-126 | the key of a Solana transaction id spelled out: 0x-hex and 64 bytes of Base58 become 0x and lower-case hex, other text is trimmed |
| Canonical.SolanaSignatureConverges | utils/canonical.go:111-126 | any 0x-hex spelling and the Base58 spelling of a 64-byte signature get the same key, its lower-case hex |
| Canonical.SolanaSignaturesNeverCollide | utils/canonical.go:111-126 | different 64-byte signatures never share a key, however written |
| Canonical.ZeroIsNotBase58 | utils/canonical.go:100-109 | the hex and Base58 branches are disjoint because 0 is outside the alphabet |
| Canonical.SolanaValueAccepts | utils/canonical.go:100-109 | a Solana value is rejected exactly when it is neither 0x-hex nor Base58 |
| Canonical.SolanaAddressKernel | utils/canonical.go:97-109 | well-formed Solana addresses share a form exactly when they denote the same bytes in the same notation |
| Canonical.AddressKernelSolana | utils/canonical.go:163-181 | lenient Solana keys are equal exactly when bytes and notation, or malformed texts, are equal; malformed and well-formed never collide; keys are fixed points |
| Canonical.AddressFormSolana | utils/canonical.go:97-109 | the key of a Solana address spelled out: 0x-hex becomes 0x and lower-case hex, other text is trimmed |
| Canonical.StrictIffWellFormedSolana | utils/canonical.go:100-161 | on Solana the strict variants reject exactly the non-empty values that are neither 0x-hex nor Base58 and otherwise agree with the lenient ones |
| Canonical.SolanaKeyKeepsMeaning | utils/canonical.go:163-181 | a lenient Solana key denotes what its input denotes, is the strict form when that exists, and is the trimmed text otherwise |
| Canonical.SolanaAddressesCanDiffer | utils/canonical.go:97-109 | the zero byte written in hex and in Base58 gets two keys |
| Canonical.LenientIdempotent | utils/canonical.go:173-191 | canonicalizing twice is canonicalizing once, on every chain |
| Canonical.NamespaceIff | utils/canonical.go:23-31 | a chain id has a non-empty namespace exactly when its trimmed form starts with it followed by the first colon |
| Canonical.OtherNamespaces | utils/canonical.go:130-161 | empty values pass through and other namespaces keep the trimmed text |
| Signer.Signer.SignTxWithSequence | universalClient/pushsigner/pushsigner.go:292-372 | the cache becomes the larger of itself and the queried sequence, and is untouched when the query fails; a keyring failure comes after the adoption |
| Signer.Signer.TryOnce | universalClient/pushsigner/pushsigner.go:160-235 | one turn of the loop in every environment: how it ends or which refused sequence it retries after, and the cache it leaves |
| Signer.Signer.SignAndBroadcast | universalClient/pushsigner/pushsigner.go:136-239 | cache, result and broadcast sequences of the loop are those of the recursive definition in every environment, local failures included |
| Signer.EveryCall | universalClient/pushsigner/pushsigner.go:158-239 | at most three broadcasts, the error after the loop is unreachable, every broadcast but the last met a mismatch, and a retry signs with the queried sequence |
| Signer.SequencesOfCall | universalClient/pushsigner/pushsigner.go:301-322 | in every environment the first broadcast is the larger of the cache and the first queried sequence, and no broadcast lies below what its attempt queried |
| Signer.ReconcileIsMaximum | universalClient/pushsigner/pushsigner.go:301-322 | the three reconciliation cases together are the maximum of cache and queried sequence, an empty cache included |
| Signer.ResultOfCall | universalClient/pushsigner/pushsigner.go:179-238 | in every environment the last answer decides the result: success, failed transaction and failed broadcast each exactly for the stated answers |
| Signer.CacheAfterCall | universalClient/pushsigner/pushsigner.go:158-238 | in every environment, the cache each kind of result leaves |
| Signer.RefusedSequenceCountedIff | universalClient/pushsigner/pushsigner.go:203-225 | a call counts a sequence refused as mismatched as consumed and caches the one after it exactly when nothing fails locally, every query answers and three refusals follow, the last by code |
| Signer.UntakenSequenceCountedIff | universalClient/pushsigner/pushsigner.go:203-235 | in every environment a call counts a sequence the mempool did not take as consumed and caches the one after it exactly when its first broadcast not refused as mismatched, or its third, is answered with a code |
| Signer.SynchronizedCall | universalClient/pushsigner/pushsigner.go:301-322 | with the cache at the mempool sequence a call signs with it and succeeds at once, however far the query lags |
| Signer.SucceedsIff | universalClient/pushsigner/pushsigner.go:158-239 | against a chain that reports c and accepts only m a call succeeds exactly when the cache is m or c is m, with one broadcast exactly when the cache is m or not above c, else two; a failed call makes three and caches the sequence after c or nothing |
| Signer.PendingCanDefeatCall | universalClient/pushsigner/pushsigner.go:158-239 | with 5 committed, 7 accepted and nothing cached a call fails and caches nothing |
| Signer.SelfStabilizes | universalClient/pushsigner/pushsigner.go:158-239 | with nothing pending any cache recovers within two broadcasts and caches the next sequence |
| Signer.Pipelining | universalClient/pushsigner/pushsigner.go:143-239 | from a synchronized cache, over every run of commits and calls, the calls sign consecutive sequences without gap or repeat, one broadcast each, and stay synchronized |
| Signer.RecoversThenPipelines | universalClient/pushsigner/pushsigner.go:143-239 | from any cache, one call with an exact query and nothing pending restores pipelining for the rest of the run |
| Signer.MismatchCanAdvanceCache | universalClient/pushsigner/pushsigner.go:203-225 | a chain that reports 5 and refuses everything by code leaves 6 cached |
| Signer.OtherCodeAdvancesCache | universalClient/pushsigner/pushsigner.go:203-225 | one broadcast of 5 answered with another code leaves 6 cached |
| ChainSync.ConfigsEqualIsRelevantEquality | universalClient/chains/chains.go:510-595 | comparison is equality of id, VM type, gateway, both method lists, confirmations and enabled flags; the RPC URL, the oracle interval and the signing deadline do not count |
| ChainSync.ProcessSlot | universalClient/chains/chains.go:168-199 | a list entry acts on its own chain only, and what it does depends only on that chain's stored configuration |
| ChainSync.EntryOnClients | universalClient/chains/chains.go:168-335 | only the entry's own client can change: it is kept exactly when the entry is enabled and equals the stored configuration; otherwise the old one is stopped, and an enabled EVM or SVM entry that can be created gets a new client, never used before, that works by it |
| ChainSync.UnlistedKeepClients | universalClient/chains/chains.go:168-200 | whatever creations fail, a chain the list does not name keeps its client |
| ChainSync.SyncKeeps | universalClient/chains/chains.go:161-200 | whatever creations fail, both maps keep the same keys, the running clients are exactly those in the map, each works by the stored configuration, and the push chain keeps its client |
| ChainSync.EveryRun | universalClient/chains/chains.go:144-356 | every run of starts, syncs, failed fetches and stops, blocking included, keeps the invariant |
| ChainSync.FreshRun | universalClient/chains/chains.go:47-63 | so in every state reached from a new manager the running clients are exactly the managed ones, each working by the stored configuration of its chain |
| ChainSync.StopAllKeeps | universalClient/chains/chains.go:337-356 | stopping leaves no client running, and the maps consistent with that |
| ChainSync.EnsurePushKeeps | universalClient/chains/chains.go:429-492 | a start keeps the invariant and every other client; it gives a missing push chain a new running client, enabled both ways, when its id is set and creation succeeds, and else changes nothing |
| ChainSync.LastEntryWins | universalClient/chains/chains.go:168-200 | the last entry for a chain decides whether it is managed and with which configuration; unlisted chains are untouched |
| ChainSync.KeysGrowByListed | universalClient/chains/chains.go:168-200 | whatever creations fail, a chain the list does not name keeps its client and configuration |
| ChainSync.Converges | universalClient/chains/chains.go:161-260 | one sync that names every managed chain, all creations succeeding, leaves exactly the push chain and the chains whose last entry is enabled, each with an equal configuration by which its client works |
| ChainSync.SecondSyncSkipsIff | universalClient/chains/chains.go:227-260 | after a sync with all creations succeeding the same list only skips exactly when every entry agrees with the last entry for its chain |
| ChainSync.SkipsChangeNothing | universalClient/chains/chains.go:168-200 | a list that is only skipped leaves the whole state as it was |
| ChainSync.DistinctIsConsistent | universalClient/chains/chains.go:168-200 | a list with distinct ids has no conflicting entries |
| ChainSync.SecondSyncIsIdle | universalClient/chains/chains.go:161-260 | with distinct ids a second sync changes neither maps nor clients |
| ChainSync.NothingStaleIffCovered | universalClient/chains/chains.go:202-212 | nothing is stale after the list exactly when the list names every managed chain |
| ChainSync.StepBlocksIff | universalClient/chains/chains.go:202-212 | a working manager is blocked by exactly the syncs whose list does not name some chain managed at that moment |
| ChainSync.RunBlocksIff | universalClient/chains/chains.go:111-215 | a run blocks the manager exactly when one of its syncs drops a chain managed at that moment |
| ChainSync.FrozenAfter | universalClient/chains/chains.go:94-215 | after the first such sync no later event of the run changes anything; no sync or stop returns |
| ChainSync.EmptyListBlocks | universalClient/chains/chains.go:202-212 | a start, a sync with one chain and a sync with an empty list end blocked |
| ChainManager.Chains.AddChain | universalClient/chains/chains.go:262-308 | a client and its configuration are stored together, and only for a supported VM type whose creation succeeds |
| ChainManager.Chains.RemoveChain | universalClient/chains/chains.go:310-335 | removal stops and forgets the client, and cannot proceed while its own goroutine holds a read lock |
| ChainManager.Chains.ProcessEntry | universalClient/chains/chains.go:168-199 | one entry is skipped, added, updated or removed as decided |
| ChainManager.Chains.ProcessList | universalClient/chains/chains.go:161-200 | the list is processed in order, and the chains seen are the named ones and the push chain |
| ChainManager.Chains.RemoveStale | universalClient/chains/chains.go:202-212 | the stale loop blocks exactly when some managed chain was not seen, and then has removed nothing |
| ChainManager.Chains.FetchAndUpdate | universalClient/chains/chains.go:144-215 | a failed fetch changes nothing; with a list the maps follow the list, and the sync completes exactly when the list names every managed chain, else it blocks with its read lock held; this is the sync event of the runs |
| ChainManager.Chains.EnsurePushChain | universalClient/chains/chains.go:429-492 | fails exactly without a push chain id or when a missing client cannot be created |
| ChainManager.Chains.StopAll | universalClient/chains/chains.go:337-356 | clears both maps and stops every managed client |
| RoundRobin.Client.RetryWithRoundRobin | universalClient/pushcore/pushCore.go:103-138 | the first endpoint is the counter modulo their number and each next one follows cyclically, the first success is returned, the call fails exactly when all fail, and the counter moves exactly once |
| RoundRobin.EndpointReached | universalClient/pushcore/pushCore.go:117-121 | a full round reaches every endpoint |
| RoundRobin.EndpointsDistinct | universalClient/pushcore/pushCore.go:117-121 | no endpoint comes twice in a round |
| RoundRobin.FairIff | universalClient/pushcore/pushCore.go:117-117 | n consecutive calls start at n different endpoints exactly when the counter does not wrap within them or n divides 2^32, for every n |
| RoundRobin.CallEachOnce | universalClient/pushcore/pushCore.go:105-138 | as many successive calls as endpoints try all different first endpoints exactly when the counter does not wrap within them or their number divides 2^32 |
| RoundRobin.WrapCanBeUnfair | universalClient/pushcore/pushCore.go:117-117 | three endpoints and a counter at 2^32 - 1: two of three consecutive calls start at endpoint 0 |
| MsgPolicy.FilterIsExact | app/decorators/msg_filter_template.go:37-59 | the filter objects exactly when some node at some depth is blocked or does not unpack |
| MsgPolicy.FilterShapes | app/decorators/msg_filter_template.go:37-59 | each shape of message: a name is refused exactly when listed, an execution exactly when executions are listed or a part is refused or does not unpack |
| MsgPolicy.WrappingHidesNothing | app/decorators/msg_filter_template.go:39-49 | wrapping a message in any number of executions hides nothing from the filter and adds only the listing of executions |
| MsgPolicy.FilterConcat | app/decorators/msg_filter_template.go:37-59 | the filter looks at every message of a transaction |
| MsgPolicy.GaslessNodes | app/txpolicy/gasless.go:14-49 | every node of a gasless transaction is a whitelisted message at depth 0 or 1 or a top-level execution, so an execution never sits inside an execution |
| MsgPolicy.ExecIsNotGasless | app/txpolicy/gasless.go:17-25 | the execution message itself is not on the whitelist |
| MsgPolicy.GaslessSpelledOut | app/txpolicy/gasless.go:14-49 | a transaction is gasless exactly when it is not empty and every message, or every part of an execution, has one of the seven types |
| MsgPolicy.GaslessIff | app/txpolicy/gasless.go:14-49 | the predicate accepts exactly the non-empty forests of such nodes |
| MsgPolicy.GaslessIsClean | app/txpolicy/gasless.go:14-49 | a gasless transaction passes the filter for every blocklist without whitelisted types and executions |
| MsgPolicy.CarriesGaslessIff | app/txpolicy/gasless.go:33-46 | an allowed message has a whitelisted message at some depth exactly when it is not an execution of nothing |
| MsgPolicy.GaslessCarriesNothingIff | app/txpolicy/gasless.go:28-48 | a transaction is gasless without any whitelisted message exactly when it is a non-empty list of executions of nothing |
| MsgPolicy.EmptyExecIsGasless | app/txpolicy/gasless.go:33-41 | an execution of nothing is gasless and carries no whitelisted message |
| Ballots.VoterIndex | x/uvalidator/types/ballot.go:8-17 | the first place of an address among the voters, or none exactly when it is absent |
| Ballots.CountVotes | x/uvalidator/types/ballot.go:48-59 | the loop counts the yes and the no votes |
| Ballots.NeverBoth | x/uvalidator/types/ballot.go:152-162 | with a threshold above two thirds yes and no cannot both reach it |
| Ballots.QuorumIntersection | x/uexecutor/keeper/voting.go:28-33 | two ballots of the same voters, each with a threshold above two thirds, both reach it only when more than a third voted yes on both |
| Ballots.QuorumIsLeast | x/uexecutor/keeper/voting.go:31-33 | the quorum is the least number above two thirds |
| Ballots.EveryoneIsAQuorum | x/utss/keeper/voting.go:50-55 | the threshold of everyone is at least the two-thirds threshold, and equal to it exactly up to three voters |
| Ballots.CanBeDecidedIff | x/uvalidator/types/ballot.go:28-163 | some sequence of votes decides a pending ballot exactly when someone is left to vote and the votes left can lift one side to the threshold |
| Ballots.LeftVotesDecide | x/uvalidator/types/ballot.go:28-163 | names the votes: the voters left, voting alike, decide a ballot they can lift to the threshold |
| Ballots.VotesOnlySpendWhatIsLeft | x/uvalidator/types/ballot.go:28-163 | a ballot that any votes decide was open before them, since each vote spends one voter |
| Ballots.RecomputeKeepsVotes | x/uvalidator/keeper/ballot.go:285-303 | each voter still eligible keeps the vote cast, wherever the voter now stands |
| Ballots.RecomputedAsks | x/uvalidator/keeper/ballot.go:281-303 | a recomputed ballot has exactly the new voters, asks for the least number above two thirds of them, keeps status and expiry, and newcomers have not voted |
| Ballots.RecomputedVoteWasThere | x/uvalidator/keeper/ballot.go:285-303 | every vote on a recomputed ballot was on the old one by the same voter |
| Ballots.RecomputedStuckWhenAllVoted | x/uvalidator/keeper/ballot.go:223-318 | a recomputed ballot whose remaining voters have all voted cannot be decided by any votes |
| Ballots.RecomputedCanBeStuck | x/uvalidator/keeper/ballot.go:223-318 | a recomputed ballot can hold a full quorum and be undecidable |
| Ballots.CanPassWithoutAllIff | x/uvalidator/types/ballot.go:28-163 | some votes pass a pending ballot without everyone exactly when its threshold is below everyone, someone is left, the votes left reach it, and the no side has not, unless one vote is enough |
| Ballots.CanPassWithoutIff | x/uvalidator/types/ballot.go:28-163 | some votes pass a pending ballot without a yes of a given address, voter or not, exactly when it has not said yes, someone is left, the others left reach the threshold, and the no side has not, unless one vote is enough |
| Ballots.RecomputedUnanimityIff | x/uvalidator/keeper/ballot.go:281-303 | a ballot that needs everyone cannot pass without any one voter; recomputed, it can pass without a former voter exactly when someone is left and the votes left (dropped voter or no vote) or the others left (pending vote) reach the new threshold, and never against a kept yes |
| Ballots.RecomputedVotersIff | x/uvalidator/keeper/ballot.go:281-303 | a recomputed ballot can pass without some of its new voters exactly when there are four or more and the votes left reach the new threshold |
| Ballots.RecomputedLosesUnanimity | x/uvalidator/keeper/ballot.go:281-303 | any four voters, all needed, with two yes votes: recomputed for the same four the ballot can pass without the last |
| Ballots.RecomputedDropsParticipants | x/uvalidator/keeper/ballot.go:250-303 | four participants, all needed and none voted, recomputed for the first alone: its one vote passes the ballot without the other three |
| BallotKeeper.VoteKeeps | x/uvalidator/keeper/voting.go:120-196 | a vote keeps every ballot in exactly the index of its status and every decided ballot backed by its votes |
| BallotKeeper.RecomputeKeeps | x/uvalidator/keeper/ballot.go:233-318 | so does a recomputation |
| BallotKeeper.StepFreezes | x/uvalidator/keeper/ballot.go:243-245 | no single step removes a ballot or changes one that has ended |
| BallotKeeper.EndedIsForever | x/uvalidator/keeper/voting.go:143-176 | once passed, rejected or expired, a ballot never changes in any run of votes and recomputations |
| BallotKeeper.VoteCountsIff | x/uvalidator/keeper/voting.go:143-196 | a vote on an existing ballot counts exactly when the ballot is pending, the height is below its expiry, and the first place of the voter holds no vote yet |
| BallotKeeper.CountedVote | x/uvalidator/keeper/voting.go:186-223 | a vote that counts is written at the voter's first place only, decides the ballot exactly when a side reaches the threshold, yes first, is answered accordingly, and touches no other ballot |
| BallotKeeper.UncountedVote | x/uvalidator/keeper/voting.go:148-189 | the reason for each vote that does not count; only a late vote changes anything, and only to expire the ballot |
| BallotKeeper.OpeningVote | x/uvalidator/types/ballot.go:93-113 | an opening vote counts exactly when its voter is listed and the ballot outlives the block; the ballot then holds that one vote, the voters, threshold and expiry asked for, and its decision |
| BallotKeeper.OpeningLeavesOthers | x/uvalidator/keeper/ballot.go:36-39 | an opening vote expires exactly the other ballots that are due and touches none of the rest |
| BallotKeeper.OpeningExpiresDue | x/uvalidator/keeper/ballot.go:36-39 | opening a ballot leaves another ballot pending exactly when it was pending and not yet due, and drops the rest from the active index |
| BallotKeeper.VoteStaysOverRun | x/uvalidator/types/ballot.go:28-47 | over every run without a recomputation of the ballot its voters stay and each cast vote stands |
| BallotKeeper.EveryVoteWasCast | x/uvalidator/keeper/voting.go:120-197 | over every run from the empty store, recomputations included, each vote a ballot holds was cast in the run, on that ballot, by the voter at whose place it stands, with that result |
| BallotKeeper.ExpiredHasCause | x/uvalidator/keeper/ballot.go:320-364 | a pending ballot expires over a run only by a vote event at or past its expiry or a recomputation that finds nobody |
| BallotKeeper.PassedHasQuorum | x/uexecutor/keeper/voting.go:28-58 | in every state reached by runs whose votes on the ballot ask for at least the two-thirds quorum, recomputations and any other ballots included, a passed ballot has yes votes of more than two thirds of its voters and a rejected one that many no votes |
| BallotKeeper.ConflictNeedsAThird | x/uexecutor/keeper/voting.go:28-58 | in such a state two passed ballots of the same voters have more than a third of the voters behind both |
| BallotKeeper.RunKeepsQuorum | x/uvalidator/keeper/ballot.go:281-303 | the threshold of such a ballot stays above two thirds of its voters over every run |
| BallotKeeper.UnanimousOverRun | x/utss/keeper/voting.go:50-75 | over every run that never recomputes it, a ballot whose votes ask for everyone passes only when every voter said yes |
| BallotKeeper.RecomputeExpiresIff | x/uvalidator/keeper/ballot.go:269-317 | recomputing a pending ballot expires it exactly when no voter is eligible and otherwise leaves it pending |
| BallotKeeper.RecomputationsExpireIff | x/uexecutor/keeper/admin_revert.go:20-51 | over any recomputations of any ballots a pending ballot reaches the expired status a revert needs exactly when one of them found no eligible voter for it |
| BallotKeeper.StuckBallotStaysPending | x/uexecutor/keeper/admin_revert.go:20-51 | a ballot of two with one yes, recomputed for that voter, is undecidable and still pending |
| BallotKeeper.Keeper.ExpireBallotsBeforeHeight | x/uvalidator/keeper/ballot.go:320-364 | the two-phase loop expires exactly the active ballots that are due |
| BallotKeeper.Keeper.CreateBallot | x/uvalidator/keeper/ballot.go:12-68 | due ballots are expired before the new one is stored without votes and marked active, so a new ballot is never expired by its own opening |
| BallotKeeper.Keeper.VoteOnBallot | x/uvalidator/keeper/voting.go:120-223 | table, indexes and answer after a vote, late and refused votes included |
| BallotKeeper.Keeper.RecomputeBallotQuorum | x/uvalidator/keeper/ballot.go:233-318 | table and answer after a recomputation, with no voters left as expiry |
| BallotKeeper.Keeper.MarkBallotFinalized | x/uvalidator/keeper/ballot.go:160-189 | refuses other statuses and unknown ballots, and otherwise moves the ballot to the finalized index |
| BallotKeeper.Keeper.MarkBallotExpired | x/uvalidator/keeper/ballot.go:126-151 | refuses unknown ballots, and otherwise moves the ballot to the expired index |

## Left out

- The preallocation count of packed lists and the nil message of the codec closures: they change no value.
- The reflection methods of ChainMeta and the other generated messages: the same wire pattern, or case tables.
- RewardBoost.Ledger.AllocateTokens: does not say what a refused boost leaves inside the distribution keeper, because that code is not part of this repository; the validator lookups answer the same in both loops.
- Commission, community tax and the distribution keeper's own split, which run after the coins are returned; withdrawals from distribution between blocks.
- The size limit of the decimal type: fees and powers are unbounded here and an overflow would abort the block.
- Strings that are not valid UTF-8 in the canonicalizers: a string is a sequence of code points here.
- Transactions of the same account from elsewhere: the signer is the only sender.
- Signer.Pipelining: assumes that no transaction is evicted from the mempool and that sequences stay below 2^64 - 1, because the cache cannot see either.
- Goroutines, tickers, timeouts and databases of the chain manager; client creation is one success or failure per entry.
- Nil configurations and nil methods inside fetched lists, and the errors of client stops, which the code only logs.
- The rollback of a failed transaction: a late vote marks the ballot expired and returns an error, and whether the mark survives is decided by the caller.
- Ballot hooks, ballot deletion, chain-meta medians, the TSS coordinator and the event store.
- Fee decorators, the account-init decorator, the signature precompile, wiring, upgrades and command-line code: calls into other libraries or easy folds.

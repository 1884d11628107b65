# AIIR containers in Dafny

AIIR stores everything as little-endian files of 32-bit words. An A2A
artifact packet describes one source file. A D2B packet holds the database
schema. Both use the same container layout:

- an 8-word header: magic, version, section count, reserved, TOC base,
  payload base, total length and reserved;
- a table of contents (TOC) of 4-word entries `{id, off, len, row_width}`;
- the section payloads.

This project models the parts of the native toolchain, the native runtime
server and the native core library that build, check and read these
packets, and it proves properties of that model.

Modules, one file each:

- `AiirTypes` (types.dfy) defines 32-bit words and bytes as bounded
  naturals, the magics and versions, `Option`, and `Wrap32`, the explicit
  uint32_t wrap-around.
- `Core` (core.dfy) holds FNV-1a 32 on `bv32`, and the little-endian
  word-file decoding and encoding of `aiir_load_u32` and `aiir_write_u32`.
- `Packing` (packing.dfy) holds the toolchain's byte packing into words,
  four bytes per word with zero padding, and its inverse.
- `Container` (container.dfy) holds the shared layout:
  - the header and TOC predicates;
  - "last entry with this id", which is what the loaders keep;
  - a generic `Assemble` of a list of sections, which both builders are
    proved against;
  - the array-writing helpers;
  - the as-written 32-bit guards of the Findings section.
- `Artifact` (artifact.dfy) holds make_packet:
  - the identifier scan and its symbol hashes;
  - the line count and the byte preview;
  - the META row and the five-section packet;
  - the extension tables `has_ext`, `is_supported_lang` and
    `lang_id_for_ext`.
- `Validator` (validator.dfy) holds validate_a2a_packet, xorshift32 and the
  conformance bit-flip loop.
- `Db` (db.dfy) holds the schema rows, the loader as a function, the op and
  signature lookups, and type_check.
- `Schema` (schema.dfy) holds cmd_rebuild_db's word array. The model builds
  that array from its op and signature rows and proves that the array loads
  back to those rows.
- `Json` (json.dfy) holds json_escape_copy into a bounded buffer.
- `Policy` (policy.dfy) holds parse_bool_env, aiir_policy_init_from_env
  (including a model of `strtoul`) and aiir_policy_allow_op.
- `Drift` (drift.dfy) holds the core-set hash and the drift watcher, as a
  class with init and tick.
- `RuntimeServer` (runtime.dfy) holds:
  - load_db_index, and load_runtime as a `Runtime` class;
  - the lookups find_op, count_sig_for_op, find_sig, find_adapt and
    get_packet_by_id;
  - the /ai/db/exec decision pipeline and its audit event.
- `Summary` (summary.dfy) holds parse_a2a_summary.

The environment is modelled as parameters:

- Each environment variable is an `Option<CString>`, where `None` means
  unset. A `CString` is a string without NUL, as `getenv` returns it.
- The directory of core files is a map from path to bytes, with a missing
  path meaning an unreadable file.
- An HTTP request arrives already framed and parsed: the framing verdict,
  the `opId` integer if one was found, and the `args` list if one was
  parsed.

Where the C code computes a TOC guard or a section end in uint32_t, the
model uses exact arithmetic. make_packet's casts of the preview length and
the symbol count to uint32_t are modelled as written. Its packet total is
also summed in uint32_t; the model refuses a total that does not fit. The
three places where the C wrap-around differs from the exact result are
listed under Findings.

In ai/runtime-server-native/ai_runtime_native.c:293-334, parse_a2a_summary
overwrites each count when it meets a section with that id. The model keeps
the last entry for each id and divides its length once, after the loop.
This gives the same counts.

## Model

| member | source | states |
|---|---|---|
| Core.Fnv1a32 | ai/native-core/aiir_core.c:100-107 | the loop returns Fnv(buf), the FNV-1a 32 fold with offset 0x811c9dc5 and prime 0x01000193 modulo 2^32 |
| Core.FnvAppend | ai/toolchain-native/aiir_toolchain.c:148-155 | hashing a concatenation continues from the hash of the prefix |
| Core.FnvEmpty | ai/native-core/aiir_core.c:101 | the hash of no bytes is the offset basis |
| Core.LoadU32 | ai/native-core/aiir_core.c:47-71 | fails exactly when the byte length is not a multiple of 4; otherwise yields \|raw\|/4 words, each assembled little-endian from its four bytes |
| Core.WriteU32 | ai/native-core/aiir_core.c:82-98 | writes four bytes per word, least significant first, for a total of 4·\|words\| bytes |
| Core.DecodeEncode | ai/native-core/aiir_core.c:61-66 | decoding what the writer wrote gives back the words |
| Core.EncodeDecode | ai/native-core/aiir_core.c:85-95 | encoding decoded words gives back the bytes |
| Core.WordOfBytes | ai/native-core/aiir_core.c:62-65 | a word's four extracted bytes reassemble into that word |
| Core.BytesOfWord | ai/native-core/aiir_core.c:87-90 | four bytes assembled into a word extract back unchanged |
| Core.DecodeAt | ai/toolchain-native/aiir_toolchain.c:196-201 | word i of a decoded file is the little-endian value of bytes 4i..4i+3 |
| Packing.Pad4 | ai/toolchain-native/aiir_toolchain.c:299-309 | padding to a multiple of 4 keeps the bytes as a prefix, adds fewer than 4 zero bytes, and reaches a length divisible by 4 |
| Packing.BytesToU32Packed | ai/toolchain-native/aiir_toolchain.c:299-309 | yields (n+3)/4 words equal to the little-endian decoding of the zero-padded bytes |
| Packing.U32PackedToBytes | ai/toolchain-native/aiir_toolchain.c:311-321 | succeeds exactly when every requested byte lies inside the words; the result is then the first exact_n bytes of the encoding |
| Packing.UnpackFailsIff | ai/toolchain-native/aiir_toolchain.c:314-316 | unpacking fails exactly when exact_n exceeds 4·wn |
| Packing.PackedRoundTrip | ai/toolchain-native/aiir_toolchain.c:299-321 | unpacking the packed words with the original length gives back the original bytes |
| Artifact.TokenSpansShape | ai/toolchain-native/aiir_toolchain.c:332-347 | the scan's tokens are in order and disjoint; each is a maximal identifier (a letter or `_`, then letters, digits or `_`); every identifier start outside them is covered |
| Artifact.SymbolHashesAreIdentifiers | ai/toolchain-native/aiir_toolchain.c:332-347 | at most max_tokens hashes; each is the FNV of one maximal identifier of the content, in scan order |
| Artifact.ScanSymbols | ai/toolchain-native/aiir_toolchain.c:332-347 | the scanning loop with its token cap yields SymbolHashes, the FNV of the first max_tokens identifiers |
| Artifact.CountLines | ai/toolchain-native/aiir_toolchain.c:349-350 | line count is one plus the number of newline bytes, over the whole content |
| Artifact.Preview | ai/toolchain-native/aiir_toolchain.c:352-355 | the source_u8 buffer holds the first min(len, preview_bytes) bytes, one per word |
| Artifact.SourceLen | ai/toolchain-native/aiir_toolchain.c:369 | len_source is at most preview_n, and equals it whenever preview_n is below 2^32 |
| Artifact.SymbolLen | ai/toolchain-native/aiir_toolchain.c:370 | len_sym is at most the number of symbols, and equals it whenever that number is below 2^32 |
| Artifact.SourcePayload | ai/toolchain-native/aiir_toolchain.c:408 | the SOURCE_U8 payload is len_source words, each the content byte at its index |
| Artifact.PacketSymbols | ai/toolchain-native/aiir_toolchain.c:416 | the SYMBOL_HASH payload is len_sym words, a prefix of the symbol hashes |
| Artifact.ArtifactTotalWraps | ai/toolchain-native/aiir_toolchain.c:372-374 | the uint32_t total is the packet length when 42 + len_source + len_sym fits in 32 bits, and smaller than the words written when it does not |
| Artifact.ArtifactTotalWrapsWitness | ai/toolchain-native/aiir_toolchain.c:372-384 | 2^32 - 42 spaces with preview_bytes as large and max_tokens 0 do not fit, and the total wraps to 0 |
| Artifact.CopyPreview | ai/toolchain-native/aiir_toolchain.c:352-355 | the copied array equals Preview |
| Artifact.ArtifactHeader | ai/toolchain-native/aiir_toolchain.c:364-384 | header of the built packet: A2A magic, version 2, 5 sections, TOC at 8, payloads at 28, and total equal to 42 + len_source + len_sym, which is the packet length |
| Artifact.ArtifactToc | ai/toolchain-native/aiir_toolchain.c:386-424 | the five TOC entries CODE, SLOT, SOURCE_U8, SYMBOL_HASH and META, with their row widths 6, 4, 1, 1, 4, consecutive offsets from 28 and lengths 6, 0, len_source, len_sym, 8; META ends at the total |
| Artifact.ArtifactPayloads | ai/toolchain-native/aiir_toolchain.c:357-424 | payload contents: the CODE row {13,0,0,0,0,0}, the first len_source preview bytes, the first len_sym symbol hashes and META {1, len, lines, lang, 2, fnv(path), fnv(content), len_sym} with the counts wrapped to 32 bits |
| Artifact.ArtifactWellFormed | ai/toolchain-native/aiir_toolchain.c:323-431 | the validator accepts every packet make_packet builds |
| Artifact.MakePacket | ai/toolchain-native/aiir_toolchain.c:323-431 | fails exactly when 42 + len_source + len_sym does not fit in 32 bits (the corrected total check); otherwise the array it fills equals ArtifactPacket |
| Artifact.IsSupportedLang | ai/toolchain-native/aiir_toolchain.c:230-237 | true exactly when the name ends with one of the 21 supported extensions |
| Artifact.LangIdIffSupported | ai/toolchain-native/aiir_toolchain.c:239-255 | lang_id_for_ext is nonzero exactly when is_supported_lang accepts the name |
| Validator.ValidateA2aPacket | ai/toolchain-native/aiir_toolchain.c:743-757 | accepts exactly the buffers with at least 8 words, the A2A magic and total equal to the length, where every TOC entry is inside the buffer, has a nonzero row width dividing its length, and has its section inside the buffer |
| Validator.PayloadChangeUndetected | ai/toolchain-native/aiir_toolchain.c:743-757 | changing a word after the TOC keeps a valid packet valid: the validator does not cover payload contents |
| Validator.MagicChangeDetected | ai/toolchain-native/aiir_toolchain.c:745 | a packet with a changed magic is rejected |
| Validator.TotalChangeDetected | ai/toolchain-native/aiir_toolchain.c:747 | changing the total word of a valid packet makes it invalid |
| Validator.FlipBitChanges | ai/toolchain-native/aiir_toolchain.c:794-795 | flipping bit b < 31 changes the word, and flipping it again restores the word |
| Validator.MutantDiffersInOneWord | ai/toolchain-native/aiir_toolchain.c:792-795 | the i-th mutant differs from the base packet in exactly the word its draw selects, and there in exactly one bit below 31: the mutant word is the base word XOR 2^bit |
| Validator.FlipIsXor | ai/toolchain-native/aiir_toolchain.c:795 | flipping bit b is XOR with 2^b |
| Validator.FlipXorIsBit | ai/toolchain-native/aiir_toolchain.c:795 | a word and its flip differ in bit b alone: their XOR is 2^b |
| Validator.RejectedCount | ai/toolchain-native/aiir_toolchain.c:788-798 | the number of rejected mutants never exceeds the number of iterations |
| Validator.BasePacketIsFirstRow | ai/toolchain-native/aiir_toolchain.c:778-783 | when the table is whole rows of three, the base packet is the one the runtime's get_packet_by_id(0) serves from the same table and blob; otherwise there is none |
| Validator.MutateOnce | ai/toolchain-native/aiir_toolchain.c:759-796 | two xorshift32 draws select the word and the bit; the result is rejected exactly when the validator refuses that mutant |
| Validator.CountRejected | ai/toolchain-native/aiir_toolchain.c:787-798 | the loop counts exactly RejectedCount over iters mutations from seed 0x12345678 |
| Validator.Conformance | ai/toolchain-native/aiir_toolchain.c:768-803 | no report when the base packet is missing or invalid; otherwise the report {iters, rejected, 1} with rejected equal to RejectedCount |
| Db.LoadDbFails | ai/runtime-server-native/ai_runtime_native.c:167-218 | the schema load fails exactly when the header, the TOC, the presence of OPS and SIG, or their multiples of 6 and 4 words fail |
| Db.LoadDbRows | ai/runtime-server-native/ai_runtime_native.c:193-216 | a loaded index takes its op rows from the last OPS section in 6-word rows and its sig rows from the last SIG section in 4-word rows |
| Db.FirstOpIff | ai/runtime-server-native/ai_runtime_native.c:160-165 | an op is found exactly when one has the id, and the first such row is returned |
| Db.SigCountAppend | ai/runtime-server-native/ai_runtime_native.c:506-510 | the signature count of a concatenation is the sum of the counts |
| Db.SigCountZero | ai/runtime-server-native/ai_runtime_native.c:506-510 | the count is zero exactly when no row has the op id |
| Db.FoundSigCounted | ai/runtime-server-native/ai_runtime_native.c:512-517 | if find_sig finds a row, the op's signature count is positive |
| Db.TypeCheckAccepts | ai/runtime-server-native/ai_runtime_native.c:494-504 | type 1 accepts integers, 2 any number, 3 a string, 5 a boolean and 6 null; nothing else matches |
| Db.I64IsF64 | ai/runtime-server-native/ai_runtime_native.c:496-497 | anything type 1 accepts, type 2 accepts as well |
| Db.UnknownTypeRejects | ai/runtime-server-native/ai_runtime_native.c:499-502 | type ids 0, 4 and those above 6 accept no value |
| Schema.OpsRoundTrip | ai/toolchain-native/aiir_toolchain.c:437-445 | decoding the flattened op rows gives back the rows |
| Schema.SigsRoundTrip | ai/toolchain-native/aiir_toolchain.c:447-454 | decoding the flattened signature rows gives back the rows |
| Schema.DbLayout | ai/toolchain-native/aiir_toolchain.c:455-471 | the schema packet is 122 words: the header and three TOC entries, then the ops, the sigs and the META table |
| Schema.DbWellFormed | ai/toolchain-native/aiir_toolchain.c:433-471 | the schema packet has a valid header and TOC |
| Schema.SchemaLoads | ai/toolchain-native/aiir_toolchain.c:433-471 | load_db_index reads the written packet back to the seven ops and thirteen signatures |
| Schema.RebuildDb | ai/toolchain-native/aiir_toolchain.c:433-471 | the array written equals the schema packet, and the reported counts are its length, 7 ops and 13 signatures |
| Schema.SchemaSigCount | ai/toolchain-native/aiir_toolchain.c:447-454 | ops 1001, 2001 and 4001 have 1 signature, 1002 and 2002 have 3, 3001 has 4, and every other id has none |
| Schema.SchemaArity | ai/toolchain-native/aiir_toolchain.c:437-454 | every op's minimum and maximum argument counts equal its number of signatures |
| Schema.SchemaSigsUnique | ai/toolchain-native/aiir_toolchain.c:447-454 | no two signature rows share an op id and an argument index |
| Schema.SchemaSigsCover | ai/toolchain-native/aiir_toolchain.c:437-454 | every argument index below an op's minimum has a signature row |
| Schema.SchemaNeverSigArity | ai/runtime-server-native/ai_runtime_native.c:680-687 | with the built schema, no request is ever rejected with sig-arity |
| Schema.SchemaDryRun | ai/runtime-server-native/ai_runtime_native.c:618-711 | with the built schema, a request runs exactly when the policy allows it, the op exists, the argument count matches its signatures and every argument type checks |
| Json.EscapeByte | ai/runtime-server-native/ai_runtime_native.c:93-101 | each source byte becomes 1 to 6 bytes |
| Json.EscapedLength | ai/runtime-server-native/ai_runtime_native.c:87-116 | the escaped text is at least as long as the source and at most six times as long |
| Json.EscapedHasNoControl | ai/runtime-server-native/ai_runtime_native.c:93-110 | the escaped text contains no byte below 0x20 |
| Json.UnescapeEscaped | ai/runtime-server-native/ai_runtime_native.c:93-110 | decoding the escaped text as a JSON string body gives back the source |
| Json.JsonEscapeCopy | ai/runtime-server-native/ai_runtime_native.c:87-116 | succeeds exactly when the escaped text is shorter than the buffer; the buffer then starts with the escaped text and a NUL, and the length is returned |
| Policy.ParseBoolDefault | ai/native-core/aiir_policy.c:7-12 | the default is used exactly when the value is unset or not one of 1/true/yes/0/false/no; otherwise the result is true exactly for 1/true/yes |
| Policy.ParseBoolSpellings | ai/native-core/aiir_policy.c:9-10 | TRUE, Yes and 1 parse as true; False, NO and 0 parse as false; " 1" and "on" give the default |
| Policy.WordsDisjoint | ai/native-core/aiir_policy.c:9-10 | no value is both a true word and a false word |
| Policy.StrToUL | ai/native-core/aiir_policy.c:37 | a conversion consumes at least one character and its value is at most ULONG_MAX |
| Policy.SignedConversion | ai/native-core/aiir_policy.c:37 | after white space and one sign, strtoul reads the numeral up to the first non-digit; a minus negates the value modulo 2^64, and a value above ULONG_MAX saturates |
| Policy.MinusOneSegment | ai/native-core/aiir_policy.c:32-48 | "\t-1" converts to ULONG_MAX, since the tab is white space for strtoul, and the op list becomes [0xFFFFFFFF] |
| Policy.ListOpsSplit | ai/native-core/aiir_policy.c:32-51 | the op list of "a,b" is the ops of segment a followed by the list of b |
| Policy.SegmentNumeral | ai/native-core/aiir_policy.c:34-48 | a segment of blanks and then digits contributes its decimal value, saturated at ULONG_MAX and cast to uint32_t |
| Policy.InitFromEnv | ai/native-core/aiir_policy.c:14-55 | db exec is allowed per parse_bool_env with default false; all ops are allowed exactly when the value is "*"; otherwise the list holds the numerals of the comma-separated segments |
| Policy.AllowOp | ai/native-core/aiir_policy.c:57-61 | true exactly when all ops are allowed or the id is in the list |
| Drift.SetHashSteps | ai/native-core/aiir_drift.c:25-33 | the set hash starts at the offset basis and folds in one file hash per step |
| Drift.MissingFileIsZero | ai/native-core/aiir_drift.c:8-15 | an unreadable core file contributes hash 0 |
| Drift.HashFile | ai/native-core/aiir_drift.c:8-15 | returns FileHash: the FNV-1a of the file's bytes, or 0 when it cannot be read; Drift.MissingFileIsZero and Drift.SetHashSteps prove how that value enters the set hash |
| Drift.HashCoreSet | ai/native-core/aiir_drift.c:17-34 | the loop over the five core files returns CoreSetHash |
| Drift.TickChanges | ai/native-core/aiir_drift.c:44-52 | each tick wraps the check counter up by one; the base hash and drift count change exactly on a check tick with a nonzero new hash that differs; then the base becomes the new hash and the count goes up by one |
| Drift.DriftBound | ai/native-core/aiir_drift.c:44-52 | after n ticks from zero, checks is n and the drift count is at most n / check_every |
| Drift.DriftWatch.Init | ai/native-core/aiir_drift.c:36-42 | sets the directory, check_every (200 when 0), base hash equal to the core-set hash, and zero counters; succeeds exactly when the base hash is nonzero |
| Drift.DriftWatch.Tick | ai/native-core/aiir_drift.c:44-52 | the new counters are TickSpec of the old ones and the current core-set hash |
| RuntimeServer.DecodeOps | ai/runtime-server-native/ai_runtime_native.c:201-209 | the loop decodes the OPS words into OpsOf rows |
| RuntimeServer.DecodeSigs | ai/runtime-server-native/ai_runtime_native.c:210-216 | the loop decodes the SIG words into SigsOf rows |
| RuntimeServer.ScanDbToc | ai/runtime-server-native/ai_runtime_native.c:167-193 | accepts exactly the D2B packets with a valid header and TOC, and returns the last OPS and SIG entries |
| RuntimeServer.LoadDbIndex | ai/runtime-server-native/ai_runtime_native.c:167-218 | returns exactly LoadDb of the packet |
| RuntimeServer.PacketByIdRows | ai/runtime-server-native/ai_runtime_native.c:281-291 | no packet exactly when the id is past the row count or its (off, len) leaves the blob; otherwise the blob slice of that row |
| RuntimeServer.AdaptRowFrom | ai/runtime-server-native/ai_runtime_native.c:336-345 | finds the first row with the file id, and finds none exactly when no row has it |
| RuntimeServer.DriftCheckEvery | ai/runtime-server-native/ai_runtime_native.c:237-242 | the interval is between 1 and 1000000; it is the value strtoul parses when that is 1 .. 1000000, and 200 otherwise, including an unset or empty variable |
| RuntimeServer.DriftEveryNumeral | ai/runtime-server-native/ai_runtime_native.c:237-242 | a decimal numeral followed by a non-digit or nothing gives its value when 1 .. 1000000, else 200 |
| RuntimeServer.ExecDryRunIff | ai/runtime-server-native/ai_runtime_native.c:618-711 | a dry run happens exactly when every check passes in order; it answers with the op id, the proc id of the first matching op, and the argument count |
| RuntimeServer.ExecDisabled | ai/runtime-server-native/ai_runtime_native.c:619-623 | when db exec is not allowed, every request is refused with policy-db-exec |
| RuntimeServer.ExecRespectsPolicy | ai/runtime-server-native/ai_runtime_native.c:652-656 | every dry run is for an op the policy allows |
| RuntimeServer.ArgcWhateverTypes | ai/runtime-server-native/ai_runtime_native.c:672-678 | an argc rejection depends only on the number of arguments, not on their values |
| RuntimeServer.AuditLog.LogDbExec | ai/native-core/aiir_state.c:20-26 | appends exactly one DbExec event |
| RuntimeServer.Runtime.LoadTables | ai/runtime-server-native/ai_runtime_native.c:220-230 | keeps the five buffers; succeeds exactly when both tables are whole 3-word rows and the schema loads; the decoded ops and sigs are then LoadDb's |
| RuntimeServer.Runtime.Load | ai/runtime-server-native/ai_runtime_native.c:220-245 | as LoadTables, and also requires a nonzero core-set hash; on success the policy comes from the environment and the drift watcher starts at the core-set hash with zero counters |
| RuntimeServer.Runtime.FindOp | ai/runtime-server-native/ai_runtime_native.c:160-165 | returns the first op row with the id, or none |
| RuntimeServer.Runtime.CountSigForOp | ai/runtime-server-native/ai_runtime_native.c:506-510 | returns the number of signature rows of the op, as a uint32_t |
| RuntimeServer.Runtime.FindSig | ai/runtime-server-native/ai_runtime_native.c:512-517 | returns the first signature row with the op id and the argument index |
| RuntimeServer.Runtime.FindAdapt | ai/runtime-server-native/ai_runtime_native.c:336-345 | returns (off, len) of the first adapt row with the file id |
| RuntimeServer.Runtime.GetPacketById | ai/runtime-server-native/ai_runtime_native.c:281-291 | for a table shorter than 2^32 words: no packet exactly when the id is past the row count or the row's (off, len) leaves the blob; otherwise blob[off..off + len] of row id |
| RuntimeServer.Runtime.HandleDbExec | ai/runtime-server-native/ai_runtime_native.c:618-711 | answers Exec for the loaded policy and schema, and logs one audit event exactly on a dry run |
| Summary.ScanSummaryToc | ai/runtime-server-native/ai_runtime_native.c:293-330 | accepts exactly the packets the validator accepts, and returns the last CODE, SLOT, META and CODE_INFO entries |
| Summary.ParseA2aSummary | ai/runtime-server-native/ai_runtime_native.c:293-334 | returns exactly SummaryOf: no result for an invalid packet; otherwise the CODE, SLOT and META record counts, with the CODE_INFO fallback |
| Summary.SummaryIffValid | ai/runtime-server-native/ai_runtime_native.c:293-314 | the summary exists exactly when the validator accepts the packet |
| Summary.ArtifactSummary | ai/runtime-server-native/ai_runtime_native.c:293-334 | every packet make_packet builds reads back as 1 CODE record, 0 SLOT records and 2 META records |
| Container.AssembleWellFormed | ai/toolchain-native/aiir_toolchain.c:743-757 | any sections with positive row widths dividing their lengths assemble into a packet the validator accepts |
| Container.LastEntryFits | ai/runtime-server-native/ai_runtime_native.c:184-191 | the entry a loader keeps for an id has that id and lies inside the packet |
| Container.EntryGuardWraps | ai/runtime-server-native/ai_runtime_native.c:178-179 | an 8-word packet with toc_base 0xFFFFFFFD passes the as-written guard EntryGuardAsWritten (t = toc_base + 4i and t + 3 wrapped to 32 bits) for entry 0, although that entry lies outside the packet |
| Container.EntryGuardAgreesWithoutWrap | ai/runtime-server-native/ai_runtime_native.c:308-309 | without wrap-around, the as-written guard and the exact entry check agree |
| Container.EntryFits32Wraps | ai/runtime-server-native/ai_runtime_native.c:184 | a 12-word A2A packet with entry {1, 0xFFFFFFF8, 16, 4} and a 16-word D2B packet with OPS entry {1, 0xFFFFFFF8, 18, 6} and a proper SIG entry pass the as-written check EntryFitsAsWritten32 (off + len wrapped to 32 bits), although the entry lies outside and the packet is not well formed |
| Container.EntryFits32AgreesWithoutWrap | ai/runtime-server-native/ai_runtime_native.c:184 | when off + len < 2^32, the 32-bit check and the exact check agree |
| Container.EntryFits64Agrees | ai/toolchain-native/aiir_toolchain.c:754 | the validator's 64-bit widening is the exact check |

## Left out

- File and directory I/O: reading, writing, walking directories and
  `pick_aiir`. Buffers are inputs, the core directory is a map from path to
  bytes, and allocation failure (`malloc` returning NULL) is not modelled.
  Neither is `calloc(0)` for an empty OPS or SIG section in load_db_index
  (ai/runtime-server-native/ai_runtime_native.c:197-199): it may return
  NULL and fail the load, while the model loads an empty table.
- The environment getters: each variable's value is an input string.
- The HTTP transport and the JSON request parsing: `find_header_end`,
  `parse_method_path`, `parse_content_length`, `parse_json_int` and
  `parse_json_args`. The model sees the framing verdict, the `opId` and the
  parsed argument values. It also leaves out the response bodies, the
  /health and /ai/meta routes, the circuit breaker and the rate limiter.
- The `/ai/render/<id>` route (ai/runtime-server-native/ai_runtime_native.c:577-616)
  and `build_source_preview`. Its three lookups, get_packet_by_id,
  parse_a2a_summary and find_adapt, are modelled one by one. The model
  leaves out how the route chains them: the `strtol` parse of the id, the
  400 answers for a bad id, a bad packet or a bad adapt row, the 404 for an
  unknown file id, and the preview text with its JSON body.
- `is_likely_text`, `cmd_rebuild_core`, `cmd_build_package` and
  `cmd_unpack_package`. These are the directory-walking commands around
  make_packet and the packers.
- AiirState's snapshot file and WAL appends: only the audit events are
  kept, and a failing snapshot open in `aiir_state_init` is not modelled.
- The `snprintf` truncation of over-long paths in the drift watcher.
- Validator.XorShift: xorshift32 is modelled as shifts and an arithmetic
  XOR on naturals below 2^32. Its bit-level identities are not proved.
- RuntimeServer.PacketByIdRows: requires a lite table shorter than 2^32
  words. For longer tables, the uint32_t row count and the row index 3·id
  wrap, and that is not modelled.
- Schema.RebuildDb: models the word array and the counts. It leaves out
  the file write and the exit status.
- Schema.SchemaOpIds: the op-table facts it states (unique ids, proc id
  equal to op id) hold by computation on the constant table.
- Summary.ScanSummaryToc: keeps the last entry per id and divides after the
  loop. The C code divides on each match, which gives the same counts.
- Policy.InitFromEnv: the realloc growth of the op list and its failure
  are not modelled. The list is a sequence.

## Findings

| source | as written | input that shows it | evidently intended | confidence | as-written member | corrected member |
|---|---|---|---|---|---|---|
| ai/toolchain-native/aiir_toolchain.c:749-750 (also ai/runtime-server-native/ai_runtime_native.c:178-179 and 308-309) | `t = toc_base + i*4u; if (t + 3u >= n)` in uint32_t, so t + 3 wraps | an 8-word packet with the A2A magic, one section, total 8 and toc_base 0xFFFFFFFD: t + 3 wraps to 0, the guard passes, and w[t + 1] is read 4 billion words past the buffer | reject the entry unless t + 3 < n is true without wrap-around | not executed | Container.EntryGuardWraps | Container.EntryGuardAgreesWithoutWrap |
| ai/runtime-server-native/ai_runtime_native.c:184 (also 314) | `off + len > p->len` in uint32_t, so off + len wraps | the 16-word D2B packet {D2B magic, 1, 2, 0, 8, 16, 16, 0, 1, 0xFFFFFFF8, 18, 6, 2, 12, 4, 4}: off + len wraps to 10, the check passes, and load_db_index reads three OPS rows from 0xFFFFFFF8 words past the buffer start; at line 314 the 12-word A2A packet {A2A magic, 2, 1, 0, 8, 12, 12, 0, 1, 0xFFFFFFF8, 16, 4} passes the same way | compare in 64 bits as the validator does at ai/toolchain-native/aiir_toolchain.c:754 | not executed | Container.EntryFits32Wraps | Container.EntryFits32AgreesWithoutWrap |
| ai/toolchain-native/aiir_toolchain.c:369-374 | `total = payload_base + len_code + len_slot + len_source + len_sym + len_meta` in uint32_t, so total wraps | 2^32 - 42 bytes of spaces with AI_MAX_FILE_BYTES and AI_PREVIEW_BYTES at least that and AI_MAX_TOKENS=0: total wraps to 0, calloc(0) is asked for, and the 28 header and TOC words and the payload copies are written past it | fail when the total does not fit in 32 bits | not executed | Artifact.ArtifactTotalWrapsWitness | Artifact.MakePacket |

The corrected checks are `Container.HasEntry` and `Container.EntryFits`.
`Validator.ValidateA2aPacket`, `RuntimeServer.ScanDbToc` and
`Summary.ScanSummaryToc` use them. `Artifact.MakePacket` fails instead of
building a packet whose total has wrapped.

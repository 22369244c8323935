# Verified models of the packet-capture gate, the architecture checker and two server-side state rules

The project models four parts of the repository and proves their central promises.

**The capture gate** (`crates/capture-diff`). Two packet logs, one from the reference
server and one from the Rust server, are parsed (`Pkt`, `RustMeta`, `RustSidecar`,
`RustDump`), cut to an action window and stripped of reviewed ambient traffic
(`Selection`, `Ambient`, with the movement grammar in `MonsterMove` and its cursor reader
in `MonsterMoveReader`),
aligned by longest common subsequence (`Align`), compared body by body and route by route
(`Diff`, with what its operations and signatures say about the packets in `DiffEvidence`),
and judged against an exact topology contract (`Gate`). The end-to-end result
is `Gate.VerifyRequired`: a clean verdict is packet-by-packet equality.

**The architecture checker** (`tools/architecture`). The issue ledger with its
three-colour cycle search (`CycleCheck`, `Ledger`), disjoint module owners (`Owners`),
the lexer that blanks comments and literals in place (`RustLexemes`, `RustMask`, with the
tokens it keeps and blanks in `RustTokens` and `RustSource`), the extents of test-only
items and the line partition built on it (`Hotspots`), the worklist that spreads
test-only flags over a cyclic mount graph (`Mounts`), and the dependency ratchet whose
acceptance implies a minimal policy (`DepPolicy`).

**The TOTP master-secret transition** (`crates/bnet-server`). A state machine that makes
one step per server start over a database whose digest must always name the key the
account secrets are encrypted under (`Totp`).

**The module configuration digest** (`tools/modules`, `crates/wow-module-api`). A
length-prefixed rendering fed to FNV-1a, in the two implementations that are meant to
agree (`ConfigDigest`), with merging and composition order (`Compose`).

`Common`, `Text`, `Utf8`, `Sorting` and `CaptureModel` hold what these share.

## Form

Functions state what a computation means; methods follow the source's loops, cursors and
in-place updates and are proved equal to them; lemmas state what the source promises.
Parameters stand for what lies outside: the reviewed body comparators (`Diff.Reviewed`),
lineage and semantic acceptance (`Gate.VerifyRequired`), socket-address syntax, opcode
names and the race-report check (`RustMeta.Env`), cipher, hash and hexadecimal parsing
(`Totp.Crypto`, with decrypt-after-encrypt and collision freedom as the hypothesis
`Totp.Lawful`, which `Totp.LawsCanBeMet` shows can be met), and the two token recognisers of
the item scan (`Hotspots.Recognisers`). Randomness, row order, directory order and the
outcome of a COMMIT are unconstrained. Integer widths appear where they matter: the
32-bit table and length fields, the wrapping 64-bit hash, the 128-bit secret.

## Promises that do not hold as stated

- compose.py:157 says the digest mirrors the server's exactly. Python counts characters
  and Rust counts bytes in the length prefix, so the hashed bytes agree if and only if
  every text value is ASCII (`ConfigDigest.SidesAgreeIffAscii`), and
  `ConfigDigest.DigestsDiverge` names a configuration whose digests differ.
- A failed start can still have committed: the reply to the COMMIT may be lost, and the
  caller sees the same error either way (`crates/wow-database/src/database.rs:413-416`). A failure is safe if and
  only if the start may not commit at all, which configuration and database decide
  beforehand (`Totp.FailureIsSafeIff`); `Totp.FailureMayHaveCommitted` is a witness.
  Starting again with the same secret then succeeds and changes nothing
  (`Totp.RestartIsQuiet`).
- The PKT writer's length field wraps for bodies of 2^32 - 4 bytes and more; the round
  trip holds exactly below that (`Pkt.PktRoundTrip`).
- A clean diff alone does not mean equal captures (`Gate.CleanDiffAloneAllowsReordering`
  is a witness). It does if and only if the captures interleave their directions alike
  (`Gate.CleanDiffMeansEqualIff`), which the topology contract guarantees
  (`Gate.CleanStreamsMeanEqualCaptures`).
- The two captures of the detour flow may lose different numbers of packets, because one
  of its ignores is not counted (`Ambient.DeletionMayBeAsymmetric` is a witness,
  `Ambient.DeletionIsSymmetricIff` the exact condition).

## Model

| member | source | states |
|---|---|---|
| Align.LcsIsUpperBound | crates/capture-diff/src/diff.rs:562-577 | No common subsequence of the two opcode streams is longer than the value the table holds, although the table matches greedily whenever two opcodes are equal |
| Align.AlignStreams | crates/capture-diff/src/diff.rs:562-601 | The in-place table and the walk over it (greedy match, `>=` tie-break, leftovers at the ends) produce exactly the edit script the other rows reason about; one stream must be shorter than 2^32 |
| Align.ScriptIsEditScript | crates/capture-diff/src/diff.rs:578-601 | The script consumes both streams step by step from the front, pairing only equal opcodes |
| Align.EditScriptVisitsEveryPacketOnce | crates/capture-diff/src/diff.rs:578-601 | Match and Del steps list 0..m-1, Match and Ins steps list 0..n-1, each in increasing order exactly once, for any edit script |
| Align.AlignmentIsOptimal | crates/capture-diff/src/diff.rs:543-601 | The matched pairs are a common subsequence and no common subsequence whatsoever has more pairs |
| Align.EditScriptConservesOpcodes | crates/capture-diff/src/diff.rs:578-601 | For every opcode, missing minus extra steps equals its count in the golden stream minus its count in the Rust stream |
| Align.MovedPacketsPairUp | crates/capture-diff/src/diff.rs:543-601 | When both streams hold the same opcodes, a moved packet always shows up as one Missing and one Extra |
| Align.ScriptIsAllMatches | crates/capture-diff/src/diff.rs:562-601 | Every step is a Match if and only if the streams are equal, and then packets are paired position by position |
| Align.MissingComesFirst | crates/capture-diff/src/diff.rs:578-601 | Ties go to the golden stream: where the streams have nothing in common, every missing step comes before every extra one |
| Diff.FirstDiffIsFirst | crates/capture-diff/src/diff.rs:88-118 | An offset is reported if and only if it is the first position where the bodies differ, or the shorter length when one is a prefix of the other; none is reported exactly for equal bodies |
| Diff.BodyDiffIsIdentical | crates/capture-diff/src/diff.rs:88-125 | A body diff counts as identical exactly when the selected comparator accepts the pair: the reviewed verdict where there is one, byte equality otherwise |
| Diff.ComputeBodyDiff | crates/capture-diff/src/diff.rs:88-118 | The computed diff carries the comparator verdict and, on the byte path, the first differing offset |
| Diff.CompareDirection | crates/capture-diff/src/diff.rs:204-259 | One direction appends exactly one operation per alignment step, and the running counters stay the tally of all operations so far |
| Diff.ComputeReport | crates/capture-diff/src/diff.rs:199-262 | The report lists the operations of every requested direction in order, and each counter is the number of operations of its kind: clean pairs, body mismatches, connection mismatches, missing, extra |
| DiffEvidence.OperationsCoverBothStreams | crates/capture-diff/src/diff.rs:204-259 | Every operation describes truthfully the packets it names (kind, indices, opcode, name, lengths, connections, verdict), and the operations of one direction name every packet of both streams exactly once, in order |
| DiffEvidence.PacketsAreConserved | crates/capture-diff/src/diff.rs:204-259 | Pairs plus missing operations are as many as the golden packets of the direction, pairs plus extra ones as many as the Rust packets |
| DiffEvidence.SignaturesRecordDivergences | crates/capture-diff/src/diff.rs:274-355 | Every signature records a real divergence of two packets of the streams, with each length, offset and connection on its own side, or the reviewed verdict in place of lengths and offset |
| Diff.CleanIffStreamsAgree | crates/capture-diff/src/diff.rs:199-270 | A report is clean if and only if, for every compared direction, both streams have equal length and agree position by position on opcode, connection and comparator body |
| Diff.DirectionClean | crates/capture-diff/src/diff.rs:199-270 | The same equivalence for one direction, through the optimality of the alignment |
| Diff.CollectSignatures | crates/capture-diff/src/diff.rs:274-355 | The loop over operations emits the body and route signatures of each operation in order |
| Diff.SignatureCount | crates/capture-diff/src/diff.rs:265-355 | The number of signatures is missing plus extra plus body mismatches plus connection mismatches, so there are none exactly for a clean report |
| Diff.ComputeBaselineDelta | crates/capture-diff/src/diff.rs:459-504 | New is the multiset difference actual minus expected and fixed is expected minus actual; the delta matches exactly when the multisets are equal, in any order |
| Diff.EmptyBaselineIffClean | crates/capture-diff/src/diff.rs:265-355 | Matching the empty baseline is the same as a clean report |
| CaptureModel.Position | crates/capture-diff/src/model.rs:86-91 | The index of the first packet a boundary selects, or none when no packet is selected |
| CaptureModel.ByDirectionKeepsOrder | crates/capture-diff/src/model.rs:144-149 | The packets of one direction are those at an increasing list of positions, which are exactly the positions of that direction |
| Gate.LoadRequirement | crates/capture-diff/src/flow.rs:407-540 | Loading a flow contract succeeds exactly for the well-formed ones and returns it unchanged; a refusal names a rule the contract breaks and breaks no rule applied earlier |
| Gate.HasDuplicateIgnore | crates/capture-diff/src/flow.rs:407-540 | The accumulating loop over ignored opcodes reports a duplicate exactly when two entries are equal |
| Gate.ValidateCaptureShape | crates/capture-diff/src/flow.rs:226-295 | Accepts exactly the captures whose packets realise the required topology, packet by packet, with nothing missing or extra; a refusal names the first fault, boundaries before length before order |
| Gate.StreamAgreementIsPositional | crates/capture-diff/src/diff.rs:199-262 | For captures with the same sequence of directions, agreement of one per-direction stream is agreement at every capture position of that direction |
| Gate.CleanStreamsMeanEqualCaptures | crates/capture-diff/src/flow.rs:226-295 | Two captures of the same topology agree at every position on direction, connection, opcode and body if and only if their per-direction streams agree |
| Gate.VerifyRequired | crates/capture-diff/src/main.rs:682-728 | Each verdict is given exactly in its case, in the order contract, readiness, directions, lineage, C++ capture, Rust capture, baseline, diff; clean means the two packet lists agree at every position, with the number of required packets matched |
| Gate.CleanDiffMeansEqualIff | crates/capture-diff/src/diff.rs:199-270 | A clean diff of both directions means packet-by-packet equality if and only if the two captures interleave the directions in the same way |
| Gate.CleanDiffAloneAllowsReordering | crates/capture-diff/src/diff.rs:199-270 | A witness that they need not: swapping a request and a reply leaves the diff clean |
| MonsterMove.ParseMoveWritten | crates/capture-diff/src/main.rs:319-428 | Reading a written message followed by any bytes gives back the message and those bytes |
| MonsterMove.ParseMoveReads | crates/capture-diff/src/main.rs:319-428 | Whatever is read was written: the consumed bytes are the canonical rendering of the message read |
| MonsterMove.FiniteUnlessExponentFull | crates/capture-diff/src/main.rs:299-302 | Taken apart into sign, exponent and fraction, a float pattern is finite if and only if its exponent bits are not all ones |
| MonsterMove.HeaderRoundTrip | crates/capture-diff/src/main.rs:319-428 | The 40-bit most-significant-bit-first spline header returns every field of every valid header |
| MonsterMove.HeaderUnique | crates/capture-diff/src/main.rs:319-428 | Five header bytes with zero reserved bits come from exactly one header |
| MonsterMove.HeaderLayout | crates/capture-diff/src/main.rs:359-365 | The header fields are the 2, 16, 1, 1, 16, 1, 1, 1 and 1 bits of the 40-bit value, most significant first |
| MonsterMove.HeaderIsBigEndian | crates/capture-diff/src/main.rs:356-358 | The fold over the five header bytes is their big-endian value |
| MonsterMove.CanonicalIffParsesToTheEnd | crates/capture-diff/src/main.rs:319-428 | A body is the rendering of some valid message if and only if reading it succeeds and leaves nothing over |
| MonsterMove.WriteMoveInjective | crates/capture-diff/src/main.rs:319-428 | Different messages have different bodies |
| MonsterMove.CanonicalBodiesArePrefixFree | crates/capture-diff/src/main.rs:319-428 | No accepted body is a proper prefix of another |
| MonsterMove.MoveSize | crates/capture-diff/src/main.rs:323-428 | A canonical body has 52 fixed bytes, its packed GUIDs, and the bytes its header announces, section by section |
| MonsterMoveReader.MonsterReadPackedGuid | crates/capture-diff/src/main.rs:304-317 | Advances over exactly the bytes of a packed GUID, refuses a zero payload byte, and tells whether it is empty |
| MonsterMoveReader.MonsterReadFloats | crates/capture-diff/src/main.rs:299-303 | Advances over exactly `count` finite 32-bit floats, or fails |
| MonsterMoveReader.ReadPath | crates/capture-diff/src/main.rs:319-428 | Filter, face and points are consumed exactly as the header announces them |
| MonsterMoveReader.ReadExtras | crates/capture-diff/src/main.rs:319-428 | Spell, jump and animation sections are consumed exactly as the header announces them |
| MonsterMoveReader.ValidMonsterMoveBody | crates/capture-diff/src/main.rs:319-428 | The cursor-based validator accepts exactly the canonical bodies, for every byte string a slice can hold |
| Selection.ValidateIgnoredOpcodes | crates/capture-diff/src/main.rs:197-248 | Accepts exactly ignore lists without duplicates whose entries are reviewed for the flow and never overlap a window boundary; a refusal names the first fault |
| Selection.OverlapMeansCommonPacket | crates/capture-diff/src/main.rs:197-202 | Two boundaries overlap if and only if some packet is selected by both |
| Selection.ReviewedIgnoresAreAccepted | crates/capture-diff/src/main.rs:180-241 | Without boundaries the three reviewed ambient ignores are accepted in every flow, and the combat values in the detour flow only |
| Selection.ApplyIgnoredOpcodes | crates/capture-diff/src/main.rs:266-274 | Retains, in order, exactly the packets no ignore matches |
| Selection.PositionAfterFilter | crates/capture-diff/src/main.rs:197-274 | A boundary no ignore overlaps is found in the filtered packets exactly when it is found before filtering, and the parts around it correspond |
| Selection.FilterCommutesWithWindow | crates/capture-diff/src/main.rs:250-274 | Once the ignores are valid, filtering before or after cutting the action window gives the same success and the same capture |
| Selection.WindowIsExact | crates/capture-diff/src/main.rs:250-264 | Each combination of options: with both boundaries exactly the packets from the first start to the first end at or after it; with an end alone exactly the prefix through its first match; when each fails, and with which error |
| Selection.WindowIsIdempotent | crates/capture-diff/src/main.rs:250-264 | Cutting a cut window again changes nothing |
| Selection.SelectedEndsAtBoundaries | crates/capture-diff/src/main.rs:250-274 | The boundary packets survive as first and last packets of a filtered from/until selection |
| Selection.WindowEndsAtBoundaries | crates/capture-diff/src/model.rs:170-217 | A cut window starts with the from packet and ends with the only until packet it holds |
| Ambient.ValidateAmbientIgnoreEvidence | crates/capture-diff/src/main.rs:430-528 | Accepts exactly the legitimate ambient traffic and returns the number of packets of each ignored kind; a refusal names the first faulty packet and its fault, or the lowest unanswered sequence |
| Ambient.ScanTimeSync | crates/capture-diff/src/main.rs:445-510 | One packet moves the pending and completed tables along, or the traffic up to it is not legitimate |
| Ambient.SequenceLeads | crates/capture-diff/src/main.rs:283-285 | A sequence number is the first four body bytes, least significant first |
| Ambient.ScanEnd | crates/capture-diff/src/main.rs:511-520 | At the end the exchange is complete exactly when no request is pending |
| Ambient.AcceptedTimeSyncIsABijection | crates/capture-diff/src/main.rs:430-527 | Traffic is accepted if and only if every time-sync packet has its shape and route, request sequences are distinct, response sequences are distinct, every response follows the request it answers and every request is answered; requests and responses are then equally many |
| Ambient.ApplyCapturePairSelection | crates/capture-diff/src/main.rs:538-560 | The pair is selected exactly when both captures pass the checks with equal evidence counts, and gives both filtered windows; a refusal names the first failing stage, golden capture first |
| Ambient.SelectionIsIdempotent | crates/capture-diff/src/main.rs:530-536 | A selected capture can be selected again and is unchanged |
| Ambient.DeletionIsSymmetricIff | crates/capture-diff/src/main.rs:276-281 | The two captures lose equally many packets if and only if the uncounted combat-values ignore is off or drops equally many on both sides |
| Ambient.DeletionMayBeAsymmetric | crates/capture-diff/src/main.rs:276-281 | A witness: one selectable pair with equal evidence counts loses one packet on one side and none on the other |
| Pkt.Cursor.TakeBytes | crates/capture-diff/src/pkt.rs:61-72 | Advances over exactly n bytes, or fails without moving |
| Pkt.ReadPacket | crates/capture-diff/src/pkt.rs:125-163 | Reads one record and leaves the cursor behind it, with the source's error for each malformed field |
| Pkt.ParsePktBytes | crates/capture-diff/src/pkt.rs:100-165 | The cursor loop computes the specified parse, success or first error |
| Pkt.LogTruncated | crates/capture-diff/src/pkt.rs:100-165 | A truncated accepted log is accepted if and only if it is cut at a record boundary behind the file header, and then holds exactly the packets before the cut |
| Pkt.WritePktBytes | crates/capture-diff/src/pkt.rs:167-201 | Emits the file header and one record for each packet, numbered in order |
| Pkt.RecordWritten | crates/capture-diff/src/pkt.rs:100-201 | What the parser makes of any written record, including one whose length field wrapped |
| Pkt.PrefixLayout | crates/capture-diff/src/pkt.rs:185-196 | A record begins with CMSG or SMSG in ASCII, then connection, running number, 20 and body length plus 4, each a little-endian word at its offset |
| Pkt.RecordLayout | crates/capture-diff/src/pkt.rs:196-199 | Behind the prefix stand twenty zero bytes, the opcode word and the body |
| Pkt.PktRoundTrip | crates/capture-diff/src/pkt.rs:100-201 | Writing then parsing returns exactly the packets if and only if every body fits its 32-bit length field |
| RustMeta.ReadFields | crates/capture-diff/src/rustdump.rs:115-140 | The loop over lines collects the fields, refusing malformed lines, unknown keys, untidy values and repetitions |
| RustMeta.LinesByEnding | crates/capture-diff/src/rustdump.rs:115-140 | Text is read line by line: a line feed ends a line and takes a carriage return before it, and a last line needs no end |
| RustMeta.SidecarFormat | crates/capture-diff/src/rustdump.rs:370-377 | The written sidecar is the eight lines of the source format in their order |
| RustSidecar.ParseMeta | crates/capture-diff/src/rustdump.rs:115-210 | A sidecar is accepted, as this metadata, if and only if it is the UTF-8 text of eight distinct tidy `key=value` lines whose values describe that metadata and, with the counter, spell the file stem |
| RustSidecar.StemDetermines | crates/capture-diff/src/rustdump.rs:115-210 | Any two sidecars accepted under one file stem agree on direction, sequence number, length and opcode, whoever wrote them |
| RustMeta.FieldsReadBack | crates/capture-diff/src/rustdump.rs:115-140 | Any list of distinct tidy fields written as `key=value` lines is read back as the same map |
| RustMeta.MetaReadsBack | crates/capture-diff/src/rustdump.rs:115-210 | A written sidecar parses to its packet's metadata, or fails with the unsupported-connection error exactly when the connection id is above 1 |
| RustDump.ParseRustDump | crates/capture-diff/src/rustdump.rs:225-350 | Whatever order the directory lists files in, accepts exactly the directories that dump something (paired files, gap-free and duplicate-free sequence numbers, matching lengths and opcodes) and returns those packets in sequence order |
| RustDump.DumpIsUnique | crates/capture-diff/src/rustdump.rs:225-350 | A directory dumps at most one packet list |
| RustDump.SortedIsExpected | crates/capture-diff/src/rustdump.rs:289-312 | Sorting the sidecars of a dump by sequence number lists one gap-free interval in packet order |
| RustDump.WriteRustDump | crates/capture-diff/src/rustdump.rs:356-380 | Writes one body file and one sidecar for each packet under its canonical stem |
| RustDump.StemsDiffer | crates/capture-diff/src/rustdump.rs:356-380 | Files of different packets never overwrite each other |
| RustDump.RustDumpRoundTrip | crates/capture-diff/src/rustdump.rs:225-380 | Into a fresh directory: the written packets and no others are read back if and only if the capture is non-empty and uses connections 0 and 1; otherwise the directory is rejected |
| CycleCheck.Search.Visit | tools/architecture/check_policy.py:693-709 | The three-colour visit either returns a real closed walk or finishes its node together with everything it had finished before |
| CycleCheck.FindCycle | tools/architecture/check_policy.py:693-713 | No cycle is reported if and only if the graph has none, and a reported trail is a closed walk of the graph |
| CycleCheck.WalkRunsBackwards | tools/architecture/check_policy.py:693-713 | Along any walk the finishing order strictly decreases |
| Ledger.ValidateIssueLedger | tools/architecture/check_policy.py:496-721 | Accepts exactly the ledgers whose numbers, references, closed-issue rule, designated issues, sequence, acyclicity and order hold; an accepted ledger leaves the tables the next rows reason about, and a reported cycle is one |
| Ledger.CheckSequence | tools/architecture/check_policy.py:653-677 | Accepts exactly sequences that list every slice once and nothing else |
| Ledger.ClosedIssuesRestOnClosedIssues | tools/architecture/check_policy.py:599-633 | In an accepted ledger every issue reachable through dependencies from a closed issue is closed |
| Ledger.SequencePermutesSlices | tools/architecture/check_policy.py:653-677 | The accepted sequence is a permutation of the slice issues |
| Ledger.SliceChainsRunBackwards | tools/architecture/check_policy.py:679-717 | Every chain of slice dependencies runs strictly backwards through the sequence, at least one place a link |
| Ledger.NoIssueDependsOnItself | tools/architecture/check_policy.py:679-713 | No dependency path of an accepted ledger returns to its start |
| Ledger.ReferencesNameOthersOnce | tools/architecture/check_policy.py:572-586 | In an accepted ledger every number is positive and every issue refers to other issues only, each at most once |
| Owners.OverlapIsExact | tools/architecture/check_policy.py:96-113 | The pairwise overlap test fires if and only if some logical module of some package belongs to both owners |
| Owners.ValidateOwners | tools/architecture/check_policy.py:68-140 | The loop accepts exactly complete lists of valid, pairwise disjoint owners with open tracking issues; a refusal names the fault of the first faulty owner, or that a capability is missing |
| Owners.LogicalModulesArePaths | tools/architecture/check_policy.py:69-95 | A module path is accepted if and only if it is `crate` followed by any number of identifiers, each behind two colons |
| Owners.ModulesHaveOneOwner | tools/architecture/check_policy.py:68-140 | In an accepted policy every module has at most one owner |
| Mounts.LogicalHotspotFiles | tools/architecture/hotspot_metrics.py:598-613 | The worklist terminates on cyclic mounts and returns exactly the reachable files, each flagged exactly when some mount path to it passes a test-only mount or a file that starts flagged; it fails exactly when a reachable file is unreadable |
| Mounts.ClosedTableCoversWalk | tools/architecture/hotspot_metrics.py:598-613 | Any table closed under mounts holds every file of every walk and carries every flag along it |
| Mounts.UpdateUsesSlack | tools/architecture/hotspot_metrics.py:608-612 | Each push adds a file or raises a flag, so the worklist terminates |
| RustMask.MaskRustNoncode | tools/architecture/hotspot_metrics.py:95-149 | The in-place lexer computes the specified masked text for every byte string, across nested comments, raw strings, escapes and unterminated literals |
| RustMask.BlankRustNoncode | tools/architecture/hotspot_metrics.py:27-31 | Blanks exactly the range, keeping line ends and everything outside |
| RustMask.RustRawStringEnd | tools/architecture/hotspot_metrics.py:34-55 | Returns an end if and only if a raw string opens here (prefix, n hashes, quote, no identifier byte before it) and the end lies behind the first quote with n hashes, or is the end of the text when there is none |
| RustMask.RustCharLiteralEnd | tools/architecture/hotspot_metrics.py:58-92 | Returns an end if and only if what follows the apostrophe up to there is one character (simple, hexadecimal or unicode escape, or one byte with the continuation bytes its lead announces) and the closing apostrophe; so a lifetime is none |
| RustTokens.MaskedFileKeepsExactlyCode | tools/architecture/hotspot_metrics.py:95-149 | A file written as code bytes, line comments, nested block comments, strings, raw strings and character literals, closed or cut off by the end of the file, is masked token by token: code survives byte for byte and exactly the other tokens are blanked |
| RustSource.EveryFileKeepsExactlyCode | tools/architecture/hotspot_metrics.py:95-149 | Every byte string whatever can be written as such tokens, and however it is written so, masking gives exactly its code bytes with everything else blanked |
| RustMask.MaskPreservesLayout | tools/architecture/hotspot_metrics.py:95-149 | Length and every LF and CR position survive, and every changed byte becomes a space |
| RustMask.MaskRemovesLexicalTraps | tools/architecture/hotspot_metrics.py:95-149 | The masked text contains no double quote, no line comment opener and no block comment opener |
| RustMask.MatchingRustDelimiter | tools/architecture/hotspot_metrics.py:158-169 | The first position at which the delimiters opened since the start are all closed, or none exactly when there is none |
| RustMask.MatchedTextStaysOpen | tools/architecture/hotspot_metrics.py:158-169 | Between an opening delimiter and its match the text is never closed |
| Hotspots.CfgTestItemEnd | tools/architecture/hotspot_metrics.py:248-305 | The first semicolon or body brace outside every bracket ends the item, a body at its matching brace; fails exactly when there is no such end |
| Hotspots.ItemEndIsUnique | tools/architecture/hotspot_metrics.py:248-305 | An item has one end |
| Hotspots.DepthsAreBalances | tools/architecture/hotspot_metrics.py:248-305 | At every byte the three bracket depths are opening minus closing brackets since the start; the angle depth never exceeds the `<` seen and stays zero for items without a body |
| Hotspots.TopLevelCfgTestItemSpans | tools/architecture/hotspot_metrics.py:308-338 | The spans are those of the top-level test attributes, all of them, in order; the scan fails if and only if some top-level attribute never closes or some test attribute has no item of a known kind or no item end |
| Hotspots.TestLineIndexes | tools/architecture/hotspot_metrics.py:341-349 | The collected line ranges are exactly the lines that hold some byte of a span |
| Hotspots.HotspotLineCounts | tools/architecture/hotspot_metrics.py:376-383 | Production and test lines partition the physical lines, and test lines are exactly those touched by a top-level test item; counting fails if and only if the file is not entirely test and the scan of its masked text fails |
| Hotspots.MaskKeepsLines | tools/architecture/hotspot_metrics.py:341-349 | Spans found in the masked text name the same lines of the source |
| Hotspots.LineIsInhabited | tools/architecture/hotspot_metrics.py:346-347 | Every line below the line count holds some byte, so the count is the number of lines bytes are on |
| DepPolicy.ValidatePolicy | tools/architecture/check_policy.py:188-493 | Accepts exactly the valid policies and derives sets that hold exactly what the lists say |
| DepPolicy.ClassifyPackages | tools/architecture/check_policy.py:209-220 | Accepts exactly classifications in which no package is in two categories, and returns the package table |
| DepPolicy.CollectExternalExceptions | tools/architecture/check_policy.py:409-456 | Accepts exactly protected, unclassified, distinct external exceptions that are not also allowed |
| DepPolicy.CheckDependencies | tools/architecture/check_dependencies.py:401-517 | Succeeds exactly when there is no error, counting every policy entry as used; otherwise reports every error and only errors |
| DepPolicy.AcceptanceIsExact | tools/architecture/check_dependencies.py:11-76 | Acceptance means: beyond the package lists, allowances and exceptions grant exactly the edges that need a grant, each exactly once |
| DepPolicy.AcceptedPoliciesGrantTheSame | tools/architecture/check_dependencies.py:401-523 | Within one frame the metadata alone decides which edges any accepted policy grants |
| DepPolicy.AcceptedPoliciesAreMinimal | tools/architecture/check_dependencies.py:401-523 | Deleting any one workspace exception, restricted allowance, external allowance or external exception leaves a valid policy that rejects the same metadata |
| DepPolicy.ExternalTargetsAreOutside | tools/architecture/check_policy.py:375-456 | A validated external entry never names a classified package |
| Totp.ConfiguredNumberIsKept | crates/bnet-server/src/secret_mgr.rs:203-224 | No text means no secret, unreadable text is refused, and a configured number keeps its low 128 bits through parsing and into the AES key, whole if and only if it is below 2^128 |
| Totp.HexTextRoundTrip | crates/bnet-server/src/secret_mgr.rs:185-187 | The upper-case hex text that is hashed determines the secret |
| Totp.HexTextIsCanonical | crates/bnet-server/src/secret_mgr.rs:185-187 | That text has upper-case digits only and no leading zero |
| Totp.AesKeyHoldsSecret | crates/bnet-server/src/secret_mgr.rs:189-195 | The 16-byte little-endian key holds the secret's low 128 bits, so it holds the whole secret if and only if the secret is below 2^128 |
| Totp.ConfiguredKeysAreFaithful | crates/bnet-server/src/secret_mgr.rs:184-224 | Two configured numbers have the same key, and the same text to be hashed, if and only if they agree modulo 2^128; below 2^128 only when they are equal |
| Totp.EncryptTotpSecret | crates/bnet-server/src/secret_mgr.rs:257-268 | What is stored is ciphertext, 12-byte IV and 12-byte tag of one encryption of the plaintext, and decrypts under the same secret to it; fails only when the cipher does |
| Totp.DecryptTotpSecret | crates/bnet-server/src/secret_mgr.rs:270-290 | Splits tag and IV off the end and decrypts, failing on anything shorter than both |
| Totp.StoredFormIsSplit | crates/bnet-server/src/secret_mgr.rs:270-290 | Reading ciphertext, IV and tag put together hands the cipher exactly these three parts |
| Totp.AttemptTransition | crates/bnet-server/src/secret_mgr.rs:110-177 | Re-encrypts every non-null account in one transaction with the digest change, in any row order; every failure other than a lost COMMIT reply leaves the database unchanged, each error has its cause, and the commit is only reached when every account can be read |
| Totp.InitializeTotpMasterSecret | crates/bnet-server/src/secret_mgr.rs:48-94 | One start makes exactly one step of the state machine, with the source's error in each refused case |
| Totp.StartKeepsConsistent | crates/bnet-server/src/secret_mgr.rs:48-177 | Any start, successful or not, from a consistent database leaves a consistent one with the same originals |
| Totp.SuccessMeansConfiguredSecret | crates/bnet-server/src/secret_mgr.rs:48-94 | After a successful start the digest names the configured secret and every blob decrypts under it, or all is plaintext when none is configured |
| Totp.FailureIsSafeIff | crates/bnet-server/src/secret_mgr.rs:48-177 | Every failed start leaves the database unchanged if and only if the start may not commit, a condition on configuration and database known before it: the configuration parses, the digest does not match it, the old secret checks out, and every stored account can be read with it (an absent old secret reads none under a digest) |
| Totp.ConsistentMayCommit | crates/bnet-server/src/secret_mgr.rs:48-177 | In a consistent database the condition is just that the digest differs and the old secret is the right one, or none where none is needed |
| Totp.FailureMayHaveCommitted | crates/wow-database/src/transaction.rs:723-776 | "A failed start changes nothing" is false: a lost COMMIT reply can hide a completed transition |
| Totp.DecryptionNeverFails | crates/bnet-server/src/secret_mgr.rs:60-68 | From a consistent database the verified old secret decrypts every account, so that error cannot occur |
| Totp.RestartIsQuiet | crates/bnet-server/src/secret_mgr.rs:48-94 | Starting again with the same secret succeeds and changes nothing, after a success and also after a failure whose COMMIT had gone through |
| Totp.EveryReachableDatabaseIsConsistent | crates/bnet-server/src/secret_mgr.rs:48-177 | Over any sequence of starts with any configurations every reachable database still yields every original plaintext under the secret its digest names |
| ConfigDigest.ComposeDigest | tools/modules/compose.py:156-169 | The nested loops hash the sorted, length-prefixed rendering of the mapping |
| ConfigDigest.ComputeDigest | crates/wow-module-api/src/config.rs:148-163 | The server's digest hashes its own rendering of the ordered map |
| ConfigDigest.RenderDecodes | tools/modules/compose.py:156-169 | The rendered text of valid entries can be read back in exactly one way, whatever `;`, `=` or `:` its values hold, for both implementations |
| ConfigDigest.RenderedEntries | tools/modules/compose.py:156-169 | One entry of each kind spelled out: an integer, both booleans, and a text holding a semicolon |
| ConfigDigest.PreHashIdentifiesConfig | tools/modules/compose.py:156-169 | Two configurations hash the same UTF-8 bytes if and only if they are the same mapping, in any insertion order |
| ConfigDigest.SidesAgreeIffAscii | crates/wow-module-api/src/config.rs:40-46 | The two implementations, promised to mirror each other, hash the same bytes if and only if every text value is ASCII |
| ConfigDigest.DigestsDiverge | tools/modules/compose.py:156-169 | A value holding one accented letter gives different digests on the two sides |
| ConfigDigest.FnvSeesEveryByte | tools/modules/compose.py:165-168 | Changing any single byte of the hashed text changes the 64-bit state |
| ConfigDigest.FnvMixesFirst | tools/modules/compose.py:165-168 | The byte is mixed in before the multiplication, as FNV-1a has it |
| ConfigDigest.FnvKnownValues | tools/modules/compose.py:165-168 | The hash has the published 64-bit FNV-1a values for the empty text and for one letter |
| Utf8.EncodeInjective | tools/modules/compose.py:165-165 | Equal UTF-8 bytes come from equal text |
| Utf8.CharBytesAreUtf8 | tools/modules/compose.py:165-165 | Lead and continuation bytes are those of section 3 of RFC 3629, in the shortest form |
| Utf8.AsciiLength | crates/wow-module-api/src/config.rs:40-46 | Byte length equals character count exactly for ASCII text |
| Compose.LoadConfig | tools/modules/compose.py:127-146 | Succeeds exactly when all keys are valid; overrides win over defaults; the result is listed by key |
| ConfigDigest.KeyBodyIsLetterAndRest | tools/modules/compose.py:124-138 | A key is one lower-case letter and at most 63 lower-case letters, digits and underscores |
| Compose.RejectCollisions | tools/modules/compose.py:172-180 | Accepts exactly module lists with distinct ids and distinct packages |
| Compose.OrderedIsByOrderThenId | tools/modules/compose.py:183-185 | Composition lists the same modules by operator order and within one order by id |
| Sorting.TextLessIsLexicographic | tools/modules/compose.py:183-185 | Ids and keys are compared by their first different character, a prefix coming first |
| Compose.OrderedIsReproducible | tools/modules/compose.py:172-185 | Once collisions are rejected, the composition order depends only on which modules there are, not on discovery order |

## Left out

- The reviewed semantic comparators and capture lineage: an abstract verdict for each pair of bodies and a boolean.
- AES-GCM, Argon2 and number parsing by the big-integer library: abstract functions with stated laws.
- A stored TOTP blob that the database driver cannot decode: the source treats it as empty; the model's blobs are always readable.
- Writes to the account table by others between reading it and committing.
- The retry loop of a deadlocked transaction: the model keeps its three outcomes.
- JSON, TOML and command-line parsing, value types included: policies, ledgers and contracts arrive as typed records, so checks that a field has the right JSON type have no counterpart, nor do checks that a title or reason is not blank.
- Files, symbolic links, file names that are not UTF-8, and subprocesses: directories are maps from names to bytes.
- Ledger.ValidateIssueLedger: which of several violated rules is reported is modelled only as far as a reported cycle is real.
- DepPolicy.ValidatePolicy: error kinds are coarser than the source's messages; which policies are refused is exact.
- RustDump.ParseRustDump: which of several errors is reported is not specified; which directories are refused is exact.
- Totp.AttemptTransition: which account is reported first is not specified, since rows arrive in any order.
- Hotspots.TopLevelCfgTestItemSpans: the item-kind classifier and the `cfg(test)` pattern are parameters, and whether a whole file is test-only is an input.
- Hotspots.HotspotLineCounts: lines are those of texts whose only line end is LF, because Python's `splitlines` splits on more characters.
- Hexadecimal spelling of the finished digest, hex previews, terminal rendering and opcode name tables.
- Masking already masked text: it need not be idempotent, because the search for the brace of a unicode escape may then run further.
- The panic of a debug build on an overflowing length sum in the PKT writer: the model wraps as a release build does.
- Ratchets over line counts, runtime contract checks, lock-file and manifest rendering, and the remaining servers: no algorithm of their own or outside the modelled parts.

# Verified model of the projection benchmarks and the recorded-corpus materializer

This project models, in Dafny, the parts of the repository whose correctness is hard to see by reading:

- **Allocation instrumentation** (`Accounting`, `ProvenanceTable`, `Instrumentation`, `AllocationRuns`, `AllocationReasons`): the
  tombstone hash table, the live-byte counter, the saturating counters with sticky flags and the measurement
  bracket. The C++ object is a class; each of its methods equals a function on a small ledger, and whole runs of
  the ledger are compared with an ideal bookkeeper that has an unbounded table and unbounded integers.
- **Replacement allocator** (`Bytes`, `AlignedHeap`, `Allocator`, `HeapEligibility`): memory is a byte map, `malloc`
  may return any block apart from the live ones, clients write only into their own payloads, and bytes outside live
  blocks may change at any time. The theorems hold for every lawful run.
- **Deterministic CBOR** (`Sorting`, `Cbor`, `CborTheorems`, `CborCanonical`, `CborEncoding`, `CborRfc`,
  `CborVectors`, `Utf8`), **CRC32C** (`Crc32c`, and `CrcPolynomial` for its definition by polynomial division) and
  **framed chunks** (`RawChunk`).
- **Bootstrap and continuity** (`Synchronize`, `SyncFailures`, `BaselineSelection`, `SelectionLaws`): explained by *legs*, a declarative account of
  which updates are skipped and which are chosen.
- **Production book and projection** (`OrderBook`, `BookProjection`, `ProjectionLaws`) and the fuzz harness's reference book
  (`ReferenceBook`).
- **Replay** (`ReplayChecksum`, `ChecksumReference`, `ReplayExecutor`, `ReplayLaws`, `CorpusReplay`): text path against prepared path, the FNV-1a fold, and
  the end-to-end statement from recorded records to a clean replay.
- **JSON writer** (`JsonWriter`) against a reader of RFC 8259 (`JsonReader`) that knows nothing about the writer, and the
  exact set of call sequences that leave JSON behind (`JsonExact`); `JsonLaws` says which text is written.

The theorems to read first are `HeapEligibility.MeasuresTheProgram`, `AllocationRuns.EligibleBracketIsExact`,
`AllocationReasons.ReasonIsFirstFault`, `AlignedHeap.LawfulRunsAreSafe`, `CborEncoding.AcceptsExactlyCanonical`, `CborEncoding.EncodeEqualIffSame`,
`CborRfc.AcceptsRfcWithPythonKeys`, `CrcPolynomial.CrcIsRfcCrc`, `Crc32c.BurstDetected`, `RawChunk.ScanSound` with `ScanComplete`, `Synchronize.SyncExplained` with `ExplainedSyncs`,
`CorpusReplay.RecordedCorpusReplaysClean`, `ReferenceBook.DifferentialNeverAborts`, `JsonReader.WrittenReadsBack` and
`JsonExact.JsonIffOneTree`.

`dafny verify dfyconfig.toml` checks the whole project.

## Where the code differs from what one would expect

- **Why the target must be positive.** `materialize` refuses a target that is not positive
  (tools/m5_recorded_corpus_materializer.py:1123) before anything is selected, so `Synchronize.SyncIgnoresLater` covers
  every input that the tool accepts. `_synchronize_from_snapshot` itself does not refuse it, and the two zero-target
  lemmas show why the guard is needed: the loop compares the count with the target only after incrementing it, so with
  a target of zero it never stops early, and a success survives more input exactly when all of it can be skipped.
- **The overflow and "cannot be proven" checks** of synchronization never fire on parsed updates
  (`Synchronize.FailuresClassified`), and neither does the body of `advance_for_container_end` in the JSON writer
  (`JsonWriter.ContainerEndIdle`).
- **`unknown_pointer_delete` is never the reported reason** in a lawful program: such a delete needs an earlier table
  overflow, which takes precedence (`HeapEligibility.LawfulComplaints`).
- **CBOR map keys.** Python identifies `True` with `1` and `False` with `0` as dict keys and cannot hash lists or
  dicts. `CborRfc.AcceptsRfcWithPythonKeys` says that this is the only departure of the acceptance test from the RFC;
  `CborRfc.TwinKeysRefused` and `CborRfc.ArrayKeyRefused` show it on bytes, and on text-keyed data there is none
  (`CborRfc.AcceptsExactlyRfcOnTextKeys`).
- **The JSON writer does not compare an end call with the container it ends**, nor does it refuse a key without a value
  or a second root. `JsonExact.JsonIffOneTree` says for every completed call sequence exactly when the output is JSON,
  and `JsonExact.OneTreeIffBalanced` states the condition call by call.

## Model

| member | source | states |
|---|---|---|
| `ProvenanceTable.EmptyMeansAbsent` | benchmarks/benchmark_support/allocation_instrumentation.cpp:167-171 | stopping a probe at the first empty slot is sound: no stored pointer has an empty slot on its probe path |
| `ProvenanceTable.StoreRepresents` | benchmarks/benchmark_support/allocation_instrumentation.cpp:97-117 | storing in the first tombstone or the final empty slot of an unbroken path keeps the table a representation of the extended map |
| `ProvenanceTable.EraseRepresents` | benchmarks/benchmark_support/allocation_instrumentation.cpp:264-267 | leaving a tombstone removes exactly that pointer and breaks no other pointer's path |
| `ProvenanceTable.FullIffAllOccupied` | benchmarks/benchmark_support/allocation_instrumentation.cpp:78-83 | the map never outgrows the capacity and reaches it exactly when every slot is occupied |
| `Instrumentation.State.FindSlot` | benchmarks/benchmark_support/allocation_instrumentation.cpp:161-178 | finds a slot exactly for the non-null keys of the tracked map, and it is the slot that holds the pointer |
| `Instrumentation.State.FindPlace` | benchmarks/benchmark_support/allocation_instrumentation.cpp:89-111 | the probe ends at the stored pointer, at a free place that its path reaches unbroken, or with every slot holding another pointer |
| `Instrumentation.State.InsertSlot` | benchmarks/benchmark_support/allocation_instrumentation.cpp:84-119 | inserted, collision and overflow are decided by the map alone; overflow exactly when all slots hold other pointers |
| `Instrumentation.State.RecordSuccessfulAllocation` | benchmarks/benchmark_support/allocation_instrumentation.cpp:182-230 | the whole object moves by the ledger's allocation step: table, live bytes, three counters, peak; under the recursion guard only the error flag is set |
| `Instrumentation.State.RecordDeallocated` | benchmarks/benchmark_support/allocation_instrumentation.cpp:232-286 | the whole object moves by the ledger's deallocation step, null and unknown pointers included; under the recursion guard only the error flag is set |
| `Instrumentation.State.RecordBackingFailure` | benchmarks/benchmark_support/allocation_instrumentation.cpp:288-293 | only an open bracket remembers a backing failure |
| `Instrumentation.MeasurementScope.constructor` | benchmarks/benchmark_support/allocation_instrumentation.cpp:305-332 | opens the ledger's bracket: frozen or zero counters, peak at the live bytes, exceptions in flight remembered |
| `Instrumentation.MeasurementScope.FirstReason` | benchmarks/benchmark_support/allocation_instrumentation.cpp:380-393 | the first violated condition in the fixed precedence order, the instrumentation error first |
| `Instrumentation.MeasurementScope.Finish` | benchmarks/benchmark_support/allocation_instrumentation.cpp:336-405 | closes once and freezes the ledger's report, with the aborted mark exactly when the exceptions in flight changed; closing again changes nothing |
| `Accounting.SignedDelta` | benchmarks/benchmark_support/allocation_instrumentation.cpp:358-365 | sign and magnitude reconstruct B from A; the sign is zero exactly when the magnitude is |
| `AllocationRuns.RunKeeps` | benchmarks/benchmark_support/allocation_instrumentation.cpp:199-204 | in every reachable state the wrap flag is set or live bytes are the sum over the table, and a clean table tracks exactly the outstanding pointers |
| `AllocationRuns.UnderflowUnreachable` | benchmarks/benchmark_support/allocation_instrumentation.cpp:134-144 | the underflow branch is never taken in any run |
| `AllocationRuns.EligibleBracketIsExact` | benchmarks/benchmark_support/allocation_instrumentation.cpp:327-405 | for every history and body both transient subtractions are safe; an eligible bracket reports the ideal A, B and the exact maximum P, and A + allocated = B + deallocated |
| `AllocationRuns.CountersAreExactOrSaturated` | benchmarks/benchmark_support/allocation_instrumentation.cpp:206-286 | each reported counter is valid exactly when its class had not overflowed and its true total fits 64 bits; valid ones show the true total, others stay at the maximum |
| `AllocationRuns.ReportHangsTogether` | benchmarks/benchmark_support/allocation_instrumentation.cpp:346-400 | in every report the signed delta leads from A to B, peak-above-entry and transient excess are measured down from P, and released bytes are valid exactly in an eligible bracket without overflow |
| `AllocationRuns.FailureObservedIff` | benchmarks/benchmark_support/allocation_instrumentation.cpp:288-344 | a bracket reports a backing failure exactly when one happened inside it, whatever came before |
| `AllocationReasons.ReasonIsFirstFault` | benchmarks/benchmark_support/allocation_instrumentation.cpp:377-397 | for every history and body the reported reason is the first, in precedence order, of six kinds of faulty events, and the bracket is eligible exactly when there is none |
| `AlignedHeap.CheckedSizeAdd` | benchmarks/benchmark_support/allocation_global_new.cpp:41-48 | reports failure exactly on 64-bit overflow |
| `AlignedHeap.BackingSizeIs` | benchmarks/benchmark_support/allocation_global_new.cpp:84-99 | the backing request is max(raw, 1) + max(alignment, 8) - 1 + 8, refused above 64 bits |
| `AlignedHeap.PayloadInsideBlock` | benchmarks/benchmark_support/allocation_global_new.cpp:129-144 | the payload lies, with its header word, inside the block, at the first suitable address past the header |
| `AlignedHeap.PayloadAligned` | benchmarks/benchmark_support/allocation_global_new.cpp:80-87 | the payload is a multiple of the alignment asked for and of eight |
| `AlignedHeap.StepKeepsSafe` | benchmarks/benchmark_support/allocation_global_new.cpp:62-182 | every allowed call keeps blocks apart, headers intact, payloads owned once and the table in agreement with the owners |
| `AlignedHeap.LawfulRunsAreSafe` | benchmarks/benchmark_support/allocation_global_new.cpp:62-182 | no lawful run frees a wrong block; every state is safe and the stale-collision flag is never set |
| `AlignedHeap.PayloadsDisjoint` | benchmarks/benchmark_support/allocation_global_new.cpp:129-147 | live payloads with their header words never overlap |
| `AlignedHeap.DeleteFreesItsOwnBlockOnce` | benchmarks/benchmark_support/allocation_global_new.cpp:155-182 | a delete frees exactly the block malloc gave for that payload; no block is left when no payload is; it is unknown to the table exactly if its own insert overflowed |
| `Allocator.Allocator.ComputeBacking` | benchmarks/benchmark_support/allocation_global_new.cpp:84-99 | max(raw, 1) + max(alignment, 8) - 1 + 8 in checked arithmetic, or refusal, before any pointer arithmetic |
| `Allocator.Allocator.Allocate` | benchmarks/benchmark_support/allocation_global_new.cpp:62-148 | the new memory, blocks and ledger; failure forms for throwing and nothrow requests; the pointer is new, has the requested alignment and owns its bytes of the block |
| `Allocator.Allocator.Deallocate` | benchmarks/benchmark_support/allocation_global_new.cpp:155-182 | the block read from the header is the one malloc returned, and it leaves the live blocks |
| `HeapEligibility.LawfulRunsAreSane` | benchmarks/benchmark_support/allocation_instrumentation.cpp:121-144 | live bytes never wrap in a lawful run, because disjoint payloads fit the address space; the table overflows exactly when live payloads exceed the capacity |
| `HeapEligibility.LawfulComplaints` | benchmarks/benchmark_support/allocation_instrumentation.cpp:377-397 | the only reasons a lawful program can see are table overflow and sized-delete mismatch |
| `HeapEligibility.EligibleIffWithinCapacity` | benchmarks/benchmark_support/allocation_instrumentation.cpp:377-397 | with honest sized deletes, eligible exactly when the live payloads never exceeded the capacity |
| `HeapEligibility.MeasuresTheProgram` | benchmarks/benchmark_support/allocation_instrumentation.cpp:305-375 | A, P and B are the bytes the program holds at open, the most it holds inside, and at close |
| `Cbor.Decoder.Take` | tools/m5_recorded_corpus_materializer.py:382-387 | takes exactly the next bytes or fails without moving |
| `Cbor.Decoder.ReadArgument` | tools/m5_recorded_corpus_materializer.py:389-394 | reads the argument the remaining input describes and advances past it |
| `Cbor.Decoder.DecodeValue` | tools/m5_recorded_corpus_materializer.py:396-423 | the offset-advancing decoder is the decoding function on the remaining input, errors included; it terminates on every input |
| `CborTheorems.HeadDecodes` | tools/m5_recorded_corpus_materializer.py:426-437 | every head reads back as its major type and value, whatever follows |
| `CborTheorems.DecodeSerialized` | tools/m5_recorded_corpus_materializer.py:396-464 | any supported nested value in front of any bytes decodes to itself and stops exactly there |
| `CborTheorems.SerializeInjective` | tools/m5_recorded_corpus_materializer.py:440-464 | distinct values have distinct in-order serializations |
| `CborTheorems.DecodedIsSupported` | tools/m5_recorded_corpus_materializer.py:396-423 | whatever decodes from arbitrary bytes is a value the encoder supports |
| `Utf8.ValidIffEncoded` | tools/m5_recorded_corpus_materializer.py:408-411 | text is accepted exactly when it encodes Unicode scalar values by section 3 of RFC 3629 |
| `CborCanonical.MinimalIffShortest` | tools/m5_recorded_corpus_materializer.py:426-437 | the shortest-form rule of section 4.2.1 of RFC 8949 holds exactly for the heads the encoder writes |
| `CborCanonical.AdmissibleIff` | tools/m5_recorded_corpus_materializer.py:414-420 | the byte rule on map keys is hashability, no Python-equal earlier key, and the length-first order of section 4.2.3 of RFC 8949 |
| `CborCanonical.StrictIffReproduces` | tools/m5_recorded_corpus_materializer.py:467-472 | the byte grammar accepts an item exactly when serializing its decoding gives the same bytes |
| `CborEncoding.EncodeIsSerializedCanon` | tools/m5_recorded_corpus_materializer.py:440-464 | the encoder writes the in-order serialization of the value with every dict sorted, at every depth |
| `CborEncoding.EncodeRoundTrip` | tools/m5_recorded_corpus_materializer.py:377-464 | decoding an encoding in front of any bytes gives the sorted value and the exact length |
| `CborEncoding.AcceptsExactlyCanonical` | tools/m5_recorded_corpus_materializer.py:467-472 | decode-then-re-encode accepts exactly one canonical item covering the whole input |
| `CborEncoding.EncodeRefusesExactlyOverflow` | tools/m5_recorded_corpus_materializer.py:426-464 | encoding raises exactly on an integer or a length beyond 64 bits somewhere inside |
| `CborEncoding.EncodeEqualIffSame` | tools/m5_recorded_corpus_materializer.py:440-464 | equal encodings exactly for values equal up to dict insertion order |
| `CborVectors.IntegerVectors` | tools/m5_recorded_corpus_materializer.py:426-450 | integers of Appendix A of RFC 8949 |
| `CborVectors.SimpleVectors` | tools/m5_recorded_corpus_materializer.py:443-455 | simple values, strings and empty containers of Appendix A of RFC 8949 |
| `CborVectors.ArrayVector` | tools/m5_recorded_corpus_materializer.py:456-457 | the array [1, 2, 3] of Appendix A of RFC 8949 |
| `CborRfc.StrictIsNarrow` | tools/m5_recorded_corpus_materializer.py:467-472 | the accepted grammar is the RFC's, narrowed to values whose maps have no array key, no map key and no boolean key beside its integer twin |
| `CborRfc.KeyOrderMeans` | tools/m5_recorded_corpus_materializer.py:459-460 | keys are ordered by length, and among equal lengths by the first differing byte |
| `CborRfc.AcceptsRfcWithPythonKeys` | tools/m5_recorded_corpus_materializer.py:467-472 | decode-then-re-encode accepts bytes as a value exactly when the RFC reads all of them as that value and a Python dict can hold its maps |
| `CborRfc.AcceptsExactlyRfcOnTextKeys` | tools/m5_recorded_corpus_materializer.py:467-472 | on text-keyed values acceptance is exactly canonicity by sections 4.2.1 and 4.2.3 of RFC 8949 |
| `CborRfc.TwinKeysRefused` | tools/m5_recorded_corpus_materializer.py:414-420 | the map with keys 1 and true is canonical by the RFC and refused |
| `CborRfc.ArrayKeyRefused` | tools/m5_recorded_corpus_materializer.py:414-420 | a map with an array key is canonical by the RFC and refused |
| `Crc32c.ComputeCrc` | tools/m5_recorded_corpus_materializer.py:365-374 | the two nested loops compute the register function that `CrcPolynomial.CrcIsRfcCrc` identifies |
| `CrcPolynomial.CrcIsRfcCrc` | tools/m5_recorded_corpus_materializer.py:365-374 | for every message the checksum is that of section 12.1 of RFC 3720: the complemented remainder of dividing the message bits, extended and with the first 32 complemented, by 0x11EDC6F41 |
| `Crc32c.RegisterLinear` | tools/m5_recorded_corpus_materializer.py:368-374 | the register is linear in start value and message together |
| `Crc32c.CrcAffine` | tools/m5_recorded_corpus_materializer.py:365-374 | the checksum is affine over xor on messages of one length |
| `Crc32c.FeedInjective` | tools/m5_recorded_corpus_materializer.py:369-373 | one byte maps different registers to different registers |
| `Crc32c.FeedOnto` | tools/m5_recorded_corpus_materializer.py:369-373 | one byte reaches every register, so it is a bijection |
| `Crc32c.WindowInjective` | tools/m5_recorded_corpus_materializer.py:369-373 | two windows of at most four bytes leaving the same register are equal |
| `Crc32c.BurstDetected` | tools/m5_recorded_corpus_materializer.py:365-374 | every change confined to four consecutive bytes changes the checksum |
| `RawChunk.ScanRawChunk` | tools/m5_recorded_corpus_materializer.py:550-610 | the offset loop is the recursive scanner, with the same first error |
| `RawChunk.ReadFrameIff` | tools/m5_recorded_corpus_materializer.py:597-608 | a frame is read exactly when the input starts with the framing of a good body |
| `RawChunk.ReadFramesIff` | tools/m5_recorded_corpus_materializer.py:596-609 | frames are read exactly from the concatenation of good frames, in order |
| `RawChunk.ReadHeaderIff` | tools/m5_recorded_corpus_materializer.py:551-592 | a header is accepted exactly when the input starts with the framing of a good header body |
| `RawChunk.ScanSound` | tools/m5_recorded_corpus_materializer.py:550-610 | accepted input is exactly one good header and the returned frames, nothing else |
| `RawChunk.ScanComplete` | tools/m5_recorded_corpus_materializer.py:550-610 | any well-formed framing of good bodies scans to those bodies in order |
| `RawChunk.AcceptedLayout` | tools/m5_recorded_corpus_materializer.py:551-561 | the bytes of an accepted chunk: "BMRCHNK", 0x1A, version 1.0, byte-order mark, no flags, big-endian length and checksum |
| `RawChunk.AcceptedFrameLayout` | tools/m5_recorded_corpus_materializer.py:596-606 | the bytes of an accepted frame: big-endian length, four zero bytes, checksum of all but itself |
| `RawChunk.GoodHeaderLimits` | tools/m5_recorded_corpus_materializer.py:557-589 | the size limits of header and frames |
| `RawChunk.DamagedFrameRejected` | tools/m5_recorded_corpus_materializer.py:597-606 | a body changed within four consecutive bytes is refused by its checksum, whatever follows |
| `RawChunk.DamagedChunkRejected` | tools/m5_recorded_corpus_materializer.py:550-610 | a chunk with one frame body changed within four consecutive bytes is refused with the frame checksum error, whatever stands after it |
| `RawChunk.DamagedHeaderRejected` | tools/m5_recorded_corpus_materializer.py:551-561 | a chunk whose header body was changed within four consecutive bytes is refused with the header checksum error |
| `Synchronize.SynchronizeFromSnapshot` | tools/m5_recorded_corpus_materializer.py:800-892 | the loop computes the synchronization function, errors included |
| `Synchronize.StepCases` | tools/m5_recorded_corpus_materializer.py:829-884 | a parsed update is skipped, extends the chain, or fails in exactly one of two ways |
| `Synchronize.SyncExplained` | tools/m5_recorded_corpus_materializer.py:825-892 | every success has an explanation by legs: what was skipped lies at or below the id reached, what was chosen extends it |
| `Synchronize.ExplainedSyncs` | tools/m5_recorded_corpus_materializer.py:825-892 | every such explanation is a success with exactly that selection |
| `Synchronize.SyncGuarantees` | tools/m5_recorded_corpus_materializer.py:806-823 | 1 + target updates; Spot ids have no hole from the snapshot to the end; USD-M updates name the previous final id; final ids strictly increase after the bridge |
| `Synchronize.SyncIdempotent` | tools/m5_recorded_corpus_materializer.py:825-892 | synchronizing a selection selects all of it |
| `Synchronize.SyncIgnoresLater` | tools/m5_recorded_corpus_materializer.py:883-885 | with a positive target nothing after the last live update matters |
| `Synchronize.ZeroTargetScansOn` | tools/m5_recorded_corpus_materializer.py:883-891 | with target zero a success survives more input exactly when all of it is skippable |
| `Synchronize.ZeroTargetCounterexample` | tools/m5_recorded_corpus_materializer.py:883-891 | a bridge followed by one live update fails with target zero |
| `Synchronize.SyncIgnoresCovered` | tools/m5_recorded_corpus_materializer.py:832-835 | inserting an already covered update anywhere changes neither success nor failure |
| `Synchronize.BridgedNeverIneligible` | tools/m5_recorded_corpus_materializer.py:865-885 | past the bridge no failure is an eligibility error |
| `Synchronize.FailuresClassified` | tools/m5_recorded_corpus_materializer.py:836-891 | the eligibility error exactly when the first candidate starts too late or none exists; overflow and "cannot be proven" never fire |
| `SyncFailures.DiscontinuityIffBreaks` | tools/m5_recorded_corpus_materializer.py:865-885 | a live discontinuity exactly when legs and skippable updates lead to an update that neither can be skipped nor extends |
| `SyncFailures.SourceEndedIffRunsOut` | tools/m5_recorded_corpus_materializer.py:886-891 | the source ended exactly when legs account for all of it and miss the target |
| `BaselineSelection.TupleIsStrictTotal` | tools/m5_recorded_corpus_materializer.py:125-143 | order keys are strictly and totally ordered |
| `SelectionLaws.KeyOrderMeans` | tools/m5_recorded_corpus_materializer.py:130-143 | the first differing component of two keys decides |
| `BaselineSelection.ChooseBaseline` | tools/m5_recorded_corpus_materializer.py:919-938 | the loop over snapshots computes the selection function |
| `BaselineSelection.EarliestUsableDecides` | tools/m5_recorded_corpus_materializer.py:919-938 | the earliest snapshot that is not passed over decides, for success and for failure past the bridge; otherwise the first error is reported |
| `BaselineSelection.OutsideComesLast` | tools/m5_recorded_corpus_materializer.py:898-926 | snapshots are tried in receive order, so those past the interval come last |
| `BaselineSelection.OutsideReportedIffAllOutside` | tools/m5_recorded_corpus_materializer.py:919-938 | "outside formal source interval" is reported exactly when every snapshot lies outside |
| `BaselineSelection.SelectionIgnoresOrder` | tools/m5_recorded_corpus_materializer.py:895-938 | with distinct order keys the input order of records does not matter |
| `SelectionLaws.SelectionComesFromTheInterval` | tools/m5_recorded_corpus_materializer.py:895-938 | the chosen snapshot and every selected update are records of the right stream inside the interval, no qualifying update is dropped, and every earlier snapshot of the interval was ineligible |
| `SelectionLaws.ChoiceSynchronizes` | tools/m5_recorded_corpus_materializer.py:895-938 | a selected baseline is one of the records, and the selected updates are what its synchronization returns |
| `OrderBook.EnumerateLists` | src/order_book/order_book.cpp:176-193 | copying a side out of the map lists exactly its levels, best price first |
| `OrderBook.ListingUnique` | src/order_book/order_book.cpp:176-193 | a side has only one such listing |
| `OrderBook.LoadListing` | src/order_book/order_book.cpp:84-106 | loading the listing of a positive side rebuilds it |
| `OrderBook.BatchIsLastWrite` | src/order_book/order_book.cpp:77-81 | after a batch each price holds what its last update says, or what it held before |
| `OrderBook.BatchEqualsFinal` | src/order_book/order_book.cpp:77-81 | a batch equals only its last update per side and price |
| `ReferenceBook.SetReferenceLists` | fuzz/order_book_fuzz.cpp:16-30 | find, erase, overwrite or append-and-sort keeps the vector the sorted listing of the updated map |
| `ReferenceBook.ReferenceOrderBook.ApplyLevel` | fuzz/order_book_fuzz.cpp:16-30 | updates one side's vector and leaves the other alone |
| `ReferenceBook.ReferenceOrderBook.ClearSide` | fuzz/order_book_fuzz.cpp:36-36 | empties one side and leaves the other alone |
| `ReferenceBook.ReferenceOrderBook.Clear` | fuzz/order_book_fuzz.cpp:32-35 | empties both sides |
| `ReferenceBook.ReferenceOrderBook.QuantityAtPrice` | fuzz/order_book_fuzz.cpp:57-65 | the linear search is the map lookup |
| `ReferenceBook.ReferenceOrderBook.TopLevels` | fuzz/order_book_fuzz.cpp:67-75 | a prefix of all levels of exactly the limited length |
| `ReferenceBook.DifferentialNeverAborts` | fuzz/order_book_fuzz.cpp:139-195 | after every operation sequence, at every side, price and limit, every comparison of check_consistency and of the queries succeeds: best levels, quantity, counts, levels, order, duplicates and prefixes |
| `BookProjection.Machine.InstallBaseline` | src/projection_state/book_projection.cpp:127-136 | the projection's install transition, refused only while synchronized |
| `BookProjection.Machine.ApplyBatch` | src/projection_state/book_projection.cpp:138-162 | the projection's apply transition with its disposition |
| `BookProjection.Machine.ResetAll` | src/projection_state/book_projection.cpp:164-169 | the projection returns to awaiting a baseline |
| `BookProjection.TransactionIsUpdate` | src/projection_state/book_projection.cpp:198-205 | copying the book, updating the copy and swapping it in equals updating in place |
| `BookProjection.TransitionsKeepValid` | src/projection_state/book_projection.cpp:127-169 | every transition keeps quantities positive and an id present exactly when a baseline is installed |
| `ProjectionLaws.InstallLaw` | src/projection_state/book_projection.cpp:127-136 | a baseline is refused exactly while synchronized; otherwise, after a gap too, the projection waits for the bridge at its id and shows the last level given for each price |
| `ProjectionLaws.RefusedLaw` | src/projection_state/book_projection.cpp:138-142 | updates are refused exactly without a baseline or after a gap, and refused or ignored updates change nothing |
| `ProjectionLaws.SequenceLaw` | src/projection_state/book_projection.cpp:38-106 | stale, duplicate, applied and gap, each exactly when, in plain inequalities |
| `ProjectionLaws.AppliedLaw` | src/projection_state/book_projection.cpp:153-159 | an applied update synchronizes at its last id and shows the last write for each price |
| `ProjectionLaws.GapLaw` | src/projection_state/book_projection.cpp:207-214 | a gap keeps book and id and records the expected id, the update and the reason |
| `ProjectionLaws.ResetLaw` | src/projection_state/book_projection.cpp:164-169 | a reset forgets everything but the policy |
| `BookProjection.StepsAgree` | src/projection_state/book_projection.cpp:47-106 | the live classification ignores, applies or reports a gap exactly when offline synchronization skips, selects or fails |
| `BookProjection.MaterializedCorpusReplays` | src/projection_state/book_projection.cpp:127-162 | from every projection that is not synchronized, NeedsResync included, the selected updates are all applied to the snapshot, ending synchronized at the last id with every update written in order |
| `BookProjection.StreamEqualsSelection` | src/projection_state/book_projection.cpp:138-162 | replaying skipped updates too ends in the same projection |
| `ReplayChecksum.ChecksumAppend` | benchmarks/benchmark_support/replay_checksum.cpp:8-14 | the eight-step loop computes the byte-wise fold of one value |
| `ReplayChecksum.FoldInjective` | benchmarks/benchmark_support/replay_checksum.cpp:8-14 | for fixed values, different starting states stay different |
| `ReplayChecksum.FoldOnto` | benchmarks/benchmark_support/replay_checksum.cpp:8-14 | for fixed values, every final state is reached, so the fold is a bijection |
| `ReplayChecksum.OneByteChangeDetected` | benchmarks/benchmark_support/replay_checksum.cpp:8-14 | sequences differing in one byte of one value never collide |
| `ChecksumReference.ChecksumIsFnv` | benchmarks/benchmark_support/replay_checksum.cpp:8-14 | the fold is FNV-1a 64 by its published definition, over the little-endian octets of the values |
| `ReplayExecutor.PathsAgree` | benchmarks/benchmark_support/core_replay_executor.cpp:153-407 | on valid inputs prepared and text path do the same to every projection and show the same evidence |
| `ReplayExecutor.RunsAgree` | benchmarks/benchmark_support/core_replay_executor.cpp:109-446 | whole runs agree in final projection, evidence and checksum |
| `ReplayExecutor.EvidenceByteChangeDetected` | benchmarks/benchmark_support/core_replay_executor.cpp:93-98 | changing one byte of one field of one event always changes the checksum of the run |
| `ReplayExecutor.StatusCodesDiffer` | benchmarks/benchmark_support/core_replay_executor.cpp:340-345 | two different statuses differ in the byte that is folded |
| `ReplayExecutor.ScratchSizes` | benchmarks/benchmark_support/core_replay_executor.cpp:109-127 | the scratch is large enough for every operation of the workload |
| `ReplayExecutor.AppendEvidence` | benchmarks/benchmark_support/core_replay_executor.cpp:93-98 | the four evidence values are folded in order |
| `ReplayExecutor.CoreReplayExecutor.constructor` | benchmarks/benchmark_support/core_replay_executor.cpp:100-201 | sufficient scratch, the prepared form of every operation, and a validity flag that is true exactly when all inputs are valid |
| `ReplayExecutor.CoreReplayExecutor.ParseLevels` | benchmarks/benchmark_support/core_replay_executor.cpp:236-252 | succeeds exactly when all levels parse, fills exactly its range, keeps earlier cells |
| `ReplayExecutor.CoreReplayExecutor.ExecuteBaseline` | benchmarks/benchmark_support/core_replay_executor.cpp:254-272 | parse failure leaves the projection alone; otherwise exactly the parsed levels are installed |
| `ReplayExecutor.CoreReplayExecutor.ExecuteDepthUpdate` | benchmarks/benchmark_support/core_replay_executor.cpp:274-309 | parse or range failure leaves the projection alone; otherwise exactly the parsed updates are applied, which `ReplayLaws.UpdatesTyped` ties to the text |
| `ReplayExecutor.CoreReplayExecutor.ExecuteEvent` | benchmarks/benchmark_support/core_replay_executor.cpp:311-362 | the result is a function of the operation and the projection: scratch leftovers never reach it |
| `ReplayExecutor.CoreReplayExecutor.ExecutePreparedEvent` | benchmarks/benchmark_support/core_replay_executor.cpp:364-407 | the prepared step, equal to the text step when all inputs are valid |
| `ReplayExecutor.CoreReplayExecutor.Run` | benchmarks/benchmark_support/core_replay_executor.cpp:409-446 | final projection and checksum of the whole text run |
| `ReplayExecutor.CoreReplayExecutor.RunPrepared` | benchmarks/replay_latency_main.cpp:161-168 | final projection and checksum of the prepared run, equal to the text run's on valid inputs |
| `ReplayLaws.UpdatesTyped` | benchmarks/benchmark_support/core_replay_executor.cpp:279-290 | updates parse exactly when all decimals do, and each typed update keeps the side, price and quantity of its text |
| `ReplayLaws.LevelsTyped` | benchmarks/benchmark_support/core_replay_executor.cpp:236-252 | the same for levels |
| `ReplayLaws.BaselineEventLaw` | benchmarks/benchmark_support/core_replay_executor.cpp:254-272 | evidence and effect of a baseline event, with the literal markers |
| `ReplayLaws.DepthEventLaw` | benchmarks/benchmark_support/core_replay_executor.cpp:274-309 | evidence and effect of a depth event, with the literal markers |
| `ReplayLaws.OtherEventLaw` | benchmarks/benchmark_support/core_replay_executor.cpp:340-362 | evidence and effect of reset, snapshot request, metadata and malformed range |
| `ReplayLaws.CodesFollowTheEnumerations` | include/binance_market_data/projection/v1/projection_state/book_projection.hpp:57-70 | every code is the position of its case in the enumeration |
| `ReplayLaws.AppliedDepthShowsText` | benchmarks/benchmark_support/core_replay_executor.cpp:274-309 | after an applied depth event each side and price shows its last text write |
| `ReplayLaws.InstalledBaselineShowsText` | benchmarks/benchmark_support/core_replay_executor.cpp:254-272 | after an accepted baseline each side and price shows its last text level |
| `ReplayLaws.FinalValuesLaw` | benchmarks/benchmark_support/core_replay_executor.cpp:409-433 | the seven closing values: status, id, both level counts, highest bid, lowest ask, synchronized or not |
| `ReplayLaws.ChecksumLaw` | benchmarks/benchmark_support/core_replay_executor.cpp:409-446 | the checksum of a run is the FNV-1a 64 hash of its evidence values and its closing values |
| `CorpusReplay.RecordedCorpusReplaysClean` | tools/m5_recorded_corpus_materializer.py:786-938 | from every projection that is not synchronized: if a baseline is selected from the records and its decimals parse, both executor paths install it, apply every selected update and end synchronized at the last id, and each side and price shows what the recorded text wrote there last |
| `CorpusReplay.ReplayShowsText` | tools/m5_recorded_corpus_materializer.py:781-797 | the book of the rendered workload, at every side and price, is the last text write of the recorded bids and asks |
| `JsonWriter.Writer.RawString` | benchmarks/benchmark_support/phase6_json.cpp:27-67 | appends the quoted, escaped text |
| `JsonWriter.Writer.AdvanceForValue` | benchmarks/benchmark_support/phase6_json.cpp:70-84 | advances the innermost frame and writes a comma, or aborts with nothing changed |
| `JsonWriter.Writer.AdvanceForContainerEnd` | benchmarks/benchmark_support/phase6_json.cpp:87-91 | the frame change after a pop |
| `JsonWriter.Writer.BeginObject` | benchmarks/benchmark_support/phase6_json.cpp:93-99 | the machine's step, aborts included |
| `JsonWriter.Writer.EndObject` | benchmarks/benchmark_support/phase6_json.cpp:101-105 | the machine's step on a non-empty stack |
| `JsonWriter.Writer.Key` | benchmarks/benchmark_support/phase6_json.cpp:107-120 | the machine's step, aborts included |
| `JsonWriter.Writer.Value` | benchmarks/benchmark_support/phase6_json.cpp:122-152 | the machine's step for text, unsigned, Boolean and null values |
| `JsonWriter.Writer.BeginArray` | benchmarks/benchmark_support/phase6_json.cpp:159-165 | the machine's step, aborts included |
| `JsonWriter.Writer.EndArray` | benchmarks/benchmark_support/phase6_json.cpp:167-171 | the machine's step on a non-empty stack |
| `JsonWriter.Driven` | benchmarks/benchmark_support/phase6_json.cpp:69-171 | from every state the calls of a tree abort exactly when no value may stand there, and otherwise append the tree's text and advance the surroundings by one value |
| `JsonWriter.WritesWholeTree` | benchmarks/benchmark_support/phase6_json.cpp:93-171 | a fresh writer writes every container tree and aborts exactly on scalar roots |
| `JsonWriter.ContainerEndIdle` | benchmarks/benchmark_support/phase6_json.cpp:86-91 | after any calls whatsoever the container-end adjustment changes nothing |
| `JsonWriter.CompleteIffDriven` | benchmarks/benchmark_support/phase6_json.cpp:69-171 | with matching end calls, a sequence returns to an empty stack exactly when it is the calls of a list of container trees, and the output is their texts |
| `JsonReader.EscapedReads` | benchmarks/benchmark_support/phase6_json.cpp:27-67 | unescaping by section 7 of RFC 8259 inverts the escaping of every string |
| `JsonReader.NumberReads` | benchmarks/benchmark_support/phase6_json.cpp:131-134 | every unsigned 64-bit value reads back, with no leading zero |
| `JsonLaws.EscapeIsShortest` | benchmarks/benchmark_support/phase6_json.cpp:27-67 | every character is written by its shortest escape, with lower-case hexadecimal digits |
| `JsonLaws.NoneIsShorter` | benchmarks/benchmark_support/phase6_json.cpp:27-67 | no text that reads as the character is shorter |
| `JsonLaws.TextNeeded` | benchmarks/benchmark_support/phase6_json.cpp:69-171 | a tree's text has exactly the length that its values, brackets, commas and colons need: no white space |
| `JsonReader.TextReads` | benchmarks/benchmark_support/phase6_json.cpp:27-171 | every tree's text reads back as that tree and stops where it ended |
| `JsonReader.WrittenReadsBack` | benchmarks/benchmark_support/phase6_json.cpp:27-171 | driving the writer with a container tree never aborts and its output reads back as the tree |
| `JsonReader.TextInjective` | benchmarks/benchmark_support/phase6_json.cpp:27-171 | texts are equal exactly for equal trees |
| `JsonReader.MismatchedEndUnreadable` | benchmarks/benchmark_support/phase6_json.cpp:101-105 | an array ended as an object is not noticed and leaves a text that is not JSON |
| `JsonExact.MisfitRun` | benchmarks/benchmark_support/phase6_json.cpp:86-171 | every completed sequence with an end call that does not fit its container leaves a text that is not JSON |
| `JsonExact.JsonIffOneTree` | benchmarks/benchmark_support/phase6_json.cpp:69-171 | for every sequence that the writer completes, the output is JSON exactly when the calls are those of one container tree, and it reads back as that tree |
| `JsonExact.OneTreeIffBalanced` | benchmarks/benchmark_support/phase6_json.cpp:69-171 | being the calls of one tree is: every end call fits its container, no key lacks a value, and the stack is empty at the start and the end only |

## Left out

- Allocator.Allocator.Allocate: the test seams `reuse_*` and `backing_failure_remaining` and a capacity clamp changed during a run are not modelled; they are zero in measurement executables.
- Allocator.Allocator.Deallocate: the capture branch of the same test seam is not modelled.
- Pointers are plain addresses. The hash is the source's, but the table's proofs use only its range.
- The operator new and delete overloads: one-line forwards to the two modelled functions.
- Byte order of the header word: it is stored and loaded big-endian in the model; only that a load returns what was stored matters.
- RawChunk.ScanRawChunk: the field checks on the decoded header and on envelopes are parameters, so the theorems hold for all of them; the SHA-256 of a frame body is not computed.
- RawChunk.ReadHeaderIff: the key and field checks of the header are one parameter, for the same reason.
- Python strings are their UTF-8 bytes; strings with lone surrogates, which cannot be encoded, and Python's recursion limit are not part of this model. Lists and tuples are one kind of value.
- `list.sort`, `sorted` and `std::sort` are one stable sorting function.
- Payload parsing of snapshots and depth updates: the result of parsing is a field of the record; a malformed record anywhere in a stream is one error rather than the first of several.
- BaselineSelection.TupleIsStrictTotal: the eleven components of an order key after the receive time are given as integer sequences rather than computed from the envelope.
- CborEncoding.EncodeRefusesExactlyOverflow: Python objects of other types, which the encoder refuses, are not values of the model.
- CorpusReplay.RecordedCorpusReplaysClean: the rendering of operations as replay text and its parser are not modelled: the workload is the list of operations that the text stands for.
- Decimal parsing and formatting are parameters of the executor; numeric scales and the Protobuf adapter are not part of this model.
- The change kind that `OrderBook::apply_level` returns, and move construction of books and projections.
- The fuzz harness's decoding of its input bytes into operations: the theorem is about every sequence of operations.
- JsonWriter.Writer.Value: the overload for doubles and `value_raw` are not modelled; popping an empty stack has no defined outcome.
- JsonReader.MismatchedEndUnreadable: one literal sequence; the whole family is `JsonExact.MisfitRun`.
- JsonWriter.CompleteIffDriven: about the machine that refuses unfitting end calls; `JsonExact.JsonIffOneTree` is about the writer as it is.
- Instrumentation.State.RecordBackingFailure: states the one step; `AllocationRuns.FailureObservedIff` says what the flag means for a bracket.
- JsonReader numbers: a fraction, an exponent, a minus sign or a value beyond 64 bits is refused, since the tree cannot hold it.
- Inventory, catalog, manifest and provenance checks, zstd, SQLite, tar and file handling, benchmark registration and reporting, latency quantiles: plumbing or floating point.
- Error texts: each error is one constructor.

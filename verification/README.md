# State Provenance, verified

A Dafny model of the provenance registry, with proofs of what it promises.

The registry keeps immutable provenance records, a derivation DAG over their
subjects, a mutable status overlay, nine secondary indexes, and the authority
values that fence publishing. It invalidates a subject together with everything
derived from it, decides reuse, writes and restores binary snapshots, and is
served by a coordinator process over a framed byte stream.

The model follows the source file by file. Code that updates objects in place is
a class whose methods are proved against functions on values; the promises are
then proved about those functions, over every input, every state and every run.

| file | models |
|---|---|
| Ids, Records, EnumBytes | ids.hpp, record.hpp (fields and validation), enums.hpp |
| Digraph, Kahn, Graph | reachability, the topological sort, graph.hpp |
| Invalidate, Compat, Authority | invalidate.hpp, compat.hpp, authority.hpp |
| Registry, Recovery, Runs | the store as a state machine on values: steps, restore, whole runs |
| Lifetimes, Process | runs with saves and restarts: of the store, and of the coordinator with its snapshot files |
| Indexes, Store | the store object of store.hpp and its indexes |
| Wire, Codec, Snapshots, Durability | the writer, reader and snapshot codec of persist.hpp |
| Layout | the byte layouts of persist.hpp and protocol.hpp as flat tables |
| Crc, Polynomials, CrcStandard | CRC-32 of digest.hpp, and its definition in IEEE 802.3, clause 3.2.9, by polynomials over GF(2) |
| SnapshotFile, Integrity, StoreFile | the snapshot file |
| Mixing, Digest | the digests of digest.hpp, of records and of stores |
| DigestFields, StoreDigests | what these digests cover, field by field |
| Protocol, Server, Coordinator | protocol.hpp, and coordinator.cpp as handlers and as a concurrent machine |
| Failures | inputs on which less is done than documented |
| Orders | sorted views and sorting |

## Where the code does less than its documentation says

The model does what the code does. These statements say exactly when the
documented promise holds.

- Stale work can become current: the claim is checked without the store's lock, so
  authority changes can fall between check and insertion (store.hpp:83-88, against
  README.md:155-158). `Coordinator.AnyPublishCanBeOvertaken`;
  `Coordinator.InsertedStaleIff` says of every insertion of every run when its
  claim is stale by then, for epoch rolls, worker restarts, retries and
  generation rolls.
- A restore drops records silently when their parent provenance does not resolve, and
  everything derived from them too (store.hpp:362-365, against README.md:142-147); an
  unresolved input state refuses the whole restore, and a repeated provenance id is
  dropped too but cannot come from a file. `Recovery.RestoreKeepsIff`,
  `Recovery.RestoredWholeIff`, `FileIntegrity.LoadedRestores`,
  `Failures.LostThroughFile`, `Recovery.DroppedForRepeatedProvenance`.
- Old work becomes current again by a restart: the coordinator saves on request and
  starts from a saved file (coordinator.cpp:114-121, 175-180), and what happened after
  the save, epoch rolls included, has then not happened (against README.md:155-158).
  `Lifetimes.FencedIff`, `Lifetimes.RestartRevives` and `Lifetimes.RestartTightensIff`
  say exactly when; `Failures.OldEpochRevived`.
- Invalidation is undone the same way. It is permanent exactly as long as no restart
  goes back to a save from before it. `Lifetimes.InvalidationPermanentIff`,
  `Lifetimes.InvalidatedIff`; `Failures.InvalidationUndone`.
- An epoch that has wrapped to zero comes back from a restart as one
  (authority.hpp:62); apart from that a restart from a save of that very moment can
  only tighten fencing and keeps the store digest. `Runs.InstantRestartTightensIff`,
  `Digest.RecoveredDigestIff`.
- An overlay row without a record, which a hand-made snapshot can contain, can make
  the validity index wrong after a later publish (store.hpp:367-373, 460).
  `ProvenanceStore.Store.PublishValidated`, `Failures.OrphanedRowMisleads`.
- A snapshot whose payload exceeds 512 MiB is saved without complaint and cannot be
  loaded (persist.hpp:372-381, 444). `FileIntegrity.SaveThenLoad`,
  `Failures.LargeStoreCannotRestart`.
- The flags of the file header are not protected (persist.hpp:439).
  `FileIntegrity.HeaderChangesAccepted`.
- An optional generation holding zero is absent after the wire
  (protocol.hpp:236-242). `Protocol.VerdictsAgreeIff`.
- The frame length is computed in 32 bits before it is checked. A payload of 4 GiB
  and more can pass; the call then fails, but only after it has put a complete,
  valid, shorter frame on the stream (protocol.hpp:158-202).
  `Protocol.SizeCheckExactIff`, `Protocol.FailedSendLeavesFrameIff`.

## Model

| member | source | states |
|---|---|---|
| `Ids.TryParse` | include/stateprovenance/ids.hpp:48-66 | the parser returns the exact positional value, and does so iff every digit is legal and that value is below 2^64 |
| `Ids.ParseOfToString` | include/stateprovenance/ids.hpp:41-66 | every 64-bit id survives printing and parsing |
| `Ids.ToStringShape` | include/stateprovenance/ids.hpp:41-45 | the text is 0x and sixteen lower-case digits whose positional value is the identifier |
| `Ids.DigitMeans` | include/stateprovenance/ids.hpp:59-62 | a character is a digit iff it is listed, with its place as value; letters only in hexadecimal, in either case |
| `Ids.ParseOfSpelling` | include/stateprovenance/ids.hpp:48-66 | the text still parses to the same identifier with its prefix and digits in any mixture of cases |
| `Ids.ParseOfDecimal` | include/stateprovenance/ids.hpp:48-66 | decimal text of any number of digits parses to the number it spells iff that is below 2^64 |
| `Records.ValidateRecord` | include/stateprovenance/record.hpp:136-176 | no error iff no requirement is violated; an error names a violated requirement, and none checked earlier is |
| `Records.HasDuplicate` | include/stateprovenance/record.hpp:149-160 | sorting and comparing neighbours finds a repetition iff there is one |
| `DerivationGraph.ProvenanceGraph.AddNode` | include/stateprovenance/graph.hpp:34-41 | zero is refused, a known node is left alone, a new one gets no arcs; the DAG invariant is kept |
| `DerivationGraph.ProvenanceGraph.AddArc` | include/stateprovenance/graph.hpp:49-65 | an arc is accepted iff none of the five refusals applies, the last being that the child already reaches the parent; both maps and the arc count stay in step and the graph stays acyclic |
| `DerivationGraph.ProvenanceGraph.WouldCreateCycle` | include/stateprovenance/graph.hpp:181-196 | the search answers true iff the child reaches the parent |
| `DerivationGraph.Collect` | include/stateprovenance/graph.hpp:82-109 | the stack search returns, sorted, exactly what is reached |
| `DerivationGraph.ProvenanceGraph.Ancestors` | include/stateprovenance/graph.hpp:82-94 | exactly the transitive inputs, sorted, never the node itself; dual to descendants |
| `DerivationGraph.ProvenanceGraph.Descendants` | include/stateprovenance/graph.hpp:97-109 | exactly the transitive derivatives, sorted, never the node itself; dual to ancestors |
| `DerivationGraph.ProvenanceGraph.SharedAncestors` | include/stateprovenance/graph.hpp:119-126 | the intersection of the two ancestor sets, sorted |
| `DerivationGraph.ProvenanceGraph.Roots` | include/stateprovenance/graph.hpp:112-116 | exactly the nodes nothing leads to, sorted |
| `DerivationGraph.ProvenanceGraph.TopologicalOrder` | include/stateprovenance/graph.hpp:133-153 | throws iff the graph is cyclic; otherwise a permutation with every arc forward, and the lexicographically least one |
| `DerivationGraph.ProvenanceGraph.IsAcyclic` | include/stateprovenance/graph.hpp:172-175 | true iff no node reaches itself |
| `Kahn.Drain` | include/stateprovenance/store.hpp:496-504 | counting down in-degrees emits exactly the greedy order |
| `Kahn.OrderIsLeast` | include/stateprovenance/graph.hpp:133-153 | no topological order is lexicographically before the one emitted |
| `Kahn.LeftOutIffDoomed` | include/stateprovenance/store.hpp:496-508 | a node is never emitted iff it is on, or downstream of, a cycle or a missing input |
| `Kahn.CompleteIffAcyclic` | include/stateprovenance/graph.hpp:150-152 | every node is emitted iff the graph is acyclic |
| `Invalidation.PropagateInvalidation` | include/stateprovenance/invalidate.hpp:83-125 | the search finds every causal path's target, once, with predecessors and roots recorded consistently; the first reason per root wins |
| `Invalidation.AffectedIffReached` | include/stateprovenance/invalidate.hpp:102-118 | affected is exactly the roots and everything reachable from them |
| `Invalidation.PathTo` | include/stateprovenance/invalidate.hpp:53-67 | the path is a real graph path from the recorded root, of minimum length over all roots, and among equally near roots the root is the smallest; the cycle guard never cuts it short |
| `Invalidation.ChainFor` | include/stateprovenance/invalidate.hpp:69-80 | the chain carries the recorded root, its reason and detail, and that nearest path |
| `Invalidation.Contains` | include/stateprovenance/invalidate.hpp:46-48 | binary search finds an id iff it is affected |
| `Fence.EvaluateMeans` | include/stateprovenance/authority.hpp:99-153 | a claim is accepted iff all twelve dimensions are fresh; a rejection names the first one that is not |
| `Fence.AuthorityState.EvaluateClaim` | include/stateprovenance/authority.hpp:99-153 | the object accepts a claim iff every dimension is fresh against its current values |
| `Fence.EpochCountsRolls` | include/stateprovenance/authority.hpp:60 | after any changes the epoch is the old one plus the number of rolls, modulo 2^64 |
| `Fence.OldEpochStaysFenced` | include/stateprovenance/authority.hpp:60-107 | after any history a claim of the old epoch is rejected on the epoch iff the number of rolls is not a multiple of 2^64 |
| `Fence.OldBootStaysFenced` | include/stateprovenance/authority.hpp:64-69 | once a worker has another boot, claims under the old one stay rejected until the old boot is registered again |
| `Fence.StillAcceptedIff` | include/stateprovenance/authority.hpp:60-153 | after any history an accepted claim is still accepted iff the epoch rolls are a multiple of 2^64 and the last change to each other dimension, if any, suits the claim |
| `Fence.AcceptsNoMoreIff` | include/stateprovenance/authority.hpp:99-153 | one authority accepts no claim that another does not iff it is tighter in every dimension |
| `Compatibility.EvaluateReuse` | include/stateprovenance/compat.hpp:70-179 | the 21 checks and the branch cascade give the outcome the record's validity and the fields deserve, and blame exactly the dimensions whose fields clash or are missing |
| `Compatibility.ReuseIff` | include/stateprovenance/compat.hpp:70-179 | each outcome has its condition in record and request fields: incompatible iff some field is set on both sides and differs, incomplete iff none is and a requested field is not recorded, stale, invalidated and unknown by the record's own validity; a dimension is reported iff one of its fields is at fault |
| `Compatibility.ReportedInOrder` | include/stateprovenance/compat.hpp:80-150 | dimensions are reported in the order of the checks, none twice |
| `Compatibility.ReportedIffFailed` | include/stateprovenance/compat.hpp:80-150 | a dimension is reported iff one of its checks fails, as mismatch or as absence |
| `Compatibility.EligibleIffFits` | include/stateprovenance/compat.hpp:70-179 | eligible iff the record is valid and agrees with every requested dimension |
| `Compatibility.StrengtheningNeverGains` | include/stateprovenance/compat.hpp:70-179 | a request that asks for more never turns an ineligible record eligible |
| `Registry.AdmitKeepsAncestors` | include/stateprovenance/store.hpp:399-441 | publishing never changes the ancestors of a record already there, and keeps derivation acyclic |
| `Registry.AdmitKeepsSound` | include/stateprovenance/store.hpp:399-441 | publishing keeps ids, provenance ids, references and acyclicity sound |
| `Registry.FencedOutcomeIff` | include/stateprovenance/store.hpp:79-88 | a fenced publish succeeds iff the record is well-formed, every dimension of the claim is fresh, neither id is taken and every input state and parent record is there; otherwise it is refused, naming the first of these that fails |
| `Registry.InsertOutcomeIff` | include/stateprovenance/store.hpp:399-441 | the same of the insertion alone, refusal by refusal |
| `Registry.PublishOutcomeIff` | include/stateprovenance/store.hpp:392-397 | an unfenced publish succeeds iff the record is well-formed and can be inserted |
| `Registry.FencedPublishIs` | include/stateprovenance/store.hpp:433-439 | a publish that succeeds adds the record, its overlay row with the record's own validity, reason, provenance generation and note, and its worker, and changes nothing else; any other changes nothing |
| `Registry.InvalidateIs` | include/stateprovenance/store.hpp:287-316 | after an invalidation exactly the subject and what derives from it is invalidated, each row with the reason given, the provenance generation it had and the detail that names the subject; all other rows, the records and the authority are as before |
| `Recovery.RefusedIff` | include/stateprovenance/store.hpp:356-361 | a restore is refused iff subject ids repeat or some record is on, or downstream of, a cycle or a missing input state |
| `Recovery.RefillAcceptsAll` | include/stateprovenance/store.hpp:362-365 | inserting resolving, uniquely numbered records parents first, every insertion is accepted |
| `Recovery.GoodSetRestored` | include/stateprovenance/store.hpp:330-374 | such a snapshot without subject id zero is restored whole |
| `Recovery.ZeroThrows` | include/stateprovenance/store.hpp:420 | with subject id zero in it, the restore throws |
| `Recovery.NothingLostIff` | include/stateprovenance/store.hpp:356-365 | a restore that goes through keeps every record iff provenance ids are unique and every reference resolves |
| `Recovery.RestoredWholeIff` | include/stateprovenance/store.hpp:330-374 | a snapshot is restored whole iff subject ids are distinct and not zero, no record is on or downstream of a cycle or a missing input state, provenance ids are unique and every reference resolves |
| `Recovery.RestoreKeepsIff` | include/stateprovenance/store.hpp:356-365 | a restore that is not refused keeps, given unique provenance ids, exactly the records all of whose ancestry is there and resolves |
| `Recovery.DroppedForMissingParent` | include/stateprovenance/store.hpp:362-365 | a record whose parent record is missing from the snapshot is dropped while the restore succeeds |
| `Recovery.DroppedForRepeatedProvenance` | include/stateprovenance/store.hpp:362-365 | of two records with one provenance id only that with the smaller subject id survives, while the restore succeeds |
| `Runs.RunKeepsConsistent` | include/stateprovenance/store.hpp:79-374 | every run keeps the store consistent: sound records, overlay keys equal to record keys and tracking them, known workers |
| `Runs.PublishNeverThrows` | include/stateprovenance/store.hpp:392-420 | a validated publish never reaches the graph's refusal |
| `Runs.RestoreOfSnapshot` | include/stateprovenance/store.hpp:321-374 | restoring a consistent store's own snapshot refuses and throws nothing and gives back the same store, the boots of unknown workers excepted |
| `Runs.EveryRunRecovers` | include/stateprovenance/store.hpp:321-374 | the same after every run from the empty store |
| `Runs.SnapshotIsStable` | include/stateprovenance/store.hpp:321-328 | a second snapshot after recovery equals the first, an epoch of zero excepted |
| `Runs.RunKeepsHistory` | include/stateprovenance/store.hpp:287-316 | over every run that never goes back to an earlier save, a published record, its ancestor set and its invalidation are permanent |
| `Runs.EligibleIff` | include/stateprovenance/store.hpp:220-282 | eligible iff the overlay says valid, no ancestor is invalidated or stale, and every requested dimension agrees |
| `Runs.AnswersIff` | include/stateprovenance/store.hpp:220-282 | which answer a reuse question gets, for every answer: by the overlay, then the ancestry, then the fields; an unknown subject is answered with unknown |
| `Runs.OutcomesIff` | include/stateprovenance/store.hpp:220-282 | the same outcome by outcome |
| `Runs.BlamedIff` | include/stateprovenance/store.hpp:220-282 | which dimensions are reported with it: none unless overlay and ancestry are sound, and then those whose fields are at fault |
| `Runs.StrongerRequestNeverGains` | include/stateprovenance/store.hpp:220-282 | strengthening a request never gains eligibility from the store either |
| `Runs.InvalidationIsForever` | include/stateprovenance/store.hpp:220-316 | after an invalidation, in every later state of such a run, neither the subject nor anything derived from it, before or since, is eligible |
| `Runs.InstantRestartTightensIff` | include/stateprovenance/store.hpp:339-354 | restoring a snapshot taken that instant accepts no claim that was not accepted before, iff the epoch is not zero |
| `Runs.RestartKeepsVerdicts` | include/stateprovenance/store.hpp:515-533 | for known workers and anonymous claims the restored store judges like the one the snapshot was taken of |
| `Runs.RestartFencesUnknown` | include/stateprovenance/store.hpp:515-533 | any other worker is fenced out by a restart |
| `Runs.PublisherIsKnown` | include/stateprovenance/store.hpp:439 | a worker with a published record is known, so its boot is in every snapshot |
| `Lifetimes.LineIsRun` | tools/coordinator.cpp:114-180 | over every history of saves and restarts, a store is what the operations on its own line of descent make of it; the rest has never happened to it |
| `Lifetimes.RestartRecovers` | tools/coordinator.cpp:114-180 | no restart from a save of such a history is refused or loses anything but boots of unknown workers |
| `Lifetimes.InvalidatedIff` | include/stateprovenance/store.hpp:287-374 | over every history a record is invalidated iff it was published so, or an event on its store's line invalidated it or something it derives from |
| `Lifetimes.InvalidationPermanentIff` | include/stateprovenance/store.hpp:287-374 | an invalidated record stays so iff there is no fresh start and no restart from an earlier save in which it was not invalidated |
| `Lifetimes.InvalidationBars` | include/stateprovenance/store.hpp:220-316 | as long as that holds, neither the record nor anything derived from it is eligible |
| `Lifetimes.RestartAnswersAsSaved` | include/stateprovenance/store.hpp:220-282 | after a restart every reuse question has the answer it had at the save |
| `Lifetimes.FencedIff` | include/stateprovenance/authority.hpp:60-153 | over every history a claim accepted in one state, of a worker known to it or anonymous, is accepted in a descendant of it iff the authority changes on the line between are harmless |
| `Lifetimes.RestartRevives` | include/stateprovenance/authority.hpp:60-153 | a claim accepted at a save is accepted again after a restart from it, though the store running until then rejected it iff the changes since the save are not harmless |
| `Lifetimes.RestartTightensIff` | include/stateprovenance/store.hpp:339-354 | a restart accepts no claim that the store running until then did not, iff the authority brought back is at least as tight: same epoch, no further boot, every value in force the same |
| `Indexes.PublishFollowsIff` | include/stateprovenance/store.hpp:460 | publishing keeps the validity index exact iff there is no orphaned overlay row of another validity for the subject |
| `Indexes.MoveFollows` | include/stateprovenance/store.hpp:308-311 | moving an invalidated subject keeps the validity index exact |
| `ProvenanceStore.Store.PublishFenced` | include/stateprovenance/store.hpp:79-88 | accepts iff the record is well-formed, the claim fresh in every dimension, the ids free and all references there, adds exactly the record, its row and its worker, and keeps graph, provenance map and record indexes exact; a validity index that was exact stays so iff no overlay row of another validity was there for the subject |
| `ProvenanceStore.Store.PublishValidated` | include/stateprovenance/store.hpp:392-397 | the same for the unfenced publish |
| `ProvenanceStore.Store.InsertValidated` | include/stateprovenance/store.hpp:399-441 | the insertion has the specified outcome, with the same condition on the validity index; a refusal changes nothing, since the one after the graph was touched cannot occur |
| `ProvenanceStore.Store.LinkParents` | include/stateprovenance/store.hpp:419-432 | registering a node with its distinct parents never meets a graph refusal |
| `ProvenanceStore.Store.IndexInsert` | include/stateprovenance/store.hpp:451-463 | every record index still answers like a full scan |
| `ProvenanceStore.Store.FindByProvenance` | include/stateprovenance/store.hpp:162-168 | finds the record with that provenance id iff there is one |
| `ProvenanceStore.Store.ByModel` | include/stateprovenance/store.hpp:178 | exactly the subjects a scan by model id finds, in order |
| `ProvenanceStore.Store.ByAdapter` | include/stateprovenance/store.hpp:179 | the same by adapter id |
| `ProvenanceStore.Store.ByProducer` | include/stateprovenance/store.hpp:180 | the same by producer id |
| `ProvenanceStore.Store.ByExecution` | include/stateprovenance/store.hpp:181 | the same by execution id |
| `ProvenanceStore.Store.ByAttempt` | include/stateprovenance/store.hpp:182 | the same by attempt id |
| `ProvenanceStore.Store.ByArtifactGeneration` | include/stateprovenance/store.hpp:184 | the same by artifact generation |
| `ProvenanceStore.Store.ByEvidence` | include/stateprovenance/store.hpp:186 | the same by evidence class |
| `ProvenanceStore.Store.ByDependency` | include/stateprovenance/store.hpp:183 | exactly the subjects with that dependency, in order |
| `ProvenanceStore.Store.ByValidity` | include/stateprovenance/store.hpp:185 | as long as the index follows the overlay, exactly the subjects whose live overlay has that validity, in order |
| `ProvenanceStore.Store.CheckReuse` | include/stateprovenance/store.hpp:220-282 | own overlay first, then field checks, then the health of the ancestry: the answer `Runs.AnswersIff` states in fields |
| `ProvenanceStore.Store.Invalidate` | include/stateprovenance/store.hpp:287-316 | invalidates exactly the subject and what derives from it, with the rows `Registry.InvalidateIs` states; the validity index follows and the result lists them; an unknown subject changes nothing |
| `ProvenanceStore.Store.TakeSnapshot` | include/stateprovenance/store.hpp:321-328 | records in id order, the overlay, and the boots of known workers |
| `ProvenanceStore.Store.RecordsInTopoOrder` | include/stateprovenance/store.hpp:471-513 | all records in the greedy parents-first order, or none if that order is incomplete |
| `ProvenanceStore.Store.Restore` | include/stateprovenance/store.hpp:330-374 | from any prior state and any snapshot: the specified outcome, with graph, provenance map and every index exact; overlay and records line up iff no overlay row lacks a record |
| `Wire.BinaryWriter.Str` | include/stateprovenance/persist.hpp:62-66 | refuses a string iff it is over the bound; otherwise appends exactly its encoding |
| `Wire.BinaryReader.U64` | include/stateprovenance/persist.hpp:100-105 | consumes exactly one encoding, or fewer than eight bytes remain |
| `Wire.BinaryReader.Str` | include/stateprovenance/persist.hpp:107-115 | consumes exactly one bounded string, or no bounded string is encoded there |
| `Wire.RunStuck` | include/stateprovenance/persist.hpp:212-217 | where the next element cannot be read, no longer vector can have been written |
| `RecordCodec.WriteRecord` | include/stateprovenance/persist.hpp:129-167 | refuses a record iff some string is over the bound; otherwise appends exactly its encoding |
| `RecordCodec.ReadRecord` | include/stateprovenance/persist.hpp:170-254 | returns a record iff the bytes start with the encoding of a valid, bounded one, and consumes exactly that |
| `RecordCodec.FittingUnambiguous` | include/stateprovenance/persist.hpp:129-254 | the bytes of a record determine the record and what follows it |
| `SnapshotCodec.EncodeSnapshot` | include/stateprovenance/persist.hpp:293-309 | succeeds iff every string is within the bound, with exactly the specified bytes |
| `SnapshotCodec.DecodeSnapshot` | include/stateprovenance/persist.hpp:316-367 | accepts exactly the encodings of readable streams (bounds, valid enums and records, distinct provenance ids), with nothing before or after |
| `SnapshotCodec.StreamUnambiguous` | include/stateprovenance/persist.hpp:293-367 | the bytes of a stream determine it and what follows it |
| `Durability.RoundTrip` | include/stateprovenance/persist.hpp:293-367 | a qualifying snapshot decodes from its encoding to itself and to nothing else |
| `Durability.PrefixFree` | include/stateprovenance/persist.hpp:316-367 | no accepted stream is a strict prefix or a proper extension of another |
| `Durability.ReencodeIff` | include/stateprovenance/persist.hpp:293-367 | re-encoding a decoded stream gives the same bytes iff its status and worker ids were strictly increasing |
| `Durability.StoreSnapshotQualifies` | include/stateprovenance/persist.hpp:39-46 | a consistent store's snapshot qualifies iff it is within the codec's bounds |
| `Durability.RestartThroughBytes` | include/stateprovenance/store.hpp:321-374 | after any run, what is decoded from the encoded snapshot restores to the store that took it |
| `Layout.WeighedWord` | include/stateprovenance/persist.hpp:56-57 | byte i of a number written counts 256^i |
| `Layout.RecordLaid` | include/stateprovenance/persist.hpp:129-167 | the nested record encoding is the flat table of the record's fields in the order the writer lists them |
| `Layout.SnapshotLaid` | include/stateprovenance/persist.hpp:256-309 | a snapshot is written as magic, version, record count, records, overlay rows in order of their subjects, epoch, boots in order of their workers, generations |
| `Layout.FileLaid` | include/stateprovenance/persist.hpp:372-384 | a file is the eight characters SPROV1.0, version, flags, length and checksum in twenty bytes, and the payload |
| `Layout.PublishLaid` | include/stateprovenance/protocol.hpp:227-276 | a publish payload is the thirteen words of the claim in order and the record's table |
| `Layout.FrameLaid` | include/stateprovenance/protocol.hpp:189-201 | a frame is its length in four bytes, counting the opcode, then opcode and payload |
| `Crc.TableEntry` | include/stateprovenance/digest.hpp:23-28 | a table entry is eight steps of bitwise division by the standard polynomial (`CrcStandard.GeneratorIs`) |
| `Crc.TableStep` | include/stateprovenance/digest.hpp:42-43 | one table look-up equals eight bitwise steps |
| `Crc.Crc32` | include/stateprovenance/digest.hpp:39-45 | the table-driven checksum equals the bitwise one, which is the CRC-32 of the standard (`CrcStandard.ChecksumIsRemainder`) |
| `CrcStandard.ChecksumIsRemainder` | include/stateprovenance/digest.hpp:23-45 | a word is the checksum of some bytes iff its complement is the remainder of their message polynomial, the first 32 coefficients complemented and times x^32, modulo the generator x^32 + x^26 + x^23 + x^22 + x^16 + x^12 + x^11 + x^10 + x^8 + x^7 + x^5 + x^4 + x^2 + x + 1 |
| `CrcStandard.GeneratorIs` | include/stateprovenance/digest.hpp:26 | the constant of the division step is that generator without its top term, reflected |
| `CrcStandard.CheckValue` | include/stateprovenance/digest.hpp:39-45 | the checksum of the nine digits 123456789 is 0xCBF43926 |
| `Polynomials.RemainderUnique` | include/stateprovenance/digest.hpp:23-45 | over GF(2), polynomials of lower degree than the divisor that are congruent to the same one are the same |
| `Crc.BitsXor` | include/stateprovenance/digest.hpp:23-28 | division is linear |
| `Crc.FeedAll` | include/stateprovenance/digest.hpp:39-45 | feeding up to 32 bits one by one is dividing once with all of them packed into the register |
| `Crc.BurstDetected` | include/stateprovenance/digest.hpp:39-45 | payloads of equal length that differ only inside 32 consecutive bits, wherever they begin, have equal checksums iff they are equal |
| `Crc.WindowDetected` | include/stateprovenance/digest.hpp:39-45 | the same for four consecutive bytes |
| `SnapshotFile.SaveFile` | include/stateprovenance/persist.hpp:372-384 | the file written is the specified header and payload, unless a string is too long |
| `SnapshotFile.LoadFile` | include/stateprovenance/persist.hpp:417-459 | loads exactly the well-formed files: magic, version, length, checksum and payload |
| `SnapshotFile.CheckHead` | include/stateprovenance/persist.hpp:435-450 | no complaint iff the header is the one this payload would be saved under; each complaint means what it says |
| `FileIntegrity.QualifiesBySize` | include/stateprovenance/persist.hpp:39-46 | a payload within 512 MiB keeps every vector and record count within the reader's bounds |
| `FileIntegrity.SaveThenLoad` | include/stateprovenance/persist.hpp:372-459 | a saved snapshot loads as itself, and only as itself, iff its payload is at most 512 MiB |
| `FileIntegrity.LoadedRestores` | include/stateprovenance/persist.hpp:417-459 | a restore of what any file loads as is refused, or keeps exactly the records all of whose ancestry is there and resolves |
| `FileIntegrity.PayloadCorruptionDetected` | include/stateprovenance/persist.hpp:448-450 | changing a payload within 32 consecutive bits makes the file unloadable |
| `FileIntegrity.HeaderChangesAccepted` | include/stateprovenance/persist.hpp:428-450 | with the payload intact a file loads iff nothing but its flags has changed, and then as the same snapshot |
| `FileIntegrity.FilePrefixFree` | include/stateprovenance/persist.hpp:444-447 | a truncated file, or one with bytes appended, does not load |
| `StoreFile.SaveAndRecover` | tools/coordinator.cpp:114-121 | a store saved to a file and restored from it into any other store is the same store, with exact indexes, iff the payload fits the bound |
| `Failures.LargeStoreCannotRestart` | include/stateprovenance/persist.hpp:372-447 | nine publishes make a store that saves without complaint and whose file does not load |
| `Failures.OrphanedRowMisleads` | include/stateprovenance/store.hpp:367-373 | restore an overlay row without a record, publish the record: the store answers with it under a validity it no longer has |
| `Failures.LostThroughFile` | include/stateprovenance/store.hpp:362-365 | a file that loads and whose one record the restore drops while reporting success |
| `Failures.OldEpochRevived` | tools/coordinator.cpp:114-180 | save, roll the epoch, restart: a claim of the old epoch is rejected before the restart and accepted after it |
| `Failures.InvalidationUndone` | tools/coordinator.cpp:114-180 | save, invalidate, restart: whatever was eligible at the save is not eligible before the restart and eligible after it |
| `Mixing.Mix64Bijective` | include/stateprovenance/digest.hpp:63-68 | the finalizer has a two-sided inverse |
| `Mixing.OneDifference` | include/stateprovenance/digest.hpp:54-78 | absorbing sequences that differ in one place leads to the same state iff the two values are the same |
| `Digest.Fnv1a64` | include/stateprovenance/digest.hpp:54-61 | the loop absorbs each byte by the FNV-1a step |
| `Digest.FnvSeesOneByte` | include/stateprovenance/digest.hpp:54-61 | strings that differ in one byte hash alike iff that byte is the same |
| `Digest.FnvValues` | include/stateprovenance/digest.hpp:54-61 | the hashes of no bytes and of the letter a are the published ones of FNV-1a |
| `Digest.DigestIgnoresOrder` | include/stateprovenance/record.hpp:212-234 | permuting any of the four reference lists leaves the derivation digest unchanged |
| `Digest.DigestSeesOneScalar` | include/stateprovenance/record.hpp:193-210 | records whose absorbed items differ in one fixed-width place have equal digests iff the items there are equal |
| `Digest.DigestSeesOneByte` | include/stateprovenance/record.hpp:193-210 | the same for one byte of one absorbed string |
| `DigestFields.DigestSeesField` | include/stateprovenance/record.hpp:193-210 | records that agree in every field but one fixed-width one, the artifact generation left aside, have equal digests iff they agree in that one too; every field of the record but that generation is covered |
| `DigestFields.DigestSeesFieldByte` | include/stateprovenance/record.hpp:193-210 | the same for one byte of any string field |
| `DigestFields.DigestSeesDependency` | include/stateprovenance/record.hpp:222-227 | the same for one field of one dependency, in sorted order |
| `DigestFields.DigestSeesRequirement` | include/stateprovenance/record.hpp:229-234 | the same for one field of one requirement, in sorted order |
| `DigestFields.DigestSeesInput` | include/stateprovenance/record.hpp:212-215 | the same for one input state, in sorted order |
| `DigestFields.DigestSeesParent` | include/stateprovenance/record.hpp:217-220 | the same for one parent record, in sorted order |
| `Digest.RecoveredDigestIff` | include/stateprovenance/store.hpp:376-389 | recovery reproduces the store digest iff the epoch is not zero |
| `StoreDigests.StoreDigestSeesValidity` | include/stateprovenance/store.hpp:383-386 | with another overlay row of the same detail the store digest is the same iff the validity is; reason and provenance generation do not count |
| `StoreDigests.StoreDigestSeesDetail` | include/stateprovenance/store.hpp:383-386 | with another row of the same validity whose detail differs in at most a byte, iff the detail is |
| `StoreDigests.StoreDigestSeesEpoch` | include/stateprovenance/store.hpp:387 | with another authority, iff the epoch is; nothing else of it counts |
| `StoreDigests.StoreDigestSeesDerivation` | include/stateprovenance/store.hpp:378-381 | with another record of the same ids, iff the two derivation digests hash alike |
| `Protocol.Connection.SendAll` | include/stateprovenance/protocol.hpp:158-170 | however the transport splits the data it succeeds iff there are less than 2 GiB, and a prefix of exactly known size is sent |
| `Protocol.Connection.RecvAll` | include/stateprovenance/protocol.hpp:172-184 | yields exactly n bytes iff n is below 2 GiB and the stream holds that many, and consumes a prefix of exactly known size |
| `Protocol.Connection.SendFrame` | include/stateprovenance/protocol.hpp:189-202 | succeeds iff a receiver takes frames of this size; what is on the stream afterwards is known exactly |
| `Protocol.Connection.RecvFrame` | include/stateprovenance/protocol.hpp:205-222 | returns a frame iff the stream starts with a whole valid one, and consumes exactly that |
| `Protocol.SendFrames` | include/stateprovenance/protocol.hpp:189-202 | a list of frames is sent as their concatenation |
| `Protocol.ReceiveFrames` | include/stateprovenance/protocol.hpp:205-222 | any list of frames sent back to back is received as the same list |
| `Protocol.SizeCheckExactIff` | include/stateprovenance/protocol.hpp:191-192 | the sender's check admits exactly the frames a receiver takes iff the payload is within the limit or its wrapped length is over it |
| `Protocol.FailedSendLeavesFrameIff` | include/stateprovenance/protocol.hpp:158-202 | a failed send leaves a complete, valid, different frame on the stream iff the wrapped length is between one and the limit |
| `Protocol.ReceivedInstead` | include/stateprovenance/protocol.hpp:189-222 | what is received after such a send is the shortened frame, and the stream goes on with what follows |
| `Protocol.EncodePublish` | include/stateprovenance/protocol.hpp:266-276 | claim then record, unless a string is too long |
| `Protocol.DecodePublish` | include/stateprovenance/protocol.hpp:278-286 | returns claim and record iff the payload starts with them; anything after is ignored |
| `Protocol.DecodingIff` | include/stateprovenance/protocol.hpp:278-286 | what a payload decodes to is the one record and claim it carries |
| `Protocol.PublishRoundTrip` | include/stateprovenance/protocol.hpp:227-286 | a publish payload decodes to the same record and the claim with zero-valued generations absent, and to nothing else |
| `Protocol.WireKeepsAcceptance` | include/stateprovenance/protocol.hpp:227-263 | a claim accepted in process is accepted after the wire |
| `Protocol.VerdictsAgreeIff` | include/stateprovenance/protocol.hpp:227-263 | every authority judges a claim alike before and after the wire iff no optional generation of it holds zero |
| `CoordinatorServer.Server.Publish` | tools/coordinator.cpp:64-81 | each publish frame is counted exactly once, as accepted iff it carries a record and claim with the guards of `Registry.FencedOutcomeIff`; then the record is there, else the store is as it was |
| `CoordinatorServer.Server.Hello` | tools/coordinator.cpp:53-63 | registers the boot in the payload's first two words; a shorter payload changes nothing |
| `CoordinatorServer.Server.SetAuthority` | tools/coordinator.cpp:87-113 | each word but zero becomes its own generation, an attempt only with both its parts, and nothing else changes |
| `Coordinator.RunKeepsInv` | tools/coordinator.cpp:48-81 | within one process, over all interleavings: size is initial size plus accepted plus insertions not yet counted; frames are accepted, rejected or in progress; each inserted record's claim was accepted by an authority current during its call |
| `Coordinator.BeginInv` | tools/coordinator.cpp:171-190 | those invariants hold when the coordinator starts on a consistent store |
| `Coordinator.IdleAccounts` | tools/coordinator.cpp:64-81 | with all handlers idle, accepted plus rejected equals the publish frames handled, and the store has grown by the accepted |
| `Coordinator.InsertedStaleIff` | include/stateprovenance/store.hpp:79-88 | every insertion of every run goes back to a check by the same handler; at the insertion the claim is of a past epoch iff the rolls between those two steps are not a multiple of 2^64, stale in another dimension iff the last change to it in between does not suit, and accepted iff neither |
| `Coordinator.AnyPublishCanBeOvertaken` | include/stateprovenance/store.hpp:79-88 | any publish that would be accepted can be overtaken by any authority changes and is inserted nonetheless |
| `Process.DeploymentSane` | tools/coordinator.cpp:114-190 | through all saves and starts, every process keeps those invariants relative to the store it started with, and the files hold snapshots of stores there have been |
| `Process.DeploymentIsHistory` | tools/coordinator.cpp:48-190 | whatever interleaving, saving and restarting there is, the store goes through a history of publishes, authority changes, saves and restarts |
| `Process.LifetimeIsHistory` | tools/coordinator.cpp:48-190 | since its process started, the machine has gone through a history of the concurrent coordinator |
| `Process.DeploymentFencedIff` | tools/coordinator.cpp:114-190 | a claim some store of a deployment accepted, of a worker known to it or anonymous, is accepted by a descendant of it iff the authority changes on the line between are harmless |

## Left out

- Distinct identifier types: all ids and generations are one 64-bit type here.
- explain.hpp, error and reason texts, and the `reasons` of a reuse decision: only the branch taken is kept.
- Sockets, the file system and the atomic replacement of a file: bytes and byte streams stand for them, and streams fail only at their end.
- The store's shared mutex: each locked region, and the unlocked claim check, is one atomic step.
- `runtime_generation` of the store, `find`, `ids`, `size`, `validity_of`, `arcs`, `parents`, `boot_of`, and the forwarding graph queries: plain accessors.
- `reason` of a chain for an unaffected target is not initialised in the source; it is a fixed value here.
- `RecordBuilder`, the enum name tables and their parsers.
- Parsing of the SetAuthority text; Query, Stats and Shutdown requests; response frames; the stopping flag.
- Paths of snapshot files: a file written is kept, and any one of them can be started from.
- Lifetimes.FencedIff: stated for known workers and anonymous claims; any other worker is fenced out by the next restart on its line, until it registers again (`Runs.RestartFencesUnknown`).
- Collision-freeness of digests on arbitrary records: not true of a 64-bit hash.
- Digest.ComputeDerivationDigest: absorbs the items of a record from one list rather than by one call each.
- Restoring into a store that throws: the store is left as the insertions so far made it, which is what `ProvenanceStore.Store.Restore` states.

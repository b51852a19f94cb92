# Eredu verification

Eredu runs large models over a grid of processes and checks itself with a set of validation tools. This project models
the parts of it where a small slip would be silent, and proves what they promise for every input:

- **Partitioned capture.** Sharded tensor axes become scalar coordinates, the ranks that publish a value are elected,
  each publishes strided fragments, and a merge rebuilds the selected tensor. `CaptureRun.CaptureDisjoint` and
  `CaptureRun.CaptureSum` join all of it: what the run returns is the selection of the global tensor, or the sum of
  every rank's summand, element by element.
- **Cached generation.** A chunked run over a key/value cache computes what one pass over the whole sequence computes
  (`KvCache.Run`), and a draft head that keeps only its window loses nothing (`DraftWindow.RunSession`).
- **Source declarations.** Companion media artifacts rewrite role bindings in place; the last declaration of a role wins
  and every bound key stays inside its artifact (`Sources`).
- **Container headers.** The GGUF header grammar is self-delimiting, reads back everything a writer can put in it in
  both byte orders, and is retrieved through growing prefixes without the growth showing (`Parsing`, `Gguf`,
  `GgufCodec`, `GgufReader`). SafeTensors headers are admitted exactly when their tensors tile the payload (`Tiling`).
- **Expert banks, releases, downloads, ancestry, caches, quantization plans**, each in a module of its own.

Pure case analysis is modelled by functions; code that advances a cursor, fills a vector or updates an object is
modelled by methods and classes proved against those functions. Machine words are unbounded integers with the source's
checked operations written out where they can matter; the progression test is also given in the source's own words
(`ProgressionWords`). Sums of captured terms are over real numbers.

`Wrappers`, `Arith`, `Sequences`, `Sorting`, `Bytes` and `RowMajor` hold what the models share.

`dafny verify dfyconfig.toml` checks the project.

## Model

| member | source | states |
|---|---|---|
| `Progressions.Overlap` | eredu-core/src/capture/partition.rs:296-343 | answers yes exactly when two arithmetic progressions share a member, for all starts, steps and counts, without enumerating either |
| `Progressions.ComputeGcd` | eredu-core/src/capture/partition.rs:312-315 | the remainder loop returns the greatest common divisor of the two steps |
| `Progressions.ModularInverse` | eredu-core/src/capture/partition.rs:324-329 | the extended remainder loop returns an inverse of the reduced step whose coefficient is at most the modulus in size |
| `Progressions.SolveOffset` | eredu-core/src/capture/partition.rs:324-333 | the offset solves the residue equation |
| `Progressions.CommonResidue` | eredu-core/src/capture/partition.rs:320-335 | the residue it returns lies in both residue classes |
| `Progressions.ChineseRemainder` | eredu-core/src/capture/partition.rs:296-343 | a number is in both residue classes exactly when it is in the class of one common residue modulo the combined period |
| `Progressions.Incompatible` | eredu-core/src/capture/partition.rs:316-319 | when the gcd does not divide the difference of starts no number is in both classes |
| `Progressions.FirstAtLeastIsLeast` | eredu-core/src/capture/partition.rs:336-343 | the rebased residue is the least class member at or after the bound, so the final comparison decides overlap |
| `Progressions.FormedFit` | eredu-core/src/capture/partition.rs:324-329 | coefficients of opposite sign keep one weighted sum, so every value of a pass stays within the larger input |
| `ProgressionWords.OverlapWord` | eredu-core/src/capture/partition.rs:296-343 | the same test in 64-bit, 128-bit unsigned and 128-bit signed words: no operation leaves its word when both last members fit 64 bits, and the answer is still exact |
| `ProgressionWords.InverseWord` | eredu-core/src/capture/partition.rs:324-329 | every pass of the extended loop stays in 128 signed bits and ends with an inverse no larger than the modulus |
| `ProgressionWords.OffsetWord` | eredu-core/src/capture/partition.rs:330-332 | both factors are reduced before multiplying, so the product fits 128 unsigned bits and the offset solves the residue equation |
| `ProgressionWords.RebaseWord` | eredu-core/src/capture/partition.rs:336-342 | the rebased residue fits 128 unsigned bits and is the least class member from the low end on |
| `Coordinates.UnitsOwned` | eredu-core/src/component/coordinates.rs:106-128 | a unit range is accepted exactly when units divide the axis and hold it, and then a scalar is owned exactly with its unit |
| `Coordinates.AdmitIndices` | eredu-core/src/component/coordinates.rs:78-104 | the index loop reports the first out-of-range or repeated index, or returns a map with its exact inverse |
| `Coordinates.DerivedSpan` | eredu-architectures/src/component_partition.rs:1796-1902 | every accepted slice or shard placement derives the contiguous scalars between the boundaries of its logical units, short final chunks included |
| `Coordinates.DerivedMapsTile` | eredu-architectures/src/component_partition.rs:1796-1902 | when ranks divide one axis into consecutive logical ranges, every scalar is owned by exactly one rank |
| `Coordinates.ScalarLocalIffColumnLocal` | eredu-architectures/src/component_partition.rs:1796-1902 | a scalar is local to a rank exactly when its physical column is |
| `Coordinates.PlacementsAgree` | eredu-architectures/src/component_partition.rs:1796-1902 | accepted placements of the same physical columns own the same scalars, whatever their units, chunks or short last chunk |
| `Coordinates.ChunkBoundaryMonotone` | eredu-runtime/src/parallel.rs:1039-1067 | chunk boundaries start at zero and never decrease, the short last chunk included |
| `SlicePartition.ProjectListed` | eredu-core/src/capture/partition.rs:160-270 | the run-coalescing loop over explicit indices returns the greedy runs, or stops exactly when they exceed the fragment bound |
| `SlicePartition.ProjectAxis` | eredu-core/src/capture/partition.rs:63-270 | projection of a strided selection onto either kind of map returns its fragments or the bound error |
| `SlicePartition.CoalescedMoves` | eredu-core/src/capture/partition.rs:185-270 | coalescing into runs loses, repeats and reorders no element |
| `SlicePartition.FragmentsExact` | eredu-core/src/capture/partition.rs:63-270 | the fragments of a rank move exactly its selected elements: right local index, right destination, each once |
| `SlicePartition.DisjointIffCounts` | eredu-runtime/src/capture/partition/assembly.rs:132-226 | fragments are pairwise disjoint exactly when their counts add up to the number of distinct destinations |
| `Assembly.NewPartition` | eredu-core/src/capture/partition.rs:63-160 | builds a partition exactly when slice, axis and map agree with the shapes and the bound allows its fragments |
| `Assembly.OverlapsDestination` | eredu-core/src/capture/partition.rs:27-45 | two fragments of one selection overlap exactly when their destinations along the partitioned axis share a coordinate |
| `Assembly.CheckPlacement` | eredu-runtime/src/capture/partition/assembly.rs:132-200 | the validation loop accepts exactly pieces of one axis and slice with pairwise disjoint destinations, and counts their coverage |
| `Assembly.Validate` | eredu-runtime/src/capture/partition/assembly.rs:132-226 | admits received pieces exactly when they are disjoint, cover the axis and carry payloads of the announced size |
| `Assembly.OrdinalIncreases` | eredu-runtime/src/capture/partition/assembly.rs:330-420 | destination ordinals of one piece strictly increase in payload order |
| `Assembly.OrdinalUnique` | eredu-runtime/src/capture/partition/assembly.rs:330-420 | no two payload elements of admitted pieces share a destination ordinal |
| `Assembly.Locate` | eredu-runtime/src/capture/partition/assembly.rs:330-420 | every output position has a piece and payload element that supply it |
| `Assembly.DestinationOrdinal` | eredu-runtime/src/capture/partition/assembly.rs:330-400 | the axis-by-axis loop computes the row-major ordinal of a payload element |
| `Assembly.Assemble` | eredu-runtime/src/capture/partition/assembly.rs:286-428 | the copy loops fill every emitted position exactly once with the element supplied for it, or report the fault |
| `Assembly.SuppliedIsSelected` | eredu-runtime/src/capture/partition/assembly.rs:286-428 | what is supplied for a position is the global tensor at the selected coordinate |
| `RankTopology.GridRoundTrip` | eredu-core/src/topology.rs:175-245 | a grid position maps to a rank in range whose coordinates are that position |
| `RankTopology.PeersCarryEveryTerm` | eredu-core/src/topology.rs:404-407 | the tensor peers of a rank hold every tensor coordinate exactly once |
| `Election.ObservationCombination` | eredu-architectures/src/component_partition.rs:1439-1490 | returns a combination exactly when all observed layouts agree on it and every summing group is complete |
| `Election.ElectedRanksExact` | eredu-architectures/src/component_partition.rs:1539-1623 | the elected ranks are, in order, the first holder of each distinct coordinate map (and summand) |
| `Election.RepresentedOnce` | eredu-architectures/src/component_partition.rs:1539-1623 | every exporting rank has exactly one elected representative with its key |
| `Election.ResolveAxis` | eredu-architectures/src/component_partition.rs:249-306 | finds a named axis exactly when one axis, and only one, has the name |
| `Election.ProjectCapture` | eredu-architectures/src/component_partition.rs:249-306 | projects a request onto a layout exactly when the partition exists within the allowance |
| `Election.CaptureProducers` | eredu-architectures/src/component_partition.rs:1539-1623 | the election loop returns the publication the layouts determine, and fails only when there is none |
| `Capture.OneProducerPerTerm` | eredu-architectures/src/component_partition.rs:1539-1623 | in an additive capture each tensor-parallel term has exactly one producer |
| `Capture.ElectedPartition` | eredu-architectures/src/component_partition.rs:1539-1623 | the maps of elected producers partition the sharded axis |
| `Capture.TiledPlacementsShard` | eredu-architectures/src/component_partition.rs:1796-1902 | placements that tile an axis, with any replication, satisfy what the election needs |
| `Capture.ReceivedAccepted` | eredu-runtime/src/capture/partition/assembly.rs:132-226 | pieces published by the elected producers always pass the merge validation |
| `Capture.DisjointCapture` | eredu-runtime/src/capture/partition/assembly.rs:286-428 | end to end: pieces read from the shards of the elected producers assemble to the selection of the global tensor |
| `Capture.AssembleSum` | eredu-runtime/src/capture/partition/sum.rs:148-250 | the element loop sums one value of every term at each position |
| `Capture.SumEveryTerm` | eredu-runtime/src/capture/partition/sum.rs:122-146 | summing the terms in any order of distinct ranks is the sum over all ranks |
| `Capture.AdditiveCapture` | eredu-runtime/src/capture/partition/sum.rs:148-250 | end to end: an additive capture assembles to the sum of all tensor-parallel summands at each selected coordinate |
| `CaptureRun.CaptureDisjoint` | eredu-runtime/src/capture/partition/assembly.rs:286-428 | election, reading and merge as one run: succeeds exactly when the layouts determine a publication, and returns the global tensor at each selected coordinate |
| `CaptureRun.CaptureSum` | eredu-runtime/src/capture/partition/sum.rs:148-250 | election, reading and summation as one run: returns at each position the sum of every tensor-parallel summand |
| `KvCache.Cache.Update` | validation/muse_spark_reference_run.py:146-151 | appends to the layer's keys and values, returns the whole, and leaves other layers alone |
| `KvCache.Cache.GetSeqLength` | validation/muse_spark_reference_run.py:143-144 | the length of the first layer's keys, zero before any update |
| `KvCache.CausalVisible` | validation/muse_spark_reference_run.py:163-169 | a mask row shows a query the same entries whatever follows it |
| `KvCache.HiddenPrefix` | validation/muse_spark_reference_run.py:163-169 | a prefix of the tokens fixes the same prefix of every layer's states |
| `KvCache.Run` | validation/muse_spark_reference_run.py:359-363 | over any chunking and any layers, cached outputs equal one pass over the whole sequence, and recorded lengths are the tokens so far |
| `DraftWindow.TrimInvisible` | validation/muse_spark_dspark_released_reference.py:98-116 | entries before the trim point are visible to no draft query, under either mask |
| `DraftWindow.AttendTrimmed` | validation/muse_spark_dflash_released_reference.py:66-76 | attention over the trimmed context equals attention over all committed captures |
| `DraftWindow.Draft.Commit` | validation/muse_spark_dspark_released_reference.py:238-253 | commits pending captures and keeps exactly the window of projected entries |
| `DraftWindow.Draft.Propose` | validation/muse_spark_dflash_released_reference.py:288-293 | proposes what a draft over the untrimmed context would |
| `DraftWindow.RunSession` | validation/muse_spark_dspark_released_reference.py:238-259 | every step of a session proposes as if nothing had ever been dropped |
| `Sources.SourceDeclarations.FindExisting` | eredu-architectures/src/artifact_preparation.rs:283-285 | returns the least admitted artifact holding every key as the same tensor in the same file, or says there is none |
| `Sources.SourceDeclarations.AddCompanion` | eredu-architectures/src/artifact_preparation.rs:279-303 | faults exactly on a changed source or a taken identity no holder explains; otherwise binds to the first holder or newly admits itself, and applies the declarations |
| `Sources.InsideIffSpares` | eredu-architectures/src/artifact_preparation.rs:287-301 | one declaration keeps every role inside the target exactly when the keys it withdraws are no other role's |
| `Sources.LastDeclarationWins` | eredu-architectures/src/artifact_preparation.rs:279-307 | after any declarations a role is bound as its last declaration says |
| `Sources.TargetExact` | eredu-architectures/src/artifact_preparation.rs:279-307 | the text target keeps exactly the keys no later declaration took |
| `Sources.RolesStayInside` | eredu-architectures/src/artifact_preparation.rs:279-307 | over any declarations that keep roles separate, every role stays inside what the target reads |
| `Sources.CompanionRewrite` | eredu-architectures/src/artifact_preparation.rs:279-307 | after all companions each role is bound as its last declaration says, and roles stay inside the target |
| `Sources.RewriteHeld` | eredu-architectures/src/artifact_preparation.rs:279-307 | over any companions read from their own sources, every key a role is bound to stays inside the artifact it is bound in |
| `Sources.TargetOnceIff` | eredu-architectures/src/artifact_preparation.rs:287-301 | one declaration leaves the target reading each key from one artifact exactly when the target held its keys elsewhere only through the declared role |
| `Sources.SourceDeclarations.AddCompanions` | eredu-architectures/src/artifact_preparation.rs:279-307 | every companion is bound to the artifact it must be; the first that cannot be ends the rewrite with its fault; otherwise artifacts and roles are the fold over all companions, without empty bindings |
| `Sources.FaultSettled` | eredu-architectures/src/artifact_preparation.rs:279-303 | which companions are bound and where the rewrite faults is settled by what was held at the start |
| `Sources.SourceDeclarations.Bind` | eredu-architectures/src/artifact_preparation.rs:162-196 | succeeds exactly when every artifact opens and every role names admitted artifacts holding its keys, no key in two; then each role's views are its declared artifacts and keys, and it resolves a key to an artifact exactly when declared to |
| `Sources.BindableIffServed` | eredu-architectures/src/artifact_preparation.rs:170-194 | with keys held by their artifacts, a role that survives pruning can be bound exactly when it reads some key and no key from two artifacts |
| `Sources.SourceDeclarations.BindRole` | eredu-architectures/src/artifact_preparation.rs:170-194 | one role's views, and for each key the one artifact it is read from |
| `Sources.SourceDeclarations.RewriteAndBind` | eredu-architectures/src/artifact_preparation.rs:162-307 | the rewrite stops exactly at the first companion it cannot admit; otherwise it leaves the declared bindings without empty ones and never binds an unadmitted artifact, and when keys and companions come from what their artifacts hold, binding succeeds exactly when every artifact opens and every role reads at least one key and none from two artifacts |
| `Bytes.Utf8RoundTrip` | validation/muse_spark_gguf_inventory.py:45-46 | decoding undoes encoding for every text (RFC 3629) |
| `Bytes.Utf8Canonical` | validation/muse_spark_gguf_inventory.py:45-46 | strict decoding accepts only the encoding of its result, so equal names have equal bytes |
| `Bytes.IntegerRoundTrip` | validation/muse_spark_gguf_inventory.py:36-37 | fixed-width integers read back in both byte orders |
| `Parsing.RepeatReads` | validation/muse_spark_gguf_inventory.py:72-86 | reading back a list written item by item gives the list |
| `Gguf.PrefixDecides` | validation/muse_spark_gguf_inventory.py:24-92 | a longer prefix never changes a verdict already reached |
| `Gguf.ReadBytesDecide` | validation/muse_spark_gguf_inventory.py:24-92 | an accepted or refused header is decided by the bytes up to where reading stopped: any input sharing them, those bytes alone included, gets the same verdict |
| `Gguf.DataStartLeast` | validation/muse_spark_gguf_inventory.py:87-92 | the payload starts at the least multiple of the alignment at or after the header |
| `GgufCodec.HeaderRoundTrip` | validation/muse_spark_gguf_inventory.py:24-92 | any writable metadata and tensors, in either byte order and before any payload, are read back exactly and in order |
| `GgufReader.Inspection.Take` | validation/muse_spark_gguf_inventory.py:28-34 | a raw read returns the bytes at the cursor and advances it, or asks for more |
| `GgufReader.Inspection.TakeText` | validation/muse_spark_gguf_inventory.py:45-46 | reads a length-prefixed UTF-8 text as the grammar does |
| `GgufReader.Inspection.TakeValue` | validation/muse_spark_gguf_inventory.py:48-60 | reads one metadata value of any kind as the grammar does, nested arrays and unknown kinds refused |
| `GgufReader.Inspection.TakeMetadata` | validation/muse_spark_gguf_inventory.py:71-76 | the metadata loop reads what the grammar reads, repeated keys refused |
| `GgufReader.Inspection.TakeTensors` | validation/muse_spark_gguf_inventory.py:77-86 | the tensor loop reads what the grammar reads, bad ranks and repeated names refused |
| `GgufReader.Inspection.TakeHeader` | validation/muse_spark_gguf_inventory.py:24-92 | the cursor machine as a whole computes the grammar's verdict and stops where it does |
| `GgufReader.Inspect` | validation/muse_spark_gguf_inventory.py:24-92 | inspecting one prefix gives the grammar's verdict on it |
| `GgufReader.Retrieve` | validation/muse_spark_gguf_inventory.py:95-124 | the doubling loop returns the verdict on the longest prefix it may read, the header of the whole file and exactly its bytes |
| `Tiling.CheckTensor` | validation/muse_spark_inventory.py:95-111 | accepts exactly well-formed tensors: shape, offsets, bounds, encoding and byte length |
| `Tiling.ScanExact` | validation/muse_spark_inventory.py:112-118 | sorting and scanning accepts exactly the tilings: each byte in one tensor, no empty tensor strictly inside another |
| `Tiling.Admit` | validation/muse_spark_inventory.py:78-118 | accepts a header exactly when its bounds hold, its tensors are well formed and they tile the payload |
| `Tiling.PayloadConserved` | validation/muse_spark_inventory.py:112-118 | tensor lengths of an admitted header add up to the payload |
| `ExpertBanks.RangeExact` | eredu-core/src/topology.rs:679-704 | with a representable total the checked arithmetic never overflows, and the refusals are the three guards |
| `ExpertBanks.RangesTile` | eredu-core/src/topology.rs:679-704 | the balanced ranges give every position exactly one owner |
| `ExpertBanks.ExpertOwners` | eredu-architectures/src/expert_residency.rs:70-79 | filling each owner's range leaves every expert with its owner |
| `ExpertBanks.FoundationAccepts` | eredu-architectures/src/composite_partitioned.rs:210-258 | a foundation is accepted exactly when units, sizes, local experts and schedule agree with the balanced grid |
| `ExpertBanks.FoundationBanks` | eredu-architectures/src/composite_partitioned.rs:259-276 | an accepted foundation lists exactly the banks of its rank |
| `ExpertBanks.KeysDistinct` | eredu-architectures/src/composite_partitioned.rs:259-276 | a rank's banks are ordered by unit then expert, keys never repeat, and local ordinals advance with the global expert |
| `ExpertBanks.OwnedOnce` | eredu-architectures/src/composite_partitioned.rs:210-276 | a rank holds a unit and expert exactly when the unit is sparse and the rank sits at the pair's one grid coordinate |
| `ExpertBanks.BankAt` | eredu-architectures/src/composite_partitioned.rs:259-276 | local ordinals of a unit run from zero in global expert order |
| `ExpertBanks.ProviderUnits` | eredu-architectures/src/composite_partitioned.rs:1522-1544 | every layer's routed and shared specification reads back from its own unit, no other unit exists, and every unit returns to the layer of an entry of its group by remainder |
| `Release.ValidateOrder` | validation/validate_release_packages.py:104-129 | accepts exactly the sound orders: no duplicate, the publishable crates, dependencies first, no unpublishable local dependency |
| `Release.ReleaseClosure` | validation/validate_release_packages.py:502-518 | refuses unknown roots, and otherwise lists the least set closed under unpublished dependencies, in release order |
| `Release.StagedDependenciesFirst` | validation/validate_release_packages.py:502-518 | under a sound order every non-development dependency of a staged crate is published or staged earlier |
| `Release.StageAnyRoots` | validation/validate_release_packages.py:502-518 | two runs over the same roots, in any order and with any repetition, stage the same list or are both refused |
| `Release.SplitFeatures` | validation/validate_release_packages.py:210-231 | the modern part is the least set closed under direct need and reference, the two parts keep every feature, and what stays in the old grammar uses nothing of the new one and names no modern feature |
| `Release.SplitAnyOrder` | validation/validate_release_packages.py:210-231 | two splits that visit the features in different orders are equal |
| `Download.Shard.Receive` | validation/muse_spark_payload.py:60-69 | appends exactly the delivered bytes up to the pinned length, and tells an overlong transfer apart |
| `Download.Shard.Attempt` | validation/muse_spark_payload.py:48-69 | resumes where the partial file ends, and writes only after the exact status and range |
| `Download.Shard.Fetch` | validation/muse_spark_payload.py:42-75 | over five attempts the partial file only grows, stays within the pinned length, and stays a payload prefix whenever the replies that pass the status and range checks send the payload |
| `Download.Shard.Run` | validation/muse_spark_payload.py:31-80 | a destination appears only with the pinned length and digest whatever the server does; every other end keeps the partial file; a full honest reply is admitted |
| `Download.Shard.Runs` | validation/muse_spark_payload.py:31-80 | over any number of runs an admitted payload never changes and a partial file never loses a byte |
| `Ancestry.StopsSoon` | eredu-architectures/src/component_partition.rs:1231-1251 | in any parent graph, cyclic or not, a walk that ever stops does so within as many steps as there are nodes |
| `Ancestry.ResidualOwner` | eredu-architectures/src/component_partition.rs:1231-1251 | finds the nearest ancestor with parameter groups whenever there is one, and tells an unknown name from a missing unit |
| `Ancestry.ContainingBlock` | eredu-architectures/src/component_partition.rs:766-788 | accepts exactly when the nearest containing decoder block has the declared layer |
| `Ancestry.Scoped` | eredu-architectures/src/discovery.rs:871-901 | the unbounded walk answers by the nearest bound or scoped ancestor |
| `Ancestry.AcyclicEnds` | eredu-architectures/src/discovery.rs:871-901 | with acyclic parents every walk ends within as many steps as there are nodes |
| `Ancestry.ScopeRequirements` | eredu-architectures/src/discovery.rs:871-916 | with acyclic parents a point requires prediction afterwards exactly when it did before or a node with its id is in scope |
| `Ancestry.ScopeTwice` | eredu-architectures/src/discovery.rs:871-916 | scoping again changes nothing |
| `RustCache.Group` | validation/rust_cache.py:25-36 | files are grouped by unit key, none lost, none in two units |
| `RustCache.Evict` | validation/rust_cache.py:47-54 | evicts from the front until the rest fits the limit, and not one unit more |
| `RustCache.OutputTree.Prune` | validation/rust_cache.py:11-56 | a negative limit is refused; files sharing a unit stay or go together, evicted units never outrank kept ones, the reported total is what is left, and no unit goes needlessly |
| `RustCache.ConfigurationAbsent` | validation/rust_cache.py:67-67 | exactly the recognized keys with a dash right after the version prefix have no configuration |
| `RustCache.Expired` | validation/rust_cache.py:59-74 | keeps at most one current snapshot per configuration, newest first, within the limit; removes one only for its format, an as recent kept one of its configuration, or no room beside as recent kept ones; every recognized snapshot is kept or removed, once per listing, and no other is touched |
| `RustCache.RetentionDetermined` | validation/rust_cache.py:59-74 | with distinct times these promises leave one outcome: newest-first retention is the only one that meets them |
| `QuantPlan.NewPlan` | eredu-architectures/src/checkpoint_conversion.rs:68-135 | accepts exactly the sound target sets, and the plan is those targets in source order |
| `QuantPlan.SoundAnyOrder` | eredu-architectures/src/checkpoint_conversion.rs:88-127 | acceptance does not depend on the order targets are given in |
| `QuantPlan.PlanCanonical` | eredu-architectures/src/checkpoint_conversion.rs:88-90 | any listing of the same sound targets gives the same plan |

## Left out

- Tensor arithmetic, rotary positions, softmax and storage rounding: attention is any function of the visible entries.
- Compensated summation and the final narrowing in additive captures: sums are over real numbers, where the order of terms does not show.
- Reduced and vocabulary captures, routed sparse captures, receipts, ledgers and identity checks of the merge.
- Family-specific construction of partitions, expert specifications and quantized tensors.
- The first arms of source declaration that read SafeTensors and GGUF plans; the model starts from the roles they leave.
- HTTP error statuses are requests that met no usable connection, since they raise before a reply is seen and are retried.
- HTTP headers other than status and content range, credentials, file-system errors, sleeping and hashing: a response is a value, a digest any function.
- The retained-evidence shortcut of header retrieval and the JSON it writes.
- JSON typing of SafeTensors headers: shapes and offsets are lists of integers.
- Cargo invocation, registry records and archives of the release tool.
- Removing `incremental` and `package` directories before pruning, and the shard-name check before a download.
- Computing unit keys and priorities from paths and suffixes in cache pruning: both are any function of a file or unit.
- Validation of the quantization encoding and the output configuration object.
- Capture.AssembleSum: states exact real sums, because rounding is not modelled.
- Capture.SumEveryTerm: order independence holds of real sums, because rounding is not modelled.
- Capture.AdditiveCapture: states exact real sums, because rounding is not modelled.
- CaptureRun.CaptureSum: states exact real sums, because rounding is not modelled.
- Sources.SourceDeclarations.Bind: does not model failures to open files or caches; only metadata-only artifacts fail to open.

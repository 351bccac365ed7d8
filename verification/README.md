# FireViewer training pipeline: corpus, archive, grid and selection algorithms

FireViewer assembles detector and localiser corpora from public wildfire imagery and trains on
them. This project models the algorithms in that pipeline whose results the rest relies on, and
proves what they promise for every input.

* **Leak-free splits.** A BK-tree over perceptual hashes (`BkTree`, `Hamming`), a path-halving
  union-find over group labels (`UnionFind`, `Connectivity`), the hash-based reconciler
  (`Corpus`, `NearDuplicateSplits`), the ingest loop with its restarts (`Ingest`), the leakage
  checks of the manifest (`Manifest`) and the balancing reconciler for FASDD (`SplitBalance`,
  `FasddSplits`, `FasddBalance`, `FasddDealing`, `FasddReconcile`).
* **Remote ZIP archives.** A reader that locates and lists a central directory through byte
  ranges, with ZIP64 (`Struct`, `ZipReader`), proved to invert a writer (`ZipWriter`,
  `ZipRoundTrip`) that follows PKWARE's APPNOTE.TXT, sections 4.3.7, 4.3.12, 4.3.14, 4.3.15,
  4.3.16 and 4.5.3, byte by byte (`ZipBytes`).
* **The geographic code.** Action sequences, base-16 prefixes and state lists (`ActionCode`,
  `TrainingExamples`), the rectangles they name (`CellGeometry`) and the satellite tiles these
  need (`TilePyramid`). The depth is a parameter except where the zoom table fixes it at four.
* **Greedy selections.** Timestamp pairing (`Pairing`, `RecordPairing`), interval thinning
  (`Thinning`), detection matching (`Boxes`, `Detections`, `DetectionTotals`), benchmark freezing
  (`RoundRobin`, `Benchmark`, `FrozenBenchmark`, `BenchmarkRecords`), premium rows
  (`PremiumSelection`, `PremiumLaws`) and the quality-ranked merge of manifests (`QualityMerge`,
  `MergeOrder`).
* **Checkpoints.** The two atomic saves per epoch of a training run as a step machine over disk
  and memory (`Checkpoints`), and the loop itself over files that survive a crash
  (`TrainingSessions`).
* **Exact arithmetic.** Role-balanced sampling masses (`SamplingWeights`, `SamplingMargins`,
  `SampledRows`, `BalancedSampling`) and normalised correlation by prefix sums (`AudioAlignment`).

`Labels` gives strings the lexicographic order Python sorts by; `Outcomes`, `Sorting`, `Counting`
and `Grouping` hold the shared vocabulary. Numbers that the program keeps as floats are reals.
Hashes, square roots, inflate and checksums are function parameters. Where the program updates
something in place, the model does too: the BK-tree and the union-find are classes, record lists
are arrays, and each method is proved equal to a specification function about which the laws are
stated. The laws that fix what such a function computes speak of the fields, times, bytes and
constants themselves. `dafny verify dfyconfig.toml` checks everything.

Some promises hold only under a condition. Each of these is stated as an equivalence or with the
input that breaks it:

* an empty stored archive member cannot be read back (`ZipRoundTrip.ReadInvertsWriting`);
* a resumed run trains past its early stop exactly when it restarts from a checkpoint whose
  patience is already exhausted (`Checkpoints.InterruptedRunAgrees`, `Checkpoints.LateRestartTrainsOn`);
* a restarted ingest under a row limit agrees with an uninterrupted one exactly when the further
  rows it looks at bring nothing new (`Ingest.ResumeAgreesExactlyWhen`, `Ingest.RestartRetainsMore`);
* the convergence check of the FASDD reconciler fails exactly when a record and the last holder of
  the digest it refers to are dealt apart (`FasddSplits.CrossesExactlyWhen`); it cannot while their
  groups are connected, as they are when a digest determines the looks
  (`FasddSplits.BalancedConverges`, `FasddSplits.LooksDecideReferences`), and can otherwise
  (`FasddBalance.SharedDigestFailsTheCheck`);
* the order of the rows is irrelevant to the quality-ranked merge exactly when ids are present and
  unique, assets readable and no image has two best copies (`MergeOrder.OrderIsIrrelevantExactlyWhen`);
  otherwise it can decide even whether the rows are accepted (`MergeOrder.OrderCanDecide`);
* a premium cap below one still admits one row per group (`PremiumLaws.CapsAreKept`);
* a frozen benchmark resolves to itself only if its class ids are known, not empty, and no later
  record reuses a digest (`FrozenBenchmark.FreezeRevalidates`);
* a contained audio query scores one only if its energy reaches the variance floor
  (`AudioAlignment.ExactWindowScoresOne`);
* the mosaic limit is respected within three top-level tiles a side only if cells are at least
  the tile epsilon wide (`TilePyramid.MosaicsFitExactly`);
* pairing with neighbours only considers every in-range pair exactly when no record reaches past
  its neighbours, and is then within a factor of two of the best
  (`RecordPairing.CandidatesAreCompleteExactlyWhen`); otherwise it can leave any number of records
  unpaired (`RecordPairing.ShortfallIsUnbounded`).

## Model

| member | source | states |
|---|---|---|
| Labels.LeTotalOrder | training/corpus_pipeline.py:203-207 | the string order behind `min`, `max` and `sorted` is a total order |
| Labels.LessExactlyWhen | training/corpus_pipeline.py:203-207 | one string comes first exactly when it is a proper prefix of the other, or has the smaller code point at the first difference |
| Connectivity.ComponentsCoincide | training/corpus_pipeline.py:227-229 | groups joined by a chain of links have the same component |
| UnionFind.Root | training/corpus_pipeline.py:196-201 | following parents ends, at a root that is never a larger label than the start |
| UnionFind.HalvingKeepsRoots | training/corpus_pipeline.py:198-200 | a path-halving step changes no label's root |
| UnionFind.HangingMovesOneRoot | training/corpus_pipeline.py:206-207 | hanging a root moves exactly the labels that ended in it |
| UnionFind.RootsDecideConnectivity | training/corpus_pipeline.py:194-229 | two labels share a root exactly when a chain of processed links connects them, and the root is the least label reached |
| UnionFind.UnionStep | training/corpus_pipeline.py:203-207 | joining two roots adds exactly the new link to the relation the forest represents |
| UnionFind.Components.Find | training/corpus_pipeline.py:196-201 | the mutating lookup returns the root, registers the label and keeps every root |
| UnionFind.Components.Union | training/corpus_pipeline.py:203-207 | the forest represents the old links and the new one |
| Hamming.DistanceTriangle | training/corpus_pipeline.py:116-128 | the bit-count distance of hashes obeys the triangle inequality |
| Hamming.DistanceZero | training/corpus_pipeline.py:116-125 | distance zero means the same hash |
| Hamming.DistanceCountsBits | training/corpus_pipeline.py:116-125 | the distance is the number of binary digits in which the hashes differ |
| BkTree.InsertKeepsWellFormed | training/corpus_pipeline.py:115-121 | after an insertion everything below an edge is at the edge's distance from its node |
| BkTree.EdgeWithinBand | training/corpus_pipeline.py:127-130 | an entry within the radius lies under an edge the pruning keeps |
| BkTree.SearchIsExact | training/corpus_pipeline.py:123-134 | the pruned search finds something exactly when a linear scan would, and what it finds is in range |
| BkTree.BuildHoldsEntries | training/corpus_pipeline.py:296-302 | the tree built by repeated insertion is well formed and holds exactly the inserted entries |
| BkTree.BKNode.Add | training/corpus_pipeline.py:115-121 | the in-place insertion does to the linked nodes what the insertion function does to the tree |
| BkTree.BKNode.Find | training/corpus_pipeline.py:123-134 | the node walk returns what the pruned search returns |
| Corpus.ProblemIgnoresSplits | training/corpus_pipeline.py:209-225 | groups and links do not depend on the splits a run starts from |
| Corpus.NamedGroupsAreLinked | training/corpus_pipeline.py:209-225 | two groups are linked exactly when a record of one names the digest of a record of the other, the last to hold it |
| NearDuplicateSplits.AssignmentFollowsLinks | training/corpus_pipeline.py:227-239 | groups connected by links are given one split |
| NearDuplicateSplits.LeaderIsRoot | training/corpus_pipeline.py:227-235 | a label is its own root exactly when it is the least of its component |
| NearDuplicateSplits.ReconciledIsLeakFree | training/corpus_pipeline.py:191-258 | afterwards no group spans two splits, no near-duplicate reference crosses splits, and nothing but splits changed |
| NearDuplicateSplits.ReconciledIsIdempotent | training/corpus_pipeline.py:237-242 | a second run reassigns no row |
| NearDuplicateSplits.SplitsIgnoreOrder | training/corpus_pipeline.py:191-242 | with unique digests a group's split does not depend on the order of the records |
| NearDuplicateSplits.UnlinkedGroupsKeepTheirSplit | training/corpus_pipeline.py:227-235 | a group no link joins to another keeps the split its own label hashes to |
| NearDuplicateSplits.ComponentsAreHashedByName | training/corpus_pipeline.py:227-242 | a record's split is drawn from the hash of its component's name, the only label or "near:" and the ascending labels joined by bars: 7000, 1500 and 1500 of 10000 buckets |
| NearDuplicateSplits.LinkGroups | training/corpus_pipeline.py:213-225 | the linking loop leaves a forest of exactly the record links, and counts missing and crossing references |
| NearDuplicateSplits.CollectComponents | training/corpus_pipeline.py:227-229 | the collection loop files every group under its root |
| NearDuplicateSplits.ReconcileNearDuplicateSplits | training/corpus_pipeline.py:191-258 | the in-place run produces the reconciled records and its report, and its non-convergence error cannot occur |
| Manifest.ScanDecidesUniqueness | training/corpus_pipeline.py:456-485 | the scan fails exactly on a repeated sample id or digest, and otherwise summarises the records |
| Manifest.LinkCountsAgree | training/corpus_pipeline.py:522-528 | counting over collected links equals counting dangling and crossing references over the records |
| Manifest.ValidateManifest | training/corpus_pipeline.py:456-528 | validation succeeds exactly for unique ids, unique digests and groups kept together, and reports the true link counts |
| Manifest.ReconciledPassesLeakCheck | training/corpus_pipeline.py:518-528 | a reconciled manifest keeps groups together and has no cross-split link; uniqueness is as before |
| Ingest.NearDuplicateIsExact | training/corpus_pipeline.py:352-353 | the near-duplicate lookup is empty exactly when every retained hash is more than six bits away |
| Ingest.RunFlagsExactly | training/corpus_pipeline.py:329-404 | every record a run retains names an earlier record within six bits, or none exists |
| Ingest.RunRetainsNewRows | training/corpus_pipeline.py:329-404 | the records a run adds are, in order, the new rows it looks at: each keeps the row's source id, digest, hash and group, is called by the source and the first 24 characters of its digest, is split by its group's hash, and has a reference, to a record within six bits, exactly when an earlier hash is that near |
| Ingest.RunKeepsDigestsUnique | training/corpus_pipeline.py:339-342 | a run never retains an image twice |
| Ingest.RunAccountsForRows | training/corpus_pipeline.py:329-342 | every row looked at is retained or counted as an exact duplicate, within the row limit |
| Ingest.LimitIsACut | training/corpus_pipeline.py:329-332 | a row limit only cuts the stream short, and only once it is used up |
| Ingest.ResumeReproducesRun | training/corpus_pipeline.py:293-338 | a restart from the partial manifest ends with the records of an uninterrupted run whose row limit, if any, is larger by the records retained before |
| Ingest.ResumeAgreesExactlyWhen | training/corpus_pipeline.py:293-342 | a restart under the same limit retains the same records exactly when each further row it looks at repeats an id or an image; without a limit there are no such rows |
| Ingest.RestartRetainsMore | training/corpus_pipeline.py:323-332 | with a limit of one, a restart after the first of two new rows retains both, an uninterrupted run one |
| Ingest.InterruptionsLoseNothing | training/corpus_pipeline.py:293-404 | after any number of sessions, cut short or limited anyhow, the manifest is that of one unlimited run over the rows up to the furthest any session looked at |
| Ingest.IngestedCorpusIsLeakFree | training/corpus_pipeline.py:353-404 | an ingested and reconciled corpus has no dangling and no cross-split reference |
| Ingest.ReconciliationKeepsUnlinkedGroups | training/corpus_pipeline.py:350-384 | reconciling an ingested corpus moves no record of a group without links to other groups |
| Ingest.LoadTree | training/corpus_pipeline.py:296-302 | the tree rebuilt from the partial manifest indexes exactly its records |
| Ingest.IngestRow | training/corpus_pipeline.py:333-404 | one row's body keeps the digest set and the tree in step with the records |
| Ingest.IngestRows | training/corpus_pipeline.py:293-404 | the loop over a row stream reaches the state of the specified run |
| SplitBalance.Emptiest | training/fasdd_acquisition.py:544-550 | the chosen split is the first with the least share of its target |
| SplitBalance.ChosenIsBelowTarget | training/fasdd_acquisition.py:544-552 | while rows remain the chosen split is still below its target |
| SplitBalance.RowsAreConserved | training/fasdd_acquisition.py:536-552 | the split counts add up to the rows dealt |
| SplitBalance.CountsAreSums | training/fasdd_acquisition.py:551-552 | a split's count is the sum of the components put in it |
| SplitBalance.EachGoesToEmptiest | training/fasdd_acquisition.py:540-552 | every component goes to the split that is emptiest once those before it are placed |
| SplitBalance.OvershootIsBounded | training/fasdd_acquisition.py:540-552 | a split that received components is strictly below target without its last one |
| SplitBalance.LastIsSmallest | training/fasdd_acquisition.py:540-543 | the last component put in a split is its smallest |
| SplitBalance.UndershootIsBounded | training/fasdd_acquisition.py:540-552 | no split falls short of its target by twice the largest component |
| FasddSplits.LookAlikesConnected | training/fasdd_acquisition.py:507-530 | records that look alike end in connected groups, though each links only to the first |
| FasddSplits.ReferencesNameFirstLookAlike | training/fasdd_acquisition.py:509-530 | a record gets a reference exactly when an earlier one has its hash, width, height and fingerprint, and it is the digest of the first such |
| FasddSplits.LooksConnect | training/fasdd_acquisition.py:507-530 | linking to the first look-alike connects the same groups as linking any two records that look alike |
| FasddSplits.BalancedIsLeakFree | training/fasdd_acquisition.py:484-559 | records of one group, and records that look alike, end in one split |
| FasddSplits.CrossesExactlyWhen | training/fasdd_acquisition.py:554-569 | a record trips the final check exactly when its group and that of the last holder of the digest it refers to are dealt to different splits |
| FasddSplits.BalancedConverges | training/fasdd_acquisition.py:561-569 | a record passes the final check if its group is connected to that of the last holder of the digest it refers to |
| FasddSplits.LooksDecideReferences | training/fasdd_acquisition.py:515-569 | that holds for every record when records with equal digests look alike |
| FasddSplits.OnlyKeysAndGroupsMatter | training/fasdd_acquisition.py:509-559 | neither earlier splits nor earlier references influence the result |
| FasddSplits.BalancedIsIdempotent | training/fasdd_acquisition.py:484-559 | a second run changes nothing |
| FasddSplits.SplitsIgnoreOrder | training/fasdd_acquisition.py:532-559 | a group's split does not depend on the order of the records |
| FasddBalance.SizesAreRowCounts | training/fasdd_acquisition.py:532-534 | component sizes are the numbers of rows their members have |
| FasddBalance.SplitsStayNearTarget | training/fasdd_acquisition.py:532-559 | in rows of the result: overshoot below a split's smallest component, undershoot below twice the largest |
| FasddBalance.SplitsPartitionRows | training/fasdd_acquisition.py:536-559 | the three splits of the result partition the records |
| FasddBalance.TwoComponentsGoApart | training/fasdd_acquisition.py:540-552 | if there are just two components, they end in different splits |
| FasddBalance.SharedDigestFailsTheCheck | training/fasdd_acquisition.py:509-569 | a third record with the digest of the first but another look and group makes the reference of the second cross splits |
| FasddDealing.ComponentsGoToEmptiestSplit | training/fasdd_acquisition.py:532-559 | every row is in the first split holding the least of 70, 15 and 15 percent of the rows once larger components, or equal ones with lesser labels, are dealt |
| FasddReconcile.LinkVisualDuplicates | training/fasdd_acquisition.py:506-530 | the linking pass rewrites every reference and joins the groups, or stops at the first record without a fingerprint |
| FasddReconcile.MeasureComponents | training/fasdd_acquisition.py:532-534 | the collection loop counts each component's rows under its root |
| FasddReconcile.DealComponents | training/fasdd_acquisition.py:536-552 | the dealing loop assigns splits and counts as specified, for no rows too |
| FasddReconcile.AssignSplits | training/fasdd_acquisition.py:554-559 | the assignment pass gives every record its group's split and counts the changes |
| FasddReconcile.Converged | training/fasdd_acquisition.py:561-569 | the final check passes exactly when no reference crosses splits |
| FasddReconcile.ReconcileFasddVisualSplits | training/fasdd_acquisition.py:484-587 | the in-place run leaves the balanced records; it fails exactly on a missing fingerprint or a crossing reference |
| Struct.DecodeEncode | training/remote_zip.py:73-74 | little-endian fields read back what was written |
| Struct.UnpackPack | training/remote_zip.py:131-140 | unpacking a format recovers the packed values, whatever follows |
| Struct.RFind | training/remote_zip.py:70-78 | the last occurrence within the bound, or none at all |
| ZipReader.ScanExtraFields | training/remote_zip.py:97-109 | the cursor loop finds the words of the first ZIP64 field |
| ZipReader.ReadDirectory | training/remote_zip.py:128-166 | the cursor loop parses the directory as the recursive reading does |
| ZipReader.ReadEntries | training/remote_zip.py:125-166 | listing an archive is locating and parsing its central directory |
| ZipRoundTrip.RangeMiddle | training/remote_zip.py:48-64 | the range a part of an archive occupies reads back as that part, and is refused exactly when the part is empty |
| ZipRoundTrip.OtherFieldsAreSkipped | training/remote_zip.py:99-109 | well-formed extra fields before the ZIP64 one do not disturb it |
| ZipRoundTrip.SizesReadBack | training/remote_zip.py:89-123 | true sizes and offset are recovered for every mix of placeholders |
| ZipRoundTrip.EntryReadsBack | training/remote_zip.py:130-162 | a central header reads back as its member's entry |
| ZipRoundTrip.DirectoryReadsBack | training/remote_zip.py:128-163 | parsing a written directory gives its non-directory members in order |
| ZipRoundTrip.EndRecordReadsBack | training/remote_zip.py:66-74 | the end record is found in the last mebibyte and read back |
| ZipRoundTrip.LocatorReadsBack | training/remote_zip.py:78-81 | the ZIP64 locator is found before the end record and read back |
| ZipRoundTrip.Zip64RecordReadsBack | training/remote_zip.py:82-87 | the ZIP64 end record is read back through its own range |
| ZipRoundTrip.CentralLocationReadsBack | training/remote_zip.py:66-87 | the directory is located whether the end record keeps its place or the ZIP64 record does, and if ZIP64 records are there without need |
| ZipRoundTrip.EntriesInvertWriting | training/remote_zip.py:125-166 | listing a written archive yields exactly its files with true sizes and offsets, and fails exactly when there are none |
| ZipRoundTrip.FilesAreMembers | training/remote_zip.py:152-162 | the listed entries are the non-directory members at their true offsets |
| ZipRoundTrip.ReadInvertsWriting | training/remote_zip.py:168-188 | reading a member gives its contents exactly when it occupies a byte; an empty one is refused |
| ZipBytes.CentralHeaderBytes | training/remote_zip.py:130-161 | a written central header has the bytes 50 4b 01 02, and method, CRC, sizes, lengths and offset at 10, 16, 20, 24, 28 to 32 and 42, little-endian, a moved number as four bytes 0xFF |
| ZipBytes.Zip64FieldBytes | training/remote_zip.py:97-123 | the extra field for moved numbers has id 1, its length, and the numbers in eight bytes each: size, stored size, offset |
| ZipBytes.LocalHeaderBytes | training/remote_zip.py:168-174 | a local header has the bytes 50 4b 03 04, the method at 8 and the lengths at 26 and 28 |
| ZipBytes.EndRecordBytes | training/remote_zip.py:70-76 | the end record has the bytes 50 4b 05 06, size and offset of the directory at 12 and 16, or 0xFF bytes, and the comment's length at 20 |
| ZipBytes.Zip64RecordBytes | training/remote_zip.py:78-87 | the ZIP64 record has the bytes 50 4b 06 06 and the true size and offset at 40 and 48; its locator the bytes 50 4b 06 07 and the record's place at 8 |
| ZipBytes.EndRecordIsMissingExactlyWhen | training/remote_zip.py:66-72 | the end record is reported missing exactly when the last mebibyte holds no 50 4b 05 06 |
| ZipBytes.ReadSucceedsExactlyWhen | training/remote_zip.py:168-188 | on any bytes, a member is read exactly when its local header, its range, its method, its size and its checksum are right |
| ActionCode.TruePrefix | training/spatial_train_cross_view_localizer.py:1146-1150 | the fold computes the base-16 number the actions spell |
| ActionCode.DigitsInvertPrefix | training/spatial_train_cross_view_localizer.py:427-435 | decoding a prefix gives back the actions that spelled it |
| ActionCode.PrefixInvertsDigits | training/spatial_train_cross_view_localizer.py:427-435 | every number below the step's capacity is the prefix of what it decodes to |
| ActionCode.PrefixDigit | training/spatial_train_cross_view_localizer.py:427-435 | each action is the digit of the prefix that 16 to the number of later actions counts |
| ActionCode.DecodePrefix | training/spatial_train_cross_view_localizer.py:427-435 | the in-place decoding succeeds exactly within the step's capacity and is right there |
| ActionCode.FinalGridIndex | training/spatial_train_cross_view_localizer.py:292-299 | the loop computes the row and column the actions lead to |
| ActionCode.GridIndexInvertsCode | training/cross_view_synthetic_region.py:295-301 | coding a cell and following the code ends in the cell |
| ActionCode.CodeInvertsGridIndex | training/spatial_train_cross_view_localizer.py:292-299 | every action sequence is the code of the cell it leads to |
| ActionCode.EncodeActions | training/cross_view_synthetic_region.py:295-301 | the shift-and-mask loop emits the code high digits first |
| ActionCode.CodeDigit | training/cross_view_synthetic_region.py:295-301 | each action is four times the step's base-4 digit of the row plus that of the column |
| ActionCode.StateKeys | training/spatial_train_cross_view_localizer.py:627-634 | a state's position in the list is its step's offset plus its prefix |
| ActionCode.StateOffsetsOfFourSteps | training/spatial_train_cross_view_localizer.py:52-53 | the offsets and the total of the four-step table |
| TrainingExamples.Examples | training/spatial_train_cross_view_localizer.py:1040-1061 | the cursor loop fills each row and step's slot with its ground, state, label and step |
| TrainingExamples.StateIndexIdentifies | training/spatial_train_cross_view_localizer.py:1036-1056 | a satellite index determines region, step and prefix |
| TrainingExamples.SharedStateMeansSharedPath | training/spatial_train_cross_view_localizer.py:1051-1060 | two examples share a satellite state exactly when region, step and path so far agree |
| TrainingExamples.ExamplesPointAtStates | training/spatial_train_cross_view_localizer.py:1036-1060 | every slot of the arrays points, in its region's copy of the state list, at its step and the prefix of the actions before it |
| TrainingExamples.SharedSlots | training/spatial_train_cross_view_localizer.py:1036-1060 | two slots hold one satellite index exactly when regions, steps and actions so far agree |
| CellGeometry.BoundsAreCell | training/spatial_train_cross_view_localizer.py:438-455 | walking down a code ends at the closed-form rectangle of its index |
| CellGeometry.StateBounds | training/spatial_train_cross_view_localizer.py:438-455 | the loop returns that rectangle, or fails beyond the step's capacity |
| CellGeometry.CellsTile | training/spatial_train_cross_view_localizer.py:438-455 | the cells of one step cover the region without overlap |
| CellGeometry.ActionsForPosition | training/cross_view_synthetic_region.py:282-301 | a position is coded exactly when it lies in the region, as its clipped cell |
| CellGeometry.CodedCellIsNear | training/cross_view_synthetic_region.py:292-301 | the coded cell's centre is within half a cell of the position on each axis |
| CellGeometry.PrefixCenter | training/spatial_train_cross_view_localizer.py:1153-1158 | the centre of the cell a prefix names |
| CellGeometry.ExactPathIsNear | training/spatial_train_cross_view_localizer.py:1146-1158 | coding, spelling, decoding and centring ends within half a cell of the start |
| CellGeometry.ProducedRowsAgree | training/spatial_train_cross_view_localizer.py:321-350 | rows coded by the producer show full agreement and zero error in the consumer's report |
| CellGeometry.ObservedCellHolds | training/spatial_train_cross_view_localizer.py:332-342 | the consumer's cell of a row holds the row's position, or is the border cell nearest to it |
| CellGeometry.ReportCountsRows | training/spatial_train_cross_view_localizer.py:343-350 | the report counts the rows exactly in place and those within one row and column, and its maximum is the least difference all are within |
| TilePyramid.TilesMembers | training/spatial_train_cross_view_localizer.py:506-514 | the required list holds exactly the tiles of the index range |
| TilePyramid.RequiredTilesAreTouched | training/spatial_train_cross_view_localizer.py:486-514 | the required tiles are exactly those the rectangle, short of its far epsilon, touches |
| TilePyramid.RequiredTilesInMetres | training/spatial_train_cross_view_localizer.py:486-514 | per step these are the square tiles of 5120, 1280, 320 and 80 metres, from the region's corner, that the rectangle touches |
| TilePyramid.PyramidTiles | training/cross_view_synthetic_region.py:209-217 | the nested loops visit exactly the tiles up to the region's limits |
| TilePyramid.RequiredTilesAreBuilt | training/spatial_train_cross_view_localizer.py:486-514 | every tile a rectangle inside the region needs is one the producer builds |
| TilePyramid.StateTilesAreBuilt | training/spatial_train_cross_view_localizer.py:486-514 | so is every tile any state of any step needs |
| TilePyramid.MosaicLimitNeverExceeded | training/spatial_train_cross_view_localizer.py:498-503 | no state's mosaic is refused for sides between 64 epsilons and three top-level tiles |
| TilePyramid.MosaicsFitExactly | training/spatial_train_cross_view_localizer.py:493-503 | up to three top-level tiles a side, every mosaic fits exactly when the last step's cells are at least epsilon wide and high |
| Pairing.BisectLeft | training/camp_swift_thermal.py:66-66 | the insertion point splits the list into earlier and not earlier |
| Pairing.FindCandidates | training/camp_swift_thermal.py:64-74 | bisect and both cursor loops enumerate exactly the pairs within the delta, each once |
| Pairing.SelectGreedily | training/camp_swift_thermal.py:75-83 | the used-sets loop keeps what the greedy rule keeps |
| Pairing.PickIsStable | training/camp_swift_thermal.py:78-83 | the kept pairs are one-to-one and every other candidate lost to an earlier kept one |
| Pairing.SelectionIsGreedy | training/camp_swift_thermal.py:56-84 | the selection is in range, one-to-one and leaves no in-range pair unblocked |
| Pairing.SelectionInTimes | training/camp_swift_thermal.py:64-84 | in times: kept pairs are within the delta and share no layer, and another pair within it is beaten by a kept one that is nearer, or as near and first in order |
| Pairing.GreedyIsUnique | training/camp_swift_thermal.py:78-83 | no other set of pairs has that property |
| Pairing.GreedyIsHalfOptimal | training/camp_swift_thermal.py:56-84 | any one-to-one pairing within the delta has at most twice as many pairs |
| Pairing.HalfIsReached | training/camp_swift_thermal.py:56-84 | an input on which another pairing is twice as large |
| Pairing.PairNearestLayers | training/camp_swift_thermal.py:56-84 | the whole pairing is the greedy selection of the plain enumeration, in time order |
| RecordPairing.NeighbourCandidates | training/rxcadre_teacher.py:97-106 | the candidates are the in-range neighbours of each insertion point, each once |
| RecordPairing.PairRecords | training/rxcadre_teacher.py:94-116 | the pairs are what trying those candidates nearest first keeps, in time order |
| RecordPairing.NeighbourSelection | training/rxcadre_teacher.py:107-114 | what is kept is one-to-one, and every other neighbour pair lost to an earlier kept one |
| RecordPairing.NeighbourGreedyIsUnique | training/rxcadre_teacher.py:107-114 | no other choice among the neighbours is greedy |
| RecordPairing.NearestIsNeighbour | training/rxcadre_teacher.py:99-106 | whenever something is in range, a nearest record is a candidate |
| RecordPairing.CandidatesAreCompleteExactlyWhen | training/rxcadre_teacher.py:99-106 | every in-range pair is a candidate exactly when no left record has its second-previous or second-next right record in range |
| RecordPairing.CompleteCandidatesAreHalfOptimal | training/rxcadre_teacher.py:94-116 | then the choice is the greedy one among all in-range pairs, and no one-to-one pairing in range is more than twice as large |
| RecordPairing.SpacedRecordsAreEnough | training/rxcadre_teacher.py:99-106 | right records more than the limit apart are never reached past |
| RecordPairing.SimultaneousRecordsPairTwice | training/rxcadre_teacher.py:102-106 | left records of one time form at most two pairs |
| RecordPairing.ShortfallIsUnbounded | training/rxcadre_teacher.py:94-116 | of n simultaneous records a side all n can be paired within a limit of zero, but any greedy choice among neighbours keeps at most two |
| Thinning.SelectByInterval | training/rxcadre_teacher.py:49-60 | thinning fails exactly for a non-positive interval and otherwise scans the sorted observations |
| Thinning.ThinIsThinned | training/rxcadre_teacher.py:56-60 | the kept observations are spaced, and each input follows one by less than the interval |
| Thinning.FirstNamesAreKept | training/rxcadre_teacher.py:56-60 | each observation follows a kept one by less than the interval, and of one time the first name is kept |
| Thinning.ThinningIsOptimal | training/rxcadre_teacher.py:49-60 | no spaced choice of observations is larger |
| Thinning.KeptTimesIgnoreOrder | training/rxcadre_teacher.py:56-60 | the kept times do not depend on the order of the input |
| Boxes.IouRange | training/detector_benchmark.py:215-224 | the score lies between zero and one, is positive exactly for overlap and one exactly for equal boxes with area |
| Boxes.IouIsSharedPart | training/detector_benchmark.py:215-224 | the score of boxes that meet, times the area the two cover, is the area of the rectangle of points they share |
| Detections.Best | training/detector_benchmark.py:283-291 | the first best-overlapping free target of the class, or none if there is none |
| Detections.MatchImage | training/detector_benchmark.py:282-296 | the loop over flagged targets counts hits by class and misses as specified |
| Detections.AssignIsSound | training/detector_benchmark.py:282-296 | matches keep the class, meet the threshold and use each target once |
| Detections.NothingLeftToMatch | training/detector_benchmark.py:288-294 | no unmatched prediction and unmatched target of its class reach the threshold |
| Detections.AssignIsGreedy | training/detector_benchmark.py:282-296 | the matching is the one in which each prediction takes the best target left |
| Detections.AssignIsHalfOptimal | training/detector_benchmark.py:282-296 | any other matching within the classes and the threshold has at most twice as many hits |
| Detections.HitsWithinTargets | training/detector_benchmark.py:295-296 | no class is matched more often than it has targets |
| Detections.OperationalMetrics | training/detector_benchmark.py:241-296 | the loop over images computes the specified totals |
| Detections.DetectionsAreConserved | training/detector_benchmark.py:241-296 | hits and misses add up to the detections above threshold; negatives are counted consistently |
| Detections.RankedPrefix | training/detector_benchmark.py:259-276 | a stricter score threshold keeps a prefix of the ranking |
| Detections.StricterScoresFindLess | training/detector_benchmark.py:241-296 | raising the score threshold never adds a hit, a miss or a detection on a negative image |
| Detections.RecallIsFraction | training/detector_benchmark.py:298-306 | a recall exists exactly for classes with targets, is the hits over them, a fraction, and never rises with the threshold |
| DetectionTotals.RankingInScores | training/detector_benchmark.py:259-276 | the ranking holds the predictions that reach the threshold, each as often as given, the highest scores first |
| DetectionTotals.TotalsAreCounts | training/detector_benchmark.py:241-296 | the totals count targets, hits and misses over the images, images without targets, those with a detection and their detections |
| Grouping.BuildGroups | training/detector_benchmark.py:51-63 | the dictionary of lists holds each key's rows in order |
| RoundRobin.Interleave | training/detector_benchmark.py:77-90 | the nested loops take the first rows of the round-robin order, up to the limit |
| RoundRobin.EverythingIsAvailable | training/detector_benchmark.py:77-90 | the rounds take every row the groups hold |
| RoundRobin.SharesAreFair | training/detector_benchmark.py:79-90 | groups contribute the front of their order, cut after r or r + 1 rows for one r |
| RoundRobin.PlaceOfElement | training/detector_benchmark.py:77-90 | an element comes after what all groups give to earlier rounds and earlier groups to its own |
| Benchmark.FreezeSelection | training/detector_benchmark.py:43-131 | freezing groups, orders, interleaves and checks as specified, with the same errors |
| Benchmark.ValidateSelection | training/detector_benchmark.py:134-176 | resolving checks and looks entries up as specified, with the same errors |
| FrozenBenchmark.FreezeIsFair | training/detector_benchmark.py:66-90 | the frozen shares of any two groups differ by at most one round |
| FrozenBenchmark.SizeOfChoice | training/detector_benchmark.py:77-90 | as many records as the limit and the eligible ones allow; a larger limit only extends the list |
| FrozenBenchmark.FreezeIgnoresOrder | training/detector_benchmark.py:51-76 | with unique digests the selection does not depend on the order of the records |
| FrozenBenchmark.FreezeRevalidates | training/detector_benchmark.py:134-176 | a fresh freeze resolves to its own records exactly when its class ids are known and not empty and no digest is reused later |
| FrozenBenchmark.UniqueDigestsRevalidate | training/detector_benchmark.py:134-176 | with unique digests only the class ids matter |
| FrozenBenchmark.ValidationDetectsDrift | training/detector_benchmark.py:157-176 | what resolves against any manifests has the frozen digests, ids and annotations |
| FrozenBenchmark.EntriesMatchTheirGroup | training/detector_benchmark.py:52-131 | a frozen entry carries the split and the classes its record was grouped by |
| BenchmarkRecords.EntriesCopyHeldOutRecords | training/detector_benchmark.py:52-131 | frozen entries are of critical test images or training images held out for validation or testing, with their fields, their split or "critical_test", and their annotations of allowed classes in order |
| BenchmarkRecords.FirstDigestsAreChosen | training/detector_benchmark.py:66-76 | of records with one split and the same allowed classes, those with the first digests, then ids, are chosen |
| BenchmarkRecords.GroupsComeInOrder | training/detector_benchmark.py:67-67 | groups are dealt with by split, then by class list in lexicographic order |
| BenchmarkRecords.FreezesExactlyWhen | training/detector_benchmark.py:49-103 | a benchmark is frozen exactly when the limit is positive, a record is eligible, and the chosen ones show every allowed class and one of them nothing |
| BenchmarkRecords.ValidatesExactlyWhen | training/detector_benchmark.py:134-176 | a selection validates exactly when it is of schema 1, not empty, with known classes and the digest of its entries, and each entry is the last record with its digest, with the same id and annotations |
| PremiumSelection.SelectGroup | training/rfdetr_premium_ground.py:118-137 | the group loop with its seen-sets and early exit keeps what the greedy rule keeps |
| PremiumSelection.SelectRows | training/rfdetr_premium_ground.py:90-138 | the whole selection, failing exactly for a split without a cap |
| PremiumLaws.SignatureIsFaithful | training/rfdetr_premium_ground.py:40-48 | rows share a label signature exactly when they show the same of the two classes |
| PremiumLaws.SelectionIsDiverse | training/rfdetr_premium_ground.py:114-137 | images and fingerprints are unique, hashes in a group differ by more than three bits, groups respect their cap or hold one row |
| PremiumLaws.RejectionsAreExplained | training/rfdetr_premium_ground.py:99-137 | every eligible row is kept, or a kept, better-ranked row or a full group explains why not |
| PremiumLaws.CapsAreKept | training/rfdetr_premium_ground.py:136-137 | groups stay within the cap exactly when it is at least one, or it is zero and nothing is eligible |
| PremiumLaws.SelectionIsDistinct | training/rfdetr_premium_ground.py:99-137 | in fields: kept rows are eligible, no image or fingerprint twice, those of one source, sequence and label set more than three bits apart and within the cap, or one row |
| PremiumLaws.RejectionsHaveReasons | training/rfdetr_premium_ground.py:99-137 | in fields: an eligible row is kept, or a kept row considered before it, by source, sequence, labels, higher score and id, is the same image, or in its group near-identical or the group full |
| PremiumLaws.SelectionIgnoresOrder | training/rfdetr_premium_ground.py:99-138 | with unique sample ids the order of the rows does not matter |
| QualityMerge.MergeRows | training/dinov3_v4_campaign.py:137-162 | the two-dictionary loop absorbs rows as specified, with the same errors |
| QualityMerge.ChampionIsBest | training/dinov3_v4_campaign.py:152-159 | the row kept for an image is the earliest of its best copies |
| QualityMerge.BetterExactlyWhen | training/dinov3_v4_campaign.py:12-125 | a copy is better exactly when it is trusted more, a person's mask most and an unknown strength least, or as much and weighs more |
| QualityMerge.MergeKeepsBestCopies | training/dinov3_v4_campaign.py:137-162 | exactly the digest-less rows and one best copy per image survive; survivors and duplicates add up to the input |
| QualityMerge.AcceptedExactlyWhen | training/dinov3_v4_campaign.py:139-148 | the rows are absorbed exactly when each has an id no survivor of the rows before it bears, and readable assets |
| QualityMerge.FirstRefusalDecides | training/dinov3_v4_campaign.py:139-148 | otherwise the first row for which that fails decides the error |
| QualityMerge.CheckRows | training/dinov3_v4_campaign.py:165-178 | the checks pass exactly when every row is well formed and no group spans two splits |
| QualityMerge.MergeManifests | training/dinov3_v4_campaign.py:134-178 | the merge succeeds exactly when every row is accepted, the survivors are well formed and none of their groups spans splits; it returns the survivors in id order and loses no row unaccounted |
| MergeOrder.MergeIgnoresOrder | training/dinov3_v4_campaign.py:137-162 | two accepted orders of rows merge to the same rows when no image has two best copies |
| MergeOrder.EveryOrderAcceptedExactlyWhen | training/dinov3_v4_campaign.py:139-148 | all orders of the rows are accepted exactly when ids are present and unique and assets readable |
| MergeOrder.OrderIsIrrelevantExactlyWhen | training/dinov3_v4_campaign.py:137-162 | all orders are accepted and merge to the same rows exactly when, besides, no image has two best copies |
| MergeOrder.DisplacedIdIsFree | training/dinov3_v4_campaign.py:142-157 | a repeated id passes after a better copy of its first bearer's image, and is refused before it |
| MergeOrder.OrderCanDecide | training/dinov3_v4_campaign.py:142-157 | two orders of three rows without ties, one accepted and one refused for a duplicate id |
| Checkpoints.FirstBestIsFirstMinimum | training/dinov3_adapter.py:1002-1005 | the recorded best epoch is the first minimum of the losses so far |
| Checkpoints.StoppedExactlyWhen | training/dinov3_adapter.py:1002-1034 | patience is exhausted exactly when an epoch that many epochs back, or more, has not been improved on since |
| Checkpoints.StepKeeps | training/dinov3_adapter.py:920-1034 | every step, crash and resume keeps the checkpoint invariant |
| Checkpoints.CheckpointsAreSound | training/dinov3_adapter.py:1002-1032 | in every reachable state the last checkpoint records its epoch's first minimum and the best one is that epoch's, or the next epoch's mid-save |
| Checkpoints.FinishedRunIsComplete | training/dinov3_adapter.py:1033-1037 | a finished run holds the best checkpoint of the best epoch, and lacks one exactly for zero epochs |
| Checkpoints.InterruptedRunAgrees | training/dinov3_adapter.py:925-1034 | a finished run leaves the uninterrupted run's checkpoints exactly when no session restarted past its patience |
| Checkpoints.LateRestartTrainsOn | training/dinov3_adapter.py:1031-1034 | a run that crashes between the last save and the early stop and ends with another best epoch |
| TrainingSessions.RunEpoch | training/dinov3_adapter.py:959-1032 | the loop body keeps the files sound wherever it crashes, and completes an epoch otherwise |
| TrainingSessions.RunTraining | training/dinov3_adapter.py:917-1034 | a session leaves the disk its start and its crash point determine, never loses epochs, finishes given enough steps, and ends as an uninterrupted run exactly if none started late |
| TrainingSessions.RunSessions | training/dinov3_adapter.py:917-1034 | sessions run until one finishes, each from the disk the last one left; the end is that of an uninterrupted run exactly when none of those disks was past its patience |
| SamplingWeights.Regroup | training/dinov3_adapter.py:79-90 | summing a cell row by row is summing it source by source |
| SamplingWeights.CellMass | training/dinov3_adapter.py:77-90 | the rows of a role and origin together weigh the cell's target |
| SamplingWeights.RoleMass | training/dinov3_adapter.py:68-90 | the rows of a role together weigh its target |
| BalancedSampling.GroupRows | training/dinov3_adapter.py:60-64 | the dictionary holds exactly the positions of each key |
| BalancedSampling.FillCell | training/dinov3_adapter.py:77-90 | the loop over sources writes every row of a role and origin, and no finished one is disturbed |
| BalancedSampling.BalancedSamplingWeights | training/dinov3_adapter.py:38-92 | the call fails exactly when a check does or a role has no rows; otherwise the array hits the role, origin and source shares |
| SampledRows.RowsGetRoleShares | training/dinov3_adapter.py:68-97 | every row can be drawn, the probabilities sum to one, and the rows of each role, abstaining, of negative strength or other, weigh their target's share of the targets |
| SampledRows.RowsGetPyroShare | training/dinov3_adapter.py:62-92 | the rows of the distinguished source weigh the target-weighted mean of its part of each role: the share, or nothing or all where a role is of one origin |
| SampledRows.PyroRowsGetTheShare | training/dinov3_adapter.py:62-92 | if every role has rows of the distinguished source and of others, its rows weigh exactly the configured share |
| SampledRows.RowsShareByScore | training/dinov3_adapter.py:79-90 | within a role and origin, the rows of two sources weigh in proportion to the scores of their numbers, and those of one source are equally likely |
| SampledRows.EffectiveSizeOfRows | training/dinov3_adapter.py:110-110 | one over the sum of the squared probabilities is at most the number of rows |
| AudioAlignment.PrefixDifference | training/camp_swift_cross_view.py:125-129 | prefix-sum differences are direct window sums |
| AudioAlignment.VarianceIsEnergy | training/camp_swift_cross_view.py:128-130 | the prefix-sum variance is the window's centred energy, floored |
| AudioAlignment.CauchySchwarz | training/camp_swift_cross_view.py:124-131 | the squared inner product is at most the product of the energies |
| AudioAlignment.ScoresAreCorrelations | training/camp_swift_cross_view.py:131-131 | every score lies between minus one and one |
| AudioAlignment.ExactWindowScoresOne | training/camp_swift_cross_view.py:130-131 | a window equal to the query scores one exactly when the query's energy reaches the floor |
| AudioAlignment.ContainedQueryIsLocated | training/camp_swift_cross_view.py:111-133 | a contained query with enough energy is located at the first window scoring one, no later than where it is |
| AudioAlignment.ScoreInSums | training/camp_swift_cross_view.py:118-131 | a score times the roots of the window's energy, at least 1e-12, and of the query's is the sum of the window times the query less its mean |
| AudioAlignment.OffsetIsFirstBest | training/camp_swift_cross_view.py:131-133 | a search that succeeds gives the position of the first best window times the hop, and its score |
| AudioAlignment.SearchFailsExactlyWhen | training/camp_swift_cross_view.py:116-123 | the search fails exactly for a query that is too long, empty or flat |

## Left out

- Network, Hugging Face, file, image and audio access, JSON and Parquet encoding: their results are inputs.
- SHA-256, perceptual hashing, quality scores, epoch losses, projections and image decoding: given values or function parameters.
- DEFLATE and CRC-32 are parameters of the archive reader; member names are compared as bytes, not decoded text.
- Floating-point rounding: reals throughout, with the program's own epsilons kept; rounding to six digits in reports is dropped.
- ZipRoundTrip.EntriesInvertWriting: covers archives in which no later occurrence of a signature shadows the end record or a needed locator, which is what the search relies on.
- The remaining counters of the reconcilers' and ingest's reports (previous links, merged and largest components, rounded targets, near and cross-split duplicates seen while ingesting).
- A manifest line torn by a crash while it is written: an interruption falls between rows.
- The file checks, class counts and annotation checks of `validate_manifest`: local to one record.
- Checkpoints: an epoch is taken to be a function of the restored state and the seeded epoch number, with finite losses; `segformer_adapter` repeats the protocol and is not modelled again.
- TilePyramid: the zoom table and the base tile of four steps are fixed; tile contents, cropping and resampling are not modelled.
- Detections.MatchImage: target boxes are given by their corners; prediction and target entries are paired up beforehand.
- PremiumSelection.SelectRows: hashes are given as numbers, so a malformed hexadecimal string is outside the model.
- BalancedSampling.BalancedSamplingWeights: takes the target table after defaulting; the role and source counts of its report are dropped.
- Pairing.PairNearestLayers: timestamps are given, not parsed out of layer names.
- Thinning.SelectByInterval: capture times are whole seconds, the resolution they are read with.
- Schema exporters, model cards, argument parsing, pinned registries, fixed row counts and the sandbox filter: plumbing or settled by reading.

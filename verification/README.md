# Striem: verified core

This project models the parts of Striem whose implementation is much more complicated than what they promise, and
proves that they keep the promise. Striem loads event files into SQLite and answers KQL queries; the parts are

- the concurrent import pipeline with its discovery of embedded JSON (`Pipeline.dfy`, `Records.dfy`, `Discovery.dfy`,
  `Import.dfy`),
- Punycode (`Punycode.dfy`) and its agreement with RFC 3492, which is stated on its own (`Rfc3492.dfy`,
  `PunycodeText.dfy`),
- canonical set keys, set algebra and exact decimal numbers (`SetKeys.dfy`, `SetReader.dfy`, `SetAlgebra.dfy`,
  `Numbers.dfy`, `Conversion.dfy`, `DecimalText.dfy`),
- mergeable sketches: HyperLogLog and the t-digest (`Hll.dfy`, `Digest.dfy`),
- the full-text index across loads, failures and crashes (`FullText.dfy`),
- text searches and covers: Knuth-Morris-Pratt, CIDR cover, prioritised replacement, bag paths, clustering
  (`Kmp.dfy`, `IndexOf.dfy`, `Cidr.dfy`, `ReplaceStrings.dfy`, `Bags.dfy`, `Reduce.dfy`),
- the client limiter and the answer cooldown (`ClientLimit.dfy`, `Cooldown.dfy`, `Questions.dfy`).

Code that works by loops and updates is modelled by methods and classes that are proved against specification
functions; what the code promises is then proved of those functions, or of every run of a state machine. Work and
size budgets are kept where they decide about success. `dafny verify dfyconfig.toml` checks everything.

## What does not hold as documented

- `docs/KQL_IMPLEMENTATION.md` says that Punycode decoding inverts encoding. Two guards of the decoder break this, and
  `Punycode.DecodeInvertsEncodeIff` gives the exact condition on the input:
  - ASCII text of exactly 65536 bytes is encoded with one more byte, which the decoder refuses;
  - the encoder's overflow guard does not see the steps within a pass, so it accepts 1999 times the letter a followed by
    U+1062CD, whose integer the decoder refuses (`Punycode.EncodedButNotReadBack`).

  The decoder's other overflow guard, on the weights, never fires on encoder output. Nothing goes wrong up to 1927 code
  points (`Punycode.ShortRoundTrip`), and with 1928 an input exists that the encoder refuses.
- The escalating cooldown of `cooldownAfter` is the documented one if and only if no doubling below the cap leaves
  64 bits (`Cooldown.CooldownAfter`). The loader caps it at one hour, where none does.

## Limits worth knowing

Nothing promises these, but a reader may expect them.

- HyperLogLog sketches of different precision may be merged while both are sparse. Across precisions two groupings of
  three sketches agree exactly when both or neither of them meet the condition of `Hll.GroupingAgreesIff`.
- An import does not touch the full-text index. Into a store that has one, it keeps the index in agreement if and only if
  the new events take over the row ids and texts of those they replace (`FullText.ImportAgreesIff`). Only loads import,
  and they drop the index first.

## Model

| member | source | states |
|---|---|---|
| `IngestPipeline.ImportFails` | internal/ingest/ingest.go:260-284 | the sequential reference ends at the lowest-index failing record, with that record's error |
| `IngestPipeline.ImportCompletes` | internal/ingest/ingest.go:365-383 | without a failing record the reference commits every row in index order, or reports the decoding error, or that there are no events |
| `IngestPipeline.StepKeepsInv` | internal/ingest/ingest.go:203-363 | every channel operation, computation and decoder step keeps the pipeline invariant: each record is in exactly one place, results are those of the reference, rows are written in order without gap or duplicate |
| `IngestPipeline.RunKeepsInv` | internal/ingest/ingest.go:203-363 | the invariant holds after every schedule of such actions, of any length |
| `IngestPipeline.EveryScheduleIsSequential` | internal/ingest/ingest.go:203-383 | whatever the interleaving of workers, deliveries and decoder steps, a finished pipeline has the outcome of the sequential loop: the same rows, or the error of the lowest-index failing record |
| `IngestPipeline.NoDeadlock` | internal/ingest/ingest.go:277-363 | while the pipeline is not finished some action is enabled; the lemma returns one |
| `IngestPipeline.BackPressureWaitsForAPendingRecord` | internal/ingest/ingest.go:300-314 | whenever the back-pressure loop waits, record nextRecord itself is in flight, so the wait ends |
| `IngestPipeline.TreeChangesOnlyWhenQuiet` | internal/ingest/ingest.go:324-333 | the path tree that workers read changes only while no job or result is under way and pendingJobs is 0 |
| `IngestPipeline.ReorderBound` | internal/ingest/ingest.go:296-314 | at most three records per worker are in flight or buffered at once |
| `IngestPipeline.StepLowersRank` | internal/ingest/ingest.go:203-363 | every action lowers a measure, so that no schedule goes on for ever |
| `IngestPipeline.EveryScheduleFinishes` | internal/ingest/ingest.go:203-383 | a schedule takes at most 20 actions a record and two more, and one that cannot be continued has finished with the outcome of the sequential loop |
| `IngestPipeline.NothingAfterFailure` | internal/ingest/ingest.go:300-322 | over every schedule: once a failing result has been received, no further record is read, handed out or discovered |
| `IngestPipeline.EventWriter.WriteEvent` | internal/ingest/ingest.go:191-201 | appends one row to what is inserted and pending together, inserting a full batch |
| `IngestPipeline.EventWriter.AcceptResult` | internal/ingest/ingest.go:260-276 | the reorder buffer as a loop over a map: refines the abstract writer of the state machine |
| `IngestPipeline.EventWriter.FlushEvents` | internal/ingest/ingest.go:173-190 | after the last flush every row is inserted and none is pending |
| `EmbeddedDiscovery.NormalizeExpandsIffCovered` | internal/ingest/ingest.go:745-779 | normalising with a tree equals decoding every embedded string at every position exactly when the tree covers the record |
| `EmbeddedDiscovery.UnchangedIsSame` | internal/ingest/ingest.go:745-779 | where normalisation reports no change there is none |
| `EmbeddedDiscovery.DiscoverVisits` | internal/ingest/ingest.go:578-699 | discovery only adds to the tree, the new tree covers the record (below the depth cut-off), and it reports exactly whether something was embedded |
| `EmbeddedDiscovery.DiscoverMarks` | internal/ingest/ingest.go:578-699 | afterwards a position is marked exactly if it was, or if a string with embedded JSON stands there in the record |
| `EmbeddedDiscovery.DiscoverKeepsLean` | internal/ingest/ingest.go:593-635 | discovery adds no node that does not lead to a mark |
| `EmbeddedDiscovery.MarksDecideTree` | internal/ingest/ingest.go:418-426 | two such trees with the same marks are the same tree |
| `EmbeddedDiscovery.NormalizeIsDecodedWhere` | internal/ingest/ingest.go:745-779 | normalising with a tree decodes the strings at marked positions, those inside decoded strings included, and leaves everything else as it is |
| `EmbeddedDiscovery.CoversGrows` | internal/ingest/ingest.go:578-699 | a record covered by a tree is covered by every larger tree |
| `EmbeddedDiscovery.DiscoveredRecordIsExpanded` | internal/ingest/ingest.go:502-559 | a fully discovered record is stored with every embedded string decoded |
| `EmbeddedDiscovery.KnownRecordIsExpandedIffCovered` | internal/ingest/ingest.go:502-559 | a record that skips discovery is stored fully decoded if and only if the tree covers it |
| `EmbeddedDiscovery.KnownIsDecodedWhere` | internal/ingest/ingest.go:516-532 | a record that skips discovery is stored with exactly its strings at marked positions decoded, whether or not the tree covers it |
| `EmbeddedDiscovery.FinalTreeCovers` | internal/ingest/ingest.go:578-699 | after a list of records the tree contains the first tree and covers each of them |
| `EmbeddedDiscovery.DiscoveriesLast` | internal/ingest/ingest.go:578-699 | the final tree still decodes every record discovered on the way: nothing is lost later |
| `EmbeddedDiscovery.FingerprintOfSet` | internal/ingest/ingest.go:469-483 | the fingerprint of the top-level keys depends on their set, not on their order |
| `EmbeddedDiscovery.KeySets.Observe` | internal/ingest/ingest.go:469-500 | answers true exactly for a list of keys that is known: an earlier list with the same fingerprint has all of them; repeated names included |
| `EmbeddedDiscovery.KnownIsSameSet` | internal/ingest/ingest.go:469-500 | without repeated names, a list is known exactly if an earlier one has the same set of keys, whatever collisions the hash has |
| `EventImport.StoredIsExpandedIff` | internal/ingest/ingest.go:502-559 | end to end, for every schedule of the pipeline: the row of a record is stored with every embedded string decoded if and only if the record was discovered in full or the tree of the records before it covers it |
| `EventImport.StoredIsDecodedWhere` | internal/ingest/ingest.go:502-559 | for every schedule: the row of a record that skips discovery holds the record with exactly its strings at marked positions decoded |
| `EventImport.TreeMarks` | internal/ingest/ingest.go:578-699 | the tree that a record is prepared with marks exactly the positions of embedded strings in the records discovered before it |
| `EventImport.TreeIsItsMarks` | internal/ingest/ingest.go:578-699 | and it is the only lean tree with these marks, so that the order of records and members does not matter to it |
| `EventImport.StoredTimeAndSource` | internal/ingest/ingest.go:537-559 | the time and source of a row are those that the mapping gives for the very value that is stored |
| `EventImport.ImportedIsObject` | internal/ingest/ingest.go:455-467 | every imported record is a JSON object of at most 4194304 bytes |
| `EventImport.ErrorIs` | internal/ingest/ingest.go:455-559 | the error of a record: too large, then not an object, then without time or source in its stored form, each under its number; else none |
| `EventImport.FirstErrorIsReported` | internal/ingest/ingest.go:203-363 | whatever the schedule, a finished import reports the error of the first record that has one |
| `EventImport.DiscoveredIffNewKeys` | internal/ingest/ingest.go:324-333 | without repeated names, exactly the first 5000 records are discovered in full and those whose top-level member names are not the same as those of any record before them |
| `EventImport.EarlierIsCovered` | internal/ingest/ingest.go:578-699 | the tree that a record is prepared with covers every record before it that was discovered |
| `EventImport.CommittedRows` | internal/ingest/ingest.go:365-383 | an import that commits has one row for every record, each prepared after the records before it |
| `Punycode.DecodeInvertsEncodeIff` | internal/database/kql_punycode.go:55-174 | for every input the encoder accepts, decoding gives the input back if and only if the text is at most 65536 bytes and every code point is in reach of the smaller one before it, a condition on the input; otherwise it refuses, and never gives anything else |
| `Punycode.EncodeFits` | internal/database/kql_punycode.go:71-107 | the decoder's first overflow guard stays silent along the encoder exactly if every code point still to be written is in reach, and then the encoder's guard does as well |
| `Punycode.FittingIsEncoded` | internal/database/kql_punycode.go:55-108 | an input of valid length whose code points are all in reach is accepted by the encoder |
| `Punycode.WeightGuardNeverFires` | internal/database/kql_punycode.go:153-156 | the decoder's guard on weights never fires on an integer that passes the other guard, under any bias up to 213 |
| `Punycode.AdaptBounded` | internal/database/kql_punycode.go:23-36 | no bias exceeds 213 while the integers fit in 31 bits |
| `Punycode.OneRuneReadsBackIff` | internal/database/kql_punycode.go:79-111 | ASCII text and one code point behind it: read back exactly if the turns and the steps within the pass fit together, where the encoder's guard sees the turns alone |
| `Punycode.EncodedButNotReadBack` | internal/database/kql_punycode.go:79-145 | an input that is encoded and then refused by the decoder: 1999 letters and U+1062CD |
| `Punycode.AsciiRoundTripIff` | internal/database/kql_punycode.go:55-174 | the documented inversion fails at the length limit: ASCII text is encoded with one byte more, and reads back if and only if it is shorter than 65536 bytes |
| `Punycode.ShortRoundTrip` | internal/database/kql_punycode.go:55-174 | every valid input of up to 1927 code points is encoded and read back: no guard of either side fires |
| `Punycode.ShortIsSharp` | internal/database/kql_punycode.go:79-81 | with 1928 code points there is an input that the encoder refuses |
| `Punycode.DigitsReadBack` | internal/database/kql_punycode.go:89-98 | the variable-length integers: under equal thresholds reading gives back what was written, unless one of the two overflow guards fires |
| `Punycode.ScanDecodes` | internal/database/kql_punycode.go:84-103 | one pass of the encoder in lockstep with the decoder's insertions |
| `Punycode.EncodeDecodes` | internal/database/kql_punycode.go:71-107 | all passes in lockstep: the decoder ends with the whole input or refuses |
| `Punycode.PunycodeAdapt` | internal/database/kql_punycode.go:23-36 | the loop computes the adaptation function, which `PunycodeText.AdaptIs` shows to be that of section 6.1 of RFC 3492 |
| `Punycode.PunycodeEncode` | internal/database/kql_punycode.go:55-108 | the nested loops compute the specification function Encode, whose texts `PunycodeText.OnlyText` determines |
| `Punycode.PunycodeDecode` | internal/database/kql_punycode.go:110-174 | the nested loops compute the specification function Decode, which `PunycodeText.DecodesIff` determines |
| `Punycode.ReadIntegers` | internal/database/kql_punycode.go:126-173 | the decoder's main loop with its guards |
| `Punycode.WriteIntegers` | internal/database/kql_punycode.go:71-107 | the encoder's outer loop with its overflow guard |
| `Rfc3492.DeltasUnique` | internal/database/kql_punycode.go:71-107 | under section 6.2 of RFC 3492 a string is inserted by one sequence of integers only |
| `Rfc3492.OneText` | internal/database/kql_punycode.go:55-108 | under RFC 3492 a string has at most one text in canonical form |
| `PunycodeText.AdaptIs` | internal/database/kql_punycode.go:23-36 | the bias adaptation is that of section 6.1 with its numbers: 700 for the first integer and 2 later, divisions by 35 above 455, 36 d / (d + 38) |
| `PunycodeText.ThresholdIs` | internal/database/kql_punycode.go:45-53 | thresholds between 1 and 26 as in section 5 |
| `PunycodeText.EncodedTextDenotes` | internal/database/kql_punycode.go:55-108 | the text of the encoder denotes its input under RFC 3492 and is in canonical form |
| `PunycodeText.OnlyText` | internal/database/kql_punycode.go:55-108 | whenever the encoder accepts, its text is the one canonical text that denotes the input under RFC 3492 |
| `PunycodeText.DecodesIff` | internal/database/kql_punycode.go:110-174 | the decoder returns s exactly for ASCII texts of at most 65536 bytes that denote s under RFC 3492 with integers in 31 bits, valid code points and at most 65536 of them |
| `PunycodeText.DecodedTextDenotes` | internal/database/kql_punycode.go:110-174 | whatever the decoder returns, its input denotes it under RFC 3492 |
| `PunycodeText.EncodeInvertsDecode` | internal/database/kql_punycode.go:55-174 | the other round trip: what is decoded from a canonical text is encoded into that text, if at all |
| `PunycodeText.EncodesTwoRunes` | internal/database/kql_punycode.go:55-174 | U+65E5 U+672C is encoded as wgv71a, and decoded from it |
| `SetKeys.KeysDecideEquality` | internal/database/kql_sets.go:76-182 | two values that have keys have the same key if and only if they are equal as JSON values: member order ignored, numbers as exact decimals |
| `SetKeys.HasKeyIff` | internal/database/kql_sets.go:76-182 | a value has a key if and only if it is nested at most 64 levels deep, no object in it repeats a name, and its numbers have normal forms |
| `SetKeys.FramesInjective` | internal/database/kql_sets.go:65-74 | a list of length-framed keys can be read off its text in one way only |
| `SetKeys.NumbersDecide` | internal/database/kql_sets.go:104-113 | number keys are equal if and only if the numbers are equal as exact decimals |
| `SetKeys.ObjectTextDecides` | internal/database/kql_sets.go:133-173 | an object's text with sorted names determines the set of its entries, and nothing else |
| `SetReader.ReadSetKey` | internal/database/kql_sets.go:76-182 | the recursive reader returns the canonical key when it succeeds; an error means that the value costs more work or nodes than there were, that its key is longer than may be stored, or that it has none |
| `SetReader.SetValueKey` | internal/database/kql_sets.go:15-63 | the scalar fast path and the recursive reader give the same key, and fail for the same reasons |
| `SetReader.FrameSetKey` | internal/database/kql_sets.go:65-74 | appends exactly one frame, and fails exactly when the limit would be reached |
| `SetAlgebra.DynamicSet.Add` | internal/database/kql_sets.go:190-205 | the first element of each class enters at the end; a failure changes nothing and is due to a limit |
| `SetAlgebra.ReadDynamicSet` | internal/database/kql_sets.go:264-286 | the set read from an array lists the first element of each equality class, in order |
| `SetAlgebra.KqlSetOperation` | internal/database/kql_sets.go:207-262 | the resulting text lists the set operation on the arguments, null comes only from an argument that is not an array, and within the limits on work and length there is no error |
| `SetAlgebra.FoldIsTheSetOperation` | internal/database/kql_sets.go:228-249 | a class is in the result if and only if it is in some, in all, or in the first and in no other argument |
| `SetAlgebra.FoldListsOnce` | internal/database/kql_sets.go:190-262 | no two elements of a result are equal |
| `SetAlgebra.FirstsInOrder` | internal/database/kql_sets.go:190-205 | what is listed are the elements at the ascending places where a class occurs for the first time |
| `SetAlgebra.SelectInOrder` | internal/database/kql_sets.go:228-249 | intersection and difference list the elements of the first argument at ascending places: exactly those of a class that the other has, or has not |
| `SetAlgebra.JoinedOne` | internal/database/kql_sets.go:251-262 | the text of one element is its compact text, and of none nothing |
| `SetAlgebra.JoinedConcat` | internal/database/kql_sets.go:251-262 | the text of two lists is the one text, a comma, and the other: elements in order and a comma between any two |
| `SetAlgebra.KqlSetEquals` | internal/database/kql_sets.go:288-307 | true if and only if each array's elements are among the other's; within the limits there is no error |
| `SetAlgebra.KqlJaccardIndex` | internal/database/kql_sets.go:309-331 | the number of classes in both over the number of classes in either; within the limits only two empty arrays are refused |
| `Numbers.NormalFormKeepsValue` | internal/database/sqlite_functions.go:1054-1097 | the normal form is canonical and has the number's exact value |
| `Numbers.NormalFormDecides` | internal/database/sqlite_functions.go:1044-1097 | normal forms are the same if and only if the numbers are equal as exact decimals |
| `Numbers.CanonicalDecides` | internal/database/sqlite_functions.go:1044-1052 | two canonical numbers have one value if and only if they are identical |
| `Numbers.NormalizeNumber` | internal/database/sqlite_functions.go:1054-1097 | the code computes the normal form, and fails exactly where a 64-bit step would overflow |
| `Hll.SketchIsFunctionOfHashes` | internal/database/kql_sketches.go:459-582 | whatever was added, merged, encoded and decoded in whatever order: the sketch depends on the set of hashes alone, sparse up to 4096 of them and else with the largest rank per register |
| `Hll.RegisterIsMaximum` | internal/database/kql_sketches.go:469-474 | a register is the maximum rank of the hashes that fall into it, 0 without any |
| `Hll.RegisterIsMaximumOfDigits` | internal/database/kql_sketches.go:469-474 | the same in binary digits: register i is the maximum over the hashes whose first p digits spell i of the place of the first one among the other digits |
| `Hll.IndexSpells` | internal/database/kql_sketches.go:469-469 | a hash falls into register i if and only if its first p binary digits spell i |
| `Hll.IndexOfHighBit` | internal/database/kql_sketches.go:469-469 | 2^63 falls into register 2048 of 4096 |
| `Hll.SparseUpTo4096` | internal/database/kql_sketches.go:461-484 | a sketch is a sparse one exactly up to 4096 hashes |
| `Hll.MergeIsUnion` | internal/database/kql_sketches.go:505-528 | merging the sketches of two sets is the sketch of their union |
| `Hll.MergeRefused` | internal/database/kql_sketches.go:505-512 | a merge is refused if and only if the precisions differ and one of the two is dense |
| `Hll.MergeCommutes` | internal/database/kql_sketches.go:505-528 | merging is commutative, for all sketches |
| `Hll.MergeAssociates` | internal/database/kql_sketches.go:505-528 | merging is associative among sketches of one precision |
| `Hll.GroupingAgreesIff` | internal/database/kql_sketches.go:505-528 | for any three sketches that can be built, of any precisions, both groupings give the same sketch or refusal if and only if both or neither find their sketches mergeable, which precisions and numbers of hashes decide |
| `Hll.MergeIsIdempotent` | internal/database/kql_sketches.go:505-528 | merging a sketch with itself changes nothing |
| `Hll.MixedGroupingMatters` | internal/database/kql_sketches.go:505-512 | across precisions merging is not associative: sketches built by adds of which one grouping is merged and the other refused |
| `Hll.IndexInRange` | internal/database/kql_sketches.go:469-471 | every hash falls into one of the 2^p registers; which one, `Hll.IndexSpells` says |
| `Hll.RhoRange` | internal/database/kql_sketches.go:470-471 | a rank is between 1 and 65 - p, so it fits its byte and differs from an untouched register |
| `Hll.RhoFindsFirstOne` | internal/database/kql_sketches.go:470-471 | the rank is at most k exactly when one of the first k binary digits of the hash after the index is a one |
| `Hll.RoundTrip` | internal/database/kql_sketches.go:530-582 | decoding an encoding gives back the sketch |
| `Hll.HllSketch.AddHash` | internal/database/kql_sketches.go:461-475 | adds one hash to a sparse or dense sketch, densifying beyond 4096 |
| `Hll.HllSketch.Densify` | internal/database/kql_sketches.go:477-484 | whatever the order of the map, the registers are those of the set of hashes |
| `Hll.HllSketch.Merge` | internal/database/kql_sketches.go:505-528 | computes the merge in place, or changes nothing and returns false |
| `Hll.Encode` | internal/database/kql_sketches.go:530-547 | writes an encoding of the sketch, with the hashes sorted |
| `Hll.Decode` | internal/database/kql_sketches.go:549-582 | accepts exactly the well-formed encodings and yields the sketch they encode |
| `TDigest.JoinConserves` | internal/database/kql_sketches.go:108-113 | a point joined to a centroid conserves weight and weighted mean, and the new mean lies between the two |
| `TDigest.MergeSorted` | internal/database/kql_sketches.go:103-118 | the compression loop conserves total weight and moment, keeps centroids ascending and within the points, obeys the scale limit, and opens a centroid only where the limit demands it |
| `TDigest.CentroidsStayLight` | internal/database/kql_sketches.go:108-113 | a centroid of several points weighs at most a 200th of everything, or 1 |
| `TDigest.Digest.Compress` | internal/database/kql_sketches.go:93-119 | every point goes into the compressed centroids of a sorted permutation |
| `TDigest.Digest.Add` | internal/database/kql_sketches.go:69-89 | one more value: the digest's count, moment, extremes and sorted centroids stay those of everything taken in; a weight that is not positive changes nothing |
| `TDigest.Digest.Merge` | internal/database/kql_sketches.go:121-147 | the digest afterwards sums up what both had taken in, and takes over the kind if it had none |
| `TDigest.MergeStep` | internal/database/kql_sketches.go:332-338 | what decoding gives is merged, and what cannot be decoded is passed over: the digest then sums up the values behind the text as well |
| `TDigest.Aggregate` | internal/database/kql_sketches.go:280-307 | the text that the aggregate tdigest returns stands for the values of positive weight |
| `TDigest.Make` | internal/database/kql_sketches.go:332-354 | any nesting of aggregating, encoding, decoding and merging yields a text that sums up all values below it: their weight, moment and extremes, and up to 4096 of them exactly |
| `TDigest.KqlPercentileTDigest` | internal/database/kql_sketches.go:356-367 | the percentile of such a text: of the values themselves up to 4096 of them, the value below which less than p percent of the weight lies and up to which at least p percent does; at 0 and 100 the least and greatest always |
| `TDigest.Digest.Percentile` | internal/database/kql_sketches.go:162-181 | the minimum for 0, the maximum for 100, in between a mean below which less than p percent of the weight lies and up to which at least p percent does, each up to a slack of 1e-7 percent |
| `TDigest.NearestRank` | internal/database/kql_sketches.go:162-181 | for values of weight 1 that is the k-th smallest, where k is the least number that is p percent of them up to the slack |
| `TDigest.ReachedIsPercentile` | internal/database/kql_sketches.go:169-177 | stopping where the running sum reaches p / 100 of the count, up to the slack, finds this value |
| `TDigest.FirstReached` | internal/database/kql_sketches.go:170-177 | the first point at which the running sum reaches the target is that least mean |
| `TDigest.ReachesOnce` | internal/database/kql_sketches.go:162-181 | there is only one such mean |
| `TDigest.Digest.Rank` | internal/database/kql_sketches.go:184-192 | the weight of the points up to the value |
| `TDigest.ExactWhileFew` | internal/database/kql_sketches.go:23-29 | nothing is compressed exactly while there are at most 4096 values, and percentiles are then those of the values themselves |
| `TDigest.Digest.Encode` | internal/database/kql_sketches.go:203-219 | nothing for an empty digest, otherwise all fields and the points sorted; of a digest with a kind, an encoding that sums up what the digest has taken in |
| `TDigest.Digest.Decode` | internal/database/kql_sketches.go:221-243 | accepts exactly encodings with a kind, a positive count and positive weights, restores fields and points, and turns an encoding that sums up some values into a consistent digest with these values |
| `TDigest.ConsistentPermuted` | internal/database/kql_sketches.go:203-243 | an encoding sums up values whatever their order |
| `TDigest.AnswersSurvive` | internal/database/kql_sketches.go:203-243 | ranks and percentiles depend on the points and not on their order, so they survive encoding and decoding |
| `FullText.UnchangedStorage` | internal/deployment/loader.go:166-172 | as many datasets as configured and each configured one among them: then no other dataset is there, even if names may repeat, and the deletion at the end deletes nothing |
| `FullText.Store.StorageChanged` | internal/deployment/loader.go:166-172 | computes storageChanged |
| `FullText.Store.LoadUnchanged` | internal/deployment/loader.go:196-246 | when storage has not changed the rest of the load changes no dataset and no event |
| `FullText.Store.LoadChanged` | internal/deployment/loader.go:174-239 | index dropped first, datasets imported and removed, index rebuilt; unchanged datasets keep their events, the others have those of their files, and no events belong to other datasets; on any failure the deferred repair |
| `FullText.Store.Load` | internal/deployment/loader.go:155-246 | at every transaction boundary, failures included, an index that exists agrees with the events; on success exactly the configured names are present, an unchanged dataset with exactly the events it had and another with exactly the texts of its file, no event belongs to anything else, and the indexes are as configured; it fails only if something outside does, or the manifest is empty or repeats a name, or an input holds no events |
| `FullText.Store.ImportChanged` | internal/deployment/loader.go:196-227 | imports what is missing or differs with the events of its file, and nothing when all datasets match |
| `FullText.Store.Restore` | internal/deployment/loader.go:179-190 | the repair itself may fail and still leaves agreement; if nothing outside fails it restores all indexes |
| `FullText.Store.Crash` | internal/deployment/loader.go:155-246 | another process may find any committed state, and starts without an index in use |
| `FullText.Run` | internal/deployment/loader.go:155-246 | over any sequence of loads, failures and crashes: an index in use has exactly one row for each event |
| `FullText.EnabledMeansAgreement` | internal/database/database.go:416-420 | FullTextIndexEnabled implies that index and events correspond one to one |
| `FullText.ImportAgreesIff` | internal/ingest/ingest.go:135-145 | an import, which does not touch the index, keeps it in agreement if and only if there is none or the new events have the row ids and texts of those they replace |
| `FullText.OtherNumberGoesStale` | internal/ingest/ingest.go:135-145 | an import of another number of events than it replaces always leaves an existing index stale |
| `FullText.DirectImportGoesStale` | internal/ingest/ingest.go:102-145 | the smallest case of an import that leaves the index stale |
| `FullText.Store.ConfigureEventStorage` | internal/database/database.go:366-397 | sets the configuration and forgets readiness and dirtiness, or changes nothing |
| `FullText.Store.MarkFullTextIndexDirty` | internal/database/database.go:422-429 | a configured index is no longer ready and is to be rebuilt |
| `FullText.Store.DropFullTextIndex` | internal/database/database.go:437-445 | the index is gone and not ready, or nothing has changed |
| `FullText.Store.SyncFullTextIndex` | internal/database/database.go:447-502 | on success the index is exactly that of the events when configured, and absent otherwise |
| `FullText.Store.CreateEventIndexes` | internal/database/database.go:305-354 | the ordinary indexes are there, and reconciliation leaves exactly one expression index for every configured path; a failure may leave some ordinary ones |
| `FullText.Store.DropEventIndexes` | internal/database/database.go:283-303 | the listed ordinary indexes and all expression indexes are gone, or some of them after a failure, and nothing else has changed |
| `FullText.Store.Import` | internal/ingest/ingest.go:102-152 | in one transaction the dataset takes the place of all of its name, with exactly the texts of its file as its events, and every other dataset keeps its own; otherwise nothing changes; never touches the index |
| `FullText.Store.DeleteDatasetsExcept` | internal/database/database.go:613-628 | keeps exactly the datasets with the names and exactly the events of these; refuses an empty list |
| `FullText.CascadeIs` | internal/database/database.go:121-132 | when datasets go, exactly the events of the datasets that stay are kept, unchanged |
| `FullText.ImportReplaces` | internal/ingest/ingest.go:127-152 | the new dataset has one row for each text of its file, and no other row |
| `Kmp.FailureTable` | internal/database/kql_indexof.go:70-79 | the table holds the longest proper borders, at most one fallback per byte |
| `Kmp.Advance` | internal/database/kql_indexof.go:90-95 | one step of the scan: the longest extension, fallbacks paid for by the matched length |
| `Kmp.FallBack` | internal/database/kql_indexof.go:71-78 | falling back along the table skips no candidate |
| `CountOf.CountOfNormal` | internal/database/kql_countof.go:22-53 | the number of positions where the search string occurs, overlaps included, with a linear number of fallbacks |
| `CountOf.EndingByCounts` | internal/database/kql_countof.go:40-52 | counting ends of matches counts the positions |
| `Utf8.ByteMatchIsOccurrence` | internal/database/kql_indexof.go:53-113 | on valid UTF-8 a byte match is a character match at character boundaries |
| `IndexOf.MatchAtByte` | internal/database/kql_indexof.go:83-101 | a match ends at a byte exactly when it ends with the character complete there |
| `IndexOf.NthFollowsChain` | internal/database/kql_indexof.go:96-110 | the n-th match is the end of a chain in which each window restarts one past the match before |
| `IndexOf.EmptyMatch` | internal/database/kql_indexof.go:47-52 | the empty string matches at every character position |
| `IndexOf.Scan` | internal/database/kql_indexof.go:80-113 | the byte loop over the window finds the n-th match by character position |
| `IndexOf.KqlIndexOf` | internal/database/kql_indexof.go:8-114 | equals the naive definition for every start, length and occurrence |
| `IndexOf.IndexOfCounts` | internal/database/kql_indexof.go:30-113 | in text positions: the start counts from the end when negative, each window has the given length from its start, every match is the first in its window, and the answer is the last of as many as asked for, or -1 when fewer exist |
| `CidrCover.CoverTiles` | internal/database/kql_ipv4.go:176-190 | the blocks are aligned and lie side by side from the first address to the last |
| `CidrCover.TilesCoverOnce` | internal/database/kql_ipv4.go:176-190 | every address of the range is in exactly one block, and no other address is in any |
| `CidrCover.CoverIsShortest` | internal/database/kql_ipv4.go:176-190 | no list of aligned blocks with the same union is shorter, however ordered or overlapping |
| `CidrCover.SizesAtMostTwice` | internal/database/kql_ipv4.go:176-190 | no three blocks have the same size |
| `CidrCover.GreedyStep` | internal/database/kql_ipv4.go:178-187 | a greedy block contains every aligned block of the range that it meets |
| `CidrCover.RangeToCidrList` | internal/database/kql_ipv4.go:160-193 | the loop computes the cover, the full address range included |
| `Conversion.DecimalInteger` | internal/database/kql_conversion.go:40-90 | the value truncated toward zero, and none exactly when that is outside signed 64 bits |
| `Conversion.ClampIsExact` | internal/database/kql_conversion.go:48-59 | clamping the exponent to the length plus 20 never changes the answer |
| `Conversion.KqlToInteger` | internal/database/kql_conversion.go:12-36 | on text: the truncated value, and none exactly when it does not fit the width |
| `ReplaceStrings.KqlReplaceStrings` | internal/database/kql_replacements.go:62-163 | the output is the recursive priority replacement; the limits on text and result apply to exactly their lengths, unequal lists are refused, and the work limit stops nothing while the text has at most 65536 bytes and the number of rules times twice its length and one is at most 2^26 |
| `ReplaceStrings.ApplyRule` | internal/database/kql_replacements.go:104-140 | parts remain a tiling, locked parts are carried over, and no lookup applied so far occurs in an open part |
| `ReplaceStrings.SplitPart` | internal/database/kql_replacements.go:117-138 | one open part is split at its matches, left to right |
| `ReplaceStrings.Measure` | internal/database/kql_replacements.go:142-152 | the precomputed size is the length of the output |
| `ReplaceStrings.WriteParts` | internal/database/kql_replacements.go:153-162 | writes the output, of exactly the measured length |
| `ReplaceStrings.RewritesAreFinal` | internal/database/kql_replacements.go:81-162 | for any text and any rules: one rule and others after it give the text split by its lookup, the others applied to each gap by itself, joined by its rewrite |
| `ReplaceStrings.SplitIs` | internal/database/kql_replacements.go:118-139 | the gaps joined by the lookup are the text again, and the lookup occurs in none of them |
| `ReplaceStrings.LookupBecomesRewrite` | internal/database/kql_replacements.go:12-14 | a lookup alone becomes its rewrite, whatever rules follow |
| `Bags.KqlBagRemoveKeys` | internal/database/kql_bag_operations.go:84-153 | removing through the merged tree equals removing the paths one after the other; while bag, result and paths keep within the limits it does not fail |
| `Bags.OrderDoesNotMatter` | internal/database/kql_bag_operations.go:84-201 | removing paths in any order, with any repetition, gives the same bag |
| `Bags.RemoveThenHasNot` | internal/database/kql_bag_operations.go:84-201 | afterwards something is at a path exactly when it was and no removed path leads to it or above it |
| `Bags.InsertPath` | internal/database/kql_bag_operations.go:127-147 | the tree marks one more path, or already covers it |
| `Bags.BuildRemovals` | internal/database/kql_bag_operations.go:108-147 | the marks of the tree cover exactly the given paths |
| `Bags.RemoveBagProperties` | internal/database/kql_bag_operations.go:155-201 | prunes what the tree marks, in any order of the map; unchanged when it reports no change |
| `Bags.PruneIsRemoveEach` | internal/database/kql_bag_operations.go:148-201 | pruning at once equals removing in turn |
| `Bags.SetBagProperty` | internal/database/kql_bag_operations.go:238-273 | sets the value at the path, making objects on the way |
| `Bags.KqlBagSetKey` | internal/database/kql_bag_operations.go:203-236 | the result is the bag with the value put, refusal means that something other than an object is in the way, and while the objects on the way keep within the limits there is no other error |
| `Bags.SetThenHas` | internal/database/kql_bag_operations.go:203-273 | after setting the value is there, objects are above it, and unrelated paths are unchanged |
| `Bags.PutRefused` | internal/database/kql_bag_operations.go:238-255 | refused exactly when something other than an object stands above the path |
| `Bags.LaterSettingCounts` | internal/database/kql_bag_operations.go:238-273 | of two settings of one path the later one counts |
| `Bags.KqlBagHasKey` | internal/database/sqlite_functions.go:815-854 | true exactly when something stands at the path |
| `Reduce.ReduceAggregate.Step` | internal/database/kql_reduce.go:39-68 | counts one more value, each distinct value once in the order of arrival; only the first call sets threshold and separators |
| `Reduce.ReduceAggregate.Separator` | internal/database/kql_reduce.go:70-77 | a character separates if it is in the given list, and without a list if it is neither letter nor digit |
| `Reduce.SupportOf` | internal/database/kql_reduce.go:137-137 | the support is the threshold times the number of values |
| `Reduce.Split` | internal/database/kql_reduce.go:79-105 | terms and separators interleave to the text, terms hold no separators and separators nothing else |
| `Reduce.BuildEntries` | internal/database/kql_reduce.go:114-136 | the table says of each position and term how many values have it there; more than 256 terms count as one |
| `Reduce.PatternOf` | internal/database/kql_reduce.go:138-161 | the pattern text of an entry in both modes |
| `Reduce.PatternMatches` | internal/database/kql_reduce.go:138-161 | a pattern matches the text it is made from, in default and custom-separator mode |
| `Reduce.LabelsMatch` | internal/database/kql_reduce.go:167-200 | every value matches the pattern reported for it |
| `Reduce.Assign` | internal/database/kql_reduce.go:167-182 | each value's candidate, with counts and first representatives |
| `Reduce.EveryValueCounted` | internal/database/kql_reduce.go:183-195 | the counts of the patterns above support and of the others add up to the number of values |
| `Reduce.SortRows` | internal/database/kql_reduce.go:202-202 | a stable sort by descending count |
| `Reduce.ReduceAggregate.Done` | internal/database/kql_reduce.go:107-212 | the report: supported patterns with their counts and representatives and the others, or each value with its pattern |
| `ClientLimit.ClientLimiter.Enter` | internal/api/client_limit.go:36-51 | admitted exactly when fewer than ten goroutines use the client's slots; entry made when there is none |
| `ClientLimit.ClientLimiter.Take` | internal/api/client_limit.go:52-56 | a token is taken exactly when fewer than two are held |
| `ClientLimit.ClientLimiter.GiveUp` | internal/api/client_limit.go:57-61 | the wait may end at any time |
| `ClientLimit.ClientLimiter.Lookup` | internal/api/client_limit.go:64-67 | release finds the client listed, with the very slots whose token is held |
| `ClientLimit.ClientLimiter.Receive` | internal/api/client_limit.go:68-68 | there is a token to take back, so release does not block |
| `ClientLimit.ClientLimiter.Leave` | internal/api/client_limit.go:72-78 | the client leaves the list exactly with its last user |
| `ClientLimit.Bounds` | internal/api/client_limit.go:15-78 | at most two holders and ten users per client; a client is listed if and only if it has users |
| `ClientLimit.Run` | internal/api/client_limit.go:36-78 | the invariant holds over every schedule of any goroutines |
| `Cooldown.CooldownAfter` | internal/database/questions.go:31-40 | the promised wait if and only if no doubling below the cap leaves 64 bits; otherwise negative |
| `Cooldown.PromisedIs` | internal/database/questions.go:26-40 | the promise in numbers: ten attempts at the base cooldown, then twice as long each time up to the cap |
| `Cooldown.SafeCap` | internal/database/questions.go:31-40 | with a cap of at most 2^62 ns nothing overflows |
| `Cooldown.LargeCapOverflows` | internal/database/questions.go:31-40 | beyond that the promise can fail: a concrete case |
| `Questions.Investigation.SubmitAnswer` | internal/database/questions.go:172-265 | counted only after the cooldown; then one attempt more, and solved now with this answer if it is accepted, while a wrong answer leaves the question unsolved; every other outcome changes nothing |
| `Questions.Investigation.Remaining` | internal/database/questions.go:235-243 | what is left of the cooldown since the last attempt, for every clock: a time before the last attempt makes it longer, until it leaves 64 bits and falls away |
| `Questions.Investigation.ConfigureChallenge` | internal/database/questions.go:76-132 | with distinct ids every question keeps the row it had under the same revision, or starts afresh, and no other row stays; or nothing changes if the transaction does not commit |
| `Questions.UpsertsAreIndependent` | internal/database/questions.go:84-96 | with distinct ids every question finds its own earlier row and keeps it exactly if the revision is the same |
| `Questions.Investigation.State` | internal/database/questions.go:134-170 | the flag is shown exactly when there are questions and all of them are solved, and then an accepted answer was submitted for each of them under its present revision |
| `Questions.AttemptsTakeTheirTime` | internal/database/questions.go:31-40 | between two counted attempts since the waits were last configured otherwise lie at least the promised waits of all attempts in between |
| `Questions.TimeBetweenAttempts` | internal/database/questions.go:235-251 | spaced attempts add up to the total wait |
| `Questions.Run` | internal/database/questions.go:76-265 | over any answers and restarts: every solved question was answered right by a submitted command under the configuration of its time, the record of attempts stays right, and while the waits stay the same every attempt of every restart is judged |

## Left out

- Contexts that are cancelled, I/O errors of the input, and the parsers behind records: inserts do not fail, a record is
  the value that its text stands for, and the mapping to time and source is a parameter.
- The tree of embedded paths is a value here; the source updates its nodes in place. That workers never see such an
  update under way is `IngestPipeline.TreeChangesOnlyWhenQuiet`. The two discovery functions, one over parsed text and
  one over decoded values, are one function, and the field catalogue that they also fill is not modelled.
- Records nested beyond the depth cut-off of 32 are outside the theorems on full expansion, as the code gives up there;
  what is marked and what is decoded is stated with the cut-off.
- Objects with repeated member names: the set keys refuse them and the observation of top-level keys counts them as the
  code does, but discovery and normalisation treat every member by itself, where the source decodes into a map.
- JSON parsing, UTF-8 validation, the regular expression for decimal texts, Base64, hexadecimal formatting and the
  parsing of bag paths: values and parsed forms are the inputs, and whether a text matches is a parameter.
- Floating-point rounding in the t-digest, in supports and in the Jaccard index: arithmetic is over the reals. The
  number of centroids after compression is bounded only through their weights.
- TDigest.Digest.Decode: does not promise a consistent digest for other texts than those the program writes, because
  the code accepts any text with a kind, a positive count and positive weights. The limit of 1 MiB on a text is left out.
- The hash functions, the estimate of a dense HyperLogLog sketch and the aggregate wrappers around the sketches.
- SQLite and FTS5: a transaction is one atomic step that commits or leaves everything as it is, a row of the index is
  the text it was made from, and loss of committed transactions through a crash of the operating system is not modelled.
- FullText.Store.CreateEventIndexes: ordinary indexes are known by their names and expression indexes by their numbers.
- Store.DeleteDataset, which nothing but its tests calls: like an import outside a load it would leave the index stale.
- SHA-256 in SubmitAnswer: comparing hashes stands for comparing the normalized answers, and answers come trimmed.
- Questions.AttemptsTakeTheirTime: assumes a clock that never goes back; without that the code can count attempts early.
- ClientLimit.ClientLimiter.GiveUp: a timer or a cancelled request is a step that may happen at any time.
- Reduce.ReduceAggregate.Step: the byte length of a text and the class of letters and digits are parameters.
- Bags.RemoveBagProperties: the length of encoded values is a parameter; the tree of removals is the source's own
  mutable structure.
- bag_merge, bag_zip, indexof options that are not numbers, countof with regular expressions, and the CIDR functions that
  are expressions: single-branch members.
- HTTP handling, the KQL compiler, the user interface and configuration parsing.

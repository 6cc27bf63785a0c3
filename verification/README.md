# Verified model of the Midad reader's core algorithms

Midad is e-reader firmware. This project models four parts of it in Dafny and proves what they
promise.

* **The StarDict dictionary engine.** A `.idx` file is a sequence of records: a headword, a NUL, and
  two big-endian numbers. A buffered scan builds a list of checkpoints, one per 1024 records; a
  binary cache keeps it; lookups halve the checkpoints and then walk a few records. The model proves
  that this agrees with scanning the whole file, also after any number of start-ups, saves and power
  losses, and says exactly when it does not. Around it are the bounded edit distance, the best-24
  selection of spelling suggestions, and the validation and repair of UTF-8 text.
* **BLE and Wi-Fi on one radio.** Two state machines, two commands and the main loop's gate are a
  step relation over the shared state; the invariants hold over every run. The replies that have to
  fit a small buffer are modelled down to their text, and stated by what a JSON reader gets from it.
* **The streaming exercise catalog.** Callbacks of a JSON tokenizer drive a state machine with depth
  counters; it is proved to compute a recursive function of the JSON tree.
* **The string-table compiler and the catalog server list.** Offsets with a flag bit, printing of
  C++ literals against the lexical rules of ISO C++17, and loading with migration and collapsing.

Code that changes state is modelled by classes and methods with loops, each tied by its `ensures` to
a specification function or predicate; the properties are then lemmas about that specification.

| file | models |
|---|---|
| `basics.dfy` | options, bytes, 32-bit words, decimal digits, lists without repetitions |
| `words.dfy`, `index_file.dfy` | headword order, the index file and its reader |
| `checkpoint_cache.dfy`, `index_build.dfy`, `index_search.dfy`, `index_life.dfy` | the cache, the scan, the lookups, and all of them over many start-ups |
| `edit_distance.dfy`, `suggestions.dfy`, `utf8.dfy` | suggestions and text repair |
| `json_text.dfy` | JSON texts, written and read back |
| `scan_summary.dfy`, `radio_replies.dfy`, `device_info.dfy`, `coexistence.dfy` | the radio protocol and its replies |
| `catalog.dfy` | the streaming catalog parser |
| `string_table.dfy`, `cpp_lexing.dfy`, `cpp_wrapping.dfy`, `cpp_literal.dfy` | the string tables, what C++ reads from literals, cutting them into lines, printing texts |
| `opds_store.dfy` | the server list |

## Where the code departs from what is promised

The model follows the code. Each departure has a lemma with a concrete input, an exact condition, or
both.

* A lookup can miss a word that is in the file: when it lands on a record cut short at the end of the
  file, or on an empty headword (`SearchAgreesWithScan` and `WhenTheCutRecordTraps` say when,
  `CutRecordHidesWords` and `EmptyHeadwordHidesWords` give files).
* A read error during the scan is taken for the end of the file: the short index is saved under the
  full file size, and every later start accepts it (`ReadErrorHidesWords`). It does no harm exactly if
  reading got to the end of the last whole record (`IndexOfPart`); lookups under it find exactly what
  is among the records it counts (`FoundAfterFaultyLife`).
* `headwordAtOrdinal(totalWords)` returns the text of a cut record instead of the empty string
  (`PastTheEndIsEmpty`, `CutTextShowsThrough`).
* Words of more than 64 bytes are reported as too far apart even if they are equal
  (`EditDistanceLimited`, `LongWordsAreReportedTooFar`).
* An array directly inside `exercises` ends the list early, and its closing bracket leaves the root
  object, so that exercises, versions and even nested objects after it are misread. The walk of the
  machine is stated for every tree (`MachineWalksTheTree`); `ListItems`, `NestedArrayLosesExercises`
  and `NestedArrayReadsTooMuchAndTooLittle` show how it differs from the tree.
* A scan result is consumed even if not even the empty reply fits the buffer (`ScanReplyIsWhole`). The
  empty reply has 46 bytes and the only caller passes 160, so over BLE this cannot occur
  (`ScanReplyOverBleIsWhole`).
* A backslash sequence already present in a translation is passed on as an escape, so the blob is
  shorter than the offsets assume. A line cut where there is no space can fall inside an escape, against
  the comment at `scripts/gen_i18n.py:406`. `LinesAreFaithful` is exact for all texts,
  `ForcedCutBreaksAnEscape` gives one.
* The sizes printed for the string tables are totalled before unused keys are dropped
  (`TotalsAreTheTableSizes`).
* Updating a stored server can make two entries share a URL (`UpdateKeepsDistinct`).

One thing that looks like a departure is none. While an attempt runs, the remembered outcome can carry
the SSID of the new network beside the success of the old one (`StaleWhileConnecting`; exactly if the
networks differ, `WhenTheSsidMatches`). The outcome is promised only until the next request
(`src/BleWifiAutoConnectCache.h:51-55`), and over BLE the mixture cannot be seen
(`BleSeesTheLastOutcome`).

## Model

| member | source | states |
|---|---|---|
| Words.CompareWords | src/DictionaryStore.cpp:165-178 | the sign of the result is the lexicographic order of the case-folded texts up to the first NUL, zero exactly for equal ones |
| Words.WordOrderIsTotalPreorder | src/DictionaryStore.cpp:165-178 | that order is total and transitive, and its ties are exactly the equal folded texts |
| Words.TruncationKeepsOrder | src/DictionaryStore.cpp:153-178 | cutting two headwords at the same length never reverses their order, so a file sorted on whole headwords is sorted as it is read |
| Words.SameWordIsSameLetters | src/DictionaryStore.cpp:165-178 | two words compare equal exactly if, up to their first NULs, they have the same length and at every place the same byte or the capital and the small form of one ASCII letter |
| Words.LessIsComesFirst | src/DictionaryStore.cpp:165-178 | one word comes before another exactly if at the first place where they differ it ends or has the smaller byte once capitals are moved up by 32 |
| IndexFile.ReadBE32 | src/DictionaryStore.cpp:94-97 | the first byte counts 2^24, the last one 1 |
| IndexFile.WriteU32 | src/DictionaryStore.cpp:94-104 | four bytes that read back as the number |
| IndexFile.WriteAfterRead | src/DictionaryStore.cpp:94-106 | writing what was read restores the four bytes |
| IndexFile.ReadIndexWord | src/DictionaryStore.cpp:153-163 | returns the bytes before the NUL cut at 255 and leaves the file just past the NUL, however long the headword is |
| IndexFile.ParseOfEncoded | src/DictionaryStore.cpp:1580-1603 | parsing the encoding of any records followed by any cut record gives back those records in order and stops at the cut one |
| IndexFile.TailAt | src/DictionaryStore.cpp:1590-1602 | the parse stops at the end of the last whole record, where no further one is complete |
| CheckpointCache.DecodeOfEncode | src/DictionaryStore.cpp:1402-1498 | loading a saved cache restores checkpoints, ordinals and word total, whatever follows the saved bytes |
| CheckpointCache.AcceptedFilesAreSavedFiles | src/DictionaryStore.cpp:1415-1450 | a file is accepted as an index exactly when it starts with the saved form of that index, of 1 to 4096 checkpoints and as many ordinals |
| CheckpointCache.StrictPrefixRejected | src/DictionaryStore.cpp:1410-1448 | no strict prefix of a saved cache is accepted |
| CheckpointCache.LoadCheckpointCache | src/DictionaryStore.cpp:1402-1451 | success leaves in the entry what the cache file decodes to; failure leaves empty lists; without card fault or refused headroom it fails only on a missing or rejected file |
| CheckpointCache.ReadCache | src/DictionaryStore.cpp:1409-1448 | agrees with the layout, and sets the word total as soon as the header matches |
| CheckpointCache.ReadWords | src/DictionaryStore.cpp:1430-1448 | reads exactly the given number of words, or fails when one is cut short |
| CheckpointCache.WriteWords | src/DictionaryStore.cpp:1472-1488 | on success the file has grown by exactly the encoded values; every intermediate state touches only that file |
| CheckpointCache.SaveCheckpointCache | src/DictionaryStore.cpp:1453-1498 | it succeeds unless there is nothing to store or the card failed; success leaves the encoded index at the cache path and no temporary file; after every single step, and at the end whatever the result, the cache path holds the old file, nothing, or the complete new one |
| CheckpointCache.ReplaceCache | src/DictionaryStore.cpp:1455-1497 | the same, with failing writes, removals and renames |
| CheckpointCache.CrashLeavesOldOrNew | src/DictionaryStore.cpp:1453-1498 | what is loaded after a power cut during a save is the old index or the new one, never a mixture |
| CheckpointCache.SizeIsInTheHeader | src/DictionaryStore.cpp:1415-1418 | a cache is accepted for one index file size only |
| IndexBuild.ScanBuffer.EnsureBuffered | src/DictionaryStore.cpp:1556-1567 | refilling does not move the logical position and fails only at the end of the file, whatever chunk sizes the card returns |
| IndexBuild.ScanBuffer.SkipHeadword | src/DictionaryStore.cpp:1580-1589 | consumes to just past the next NUL, across refills |
| IndexBuild.ScanBuffer.SkipBytes | src/DictionaryStore.cpp:1595-1601 | skips exactly the given number of bytes, or to the end of the file and reports that some are missing |
| IndexBuild.ScanRecord | src/DictionaryStore.cpp:1580-1602 | advances to the end of the record exactly when it is complete |
| IndexBuild.CheckpointList.AddCheckpoint | src/DictionaryStore.cpp:1517-1538 | appends, or stops growing for good at 4096 entries or when the heap refuses; fails only if nothing at all could be allocated |
| IndexBuild.ScanStep | src/DictionaryStore.cpp:1569-1603 | sets the checkpoint that is due before a record, if one is, and walks over the record exactly if it is whole |
| IndexBuild.ScanIndex | src/DictionaryStore.cpp:1547-1626 | for any file and any read sizes the totals are those of the unbuffered parse and checkpoint k is (offset of record 1024k, 1024k); the list is all of them up to 4096 unless the heap refused |
| IndexBuild.EnsurePrepared | src/DictionaryStore.cpp:1500-1626 | it fails only for a missing, unsupported or empty dictionary or if the card or the heap failed; a true answer means the entry keeps its index, or holds what the cache decodes to (always, if it decodes and nothing failed), or the index of as much of the file as could be read, which the cache then holds unless writing failed; the index file stays, after every step the cache is the old one, gone, or a saved index of the file, and if whatever was cached was an index of the file, so is what was loaded |
| IndexBuild.BuildIndex | src/DictionaryStore.cpp:1507-1626 | scanning succeeds unless the file is missing or empty or the card or the heap failed; it leaves the exact index of the file unless a read failed, then that of the part delivered, and saves it unless writing failed |
| IndexBuild.IndexOfPart | src/DictionaryStore.cpp:1560-1602 | the index of a part of the file is right about every record it mentions, and describes the whole file exactly if reading got to the end of the last whole record |
| IndexBuild.CacheStaysSound | src/DictionaryStore.cpp:1500-1626 | preparing, finished or cut off, keeps that whatever the cache can be taken for is an index of the index file |
| IndexSearch.SortedHeads | src/DictionaryStore.cpp:1628-1677 | a file sorted on whole headwords looks sorted to the search |
| IndexSearch.HalvingLands | src/DictionaryStore.cpp:1634-1645 | what the halving loop knows at its end determines the landing checkpoint, even when the last one sits on a cut record |
| IndexSearch.LandByHalving | src/DictionaryStore.cpp:1634-1645 | on a sorted file it ends at the first checkpoint whose successor is beyond the word |
| IndexSearch.WalkSegment | src/DictionaryStore.cpp:1652-1673 | a hit is a record carrying the word; where the stretch is in order and ends before a record beyond the word, the walk finds the first match from the landing to the end of the file, if the landing record is whole and non-empty; this within what the index lets be seen |
| IndexSearch.FindIndexHit | src/DictionaryStore.cpp:1628-1677 | under any index whose checkpoints are records of the file: whatever is returned is a record whose (cut) headword is the word; on a sorted file it is exactly the record specified for what the index lets be seen |
| IndexSearch.SearchAgreesWithScan | src/DictionaryStore.cpp:1628-1677 | for every number of checkpoints the index finds a word exactly when scanning the file does and the landing record is neither cut nor empty |
| IndexSearch.SearchIsCompleteOnWholeFiles | src/DictionaryStore.cpp:1628-1677 | without cut record and empty headwords the two always agree |
| IndexSearch.FoundExactlyWhenVisible | src/DictionaryStore.cpp:1628-1677 | on the encoding of any sorted records with non-empty headwords, under any such index, a lookup succeeds exactly if a record the index lets be seen carries the word, and returns such a record |
| IndexSearch.FoundExactlyWhenPresent | src/DictionaryStore.cpp:1628-1677 | if the index counts all words, it succeeds exactly if the headword of some record, as far as it is read, is the word letter by letter but for ASCII case |
| IndexSearch.LandingIsCovered | src/DictionaryStore.cpp:1652-1659 | the number of records walked from the landing checkpoint covers what the index lets be seen |
| IndexSearch.WhenTheCutRecordTraps | src/DictionaryStore.cpp:1634-1650 | the search lands on a cut record exactly if the last checkpoint sits on it and neither that checkpoint nor the one before compares beyond the word |
| IndexSearch.SameRecordAsScan | src/DictionaryStore.cpp:1659-1671 | the record found is the scan's first one exactly if no record before the landing carries the word |
| IndexSearch.EmptyHeadwordHidesWords | src/DictionaryStore.cpp:1659-1661 | a two-record file in which the scan finds a word and the index does not |
| IndexSearch.CutRecordHidesWords | src/DictionaryStore.cpp:1634-1663 | 1024 records "b" and the cut text "a": the scan of the file finds "b", the search lands on the cut record and finds nothing |
| IndexSearch.HeadsOfEncoded | src/DictionaryStore.cpp:1628-1712 | what lookups read from an encoded file is its headwords cut at 255 bytes |
| IndexSearch.HeadwordAtOrdinal | src/DictionaryStore.cpp:1679-1712 | the k-th headword for every whole record, the cut record's text for the ordinal after them, nothing beyond, for any checkpoints that are records of the file, even of an index that counts too few; never another word |
| IndexSearch.PastTheEndIsEmpty | src/DictionaryStore.cpp:1699-1711 | ordinals past the last record give nothing exactly if the file ends with a whole record or the cut one has no text |
| IndexSearch.CutTextShowsThrough | src/DictionaryStore.cpp:1699-1711 | a two-byte file with no record and a non-empty word at ordinal 0 |
| IndexLife.LifeKeepsTheCacheSound | src/DictionaryStore.cpp:1402-1626 | over any number of start-ups, preparations, saves and power losses the index file stays and the cache can only be taken for an index of it |
| IndexLife.FoundAfterAnyLife | src/DictionaryStore.cpp:1500-1677 | after any such life that began without a cache and in which no read of the index file failed, a lookup under what was loaded succeeds exactly if some record carries the word, and returns such a record |
| IndexLife.FoundAfterFaultyLife | src/DictionaryStore.cpp:1500-1677 | and if reads did fail, exactly if one of the records the loaded index lets be seen does |
| IndexLife.ReadErrorHidesWords | src/DictionaryStore.cpp:1560-1566 | two records of which the scan could read one: the saved short index is accepted for good and hides the other |
| IndexLife.Lookup | src/DictionaryStore.cpp:2045-2083 | it is ready unless the dictionary is missing, unsupported or empty or the card or the heap failed; preparing and searching keep the cache and the entry sound; a hit is a record carrying the query, and unless the card failed it is what the indexed lookup over the whole file specifies |
| EditDistance.EditDistanceLimited | src/DictionaryStore.cpp:1031-1066 | min(result, limit + 1) is min(cost of the cheapest edit script, limit + 1) exactly if both words have at most 64 bytes or really are further apart than the limit |
| EditDistance.NextRow | src/DictionaryStore.cpp:1048-1062 | the in-place update turns one row of the full matrix into the next, in 16 bits, and its minimum is a floor under the row |
| EditDistance.NoScriptIsCheaper | src/DictionaryStore.cpp:1031-1066 | no edit script costs less than the distance |
| EditDistance.BestScript | src/DictionaryStore.cpp:1031-1066 | some script attains it |
| EditDistance.DistIsCheapestCost | src/DictionaryStore.cpp:1031-1066 | the distance is within a limit exactly if some script is |
| EditDistance.MatchIsDiagonal | src/DictionaryStore.cpp:1054-1055 | on equal bytes the diagonal cell is optimal |
| EditDistance.RowFloor | src/DictionaryStore.cpp:1061-1063 | row minima never decrease, so giving up early is sound |
| EditDistance.LengthGapIsAFloor | src/DictionaryStore.cpp:1034 | the difference in length is never more than the distance |
| EditDistance.LongWordsAreReportedTooFar | src/DictionaryStore.cpp:1035-1037 | two equal words of 65 bytes |
| Suggestions.BetterIsStrictWeakOrder | src/DictionaryStore.cpp:2164-2169 | the ranking is irreflexive and transitive, and so is incomparability |
| Suggestions.RankedInOrder | src/DictionaryStore.cpp:2164-2182 | down the ranking, and from retained to dropped candidates, the distance does not shrink; at equal distance the common prefix does not grow, then the difference in length does not shrink, then the word's length does not |
| Suggestions.AddCandidate | src/DictionaryStore.cpp:2170-2182 | appends while there is room, else replaces a worst candidate exactly if the new one is better than some retained one; keeps: at most 24 retained, nothing lost, nothing turned away or evicted better than anything retained |
| Suggestions.Worst | src/DictionaryStore.cpp:2178 | a candidate no other is worse than |
| Suggestions.CommonPrefixLength | src/DictionaryStore.cpp:1019-1024 | the length of the longest common prefix |
| Suggestions.Score | src/DictionaryStore.cpp:2202-2208 | the candidate of a headword, or none |
| Suggestions.OfferedExactly | src/DictionaryStore.cpp:2197-2210 | a candidate is offered exactly if some record within the scan has its word, which is not the query and near enough, and its distance, common prefix and difference in length are those of the two score keys |
| Suggestions.OfferedAreNearButDifferent | src/DictionaryStore.cpp:2197-2210 | offered candidates are headwords of the file, within the limit, and not the query |
| Suggestions.ScanNeighbours | src/DictionaryStore.cpp:2197-2210 | after the scan the retained candidates are a best-24 selection of all that were offered |
| Suggestions.SeekNeighbourhood | src/DictionaryStore.cpp:2134-2152 | the stretch scanned runs from two segments before the landing to the end of the second after it, cut at the last word counted |
| Suggestions.LookedAt | src/DictionaryStore.cpp:2145-2152 | a record is looked at exactly if its segment is at most two away from the anchor's, within the checkpoints and the words counted |
| Suggestions.MaxDistance | src/DictionaryStore.cpp:2154 | a third of the query's length and one, but at least two |
| Suggestions.NothingBetterIsMissing | src/DictionaryStore.cpp:2170-2212 | whatever was offered and is better than a ranked candidate is ranked before it |
| Suggestions.SortCandidates | src/DictionaryStore.cpp:2212 | a reordering in ranking order |
| Suggestions.FirstResults | src/DictionaryStore.cpp:2214-2219 | the first different words, as many as asked for or there are, at least one if there is any |
| Suggestions.FirstWordsAreTheWords | src/DictionaryStore.cpp:2214-2219 | the words returned are distinct and are exactly the candidates' words |
| Suggestions.EarlierSuggestionsRankFirst | src/DictionaryStore.cpp:2212-2219 | before any candidate for a later suggestion ranks one for each earlier suggestion |
| Suggestions.FindSuggestions | src/DictionaryStore.cpp:2112-2222 | the result is the first different words of the best-24 selection, ranked, of exactly what the neighbourhood of one segment offers; on a sorted file that is the segment the anchor belongs to |
| Utf8.IsValidUtf8 | src/DictionaryStore.cpp:311-349 | accepts exactly the concatenations of characters of the grammar in RFC 3629 section 4 |
| Utf8.ChecksAreTheGrammar | src/DictionaryStore.cpp:319-344 | lead classes, continuation bytes and range checks together are that grammar |
| Utf8.EncodeThenPayload | src/DictionaryStore.cpp:353-367 | the encoding of RFC 3629 section 3 of a scalar value is a character of the grammar carrying that value |
| Utf8.PayloadThenEncode | src/DictionaryStore.cpp:319-346 | every character of the grammar is the encoding of the scalar value it carries |
| Utf8.EncodeKeepsOrder | src/DictionaryStore.cpp:353-367 | the encodings of two scalar values stand in the order of the values, byte by byte (RFC 3629 section 1) |
| Utf8.NoCharIsAPrefixOfAnother | src/DictionaryStore.cpp:311-349 | a text splits into characters in one way only |
| Utf8.DecodeOfEncode | src/DictionaryStore.cpp:351-368 | decoding an encoded sequence of scalar values gives it back |
| Utf8.EncodeOfDecode | src/DictionaryStore.cpp:311-349 | encoding a decoded valid text gives it back |
| Utf8.ValidIffEncoding | src/DictionaryStore.cpp:311-349 | the accepted texts are exactly the encodings of sequences of scalar values |
| Utf8.AppendUtf8 | src/DictionaryStore.cpp:351-368 | appends the encoding of any scalar value but 0, and nothing for every other number |
| Utf8.EnsureUtf8Text | src/DictionaryStore.cpp:461-474 | valid text unchanged, other text read as Windows-1252 without control characters |
| Utf8.DroppedBytes | src/DictionaryStore.cpp:466-471 | the bytes dropped are the C0 controls but tab and line ends, and the five Windows-1252 leaves unassigned |
| Utf8.RecoveredIsWindows1252 | src/DictionaryStore.cpp:370-378 | the recovered characters, written in Windows-1252, are the bytes that were not dropped |
| Utf8.RepairIsValidAndIdempotent | src/DictionaryStore.cpp:461-474 | the result is always valid, valid text is left alone, repairing twice is repairing once, and repaired text decodes to the recovered characters |
| Catalog.GymCatalogJsonParser.CommitExercise | src/GymCatalogJsonParser.cpp:38-56 | an entry with a slug is counted once and goes to the mode's list or tally; one without leaves no trace |
| Catalog.GymCatalogJsonParser.Handle | src/GymCatalogJsonParser.cpp:60-240 | one callback is one step of the state machine and keeps the collected data equal to what the completed exercises amount to |
| Catalog.GymCatalogJsonParser.HandleAll | src/GymCatalogJsonParser.cpp:60-240 | the same for any stream of callbacks, well-formed or not, in all three modes |
| Catalog.ModesAgree | src/GymCatalogJsonParser.cpp:38-56 | on every stream the summary has one row per body part, its counts add up to the overall count, and a filtered list has min(2000, its row) entries |
| Catalog.FilterKeeps | src/GymCatalogJsonParser.cpp:50-53 | the filtered list is exactly the entries of the body part, in their order |
| Catalog.RowsInOrder | src/GymCatalogJsonParser.cpp:42-48 | the summary's rows come in the order in which their body parts first appear |
| Catalog.BumpAt | src/GymCatalogJsonParser.cpp:42-48 | finding the row and counting in place is the tally's step |
| Catalog.SkipTop | src/GymCatalogJsonParser.cpp:163-240 | a nested value of any shape outside the list changes nothing |
| Catalog.SkipInExercise | src/GymCatalogJsonParser.cpp:163-240 | a nested value of any shape inside an exercise changes nothing but the pending key |
| Catalog.TakesValue | src/GymCatalogJsonParser.cpp:60-240 | from every place the machine can be in between values, the events of any value take it where the walk of that value ends |
| Catalog.MachineWalksTheTree | src/GymCatalogJsonParser.cpp:60-240 | for every JSON value up to 255 containers deep, whatever it holds, the events leave exactly the exercises and the version of a recursive walk of the tree |
| Catalog.MachineReadsTheTree | src/GymCatalogJsonParser.cpp:60-240 | for every root object without an array directly inside `exercises` that walk is the plain reading: the exercises of its lists and its last numeric version |
| Catalog.FieldsAreTheMembers | src/GymCatalogJsonParser.cpp:74-152 | each of the eight fields of an exercise is the last string, or number, under its own name, or empty; width and height modulo 2^16 |
| Catalog.NumberTexts | src/GymCatalogJsonParser.cpp:128-146 | a version is the number its text prints; sizes and checksums too, but stop at 2^32 - 1 and wrap after a minus sign |
| Catalog.ListItems | src/GymCatalogJsonParser.cpp:225-240 | the list is read to its own end exactly if none of its items is an array, and then yields the exercises of its objects |
| Catalog.NestedArrayLosesExercises | src/GymCatalogJsonParser.cpp:225-240 | an exercise after an empty nested array is not read |
| Catalog.NestedArrayReadsTooMuchAndTooLittle | src/GymCatalogJsonParser.cpp:225-240 | an exercise inside a nested array is read although the list does not hold it, and the version after that list is not |
| ScanSummary.Summarize | src/BleWifiScanCache.cpp:137-159 | distinct non-empty names, each with its first strongest sighting, strongest first, min(8, number of names) of them, and no omitted name stronger than a kept one |
| ScanSummary.Absorb | src/BleWifiScanCache.cpp:139-154 | merging one more sighting keeps one row per name with its best sighting so far |
| ScanSummary.CountNames | src/BleWifiScanCache.cpp:139-154 | there are as many rows as names |
| ScanSummary.OmittedIsWeaker | src/BleWifiScanCache.cpp:155-159 | no sighting of an omitted name is stronger than a kept row |
| ScanSummary.CutIsSummary | src/BleWifiScanCache.cpp:155-159 | the sorted and cut rows are the summary of the raw list |
| DeviceInfo.BuildDeviceInfoPayload | src/BleDeviceInfoPayload.cpp:7-118 | the reply is the first document of the priority ladder that fits the budget, and empty only if its last one does not |
| DeviceInfo.SettleIsFirstFit | src/BleDeviceInfoPayload.cpp:75-117 | every document higher on the ladder is too long, and the one settled on fits unless it is the last |
| DeviceInfo.StagesWalkTheLadder | src/BleDeviceInfoPayload.cpp:75-114 | the three trimming stages, each with its own measurements, settle where the whole ladder does |
| DeviceInfo.TrimCosmetic | src/BleDeviceInfoPayload.cpp:75-82 | signal and name go first, one pair at a time |
| DeviceInfo.TrimFirmware | src/BleDeviceInfoPayload.cpp:83-102 | the version shrinks to the longest prefix that fits, and is dropped when not even the empty one does |
| DeviceInfo.TrimLastResorts | src/BleDeviceInfoPayload.cpp:103-114 | connected goes before saved, saved before the wifi object |
| DeviceInfo.EveryRungIsConsistent | src/BleDeviceInfoPayload.cpp:16-114 | on every document of the ladder each nested key is present exactly when its flat twin is, the version is absent or a prefix, and less important keys do not outlive more important ones |
| DeviceInfo.SentDocumentIsConsistent | src/BleDeviceInfoPayload.cpp:16-118 | so is whatever is sent, for every input and budget |
| DeviceInfo.SentReplySays | src/BleDeviceInfoPayload.cpp:8-117 | a JSON reader gets from the reply every untrimmable value, the version or a prefix of it or none, and under each wifi key the same value nested and flat, or neither |
| DeviceInfo.LadderIsComplete | src/BleDeviceInfoPayload.cpp:48-114 | the ladder holds every document with its pairs whole, its keys in priority and true to the input, and no other |
| DeviceInfo.SentIsTheFullest | src/BleDeviceInfoPayload.cpp:48-117 | if any such document fits, the one sent fits and holds whatever any that fits holds |
| Coexistence.Device.RequestScan | src/BleWifiScanCache.cpp:46-58 | a scan is pending afterwards exactly if both machines were idle; otherwise nothing changes |
| Coexistence.Device.TickScan | src/BleWifiScanCache.cpp:70-166 | one step of the scan machine, whose clock ScanHasBegun and ScanClock pin down; a finished scan leaves the summary of its raw list, any other tick leaves the list alone |
| Coexistence.Device.RequestConnect | src/BleWifiAutoConnectCache.cpp:86-99 | an attempt is pending afterwards exactly if both machines were idle; otherwise nothing changes |
| Coexistence.Device.TickConnect | src/BleWifiAutoConnectCache.cpp:111-173 | one step of the connect machine, with its storage, credential, success and timeout branches |
| Coexistence.Device.BleGate | src/main.cpp:1003-1009 | BLE runs afterwards only if it is wanted, Wi-Fi is off and no book is being read |
| Coexistence.Device.HandleWifiAutoconnect | src/BleCommandDispatcher.cpp:201-262 | the command's step and its exact reply in every state |
| Coexistence.Device.HandleWifiScan | src/BleCommandDispatcher.cpp:273-316 | the command's step and reply; a finished scan is answered with the longest list that fits |
| Coexistence.RadioIsExclusive | src/BleWifiScanCache.cpp:30-166 | over every interleaving at most one machine is busy, Wi-Fi is up exactly while one scans or connects, and BLE is down whenever it is |
| Coexistence.SnapshotIsLastOutcome | src/BleWifiAutoConnectCache.cpp:60-173 | over every run the remembered outcome is that of the last finished attempt, with its signal and, outside an attempt, its SSID |
| Coexistence.WhenTheSsidMatches | src/BleWifiAutoConnectCache.cpp:150-173 | at any time the remembered SSID is that of the last finished attempt exactly if the latest attempt was made with the same network |
| Coexistence.BleSeesTheLastOutcome | src/BleWifiAutoConnectCache.h:51-58 | whenever BLE runs, the remembered outcome is wholly that of the last finished attempt |
| Coexistence.StaleWhileConnecting | src/BleWifiAutoConnectCache.cpp:150-152 | a run that shows the new SSID beside the old success while the second attempt is under way |
| Coexistence.RequestsAreConserved | src/BleWifiAutoConnectCache.cpp:86-173 | over every run each accepted request is under way or finished, and each finished one waiting or consumed, for both machines |
| Coexistence.ResultsLeaveOnlyByCommand | src/BleCommandDispatcher.cpp:231-260 | a result leaves its state only through its own command, which changes nothing else, and a success only with a reply that is not empty and fits the buffer |
| Coexistence.TimeoutInRealTime | src/BleWifiAutoConnectCache.cpp:165-169 | a tick without a connection ends the attempt exactly if more than 7000 ms modulo 2^32 have passed |
| Coexistence.ScanHasBegun | src/BleWifiScanCache.cpp:77-118 | in every run a scan under way began with a tick that found it pending, and its clock was set by that tick |
| Coexistence.AttemptHasBegun | src/BleWifiAutoConnectCache.cpp:118-154 | so did an attempt under way, and its network was chosen by that tick |
| Coexistence.PendingScanBegins | src/BleWifiScanCache.cpp:77-118 | after any run a pending scan begins with its next tick |
| Coexistence.PendingAttemptBegins | src/BleWifiAutoConnectCache.cpp:118-154 | so does a pending attempt if there is a network to try; else it has failed |
| Coexistence.ScanClock | src/BleWifiScanCache.cpp:120-163 | counted from the tick it began with, a scan runs on for 15000 ms, ends at once with what the driver found or its failure, and has failed at any later tick |
| Coexistence.AttemptClock | src/BleWifiAutoConnectCache.cpp:156-171 | counted likewise, an attempt runs on for 7000 ms, ends at once with a connection, whose signal is remembered, and has failed at any later tick |
| Coexistence.ScansAreBounded | src/BleWifiScanCache.cpp:120-163 | whatever happens in between, a scan is over by the first tick more than 15000 ms (and less than 2^32 ms) after the one it began with |
| Coexistence.AttemptsAreBounded | src/BleWifiAutoConnectCache.cpp:156-170 | and an attempt by the first tick more than 7000 ms after its own |
| Coexistence.GateOpens | src/main.cpp:1003-1009 | after any run the gate lets BLE in exactly if it is wanted, no book is being read, the radio is not in use, and BLE runs or can be started |
| Coexistence.CommandsStart | src/BleCommandDispatcher.cpp:201-286 | after any run a command starts something exactly if both machines are idle and, for an attempt, there is a network to try |
| Coexistence.ScanResultsAreTaken | src/BleCommandDispatcher.cpp:289-312 | after any run the scan command takes a finished scan |
| Coexistence.ConnectResultsAreTaken | src/BleCommandDispatcher.cpp:231-260 | and the connect command a finished attempt, unless it is a success it has no room for |
| Coexistence.ConnectReplyReads | src/BleCommandDispatcher.cpp:201-262 | what a JSON reader gets from the connect command's reply, in every state: its command, its state word, its reason or network and signal |
| Coexistence.ScanStatusReads | src/BleCommandDispatcher.cpp:275-291 | and from the scan command's while there is no list to send |
| Coexistence.ScanListReads | src/BleCommandDispatcher.cpp:293-312 | and from the one that carries the list: names, signals and security of the strongest networks, as many as fit 160 bytes |
| Coexistence.ScanTimeoutInRealTime | src/BleWifiScanCache.cpp:120-135 | a scan tick gives up exactly if more than 15000 ms modulo 2^32 have passed or the driver fails |
| Coexistence.ScanReplyIsWhole | src/BleCommandDispatcher.cpp:293-312 | the scan reply is a whole document exactly if the buffer holds the empty one |
| Coexistence.ScanReplyOverBleIsWhole | lib/hal/BlePeripheralManager.h:77 | with the radio's payload of 160 bytes it always is |
| RadioReplies.DocsGrow | src/BleCommandDispatcher.cpp:308-310 | no list gives a shorter document than the empty one, so dropping rows can only help |
| RadioReplies.FormatReplyReads | src/BleCommandDispatcher.cpp:42-50 | a status reply that fits with its terminator reads as its command, state and reason |
| RadioReplies.ConnectedDocReads | src/BleCommandDispatcher.cpp:232-246 | the reply of a success reads as its network, if there was room, and its signal |
| RadioReplies.ScanDocReads | src/BleCommandDispatcher.cpp:293-303 | the list reads as the networks it was made from |
| JsonText.PrintReads | src/BleCommandDispatcher.cpp:249-312 | whatever value is serialized, strings and numbers included, a JSON reader (RFC 8259) gets it back |
| StringTable.EnglishTable | scripts/gen_i18n.py:661-674 | each offset is the size of the texts before it; refused exactly if the blob passes 32767 bytes |
| StringTable.LanguageTable | scripts/gen_i18n.py:675-690 | a text equal to English gets the flagged English offset, any other the size of the language's own texts before it; refused exactly if those pass 32767 bytes |
| StringTable.GenerateTables | scripts/gen_i18n.py:654-690 | the tables of all languages, refused exactly if one of them is |
| StringTable.BlobHoldsTexts | scripts/gen_i18n.py:692-698 | reading the blob to the next NUL at the size of the texts before gives the text |
| StringTable.EnglishResolves | scripts/gen_i18n.py:661-674 | every English offset lies in the blob and reads as its text |
| StringTable.EveryOffsetResolves | lib/I18n/I18n.cpp:24-27 | following any generated offset gives the UTF-8 bytes of that translation; the flag is set exactly for texts equal to English, and offsets fit 16 bits |
| StringTable.DataSizeIsBlob | scripts/gen_i18n.py:899-905 | a language's total is the size of its own texts, zero exactly for one equal to English |
| StringTable.TotalsAreTheTableSizes | scripts/gen_i18n.py:890-930 | the printed totals are never below the sizes of the tables written; they equal them exactly if no key is dropped (English) and every dropped text is the English one (others) |
| CppLexing.LexAfterPlain | scripts/gen_i18n.py:325-359 | whole characters and simple escapes read the same whatever follows, so they may be continued or cut after |
| CppLexing.HexLikeReads | scripts/gen_i18n.py:337-340 | what C++ reads from `\x` and any two characters |
| CppLiteral.EscapeCppString | scripts/gen_i18n.py:302-359 | the segments are those specified for the text, for every text |
| CppLiteral.Lags | scripts/gen_i18n.py:332-411 | once the reading of a text is behind by some ASCII bytes it never catches up, however the lines are cut |
| CppLiteral.FaithfulIsClean | scripts/gen_i18n.py:332-411 | a text that is read back, cut into lines or not, has no raw carriage return or NUL and no backslash that does not stand for itself |
| CppLiteral.CleanIsFaithful | scripts/gen_i18n.py:332-359 | every other text is read back from its segments |
| CppLiteral.SegmentsAreFaithful | scripts/gen_i18n.py:302-359 | so the segments with a final `\0` denote the text's UTF-8 bytes and one NUL exactly for printable texts whose backslashes all stand for themselves |
| CppLiteral.LinesAreFaithful | scripts/gen_i18n.py:302-416 | and the lines they are cut into exactly if, besides, no cut falls inside an escape |
| CppLiteral.TextsCutAtSpaces | scripts/gen_i18n.py:397-402 | in particular for every text without backslash, carriage return and NUL whose long segments are cut at spaces |
| CppLiteral.PassedOn | scripts/gen_i18n.py:332-336 | a backslash before n, t, r, a quote or a backslash is passed on, and C++ reads one character from the two |
| CppLiteral.Doubled | scripts/gen_i18n.py:341-343 | before any other ASCII character it is doubled, and both are read back |
| CppWrapping.SpaceIsABoundary | scripts/gen_i18n.py:383-402 | a space found by stepping over escapes lies between whole characters and escapes |
| CppWrapping.SpaceCutsAreClean | scripts/gen_i18n.py:382-402 | a segment cut at spaces only is cut cleanly |
| CppWrapping.CutReads | scripts/gen_i18n.py:380-414 | the lines of a segment denote its content and what may be read of its last escape: all of it, its two digits apart, or nothing |
| CppWrapping.WrapEffect | scripts/gen_i18n.py:362-416 | cutting a segment into lines keeps what it denotes exactly if no cut falls inside an escape |
| CppWrapping.FormatCppStringLiteral | scripts/gen_i18n.py:362-416 | the lines are the segments, the long ones cut at the last space within 113 characters or else at the forced place |
| CppWrapping.WrapIsACut | scripts/gen_i18n.py:380-414 | the lines of a segment hold the segment and nothing else, none empty and none of more than 114 characters |
| CppWrapping.CutsAtLastSpace | scripts/gen_i18n.py:384-402 | without escapes the cut is after the last space within reach |
| CppLiteral.AppendStringDataEntry | scripts/gen_i18n.py:790-803 | for every text the lines printed denote its UTF-8 bytes and one NUL exactly if it is printable, its backslashes stand for themselves, and no cut of its segments falls inside an escape |
| CppLiteral.EntriesMakeTheBlob | scripts/gen_i18n.py:692-698 | faithful entries one after the other denote the blob the offsets count in |
| CppLiteral.ForcedCutBreaksAnEscape | scripts/gen_i18n.py:403-411 | the text of 111 letters and é is printed as faithful segments and an ill-formed first line |
| OpdsStore.OpdsServerStore.FromJson | src/OpdsServerStore.cpp:25-96 | the list is the looked-at entries collapsed: URLs in order of first appearance, each by its first entry with a password or else its first entry; a rewrite is asked for exactly if a looked-at entry was migrated, repeated or stored the old way |
| OpdsStore.StopsWhenFull | src/OpdsServerStore.cpp:33-34 | entries are looked at until eight different URLs are held, and no further |
| OpdsStore.FirstUrlsDistinct | src/OpdsServerStore.cpp:74-85 | the URLs kept are distinct and exactly those looked at |
| OpdsStore.Absorb | src/OpdsServerStore.cpp:69-85 | taking in one more entry keeps the list the collapse of what was seen |
| OpdsStore.OneCanonicalCatalog | src/OpdsServerStore.cpp:44-67 | after loading no other address of the Midad catalog is left, and its current one is there exactly if some looked-at entry had it in any form |
| OpdsStore.OwnAddresses | src/FouladEbooksConfig.h:113-148 | an address with any scheme, user, port and path is the catalog's exactly if its host is midad.one or foulad.one, but for capitals |
| OpdsStore.NoAddressWithoutScheme | src/FouladEbooksConfig.h:129-131 | without a scheme it never is |
| OpdsStore.MigrationKeepsTheAccount | src/OpdsServerStore.cpp:44-67 | exactly the catalog's outdated addresses are migrated, to its current one and name, and the account stays as it is |
| OpdsStore.LoadedListsAreStable | src/OpdsServerStore.cpp:25-96 | what loading leaves has at most eight entries, distinct URLs, and nothing to migrate |
| OpdsStore.ReloadIsAFixedPoint | src/OpdsServerStore.cpp:11-96 | saving such a list and loading it again changes nothing and asks for no rewrite |
| OpdsStore.OpdsServerStore.ToJson | src/OpdsServerStore.cpp:11-23 | every server is stored, in order, in the current form |
| OpdsStore.OpdsServerStore.AddServer | src/OpdsServerStore.cpp:98-120 | a known URL is replaced in place, a new one appended unless eight are held, and URLs stay distinct |
| OpdsStore.OpdsServerStore.RemoveServer | src/OpdsServerStore.cpp:132-140 | exactly the named entry goes, and URLs stay distinct |
| OpdsStore.OpdsServerStore.UpdateServer | src/OpdsServerStore.cpp:122-130 | exactly the named entry is overwritten |
| OpdsStore.UpdateKeepsDistinct | src/OpdsServerStore.cpp:122-130 | URLs stay distinct after an update exactly if no other entry has the new one |

## Left out

- Index files of 4 GiB and more: the source narrows the size to 32 bits; the model requires sizes below that (a FAT32 file cannot be longer).
- Read errors in the middle of a lookup: the scan and the cache loader are modelled with files that deliver fewer bytes than their size, the lookups with files that deliver all of them; a failing open is modelled everywhere.
- Heap headroom, failing opens, writes, removals and renames are arbitrary answers; progress callbacks, yields and logging are not modelled.
- IndexBuild.EnsurePrepared: the index file and its cache are changed by nothing else. A cache left beside a replaced index file of the size the `.ifo` file claims is trusted, as in the source; `IndexLife` starts from a card without a cache.
- Suggestions.SortCandidates: `std::sort` is modelled by an insertion sort and promises only some order of equally good candidates; ScanSummary.SortByStrength likewise.
- Suggestions.FindSuggestions: the fallback forms of a query and the folding of score keys are parameters; what it offers is stated for an open that succeeds and headroom that is granted.
- Synonym lookup, definition reading and `.dz` files, `cleanWord`, metadata trimming and the prettifying of definitions are not modelled.
- Utf8: bit masks and shifts are written as ranges and arithmetic on 64.
- Catalog: the tokenizer and its splitting of the input into chunks are replaced by the event stream; its own nesting limit of 32 (`lib/JsonParser/StreamingJsonParser.h:22`) is far below the 255 the model allows. Exercise counts are unbounded; the behaviour of `atoi` on numbers beyond 32 bits is not modelled.
- Wi-Fi and BLE drivers are inputs of the steps; other users of Wi-Fi, the credential store (apart from its three answers), `wifi.provision`, `device.challenge` and the update of the last connected SSID in the store are not modelled.
- JSON replies are modelled as text with the escapes the serializer writes; bytes above 127 are passed through unchanged. The reader lets raw control characters through, which RFC 8259 forbids and the serializer writes; it knows no fractions and no surrogate escapes, which the replies never hold.
- CppLexing: from a raw carriage return, line end or NUL, and from a raw non-ASCII character inside a passed-on escape, nothing is read, since C++ gives them no fixed meaning in a literal.
- The arrays of language codes, language names and character sets are not modelled; only the blobs and offset tables are.
- OpdsStore: reading and writing the JSON file, and the obfuscation of passwords (taken to be undone by its inverse) are not modelled; whether saving works is a parameter.

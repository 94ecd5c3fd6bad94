# metadata-check: the reconciliation core in Dafny

metadata-check compares the identifiers of sequencing files across three sources:
- the metadata attached to each file in iRODS, as attribute-value-unit triples (AVUs);
- the file's own SAM/BAM/CRAM header;
- the Sequencescape database.

Samples, libraries and studies are each known by three kinds of identifier: `name`, `internal_id` and `accession_number`. This project models the logic that reconciles them.

- **Normalisation into a three-kind dict** (`MetadataUtils`). iRODS AVU lists are filtered by attribute. Header ids are filed by their guessed kind. Library ids are pooled from two attributes, deduplicated and filed again. The module also holds:
  - the adjacent comparison of entity lists fetched by different kinds;
  - the lanelet name of a path;
  - the iRODS path guessed for a file on lustre.
- **The header validity filter** (`HeaderMetadata`). Sentinel identifiers (`'N/A'`, `'undefined'`, `'unspecified'`, `-1`, `''`, `None`) are reported in a CheckResult by `_check_for_invalid_ids`. They are stripped by `fix_metadata`. `SAMFileHeaderMetadata` and its lanelet variant are classes whose fields `fix_metadata` updates.
- **The iRODS-versus-header comparator and the driver's argument checks** (`CramAndBamChecks`).
- **Self-consistency checks on Sequencescape fetch results** (`SeqscapeChecks`). Every queried id must be found. No id may be shared by two fetched entities. Entity sets fetched by different kinds of id are compared.
- **General helpers** (`Utils`): Levenshtein distance, key counting, duplicate detection, path filtering, `split_path_in_components` and small predicates.
- **Python semantics the model relies on:**
  - `Python` covers `set()`, counting, `str()` of a value, truthiness, and an insertion-ordered dict (`Dict`: the key list plus a map).
  - `Paths` covers POSIX `os.path.split` and `os.path.basename`.

**Exceptions.** Exceptions used as control flow become result datatypes: `Outcome`, `Comparison`, `GuardError` and `ArgsError`. Where the source raises at the first failure, the model returns that failure.

**Values.** Header ids and entity attributes may be strings, integers or `None`. They are modelled as `Python.Value`, so the string `"-1"` and the integer `-1` stay apart.

**Guessing the kind of an id.** `guess_identifier_type` is not part of this model. It is a parameter, `guess: T -> IdKind`, of every operation that uses it. Every property is proved for all such functions.

**Dict keys.** Identifier-kind dict keys are the enumeration `MetadataUtils.IdKind`, whose `Key()` gives the Python key string.

**Dict order.** `main/metadata_utils.py` and `main/cram_and_bam_checks.py` are Python 2 code, where dict iteration order is unspecified. A dict is modelled with an explicit key order, `Dict.keys`.
- For the dicts the model builds itself (`SortedIds`, `ExtractSamples`, `ExtractStudies`, `FileByGuessedKind`), it fixes that order to the order of the source's dict literal. Python 2 does not promise that order.
- Operations that iterate over a dict they are given (`CheckIrodsVsHeaderMetadata`, `CheckSameEntities`, `CheckForInvalidIds`, `FixIds`) take the order from `Dict.keys`. Their contracts hold for every key order. What `CheckIrodsVsHeaderMetadata` reports depends on the order only through which mismatching kind comes first. Which pairs `CheckSameEntities` compares depends on the order entirely, because it compares neighbours.

**Where the code and its description differ, the model follows the code:**
- The iRODS-versus-header comparison checks only that header ids are in iRODS, not the reverse (`MismatchIsOneDirectional`).
- `check_raw_metadata` computes the comparison of entity sets and drops its result (`SeqscapeChecks.CheckRawMetadata`).
- Both adjacent-pair loops stop one pair short. Their labels are discussed under Findings.

## Model

| member | source | states |
|---|---|---|
| Python.Duplicated | mcheck/com/utils.py:207-210 | the elements occurring more than once, each exactly once; empty exactly when the input has no duplicates |
| Python.Dict.Items | mcheck/metadata/file_header_metadata/header_metadata.py:57 | the dict's items in key order, one per key, each key with its value |
| Python.ItemsMembers | mcheck/metadata/file_header_metadata/header_metadata.py:57 | a pair is among the items exactly when its key is in the dict and maps to its value |
| Paths.Split | mcheck/com/utils.py:224 | `os.path.split`: the tail is everything after the last '/' (all of the path when there is none), the head a prefix of the path |
| Paths.SplitKeepsSlashOnlyHead | mcheck/com/utils.py:224 | the head is the path up to and including the last '/', with trailing slashes stripped unless it consists of slashes only |
| Paths.Basename | main/metadata_utils.py:161 | `os.path.basename`: the longest slash-free suffix |
| Paths.BasenameOfJoin | main/metadata_utils.py:174 | the basename of `dir + "/" + name` is `name` for a slash-free name |
| Utils.EditDistanceSymmetric | mcheck/com/utils.py:296-300 | the distance does not depend on argument order, which is why the arguments may be swapped |
| Utils.EditDistanceZero | mcheck/com/utils.py:294-312 | the distance is 0 exactly between equal sequences |
| Utils.EditDistanceBounds | mcheck/com/utils.py:302-312 | distance to the empty sequence is the length; the distance lies between the length difference and the larger length |
| Utils.EditDistanceStep | mcheck/com/utils.py:306-310 | the minimum of add, delete and change is the edit distance of the two prefixes |
| Utils.NextRow | mcheck/com/utils.py:304-310 | the inner loop turns row `i - 1` of the distance table into row `i` |
| Utils.Levenshtein | mcheck/com/utils.py:294-312 | `levenshtein(a, b)` equals the recursive edit distance of `a` and `b` |
| Utils.CountMapSnoc | mcheck/com/utils.py:335-336 | counting one more key increments its count from its current number of occurrences (zero if absent) |
| Utils.GetKeyCounts | mcheck/com/utils.py:328-337 | each first element mapped to the number of tuples starting with it |
| Utils.CountMapSum | mcheck/com/utils.py:328-337 | the counts add up to the number of tuples |
| Utils.GetFileDuplicates | mcheck/com/utils.py:207-210 | each file listed more than once appears exactly once; `[]` when all files are distinct |
| Utils.ListsContainSameElements | mcheck/com/utils.py:195-196 | true exactly when the two lists have the same members |
| Utils.SameElementsAsDedup | mcheck/com/utils.py:195-196 | the comparison ignores repetition and is symmetric |
| Utils.FilterOutInvalidPaths | mcheck/com/utils.py:203-204 | only paths other than None, `' '` and `''` remain, each as often as in the input |
| Utils.FilterOutInvalidPathsAppend | mcheck/com/utils.py:203-204 | filtering distributes over concatenation, so the kept paths keep their order |
| Utils.CheckAllKeysHaveTheSameValue | mcheck/com/utils.py:252-255 | with a truthy value: every value equals it (true on an empty dict); otherwise: the dict is non-empty and all values agree |
| Utils.SingletonValues | mcheck/com/utils.py:255 | one distinct value exactly when the dict is non-empty and all values agree |
| Utils.FilterOutNoneKeysAndValues | mcheck/com/utils.py:249-250 | keeps exactly the pairs whose key and value are not None, values unchanged |
| Utils.FilterOutNoneKeysAndValuesIdempotent | mcheck/com/utils.py:249-250 | filtering twice equals filtering once and never adds a key |
| Utils.IsHexadecimalString | mcheck/com/utils.py:291-292 | true exactly when every character is 0-9, a-f or A-F |
| Utils.SplitLoopComponents | mcheck/com/utils.py:223-231 | the loop collects the components in reverse order |
| Utils.SplitPathInComponents | mcheck/com/utils.py:221-233 | the result is the components of the path obtained by repeated `os.path.split` |
| Utils.ComponentsSnoc | mcheck/com/utils.py:224-227 | appending a proper segment appends it to the components |
| Utils.ComponentsOfJoin | mcheck/com/utils.py:221-233 | a relative path of proper segments splits into exactly those segments; an absolute one gets `'/'` first |
| MetadataUtils.AllKinds | main/metadata_utils.py:63 | helper for `SortedIdsSpec`: a dict with the three kind keys is defined on every kind |
| MetadataUtils.BucketCount | main/metadata_utils.py:64-66 | an id occurs in the bucket of its guessed kind as often as in the input, and in no other bucket |
| MetadataUtils.BucketAppend | main/metadata_utils.py:64-66 | filing keeps the input order within each bucket |
| MetadataUtils.BucketsTotal | main/metadata_utils.py:63-67 | the three buckets together hold as many ids as the input |
| MetadataUtils.SortedIdsSpec | main/metadata_utils.py:51-67 | exactly the three kind keys; each id filed under its guessed kind as often as given; total count preserved |
| MetadataUtils.SortEntitiesByGuessingIdType | main/metadata_utils.py:51-67 | the loop builds that dict |
| MetadataUtils.ValuesForKeyCount | main/metadata_utils.py:152-157 | each value occurs as often as AVUs with the key and that value |
| MetadataUtils.ValuesForKeyAppend | main/metadata_utils.py:152-157 | the values keep the order of their AVUs |
| MetadataUtils.ExtractValuesForKey | main/metadata_utils.py:152-157 | the loop returns the values of the AVUs whose attribute is the key, in input order |
| MetadataUtils.ExtractSamples | main/metadata_utils.py:180-188 | name from `sample`, accession_number from `sample_accession_number`, internal_id from `sample_id` |
| MetadataUtils.ExtractStudies | main/metadata_utils.py:191-199 | name from `study`, internal_id from `study_id`, accession_number from `study_accession_number` |
| MetadataUtils.KindKeysOfTotal | main/metadata_utils.py:209 | helper for `FileByGuessedKind`: a dict defined on every kind has exactly the three kind keys |
| MetadataUtils.FiledByKindStep | main/metadata_utils.py:210-212 | helper for `FileByGuessedKind`, one loop step: filing a new id under its guessed kind keeps every list duplicate-free and exactly the filed ids of its kind |
| MetadataUtils.LibraryIdPool | main/metadata_utils.py:204-208 | the pool is exactly the values under `library_id` or `library` |
| MetadataUtils.FileByGuessedKind | main/metadata_utils.py:209-213 | each pooled id is filed once, under its guessed kind, and nothing else is |
| MetadataUtils.ExtractLibraries | main/metadata_utils.py:203-213 | three kind keys; no list has duplicates; an id is under a kind exactly when it is a library id guessed to be of that kind |
| MetadataUtils.AdjacentProblemsSpec | main/metadata_utils.py:37-44 | a compared pair yields a problem exactly when its two lists are non-empty and hold different sets: every such pair is reported, and every problem is one of them, carrying `entity_type`, the two kinds and the two lists; no problem exactly when no compared pair differs |
| MetadataUtils.CheckSameEntities | main/metadata_utils.py:34-45 | as written: the pairs `(i - 1, i)` for `i` up to `len - 2` only; fewer than three keys give no problem |
| MetadataUtils.CheckSameEntitiesAllPairs | main/metadata_utils.py:34-45 | every adjacent pair compared; no problem exactly when all adjacent non-empty lists agree as sets |
| MetadataUtils.CheckSameEntitiesSkipsLastPair | main/metadata_utils.py:37 | two kinds with different entities: no problem as written, one with every pair compared |
| MetadataUtils.ExtractLaneletName | main/metadata_utils.py:160-162 | the longest slash-free suffix of the iRODS path |
| MetadataUtils.FirstField | main/metadata_utils.py:173 | the prefix up to the first separator, or the whole string |
| MetadataUtils.GuessSeqIrodsPath | main/metadata_utils.py:167-175 | the guessed iRODS path names the same file as the lustre path |
| HeaderMetadata.IsIdValidSpec | mcheck/metadata/file_header_metadata/header_metadata.py:32-45 | `IsIdValid` (`_is_id_valid`) is false exactly for the six sentinels; the string `"-1"` is valid |
| HeaderMetadata.FilterOutInvalidIds | mcheck/metadata/file_header_metadata/header_metadata.py:47-49 | a subset of the input holding all of its valid ids and only valid ids |
| HeaderMetadata.FilterOutInvalidIdsIdempotent | mcheck/metadata/file_header_metadata/header_metadata.py:48-49 | filtering a filtered set changes nothing |
| HeaderMetadata.InvalidOfMembers | mcheck/metadata/file_header_metadata/header_metadata.py:58 | the wrong ids are exactly the invalid members of the list |
| HeaderMetadata.WrongIdsMembers | mcheck/metadata/file_header_metadata/header_metadata.py:58-60 | an id is reported exactly when it is an invalid member, for lists and sets alike |
| HeaderMetadata.ChecksOverStatus | mcheck/metadata/file_header_metadata/header_metadata.py:53-61 | FAILURE exactly when there is a message, otherwise the initial result |
| HeaderMetadata.ChecksOverMessages | mcheck/metadata/file_header_metadata/header_metadata.py:57-61 | an "Invalid …" message occurs exactly for the items that hold invalid ids, carrying those ids |
| HeaderMetadata.ChecksOverOrder | mcheck/metadata/file_header_metadata/header_metadata.py:53-61 | "No ids found." comes first when the dict has no keys, and every other message is an "Invalid …" one |
| HeaderMetadata.ChecksOverDistinct | mcheck/metadata/file_header_metadata/header_metadata.py:57-61 | with distinct keys no message repeats, so each key with invalid ids gets exactly one message; each names the key of an item |
| HeaderMetadata.ChecksOverPasses | mcheck/metadata/file_header_metadata/header_metadata.py:53-61 | no message exactly when the dict has keys and no item holds an invalid id |
| HeaderMetadata.InvalidIdsCheckSpec | mcheck/metadata/file_header_metadata/header_metadata.py:51-62 | FAILURE iff any message. "No ids found." iff the dict has no keys; it is then the only message, and all-empty lists do not trigger it. An "Invalid …" message for a key iff its values hold invalid ids, carrying them. No message repeats |
| HeaderMetadata.CheckForInvalidIds | mcheck/metadata/file_header_metadata/header_metadata.py:51-62 | the loop over the items computes that result |
| HeaderMetadata.FixDictSpec | mcheck/metadata/file_header_metadata/header_metadata.py:71-77 | fixing keeps the keys; under each key it keeps exactly the valid ids |
| HeaderMetadata.FixDictIdempotent | mcheck/metadata/file_header_metadata/header_metadata.py:70-78 | fixing twice equals fixing once |
| HeaderMetadata.CheckAfterFix | mcheck/metadata/file_header_metadata/header_metadata.py:70-78 | a fixed dict with keys passes the invalid-ids check with no message |
| HeaderMetadata.FixIds | mcheck/metadata/file_header_metadata/header_metadata.py:71-73 | the loop replaces every value by the set of its valid ids |
| HeaderMetadata.DictEqSpec | mcheck/metadata/file_header_metadata/header_metadata.py:89-90 | two dicts are equal exactly when every lookup agrees, whatever their key order |
| HeaderMetadata.FixDictRespectsDictEq | mcheck/metadata/file_header_metadata/header_metadata.py:70-78 | equal dicts stay equal after fixing |
| HeaderMetadata.SAMFileHeaderMetadata.constructor | mcheck/metadata/file_header_metadata/header_metadata.py:34-40 | the six fields hold the given values |
| HeaderMetadata.SAMFileHeaderMetadata.CheckMetadata | mcheck/metadata/file_header_metadata/header_metadata.py:64-68 | exactly two results: samples first, then libraries; studies are not checked |
| HeaderMetadata.SAMFileHeaderMetadata.FixMetadata | mcheck/metadata/file_header_metadata/header_metadata.py:70-78 | samples and libraries are fixed; studies, fpath, reference and platforms are unchanged |
| HeaderMetadata.LaneletSAMFileHeaderMetadata.constructor | mcheck/metadata/file_header_metadata/header_metadata.py:94-96 | the base fields and the lanelets hold the given values |
| HeaderMetadata.EqualsSpec | mcheck/metadata/file_header_metadata/header_metadata.py:88-91 | `SAMFileHeaderMetadata.Equals` (`__eq__`) holds exactly when fpath, reference and platforms agree and the three dicts agree key by key |
| HeaderMetadata.LaneletEqualsSpec | mcheck/metadata/file_header_metadata/header_metadata.py:101-102 | `LaneletSAMFileHeaderMetadata.Equals` holds exactly when the lanelets agree and every field of the header metadata agrees |
| SeqscapeChecks.FindMissingIds | metadata/seqscape_metadata/seqsc_metadata_checks.py:32-33 | the given ids that were not found |
| SeqscapeChecks.FindDuplicatedIds | metadata/seqscape_metadata/seqsc_metadata_checks.py:36-37 | each id found more than once, exactly once; empty exactly when no id repeats |
| SeqscapeChecks.IdsFoundAsStrings | metadata/seqscape_metadata/seqsc_metadata_checks.py:41-42 | `str()` of each fetched entity's attribute of the query kind, in order |
| SeqscapeChecks.CheckAllIdsWereFound | metadata/seqscape_metadata/seqsc_metadata_checks.py:40-46 | NotFound exactly when some queried id matches no fetched entity's attribute, carrying exactly those ids |
| SeqscapeChecks.EntitiesWithIdIn | metadata/seqscape_metadata/seqsc_metadata_checks.py:52-53 | exactly the entities whose attribute is among the given ids |
| SeqscapeChecks.CheckNoDuplicatesFound | metadata/seqscape_metadata/seqsc_metadata_checks.py:49-56 | TooMany exactly when an attribute value is shared; carries the shared values once each and exactly the entities holding one |
| SeqscapeChecks.SharedIdIsTooMany | metadata/seqscape_metadata/seqsc_metadata_checks.py:49-56 | two entities with the same attribute trip the check, and both are among the reported entities |
| SeqscapeChecks.FirstFailureSpec | metadata/seqscape_metadata/seqsc_metadata_checks.py:82-85 | Ok exactly when every fetch result passes; otherwise the failure of the first that does not |
| SeqscapeChecks.NotFoundPreemptsTooMany | metadata/seqscape_metadata/seqsc_metadata_checks.py:84-85 | a missing id is reported even when the same result also has duplicates |
| SeqscapeChecks.FirstFailureAppend | metadata/seqscape_metadata/seqsc_metadata_checks.py:82-85 | a later fetch result is checked only when all earlier ones pass |
| SeqscapeChecks.CheckEntitiesFetched | metadata/seqscape_metadata/seqsc_metadata_checks.py:82-85 | the loop stops at the first raised error and returns it |
| SeqscapeChecks.PairErrorsSpec | metadata/seqscape_metadata/seqsc_metadata_checks.py:65-73 | a compared pair yields an error exactly when its sets differ: every differing pair's error is recorded, and every error is one of those, labelled as written or with matching labels; no error exactly when no compared pair differs |
| SeqscapeChecks.CompareEntitySets | metadata/seqscape_metadata/seqsc_metadata_checks.py:62-74 | as written: only the pairs `(i - 1, i)` with `i` up to `len - 2` are compared, and no error exactly when none of those differs. Every error has `id_type1` from element `i`, `id_type2` from `i - 1`, and the sets from `i - 1` and `i`, and every such differing pair is reported. Length at most 2 gives no error |
| SeqscapeChecks.CompareEntitySetsAllPairs | metadata/seqscape_metadata/seqsc_metadata_checks.py:62-74 | every adjacent pair; no error exactly when all adjacent sets agree; each error labels each set with the kind that fetched it |
| SeqscapeChecks.AdjacentAgreementIsAgreement | metadata/seqscape_metadata/seqsc_metadata_checks.py:65-66 | adjacent sets all agree exactly when all fetched sets agree |
| SeqscapeChecks.CompareEntitySetsSkipsLastPair | metadata/seqscape_metadata/seqsc_metadata_checks.py:65 | two differing fetch results: no error as written, one with every pair compared |
| SeqscapeChecks.CompareEntitySetsSwapsIdTypes | metadata/seqscape_metadata/seqsc_metadata_checks.py:68-72 | as written the entities fetched by name are labelled internal_id; corrected they are labelled name |
| SeqscapeChecks.CheckRawMetadata | metadata/seqscape_metadata/seqsc_metadata_checks.py:102-112 | the first failure over all entity types in order; comparison problems are dropped |
| CramAndBamChecks.CheckAllIdentifiersInMetadata | main/cram_and_bam_checks.py:42-50 | a kind is reported exactly when its flag is set and its list is missing or empty, in the order name, internal_id, accession_number; no kind twice, at most three lines |
| CramAndBamChecks.ReportHasNoDuplicates | main/cram_and_bam_checks.py:42-50 | helper for `CheckAllIdentifiersInMetadata`: a report in rank order names each kind at most once and has at most three lines |
| CramAndBamChecks.CheckIrodsVsHeaderMetadata | main/cram_and_bam_checks.py:53-65 | raises exactly when some kind is non-empty on both sides with a header id absent from iRODS; reports the first such kind in iteration order with both lists; a kind empty or absent on either side never raises |
| CramAndBamChecks.IdenticalNeverMismatches | main/cram_and_bam_checks.py:61 | a dict compared with itself never mismatches |
| CramAndBamChecks.ExtraIrodsIdsNeverMismatch | main/cram_and_bam_checks.py:61 | adding ids to a non-empty iRODS list never creates a mismatch (a kind whose iRODS list is empty is skipped, so filling it can) |
| CramAndBamChecks.MismatchIsOneDirectional | main/cram_and_bam_checks.py:61 | when iRODS holds every header id of a kind and more, there is no mismatch; with the two lists swapped there is one |
| CramAndBamChecks.RunMetadataTestsGuard | main/cram_and_bam_checks.py:75-79 | no iRODS metadata with an iRODS test requested is refused first; then no header metadata with a header test requested; otherwise no error |
| CramAndBamChecks.HeaderTestWithoutAnyMetadata | main/cram_and_bam_checks.py:75-79 | with neither metadata given and a header test requested, the iRODS guard fires first, because every header test is also an iRODS test |
| CramAndBamChecks.CheckArgs | main/cram_and_bam_checks.py:192-206 | refused when neither iRODS paths nor a study is given, whatever the fofn; then when no check is selected; otherwise accepted |

## Left out

- I/O of every kind is not modelled: reading headers, querying iRODS and Sequencescape, argparse, printing, reading the fofn, and the clock helpers. The callers of the checks (`run_metadata_tests` past its guards, `start_tests`, `collect_fpaths_for_study`) are not modelled either.
- `guess_identifier_type` is not part of this model. It is a parameter of the operations that use it.
- `extract_fname_from_path` is not part of this model. It is taken to be `os.path.basename`.
- SeqscapeChecks.Entity: entity equality, which decides `set(...) == set(...)` at metadata/seqscape_metadata/seqsc_metadata_checks.py:66, is taken to be equality of name, internal_id and accession_number. The Sequencescape entity class's own `__eq__`/`__hash__` is not part of this model.
- SeqscapeChecks.Fetched: the field `fetchedEntityType` stands for the `entity_type` attribute of `SeqscapeEntitiesFetched`, which the errors report. It is taken to be the `fetched_entity_type` the result was built with, and nothing ties it to `queryEntityType`.
- The `SeqscapeRawMetadata` accessors are not part of this model. `CheckRawMetadata` takes the fetch results already grouped by entity type, in the order the accessors return them.
- `check_entities_fetched_by_different_id_types` only forwards to `_compare_entity_sets`, so it is modelled by `CompareEntitySets`.
- Error messages are datatypes, not formatted strings. `str(list)` of the ids and the message texts are not modelled, except `CramAndBamChecks.MissingMessage`, which holds the exact report lines. The wrong ids of one key are kept as a multiset.
- The `CheckResult` class's own methods and its default constructor arguments are not part of this model. `CheckResult` and `RESULT` are modelled as the `CheckResult` and `Status` datatypes. `Unset` stands for the result a fresh CheckResult holds before a check sets it.
- HeaderMetadata.FixMetadata: the model does not share the dicts created by the mutable default arguments of `__init__`. It also does not model aliasing of the dicts between objects; each object holds its dicts as values.
- MetadataUtils.FileByGuessedKind: the order in which `list(set(...))` yields the library ids is not modelled. The method files them in any order, and its contract fixes the members of each list but not their order.
- Utils.GetFileDuplicates: the order of `Counter.items()` is modelled as first-occurrence order, but the contract does not state the order; it fixes the members and their uniqueness.
- CramAndBamChecks.CheckIrodsVsHeaderMetadata: the Python 2 dict iteration order is not modelled; the kinds are visited in the order of the header dict's key list. The header value is the list itself, not its `str()`.
- MetadataUtils.GuessSeqIrodsPath: the proof covers only its file name. It does not prove that the path's components are `seq`, the run id and the file name.
- CramAndBamChecks.CheckArgs: `fpaths_irods`, `study`, `desired_ref` and `check_irods_meta_against_config` are optional strings, falsy when absent or empty. `collateral_tests` (true by default) is reduced to its truth value.
- RunMetadataTestsGuard: the iRODS metadata is an AVU list, falsy when empty. The header metadata is reduced to whether it was given.
- CramAndBamChecks.CheckAllIdentifiersInMetadata: the report lists the kinds, not the report strings. `MissingMessage` maps each kind to its line.
- Integers are unbounded, as in Python.

## Findings

| source | as written | input that shows it | evidently intended | confidence | as-written member | corrected member |
|---|---|---|---|---|---|---|
| main/metadata_utils.py:37 | `xrange(1, len(id_types)-1)` compares the pairs `(i - 1, i)` only up to `i = len - 2` | keys `name`, `internal_id` with lists `[1]` and `[2]`: no problem reported | `xrange(1, len(id_types))`, comparing every adjacent pair | high, not executed | MetadataUtils.CheckSameEntitiesSkipsLastPair | MetadataUtils.CheckSameEntitiesAllPairs |
| metadata/seqscape_metadata/seqsc_metadata_checks.py:65 | `range(1, len(entities_list) - 1)` skips the last adjacent pair | two fetch results, by name and by internal_id, with different entities: no error | `range(1, len(entities_list))` | high, not executed | SeqscapeChecks.CompareEntitySetsSkipsLastPair | SeqscapeChecks.CompareEntitySetsAllPairs |
| metadata/seqscape_metadata/seqsc_metadata_checks.py:69-70 | `id_type1` is taken from element `i` and `id_type2` from `i - 1`, while `entities_set1` is from `i - 1` | three fetch results, by name, internal_id and internal_id, the first differing: the entities fetched by name are labelled internal_id | `id_type1` from element `i - 1`, `id_type2` from element `i` | medium, not executed | SeqscapeChecks.CompareEntitySetsSwapsIdTypes | SeqscapeChecks.CompareEntitySetsAllPairs |

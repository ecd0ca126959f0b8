# aws-ecr-cleaner in Dafny

This project is a verified model of aws-ecr-cleaner. The tool lists the Amazon ECR
repositories of one account and region, picks the images that may be deleted,
asks for confirmation, deletes them, and then deletes the repositories left
empty. The model covers five pieces:

- the image selector `FilterImagesForDeletion`, which runs per repository;
- the composite pattern matcher (`MultiRegexMatch` with its `OR` and `&&`
  forms) and the registry-prefix normaliser `TrimRegistry`;
- the name filter inside `GetRepositories`;
- the request that `DeleteImage` builds;
- the decisions of `Run`, and the environment validation of `LoadConfig`.

Modules, one file each:

| file | module | models |
|---|---|---|
| outcomes.dfy | Outcomes | `Option`, `Result`, and `Outcome`. An `Outcome` is a value or a fatal stop: `log.Fatalf` or a runtime panic. |
| strings.dfy | Strings | The parts of Go's `strings` and `strconv` that the tool relies on. |
| regex.dfy | Regex | internal/util/regex.go |
| ecr.dfy | Ecr | internal/ecr/ecr.go: the selector, the repository filter, and `DeleteImage`. |
| ecr_properties.dfy | EcrProperties | Lemmas about the selector and the repository filter. |
| config.dfy | Config | internal/config/config.go |
| cleaner.dfy | Cleaner | internal/cleaner/cleaner.go: one run. |
| cleaner_properties.dfy | CleanerProperties | Lemmas about a run. |

Modelling choices:

- **The regexp engine.** Go's `regexp` engine is the parameter `Engine`, a pair of
  uninterpreted predicates:
  - whether a pattern compiles;
  - whether a compiled pattern matches somewhere in a subject.
- **Fatal stops.** A pattern that fails to compile ends the process
  (`log.Fatalf`), and so does a negative slice index. The model returns these
  as `Abort(...)` outcomes instead of using preconditions.
- **Run as a trace.** `Run` takes everything it would ask of AWS, the cluster
  and the terminal as a `World` value. It returns how the run ends (`Exit`) and
  the list of registry calls it issues (`Effect`). In dry-run mode those calls
  become reports.
- **Imperative code stays imperative.** The selector, the repository filters
  and the phases of `Run` are `method`s with loops. Each is proved against a
  specification function or predicate, and the lemmas state the properties of
  that specification:
  - `Ecr.Selects` for the selector;
  - `Ecr.FilterByName` for the repository filters;
  - `Cleaner.RunsAs` for a run.
- **Sort order.** `sort.Slice` is not stable. The selector's specification
  therefore accepts any newest-first permutation of the in-use bucket and does
  not fix the order of ties.
- **Push times.** A push time is an integer number of Unix seconds. A missing
  push time is Go's zero time, -62135596800.
- **The in-use map.** The map of in-use image references is an input.
  (internal/k8s/k8s.go is not part of this model.)

Four behaviours of the code that the model states outright:

- **List-only mode deletes empty repositories.** The scan loop deletes an empty
  repository on the spot (internal/cleaner/cleaner.go:98-115). That loop runs
  before the list-only exit (internal/cleaner/cleaner.go:166-169), so list-only
  mode still deletes such repositories. `CleanerProperties.EmptyRepositoryDeleted`
  states this. Only image deletion waits for the list-only and confirmation
  gates.
- **The re-check has no registry check.** The loop that runs after the
  deletions (internal/cleaner/cleaner.go:196-221) does not check the
  target-registry prefix. It deletes every listed repository that is empty at
  that point, whatever its URI.
- **A missing push time stops the run.** Recording the scanned images
  dereferences `ImagePushedAt` without a nil check
  (internal/cleaner/cleaner.go:134). In a run, an image without a push time
  therefore stops the process before the selector sees that repository. The
  zero-time default inside the selector only matters when the selector is
  called on its own.
- **Negative protection counts are accepted.** `LoadConfig` accepts any integer
  for `PROTECT_LATEST`, negative ones included (internal/config/config.go:42-47).
  The selector then panics on the slice `inUseCandidates[protectedCount:]`
  (internal/ecr/ecr.go:143-153).

## Model

| member | source | states |
|---|---|---|
| Strings.IndexOf | aws-ecr-cleaner/internal/util/regex.go:11 | The result is the first index where the separator occurs, or None when it occurs nowhere. |
| Strings.Split | aws-ecr-cleaner/internal/util/regex.go:21 | A split always yields at least one piece. SplitJoin, SplitPiecesFree and SplitLeftmost describe the pieces, and SplitUnique shows that those three properties determine the split. |
| Strings.SplitJoin | aws-ecr-cleaner/internal/util/regex.go:21 | Joining the pieces of a split with the separator gives back the original string. |
| Strings.SplitPiecesFree | aws-ecr-cleaner/internal/util/regex.go:34 | No piece of a split contains the separator. |
| Strings.SplitLeftmost | aws-ecr-cleaner/internal/util/regex.go:21 | Separators are found from the left. No occurrence of the separator starts inside a piece, including one that runs into the separator after it. |
| Strings.FirstOccurrenceAfter | aws-ecr-cleaner/internal/util/regex.go:21 | If no occurrence of the separator starts inside `p`, the first occurrence in `p + sep + rest` is the one right after `p`. |
| Strings.SplitUnique | aws-ecr-cleaner/internal/util/regex.go:21 | Any list of pieces that joins back to the string, is free of the separator and has leftmost separators is the split. |
| Strings.SplitSingle | aws-ecr-cleaner/internal/util/regex.go:20-21 | A split is the single piece `[s]` exactly when the separator does not occur in `s`. |
| Strings.TrimSpaceStrips | aws-ecr-cleaner/internal/util/regex.go:23 | The trimmed part sits inside the input between a whitespace-only prefix and a whitespace-only suffix. |
| Strings.TrimSpaceEnds | aws-ecr-cleaner/internal/util/regex.go:36 | The trimmed part neither starts nor ends with whitespace. |
| Strings.ToLower | aws-ecr-cleaner/internal/config/config.go:63 | Lowercasing keeps the length and maps each character on its own. |
| Strings.ToLowerIsWord | aws-ecr-cleaner/internal/cleaner/cleaner.go:179-180 | A string lowercases to "y" exactly when it is "y" or "Y". |
| Strings.Atoi | aws-ecr-cleaner/internal/config/config.go:44 | A string parses exactly when it is an optional '+' or '-' followed by one or more decimal digits, and the number it denotes fits in 64 bits. The result is that number. |
| Strings.LeadingZerosValue | aws-ecr-cleaner/internal/config/config.go:44 | Leading zeros do not change the value of a digit string. |
| Strings.AtoiPadded | aws-ecr-cleaner/internal/config/config.go:44 | Leading zeros and an explicit sign are accepted: "007", "+7" and "+007" read as 7, and "-007" reads as -7, for every 64-bit value. |
| Strings.AtoiItoa | aws-ecr-cleaner/internal/config/config.go:43-46 | Every 64-bit integer, once printed, parses back to itself. |
| Regex.MultiRegexMatch | aws-ecr-cleaner/internal/util/regex.go:19-53 | The loops with their early returns compute `Evaluate`: "OR" is checked first, then "&&", then the whole expression. |
| Regex.HoldTagMatch | aws-ecr-cleaner/internal/util/regex.go:56-58 | Identical to MultiRegexMatch on the joined tag string. |
| Regex.CompositeMatch | aws-ecr-cleaner/internal/util/regex.go:61-63 | Identical to MultiRegexMatch on the repository name. |
| Regex.AnyPartWhenAllCompile | aws-ecr-cleaner/internal/util/regex.go:21-32 | When every trimmed part compiles, OR mode is true iff some trimmed part matches. |
| Regex.AllPartsWhenAllCompile | aws-ecr-cleaner/internal/util/regex.go:34-45 | When every trimmed part compiles, && mode is true iff every trimmed part matches. |
| Regex.AnyPartShortCircuit | aws-ecr-cleaner/internal/util/regex.go:28-30 | Once OR mode has a match or a bad pattern, the parts after it cannot change the verdict, so they are never compiled. |
| Regex.AllPartsShortCircuit | aws-ecr-cleaner/internal/util/regex.go:41-43 | Once && mode has a non-match or a bad pattern, the parts after it cannot change the verdict. |
| Regex.AnyPartReachesBadPattern | aws-ecr-cleaner/internal/util/regex.go:24-27 | An OR part that the loop reaches and that fails to compile is fatal, and the fatal error names that part. |
| Regex.AllPartsReachesBadPattern | aws-ecr-cleaner/internal/util/regex.go:37-40 | An && part that the loop reaches and that fails to compile is fatal, and the fatal error names that part. |
| Regex.EvaluateBadPattern | aws-ecr-cleaner/internal/util/regex.go:24-50 | Every pattern reported as fatal is one that does not compile. |
| Regex.OrSemantics | aws-ecr-cleaner/internal/util/regex.go:20-32 | An expression containing "OR" is split on "OR" alone, even when it also contains "&&". It is true iff some trimmed part matches. |
| Regex.AndSemantics | aws-ecr-cleaner/internal/util/regex.go:33-45 | Without "OR", an expression containing "&&" is true iff every trimmed part matches. |
| Regex.SingleSemantics | aws-ecr-cleaner/internal/util/regex.go:46-52 | With neither delimiter, the whole untrimmed expression is one unanchored regex, or a fatal error when it does not compile. |
| Regex.EmptyOrPartMatches | aws-ecr-cleaner/internal/util/regex.go:21-31 | An empty OR part, once reached, matches everything and makes the expression true. |
| Regex.TrimRegistry | aws-ecr-cleaner/internal/util/regex.go:10-16 | A URI without "/" is returned unchanged. Otherwise the URI is a "/"-free prefix, then "/", then the result. |
| Regex.TrimRegistryOfReference | aws-ecr-cleaner/internal/util/regex.go:11-14 | Conversely, `host + "/" + path` with a "/"-free host normalises to `path`. |
| Ecr.ImageInUse | aws-ecr-cleaner/internal/ecr/ecr.go:117-125 | An image is in use iff protection is on and some tag, written as "trimmedRepoUri:tag", is marked true in the map. |
| Ecr.SortNewestFirst | aws-ecr-cleaner/internal/ecr/ecr.go:140-142 | The array ends newest first and holds the same entries. |
| Ecr.InsertNewest | aws-ecr-cleaner/internal/ecr/ecr.go:140-142 | One insertion step makes the first `i + 1` entries newest-first. It keeps the multiset of entries and leaves every entry after index `i` unchanged, so the entry that joins the prefix is the old `a[i]`. |
| Ecr.SwapDown | aws-ecr-cleaner/internal/ecr/ecr.go:140-142 | Exchanges two neighbouring entries and changes nothing else. |
| Ecr.ClassifyImage | aws-ecr-cleaner/internal/ecr/ecr.go:90-125 | The loop body puts one image into exactly the class `Classify` gives: untagged, held, in use, not in use, or a fatal hold pattern. |
| Ecr.FilterImagesForDeletion | aws-ecr-cleaner/internal/ecr/ecr.go:79-158 | The result satisfies `Selects`. A bad hold pattern, the first in image order, is fatal. A negative protectLatest panics. Otherwise the result is the not-in-use bucket followed by the sorted in-use bucket minus its newest protectLatest entries. |
| Ecr.GetRepositories | aws-ecr-cleaner/internal/ecr/ecr.go:40-50 | The result is `FilterByName` with keep=true over all pages in listing order. A bad pattern is fatal. |
| Ecr.DeleteImage | aws-ecr-cleaner/internal/ecr/ecr.go:172-189 | Dry-run mode yields only the report of the candidate's repository, tag and digest. Otherwise the request has one identifier for the candidate's repository. The identifier always carries the digest, and carries the tag exactly when the tag is non-empty. |
| EcrProperties.NotInUseOrigin | aws-ecr-cleaner/internal/ecr/ecr.go:91-138 | Every not-in-use candidate is the candidate of an untagged or not-in-use input image. |
| EcrProperties.InUseOrigin | aws-ecr-cleaner/internal/ecr/ecr.go:117-135 | Every in-use candidate is the candidate of an in-use input image. |
| EcrProperties.NotInUseMember | aws-ecr-cleaner/internal/ecr/ecr.go:91-138 | Every untagged or not-in-use image has its candidate in the not-in-use bucket. |
| EcrProperties.ClassifyNotHeld | aws-ecr-cleaner/internal/ecr/ecr.go:109-125 | An image is not held iff it is untagged, in use or not in use. Without protection no image is in use. |
| EcrProperties.BucketsPartition | aws-ecr-cleaner/internal/ecr/ecr.go:85-139 | Together the two buckets hold exactly the non-held images, as multisets. |
| EcrProperties.BucketsWithoutProtection | aws-ecr-cleaner/internal/ecr/ecr.go:117-138 | Without in-use protection the in-use bucket is empty, and the other bucket is exactly the non-held images in input order. |
| EcrProperties.Decompose | aws-ecr-cleaner/internal/ecr/ecr.go:140-156 | A successful selection has a newest-first arrangement of the in-use bucket that explains it. |
| EcrProperties.SelectedOrigin | aws-ecr-cleaner/internal/ecr/ecr.go:85-156 | Every selected candidate comes from an input image that is neither held nor fatal. |
| EcrProperties.UntaggedAlwaysSelected | aws-ecr-cleaner/internal/ecr/ecr.go:91-100 | An untagged image always appears in the result with tag "", whatever the hold expression and the in-use map say. |
| EcrProperties.HeldNeverSelected | aws-ecr-cleaner/internal/ecr/ecr.go:103-115 | When the hold expression accepts the joined tag string "[t1 t2 ...]" and the image's digest is unique in the list, no candidate carries that digest. |
| EcrProperties.NoProtectionWithoutInUse | aws-ecr-cleaner/internal/ecr/ecr.go:121-156 | With in-use protection off, the result is exactly the non-held images in input order. |
| EcrProperties.NewestInUseProtected | aws-ecr-cleaner/internal/ecr/ecr.go:140-156 | The in-use bucket splits into min(protectLatest, n) protected entries and a newest-first rest. Every protected entry is at least as new as every kept one. The result is the not-in-use bucket followed by the rest. |
| EcrProperties.SelectionSize | aws-ecr-cleaner/internal/ecr/ecr.go:144-156 | The result has length `|notInUse| + max(0, n - protectLatest)`. |
| EcrProperties.FailureCases | aws-ecr-cleaner/internal/ecr/ecr.go:110-153 | Selection fails iff a hold pattern is bad or protectLatest is negative. A bad pattern is reported by name. |
| EcrProperties.DigestsFromInput | aws-ecr-cleaner/internal/ecr/ecr.go:85-139 | The selected digests are a sub-multiset of the input digests: every image contributes at most one candidate. |
| EcrProperties.HoldExampleVerdicts | aws-ecr-cleaner/internal/ecr/ecr.go:107-110 | The hold expression "keep" holds the tag list ["keep"] and not ["v1"]. |
| EcrProperties.ExampleEligible | aws-ecr-cleaner/internal/ecr/ecr.go:79-115 | In that worked case no hold pattern is fatal, and the eligible images are the untagged one and the "v1" one. |
| EcrProperties.SelectionExample | aws-ecr-cleaner/internal/ecr/ecr.go:79-158 | An untagged image, one tagged "v1" and one held by "keep" select the first two, in input order. That is the only outcome the selector can give. |
| EcrProperties.FilterByNameMembership | aws-ecr-cleaner/internal/ecr/ecr.go:40-50 | The filter is fatal iff some listed name has a bad pattern. Otherwise it keeps exactly the listed repositories whose names evaluate to the kept verdict. |
| EcrProperties.FilterByNameAborts | aws-ecr-cleaner/internal/ecr/ecr.go:41-43 | The filter is fatal iff some listed name meets a bad pattern. |
| EcrProperties.FilterByNameKeeps | aws-ecr-cleaner/internal/ecr/ecr.go:41-48 | A repository is kept iff it is listed and its name evaluates to the kept verdict. |
| EcrProperties.FilterByNameAppend | aws-ecr-cleaner/internal/ecr/ecr.go:40-50 | Filtering a concatenation concatenates the filtered parts, so listing order across pages is kept. |
| Config.LoadConfig | aws-ecr-cleaner/internal/config/config.go:32-104 | LoadConfig fails on the first failing check: LOGDIR, then TARGET_REPO_REGEX or HOLD_TAG_REGEX, then AWS_REGION, then an empty or unknown ENV. On success it copies the strings, lowercases ENV and picks that ENV's image list. Each flag is true iff its variable is exactly "true". The protection count comes from PROTECT_LATEST. |
| Config.ImageListForKnown | aws-ecr-cleaner/internal/config/config.go:67-77 | Only pre, prd and mgmt have an image list. |
| Config.ProtectLatestDefault | aws-ecr-cleaner/internal/config/config.go:42-47 | PROTECT_LATEST is 3 when it is unset, is not an optionally signed digit string, or is out of the 64-bit range. Otherwise it is the number the string denotes. |
| Config.ProtectLatestRoundTrip | aws-ecr-cleaner/internal/config/config.go:42-47 | Any 64-bit integer, negative values included, is read back unchanged. |
| Config.EnvCaseInsensitive | aws-ecr-cleaner/internal/config/config.go:63 | Two spellings of ENV with the same lowercase form load the same settings. |
| Cleaner.ConfirmationGate | aws-ecr-cleaner/internal/cleaner/cleaner.go:172-184 | Deletion proceeds iff auto-confirm is on or the trimmed answer is "y" or "Y". A failed read is fatal, and only without auto-confirm. |
| Cleaner.ExcludeRepositories | aws-ecr-cleaner/internal/cleaner/cleaner.go:64-76 | The exclude loop keeps the repositories whose names the expression rejects, in order. A bad pattern is fatal. |
| Cleaner.RecordScannedImages | aws-ecr-cleaner/internal/cleaner/cleaner.go:118-137 | The scan records one entry per image, or stops (nil dereference) iff some image has no push time. |
| Cleaner.NameCandidates | aws-ecr-cleaner/internal/cleaner/cleaner.go:143-146 | Each selected candidate is collected with its repository's name. |
| Cleaner.ScanRepositories | aws-ecr-cleaner/internal/cleaner/cleaner.go:82-151 | For some scan record, the returned effects, candidates and failure satisfy `ScanResult`, which includes `ScanOutcome`. Repositories outside the target registry, or whose listing fails, yield nothing. Empty ones yield a repository deletion. The others go to the selector, and the scan stops at the first fatal outcome. Candidates are concatenated in repository order. |
| Cleaner.DeleteCandidates | aws-ecr-cleaner/internal/cleaner/cleaner.go:187-192 | One DeleteImage per candidate, in order. |
| Cleaner.RecheckRepositories | aws-ecr-cleaner/internal/cleaner/cleaner.go:197-221 | Every repository whose second listing is empty is deleted, or reported in dry-run mode. |
| Cleaner.Run | aws-ecr-cleaner/internal/cleaner/cleaner.go:20-225 | For some repository list and scan record, the exit and the effects of a run satisfy `RunsAs`, phase by phase: listing, empty listing, exclude filter, scan, list-only exit, confirmation, deletions and re-check. |
| CleanerProperties.EmptyRepoEffectsOrigin | aws-ecr-cleaner/internal/cleaner/cleaner.go:85-114 | Every repository deletion of the scan is for an empty repository of the target registry. |
| CleanerProperties.EmptyRepoEffectsMember | aws-ecr-cleaner/internal/cleaner/cleaner.go:98-114 | Every empty target repository that the scan walks over is deleted, or reported in dry-run mode. |
| CleanerProperties.DeletionEffectsOrigin | aws-ecr-cleaner/internal/cleaner/cleaner.go:187-192 | Every deletion-phase effect is DeleteImage of some candidate. |
| CleanerProperties.DeletionEffectsPointwise | aws-ecr-cleaner/internal/cleaner/cleaner.go:187-192 | The deletion phase issues exactly one effect per candidate. Effect `k` is the DeleteImage of candidate `k`. |
| CleanerProperties.RecheckEffectsOrigin | aws-ecr-cleaner/internal/cleaner/cleaner.go:197-221 | Every re-check effect deletes a listed repository that was found empty. |
| CleanerProperties.RecheckEffectsMember | aws-ecr-cleaner/internal/cleaner/cleaner.go:197-221 | Every listed repository found empty at the re-check is deleted, whatever its URI. |
| CleanerProperties.NamedOrigin | aws-ecr-cleaner/internal/cleaner/cleaner.go:143-146 | Every collected candidate is a selected one carrying its repository's name. |
| CleanerProperties.AccumulatedOrigin | aws-ecr-cleaner/internal/cleaner/cleaner.go:140-147 | Every accumulated candidate is a selection of one repository, labelled with that repository's name. |
| CleanerProperties.ExcludedMembership | aws-ecr-cleaner/internal/cleaner/cleaner.go:62-76 | An empty exclude expression leaves the list unchanged. Otherwise the list keeps exactly the repositories whose names it rejects. |
| CleanerProperties.RunCases | aws-ecr-cleaner/internal/cleaner/cleaner.go:53-76 | A run either stops before the scan with no effect, or runs over the filtered list. |
| CleanerProperties.RunShape | aws-ecr-cleaner/internal/cleaner/cleaner.go:82-221 | Every run consists of the scan and its repository deletions. Only a completed run adds the image deletions and the re-check, and only after confirmation. |
| CleanerProperties.AfterScanCompleted | aws-ecr-cleaner/internal/cleaner/cleaner.go:166-221 | A completed run passed the list-only and confirmation gates, and its effects are the scan's, then the deletions, then the re-check. |
| CleanerProperties.NoImageDeletionUnlessConfirmed | aws-ecr-cleaner/internal/cleaner/cleaner.go:166-184 | A run that does not complete has touched only repositories, never images. |
| CleanerProperties.ListOnlyDeletesNoImages | aws-ecr-cleaner/internal/cleaner/cleaner.go:166-169 | List-only mode never completes and issues no image deletion or report. |
| CleanerProperties.DeletionNeedsConfirmation | aws-ecr-cleaner/internal/cleaner/cleaner.go:166-192 | An image deletion implies list-only is off and either auto-confirm is on or the trimmed answer is "y"/"Y". |
| CleanerProperties.DryRunIssuesNoMutation | aws-ecr-cleaner/internal/cleaner/cleaner.go:98-114 | In dry-run mode every effect is a report, in the scan, the deletions and the re-check. |
| CleanerProperties.EmptyRepositoryDeleted | aws-ecr-cleaner/internal/cleaner/cleaner.go:98-114 | An empty target repository that the scan reaches is deleted whichever way the run ends, list-only mode included. |
| CleanerProperties.RecheckDeletesEveryEmptyRepository | aws-ecr-cleaner/internal/cleaner/cleaner.go:197-221 | A completed run deletes every listed repository that is empty after the deletions. |
| CleanerProperties.SelectedFromTarget | aws-ecr-cleaner/internal/cleaner/cleaner.go:85-140 | A non-empty selection comes from a target-registry repository, and each selected digest is one of its listed images. |
| CleanerProperties.CandidatesFromTarget | aws-ecr-cleaner/internal/cleaner/cleaner.go:82-147 | Every collected candidate names a target-registry repository of the list and carries the digest of one of its images. |
| CleanerProperties.ImageDeletionsFromTargetRepositories | aws-ecr-cleaner/internal/cleaner/cleaner.go:82-192 | Every BatchDeleteImage names a target-registry repository of the run and a digest listed there during the scan. |
| CleanerProperties.MissingPushTimeAborts | aws-ecr-cleaner/internal/cleaner/cleaner.go:118-135 | An image without a push time in a non-empty target repository stops the run there, or at an earlier fatal error, before any image deletion. |

## Left out

- The AWS SDK is not modelled: session creation, STS GetCallerIdentity,
  pagination, and the BatchDeleteImage and DeleteRepository calls themselves.
  - Their results are inputs: the account id, the listing pages, and each
    repository's image list before and after the deletions.
  - Their invocations are `Effect` values.
  - A failing session or STS call is not modelled.
- The error results of BatchDeleteImage and DeleteRepository are not modelled.
  The source only prints them, so they do not change the run.
- Go's `regexp` engine is an uninterpreted parameter; its syntax and matching
  are not modelled.
- internal/k8s/k8s.go is not part of this model. The in-use map and the choice
  between the image-list file and the cluster are inputs.
- internal/logger/logger.go and cmd/main.go are not part of this model: they
  only redirect output and load the environment.
- Not modelled, because they are output only: `fmt` printing, debug logging,
  time formatting, and the printed scanned-image and candidate lists.
  - The scanned-image records of one repository are modelled
    (`Cleaner.RecordScannedImages`).
  - Their accumulation across repositories is printed only.
- `os.Exit` codes are represented by the `Exit` datatype.
- Reading standard input is the `answer` field of `World`; None means the read
  failed.
- The timestamped log-file path of `LoadConfig` (config.go:79-81) depends on the
  clock, so the `Config` datatype has no LogFilePath field.
- Cleaner.Listing: the repository pages are one input, and a failure on any
  page is reported as `ListRepositoriesFailed`. In the code, the page callback
  filters each page as it arrives, so a bad TARGET_REPO_REGEX on an earlier
  page stops the run with its own fatal message before a later page's listing
  error can. Either way the run ends fatally before any effect; only which
  fatal reason is reported differs.
- Strings.ToLower: lowercases ASCII letters only, not full Unicode case mapping.
  That is enough for the values it is compared with ("pre", "prd", "mgmt" and
  "y").
- Ecr.SortNewestFirst: implements sort.Slice as an insertion sort. Its contract
  (newest first, same multiset) is all the source relies on. The specification
  `Ecr.Selects` leaves the order of equal push times open, because sort.Slice is
  not stable.
- `time.Time` values are reduced to whole Unix seconds, so sub-second
  differences between push times are not modelled.

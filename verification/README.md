# kube-ecr-cleanup-controller in Dafny

This project models the core of kube-ecr-cleanup-controller, a Kubernetes
controller that deletes old, unused images from Amazon ECR repositories.
Each pass of the controller does the following:
- it lists the pods running in some namespaces;
- it works out which ECR repository and tag each container refers to;
- for each repository, it picks the oldest images none of whose tags a pod
  uses, as many as bring the repository down to a retention count;
- it deletes those images in one batch.

The repository holds two generations of the controller. Each one is a
Dafny module of its own:

- `Core` (`core.dfy`) is the older package `core/`:
  - an image is protected as soon as one of its tags is in use;
  - a batch has no size limit;
  - per-image delete failures are folded into one error;
  - a repository name in an image reference may not contain `/`;
  - a pod running a `latest` tag protects the image tagged `latest`.
- `PkgAws`, `PkgKubernetes`, `PkgUtils`, `PkgCore` and `PkgProcessor` are
  the newer packages under `pkg/`:
  - `latest` is never deleted and never counts as in use;
  - a batch is capped at 100 images, and mixed repositories are refused;
  - a pass has a dry-run mode;
  - the task record also carries an optional registry id and keep filters,
    which the pass does not use.

Shared modules hold what both generations use:
- `Wrappers`: the `Option` and `Result` types.
- `EcrApi`: ECR records, paginated responses, the page callback, and the
  push-date sort.
- `KubeApi`: pods and containers.
- `EcrReference`: a hand-written matcher for the regular expression that
  recognises ECR image references. It is parameterised by the characters a
  repository name may not contain.
- `Text`: `strings.Split` on `,` and `strings.TrimSpace`.
- `ImageUsage`: the usage maps.
- `Collaborators`: the client calls and their responses.

How the code is modelled:
- The Kubernetes and AWS clients are functions from request to response.
- A method that talks to a client returns the request it sent.
- A reconciliation pass returns its errors and the trace of calls it made.
- Loops that build slices or maps are `for` loops with invariants, and
  each is proved against a specification function on sequences.
- The sort is an in-place insertion sort over an `array`. It is proved to
  produce a sorted permutation, which is all `sort.Sort` promises.
- Image push times are integers.

## Model

| member | source | states |
|---|---|---|
| `EcrApi.SortImagesByPushDate` | pkg/aws/ecr.go:195-200 | the array ends sorted by push time and is a permutation of its old contents (the same sort serves core/ecr.go:159-164) |
| `EcrApi.InsertByPushDate` | pkg/aws/ecr.go:195-200 | one insertion step extends the sorted run by one image and keeps the multiset of images |
| `EcrApi.Swap` | pkg/aws/ecr.go:48-50 | exchanges two cells and keeps the multiset of images |
| `EcrApi.SortedPrefixIsOldestFirst` | pkg/aws/ecr.go:233-246 | any prefix of a sorted permutation of a pool is an oldest-first pick from it: sorted, drawn from the pool, and no left-out image is older than a picked one |
| `EcrApi.SelectionDrawnFromPool` | pkg/aws/ecr.go:246 | every image of an oldest-first pick belongs to the pool |
| `EcrApi.PageCollector.OnPage` | pkg/aws/ecr.go:102-105 | the page callback appends the page to what was collected and asks for more exactly when the page is not the last |
| `EcrApi.DeliverPages` | pkg/aws/ecr.go:107-110 | a paginated call hands every page, in order, to the callback and yields the call's error |
| `EcrApi.ImageIds` | pkg/aws/ecr.go:172-178 | one identifier per image, carrying that image's digest, in input order |
| `PkgAws.ClassifyUnprotectedIff` | pkg/aws/ecr.go:217-228 | an image reaches the unused list exactly when none of its tags is `latest` or in use |
| `PkgAws.ClassifyLatestCarries` | pkg/aws/ecr.go:218-220 | an image is skipped for `latest` only if it carries `latest` |
| `PkgAws.ClassifyDependsOnTagSet` | pkg/aws/ecr.go:222-227 | the decision depends only on the set of tags in use, so duplicates or order in `tagsInUse` change nothing |
| `PkgAws.ClassifyIgnoresUnprotectingTag` | pkg/aws/ecr.go:217-228 | removing a tag that is neither `latest` nor in use leaves the decision unchanged |
| `PkgAws.ClassifyIgnoresRepeatedTag` | pkg/aws/ecr.go:217-228 | a repeated tag of an image changes nothing, so an image is counted at most once |
| `PkgAws.PartitionCounts` | pkg/aws/ecr.go:215-231 | every image is unused, counted as used, or skipped for `latest`, and only one of these |
| `PkgAws.LatestCountBound` | pkg/aws/ecr.go:218-220 | the images skipped for `latest` are no more than those carrying it |
| `PkgAws.UnusedMembership` | pkg/aws/ecr.go:215-231 | an image is in the unused list exactly when it is an input image with no protecting tag |
| `PkgAws.SliceEndNonNegative` | pkg/aws/ecr.go:235 | past the early return, the slice end is non-negative when at most one image carries `latest` |
| `PkgAws.TwoLatestImagesMakeSliceEndNegative` | pkg/aws/ecr.go:235-246 | two `latest` images and one untagged image with `keepMax` 2 give slice end -1, so without the precondition the slice would fault |
| `PkgAws.DeletionCountBounds` | pkg/aws/ecr.go:235-244 | the selection size lies between 0 and the number of unused images, is at most 100, and is 0 when `keepMax` covers the repository |
| `PkgAws.SortedPrefixMeetsContract` | pkg/aws/ecr.go:233-246 | the clamped prefix of the sorted unused list has the promised size, is oldest-first, and holds only unprotected input images |
| `PkgAws.ScanRepoImages` | pkg/aws/ecr.go:215-231 | the labelled loop lists the images with neither `latest` nor a tag in use, in input order, and counts the images skipped for a tag in use |
| `PkgAws.FilterOldUnusedImages` | pkg/aws/ecr.go:206-247 | the result is empty when `keepMax` covers the repository; otherwise it has `min(unused - keepMax + used, unused, 100)` images, the oldest unused ones, none with a `latest` or in-use tag |
| `PkgAws.BatchRemoveImages` | pkg/aws/ecr.go:153-191 | an empty batch makes no call; over 100 images or mixed repositories give their errors with no call; otherwise exactly one request names the first image's repository with every digest in order, and the call's error is returned |
| `PkgAws.ListRepositories` | pkg/aws/ecr.go:81-113 | no names means no call and no repositories; otherwise one request, carrying the registry id only when one is given, and the pages joined in order, or nothing and the error |
| `PkgAws.ListImages` | pkg/aws/ecr.go:117-149 | no name means no call and no images; otherwise one request for that repository and the pages joined in order, or nothing and the error |
| `EcrReference.IndexOfFirst` | pkg/kubernetes/kubernetes.go:81 | the length of the longest prefix free of the stop characters, which is how far a negated character class runs |
| `EcrReference.MatchPathSound` | pkg/kubernetes/kubernetes.go:81 | a path match yields a non-empty repository name free of the excluded characters, then `:`, then the tag |
| `EcrReference.MatchPathComplete` | pkg/kubernetes/kubernetes.go:81 | every path of that shape matches with exactly that repository and tag |
| `EcrReference.MatchHostSound` | pkg/kubernetes/kubernetes.go:81 | a host match has a region without `.` followed by `.amazonaws.com/` and a path of that shape |
| `EcrReference.MatchHostComplete` | pkg/kubernetes/kubernetes.go:81 | every host of that shape matches with its repository and tag |
| `EcrReference.MatchTailSound` | pkg/kubernetes/kubernetes.go:81 | a match after the `.*` prefix starts with `.dkr.ecr.` followed by a host of that shape |
| `EcrReference.MatchTailComplete` | pkg/kubernetes/kubernetes.go:81 | every such tail matches with its repository and tag |
| `EcrReference.EcrShapeSpelledOut` | pkg/kubernetes/kubernetes.go:81 | a reference of the ECR shape is exactly prefix, `.dkr.ecr.`, region, `.amazonaws.com/`, repository, `:` and tag |
| `EcrReference.FindSubmatch` | pkg/kubernetes/kubernetes.go:81 | the leftmost-first search with a greedy `^.*` over the split points of the reference: no match means every split point fails, and a match is the attempt at a split point that succeeds with every longer prefix failing, so there is no match exactly when all split points fail (the same matcher, with the class `[^:/]`, serves core/kubernetes.go:77) |
| `EcrReference.AttemptsSearch` | pkg/kubernetes/kubernetes.go:81 | the search over the attempts at every split point reports no match exactly when all fail, and otherwise the attempt at the longest prefix that succeeds |
| `EcrReference.HighestMatchMeaning` | pkg/kubernetes/kubernetes.go:81 | trying split points from the longest prefix down gives nothing exactly when all fail, and otherwise the first success met |
| `EcrReference.FindSubmatchSound` | pkg/kubernetes/kubernetes.go:81 | whatever the matcher reports comes from a reference of the ECR shape with exactly those two groups |
| `EcrReference.FindSubmatchComplete` | pkg/kubernetes/kubernetes.go:81 | every reference of the ECR shape matches |
| `EcrReference.FindSubmatchExact` | pkg/kubernetes/kubernetes.go:81 | round trip: a reference built from a repository and tag gives them back, unless a later `.dkr.ecr.` lets the greedy prefix take more |
| `EcrReference.HighestMatchSound` | pkg/kubernetes/kubernetes.go:81 | the greedy `^.*` search reports the attempt at the longest prefix that succeeds: an attempt at or below the start, with every longer prefix failing |
| `EcrReference.HighestMatchAtLeast` | pkg/kubernetes/kubernetes.go:81 | one successful split point is enough for the search to succeed |
| `EcrReference.HighestMatchSkips` | pkg/kubernetes/kubernetes.go:81 | failed attempts at longer prefixes do not change what the search reports |
| `EcrReference.HighestMatchNone` | pkg/kubernetes/kubernetes.go:81 | when every split point fails, there is no match |
| `EcrReference.MatchHasColon` | pkg/kubernetes/kubernetes.go:81 | a reference without `:` never matches, so untagged images are ignored |
| `EcrReference.MatchHasDkrEcr` | pkg/kubernetes/kubernetes.go:81 | a reference without `.dkr.ecr.` never matches, so other registries are ignored |
| `EcrReference.NamespacedRepositoryUnmatched` | core/kubernetes.go:77 | a reference to a repository whose name holds `/`, with an account-id prefix free of `.` and no later `.dkr.ecr.`, matches the newer pattern with its repository and tag, and never matches the older one |
| `PkgKubernetes.ScanCharacterised` | pkg/kubernetes/kubernetes.go:83-112 | a reference is marked seen exactly when it occurs and has a non-`latest` match; each repository's tags are those of its distinct such references in first-seen order; no list is empty |
| `PkgKubernetes.ScanIgnores` | pkg/kubernetes/kubernetes.go:89-100 | a reference seen before, or one without a non-`latest` match, changes neither map |
| `PkgKubernetes.NonEcrReferenceIgnored` | pkg/kubernetes/kubernetes.go:90-93 | untagged references and references to other registries change nothing |
| `PkgKubernetes.ReferenceRecorded` | pkg/kubernetes/kubernetes.go:95-109 | a first reference with a non-`latest` tag, in a namespaced repository or not, appends its tag to its repository |
| `PkgKubernetes.TagsForFromReferences` | pkg/kubernetes/kubernetes.go:95-107 | every kept tag is not `latest` and comes from a matched reference to that repository |
| `PkgKubernetes.ECRImagesFromPods` | pkg/kubernetes/kubernetes.go:76-115 | the map is the scan of the pods' references, each pod's init containers first (whose tags `ScanCharacterised` describes), and no list is empty |
| `PkgKubernetes.RecordImage` | pkg/kubernetes/kubernetes.go:89-110 | one container's reference moves the scan on by exactly that reference: the maps after it are the scan of the references so far plus this one |
| `PkgKubernetes.RecordImages` | pkg/kubernetes/kubernetes.go:86-111 | one pod's containers, in order, move the scan on by their references |
| `KubeApi.PodContainers` | pkg/kubernetes/kubernetes.go:84 | a pod's init containers come before its regular containers |
| `Text.TrimSpace` | pkg/utils/utils.go:17 | the result is the input with only its surrounding white space removed: a slice of the input whose dropped prefix and suffix are all white space, that neither starts nor ends with white space, and that is empty exactly when the input is all white space |
| `Text.Split` | pkg/utils/utils.go:14 | one more field than commas, none holding a comma |
| `Text.SplitJoin` | pkg/utils/utils.go:14 | joining the fields with commas gives back the input |
| `Text.SplitFieldsFromInput` | pkg/utils/utils.go:14 | every character of a field occurs in the input |
| `Text.TrimmedItemsShape` | pkg/utils/utils.go:16-21 | trimming and dropping blank fields keeps at most as many items, each non-empty, comma-free and trimmed |
| `Text.CommaItemsShape` | pkg/utils/utils.go:14-21 | at most one item more than commas, each non-empty, comma-free and trimmed |
| `Text.BlankFieldsGiveNothing` | pkg/utils/utils.go:16-21 | fields made only of white space give no items |
| `Text.BlankListIsEmpty` | pkg/utils/utils.go:14-21 | an input of only commas and white space, such as `""`, `"  "` or `" ,  "`, gives no items |
| `PkgUtils.ParseCommaSeparatedList` | pkg/utils/utils.go:12-24 | the comma-separated fields, trimmed, blank ones dropped, in order; at most commas plus one, each non-empty, comma-free and trimmed |
| `PkgUtils.ApplyKeepFilters` | pkg/utils/utils.go:28-51 | the result is the input images none of whose tags matches a filter, in input order |
| `PkgUtils.ImageMatchesFilter` | pkg/utils/utils.go:37-44 | the tag loop for one image finds a match exactly when some tag matches some filter |
| `PkgUtils.KeptMembership` | pkg/utils/utils.go:36-48 | an image is kept exactly when it is an input image with no tag matching a filter |
| `PkgUtils.KeptConcat` | pkg/utils/utils.go:36-48 | filtering distributes over concatenation, so input order is kept |
| `PkgUtils.KeptShorter` | pkg/utils/utils.go:36-48 | the result is never longer than the input |
| `PkgUtils.KeptIdempotent` | pkg/utils/utils.go:36-48 | applying the same filters again changes nothing |
| `PkgUtils.NoFiltersKeepAll` | pkg/utils/utils.go:36-48 | with no filter every image is kept |
| `PkgUtils.UntaggedKept` | pkg/utils/utils.go:37-47 | an untagged image is always kept |
| `PkgCore.NewCleanupTask` | pkg/core/task.go:34-42 | defaults: every 30 minutes, keep 900, region `us-east-1`, no dry run, no keep filter, no registry id, nothing to clean yet |
| `PkgProcessor.ProcessRepository` | pkg/processor/processor.go:65-93 | one repository: a failed listing gives one error; an empty batch makes no call; a dry run only reports; otherwise one delete call with the batch, whose failure gives one error; the batch is a valid pick for that repository's listing and its own usage tags |
| `PkgProcessor.ProcessRepositories` | pkg/processor/processor.go:65-94 | the listed repositories are processed in order: the calls and errors are those of the pass over them, and each gets a valid batch |
| `PkgProcessor.RemoveOldImages` | pkg/processor/processor.go:44-99 | a failed pod listing gives one error and no ECR call; a failed repository listing gives one error and nothing more; otherwise every repository is processed in order, and each gets a valid batch from `maxImages`, its listing and its usage tags |
| `PkgProcessor.ErrorsBounded` | pkg/processor/processor.go:65-94 | a pass records at most one error per repository |
| `PkgProcessor.RepositoriesVisitedInOrder` | pkg/processor/processor.go:65-69 | the images of every repository are listed once, in the order the repository listing returned them |
| `PkgProcessor.DryRunNeverDeletes` | pkg/processor/processor.go:84-87 | a dry-run pass makes no delete call |
| `PkgProcessor.DeletesCarrySelections` | pkg/processor/processor.go:77-92 | every delete call carries exactly the non-empty batch picked for a repository whose listing succeeded |
| `PkgProcessor.SelectionsDeleted` | pkg/processor/processor.go:79-92 | outside a dry run, every non-empty batch picked from a successful listing is deleted |
| `PkgProcessor.SelectionPassesBatchChecks` | pkg/processor/processor.go:77-89 | a batch picked from one repository's listing is within 100 images and all of that repository, so the delete's own checks pass |
| `Core.PartitionCounts` | core/ecr.go:180-192 | every image is either counted as used or listed as unused |
| `Core.UnusedMembership` | core/ecr.go:180-192 | an image is listed as unused exactly when it is an input image with no tag in use |
| `Core.SliceEndPositive` | core/ecr.go:196 | past the early return, the slice end is positive |
| `Core.RemainingImages` | core/ecr.go:166-170 | after the deletion `max(keepMax, used)` images remain: as close to `keepMax` as the images in use allow |
| `Core.SortedPrefixMeetsContract` | core/ecr.go:194-203 | the clamped prefix of the sorted unused list has `min(images - keepMax, unused)` images, is oldest-first, and holds no image in use |
| `Core.ScanRepoImages` | core/ecr.go:180-192 | the labelled loop lists the images with no tag in use, in input order, and counts the others |
| `Core.FilterOldUnusedImages` | core/ecr.go:171-204 | the result is empty when `keepMax` covers the repository; otherwise it has `min(images - keepMax, unused)` images, the oldest unused ones, none with a tag in use, with no cap |
| `Core.FailureReportMentions` | core/ecr.go:144-151 | the aggregated error names every failure, each right after the ones before it |
| `Core.BatchRemoveImages` | core/ecr.go:118-155 | an empty batch makes no call; otherwise one request for the given repository with every digest in order; the call's error is returned as is, and reported failures become one error listing them all |
| `Core.ListRepositories` | core/ecr.go:66-88 | no names means no call and no repositories; otherwise one request and the pages joined in order, or nothing and the error |
| `Core.ListImages` | core/ecr.go:92-114 | no name means no call and no images; otherwise one request and the pages joined in order, or nothing and the error |
| `Core.ScanCharacterised` | core/kubernetes.go:79-102 | a reference is marked seen exactly when it occurs and matches; each repository's tags are those of its distinct matching references in first-seen order; no list is empty |
| `Core.ScanIgnores` | core/kubernetes.go:85-89 | a reference seen before, or one that does not match, changes neither map |
| `Core.TagsForFromReferences` | core/kubernetes.go:86-99 | every kept tag comes from a matched reference to that repository |
| `Core.MatchedTagKept` | core/kubernetes.go:86-99 | the tag of every matched reference, `latest` included, is kept for its repository |
| `Core.NamespacedReferenceIgnored` | core/kubernetes.go:77 | a reference to a repository whose name holds `/`, with an account-id prefix free of `.` and no later `.dkr.ecr.`, changes neither map, so it protects none of that repository's images |
| `Core.ECRImagesFromPods` | core/kubernetes.go:72-105 | the map is the scan of the pods' references, each pod's init containers first (whose tags `ScanCharacterised` describes), and no list is empty |
| `Core.RecordImage` | core/kubernetes.go:85-100 | one container's reference moves the scan on by exactly that reference: the maps after it are the scan of the references so far plus this one |
| `Core.RecordImages` | core/kubernetes.go:82-101 | one pod's containers, in order, move the scan on by their references |
| `Core.ParseCommaSeparatedList` | core/utils.go:9-21 | the same list as the newer parser: trimmed non-blank fields in order, at most commas plus one |
| `Core.NewCleanupTask` | core/task.go:26-32 | defaults: every 30 minutes, keep 900, region `us-east-1`, nothing to clean yet |
| `Core.ProcessRepository` | core/processor.go:59-82 | one repository: a failed listing gives one error; an empty batch makes no call; otherwise one delete call with the batch, whose failure gives one error; the batch is a valid pick for that repository |
| `Core.ProcessRepositories` | core/processor.go:59-82 | the listed repositories are processed in order: the calls and errors are those of the pass over them, and each gets a valid batch |
| `Core.RemoveOldImages` | core/processor.go:38-87 | a failed pod listing gives one error and no ECR call; a failed repository listing gives one error; otherwise every repository is processed in order, and each gets a valid batch |
| `Core.ErrorsBounded` | core/processor.go:59-82 | a pass records at most one error per repository |
| `Core.RepositoriesVisitedInOrder` | core/processor.go:59-63 | the images of every repository are listed once, in the order the repository listing returned them |
| `Core.DeletesCarrySelections` | core/processor.go:70-81 | every delete call carries exactly the non-empty batch picked for a repository whose listing succeeded |
| `Core.SelectionsDeleted` | core/processor.go:72-81 | every non-empty batch picked from a successful listing is deleted |
| `Core.SelectionSparesImagesInUse` | core/processor.go:70 | a valid batch holds only listed images, none with a tag in use |

## Left out

- `ImageCleanupLoop` in both generations is not modelled. It is a goroutine driven by a timer, a `done` channel and a `WaitGroup`, so its point is timing and concurrency.
- The client constructors are not modelled: `NewECRClient`, `NewKubernetesClient`, and credential and session setup. Neither are the command-line programs or the glog logging.
- `ListAllPods` is a collaborator: the pass sees only its result. The same holds for the paginated `Describe*Pages` calls and `BatchDeleteImage`, which are functions from request to response.
- Go's regular expression engine is not modelled.
  - The reference pattern is a hand-written matcher. It follows Go's leftmost-first semantics: the greedy `^.*` takes the longest prefix, and `.` excludes a newline.
  - The keep-filter patterns are abstract: `compiles` and `matches` are parameters.
- `time.Time` is an integer, and `Before` is `<`. Pointers are plain values, and nil slices are empty sequences.
- `strings.TrimSpace` uses a fixed set of white-space characters.
- Arity mismatches: the model follows the data flow.
  - pkg/processor/processor.go:56 and :69 call `ListRepositories` and `ListImages` without the registry id the interface at pkg/aws/ecr.go:29-30 requires.
  - core/processor.go:78 calls `BatchRemoveImages` with only the images, while core/ecr.go:23 also takes the repository name.
  - So the pass's clients take a name list, a name, and a batch.
- The newer pass never applies keep filters. pkg/processor/processor.go:77 selects from the unfiltered listing. `PkgUtils.ApplyKeepFilters` is modelled on its own.
- `PkgAws.FilterOldUnusedImages`: requires that at most one input image carry `latest`. ECR keeps a tag unique within a repository, so any single-repository listing meets this; `PkgProcessor.RemoveOldImages` requires it of its client. Without it the slice at pkg/aws/ecr.go:246 can fault, as `PkgAws.TwoLatestImagesMakeSliceEndNegative` shows.
- `PkgAws.FilterOldUnusedImages`: integers are unbounded, while Go's `int` has 64 bits. `max-images` is an unchecked `flag.IntVar` (cmd/kube-ecr-cleanup-controller/main.go:32). With `keepMax` near `math.MinInt64`, `len(unusedImages) - keepMax + usedImagesFound` at pkg/aws/ecr.go:235 wraps to a negative value, neither clamp fires, and the slice at pkg/aws/ecr.go:246 faults. The model returns the clamped selection there.
- `PkgAws.SliceEndNonNegative`, `PkgAws.DeletionCountBounds` and `PkgAws.SortedPrefixMeetsContract`: the same unbounded slice end, so they do not cover that wrap-around.
- `Core.FilterOldUnusedImages`: the same wrap-around at core/ecr.go:196, where the slice at core/ecr.go:203 faults for such a `keepMax`. The model returns the clamped selection.
- `Core.SliceEndPositive`, `Core.RemainingImages` and `Core.SortedPrefixMeetsContract`: the same unbounded slice end, so they do not cover that wrap-around.
- `PkgUtils.ApplyKeepFilters`: requires every filter to compile. An invalid pattern leaves a nil matcher that faults on the first tag it meets. The requirement is stronger than needed when no image has a tag.
- `Core.BatchRemoveImages`: each failure line is a `render` parameter. core/ecr.go:148 formats three pointer fields: `FailureCode` with `%d`, and `ImageDigest` and `FailureReason` (both `*string`) with `%s`. A `*string` under `%s` prints as `%!s(*string=0x…)`, and a pointer under `%d` prints its address, so none of the three values appears. `fmt.Errorf(msg)` at core/ecr.go:151 also reads the message again as a format string, so a `%` in a failure changes the text. Only the header, the order and the presence of every line are stated.
- `PkgProcessor.RemoveOldImages`: the batch picked for each repository is a ghost out-parameter, stated up to `ValidSelection`. `sort.Sort` is not stable, so which of two equally old images is picked is not determined.
- `Core.RemoveOldImages`: the same holds for its batches.
- `PkgProcessor.ProcessRepository` and `Core.ProcessRepository` are the body of the repository loop of `RemoveOldImages`, factored into a method, and `ProcessRepositories` is that loop. A `continue` of the loop is a `return` there. In the same way `RecordImage` is the body of the container loop of `ECRImagesFromPods` and `RecordImages` is that loop. `ScanRepoImages` is the labelled loop of `FilterOldUnusedImages`, `ImageMatchesFilter` is the tag loop of `ApplyKeepFilters`, and `InsertByPushDate` is one step of the sort.

## Notes

- Namespaced repositories in the older generation. core/kubernetes.go:77 matches a repository name with `[^:/]+`, so a reference such as `acct.dkr.ecr.region.amazonaws.com/team/app:v1` never matches (`EcrReference.NamespacedRepositoryUnmatched`). Its tag then protects nothing: the older pass treats every image of `team/app` as unused, including the running one (`Core.NamespacedReferenceIgnored`). pkg/kubernetes/kubernetes.go:81 uses `[^:]+` and records that tag (`PkgKubernetes.ReferenceRecorded`).
- `latest` in the older generation. core/kubernetes.go keeps a `latest` tag in the usage map (`Core.MatchedTagKept`). The test case at core/kubernetes_test.go:137-156 expects it to be dropped, as the newer code does. The model follows the code. Since the older `FilterOldUnusedImages` has no `latest` exemption, keeping the tag is what protects a running `latest` image there.

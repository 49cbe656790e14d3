/**
 * The older generation of the controller, the single Go package `core`:
 * the ECR client and retention decision (`ecr.go`), usage extraction from
 * pods (`kubernetes.go`), one reconciliation pass (`processor.go`), the
 * comma list parser (`utils.go`) and the policy record (`task.go`).
 *
 * Unlike the newer generation it has no `latest` exemption, no cap on a
 * batch, no dry run, no registry id and no keep filters; an image is in use
 * as soon as one of its tags is.
 */
module Core {
  import opened Wrappers
  import opened EcrApi
  import opened KubeApi
  import opened EcrReference
  import opened ImageUsage
  import opened Collaborators
  import Text

  // ---------------------------------------------------------------------
  // The retention decision (ecr.go)
  // ---------------------------------------------------------------------

  /** An image is in use when one of its tags is. */
  predicate InUse(image: ImageDetail, tagsInUse: seq<string>) {
    exists t :: t in image.imageTags && t in tagsInUse
  }

  /** The images appended to `unusedImages`, in input order. */
  function Unused(images: seq<ImageDetail>, tagsInUse: seq<string>): seq<ImageDetail> {
    if images == [] then []
    else
      var last := images[|images| - 1];
      Unused(images[..|images| - 1], tagsInUse) + (if InUse(last, tagsInUse) then [] else [last])
  }

  /** `usedImagesFound`: the images in use. */
  function UsedCount(images: seq<ImageDetail>, tagsInUse: seq<string>): nat {
    if images == [] then 0
    else UsedCount(images[..|images| - 1], tagsInUse) + (if InUse(images[|images| - 1], tagsInUse) then 1 else 0)
  }

  /** The counters after one more image. */
  lemma CountsStep(images: seq<ImageDetail>, i: nat, tagsInUse: seq<string>)
    requires i < |images|
    ensures var used := InUse(images[i], tagsInUse);
      && Unused(images[..i + 1], tagsInUse) == Unused(images[..i], tagsInUse) + (if used then [] else [images[i]])
      && UsedCount(images[..i + 1], tagsInUse) == UsedCount(images[..i], tagsInUse) + (if used then 1 else 0)
  {
    assert images[..i + 1][..i] == images[..i];
  }

  /** Every image is either counted as used or listed as unused. */
  lemma {:induction false} PartitionCounts(images: seq<ImageDetail>, tagsInUse: seq<string>)
    ensures |images| == |Unused(images, tagsInUse)| + UsedCount(images, tagsInUse)
  {
    if images != [] {
      PartitionCounts(images[..|images| - 1], tagsInUse);
    }
  }

  /** An image is listed as unused exactly when it is in the input and none of its tags is in use. */
  lemma {:induction false} UnusedMembership(images: seq<ImageDetail>, tagsInUse: seq<string>, x: ImageDetail)
    ensures x in Unused(images, tagsInUse) <==> x in images && !InUse(x, tagsInUse)
  {
    if images != [] {
      var init := images[..|images| - 1];
      UnusedMembership(init, tagsInUse, x);
      assert images == init + [images[|images| - 1]];
    }
  }

  /**
   * How many images the selection holds: the excess over `keepMax`, or all
   * unused images when they are fewer, and none when `keepMax` covers the
   * repository.
   */
  function DeletionCount(keepMax: int, images: seq<ImageDetail>, tagsInUse: seq<string>): int {
    var excess := |images| - keepMax;
    var unused := |Unused(images, tagsInUse)|;
    if excess <= 0 then 0 else if excess <= unused then excess else unused
  }

  /**
   * Deleting the selection leaves `keepMax` images when enough of them are
   * unused, and otherwise only the images in use: as close to `keepMax` as
   * the images in use allow.
   */
  lemma RemainingImages(keepMax: int, images: seq<ImageDetail>, tagsInUse: seq<string>)
    requires keepMax < |images|
    ensures var used := UsedCount(images, tagsInUse);
      |images| - DeletionCount(keepMax, images, tagsInUse) == (if keepMax >= used then keepMax else used)
  {
    PartitionCounts(images, tagsInUse);
  }

  /**
   * Once the early return is passed the slice end is positive: every image
   * is either counted as used or listed as unused.
   */
  lemma SliceEndPositive(keepMax: int, images: seq<ImageDetail>, tagsInUse: seq<string>)
    requires keepMax < |images|
    ensures |Unused(images, tagsInUse)| - keepMax + UsedCount(images, tagsInUse) > 0
  {
    PartitionCounts(images, tagsInUse);
  }

  /**
   * The clamped prefix of a sorted copy of the unused list has the size
   * `DeletionCount` names, is an oldest-first pick, and holds no image in use.
   */
  lemma SortedPrefixMeetsContract(keepMax: int, repoImages: seq<ImageDetail>, tagsInUse: seq<string>,
                                  sorted: seq<ImageDetail>, n: int)
    requires keepMax < |repoImages|
    requires SortedByPushDate(sorted) && multiset(sorted) == multiset(Unused(repoImages, tagsInUse))
    requires var end := |Unused(repoImages, tagsInUse)| - keepMax + UsedCount(repoImages, tagsInUse);
      n == (if end > |sorted| then |sorted| else end)
    ensures 0 <= n <= |sorted|
    ensures n == DeletionCount(keepMax, repoImages, tagsInUse)
    ensures OldestFirstSelection(sorted[..n], Unused(repoImages, tagsInUse))
    ensures forall x :: x in sorted[..n] ==> x in repoImages && !InUse(x, tagsInUse)
  {
    var unused := Unused(repoImages, tagsInUse);
    assert |sorted| == |unused| by {
      assert |multiset(sorted)| == |multiset(unused)|;
    }
    PartitionCounts(repoImages, tagsInUse);
    SortedPrefixIsOldestFirst(sorted, unused, n);
    SelectionDrawnFromPool(sorted[..n], unused);
    forall x | x in sorted[..n] ensures x in repoImages && !InUse(x, tagsInUse) {
      UnusedMembership(repoImages, tagsInUse, x);
    }
  }

  /**
   * The labelled loop of `FilterOldUnusedImages`: the images none of whose
   * tags is in use, in input order, and how many images have one.
   */
  method ScanRepoImages(repoImages: seq<ImageDetail>, tagsInUse: seq<string>)
    returns (unusedImages: seq<ImageDetail>, usedImagesFound: nat)
    ensures unusedImages == Unused(repoImages, tagsInUse)
    ensures usedImagesFound == UsedCount(repoImages, tagsInUse)
  {
    usedImagesFound := 0;
    unusedImages := [];

    label RepoImagesLoop:
    for i := 0 to |repoImages|
      invariant unusedImages == Unused(repoImages[..i], tagsInUse)
      invariant usedImagesFound == UsedCount(repoImages[..i], tagsInUse)
    {
      var repoImage := repoImages[i];
      var tags := repoImage.imageTags;
      CountsStep(repoImages, i, tagsInUse);
      for j := 0 to |tags|
        invariant forall m :: 0 <= m < j ==> tags[m] !in tagsInUse
      {
        var tag := tags[j];
        for k := 0 to |tagsInUse|
          invariant forall m :: 0 <= m < k ==> tagsInUse[m] != tag
        {
          if tagsInUse[k] == tag {
            assert tag in repoImage.imageTags && tag in tagsInUse;
            usedImagesFound := usedImagesFound + 1;
            continue RepoImagesLoop;
          }
        }
      }
      assert !InUse(repoImage, tagsInUse);
      unusedImages := unusedImages + [repoImage];
    }
    assert repoImages[..|repoImages|] == repoImages;
  }

  /**
   * `FilterOldUnusedImages`: the oldest images of one repository none of
   * whose tags is in use, as many as bring the repository down towards
   * `keepMax`.
   */
  method FilterOldUnusedImages(keepMax: int, repoImages: seq<ImageDetail>, tagsInUse: seq<string>)
    returns (selected: seq<ImageDetail>)
    ensures keepMax >= |repoImages| ==> selected == []
    ensures |selected| == DeletionCount(keepMax, repoImages, tagsInUse)
    ensures OldestFirstSelection(selected, Unused(repoImages, tagsInUse))
    ensures forall x :: x in selected ==> x in repoImages && !InUse(x, tagsInUse)
  {
    if keepMax >= |repoImages| {
      return [];
    }
    var unusedImages, usedImagesFound := ScanRepoImages(repoImages, tagsInUse);

    var sorted := new ImageDetail[|unusedImages|](i requires 0 <= i < |unusedImages| => unusedImages[i]);
    assert sorted[..] == unusedImages;
    SortImagesByPushDate(sorted);

    var lastImageIdx := |unusedImages| - keepMax + usedImagesFound;
    if lastImageIdx > |unusedImages| {
      lastImageIdx := |unusedImages|;
    }
    ghost var sortedCopy := sorted[..];
    SortedPrefixMeetsContract(keepMax, repoImages, tagsInUse, sortedCopy, lastImageIdx);
    selected := sorted[..lastImageIdx];
    assert selected == sortedCopy[..lastImageIdx];
  }

  // ---------------------------------------------------------------------
  // Registry requests (ecr.go)
  // ---------------------------------------------------------------------

  const FailureHeader: string := "Failed to remove the following images: \n\n"

  /** The failure lines, in the order the registry reported them. */
  function FailureLines(failures: seq<ImageFailure>, render: ImageFailure -> string): string {
    if failures == [] then []
    else FailureLines(failures[..|failures| - 1], render) + render(failures[|failures| - 1])
  }

  /** The error reported when some images could not be deleted. */
  function FailureReport(failures: seq<ImageFailure>, render: ImageFailure -> string): string {
    FailureHeader + FailureLines(failures, render)
  }

  /**
   * The report names every failure, each line right after the lines of the
   * failures before it.
   */
  lemma {:induction false} FailureReportMentions(failures: seq<ImageFailure>, render: ImageFailure -> string, k: nat)
    requires k < |failures|
    ensures var at := |FailureHeader| + |FailureLines(failures[..k], render)|;
      && at + |render(failures[k])| <= |FailureReport(failures, render)|
      && FailureReport(failures, render)[at..at + |render(failures[k])|] == render(failures[k])
  {
    var n := |failures| - 1;
    var init := failures[..n];
    if k == n {
      assert init == failures[..k];
    } else {
      FailureReportMentions(init, render, k);
      assert init[..k] == failures[..k] && init[k] == failures[k];
    }
  }

  /**
   * `BatchRemoveImages`: no images means no call; otherwise one
   * `BatchDeleteImage` request for `repositoryName` with every digest in
   * order, returning the call's error, or one error listing every failure
   * the registry reports. How each failure is rendered is `render`.
   */
  method BatchRemoveImages(repositoryName: string, images: seq<ImageDetail>,
                           batchDeleteImage: BatchDeleteImageInput -> Result<seq<ImageFailure>, Error>,
                           render: ImageFailure -> string)
    returns (err: Option<Error>, request: Option<BatchDeleteImageInput>)
    ensures images == [] ==> err == None && request == None
    ensures images != [] ==> request == Some(BatchDeleteImageInput(repositoryName, ImageIds(images)))
    ensures request.Some? ==>
              err == (match batchDeleteImage(request.value)
                        case Failure(e) => Some(e)
                        case Success(failures) => if failures == [] then None else Some(FailureReport(failures, render)))
  {
    if |images| == 0 {
      return None, None;
    }

    var imageIds := new ImageIdentifier[|images|];
    for i := 0 to |images|
      invariant forall k :: 0 <= k < i ==> imageIds[k] == ImageIdentifier(images[k].imageDigest)
    {
      imageIds[i] := ImageIdentifier(images[i].imageDigest);
    }

    var input := BatchDeleteImageInput(repositoryName, imageIds[..]);
    assert input.imageIds == ImageIds(images);
    request := Some(input);
    var output := batchDeleteImage(input);
    if output.Failure? {
      return Some(output.error), request;
    }

    var failures := output.value;
    if |failures| > 0 {
      var msg := FailureHeader;
      for i := 0 to |failures|
        invariant msg == FailureHeader + FailureLines(failures[..i], render)
      {
        assert failures[..i + 1][..i] == failures[..i];
        msg := msg + render(failures[i]);
      }
      assert failures[..|failures|] == failures;
      return Some(msg), request;
    }
    return None, request;
  }

  /**
   * `ListRepositories`: no names means no call and no repositories;
   * otherwise one paginated `DescribeRepositories` call whose pages are
   * joined in order, or nothing and the call's error when it fails.
   */
  method ListRepositories(repositoryNames: seq<string>,
                          describeRepositoriesPages: DescribeRepositoriesInput -> Paginated<Repository>)
    returns (repos: seq<Repository>, err: Option<Error>, request: Option<DescribeRepositoriesInput>)
    ensures repositoryNames == [] ==> repos == [] && err == None && request == None
    ensures repositoryNames != [] ==> request == Some(DescribeRepositoriesInput(repositoryNames, None))
    ensures request.Some? ==>
              var response := describeRepositoriesPages(request.value);
              && err == response.failure
              && repos == (if response.failure.None? then Flatten(response.pages) else [])
  {
    if |repositoryNames| == 0 {
      return [], None, None;
    }
    var input := DescribeRepositoriesInput(repositoryNames, None);
    request := Some(input);
    var collector := new PageCollector<Repository>();
    err := DeliverPages(describeRepositoriesPages(input), collector);
    if err.Some? {
      return [], err, request;
    }
    repos := collector.items;
  }

  /**
   * `ListImages`: no repository name means no call and no images; otherwise
   * one paginated `DescribeImages` call whose pages are joined in order, or
   * nothing and the call's error when it fails.
   */
  method ListImages(repositoryName: Option<string>,
                    describeImagesPages: DescribeImagesInput -> Paginated<ImageDetail>)
    returns (images: seq<ImageDetail>, err: Option<Error>, request: Option<DescribeImagesInput>)
    ensures repositoryName.None? ==> images == [] && err == None && request == None
    ensures repositoryName.Some? ==> request == Some(DescribeImagesInput(repositoryName.value, None))
    ensures request.Some? ==>
              var response := describeImagesPages(request.value);
              && err == response.failure
              && images == (if response.failure.None? then Flatten(response.pages) else [])
  {
    if repositoryName.None? {
      return [], None, None;
    }
    var input := DescribeImagesInput(repositoryName.value, None);
    request := Some(input);
    var collector := new PageCollector<ImageDetail>();
    err := DeliverPages(describeImagesPages(input), collector);
    if err.Some? {
      return [], err, request;
    }
    images := collector.items;
  }

  // ---------------------------------------------------------------------
  // Usage extraction (kubernetes.go)
  // ---------------------------------------------------------------------

  /** The loop body for one image reference: every tagged ECR reference counts, `latest` included. */
  function Step(u: Usage, image: string): Usage {
    if image in u.encountered then u
    else match FindSubmatch(image, RepoExcludesColonSlash)
      case None => u
      case Some(m) =>
        Usage(u.imagesPerRepo[m.repositoryName := TagsOf(u.imagesPerRepo, m.repositoryName) + [m.tag]],
              u.encountered + {image})
  }

  /** The two maps after the loop bodies for `images`, in order, starting from empty maps. */
  function Scan(images: seq<string>): Usage {
    if images == [] then Usage(map[], {})
    else Step(Scan(images[..|images| - 1]), images[|images| - 1])
  }

  /** A reference the pattern matches. */
  predicate Matches(image: string) {
    FindSubmatch(image, RepoExcludesColonSlash).Some?
  }

  /**
   * Independent account of the tags of `repo`: the tags of the distinct
   * matching references to `repo`, in the order they are first seen.
   */
  function TagsFor(images: seq<string>, repo: string): seq<string> {
    if images == [] then []
    else
      var init, image := images[..|images| - 1], images[|images| - 1];
      var m := FindSubmatch(image, RepoExcludesColonSlash);
      TagsFor(init, repo) + (if image !in init && m.Some? && m.value.repositoryName == repo then [m.value.tag] else [])
  }

  lemma ScanAppend(images: seq<string>, image: string)
    ensures Scan(images + [image]) == Step(Scan(images), image)
  {
    assert (images + [image])[..|images|] == images;
  }

  lemma TagsForAppend(images: seq<string>, image: string, repo: string)
    ensures var m := FindSubmatch(image, RepoExcludesColonSlash);
      TagsFor(images + [image], repo)
        == TagsFor(images, repo) + (if image !in images && m.Some? && m.value.repositoryName == repo then [m.value.tag] else [])
  {
    assert (images + [image])[..|images|] == images;
  }

  /**
   * What the loop keeps: a reference is marked seen exactly when it occurs
   * and matches, and the tags kept for each repository are exactly
   * `TagsFor`; so no repository maps to an empty list.
   */
  lemma {:induction false} ScanCharacterised(images: seq<string>)
    ensures forall x :: x in Scan(images).encountered <==> x in images && Matches(x)
    ensures forall repo :: TagsOf(Scan(images).imagesPerRepo, repo) == TagsFor(images, repo)
    ensures forall repo :: repo in Scan(images).imagesPerRepo ==> Scan(images).imagesPerRepo[repo] != []
  {
    if images != [] {
      var init, image := images[..|images| - 1], images[|images| - 1];
      assert images == init + [image];
      ScanCharacterised(init);
      ScanAppend(init, image);
      forall x ensures x in Scan(images).encountered <==> x in images && Matches(x) {
        assert x in images <==> x in init || x == image;
      }
      forall repo ensures TagsOf(Scan(images).imagesPerRepo, repo) == TagsFor(images, repo) {
        TagsForAppend(init, image, repo);
      }
    }
  }

  /** A reference already seen, or one that does not match, leaves the maps as they are. */
  lemma ScanIgnores(images: seq<string>, image: string)
    requires image in images || !Matches(image)
    ensures Scan(images + [image]) == Scan(images)
  {
    ScanCharacterised(images);
    ScanAppend(images, image);
  }

  /** Every kept tag comes from a matched reference to that repository. */
  lemma {:induction false} TagsForFromReferences(images: seq<string>, repo: string, tag: string)
    requires tag in TagsFor(images, repo)
    ensures exists image :: image in images && FindSubmatch(image, RepoExcludesColonSlash) == Some(Submatch(repo, tag))
  {
    var init, image := images[..|images| - 1], images[|images| - 1];
    if tag in TagsFor(init, repo) {
      TagsForFromReferences(init, repo, tag);
      var x :| x in init && FindSubmatch(x, RepoExcludesColonSlash) == Some(Submatch(repo, tag));
      assert x in images;
    } else {
      assert image in images;
    }
  }

  /** Conversely, the tag of every matched reference is kept for its repository, `latest` included. */
  lemma {:induction false} MatchedTagKept(images: seq<string>, image: string)
    requires image in images && Matches(image)
    ensures var m := FindSubmatch(image, RepoExcludesColonSlash).value;
      m.tag in TagsFor(images, m.repositoryName)
  {
    var init, last := images[..|images| - 1], images[|images| - 1];
    assert images == init + [last];
    if image in init {
      MatchedTagKept(init, image);
    }
  }

  /**
   * A running reference to a namespaced repository (one whose name holds a
   * `/`) is never matched, so it protects none of that repository's images.
   */
  lemma NamespacedReferenceIgnored(images: seq<string>, s: string, prefix: string, region: string, repo: string, tag: string)
    requires EcrShape(s, prefix, region, repo, tag, RepoExcludesColon)
    requires '.' !in prefix && !ContainsDkrEcr(repo + ":" + tag) && '/' in repo
    ensures Scan(images + [s]) == Scan(images)
  {
    NamespacedRepositoryUnmatched(s, prefix, region, repo, tag);
    ScanIgnores(images, s);
  }

  /**
   * The loop body for one container image: a reference seen before is
   * skipped, otherwise its tag is appended to its repository's list when
   * it matches, and the reference is marked seen right after the match.
   */
  method RecordImage(imagesPerRepo: map<string, seq<string>>, encountered: set<string>, image: string,
                     ghost seen: seq<string>)
    returns (imagesPerRepo': map<string, seq<string>>, encountered': set<string>)
    requires Usage(imagesPerRepo, encountered) == Scan(seen)
    ensures Usage(imagesPerRepo', encountered') == Scan(seen + [image])
  {
    ScanAppend(seen, image);
    imagesPerRepo', encountered' := imagesPerRepo, encountered;
    if image in encountered {
      return;
    }
    var imageData := FindSubmatch(image, RepoExcludesColonSlash);
    if imageData.None? {
      return;
    }
    encountered' := encountered + {image};
    var repoName, imageTag := imageData.value.repositoryName, imageData.value.tag;
    if repoName in imagesPerRepo {
      imagesPerRepo' := imagesPerRepo[repoName := imagesPerRepo[repoName] + [imageTag]];
    } else {
      assert TagsOf(imagesPerRepo, repoName) + [imageTag] == [imageTag];
      imagesPerRepo' := imagesPerRepo[repoName := [imageTag]];
    }
  }

  /**
   * The inner loop: the loop body for each of one pod's containers, in order.
   * It mirrors core/kubernetes.go:82-101, the older copy of the loop that
   * `PkgKubernetes.RecordImages` models for pkg/kubernetes/kubernetes.go.
   */
  method RecordImages(imagesPerRepo: map<string, seq<string>>, encountered: set<string>,
                      podContainers: seq<Container>, ghost before: seq<string>)
    returns (imagesPerRepo': map<string, seq<string>>, encountered': set<string>)
    requires Usage(imagesPerRepo, encountered) == Scan(before)
    ensures Usage(imagesPerRepo', encountered') == Scan(before + Images(podContainers))
  {
    imagesPerRepo', encountered' := imagesPerRepo, encountered;
    assert before + Images(podContainers[..0]) == before;
    for j := 0 to |podContainers|
      invariant Usage(imagesPerRepo', encountered') == Scan(before + Images(podContainers[..j]))
    {
      ghost var seen := before + Images(podContainers[..j]);
      ImagesStep(before, podContainers, j);
      imagesPerRepo', encountered' := RecordImage(imagesPerRepo', encountered', podContainers[j].image, seen);
    }
    assert podContainers[..|podContainers|] == podContainers;
  }

  /**
   * `ECRImagesFromPods`: the tags in use per ECR repository, scanning each
   * pod's init containers and then its regular containers.
   */
  method ECRImagesFromPods(pods: seq<Pod>) returns (imagesPerRepo: map<string, seq<string>>)
    ensures imagesPerRepo == Scan(ContainerImages(pods)).imagesPerRepo
    ensures forall repo :: repo in imagesPerRepo ==> imagesPerRepo[repo] != []
  {
    imagesPerRepo := map[];
    var encountered: set<string> := {};

    for i := 0 to |pods|
      invariant Usage(imagesPerRepo, encountered) == Scan(ContainerImages(pods[..i]))
    {
      var podContainers := PodContainers(pods[i]);
      ghost var before := ContainerImages(pods[..i]);
      ContainerImagesStep(pods, i);

      imagesPerRepo, encountered := RecordImages(imagesPerRepo, encountered, podContainers, before);
    }
    assert pods[..|pods|] == pods;
    ScanCharacterised(ContainerImages(pods));
  }

  // ---------------------------------------------------------------------
  // Input shaping (utils.go) and the policy record (task.go)
  // ---------------------------------------------------------------------

  /**
   * `ParseCommaSeparatedList`: the comma-separated fields, trimmed, in
   * order, without the blank ones. It mirrors core/utils.go:9-21, which the
   * newer generation copied unchanged as `PkgUtils.ParseCommaSeparatedList`.
   */
  method ParseCommaSeparatedList(commaSeparatedList: string) returns (items: seq<string>)
    ensures items == Text.CommaItems(commaSeparatedList)
    ensures |items| <= Text.CountCommas(commaSeparatedList) + 1
    ensures forall j :: 0 <= j < |items| ==> Text.CleanItem(items[j])
  {
    items := [];
    var rawList := Text.Split(commaSeparatedList);
    for i := 0 to |rawList|
      invariant items == Text.TrimmedItems(rawList[..i])
    {
      var trimmedItem := Text.TrimSpace(rawList[i]);
      Text.TrimmedItemsStep(rawList, i);
      if |trimmedItem| > 0 {
        items := items + [trimmedItem];
      }
    }
    assert rawList[..|rawList|] == rawList;
    Text.CommaItemsShape(commaSeparatedList);
  }

  /**
   * `CleanupTask`: how often to run (minutes), how many images to keep per
   * repository, where and what to clean, and whose pods protect images.
   */
  datatype CleanupTask = CleanupTask(
    interval: int,
    maxImages: int,
    awsRegion: string,
    ecrRepositories: seq<string>,
    kubeConfig: string,
    kubeNamespaces: seq<string>)

  /** `NewCleanupTask`: every 30 minutes, keep 900 images, in `us-east-1`, nothing else set. */
  function NewCleanupTask(): (t: CleanupTask)
    ensures t.interval == 30 && t.maxImages == 900 && t.awsRegion == "us-east-1"
    ensures t.ecrRepositories == [] && t.kubeNamespaces == [] && t.kubeConfig == ""
  {
    CleanupTask(30, 900, "us-east-1", [], "", [])
  }

  // ---------------------------------------------------------------------
  // One reconciliation pass (processor.go)
  // ---------------------------------------------------------------------

  /** A batch `FilterOldUnusedImages` may return: its size, and oldest unused images first. */
  ghost predicate ValidSelection(keepMax: int, images: seq<ImageDetail>, tagsInUse: seq<string>, selected: seq<ImageDetail>) {
    && |selected| == DeletionCount(keepMax, images, tagsInUse)
    && OldestFirstSelection(selected, Unused(images, tagsInUse))
  }

  /** The calls made for one repository, given its listing and the batch picked from it. */
  function RepoCalls(name: string, listed: Result<seq<ImageDetail>, Error>, selected: seq<ImageDetail>): seq<Call> {
    [Call.ListImages(name)] + (if listed.Success? && selected != [] then [Call.BatchRemoveImages(selected)] else [])
  }

  /** The error recorded for one repository, if any. */
  function RepoErrors(name: string, listed: Result<seq<ImageDetail>, Error>,
                      selected: seq<ImageDetail>, removed: Option<Error>): seq<Error> {
    if listed.Failure? then ["Cannot list images from repo '" + name + "': " + listed.error]
    else if selected == [] || removed.None? then []
    else ["Could not batch remove images from repo '" + name + "': " + removed.value]
  }

  /** The calls made for `repos`, in order, given the batch picked for each. */
  function PassCalls(clients: Clients, repos: seq<Repository>, selections: seq<seq<ImageDetail>>): seq<Call>
    requires |selections| == |repos|
  {
    if repos == [] then []
    else
      var n := |repos| - 1;
      PassCalls(clients, repos[..n], selections[..n])
        + RepoCalls(repos[n].repositoryName, clients.listImages(repos[n].repositoryName), selections[n])
  }

  /** The errors recorded for `repos`, in order, given the batch picked for each. */
  function PassErrors(clients: Clients, repos: seq<Repository>, selections: seq<seq<ImageDetail>>): seq<Error>
    requires |selections| == |repos|
  {
    if repos == [] then []
    else
      var n := |repos| - 1;
      var name := repos[n].repositoryName;
      PassErrors(clients, repos[..n], selections[..n])
        + RepoErrors(name, clients.listImages(name), selections[n], clients.batchRemoveImages(selections[n]))
  }

  lemma PassStep(clients: Clients, repos: seq<Repository>, i: nat,
                 selections: seq<seq<ImageDetail>>, selected: seq<ImageDetail>)
    requires i < |repos| && |selections| == i
    ensures var name := repos[i].repositoryName;
      && PassCalls(clients, repos[..i + 1], selections + [selected])
         == PassCalls(clients, repos[..i], selections) + RepoCalls(name, clients.listImages(name), selected)
      && PassErrors(clients, repos[..i + 1], selections + [selected])
         == PassErrors(clients, repos[..i], selections)
            + RepoErrors(name, clients.listImages(name), selected, clients.batchRemoveImages(selected))
  {
    assert repos[..i + 1][..i] == repos[..i];
    assert (selections + [selected])[..i] == selections;
  }

  /** Each repository whose listing succeeded got a batch `FilterOldUnusedImages` may return. */
  ghost predicate SelectionsValid(keepMax: int, clients: Clients, usage: map<string, seq<string>>,
                                  repos: seq<Repository>, selections: seq<seq<ImageDetail>>)
    requires |selections| == |repos|
  {
    forall k :: 0 <= k < |repos| && clients.listImages(repos[k].repositoryName).Success? ==>
      ValidSelection(keepMax, clients.listImages(repos[k].repositoryName).value,
                     TagsOf(usage, repos[k].repositoryName), selections[k])
  }

  lemma SelectionsStep(keepMax: int, clients: Clients, usage: map<string, seq<string>>, repos: seq<Repository>, i: nat,
                       selections: seq<seq<ImageDetail>>, selected: seq<ImageDetail>)
    requires i < |repos| && |selections| == i
    requires SelectionsValid(keepMax, clients, usage, repos[..i], selections)
    requires var name := repos[i].repositoryName;
      clients.listImages(name).Success? ==>
        ValidSelection(keepMax, clients.listImages(name).value, TagsOf(usage, name), selected)
    ensures SelectionsValid(keepMax, clients, usage, repos[..i + 1], selections + [selected])
  {
    var rs, ss := repos[..i + 1], selections + [selected];
    forall k | 0 <= k < |rs| && clients.listImages(rs[k].repositoryName).Success?
      ensures ValidSelection(keepMax, clients.listImages(rs[k].repositoryName).value,
                             TagsOf(usage, rs[k].repositoryName), ss[k])
    {
      if k < i {
        assert rs[k] == repos[..i][k] && ss[k] == selections[k];
      }
    }
  }

  /**
   * The body of the repository loop of `RemoveOldImages` for one
   * repository: list its images, pick the old unused ones and delete them.
   * A `continue` of the loop is a return here.
   */
  method ProcessRepository(t: CleanupTask, clients: Clients, usedImages: map<string, seq<string>>, repoName: string)
    returns (calls: seq<Call>, errors: seq<Error>, ghost selected: seq<ImageDetail>)
    ensures calls == RepoCalls(repoName, clients.listImages(repoName), selected)
    ensures errors == RepoErrors(repoName, clients.listImages(repoName), selected, clients.batchRemoveImages(selected))
    ensures clients.listImages(repoName).Failure? ==> selected == []
    ensures clients.listImages(repoName).Success? ==>
              ValidSelection(t.maxImages, clients.listImages(repoName).value, TagsOf(usedImages, repoName), selected)
  {
    errors := [];
    selected := [];
    calls := [Call.ListImages(repoName)];
    var imagesResult := clients.listImages(repoName);
    if imagesResult.Failure? {
      errors := errors + ["Cannot list images from repo '" + repoName + "': " + imagesResult.error];
      return;
    }
    var images := imagesResult.value;

    var unusedOldImages := FilterOldUnusedImages(t.maxImages, images, TagsOf(usedImages, repoName));
    selected := unusedOldImages;

    if |unusedOldImages| == 0 {
      return;
    }

    calls := calls + [Call.BatchRemoveImages(unusedOldImages)];
    var err := clients.batchRemoveImages(unusedOldImages);
    if err.Some? {
      errors := errors + ["Could not batch remove images from repo '" + repoName + "': " + err.value];
      return;
    }
  }

  /** The loop over the listed repositories: each processed in turn, its calls and errors appended. */
  method ProcessRepositories(t: CleanupTask, clients: Clients, usedImages: map<string, seq<string>>,
                             repos: seq<Repository>)
    returns (calls: seq<Call>, errors: seq<Error>, ghost selections: seq<seq<ImageDetail>>)
    ensures |selections| == |repos|
    ensures SelectionsValid(t.maxImages, clients, usedImages, repos, selections)
    ensures calls == PassCalls(clients, repos, selections)
    ensures errors == PassErrors(clients, repos, selections)
  {
    calls, errors, selections := [], [], [];
    for i := 0 to |repos|
      invariant |selections| == i
      invariant SelectionsValid(t.maxImages, clients, usedImages, repos[..i], selections)
      invariant calls == PassCalls(clients, repos[..i], selections)
      invariant errors == PassErrors(clients, repos[..i], selections)
    {
      var repoName := repos[i].repositoryName;
      var repoCalls, repoErrors, selected := ProcessRepository(t, clients, usedImages, repoName);
      PassStep(clients, repos, i, selections, selected);
      SelectionsStep(t.maxImages, clients, usedImages, repos, i, selections, selected);
      calls, errors, selections := calls + repoCalls, errors + repoErrors, selections + [selected];
    }
    assert repos[..|repos|] == repos;
  }

  /**
   * `RemoveOldImages`: a failed pod or repository listing ends the pass
   * with that one error; otherwise every repository is processed in the
   * order listed, each failure adding one error and moving on. `selections`
   * holds the batch picked for each repository (empty when its listing
   * failed), known only up to `ValidSelection` since `sort.Sort` does not
   * fix the order of equally old images.
   */
  method RemoveOldImages(t: CleanupTask, clients: Clients)
    returns (errors: seq<Error>, calls: seq<Call>, ghost selections: seq<seq<ImageDetail>>)
    ensures clients.listAllPods(t.kubeNamespaces).Failure? ==>
              && errors == ["Cannot list pods: " + clients.listAllPods(t.kubeNamespaces).error]
              && calls == [Call.ListAllPods(t.kubeNamespaces)]
    ensures clients.listAllPods(t.kubeNamespaces).Success? && clients.listRepositories(t.ecrRepositories).Failure? ==>
              && errors == ["Cannot list ECR repositories: " + clients.listRepositories(t.ecrRepositories).error]
              && calls == [Call.ListAllPods(t.kubeNamespaces), Call.ListRepositories(t.ecrRepositories)]
    ensures clients.listAllPods(t.kubeNamespaces).Success? && clients.listRepositories(t.ecrRepositories).Success? ==>
              var pods := clients.listAllPods(t.kubeNamespaces).value;
              var repos := clients.listRepositories(t.ecrRepositories).value;
              var usage := Scan(ContainerImages(pods)).imagesPerRepo;
              && |selections| == |repos|
              && SelectionsValid(t.maxImages, clients, usage, repos, selections)
              && calls == [Call.ListAllPods(t.kubeNamespaces), Call.ListRepositories(t.ecrRepositories)]
                           + PassCalls(clients, repos, selections)
              && errors == PassErrors(clients, repos, selections)
  {
    errors := [];
    selections := [];

    calls := [Call.ListAllPods(t.kubeNamespaces)];
    var podsResult := clients.listAllPods(t.kubeNamespaces);
    if podsResult.Failure? {
      errors := errors + ["Cannot list pods: " + podsResult.error];
      return;
    }
    var pods := podsResult.value;

    calls := calls + [Call.ListRepositories(t.ecrRepositories)];
    var reposResult := clients.listRepositories(t.ecrRepositories);
    if reposResult.Failure? {
      errors := errors + ["Cannot list ECR repositories: " + reposResult.error];
      return;
    }
    var repos := reposResult.value;

    var usedImages := ECRImagesFromPods(pods);
    var repoCalls, repoErrors;
    repoCalls, repoErrors, selections := ProcessRepositories(t, clients, usedImages, repos);
    assert calls == [Call.ListAllPods(t.kubeNamespaces), Call.ListRepositories(t.ecrRepositories)] && errors == [];
    calls, errors := calls + repoCalls, errors + repoErrors;
  }

  // ---------------------------------------------------------------------
  // What a pass guarantees
  // ---------------------------------------------------------------------

  /** At most one error per repository. */
  lemma {:induction false} ErrorsBounded(clients: Clients, repos: seq<Repository>, selections: seq<seq<ImageDetail>>)
    requires |selections| == |repos|
    ensures |PassErrors(clients, repos, selections)| <= |repos|
  {
    if repos != [] {
      ErrorsBounded(clients, repos[..|repos| - 1], selections[..|repos| - 1]);
    }
  }

  /** The calls for one repository list that repository's images, once. */
  lemma RepoCallsListed(name: string, listed: Result<seq<ImageDetail>, Error>, selected: seq<ImageDetail>)
    ensures ListedRepositories(RepoCalls(name, listed, selected)) == [name]
  {
    var tail := RepoCalls(name, listed, selected);
    ListedRepositoriesConcat([Call.ListImages(name)], tail[1..]);
    assert tail == [Call.ListImages(name)] + tail[1..];
    assert ListedRepositories([Call.ListImages(name)]) == [name] by {
      assert [Call.ListImages(name)][..0] == [];
    }
  }

  /** Every repository is visited, once, in the order the listing returned them. */
  lemma {:induction false} RepositoriesVisitedInOrder(clients: Clients, repos: seq<Repository>,
                                                      selections: seq<seq<ImageDetail>>)
    requires |selections| == |repos|
    ensures ListedRepositories(PassCalls(clients, repos, selections)) == RepositoryNames(repos)
  {
    if repos != [] {
      var n := |repos| - 1;
      var name := repos[n].repositoryName;
      var tail := RepoCalls(name, clients.listImages(name), selections[n]);
      RepositoriesVisitedInOrder(clients, repos[..n], selections[..n]);
      ListedRepositoriesConcat(PassCalls(clients, repos[..n], selections[..n]), tail);
      RepoCallsListed(name, clients.listImages(name), selections[n]);
      assert RepositoryNames(repos) == RepositoryNames(repos[..n]) + [name];
    }
  }

  /**
   * Each delete call carries the non-empty batch picked for a repository
   * whose listing succeeded.
   */
  lemma {:induction false} DeletesCarrySelections(clients: Clients, repos: seq<Repository>,
                                                  selections: seq<seq<ImageDetail>>, c: Call)
    requires |selections| == |repos|
    requires c in PassCalls(clients, repos, selections) && c.BatchRemoveImages?
    ensures exists k :: 0 <= k < |repos| && c.images == selections[k] && selections[k] != []
                        && clients.listImages(repos[k].repositoryName).Success?
  {
    var n := |repos| - 1;
    var name := repos[n].repositoryName;
    if c in PassCalls(clients, repos[..n], selections[..n]) {
      DeletesCarrySelections(clients, repos[..n], selections[..n], c);
      var k :| 0 <= k < n && c.images == selections[..n][k] && selections[..n][k] != []
               && clients.listImages(repos[..n][k].repositoryName).Success?;
      assert repos[..n][k] == repos[k];
    } else {
      assert c in RepoCalls(name, clients.listImages(name), selections[n]);
    }
  }

  /** Conversely, every non-empty batch picked from a successful listing is deleted. */
  lemma {:induction false} SelectionsDeleted(clients: Clients, repos: seq<Repository>,
                                             selections: seq<seq<ImageDetail>>, k: nat)
    requires |selections| == |repos| && k < |repos|
    requires clients.listImages(repos[k].repositoryName).Success? && selections[k] != []
    ensures Call.BatchRemoveImages(selections[k]) in PassCalls(clients, repos, selections)
  {
    var n := |repos| - 1;
    if k < n {
      SelectionsDeleted(clients, repos[..n], selections[..n], k);
      assert repos[..n][k] == repos[k] && selections[..n][k] == selections[k];
    } else {
      assert Call.BatchRemoveImages(selections[k]) in RepoCalls(repos[k].repositoryName, clients.listImages(repos[k].repositoryName), selections[k]);
    }
  }

  /** A batch picked from a listing holds only listed images, none of them in use. */
  lemma SelectionSparesImagesInUse(keepMax: int, images: seq<ImageDetail>, tagsInUse: seq<string>,
                                   selected: seq<ImageDetail>)
    requires ValidSelection(keepMax, images, tagsInUse, selected)
    ensures forall x :: x in selected ==> x in images && !InUse(x, tagsInUse)
  {
    SelectionDrawnFromPool(selected, Unused(images, tagsInUse));
    forall x | x in selected ensures x in images && !InUse(x, tagsInUse) {
      UnusedMembership(images, tagsInUse, x);
    }
  }
}

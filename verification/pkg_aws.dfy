/**
 * The ECR side of the newer controller generation (package `aws`): the
 * retention decision that picks which images of one repository to delete,
 * the in-place push-date sort it relies on, the validation and request
 * building of a batch delete, and the page accumulation of the two listing
 * calls. The AWS SDK is reduced to oracle functions from request to response.
 */
module PkgAws {
  import opened Wrappers
  import opened EcrApi

  /** Largest batch `BatchDeleteImage` accepts, and the cap on a selection. */
  const BatchRemoveMaxImages: nat := 100
  /** The tag the newer generation never deletes. */
  const LatestTag: string := "latest"

  // ---------------------------------------------------------------------
  // Classification of one image
  // ---------------------------------------------------------------------

  /** Why an image is kept back from deletion, if it is. */
  datatype Protection = Latest | InUse | Unprotected

  /**
   * What the labelled tag loop decides for one image: the first of its tags
   * that is `latest` or in use settles it (`latest` is tested first for each
   * tag); with neither, the image is unprotected.
   */
  function Classify(tags: seq<string>, tagsInUse: seq<string>): Protection {
    if tags == [] then Unprotected
    else if tags[0] == LatestTag then Latest
    else if tags[0] in tagsInUse then InUse
    else Classify(tags[1..], tagsInUse)
  }

  /** A tag that keeps its image back: `latest` or one in use. */
  predicate ProtectingTag(tag: string, tagsInUse: seq<string>) {
    tag == LatestTag || tag in tagsInUse
  }

  /** An image is unprotected exactly when none of its tags protects it. */
  lemma {:induction false} ClassifyUnprotectedIff(tags: seq<string>, tagsInUse: seq<string>)
    ensures Classify(tags, tagsInUse) == Unprotected <==>
            forall t :: t in tags ==> !ProtectingTag(t, tagsInUse)
  {
    if tags != [] {
      ClassifyUnprotectedIff(tags[1..], tagsInUse);
      assert tags[0] in tags;
      if forall t :: t in tags ==> !ProtectingTag(t, tagsInUse) {
        assert forall t :: t in tags[1..] ==> t in tags;
      } else {
        var t :| t in tags && ProtectingTag(t, tagsInUse);
        assert t == tags[0] || t in tags[1..];
      }
    }
  }

  /** An image classified `Latest` does carry the `latest` tag. */
  lemma {:induction false} ClassifyLatestCarries(tags: seq<string>, tagsInUse: seq<string>)
    ensures Classify(tags, tagsInUse) == Latest ==> LatestTag in tags
  {
    if tags != [] && tags[0] != LatestTag && tags[0] !in tagsInUse {
      ClassifyLatestCarries(tags[1..], tagsInUse);
    }
  }

  /** Only the set of tags in use matters: duplicates or order in `tagsInUse` change nothing. */
  lemma {:induction false} ClassifyDependsOnTagSet(tags: seq<string>, inUse1: seq<string>, inUse2: seq<string>)
    requires forall t :: t in inUse1 <==> t in inUse2
    ensures Classify(tags, inUse1) == Classify(tags, inUse2)
  {
    if tags != [] {
      ClassifyDependsOnTagSet(tags[1..], inUse1, inUse2);
    }
  }

  /** Dropping a tag that protects nothing changes nothing. */
  lemma {:induction false} ClassifyIgnoresUnprotectingTag(tags: seq<string>, j: nat, tagsInUse: seq<string>)
    requires j < |tags| && !ProtectingTag(tags[j], tagsInUse)
    ensures Classify(tags[..j] + tags[j + 1..], tagsInUse) == Classify(tags, tagsInUse)
  {
    var dropped := tags[..j] + tags[j + 1..];
    if j == 0 {
      assert dropped == tags[1..];
    } else if !ProtectingTag(tags[0], tagsInUse) {
      assert dropped[0] == tags[0];
      assert dropped[1..] == tags[1..][..j - 1] + tags[1..][j..];
      ClassifyIgnoresUnprotectingTag(tags[1..], j - 1, tagsInUse);
    } else {
      assert dropped[0] == tags[0];
    }
  }

  /** A tag repeated later in an image's tag list changes nothing. */
  lemma {:induction false} ClassifyIgnoresRepeatedTag(tags: seq<string>, i: nat, j: nat, tagsInUse: seq<string>)
    requires i < j < |tags| && tags[i] == tags[j]
    ensures Classify(tags[..j] + tags[j + 1..], tagsInUse) == Classify(tags, tagsInUse)
  {
    var dropped := tags[..j] + tags[j + 1..];
    assert dropped[0] == tags[0];
    if !ProtectingTag(tags[0], tagsInUse) {
      assert dropped[1..] == tags[1..][..j - 1] + tags[1..][j..];
      if i == 0 {
        ClassifyIgnoresUnprotectingTag(tags[1..], j - 1, tagsInUse);
      } else {
        ClassifyIgnoresRepeatedTag(tags[1..], i - 1, j - 1, tagsInUse);
      }
    }
  }

  // ---------------------------------------------------------------------
  // Partition of a repository's images
  // ---------------------------------------------------------------------

  /** The images appended to `unusedImages`, in input order. */
  function Unused(images: seq<ImageDetail>, tagsInUse: seq<string>): seq<ImageDetail> {
    if images == [] then []
    else
      var last := images[|images| - 1];
      Unused(images[..|images| - 1], tagsInUse)
        + (if Classify(last.imageTags, tagsInUse) == Unprotected then [last] else [])
  }

  /** `usedImagesFound`: the images whose first protecting tag is in use. */
  function UsedCount(images: seq<ImageDetail>, tagsInUse: seq<string>): nat {
    if images == [] then 0
    else
      UsedCount(images[..|images| - 1], tagsInUse)
        + (if Classify(images[|images| - 1].imageTags, tagsInUse) == InUse then 1 else 0)
  }

  /** The images skipped because of `latest`; they are counted nowhere in the source. */
  function LatestCount(images: seq<ImageDetail>, tagsInUse: seq<string>): nat {
    if images == [] then 0
    else
      LatestCount(images[..|images| - 1], tagsInUse)
        + (if Classify(images[|images| - 1].imageTags, tagsInUse) == Latest then 1 else 0)
  }

  /** How many images carry the tag `latest`. */
  function CarryingLatest(images: seq<ImageDetail>): nat {
    if images == [] then 0
    else CarryingLatest(images[..|images| - 1]) + (if LatestTag in images[|images| - 1].imageTags then 1 else 0)
  }

  /**
   * At most one image of the repository carries `latest`. ECR keeps a tag
   * unique within a repository, so a listing of one repository always
   * satisfies this.
   */
  predicate AtMostOneLatest(images: seq<ImageDetail>) {
    CarryingLatest(images) <= 1
  }

  /** The counters after one more image. */
  lemma CountsStep(images: seq<ImageDetail>, i: nat, tagsInUse: seq<string>)
    requires i < |images|
    ensures var c := Classify(images[i].imageTags, tagsInUse);
      && Unused(images[..i + 1], tagsInUse) == Unused(images[..i], tagsInUse) + (if c == Unprotected then [images[i]] else [])
      && UsedCount(images[..i + 1], tagsInUse) == UsedCount(images[..i], tagsInUse) + (if c == InUse then 1 else 0)
  {
    assert images[..i + 1][..i] == images[..i];
  }

  /** Every image falls in exactly one of the three groups. */
  lemma {:induction false} PartitionCounts(images: seq<ImageDetail>, tagsInUse: seq<string>)
    ensures |images| == |Unused(images, tagsInUse)| + UsedCount(images, tagsInUse) + LatestCount(images, tagsInUse)
  {
    if images != [] {
      PartitionCounts(images[..|images| - 1], tagsInUse);
    }
  }

  /** Images skipped for `latest` carry it. */
  lemma {:induction false} LatestCountBound(images: seq<ImageDetail>, tagsInUse: seq<string>)
    ensures LatestCount(images, tagsInUse) <= CarryingLatest(images)
  {
    if images != [] {
      LatestCountBound(images[..|images| - 1], tagsInUse);
      ClassifyLatestCarries(images[|images| - 1].imageTags, tagsInUse);
    }
  }

  /** An image is selected for the unused list exactly when it is in the input and unprotected. */
  lemma {:induction false} UnusedMembership(images: seq<ImageDetail>, tagsInUse: seq<string>, x: ImageDetail)
    ensures x in Unused(images, tagsInUse) <==>
            x in images && forall t :: t in x.imageTags ==> !ProtectingTag(t, tagsInUse)
  {
    ClassifyUnprotectedIff(x.imageTags, tagsInUse);
    if images != [] {
      var init := images[..|images| - 1];
      UnusedMembership(init, tagsInUse, x);
      assert images == init + [images[|images| - 1]];
    }
  }

  // ---------------------------------------------------------------------
  // The slice end and the size of the selection
  // ---------------------------------------------------------------------

  /** `lastImageIdx` before clamping. */
  function SliceEnd(keepMax: int, images: seq<ImageDetail>, tagsInUse: seq<string>): int {
    |Unused(images, tagsInUse)| - keepMax + UsedCount(images, tagsInUse)
  }

  function Min(a: int, b: int): int {
    if a <= b then a else b
  }

  /** How many images the selection holds: `min(slice end, |unused|, 100)`, or none when `keepMax` covers the repository. */
  function DeletionCount(keepMax: int, images: seq<ImageDetail>, tagsInUse: seq<string>): int {
    if keepMax >= |images| then 0
    else Min(Min(SliceEnd(keepMax, images, tagsInUse), |Unused(images, tagsInUse)|), BatchRemoveMaxImages)
  }

  /**
   * The slice end is never negative once the early return is passed and at
   * most one image carries `latest`: only `latest` images escape both
   * counters.
   */
  lemma SliceEndNonNegative(keepMax: int, images: seq<ImageDetail>, tagsInUse: seq<string>)
    requires keepMax < |images| && AtMostOneLatest(images)
    ensures SliceEnd(keepMax, images, tagsInUse) >= 0
  {
    PartitionCounts(images, tagsInUse);
    LatestCountBound(images, tagsInUse);
  }

  /**
   * Without the `latest` uniqueness the slice end can be negative: two
   * `latest` images and one untagged image with `keepMax` 2 give -1, and the
   * final slice would be out of range.
   */
  lemma TwoLatestImagesMakeSliceEndNegative(a: ImageDetail, b: ImageDetail, c: ImageDetail)
    requires a.imageTags == [LatestTag] && b.imageTags == [LatestTag] && c.imageTags == []
    ensures !AtMostOneLatest([a, b, c])
    ensures SliceEnd(2, [a, b, c], []) == -1
  {
    var s := [a, b, c];
    var noTags: seq<string> := [];
    assert s[..2] == [a, b] && [a, b][..1] == [a] && [a][..0] == [];
    assert LatestTag in a.imageTags && LatestTag in b.imageTags;
    assert CarryingLatest([a]) == 1;
    assert CarryingLatest([a, b]) == 2;
    assert Classify(a.imageTags, noTags) == Latest && Classify(b.imageTags, noTags) == Latest;
    assert UsedCount([a], noTags) == UsedCount([], noTags);
    assert Unused([a], noTags) == [];
    assert Unused([a, b], noTags) == [] && UsedCount([a, b], noTags) == 0;
    assert Unused(s, noTags) == [c] && UsedCount(s, noTags) == 0;
  }

  /** The selection size is within the unused list and the batch cap, and zero when `keepMax` covers the repository. */
  lemma DeletionCountBounds(keepMax: int, images: seq<ImageDetail>, tagsInUse: seq<string>)
    requires AtMostOneLatest(images)
    ensures 0 <= DeletionCount(keepMax, images, tagsInUse) <= |Unused(images, tagsInUse)|
    ensures DeletionCount(keepMax, images, tagsInUse) <= BatchRemoveMaxImages
    ensures keepMax >= |images| ==> DeletionCount(keepMax, images, tagsInUse) == 0
  {
    if keepMax < |images| {
      SliceEndNonNegative(keepMax, images, tagsInUse);
    }
  }

  // ---------------------------------------------------------------------
  // The retention decision
  // ---------------------------------------------------------------------

  /**
   * The clamped prefix of a sorted copy of the unused list has the size the
   * contract of `FilterOldUnusedImages` names, is an oldest-first pick, and
   * holds no protected image.
   */
  lemma SortedPrefixMeetsContract(keepMax: int, repoImages: seq<ImageDetail>, tagsInUse: seq<string>,
                                  sorted: seq<ImageDetail>, n: int)
    requires keepMax < |repoImages| && AtMostOneLatest(repoImages)
    requires SortedByPushDate(sorted) && multiset(sorted) == multiset(Unused(repoImages, tagsInUse))
    requires n == Min(Min(SliceEnd(keepMax, repoImages, tagsInUse), |sorted|), BatchRemoveMaxImages)
    ensures 0 <= n <= |sorted| && n <= BatchRemoveMaxImages
    ensures n == DeletionCount(keepMax, repoImages, tagsInUse)
    ensures OldestFirstSelection(sorted[..n], Unused(repoImages, tagsInUse))
    ensures forall x :: x in sorted[..n] ==> x in repoImages
    ensures forall x, t :: x in sorted[..n] && t in x.imageTags ==> !ProtectingTag(t, tagsInUse)
  {
    var unused := Unused(repoImages, tagsInUse);
    assert |sorted| == |unused| by {
      assert |multiset(sorted)| == |multiset(unused)|;
    }
    SliceEndNonNegative(keepMax, repoImages, tagsInUse);
    SortedPrefixIsOldestFirst(sorted, unused, n);
    SelectionDrawnFromPool(sorted[..n], unused);
    forall x | x in sorted[..n] ensures x in repoImages && forall t :: t in x.imageTags ==> !ProtectingTag(t, tagsInUse) {
      UnusedMembership(repoImages, tagsInUse, x);
    }
  }

  /**
   * The labelled loop of `FilterOldUnusedImages`: the images with neither
   * `latest` nor a tag in use, in input order, and how many images have a
   * tag in use before any `latest`.
   */
  method ScanRepoImages(repoImages: seq<ImageDetail>, tagsInUse: seq<string>)
    returns (unusedImages: seq<ImageDetail>, usedImagesFound: nat)
    ensures unusedImages == Unused(repoImages, tagsInUse)
    ensures usedImagesFound == UsedCount(repoImages, tagsInUse)
  {
    usedImagesFound := 0;
    unusedImages := [];

    label RepoImagesLoop:
    for i := 0 to |repoImages|
      invariant unusedImages == Unused(repoImages[..i], tagsInUse)
      invariant usedImagesFound == UsedCount(repoImages[..i], tagsInUse)
    {
      var repoImage := repoImages[i];
      var tags := repoImage.imageTags;
      CountsStep(repoImages, i, tagsInUse);
      for j := 0 to |tags|
        invariant Classify(tags, tagsInUse) == Classify(tags[j..], tagsInUse)
      {
        var tag := tags[j];
        if tag == LatestTag {
          continue RepoImagesLoop;
        }
        for k := 0 to |tagsInUse|
          invariant forall m :: 0 <= m < k ==> tagsInUse[m] != tag
        {
          if tagsInUse[k] == tag {
            usedImagesFound := usedImagesFound + 1;
            continue RepoImagesLoop;
          }
        }
        assert tags[j..][1..] == tags[j + 1..];
      }
      unusedImages := unusedImages + [repoImage];
    }
    assert repoImages[..|repoImages|] == repoImages;
  }

  /**
   * `FilterOldUnusedImages`: the oldest images of one repository that carry
   * neither `latest` nor a tag in use, as many as bring the repository down
   * towards `keepMax`, and never more than one batch.
   */
  method FilterOldUnusedImages(keepMax: int, repoImages: seq<ImageDetail>, tagsInUse: seq<string>)
    returns (selected: seq<ImageDetail>)
    requires AtMostOneLatest(repoImages)
    ensures keepMax >= |repoImages| ==> selected == []
    ensures |selected| == DeletionCount(keepMax, repoImages, tagsInUse)
    ensures |selected| <= BatchRemoveMaxImages
    ensures OldestFirstSelection(selected, Unused(repoImages, tagsInUse))
    ensures forall x :: x in selected ==> x in repoImages
    ensures forall x, t :: x in selected && t in x.imageTags ==> !ProtectingTag(t, tagsInUse)
  {
    if keepMax >= |repoImages| {
      return [];
    }
    var unusedImages, usedImagesFound := ScanRepoImages(repoImages, tagsInUse);

    var sorted := new ImageDetail[|unusedImages|](i requires 0 <= i < |unusedImages| => unusedImages[i]);
    assert sorted[..] == unusedImages;
    SortImagesByPushDate(sorted);

    var lastImageIdx := |unusedImages| - keepMax + usedImagesFound;
    if lastImageIdx > |unusedImages| {
      lastImageIdx := |unusedImages|;
    }
    if lastImageIdx > BatchRemoveMaxImages {
      lastImageIdx := BatchRemoveMaxImages;
    }
    ghost var sortedCopy := sorted[..];
    SortedPrefixMeetsContract(keepMax, repoImages, tagsInUse, sortedCopy, lastImageIdx);
    selected := sorted[..lastImageIdx];
    assert selected == sortedCopy[..lastImageIdx];
  }

  // ---------------------------------------------------------------------
  // Registry requests
  // ---------------------------------------------------------------------

  const TooManyImagesError: Error := "Only allows to remove 100 images in a single call"
  const MixedRepositoriesError: Error := "All images must belong to the same ECR repo"

  /** Every image belongs to the repository of the first one. */
  predicate SameRepository(images: seq<ImageDetail>) {
    forall i :: 0 <= i < |images| ==> images[i].repositoryName == images[0].repositoryName
  }

  /**
   * `BatchRemoveImages`: refuses an oversized or mixed batch before any call,
   * and otherwise sends one `BatchDeleteImage` request for the repository of
   * the first image with every digest in order, returning the call's error.
   * `request` is the request sent, `None` when no call is made.
   */
  method BatchRemoveImages(images: seq<ImageDetail>,
                           batchDeleteImage: BatchDeleteImageInput -> Result<seq<ImageFailure>, Error>)
    returns (err: Option<Error>, request: Option<BatchDeleteImageInput>)
    ensures images == [] ==> err == None && request == None
    ensures |images| > BatchRemoveMaxImages ==> err == Some(TooManyImagesError) && request == None
    ensures 0 < |images| <= BatchRemoveMaxImages && !SameRepository(images) ==>
              err == Some(MixedRepositoriesError) && request == None
    ensures 0 < |images| <= BatchRemoveMaxImages && SameRepository(images) ==>
              && request == Some(BatchDeleteImageInput(images[0].repositoryName, ImageIds(images)))
              && err == (match batchDeleteImage(request.value)
                           case Failure(e) => Some(e)
                           case Success(_) => None)
  {
    if |images| == 0 {
      return None, None;
    }
    if |images| > BatchRemoveMaxImages {
      return Some(TooManyImagesError), None;
    }

    var repositoryName := images[0].repositoryName;
    for i := 0 to |images|
      invariant forall k :: 0 <= k < i ==> images[k].repositoryName == repositoryName
    {
      if images[i].repositoryName != repositoryName {
        return Some(MixedRepositoriesError), None;
      }
    }

    var imageIds := new ImageIdentifier[|images|];
    for i := 0 to |images|
      invariant forall k :: 0 <= k < i ==> imageIds[k] == ImageIdentifier(images[k].imageDigest)
    {
      imageIds[i] := ImageIdentifier(images[i].imageDigest);
    }

    var input := BatchDeleteImageInput(repositoryName, imageIds[..]);
    assert input.imageIds == ImageIds(images);
    request := Some(input);
    var output := batchDeleteImage(input);
    if output.Failure? {
      return Some(output.error), request;
    }
    return None, request;
  }

  /**
   * `ListRepositories`: no names means no call and no repositories;
   * otherwise one paginated `DescribeRepositories` call, with the registry
   * id only when one is given, whose pages are joined in order, or nothing
   * and the call's error when it fails.
   */
  method ListRepositories(repositoryNames: seq<string>, registryId: Option<string>,
                          describeRepositoriesPages: DescribeRepositoriesInput -> Paginated<Repository>)
    returns (repos: seq<Repository>, err: Option<Error>, request: Option<DescribeRepositoriesInput>)
    ensures repositoryNames == [] ==> repos == [] && err == None && request == None
    ensures repositoryNames != [] ==> request == Some(DescribeRepositoriesInput(repositoryNames, registryId))
    ensures request.Some? ==>
              var response := describeRepositoriesPages(request.value);
              && err == response.failure
              && repos == (if response.failure.None? then Flatten(response.pages) else [])
  {
    if |repositoryNames| == 0 {
      return [], None, None;
    }
    var input := DescribeRepositoriesInput(repositoryNames, registryId);
    request := Some(input);
    var collector := new PageCollector<Repository>();
    err := DeliverPages(describeRepositoriesPages(input), collector);
    if err.Some? {
      return [], err, request;
    }
    repos := collector.items;
  }

  /**
   * `ListImages`: no repository name means no call and no images; otherwise
   * one paginated `DescribeImages` call whose pages are joined in order, or
   * nothing and the call's error when it fails.
   */
  method ListImages(repositoryName: Option<string>, registryId: Option<string>,
                    describeImagesPages: DescribeImagesInput -> Paginated<ImageDetail>)
    returns (images: seq<ImageDetail>, err: Option<Error>, request: Option<DescribeImagesInput>)
    ensures repositoryName.None? ==> images == [] && err == None && request == None
    ensures repositoryName.Some? ==> request == Some(DescribeImagesInput(repositoryName.value, registryId))
    ensures request.Some? ==>
              var response := describeImagesPages(request.value);
              && err == response.failure
              && images == (if response.failure.None? then Flatten(response.pages) else [])
  {
    if repositoryName.None? {
      return [], None, None;
    }
    var input := DescribeImagesInput(repositoryName.value, registryId);
    request := Some(input);
    var collector := new PageCollector<ImageDetail>();
    err := DeliverPages(describeImagesPages(input), collector);
    if err.Some? {
      return [], err, request;
    }
    images := collector.items;
  }
}

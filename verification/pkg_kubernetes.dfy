/**
 * Usage extraction of the newer generation (package `kubernetes`): which
 * tags of which ECR repositories the running pods refer to. References that
 * are not tagged ECR references, and references tagged `latest`, are
 * ignored; a raw reference seen again adds nothing.
 */
module PkgKubernetes {
  import opened Wrappers
  import opened KubeApi
  import opened EcrReference
  import opened ImageUsage

  const LatestTag: string := "latest"

  /** The loop body for one image reference. */
  function Step(u: Usage, image: string): Usage {
    if image in u.encountered then u
    else match FindSubmatch(image, RepoExcludesColon)
      case None => u
      case Some(m) =>
        if m.tag == LatestTag then u
        else Usage(u.imagesPerRepo[m.repositoryName := TagsOf(u.imagesPerRepo, m.repositoryName) + [m.tag]],
                   u.encountered + {image})
  }

  /** The two maps after the loop bodies for `images`, in order, starting from empty maps. */
  function Scan(images: seq<string>): Usage {
    if images == [] then Usage(map[], {})
    else Step(Scan(images[..|images| - 1]), images[|images| - 1])
  }

  /** A reference that adds a tag when first seen: a tagged ECR reference whose tag is not `latest`. */
  predicate Contributes(image: string) {
    var m := FindSubmatch(image, RepoExcludesColon);
    m.Some? && m.value.tag != LatestTag
  }

  /**
   * Independent account of the tags of `repo`: the tags of the distinct
   * contributing references to `repo`, in the order they are first seen.
   */
  function TagsFor(images: seq<string>, repo: string): seq<string> {
    if images == [] then []
    else
      var init, image := images[..|images| - 1], images[|images| - 1];
      var m := FindSubmatch(image, RepoExcludesColon);
      TagsFor(init, repo)
        + (if image !in init && Contributes(image) && m.value.repositoryName == repo then [m.value.tag] else [])
  }

  lemma ScanAppend(images: seq<string>, image: string)
    ensures Scan(images + [image]) == Step(Scan(images), image)
  {
    assert (images + [image])[..|images|] == images;
  }

  lemma TagsForAppend(images: seq<string>, image: string, repo: string)
    ensures var m := FindSubmatch(image, RepoExcludesColon);
      TagsFor(images + [image], repo)
        == TagsFor(images, repo)
           + (if image !in images && Contributes(image) && m.value.repositoryName == repo then [m.value.tag] else [])
  {
    assert (images + [image])[..|images|] == images;
  }

  /**
   * What the loop keeps: a reference is marked seen exactly when it occurs
   * and contributes, and the tags kept for each repository are exactly
   * `TagsFor`; so no repository maps to an empty list.
   */
  lemma {:induction false} ScanCharacterised(images: seq<string>)
    ensures forall x :: x in Scan(images).encountered <==> x in images && Contributes(x)
    ensures forall repo :: TagsOf(Scan(images).imagesPerRepo, repo) == TagsFor(images, repo)
    ensures forall repo :: repo in Scan(images).imagesPerRepo ==> Scan(images).imagesPerRepo[repo] != []
  {
    if images != [] {
      var init, image := images[..|images| - 1], images[|images| - 1];
      assert images == init + [image];
      ScanCharacterised(init);
      ScanAppend(init, image);
      var u := Scan(init);
      forall x ensures x in Scan(images).encountered <==> x in images && Contributes(x) {
        assert x in images <==> x in init || x == image;
      }
      forall repo ensures TagsOf(Scan(images).imagesPerRepo, repo) == TagsFor(images, repo) {
        TagsForAppend(init, image, repo);
      }
    }
  }

  /** A reference already seen, or one that does not contribute, leaves the maps as they are. */
  lemma ScanIgnores(images: seq<string>, image: string)
    requires image in images || !Contributes(image)
    ensures Scan(images + [image]) == Scan(images)
  {
    ScanCharacterised(images);
    ScanAppend(images, image);
  }

  /** Untagged references and references to other registries add nothing. */
  lemma NonEcrReferenceIgnored(images: seq<string>, image: string)
    requires ':' !in image || !ContainsDkrEcr(image)
    ensures Scan(images + [image]) == Scan(images)
  {
    MatchHasColon(image, RepoExcludesColon);
    MatchHasDkrEcr(image, RepoExcludesColon);
    ScanIgnores(images, image);
  }

  /**
   * A first reference to a tagged image, including one in a namespaced
   * repository (a name with a `/`), adds its tag to that repository.
   */
  lemma ReferenceRecorded(images: seq<string>, s: string, prefix: string, region: string, repo: string, tag: string)
    requires EcrShape(s, prefix, region, repo, tag, RepoExcludesColon)
    requires !ContainsDkrEcr(repo + ":" + tag) && tag != LatestTag && s !in images
    ensures TagsOf(Scan(images + [s]).imagesPerRepo, repo) == TagsOf(Scan(images).imagesPerRepo, repo) + [tag]
  {
    FindSubmatchExact(s, prefix, region, repo, tag, RepoExcludesColon);
    ScanCharacterised(images);
    ScanAppend(images, s);
  }

  /** Every kept tag comes from a matched reference to that repository, and none is `latest`. */
  lemma {:induction false} TagsForFromReferences(images: seq<string>, repo: string, tag: string)
    requires tag in TagsFor(images, repo)
    ensures tag != LatestTag
    ensures exists image :: image in images && FindSubmatch(image, RepoExcludesColon) == Some(Submatch(repo, tag))
  {
    var init, image := images[..|images| - 1], images[|images| - 1];
    if tag in TagsFor(init, repo) {
      TagsForFromReferences(init, repo, tag);
      var x :| x in init && FindSubmatch(x, RepoExcludesColon) == Some(Submatch(repo, tag));
      assert x in images;
    } else {
      assert image in images;
    }
  }

  /**
   * The loop body for one container image: a reference seen before is
   * skipped, otherwise its tag is appended to its repository's list unless
   * the reference does not match or is tagged `latest`.
   */
  method RecordImage(imagesPerRepo: map<string, seq<string>>, encountered: set<string>, image: string,
                     ghost seen: seq<string>)
    returns (imagesPerRepo': map<string, seq<string>>, encountered': set<string>)
    requires Usage(imagesPerRepo, encountered) == Scan(seen)
    ensures Usage(imagesPerRepo', encountered') == Scan(seen + [image])
  {
    ScanAppend(seen, image);
    imagesPerRepo', encountered' := imagesPerRepo, encountered;
    if image in encountered {
      return;
    }
    var imageData := FindSubmatch(image, RepoExcludesColon);
    if imageData.None? {
      return;
    }
    var repoName, imageTag := imageData.value.repositoryName, imageData.value.tag;
    if imageTag == LatestTag {
      return;
    }
    if repoName in imagesPerRepo {
      imagesPerRepo' := imagesPerRepo[repoName := imagesPerRepo[repoName] + [imageTag]];
    } else {
      assert TagsOf(imagesPerRepo, repoName) + [imageTag] == [imageTag];
      imagesPerRepo' := imagesPerRepo[repoName := [imageTag]];
    }
    encountered' := encountered + {image};
  }

  /**
   * The inner loop: the loop body for each of one pod's containers, in order.
   * It mirrors pkg/kubernetes/kubernetes.go:86-111; `Core.RecordImages` is
   * the older generation's copy, whose loop body differs.
   */
  method RecordImages(imagesPerRepo: map<string, seq<string>>, encountered: set<string>,
                      podContainers: seq<Container>, ghost before: seq<string>)
    returns (imagesPerRepo': map<string, seq<string>>, encountered': set<string>)
    requires Usage(imagesPerRepo, encountered) == Scan(before)
    ensures Usage(imagesPerRepo', encountered') == Scan(before + Images(podContainers))
  {
    imagesPerRepo', encountered' := imagesPerRepo, encountered;
    assert before + Images(podContainers[..0]) == before;
    for j := 0 to |podContainers|
      invariant Usage(imagesPerRepo', encountered') == Scan(before + Images(podContainers[..j]))
    {
      ghost var seen := before + Images(podContainers[..j]);
      ImagesStep(before, podContainers, j);
      imagesPerRepo', encountered' := RecordImage(imagesPerRepo', encountered', podContainers[j].image, seen);
    }
    assert podContainers[..|podContainers|] == podContainers;
  }

  /**
   * `ECRImagesFromPods`: the tags in use per ECR repository, scanning each
   * pod's init containers and then its regular containers.
   */
  method ECRImagesFromPods(pods: seq<Pod>) returns (imagesPerRepo: map<string, seq<string>>)
    ensures imagesPerRepo == Scan(ContainerImages(pods)).imagesPerRepo
    ensures forall repo :: repo in imagesPerRepo ==> imagesPerRepo[repo] != []
  {
    imagesPerRepo := map[];
    var encountered: set<string> := {};

    for i := 0 to |pods|
      invariant Usage(imagesPerRepo, encountered) == Scan(ContainerImages(pods[..i]))
    {
      var podContainers := PodContainers(pods[i]);
      ghost var before := ContainerImages(pods[..i]);
      ContainerImagesStep(pods, i);

      imagesPerRepo, encountered := RecordImages(imagesPerRepo, encountered, podContainers, before);
    }
    assert pods[..|pods|] == pods;
    ScanCharacterised(ContainerImages(pods));
  }
}

/**
 * One reconciliation pass of the newer generation (package `processor`):
 * list the pods, list the repositories, and for each repository list its
 * images, pick the old unused ones and delete them (or, in a dry run, only
 * report them). The Kubernetes and ECR clients are interfaces, given here as
 * functions from request to response; the pass records every call it makes.
 */
module PkgProcessor {
  import opened Wrappers
  import opened EcrApi
  import opened KubeApi
  import opened ImageUsage
  import opened Collaborators
  import PkgCore
  import PkgAws
  import PkgKubernetes

  /** Every repository listing the ECR client returns has at most one `latest` image, as ECR guarantees. */
  ghost predicate ListingsKeepLatestUnique(clients: Clients) {
    forall name :: clients.listImages(name).Success? ==> PkgAws.AtMostOneLatest(clients.listImages(name).value)
  }

  /** A batch `FilterOldUnusedImages` may return: its size, and oldest unprotected images first. */
  ghost predicate ValidSelection(keepMax: int, images: seq<ImageDetail>, tagsInUse: seq<string>, selected: seq<ImageDetail>) {
    && |selected| == PkgAws.DeletionCount(keepMax, images, tagsInUse)
    && OldestFirstSelection(selected, PkgAws.Unused(images, tagsInUse))
  }

  /** The calls made for one repository, given its listing and the batch picked from it. */
  function RepoCalls(dryRun: bool, name: string, listed: Result<seq<ImageDetail>, Error>, selected: seq<ImageDetail>): seq<Call> {
    [ListImages(name)]
      + (if listed.Success? && selected != [] && !dryRun then [BatchRemoveImages(selected)] else [])
  }

  /** The error recorded for one repository, if any. */
  function RepoErrors(dryRun: bool, name: string, listed: Result<seq<ImageDetail>, Error>,
                      selected: seq<ImageDetail>, removed: Option<Error>): seq<Error> {
    if listed.Failure? then ["Cannot list images from repo '" + name + "': " + listed.error]
    else if selected == [] || dryRun || removed.None? then []
    else ["Could not batch remove images from repo '" + name + "': " + removed.value]
  }

  /** The calls made for `repos`, in order, given the batch picked for each. */
  function PassCalls(dryRun: bool, clients: Clients, repos: seq<Repository>, selections: seq<seq<ImageDetail>>): seq<Call>
    requires |selections| == |repos|
  {
    if repos == [] then []
    else
      var n := |repos| - 1;
      PassCalls(dryRun, clients, repos[..n], selections[..n])
        + RepoCalls(dryRun, repos[n].repositoryName, clients.listImages(repos[n].repositoryName), selections[n])
  }

  /** The errors recorded for `repos`, in order, given the batch picked for each. */
  function PassErrors(dryRun: bool, clients: Clients, repos: seq<Repository>, selections: seq<seq<ImageDetail>>): seq<Error>
    requires |selections| == |repos|
  {
    if repos == [] then []
    else
      var n := |repos| - 1;
      var name := repos[n].repositoryName;
      PassErrors(dryRun, clients, repos[..n], selections[..n])
        + RepoErrors(dryRun, name, clients.listImages(name), selections[n], clients.batchRemoveImages(selections[n]))
  }

  lemma PassStep(dryRun: bool, clients: Clients, repos: seq<Repository>, i: nat,
                 selections: seq<seq<ImageDetail>>, selected: seq<ImageDetail>)
    requires i < |repos| && |selections| == i
    ensures var name := repos[i].repositoryName;
      && PassCalls(dryRun, clients, repos[..i + 1], selections + [selected])
         == PassCalls(dryRun, clients, repos[..i], selections)
            + RepoCalls(dryRun, name, clients.listImages(name), selected)
      && PassErrors(dryRun, clients, repos[..i + 1], selections + [selected])
         == PassErrors(dryRun, clients, repos[..i], selections)
            + RepoErrors(dryRun, name, clients.listImages(name), selected, clients.batchRemoveImages(selected))
  {
    assert repos[..i + 1][..i] == repos[..i];
    assert (selections + [selected])[..i] == selections;
  }

  /** Each repository whose listing succeeded got a batch `FilterOldUnusedImages` may return. */
  ghost predicate SelectionsValid(keepMax: int, clients: Clients, usage: map<string, seq<string>>,
                                  repos: seq<Repository>, selections: seq<seq<ImageDetail>>)
    requires |selections| == |repos|
  {
    forall k :: 0 <= k < |repos| && clients.listImages(repos[k].repositoryName).Success? ==>
      ValidSelection(keepMax, clients.listImages(repos[k].repositoryName).value,
                     TagsOf(usage, repos[k].repositoryName), selections[k])
  }

  lemma SelectionsStep(keepMax: int, clients: Clients, usage: map<string, seq<string>>, repos: seq<Repository>, i: nat,
                       selections: seq<seq<ImageDetail>>, selected: seq<ImageDetail>)
    requires i < |repos| && |selections| == i
    requires SelectionsValid(keepMax, clients, usage, repos[..i], selections)
    requires var name := repos[i].repositoryName;
      clients.listImages(name).Success? ==>
        ValidSelection(keepMax, clients.listImages(name).value, TagsOf(usage, name), selected)
    ensures SelectionsValid(keepMax, clients, usage, repos[..i + 1], selections + [selected])
  {
    var rs, ss := repos[..i + 1], selections + [selected];
    forall k | 0 <= k < |rs| && clients.listImages(rs[k].repositoryName).Success?
      ensures ValidSelection(keepMax, clients.listImages(rs[k].repositoryName).value,
                             TagsOf(usage, rs[k].repositoryName), ss[k])
    {
      if k < i {
        assert rs[k] == repos[..i][k] && ss[k] == selections[k];
      }
    }
  }

  /**
   * The body of the repository loop of `RemoveOldImages` for one
   * repository: list its images, pick the old unused ones and, unless in a
   * dry run, delete them. A `continue` of the loop is a return here.
   */
  method ProcessRepository(t: PkgCore.CleanupTask, clients: Clients, usedImages: map<string, seq<string>>, repoName: string)
    returns (calls: seq<Call>, errors: seq<Error>, ghost selected: seq<ImageDetail>)
    requires ListingsKeepLatestUnique(clients)
    ensures calls == RepoCalls(t.dryRun, repoName, clients.listImages(repoName), selected)
    ensures errors == RepoErrors(t.dryRun, repoName, clients.listImages(repoName), selected, clients.batchRemoveImages(selected))
    ensures clients.listImages(repoName).Failure? ==> selected == []
    ensures clients.listImages(repoName).Success? ==>
              ValidSelection(t.maxImages, clients.listImages(repoName).value, TagsOf(usedImages, repoName), selected)
  {
    errors := [];
    selected := [];
    calls := [ListImages(repoName)];
    var imagesResult := clients.listImages(repoName);
    if imagesResult.Failure? {
      errors := errors + ["Cannot list images from repo '" + repoName + "': " + imagesResult.error];
      return;
    }
    var images := imagesResult.value;

    var unusedOldImages := PkgAws.FilterOldUnusedImages(t.maxImages, images, TagsOf(usedImages, repoName));
    selected := unusedOldImages;

    if |unusedOldImages| == 0 {
      return;
    }

    // a dry run only reports the batch
    if !t.dryRun {
      calls := calls + [BatchRemoveImages(unusedOldImages)];
      var err := clients.batchRemoveImages(unusedOldImages);
      if err.Some? {
        errors := errors + ["Could not batch remove images from repo '" + repoName + "': " + err.value];
        return;
      }
    }
  }

  /** The loop over the listed repositories: each processed in turn, its calls and errors appended. */
  method ProcessRepositories(t: PkgCore.CleanupTask, clients: Clients, usedImages: map<string, seq<string>>,
                             repos: seq<Repository>)
    returns (calls: seq<Call>, errors: seq<Error>, ghost selections: seq<seq<ImageDetail>>)
    requires ListingsKeepLatestUnique(clients)
    ensures |selections| == |repos|
    ensures SelectionsValid(t.maxImages, clients, usedImages, repos, selections)
    ensures calls == PassCalls(t.dryRun, clients, repos, selections)
    ensures errors == PassErrors(t.dryRun, clients, repos, selections)
  {
    calls, errors, selections := [], [], [];
    for i := 0 to |repos|
      invariant |selections| == i
      invariant SelectionsValid(t.maxImages, clients, usedImages, repos[..i], selections)
      invariant calls == PassCalls(t.dryRun, clients, repos[..i], selections)
      invariant errors == PassErrors(t.dryRun, clients, repos[..i], selections)
    {
      var repoName := repos[i].repositoryName;
      var repoCalls, repoErrors, selected := ProcessRepository(t, clients, usedImages, repoName);
      PassStep(t.dryRun, clients, repos, i, selections, selected);
      SelectionsStep(t.maxImages, clients, usedImages, repos, i, selections, selected);
      calls, errors, selections := calls + repoCalls, errors + repoErrors, selections + [selected];
    }
    assert repos[..|repos|] == repos;
  }

  /**
   * `RemoveOldImages`: a failed pod or repository listing ends the pass
   * with that one error; otherwise every repository is processed in the
   * order listed, each failure adding one error and moving on. `selections`
   * holds the batch picked for each repository (empty when its listing
   * failed); `sort.Sort` does not fix the order of equally old images, so
   * which batch is picked is known only up to `ValidSelection`.
   */
  method RemoveOldImages(t: PkgCore.CleanupTask, clients: Clients)
    returns (errors: seq<Error>, calls: seq<Call>, ghost selections: seq<seq<ImageDetail>>)
    requires ListingsKeepLatestUnique(clients)
    ensures clients.listAllPods(t.kubeNamespaces).Failure? ==>
              && errors == ["Cannot list pods: " + clients.listAllPods(t.kubeNamespaces).error]
              && calls == [ListAllPods(t.kubeNamespaces)]
    ensures clients.listAllPods(t.kubeNamespaces).Success? && clients.listRepositories(t.ecrRepositories).Failure? ==>
              && errors == ["Cannot list ECR repositories: " + clients.listRepositories(t.ecrRepositories).error]
              && calls == [ListAllPods(t.kubeNamespaces), ListRepositories(t.ecrRepositories)]
    ensures clients.listAllPods(t.kubeNamespaces).Success? && clients.listRepositories(t.ecrRepositories).Success? ==>
              var pods := clients.listAllPods(t.kubeNamespaces).value;
              var repos := clients.listRepositories(t.ecrRepositories).value;
              var usage := PkgKubernetes.Scan(ContainerImages(pods)).imagesPerRepo;
              && |selections| == |repos|
              && SelectionsValid(t.maxImages, clients, usage, repos, selections)
              && calls == [ListAllPods(t.kubeNamespaces), ListRepositories(t.ecrRepositories)]
                           + PassCalls(t.dryRun, clients, repos, selections)
              && errors == PassErrors(t.dryRun, clients, repos, selections)
  {
    errors := [];
    selections := [];

    calls := [ListAllPods(t.kubeNamespaces)];
    var podsResult := clients.listAllPods(t.kubeNamespaces);
    if podsResult.Failure? {
      errors := errors + ["Cannot list pods: " + podsResult.error];
      return;
    }
    var pods := podsResult.value;

    calls := calls + [ListRepositories(t.ecrRepositories)];
    var reposResult := clients.listRepositories(t.ecrRepositories);
    if reposResult.Failure? {
      errors := errors + ["Cannot list ECR repositories: " + reposResult.error];
      return;
    }
    var repos := reposResult.value;

    var usedImages := PkgKubernetes.ECRImagesFromPods(pods);
    var repoCalls, repoErrors;
    repoCalls, repoErrors, selections := ProcessRepositories(t, clients, usedImages, repos);
    assert calls == [ListAllPods(t.kubeNamespaces), ListRepositories(t.ecrRepositories)] && errors == [];
    calls, errors := calls + repoCalls, errors + repoErrors;
  }

  // ---------------------------------------------------------------------
  // What a pass guarantees
  // ---------------------------------------------------------------------

  /** At most one error per repository. */
  lemma {:induction false} ErrorsBounded(dryRun: bool, clients: Clients, repos: seq<Repository>, selections: seq<seq<ImageDetail>>)
    requires |selections| == |repos|
    ensures |PassErrors(dryRun, clients, repos, selections)| <= |repos|
  {
    if repos != [] {
      ErrorsBounded(dryRun, clients, repos[..|repos| - 1], selections[..|repos| - 1]);
    }
  }

  /** The calls for one repository list that repository's images, once. */
  lemma RepoCallsListed(dryRun: bool, name: string, listed: Result<seq<ImageDetail>, Error>, selected: seq<ImageDetail>)
    ensures ListedRepositories(RepoCalls(dryRun, name, listed, selected)) == [name]
  {
    var tail := RepoCalls(dryRun, name, listed, selected);
    ListedRepositoriesConcat([ListImages(name)], tail[1..]);
    assert tail == [ListImages(name)] + tail[1..];
    assert ListedRepositories([ListImages(name)]) == [name] by {
      assert [ListImages(name)][..0] == [];
    }
  }

  /** Every repository is visited, once, in the order the listing returned them. */
  lemma {:induction false} RepositoriesVisitedInOrder(dryRun: bool, clients: Clients, repos: seq<Repository>,
                                                      selections: seq<seq<ImageDetail>>)
    requires |selections| == |repos|
    ensures ListedRepositories(PassCalls(dryRun, clients, repos, selections)) == RepositoryNames(repos)
  {
    if repos != [] {
      var n := |repos| - 1;
      var name := repos[n].repositoryName;
      var tail := RepoCalls(dryRun, name, clients.listImages(name), selections[n]);
      RepositoriesVisitedInOrder(dryRun, clients, repos[..n], selections[..n]);
      ListedRepositoriesConcat(PassCalls(dryRun, clients, repos[..n], selections[..n]), tail);
      RepoCallsListed(dryRun, name, clients.listImages(name), selections[n]);
      assert RepositoryNames(repos) == RepositoryNames(repos[..n]) + [name];
    }
  }

  /** A dry run deletes nothing. */
  lemma {:induction false} DryRunNeverDeletes(clients: Clients, repos: seq<Repository>, selections: seq<seq<ImageDetail>>)
    requires |selections| == |repos|
    ensures forall c :: c in PassCalls(true, clients, repos, selections) ==> !c.BatchRemoveImages?
  {
    if repos != [] {
      DryRunNeverDeletes(clients, repos[..|repos| - 1], selections[..|repos| - 1]);
    }
  }

  /**
   * Each delete call carries the non-empty batch picked for a repository
   * whose listing succeeded.
   */
  lemma {:induction false} DeletesCarrySelections(dryRun: bool, clients: Clients, repos: seq<Repository>,
                                                  selections: seq<seq<ImageDetail>>, c: Call)
    requires |selections| == |repos|
    requires c in PassCalls(dryRun, clients, repos, selections) && c.BatchRemoveImages?
    ensures exists k :: 0 <= k < |repos| && c.images == selections[k] && selections[k] != []
                        && clients.listImages(repos[k].repositoryName).Success?
  {
    var n := |repos| - 1;
    var name := repos[n].repositoryName;
    if c in PassCalls(dryRun, clients, repos[..n], selections[..n]) {
      DeletesCarrySelections(dryRun, clients, repos[..n], selections[..n], c);
      var k :| 0 <= k < n && c.images == selections[..n][k] && selections[..n][k] != []
               && clients.listImages(repos[..n][k].repositoryName).Success?;
      assert repos[..n][k] == repos[k];
    } else {
      assert c in RepoCalls(dryRun, name, clients.listImages(name), selections[n]);
    }
  }

  /** Conversely, outside a dry run every non-empty batch picked from a successful listing is deleted. */
  lemma {:induction false} SelectionsDeleted(clients: Clients, repos: seq<Repository>,
                                             selections: seq<seq<ImageDetail>>, k: nat)
    requires |selections| == |repos| && k < |repos|
    requires clients.listImages(repos[k].repositoryName).Success? && selections[k] != []
    ensures BatchRemoveImages(selections[k]) in PassCalls(false, clients, repos, selections)
  {
    var n := |repos| - 1;
    if k < n {
      SelectionsDeleted(clients, repos[..n], selections[..n], k);
      assert repos[..n][k] == repos[k] && selections[..n][k] == selections[k];
    } else {
      assert BatchRemoveImages(selections[k]) in RepoCalls(false, repos[k].repositoryName, clients.listImages(repos[k].repositoryName), selections[k]);
    }
  }

  /**
   * A batch picked from the listing of one repository passes the checks of
   * `BatchRemoveImages`: it is not empty, has at most 100 images, and they
   * all belong to that repository.
   */
  lemma SelectionPassesBatchChecks(keepMax: int, images: seq<ImageDetail>, tagsInUse: seq<string>,
                                   selected: seq<ImageDetail>, name: string)
    requires PkgAws.AtMostOneLatest(images)
    requires forall x :: x in images ==> x.repositoryName == name
    requires ValidSelection(keepMax, images, tagsInUse, selected) && selected != []
    ensures |selected| <= PkgAws.BatchRemoveMaxImages
    ensures PkgAws.SameRepository(selected) && selected[0].repositoryName == name
  {
    PkgAws.DeletionCountBounds(keepMax, images, tagsInUse);
    SelectionDrawnFromPool(selected, PkgAws.Unused(images, tagsInUse));
    forall x | x in selected ensures x.repositoryName == name {
      PkgAws.UnusedMembership(images, tagsInUse, x);
    }
  }
}

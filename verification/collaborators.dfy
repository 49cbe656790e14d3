/**
 * What the two generations' reconciliation passes share: the calls they
 * make on the Kubernetes and ECR clients, and those clients' methods given
 * as functions from request to response.
 */
module Collaborators {
  import opened Wrappers
  import opened EcrApi
  import opened KubeApi

  /** A call on one of the two clients. */
  datatype Call =
    | ListAllPods(namespaces: seq<string>)
    | ListRepositories(repositoryNames: seq<string>)
    | ListImages(repositoryName: string)
    | BatchRemoveImages(images: seq<ImageDetail>)

  /** The Kubernetes and ECR client methods the pass uses, as their responses. */
  datatype Clients = Clients(
    listAllPods: seq<string> -> Result<seq<Pod>, Error>,
    listRepositories: seq<string> -> Result<seq<Repository>, Error>,
    listImages: string -> Result<seq<ImageDetail>, Error>,
    batchRemoveImages: seq<ImageDetail> -> Option<Error>)

  /** The repositories whose images are listed, in call order. */
  function ListedRepositories(calls: seq<Call>): seq<string> {
    if calls == [] then []
    else ListedRepositories(calls[..|calls| - 1])
           + (if calls[|calls| - 1].ListImages? then [calls[|calls| - 1].repositoryName] else [])
  }

  function RepositoryNames(repos: seq<Repository>): (names: seq<string>)
    ensures |names| == |repos|
    ensures forall k :: 0 <= k < |repos| ==> names[k] == repos[k].repositoryName
  {
    seq(|repos|, k requires 0 <= k < |repos| => repos[k].repositoryName)
  }

  lemma {:induction false} ListedRepositoriesConcat(a: seq<Call>, b: seq<Call>)
    ensures ListedRepositories(a + b) == ListedRepositories(a) + ListedRepositories(b)
  {
    if b == [] {
      assert a + b == a;
    } else {
      ListedRepositoriesConcat(a, b[..|b| - 1]);
      assert (a + b)[..|a + b| - 1] == a + b[..|b| - 1];
    }
  }
}

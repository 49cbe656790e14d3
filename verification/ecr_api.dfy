/**
 * The parts of the AWS ECR service API (aws-sdk-go `service/ecr`) that the
 * controller reads and writes, reduced to values, plus the push-date order
 * that both generations sort by.
 */
module EcrApi {
  import opened Wrappers

  /** One image of a repository; push times are integer timestamps. */
  datatype ImageDetail = ImageDetail(
    imageDigest: string,
    repositoryName: string,
    imagePushedAt: int,
    imageTags: seq<string>)

  datatype Repository = Repository(repositoryName: string)

  /** The image identifier sent to `BatchDeleteImage`: the image digest. */
  datatype ImageIdentifier = ImageIdentifier(imageDigest: string)

  /** Request of `BatchDeleteImage`. */
  datatype BatchDeleteImageInput = BatchDeleteImageInput(repositoryName: string, imageIds: seq<ImageIdentifier>)

  /** Request of `DescribeRepositoriesPages`; `registryId` is left unset when `None`. */
  datatype DescribeRepositoriesInput = DescribeRepositoriesInput(repositoryNames: seq<string>, registryId: Option<string>)

  /** Request of `DescribeImagesPages`; `registryId` is left unset when `None`. */
  datatype DescribeImagesInput = DescribeImagesInput(repositoryName: string, registryId: Option<string>)

  /** One per-image failure reported by `BatchDeleteImage`. */
  datatype ImageFailure = ImageFailure(failureCode: string, imageDigest: string, failureReason: string)

  /**
   * What a paginated `Describe*Pages` call does, as seen by its callback:
   * it delivers `pages` in order and then returns `failure` (nil on success).
   * When the call succeeds the last delivered page is flagged as the last one.
   */
  datatype Paginated<T> = Paginated(pages: seq<seq<T>>, failure: Option<Error>)

  /** The pages joined in delivery order. */
  function Flatten<T>(pages: seq<seq<T>>): (r: seq<T>)
    ensures pages == [] ==> r == []
  {
    if pages == [] then [] else Flatten(pages[..|pages| - 1]) + pages[|pages| - 1]
  }

  /** The digests of `images`, in order, as `BatchDeleteImage` identifiers. */
  function ImageIds(images: seq<ImageDetail>): (ids: seq<ImageIdentifier>)
    ensures |ids| == |images|
    ensures forall i :: 0 <= i < |images| ==> ids[i] == ImageIdentifier(images[i].imageDigest)
  {
    seq(|images|, i requires 0 <= i < |images| => ImageIdentifier(images[i].imageDigest))
  }

  /**
   * The slice a `Describe*Pages` callback appends to. `OnPage` is the
   * callback: it appends the page and asks for more unless the page is the
   * last one.
   */
  class PageCollector<T> {
    var items: seq<T>

    constructor ()
      ensures items == []
    {
      items := [];
    }

    method OnPage(page: seq<T>, lastPage: bool) returns (more: bool)
      modifies this
      ensures items == old(items) + page
      ensures more == !lastPage
    {
      items := items + page;
      more := !lastPage;
    }
  }

  /**
   * The SDK paginator driving a callback: it hands over the pages in order,
   * flagging the last one when the call succeeds, and stops as soon as the
   * callback answers false. Because the callback answers false only on the
   * last page, every page is collected.
   */
  method DeliverPages<T>(response: Paginated<T>, collector: PageCollector<T>) returns (err: Option<Error>)
    modifies collector
    ensures collector.items == old(collector.items) + Flatten(response.pages)
    ensures err == response.failure
  {
    var pages := response.pages;
    var k := 0;
    var more := true;
    while k < |pages| && more
      invariant 0 <= k <= |pages|
      invariant collector.items == old(collector.items) + Flatten(pages[..k])
      invariant !more ==> k == |pages|
    {
      var lastPage := k == |pages| - 1 && response.failure.None?;
      more := collector.OnPage(pages[k], lastPage);
      assert pages[..k + 1][..k] == pages[..k];
      k := k + 1;
    }
    assert pages[..k] == pages;
    err := response.failure;
  }

  /** `ImagesByPushDate.Less`: strictly earlier push time. */
  predicate PushedBefore(x: ImageDetail, y: ImageDetail) {
    x.imagePushedAt < y.imagePushedAt
  }

  /** Non-decreasing by push time (ties in any order). */
  predicate SortedByPushDate(s: seq<ImageDetail>) {
    forall p, q :: 0 <= p < q < |s| ==> s[p].imagePushedAt <= s[q].imagePushedAt
  }

  /**
   * `r` is an oldest-first pick out of `u`: it is sorted by push time, it is
   * a sub-multiset of `u`, and nothing left behind in `u` is older than
   * anything picked.
   */
  ghost predicate OldestFirstSelection(r: seq<ImageDetail>, u: seq<ImageDetail>) {
    && SortedByPushDate(r)
    && multiset(r) <= multiset(u)
    && forall x, y :: x in multiset(r) && y in multiset(u) - multiset(r) ==>
         x.imagePushedAt <= y.imagePushedAt
  }

  lemma SortedPrefixSorted(s: seq<ImageDetail>, n: nat)
    requires SortedByPushDate(s) && n <= |s|
    ensures SortedByPushDate(s[..n])
  {
    forall p, q | 0 <= p < q < n ensures s[..n][p].imagePushedAt <= s[..n][q].imagePushedAt {
      assert s[..n][p] == s[p] && s[..n][q] == s[q];
    }
  }

  /** In a sorted sequence nothing before position `n` is newer than anything from `n` on. */
  lemma SortedPrefixNoNewer(s: seq<ImageDetail>, n: nat)
    requires SortedByPushDate(s) && n <= |s|
    ensures forall x, y :: x in s[..n] && y in s[n..] ==> x.imagePushedAt <= y.imagePushedAt
  {
    forall x, y | x in s[..n] && y in s[n..] ensures x.imagePushedAt <= y.imagePushedAt {
      var p :| 0 <= p < n && s[..n][p] == x;
      var q :| 0 <= q < |s| - n && s[n..][q] == y;
      assert s[p] == x && s[n + q] == y;
    }
  }

  /** Every prefix of a sorted permutation of `u` is an oldest-first pick out of `u`. */
  lemma SortedPrefixIsOldestFirst(s: seq<ImageDetail>, u: seq<ImageDetail>, n: nat)
    requires SortedByPushDate(s) && multiset(s) == multiset(u) && n <= |s|
    ensures OldestFirstSelection(s[..n], u)
  {
    var picked, rest := s[..n], s[n..];
    assert s == picked + rest;
    assert multiset(s) == multiset(picked) + multiset(rest);
    SortedPrefixSorted(s, n);
    SortedPrefixNoNewer(s, n);
    assert multiset(u) - multiset(picked) == multiset(rest);
    forall x: ImageDetail, y: ImageDetail | x in multiset(picked) && y in multiset(u) - multiset(picked)
      ensures x.imagePushedAt <= y.imagePushedAt
    {
      assert x in picked && y in rest;
    }
  }

  /** Every image of an oldest-first pick comes from the pool it was picked from. */
  lemma SelectionDrawnFromPool(r: seq<ImageDetail>, u: seq<ImageDetail>)
    requires OldestFirstSelection(r, u)
    ensures forall x :: x in r ==> x in u
  {
    forall x | x in r ensures x in u {
      assert x in multiset(r);
    }
  }

  /** `ImagesByPushDate.Swap` (the same in both generations). */
  method Swap(a: array<ImageDetail>, i: nat, j: nat)
    requires i < a.Length && j < a.Length
    modifies a
    ensures a[..] == old(a[..])[i := old(a[j])][j := old(a[i])]
    ensures multiset(a[..]) == multiset(old(a[..]))
  {
    a[i], a[j] := a[j], a[i];
  }

  /**
   * `SortImagesByPushDate` (the same in both generations): sorts the slice in place, oldest first, through
   * `Less` and `Swap`. `sort.Sort` does not fix an algorithm nor the order of
   * ties; an insertion sort stands for it, and only its contract matters.
   */
  method SortImagesByPushDate(a: array<ImageDetail>)
    modifies a
    ensures SortedByPushDate(a[..])
    ensures multiset(a[..]) == multiset(old(a[..]))
  {
    for i := 0 to a.Length
      invariant SortedByPushDate(a[..i])
      invariant multiset(a[..]) == multiset(old(a[..]))
    {
      InsertByPushDate(a, i);
    }
    assert a[..] == a[..a.Length];
  }

  /** One insertion step: moves `a[i]` down into the sorted run `a[..i]`. */
  method InsertByPushDate(a: array<ImageDetail>, i: nat)
    requires i < a.Length && SortedByPushDate(a[..i])
    modifies a
    ensures SortedByPushDate(a[..i + 1])
    ensures multiset(a[..]) == multiset(old(a[..]))
  {
    var j := i;
    while j > 0 && PushedBefore(a[j], a[j - 1])
      invariant 0 <= j <= i
      invariant multiset(a[..]) == multiset(old(a[..]))
      invariant forall p, q :: 0 <= p < q <= i && p != j && q != j ==> a[p].imagePushedAt <= a[q].imagePushedAt
      invariant forall q :: j < q <= i ==> a[j].imagePushedAt <= a[q].imagePushedAt
    {
      Swap(a, j, j - 1);
      j := j - 1;
    }
  }
}

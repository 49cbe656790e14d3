/**
 * Input shaping of the newer generation (package `utils`): the comma list
 * parser behind the command-line flags, and the keep filters that spare
 * images whose tags match one of a set of regular expressions. The regular
 * expression engine is abstract: `compiles(p)` says whether `p` compiles and
 * `matches(p, tag)` whether the compiled `p` matches somewhere in `tag`.
 */
module PkgUtils {
  import opened Wrappers
  import opened EcrApi
  import Text

  /**
   * `ParseCommaSeparatedList`: the comma-separated fields, trimmed, in
   * order, without the blank ones. It mirrors pkg/utils/utils.go:12-24;
   * `Core.ParseCommaSeparatedList` mirrors the older copy in core/utils.go.
   */
  method ParseCommaSeparatedList(commaSeparatedList: string) returns (items: seq<string>)
    ensures items == Text.CommaItems(commaSeparatedList)
    ensures |items| <= Text.CountCommas(commaSeparatedList) + 1
    ensures forall j :: 0 <= j < |items| ==> Text.CleanItem(items[j])
  {
    items := [];
    var rawList := Text.Split(commaSeparatedList);
    for i := 0 to |rawList|
      invariant items == Text.TrimmedItems(rawList[..i])
    {
      var trimmedItem := Text.TrimSpace(rawList[i]);
      Text.TrimmedItemsStep(rawList, i);
      if |trimmedItem| > 0 {
        items := items + [trimmedItem];
      }
    }
    assert rawList[..|rawList|] == rawList;
    Text.CommaItemsShape(commaSeparatedList);
  }

  /** A compiled pattern; `regexp.Compile` yields none for an invalid one. */
  datatype Regexp = Regexp(pattern: string)

  /** No tag of `image` matches any of `filters`. */
  predicate Unmatched(image: ImageDetail, filters: seq<string>, matches: (string, string) -> bool) {
    forall tag, f :: tag in image.imageTags && f in filters ==> !matches(f, tag)
  }

  /** The images no keep filter spares from deletion, in input order. */
  function Kept(images: seq<ImageDetail>, filters: seq<string>, matches: (string, string) -> bool): seq<ImageDetail> {
    if images == [] then []
    else
      var last := images[|images| - 1];
      Kept(images[..|images| - 1], filters, matches)
        + (if Unmatched(last, filters, matches) then [last] else [])
  }

  /**
   * `ApplyKeepFilters`: compiles every filter once, then keeps the images
   * none of whose tags matches a filter. An invalid pattern leaves a nil
   * matcher that would fault on the first tag, so every filter must compile.
   */
  method ApplyKeepFilters(images: seq<ImageDetail>, filters: seq<string>,
                          compiles: string -> bool, matches: (string, string) -> bool)
    returns (filtered: seq<ImageDetail>)
    requires forall f :: f in filters ==> compiles(f)
    ensures filtered == Kept(images, filters, matches)
    ensures forall x :: x in filtered <==> x in images && Unmatched(x, filters, matches)
  {
    filtered := [];
    var regs: seq<Option<Regexp>> := [];
    for k := 0 to |filters|
      invariant |regs| == k
      invariant forall m :: 0 <= m < k ==> regs[m] == Some(Regexp(filters[m]))
    {
      var reg := if compiles(filters[k]) then Some(Regexp(filters[k])) else None;
      regs := regs + [reg];
    }

    for i := 0 to |images|
      invariant filtered == Kept(images[..i], filters, matches)
    {
      var image := images[i];
      var keep := ImageMatchesFilter(image, filters, regs, matches);
      assert images[..i + 1][..i] == images[..i];
      if !keep {
        filtered := filtered + [image];
      }
    }
    assert images[..|images|] == images;
    KeptMembership(images, filters, matches);
  }

  /**
   * The tag loop of `ApplyKeepFilters` for one image: whether some tag
   * matches some compiled filter. Every tag is tried against every filter.
   */
  method ImageMatchesFilter(image: ImageDetail, filters: seq<string>, regs: seq<Option<Regexp>>,
                            matches: (string, string) -> bool)
    returns (keep: bool)
    requires |regs| == |filters|
    requires forall m :: 0 <= m < |regs| ==> regs[m] == Some(Regexp(filters[m]))
    ensures keep <==> !Unmatched(image, filters, matches)
  {
    keep := false;
    for j := 0 to |image.imageTags|
      invariant keep <==> exists tag, f :: tag in image.imageTags[..j] && f in filters && matches(f, tag)
    {
      var tag := image.imageTags[j];
      for m := 0 to |regs|
        invariant keep <==>
          (exists t, f :: t in image.imageTags[..j] && f in filters && matches(f, t))
          || (exists f :: f in filters[..m] && matches(f, tag))
      {
        var reg := regs[m];
        assert filters[..m + 1] == filters[..m] + [filters[m]];
        if matches(reg.value.pattern, tag) {
          keep := true;
        }
      }
      assert filters[..|regs|] == filters;
      assert image.imageTags[..j + 1] == image.imageTags[..j] + [tag];
    }
    assert image.imageTags[..|image.imageTags|] == image.imageTags;
  }

  lemma {:induction false} KeptMembership(images: seq<ImageDetail>, filters: seq<string>, matches: (string, string) -> bool)
    ensures forall x :: x in Kept(images, filters, matches) <==> x in images && Unmatched(x, filters, matches)
  {
    if images != [] {
      var init := images[..|images| - 1];
      KeptMembership(init, filters, matches);
      assert images == init + [images[|images| - 1]];
    }
  }

  /** Filtering a concatenation filters each part: the result keeps the input order. */
  lemma {:induction false} KeptConcat(a: seq<ImageDetail>, b: seq<ImageDetail>, filters: seq<string>,
                                      matches: (string, string) -> bool)
    ensures Kept(a + b, filters, matches) == Kept(a, filters, matches) + Kept(b, filters, matches)
  {
    if b != [] {
      var init := b[..|b| - 1];
      KeptConcat(a, init, filters, matches);
      assert (a + b)[..|a + b| - 1] == a + init;
    } else {
      assert a + b == a;
    }
  }

  /** The result is never longer than the input. */
  lemma {:induction false} KeptShorter(images: seq<ImageDetail>, filters: seq<string>, matches: (string, string) -> bool)
    ensures |Kept(images, filters, matches)| <= |images|
  {
    if images != [] {
      KeptShorter(images[..|images| - 1], filters, matches);
    }
  }

  /** Applying the same filters again changes nothing. */
  lemma {:induction false} KeptIdempotent(images: seq<ImageDetail>, filters: seq<string>, matches: (string, string) -> bool)
    ensures Kept(Kept(images, filters, matches), filters, matches) == Kept(images, filters, matches)
  {
    if images != [] {
      var init, last := images[..|images| - 1], images[|images| - 1];
      KeptIdempotent(init, filters, matches);
      var tail := if Unmatched(last, filters, matches) then [last] else [];
      KeptConcat(Kept(init, filters, matches), tail, filters, matches);
      if tail != [] {
        assert Kept(tail, filters, matches) == tail by {
          assert tail[..0] == [];
        }
      }
    }
  }

  /** Without filters every image is kept. */
  lemma {:induction false} NoFiltersKeepAll(images: seq<ImageDetail>, matches: (string, string) -> bool)
    ensures Kept(images, [], matches) == images
  {
    if images != [] {
      NoFiltersKeepAll(images[..|images| - 1], matches);
      assert images == images[..|images| - 1] + [images[|images| - 1]];
    }
  }

  /** An untagged image is always kept. */
  lemma UntaggedKept(images: seq<ImageDetail>, filters: seq<string>, matches: (string, string) -> bool, x: ImageDetail)
    requires x in images && x.imageTags == []
    ensures x in Kept(images, filters, matches)
  {
    KeptMembership(images, filters, matches);
  }
}

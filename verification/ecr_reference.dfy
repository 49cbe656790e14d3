/**
 * A hand-written matcher for the pattern both generations use to recognise
 * tagged ECR image references,
 *   ^.*\.dkr\.ecr\.[^\.]+\.amazonaws\.com/(R+):(.*)$
 * where the repository class R is `[^:]` (pkg/kubernetes) or `[^:/]` (core),
 * with the two capture groups that `FindStringSubmatch` returns. Go's regexp
 * semantics are kept: `.` does not match a newline, the negated classes do,
 * and among several ways to match, the greedy leading `.*` takes the longest
 * prefix (the match a backtracking engine would report).
 */
module EcrReference {
  import opened Wrappers

  const DkrEcr: string := ".dkr.ecr."
  const AmazonawsCom: string := ".amazonaws.com/"

  /** The pkg/kubernetes repository class `[^:]`, given by what it excludes. */
  const RepoExcludesColon: set<char> := {':'}
  /** The core repository class `[^:/]`. */
  const RepoExcludesColonSlash: set<char> := {':', '/'}

  /** The two capture groups: repository name and tag. */
  datatype Submatch = Submatch(repositoryName: string, tag: string)

  /** Index of the first character of `s` that is in `stop`, or `|s|`. */
  function IndexOfFirst(s: string, stop: set<char>): (n: nat)
    ensures n <= |s|
    ensures forall k :: 0 <= k < n ==> s[k] !in stop
    ensures n < |s| ==> s[n] in stop
  {
    if s == [] || s[0] in stop then 0 else 1 + IndexOfFirst(s[1..], stop)
  }

  /** `path` has the form `(R+):(.*)$` with the given groups. */
  ghost predicate PathShape(path: string, repo: string, tag: string, excluded: set<char>) {
    && path == repo + ":" + tag
    && repo != [] && (forall c :: c in repo ==> c !in excluded)
    && '\n' !in tag
  }

  /** `h` has the form `[^\.]+\.amazonaws\.com/(R+):(.*)$` with the given groups. */
  ghost predicate HostShape(h: string, region: string, repo: string, tag: string, excluded: set<char>) {
    && region != [] && '.' !in region
    && region <= h
    && AmazonawsCom <= h[|region|..]
    && PathShape(h[|region| + |AmazonawsCom|..], repo, tag, excluded)
  }

  /** `t` has the form `\.dkr\.ecr\.[^\.]+\.amazonaws\.com/(R+):(.*)$` with the given groups. */
  ghost predicate TailShape(t: string, region: string, repo: string, tag: string, excluded: set<char>) {
    DkrEcr <= t && HostShape(t[|DkrEcr|..], region, repo, tag, excluded)
  }

  /** `s` is `prefix` followed by a tail of the shape above, and `.*` can match `prefix`. */
  ghost predicate EcrShape(s: string, prefix: string, region: string, repo: string, tag: string, excluded: set<char>) {
    && prefix <= s
    && '\n' !in prefix
    && TailShape(s[|prefix|..], region, repo, tag, excluded)
  }

  /** Matches `(R+):(.*)$` at the start of `path`. */
  function MatchPath(path: string, excluded: set<char>): Option<Submatch>
    requires ':' in excluded
  {
    var repoLen := IndexOfFirst(path, excluded);
    if repoLen == 0 || repoLen == |path| || path[repoLen] != ':' then None
    else
      var tag := path[repoLen + 1..];
      if '\n' in tag then None else Some(Submatch(path[..repoLen], tag))
  }

  /** Matches `[^\.]+\.amazonaws\.com/(R+):(.*)$` at the start of `h`. */
  function MatchHost(h: string, excluded: set<char>): Option<Submatch>
    requires ':' in excluded
  {
    var regionLen := IndexOfFirst(h, {'.'});
    if regionLen == 0 || !(AmazonawsCom <= h[regionLen..]) then None
    else MatchPath(h[regionLen + |AmazonawsCom|..], excluded)
  }

  /** Matches the part of the pattern after `^.*` at the very start of `t`. */
  function MatchTail(t: string, excluded: set<char>): Option<Submatch>
    requires ':' in excluded
  {
    if DkrEcr <= t then MatchHost(t[|DkrEcr|..], excluded) else None
  }

  /** The rest of the pattern tried after `^.*` has taken the first `k` characters of `s`. */
  function Attempt(s: string, k: nat, excluded: set<char>): Option<Submatch>
    requires k <= |s| && ':' in excluded
  {
    if '\n' in s[..k] then None else MatchTail(s[k..], excluded)
  }

  /** The attempts at every split point `0, ..., |s|`. */
  function Attempts(s: string, excluded: set<char>): (a: seq<Option<Submatch>>)
    requires ':' in excluded
    ensures |a| == |s| + 1
    ensures forall k :: 0 <= k <= |s| ==> a[k] == Attempt(s, k, excluded)
  {
    seq(|s| + 1, k requires 0 <= k <= |s| => Attempt(s, k, excluded))
  }

  /**
   * The outcome of trying the split points `k, k - 1, ..., 0` in turn and
   * stopping at the first that succeeds: the greedy `.*` prefers the
   * longest prefix.
   */
  function HighestMatch<T>(a: seq<Option<T>>, k: nat): Option<T>
    requires k < |a|
    decreases k
  {
    if a[k].Some? then a[k]
    else if k == 0 then None
    else HighestMatch(a, k - 1)
  }

  /**
   * `re.FindStringSubmatch(s)` reduced to its two groups; `None` when there
   * is no match. A match exists exactly when some split point succeeds, and
   * the groups are those of the longest prefix that does.
   */
  function FindSubmatch(s: string, excluded: set<char>): (r: Option<Submatch>)
    requires ':' in excluded
    ensures r.None? ==> forall j :: 0 <= j <= |s| ==> Attempt(s, j, excluded).None?
    ensures r.Some? ==> exists j :: 0 <= j <= |s| && r == Attempt(s, j, excluded)
                          && forall i :: j < i <= |s| ==> Attempt(s, i, excluded).None?
  {
    AttemptsSearch(s, excluded);
    HighestMatch(Attempts(s, excluded), |s|)
  }

  /** The search over all split points, stated for `HighestMatch` on any attempts. */
  lemma {:induction false} HighestMatchMeaning<T>(a: seq<Option<T>>, k: nat)
    requires k < |a|
    ensures HighestMatch(a, k).None? <==> forall j :: 0 <= j <= k ==> a[j].None?
    ensures HighestMatch(a, k).Some? ==>
              exists j :: 0 <= j <= k && HighestMatch(a, k) == a[j] && forall i :: j < i <= k ==> a[i].None?
    decreases k
  {
    if a[k].None? && k > 0 {
      HighestMatchMeaning(a, k - 1);
    }
  }

  /** `HighestMatchMeaning` for the attempts at the split points of `s`. */
  lemma AttemptsSearch(s: string, excluded: set<char>)
    requires ':' in excluded
    ensures var r := HighestMatch(Attempts(s, excluded), |s|);
      && (r.None? <==> forall j :: 0 <= j <= |s| ==> Attempt(s, j, excluded).None?)
      && (r.Some? ==> exists j :: 0 <= j <= |s| && r == Attempt(s, j, excluded)
                        && forall i :: j < i <= |s| ==> Attempt(s, i, excluded).None?)
  {
    var a := Attempts(s, excluded);
    HighestMatchMeaning(a, |s|);
    if a[|s|].None? && |s| > 0 {
      var r := HighestMatch(a, |s|);
      if r.Some? {
        var j :| 0 <= j <= |s| && r == a[j] && forall i :: j < i <= |s| ==> a[i].None?;
        assert forall i :: j < i <= |s| ==> Attempt(s, i, excluded).None? by {
          forall i | j < i <= |s| ensures Attempt(s, i, excluded).None? {
            assert a[i].None?;
          }
        }
      }
    }
  }

  /** A reported match is the outcome of some attempt at or below `k`, and every attempt above it failed. */
  lemma {:induction false} HighestMatchSound<T>(a: seq<Option<T>>, k: nat, m: T) returns (j: nat)
    requires k < |a| && HighestMatch(a, k) == Some(m)
    ensures j <= k && a[j] == Some(m)
    ensures forall i :: j < i <= k ==> a[i].None?
    decreases k
  {
    if a[k].Some? {
      j := k;
    } else {
      j := HighestMatchSound(a, k - 1, m);
    }
  }

  /** A successful attempt at `lo` means the search from any `k >= lo` succeeds. */
  lemma {:induction false} HighestMatchAtLeast<T>(a: seq<Option<T>>, k: nat, lo: nat)
    requires lo <= k < |a| && a[lo].Some?
    ensures HighestMatch(a, k).Some?
    decreases k
  {
    if k > lo && a[k].None? {
      HighestMatchAtLeast(a, k - 1, lo);
    }
  }

  /** Failed attempts above `lo` do not change the outcome. */
  lemma {:induction false} HighestMatchSkips<T>(a: seq<Option<T>>, k: nat, lo: nat)
    requires lo <= k < |a|
    requires forall i :: lo < i <= k ==> a[i].None?
    ensures HighestMatch(a, k) == HighestMatch(a, lo)
    decreases k
  {
    if k > lo {
      HighestMatchSkips(a, k - 1, lo);
    }
  }

  /** When every attempt fails, there is no match. */
  lemma {:induction false} HighestMatchNone<T>(a: seq<Option<T>>, k: nat)
    requires k < |a|
    requires forall i :: 0 <= i <= k ==> a[i].None?
    ensures HighestMatch(a, k) == None
    decreases k
  {
    if k > 0 {
      HighestMatchNone(a, k - 1);
    }
  }

  lemma IndexOfFirstIs(s: string, stop: set<char>, n: nat)
    requires n < |s| && s[n] in stop
    requires forall k :: 0 <= k < n ==> s[k] !in stop
    ensures IndexOfFirst(s, stop) == n
  {
  }

  lemma MatchPathSound(path: string, excluded: set<char>, m: Submatch)
    requires ':' in excluded
    requires MatchPath(path, excluded) == Some(m)
    ensures PathShape(path, m.repositoryName, m.tag, excluded)
  {
    var repoLen := IndexOfFirst(path, excluded);
    assert path == path[..repoLen] + ":" + path[repoLen + 1..];
  }

  lemma MatchPathComplete(path: string, repo: string, tag: string, excluded: set<char>)
    requires ':' in excluded
    requires PathShape(path, repo, tag, excluded)
    ensures MatchPath(path, excluded) == Some(Submatch(repo, tag))
  {
    forall k | 0 <= k < |repo| ensures path[k] !in excluded {
      assert path[k] == repo[k] && repo[k] in repo;
    }
    IndexOfFirstIs(path, excluded, |repo|);
    assert path[..|repo|] == repo && path[|repo| + 1..] == tag;
  }

  lemma MatchHostSound(h: string, excluded: set<char>, m: Submatch)
    requires ':' in excluded
    requires MatchHost(h, excluded) == Some(m)
    ensures HostShape(h, h[..IndexOfFirst(h, {'.'})], m.repositoryName, m.tag, excluded)
  {
    var regionLen := IndexOfFirst(h, {'.'});
    MatchPathSound(h[regionLen + |AmazonawsCom|..], excluded, m);
  }

  lemma MatchHostComplete(h: string, region: string, repo: string, tag: string, excluded: set<char>)
    requires ':' in excluded
    requires HostShape(h, region, repo, tag, excluded)
    ensures MatchHost(h, excluded) == Some(Submatch(repo, tag))
  {
    forall k | 0 <= k < |region| ensures h[k] !in {'.'} {
      assert h[k] == region[k] && region[k] in region;
    }
    assert h[|region|] == '.';
    IndexOfFirstIs(h, {'.'}, |region|);
    MatchPathComplete(h[|region| + |AmazonawsCom|..], repo, tag, excluded);
  }

  lemma MatchTailSound(t: string, excluded: set<char>, m: Submatch) returns (region: string)
    requires ':' in excluded
    requires MatchTail(t, excluded) == Some(m)
    ensures TailShape(t, region, m.repositoryName, m.tag, excluded)
  {
    var h := t[|DkrEcr|..];
    MatchHostSound(h, excluded, m);
    region := h[..IndexOfFirst(h, {'.'})];
  }

  lemma MatchTailComplete(t: string, region: string, repo: string, tag: string, excluded: set<char>)
    requires ':' in excluded
    requires TailShape(t, region, repo, tag, excluded)
    ensures MatchTail(t, excluded) == Some(Submatch(repo, tag))
  {
    MatchHostComplete(t[|DkrEcr|..], region, repo, tag, excluded);
  }

  /** The shape predicates spell out the reference as a concatenation of its parts. */
  lemma HostSpelledOut(h: string, region: string, repo: string, tag: string, excluded: set<char>)
    requires HostShape(h, region, repo, tag, excluded)
    ensures h == region + AmazonawsCom + (repo + ":" + tag)
  {
    var path := h[|region| + |AmazonawsCom|..];
    assert h[|region|..] == AmazonawsCom + path;
    assert h == h[..|region|] + h[|region|..];
  }

  lemma TailSpelledOut(t: string, region: string, repo: string, tag: string, excluded: set<char>)
    requires TailShape(t, region, repo, tag, excluded)
    ensures t == DkrEcr + (region + AmazonawsCom + (repo + ":" + tag))
  {
    HostSpelledOut(t[|DkrEcr|..], region, repo, tag, excluded);
    assert t == t[..|DkrEcr|] + t[|DkrEcr|..];
  }

  lemma EcrShapeSpelledOut(s: string, prefix: string, region: string, repo: string, tag: string, excluded: set<char>)
    requires EcrShape(s, prefix, region, repo, tag, excluded)
    ensures s == prefix + (DkrEcr + (region + AmazonawsCom + (repo + ":" + tag)))
  {
    TailSpelledOut(s[|prefix|..], region, repo, tag, excluded);
    assert s == s[..|prefix|] + s[|prefix|..];
  }

  /** Whatever the matcher reports comes from a reference of the ECR shape, with exactly those groups. */
  lemma FindSubmatchSound(s: string, excluded: set<char>, m: Submatch)
    returns (prefix: string, region: string)
    requires ':' in excluded
    requires FindSubmatch(s, excluded) == Some(m)
    ensures EcrShape(s, prefix, region, m.repositoryName, m.tag, excluded)
  {
    var j := HighestMatchSound(Attempts(s, excluded), |s|, m);
    region := MatchTailSound(s[j..], excluded, m);
    prefix := s[..j];
    assert s[|prefix|..] == s[j..];
  }

  /** Every reference of the ECR shape matches (perhaps with a longer `.*` prefix). */
  lemma FindSubmatchComplete(s: string, prefix: string, region: string, repo: string, tag: string, excluded: set<char>)
    requires ':' in excluded
    requires EcrShape(s, prefix, region, repo, tag, excluded)
    ensures FindSubmatch(s, excluded).Some?
  {
    assert s[..|prefix|] == prefix;
    MatchTailComplete(s[|prefix|..], region, repo, tag, excluded);
    HighestMatchAtLeast(Attempts(s, excluded), |s|, |prefix|);
  }

  /** Only references with a ':' match: untagged images are ignored. */
  lemma MatchHasColon(s: string, excluded: set<char>)
    requires ':' in excluded
    ensures FindSubmatch(s, excluded).Some? ==> ':' in s
  {
    if FindSubmatch(s, excluded).Some? {
      var m := FindSubmatch(s, excluded).value;
      var prefix, region := FindSubmatchSound(s, excluded, m);
      EcrShapeSpelledOut(s, prefix, region, m.repositoryName, m.tag, excluded);
      assert s[|prefix + DkrEcr + region + AmazonawsCom + m.repositoryName|] == ':';
    }
  }

  /** `t` contains `.dkr.ecr.` somewhere. */
  predicate ContainsDkrEcr(t: string) {
    exists j :: 0 <= j <= |t| && DkrEcr <= t[j..]
  }

  /** Only references naming a `.dkr.ecr.` host match: other registries are ignored. */
  lemma MatchHasDkrEcr(s: string, excluded: set<char>)
    requires ':' in excluded
    ensures FindSubmatch(s, excluded).Some? ==> ContainsDkrEcr(s)
  {
    if FindSubmatch(s, excluded).Some? {
      var m := FindSubmatch(s, excluded).value;
      var prefix, region := FindSubmatchSound(s, excluded, m);
      assert DkrEcr <= s[|prefix|..];
    }
  }

  /** Inside `.dkr.ecr.<region>.amazonaws.com/` no second `.dkr.ecr.` can start. */
  lemma NoDkrEcrInside(region: string, rest: string, d: nat)
    requires region != [] && '.' !in region
    requires 1 <= d < |DkrEcr + region + AmazonawsCom|
    ensures !(DkrEcr <= (DkrEcr + region + AmazonawsCom + rest)[d..])
  {
    if d < |DkrEcr| {
      NoDkrEcrInMarker(region, rest, d);
    } else if d < |DkrEcr| + |region| {
      NoDkrEcrInRegion(region, rest, d);
    } else {
      NoDkrEcrInSuffix(region, rest, d);
    }
  }

  /** A single character that differs from `.dkr.ecr.` at offset `i` rules it out at `d`. */
  lemma MismatchAt(m: string, d: nat, i: nat)
    requires i < |DkrEcr| && d + i < |m| && m[d + i] != DkrEcr[i]
    ensures !(DkrEcr <= m[d..])
  {
    assert m[d..][i] == m[d + i];
  }

  lemma NoDkrEcrInMarker(region: string, rest: string, d: nat)
    requires region != [] && '.' !in region
    requires 1 <= d < |DkrEcr|
    ensures !(DkrEcr <= (DkrEcr + region + AmazonawsCom + rest)[d..])
  {
    var m := DkrEcr + region + AmazonawsCom + rest;
    if d == 4 {
      MismatchAt(m, d, 1);
    } else if d == 8 {
      NoDkrEcrAtLastDot(region, rest);
    } else {
      MismatchAt(m, d, 0);
    }
  }

  /** The last `.` of `.dkr.ecr.` is followed by the region, not by `dkr.ecr.`. */
  lemma NoDkrEcrAtLastDot(region: string, rest: string)
    requires region != [] && '.' !in region
    ensures !(DkrEcr <= (DkrEcr + region + AmazonawsCom + rest)[8..])
  {
    var m := DkrEcr + region + AmazonawsCom + rest;
    var n := |region|;
    assert m[9..9 + n] == region;
    assert m[9 + n..9 + n + |AmazonawsCom|] == AmazonawsCom;
    if n >= 4 {
      assert m[12] == region[3] && region[3] in region;
      MismatchAt(m, 8, 4);
    } else if n == 3 {
      assert m[13] == AmazonawsCom[1];
      MismatchAt(m, 8, 5);
    } else if n == 2 {
      assert m[11] == AmazonawsCom[0];
      MismatchAt(m, 8, 3);
    } else {
      assert m[10] == AmazonawsCom[0];
      MismatchAt(m, 8, 2);
    }
  }

  lemma NoDkrEcrInRegion(region: string, rest: string, d: nat)
    requires '.' !in region
    requires |DkrEcr| <= d < |DkrEcr| + |region|
    ensures !(DkrEcr <= (DkrEcr + region + AmazonawsCom + rest)[d..])
  {
    var m := DkrEcr + region + AmazonawsCom + rest;
    assert m[d] == region[d - 9] && region[d - 9] in region;
    MismatchAt(m, d, 0);
  }

  lemma NoDkrEcrInSuffix(region: string, rest: string, d: nat)
    requires |DkrEcr| + |region| <= d < |DkrEcr + region + AmazonawsCom|
    ensures !(DkrEcr <= (DkrEcr + region + AmazonawsCom + rest)[d..])
  {
    var m := DkrEcr + region + AmazonawsCom + rest;
    var e := d - 9 - |region|;
    var i := if e == 0 || e == 10 then 1 else 0;
    assert m[d + i] == AmazonawsCom[e + i];
    MismatchAt(m, d, i);
  }

  /** After the `.dkr.ecr.` of a reference of the ECR shape no other one starts. */
  lemma NoDkrEcrAfter(s: string, prefix: string, region: string, repo: string, tag: string, excluded: set<char>)
    requires EcrShape(s, prefix, region, repo, tag, excluded)
    requires !ContainsDkrEcr(repo + ":" + tag)
    ensures forall j :: |prefix| < j <= |s| ==> !(DkrEcr <= s[j..])
  {
    EcrShapeSpelledOut(s, prefix, region, repo, tag, excluded);
    var p := |prefix|;
    var mid := DkrEcr + region + AmazonawsCom;
    var rest := repo + ":" + tag;
    assert s == prefix + (mid + rest);
    forall j | p < j <= |s| ensures !(DkrEcr <= s[j..]) {
      if j < p + |mid| {
        NoDkrEcrInside(region, rest, j - p);
        assert s[j..] == (mid + rest)[j - p..];
      } else {
        assert s[j..] == rest[j - p - |mid|..];
      }
    }
  }

  /**
   * Round trip: building a reference from a prefix, region, repository and
   * tag and matching it gives back that repository and tag, provided no
   * later `.dkr.ecr.` lets the greedy prefix swallow more.
   */
  lemma FindSubmatchExact(s: string, prefix: string, region: string, repo: string, tag: string, excluded: set<char>)
    requires ':' in excluded
    requires EcrShape(s, prefix, region, repo, tag, excluded)
    requires !ContainsDkrEcr(repo + ":" + tag)
    ensures FindSubmatch(s, excluded) == Some(Submatch(repo, tag))
  {
    SearchExact(s, prefix, region, repo, tag, excluded);
  }

  /** The search behind `FindSubmatchExact`: the split point after `prefix` is the last one that succeeds. */
  lemma SearchExact(s: string, prefix: string, region: string, repo: string, tag: string, excluded: set<char>)
    requires ':' in excluded
    requires EcrShape(s, prefix, region, repo, tag, excluded)
    requires !ContainsDkrEcr(repo + ":" + tag)
    ensures HighestMatch(Attempts(s, excluded), |s|) == Some(Submatch(repo, tag))
  {
    NoDkrEcrAfter(s, prefix, region, repo, tag, excluded);
    AttemptsFailAfter(s, |prefix|, excluded);
    AttemptAtPrefix(s, prefix, region, repo, tag, excluded);
    HighestMatchSkips(Attempts(s, excluded), |s|, |prefix|);
  }

  /** Split points with no `.dkr.ecr.` after them fail. */
  lemma AttemptsFailAfter(s: string, p: nat, excluded: set<char>)
    requires ':' in excluded
    requires forall j :: p < j <= |s| ==> !(DkrEcr <= s[j..])
    ensures forall i :: p < i <= |s| ==> Attempts(s, excluded)[i].None?
  {
  }

  /** The split point right after the prefix yields the reference's groups. */
  lemma AttemptAtPrefix(s: string, prefix: string, region: string, repo: string, tag: string, excluded: set<char>)
    requires ':' in excluded
    requires EcrShape(s, prefix, region, repo, tag, excluded)
    ensures Attempts(s, excluded)[|prefix|] == Some(Submatch(repo, tag))
  {
    assert s[..|prefix|] == prefix;
    MatchTailComplete(s[|prefix|..], region, repo, tag, excluded);
  }

  lemma NamespacedPathUnmatched(repo: string, tag: string)
    requires '/' in repo && ':' !in repo
    ensures MatchPath(repo + ":" + tag, RepoExcludesColonSlash) == None
  {
    var rest := repo + ":" + tag;
    var n := IndexOfFirst(rest, RepoExcludesColonSlash);
    var w :| 0 <= w < |repo| && repo[w] == '/';
    assert rest[w] == '/';
    assert n <= w;
    assert rest[n] == repo[n];
  }

  lemma NamespacedTailUnmatched(t: string, region: string, repo: string, tag: string)
    requires TailShape(t, region, repo, tag, RepoExcludesColon) && '/' in repo
    ensures MatchTail(t, RepoExcludesColonSlash) == None
  {
    NamespacedHostUnmatched(t[|DkrEcr|..], region, repo, tag);
  }

  lemma NamespacedHostUnmatched(h: string, region: string, repo: string, tag: string)
    requires HostShape(h, region, repo, tag, RepoExcludesColon) && '/' in repo
    ensures MatchHost(h, RepoExcludesColonSlash) == None
  {
    forall k | 0 <= k < |region| ensures h[k] !in {'.'} {
      assert h[k] == region[k] && region[k] in region;
    }
    assert h[|region|..][0] == '.';
    IndexOfFirstIs(h, {'.'}, |region|);
    NamespacedPathUnmatched(repo, tag);
  }

  /**
   * A repository name with a `/` (a namespaced repository) has no match
   * under the class `[^:/]`, although `[^:]` matches it: references to such
   * repositories are invisible to a matcher using the narrower class.
   */
  lemma NamespacedRepositoryUnmatched(s: string, prefix: string, region: string, repo: string, tag: string)
    requires EcrShape(s, prefix, region, repo, tag, RepoExcludesColon)
    requires '.' !in prefix && !ContainsDkrEcr(repo + ":" + tag)
    requires '/' in repo
    ensures FindSubmatch(s, RepoExcludesColon) == Some(Submatch(repo, tag))
    ensures FindSubmatch(s, RepoExcludesColonSlash) == None
  {
    FindSubmatchExact(s, prefix, region, repo, tag, RepoExcludesColon);
    NamespacedAttemptsFail(s, prefix, region, repo, tag);
  }

  /** Under `[^:/]` every split point of such a reference fails. */
  lemma NamespacedAttemptsFail(s: string, prefix: string, region: string, repo: string, tag: string)
    requires EcrShape(s, prefix, region, repo, tag, RepoExcludesColon)
    requires '.' !in prefix && !ContainsDkrEcr(repo + ":" + tag)
    requires '/' in repo
    ensures forall j :: 0 <= j <= |s| ==> Attempt(s, j, RepoExcludesColonSlash).None?
  {
    NoDkrEcrAfter(s, prefix, region, repo, tag, RepoExcludesColon);
    var p := |prefix|;
    NamespacedTailUnmatched(s[p..], region, repo, tag);
    forall j | 0 <= j <= |s| ensures Attempt(s, j, RepoExcludesColonSlash).None? {
      if j < p {
        assert s[j..][0] == prefix[j];
      } else if j > p {
        assert !(DkrEcr <= s[j..]);
      }
    }
  }
}

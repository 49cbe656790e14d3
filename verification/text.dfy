/**
 * The string helpers from Go's `strings` package that the controller relies
 * on (`Split` on a comma, `TrimSpace`), and the meaning of a comma-separated
 * list shared by both generations' `ParseCommaSeparatedList`.
 */
module Text {

  /** Go's `unicode.IsSpace`: ASCII and Latin-1 white space plus Unicode's White_Space set. */
  predicate IsSpace(c: char) {
    || c == ' ' || c == '\t' || c == '\n' || c == '\r'
    || c == '\U{B}' || c == '\U{C}' || c == '\U{85}' || c == '\U{A0}'
    || c == '\U{1680}' || ('\U{2000}' <= c <= '\U{200A}')
    || c == '\U{2028}' || c == '\U{2029}' || c == '\U{202F}' || c == '\U{205F}'
    || c == '\U{3000}'
  }

  /** Number of leading white-space characters. */
  function LeadingSpaces(s: string): (n: nat)
    ensures n <= |s|
    ensures forall k :: 0 <= k < n ==> IsSpace(s[k])
    ensures n < |s| ==> !IsSpace(s[n])
  {
    if s != [] && IsSpace(s[0]) then 1 + LeadingSpaces(s[1..]) else 0
  }

  /** Number of trailing white-space characters. */
  function TrailingSpaces(s: string): (n: nat)
    ensures n <= |s|
    ensures forall k :: |s| - n <= k < |s| ==> IsSpace(s[k])
    ensures n < |s| ==> !IsSpace(s[|s| - 1 - n])
  {
    if s != [] && IsSpace(s[|s| - 1]) then 1 + TrailingSpaces(s[..|s| - 1]) else 0
  }

  /** `strings.TrimSpace`: `s` without its leading and trailing white space. */
  function TrimSpace(s: string): (r: string)
    ensures r == [] || (!IsSpace(r[0]) && !IsSpace(r[|r| - 1]))
    ensures forall c :: c in r ==> c in s
    ensures r == [] <==> forall k :: 0 <= k < |s| ==> IsSpace(s[k])
    ensures exists i, j :: 0 <= i <= j <= |s| && r == s[i..j]
              && (forall k :: 0 <= k < i ==> IsSpace(s[k]))
              && (forall k :: j <= k < |s| ==> IsSpace(s[k]))
  {
    var start := LeadingSpaces(s);
    var stop := start + |s[start..]| - TrailingSpaces(s[start..]);
    TrimBounds(s, start, stop);
    TrimEmpty(s, start, stop);
    s[start..stop]
  }

  /**
   * The slice between the leading and the trailing white space starts and
   * ends with other characters, and only white space lies outside it.
   */
  lemma TrimBounds(s: string, start: nat, stop: nat)
    requires start == LeadingSpaces(s)
    requires stop == start + |s[start..]| - TrailingSpaces(s[start..])
    ensures start <= stop <= |s|
    ensures start < stop ==> !IsSpace(s[start]) && !IsSpace(s[stop - 1])
    ensures forall k :: 0 <= k < start ==> IsSpace(s[k])
    ensures forall k :: stop <= k < |s| ==> IsSpace(s[k])
  {
    var rest := s[start..];
    forall k | stop <= k < |s| ensures IsSpace(s[k]) {
      assert s[k] == rest[k - start];
    }
    if start < stop {
      assert s[start] == rest[0];
      assert s[stop - 1] == rest[|rest| - 1 - TrailingSpaces(rest)];
    }
  }

  /** That slice is empty exactly when `s` is all white space. */
  lemma TrimEmpty(s: string, start: nat, stop: nat)
    requires start == LeadingSpaces(s)
    requires stop == start + |s[start..]| - TrailingSpaces(s[start..])
    ensures start == stop <==> forall k :: 0 <= k < |s| ==> IsSpace(s[k])
  {
    if start < |s| {
      assert s[start..][0] == s[start];
    }
  }

  /** Number of commas in `s`. */
  function CountCommas(s: string): nat {
    if s == [] then 0 else (if s[0] == ',' then 1 else 0) + CountCommas(s[1..])
  }

  /** `strings.Split(s, ",")`: the fields between commas, in order. */
  function Split(s: string): (fields: seq<string>)
    ensures |fields| == CountCommas(s) + 1
    ensures forall i :: 0 <= i < |fields| ==> ',' !in fields[i]
  {
    if s == [] then [""]
    else
      var rest := Split(s[1..]);
      if s[0] == ',' then [""] + rest else [[s[0]] + rest[0]] + rest[1..]
  }

  /** Joins fields with commas: the inverse of `Split`. */
  function JoinCommas(fields: seq<string>): string
    requires fields != []
  {
    if |fields| == 1 then fields[0] else fields[0] + "," + JoinCommas(fields[1..])
  }

  /** Splitting loses nothing: the fields joined back with commas give the input. */
  lemma {:induction false} SplitJoin(s: string)
    ensures JoinCommas(Split(s)) == s
  {
    if s != [] {
      SplitJoin(s[1..]);
      var rest := Split(s[1..]);
      if s[0] == ',' {
        assert Split(s)[1..] == rest;
        assert s == [s[0]] + s[1..];
      } else if |rest| == 1 {
        assert s == [s[0]] + s[1..];
      } else {
        assert Split(s)[1..] == rest[1..];
        assert s == [s[0]] + s[1..];
      }
    }
  }

  /** The trimmed non-empty fields, in order. */
  function TrimmedItems(fields: seq<string>): seq<string> {
    if fields == [] then []
    else
      var last := TrimSpace(fields[|fields| - 1]);
      TrimmedItems(fields[..|fields| - 1]) + (if |last| > 0 then [last] else [])
  }

  /** One more field extends the items by that field, trimmed, unless it is blank. */
  lemma TrimmedItemsStep(fields: seq<string>, i: nat)
    requires i < |fields|
    ensures TrimmedItems(fields[..i + 1])
      == TrimmedItems(fields[..i]) + (if |TrimSpace(fields[i])| > 0 then [TrimSpace(fields[i])] else [])
  {
    assert fields[..i + 1][..i] == fields[..i];
  }

  /**
   * What `ParseCommaSeparatedList` returns for `s`: the comma-separated
   * fields, each trimmed of surrounding white space, in input order,
   * without the ones that are empty once trimmed.
   */
  function CommaItems(s: string): seq<string> {
    TrimmedItems(Split(s))
  }

  /** A well-formed list item: non-empty, no comma, no surrounding white space. */
  predicate CleanItem(item: string) {
    && item != []
    && ',' !in item
    && !IsSpace(item[0]) && !IsSpace(item[|item| - 1])
  }

  lemma {:induction false} TrimmedItemsShape(fields: seq<string>)
    requires forall i :: 0 <= i < |fields| ==> ',' !in fields[i]
    ensures |TrimmedItems(fields)| <= |fields|
    ensures forall j :: 0 <= j < |TrimmedItems(fields)| ==> CleanItem(TrimmedItems(fields)[j])
  {
    if fields != [] {
      TrimmedItemsShape(fields[..|fields| - 1]);
    }
  }

  /** Every returned item is clean, and there are at most as many items as fields. */
  lemma CommaItemsShape(s: string)
    ensures |CommaItems(s)| <= CountCommas(s) + 1
    ensures forall j :: 0 <= j < |CommaItems(s)| ==> CleanItem(CommaItems(s)[j])
  {
    TrimmedItemsShape(Split(s));
  }

  lemma {:induction false} BlankFieldsGiveNothing(fields: seq<string>)
    requires forall i, k :: 0 <= i < |fields| && 0 <= k < |fields[i]| ==> IsSpace(fields[i][k])
    ensures TrimmedItems(fields) == []
  {
    if fields != [] {
      BlankFieldsGiveNothing(fields[..|fields| - 1]);
    }
  }

  lemma {:induction false} SplitFieldsFromInput(s: string)
    ensures forall i, c :: 0 <= i < |Split(s)| && c in Split(s)[i] ==> c in s
  {
    if s != [] {
      SplitFieldsFromInput(s[1..]);
      var rest := Split(s[1..]);
      forall i, c | 0 <= i < |Split(s)| && c in Split(s)[i] ensures c in s {
        assert s == [s[0]] + s[1..];
        if s[0] == ',' {
          assert i > 0 ==> Split(s)[i] == rest[i - 1];
        } else {
          assert i == 0 ==> Split(s)[i] == [s[0]] + rest[0];
          assert i > 0 ==> Split(s)[i] == rest[i];
        }
      }
    }
  }

  /** A list made only of white space and commas (such as "", "  ", " ,  ") yields no items. */
  lemma BlankListIsEmpty(s: string)
    requires forall k :: 0 <= k < |s| ==> s[k] == ',' || IsSpace(s[k])
    ensures CommaItems(s) == []
  {
    SplitFieldsFromInput(s);
    var fields := Split(s);
    forall i, k | 0 <= i < |fields| && 0 <= k < |fields[i]| ensures IsSpace(fields[i][k]) {
      assert fields[i][k] in fields[i];
      assert fields[i][k] in s;
    }
    BlankFieldsGiveNothing(fields);
  }
}

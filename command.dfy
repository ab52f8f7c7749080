/**
 * The parts of `WikiCommand` that compute: picking the search result whose title matches
 * the term, and removing the quotes a player types around a multi-word argument.
 */
module Command {
  import opened Wrappers
  import opened Strings

  /** A search hit; only the fields the command reads. */
  datatype SearchEntry = SearchEntry(key: string, title: string)

  function AsciiLower(c: char): char {
    if 'A' <= c <= 'Z' then (c as int - 'A' as int + 'a' as int) as char else c
  }

  function Lowered(s: string): (r: string)
    ensures |r| == |s|
  {
    seq(|s|, i requires 0 <= i < |s| => AsciiLower(s[i]))
  }

  /** `equalsIgnoreCase`, with case folded for ASCII letters only. */
  predicate EqualsIgnoreCase(a: string, b: string) {
    |a| == |b| && forall i :: 0 <= i < |a| ==> AsciiLower(a[i]) == AsciiLower(b[i])
  }

  /** Comparing without case is comparing the lower-cased strings. */
  lemma EqualsIgnoreCaseLowered(a: string, b: string)
    ensures EqualsIgnoreCase(a, b) <==> Lowered(a) == Lowered(b)
  {
    if Lowered(a) == Lowered(b) {
      forall i | 0 <= i < |a|
        ensures AsciiLower(a[i]) == AsciiLower(b[i])
      {
        assert Lowered(a)[i] == Lowered(b)[i];
      }
    }
  }

  lemma EqualsIgnoreCaseEquivalence(a: string, b: string, c: string)
    ensures EqualsIgnoreCase(a, a)
    ensures EqualsIgnoreCase(a, b) ==> EqualsIgnoreCase(b, a)
    ensures EqualsIgnoreCase(a, b) && EqualsIgnoreCase(b, c) ==> EqualsIgnoreCase(a, c)
  {
  }

  predicate Matches(entry: SearchEntry, term: string) {
    EqualsIgnoreCase(entry.title, term)
  }

  /**
   * `findExactMatch`: the first entry, in list order, whose title equals the term without
   * regard to case; `None` (null) exactly when no title does.
   */
  method FindExactMatch(pages: seq<SearchEntry>, term: string) returns (exactMatch: Option<SearchEntry>)
    ensures exactMatch.None? <==> forall i :: 0 <= i < |pages| ==> !Matches(pages[i], term)
    ensures exactMatch.Some? ==>
      exists i :: 0 <= i < |pages| && pages[i] == exactMatch.value && Matches(pages[i], term)
        && forall j :: 0 <= j < i ==> !Matches(pages[j], term)
  {
    exactMatch := None;
    var i := 0;
    while i < |pages|
      invariant 0 <= i <= |pages|
      invariant forall j :: 0 <= j < i ==> !Matches(pages[j], term)
    {
      if EqualsIgnoreCase(pages[i].title, term) {
        exactMatch := Some(pages[i]);
        break;
      }
      i := i + 1;
    }
  }

  /** `.replace("\"", "")`: every double quote removed, everything else kept in order. */
  function StripQuotes(arg: string): (r: string)
    ensures r == Without(arg, '"')
    ensures '"' !in r
  {
    ReplaceByNothing(arg, '"');
    Replace(arg, "\"", "")
  }

  lemma {:induction false} WithoutIdempotent(s: string, c: char)
    ensures Without(Without(s, c), c) == Without(s, c)
    decreases |s|
  {
    if s != [] {
      WithoutIdempotent(s[1..], c);
      if s[0] != c {
        var w := Without(s, c);
        assert w == [s[0]] + Without(s[1..], c);
        assert w[0] == s[0] && w[1..] == Without(s[1..], c);
      }
    }
  }

  /** Stripping twice is stripping once; a term without quotes is left as it is. */
  lemma StripQuotesIdempotent(arg: string)
    ensures StripQuotes(StripQuotes(arg)) == StripQuotes(arg)
    ensures '"' !in arg ==> StripQuotes(arg) == arg
  {
    WithoutIdempotent(arg, '"');
    if '"' !in arg {
      WithoutAbsent(arg, '"');
    }
  }
}

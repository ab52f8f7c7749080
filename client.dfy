/**
 * URL assembly in `WikiClient`: the `PathBuilder` that collects a path and query
 * parameters, and the page, edit and REST URLs built with it.
 */
module Client {
  import opened Wrappers
  import opened Strings
  import opened UrlEncoding

  // ---------------------------------------------------------------------------------------
  // The query string

  /** One `key=value` entry; the key is written as it is, the value encoded. */
  function Pair(key: string, value: string): string {
    key + "=" + UrlEncode(value)
  }

  predicate DistinctKeys(order: seq<string>) {
    forall i, j :: 0 <= i < j < |order| ==> order[i] != order[j]
  }

  /** Every key in `order` is a parameter. */
  predicate KeysIn(order: seq<string>, params: map<string, string>) {
    forall i :: 0 <= i < |order| ==> order[i] in params
  }

  /** `order` lists every parameter key exactly once: an iteration order of the map. */
  ghost predicate IsOrderOf(order: seq<string>, params: map<string, string>) {
    && DistinctKeys(order) && |order| == |params| && KeysIn(order, params)
    && (forall k :: k in params ==> k in order)
  }

  /** The entries in `order`, each followed by `&`, as the loop of `buildQuery` appends them. */
  function Entries(order: seq<string>, params: map<string, string>): string
    requires KeysIn(order, params)
  {
    if order == [] then []
    else
      var k := order[|order| - 1];
      Entries(order[..|order| - 1], params) + Pair(k, params[k]) + "&"
  }

  function Pairs(order: seq<string>, params: map<string, string>): (ps: seq<string>)
    requires KeysIn(order, params)
    ensures |ps| == |order|
  {
    seq(|order|, i requires 0 <= i < |order| => Pair(order[i], params[order[i]]))
  }

  /** The strings joined with `&` between them. */
  function Join(xs: seq<string>): string
    requires xs != []
  {
    if |xs| == 1 then xs[0] else xs[0] + "&" + Join(xs[1..])
  }

  /** The query for an iteration order: empty without parameters, else `?` and the entries joined with `&`. */
  function Query(order: seq<string>, params: map<string, string>): string
    requires KeysIn(order, params)
  {
    if order == [] then [] else "?" + Join(Pairs(order, params))
  }

  /** Cut a string at every `&`. */
  function Split(s: string): (parts: seq<string>)
    ensures parts != []
  {
    if s == [] then [[]]
    else if s[0] == '&' then [[]] + Split(s[1..])
    else
      var rest := Split(s[1..]);
      [[s[0]] + rest[0]] + rest[1..]
  }

  /** Cut an entry at its first `=` into key and value. */
  function ParsePair(p: string): Option<(string, string)> {
    match FindFrom(p, "=", 0)
    case None => None
    case Some(i) => Some((p[..i], p[i + 1..]))
  }

  /** Parameter keys as the source uses them: no `&` and no `=`. */
  predicate PlainKeys(params: map<string, string>) {
    forall k :: k in params ==> '&' !in k && '=' !in k
  }

  // ---------------------------------------------------------------------------------------
  // Lemmas about the query

  lemma RegroupEntry<T>(h: seq<T>, e: seq<T>, k: seq<T>, eq: seq<T>, u: seq<T>, amp: seq<T>)
    ensures h + e + k + eq + u + amp == h + (e + (k + eq + u) + amp)
  {
  }

  /** One more iteration of the loop of `buildQuery`. */
  lemma EntriesSnoc(text: string, order: seq<string>, k: string, params: map<string, string>)
    requires KeysIn(order, params) && k in params
    requires text == "?" + Entries(order, params)
    ensures KeysIn(order + [k], params)
    ensures text + k + "=" + UrlEncode(params[k]) + "&" == "?" + Entries(order + [k], params)
  {
    assert (order + [k])[..|order|] == order;
    RegroupEntry("?", Entries(order, params), k, "=", UrlEncode(params[k]), "&");
  }

  /** After the loop: every key was visited, and the text without its last `&` is the query. */
  lemma EntriesDone(text: string, order: seq<string>, params: map<string, string>)
    requires KeysIn(order, params) && DistinctKeys(order) && params != map[]
    requires |order| == |params| && forall k :: k in params ==> k in order
    requires text == "?" + Entries(order, params)
    ensures IsOrderOf(order, params)
    ensures |text| >= 1 && text[..|text| - 1] == Query(order, params)
  {
    var k :| k in params;
    assert order != [];
    EntriesJoin(order, params);
  }

  lemma PairsSnoc(order: seq<string>, params: map<string, string>)
    requires KeysIn(order, params) && order != []
    ensures KeysIn(order[..|order| - 1], params)
    ensures Pairs(order, params) == Pairs(order[..|order| - 1], params) + [Pair(order[|order| - 1], params[order[|order| - 1]])]
  {
  }

  lemma {:induction false} JoinSnoc(xs: seq<string>, y: string)
    requires xs != []
    ensures Join(xs + [y]) == Join(xs) + "&" + y
    decreases |xs|
  {
    if |xs| == 1 {
      assert (xs + [y])[1..] == [y];
    } else {
      assert (xs + [y])[1..] == xs[1..] + [y];
      JoinSnoc(xs[1..], y);
    }
  }

  /** The loop's text without its last `&` is the joined entries. */
  lemma {:induction false} EntriesJoin(order: seq<string>, params: map<string, string>)
    requires KeysIn(order, params)
    requires order != []
    ensures Entries(order, params) == Join(Pairs(order, params)) + "&"
    decreases |order|
  {
    var n := |order|;
    var k := order[n - 1];
    if n == 1 {
      assert Entries(order[..0], params) == [];
      assert Pairs(order, params) == [Pair(k, params[k])];
    } else {
      PairsSnoc(order, params);
      EntriesJoin(order[..n - 1], params);
      JoinSnoc(Pairs(order[..n - 1], params), Pair(k, params[k]));
    }
  }

  lemma {:induction false} SplitPlain(a: string, rest: string)
    requires '&' !in a
    ensures Split(a + rest) == [a + Split(rest)[0]] + Split(rest)[1..]
    decreases |a|
  {
    if a == [] {
      assert a + rest == rest;
      var r := Split(rest);
      assert a + r[0] == r[0];
      assert [r[0]] + r[1..] == r;
    } else {
      var s := a + rest;
      assert s[0] == a[0] && s[1..] == a[1..] + rest;
      SplitPlain(a[1..], rest);
      var r := Split(rest);
      assert Split(s[1..]) == [a[1..] + r[0]] + r[1..];
      assert Split(s) == [[a[0]] + (a[1..] + r[0])] + r[1..];
      assert [a[0]] + (a[1..] + r[0]) == a + r[0];
    }
  }

  /** Cutting at `&` undoes joining with `&`, when no piece contains one. */
  lemma {:induction false} SplitJoin(xs: seq<string>)
    requires xs != []
    requires forall i :: 0 <= i < |xs| ==> '&' !in xs[i]
    ensures Split(Join(xs)) == xs
    decreases |xs|
  {
    if |xs| == 1 {
      SplitPlain(xs[0], []);
      assert xs[0] + [] == xs[0];
    } else {
      SplitJoin(xs[1..]);
      var tail := "&" + Join(xs[1..]);
      assert Join(xs) == xs[0] + tail;
      SplitPlain(xs[0], tail);
      assert tail[1..] == Join(xs[1..]);
      assert Split(tail) == [[]] + xs[1..];
      assert xs[0] + [] == xs[0];
    }
  }

  lemma PairParses(key: string, value: string)
    requires '=' !in key
    ensures '&' !in key ==> '&' !in Pair(key, value)
    ensures ParsePair(Pair(key, value)) == Some((key, UrlEncode(value)))
  {
    var p := Pair(key, value);
    UrlEncodeAlphabet(value);
    assert p[|key|] == '=';
    forall j | 0 <= j < |key|
      ensures !OccursAt(p, "=", j)
    {
      assert p[j] == key[j];
      OccursAtHead(p, "=", j);
    }
    assert OccursAt(p, "=", |key|) by {
      assert p[|key|..|key| + 1] == "=";
    }
    FindFromIs(p, "=", 0, |key|);
    assert p[..|key|] == key;
    assert p[|key| + 1..] == UrlEncode(value);
  }

  /**
   * The query reads back as its parameters: empty exactly when there are none; otherwise `?`
   * followed by one `key=value` entry per parameter, in the iteration order, cut apart by
   * `&` and each cut at its `=` into the key and the encoded value.
   */
  lemma QueryParses(order: seq<string>, params: map<string, string>)
    requires IsOrderOf(order, params) && PlainKeys(params)
    ensures Query(order, params) == [] <==> params == map[]
    ensures var q := Query(order, params);
      q != [] ==>
        && q[0] == '?'
        && |Split(q[1..])| == |order|
        && forall i :: 0 <= i < |order| ==> ParsePair(Split(q[1..])[i]) == Some((order[i], UrlEncode(params[order[i]])))
  {
    if order == [] {
      assert params.Keys == {};
    } else {
      assert order[0] in params;
      var ps := Pairs(order, params);
      forall i | 0 <= i < |order|
        ensures '&' !in ps[i] && ParsePair(ps[i]) == Some((order[i], UrlEncode(params[order[i]])))
      {
        PairParses(order[i], params[order[i]]);
      }
      SplitJoin(ps);
      var q := Query(order, params);
      assert q[1..] == Join(ps);
    }
  }

  /**
   * `q` reads back as exactly the parameters, whatever their order: `?`, then one piece per
   * parameter between the `&`s, and every key found in some piece with its encoded value.
   */
  predicate ReadsBackAs(q: string, params: map<string, string>) {
    && (q == [] <==> params == map[])
    && (q != [] ==>
          var parts := Split(q[1..]);
          && q[0] == '?'
          && |parts| == |params|
          && forall k :: k in params ==>
               exists i :: 0 <= i < |parts| && ParsePair(parts[i]) == Some((k, UrlEncode(params[k]))))
  }

  /** Whichever order the map is iterated in, the query reads back as the parameters. */
  lemma QueryReadsBack(order: seq<string>, params: map<string, string>)
    requires IsOrderOf(order, params) && PlainKeys(params)
    ensures ReadsBackAs(Query(order, params), params)
  {
    QueryParses(order, params);
    var q := Query(order, params);
    if q != [] {
      var parts := Split(q[1..]);
      forall k | k in params
        ensures exists i :: 0 <= i < |parts| && ParsePair(parts[i]) == Some((k, UrlEncode(params[k])))
      {
        var i :| 0 <= i < |order| && order[i] == k;
        assert ParsePair(parts[i]) == Some((order[i], UrlEncode(params[order[i]])));
      }
    }
  }

  /** With a single parameter there is a single order. */
  lemma SingleParamOrder(order: seq<string>, key: string, value: string)
    requires IsOrderOf(order, map[key := value])
    ensures order == [key]
  {
    assert order[0] in map[key := value];
  }

  // ---------------------------------------------------------------------------------------
  // The builder

  class PathBuilder {
    var path: string
    var params: map<string, string>

    /** `PathBuilder.create(path)`. */
    constructor(path: string)
      ensures this.path == path && params == map[]
    {
      this.path := path;
      params := map[];
    }

    method AppendPath(suffix: string)
      modifies this
      ensures path == old(path) + suffix && params == old(params)
    {
      path := path + suffix;
    }

    /** Set a parameter; a later value for the same key replaces the earlier one. */
    method Param(key: string, value: string)
      modifies this
      ensures params == old(params)[key := value] && path == old(path)
    {
      params := params[key := value];
    }

    /**
     * Visit the parameters in some order (the map's iteration order, left unspecified),
     * appending `key=value&` for each, then drop the last `&`.
     */
    method BuildQuery() returns (q: string, ghost order: seq<string>)
      ensures IsOrderOf(order, params)
      ensures q == Query(order, params)
      ensures q == [] <==> params == map[]
      ensures PlainKeys(params) ==> ReadsBackAs(q, params)
    {
      var text := "";
      order := [];
      if params != map[] {
        text := "?";
        var remaining := params.Keys;
        while remaining != {}
          invariant remaining <= params.Keys
          invariant KeysIn(order, params)
          invariant forall k :: k in params ==> (k in remaining <==> k !in order)
          invariant DistinctKeys(order)
          invariant |order| + |remaining| == |params|
          invariant text == "?" + Entries(order, params)
          decreases |remaining|
        {
          var k :| k in remaining;
          EntriesSnoc(text, order, k, params);
          text := text + k + "=" + UrlEncode(params[k]) + "&";
          order := order + [k];
          remaining := remaining - {k};
        }
        EntriesDone(text, order, params);
        text := text[..|text| - 1];
      }
      q := text;
      if PlainKeys(params) {
        QueryReadsBack(order, params);
      }
    }

    /** The path with every space turned into `_`, then the query. */
    method ToString() returns (s: string, ghost order: seq<string>)
      ensures IsOrderOf(order, params)
      ensures s == Replace(path, " ", "_") + Query(order, params)
      ensures |s| >= |path| && s[..|path|] == Replace(path, " ", "_")
      ensures PlainKeys(params) ==> ReadsBackAs(s[|path|..], params)
    {
      var query;
      query, order := BuildQuery();
      var p := Replace(path, " ", "_");
      ReplaceCharAt(path, ' ', '_');
      s := p + query;
      assert s[..|path|] == p && s[|path|..] == query;
    }
  }

  // ---------------------------------------------------------------------------------------
  // The client's URLs

  /** What `getEditPageUrl` returns: the whole path, base URL included, has its spaces turned into `_`. */
  function EditPageUrl(baseUrl: string, key: string): string {
    Replace(baseUrl + "/w/" + Replace(key, " ", "_"), " ", "_") + "?action=edit"
  }

  class WikiClient {
    const baseUrl: string

    constructor(baseUrl: string)
      ensures this.baseUrl == baseUrl
    {
      this.baseUrl := baseUrl;
    }

    /** The page URL: the base, `/w/`, then the term with each space turned into `_`. */
    function GetPageUrl(term: string): (url: string)
      ensures |url| == |baseUrl| + 3 + |term|
      ensures url[..|baseUrl| + 3] == baseUrl + "/w/"
      ensures forall i :: 0 <= i < |term| ==> url[|baseUrl| + 3 + i] == if term[i] == ' ' then '_' else term[i]
    {
      ReplaceCharAt(term, ' ', '_');
      baseUrl + "/w/" + Replace(term, " ", "_")
    }

    method BuildPath(path: string) returns (b: PathBuilder)
      ensures fresh(b) && b.path == baseUrl + path && b.params == map[]
    {
      b := new PathBuilder(baseUrl);
      b.AppendPath(path);
    }

    method BuildRestPath(path: string) returns (b: PathBuilder)
      ensures fresh(b) && b.path == baseUrl + "/rest.php/v1" + path && b.params == map[]
    {
      b := new PathBuilder(baseUrl);
      b.AppendPath("/rest.php/v1");
      b.AppendPath(path);
    }

    method GetEditPageUrl(key: string) returns (url: string)
      ensures url == EditPageUrl(baseUrl, key)
    {
      var b := BuildPath("/w/" + Replace(key, " ", "_"));
      assert b.path == baseUrl + "/w/" + Replace(key, " ", "_");
      b.Param("action", "edit");
      ghost var order;
      assert b.params == map["action" := "edit"];
      url, order := b.ToString();
      SingleParamOrder(order, "action", "edit");
      EditQuery();
      assert url == Replace(baseUrl + "/w/" + Replace(key, " ", "_"), " ", "_") + Query(["action"], map["action" := "edit"]);
    }
  }

  lemma EditQuery()
    ensures Query(["action"], map["action" := "edit"]) == "?action=edit"
  {
    UrlEncodeKept("edit");
  }

  // ---------------------------------------------------------------------------------------
  // Concrete URLs

  lemma ReplaceAbsent(s: string, a: char, b: char)
    requires a !in s
    ensures Replace(s, [a], [b]) == s
  {
    ReplaceCharAt(s, a, b);
  }

  lemma {:induction false} UrlEncodeConcat(a: string, b: string)
    ensures UrlEncode(a + b) == UrlEncode(a) + UrlEncode(b)
    decreases |a|
  {
    if a == [] {
      assert a + b == b;
    } else {
      assert (a + b)[0] == a[0] && (a + b)[1..] == a[1..] + b;
      UrlEncodeConcat(a[1..], b);
    }
  }

  /** Two words of kept characters around one space encode with `+` in its place. */
  lemma SpaceEncoded(a: string, b: string)
    requires forall i :: 0 <= i < |a| ==> KeptByEncoder(a[i])
    requires forall i :: 0 <= i < |b| ==> KeptByEncoder(b[i])
    ensures UrlEncode(a + " " + b) == a + "+" + b
  {
    LeadingSpaceEncoded(b);
    UrlEncodeKept(a);
    UrlEncodeConcat(a, " " + b);
    Regroup(a, " ", b);
    Regroup(a, "+", b);
  }

  lemma LeadingSpaceEncoded(b: string)
    requires forall i :: 0 <= i < |b| ==> KeptByEncoder(b[i])
    ensures UrlEncode(" " + b) == "+" + b
  {
    UrlEncodeKept(b);
    assert (" " + b)[0] == ' ' && (" " + b)[1..] == b;
  }

  /** With a base URL without spaces, the edit URL is the base, `/w/`, the key with spaces turned into `_`, and `?action=edit`. */
  lemma EditPageUrlShape(baseUrl: string, key: string)
    requires ' ' !in baseUrl
    ensures EditPageUrl(baseUrl, key) == baseUrl + "/w/" + Replace(key, " ", "_") + "?action=edit"
    ensures ' ' !in EditPageUrl(baseUrl, key)
  {
    var k := Replace(key, " ", "_");
    ReplaceCharGone(key, ' ', '_');
    var path := baseUrl + "/w/" + k;
    assert ' ' !in path;
    ReplaceAbsent(path, ' ', '_');
  }

  /** The query of a single parameter, whatever the map's order. */
  lemma SingleParamQuery(order: seq<string>, key: string, value: string)
    requires IsOrderOf(order, map[key := value])
    ensures Query(order, map[key := value]) == "?" + key + "=" + UrlEncode(value)
  {
    SingleParamOrder(order, key, value);
    var ps := Pairs(order, map[key := value]);
    assert ps == [Pair(key, value)];
  }

  lemma QueryOfTwo(order: seq<string>, params: map<string, string>)
    requires |order| == 2 && KeysIn(order, params)
    ensures Query(order, params) == "?" + Pair(order[0], params[order[0]]) + "&" + Pair(order[1], params[order[1]])
  {
    var ps := Pairs(order, params);
    assert ps[1..] == [ps[1]];
    assert Join(ps) == ps[0] + "&" + ps[1];
    assert ps[0] == Pair(order[0], params[order[0]]) && ps[1] == Pair(order[1], params[order[1]]);
    assert "?" + (ps[0] + "&" + ps[1]) == "?" + ps[0] + "&" + ps[1];
  }

  /**
   * With two parameters the order of the entries is the map's iteration order, so the query
   * is one of two strings and the code does not fix which.
   */
  lemma TwoParamsEitherOrder(k1: string, v1: string, k2: string, v2: string, order: seq<string>)
    requires k1 != k2
    requires IsOrderOf(order, map[k1 := v1, k2 := v2])
    ensures var q := Query(order, map[k1 := v1, k2 := v2]);
      q == "?" + Pair(k1, v1) + "&" + Pair(k2, v2) || q == "?" + Pair(k2, v2) + "&" + Pair(k1, v1)
  {
    var params := map[k1 := v1, k2 := v2];
    assert params.Keys == {k1, k2};
    assert |params| == 2;
    assert order[0] in params && order[1] in params;
    QueryOfTwo(order, params);
  }
}

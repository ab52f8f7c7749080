/**
 * `WikiTextGenerator.sanitize`: the rewrite that cleans raw wiki markup before it is parsed.
 * Each regular-expression step is a scanner written out by hand with Java's `replaceAll`
 * semantics: a match is tried at every index from left to right, and after a match the
 * search resumes where the match ended.
 */
module Sanitizer {
  import opened Wrappers
  import opened Strings
  import Utf8

  // ---------------------------------------------------------------------------
  // Step 1: the byte scrub, then `trim`
  // ---------------------------------------------------------------------------

  /** Java's `byte` is signed: an unsigned byte from 0x80 up reads as a negative number. */
  function Signed(b: Utf8.Byte): int {
    if b < 128 then b else b - 256
  }

  /** What the scrub makes of one byte, stated on the unsigned value. */
  function ScrubbedByte(b: Utf8.Byte): char {
    if 32 <= b < 128 then b as char else if b == 10 then '\n' else ' '
  }

  /** The scrub as a value: one character per byte. */
  function Scrubbed(bytes: seq<Utf8.Byte>): string {
    seq(|bytes|, i requires 0 <= i < |bytes| => ScrubbedByte(bytes[i]))
  }

  /** The loop over the UTF-8 bytes: non-negative bytes from 32 are kept, byte 10 is kept, anything else becomes a space. */
  method Scrub(bytes: seq<Utf8.Byte>) returns (text: string)
    ensures |text| == |bytes|
    ensures forall i :: 0 <= i < |bytes| ==> text[i] == ScrubbedByte(bytes[i])
  {
    text := [];
    for i := 0 to |bytes|
      invariant |text| == i
      invariant forall k :: 0 <= k < i ==> text[k] == ScrubbedByte(bytes[k])
    {
      var b := Signed(bytes[i]);
      if b >= 32 {
        text := text + [b as char];
      } else if b == 10 {
        text := text + ['\n'];
      } else {
        text := text + [' '];
      }
    }
  }

  /** The characters the scrub can produce: printable ASCII (with DEL) and the newline. */
  predicate IsScrubbedChar(c: char) {
    c == '\n' || (' ' <= c <= '\U{007F}')
  }

  predicate AllScrubbed(s: string) {
    forall i :: 0 <= i < |s| ==> IsScrubbedChar(s[i])
  }

  function Spaces(n: nat): (r: string)
    ensures |r| == n && forall i :: 0 <= i < n ==> r[i] == ' '
  {
    seq(n, _ => ' ')
  }

  /** The scrub read per character: an ASCII character is scrubbed on its own, any other one becomes one space per UTF-8 byte. */
  function ScrubbedChars(s: string): string {
    if s == [] then []
    else
      var c := s[0];
      (if c as int < 0x80 then [ScrubbedByte(c as int)] else Spaces(|Utf8.EncodeChar(c)|)) + ScrubbedChars(s[1..])
  }

  lemma ScrubbedConcat(a: seq<Utf8.Byte>, b: seq<Utf8.Byte>)
    ensures Scrubbed(a + b) == Scrubbed(a) + Scrubbed(b)
  {
  }

  /**
   * Scrubbing the UTF-8 encoding of a string yields one character per byte: a control
   * character other than the newline becomes a space, and so does every byte of a non-ASCII
   * character. Only printable ASCII and newlines remain.
   */
  lemma {:induction false} ScrubbedText(s: string)
    ensures Scrubbed(Utf8.Encode(s)) == ScrubbedChars(s)
    ensures |Scrubbed(Utf8.Encode(s))| == |Utf8.Encode(s)|
    ensures AllScrubbed(Scrubbed(Utf8.Encode(s)))
    decreases |s|
  {
    if s != [] {
      ScrubbedText(s[1..]);
      var head := Utf8.EncodeChar(s[0]);
      ScrubbedConcat(head, Utf8.Encode(s[1..]));
      if s[0] as int >= 0x80 {
        assert Scrubbed(head) == Spaces(|head|);
      }
    }
  }

  /** Trimming only drops characters from the ends. */
  lemma TrimKeepsScrubbed(s: string)
    requires AllScrubbed(s)
    ensures AllScrubbed(Trim(s))
  {
    var d := DropLeadingBlanks(s);
    assert forall i :: 0 <= i < |d| ==> d[i] == s[|s| - |d| + i];
  }

  // ---------------------------------------------------------------------------
  // Step 2: `\{\{.+?}}` with DOTALL, replaced by nothing
  // ---------------------------------------------------------------------------

  /** The end of a template match starting at index 0: `{{`, at least one character, then the first `}}`. */
  function TemplateEnd(s: string): (e: Option<nat>)
    ensures e.Some? ==> 5 <= e.value <= |s|
  {
    if !StartsWith(s, "{{") then None
    else match FindFrom(s, "}}", 3)
      case Some(q) => Some(q + 2)
      case None => None
  }

  function StripTemplates(s: string): string
    decreases |s|
  {
    if s == [] then []
    else match TemplateEnd(s)
      case Some(e) =>
        StripTemplates(s[e..])
      case None =>
        [s[0]] + StripTemplates(s[1..])
  }

  /** No index of `s` starts a template match. */
  predicate TemplateFree(s: string) {
    forall i :: 0 <= i <= |s| ==> TemplateEnd(s[i..]).None?
  }

  lemma OccursShift(s: string, p: string, k: nat, j: nat)
    requires k <= |s|
    ensures OccursAt(s[k..], p, j) <==> OccursAt(s, p, k + j)
  {
    if k + j + |p| <= |s| {
      assert s[k..][j..j + |p|] == s[k + j..k + j + |p|];
    }
  }

  /** Without a `}}` from index 2 on, no template can start anywhere. */
  lemma {:induction false} StripTemplatesUntouched(s: string)
    requires FindFrom(s, "}}", 2).None?
    ensures StripTemplates(s) == s
    decreases |s|
  {
    if s != [] {
      assert FindFrom(s[1..], "}}", 2).None? by {
        var f := FindFrom(s[1..], "}}", 2);
        if f.Some? {
          OccursShift(s, "}}", 1, f.value);
        }
      }
      StripTemplatesUntouched(s[1..]);
    }
  }

  /** The first character kept by the scanner is never the start of a template of the output. */
  lemma HeadNotTemplate(s: string)
    requires s != [] && TemplateEnd(s).None?
    ensures TemplateEnd([s[0]] + StripTemplates(s[1..])).None?
  {
    var t := StripTemplates(s[1..]);
    var r := [s[0]] + t;
    if |s| >= 2 && s[0] == '{' && s[1] == '{' {
      var tail := FindFrom(s[1..], "}}", 3);
      if StartsWith(s[1..], "{{") && tail.Some? {
        // a template at index 1 would end in a `}}` that also closes one at index 0
        OccursShift(s, "}}", 1, tail.value);
      } else {
        assert t == [s[1]] + StripTemplates(s[2..]);
        assert FindFrom(s[1..], "}}", 2).None? by {
          var f := FindFrom(s[1..], "}}", 2);
          if f.Some? {
            OccursShift(s, "}}", 1, f.value);
          }
        }
        StripTemplatesUntouched(s[1..]);
        assert r == s;
      }
    } else if |s| >= 2 && s[0] == '{' {
      assert !StartsWith(s[1..], "{{");
      assert t == [s[1]] + StripTemplates(s[2..]);
      assert r[1] == s[1];
      assert !StartsWith(r, "{{");
    } else {
      assert r[0] == s[0];
      if |s| == 1 {
        assert t == [];
      }
      assert !StartsWith(r, "{{");
    }
  }

  /** After template stripping, no template match is left anywhere in the text. */
  lemma {:induction false} StripTemplatesLeavesNone(s: string)
    ensures TemplateFree(StripTemplates(s))
    decreases |s|
  {
    if s != [] {
      match TemplateEnd(s)
      case Some(e) =>
        StripTemplatesLeavesNone(s[e..]);
      case None =>
        var t := StripTemplates(s[1..]);
        StripTemplatesLeavesNone(s[1..]);
        var r := [s[0]] + t;
        forall i | 0 <= i <= |r|
          ensures TemplateEnd(r[i..]).None?
        {
          if i > 0 {
            assert r[i..] == t[i - 1..];
          } else {
            HeadNotTemplate(s);
          }
        }
    }
  }

  /** Template-free text passes through template stripping unchanged. */
  lemma {:induction false} StripTemplatesIdentity(s: string)
    requires TemplateFree(s)
    ensures StripTemplates(s) == s
    decreases |s|
  {
    if s != [] {
      assert s[0..] == s;
      assert TemplateFree(s[1..]) by {
        forall i | 0 <= i <= |s[1..]|
          ensures TemplateEnd(s[1..][i..]).None?
        {
          assert s[1..][i..] == s[1 + i..];
        }
      }
      StripTemplatesIdentity(s[1..]);
    }
  }

  /** Template stripping is idempotent. */
  lemma StripTemplatesIdempotent(s: string)
    ensures StripTemplates(StripTemplates(s)) == StripTemplates(s)
  {
    StripTemplatesLeavesNone(s);
    StripTemplatesIdentity(StripTemplates(s));
  }

  // ---------------------------------------------------------------------------
  // Step 3: `(=+?) \[\[(.+)]] (=+)` replaced by `$1 $2 $3`
  // ---------------------------------------------------------------------------

  /** A header-link match at index 0: the `=` run ends at `open`, the link text at `close`, the match at `end`. */
  datatype HeaderMatch = HeaderMatch(open: nat, close: nat, end: nat)

  /**
   * The lazy `(=+?)` can only stop where ` [[` follows, so it takes the whole leading run of
   * `=`; the greedy `(.+)` takes the last `]] =` on the line; the greedy `(=+)` takes the
   * whole run of `=` after it.
   */
  function HeaderLinkAt(s: string): (m: Option<HeaderMatch>)
    ensures m.Some? ==> 1 <= m.value.open && m.value.open + 4 <= m.value.close
    ensures m.Some? ==> m.value.close + 4 <= m.value.end <= |s|
  {
    var open := LeadingRun(s, '=');
    if open == 0 || !OccursAt(s, " [[", open) then None else HeaderClose(s, open)
  }

  /** The rest of a header-link match once the ` [[` after the `=` run is found. */
  function HeaderClose(s: string, open: nat): (m: Option<HeaderMatch>)
    requires open + 3 <= |s|
    ensures m.Some? ==> m.value.open == open && open + 4 <= m.value.close
    ensures m.Some? ==> m.value.close + 4 <= m.value.end <= |s|
  {
    match FindLast(s, "]] =", open + 4, LineEnd(s, open + 3))
    case None => None
    case Some(close) =>
      FindLastSpec(s, "]] =", open + 4, LineEnd(s, open + 3));
      OccursAtChar(s, "]] =", close, 3);
      Some(HeaderMatch(open, close, RunEnd(s, '=', close + 3)))
  }

  lemma HeaderCloseIs(s: string, open: nat, close: nat, end: nat)
    requires open + 4 <= close && close + 3 <= |s| && end <= |s|
    requires LineEnd(s, open + 3) == end
    requires FindLast(s, "]] =", open + 4, end) == Some(close)
    requires RunEnd(s, '=', close + 3) == end
    ensures HeaderClose(s, open) == Some(HeaderMatch(open, close, end))
  {
  }

  /** The match that the three groups describe is the one the scanner finds. */
  lemma HeaderLinkAtIs(s: string, open: nat, hm: HeaderMatch)
    requires 1 <= open && LeadingRun(s, '=') == open && OccursAt(s, " [[", open)
    requires HeaderClose(s, open) == Some(hm)
    ensures HeaderLinkAt(s) == Some(hm)
  {
  }

  /** `$1 $2 $3`: the `=` runs around the link text, without the brackets. */
  function HeaderReplacement(s: string, m: HeaderMatch): string
    requires m.open + 3 <= m.close && m.close + 3 <= m.end <= |s|
  {
    s[..m.open] + " " + s[m.open + 3..m.close] + " " + s[m.close + 3..m.end]
  }

  function HeaderLinks(s: string): string
    decreases |s|
  {
    if s == [] then []
    else match HeaderLinkAt(s)
      case Some(m) => HeaderReplacement(s, m) + HeaderLinks(s[m.end..])
      case None =>
        [s[0]] + HeaderLinks(s[1..])
  }

  predicate SingleLine(s: string) {
    forall i :: 0 <= i < |s| ==> !IsLineTerminator(s[i])
  }

  /** A section header line whose title is a wiki link: `== [[x]] ==`. */
  function HeaderLine(n: nat, x: string, m: nat): string {
    Repeat('=', n) + " [[" + x + "]] " + Repeat('=', m)
  }

  /** The same header with the brackets removed: `== x ==`. */
  function UnwrappedHeader(n: nat, x: string, m: nat): string {
    Repeat('=', n) + " " + x + " " + Repeat('=', m)
  }

  /** The characters of a header line, position by position. */
  lemma HeaderLineChars(n: nat, x: string, m: nat, v: string)
    ensures var s := HeaderLine(n, x, m) + v;
      var close := n + 3 + |x|;
      && |s| == close + 3 + m + |v|
      && (forall j :: 0 <= j < n ==> s[j] == '=')
      && s[n] == ' ' && s[n + 1] == '[' && s[n + 2] == '['
      && (forall j :: 0 <= j < |x| ==> s[n + 3 + j] == x[j])
      && s[close] == ']' && s[close + 1] == ']' && s[close + 2] == ' '
      && (forall j :: close + 3 <= j < close + 3 + m ==> s[j] == '=')
      && s[close + 3 + m..] == v
  {
    var s := HeaderLine(n, x, m) + v;
    var tail := x + "]] " + Repeat('=', m) + v;
    assert s == Repeat('=', n) + (" [[" + tail);
    assert s[n + 3..] == tail;
    var close := n + 3 + |x|;
    var after := Repeat('=', m) + v;
    assert s[close + 3..] == after;
    assert forall j :: close + 3 <= j < close + 3 + m ==> s[j] == after[j - close - 3];
  }

  /**
   * `s` starts with a header line `n` times `=`, ` [[`, the title `x` on one line, `]] `,
   * `m` times `=`, and the line ends there.
   */
  predicate HeaderLineAt(s: string, n: nat, x: string, m: nat) {
    && n >= 1 && m >= 1 && x != [] && SingleLine(x)
    && |s| >= n + 6 + |x| + m
    && (forall j :: 0 <= j < n ==> s[j] == '=')
    && s[n] == ' ' && s[n + 1] == '[' && s[n + 2] == '['
    && (forall j :: 0 <= j < |x| ==> s[n + 3 + j] == x[j])
    && s[n + 3 + |x|] == ']' && s[n + 4 + |x|] == ']' && s[n + 5 + |x|] == ' '
    && (forall j :: n + 6 + |x| <= j < n + 6 + |x| + m ==> s[j] == '=')
    && (n + 6 + |x| + m < |s| ==> IsLineTerminator(s[n + 6 + |x| + m]))
  }

  lemma HeaderLineIsAt(n: nat, x: string, m: nat, v: string)
    requires n >= 1 && m >= 1 && x != [] && SingleLine(x)
    requires v == [] || IsLineTerminator(v[0])
    ensures HeaderLineAt(HeaderLine(n, x, m) + v, n, x, m)
  {
    var s := HeaderLine(n, x, m) + v;
    var end := n + 6 + |x| + m;
    HeaderLineChars(n, x, m, v);
    if end < |s| {
      assert s[end..][0] == s[end];
    }
  }

  /** A header line ends where its closing `=` run does. */
  lemma HeaderLineEnd(s: string, n: nat, x: string, m: nat)
    requires HeaderLineAt(s, n, x, m)
    ensures LineEnd(s, n + 3) == n + 6 + |x| + m
  {
    var close := n + 3 + |x|;
    var end := close + 3 + m;
    forall j | n + 3 <= j < end
      ensures !IsLineTerminator(s[j])
    {
      if j < close {
        assert s[n + 3 + (j - n - 3)] == x[j - n - 3];
      }
    }
    LineEndIs(s, n + 3, end);
  }

  /** A `]] =` followed only by spaces and `=` up to `end` is the last one before `end`. */
  lemma LastHeaderClose(s: string, lo: nat, close: nat, end: nat)
    requires lo <= close && close + 4 <= end <= |s|
    requires s[close] == ']' && s[close + 1] == ']' && s[close + 2] == ' ' && s[close + 3] == '='
    requires forall j :: close + 2 <= j < end ==> s[j] == ' ' || s[j] == '='
    ensures FindLast(s, "]] =", lo, end) == Some(close)
  {
    assert OccursAt(s, "]] =", close) by {
      assert s[close..close + 4] == [s[close], s[close + 1], s[close + 2], s[close + 3]];
    }
    forall j | close < j && j + 4 <= end
      ensures !OccursAt(s, "]] =", j)
    {
      OccursAtChar(s, "]] =", j, 1);
    }
    FindLastIs(s, "]] =", lo, end, close);
  }

  /** On a header line, the last `]] =` before the line end is the one after the title. */
  lemma HeaderLineClose(s: string, n: nat, x: string, m: nat)
    requires HeaderLineAt(s, n, x, m)
    ensures HeaderClose(s, n) == Some(HeaderMatch(n, n + 3 + |x|, n + 6 + |x| + m))
  {
    var close := n + 3 + |x|;
    var end := n + 6 + |x| + m;
    HeaderLineEnd(s, n, x, m);
    RunEndIs(s, '=', close + 3, end);
    assert forall j :: close + 2 <= j < end ==> s[j] == ' ' || s[j] == '=';
    HeaderCloseFrom(s, n, close, end);
  }

  /** The closing part of a header match, from the characters after the link text. */
  lemma HeaderCloseFrom(s: string, open: nat, close: nat, end: nat)
    requires open + 4 <= close && close + 4 <= end <= |s|
    requires s[close] == ']' && s[close + 1] == ']' && s[close + 2] == ' ' && s[close + 3] == '='
    requires forall j :: close + 2 <= j < end ==> s[j] == ' ' || s[j] == '='
    requires LineEnd(s, open + 3) == end && RunEnd(s, '=', close + 3) == end
    ensures HeaderClose(s, open) == Some(HeaderMatch(open, close, end))
  {
    LastHeaderClose(s, open + 4, close, end);
    HeaderCloseIs(s, open, close, end);
  }

  /** A run of `n` times `=` followed by ` [[`. */
  lemma HeaderOpen(s: string, n: nat)
    requires n + 3 <= |s| && (forall j :: 0 <= j < n ==> s[j] == '=')
    requires s[n] == ' ' && s[n + 1] == '[' && s[n + 2] == '['
    ensures LeadingRun(s, '=') == n && OccursAt(s, " [[", n)
  {
    RunEndIs(s, '=', 0, n);
    assert s[n..n + 3] == [s[n], s[n + 1], s[n + 2]];
  }

  /** From the characters of a header line, the scanner finds the whole line as one match. */
  lemma HeaderLineMatch(s: string, n: nat, x: string, m: nat)
    requires HeaderLineAt(s, n, x, m)
    ensures HeaderLinkAt(s) == Some(HeaderMatch(n, n + 3 + |x|, n + 6 + |x| + m))
  {
    HeaderOpen(s, n);
    HeaderLineClose(s, n, x, m);
    HeaderLinkAtIs(s, n, HeaderMatch(n, n + 3 + |x|, n + 6 + |x| + m));
  }

  /**
   * A section header whose title is a wiki link loses the brackets: `== [[x]] ==` becomes
   * `== x ==`, for any title on one line, and the scan resumes after the closing `=` run.
   */
  lemma HeaderLinkUnwrapped(n: nat, x: string, m: nat, v: string)
    requires n >= 1 && m >= 1 && x != [] && SingleLine(x)
    requires v == [] || IsLineTerminator(v[0])
    ensures HeaderLinks(HeaderLine(n, x, m) + v) == UnwrappedHeader(n, x, m) + HeaderLinks(v)
  {
    var s := HeaderLine(n, x, m) + v;
    var hm := HeaderMatch(n, n + 3 + |x|, n + 6 + |x| + m);
    HeaderLineIsAt(n, x, m, v);
    HeaderLineMatch(s, n, x, m);
    HeaderLinksAtMatch(s, hm, s[hm.end..]);
    HeaderLineSlices(n, x, m, v);
    HeaderReplacementIs(s, hm, n, x, m);
  }

  /** Where a header match starts, the rewrite emits its replacement and resumes after it. */
  lemma HeaderLinksAtMatch(s: string, hm: HeaderMatch, rest: string)
    requires s != [] && HeaderLinkAt(s) == Some(hm) && rest == s[hm.end..]
    ensures HeaderLinks(s) == HeaderReplacement(s, hm) + HeaderLinks(rest)
  {
  }

  /** The pieces of a header line that the replacement keeps. */
  lemma HeaderLineSlices(n: nat, x: string, m: nat, v: string)
    ensures var s := HeaderLine(n, x, m) + v;
      && |s| == n + 6 + |x| + m + |v|
      && s[..n] == Repeat('=', n)
      && s[n + 3..n + 3 + |x|] == x
      && s[n + 6 + |x|..n + 6 + |x| + m] == Repeat('=', m)
      && s[n + 6 + |x| + m..] == v
  {
    var s := HeaderLine(n, x, m) + v;
    var close := n + 3 + |x|;
    HeaderLineChars(n, x, m, v);
    assert s[..n] == Repeat('=', n);
    assert s[n + 3..close] == x by {
      forall j | 0 <= j < |x|
        ensures s[n + 3..close][j] == x[j]
      {
        assert s[n + 3..close][j] == s[n + 3 + j];
      }
    }
    assert s[close + 3..close + 3 + m] == Repeat('=', m);
  }

  lemma HeaderReplacementIs(s: string, hm: HeaderMatch, n: nat, x: string, m: nat)
    requires hm == HeaderMatch(n, n + 3 + |x|, n + 6 + |x| + m) && n + 6 + |x| + m <= |s|
    requires s[..n] == Repeat('=', n) && s[n + 3..n + 3 + |x|] == x && s[n + 6 + |x|..n + 6 + |x| + m] == Repeat('=', m)
    ensures HeaderReplacement(s, hm) == UnwrappedHeader(n, x, m)
  {
  }

  /** A character other than `=` cannot start a header match. */
  lemma HeaderLinksStep(s: string)
    requires s != [] && s[0] != '='
    ensures HeaderLinks(s) == [s[0]] + HeaderLinks(s[1..])
  {
    assert LeadingRun(s, '=') == 0;
  }

  /** Text without `=` passes through the header rewrite unchanged. */
  lemma {:induction false} HeaderLinksPrefixUntouched(u: string, t: string)
    requires '=' !in u
    ensures HeaderLinks(u + t) == u + HeaderLinks(t)
    decreases |u|
  {
    if u != [] {
      var s := u + t;
      assert s[0] == u[0] && s[1..] == u[1..] + t;
      HeaderLinksStep(s);
      HeaderLinksPrefixUntouched(u[1..], t);
      Regroup([u[0]], u[1..], HeaderLinks(t));
      assert [u[0]] + u[1..] == u;
    } else {
      assert u + t == t;
    }
  }

  /** The closing `]] =` of a header that starts in text ending a line is looked for in that line alone. */
  lemma HeaderClosePrefix(u: string, t: string, open: nat)
    requires EndsLine(u) && open + 3 < |u|
    ensures HeaderClose(u + t, open) == HeaderClose(u, open)
    ensures HeaderClose(u, open).Some? ==> HeaderClose(u, open).value.end < |u|
  {
    FindLastInLinePrefix(u, t, "]] =", open + 4, open + 3);
    RunAfterClosePrefix(u, t, FindLast(u, "]] =", open + 4, LineEnd(u, open + 3)));
    HeaderCloseSame(u + t, u, open);
  }

  /** The `=` run after a closing `]] =` inside a text ending a line ends inside it. */
  lemma RunAfterClosePrefix(u: string, t: string, found: Option<nat>)
    requires EndsLine(u) && (found.Some? ==> found.value + 4 <= |u|)
    ensures found.Some? ==> RunEnd(u + t, '=', found.value + 3) == RunEnd(u, '=', found.value + 3) < |u|
  {
    if found.Some? {
      assert u[|u| - 1] != '=';
      RunEndPrefix(u, t, '=', found.value + 3);
    }
  }

  /** Two texts with the same closing `]] =` and the same `=` run after it give the same match. */
  lemma HeaderCloseSame(s: string, s': string, open: nat)
    requires open + 3 <= |s| && open + 3 <= |s'|
    requires FindLast(s, "]] =", open + 4, LineEnd(s, open + 3)) == FindLast(s', "]] =", open + 4, LineEnd(s', open + 3))
    requires var found := FindLast(s', "]] =", open + 4, LineEnd(s', open + 3));
      found.Some? ==> RunEnd(s, '=', found.value + 3) == RunEnd(s', '=', found.value + 3)
    ensures HeaderClose(s, open) == HeaderClose(s', open)
  {
    var found := FindLast(s', "]] =", open + 4, LineEnd(s', open + 3));
    if found.Some? {
      HeaderCloseFound(s, open, found.value);
      HeaderCloseFound(s', open, found.value);
    } else {
      HeaderCloseNone(s, open);
      HeaderCloseNone(s', open);
    }
  }

  lemma HeaderCloseNone(s: string, open: nat)
    requires open + 3 <= |s| && FindLast(s, "]] =", open + 4, LineEnd(s, open + 3)).None?
    ensures HeaderClose(s, open).None?
  {
  }

  lemma HeaderCloseFound(s: string, open: nat, close: nat)
    requires open + 3 <= |s| && FindLast(s, "]] =", open + 4, LineEnd(s, open + 3)) == Some(close)
    ensures HeaderClose(s, open) == Some(HeaderMatch(open, close, RunEnd(s, '=', close + 3)))
  {
  }

  /** A header match that starts in text ending a line is found in that line alone. */
  lemma HeaderLinkAtPrefix(u: string, t: string)
    requires EndsLine(u)
    ensures HeaderLinkAt(u + t) == HeaderLinkAt(u)
    ensures HeaderLinkAt(u).Some? ==> HeaderLinkAt(u).value.end < |u|
  {
    var s := u + t;
    assert u[|u| - 1] != '=';
    RunEndPrefix(u, t, '=', 0);
    var open := LeadingRun(u, '=');
    assert LeadingRun(s, '=') == open;
    if open >= 1 {
      assert OccursAt(s, " [[", open) == OccursAt(u, " [[", open) by {
        if open + 3 <= |u| {
          OccursAtPrefix(u, t, " [[", open);
        } else {
          assert s[|u| - 1] == u[|u| - 1];
          OccursAtChar(s, " [[", open, |u| - 1 - open);
        }
      }
      if OccursAt(u, " [[", open) {
        OccursAtChar(u, " [[", open, 2);
        HeaderClosePrefix(u, t, open);
      }
    }
  }

  /**
   * The header rewrite never looks past the end of a line: text that ends a line is
   * rewritten the same way whatever follows it.
   */
  lemma {:induction false} HeaderLinksLineSplit(u: string, t: string)
    requires u == [] || EndsLine(u)
    ensures HeaderLinks(u + t) == HeaderLinks(u) + HeaderLinks(t)
    decreases |u|
  {
    if u == [] {
      assert u + t == t;
    } else {
      var head, w := HeaderLinksLineStep(u, t);
      HeaderLinksLineSplit(w, t);
      Regroup(head, HeaderLinks(w), HeaderLinks(t));
    }
  }

  /** A header line after earlier lines is unwrapped; the lines around it are rewritten on their own. */
  lemma HeaderLineAfterLines(u: string, n: nat, x: string, m: nat, v: string)
    requires u == [] || EndsLine(u)
    requires n >= 1 && m >= 1 && x != [] && SingleLine(x)
    requires v == [] || IsLineTerminator(v[0])
    ensures HeaderLinks(u + HeaderLine(n, x, m) + v)
         == HeaderLinks(u) + UnwrappedHeader(n, x, m) + HeaderLinks(v)
  {
    var h := HeaderLine(n, x, m);
    HeaderLinksLineSplit(u, h + v);
    HeaderLinkUnwrapped(n, x, m, v);
    Regroup(u, h, v);
    Regroup(HeaderLinks(u), UnwrappedHeader(n, x, m), HeaderLinks(v));
  }

  /** One step of the rewrite of text ending a line, the same whatever follows it. */
  lemma HeaderLinksLineStep(u: string, t: string) returns (head: string, w: string)
    requires EndsLine(u)
    ensures |w| < |u| && (w == [] || EndsLine(w))
    ensures HeaderLinks(u + t) == head + HeaderLinks(w + t)
    ensures HeaderLinks(u) == head + HeaderLinks(w)
  {
    HeaderLinkAtPrefix(u, t);
    match HeaderLinkAt(u)
    case Some(m) =>
      head, w := HeaderReplacement(u, m), u[m.end..];
      SuffixLast(u, m.end);
      HeaderLinksMatchStep(u, t, m, w);
    case None =>
      head, w := [u[0]], u[1..];
      HeaderLinksPlainStep(u, t);
  }

  lemma HeaderLinksMatchStep(u: string, t: string, m: HeaderMatch, w: string)
    requires EndsLine(u) && HeaderLinkAt(u) == Some(m) && HeaderLinkAt(u + t) == Some(m) && m.end < |u|
    requires w == u[m.end..]
    ensures HeaderLinks(u + t) == HeaderReplacement(u, m) + HeaderLinks(w + t)
    ensures HeaderLinks(u) == HeaderReplacement(u, m) + HeaderLinks(w)
  {
    assert (u + t)[m.end..] == w + t;
    HeaderLinksUnfold(u + t);
    HeaderLinksUnfold(u);
    HeaderReplacementPrefix(u, t, m);
  }

  lemma HeaderLinksPlainStep(u: string, t: string)
    requires EndsLine(u) && HeaderLinkAt(u).None? && HeaderLinkAt(u + t).None?
    ensures u[1..] == [] || EndsLine(u[1..])
    ensures HeaderLinks(u + t) == [u[0]] + HeaderLinks(u[1..] + t)
    ensures HeaderLinks(u) == [u[0]] + HeaderLinks(u[1..])
  {
    assert (u + t)[1..] == u[1..] + t;
    HeaderLinksPlain(u + t, u[1..] + t);
    HeaderLinksPlain(u, u[1..]);
  }

  lemma HeaderLinksUnfold(s: string)
    requires HeaderLinkAt(s).Some?
    ensures HeaderLinks(s) == HeaderReplacement(s, HeaderLinkAt(s).value) + HeaderLinks(s[HeaderLinkAt(s).value.end..])
  {
  }

  lemma HeaderLinksPlain(s: string, rest: string)
    requires s != [] && HeaderLinkAt(s).None? && rest == s[1..]
    ensures HeaderLinks(s) == [s[0]] + HeaderLinks(rest)
  {
  }

  /** The replacement for a match that ends inside `u` reads only `u`. */
  lemma HeaderReplacementPrefix(u: string, t: string, m: HeaderMatch)
    requires m.open + 3 <= m.close && m.close + 3 <= m.end <= |u|
    ensures HeaderReplacement(u + t, m) == HeaderReplacement(u, m)
  {
    var s := u + t;
    assert s[..m.open] == u[..m.open];
    assert s[m.open + 3..m.close] == u[m.open + 3..m.close];
    assert s[m.close + 3..m.end] == u[m.close + 3..m.end];
  }

  // ---------------------------------------------------------------------------
  // Step 4: `\[\[(.+?)\|(.+?)]]` replaced by `[[$1!!!!$2]]`, then every `|` deleted,
  // then `!!!!` turned back into `|`
  // ---------------------------------------------------------------------------

  /** A wiki-link match at index 0: the separating `|` at `pipe`, the closing `]]` at `close`. */
  datatype LinkMatch = LinkMatch(pipe: nat, close: nat)

  /**
   * The lazy `(.+?)` tries the `|` candidates from left to right; the second lazy group takes
   * the first `]]` at least one character after the `|`, and both groups stay on one line.
   */
  function LinkFrom(s: string, pipe: nat, lineEnd: nat): (m: Option<LinkMatch>)
    requires 3 <= pipe && lineEnd <= |s|
    ensures m.Some? ==> pipe <= m.value.pipe && m.value.pipe + 2 <= m.value.close
    ensures m.Some? ==> m.value.close + 2 <= lineEnd && s[m.value.pipe] == '|'
    ensures m.Some? ==> OccursAt(s, "]]", m.value.close)
    decreases lineEnd - pipe
  {
    if lineEnd <= pipe then None
    else if s[pipe] == '|' then
      match FindFrom(s, "]]", pipe + 2)
      case Some(q) =>
        if q + 2 <= lineEnd then Some(LinkMatch(pipe, q)) else LinkFrom(s, pipe + 1, lineEnd)
      case None => LinkFrom(s, pipe + 1, lineEnd)
    else LinkFrom(s, pipe + 1, lineEnd)
  }

  function LinkAt(s: string): (m: Option<LinkMatch>)
    ensures m.Some? ==> 3 <= m.value.pipe && m.value.pipe + 2 <= m.value.close
    ensures m.Some? ==> m.value.close + 2 <= |s| && s[m.value.pipe] == '|'
    ensures m.Some? ==> StartsWith(s, "[[") && OccursAt(s, "]]", m.value.close)
  {
    if !StartsWith(s, "[[") then None else LinkFrom(s, 3, LineEnd(s, 2))
  }

  /** `[[$1!!!!$2]]`: the link with its `|` replaced by the four-character marker. */
  function MarkedLink(s: string, m: LinkMatch): string
    requires 2 <= m.pipe < m.close && m.close + 2 <= |s|
  {
    "[[" + s[2..m.pipe] + "!!!!" + s[m.pipe + 1..m.close] + "]]"
  }

  function MarkLinkPipes(s: string): string
    decreases |s|
  {
    if s == [] then []
    else match LinkAt(s)
      case Some(m) =>
        MarkedLink(s, m) + MarkLinkPipes(s[m.close + 2..])
      case None =>
        [s[0]] + MarkLinkPipes(s[1..])
  }

  /** The three chained rewrites: pipes inside wiki links survive, all others are deleted. */
  function ProtectPipes(s: string): string {
    Replace(Replace(MarkLinkPipes(s), "|", ""), "!!!!", "|")
  }

  /** A character other than `[` cannot start a link and is kept. */
  lemma MarkStepPlain(s: string)
    requires s != [] && s[0] != '['
    ensures MarkLinkPipes(s) == [s[0]] + MarkLinkPipes(s[1..])
  {
    assert !StartsWith(s, "[[");
  }

  lemma {:induction false} MarkPrefixUntouched(u: string, t: string)
    requires '[' !in u
    ensures MarkLinkPipes(u + t) == u + MarkLinkPipes(t)
    decreases |u|
  {
    if u == [] {
      assert u + t == t;
    } else {
      var s := u + t;
      assert s[0] == u[0] && s[1..] == u[1..] + t;
      MarkStepPlain(s);
      MarkPrefixUntouched(u[1..], t);
      Regroup([u[0]], u[1..], MarkLinkPipes(t));
      assert [u[0]] + u[1..] == u;
    }
  }

  /** The `|` candidates of a link that starts in text ending a line are tried in that line alone. */
  lemma {:induction false} LinkFromPrefix(u: string, t: string, pipe: nat, lineEnd: nat)
    requires 3 <= pipe && lineEnd <= |u|
    ensures LinkFrom(u + t, pipe, lineEnd) == LinkFrom(u, pipe, lineEnd)
    decreases lineEnd - pipe
  {
    if pipe < lineEnd {
      assert (u + t)[pipe] == u[pipe];
      if u[pipe] == '|' {
        FindFromPrefix(u, t, "]]", pipe + 2, lineEnd);
      }
      LinkFromPrefix(u, t, pipe + 1, lineEnd);
    }
  }

  /** A link match that starts in text ending a line is found in that line alone. */
  lemma LinkAtPrefix(u: string, t: string)
    requires EndsLine(u)
    ensures LinkAt(u + t) == LinkAt(u)
    ensures LinkAt(u).Some? ==> LinkAt(u).value.close + 2 < |u|
  {
    var s := u + t;
    assert StartsWith(s, "[[") == StartsWith(u, "[[") by {
      if |u| >= 2 {
        OccursAtPrefix(u, t, "[[", 0);
      } else {
        assert s[0] == u[0];
        OccursAtChar(s, "[[", 0, 0);
      }
    }
    if StartsWith(u, "[[") {
      OccursAtChar(u, "[[", 0, 1);
      LineEndPrefix(u, t, 2);
      LinkFromPrefix(u, t, 3, LineEnd(u, 2));
    }
  }

  /** The marked link for a match that ends inside `u` reads only `u`. */
  lemma MarkedLinkPrefix(u: string, t: string, m: LinkMatch)
    requires 2 <= m.pipe < m.close && m.close + 2 <= |u|
    ensures MarkedLink(u + t, m) == MarkedLink(u, m)
  {
    var s := u + t;
    assert s[2..m.pipe] == u[2..m.pipe];
    assert s[m.pipe + 1..m.close] == u[m.pipe + 1..m.close];
  }

  lemma MarkLinksUnfold(s: string)
    requires LinkAt(s).Some?
    ensures MarkLinkPipes(s) == MarkedLink(s, LinkAt(s).value) + MarkLinkPipes(s[LinkAt(s).value.close + 2..])
  {
  }

  lemma MarkLinksPlain(s: string, rest: string)
    requires s != [] && LinkAt(s).None? && rest == s[1..]
    ensures MarkLinkPipes(s) == [s[0]] + MarkLinkPipes(rest)
  {
  }

  /**
   * The link marking never looks past the end of a line: text that ends a line is
   * rewritten the same way whatever follows it.
   */
  lemma {:induction false} MarkLinkPipesLineSplit(u: string, t: string)
    requires u == [] || EndsLine(u)
    ensures MarkLinkPipes(u + t) == MarkLinkPipes(u) + MarkLinkPipes(t)
    decreases |u|
  {
    if u == [] {
      assert u + t == t;
    } else {
      var head, w := MarkLinkPipesLineStep(u, t);
      MarkLinkPipesLineSplit(w, t);
      Regroup(head, MarkLinkPipes(w), MarkLinkPipes(t));
    }
  }

  /** One step of the marking of text ending a line, the same whatever follows it. */
  lemma MarkLinkPipesLineStep(u: string, t: string) returns (head: string, w: string)
    requires EndsLine(u)
    ensures |w| < |u| && (w == [] || EndsLine(w)) && (w == [] ==> head == u)
    ensures w != [] ==> w[|w| - 1] == u[|u| - 1]
    ensures MarkLinkPipes(u + t) == head + MarkLinkPipes(w + t)
    ensures MarkLinkPipes(u) == head + MarkLinkPipes(w)
  {
    LinkAtPrefix(u, t);
    match LinkAt(u)
    case Some(m) =>
      head, w := MarkedLink(u, m), u[m.close + 2..];
      SuffixLast(u, m.close + 2);
      MarkLinkPipesMatchStep(u, t, m, w);
    case None =>
      head, w := [u[0]], u[1..];
      SuffixLast(u, 1);
      MarkLinkPipesPlainStep(u, t);
  }

  /** A nonempty suffix ends with the same character; the empty one leaves a single character before it. */
  lemma SuffixLast<T>(u: seq<T>, k: nat)
    requires 0 < k <= |u|
    ensures k < |u| ==> u[k..][|u[k..]| - 1] == u[|u| - 1]
    ensures k == 1 && u[1..] == [] ==> [u[0]] == u
  {
  }

  lemma MarkLinkPipesMatchStep(u: string, t: string, m: LinkMatch, w: string)
    requires EndsLine(u) && LinkAt(u) == Some(m) && LinkAt(u + t) == Some(m) && m.close + 2 < |u|
    requires w == u[m.close + 2..]
    ensures MarkLinkPipes(u + t) == MarkedLink(u, m) + MarkLinkPipes(w + t)
    ensures MarkLinkPipes(u) == MarkedLink(u, m) + MarkLinkPipes(w)
  {
    assert (u + t)[m.close + 2..] == w + t;
    MarkLinksUnfold(u + t);
    MarkLinksUnfold(u);
    MarkedLinkPrefix(u, t, m);
  }

  lemma MarkLinkPipesPlainStep(u: string, t: string)
    requires EndsLine(u) && LinkAt(u).None? && LinkAt(u + t).None?
    ensures u[1..] == [] || EndsLine(u[1..])
    ensures MarkLinkPipes(u + t) == [u[0]] + MarkLinkPipes(u[1..] + t)
    ensures MarkLinkPipes(u) == [u[0]] + MarkLinkPipes(u[1..])
  {
    assert (u + t)[1..] == u[1..] + t;
    MarkLinksPlain(u + t, u[1..] + t);
    MarkLinksPlain(u, u[1..]);
  }

  /** Text ending a line is marked into text ending with the same line terminator. */
  lemma {:induction false} MarkLinkPipesEndsLine(u: string)
    requires EndsLine(u)
    ensures EndsLine(MarkLinkPipes(u))
    ensures MarkLinkPipes(u)[|MarkLinkPipes(u)| - 1] == u[|u| - 1]
    decreases |u|
  {
    var head, w := MarkLinkPipesLineStep(u, []);
    if w == [] {
      MarkLinkPipesNothing();
      EmptyAfter(u);
    } else {
      MarkLinkPipesEndsLine(w);
      LastOfConcat(head, MarkLinkPipes(w));
    }
  }

  /**
   * The three chained rewrites never look past the end of a line: text that ends a line is
   * rewritten the same way whatever follows it.
   */
  lemma ProtectPipesLineSplit(u: string, t: string)
    requires u == [] || EndsLine(u)
    ensures ProtectPipes(u + t) == ProtectPipes(u) + ProtectPipes(t)
  {
    var mu, mt := MarkLinkPipes(u), MarkLinkPipes(t);
    MarkLinkPipesLineSplit(u, t);
    DeletePipes(mu + mt);
    DeletePipes(mu);
    DeletePipes(mt);
    WithoutConcat(mu, mt, '|');
    UnpipedMarkEnd(u);
    ReplaceSplit(Without(mu, '|'), Without(mt, '|'), "!!!!", "|");
  }

  /** After the pipes are deleted, marked text ending a line still ends with no `!`. */
  lemma UnpipedMarkEnd(u: string)
    requires u == [] || EndsLine(u)
    ensures var du := Without(MarkLinkPipes(u), '|'); du == [] || du[|du| - 1] !in "!!!!"
  {
    var mu := MarkLinkPipes(u);
    var du := Without(mu, '|');
    if u != [] {
      MarkLinkPipesEndsLine(u);
      WithoutLast(mu, '|');
      MarkerCharsOnly(du[|du| - 1]);
    } else {
      MarkLinkPipesNothing();
    }
  }

  /** Without a `|`, no link is matched, plain links `[[x]]` included. */
  lemma {:induction false} MarkNoPipe(s: string)
    requires '|' !in s
    ensures MarkLinkPipes(s) == s
    decreases |s|
  {
    if s != [] {
      assert LinkAt(s).None?;
      MarkLinksPlain(s, s[1..]);
      MarkNoPipe(s[1..]);
      assert [s[0]] + s[1..] == s;
    }
  }

  /** Text with no `|` and no `!` passes the three pipe rewrites unchanged. */
  lemma ProtectPipesNoPipe(s: string)
    requires '|' !in s && '!' !in s
    ensures ProtectPipes(s) == s
  {
    MarkNoPipe(s);
    DeletePipes(s);
    WithoutAbsent(s, '|');
    ReplaceMarkerPrefixUntouched(s, []);
    MarkLinkPipesNothing();
    EmptyAfter(s);
  }

  /** Text with no `[` holds no link, so each of its `|` is deleted and nothing else changes. */
  lemma ProtectPipesNoBracket(s: string)
    requires '[' !in s && '!' !in s
    ensures ProtectPipes(s) == Without(s, '|')
  {
    var d := Without(s, '|');
    MarkLinkPipesPlain(s);
    DeletePipes(s);
    WithoutKeeps(s, '|', '!');
    ReplaceMarkerPrefixUntouched(d, []);
    MarkLinkPipesNothing();
    EmptyAfter(d);
  }

  /** A wiki link with a label: `[[a|b]]`. */
  function LinkText(a: string, b: string): string {
    "[[" + a + "|" + b + "]]"
  }

  /** The same link with its `|` replaced by the marker: `[[a!!!!b]]`. */
  function MarkedLinkText(a: string, b: string): string {
    "[[" + a + "!!!!" + b + "]]"
  }

  /** The characters of a wiki link, position by position. */
  lemma LinkTextChars(a: string, b: string, v: string)
    ensures LinkCharsAt(LinkText(a, b) + v, a, b)
    ensures (LinkText(a, b) + v)[5 + |a| + |b|..] == v
  {
    var s := LinkText(a, b) + v;
    var p := 2 + |a|;
    var tail := b + "]]" + v;
    assert s == "[[" + a + ("|" + tail);
    assert s[p + 1..] == tail;
    assert forall j :: 0 <= j < |b| ==> s[3 + |a| + j] == tail[j];
  }

  /** The characters of a wiki link as facts about `s`. */
  predicate LinkCharsAt(s: string, a: string, b: string) {
    && |s| >= 5 + |a| + |b|
    && s[0] == '[' && s[1] == '['
    && (forall j :: 0 <= j < |a| ==> s[2 + j] == a[j])
    && s[2 + |a|] == '|'
    && (forall j :: 0 <= j < |b| ==> s[3 + |a| + j] == b[j])
    && s[3 + |a| + |b|] == ']' && s[4 + |a| + |b|] == ']'
  }

  /** The whole link lies on the line that starts at index 2. */
  lemma LinkOnOneLine(s: string, a: string, b: string)
    requires SingleLine(a) && SingleLine(b) && LinkCharsAt(s, a, b)
    ensures 5 + |a| + |b| <= LineEnd(s, 2)
  {
    var p := 2 + |a|;
    var q := p + 1 + |b|;
    forall j | 2 <= j < q + 2
      ensures !IsLineTerminator(s[j])
    {
      if j < p {
        assert s[2 + (j - 2)] == a[j - 2];
      } else if p < j < q {
        assert s[3 + |a| + (j - p - 1)] == b[j - p - 1];
      }
    }
  }

  /** The first `]]` after the link's `|` is the one that closes it. */
  lemma LinkCloseFound(s: string, a: string, b: string)
    requires b != [] && ']' !in b && LinkCharsAt(s, a, b)
    ensures FindFrom(s, "]]", 4 + |a|) == Some(3 + |a| + |b|)
  {
    var p := 2 + |a|;
    var q := p + 1 + |b|;
    assert OccursAt(s, "]]", q) by {
      assert s[q..q + 2] == [s[q], s[q + 1]];
    }
    forall j | p + 2 <= j < q
      ensures !OccursAt(s, "]]", j)
    {
      OccursAtChar(s, "]]", j, 0);
      assert s[3 + |a| + (j - p - 1)] == b[j - p - 1];
    }
    FindFromIs(s, "]]", p + 2, q);
  }

  /** From the characters of a wiki link, the scanner finds the link as one match. */
  lemma LinkMatchFound(s: string, a: string, b: string)
    requires a != [] && b != [] && SingleLine(a) && SingleLine(b)
    requires '|' !in a && ']' !in b
    requires LinkCharsAt(s, a, b)
    ensures LinkAt(s) == Some(LinkMatch(2 + |a|, 3 + |a| + |b|))
  {
    var p := 2 + |a|;
    var q := p + 1 + |b|;
    assert StartsWith(s, "[[") by {
      assert s[..2] == [s[0], s[1]];
    }
    var le := LineEnd(s, 2);
    LinkOnOneLine(s, a, b);
    LinkCloseFound(s, a, b);
    assert LinkFrom(s, p, le) == Some(LinkMatch(p, q));
    forall j | 3 <= j < p
      ensures s[j] != '|'
    {
      assert s[2 + (j - 2)] == a[j - 2];
    }
    LinkFromSkips(s, 3, p, le);
  }

  lemma LinkSlices(s: string, a: string, b: string)
    requires LinkCharsAt(s, a, b)
    ensures s[2..2 + |a|] == a && s[3 + |a|..3 + |a| + |b|] == b
  {
    var x, y := s[2..2 + |a|], s[3 + |a|..3 + |a| + |b|];
    assert forall j :: 0 <= j < |a| ==> x[j] == a[j];
    assert forall j :: 0 <= j < |b| ==> y[j] == b[j];
  }

  /** A well-formed link `[[a|b]]` on one line is recognised as a whole, with its `|` marked. */
  lemma LinkRecognised(a: string, b: string, v: string)
    requires a != [] && b != [] && SingleLine(a) && SingleLine(b)
    requires '|' !in a && ']' !in b
    ensures MarkLinkPipes(LinkText(a, b) + v) == MarkedLinkText(a, b) + MarkLinkPipes(v)
  {
    var s := LinkText(a, b) + v;
    LinkTextChars(a, b, v);
    LinkMatchFound(s, a, b);
    LinkSlices(s, a, b);
    var m := LinkMatch(2 + |a|, 3 + |a| + |b|);
    assert MarkedLink(s, m) == MarkedLinkText(a, b);
    assert MarkLinkPipes(s) == MarkedLink(s, m) + MarkLinkPipes(s[5 + |a| + |b|..]);
  }

  /** The lazy first group skips every position before the first `|`. */
  lemma {:induction false} LinkFromSkips(s: string, from: nat, pipe: nat, lineEnd: nat)
    requires 3 <= from <= pipe < lineEnd <= |s|
    requires forall j :: from <= j < pipe ==> s[j] != '|'
    ensures LinkFrom(s, from, lineEnd) == LinkFrom(s, pipe, lineEnd)
    decreases pipe - from
  {
    if from < pipe {
      LinkFromSkips(s, from + 1, pipe, lineEnd);
    }
  }

  lemma {:induction false} ReplaceMarkerPrefixUntouched(u: string, t: string)
    requires '!' !in u
    ensures Replace(u + t, "!!!!", "|") == u + Replace(t, "!!!!", "|")
  {
    ReplacePrefixUntouched(u, t, "!!!!", "|");
  }

  lemma {:induction false} DeletePipes(s: string)
    ensures Replace(s, "|", "") == Without(s, '|')
  {
    ReplaceByNothing(s, '|');
  }

  /** Between text without `[`, the link is the only place where a `|` gets marked. */
  lemma MarkLinkPipesPlain(v: string)
    requires '[' !in v
    ensures MarkLinkPipes(v) == v
  {
    MarkPrefixUntouched(v, []);
    assert v + [] == v;
  }

  /** Between text without `[`, the link is the only place where a `|` gets marked. */
  lemma MarkOneLink(u: string, a: string, b: string, v: string)
    requires a != [] && b != [] && SingleLine(a) && SingleLine(b)
    requires '|' !in a && ']' !in b
    requires '[' !in u && '[' !in v
    ensures MarkLinkPipes(u + LinkText(a, b) + v) == u + MarkedLinkText(a, b) + v
  {
    var l, ml := LinkText(a, b), MarkedLinkText(a, b);
    LinkRecognised(a, b, v);
    MarkLinkPipesPlain(v);
    MarkPrefixUntouched(u, l + v);
    Regroup(u, l, v);
    Regroup(u, ml, v);
  }

  /** Deleting every `|` leaves the marked link whole. */
  lemma DeletePipesAroundLink(u: string, a: string, b: string, v: string)
    requires '|' !in a && '|' !in b
    ensures Replace(u + MarkedLinkText(a, b) + v, "|", "")
         == Without(u, '|') + MarkedLinkText(a, b) + Without(v, '|')
  {
    var marked := MarkedLinkText(a, b);
    DeletePipes(u + marked + v);
    assert u + marked + v == u + (marked + v);
    WithoutConcat(u, marked + v, '|');
    WithoutConcat(marked, v, '|');
    WithoutAbsent(marked, '|');
  }

  lemma LinkTextSplit(w: string, a: string, b: string, w': string)
    ensures w + LinkText(a, b) + w' == (w + "[[" + a) + ("|" + (b + "]]" + w'))
    ensures w + MarkedLinkText(a, b) + w' == (w + "[[" + a) + ("!!!!" + (b + "]]" + w'))
  {
    calc {
      w + LinkText(a, b) + w';
    ==
      w + (("[[" + a) + ("|" + (b + "]]"))) + w';
    ==
      (w + "[[" + a) + ("|" + (b + "]]")) + w';
    }
    calc {
      w + MarkedLinkText(a, b) + w';
    ==
      w + (("[[" + a) + ("!!!!" + (b + "]]"))) + w';
    ==
      (w + "[[" + a) + ("!!!!" + (b + "]]")) + w';
    }
  }

  lemma ReplaceMarkerHead(t: string)
    ensures Replace("!!!!" + t, "!!!!", "|") == "|" + Replace(t, "!!!!", "|")
  {
    assert StartsWith("!!!!" + t, "!!!!");
    assert ("!!!!" + t)[4..] == t;
  }

  /** Turning the marker back into `|` restores the link, and nothing else changes. */
  lemma MarkerRestored(w: string, a: string, b: string, w': string)
    requires '!' !in w && '!' !in a && '!' !in b && '!' !in w'
    ensures Replace(w + MarkedLinkText(a, b) + w', "!!!!", "|") == w + LinkText(a, b) + w'
  {
    var tail := b + "]]" + w';
    LinkTextSplit(w, a, b, w');
    ReplaceMarkerPrefixUntouched(w + "[[" + a, "!!!!" + tail);
    ReplaceMarkerHead(tail);
    ReplaceMarkerPrefixUntouched(tail, []);
    assert tail + [] == tail;
  }

  /**
   * Pipes outside wiki links are deleted and the pipe of a link survives:
   * `u[[a|b]]v` becomes `u'[[a|b]]v'` where `u'` and `v'` lose their `|`.
   */
  lemma PipesOutsideLinksDeleted(u: string, a: string, b: string, v: string)
    requires a != [] && b != [] && SingleLine(a) && SingleLine(b)
    requires '|' !in a && ']' !in b && '|' !in b
    requires '[' !in u && '[' !in v
    requires '!' !in u && '!' !in a && '!' !in b && '!' !in v
    ensures ProtectPipes(u + LinkText(a, b) + v) == Without(u, '|') + LinkText(a, b) + Without(v, '|')
  {
    MarkOneLink(u, a, b, v);
    DeletePipesAroundLink(u, a, b, v);
    WithoutKeeps(u, '|', '!');
    WithoutKeeps(v, '|', '!');
    MarkerRestored(Without(u, '|'), a, b, Without(v, '|'));
  }

  /**
   * The link at the front of what is left is kept whole, whatever follows it: the text
   * before it only loses its `|`, and the rest is rewritten on its own. Applied again to
   * the rest, this covers text with any number of links.
   */
  lemma ProtectPipesLink(u: string, a: string, b: string, v: string)
    requires a != [] && b != [] && SingleLine(a) && SingleLine(b)
    requires '|' !in a && ']' !in b && '|' !in b
    requires '[' !in u
    requires '!' !in u && '!' !in a && '!' !in b
    ensures ProtectPipes(u + LinkText(a, b) + v) == Without(u, '|') + LinkText(a, b) + ProtectPipes(v)
  {
    var l, ml := LinkText(a, b), MarkedLinkText(a, b);
    var mv := MarkLinkPipes(v);
    LinkRecognised(a, b, v);
    MarkPrefixUntouched(u, l + v);
    Regroup(u, l, v);
    Regroup(u, ml, mv);
    assert MarkLinkPipes(u + l + v) == u + ml + mv;
    DeletePipesAroundLink(u, a, b, mv);
    WithoutKeeps(u, '|', '!');
    MarkerRestoredBefore(Without(u, '|'), a, b, Without(mv, '|'));
    DeletePipes(mv);
  }

  /** Turning the marker of a link back into `|` restores it; what follows is rewritten on its own. */
  lemma MarkerRestoredBefore(w: string, a: string, b: string, z: string)
    requires '!' !in w && '!' !in a && '!' !in b
    ensures Replace(w + MarkedLinkText(a, b) + z, "!!!!", "|") == w + LinkText(a, b) + Replace(z, "!!!!", "|")
  {
    var tail := b + "]]" + z;
    LinkTextSplit(w, a, b, z);
    LinkTextSplit(w, a, b, Replace(z, "!!!!", "|"));
    ReplaceMarkerPrefixUntouched(w + "[[" + a, "!!!!" + tail);
    ReplaceMarkerHead(tail);
    assert '!' !in b + "]]";
    ReplaceMarkerPrefixUntouched(b + "]]", z);
  }

  lemma {:induction false} WithoutKeeps(s: string, c: char, d: char)
    requires d !in s
    ensures d !in Without(s, c)
    decreases |s|
  {
    if s != [] {
      WithoutKeeps(s[1..], c, d);
    }
  }

  /**
   * A stray `|` between a plain link and a labelled one is taken as the separator: the lazy
   * first group runs from the plain link's name over its `]]` to the stray `|`, so that `|`
   * is kept and the labelled link's own `|` is deleted.
   */
  lemma StrayPipeTakenAsSeparator(a: string, b: string, c: string, v: string)
    requires a != [] && SingleLine(a) && SingleLine(b) && SingleLine(c)
    requires '|' !in a && '|' !in b && '|' !in c
    requires ']' !in b && ']' !in c
    requires '!' !in a && '!' !in b && '!' !in c
    ensures ProtectPipes("[[" + a + "]] | " + LinkText(b, c) + v)
         == "[[" + a + "]] | [[" + b + c + "]]" + ProtectPipes(v)
  {
    StraySeparatorTexts(a, b, c, v);
    StraySeparatorLine(a, b, c);
    LabelPipeDeleted(a + "]] ", " [[" + b, c, v);
  }

  /**
   * A `|` inside the label of a link, after the separator, is deleted like any pipe outside
   * a link; the separator is kept.
   */
  lemma LabelPipeDeleted(a: string, b: string, c: string, v: string)
    requires a != [] && SingleLine(a) && SingleLine(b + "|" + c)
    requires '|' !in a && '|' !in b && '|' !in c && ']' !in b && ']' !in c
    requires '!' !in a && '!' !in b && '!' !in c
    ensures ProtectPipes(LinkText(a, b + "|" + c) + v) == LinkText(a, b + c) + ProtectPipes(v)
  {
    var s := LinkText(a, b + "|" + c) + v;
    var ml, mv := MarkedLinkText(a, b + "|" + c), MarkLinkPipes(v);
    assert ']' !in b + "|" + c;
    LinkRecognised(a, b + "|" + c, v);
    DeletePipes(ml + mv);
    WithoutConcat(ml, mv, '|');
    LabelPipeUnmarked(a, b, c);
    var m', w := MarkedLinkText(a, b + c), Without(mv, '|');
    assert Replace(MarkLinkPipes(s), "|", "") == m' + w;
    assert '!' !in b + c;
    MarkerRestoredBefore([], a, b + c, w);
    EmptyThen(m', w);
    DeletePipes(mv);
    var r := Replace(w, "!!!!", "|");
    EmptyThen(LinkText(a, b + c), r);
    assert ProtectPipes(v) == r;
  }

  lemma MarkerCharsOnly(c: char)
    requires c != '!'
    ensures c !in "!!!!"
  {
  }

  lemma EmptyAfter<T>(x: seq<T>)
    ensures x + [] == x
  {
  }

  lemma LastOfConcat<T>(x: seq<T>, y: seq<T>)
    requires y != []
    ensures x + y != [] && (x + y)[|x + y| - 1] == y[|y| - 1]
  {
  }

  lemma EmptyThen<T>(x: seq<T>, y: seq<T>)
    ensures [] + x + y == x + y
  {
  }

  lemma SingleLineConcat(x: string, y: string)
    requires SingleLine(x) && SingleLine(y)
    ensures SingleLine(x + y)
  {
  }

  /** The texts of a stray separator, regrouped as one link around the stray `|`. */
  lemma StraySeparatorTexts(a: string, b: string, c: string, v: string)
    ensures "[[" + a + "]] | " + LinkText(b, c) + v == LinkText(a + "]] ", " [[" + b + "|" + c) + v
    ensures "[[" + a + "]] | [[" + b + c + "]]" == LinkText(a + "]] ", " [[" + b + c)
  {
  }

  /** The regrouped link around a stray `|` still meets the link scanner's conditions. */
  lemma StraySeparatorLine(a: string, b: string, c: string)
    requires a != [] && SingleLine(a) && SingleLine(b) && SingleLine(c)
    requires '|' !in a && '!' !in a && '!' !in b && '!' !in c
    requires ']' !in b && ']' !in c
    ensures SingleLine(a + "]] ") && SingleLine(" [[" + b + "|" + c)
    ensures '|' !in a + "]] " && '!' !in a + "]] " && '!' !in " [[" + b && ']' !in " [[" + b
  {
    SingleLineConcat(a, "]] ");
    SingleLineConcat(" [[", b);
    SingleLineConcat(" [[" + b, "|");
    SingleLineConcat(" [[" + b + "|", c);
  }

  /** Deleting the `|` inside a marked label. */
  lemma LabelPipeUnmarked(a: string, b: string, c: string)
    requires '|' !in a && '|' !in b && '|' !in c
    ensures Without(MarkedLinkText(a, b + "|" + c), '|') == MarkedLinkText(a, b + c)
  {
    var x := "[[" + a + "!!!!" + b;
    var y := c + "]]";
    assert MarkedLinkText(a, b + "|" + c) == x + ("|" + y);
    assert MarkedLinkText(a, b + c) == x + y;
    WithoutConcat(x, "|" + y, '|');
    WithoutConcat("|", y, '|');
    WithoutAbsent(x, '|');
    WithoutAbsent(y, '|');
  }

  lemma StrayPipeExample(s: string)
    requires s == "[[a]] | [[b|c]]"
    ensures ProtectPipes(s) == "[[a]] | [[bc]]"
  {
    assert SingleLine("a") && SingleLine("b") && SingleLine("c");
    StrayPipeTakenAsSeparator("a", "b", "c", []);
    StrayExampleTexts();
    MarkLinkPipesNothing();
  }

  lemma StrayExampleTexts()
    ensures "[[" + "a" + "]] | " + LinkText("b", "c") + [] == "[[a]] | [[b|c]]"
    ensures "[[" + "a" + "]] | [[" + "b" + "c" + "]]" + [] == "[[a]] | [[bc]]"
  {
    assert "[[" + "a" + "]] | " == "[[a]] | ";
    assert LinkText("b", "c") == "[[b|c]]";
    assert "[[a]] | " + "[[b|c]]" == "[[a]] | [[b|c]]";
    assert "[[" + "a" + "]] | [[" == "[[a]] | [[";
    assert "[[a]] | [[" + "b" + "c" == "[[a]] | [[bc";
    assert "[[a]] | [[bc" + "]]" == "[[a]] | [[bc]]";
  }

  lemma MarkLinkPipesNothing()
    ensures MarkLinkPipes([]) == [] && Replace([], "|", "") == [] && Replace([], "!!!!", "|") == []
  {
  }

  /** The marker is not escaped: text that already holds `!!!!` comes out with a `|` instead. */
  lemma MarkerInTextBecomesPipe()
    ensures ProtectPipes("a!!!!b") == "a|b"
  {
    var s := "a!!!!b";
    MarkPrefixUntouched(s, []);
    assert s + [] == s;
    DeletePipes(s);
    WithoutAbsent(s, '|');
    assert Replace(s, "!!!!", "|") == "a" + Replace("!!!!b", "!!!!", "|") by {
      ReplaceMarkerPrefixUntouched("a", "!!!!b");
    }
    assert StartsWith("!!!!b", "!!!!");
    assert Replace("!!!!b", "!!!!", "|") == "|" + Replace("b", "!!!!", "|");
  }

  // ---------------------------------------------------------------------------
  // Step 5: `\[\[Category:.+]]` replaced by nothing
  // ---------------------------------------------------------------------------

  /** The end of a category match at index 0: the greedy `.+` reaches the last `]]` of the line. */
  function CategoryEnd(s: string): (e: Option<nat>)
    ensures e.Some? ==> 14 <= e.value <= |s|
  {
    if !StartsWith(s, "[[Category:") then None
    else match FindLast(s, "]]", 12, LineEnd(s, 11))
      case Some(q) => Some(q + 2)
      case None => None
  }

  function StripCategories(s: string): string
    decreases |s|
  {
    if s == [] then []
    else match CategoryEnd(s)
      case Some(e) =>
        StripCategories(s[e..])
      case None =>
        [s[0]] + StripCategories(s[1..])
  }

  /** No category link starts at an index of `u` in `u + t`. */
  predicate NoCategoryIn(u: string, t: string) {
    forall i :: 0 <= i < |u| ==> !OccursAt(u + t, "[[Category:", i)
  }

  /** Text without `[` starts no category link, whatever follows it. */
  lemma NoBracketNoCategory(u: string, t: string)
    requires '[' !in u
    ensures NoCategoryIn(u, t)
  {
    forall i | 0 <= i < |u|
      ensures !OccursAt(u + t, "[[Category:", i)
    {
      assert (u + t)[i] == u[i];
      OccursAtHead(u + t, "[[Category:", i);
    }
  }

  /** Where no category link starts, the character is kept. */
  lemma CategoryStepPlain(s: string)
    requires s != [] && !StartsWith(s, "[[Category:")
    ensures StripCategories(s) == [s[0]] + StripCategories(s[1..])
  {
  }

  /** Dropping the first character moves every occurrence one place to the left. */
  lemma OccursAtTail(s: string, p: string, i: nat)
    requires s != []
    ensures OccursAt(s[1..], p, i) == OccursAt(s, p, i + 1)
  {
    if i + 1 + |p| <= |s| {
      assert s[1..][i..i + |p|] == s[i + 1..i + 1 + |p|];
    }
  }

  /** Text in which no category link starts passes through the category step unchanged. */
  lemma {:induction false} CategoryPrefixUntouched(u: string, t: string)
    requires NoCategoryIn(u, t)
    ensures StripCategories(u + t) == u + StripCategories(t)
    decreases |u|
  {
    if u == [] {
      assert u + t == t;
    } else {
      var s := u + t;
      assert s[1..] == u[1..] + t;
      assert !OccursAt(s, "[[Category:", 0);
      CategoryStepPlain(s);
      forall i | 0 <= i < |u[1..]|
        ensures !OccursAt(u[1..] + t, "[[Category:", i)
      {
        OccursAtTail(s, "[[Category:", i);
      }
      CategoryPrefixUntouched(u[1..], t);
      Regroup([u[0]], u[1..], StripCategories(t));
      assert [u[0]] + u[1..] == u;
    }
  }

  /** A category link: `[[Category:x]]`. */
  function CategoryText(x: string): string {
    "[[Category:" + x + "]]"
  }

  lemma CategoryTextChars(x: string, v: string)
    ensures var t := CategoryText(x) + v;
      && |t| == 13 + |x| + |v|
      && t[..11] == "[[Category:"
      && (forall j :: 0 <= j < |x| ==> t[11 + j] == x[j])
      && t[11 + |x|] == ']' && t[12 + |x|] == ']'
      && t[13 + |x|..] == v
  {
    var t := CategoryText(x) + v;
    assert t == "[[Category:" + (x + "]]" + v);
    assert t[11..] == x + "]]" + v;
  }

  /** From the characters of a category link that ends its line, the scanner matches the whole link. */
  lemma CategoryMatchFound(t: string, x: string)
    requires x != [] && SingleLine(x) && |t| >= 13 + |x|
    requires t[..11] == "[[Category:"
    requires forall j :: 0 <= j < |x| ==> t[11 + j] == x[j]
    requires t[11 + |x|] == ']' && t[12 + |x|] == ']'
    requires 13 + |x| < |t| ==> IsLineTerminator(t[13 + |x|])
    ensures CategoryEnd(t) == Some(13 + |x|)
  {
    var q := 11 + |x|;
    forall j | 11 <= j < q + 2
      ensures !IsLineTerminator(t[j])
    {
      if j < q {
        assert t[11 + (j - 11)] == x[j - 11];
      }
    }
    LineEndIs(t, 11, q + 2);
    assert OccursAt(t, "]]", q) by {
      assert t[q..q + 2] == [t[q], t[q + 1]];
    }
    FindLastIs(t, "]]", 12, q + 2, q);
  }

  /**
   * A category link is removed up to the last `]]` of its line, even when its name itself
   * holds a `]]`; the line break after it stays.
   */
  lemma CategoryLinkRemoved(u: string, x: string, v: string)
    requires NoCategoryIn(u, CategoryText(x) + v) && x != [] && SingleLine(x)
    requires v == [] || IsLineTerminator(v[0])
    ensures StripCategories(u + CategoryText(x) + v) == u + StripCategories(v)
  {
    var t := CategoryText(x) + v;
    CategoryLinkAlone(x, v);
    CategoryPrefixUntouched(u, t);
    assert u + CategoryText(x) + v == u + t;
  }

  /** A category link at the start of a line is removed up to the line break after it. */
  lemma CategoryLinkAlone(x: string, v: string)
    requires x != [] && SingleLine(x)
    requires v == [] || IsLineTerminator(v[0])
    ensures StripCategories(CategoryText(x) + v) == StripCategories(v)
  {
    var t := CategoryText(x) + v;
    CategoryTextChars(x, v);
    assert 13 + |x| < |t| ==> t[13 + |x|] == v[0] by {
      if 13 + |x| < |t| {
        assert t[13 + |x|..][0] == t[13 + |x|];
      }
    }
    CategoryMatchFound(t, x);
  }

  /** A category match that starts in text ending a line is found in that line alone. */
  lemma CategoryEndPrefix(u: string, t: string)
    requires EndsLine(u)
    ensures CategoryEnd(u + t) == CategoryEnd(u)
    ensures CategoryEnd(u).Some? ==> CategoryEnd(u).value < |u|
  {
    var s := u + t;
    var p := "[[Category:";
    assert StartsWith(s, p) == StartsWith(u, p) by {
      if |u| >= |p| {
        OccursAtPrefix(u, t, p, 0);
      } else {
        assert s[|u| - 1] == u[|u| - 1];
        OccursAtChar(s, p, 0, |u| - 1);
      }
    }
    if StartsWith(u, p) {
      OccursAtChar(u, p, 0, 10);
      LineEndPrefix(u, t, 11);
      FindLastPrefix(u, t, "]]", 12, LineEnd(u, 11));
    }
  }

  lemma StripCategoriesAtMatch(s: string)
    requires CategoryEnd(s).Some?
    ensures StripCategories(s) == StripCategories(s[CategoryEnd(s).value..])
  {
  }

  /**
   * The category step never looks past the end of a line: text that ends a line is
   * rewritten the same way whatever follows it.
   */
  lemma {:induction false} StripCategoriesLineSplit(u: string, t: string)
    requires u == [] || EndsLine(u)
    ensures StripCategories(u + t) == StripCategories(u) + StripCategories(t)
    decreases |u|
  {
    if u == [] {
      assert u + t == t;
    } else {
      var head, w := StripCategoriesLineStep(u, t);
      StripCategoriesLineSplit(w, t);
      Regroup(head, StripCategories(w), StripCategories(t));
    }
  }

  /** One step of the category step on text ending a line, the same whatever follows it. */
  lemma StripCategoriesLineStep(u: string, t: string) returns (head: string, w: string)
    requires EndsLine(u)
    ensures |w| < |u| && (w == [] || EndsLine(w))
    ensures StripCategories(u + t) == head + StripCategories(w + t)
    ensures StripCategories(u) == head + StripCategories(w)
  {
    CategoryEndPrefix(u, t);
    match CategoryEnd(u)
    case Some(e) =>
      head, w := [], u[e..];
      SuffixLast(u, e);
      assert (u + t)[e..] == w + t;
      StripCategoriesAtMatch(u + t);
      StripCategoriesAtMatch(u);
    case None =>
      head, w := [u[0]], u[1..];
      SuffixLast(u, 1);
      assert (u + t)[1..] == w + t;
      CategoryNoMatch(u + t, w + t);
      CategoryNoMatch(u, w);
  }

  lemma CategoryNoMatch(s: string, rest: string)
    requires s != [] && CategoryEnd(s).None? && rest == s[1..]
    ensures StripCategories(s) == [s[0]] + StripCategories(rest)
  {
  }

  /**
   * A line holding only a category link, after text that ends a line, is removed up to
   * its line break; the lines before it and after it are rewritten on their own.
   */
  lemma CategoryLineRemoved(u: string, x: string, v: string)
    requires u == [] || EndsLine(u)
    requires x != [] && SingleLine(x)
    requires v == [] || IsLineTerminator(v[0])
    ensures StripCategories(u + CategoryText(x) + v) == StripCategories(u) + StripCategories(v)
  {
    var c := CategoryText(x);
    StripCategoriesLineSplit(u, c + v);
    CategoryLinkAlone(x, v);
    Regroup(u, c, v);
  }

  // ---------------------------------------------------------------------------
  // Step 6: `\n{2,}` replaced by two newlines
  // ---------------------------------------------------------------------------

  /** No run of three newlines. */
  predicate NoTripleNewline(s: string) {
    forall i :: 0 <= i < |s| - 2 ==> !(s[i] == '\n' && s[i + 1] == '\n' && s[i + 2] == '\n')
  }

  function CapNewlines(s: string): (r: string)
    ensures |r| > 0 <==> |s| > 0
    ensures |r| > 0 ==> r[0] == s[0]
    decreases |s|
  {
    if s == [] then []
    else if s[0] == '\n' && LeadingRun(s, '\n') >= 2 then
      var rest := CapNewlines(s[LeadingRun(s, '\n')..]);
      assert rest == [] || rest[0] != '\n';
      "\n\n" + rest
    else
      var rest := CapNewlines(s[1..]);
      assert s[0] == '\n' ==> rest == [] || rest[0] != '\n';
      [s[0]] + rest
  }

  /** One character put in front keeps the text free of three newlines in a row, unless it makes such a run. */
  lemma NoTripleCons(c: char, rest: string)
    requires NoTripleNewline(rest)
    requires !(c == '\n' && |rest| >= 2 && rest[0] == '\n' && rest[1] == '\n')
    ensures NoTripleNewline([c] + rest)
  {
    var t := [c] + rest;
    forall i | 0 <= i < |t| - 2
      ensures !(t[i] == '\n' && t[i + 1] == '\n' && t[i + 2] == '\n')
    {
      if i > 0 {
        assert t[i] == rest[i - 1] && t[i + 1] == rest[i] && t[i + 2] == rest[i + 1];
      } else {
        assert t[1] == rest[0] && t[2] == rest[1];
      }
    }
  }

  /** The cap leaves no run of three newlines. */
  lemma {:induction false} CapNewlinesNoTriple(s: string)
    ensures NoTripleNewline(CapNewlines(s))
    decreases |s|
  {
    if s != [] {
      var n := LeadingRun(s, '\n');
      if s[0] == '\n' && n >= 2 {
        var rest := CapNewlines(s[n..]);
        CapNewlinesNoTriple(s[n..]);
        NoTripleCons('\n', rest);
        NoTripleCons('\n', ['\n'] + rest);
        assert "\n\n" + rest == ['\n'] + (['\n'] + rest);
      } else {
        var rest := CapNewlines(s[1..]);
        CapNewlinesNoTriple(s[1..]);
        NoTripleCons(s[0], rest);
      }
    }
  }

  /**
   * A run of two or more newlines between two texts that do not touch it with a newline of
   * their own becomes exactly two newlines; the texts on either side are capped on their own.
   */
  lemma CapNewlinesRun(u: string, k: nat, v: string)
    requires k >= 2
    requires u == [] || u[|u| - 1] != '\n'
    requires v == [] || v[0] != '\n'
    ensures CapNewlines(u + Repeat('\n', k) + v) == CapNewlines(u) + "\n\n" + CapNewlines(v)
  {
    var w := Repeat('\n', k) + v;
    assert u + Repeat('\n', k) + v == u + w;
    CapNewlinesSplit(u, w);
    CapLoneRun(k, v);
    Regroup(CapNewlines(u), "\n\n", CapNewlines(v));
  }

  /** A run of two or more newlines that starts the text becomes two newlines. */
  lemma CapLoneRun(k: nat, v: string)
    requires k >= 2
    requires v == [] || v[0] != '\n'
    ensures CapNewlines(Repeat('\n', k) + v) == "\n\n" + CapNewlines(v)
  {
    var w := Repeat('\n', k) + v;
    RunEndIs(w, '\n', 0, k);
    assert w[0] == '\n' && w[k..] == v;
  }

  /** Text that does not end with a newline is capped independently of what follows it. */
  lemma {:induction false} CapNewlinesSplit(u: string, w: string)
    requires u == [] || u[|u| - 1] != '\n'
    ensures CapNewlines(u + w) == CapNewlines(u) + CapNewlines(w)
    decreases |u|
  {
    if u == [] {
      assert u + w == w;
    } else {
      var n, head := CapFirstStep(u, w);
      CapNewlinesSplit(u[n..], w);
      Regroup(head, CapNewlines(u[n..]), CapNewlines(w));
    }
  }

  /**
   * The first step of capping text that does not end with a newline: it emits `head` and
   * skips the first `n` characters, whatever follows them.
   */
  lemma CapFirstStep(u: string, w: string) returns (n: nat, head: string)
    requires u != [] && u[|u| - 1] != '\n'
    ensures 1 <= n <= |u| && (n < |u| || n == 1)
    ensures (u + w)[n..] == u[n..] + w
    ensures CapNewlines(u) == head + CapNewlines(u[n..])
    ensures CapNewlines(u + w) == head + CapNewlines(u[n..] + w)
  {
    var s := u + w;
    var m := LeadingRun(u, '\n');
    if u[0] == '\n' {
      assert m < |u|;
      RunEndIs(s, '\n', 0, m);
    }
    if u[0] == '\n' && m >= 2 {
      n, head := m, "\n\n";
    } else {
      n, head := 1, [u[0]];
    }
    assert s[n..] == u[n..] + w;
  }

  /** Capping only removes newlines: every other character survives, in order. */
  lemma {:induction false} CapNewlinesKeepsText(s: string)
    ensures Without(CapNewlines(s), '\n') == Without(s, '\n')
    decreases |s|
  {
    if s != [] {
      var n := LeadingRun(s, '\n');
      if s[0] == '\n' && n >= 2 {
        var rest := CapNewlines(s[n..]);
        CapNewlinesKeepsText(s[n..]);
        WithoutLeadingRun(s, '\n', n);
        WithoutConcat("\n\n", rest, '\n');
        assert Without("\n\n", '\n') == [];
      } else {
        var rest := CapNewlines(s[1..]);
        CapNewlinesKeepsText(s[1..]);
        WithoutConcat([s[0]], rest, '\n');
        WithoutConcat([s[0]], s[1..], '\n');
        assert s == [s[0]] + s[1..];
      }
    }
  }

  lemma NoTripleNewlineSuffix(s: string, k: nat)
    requires NoTripleNewline(s) && k <= |s|
    ensures NoTripleNewline(s[k..])
  {
    assert forall i :: 0 <= i < |s| - k ==> s[k..][i] == s[k + i];
  }

  /** A run of exactly two newlines in front of capped text is kept as it is. */
  lemma CapPairKept(s: string)
    requires |s| >= 2 && s[0] == '\n' && s[1] == '\n' && (|s| > 2 ==> s[2] != '\n')
    requires CapNewlines(s[2..]) == s[2..]
    ensures CapNewlines(s) == s
  {
    RunEndIs(s, '\n', 0, 2);
    assert s == "\n\n" + s[2..];
  }

  /** A character that does not start a run of two newlines is kept in front of capped text. */
  lemma CapOneKept(s: string)
    requires s != [] && !(s[0] == '\n' && |s| >= 2 && s[1] == '\n')
    requires CapNewlines(s[1..]) == s[1..]
    ensures CapNewlines(s) == s
  {
    if s[0] == '\n' {
      RunEndIs(s, '\n', 0, 1);
    }
    assert s == [s[0]] + s[1..];
  }

  /** Text without three newlines in a row is a fixed point of the cap. */
  lemma {:induction false} CapNewlinesIdentity(s: string)
    requires NoTripleNewline(s)
    ensures CapNewlines(s) == s
    decreases |s|
  {
    if s != [] {
      if |s| >= 2 && s[0] == '\n' && s[1] == '\n' {
        NoTripleNewlineSuffix(s, 2);
        CapNewlinesIdentity(s[2..]);
        assert |s| > 2 ==> s[2] != '\n';
        CapPairKept(s);
      } else {
        NoTripleNewlineSuffix(s, 1);
        CapNewlinesIdentity(s[1..]);
        CapOneKept(s);
      }
    }
  }

  // ---------------------------------------------------------------------------
  // Step 7: `" +"` replaced by one space (Strings.CollapseSpaces)
  // ---------------------------------------------------------------------------

  /** Collapsing spaces never shortens a space run to nothing, so it cannot join newline runs. */
  lemma {:induction false} CollapseKeepsNoTripleNewline(s: string)
    requires NoTripleNewline(s)
    ensures NoTripleNewline(CollapseSpaces(s))
    decreases |s|
  {
    if s != [] {
      var r := CollapseSpaces(s);
      if s[0] == ' ' {
        var n := LeadingRun(s, ' ');
        NoTripleNewlineSuffix(s, n);
        CollapseKeepsNoTripleNewline(s[n..]);
        assert r[1..] == CollapseSpaces(s[n..]);
      } else {
        var t := s[1..];
        NoTripleNewlineSuffix(s, 1);
        CollapseKeepsNoTripleNewline(t);
        assert r[1..] == CollapseSpaces(t);
        if |r| >= 3 && r[0] == '\n' && r[1] == '\n' {
          assert t[0] == '\n';
          assert CollapseSpaces(t)[1..] == CollapseSpaces(t[1..]);
          assert r[2] == t[1];
        }
      }
    }
  }

  lemma {:induction false} CollapseSpacesChars(s: string)
    ensures forall i :: 0 <= i < |CollapseSpaces(s)| ==> CollapseSpaces(s)[i] in s
    decreases |s|
  {
    if s != [] {
      var n := if s[0] == ' ' then LeadingRun(s, ' ') else 1;
      CollapseSpacesChars(s[n..]);
      assert forall c :: c in s[n..] ==> c in s;
    }
  }

  // ---------------------------------------------------------------------------
  // The whole pipeline
  // ---------------------------------------------------------------------------

  /** Steps 2 to 8 applied to the scrubbed and trimmed text. */
  function Rewrite(t: string): string {
    var noTemplates := StripTemplates(t);
    var headers := HeaderLinks(noTemplates);
    var pipes := ProtectPipes(headers);
    var noCategories := StripCategories(pipes);
    var newlines := CapNewlines(noCategories);
    var spaces := CollapseSpaces(newlines);
    Replace(spaces, "_", " ")
  }

  /** The rewrite up to its last step: the text whose underscores become spaces. */
  function BeforeUnderscores(t: string): string {
    CollapseSpaces(CapNewlines(StripCategories(ProtectPipes(HeaderLinks(StripTemplates(t))))))
  }

  /** `sanitize` as a value: scrub the UTF-8 bytes, trim, then rewrite. */
  function Sanitized(source: string): string {
    Rewrite(Trim(Scrubbed(Utf8.Encode(source))))
  }

  // Each step keeps the text within the scrubbed alphabet.

  lemma AllScrubbedConcat(a: string, b: string)
    requires AllScrubbed(a) && AllScrubbed(b)
    ensures AllScrubbed(a + b)
  {
    forall i | 0 <= i < |a + b|
      ensures IsScrubbedChar((a + b)[i])
    {
      if i < |a| {
        assert (a + b)[i] == a[i];
      } else {
        assert (a + b)[i] == b[i - |a|];
      }
    }
  }

  lemma AllScrubbedSlice(s: string, i: nat, j: nat)
    requires AllScrubbed(s) && i <= j <= |s|
    ensures AllScrubbed(s[i..j]) && AllScrubbed(s[i..])
  {
    assert forall k :: 0 <= k < j - i ==> s[i..j][k] == s[i + k];
  }

  lemma {:induction false} StripTemplatesKeepsScrubbed(s: string)
    requires AllScrubbed(s)
    ensures AllScrubbed(StripTemplates(s))
    decreases |s|
  {
    if s != [] {
      var n := if TemplateEnd(s).Some? then TemplateEnd(s).value else 1;
      AllScrubbedSlice(s, n, |s|);
      StripTemplatesKeepsScrubbed(s[n..]);
    }
  }

  lemma HeaderReplacementScrubbed(s: string, m: HeaderMatch)
    requires AllScrubbed(s)
    requires m.open + 3 <= m.close && m.close + 3 <= m.end <= |s|
    ensures AllScrubbed(HeaderReplacement(s, m))
  {
    var a, b, c := s[..m.open], s[m.open + 3..m.close], s[m.close + 3..m.end];
    AllScrubbedSlice(s, 0, m.open);
    AllScrubbedSlice(s, m.open + 3, m.close);
    AllScrubbedSlice(s, m.close + 3, m.end);
    AllScrubbedConcat(a, " ");
    AllScrubbedConcat(a + " ", b);
    AllScrubbedConcat(a + " " + b, " ");
    AllScrubbedConcat(a + " " + b + " ", c);
  }

  lemma {:induction false} HeaderLinksKeepsScrubbed(s: string)
    requires AllScrubbed(s)
    ensures AllScrubbed(HeaderLinks(s))
    decreases |s|
  {
    if s != [] {
      match HeaderLinkAt(s)
      case Some(m) =>
        AllScrubbedSlice(s, m.end, |s|);
        HeaderReplacementScrubbed(s, m);
        HeaderLinksKeepsScrubbed(s[m.end..]);
        AllScrubbedConcat(HeaderReplacement(s, m), HeaderLinks(s[m.end..]));
      case None =>
        AllScrubbedSlice(s, 1, |s|);
        HeaderLinksKeepsScrubbed(s[1..]);
        AllScrubbedConcat([s[0]], HeaderLinks(s[1..]));
    }
  }

  lemma MarkedLinkScrubbed(s: string, m: LinkMatch)
    requires AllScrubbed(s)
    requires 2 <= m.pipe < m.close && m.close + 2 <= |s|
    ensures AllScrubbed(MarkedLink(s, m))
  {
    var a, b := s[2..m.pipe], s[m.pipe + 1..m.close];
    AllScrubbedSlice(s, 2, m.pipe);
    AllScrubbedSlice(s, m.pipe + 1, m.close);
    AllScrubbedConcat("[[", a);
    AllScrubbedConcat("[[" + a, "!!!!");
    AllScrubbedConcat("[[" + a + "!!!!", b);
    AllScrubbedConcat("[[" + a + "!!!!" + b, "]]");
  }

  lemma MarkStepScrubbed(s: string, m: LinkMatch)
    requires AllScrubbed(s) && s != [] && LinkAt(s) == Some(m)
    requires AllScrubbed(MarkLinkPipes(s[m.close + 2..]))
    ensures AllScrubbed(MarkLinkPipes(s))
  {
    MarkedLinkScrubbed(s, m);
    AllScrubbedConcat(MarkedLink(s, m), MarkLinkPipes(s[m.close + 2..]));
  }

  lemma {:induction false} MarkLinkPipesKeepsScrubbed(s: string)
    requires AllScrubbed(s)
    ensures AllScrubbed(MarkLinkPipes(s))
    decreases |s|
  {
    if s != [] {
      match LinkAt(s)
      case Some(m) =>
        AllScrubbedSlice(s, m.close + 2, |s|);
        MarkLinkPipesKeepsScrubbed(s[m.close + 2..]);
        MarkStepScrubbed(s, m);
      case None =>
        AllScrubbedSlice(s, 1, |s|);
        MarkLinkPipesKeepsScrubbed(s[1..]);
        AllScrubbedConcat([s[0]], MarkLinkPipes(s[1..]));
    }
  }

  lemma ProtectPipesKeepsScrubbed(s: string)
    requires AllScrubbed(s)
    ensures AllScrubbed(ProtectPipes(s))
  {
    MarkLinkPipesKeepsScrubbed(s);
    var marked := MarkLinkPipes(s);
    var unpiped := Replace(marked, "|", "");
    ReplaceChars(marked, "|", "");
    assert AllScrubbed(unpiped) by {
      forall i | 0 <= i < |unpiped|
        ensures IsScrubbedChar(unpiped[i])
      {
        assert unpiped[i] in marked;
      }
    }
    var r := Replace(unpiped, "!!!!", "|");
    ReplaceChars(unpiped, "!!!!", "|");
    forall i | 0 <= i < |r|
      ensures IsScrubbedChar(r[i])
    {
      assert r[i] in unpiped || r[i] in "|";
    }
  }

  lemma {:induction false} StripCategoriesKeepsScrubbed(s: string)
    requires AllScrubbed(s)
    ensures AllScrubbed(StripCategories(s))
    decreases |s|
  {
    if s != [] {
      var n := if CategoryEnd(s).Some? then CategoryEnd(s).value else 1;
      AllScrubbedSlice(s, n, |s|);
      StripCategoriesKeepsScrubbed(s[n..]);
    }
  }

  lemma {:induction false} CapNewlinesKeepsScrubbed(s: string)
    requires AllScrubbed(s)
    ensures AllScrubbed(CapNewlines(s))
    decreases |s|
  {
    if s != [] {
      var n := if s[0] == '\n' && LeadingRun(s, '\n') >= 2 then LeadingRun(s, '\n') else 1;
      AllScrubbedSlice(s, n, |s|);
      CapNewlinesKeepsScrubbed(s[n..]);
    }
  }

  /** Every character a rewrite step can produce from scrubbed text is itself scrubbed. */
  lemma RewriteKeepsScrubbed(t: string)
    requires AllScrubbed(t)
    ensures AllScrubbed(Rewrite(t))
  {
    StripTemplatesKeepsScrubbed(t);
    var a := StripTemplates(t);
    HeaderLinksKeepsScrubbed(a);
    var b := HeaderLinks(a);
    ProtectPipesKeepsScrubbed(b);
    var c := ProtectPipes(b);
    StripCategoriesKeepsScrubbed(c);
    var d := StripCategories(c);
    CapNewlinesKeepsScrubbed(d);
    var e := CapNewlines(d);
    CollapseSpacesChars(e);
    var f := CollapseSpaces(e);
    assert AllScrubbed(f) by {
      forall i | 0 <= i < |f|
        ensures IsScrubbedChar(f[i])
      {
        assert f[i] in e;
      }
    }
    ReplaceCharAt(f, '_', ' ');
  }

  /**
   * What `sanitize` guarantees to the parser: no underscore, no run of three newlines, and
   * only printable ASCII characters besides the newline. Two spaces in a row are left only
   * where one of them was an underscore when spaces were collapsed.
   */
  lemma SanitizedShape(source: string)
    ensures '_' !in Sanitized(source)
    ensures NoTripleNewline(Sanitized(source))
    ensures AllScrubbed(Sanitized(source))
    ensures var r := Sanitized(source);
      var c := BeforeUnderscores(Trim(Scrubbed(Utf8.Encode(source))));
      && |r| == |c|
      && forall i :: 0 <= i < |r| - 1 && r[i] == ' ' && r[i + 1] == ' ' ==> c[i] == '_' || c[i + 1] == '_'
  {
    DoubleSpaceFromUnderscore(BeforeUnderscores(Trim(Scrubbed(Utf8.Encode(source)))));
    var t := Trim(Scrubbed(Utf8.Encode(source)));
    ScrubbedText(source);
    TrimKeepsScrubbed(Scrubbed(Utf8.Encode(source)));
    RewriteKeepsScrubbed(t);
    var newlines := CapNewlines(StripCategories(ProtectPipes(HeaderLinks(StripTemplates(t)))));
    var spaces := CollapseSpaces(newlines);
    CapNewlinesNoTriple(StripCategories(ProtectPipes(HeaderLinks(StripTemplates(t)))));
    CollapseKeepsNoTripleNewline(newlines);
    UnderscoreStep(spaces);
  }

  /** After the last step, two spaces in a row come from at least one underscore. */
  lemma DoubleSpaceFromUnderscore(s: string)
    requires NoDoubleSpace(s)
    ensures var r := Replace(s, "_", " ");
      && |r| == |s|
      && forall i :: 0 <= i < |r| - 1 && r[i] == ' ' && r[i + 1] == ' ' ==> s[i] == '_' || s[i + 1] == '_'
  {
    ReplaceCharAt(s, '_', ' ');
  }

  /** The last step leaves no underscore and creates no newline. */
  lemma UnderscoreStep(s: string)
    requires NoTripleNewline(s)
    ensures '_' !in Replace(s, "_", " ") && NoTripleNewline(Replace(s, "_", " "))
  {
    ReplaceCharAt(s, '_', ' ');
    var r := Replace(s, "_", " ");
    forall i | 0 <= i < |r| - 2
      ensures !(r[i] == '\n' && r[i + 1] == '\n' && r[i + 2] == '\n')
    {
      assert r[i] == '\n' ==> s[i] == '\n';
      assert r[i + 1] == '\n' ==> s[i + 1] == '\n';
      assert r[i + 2] == '\n' ==> s[i + 2] == '\n';
    }
  }

  /** Printable ASCII text and newlines pass the scrub unchanged. */
  lemma ScrubKeepsPrintable(s: string)
    requires AllScrubbed(s)
    ensures Scrubbed(Utf8.Encode(s)) == s
  {
    Utf8.EncodeAscii(s);
  }

  lemma NoBraceTemplateFree(t: string)
    requires '{' !in t
    ensures TemplateFree(t)
  {
    forall i | 0 <= i <= |t|
      ensures TemplateEnd(t[i..]).None?
    {
      OccursAtHead(t[i..], "{{", 0);
    }
  }

  /**
   * Text without markup characters (no `{`, `=`, `[`, `|` or `!`) and without three newlines
   * in a row only has its space runs collapsed and its underscores turned into spaces.
   */
  lemma PlainTextRewrite(t: string)
    requires '{' !in t && '=' !in t && '[' !in t && '|' !in t && '!' !in t
    requires NoTripleNewline(t)
    ensures Rewrite(t) == Replace(CollapseSpaces(t), "_", " ")
  {
    NoBraceTemplateFree(t);
    StripTemplatesIdentity(t);
    HeaderLinksPrefixUntouched(t, []);
    MarkPrefixUntouched(t, []);
    assert t + [] == t;
    DeletePipes(t);
    WithoutAbsent(t, '|');
    ReplaceMarkerPrefixUntouched(t, []);
    assert ProtectPipes(t) == t;
    NoBracketNoCategory(t, []);
    CategoryPrefixUntouched(t, []);
    CapNewlinesIdentity(t);
  }

  /** Printable text without blanks at its ends reaches the rewrite steps as it is. */
  lemma SanitizedPrintable(s: string)
    requires AllScrubbed(s) && Trim(s) == s
    ensures Sanitized(s) == Rewrite(s)
  {
    ScrubKeepsPrintable(s);
  }

  /**
   * The last two steps on `a _b`. This example and the two below take the text as a
   * parameter equal to the literal, and are kept apart, so that the verifier unfolds the
   * functions applied to it one step at a time instead of evaluating them on the literal.
   */
  lemma CollapseThenUnderscore(s: string)
    requires s == "a _b"
    ensures Replace(CollapseSpaces(s), "_", " ") == "a  b"
  {
    CollapseSpacesIdempotent(s);
    ReplaceCharAt(s, '_', ' ');
    var r := Replace(s, "_", " ");
    assert r[0] == 'a' && r[1] == ' ' && r[2] == ' ' && r[3] == 'b';
  }

  /** Text the rewrite steps leave to the last two steps only. */
  predicate PlainText(t: string) {
    '{' !in t && '=' !in t && '[' !in t && '|' !in t && '!' !in t && NoTripleNewline(t)
    && AllScrubbed(t) && Trim(t) == t
  }

  /** `a _b` is left to the last two steps. */
  lemma PlainExample(s: string)
    requires s == "a _b"
    ensures PlainText(s)
  {
    assert s[0] == 'a' && s[1] == ' ' && s[2] == '_' && s[3] == 'b';
  }

  /**
   * The underscore step runs after space collapsing, so the output can hold two spaces in
   * a row: `a _b` sanitizes to `a  b`. The two facts it combines are proved apart, above.
   */
  lemma UnderscoreAfterCollapse(s: string)
    requires s == "a _b"
    ensures Sanitized(s) == "a  b"
  {
    PlainExample(s);
    SanitizedPrintable(s);
    PlainTextRewrite(s);
    CollapseThenUnderscore(s);
  }

  /** A character other than `{` cannot start a template and is kept. */
  lemma StripStepPlain(s: string)
    requires s != [] && s[0] != '{'
    ensures StripTemplates(s) == [s[0]] + StripTemplates(s[1..])
  {
    OccursAtHead(s, "{{", 0);
  }

  /** A prefix without `{` cannot start a template, so template stripping passes it through. */
  lemma {:induction false} StripTemplatesPlainPrefix(p: string, rest: string)
    requires '{' !in p
    ensures StripTemplates(p + rest) == p + StripTemplates(rest)
    decreases |p|
  {
    if p == [] {
      assert p + rest == rest;
    } else {
      var s := p + rest;
      assert s[0] == p[0] && s[1..] == p[1..] + rest;
      StripStepPlain(s);
      StripTemplatesPlainPrefix(p[1..], rest);
      Regroup([p[0]], p[1..], StripTemplates(rest));
      assert [p[0]] + p[1..] == p;
    }
  }

  /**
   * A template whose body holds no `}` is a whole match, even across lines: it is removed
   * and stripping goes on right after its `}}`.
   */
  lemma TemplateThenRest(x: string, rest: string)
    requires x != [] && '}' !in x
    ensures StripTemplates("{{" + x + "}}" + rest) == StripTemplates(rest)
  {
    var t := "{{" + x + "}}" + rest;
    var q := 2 + |x|;
    assert t[..2] == "{{" && t[q..q + 2] == "}}";
    forall j | 3 <= j < q
      ensures !OccursAt(t, "}}", j)
    {
      assert t[j] == x[j - 2];
      OccursAtHead(t, "}}", j);
    }
    FindFromIs(t, "}}", 3, q);
    assert t[q + 2..] == rest;
  }

  /** A template on its own leaves nothing. */
  lemma WholeTemplate(x: string)
    requires x != [] && '}' !in x
    ensures StripTemplates("{{" + x + "}}") == []
  {
    TemplateThenRest(x, []);
    assert "{{" + x + "}}" + [] == "{{" + x + "}}";
  }

  /** A template at the very end of the text is removed, and the text before it is kept as it is. */
  lemma FinalTemplateRemoved(p: string, x: string)
    requires '{' !in p && x != [] && '}' !in x
    ensures StripTemplates(p + ("{{" + x + "}}")) == p
  {
    StripTemplatesPlainPrefix(p, "{{" + x + "}}");
    WholeTemplate(x);
    assert p + [] == p;
  }

  /** Text that neither starts nor ends with a blank is its own trim. */
  lemma TrimUnblankEnds(s: string)
    requires s != [] && !IsBlank(s[0]) && !IsBlank(s[|s| - 1])
    ensures Trim(s) == s
  {
  }

  /** Plain text with no underscore and no run of two spaces is left as it is by every rewrite step. */
  lemma PlainRewriteKeeps(t: string)
    requires '{' !in t && '=' !in t && '[' !in t && '|' !in t && '!' !in t && '_' !in t
    requires NoTripleNewline(t) && NoDoubleSpace(t)
    ensures Rewrite(t) == t
  {
    PlainTextRewrite(t);
    CollapseSpacesIdempotent(t);
    ReplaceCharAt(t, '_', ' ');
  }

  /**
   * Trimming comes before template removal: when a page ends in a template, whatever stood
   * before it is kept, blank lines at its end included (`x\n\n{{t}}` sanitizes to `x\n\n`).
   */
  lemma TrimBeforeTemplates(p: string, x: string)
    requires '{' !in p && '=' !in p && '[' !in p && '|' !in p && '!' !in p && '_' !in p
    requires NoTripleNewline(p) && NoDoubleSpace(p) && AllScrubbed(p)
    requires p != [] && !IsBlank(p[0])
    requires x != [] && '}' !in x && AllScrubbed(x)
    ensures Sanitized(p + ("{{" + x + "}}")) == p
  {
    var t := "{{" + x + "}}";
    var s := p + t;
    assert AllScrubbed(t) by {
      AllScrubbedConcat("{{", x);
      AllScrubbedConcat("{{" + x, "}}");
    }
    AllScrubbedConcat(p, t);
    assert s[0] == p[0] && s[|s| - 1] == '}';
    TrimUnblankEnds(s);
    SanitizedPrintable(s);
    FinalTemplateRemoved(p, x);
    StripTemplatesPlainPrefix(p, []);
    assert p + [] == p;
    assert Rewrite(s) == Rewrite(p);
    PlainRewriteKeeps(p);
  }
}

/**
 * String primitives shared by the sanitizer, the visitor and the URL builder:
 * substring search, Java's `String.trim`, `String.replace(CharSequence, CharSequence)`
 * and the `replaceAll(" +", " ")` space collapsing, all over `seq<char>`.
 */
module Strings {
  import opened Wrappers

  /** `p` occurs in `s` starting at index `i`. */
  predicate OccursAt(s: string, p: string, i: nat) {
    i + |p| <= |s| && s[i..i + |p|] == p
  }

  predicate StartsWith(s: string, p: string) {
    OccursAt(s, p, 0)
  }

  lemma OccursAtHead(s: string, p: string, i: nat)
    requires p != []
    ensures OccursAt(s, p, i) ==> s[i] == p[0]
  {
    if OccursAt(s, p, i) {
      assert s[i..i + |p|][0] == s[i];
    }
  }

  lemma OccursAtChar(s: string, p: string, i: nat, k: nat)
    requires k < |p|
    ensures OccursAt(s, p, i) ==> s[i + k] == p[k]
  {
    if OccursAt(s, p, i) {
      assert s[i..i + |p|][k] == s[i + k];
    }
  }

  /** The leftmost occurrence of `p` in `s` at or after `from`. */
  function FindFrom(s: string, p: string, from: nat): (r: Option<nat>)
    ensures r.Some? ==> from <= r.value && OccursAt(s, p, r.value)
    ensures r.Some? ==> forall j :: from <= j < r.value ==> !OccursAt(s, p, j)
    ensures r.None? ==> forall j :: from <= j ==> !OccursAt(s, p, j)
    decreases |s| - from
  {
    if from + |p| > |s| then None
    else if OccursAt(s, p, from) then Some(from)
    else FindFrom(s, p, from + 1)
  }

  /** The rightmost occurrence of `p` that starts at or after `lo` and ends at or before `hi`. */
  function FindLast(s: string, p: string, lo: nat, hi: nat): (r: Option<nat>)
    requires hi <= |s|
    ensures r.Some? ==> lo <= r.value && r.value + |p| <= hi
    decreases hi
  {
    if hi < lo + |p| then None
    else if OccursAt(s, p, hi - |p|) then Some(hi - |p|)
    else FindLast(s, p, lo, hi - 1)
  }

  /** An occurrence with none before it is the one `FindFrom` finds. */
  lemma FindFromIs(s: string, p: string, from: nat, k: nat)
    requires from <= k && OccursAt(s, p, k)
    requires forall j :: from <= j < k ==> !OccursAt(s, p, j)
    ensures FindFrom(s, p, from) == Some(k)
  {
  }

  /** `FindLast` finds an occurrence with none after it in the window, or reports that there is none. */
  lemma {:induction false} FindLastSpec(s: string, p: string, lo: nat, hi: nat)
    requires hi <= |s|
    ensures var r := FindLast(s, p, lo, hi);
      && (r.Some? ==> OccursAt(s, p, r.value) && forall j :: r.value < j && j + |p| <= hi ==> !OccursAt(s, p, j))
      && (r.None? ==> forall j :: lo <= j && j + |p| <= hi ==> !OccursAt(s, p, j))
    decreases hi
  {
    if hi >= lo + |p| && !OccursAt(s, p, hi - |p|) {
      FindLastSpec(s, p, lo, hi - 1);
      var r := FindLast(s, p, lo, hi - 1);
      assert FindLast(s, p, lo, hi) == r;
      var from := if r.Some? then r.value + 1 else lo;
      forall j | from <= j && j + |p| <= hi
        ensures !OccursAt(s, p, j)
      {
        if j + |p| == hi {
          assert j == hi - |p|;
        }
      }
    }
  }

  /** An occurrence with none after it is the one `FindLast` finds. */
  lemma {:induction false} FindLastIs(s: string, p: string, lo: nat, hi: nat, k: nat)
    requires hi <= |s| && lo <= k && k + |p| <= hi && OccursAt(s, p, k)
    requires forall j :: k < j && j + |p| <= hi ==> !OccursAt(s, p, j)
    ensures FindLast(s, p, lo, hi) == Some(k)
    decreases hi
  {
    if k + |p| < hi {
      assert !OccursAt(s, p, hi - |p|);
      FindLastIs(s, p, lo, hi - 1, k);
    }
  }

  /** The characters that a Java regular expression `.` does not match (no DOTALL flag). */
  predicate IsLineTerminator(c: char) {
    c == '\n' || c == '\r' || c == '\U{0085}' || c == '\U{2028}' || c == '\U{2029}'
  }

  /** The index of the first line terminator at or after `from`, or `|s|` if there is none. */
  function LineEnd(s: string, from: nat): (r: nat)
    requires from <= |s|
    ensures from <= r <= |s|
    ensures forall j :: from <= j < r ==> !IsLineTerminator(s[j])
    ensures r < |s| ==> IsLineTerminator(s[r])
    decreases |s| - from
  {
    if from == |s| || IsLineTerminator(s[from]) then from else LineEnd(s, from + 1)
  }

  lemma LineEndIs(s: string, from: nat, e: nat)
    requires from <= e <= |s| && forall j :: from <= j < e ==> !IsLineTerminator(s[j])
    requires e < |s| ==> IsLineTerminator(s[e])
    ensures LineEnd(s, from) == e
  {
  }

  /** The length of the run of `c` that `s` starts with. */
  function LeadingRun(s: string, c: char): (n: nat)
    ensures n <= |s|
    ensures forall i :: 0 <= i < n ==> s[i] == c
    ensures n < |s| ==> s[n] != c
  {
    RunEnd(s, c, 0)
  }

  /** The index where the run of `c` that starts at `from` ends. */
  function RunEnd(s: string, c: char, from: nat): (r: nat)
    requires from <= |s|
    ensures from <= r <= |s|
    ensures forall j :: from <= j < r ==> s[j] == c
    ensures r < |s| ==> s[r] != c
    decreases |s| - from
  {
    if from == |s| || s[from] != c then from else RunEnd(s, c, from + 1)
  }

  lemma RunEndIs(s: string, c: char, from: nat, n: nat)
    requires from <= n <= |s| && forall i :: from <= i < n ==> s[i] == c
    requires n < |s| ==> s[n] != c
    ensures RunEnd(s, c, from) == n
  {
  }

  // ---------------------------------------------------------------------------
  // Scanning text that ends a line: nothing after the line end is looked at
  // ---------------------------------------------------------------------------

  /** `u` is nonempty and its last character ends a line. */
  predicate EndsLine(u: string) {
    u != [] && IsLineTerminator(u[|u| - 1])
  }

  /** An occurrence that lies inside `u` is one in `u + t` and conversely. */
  lemma OccursAtPrefix(u: string, t: string, p: string, j: nat)
    requires j + |p| <= |u|
    ensures OccursAt(u + t, p, j) == OccursAt(u, p, j)
  {
    assert (u + t)[j..j + |p|] == u[j..j + |p|];
  }

  /** The line that starts inside a text ending a line ends inside it too. */
  lemma LineEndPrefix(u: string, t: string, from: nat)
    requires EndsLine(u) && from < |u|
    ensures LineEnd(u, from) < |u|
    ensures LineEnd(u + t, from) == LineEnd(u, from)
  {
    var e := LineEnd(u, from);
    assert e < |u|;
    LineEndIs(u + t, from, e);
  }

  /** A run that starts inside `u` ends inside it when `u` ends with another character. */
  lemma RunEndPrefix(u: string, t: string, c: char, from: nat)
    requires u != [] && u[|u| - 1] != c && from < |u|
    ensures RunEnd(u, c, from) < |u|
    ensures RunEnd(u + t, c, from) == RunEnd(u, c, from)
  {
    var e := RunEnd(u, c, from);
    assert e < |u|;
    RunEndIs(u + t, c, from, e);
  }

  /** A search that stays inside `u` gives the same answer in `u + t`. */
  lemma {:induction false} FindLastPrefix(u: string, t: string, p: string, lo: nat, hi: nat)
    requires hi <= |u|
    ensures FindLast(u + t, p, lo, hi) == FindLast(u, p, lo, hi)
    decreases hi
  {
    if hi >= lo + |p| {
      OccursAtPrefix(u, t, p, hi - |p|);
      if !OccursAt(u, p, hi - |p|) {
        FindLastPrefix(u, t, p, lo, hi - 1);
      }
    }
  }

  /** A search up to the end of a line that starts inside a text ending a line gives the same answer in `u + t`. */
  lemma FindLastInLinePrefix(u: string, t: string, p: string, lo: nat, from: nat)
    requires EndsLine(u) && from < |u|
    ensures LineEnd(u, from) < |u|
    ensures FindLast(u + t, p, lo, LineEnd(u + t, from)) == FindLast(u, p, lo, LineEnd(u, from))
  {
    LineEndPrefix(u, t, from);
    FindLastPrefix(u, t, p, lo, LineEnd(u, from));
  }

  /** The first occurrence that ends by `hi <= |u|` is the same in `u` and in `u + t`. */
  lemma FindFromPrefix(u: string, t: string, p: string, from: nat, hi: nat)
    requires hi <= |u|
    ensures var r, r' := FindFrom(u + t, p, from), FindFrom(u, p, from);
      (r.Some? && r.value + |p| <= hi) <==> (r'.Some? && r'.value + |p| <= hi)
    ensures var r, r' := FindFrom(u + t, p, from), FindFrom(u, p, from);
      r.Some? && r.value + |p| <= hi ==> r == r'
  {
    var r, r' := FindFrom(u + t, p, from), FindFrom(u, p, from);
    if r.Some? && r.value + |p| <= hi {
      OccursAtPrefix(u, t, p, r.value);
      forall j | from <= j < r.value
        ensures !OccursAt(u, p, j)
      {
        OccursAtPrefix(u, t, p, j);
      }
      FindFromIs(u, p, from, r.value);
    }
    if r'.Some? && r'.value + |p| <= hi {
      OccursAtPrefix(u, t, p, r'.value);
      forall j | from <= j < r'.value
        ensures !OccursAt(u + t, p, j)
      {
        OccursAtPrefix(u, t, p, j);
      }
      FindFromIs(u + t, p, from, r'.value);
    }
  }

  /** `n` copies of `c`. */
  function Repeat(c: char, n: nat): (r: string)
    ensures |r| == n && forall i :: 0 <= i < n ==> r[i] == c
  {
    seq(n, _ => c)
  }

  /** Java's `String.trim` treats every code point up to U+0020 as blank. */
  predicate IsBlank(c: char) {
    c <= ' '
  }

  function DropLeadingBlanks(s: string): (r: string)
    ensures |r| <= |s| && r == s[|s| - |r|..]
    ensures forall i :: 0 <= i < |s| - |r| ==> IsBlank(s[i])
    ensures r == [] || !IsBlank(r[0])
  {
    if s != [] && IsBlank(s[0]) then DropLeadingBlanks(s[1..]) else s
  }

  function DropTrailingBlanks(s: string): (r: string)
    ensures |r| <= |s| && r == s[..|r|]
    ensures forall i :: |r| <= i < |s| ==> IsBlank(s[i])
    ensures r == [] || !IsBlank(r[|r| - 1])
  {
    if s != [] && IsBlank(s[|s| - 1]) then DropTrailingBlanks(s[..|s| - 1]) else s
  }

  /** Java's `String.trim`. */
  function Trim(s: string): string {
    DropTrailingBlanks(DropLeadingBlanks(s))
  }

  /** Trimming yields the empty string exactly when every character is blank. */
  lemma TrimEmptyIff(s: string)
    ensures Trim(s) == [] <==> forall i :: 0 <= i < |s| ==> IsBlank(s[i])
  {
    var d := DropLeadingBlanks(s);
    if Trim(s) != [] {
      assert !IsBlank(Trim(s)[0]);
      assert Trim(s)[0] == d[0] == s[|s| - |d|];
    }
  }

  /** A trimmed string neither starts nor ends with a blank. */
  lemma TrimEnds(s: string)
    ensures Trim(s) == [] || (!IsBlank(Trim(s)[0]) && !IsBlank(Trim(s)[|Trim(s)| - 1]))
  {
    var d := DropLeadingBlanks(s);
    var t := Trim(s);
    if t != [] {
      assert t[0] == d[0];
    }
  }

  /**
   * Java's `String.replace(target, replacement)`: the occurrences of `target` are replaced
   * from left to right, each match resuming after the previous one.
   */
  function Replace(s: string, target: string, replacement: string): (r: string)
    requires target != []
    decreases |s|
  {
    if s == [] then []
    else if StartsWith(s, target) then replacement + Replace(s[|target|..], target, replacement)
    else [s[0]] + Replace(s[1..], target, replacement)
  }

  /** Replacing brings in no character that is neither in the text nor in the replacement. */
  lemma {:induction false} ReplaceChars(s: string, target: string, replacement: string)
    requires target != []
    ensures forall i :: 0 <= i < |Replace(s, target, replacement)| ==>
      Replace(s, target, replacement)[i] in s || Replace(s, target, replacement)[i] in replacement
    decreases |s|
  {
    if s != [] {
      var r := Replace(s, target, replacement);
      var k := if StartsWith(s, target) then |target| else 1;
      var head := if StartsWith(s, target) then replacement else [s[0]];
      var rest := Replace(s[k..], target, replacement);
      ReplaceChars(s[k..], target, replacement);
      assert r == head + rest;
      forall i | 0 <= i < |r|
        ensures r[i] in s || r[i] in replacement
      {
        if i < |head| {
          assert r[i] == head[i];
          if !StartsWith(s, target) {
            assert r[i] == s[0];
          }
        } else {
          var j := i - |head|;
          assert r[i] == rest[j];
          if rest[j] !in replacement {
            assert rest[j] in s[k..];
            var q :| 0 <= q < |s| - k && s[k..][q] == rest[j];
            assert s[k + q] == rest[j];
          }
        }
      }
    }
  }

  /** The reference meaning of deleting a character: keep every other character, in order. */
  function Without(s: string, c: char): (r: string)
    ensures c !in r
    ensures |r| <= |s|
  {
    if s == [] then [] else if s[0] == c then Without(s[1..], c) else [s[0]] + Without(s[1..], c)
  }

  lemma {:induction false} WithoutConcat(a: string, b: string, c: char)
    ensures Without(a + b, c) == Without(a, c) + Without(b, c)
    decreases |a|
  {
    if a != [] {
      var s := a + b;
      assert s[0] == a[0];
      assert s[1..] == a[1..] + b;
      WithoutConcat(a[1..], b, c);
      if a[0] == c {
        assert Without(s, c) == Without(s[1..], c);
      } else {
        assert Without(s, c) == [s[0]] + Without(s[1..], c);
        assert Without(a, c) == [a[0]] + Without(a[1..], c);
      }
    } else {
      assert a + b == b;
    }
  }

  /** Deleting a character the string does not hold changes nothing. */
  /** Deleting `c` keeps a last character other than `c`. */
  lemma WithoutLast(x: string, c: char)
    requires x != [] && x[|x| - 1] != c
    ensures Without(x, c) != [] && Without(x, c)[|Without(x, c)| - 1] == x[|x| - 1]
  {
    var d := x[|x| - 1];
    assert x == x[..|x| - 1] + [d];
    WithoutConcat(x[..|x| - 1], [d], c);
    assert Without([d], c) == [d];
  }

  lemma {:induction false} WithoutAbsent(s: string, c: char)
    requires c !in s
    ensures Without(s, c) == s
    decreases |s|
  {
    if s != [] {
      WithoutAbsent(s[1..], c);
    }
  }

  /** Replacing one character by one character maps the string character by character. */
  lemma {:induction false} ReplaceCharAt(s: string, a: char, b: char)
    ensures |Replace(s, [a], [b])| == |s|
    ensures forall i :: 0 <= i < |s| ==> Replace(s, [a], [b])[i] == if s[i] == a then b else s[i]
    decreases |s|
  {
    if s != [] {
      ReplaceCharAt(s[1..], a, b);
    }
  }

  /** Replacing a character by a different one leaves none of it. */
  lemma ReplaceCharGone(s: string, a: char, b: char)
    requires a != b
    ensures a !in Replace(s, [a], [b])
  {
    ReplaceCharAt(s, a, b);
    var r := Replace(s, [a], [b]);
    assert forall i :: 0 <= i < |r| ==> r[i] != a;
  }

  /** Replacing a character by nothing is deleting it. */
  lemma {:induction false} ReplaceByNothing(s: string, c: char)
    ensures Replace(s, [c], []) == Without(s, c)
    decreases |s|
  {
    if s != [] {
      ReplaceByNothing(s[1..], c);
      if s[0] == c {
        assert StartsWith(s, [c]);
        assert Replace(s, [c], []) == [] + Replace(s[1..], [c], []);
      } else {
        assert !StartsWith(s, [c]);
        assert Replace(s, [c], []) == [s[0]] + Replace(s[1..], [c], []);
      }
    }
  }

  /** A prefix that does not contain the target's first character passes through unchanged. */
  lemma {:induction false} ReplacePrefixUntouched(u: string, t: string, target: string, replacement: string)
    requires target != [] && target[0] !in u
    ensures Replace(u + t, target, replacement) == u + Replace(t, target, replacement)
    decreases |u|
  {
    if u != [] {
      var s := u + t;
      assert s[0] == u[0];
      OccursAtHead(s, target, 0);
      assert !StartsWith(s, target);
      assert s[1..] == u[1..] + t;
      ReplacePrefixUntouched(u[1..], t, target, replacement);
      assert Replace(s, target, replacement) == [s[0]] + Replace(s[1..], target, replacement);
      assert u == [u[0]] + u[1..];
    } else {
      assert u + t == t;
    }
  }

  /**
   * Text whose last character is not in the target is rewritten the same way whatever
   * follows it: no occurrence of the target can start in it and end after it.
   */
  lemma {:induction false} ReplaceSplit(x: string, y: string, target: string, replacement: string)
    requires target != [] && (x == [] || x[|x| - 1] !in target)
    ensures Replace(x + y, target, replacement) == Replace(x, target, replacement) + Replace(y, target, replacement)
    decreases |x|
  {
    if x == [] {
      assert x + y == y;
    } else {
      var head, w := ReplaceSplitStep(x, y, target, replacement);
      ReplaceSplit(w, y, target, replacement);
      Regroup(head, Replace(w, target, replacement), Replace(y, target, replacement));
    }
  }

  lemma ReplaceSplitStep(x: string, y: string, target: string, replacement: string) returns (head: string, w: string)
    requires target != [] && x != [] && x[|x| - 1] !in target
    ensures |w| < |x| && (w == [] || w[|w| - 1] == x[|x| - 1])
    ensures Replace(x + y, target, replacement) == head + Replace(w + y, target, replacement)
    ensures Replace(x, target, replacement) == head + Replace(w, target, replacement)
  {
    var s := x + y;
    assert s[|x| - 1] == x[|x| - 1];
    if |target| <= |x| {
      OccursAtPrefix(x, y, target, 0);
    } else {
      OccursAtChar(s, target, 0, |x| - 1);
    }
    if StartsWith(x, target) {
      OccursAtChar(x, target, 0, |target| - 1);
      assert |target| < |x|;
      head, w := replacement, x[|target|..];
      assert s[|target|..] == w + y;
      ReplaceUnfold(s, target, replacement, w + y);
      ReplaceUnfold(x, target, replacement, w);
    } else {
      head, w := [x[0]], x[1..];
      assert s[1..] == w + y;
      ReplaceUnfold(s, target, replacement, w + y);
      ReplaceUnfold(x, target, replacement, w);
    }
  }

  lemma ReplaceUnfold(s: string, target: string, replacement: string, rest: string)
    requires target != [] && s != []
    requires rest == if StartsWith(s, target) then s[|target|..] else s[1..]
    ensures Replace(s, target, replacement)
         == (if StartsWith(s, target) then replacement else [s[0]]) + Replace(rest, target, replacement)
  {
  }

  /** Concatenation regrouped; kept apart so that callers need not reason about indices. */
  lemma Regroup<T>(a: seq<T>, m: seq<T>, b: seq<T>)
    ensures a + m + b == a + (m + b)
  {
  }

  /** No run of two spaces. */
  predicate NoDoubleSpace(s: string) {
    forall i :: 0 <= i < |s| - 1 ==> !(s[i] == ' ' && s[i + 1] == ' ')
  }

  /** `replaceAll(" +", " ")`: every run of spaces becomes a single space. */
  function CollapseSpaces(s: string): (r: string)
    ensures |r| <= |s|
    ensures (|r| > 0) == (|s| > 0)
    ensures |r| > 0 ==> r[0] == s[0]
    ensures NoDoubleSpace(r)
    decreases |s|
  {
    if s == [] then []
    else if s[0] == ' ' then [' '] + CollapseSpaces(s[LeadingRun(s, ' ')..])
    else [s[0]] + CollapseSpaces(s[1..])
  }

  /** Collapsing only ever removes spaces: every other character survives, in order. */
  lemma {:induction false} CollapseSpacesKeepsText(s: string)
    ensures Without(CollapseSpaces(s), ' ') == Without(s, ' ')
    decreases |s|
  {
    if s != [] {
      var n := LeadingRun(s, ' ');
      if s[0] == ' ' {
        CollapseSpacesKeepsText(s[n..]);
        WithoutLeadingRun(s, ' ', n);
      } else {
        CollapseSpacesKeepsText(s[1..]);
      }
    }
  }

  /** A leading run of the deleted character contributes nothing. */
  lemma {:induction false} WithoutLeadingRun(s: string, c: char, n: nat)
    requires n <= |s| && forall i :: 0 <= i < n ==> s[i] == c
    ensures Without(s, c) == Without(s[n..], c)
    decreases n
  {
    if n > 0 {
      assert s[1..][n - 1..] == s[n..];
      WithoutLeadingRun(s[1..], c, n - 1);
    }
  }

  /**
   * A run of one or more spaces between two texts that do not touch it with a space of
   * their own becomes exactly one space; the texts on either side collapse on their own.
   */
  lemma CollapseSpacesRun(u: string, k: nat, v: string)
    requires k >= 1
    requires u == [] || u[|u| - 1] != ' '
    requires v == [] || v[0] != ' '
    ensures CollapseSpaces(u + Repeat(' ', k) + v) == CollapseSpaces(u) + " " + CollapseSpaces(v)
  {
    var w := Repeat(' ', k) + v;
    assert u + Repeat(' ', k) + v == u + w;
    CollapseSpacesSplit(u, w);
    CollapseLoneRun(k, v);
    Regroup(CollapseSpaces(u), " ", CollapseSpaces(v));
  }

  /** Text that does not end with a space collapses independently of what follows it. */
  lemma {:induction false} CollapseSpacesSplit(u: string, w: string)
    requires u == [] || u[|u| - 1] != ' '
    ensures CollapseSpaces(u + w) == CollapseSpaces(u) + CollapseSpaces(w)
    decreases |u|
  {
    if u == [] {
      assert u + w == w;
    } else {
      var n := CollapseFirstStep(u, w);
      CollapseSpacesSplit(u[n..], w);
      Regroup(CollapseSpaces(u)[..1], CollapseSpaces(u[n..]), CollapseSpaces(w));
    }
  }

  /** A run of spaces that starts the text becomes one space. */
  lemma CollapseLoneRun(k: nat, v: string)
    requires k >= 1
    requires v == [] || v[0] != ' '
    ensures CollapseSpaces(Repeat(' ', k) + v) == " " + CollapseSpaces(v)
  {
    var w := Repeat(' ', k) + v;
    RunEndIs(w, ' ', 0, k);
    assert w[0] == ' ' && w[k..] == v;
  }

  /**
   * The first step of collapsing text that does not end with a space: it emits the first
   * character of the result and skips the first `n` characters, whatever follows them.
   */
  lemma CollapseFirstStep(u: string, w: string) returns (n: nat)
    requires u != [] && u[|u| - 1] != ' '
    ensures 1 <= n <= |u| && (n < |u| || n == 1)
    ensures (u + w)[n..] == u[n..] + w
    ensures CollapseSpaces(u) == CollapseSpaces(u)[..1] + CollapseSpaces(u[n..])
    ensures CollapseSpaces(u + w) == CollapseSpaces(u)[..1] + CollapseSpaces(u[n..] + w)
  {
    var s := u + w;
    if u[0] == ' ' {
      n := LeadingRun(u, ' ');
      assert n < |u|;
      RunEndIs(s, ' ', 0, n);
    } else {
      n := 1;
    }
    assert s[n..] == u[n..] + w;
  }

  /** Text without a double space is a fixed point of collapsing. */
  lemma {:induction false} CollapseSpacesIdempotent(s: string)
    requires NoDoubleSpace(s)
    ensures CollapseSpaces(s) == s
    decreases |s|
  {
    if s != [] {
      if s[0] == ' ' {
        assert |s| > 1 ==> s[1] != ' ';
        RunEndIs(s, ' ', 0, 1);
      }
      CollapseSpacesIdempotent(s[1..]);
    }
  }

  function DigitChar(d: nat): char
    requires d < 10
  {
    "0123456789"[d]
  }

  /** Java's decimal rendering of a non-negative `int`. */
  function NatToString(n: nat): (r: string)
    ensures |r| >= 1
    ensures forall i :: 0 <= i < |r| ==> '0' <= r[i] <= '9'
  {
    if n < 10 then [DigitChar(n)] else NatToString(n / 10) + [DigitChar(n % 10)]
  }
}

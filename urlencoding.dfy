/**
 * `URLEncoder.encode(value, UTF_8)` as the query builder uses it: letters, digits and
 * `.-*_` are kept, a space becomes `+`, and every other character becomes `%XY` for each
 * byte of its UTF-8 encoding, with upper-case hexadecimal digits.
 */
module UrlEncoding {
  import opened Wrappers
  import Utf8

  predicate KeptByEncoder(c: char) {
    ('a' <= c <= 'z') || ('A' <= c <= 'Z') || ('0' <= c <= '9') || c == '.' || c == '-' || c == '*' || c == '_'
  }

  /** The characters an encoded value is made of. */
  predicate InEncodedAlphabet(c: char) {
    KeptByEncoder(c) || c == '+' || c == '%'
  }

  function HexDigit(d: nat): (c: char)
    requires d < 16
    ensures InEncodedAlphabet(c)
  {
    if d < 10 then ('0' as int + d) as char else ('A' as int + d - 10) as char
  }

  /** `%XY` for each byte. */
  function Escape(bs: seq<Utf8.Byte>): (r: string)
    ensures |r| == 3 * |bs|
  {
    if bs == [] then [] else ['%', HexDigit(bs[0] / 16), HexDigit(bs[0] % 16)] + Escape(bs[1..])
  }

  function EncodeChar(c: char): string {
    if KeptByEncoder(c) then [c]
    else if c == ' ' then "+"
    else Escape(Utf8.EncodeChar(c))
  }

  function UrlEncode(s: string): string {
    if s == [] then [] else EncodeChar(s[0]) + UrlEncode(s[1..])
  }

  // ---------------------------------------------------------------------------------------
  // What an encoded value is made of

  predicate AllEncoded(t: string) {
    forall i :: 0 <= i < |t| ==> InEncodedAlphabet(t[i])
  }

  lemma AllEncodedConcat(a: string, b: string)
    requires AllEncoded(a) && AllEncoded(b)
    ensures AllEncoded(a + b)
  {
    forall i | 0 <= i < |a + b|
      ensures InEncodedAlphabet((a + b)[i])
    {
      if i < |a| {
        assert (a + b)[i] == a[i];
      } else {
        assert (a + b)[i] == b[i - |a|];
      }
    }
  }

  lemma {:induction false} EscapeAlphabet(bs: seq<Utf8.Byte>)
    ensures AllEncoded(Escape(bs))
    decreases |bs|
  {
    if bs != [] {
      EscapeAlphabet(bs[1..]);
      var head := ['%', HexDigit(bs[0] / 16), HexDigit(bs[0] % 16)];
      assert AllEncoded(head);
      AllEncodedConcat(head, Escape(bs[1..]));
    }
  }

  lemma EncodeCharAlphabet(c: char)
    ensures AllEncoded(EncodeChar(c))
  {
    if !KeptByEncoder(c) && c != ' ' {
      EscapeAlphabet(Utf8.EncodeChar(c));
    }
  }

  /**
   * An encoded value uses only letters, digits, `.-*_`, `+` and `%`: no space, `&`, `=`,
   * `?` or `#` that could break the query it is put into.
   */
  lemma {:induction false} UrlEncodeAlphabet(s: string)
    ensures AllEncoded(UrlEncode(s))
    ensures ' ' !in UrlEncode(s) && '&' !in UrlEncode(s) && '=' !in UrlEncode(s)
    decreases |s|
  {
    if s != [] {
      UrlEncodeAlphabet(s[1..]);
      EncodeCharAlphabet(s[0]);
      AllEncodedConcat(EncodeChar(s[0]), UrlEncode(s[1..]));
    }
  }

  /** A value made only of kept characters is its own encoding. */
  lemma {:induction false} UrlEncodeKept(s: string)
    requires forall i :: 0 <= i < |s| ==> KeptByEncoder(s[i])
    ensures UrlEncode(s) == s
    decreases |s|
  {
    if s != [] {
      UrlEncodeKept(s[1..]);
    }
  }

  // ---------------------------------------------------------------------------------------
  // Decoding, the inverse

  function HexValue(c: char): Option<nat> {
    if '0' <= c <= '9' then Some(c as int - '0' as int)
    else if 'A' <= c <= 'F' then Some(c as int - 'A' as int + 10)
    else if 'a' <= c <= 'f' then Some(c as int - 'a' as int + 10)
    else None
  }

  function Prepend(bs: seq<Utf8.Byte>, rest: Option<seq<Utf8.Byte>>): Option<seq<Utf8.Byte>> {
    match rest
    case None => None
    case Some(tail) => Some(bs + tail)
  }

  /**
   * The bytes an encoded value stands for: `+` is a space, `%XY` the byte XY, any other
   * ASCII character its own code. Anything else is not an encoded value.
   */
  function UrlDecodeBytes(t: string): Option<seq<Utf8.Byte>>
    decreases |t|
  {
    if t == [] then Some([])
    else if t[0] == '+' then Prepend([32], UrlDecodeBytes(t[1..]))
    else if t[0] == '%' then
      if |t| >= 3 && HexValue(t[1]).Some? && HexValue(t[2]).Some? then
        Prepend([16 * HexValue(t[1]).value + HexValue(t[2]).value], UrlDecodeBytes(t[3..]))
      else None
    else if t[0] as int < 0x80 then Prepend([t[0] as int], UrlDecodeBytes(t[1..]))
    else None
  }

  lemma HexRoundTrip(d: nat)
    requires d < 16
    ensures HexValue(HexDigit(d)) == Some(d)
  {
  }

  lemma DigitsRecombine(b: Utf8.Byte)
    ensures 16 * (b / 16) + b % 16 == b
  {
  }

  lemma PrependCons(b: Utf8.Byte, bs: seq<Utf8.Byte>, rest: Option<seq<Utf8.Byte>>)
    requires bs != [] && bs[0] == b
    ensures Prepend([b], Prepend(bs[1..], rest)) == Prepend(bs, rest)
  {
    match rest {
      case None =>
      case Some(tail) => assert [b] + (bs[1..] + tail) == bs + tail;
    }
  }

  lemma {:induction false} EscapeDecodes(bs: seq<Utf8.Byte>, rest: string)
    ensures UrlDecodeBytes(Escape(bs) + rest) == Prepend(bs, UrlDecodeBytes(rest))
    decreases |bs|
  {
    if bs == [] {
      assert Escape(bs) + rest == rest;
      match UrlDecodeBytes(rest) {
        case None =>
        case Some(tail) => assert bs + tail == tail;
      }
    } else {
      var b := bs[0];
      HexRoundTrip(b / 16);
      HexRoundTrip(b % 16);
      var t := Escape(bs) + rest;
      assert t == ['%', HexDigit(b / 16), HexDigit(b % 16)] + (Escape(bs[1..]) + rest);
      assert t[1] == HexDigit(b / 16) && t[2] == HexDigit(b % 16);
      assert t[3..] == Escape(bs[1..]) + rest;
      EscapeDecodes(bs[1..], rest);
      DigitsRecombine(b);
      PrependCons(b, bs, UrlDecodeBytes(rest));
    }
  }

  lemma EncodeCharDecodes(c: char, rest: string)
    ensures UrlDecodeBytes(EncodeChar(c) + rest) == Prepend(Utf8.EncodeChar(c), UrlDecodeBytes(rest))
  {
    var t := EncodeChar(c) + rest;
    if KeptByEncoder(c) || c == ' ' {
      assert t[0] == EncodeChar(c)[0];
      assert t[1..] == rest;
    } else {
      EscapeDecodes(Utf8.EncodeChar(c), rest);
    }
  }

  /** Decoding an encoded value gives back the UTF-8 bytes of the value: the encoding loses nothing. */
  lemma {:induction false} UrlDecodeEncode(s: string)
    ensures UrlDecodeBytes(UrlEncode(s)) == Some(Utf8.Encode(s))
    decreases |s|
  {
    if s != [] {
      UrlDecodeEncode(s[1..]);
      EncodeCharDecodes(s[0], UrlEncode(s[1..]));
    }
  }
}

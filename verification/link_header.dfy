/**
 The continuation link of a catalog response (`get_link_header`, written the
 same way in `src/api.rs` and `src/main.rs`). The header value is the raw
 octets of the response's first `link` header; the parse is a strict strip
 of a leading `<` and of the exact trailing text `>; rel="next"`.
 */
module LinkHeader {
  import opened Wrappers
  import opened Text

  /** The exact text that must end a continuation link. */
  const NextSuffix: string := ">; rel=\"next\""

  /** `HeaderValue::to_str` accepts tab and the visible ASCII range 32..126. */
  predicate IsVisibleAscii(b: Byte) {
    b == 9 || 32 <= b < 127
  }

  /** The same rule on a character that stands for one octet. */
  predicate IsVisibleChar(c: char) {
    c == '\t' || ' ' <= c <= '~'
  }

  /** `HeaderValue::to_str`: the value as text when every octet is visible ASCII. */
  function ToStr(v: seq<Byte>): (r: Option<string>)
    ensures r.Some? <==> forall i :: 0 <= i < |v| ==> IsVisibleAscii(v[i])
    ensures r.Some? ==> |r.value| == |v| && forall i :: 0 <= i < |v| ==> r.value[i] as int == v[i]
  {
    if forall i :: 0 <= i < |v| ==> IsVisibleAscii(v[i])
    then Some(seq(|v|, i requires 0 <= i < |v| => v[i] as char))
    else None
  }

  /** A text of the shape `<URL>; rel="next"`, for some URL. */
  predicate IsNextLink(s: string) {
    1 + |NextSuffix| <= |s| && s[0] == '<' && s[|s| - |NextSuffix|..] == NextSuffix
  }

  /** The two strips: `text.strip_prefix('<')?.strip_suffix(NextSuffix)`. */
  function ParseNextLink(text: string): (r: Option<string>)
    ensures r.Some? <==> IsNextLink(text)
    ensures r.Some? ==> text == "<" + r.value + NextSuffix
  {
    match StripPrefix(text, "<")
    case None => None
    case Some(inner) =>
      StripInner(text);
      StripSuffix(inner, NextSuffix)
  }

  /** After the `<`, the suffix strip succeeds exactly on continuation links. */
  lemma StripInner(text: string)
    requires |text| >= 1 && text[0] == '<'
    ensures StripSuffix(text[1..], NextSuffix).Some? <==> IsNextLink(text)
    ensures IsNextLink(text) ==> text == "<" + StripSuffix(text[1..], NextSuffix).value + NextSuffix
  {
    var inner := text[1..];
    if |text| >= 1 + |NextSuffix| {
      assert inner[|inner| - |NextSuffix|..] == text[|text| - |NextSuffix|..];
    }
    if IsNextLink(text) {
      assert text == [text[0]] + inner;
    }
  }

  /**
   `get_link_header`: the URL of the next page, or `None` when the header is
   missing, is not visible ASCII, or is not exactly of the shape
   `<URL>; rel="next"`; it never fails.
   */
  function GetLinkHeader(link: Option<seq<Byte>>): (r: Option<string>)
    ensures r.Some? <==> link.Some? && ToStr(link.value).Some? && IsNextLink(ToStr(link.value).value)
    ensures r.Some? ==> ToStr(link.value).value == "<" + r.value + NextSuffix
  {
    if link.None? then None
    else match ToStr(link.value)
      case None => None
      case Some(text) => ParseNextLink(text)
  }

  /** The octets `v` spell out `text`. */
  predicate Spells(v: seq<Byte>, text: string) {
    |v| == |text| && forall i :: 0 <= i < |v| ==> v[i] == text[i] as int
  }

  /** Round trip: a header spelling `<u>; rel="next"` for visible text `u` yields `u`. */
  lemma LinkRoundTrip(u: string, v: seq<Byte>)
    requires forall i :: 0 <= i < |u| ==> IsVisibleChar(u[i])
    requires Spells(v, "<" + u + NextSuffix)
    ensures GetLinkHeader(Some(v)) == Some(u)
  {
    var text := "<" + u + NextSuffix;
    forall i | 0 <= i < |v|
      ensures IsVisibleAscii(v[i])
    {
      if 1 <= i < 1 + |u| {
        assert text[i] == u[i - 1];
      }
    }
    assert ToStr(v).value == text;
    var r := GetLinkHeader(Some(v)).value;
    assert "<" + r + NextSuffix == text;
    assert r == text[1..1 + |r|];
    assert u == text[1..1 + |u|];
  }

  /**
   Nothing between the brackets is validated: a two-link value whose last
   link is the `next` one yields everything between its first `<` and the
   final suffix, inner `>; rel="prev", <` included.
   */
  lemma MultiLinkAccepted(v: seq<Byte>)
    requires Spells(v, "<a>; rel=\"prev\", <b>; rel=\"next\"")
    ensures GetLinkHeader(Some(v)) == Some("a>; rel=\"prev\", <b")
  {
    var u := "a>; rel=\"prev\", <b";
    assert "<" + u + NextSuffix == "<a>; rel=\"prev\", <b>; rel=\"next\"";
    LinkRoundTrip(u, v);
  }

  /** A value with no leading `<` is not a continuation. */
  lemma NoLeadingBracket(v: seq<Byte>)
    requires |v| == 0 || v[0] != '<' as int
    ensures GetLinkHeader(Some(v)) == None
  {
  }

  /** A value whose end differs from `>; rel="next"` is not a continuation. */
  lemma WrongSuffix(v: seq<Byte>, ending: string)
    requires |ending| == |NextSuffix| && ending != NextSuffix
    requires |ending| <= |v|
    requires forall i :: 0 <= i < |ending| ==> v[|v| - |ending| + i] == ending[i] as int
    ensures GetLinkHeader(Some(v)) == None
  {
    EndingDetermined(v, ending);
  }

  /** A continuation link's last 13 octets spell `>; rel="next"`. */
  lemma EndingDetermined(v: seq<Byte>, ending: string)
    requires |ending| == |NextSuffix| && |ending| <= |v|
    requires forall i :: 0 <= i < |ending| ==> v[|v| - |ending| + i] == ending[i] as int
    ensures ToStr(v).Some? && IsNextLink(ToStr(v).value) ==> ending == NextSuffix
  {
    if ToStr(v).Some? && IsNextLink(ToStr(v).value) {
      var text := ToStr(v).value;
      var tail := text[|text| - |NextSuffix|..];
      forall i | 0 <= i < |ending|
        ensures ending[i] == NextSuffix[i]
      {
        assert tail[i] == text[|text| - |NextSuffix| + i];
      }
    }
  }
}

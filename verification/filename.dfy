/**
 Filename resolution of `src/download.rs`: the URL's last path segment when
 its extension is `rdzip` or `zip`, otherwise the first `filename`
 parameter of an `attachment` Content-Disposition whose charset is accepted.
 The header arrives already parsed; the parser itself is not modelled.
 */
module Filename {
  import opened Wrappers
  import opened Text
  import opened Paths
  import Utf8

  /** The disposition type of a parsed Content-Disposition header. */
  datatype DispositionType = Inline | Attachment | ExtType(token: string)

  /**
   The charset a `filename` parameter declares: US-ASCII, ISO-8859-1, one
   of the other registered charsets the parser knows by name, or any other
   token. The parser upper-cases such a token before keeping it, and a plain
   `filename=` parameter gets the token `UTF-8`, so UTF-8 in any spelling
   arrives as `ExtCharset("UTF-8")`.
   */
  datatype Charset = UsAscii | Iso88591 | Registered(name: string) | ExtCharset(token: string)

  /** One parameter: a filename with charset, language tag and raw octets, or anything else. */
  datatype DispositionParam =
    | FilenameParam(charset: Charset, language: Option<string>, bytes: seq<Byte>)
    | OtherParam(name: string, value: string)

  /** A parsed Content-Disposition header. */
  datatype ContentDisposition = ContentDisposition(disposition: DispositionType, parameters: seq<DispositionParam>)

  /** The Content-Disposition of a response: absent, present but unparsable, or parsed. */
  datatype DispositionHeader = Absent | Unparsable | Parsed(value: ContentDisposition)

  /** Why no filename could be taken from the headers. */
  datatype FilenameError = MissingHeader | ParseFailure | NotAttachment | InvalidUtf8 | NoAcceptableFilename

  /** The URL extensions whose last segment is used as the filename. */
  const ArchiveExtensions: set<string> := {"rdzip", "zip"}

  /** The charsets whose filename is taken: two registered ones and two exact spellings of UTF-8. */
  predicate AcceptedCharset(c: Charset) {
    c == UsAscii || c == Iso88591 || c == ExtCharset("utf-8") || c == ExtCharset("UTF-8")
  }

  /** A `filename` parameter with an accepted charset. */
  predicate Acceptable(p: DispositionParam) {
    p.FilenameParam? && AcceptedCharset(p.charset)
  }

  /** Parameter `i` is the first acceptable one. */
  predicate FirstAcceptable(ps: seq<DispositionParam>, i: int) {
    0 <= i < |ps| && Acceptable(ps[i]) && forall j :: 0 <= j < i ==> !Acceptable(ps[j])
  }

  /** The text of a filename parameter, or `InvalidUtf8` when its octets are not UTF-8. */
  function DecodeFilename(p: DispositionParam): (r: Result<string, FilenameError>)
    requires p.FilenameParam?
    ensures r.Ok? <==> Utf8.Decode(p.bytes).Some?
    ensures r.Ok? ==> Utf8.Encode(r.value) == p.bytes
    ensures r.Err? ==> r.error == InvalidUtf8
  {
    match Utf8.Decode(p.bytes)
    case None => Err(InvalidUtf8)
    case Some(s) =>
      Utf8.EncodeDecode(p.bytes);
      Ok(s)
  }

  /**
   The `for param in parsed_header.parameters` loop: the first acceptable
   filename decides the outcome, whether or not its octets are UTF-8.
   */
  function ScanParameters(ps: seq<DispositionParam>): (r: Result<string, FilenameError>)
    ensures r == Err(NoAcceptableFilename) <==> forall i :: 0 <= i < |ps| ==> !Acceptable(ps[i])
    ensures r != Err(NoAcceptableFilename) ==>
      exists i :: FirstAcceptable(ps, i) && r == DecodeFilename(ps[i])
  {
    if ps == [] then Err(NoAcceptableFilename)
    else if Acceptable(ps[0]) then
      assert FirstAcceptable(ps, 0);
      DecodeFilename(ps[0])
    else
      var r := ScanParameters(ps[1..]);
      assert forall i :: 1 <= i < |ps| ==> ps[i] == ps[1..][i - 1];
      if r != Err(NoAcceptableFilename) then
        var i :| FirstAcceptable(ps[1..], i) && r == DecodeFilename(ps[1..][i]);
        assert FirstAcceptable(ps, i + 1);
        r
      else r
  }

  /** The scan returns exactly what the first acceptable parameter decodes to. */
  lemma {:induction false} ScanParametersFirst(ps: seq<DispositionParam>, i: int)
    requires FirstAcceptable(ps, i)
    ensures ScanParameters(ps) == DecodeFilename(ps[i])
  {
    if i > 0 {
      assert forall j :: 0 <= j < |ps| - 1 ==> ps[1..][j] == ps[j + 1];
      assert FirstAcceptable(ps[1..], i - 1);
      ScanParametersFirst(ps[1..], i - 1);
    }
  }

  /**
   `get_filename_from_headers`: fails without a parsable header or when the
   disposition is not `attachment`; otherwise scans the parameters.
   */
  function GetFilenameFromHeaders(h: DispositionHeader): (r: Result<string, FilenameError>)
    ensures h.Absent? ==> r == Err(MissingHeader)
    ensures h.Unparsable? ==> r == Err(ParseFailure)
    ensures h.Parsed? && h.value.disposition != Attachment ==> r == Err(NotAttachment)
    ensures r.Ok? ==> h.Parsed? && h.value.disposition == Attachment
    ensures r.Ok? ==> exists i :: FirstAcceptable(h.value.parameters, i)
                          && Utf8.Decode(h.value.parameters[i].bytes) == Some(r.value)
    ensures h.Parsed? && h.value.disposition == Attachment ==>
      forall i :: FirstAcceptable(h.value.parameters, i) ==> r == DecodeFilename(h.value.parameters[i])
    ensures h.Parsed? && h.value.disposition == Attachment
            && (forall i :: 0 <= i < |h.value.parameters| ==> !Acceptable(h.value.parameters[i]))
            ==> r == Err(NoAcceptableFilename)
  {
    match h
    case Absent => Err(MissingHeader)
    case Unparsable => Err(ParseFailure)
    case Parsed(cd) =>
      if cd.disposition != Attachment then Err(NotAttachment)
      else
        ScanAllFirst(cd.parameters);
        ScanParameters(cd.parameters)
  }

  /** Whichever parameter is the first acceptable one decides the scan. */
  lemma ScanAllFirst(ps: seq<DispositionParam>)
    ensures forall i :: FirstAcceptable(ps, i) ==> ScanParameters(ps) == DecodeFilename(ps[i])
  {
    forall i | FirstAcceptable(ps, i)
      ensures ScanParameters(ps) == DecodeFilename(ps[i])
    {
      ScanParametersFirst(ps, i);
    }
  }

  /** True when `s` ends with `suffix`. */
  predicate EndsWith(s: string, suffix: string) {
    |suffix| <= |s| && s[|s| - |suffix|..] == suffix
  }

  /** A name split at its last dot ends with that dot and its extension. */
  lemma ArchiveNameEnds(name: string, ext: string)
    requires SplitAtDot(name).1 == Some(ext) && ext in ArchiveExtensions
    ensures EndsWith(name, ".zip") || EndsWith(name, ".rdzip")
  {
    var stem := SplitAtDot(name).0;
    DottedEnds(stem, ext);
  }

  /** `stem.ext` ends with `.ext`. */
  lemma DottedEnds(stem: string, ext: string)
    requires ext in ArchiveExtensions
    ensures EndsWith(stem + "." + ext, ".zip") || EndsWith(stem + "." + ext, ".rdzip")
  {
    var dotted := "." + ext;
    assert stem + "." + ext == stem + dotted;
    EndsWithAppend(stem, dotted);
    if ext == "zip" {
      assert dotted == ".zip";
    } else {
      assert dotted == ".rdzip";
    }
  }

  /** A concatenation ends with its second part. */
  lemma EndsWithAppend(s: string, suffix: string)
    ensures EndsWith(s + suffix, suffix)
  {
    assert (s + suffix)[|s|..] == suffix;
  }

  /**
   `get_filename_from_url`: the URL path's final segment when its extension
   is exactly `rdzip` or `zip` (case matters), otherwise nothing.
   */
  function GetFilenameFromUrl(urlPath: string): (r: Option<string>)
    ensures r.Some? <==> Extension(urlPath).Some? && Extension(urlPath).value in ArchiveExtensions
    ensures r.Some? ==> EndsWith(urlPath, r.value) && '/' !in r.value
    ensures r.Some? ==> EndsWith(r.value, ".zip") || EndsWith(r.value, ".rdzip")
  {
    match Extension(urlPath)
    case None => None
    case Some(ext) =>
      if ext in ArchiveExtensions then
        var name := FileName(urlPath).value;
        ArchiveNameEnds(name, ext);
        Some(name)
      else None
  }

  /**
   The URL rule on a path whose last segment is `stem.ext`: the segment is
   the filename exactly when `ext` is one of the archive extensions.
   */
  lemma UrlRule(dir: string, stem: string, ext: string)
    requires stem != "" && '/' !in stem && '/' !in ext && '.' !in ext
    ensures GetFilenameFromUrl(dir + "/" + stem + "." + ext)
         == if ext in ArchiveExtensions then Some(stem + "." + ext) else None
  {
    var name := stem + "." + ext;
    assert '/' !in name by {
      assert forall k :: 0 <= k < |name| ==> name[k] == (if k < |stem| then stem[k] else if k == |stem| then '.' else ext[k - |stem| - 1]);
    }
    assert dir + "/" + stem + "." + ext == dir + "/" + name;
    SplitAtDotOf(stem, ext);
    if name !in {"", ".", ".."} {
      FileNameUnder(dir, name);
      assert Extension(dir + "/" + name) == Some(ext);
    } else {
      assert |name| <= 2;
      assert ext !in ArchiveExtensions;
    }
  }

  /** A final segment without a dot has no extension, so the URL rule gives nothing. */
  lemma UrlRuleNoExtension(dir: string, name: string)
    requires '/' !in name && '.' !in name
    ensures GetFilenameFromUrl(dir + "/" + name) == None
  {
    ParentOfAppend(dir + "/", name);
    assert (dir + "/") + name == dir + "/" + name;
  }

  /**
   `get_filename`: the URL rule wins whenever it yields a name; only then
   are the headers consulted, and their result, success or failure, is final.
   */
  function GetFilename(urlPath: string, h: DispositionHeader): (r: Result<string, FilenameError>)
    ensures r.Ok? ==>
      || GetFilenameFromUrl(urlPath) == Some(r.value)
      || (GetFilenameFromUrl(urlPath).None? && h.Parsed? && h.value.disposition == Attachment
          && exists i :: FirstAcceptable(h.value.parameters, i)
                      && Utf8.Decode(h.value.parameters[i].bytes) == Some(r.value))
    ensures r.Err? ==> GetFilenameFromUrl(urlPath).None?
    ensures GetFilenameFromUrl(urlPath).None? ==> r == GetFilenameFromHeaders(h)
  {
    match GetFilenameFromUrl(urlPath)
    case Some(name) => Ok(name)
    case None => GetFilenameFromHeaders(h)
  }

  /** When the URL rule yields a name, the headers have no influence at all. */
  lemma UrlNameWins(urlPath: string, h: DispositionHeader, h': DispositionHeader)
    ensures GetFilenameFromUrl(urlPath).Some? ==>
      GetFilename(urlPath, h) == GetFilename(urlPath, h') == Ok(GetFilenameFromUrl(urlPath).value)
  {
  }

  /**
   A URL path whose last segment has no extension, together with
   `Content-Disposition: attachment; filename="a.zip"` (which carries the
   parser's default charset `UTF-8`), resolves to `a.zip`.
   */
  lemma AttachmentExample(dir: string, segment: string)
    requires '/' !in segment && '.' !in segment
    ensures GetFilename(dir + "/" + segment,
              Parsed(ContentDisposition(Attachment, [FilenameParam(ExtCharset("UTF-8"), None, [97, 46, 122, 105, 112])])))
         == Ok("a.zip")
  {
    var p := FilenameParam(ExtCharset("UTF-8"), None, [97, 46, 122, 105, 112]);
    UrlRuleNoExtension(dir, segment);
    DecodeAZip();
    assert FirstAcceptable([p], 0);
    ScanParametersFirst([p], 0);
  }

  /** The octets of `a.zip` decode to that text. */
  lemma DecodeAZip()
    ensures Utf8.Decode([97, 46, 122, 105, 112]) == Some("a.zip")
  {
    var bs: seq<Byte> := [97, 46, 122, 105, 112];
    Utf8.DecodeAscii(bs);
    var text := Utf8.Decode(bs).value;
    assert |text| == 5;
    assert text[0] == 'a' && text[1] == '.' && text[2] == 'z' && text[3] == 'i' && text[4] == 'p';
    assert text == "a.zip";
  }

  /**
   An ISO-8859-1 filename with a non-ASCII octet (`caf\xE9`) is accepted by
   the charset test and then rejected as UTF-8: the call fails, and a later
   UTF-8 filename parameter is never looked at.
   */
  lemma Latin1FilenameFails(later: seq<DispositionParam>)
    ensures GetFilenameFromHeaders(
              Parsed(ContentDisposition(Attachment, [FilenameParam(Iso88591, None, [0x63, 0x61, 0x66, 0xE9])] + later)))
         == Err(InvalidUtf8)
  {
    var ps := [FilenameParam(Iso88591, None, [0x63, 0x61, 0x66, 0xE9])] + later;
    assert FirstAcceptable(ps, 0);
    ScanParametersFirst(ps, 0);
    CafeIsNotUtf8();
  }

  /** The ISO-8859-1 octets of `café` are not UTF-8: `0xE9` opens a three-octet sequence that never arrives. */
  lemma CafeIsNotUtf8()
    ensures Utf8.Decode([0x63, 0x61, 0x66, 0xE9]).None?
  {
    var bs: seq<Byte> := [0x63, 0x61, 0x66, 0xE9];
    assert Utf8.DecodeFirst(bs[3..]).None?;
    assert Utf8.Decode(bs[3..]).None?;
    assert bs[1..][1..][1..] == bs[3..];
  }
}

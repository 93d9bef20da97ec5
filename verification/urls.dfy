/** URL classification (`detect_url_type`) and the output filename chain:
    `extract_filename_from_url` plus the fallback of `download_model`. */
module Urls {
  import opened Wrappers
  import opened Text
  import opened Paths

  /** Where a URL points: the closed set of providers the downloader knows. */
  datatype UrlType = HuggingFace | CivitAI | Unknown

  /** `detect_url_type`: plain substring tests, Hugging Face first. */
  function DetectUrlType(url: string): (t: UrlType)
    ensures t == HuggingFace <==> Contains(url, "huggingface.co")
    ensures t == CivitAI <==> !Contains(url, "huggingface.co") && Contains(url, "civitai.com")
    ensures t == Unknown <==> !Contains(url, "huggingface.co") && !Contains(url, "civitai.com")
  {
    if Contains(url, "huggingface.co") then HuggingFace
    else if Contains(url, "civitai.com") then CivitAI
    else Unknown
  }

  /** A URL that names both hosts is treated as a Hugging Face URL, even
      when the Hugging Face host only appears in the query string. */
  lemma HuggingFaceTakesPrecedence(url: string)
    requires Contains(url, "huggingface.co") && Contains(url, "civitai.com")
    ensures DetectUrlType(url) == HuggingFace
  {
  }

  /** A CivitAI download link that mentions Hugging Face in its query is
      classified as Hugging Face. */
  lemma CivitAIUrlMentioningHuggingFace()
    ensures DetectUrlType("https://civitai.com/api/download/models/1?via=huggingface.co") == HuggingFace
  {
    var u := "https://civitai.com/api/download/models/1?via=huggingface.co";
    ContainsAt(u, "huggingface.co", 46);
  }

  // ---------------------------------------------------------------------
  // The Hugging Face pattern: "/resolve/", a revision without '/', a
  // '/', then the shortest non-empty file part that reaches a '?' or the end
  // ---------------------------------------------------------------------

  const ResolveMarker: string := "/resolve/"

  /** Where the shortest non-empty file part stops in `tail`: the first
      index from `k` on that holds '?', or the end of the string. */
  function LazyGroupEnd(tail: string, k: nat): (e: nat)
    requires 1 <= k <= |tail|
    ensures k <= e <= |tail|
    ensures e < |tail| ==> tail[e] == '?'
    ensures forall j :: k <= j < e ==> tail[j] != '?'
    decreases |tail| - k
  {
    if k == |tail| || tail[k] == '?' then k else LazyGroupEnd(tail, k + 1)
  }

  /** Group 1 of the pattern when the match is tried at position `i`: the
      revision runs to the next '/', must be non-empty, and the group holds
      at least one character and stops before the first later '?'. */
  function ResolveMatchAt(url: string, i: nat): Option<string> {
    if !OccursAt(url, ResolveMarker, i) then None
    else
      OccursAtSlice(url, ResolveMarker, i);
      var rest := url[i + |ResolveMarker|..];
      if '/' !in rest then None
      else
        var j := IndexOf(rest, '/');
        if j == 0 then None
        else
          var tail := rest[j + 1..];
          if tail == [] then None
          else Some(tail[..LazyGroupEnd(tail, 1)])
  }

  /** `re.search`: the match with the leftmost start at or after `i`. */
  function ResolveSearch(url: string, i: nat): Option<string>
    decreases |url| + 1 - i
  {
    if i > |url| then None
    else
      match ResolveMatchAt(url, i)
      case Some(g) => Some(g)
      case None => ResolveSearch(url, i + 1)
  }

  // ---------------------------------------------------------------------
  // urlparse(url).path
  // ---------------------------------------------------------------------

  predicate IsAsciiLetter(c: char) {
    'a' <= c <= 'z' || 'A' <= c <= 'Z'
  }

  predicate IsSchemeChar(c: char) {
    IsAsciiLetter(c) || IsDigit(c) || c == '+' || c == '-' || c == '.'
  }

  /** Index of the first character of `s` in `stops`, or `|s|`. */
  function FirstOf(s: string, stops: set<char>): (i: nat)
    ensures i <= |s|
    ensures i < |s| ==> s[i] in stops
    ensures forall j :: 0 <= j < i ==> s[j] !in stops
  {
    if s == [] then 0 else if s[0] in stops then 0 else FirstOf(s[1..], stops) + 1
  }

  /** The URL starts with a scheme: a letter, then scheme characters up to
      the first ':'. */
  predicate HasScheme(url: string) {
    ':' in url && IndexOf(url, ':') > 0 && IsAsciiLetter(url[0]) &&
    forall k :: 0 <= k < IndexOf(url, ':') ==> IsSchemeChar(url[k])
  }

  /** The scheme `urlsplit` reports, lower-cased; empty when there is none. */
  function SchemeOf(url: string): string {
    if HasScheme(url) then Lower(url[..IndexOf(url, ':')]) else ""
  }

  /** What follows `scheme:` when the URL starts with a scheme. */
  function AfterScheme(url: string): string {
    if HasScheme(url) then url[IndexOf(url, ':') + 1..] else url
  }

  /** The schemes whose paths carry `;params`, the empty scheme included. */
  const ParamSchemes: set<string> :=
    {"", "ftp", "hdl", "prospero", "http", "imap", "https", "shttp", "rtsp",
     "rtsps", "rtspu", "sip", "sips", "mms", "sftp", "tel"}

  /** The message of the `ValueError` raised for a network location with
      one bracket but not the other. */
  const InvalidIPv6: string := "Invalid IPv6 URL"

  /** A network location has both brackets or neither. */
  predicate BracketsPaired(netloc: string) {
    ('[' in netloc) == (']' in netloc)
  }

  /** The part before the query or the fragment. */
  function BeforeQuery(s: string): string {
    s[..FirstOf(s, {'?', '#'})]
  }

  /** Where the parameters of a path begin: the first ';' after the last
      '/', or the end of the path when there is none. */
  function ParamsStart(path: string): (i: nat)
    ensures i <= |path|
  {
    var s := RFind(path, '/') + 1;
    s + FirstOf(path[s..], {';'})
  }

  /** The path with its parameters removed, for the schemes that have them. */
  function DropParams(scheme: string, path: string): string {
    if scheme in ParamSchemes then path[..ParamsStart(path)] else path
  }

  /** The path component of `urlparse(url)`: after the scheme and the
      `//netloc` part, before the query or fragment, without `;params`.
      `Err` is the `ValueError` for unpaired brackets in the network
      location. */
  function UrlPath(url: string): (r: Result<string, string>)
    ensures r.Err? ==> r.error == InvalidIPv6
  {
    var rest := AfterScheme(url);
    if |rest| >= 2 && rest[..2] == "//" then
      var e := FirstOf(rest[2..], {'/', '?', '#'});
      if !BracketsPaired(rest[2..][..e]) then Err(InvalidIPv6)
      else Ok(DropParams(SchemeOf(url), BeforeQuery(rest[2..][e..])))
    else Ok(DropParams(SchemeOf(url), BeforeQuery(rest)))
  }

  // ---------------------------------------------------------------------
  // The filename chain
  // ---------------------------------------------------------------------

  /** The name used when nothing better is known (line 310). */
  const DefaultFilename: string := "downloaded_model.safetensors"

  /** What `extract_filename_from_url` gives: a name; nothing, for CivitAI,
      whose name comes from a response header; or the exception that
      `urlparse` raises. */
  datatype Extracted = Name(name: string) | NoName | Raises(message: string)

  /** The fallback of line 130: the last segment of the URL's path. */
  function NameFromPath(url: string): (r: Extracted)
    ensures r.Name? || r.Raises?
  {
    match UrlPath(url)
    case Ok(p) => Name(Basename(p))
    case Err(m) => Raises(m)
  }

  /** `extract_filename_from_url`: for Hugging Face the last segment of the
      pattern's group when the pattern matches; nothing for CivitAI;
      otherwise the last segment of the URL's path. */
  function ExtractFilename(url: string, t: UrlType): (r: Extracted)
    ensures t == CivitAI <==> r.NoName?
    ensures r.Name? ==> '/' !in r.name
    ensures r.Raises? ==> r.message == InvalidIPv6 && UrlPath(url).Err?
    ensures t == Unknown || (t == HuggingFace && ResolveSearch(url, 0).None?) ==>
              (r.Raises? <==> UrlPath(url).Err?)
  {
    match t
    case CivitAI => NoName
    case Unknown => NameFromPath(url)
    case HuggingFace =>
      match ResolveSearch(url, 0)
      case Some(group) => Name(Basename(group))
      case None => NameFromPath(url)
  }

  /** Lines 307-310: the caller's filename when given, else the extracted
      one when non-empty, else the default. `Err` is an exception from the
      extraction, which nothing in `download_model` catches. */
  function ResolveFilename(url: string, t: UrlType, given: string): (r: Result<string, string>)
    ensures r.Ok? ==> r.value != ""
    ensures given != "" ==> r == Ok(given)
    ensures given == "" && r.Ok? ==> '/' !in r.value
    ensures given == "" && t == CivitAI ==> r == Ok(DefaultFilename)
    ensures r.Err? <==> given == "" && ExtractFilename(url, t).Raises?
    ensures given == "" && ExtractFilename(url, t).Name? ==>
              r == Ok(if ExtractFilename(url, t).name != "" then ExtractFilename(url, t).name else DefaultFilename)
  {
    DefaultFilenameIsPlain();
    if given != "" then Ok(given)
    else
      match ExtractFilename(url, t)
      case Name(f) => Ok(if f != "" then f else DefaultFilename)
      case NoName => Ok(DefaultFilename)
      case Raises(m) => Err(m)
  }

  /** The default name is a single non-empty path component. */
  lemma DefaultFilenameIsPlain()
    ensures DefaultFilename != "" && '/' !in DefaultFilename
  {
    var d := DefaultFilename;
    forall i | 0 <= i < |d|
      ensures d[i] != '/'
    {
    }
  }

  /** Without a caller-supplied name, a Hugging Face `…/resolve/<rev>/<file>`
      URL is saved under the last segment of `<file>`, or under the default
      name when that segment is empty (`<file>` ending in '/'). */
  lemma HuggingFaceResolvedName(pre: string, rev: string, file: string, query: string)
    requires rev != "" && '/' !in rev
    requires file != "" && '?' !in file
    requires query == "" || query[0] == '?'
    requires forall k :: 0 <= k < |pre| ==> !OccursAt(pre + ResolveMarker + rev + "/" + file + query, ResolveMarker, k)
    ensures ResolveFilename(pre + ResolveMarker + rev + "/" + file + query, HuggingFace, "") ==
              Ok(if Basename(file) != "" then Basename(file) else DefaultFilename)
  {
    HuggingFaceNameIsLastSegment(pre, rev, file, query);
  }

  /** A name without a separator is its own final component. */
  lemma BasenameOfPlainName(n: string)
    requires '/' !in n
    ensures Basename(n) == n
  {
    RFindUnique(n, '/', -1);
  }

  /** When the filename was not given, the target path's final component
      is exactly the derived filename, and it is never empty. */
  lemma DerivedNameIsFinalComponent(dir: string, url: string, t: UrlType)
    requires ResolveFilename(url, t, "").Ok?
    ensures var fn := ResolveFilename(url, t, "").value;
      Basename(PathJoin(dir, fn)) == fn && fn != ""
  {
    var fn := ResolveFilename(url, t, "").value;
    BasenameJoin(dir, fn);
    BasenameOfPlainName(fn);
  }

  /** The marker occurs at no position from i up to (not including) j. */
  predicate MarkerAbsent(url: string, i: nat, j: nat) {
    forall k :: i <= k < j ==> !OccursAt(url, ResolveMarker, k)
  }

  /** Positions where the marker does not occur are passed over. */
  lemma {:induction false} SearchSkips(url: string, i: nat, j: nat)
    requires i <= j <= |url| && MarkerAbsent(url, i, j)
    ensures ResolveSearch(url, i) == ResolveSearch(url, j)
    decreases j - i
  {
    if i < j {
      assert !OccursAt(url, ResolveMarker, i) && MarkerAbsent(url, i + 1, j);
      SearchStep(url, i);
      SearchSkips(url, i + 1, j);
    }
  }

  /** A position without the marker hands the search on to the next one. */
  lemma SearchStep(url: string, i: nat)
    requires i <= |url| && !OccursAt(url, ResolveMarker, i)
    ensures ResolveSearch(url, i) == ResolveSearch(url, i + 1)
  {
    assert ResolveMatchAt(url, i) == None;
  }

  /** A Hugging Face file URL `pre/resolve/<rev>/<file>` with an optional
      query yields `<file>` as the group, whatever folders `<file>` holds,
      provided the marker does not occur earlier. */
  lemma {:induction false} ResolveFileUrl(pre: string, rev: string, file: string, query: string)
    requires rev != "" && '/' !in rev
    requires file != "" && '?' !in file
    requires query == "" || query[0] == '?'
    requires forall k :: 0 <= k < |pre| ==> !OccursAt(pre + ResolveMarker + rev + "/" + file + query, ResolveMarker, k)
    ensures ResolveSearch(pre + ResolveMarker + rev + "/" + file + query, 0) == Some(file)
  {
    var url := pre + ResolveMarker + rev + "/" + file + query;
    SearchSkips(url, 0, |pre|);
    ResolveMatchAtMarker(pre, rev, file, query);
  }

  lemma ResolveMatchAtMarker(pre: string, rev: string, file: string, query: string)
    requires rev != "" && '/' !in rev
    requires file != "" && '?' !in file
    requires query == "" || query[0] == '?'
    ensures ResolveMatchAt(pre + ResolveMarker + rev + "/" + file + query, |pre|) == Some(file)
  {
    var url := pre + ResolveMarker + rev + "/" + file + query;
    var m := |pre| + |ResolveMarker|;
    assert url[|pre|..m] == ResolveMarker;
    OccursAtSlice(url, ResolveMarker, |pre|);
    var body := rev + ['/'] + (file + query);
    MarkerRegroup(pre, rev, file, query);
    assert |pre + ResolveMarker| == m;
    var rest := url[m..];
    assert rest == body;
    IndexOfConcat(rev, '/', file + query);
    assert rest[|rev| + 1..] == file + query;
    LazyGroupStopsAtQuery(file, query, 1);
  }

  lemma MarkerRegroup(pre: string, rev: string, file: string, query: string)
    ensures pre + ResolveMarker + rev + "/" + file + query == (pre + ResolveMarker) + (rev + ['/'] + (file + query))
  {
  }

  /** The lazy group takes the whole file part and stops at the query. */
  lemma {:induction false} LazyGroupStopsAtQuery(file: string, query: string, k: nat)
    requires 1 <= k <= |file| && '?' !in file
    requires query == "" || query[0] == '?'
    ensures LazyGroupEnd(file + query, k) == |file|
    decreases |file| - k
  {
    var tail := file + query;
    if k < |file| {
      assert tail[k] == file[k];
      LazyGroupStopsAtQuery(file, query, k + 1);
    } else if query != "" {
      assert tail[k] == query[0];
    }
  }

  /** For a Hugging Face URL, the name extracted is the last segment of
      the file part after `/resolve/<rev>/`. */
  lemma HuggingFaceNameIsLastSegment(pre: string, rev: string, file: string, query: string)
    requires rev != "" && '/' !in rev
    requires file != "" && '?' !in file
    requires query == "" || query[0] == '?'
    requires forall k :: 0 <= k < |pre| ==> !OccursAt(pre + ResolveMarker + rev + "/" + file + query, ResolveMarker, k)
    ensures ExtractFilename(pre + ResolveMarker + rev + "/" + file + query, HuggingFace) == Name(Basename(file))
  {
    ResolveFileUrl(pre, rev, file, query);
  }

  /** The pieces of `//host/path?query` as `urlparse` cuts them: a host
      without separators and with its brackets paired, a path that starts at
      a '/' and holds no query or fragment, and what follows it starting at
      the query or fragment. */
  predicate NetlocPathRest(host: string, path: string, rest: string) {
    '/' !in host && '?' !in host && '#' !in host && BracketsPaired(host) &&
    (path == [] || path[0] == '/') && '?' !in path && '#' !in path &&
    (rest == [] || rest[0] == '?' || rest[0] == '#')
  }

  /** A scheme `urlparse` recognises: a letter, then scheme characters. */
  predicate IsSchemeName(scheme: string) {
    scheme != [] && IsAsciiLetter(scheme[0]) &&
    forall k :: 0 <= k < |scheme| ==> IsSchemeChar(scheme[k])
  }

  /** `urlparse` splits `scheme://host/path?query` as expected: the path is
      what lies between the host and the query or fragment, less its
      parameters when the scheme has them. */
  lemma {:induction false} UrlPathOf(scheme: string, host: string, path: string, rest: string)
    requires IsSchemeName(scheme)
    requires NetlocPathRest(host, path, rest)
    ensures UrlPath(scheme + "://" + host + path + rest) == Ok(DropParams(Lower(scheme), path))
  {
    var url := scheme + "://" + host + path + rest;
    var tail := host + path + rest;
    assert url == scheme + "://" + tail;
    AfterSchemeSlashes(scheme, tail);
    NetlocThenPath(url, host, path, rest);
  }

  /** Once the scheme is gone, `//host` is skipped and the path runs up to
      the query or fragment. */
  lemma NetlocThenPath(url: string, host: string, path: string, rest: string)
    requires AfterScheme(url) == "//" + (host + path + rest)
    requires NetlocPathRest(host, path, rest)
    ensures UrlPath(url) == Ok(DropParams(SchemeOf(url), path))
  {
    var after := "//" + (host + path + rest);
    assert |after| >= 2 && after[..2] == "//";
    assert after[2..] == host + (path + rest);
    FirstOfConcat(host, path + rest, {'/', '?', '#'});
    assert (host + (path + rest))[..|host|] == host;
    assert (host + (path + rest))[|host|..] == path + rest;
    FirstOfConcat(path, rest, {'?', '#'});
    assert (path + rest)[..|path|] == path;
  }

  /** A network location with one bracket but not the other makes
      `urlparse` raise, so no name is extracted from the path. */
  lemma UnpairedBracketRaises(scheme: string, host: string, tail: string)
    requires IsSchemeName(scheme)
    requires '/' !in host && '?' !in host && '#' !in host && !BracketsPaired(host)
    requires tail == [] || tail[0] == '/' || tail[0] == '?' || tail[0] == '#'
    ensures UrlPath(scheme + "://" + host + tail) == Err(InvalidIPv6)
    ensures ExtractFilename(scheme + "://" + host + tail, Unknown) == Raises(InvalidIPv6)
  {
    var url := scheme + "://" + host + tail;
    assert url == scheme + "://" + (host + tail);
    AfterSchemeSlashes(scheme, host + tail);
    var after := "//" + (host + tail);
    assert after[2..] == host + tail;
    FirstOfConcat(host, tail, {'/', '?', '#'});
    assert (host + tail)[..|host|] == host;
  }

  lemma AfterSchemeSlashes(scheme: string, tail: string)
    requires IsSchemeName(scheme)
    ensures AfterScheme(scheme + "://" + tail) == "//" + tail
    ensures SchemeOf(scheme + "://" + tail) == Lower(scheme)
  {
    ColonSlashes(scheme, tail);
    AfterSchemeOf(scheme, "//" + tail);
  }

  lemma ColonSlashes(a: string, t: string)
    ensures a + "://" + t == a + ":" + ("//" + t)
  {
    assert "://" == ":" + "//";
  }

  lemma AfterSchemeOf(scheme: string, after: string)
    requires IsSchemeName(scheme)
    ensures AfterScheme(scheme + ":" + after) == after
    ensures SchemeOf(scheme + ":" + after) == Lower(scheme)
  {
    var url := scheme + ":" + after;
    assert ':' !in scheme;
    IndexOfConcat(scheme, ':', after);
    assert url == scheme + [':'] + after;
    assert url[..|scheme|] == scheme;
    assert url[|scheme| + 1..] == after;
    assert HasScheme(url);
  }

  /** The first stop of `a + b` is at `|a|` when `a` has none and `b`
      starts with one (or is empty). */
  lemma {:induction false} FirstOfConcat(a: string, b: string, stops: set<char>)
    requires forall k :: 0 <= k < |a| ==> a[k] !in stops
    requires b == [] || b[0] in stops
    ensures FirstOf(a + b, stops) == |a|
  {
    if a != [] {
      assert (a + b)[0] == a[0];
      assert (a + b)[1..] == a[1..] + b;
      FirstOfConcat(a[1..], b, stops);
    } else {
      assert a + b == b;
    }
  }

  /** A final path segment up to its first ';'. */
  function WithoutParams(name: string): string {
    name[..FirstOf(name, {';'})]
  }

  /** Dropping the parameters of a path cuts its last segment at its
      first ';'. */
  lemma LastSegmentWithoutParams(path: string)
    ensures Basename(path[..ParamsStart(path)]) == WithoutParams(Basename(path))
  {
    var k := RFind(path, '/');
    var s := k + 1;
    var q := path[..ParamsStart(path)];
    assert Basename(path) == path[s..];
    assert q[s..] == path[s..][..FirstOf(path[s..], {';'})];
    if k >= 0 {
      assert q[k] == path[k];
    }
    forall j | k < j < |q|
      ensures q[j] != '/'
    {
      assert q[j] == path[j];
    }
    RFindUnique(q, '/', k);
  }

  /** For a URL of no known provider, the name extracted is the last
      segment of its path, up to its first ';' when the scheme has
      parameters; the query and fragment play no part. */
  lemma OtherUrlNameIsLastPathSegment(scheme: string, host: string, path: string, rest: string)
    requires IsSchemeName(scheme)
    requires NetlocPathRest(host, path, rest)
    ensures ExtractFilename(scheme + "://" + host + path + rest, Unknown) ==
              Name(if Lower(scheme) in ParamSchemes then WithoutParams(Basename(path)) else Basename(path))
  {
    NameOfParsedUrl(scheme, host, path, rest);
    DroppedParamsName(scheme, path);
  }

  lemma NameOfParsedUrl(scheme: string, host: string, path: string, rest: string)
    requires IsSchemeName(scheme)
    requires NetlocPathRest(host, path, rest)
    ensures ExtractFilename(scheme + "://" + host + path + rest, Unknown) ==
              Name(Basename(DropParams(Lower(scheme), path)))
  {
    UrlPathOf(scheme, host, path, rest);
    NameOfPath(scheme + "://" + host + path + rest, DropParams(Lower(scheme), path));
  }

  lemma NameOfPath(url: string, p: string)
    requires UrlPath(url) == Ok(p)
    ensures ExtractFilename(url, Unknown) == Name(Basename(p))
  {
  }

  lemma DroppedParamsName(scheme: string, path: string)
    ensures Basename(DropParams(Lower(scheme), path)) ==
              (if Lower(scheme) in ParamSchemes then WithoutParams(Basename(path)) else Basename(path))
  {
    LastSegmentWithoutParams(path);
  }

  /** A Hugging Face URL without `/resolve/` falls back to the path, exactly
      as a URL of no known provider does. */
  lemma HuggingFaceWithoutMarker(url: string)
    requires !Contains(url, ResolveMarker)
    ensures ExtractFilename(url, HuggingFace) == ExtractFilename(url, Unknown)
  {
    SearchSkips(url, 0, |url|);
    SearchStep(url, |url|);
  }
}

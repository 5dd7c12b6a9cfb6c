/** Saved responses and the cache that holds them (src/core/quail_server_backend.cc). */
module ServerBackend {
  import opened Text

  type Headers = map<string, string>

  // ---------------------------------------------------------------------------------------
  // The header parser
  // ---------------------------------------------------------------------------------------

  /** What the parser leaves: the headers so far, the body, and whether it got to its end. */
  datatype Parsed = Parsed(headers: Headers, body: string, complete: bool)

  /** The first position of ": ". */
  function FindSeparator(line: string): (r: Option<nat>)
    ensures r.Some? ==> r.value + 2 <= |line|
  {
    if |line| < 2 then None
    else if line[0] == ':' && line[1] == ' ' then Some(0)
    else
      match FindSeparator(line[1..])
      case None => None
      case Some(k) => Some(k + 1)
  }

  function LowerChar(c: char): char {
    if 'A' <= c <= 'Z' then c - 'A' + 'a' else c
  }

  lemma Alphabets()
    ensures |UPPER| == |LOWER| == 26
    ensures forall i :: 0 <= i < 26 ==> UPPER[i] == 'A' + i as char && LOWER[i] == 'a' + i as char
  {
  }

  lemma LowerCharIsLower()
    ensures forall c :: IsLowerOf(LowerChar(c), c)
  {
    forall c ensures IsLowerOf(LowerChar(c), c) {
      Alphabets();
      if 'A' <= c <= 'Z' {
        assert UPPER[(c - 'A') as int] == c;
      }
    }
  }

  const UPPER := "ABCDEFGHIJKLMNOPQRSTUVWXYZ"
  const LOWER := "abcdefghijklmnopqrstuvwxyz"

  /** The letters A to Z correspond to a to z, all other characters to themselves. */
  ghost predicate IsLowerOf(l: char, c: char) {
    && (forall i :: 0 <= i < 26 && UPPER[i] == c ==> l == LOWER[i])
    && (c !in UPPER ==> l == c)
  }

  function ToLower(s: string): (r: string)
    ensures |r| == |s| && forall i :: 0 <= i < |s| ==> IsLowerOf(r[i], s[i])
  {
    LowerCharIsLower();
    seq(|s|, i requires 0 <= i < |s| => LowerChar(s[i]))
  }

  /** Http2HeaderBlock: values of a repeated header are joined. */
  function AppendValueOrAddHeader(headers: Headers, key: string, value: string): Headers {
    headers[key := if key in headers then headers[key] + Separator(key) + value else value]
  }

  function Separator(key: string): string {
    if key == "cookie" then "; " else "\0"
  }

  /** One line that is not empty; None makes the parser give up. */
  function ParseLine(line: string, headers: Headers): Option<Headers> {
    if "HTTP" <= line then
      match Find(line, ' ')
      case None => None
      case Some(pos) =>
        var rest := line[pos + 1..];
        Some(headers[":status" := if |rest| < 3 then rest else rest[..3]])
    else
      match FindSeparator(line)
      case None => None
      case Some(pos) => Some(AppendValueOrAddHeader(headers, ToLower(line[..pos]), line[pos + 2..]))
  }

  /** Both "\n" and "\r\n" end a line. */
  function WithoutCr(line: string): string {
    if line != "" && line[|line| - 1] == '\r' then line[..|line| - 1] else line
  }

  /** The first line and what follows it. */
  function SplitLine(contents: string): (r: Option<(string, string)>)
    ensures r.Some? ==> |r.value.1| < |contents|
  {
    match Find(contents, '\n')
    case None => None
    case Some(pos) => Some((WithoutCr(contents[..pos]), contents[pos + 1..]))
  }

  function Parse(contents: string, headers: Headers): (p: Parsed)
    ensures !p.complete ==> p.body == ""
    decreases |contents|
  {
    if contents == "" then Parsed(headers, "", true)
    else
      match SplitLine(contents)
      case None => Parsed(headers, "", false)
      case Some((line, rest)) =>
        if line == "" then Parsed(headers, rest, true)
        else
          match ParseLine(line, headers)
          case None => Parsed(headers, "", false)
          case Some(next) => Parse(rest, next)
  }

  // ---------------------------------------------------------------------------------------
  // Host and path
  // ---------------------------------------------------------------------------------------

  /** std::string_view::substr from the start: as many characters as there are. */
  function Front(s: string, count: nat): (r: string)
    ensures r <= s && (count <= |s| ==> |r| == count) && (count >= |s| ==> r == s)
  {
    if count < |s| then s[..count] else s
  }

  /** SetHostPathFromBase: host and path. */
  function HostAndPath(base: string): (string, string) {
    match Find(base, '/')
    case None => (base, "")
    case Some(start) =>
      var rest := base[start..];
      match Find(base, ',')
      case None => (base[..start], rest)
      case Some(query) =>
        if query > 0 then (base[..start], Front(rest, query - 1))
        else (base[..start], rest)
  }

  function RemoveScheme(url: string): string {
    if "https://" <= url then url[8..] else if "http://" <= url then url[7..] else url
  }

  // ---------------------------------------------------------------------------------------
  // A file
  // ---------------------------------------------------------------------------------------

  datatype File = File(headers: Headers, body: string, host: string, path: string)

  function SetHostPath(f: File, base: string): File {
    var (host, path) := HostAndPath(base);
    f.(host := host, path := path)
  }

  /** Read: `contents` is None when the file cannot be read. */
  function ReadFile(f: File, contents: Option<string>): File {
    match contents
    case None => f
    case Some(c) =>
      var p := Parse(c, f.headers);
      if !p.complete then f.(headers := p.headers)
      else
        var read := f.(headers := p.headers - {"connection"}, body := p.body);
        if "x-original-url" in read.headers then
          SetHostPath(read, RemoveScheme(read.headers["x-original-url"]))
        else read
  }

  // ---------------------------------------------------------------------------------------
  // The cache
  // ---------------------------------------------------------------------------------------

  datatype Response = Response(headers: Headers, body: string)

  type Cache = map<string, Response>

  function GetKey(host: string, path: string): string {
    (match Find(host, ':') case None => host case Some(port) => host[..port]) + path
  }

  datatype Entry = Entry(key: string, response: Response)

  /** AddResponseImpl: a key that is taken keeps what it has. */
  function Add(cache: Cache, e: Entry): Cache {
    if e.key in cache then cache else cache[e.key := e.response]
  }

  function AddAll(cache: Cache, entries: seq<Entry>): Cache {
    if entries == [] then cache else Add(AddAll(cache, entries[..|entries| - 1]), entries[|entries| - 1])
  }

  const FIXED_KEY := "local2/index.html"

  /** What a lookup answers with when the cache has nothing for it. `isNumber` tells which
      strings SimpleAtoi accepts. */
  function Fallback(generateBytes: Option<Response>, default: Option<Response>, isNumber: string -> bool,
                    path: string): Option<Response>
  {
    if generateBytes.Some? && path != "" && isNumber(path[1..]) then generateBytes else default
  }

  function GetResponse(cache: Cache, generateBytes: Option<Response>, default: Option<Response>,
                       isNumber: string -> bool, host: string, path: string): Option<Response>
  {
    if FIXED_KEY in cache then Some(cache[FIXED_KEY]) else Fallback(generateBytes, default, isNumber, path)
  }

  datatype Saved = Saved(name: string, contents: Option<string>)

  function WithUrlSeparators(name: string): (r: string)
    ensures |r| == |name|
  {
    seq(|name|, i requires 0 <= i < |name| => if name[i] == '\\' then '/' else name[i])
  }

  /** Loading files into a cache. */
  function Load(cache: Cache, files: seq<Saved>, directory: string): Cache {
    AddAll(cache, Entries(files, directory))
  }

  /** The file name without the directory and without one leading slash. */
  function BaseOf(name: string, directory: string): string {
    var urlName := WithUrlSeparators(name);
    var base := if |directory| < |urlName| then urlName[|directory|..] else "";
    if base != "" && base[0] == '/' then base[1..] else base
  }

  function FileOf(saved: Saved, directory: string): File {
    ReadFile(SetHostPath(File(map[], "", "", ""), BaseOf(saved.name, directory)), saved.contents)
  }

  function EntryOf(saved: Saved, directory: string): Entry {
    var f := FileOf(saved, directory);
    Entry(GetKey(f.host, f.path), Response(f.headers, f.body))
  }

  function Entries(files: seq<Saved>, directory: string): seq<Entry> {
    seq(|files|, i requires 0 <= i < |files| => EntryOf(files[i], directory))
  }

  // ---------------------------------------------------------------------------------------
  // Printing and reading back
  // ---------------------------------------------------------------------------------------

  function Line(text: string, crlf: bool): string {
    text + (if crlf then "\r\n" else "\n")
  }

  datatype Header = Header(key: string, value: string, crlf: bool)

  function PrintHeaders(hs: seq<Header>): string {
    if hs == [] then "" else Line(hs[0].key + ": " + hs[0].value, hs[0].crlf) + PrintHeaders(hs[1..])
  }

  function HeaderMap(hs: seq<Header>, headers: Headers): Headers {
    if hs == [] then headers else HeaderMap(hs[1..], AppendValueOrAddHeader(headers, ToLower(hs[0].key), hs[0].value))
  }

  /** A saved response; `eol` and `blank` tell which lines end in CRLF. */
  datatype Page = Page(protocol: string, status: string, reason: string, eol: bool,
                       headers: seq<Header>, blank: bool, body: string)

  /** Status line, headers, an empty line, body. */
  function Print(p: Page): string {
    Line("HTTP" + p.protocol + " " + p.status + p.reason, p.eol) + (PrintHeaders(p.headers) + (Line("", p.blank) + p.body))
  }

  ghost predicate PlainText(s: string) {
    '\n' !in s && (s != "" ==> s[|s| - 1] != '\r')
  }

  ghost predicate HasSeparator(s: string) {
    exists i :: 0 <= i < |s| - 1 && s[i] == ':' && s[i + 1] == ' '
  }

  ghost predicate Printable(h: Header) {
    '\n' !in h.key && !("HTTP" <= h.key) && !HasSeparator(h.key) && PlainText(h.value)
  }

  /** A printed line is read back, whichever way it ends. */
  lemma LineIsRead(text: string, crlf: bool, rest: string, headers: Headers)
    requires PlainText(text)
    ensures Parse(Line(text, crlf) + rest, headers)
            == if text == "" then Parsed(headers, rest, true)
               else match ParseLine(text, headers)
                    case None => Parsed(headers, "", false)
                    case Some(next) => Parse(rest, next)
  {
    var s := Line(text, crlf) + rest;
    var raw := if crlf then text + "\r" else text;
    FindAt(s, '\n', |raw|);
    assert s[..|raw|] == raw && s[|raw| + 1..] == rest;
    assert WithoutCr(raw) == text;
  }

  lemma {:induction false} SeparatorIsFound(key: string, value: string)
    requires !HasSeparator(key)
    ensures FindSeparator(key + ": " + value) == Some(|key|)
    decreases |key|
  {
    var line := key + ": " + value;
    if key != "" {
      assert line[1..] == key[1..] + ": " + value;
      assert !(line[0] == ':' && line[1] == ' ') by {
        assert |key| > 1 ==> !(key[0] == ':' && key[1] == ' ');
      }
      assert !HasSeparator(key[1..]) by {
        forall i | 0 <= i < |key[1..]| - 1 ensures !(key[1..][i] == ':' && key[1..][i + 1] == ' ') {
          assert !(key[i + 1] == ':' && key[i + 1 + 1] == ' ');
        }
      }
      SeparatorIsFound(key[1..], value);
    }
  }

  lemma HeaderLineIsParsed(h: Header, headers: Headers)
    requires Printable(h)
    ensures PlainText(h.key + ": " + h.value)
    ensures ParseLine(h.key + ": " + h.value, headers) == Some(AppendValueOrAddHeader(headers, ToLower(h.key), h.value))
  {
    var line := h.key + ": " + h.value;
    SeparatorIsFound(h.key, h.value);
    assert line[..|h.key|] == h.key && line[|h.key| + 2..] == h.value;
    NoStatusLine(h.key, h.value);
  }

  lemma NoStatusLine(key: string, value: string)
    requires !("HTTP" <= key)
    ensures !("HTTP" <= key + ": " + value)
  {
    var line, status := key + ": " + value, "HTTP";
    if |key| < 4 {
      assert line[|key|] == ':' && status[|key|] != ':';
    } else {
      assert line[..4] == key[..4];
    }
  }

  lemma HeaderIsRead(h: Header, tail: string, headers: Headers)
    requires Printable(h)
    ensures Parse(Line(h.key + ": " + h.value, h.crlf) + tail, headers)
            == Parse(tail, AppendValueOrAddHeader(headers, ToLower(h.key), h.value))
  {
    HeaderLineIsParsed(h, headers);
    LineIsRead(h.key + ": " + h.value, h.crlf, tail, headers);
  }

  ghost predicate AllPrintable(hs: seq<Header>) {
    forall i :: 0 <= i < |hs| ==> Printable(hs[i])
  }

  lemma {:induction false} HeadersAreRead(hs: seq<Header>, rest: string, headers: Headers)
    requires AllPrintable(hs)
    ensures Parse(PrintHeaders(hs) + rest, headers) == Parse(rest, HeaderMap(hs, headers))
  {
    if hs == [] {
      assert PrintHeaders(hs) + rest == rest;
    } else {
      var h, others := hs[0], PrintHeaders(hs[1..]);
      HeaderIsRead(h, others + rest, headers);
      Regroup(Line(h.key + ": " + h.value, h.crlf), others, rest);
      HeadersAreRead(hs[1..], rest, AppendValueOrAddHeader(headers, ToLower(h.key), h.value));
    }
  }

  lemma Regroup(a: string, b: string, c: string)
    ensures (a + b) + c == a + (b + c)
  {
  }

  lemma StatusLineIsParsed(protocol: string, status: string, reason: string, headers: Headers)
    requires ' ' !in protocol && |status| == 3
    ensures ParseLine("HTTP" + protocol + " " + status + reason, headers) == Some(headers[":status" := status])
  {
    var line := "HTTP" + protocol + " " + status + reason;
    assert "HTTP" <= line;
    FindAt(line, ' ', 4 + |protocol|);
    assert line[4 + |protocol| + 1..] == status + reason;
    assert (status + reason)[..3] == status;
  }

  lemma StatusLineIsRead(protocol: string, status: string, reason: string, eol: bool, rest: string)
    requires ' ' !in protocol && '\n' !in protocol && |status| == 3 && '\n' !in status && PlainText(status + reason)
    ensures Parse(Line("HTTP" + protocol + " " + status + reason, eol) + rest, map[]) == Parse(rest, map[":status" := status])
  {
    var line := "HTTP" + protocol + " " + status + reason;
    assert line == "HTTP" + protocol + " " + (status + reason);
    assert PlainText(line) by {
      assert line[|line| - 1] == (status + reason)[|status + reason| - 1];
    }
    var none: Headers := map[];
    StatusLineIsParsed(protocol, status, reason, none);
    LineIsRead(line, eol, rest, none);
    assert none[":status" := status] == map[":status" := status];
  }

  ghost predicate IsPage(p: Page) {
    && ' ' !in p.protocol && '\n' !in p.protocol && |p.status| == 3 && '\n' !in p.status && PlainText(p.status + p.reason)
    && AllPrintable(p.headers)
  }

  lemma PrintedIsParsed(p: Page)
    requires IsPage(p)
    ensures Parse(Print(p), map[]) == Parsed(HeaderMap(p.headers, map[":status" := p.status]), p.body, true)
  {
    var end := Line("", p.blank) + p.body;
    var start := map[":status" := p.status];
    StatusLineIsRead(p.protocol, p.status, p.reason, p.eol, PrintHeaders(p.headers) + end);
    HeadersAreRead(p.headers, end, start);
    LineIsRead("", p.blank, p.body, HeaderMap(p.headers, start));
  }

  /** The value a page gives a key: the status, and all its header lines with that key. */
  function PageValues(p: Page, key: string): seq<string> {
    (if key == ":status" then [p.status] else []) + ValuesOf(p.headers, key)
  }

  /** The headers of a page, without `connection`: each key has its values, joined in order. */
  ghost predicate HasPageHeaders(headers: Headers, p: Page) {
    forall k :: (k in headers <==> k != "connection" && PageValues(p, k) != [])
                && (k in headers ==> headers[k] == Joined(PageValues(p, k), if k == "cookie" then "; " else "\0"))
  }

  lemma PageHeaders(p: Page)
    ensures HasPageHeaders(HeaderMap(p.headers, map[":status" := p.status]) - {"connection"}, p)
  {
    forall k {
      HeaderMapIsExact(p.headers, map[":status" := p.status], k);
    }
  }

  /** The base that a page names itself, if it does. */
  function PageUrl(p: Page): Option<string> {
    var values := PageValues(p, "x-original-url");
    if values == [] then None else Some(Joined(values, "\0"))
  }

  lemma UrlOfHeaders(headers: Headers, p: Page)
    requires HasPageHeaders(headers, p)
    ensures (if "x-original-url" in headers then Some(headers["x-original-url"]) else None) == PageUrl(p)
  {
  }

  lemma PrintedFile(f: File, p: Page)
    requires f.headers == map[] && IsPage(p)
    ensures var headers := HeaderMap(p.headers, map[":status" := p.status]) - {"connection"};
            var read := f.(headers := headers, body := p.body);
            ReadFile(f, Some(Print(p)))
            == if "x-original-url" in headers then SetHostPath(read, RemoveScheme(headers["x-original-url"])) else read
  {
    PrintedIsParsed(p);
  }

  /** What was printed is read back: the status, the headers but for `connection`, the body; and
      x-original-url overrides host and path. */
  lemma {:induction false} PrintedIsReadBack(f: File, p: Page)
    requires f.headers == map[] && IsPage(p)
    ensures var r := ReadFile(f, Some(Print(p)));
            && HasPageHeaders(r.headers, p) && r.body == p.body
            && (r.host, r.path) == if PageUrl(p).Some? then HostAndPath(RemoveScheme(PageUrl(p).value)) else (f.host, f.path)
  {
    PrintedFile(f, p);
    PageHeaders(p);
    UrlOfHeaders(HeaderMap(p.headers, map[":status" := p.status]) - {"connection"}, p);
  }

  /** The values printed for a key, in whatever letters, in order. */
  function ValuesOf(hs: seq<Header>, key: string): seq<string> {
    if hs == [] then []
    else (if ToLower(hs[0].key) == key then [hs[0].value] else []) + ValuesOf(hs[1..], key)
  }

  /** Texts with a separator between each two. */
  function Joined(texts: seq<string>, separator: string): string {
    if texts == [] then "" else if |texts| == 1 then texts[0]
    else texts[0] + separator + Joined(texts[1..], separator)
  }

  lemma JoinFirstTwo(a: string, b: string, texts: seq<string>, separator: string)
    ensures Joined([a + separator + b] + texts, separator) == Joined([a] + ([b] + texts), separator)
  {
    var two := [a] + ([b] + texts);
    assert two[1..] == [b] + texts;
    if texts != [] {
      assert ([a + separator + b] + texts)[1..] == texts && two[1..][1..] == texts;
      var tail := separator + Joined(texts, separator);
      assert (a + separator + b) + tail == a + separator + (b + tail);
    }
  }

  /** HeaderMap holds exactly the printed headers: a key has its values, joined in order. */
  lemma {:induction false} HeaderMapIsExact(hs: seq<Header>, headers: Headers, k: string)
    ensures var values := (if k in headers then [headers[k]] else []) + ValuesOf(hs, k);
            && (k in HeaderMap(hs, headers) <==> values != [])
            && (values != [] ==> HeaderMap(hs, headers)[k] == Joined(values, if k == "cookie" then "; " else "\0"))
  {
    if hs == [] {
      assert k in headers ==> [headers[k]] + [] == [headers[k]];
    } else {
      var h, rest := hs[0], ValuesOf(hs[1..], k);
      HeaderMapIsExact(hs[1..], AppendValueOrAddHeader(headers, ToLower(h.key), h.value), k);
      if ToLower(h.key) == k {
        assert [] + ([h.value] + rest) == [h.value] + rest;
        if k in headers {
          JoinFirstTwo(headers[k], h.value, rest, Separator(k));
        }
      } else {
        assert [] + rest == rest;
      }
    }
  }

  // ---------------------------------------------------------------------------------------
  // Which contents are read
  // ---------------------------------------------------------------------------------------

  /** A header line that the parser takes: a status line with a space, or one with ": ". */
  ghost predicate IsHeaderLine(line: string) {
    && line != ""
    && if "HTTP" <= line then ' ' in line else HasSeparator(line)
  }

  lemma {:induction false} SeparatorIffFound(line: string)
    ensures FindSeparator(line).Some? <==> HasSeparator(line)
    decreases |line|
  {
    if |line| >= 2 && !(line[0] == ':' && line[1] == ' ') {
      SeparatorIffFound(line[1..]);
      if HasSeparator(line) {
        var i :| 0 <= i < |line| - 1 && line[i] == ':' && line[i + 1] == ' ';
        assert line[1..][i - 1] == ':' && line[1..][i - 1 + 1] == ' ';
      }
      if HasSeparator(line[1..]) {
        var i :| 0 <= i < |line[1..]| - 1 && line[1..][i] == ':' && line[1..][i + 1] == ' ';
        assert line[i + 1] == ':' && line[i + 1 + 1] == ' ';
      }
    }
  }

  lemma LineIsParsedIff(line: string, headers: Headers)
    requires line != ""
    ensures ParseLine(line, headers).Some? <==> IsHeaderLine(line)
  {
    SeparatorIffFound(line);
  }

  /** Lines as they stand in a file, up to their newlines. */
  function Lines(raws: seq<string>): string {
    if raws == [] then "" else raws[0] + "\n" + Lines(raws[1..])
  }

  ghost predicate AreHeaderLines(raws: seq<string>) {
    forall i :: 0 <= i < |raws| ==> '\n' !in raws[i] && IsHeaderLine(WithoutCr(raws[i]))
  }

  /** Header lines, and then either the end of the file or an empty line and the body. */
  ghost predicate IsSavedResponse(contents: string, raws: seq<string>, end: string) {
    && AreHeaderLines(raws) && contents == Lines(raws) + end
    && (end == "" || "\n" <= end || "\r\n" <= end)
  }

  /** What follows the line by which the headers end. */
  function BodyOf(end: string): string {
    if "\n" <= end then end[1..] else if "\r\n" <= end then end[2..] else ""
  }

  lemma RawLineIsRead(raw: string, rest: string, headers: Headers)
    requires '\n' !in raw
    ensures SplitLine(raw + "\n" + rest) == Some((WithoutCr(raw), rest))
  {
    var s := raw + "\n" + rest;
    FindAt(s, '\n', |raw|);
    assert s[..|raw|] == raw && s[|raw| + 1..] == rest;
  }

  lemma {:induction false} SavedIsRead(contents: string, raws: seq<string>, end: string, headers: Headers)
    requires IsSavedResponse(contents, raws, end)
    ensures Parse(contents, headers).complete && Parse(contents, headers).body == BodyOf(end)
    decreases |raws|
  {
    if raws == [] {
      assert contents == end;
      EndIsRead(end, headers);
    } else {
      var rest := Lines(raws[1..]) + end;
      assert contents == raws[0] + "\n" + rest;
      RawLineIsRead(raws[0], rest, headers);
      LineIsParsedIff(WithoutCr(raws[0]), headers);
      SavedIsRead(rest, raws[1..], end, ParseLine(WithoutCr(raws[0]), headers).value);
    }
  }

  lemma EndIsRead(end: string, headers: Headers)
    requires end == "" || "\n" <= end || "\r\n" <= end
    ensures Parse(end, headers) == Parsed(headers, BodyOf(end), true)
  {
    if "\n" <= end {
      assert end == "" + "\n" + end[1..];
      RawLineIsRead("", end[1..], headers);
    } else if "\r\n" <= end {
      assert end == "\r" + "\n" + end[2..];
      RawLineIsRead("\r", end[2..], headers);
    }
  }

  lemma OneLineMore(raw: string, rest: string, raws: seq<string>, end: string)
    requires IsSavedResponse(rest, raws, end) && '\n' !in raw && IsHeaderLine(WithoutCr(raw))
    ensures IsSavedResponse(raw + "\n" + rest, [raw] + raws, end)
  {
    var all := [raw] + raws;
    assert all[1..] == raws;
    assert raw + "\n" + (Lines(raws) + end) == (raw + "\n" + Lines(raws)) + end;
  }

  lemma FirstLine(contents: string) returns (raw: string, rest: string)
    requires SplitLine(contents).Some?
    ensures contents == raw + "\n" + rest && '\n' !in raw && SplitLine(contents) == Some((WithoutCr(raw), rest))
    ensures |rest| < |contents|
  {
    var pos := Find(contents, '\n').value;
    raw, rest := contents[..pos], contents[pos + 1..];
  }

  lemma EmptyLineEnds(raw: string, rest: string)
    requires WithoutCr(raw) == ""
    ensures IsSavedResponse(raw + "\n" + rest, [], raw + "\n" + rest)
  {
    var contents := raw + "\n" + rest;
    assert raw == "" || raw == "\r";
    assert Lines([]) + contents == contents;
    assert raw == "" ==> "\n" <= contents;
    assert raw == "\r" ==> "\r\n" <= contents;
  }

  lemma {:induction false} ReadIsSaved(contents: string, headers: Headers) returns (raws: seq<string>, end: string)
    requires Parse(contents, headers).complete
    ensures IsSavedResponse(contents, raws, end)
    decreases |contents|
  {
    if contents == "" {
      raws, end := [], "";
    } else {
      var raw, rest := FirstLine(contents);
      if WithoutCr(raw) == "" {
        EmptyLineEnds(raw, rest);
        raws, end := [], contents;
      } else {
        LineIsParsedIff(WithoutCr(raw), headers);
        raws, end := ReadIsSaved(rest, ParseLine(WithoutCr(raw), headers).value);
        OneLineMore(raw, rest, raws, end);
        raws := [raw] + raws;
      }
    }
  }

  /** Reading gets to its end exactly on header lines that each end in a newline, followed by
      nothing or by an empty line and the body, which is then the body read. On all other
      contents it gives up. */
  lemma {:induction false} IsReadIff(contents: string, headers: Headers, body: string)
    ensures Parse(contents, headers).complete && Parse(contents, headers).body == body
            <==> exists raws, end :: IsSavedResponse(contents, raws, end) && BodyOf(end) == body
  {
    if Parse(contents, headers).complete {
      var raws, end := ReadIsSaved(contents, headers);
      SavedIsRead(contents, raws, end, headers);
    }
    forall raws, end | IsSavedResponse(contents, raws, end) && BodyOf(end) == body
      ensures Parse(contents, headers).complete && Parse(contents, headers).body == body
    {
      SavedIsRead(contents, raws, end, headers);
    }
  }

  // ---------------------------------------------------------------------------------------
  // Host, path and key
  // ---------------------------------------------------------------------------------------

  /** Host and path together are a prefix of the base that keeps everything before its first
      comma, and the whole base if it has none; for a base that does not begin with '/'. */
  lemma HostAndPathArePrefix(base: string)
    requires base != "" && base[0] != '/'
    ensures var (host, path) := HostAndPath(base);
            && host + path <= base
            && (Find(base, ',') == None ==> host + path == base)
            && (Find(base, ',').Some? ==> Find(base, ',').value <= |host + path|)
            && '/' !in host && (path != "" ==> path[0] == '/')
  {
    var (host, path) := HostAndPath(base);
    if Find(base, '/').Some? {
      var start := Find(base, '/').value;
      assert base == base[..start] + base[start..];
      assert path <= base[start..];
    }
  }

  lemma SchemeIsRemoved(rest: string)
    ensures RemoveScheme("https://" + rest) == rest && RemoveScheme("http://" + rest) == rest
    ensures !("https://" <= rest) && !("http://" <= rest) ==> RemoveScheme(rest) == rest
  {
    assert "https://" <= "https://" + rest && ("https://" + rest)[8..] == rest;
    assert ("http://" + rest)[4] == ':' && "https://"[4] == 's';
    assert "http://" <= "http://" + rest && ("http://" + rest)[7..] == rest;
  }

  /** A file below the directory has the rest of its name as base, separators turned. */
  lemma BaseIsRestOfName(directory: string, slash: char, rest: string)
    requires slash == '/' || slash == '\\'
    ensures BaseOf(directory + [slash] + rest, directory) == WithUrlSeparators(rest)
    ensures forall i :: 0 <= i < |rest| ==>
              WithUrlSeparators(rest)[i] != '\\' && (rest[i] != '\\' ==> WithUrlSeparators(rest)[i] == rest[i])
  {
    var url := WithUrlSeparators(directory + [slash] + rest);
    assert url[|directory|..] == ['/'] + WithUrlSeparators(rest);
  }

  /** So does one below a directory that is named with its last slash. */
  lemma BaseAfterSlash(directory: string, rest: string)
    requires rest != "" ==> rest[0] != '/' && rest[0] != '\\'
    ensures BaseOf(directory + rest, directory) == WithUrlSeparators(rest)
  {
    var url := WithUrlSeparators(directory + rest);
    assert url[|directory|..] == WithUrlSeparators(rest);
  }

  /** The path is cut by a count that starts at its own first character instead of the base's.
      So host and path end at the first comma only if that comes after a host of one character. */
  lemma PathEndsAtCommaIff(base: string)
    requires base != "" && base[0] != '/' && Find(base, ',').Some?
    ensures var (host, path) := HostAndPath(base);
            |host + path| == Find(base, ',').value
            <==> Find(base, '/') == Some(1) && Find(base, ',').value > 1
  {
  }

  /** What is left of a base with a slash and a comma is its front up to as many characters behind
      the slash as the comma is from the start, less one. */
  lemma PathIsCut(base: string, slash: nat, comma: nat)
    requires Find(base, '/') == Some(slash) && Find(base, ',') == Some(comma) && comma > 0
    ensures HostAndPath(base).0 + HostAndPath(base).1 == Front(base, slash + comma - 1)
  {
    FrontOfParts(base, slash, comma - 1);
  }

  lemma FrontOfParts(s: string, start: nat, count: nat)
    requires start <= |s|
    ensures s[..start] + Front(s[start..], count) == Front(s, start + count)
  {
    var front := Front(s, start + count);
    assert front == front[..start] + front[start..];
  }

  /** The key does not depend on a port. */
  lemma KeyIgnoresPort(host: string, port: string, path: string)
    requires ':' !in host
    ensures GetKey(host + ":" + port, path) == GetKey(host, path) == host + path
  {
    FindAt(host + ":" + port, ':', |host|);
    assert (host + ":" + port)[..|host|] == host;
  }

  // ---------------------------------------------------------------------------------------
  // The cache
  // ---------------------------------------------------------------------------------------

  /** The first entry with the key. */
  ghost predicate IsFirst(entries: seq<Entry>, key: string, i: int) {
    && 0 <= i < |entries| && entries[i].key == key
    && forall j :: 0 <= j < i ==> entries[j].key != key
  }

  /** A key holds what it held before; failing that, what the first entry with that key gives;
      failing that, nothing. */
  lemma {:induction false} FirstEntryWins(cache: Cache, entries: seq<Entry>, key: string)
    ensures key in cache ==> key in AddAll(cache, entries) && AddAll(cache, entries)[key] == cache[key]
    ensures key !in cache ==> (key in AddAll(cache, entries) <==> exists i :: IsFirst(entries, key, i))
    ensures forall i :: key !in cache && IsFirst(entries, key, i) ==>
              key in AddAll(cache, entries) && AddAll(cache, entries)[key] == entries[i].response
  {
    if entries != [] {
      var n := |entries| - 1;
      var front := entries[..n];
      FirstEntryWins(cache, front, key);
      forall i | 0 <= i < n ensures IsFirst(entries, key, i) <==> IsFirst(front, key, i) {
      }
      if entries[n].key == key && !exists i :: IsFirst(front, key, i) {
        NoneBefore(front, key);
        assert IsFirst(entries, key, n);
      }
    }
  }

  lemma {:induction false} NoneBefore(entries: seq<Entry>, key: string)
    requires !exists i :: IsFirst(entries, key, i)
    ensures forall j :: 0 <= j < |entries| ==> entries[j].key != key
  {
    if entries != [] {
      var n := |entries| - 1;
      var front := entries[..n];
      forall i ensures !IsFirst(front, key, i) {
        assert IsFirst(front, key, i) ==> IsFirst(entries, key, i);
      }
      NoneBefore(front, key);
      assert forall j :: 0 <= j < n ==> front[j] == entries[j];
      assert !IsFirst(entries, key, n);
    }
  }

  /** Adding more never changes an entry that is there. */
  lemma {:induction false} AddingGoesOn(cache: Cache, first: seq<Entry>, second: seq<Entry>)
    ensures AddAll(cache, first + second) == AddAll(AddAll(cache, first), second)
    ensures forall k :: k in AddAll(cache, first) ==>
              k in AddAll(cache, first + second) && AddAll(cache, first + second)[k] == AddAll(cache, first)[k]
    decreases |second|
  {
    if second == [] {
      assert first + second == first;
    } else {
      var all := first + second;
      assert all[..|all| - 1] == first + second[..|second| - 1];
      AddingGoesOn(cache, first, second[..|second| - 1]);
    }
  }

  // What a file is stored under, and as what, in terms of its contents.

  /** The URL a file gives itself, if it is read to its end. */
  function OriginalUrl(contents: Option<string>): Option<string> {
    if contents.None? then None
    else
      var p := Parse(contents.value, map[]);
      if p.complete && "x-original-url" in p.headers then Some(p.headers["x-original-url"]) else None
  }

  /** Host and path come from that URL, or else from the place of the file in the directory. */
  function StoredKey(file: Saved, directory: string): string {
    var url := OriginalUrl(file.contents);
    var (host, path) := HostAndPath(if url.Some? then RemoveScheme(url.value) else BaseOf(file.name, directory));
    GetKey(host, path)
  }

  lemma KeyOfEntry(file: Saved, directory: string)
    ensures EntryOf(file, directory).key == StoredKey(file, directory)
  {
  }

  /** The first file stored under the fixed key. */
  ghost predicate IsFirstFixed(files: seq<Saved>, directory: string, i: int) {
    && 0 <= i < |files| && StoredKey(files[i], directory) == FIXED_KEY
    && forall j :: 0 <= j < i ==> StoredKey(files[j], directory) != FIXED_KEY
  }

  lemma FirstFixedEntry(files: seq<Saved>, directory: string, i: int)
    ensures IsFirst(Entries(files, directory), FIXED_KEY, i) <==> IsFirstFixed(files, directory, i)
  {
    forall k | 0 <= k < |files| ensures Entries(files, directory)[k].key == StoredKey(files[k], directory) {
      KeyOfEntry(files[k], directory);
    }
  }

  /** After loading, every lookup answers if and only if some file is stored under the fixed key. */
  lemma {:induction false} EveryLookupIsTheFixedOne(files: seq<Saved>, directory: string, isNumber: string -> bool,
                                                    host: string, path: string)
    ensures var r := GetResponse(Load(map[], files, directory), None, None, isNumber, host, path);
            r.Some? <==> exists i :: IsFirstFixed(files, directory, i)
  {
    var entries := Entries(files, directory);
    FirstEntryWins(map[], entries, FIXED_KEY);
    forall i ensures IsFirst(entries, FIXED_KEY, i) <==> IsFirstFixed(files, directory, i) {
      FirstFixedEntry(files, directory, i);
    }
  }

  /** If the first file stored under the fixed key is a printed page, every lookup answers with
      the status, the headers but for `connection` and the body of that page. */
  lemma {:induction false} LoadedPageIsServed(files: seq<Saved>, directory: string, i: nat, p: Page,
                                              generateBytes: Option<Response>, default: Option<Response>,
                                              isNumber: string -> bool, host: string, path: string)
    requires IsFirstFixed(files, directory, i) && IsPage(p) && files[i].contents == Some(Print(p))
    ensures var r := GetResponse(Load(map[], files, directory), generateBytes, default, isNumber, host, path);
            r.Some? && HasPageHeaders(r.value.headers, p) && r.value.body == p.body
  {
    FirstFixedEntry(files, directory, i);
    FirstEntryWins(map[], Entries(files, directory), FIXED_KEY);
    PrintedIsReadBack(SetHostPath(File(map[], "", "", ""), BaseOf(files[i].name, directory)), p);
  }

  /** The first file stored under the fixed key is there with its headers and body, if it is a page. */
  ghost predicate ServesFirstPage(cache: Cache, files: seq<Saved>, directory: string) {
    forall i, p :: IsFirstFixed(files, directory, i) && IsPage(p) && files[i].contents == Some(Print(p)) ==>
      && FIXED_KEY in cache && HasPageHeaders(cache[FIXED_KEY].headers, p) && cache[FIXED_KEY].body == p.body
  }

  lemma LoadServesFirstPage(files: seq<Saved>, directory: string)
    ensures ServesFirstPage(Load(map[], files, directory), files, directory)
  {
    var cache := Load(map[], files, directory);
    forall i, p | IsFirstFixed(files, directory, i) && IsPage(p) && files[i].contents == Some(Print(p))
      ensures FIXED_KEY in cache && HasPageHeaders(cache[FIXED_KEY].headers, p) && cache[FIXED_KEY].body == p.body
    {
      LoadedPageIsServed(files, directory, i, p, None, None, _ => false, "", "");
    }
  }

  /** A page below the directory that names no URL is stored under its host and path. */
  lemma {:induction false} PageIsStoredUnderName(directory: string, host: string, path: string, p: Page)
    requires '/' !in host && ':' !in host && ',' !in host + path && path != "" && path[0] == '/'
    requires '\\' !in host + path && IsPage(p) && PageUrl(p) == None
    ensures StoredKey(Saved(directory + "/" + (host + path), Some(Print(p))), directory) == host + path
  {
    PrintedIsParsed(p);
    PageHeaders(p);
    HeaderMapIsExact(p.headers, map[":status" := p.status], "x-original-url");
    BaseIsRestOfName(directory, '/', host + path);
    assert WithUrlSeparators(host + path) == host + path;
    PlainName(host, path);
  }

  /** A first file that cannot be read, or whose reading gives up, is served with no body and the
      headers taken in so far. */
  lemma {:induction false} UnreadableIsServedEmpty(files: seq<Saved>, directory: string, i: nat,
                                                   isNumber: string -> bool, host: string, path: string)
    requires IsFirstFixed(files, directory, i)
    requires files[i].contents.Some? ==> !Parse(files[i].contents.value, map[]).complete
    ensures GetResponse(Load(map[], files, directory), None, None, isNumber, host, path)
            == Some(Response(if files[i].contents.Some? then Parse(files[i].contents.value, map[]).headers else map[], ""))
  {
    FirstFixedEntry(files, directory, i);
    FirstEntryWins(map[], Entries(files, directory), FIXED_KEY);
  }

  /** Without an entry under the fixed key: generated bytes for a path that is a number after its
      first character, if such a response was set up, else the default, if there is one. */
  lemma MissIsAnswered(cache: Cache, generateBytes: Option<Response>, default: Option<Response>,
                       isNumber: string -> bool, host: string, c: char, number: string)
    requires FIXED_KEY !in cache
    ensures GetResponse(cache, generateBytes, default, isNumber, host, [c] + number)
            == match generateBytes
               case None => default
               case Some(g) => if isNumber(number) then Some(g) else default
    ensures GetResponse(cache, generateBytes, default, isNumber, host, "") == default
  {
    assert ([c] + number)[1..] == number;
  }

  /** The lookup that is documented: for a given host and path. */
  function DocumentedLookup(cache: Cache, generateBytes: Option<Response>, default: Option<Response>,
                            isNumber: string -> bool, host: string, path: string): Option<Response>
  {
    if GetKey(host, path) in cache then Some(cache[GetKey(host, path)])
    else Fallback(generateBytes, default, isNumber, path)
  }

  /** A host and a path are looked up as documented, in every cache, exactly if theirs is the
      fixed key. */
  lemma LookupIsDocumentedIff(generateBytes: Option<Response>, default: Option<Response>,
                              isNumber: string -> bool, host: string, path: string)
    ensures (forall cache :: GetResponse(cache, generateBytes, default, isNumber, host, path)
                             == DocumentedLookup(cache, generateBytes, default, isNumber, host, path))
            <==> GetKey(host, path) == FIXED_KEY
  {
    if GetKey(host, path) != FIXED_KEY {
      var fallback := Fallback(generateBytes, default, isNumber, path);
      var other := Response(map[], if fallback.Some? then fallback.value.body + "." else "");
      var cache := map[FIXED_KEY := other];
      assert GetResponse(cache, generateBytes, default, isNumber, host, path)
             != DocumentedLookup(cache, generateBytes, default, isNumber, host, path);
    }
  }

  /** A name that SetHostPathFromBase and GetKey take apart and put together again. */
  lemma PlainName(host: string, path: string)
    requires '/' !in host && ':' !in host && ',' !in host + path && path != "" && path[0] == '/'
    ensures HostAndPath(host + path) == (host, path)
    ensures GetKey(host, path) == host + path
  {
    FindAt(host + path, '/', |host|);
    assert (host + path)[..|host|] == host && (host + path)[|host|..] == path;
  }

  /** The key of a file that has such a name and cannot be read. */
  lemma PlainFile(directory: string, host: string, path: string)
    requires '/' !in host && ':' !in host && ',' !in host + path && path != "" && path[0] == '/'
    requires '\\' !in host + path
    ensures EntryOf(Saved(directory + "/" + (host + path), None), directory).key == host + path
  {
    BaseIsRestOfName(directory, '/', host + path);
    assert WithUrlSeparators(host + path) == host + path;
    PlainName(host, path);
  }

  lemma FixedFile(directory: string)
    ensures EntryOf(Saved(directory + "/" + FIXED_KEY, None), directory).key == FIXED_KEY
  {
    assert "local2" + "/index.html" == FIXED_KEY;
    PlainFile(directory, "local2", "/index.html");
  }

  lemma OnlyFirst(e: Entry, key: string)
    ensures key in AddAll(map[], [e]) <==> key == e.key
  {
    FirstEntryWins(map[], [e], key);
    assert IsFirst([e], e.key, 0);
    assert forall i :: IsFirst([e], key, i) ==> i == 0;
  }

  /** A file stored under the fixed key is found for a host and path that have another one. */
  lemma FixedFileIsFound(directory: string, isNumber: string -> bool, host: string, path: string)
    requires GetKey(host, path) != FIXED_KEY
    ensures var cache := Load(map[], [Saved(directory + "/" + FIXED_KEY, None)], directory);
            GetResponse(cache, None, None, isNumber, host, path) != DocumentedLookup(cache, None, None, isNumber, host, path)
  {
    var file := Saved(directory + "/" + FIXED_KEY, None);
    var e := EntryOf(file, directory);
    FixedFile(directory);
    assert Entries([file], directory) == [e];
    OnlyFirst(e, FIXED_KEY);
    OnlyFirst(e, GetKey(host, path));
  }

  lemma FixedKeyAgrees(cache: Cache, isNumber: string -> bool, host: string, path: string)
    requires GetKey(host, path) == FIXED_KEY
    ensures GetResponse(cache, None, None, isNumber, host, path) == DocumentedLookup(cache, None, None, isNumber, host, path)
  {
  }

  /** Whether the lookup is the documented one after loading the files. */
  ghost predicate LooksUpAsDocumented(files: seq<Saved>, directory: string, isNumber: string -> bool,
                                      host: string, path: string)
  {
    var cache := Load(map[], files, directory);
    GetResponse(cache, None, None, isNumber, host, path) == DocumentedLookup(cache, None, None, isNumber, host, path)
  }

  lemma FixedFileTellsApart(directory: string, isNumber: string -> bool, host: string, path: string)
    requires GetKey(host, path) != FIXED_KEY
    ensures exists files :: !LooksUpAsDocumented(files, directory, isNumber, host, path)
  {
    var files := [Saved(directory + "/" + FIXED_KEY, None)];
    FixedFileIsFound(directory, isNumber, host, path);
    assert !LooksUpAsDocumented(files, directory, isNumber, host, path);
  }

  lemma FixedKeyLooksUp(files: seq<Saved>, directory: string, isNumber: string -> bool, host: string, path: string)
    requires GetKey(host, path) == FIXED_KEY
    ensures LooksUpAsDocumented(files, directory, isNumber, host, path)
  {
    FixedKeyAgrees(Load(map[], files, directory), isNumber, host, path);
  }

  /** The same after loading files from a directory, without other responses. */
  lemma LoadedLookupIsDocumentedIff(directory: string, isNumber: string -> bool, host: string, path: string)
    ensures (forall files :: LooksUpAsDocumented(files, directory, isNumber, host, path))
            <==> GetKey(host, path) == FIXED_KEY
  {
    if GetKey(host, path) != FIXED_KEY {
      FixedFileTellsApart(directory, isNumber, host, path);
    } else {
      forall files ensures LooksUpAsDocumented(files, directory, isNumber, host, path) {
        FixedKeyLooksUp(files, directory, isNumber, host, path);
      }
    }
  }
}

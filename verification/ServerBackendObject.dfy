/** ResourceFile and QuailServerBackend of src/core/quail_server_backend.cc as objects, with
    their loops, each method proved to do what ServerBackend says. */
module ServerBackendObject {
  import opened Text
  import opened ServerBackend

  /** A file that begins with a newline makes the parser look before its first character. */
  predicate BeginsWithText(contents: Option<string>) {
    contents.Some? && contents.value != "" ==> contents.value[0] != '\n'
  }

  /** The line between two positions, without the CR that the character before the newline may
      be. That character belongs to this line, or to the line before and is a newline. */
  function CutLine(contents: string, start: nat, pos: nat): (line: string)
    requires start <= pos < |contents| && 0 < pos && (start > 0 ==> contents[start - 1] == '\n')
    ensures line == WithoutCr(contents[start..pos])
  {
    var len := pos - start;
    var len := if contents[pos - 1] == '\r' then len - 1 else len;
    assert start < pos ==> contents[start..pos][pos - start - 1] == contents[pos - 1];
    contents[start..start + len]
  }

  /** The first line from a position on, in terms of positions. */
  lemma SplitAt(contents: string, start: nat)
    requires start < |contents|
    ensures SplitLine(contents[start..])
            == match Find(contents[start..], '\n')
               case None => None
               case Some(k) => Some((WithoutCr(contents[start..start + k]), contents[start + k + 1..]))
  {
    var tail := contents[start..];
    if Find(tail, '\n').Some? {
      var k := Find(tail, '\n').value;
      assert tail[k + 1..] == contents[start + k + 1..] && tail[..k] == contents[start..start + k];
    }
  }

  /** One turn of the header loop on what is left of the contents: it gives up, or finds the
      empty line and takes the rest as the body, or takes in a header and goes on with the rest. */
  ghost predicate Turn(tail: string, before: Headers, headers: Headers, body: string, rest: string,
                       more: bool, complete: bool)
  {
    match SplitLine(tail)
    case None => !more && !complete && headers == before && body == ""
    case Some((line, next)) =>
      if line == "" then !more && complete && headers == before && body == next
      else
        match ParseLine(line, before)
        case None => !more && !complete && headers == before && body == ""
        case Some(after) => more && headers == after && body == "" && rest == next
  }

  lemma TurnParses(tail: string, before: Headers, headers: Headers, body: string, rest: string,
                   more: bool, complete: bool)
    requires tail != "" && Turn(tail, before, headers, body, rest, more, complete)
    ensures if more then Parse(rest, headers) == Parse(tail, before)
            else Parsed(headers, body, complete) == Parse(tail, before)
  {
  }

  /** One more entry. */
  lemma AddOneMore(cache: Cache, entries: seq<Entry>, n: nat)
    requires n < |entries|
    ensures AddAll(cache, entries[..n + 1]) == Add(AddAll(cache, entries[..n]), entries[n])
  {
    assert entries[..n + 1][..n] == entries[..n];
  }

  class ResourceFile {
    const fileName: string
    var headers: Headers
    var body: string
    var host: string
    var path: string

    ghost function View(): File
      reads this
    {
      File(headers, body, host, path)
    }

    constructor (fileName: string)
      ensures View() == File(map[], "", "", "") && this.fileName == fileName
    {
      this.fileName := fileName;
      headers, body, host, path := map[], "", "", "";
    }

    method SetHostPathFromBase(base: string)
      modifies this
      ensures View() == SetHostPath(old(View()), base)
    {
      var pathStart := Find(base, '/');
      if pathStart.None? {
        host, path := base, "";
        return;
      }
      host := base[..pathStart.value];
      var rest := base[pathStart.value..];
      var queryStart := Find(base, ',');
      if queryStart.None? {
        path := rest;
      } else if queryStart.value > 0 {
        path := Front(rest, queryStart.value - 1);
      } else {
        path := rest;
      }
    }

    method HandleXOriginalUrl(url: string)
      modifies this
      ensures View() == SetHostPath(old(View()), RemoveScheme(url))
    {
      SetHostPathFromBase(RemoveScheme(url));
    }

    /** One turn of the header loop: `more` tells whether it goes on, at `end`. */
    method ReadLine(contents: string, start: nat) returns (end: nat, more: bool, complete: bool)
      requires start < |contents| && body == ""
      requires if start > 0 then contents[start - 1] == '\n' else contents[0] != '\n'
      modifies this`headers, this`body
      ensures end <= |contents| && (more ==> start < end && contents[end - 1] == '\n')
      ensures Turn(contents[start..], old(headers), headers, body, contents[end..], more, complete)
    {
      SplitAt(contents, start);
      var found := Find(contents[start..], '\n');
      if found.None? {
        return start, false, false;
      }
      var pos := start + found.value;
      var line := CutLine(contents, start, pos);
      end := pos + 1;
      assert SplitLine(contents[start..]) == Some((line, contents[end..]));
      if line == "" {
        body := contents[end..];
        return end, false, true;
      }
      var next := ParseLine(line, headers);
      if next.None? {
        return end, false, false;
      }
      headers := next.value;
      return end, true, false;
    }

    /** The header loop of Read, over positions in the whole contents. */
    method ReadHeaders(contents: string) returns (complete: bool)
      requires contents != "" ==> contents[0] != '\n'
      requires body == ""
      modifies this`headers, this`body
      ensures Parsed(headers, body, complete) == Parse(contents, old(headers))
    {
      var start := 0;
      assert contents[0..] == contents;
      while start < |contents|
        invariant 0 <= start <= |contents| && body == ""
        invariant start > 0 ==> contents[start - 1] == '\n'
        invariant Parse(contents[start..], headers) == Parse(contents, old(headers))
      {
        ghost var before := headers;
        var end, more, atEnd := ReadLine(contents, start);
        TurnParses(contents[start..], before, headers, body, contents[end..], more, atEnd);
        if !more {
          return atEnd;
        }
        start := end;
      }
      assert contents[start..] == "";
      return true;
    }

    method Read(contents: Option<string>)
      requires body == "" && BeginsWithText(contents)
      modifies this
      ensures View() == ReadFile(old(View()), contents)
    {
      if contents.None? {
        return;
      }
      var complete := ReadHeaders(contents.value);
      if !complete {
        return;
      }
      headers := headers - {"connection"};
      if "x-original-url" in headers {
        HandleXOriginalUrl(headers["x-original-url"]);
      }
    }
  }

  class QuailServerBackend {
    var responses: Cache
    var generateBytesResponse: Option<Response>
    var defaultResponse: Option<Response>

    constructor ()
      ensures responses == map[] && generateBytesResponse == None && defaultResponse == None
    {
      responses, generateBytesResponse, defaultResponse := map[], None, None;
    }

    method AddResponse(host: string, path: string, headers: Headers, body: string)
      modifies this`responses
      ensures responses == Add(old(responses), Entry(GetKey(host, path), Response(headers, body)))
    {
      var key := GetKey(host, path);
      if key in responses {
        return;
      }
      responses := responses[key := Response(headers, body)];
    }

    method GetResponse(host: string, path: string, isNumber: string -> bool) returns (r: Option<Response>)
      ensures r == ServerBackend.GetResponse(responses, generateBytesResponse, defaultResponse, isNumber, host, path)
    {
      if FIXED_KEY !in responses {
        if generateBytesResponse.Some? {
          if path != "" && isNumber(path[1..]) {
            return generateBytesResponse;
          }
        }
        if defaultResponse.Some? {
          return defaultResponse;
        }
        return None;
      }
      return Some(responses[FIXED_KEY]);
    }

    /** One turn of the loop of InitializeBackend. */
    method AddFile(directory: string, saved: Saved)
      requires BeginsWithText(saved.contents)
      modifies this`responses
      ensures responses == Add(old(responses), EntryOf(saved, directory))
    {
      var file := new ResourceFile(saved.name);
      var base := ToUrlSeparators(file.fileName);
      base := if |directory| < |base| then base[|directory|..] else "";
      if base != "" && base[0] == '/' {
        base := base[1..];
      }
      file.SetHostPathFromBase(base);
      file.Read(saved.contents);
      AddResponse(file.host, file.path, file.headers, file.body);
    }

    /** `files` is None when the directory cannot be read. */
    method InitializeBackend(directory: string, files: Option<seq<Saved>>) returns (ok: bool)
      requires files.Some? ==> forall i :: 0 <= i < |files.value| ==> BeginsWithText(files.value[i].contents)
      modifies this`responses
      ensures ok <==> directory != "" && files.Some?
      ensures responses == if ok then Load(old(responses), files.value, directory) else old(responses)
      ensures old(responses) == map[] && ok ==> ServesFirstPage(responses, files.value, directory)
    {
      if directory == "" || files.None? {
        return false;
      }
      ghost var entries := Entries(files.value, directory);
      assert entries[..0] == [];
      for n := 0 to |files.value|
        invariant responses == AddAll(old(responses), entries[..n])
      {
        AddFile(directory, files.value[n]);
        AddOneMore(old(responses), entries, n);
      }
      assert entries[..|entries|] == entries;
      LoadServesFirstPage(files.value, directory);
      return true;
    }
  }

  /** Windows separators become URL separators, one character after another. */
  method ToUrlSeparators(name: string) returns (base: string)
    ensures base == WithUrlSeparators(name)
    ensures '\\' !in base
  {
    base := name;
    for i := 0 to |base|
      invariant |base| == |name|
      invariant forall k :: 0 <= k < i ==> base[k] == WithUrlSeparators(name)[k]
      invariant forall k :: i <= k < |name| ==> base[k] == name[k]
    {
      if base[i] == '\\' {
        base := base[i := '/'];
      }
    }
    assert base == WithUrlSeparators(name);
  }
}

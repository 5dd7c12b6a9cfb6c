/** QuitServerStream as an object: the functions of src/quit_server_stream.cc as methods that
    update its fields, each proved to do what the function of the same name in ServerStream says. */
module ServerStreamObject {
  import opened ServerStream
  import opened Text
  import Spec = ServerStream

  class QuitServerStream {
    var headers: map<string, string>
    var contentLength: int
    var body: Bytes
    var generate: nat
    var responseSent: bool
    var alarm: Option<Response>
    const hasBackend: bool

    var input: Input
    var output: Output
    ghost var calls: Calls
    ghost var ruleBroken: bool

    ghost function View(): Stream
      reads this
    {
      Stream(headers, contentLength, body, generate, responseSent, alarm, hasBackend, input, output, calls, ruleBroken)
    }

    constructor (hasBackend: bool)
      ensures View() == Init(hasBackend)
    {
      headers, contentLength, body, generate, responseSent, alarm := map[], -1, "", 0, false, None;
      this.hasBackend := hasBackend;
      input := Input("", "", false, false, false);
      output := Output([], false, false, false, false);
      calls, ruleBroken := Calls(0, [], []), false;
    }

    // -------------------------------------------------------------------------------------
    // The base class
    // -------------------------------------------------------------------------------------

    method WriteHeaders(block: Block, fin: bool)
      modifies this`output
      ensures output == Put(old(output), Headers(block, fin))
    {
      output := Put(output, Headers(block, fin));
    }

    method WriteOrBufferBody(data: Bytes, fin: bool)
      modifies this`output
      ensures output == Put(old(output), Data(data, fin))
    {
      output := Put(output, Data(data, fin));
    }

    method WriteTrailers(block: Block)
      modifies this`output
      ensures output == Put(old(output), Trailers(block))
    {
      output := Put(output, Trailers(block));
    }

    method StopReading()
      modifies this`input
      ensures input == old(input).(stopped := true)
    {
      input := input.(stopped := true);
    }

    method MarkConsumed(len: nat)
      requires len <= |input.unread|
      modifies this`input
      ensures input == Spec.MarkConsumed(old(input), len)
    {
      input := Spec.MarkConsumed(input, len);
    }

    ghost method DCheck(b: bool)
      modifies this`ruleBroken
      ensures ruleBroken == (old(ruleBroken) || !b)
    {
      ruleBroken := ruleBroken || !b;
    }

    // -------------------------------------------------------------------------------------
    // Sending
    // -------------------------------------------------------------------------------------

    method SendIncompleteResponse(responseHeaders: Option<Block>, data: Bytes)
      modifies this
      ensures View() == Spec.SendIncompleteResponse(old(View()), responseHeaders, data)
    {
      DCheck(responseHeaders.Some? != responseSent);
      if responseHeaders.Some? {
        var code := responseHeaders.value.code;
        if code.None? || code.value != 100 {
          responseSent := true;
        }
        WriteHeaders(responseHeaders.value, false);
      }
      if data != "" {
        WriteOrBufferBody(data, false);
      }
    }

    method SendHeadersAndBodyAndTrailers(responseHeaders: Option<Block>, data: Bytes, trailers: Option<Block>)
      modifies this
      ensures View() == Spec.SendHeadersAndBodyAndTrailers(old(View()), responseHeaders, data, trailers)
    {
      DCheck(responseHeaders.Some? != responseSent);
      if responseHeaders.Some? {
        var sendFin := data == "" && trailers.None?;
        WriteHeaders(responseHeaders.value, sendFin);
        responseSent := true;
        if sendFin {
          return;
        }
      }
      var sendFin := trailers.None?;
      if data != "" || sendFin {
        WriteOrBufferBody(data, sendFin);
      }
      if sendFin {
        return;
      }
      WriteTrailers(trailers.value);
    }

    method SendErrorResponse(code: int)
      modifies this
      ensures View() == Spec.SendErrorResponse(old(View()), code)
    {
      if !input.stopped {
        StopReading();
      }
      SendHeadersAndBodyAndTrailers(Some(ErrorBlock(code)), ERROR_BODY, None);
    }

    method SendNotFoundResponse()
      modifies this
      ensures View() == Spec.SendNotFoundResponse(old(View()))
    {
      SendHeadersAndBodyAndTrailers(Some(NOT_FOUND_BLOCK), NOT_FOUND_BODY, None);
    }

    /** `blocked` holds HasBufferedData()'s answers; the loop asks again after every piece. */
    method WriteGeneratedBytes(blocked: seq<bool>)
      modifies this
      ensures View() == Spec.WriteGeneratedBytes(old(View()), blocked)
    {
      ghost var n, start := generate, output;
      var i := 0;
      WrittenStart(n, blocked, start);
      while (i >= |blocked| || !blocked[i]) && generate > 0
        invariant 0 <= i && Written(n, blocked, start, i, generate, output)
        modifies this`generate, this`output
        decreases generate
      {
        WrittenStep(n, blocked, start, i, generate, output);
        var len := if generate < CHUNK_SIZE then generate else CHUNK_SIZE;
        var data := Filler(len);
        generate := generate - len;
        var fin := generate == 0;
        WriteOrBufferBody(data, fin);
        i := i + 1;
      }
      WrittenEnd(n, blocked, start, i, generate, output);
    }

    method Respond(response: Response, path: Number, blocked: seq<bool>)
      modifies this
      ensures View() == Spec.Respond(old(View()), response, path, blocked)
    {
      ghost var start, hints := output, Hints(response.earlyHints);
      for i := 0 to |response.earlyHints|
        invariant output == PutAll(start, hints[..i])
        modifies this`output
      {
        PutAllAppend(start, hints[..i], hints[i]);
        assert hints[..i + 1] == hints[..i] + [hints[i]];
        WriteHeaders(response.earlyHints[i], false);
      }
      assert hints[..|hints|] == hints;
      Answer(response, path, blocked);
    }

    method Answer(response: Response, path: Number, blocked: seq<bool>)
      modifies this
      ensures View() == Spec.Answer(old(View()), response, path, blocked)
    {
      if response.kind == CloseConnection {
        output := output.(connectionClosed := true);
        return;
      }
      if response.kind == IgnoreRequest {
        return;
      }
      if response.kind == BackendError {
        SendErrorResponse(502);
        return;
      }
      if response.headers.code.None? {
        SendErrorResponse(0);
        return;
      }
      if response.kind == Incomplete {
        SendIncompleteResponse(Some(response.headers), response.body);
        return;
      }
      if response.kind == GenerateBytes {
        if path.NotANumber? {
          generate := path.leftover;
          SendNotFoundResponse();
          return;
        }
        SendGeneratedBytes(response.headers, path.n, blocked);
        return;
      }
      SendHeadersAndBodyAndTrailers(Some(response.headers), response.body, response.trailers);
    }

    method SendGeneratedBytes(responseHeaders: Block, n: nat, blocked: seq<bool>)
      modifies this
      ensures View() == Spec.SendGeneratedBytes(old(View()), responseHeaders, n, blocked)
    {
      generate := n;
      WriteHeaders(WithContentLength(responseHeaders, n), false);
      DCheck(!responseSent);
      responseSent := true;
      WriteGeneratedBytes(blocked);
    }

    method OnResponseBackendComplete(response: Option<Response>, path: Number, blocked: seq<bool>)
      modifies this
      ensures View() == Spec.OnResponseBackendComplete(old(View()), response, path, blocked)
    {
      if response.None? {
        SendNotFoundResponse();
        return;
      }
      if !response.value.delayed {
        Respond(response.value, path, blocked);
        return;
      }
      alarm := response;
    }

    /** DelayedResponseAlarm::OnAlarm. */
    method OnAlarm(path: Number, blocked: seq<bool>)
      modifies this
      ensures View() == Spec.OnAlarm(old(View()), path, blocked)
    {
      if alarm.Some? {
        var response := alarm.value;
        alarm := None;
        Respond(response, path, blocked);
      }
    }

    method SendStreamData(data: Bytes, closeStream: bool)
      modifies this
      ensures View() == Spec.SendStreamData(old(View()), data, closeStream)
    {
      DCheck(data != "" || closeStream);
      if closeStream {
        SendHeadersAndBodyAndTrailers(None, data, None);
      } else {
        SendIncompleteResponse(None, data);
      }
    }

    method OnCanWrite(blocked: seq<bool>)
      modifies this
      ensures View() == Spec.WriteGeneratedBytes(old(View()), blocked)
    {
      WriteGeneratedBytes(blocked);
    }

    method TerminateStreamWithError()
      modifies this
      ensures View() == old(View()).(output := old(output).(closed := true))
    {
      output := output.(closed := true);
    }

    // -------------------------------------------------------------------------------------
    // Reading
    // -------------------------------------------------------------------------------------

    method OnInitialHeadersComplete(fin: bool, baseRejects: bool, copied: Copied)
      modifies this
      ensures View() == Spec.OnInitialHeadersComplete(old(View()), fin, baseRejects, copied)
    {
      if baseRejects {
        SendErrorResponse(400);
      }
      if !responseSent {
        contentLength, headers := copied.contentLength, copied.headers;
        if !copied.valid {
          SendErrorResponse(0);
        }
      }
      if !fin && !responseSent && IsConnectRequest(headers) {
        if !hasBackend {
          SendErrorResponse(0);
          return;
        }
        calls := calls.(connects := calls.connects + 1);
      }
    }

    /** The read loop of OnBodyAvailable. */
    method ReadBody(sizes: seq<nat>) returns (overflow: bool)
      modifies this
      ensures (View(), overflow) == Spec.ReadBody(old(View()), sizes)
    {
      ghost var result := Spec.ReadBody(View(), sizes);
      var i := 0;
      while input.unread != ""
        invariant 0 <= i <= |sizes|
        invariant Spec.ReadBody(View(), sizes[i..]) == result
        decreases |input.unread|
      {
        if i == |sizes| || sizes[i] == 0 {
          break;  // GetReadableRegions() == 0
        }
        var len := if sizes[i] < |input.unread| then sizes[i] else |input.unread|;
        body := body + input.unread[..len];
        if contentLength >= 0 && |body| > contentLength {
          return true;
        }
        MarkConsumed(len);
        i := i + 1;
      }
      return false;
    }

    method OnBodyAvailable(sizes: seq<nat>)
      modifies this
      ensures View() == Spec.OnBodyAvailable(old(View()), sizes)
    {
      var overflow := ReadBody(sizes);
      if overflow {
        SendErrorResponse(0);
        return;
      }
      if !(input.finArrived && input.unread == "") {
        if IsConnectRequest(headers) {
          HandleRequestConnectData(false);
        }
        return;
      }
      input := input.(closed := true);
      if output.closed || output.finBuffered {
        return;
      }
      if IsConnectRequest(headers) {
        HandleRequestConnectData(true);
      } else {
        SendResponse();
      }
    }

    method HandleRequestConnectData(finReceived: bool)
      modifies this
      ensures View() == Spec.HandleRequestConnectData(old(View()), finReceived)
    {
      if !hasBackend {
        output := output.(closed := true);
        return;
      }
      var data := body;
      body := "";
      calls := calls.(connectData := calls.connectData + [(data, finReceived)]);
    }

    method SendResponse()
      modifies this
      ensures View() == Spec.SendResponse(old(View()))
    {
      if headers == map[] {
        SendErrorResponse(0);
        return;
      }
      if contentLength > 0 && contentLength != |body| {
        SendErrorResponse(0);
        return;
      }
      if ":authority" !in headers {
        SendErrorResponse(0);
        return;
      }
      if ":path" !in headers {
        SendErrorResponse(0);
        return;
      }
      if !hasBackend {
        SendErrorResponse(0);
        return;
      }
      calls := calls.(fetches := calls.fetches + [body]);
    }
  }

  function From(s: seq<bool>, i: nat): seq<bool> {
    if i < |s| then s[i..] else []
  }

  /** After i pieces of n generated bytes, `rest` bytes are left and `out` has been written. */
  ghost predicate Written(n: nat, blocked: seq<bool>, start: Output, i: nat, rest: nat, out: Output) {
    && i <= |Chunks(n)|
    && rest == Remaining(n, i)
    && out == PutAll(start, Chunks(n)[..i])
    && Chunks(n)[i..] == Chunks(rest)
    && ChunksBeforeBlocking(n, blocked) == i + ChunksBeforeBlocking(rest, From(blocked, i))
  }

  lemma WrittenStart(n: nat, blocked: seq<bool>, start: Output)
    ensures Written(n, blocked, start, 0, n, start)
  {
    assert From(blocked, 0) == blocked && Chunks(n)[..0] == [];
  }

  lemma WrittenStep(n: nat, blocked: seq<bool>, start: Output, i: nat, rest: nat, out: Output)
    requires Written(n, blocked, start, i, rest, out) && rest > 0 && (i >= |blocked| || !blocked[i])
    ensures var len := if rest < CHUNK_SIZE then rest else CHUNK_SIZE;
            Written(n, blocked, start, i + 1, rest - len, Put(out, Data(Filler(len), rest == len)))
  {
    var pieces := Chunks(n);
    assert pieces[i] == pieces[i..][0] && pieces[i + 1..] == pieces[i..][1..];
    assert pieces[..i + 1] == pieces[..i] + [pieces[i]];
    PutAllAppend(start, pieces[..i], pieces[i]);
    assert From(blocked, i) != [] ==> From(blocked, i)[1..] == From(blocked, i + 1);
    RemainingAdds(n, i, 1);
    assert Remaining(rest, 1) == if rest < CHUNK_SIZE then 0 else rest - CHUNK_SIZE;
  }

  lemma WrittenEnd(n: nat, blocked: seq<bool>, start: Output, i: nat, rest: nat, out: Output)
    requires Written(n, blocked, start, i, rest, out) && (rest == 0 || (i < |blocked| && blocked[i]))
    ensures var k := ChunksBeforeBlocking(n, blocked);
            rest == Remaining(n, k) && out == PutAll(start, Chunks(n)[..k])
  {
  }

  lemma {:induction false} PutAllAppend(o: Output, fs: seq<Frame>, f: Frame)
    ensures PutAll(o, fs + [f]) == Put(PutAll(o, fs), f)
    decreases |fs|
  {
    if fs == [] {
      assert [] + [f] == [f];
    } else {
      assert (fs + [f])[1..] == fs[1..] + [f];
      PutAllAppend(Put(o, fs[0]), fs[1..], f);
    }
  }
}

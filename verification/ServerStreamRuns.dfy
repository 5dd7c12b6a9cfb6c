/** Every run of a response stream (src/quit_server_stream.cc): the events its surroundings
    may deliver, in any order they allow, and what holds after any number of them. */
module ServerStreamRuns {
  import opened ServerStream
  import opened Text
  import opened ServerStreamFraming
  import opened ServerStreamSending

  datatype World = World(
    s: Stream,
    started: bool,       // the request headers have been read
    owed: bool,          // the backend has been asked and has not given its answer
    misanswered: bool,   // an answer was sent whose statuses do not fit their use
    leftover: bool,      // a failed parse of the path has left bytes to generate
    spilled: bool)       // the stream could write while such bytes were left

  datatype Event =
    | HeadersComplete(fin: bool, baseRejects: bool, copied: Copied)
    | Arrive(bytes: Bytes, last: bool)
    | BodyAvailable(sizes: seq<nat>)
    | Reply(response: Option<Response>, path: Number, blocked: seq<bool>)
    | AlarmFires(path: Number, blocked: seq<bool>)
    | StreamData(bytes: Bytes, close: bool)
    | CanWrite(blocked: seq<bool>)
    | Terminate

  predicate Initial(w: World) {
    w == World(Init(w.s.hasBackend), false, false, false, false, false)
  }

  /** What the base class and the backend may do: headers come once and first; the body is
      offered until reading stops or the FIN was read; the backend answers once when asked
      (after a 100 it still owes the answer) and adds data only to an open response. */
  predicate Legal(w: World, e: Event) {
    && !w.s.output.connectionClosed
    && match e
       case HeadersComplete(_, _, copied) => !w.started && copied.contentLength >= -1
       case Arrive(_, _) => w.started && !w.s.input.finArrived
       case BodyAvailable(_) => w.started && !w.s.input.stopped && !w.s.input.closed
       case Reply(_, _, _) => w.owed && w.s.alarm.None?
       case AlarmFires(_, _) => w.s.alarm.Some?
       case StreamData(data, close) =>
         w.s.responseSent && !w.s.output.finBuffered && w.s.generate == 0 && (data != "" || close)
       case CanWrite(_) => w.started
       case Terminate => w.started
  }

  /** A 100 that is not the response. */
  predicate IsEarly(r: Response) {
    r.kind == Incomplete && r.headers.code == Some(100)
  }

  /** The path of a request for generated bytes is no number, and the parse left some bytes. */
  predicate LeavesBytes(r: Response, path: Number) {
    r.kind == GenerateBytes && r.headers.code.Some? && path.NotANumber? && path.leftover > 0
  }

  /** The response that the event makes the stream send, if it is one of the backend's. */
  function Answered(w: World, e: Event): Option<Response> {
    if e.Reply? && e.response.Some? && !e.response.value.delayed then e.response
    else if e.AlarmFires? then w.s.alarm
    else None
  }

  function StreamStep(s: Stream, e: Event): Stream {
    match e
    case HeadersComplete(fin, baseRejects, copied) =>
      OnInitialHeadersComplete(s.(input := s.input.(finArrived := fin)), fin, baseRejects, copied)
    case Arrive(bytes, last) => s.(input := s.input.(unread := s.input.unread + bytes, finArrived := last))
    case BodyAvailable(sizes) => OnBodyAvailable(s, sizes)
    case Reply(response, path, blocked) => OnResponseBackendComplete(s, response, path, blocked)
    case AlarmFires(path, blocked) => OnAlarm(s, path, blocked)
    case StreamData(data, close) => SendStreamData(s, data, close)
    case CanWrite(blocked) => WriteGeneratedBytes(s, blocked)
    case Terminate => s.(output := s.output.(closed := true))
  }

  function Step(w: World, e: Event): World {
    var s := StreamStep(w.s, e);
    var answered := Answered(w, e);
    World(s,
          w.started || e.HeadersComplete?,
          match e
          case Reply(response, _, _) => s.alarm.Some? || (answered.Some? && IsEarly(answered.value))
          case AlarmFires(_, _) => answered.Some? && IsEarly(answered.value)
          case _ => w.owed || s.calls.connects > w.s.calls.connects || |s.calls.fetches| > |w.s.calls.fetches|,
          w.misanswered || (answered.Some? && BadAnswer(answered.value, e.path)),
          w.leftover || (answered.Some? && LeavesBytes(answered.value, e.path)),
          w.spilled || (e.CanWrite? && WritesOn(w.s, e.blocked) && w.s.output.finBuffered))
  }

  predicate Run(w: World, events: seq<Event>, w': World)
    decreases |events|
  {
    if events == [] then w' == w
    else Legal(w, events[0]) && Run(Step(w, events[0]), events[1..], w')
  }

  // ---------------------------------------------------------------------------------------
  // Reading and the backend
  // ---------------------------------------------------------------------------------------

  function Flat(calls: seq<(Bytes, bool)>): Bytes {
    if calls == [] then "" else Flat(calls[..|calls| - 1]) + calls[|calls| - 1].0
  }

  /** The request has what the backend needs, and the announced length if one was announced. */
  predicate Acceptable(s: Stream) {
    && ":authority" in s.headers && ":path" in s.headers && s.hasBackend
    && (s.contentLength >= 0 ==> |s.input.consumed| == s.contentLength)
  }

  /** The last call had data_complete set. */
  predicate Completed(calls: seq<(Bytes, bool)>) {
    calls != [] && calls[|calls| - 1].1
  }

  ghost predicate ReadOk(s: Stream) {
    // every consumed byte was handed over or is still in the body, in order and once
    && s.input.consumed <= Flat(s.calls.connectData) + s.body
    && (!s.input.stopped ==> s.input.consumed == Flat(s.calls.connectData) + s.body)
    // the call with data_complete is the last one and covers everything
    && (forall i :: 0 <= i < |s.calls.connectData| - 1 ==> !s.calls.connectData[i].1)
    && (Completed(s.calls.connectData) ==> s.input.closed && s.body == "")
    && (s.input.closed ==> s.input.finArrived && s.input.unread == "")
    // only CONNECT data is handed over early
    && (!IsConnectRequest(s.headers) ==> s.calls.connectData == [])
    && (s.contentLength >= 0 && !s.input.stopped && !IsConnectRequest(s.headers) ==> |s.body| <= s.contentLength)
    && s.contentLength >= -1
    // a fetch carries the whole request body
    && |s.calls.fetches| <= 1
    && (s.calls.fetches != [] ==>
          && s.input.closed && !IsConnectRequest(s.headers)
          && s.calls.fetches == [s.input.consumed] && Acceptable(s))
    && (s.input.closed && !s.output.closed && !IsConnectRequest(s.headers) && Acceptable(s) ==> s.calls.fetches != [])
  }

  // ---------------------------------------------------------------------------------------
  // Sending
  // ---------------------------------------------------------------------------------------

  /** A request whose responses are all the backend's and the read loop's in turn. An announced
      length on a CONNECT is outside: the read loop may then refuse after the backend answered. */
  predicate Plain(s: Stream) {
    !(IsConnectRequest(s.headers) && s.contentLength >= 0)
  }

  /** At most one response is sent, and bytes follow a FIN only where a failed parse left some. */
  predicate RulesOk(w: World) {
    var s := w.s;
    && !s.ruleBroken
    && (w.owed ==> !s.responseSent)
    && (s.output.finBuffered ==> s.responseSent)
    && (w.leftover ==> s.output.finBuffered)
    && (s.output.finBuffered && s.generate > 0 ==> w.leftover)
    && (s.output.afterFin <==> w.spilled) && (w.spilled ==> w.leftover)
    && (!IsConnectRequest(s.headers) && s.responseSent ==> s.input.stopped || s.input.closed)
    && (!IsConnectRequest(s.headers) && w.owed ==> s.input.closed)
  }

  /** The frames are sound as long as every answer was and nothing spilled. */
  predicate FramesOk(w: World) {
    OutOk(w.s.output) && (Sound(w.s) <==> !w.misanswered && !w.spilled)
  }

  ghost predicate StateOk(w: World) {
    && (w.s.generate > 0 ==> w.s.responseSent)
    && (w.s.alarm.Some? ==> w.owed)
    && (!w.started ==> Initial(w))
  }

  ghost predicate Invariant(w: World) {
    && StateOk(w) && ReadOk(w.s)
    && (Plain(w.s) ==> RulesOk(w) && FramesOk(w))
  }

  // ---------------------------------------------------------------------------------------
  // What each function leaves alone
  // ---------------------------------------------------------------------------------------

  /** Sending does not touch the request or the calls to the backend. */
  predicate SameRequest(s: Stream, s': Stream) {
    && s'.headers == s.headers && s'.contentLength == s.contentLength && s'.body == s.body
    && s'.calls == s.calls && s'.hasBackend == s.hasBackend
    && s'.input == s.input.(stopped := s'.input.stopped) && (s.input.stopped ==> s'.input.stopped)
    && (s.output.closed ==> s'.output.closed)
  }

  /** Writing touches the frames alone. */
  ghost predicate OnlyWrites(s: Stream, s': Stream) {
    && SameRequest(s, s') && s'.input == s.input && s'.alarm == s.alarm && s'.generate == s.generate
    && s'.output.connectionClosed == s.output.connectionClosed
  }

  lemma WriteFields(s: Stream, f: Frame)
    ensures OnlyWrites(s, Write(s, f))
    ensures Write(s, f).responseSent == s.responseSent && Write(s, f).ruleBroken == s.ruleBroken
    ensures Write(s, f).output.finBuffered == (s.output.finBuffered || EndsStream(f))
    ensures Write(s, f).output.afterFin == (s.output.afterFin || s.output.finBuffered)
  {
  }

  lemma SendHeadersFields(s: Stream, block: Block, fin: bool)
    ensures OnlyWrites(s, SendHeaders(s, block, fin))
    ensures SendHeaders(s, block, fin).responseSent
    ensures SendHeaders(s, block, fin).ruleBroken == (s.ruleBroken || s.responseSent)
    ensures SendHeaders(s, block, fin).output.finBuffered == (s.output.finBuffered || fin)
    ensures SendHeaders(s, block, fin).output.afterFin == (s.output.afterFin || s.output.finBuffered)
  {
    WriteFields(s, Headers(block, fin));
  }

  lemma SendAllFields(s: Stream, block: Block, body: Bytes, trailers: Option<Block>)
    ensures var s' := SendHeadersAndBodyAndTrailers(s, Some(block), body, trailers);
            && OnlyWrites(s, s') && s'.responseSent && s'.ruleBroken == (s.ruleBroken || s.responseSent)
            && s'.output.finBuffered && s'.output.afterFin == (s.output.afterFin || s.output.finBuffered)
  {
    var fin := trailers.None?;
    var only := body == "" && fin;
    var s1 := SendHeaders(s, block, only);
    SendHeadersFields(s, block, only);
    if !only {
      var s2 := if body != "" || fin then Write(s1, Data(body, fin)) else s1;
      WriteFields(s1, Data(body, fin));
      if trailers.Some? {
        WriteFields(s2, Trailers(trailers.value));
      }
    }
  }

  lemma SendIncompleteFields(s: Stream, block: Block, body: Bytes)
    ensures var s' := SendIncompleteResponse(s, Some(block), body);
            && OnlyWrites(s, s') && s'.responseSent == (s.responseSent || block.code != Some(100))
            && s'.ruleBroken == (s.ruleBroken || s.responseSent)
            && s'.output.finBuffered == s.output.finBuffered
            && (!s.output.finBuffered ==> s'.output.afterFin == s.output.afterFin)
  {
    var s1 := Write(CheckHeaders(s, true), Headers(block, false));
    WriteFields(CheckHeaders(s, true), Headers(block, false));
    WriteFields(s1.(responseSent := s.responseSent || block.code != Some(100)), Data(body, false));
  }

  lemma StreamDataFields(s: Stream, data: Bytes, close: bool)
    requires s.responseSent && !s.output.finBuffered && (data != "" || close)
    ensures var s' := SendStreamData(s, data, close);
            && OnlyWrites(s, s') && s'.responseSent == s.responseSent && s'.ruleBroken == s.ruleBroken
            && s'.output.afterFin == s.output.afterFin
  {
    WriteFields(s, Data(data, close));
  }

  lemma ErrorFields(s: Stream, code: int)
    ensures var s' := SendErrorResponse(s, code);
            && SameRequest(s.(input := s.input.(stopped := true)), s') && s'.alarm == s.alarm
            && s'.generate == s.generate && s'.input.stopped && s'.responseSent
            && s'.ruleBroken == (s.ruleBroken || s.responseSent)
            && s'.output.finBuffered && s'.output.connectionClosed == s.output.connectionClosed
            && s'.output.afterFin == (s.output.afterFin || s.output.finBuffered)
  {
    SendAllFields(s.(input := s.input.(stopped := true)), ErrorBlock(code), ERROR_BODY, None);
  }

  lemma GeneratedFields(s: Stream, blocked: seq<bool>)
    ensures var s' := WriteGeneratedBytes(s, blocked);
            && SameRequest(s, s') && s'.input == s.input && s'.alarm == s.alarm
            && s'.responseSent == s.responseSent && s'.ruleBroken == s.ruleBroken
            && s'.output.connectionClosed == s.output.connectionClosed
            && s'.generate <= s.generate
            && s'.output.finBuffered == (s.output.finBuffered || (s.generate > 0 && s'.generate == 0))
            && (s'.output.afterFin <==> s.output.afterFin || (WritesOn(s, blocked) && s.output.finBuffered))
  {
    var k := ChunksBeforeBlocking(s.generate, blocked);
    ChunksFin(s.output, s.generate, k);
    PutAllFrames(s.output, Chunks(s.generate)[..k]);
    WrittenPlusLeft(s.generate, k);
  }

  /** What an answer leaves alone in every run. */
  ghost predicate Leaves(s: Stream, s': Stream) {
    && SameRequest(s, s') && s'.alarm == s.alarm
    && (s.responseSent ==> s'.responseSent)
    && (s'.generate > 0 ==> s'.responseSent || s'.generate == s.generate)
  }

  /** What it does to the flags of a stream that has sent no response. */
  ghost predicate AnswersOnce(s: Stream, s': Stream, r: Response, path: Number) {
    && s'.ruleBroken == s.ruleBroken && s'.output.afterFin == s.output.afterFin
    && (s'.output.finBuffered ==> s'.responseSent)
    && (s'.responseSent ==> !IsEarly(r))
    && (LeavesBytes(r, path) <==> s'.output.finBuffered && s'.generate > 0)
  }

  predicate Fresh(s: Stream) {
    !s.responseSent && !s.output.finBuffered && s.generate == 0
  }

  lemma SendGeneratedFields(s: Stream, headers: Block, n: nat, blocked: seq<bool>)
    ensures var s' := SendGeneratedBytes(s, headers, n, blocked);
            && Leaves(s, s') && s'.responseSent && s'.output.connectionClosed == s.output.connectionClosed
            && (Fresh(s) ==> && s'.ruleBroken == s.ruleBroken && s'.output.afterFin == s.output.afterFin
                             && !(s'.output.finBuffered && s'.generate > 0))
  {
    GeneratedFields(SendHeaders(s.(generate := n), WithContentLength(headers, n), false), blocked);
  }

  lemma GenerateFields(s: Stream, r: Response, path: Number, blocked: seq<bool>)
    requires r.kind == GenerateBytes && r.headers.code.Some?
    ensures var s' := Answer(s, r, path, blocked);
            && Leaves(s, s') && (Fresh(s) ==> AnswersOnce(s, s', r, path))
            && s'.output.connectionClosed == s.output.connectionClosed
  {
    if path.Parsed? {
      SendGeneratedFields(s, r.headers, path.n, blocked);
    } else {
      SendAllFields(s.(generate := path.leftover), NOT_FOUND_BLOCK, NOT_FOUND_BODY, None);
    }
  }

  lemma AnswerFields(s: Stream, r: Response, path: Number, blocked: seq<bool>)
    ensures var s' := Answer(s, r, path, blocked);
            && Leaves(s, s') && (Fresh(s) ==> AnswersOnce(s, s', r, path))
            && (r.kind != CloseConnection ==> s'.output.connectionClosed == s.output.connectionClosed)
  {
    if r.kind == CloseConnection || r.kind == IgnoreRequest {
    } else if r.kind == BackendError {
      ErrorFields(s, 502);
    } else if r.headers.code == None {
      ErrorFields(s, 0);
    } else if r.kind == Incomplete {
      SendIncompleteFields(s, r.headers, r.body);
    } else if r.kind == GenerateBytes {
      GenerateFields(s, r, path, blocked);
    } else {
      SendAllFields(s, r.headers, r.body, r.trailers);
    }
  }

  lemma RespondFields(s: Stream, r: Response, path: Number, blocked: seq<bool>)
    ensures var s' := Respond(s, r, path, blocked);
            && Leaves(s, s') && (Fresh(s) ==> AnswersOnce(s, s', r, path))
            && (r.kind != CloseConnection ==> s'.output.connectionClosed == s.output.connectionClosed)
  {
    var hints := Hints(r.earlyHints);
    HintsEffect(s.output, hints);
    PutAllFrames(s.output, hints);
    AnswerFields(s.(output := PutAll(s.output, hints)), r, path, blocked);
  }

  /** The read loop changes the body and the read side only. */
  lemma {:induction false} ReadBodyFields(s: Stream, sizes: seq<nat>)
    ensures var s' := ReadBody(s, sizes).0;
            && s' == s.(body := s'.body, input := s'.input)
            && s'.input.stopped == s.input.stopped && s'.input.closed == s.input.closed
    decreases |sizes|
  {
    if !(s.input.unread == "" || sizes == [] || sizes[0] == 0) {
      var len := if sizes[0] < |s.input.unread| then sizes[0] else |s.input.unread|;
      var s1 := s.(body := s.body + s.input.unread[..len]);
      ReadBodyFields(s1.(input := MarkConsumed(s1.input, len)), sizes[1..]);
    }
  }

  // ---------------------------------------------------------------------------------------
  // The read side, event by event
  // ---------------------------------------------------------------------------------------

  lemma SendingKeepsRead(s: Stream, s': Stream)
    requires ReadOk(s) && SameRequest(s, s')
    ensures ReadOk(s')
  {
  }

  /** One region: too much for the content length, or consumed. */
  lemma ReadRegion(s: Stream, len: nat)
    requires ReadOk(s) && !s.input.stopped && !s.input.closed && len <= |s.input.unread|
    ensures var s1 := s.(body := s.body + s.input.unread[..len]);
            && ReadOk(s1.(input := s1.input.(stopped := true)))
            && (!(s1.contentLength >= 0 && |s1.body| > s1.contentLength) ==>
                  ReadOk(s1.(input := MarkConsumed(s1.input, len))))
  {
    var region := s.input.unread[..len];
    assert Flat(s.calls.connectData) + (s.body + region) == s.input.consumed + region;
  }

  lemma {:induction false} ReadBodyKeepsRead(s: Stream, sizes: seq<nat>)
    requires ReadOk(s) && !s.input.stopped && !s.input.closed
    ensures var (s', overflow) := ReadBody(s, sizes);
            && !s'.input.stopped && !s'.input.closed
            && ReadOk(if overflow then s'.(input := s'.input.(stopped := true)) else s')
    decreases |sizes|
  {
    if !(s.input.unread == "" || sizes == [] || sizes[0] == 0) {
      var len := if sizes[0] < |s.input.unread| then sizes[0] else |s.input.unread|;
      var s1 := s.(body := s.body + s.input.unread[..len]);
      ReadRegion(s, len);
      if !(s1.contentLength >= 0 && |s1.body| > s1.contentLength) {
        ReadBodyKeepsRead(s1.(input := MarkConsumed(s1.input, len)), sizes[1..]);
      }
    }
  }

  lemma ConnectDataKeepsRead(s: Stream, fin: bool)
    requires ReadOk(s) && !s.input.stopped && IsConnectRequest(s.headers)
    requires fin == s.input.closed && !Completed(s.calls.connectData)
    ensures ReadOk(HandleRequestConnectData(s, fin))
  {
    var calls := s.calls.connectData;
    var calls' := calls + [(s.body, fin)];
    assert calls'[..|calls'| - 1] == calls;
    assert Flat(calls') + "" == Flat(calls) + s.body;
    assert forall i :: 0 <= i < |calls| ==> !calls'[i].1 by {
      assert forall i :: 0 <= i < |calls| - 1 ==> !calls[i].1;
      assert calls != [] ==> !calls[|calls| - 1].1;
    }
  }

  lemma SendResponseKeepsRead(s: Stream)
    requires ReadOk(s.(input := s.input.(closed := false))) && s.input.closed && !s.input.stopped
    requires s.input.finArrived && s.input.unread == ""
    requires !IsConnectRequest(s.headers) && s.calls.fetches == []
    ensures ReadOk(SendResponse(s))
  {
    assert Flat(s.calls.connectData) == "";
    assert s.input.consumed == s.body;
    var s' := SendResponse(s);
    if s'.calls == s.calls {
      ErrorFields(s, 0);
      assert !Acceptable(s);
    }
  }

  lemma BodyAvailableKeepsRead(w: World, sizes: seq<nat>)
    requires Invariant(w) && Legal(w, BodyAvailable(sizes))
    ensures ReadOk(OnBodyAvailable(w.s, sizes))
  {
    var s := w.s;
    ReadBodyKeepsRead(s, sizes);
    ReadBodyFields(s, sizes);
    var (s1, overflow) := ReadBody(s, sizes);
    if overflow {
      ErrorFields(s1, 0);
      SendingKeepsRead(s1.(input := s1.input.(stopped := true)), SendErrorResponse(s1, 0));
    } else {
      var s2 := s1.(input := s1.input.(closed := true));
      if !(s1.input.finArrived && s1.input.unread == "") {
        if IsConnectRequest(s.headers) {
          ConnectDataKeepsRead(s1, false);
        }
      } else if IsConnectRequest(s.headers) {
        assert ReadOk(s2);
        if !(s2.output.closed || s2.output.finBuffered) {
          ConnectDataKeepsRead(s2, true);
        }
      } else {
        assert !s2.output.finBuffered;
        if !s2.output.closed {
          SendResponseKeepsRead(s2);
        }
      }
    }
  }

  // ---------------------------------------------------------------------------------------
  // Every event keeps the invariant
  // ---------------------------------------------------------------------------------------

  lemma HeadersCompleteFrames(s: Stream, fin: bool, baseRejects: bool, copied: Copied)
    requires !s.responseSent
    ensures Effect(s, OnInitialHeadersComplete(s, fin, baseRejects, copied), false)
  {
    ErrorEffect(s, 400);
    var st1 := if baseRejects then SendErrorResponse(s, 400) else s;
    var filled := st1.(contentLength := copied.contentLength, headers := copied.headers);
    ErrorEffect(filled, 0);
  }

  /** The stream after the request headers. */
  lemma HeadersShape(w: World, e: Event)
    requires Initial(w) && Legal(w, e) && e.HeadersComplete?
    ensures var s0 := Init(w.s.hasBackend).(input := Input("", "", e.fin, false, false));
            var filled := s0.(contentLength := e.copied.contentLength, headers := e.copied.headers);
            var s' := Step(w, e).s;
            if e.baseRejects then s' == SendErrorResponse(s0, 400)
            else if !e.copied.valid then s' == SendErrorResponse(filled, 0)
            else s' == filled || s' == SendErrorResponse(filled, 0) || s' == filled.(calls := filled.calls.(connects := 1))
  {
    var s0 := Init(w.s.hasBackend).(input := Input("", "", e.fin, false, false));
    var filled := s0.(contentLength := e.copied.contentLength, headers := e.copied.headers);
    ErrorFields(s0, 400);
    ErrorFields(filled, 0);
  }

  lemma HeadersCompleteStep(w: World, e: Event)
    requires Invariant(w) && Legal(w, e) && e.HeadersComplete?
    ensures Invariant(Step(w, e))
  {
    var s0 := Init(w.s.hasBackend).(input := Input("", "", e.fin, false, false));
    HeadersCompleteFrames(s0, e.fin, e.baseRejects, e.copied);
    ErrorFields(s0, 400);
    ErrorFields(s0.(contentLength := e.copied.contentLength, headers := e.copied.headers), 0);
    HeadersShape(w, e);
  }

  /** Reading either writes nothing or sends the error response, the latter to a CONNECT only
      for an announced length. */
  ghost predicate ReadOutcome(s: Stream, s': Stream, refused: bool) {
    && s'.headers == s.headers && s'.contentLength == s.contentLength && s'.alarm == s.alarm && s'.generate == s.generate
    && s'.calls.connects == s.calls.connects && (s.input.closed ==> s'.input.closed)
    && (s.output.closed ==> s'.output.closed)
    && if !refused then
         && s'.responseSent == s.responseSent && s'.ruleBroken == s.ruleBroken
         && s'.output == s.output.(closed := s'.output.closed) && s'.input.stopped == s.input.stopped
         && (|s'.calls.fetches| > |s.calls.fetches| ==> s'.input.closed && !IsConnectRequest(s.headers))
       else
         && s'.responseSent && s'.output.finBuffered && s'.input.stopped
         && s'.ruleBroken == (s.ruleBroken || s.responseSent)
         && s'.output.afterFin == (s.output.afterFin || s.output.finBuffered)
         && s'.calls.fetches == s.calls.fetches
         && (IsConnectRequest(s.headers) ==> s.contentLength >= 0)
         && Effect(s, s', s.responseSent)
  }

  lemma RefusalOutcome(s: Stream, s0: Stream)
    requires s0 == s.(body := s0.body, input := s0.input)
    requires (s.input.closed ==> s0.input.closed) && (s.input.stopped ==> s0.input.stopped)
    requires IsConnectRequest(s.headers) ==> s.contentLength >= 0
    ensures ReadOutcome(s, SendErrorResponse(s0, 0), true)
  {
    ErrorFields(s0, 0);
    ErrorEffect(s0, 0);
  }

  lemma {:induction false} OverflowIsTooLong(s: Stream, sizes: seq<nat>)
    ensures var (s', overflow) := ReadBody(s, sizes);
            overflow ==> |s'.body| > s'.contentLength >= 0
    decreases |sizes|
  {
    if !(s.input.unread == "" || sizes == [] || sizes[0] == 0) {
      var len := if sizes[0] < |s.input.unread| then sizes[0] else |s.input.unread|;
      var s1 := s.(body := s.body + s.input.unread[..len]);
      OverflowIsTooLong(s1.(input := MarkConsumed(s1.input, len)), sizes[1..]);
    }
  }

  lemma SendResponseOutcome(s: Stream) returns (refused: bool)
    ensures if refused then SendResponse(s) == SendErrorResponse(s, 0)
            else SendResponse(s) == s.(calls := s.calls.(fetches := s.calls.fetches + [s.body]))
  {
    refused := SendResponse(s).output != s.output;
    SendHeadersFields(s, ErrorBlock(0), false);
    OwnResponsesAnnounceTheirLength(s, 0);
    assert |SendErrorResponse(s, 0).output.frames| == |s.output.frames| + 2;
  }

  /** OnBodyAvailable once all has been read. */
  function AtEnd(s: Stream): Stream {
    if s.output.closed || s.output.finBuffered then s
    else if IsConnectRequest(s.headers) then HandleRequestConnectData(s, true)
    else SendResponse(s)
  }

  lemma AtEndOutcome(s: Stream) returns (refused: bool)
    requires s.input.closed
    ensures ReadOutcome(s, AtEnd(s), refused)
  {
    if s.output.closed || s.output.finBuffered || IsConnectRequest(s.headers) {
      refused := false;
    } else {
      refused := SendResponseOutcome(s);
      if refused {
        RefusalOutcome(s, s);
      }
    }
  }

  lemma BodyAvailableOutcome(s: Stream, sizes: seq<nat>) returns (refused: bool)
    ensures ReadOutcome(s, OnBodyAvailable(s, sizes), refused)
  {
    ReadBodyFields(s, sizes);
    OverflowIsTooLong(s, sizes);
    var (s1, overflow) := ReadBody(s, sizes);
    if overflow {
      refused := true;
      RefusalOutcome(s, s1);
    } else if s1.input.finArrived && s1.input.unread == "" {
      refused := AtEndOutcome(s1.(input := s1.input.(closed := true)));
      OutcomeAfterReading(s, s1.(input := s1.input.(closed := true)), OnBodyAvailable(s, sizes), refused);
    } else {
      refused := false;
    }
  }

  lemma OutcomeAfterReading(s: Stream, s1: Stream, s': Stream, refused: bool)
    requires s1 == s.(body := s1.body, input := s1.input) && ReadOutcome(s1, s', refused)
    requires (s.input.closed ==> s1.input.closed) && s.input.stopped == s1.input.stopped
    ensures ReadOutcome(s, s', refused)
  {
  }

  lemma BodyAvailableStep(w: World, e: Event)
    requires Invariant(w) && Legal(w, e) && e.BodyAvailable?
    ensures Invariant(Step(w, e))
  {
    BodyAvailableKeepsRead(w, e.sizes);
    var refused := BodyAvailableOutcome(w.s, e.sizes);
  }

  lemma StreamDataStep(w: World, e: Event)
    requires Invariant(w) && Legal(w, e) && e.StreamData?
    ensures Invariant(Step(w, e))
  {
    StreamDataEffect(w.s, e.bytes, e.close);
    StreamDataFields(w.s, e.bytes, e.close);
    SendingKeepsRead(w.s, SendStreamData(w.s, e.bytes, e.close));
  }

  lemma CanWriteStep(w: World, e: Event)
    requires Invariant(w) && Legal(w, e) && e.CanWrite?
    ensures Invariant(Step(w, e))
  {
    GeneratedEffect(w.s, e.blocked);
    GeneratedFields(w.s, e.blocked);
    SendingKeepsRead(w.s, WriteGeneratedBytes(w.s, e.blocked));
  }

  lemma NotFoundStep(w: World, e: Event)
    requires Invariant(w) && Legal(w, e) && e.Reply? && e.response.None?
    ensures Invariant(Step(w, e))
  {
    NotFoundEffect(w.s);
    SendAllFields(w.s, NOT_FOUND_BLOCK, NOT_FOUND_BODY, None);
    SendingKeepsRead(w.s, SendNotFoundResponse(w.s));
  }

  /** The stream after the event by which the backend's answer is sent. */
  lemma AnswerIsResponse(w: World, e: Event)
    requires Legal(w, e) && Answered(w, e).Some?
    ensures Step(w, e).s == Respond(w.s.(alarm := None), Answered(w, e).value, e.path, e.blocked)
  {
  }

  lemma AnswerRules(w: World, e: Event)
    requires StateOk(w) && RulesOk(w) && Legal(w, e) && Answered(w, e).Some?
    ensures RulesOk(Step(w, e))
  {
    AnswerIsResponse(w, e);
    RespondFields(w.s.(alarm := None), Answered(w, e).value, e.path, e.blocked);
  }

  lemma AnswerFrames(w: World, e: Event)
    requires StateOk(w) && RulesOk(w) && FramesOk(w) && Legal(w, e) && Answered(w, e).Some?
    ensures FramesOk(Step(w, e))
  {
    AnswerIsResponse(w, e);
    RespondEffect(w.s.(alarm := None), Answered(w, e).value, e.path, e.blocked);
  }

  lemma AnswerStep(w: World, e: Event)
    requires Invariant(w) && Legal(w, e) && Answered(w, e).Some?
    ensures Invariant(Step(w, e))
  {
    var s := w.s.(alarm := None);
    AnswerIsResponse(w, e);
    RespondFields(s, Answered(w, e).value, e.path, e.blocked);
    SendingKeepsRead(s, Step(w, e).s);
    if Plain(w.s) {
      AnswerRules(w, e);
      AnswerFrames(w, e);
    }
  }

  lemma StepKeeps(w: World, e: Event)
    requires Invariant(w) && Legal(w, e)
    ensures Invariant(Step(w, e))
  {
    if e.HeadersComplete? {
      HeadersCompleteStep(w, e);
    } else if e.BodyAvailable? {
      BodyAvailableStep(w, e);
    } else if Answered(w, e).Some? {
      AnswerStep(w, e);
    } else if e.Reply? && e.response.None? {
      NotFoundStep(w, e);
    } else if e.StreamData? {
      StreamDataStep(w, e);
    } else if e.CanWrite? {
      CanWriteStep(w, e);
    } else {
      OtherStep(w, e);
    }
  }

  /** Nothing is sent: bytes arrive, an answer is delayed, or the stream is terminated. */
  lemma OtherStep(w: World, e: Event)
    requires Invariant(w) && Legal(w, e) && Answered(w, e).None?
    requires e.Arrive? || e.Terminate? || e.AlarmFires? || (e.Reply? && e.response.Some?)
    ensures Invariant(Step(w, e))
  {
  }

  lemma {:induction false} RunKeeps(w: World, events: seq<Event>, w': World)
    requires Invariant(w) && Run(w, events, w')
    ensures Invariant(w')
    decreases |events|
  {
    if events != [] {
      StepKeeps(w, events[0]);
      RunKeeps(Step(w, events[0]), events[1..], w');
    }
  }

  // ---------------------------------------------------------------------------------------
  // What holds in every run
  // ---------------------------------------------------------------------------------------

  /** In every run, except for a CONNECT that announces a length, each response supplies its
      headers exactly if none was sent before; and the frames are a well-formed message, with
      its final header block exactly if responseSent, as long as the statuses of the backend's
      answers fit their use and the stream could not write while a failed parse of the path had
      left bytes to generate. */
  lemma {:induction false} RunIsWellFramedIff(w: World, events: seq<Event>, w': World)
    requires Initial(w) && Run(w, events, w') && Plain(w'.s)
    ensures !w'.s.ruleBroken
    ensures && WellFramed(w'.s.output.frames)
            && (w'.s.responseSent <==> exists f :: f in w'.s.output.frames && IsFinal(f))
            <==> !w'.misanswered && !w'.spilled
    ensures w'.s.output.afterFin <==> w'.spilled
    ensures w'.spilled ==> w'.leftover
  {
    RunKeeps(w, events, w');
    WellFramedIffPhase(w'.s.output.frames);
  }

  // What the client sent, without saying what the stream keeps.

  function BytesOf(e: Event): Bytes {
    if e.Arrive? then e.bytes else ""
  }

  predicate IsLast(e: Event) {
    (e.Arrive? && e.last) || (e.HeadersComplete? && e.fin)
  }

  function Arrived(events: seq<Event>): Bytes {
    if events == [] then "" else BytesOf(events[0]) + Arrived(events[1..])
  }

  predicate EndArrived(events: seq<Event>) {
    exists e :: e in events && IsLast(e)
  }

  function Received(i: Input): Bytes {
    i.consumed + i.unread
  }

  lemma RegionReceived(i: Input, len: nat)
    requires len <= |i.unread|
    ensures Received(MarkConsumed(i, len)) == Received(i)
  {
    assert i.unread == i.unread[..len] + i.unread[len..];
  }

  lemma {:induction false} ReadBodyReceived(s: Stream, sizes: seq<nat>)
    ensures var i := ReadBody(s, sizes).0.input; Received(i) == Received(s.input) && i.finArrived == s.input.finArrived
    decreases |sizes|
  {
    if !(s.input.unread == "" || sizes == [] || sizes[0] == 0) {
      var len := if sizes[0] < |s.input.unread| then sizes[0] else |s.input.unread|;
      var s1 := s.(body := s.body + s.input.unread[..len]);
      if !(s1.contentLength >= 0 && |s1.body| > s1.contentLength) {
        RegionReceived(s.input, len);
        ReadBodyReceived(s1.(input := MarkConsumed(s1.input, len)), sizes[1..]);
      }
    }
  }

  /** What the input has received. */
  ghost predicate SameReceived(i: Input, i': Input) {
    Received(i') == Received(i) && i'.finArrived == i.finArrived
  }

  lemma ErrorReceived(s: Stream, code: int)
    ensures SameReceived(s.input, SendErrorResponse(s, code).input)
  {
    ErrorFields(s, code);
  }

  lemma AtEndReceived(s: Stream)
    ensures SameReceived(s.input, AtEnd(s).input)
  {
    ErrorReceived(s, 0);
  }

  lemma BodyAvailableReceived(s: Stream, sizes: seq<nat>)
    ensures SameReceived(s.input, OnBodyAvailable(s, sizes).input)
  {
    ReadBodyReceived(s, sizes);
    var (s1, overflow) := ReadBody(s, sizes);
    if overflow {
      ErrorReceived(s1, 0);
    } else if s1.input.finArrived && s1.input.unread == "" {
      AtEndReceived(s1.(input := s1.input.(closed := true)));
    }
  }

  lemma HeadersReceived(s: Stream, fin: bool, baseRejects: bool, copied: Copied)
    ensures var i := OnInitialHeadersComplete(s, fin, baseRejects, copied).input;
            Received(i) == Received(s.input) && i.finArrived == s.input.finArrived
  {
    var st1 := if baseRejects then SendErrorResponse(s, 400) else s;
    ErrorFields(s, 400);
    var filled := st1.(contentLength := copied.contentLength, headers := copied.headers);
    ErrorFields(filled, 0);
    var st2 := if st1.responseSent then st1 else if copied.valid then filled else SendErrorResponse(filled, 0);
    ErrorFields(st2, 0);
  }

  lemma StepReceives(w: World, e: Event)
    requires Legal(w, e) && (!w.started ==> !w.s.input.finArrived)
    ensures var i, i' := w.s.input, Step(w, e).s.input;
            Received(i') == Received(i) + BytesOf(e) && (i'.finArrived <==> i.finArrived || IsLast(e))
  {
    var s := w.s;
    assert Received(s.input) + "" == Received(s.input);
    if e.HeadersComplete? {
      HeadersReceived(s.(input := s.input.(finArrived := e.fin)), e.fin, e.baseRejects, e.copied);
    } else if e.BodyAvailable? {
      BodyAvailableReceived(s, e.sizes);
    } else if e.Arrive? {
      assert s.input.consumed + (s.input.unread + e.bytes) == s.input.consumed + s.input.unread + e.bytes;
    } else {
      AnsweringReceives(w, e);
    }
  }

  lemma AnsweringReceives(w: World, e: Event)
    requires Legal(w, e) && !e.HeadersComplete? && !e.BodyAvailable? && !e.Arrive?
    ensures var i := Step(w, e).s.input; Received(i) == Received(w.s.input) && i.finArrived == w.s.input.finArrived
  {
    var s := w.s;
    if Answered(w, e).Some? {
      AnswerIsResponse(w, e);
      RespondFields(s.(alarm := None), Answered(w, e).value, e.path, e.blocked);
    } else if e.Reply? && e.response.None? {
      SendAllFields(s, NOT_FOUND_BLOCK, NOT_FOUND_BODY, None);
    } else if e.StreamData? {
      StreamDataFields(s, e.bytes, e.close);
    } else if e.CanWrite? {
      GeneratedFields(s, e.blocked);
    }
  }

  lemma ArrivedFirst(events: seq<Event>, before: Bytes)
    requires events != []
    ensures before + Arrived(events) == (before + BytesOf(events[0])) + Arrived(events[1..])
    ensures EndArrived(events) <==> IsLast(events[0]) || EndArrived(events[1..])
  {
    assert events == [events[0]] + events[1..];
  }

  lemma {:induction false} RunReceives(w: World, events: seq<Event>, w': World)
    requires Invariant(w) && Run(w, events, w')
    ensures Received(w'.s.input) == Received(w.s.input) + Arrived(events)
    ensures w'.s.input.finArrived <==> w.s.input.finArrived || EndArrived(events)
    decreases |events|
  {
    if events == [] {
      assert Received(w.s.input) + "" == Received(w.s.input);
    } else {
      var e := events[0];
      StepKeeps(w, e);
      StepReceives(w, e);
      RunReceives(Step(w, e), events[1..], w');
      ArrivedFirst(events, Received(w.s.input));
    }
  }

  /** No byte of the request is lost or read twice: those consumed and those still to be read
      are what has arrived, in order. */
  lemma {:induction false} RequestIsRead(w: World, events: seq<Event>, w': World)
    requires Initial(w) && Run(w, events, w')
    ensures w'.s.input.consumed + w'.s.input.unread == Arrived(events)
    ensures w'.s.input.finArrived <==> EndArrived(events)
  {
    RunReceives(w, events, w');
    assert Received(w.s.input) == "";
    assert "" + Arrived(events) == Arrived(events);
  }

  /** What was handed to HandleConnectData followed by the body kept is what was consumed, in
      order and once each, until an error response stops reading; and a call with data_complete
      is the last one and leaves nothing out. */
  lemma {:induction false} ConnectDataIsTheStream(w: World, events: seq<Event>, w': World)
    requires Initial(w) && Run(w, events, w')
    ensures var s := w'.s;
            && s.input.consumed <= Flat(s.calls.connectData) + s.body
            && (!s.input.stopped ==> s.input.consumed == Flat(s.calls.connectData) + s.body)
            && s.input.consumed <= Arrived(events)
            && (forall i :: 0 <= i < |s.calls.connectData| && s.calls.connectData[i].1 ==>
                  && i == |s.calls.connectData| - 1 && EndArrived(events)
                  && (!s.input.stopped ==> Flat(s.calls.connectData) == Arrived(events)))
  {
    RunKeeps(w, events, w');
    RequestIsRead(w, events, w');
    var s := w'.s;
    assert s.input.consumed + "" == s.input.consumed;
    forall i | 0 <= i < |s.calls.connectData| && s.calls.connectData[i].1
      ensures i == |s.calls.connectData| - 1 && s.body == "" && s.input.closed
    {
    }
    assert Flat(s.calls.connectData) + "" == Flat(s.calls.connectData);
  }

  /** A request that is not CONNECT reaches the backend at most once, with the whole body the
      client sent and, when a content length was given (0 included), with exactly that many
      bytes; and once its end has been read on an open stream it does reach the backend
      exactly when it is acceptable. How the reads were cut plays no part. */
  lemma {:induction false} BackendSeesWholeBody(w: World, events: seq<Event>, w': World)
    requires Initial(w) && Run(w, events, w')
    ensures var s := w'.s;
            && |s.calls.fetches| <= 1
            && (forall b :: b in s.calls.fetches ==>
                  && b == Arrived(events) && EndArrived(events)
                  && (s.contentLength >= 0 ==> |b| == s.contentLength))
            && (s.input.closed && !s.output.closed && !IsConnectRequest(s.headers) ==>
                  (s.calls.fetches == [Arrived(events)] <==> Acceptable(s)))
  {
    RunKeeps(w, events, w');
    RequestIsRead(w, events, w');
    assert w'.s.input.consumed + "" == w'.s.input.consumed;
  }

  /** Each time body is offered, a request that is not CONNECT on an open stream goes on
      waiting, or reaches the backend with all its bytes, or is refused with 500; it is refused
      at its end exactly when it is not acceptable, and before only for a body that is too long. */
  lemma OfferedBodyOutcome(w: World, sizes: seq<nat>)
    requires Invariant(w) && Legal(w, BodyAvailable(sizes))
    requires !IsConnectRequest(w.s.headers) && !w.s.output.closed
    ensures var s, s' := w.s, OnBodyAvailable(w.s, sizes);
            && s'.output.frames == s.output.frames + (if s'.input.stopped then Refusal(500) else [])
            && (!s'.input.stopped && !s'.input.closed ==> s'.calls == s.calls)
            && (!s'.input.stopped && s'.input.closed ==> s'.calls.fetches == [s'.input.consumed] && Acceptable(s'))
            && (s'.input.stopped && s'.input.closed ==> !Acceptable(s') && s'.calls == s.calls)
            && (s'.input.stopped && !s'.input.closed ==> |s'.body| > s'.contentLength >= 0 && s'.calls == s.calls)
  {
    var s := w.s;
    ReadBodyFields(s, sizes);
    ReadBodyKeepsRead(s, sizes);
    var (s1, overflow) := ReadBody(s, sizes);
    assert s.output.frames + [] == s.output.frames;
    if overflow {
      OverflowIsTooLong(s, sizes);
      RefusedWith500(s1);
    } else if s1.input.finArrived && s1.input.unread == "" {
      var s2 := s1.(input := s1.input.(closed := true));
      assert !s2.output.finBuffered;
      assert Flat(s1.calls.connectData) == "" && s1.body == s1.input.consumed;
      assert s1.calls.fetches == [];
      RefusedWith500(s2);
    }
  }

  lemma RefusedWith500(s: Stream)
    ensures var s' := SendErrorResponse(s, 0);
            && s'.output.frames == s.output.frames + Refusal(500)
            && SameRequest(s.(input := s.input.(stopped := true)), s')
  {
    OwnResponsesAnnounceTheirLength(s, 0);
    ErrorFields(s, 0);
    assert ErrorBlock(0) == ErrorBlock(500);
  }

  /** After the write side was closed by an error the backend is asked for nothing more and is
      not told that the data are complete. */
  lemma {:induction false} TerminatedStreamAsksNoMore(w: World, events: seq<Event>, w': World)
    requires w.started && w.s.output.closed && Run(w, events, w')
    ensures w'.s.output.closed
    ensures w'.s.calls.connects == w.s.calls.connects && w'.s.calls.fetches == w.s.calls.fetches
    ensures var n := |w.s.calls.connectData|;
            && n <= |w'.s.calls.connectData| && w'.s.calls.connectData[..n] == w.s.calls.connectData
            && forall i :: n <= i < |w'.s.calls.connectData| ==> !w'.s.calls.connectData[i].1
    decreases |events|
  {
    if events != [] {
      TerminatedStep(w, events[0]);
      TerminatedStreamAsksNoMore(Step(w, events[0]), events[1..], w');
    }
  }

  /** Nothing but request headers and body leads to a call of the backend. */
  lemma OtherEventsAskNothing(w: World, e: Event)
    requires Legal(w, e) && !e.HeadersComplete? && !e.BodyAvailable?
    ensures Step(w, e).s.calls == w.s.calls && (w.s.output.closed ==> Step(w, e).s.output.closed)
  {
    var s := w.s;
    if Answered(w, e).Some? {
      RespondFields(s.(alarm := None), Answered(w, e).value, e.path, e.blocked);
    } else if e.Reply? && e.response.None? {
      SendAllFields(s, NOT_FOUND_BLOCK, NOT_FOUND_BODY, None);
    } else if e.StreamData? {
      StreamDataFields(s, e.bytes, e.close);
    } else if e.CanWrite? {
      GeneratedFields(s, e.blocked);
    }
  }

  lemma TerminatedStep(w: World, e: Event)
    requires w.started && w.s.output.closed && Legal(w, e)
    ensures var w' := Step(w, e);
            && w'.started && w'.s.output.closed
            && w'.s.calls.connects == w.s.calls.connects && w'.s.calls.fetches == w.s.calls.fetches
            && var n := |w.s.calls.connectData|;
               n <= |w'.s.calls.connectData| && w'.s.calls.connectData[..n] == w.s.calls.connectData
               && forall i :: n <= i < |w'.s.calls.connectData| ==> !w'.s.calls.connectData[i].1
  {
    if e.BodyAvailable? {
      TerminatedRead(w.s, e.sizes);
    } else {
      OtherEventsAskNothing(w, e);
    }
  }

  lemma TerminatedRead(s: Stream, sizes: seq<nat>)
    requires s.output.closed
    ensures var s' := OnBodyAvailable(s, sizes);
            && s'.output.closed
            && s'.calls.connects == s.calls.connects && s'.calls.fetches == s.calls.fetches
            && (s'.calls.connectData == s.calls.connectData
                || s'.calls.connectData == s.calls.connectData + [(ReadBody(s, sizes).0.body, false)])
  {
    ReadBodyFields(s, sizes);
    ErrorFields(ReadBody(s, sizes).0, 0);
  }
}

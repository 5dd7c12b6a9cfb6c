/** Where runs of the response stream (src/quit_server_stream.cc) go wrong: for each fault the
    exact condition under which no run has it, and a run that does. */
module ServerStreamFaults {
  import opened ServerStream
  import opened Text
  import opened ServerStreamFraming
  import opened ServerStreamSending
  import opened ServerStreamRuns

  // ---------------------------------------------------------------------------------------
  // The request stays what it is
  // ---------------------------------------------------------------------------------------

  lemma StepKeepsRequest(w: World, e: Event)
    requires w.started && Legal(w, e)
    ensures var w' := Step(w, e);
            w'.started && w'.s.headers == w.s.headers && w'.s.contentLength == w.s.contentLength
  {
    var s := w.s;
    if e.BodyAvailable? {
      var refused := BodyAvailableOutcome(s, e.sizes);
    } else if Answered(w, e).Some? {
      AnswerIsResponse(w, e);
      RespondFields(s.(alarm := None), Answered(w, e).value, e.path, e.blocked);
    } else if e.Reply? && e.response.None? {
      SendAllFields(s, NOT_FOUND_BLOCK, NOT_FOUND_BODY, None);
    } else if e.StreamData? {
      StreamDataFields(s, e.bytes, e.close);
    } else if e.CanWrite? {
      GeneratedFields(s, e.blocked);
    }
  }

  lemma {:induction false} PlainRunKeeps(w: World, events: seq<Event>, w': World)
    requires w.started && Plain(w.s) && Invariant(w) && Run(w, events, w')
    ensures Plain(w'.s) && Invariant(w')
    decreases |events|
  {
    if events != [] {
      StepKeeps(w, events[0]);
      StepKeepsRequest(w, events[0]);
      PlainRunKeeps(Step(w, events[0]), events[1..], w');
    }
  }

  lemma {:induction false} RunExtend(w: World, events: seq<Event>, w': World, e: Event)
    requires Run(w, events, w') && Legal(w', e)
    ensures Run(w, events + [e], Step(w', e))
    decreases |events|
  {
    if events == [] {
      assert [] + [e] == [e] && [e][1..] == [];
    } else {
      assert (events + [e])[1..] == events[1..] + [e];
      RunExtend(Step(w, events[0]), events[1..], w', e);
    }
  }

  // ---------------------------------------------------------------------------------------
  // A CONNECT that announces a length
  // ---------------------------------------------------------------------------------------

  /** The headers hand a CONNECT with an announced length over to a backend. */
  predicate HandsOverLength(w: World, e: Event)
    requires e.HeadersComplete?
  {
    && !e.fin && !e.baseRejects && e.copied.valid && w.s.hasBackend
    && IsConnectRequest(e.copied.headers) && e.copied.contentLength >= 0
  }

  /** Any other request with those headers: no backend was asked, and reading is over. */
  predicate Quiet(w: World) {
    var s := w.s;
    && w.started && !Plain(s) && !w.owed && s.alarm.None? && s.generate == 0
    && OutOk(s.output) && Sound(s) && !w.misanswered && !w.spilled
    && (s.responseSent ==> s.output.finBuffered)
    && (s.input.stopped || (s.input.finArrived && s.input.unread == ""))
  }

  lemma QuietStep(w: World, e: Event)
    requires Quiet(w) && Legal(w, e)
    ensures Quiet(Step(w, e))
  {
    if e.BodyAvailable? {
      assert ReadBody(w.s, e.sizes) == (w.s, false);
    } else if e.CanWrite? {
      GeneratedFields(w.s, e.blocked);
    }
  }

  lemma {:induction false} QuietRun(w: World, events: seq<Event>, w': World)
    requires Quiet(w) && Run(w, events, w')
    ensures Quiet(w')
    decreases |events|
  {
    if events != [] {
      QuietStep(w, events[0]);
      QuietRun(Step(w, events[0]), events[1..], w');
    }
  }

  lemma QuietStart(w: World, e: Event)
    requires Initial(w) && Legal(w, e) && e.HeadersComplete?
    requires !HandsOverLength(w, e)
    ensures Quiet(Step(w, e)) || Plain(Step(w, e).s)
  {
    var s0 := Init(w.s.hasBackend).(input := Input("", "", e.fin, false, false));
    ErrorFields(s0, 400);
    ErrorFields(s0.(contentLength := e.copied.contentLength, headers := e.copied.headers), 0);
    HeadersCompleteFrames(s0, e.fin, e.baseRejects, e.copied);
  }

  const OK := Block(map[":status" := "200"], Some(200))

  /** A tunnel whose backend has answered 200. */
  lemma AnsweredTunnel(w: World, e: Event) returns (e1: Event)
    requires Initial(w) && Legal(w, e) && e.HeadersComplete? && HandsOverLength(w, e)
    ensures Legal(Step(w, e), e1)
    ensures var w2 := Step(Step(w, e), e1);
            && w2.started && w2.s.responseSent && w2.s.contentLength == e.copied.contentLength
            && w2.s.body == "" && w2.s.input == Input("", "", false, false, false)
            && w2.s.output == Output([Headers(OK, false)], false, false, false, false)
  {
    var w1 := Step(w, e);
    e1 := Reply(Some(Response(Incomplete, [], OK, "", None, false)), Parsed(0), []);
    assert Hints([]) == [];
    assert Step(w1, e1).s == w1.s.(responseSent := true, output := Put(w1.s.output, Headers(OK, false)));
    assert [] + [Headers(OK, false)] == [Headers(OK, false)];
  }

  /** Such a tunnel gets one byte more than announced. */
  lemma LateRefusal(w: World, e: Event) returns (rest: seq<Event>, w': World)
    requires Initial(w) && Legal(w, e) && e.HeadersComplete? && HandsOverLength(w, e)
    ensures Run(Step(w, e), rest, w')
    ensures w'.s.ruleBroken && !WellFramed(w'.s.output.frames)
  {
    var e1 := AnsweredTunnel(w, e);
    var w1, w2 := Step(w, e), Step(Step(w, e), e1);
    var e2, e3;
    e2, e3, w' := Overrun(w2);
    assert Run(w1, [], w1);
    RunExtend(w1, [], w1, e1);
    RunExtend(w1, [] + [e1], w2, e2);
    RunExtend(w1, [] + [e1] + [e2], Step(w2, e2), e3);
    rest := [] + [e1] + [e2] + [e3];
    TwoResponses(w'.s.output.frames, Headers(OK, false), Headers(ErrorBlock(0), false), Data(ERROR_BODY, true));
  }

  /** A tunnel whose whole response is a header block that ends the stream. */
  lemma EndedTunnel(w: World, e: Event) returns (e1: Event)
    requires Initial(w) && Legal(w, e) && e.HeadersComplete? && HandsOverLength(w, e)
    ensures Legal(Step(w, e), e1)
    ensures var w2 := Step(Step(w, e), e1);
            && w2.started && w2.s.responseSent && w2.s.contentLength == e.copied.contentLength
            && w2.s.body == "" && w2.s.input == Input("", "", false, false, false)
            && w2.s.output.finBuffered && !w2.s.output.connectionClosed
            && !w2.misanswered && !w2.leftover && !w2.spilled
  {
    var w1 := Step(w, e);
    e1 := Reply(Some(Response(Regular, [], OK, "", None, false)), Parsed(0), []);
    assert Hints([]) == [];
    SendAllFields(w1.s, OK, "", None);
  }

  /** It gets one byte more than announced, and the refusal is written behind its FIN: with
      answers whose statuses fit their use and nothing left over by a failed parse. */
  lemma LateData(w: World, e: Event) returns (rest: seq<Event>, w': World)
    requires Initial(w) && Legal(w, e) && e.HeadersComplete? && HandsOverLength(w, e)
    ensures Run(Step(w, e), rest, w')
    ensures w'.s.output.afterFin && !w'.misanswered && !w'.leftover && !w'.spilled
  {
    var e1 := EndedTunnel(w, e);
    var w1, w2 := Step(w, e), Step(Step(w, e), e1);
    var e2, e3;
    e2, e3, w' := Overrun(w2);
    assert Run(w1, [], w1);
    RunExtend(w1, [], w1, e1);
    RunExtend(w1, [] + [e1], w2, e2);
    RunExtend(w1, [] + [e1] + [e2], Step(w2, e2), e3);
    rest := [] + [e1] + [e2] + [e3];
  }

  lemma Overrun(w: World) returns (e2: Event, e3: Event, w': World)
    requires w.started && w.s.responseSent && w.s.contentLength >= 0 && w.s.body == ""
    requires w.s.input == Input("", "", false, false, false) && !w.s.output.connectionClosed
    ensures Legal(w, e2) && Legal(Step(w, e2), e3) && w' == Step(Step(w, e2), e3)
    ensures w'.s.ruleBroken && w'.s.output.frames == w.s.output.frames + Refusal(500)
    ensures w'.s.output.afterFin == (w.s.output.afterFin || w.s.output.finBuffered)
    ensures w'.misanswered == w.misanswered && w'.leftover == w.leftover && w'.spilled == w.spilled
  {
    var bytes := Filler(w.s.contentLength + 1);
    e2, e3 := Arrive(bytes, false), BodyAvailable([|bytes|]);
    var w3 := Step(w, e2);
    assert w3.s.input.unread == bytes;
    ReadTooMuch(w3.s);
    w' := Step(w3, e3);
    RefusedWith500(w3.s.(body := bytes));
    ErrorFields(w3.s.(body := bytes), 0);
  }

  lemma ReadTooMuch(s: Stream)
    requires s.input.unread != "" && s.body == "" && 0 <= s.contentLength < |s.input.unread|
    ensures ReadBody(s, [|s.input.unread|]) == (s.(body := s.input.unread), true)
  {
    assert s.input.unread[..|s.input.unread|] == s.input.unread;
    assert "" + s.input.unread == s.input.unread;
  }

  lemma TwoResponses(fs: seq<Frame>, h: Frame, h': Frame, d: Frame)
    requires fs == [h] + [h', d] && IsFinal(h) && h'.Headers?
    ensures !WellFramed(fs)
  {
    forall i | 0 <= i <= |fs| ensures !FinalAt(fs, i) {
      assert fs[0] == h && fs[1] == h';
    }
  }

  /** No response is ever sent after another one. */
  ghost predicate KeepsRules(w: World) {
    forall rest, w' :: Run(w, rest, w') ==> !w'.s.ruleBroken
  }

  lemma RulesAreKept(w: World)
    requires Quiet(w) || (w.started && Plain(w.s) && Invariant(w))
    ensures KeepsRules(w)
  {
    forall rest, w' | Run(w, rest, w') ensures !w'.s.ruleBroken {
      if Quiet(w) {
        QuietRun(w, rest, w');
      } else {
        PlainRunKeeps(w, rest, w');
      }
    }
  }

  /** Whatever follows the request headers, no response is sent after another one, exactly
      unless they are a CONNECT with an announced length that is handed over to a backend. */
  lemma RulesAreKeptIff(w: World, e: Event)
    requires Initial(w) && Legal(w, e) && e.HeadersComplete?
    ensures KeepsRules(Step(w, e)) <==> !HandsOverLength(w, e)
  {
    if HandsOverLength(w, e) {
      var rest, w' := LateRefusal(w, e);
    } else {
      StepKeeps(w, e);
      QuietStart(w, e);
      RulesAreKept(Step(w, e));
    }
  }

  /** Whatever follows, something is written after a FIN only where a failed parse of the path
      has left bytes to generate. */
  ghost predicate OnlyLeftoverPassesFin(w: World) {
    forall rest, w' :: Run(w, rest, w') && w'.s.output.afterFin ==> w'.leftover
  }

  lemma FinIsRespected(w: World)
    requires Quiet(w) || (w.started && Plain(w.s) && Invariant(w))
    ensures OnlyLeftoverPassesFin(w)
  {
    forall rest, w' | Run(w, rest, w') && w'.s.output.afterFin ensures w'.leftover {
      if Quiet(w) {
        QuietRun(w, rest, w');
      } else {
        PlainRunKeeps(w, rest, w');
      }
    }
  }

  /** That is so exactly unless the headers are a CONNECT with an announced length that is
      handed over to a backend. */
  lemma OnlyLeftoverPassesFinIff(w: World, e: Event)
    requires Initial(w) && Legal(w, e) && e.HeadersComplete?
    ensures OnlyLeftoverPassesFin(Step(w, e)) <==> !HandsOverLength(w, e)
  {
    if HandsOverLength(w, e) {
      var rest, w' := LateData(w, e);
    } else {
      StepKeeps(w, e);
      QuietStart(w, e);
      FinIsRespected(Step(w, e));
    }
  }

  /** For all other request headers: the frames of every run are a well-formed message, with its
      final header block exactly if responseSent, exactly as long as the statuses of the backend's
      answers fit their use and the stream could not write while a failed parse of the path had
      left bytes to generate. */
  lemma EveryRunIsWellFramedIff(w: World, e: Event, rest: seq<Event>, w': World)
    requires Initial(w) && Legal(w, e) && e.HeadersComplete? && !HandsOverLength(w, e)
    requires Run(Step(w, e), rest, w')
    ensures && WellFramed(w'.s.output.frames)
            && (w'.s.responseSent <==> exists f :: f in w'.s.output.frames && IsFinal(f))
            <==> !w'.misanswered && !w'.spilled
  {
    StepKeeps(w, e);
    QuietStart(w, e);
    SoundRun(Step(w, e), rest, w');
    WellFramedIffPhase(w'.s.output.frames);
  }

  lemma SoundRun(w: World, rest: seq<Event>, w': World)
    requires Quiet(w) || (w.started && Plain(w.s) && Invariant(w))
    requires Run(w, rest, w')
    ensures !w'.s.ruleBroken && (Sound(w'.s) <==> !w'.misanswered && !w'.spilled)
  {
    if Quiet(w) {
      QuietRun(w, rest, w');
    } else {
      PlainRunKeeps(w, rest, w');
    }
  }

  // ---------------------------------------------------------------------------------------
  // A 100 with a body
  // ---------------------------------------------------------------------------------------

  /** A 100 response with a body, to an ordinary request that has been fetched: data is written
      before any response headers. */
  lemma EarlyBodyBreaksFraming(w: World, block: Block, body: Bytes, path: Number)
    requires Initial(w) && w.s.hasBackend && block.code == Some(100) && body != ""
    ensures exists events, w' :: Run(w, events, w') && w'.s.output.frames == [Headers(block, false), Data(body, false)]
    ensures !WellFramed([Headers(block, false), Data(body, false)])
  {
    var r := Response(Incomplete, [], block, body, None, false);
    var events, w2 := FetchedRequest(w);
    var e := Reply(Some(r), path, []);
    EarlyBodyIsWritten(w2, r, path);
    RunExtend(w, events, w2, e);
    assert Run(w, events + [e], Step(w2, e));
    var fs := [Headers(block, false), Data(body, false)];
    assert forall i :: 0 <= i <= |fs| && FinalAt(fs, i) ==> !IsFinal(fs[0]) && !IsInterim(fs[1]) && !IsFinal(fs[1]);
  }

  lemma EarlyBodyIsWritten(w: World, r: Response, path: Number)
    requires r.kind == Incomplete && r.earlyHints == [] && !r.delayed
    requires r.headers.code == Some(100) && r.body != "" && w.s.output.frames == []
    ensures Step(w, Reply(Some(r), path, [])).s.output.frames == [Headers(r.headers, false), Data(r.body, false)]
  {
    assert Hints(r.earlyHints) == [];
    assert Respond(w.s, r, path, []) == SendIncompleteResponse(w.s, Some(r.headers), r.body);
    IncompleteResponseStaysOpen(w.s, r.headers, r.body);
    var fs: seq<Frame> := [];
    AppendOneByOne(fs, Headers(r.headers, false), Data(r.body, false), Data(r.body, false));
  }

  /** A request without body, as far as the backend being asked. */
  lemma FetchedRequest(w: World) returns (events: seq<Event>, w': World)
    requires Initial(w) && w.s.hasBackend
    ensures Run(w, events, w') && w'.owed && w'.s.alarm.None?
    ensures !w'.s.responseSent && w'.s.output == Init(true).output
  {
    var headers := map[":authority" := "a", ":path" := "/"];
    var e1, e2 := HeadersComplete(true, false, Copied(true, -1, headers)), BodyAvailable([]);
    assert !IsConnectRequest(headers) && ":path" in headers;
    var w1 := Step(w, e1);
    assert w1.s == Init(true).(headers := headers, input := Input("", "", true, false, false));
    FetchAtOnce(w1.s);
    w' := Step(w1, e2);
    assert Run(w, [], w);
    RunExtend(w, [], w, e1);
    RunExtend(w, [] + [e1], w1, e2);
    events := [] + [e1] + [e2];
  }

  lemma FetchAtOnce(s: Stream)
    requires ":authority" in s.headers && ":path" in s.headers && s.hasBackend && !IsConnectRequest(s.headers)
    requires s.contentLength == -1 && s.input.finArrived && s.input.unread == ""
    requires !s.output.closed && !s.output.finBuffered
    ensures OnBodyAvailable(s, [])
            == s.(input := s.input.(closed := true), calls := s.calls.(fetches := s.calls.fetches + [s.body]))
  {
  }

  // ---------------------------------------------------------------------------------------
  // What a failed parse leaves in the counter
  // ---------------------------------------------------------------------------------------

  /** The counter is only ever left over by an answer, and there is one answer. */
  lemma {:induction false} LeftoverStays(w: World, events: seq<Event>, w': World)
    requires w.started && Plain(w.s) && Invariant(w) && Run(w, events, w')
    requires w.s.responseSent
    ensures w'.leftover == w.leftover
    decreases |events|
  {
    if events != [] {
      var w1 := Step(w, events[0]);
      StepKeeps(w, events[0]);
      StepKeepsRequest(w, events[0]);
      assert w1.leftover == w.leftover && w1.s.responseSent by {
        ResponseStaysSent(w, events[0]);
      }
      LeftoverStays(w1, events[1..], w');
    }
  }

  lemma ResponseStaysSent(w: World, e: Event)
    requires w.started && Plain(w.s) && Invariant(w) && Legal(w, e) && w.s.responseSent
    ensures Answered(w, e).None? && Step(w, e).s.responseSent
  {
    if e.BodyAvailable? {
      var refused := BodyAvailableOutcome(w.s, e.sizes);
    } else if e.StreamData? {
      StreamDataFields(w.s, e.bytes, e.close);
    }
  }

  /** Nothing is ever written after a FIN. */
  ghost predicate KeepsFin(w: World) {
    forall rest, w' :: Run(w, rest, w') ==> !w'.s.output.afterFin
  }

  lemma FinIsKept(w: World)
    requires w.started && Plain(w.s) && Invariant(w) && w.s.responseSent && !w.leftover
    ensures KeepsFin(w)
  {
    forall rest, w' | Run(w, rest, w') ensures !w'.s.output.afterFin {
      LeftoverStays(w, rest, w');
      PlainRunKeeps(w, rest, w');
    }
  }

  lemma FinIsPassed(w: World)
    requires w.started && !w.s.output.connectionClosed && w.s.generate > 0 && w.s.output.finBuffered
    ensures !KeepsFin(w)
  {
    var e := CanWrite([]);
    GeneratedFields(w.s, []);
    assert [e][1..] == [] && Run(Step(w, e), [], Step(w, e));
    assert Run(w, [e], Step(w, e));
  }

  /** An answer is sent, at once or by its alarm, for generated bytes whose path turns out to be
      no number: nothing is written after the FIN of the 404, whatever happens, exactly if the
      failed parse has left zero. */
  lemma {:induction false} LeftoverBreaksFin(w0: World, events: seq<Event>, w: World, e: Event)
    requires Initial(w0) && Run(w0, events, w) && Plain(w.s) && Legal(w, e)
    requires Answered(w, e).Some? && AsksForBytes(Answered(w, e).value) && e.path.NotANumber?
    ensures KeepsFin(Step(w, e)) <==> e.path.leftover == 0
  {
    RunKeeps(w0, events, w);
    NumberlessStep(w, e);
    StepKeeps(w, e);
    StepKeepsRequest(w, e);
    if e.path.leftover == 0 {
      FinIsKept(Step(w, e));
    } else {
      FinIsPassed(Step(w, e));
    }
  }

  predicate AsksForBytes(r: Response) {
    r.kind == GenerateBytes && r.headers.code.Some?
  }

  lemma NumberlessStep(w: World, e: Event)
    requires Invariant(w) && Plain(w.s) && Legal(w, e)
    requires Answered(w, e).Some? && AsksForBytes(Answered(w, e).value) && e.path.NotANumber?
    ensures var w1, leftover := Step(w, e), e.path.leftover;
            && w.started && w1.started && w1.s.responseSent && w1.s.generate == leftover && w1.s.output.finBuffered
            && !w1.s.output.connectionClosed && (w1.leftover <==> leftover > 0)
  {
    var r := Answered(w, e).value;
    AnswerIsResponse(w, e);
    RespondFields(w.s.(alarm := None), r, e.path, e.blocked);
    NumberlessIsNotFound(w.s.(alarm := None), r, e.path.leftover, e.blocked);
  }

  lemma NumberlessIsNotFound(s: Stream, r: Response, leftover: nat, blocked: seq<bool>)
    requires AsksForBytes(r)
    ensures var s' := Respond(s, r, NotANumber(leftover), blocked);
            s'.responseSent && s'.generate == leftover && s'.output.finBuffered
  {
    var s1 := s.(output := PutAll(s.output, Hints(r.earlyHints)), generate := leftover);
    SendAllFields(s1, NOT_FOUND_BLOCK, NOT_FOUND_BODY, None);
  }
}

/** The request that the response stream (src/quit_server_stream.cc) can answer twice: a CONNECT
    that announces a length and is handed over to a backend. The read loop may refuse what the
    client sends (lines 110-116) after the backend has answered, and the backend may answer
    after the refusal. */
module ServerStreamTunnels {
  import opened ServerStream
  import opened Text
  import opened ServerStreamFraming
  import opened ServerStreamSending
  import opened ServerStreamRuns
  import opened ServerStreamFaults

  /** How many of `unread` bytes the regions of one call offer. */
  function Offered(unread: nat, sizes: seq<nat>): nat
    decreases |sizes|
  {
    if unread == 0 || sizes == [] || sizes[0] == 0 then 0
    else
      var len := if sizes[0] < unread then sizes[0] else unread;
      len + Offered(unread - len, sizes[1..])
  }

  lemma OfferedIsUnread(unread: nat, sizes: seq<nat>)
    ensures Offered(unread, sizes) <= unread
    decreases |sizes|
  {
  }

  /** The first bytes that are unread, added to the body. */
  function Taken(s: Stream, len: nat): Stream
    requires len <= |s.input.unread|
  {
    s.(body := s.body + s.input.unread[..len], input := MarkConsumed(s.input, len))
  }

  lemma TakenTwice(s: Stream, len: nat, more: nat)
    requires len + more <= |s.input.unread|
    ensures Taken(Taken(s, len), more) == Taken(s, len + more)
  {
    var u := s.input.unread;
    assert u[..len] + u[len..][..more] == u[..len + more] && u[len..][more..] == u[len + more..];
    assert s.body + u[..len] + u[len..][..more] == s.body + (u[..len] + u[len..][..more]);
    assert s.input.consumed + u[..len] + u[len..][..more] == s.input.consumed + (u[..len] + u[len..][..more]);
  }

  lemma TakenNone(s: Stream)
    ensures Taken(s, 0) == s
  {
    assert s.body + "" == s.body && s.input.consumed + "" == s.input.consumed && s.input.unread[0..] == s.input.unread;
  }

  /** One region: too much, or taken in. */
  lemma OneRegion(s: Stream, sizes: seq<nat>) returns (len: nat)
    requires s.input.unread != "" && sizes != [] && sizes[0] != 0
    ensures 0 < len <= |s.input.unread|
    ensures Offered(|s.input.unread|, sizes) == len + Offered(|s.input.unread| - len, sizes[1..])
    ensures if s.contentLength >= 0 && |s.body| + len > s.contentLength then ReadBody(s, sizes).1
            else ReadBody(s, sizes) == ReadBody(Taken(s, len), sizes[1..])
    ensures Taken(s, len).contentLength == s.contentLength && |Taken(s, len).body| == |s.body| + len
    ensures |Taken(s, len).input.unread| == |s.input.unread| - len
  {
    len := if sizes[0] < |s.input.unread| then sizes[0] else |s.input.unread|;
  }

  ghost predicate TakesAll(s: Stream, r: (Stream, bool), offered: nat)
    requires offered <= |s.input.unread|
  {
    && (r.1 <==> s.contentLength >= 0 && |s.body| + offered > s.contentLength)
    && (!r.1 ==> r.0 == Taken(s, offered))
  }

  /** The read loop refuses exactly if the body would outgrow the announced length, and else takes
      in all that the regions offer. */
  lemma {:induction false} RefusesIff(s: Stream, sizes: seq<nat>)
    requires s.contentLength >= 0 ==> |s.body| <= s.contentLength
    ensures Offered(|s.input.unread|, sizes) <= |s.input.unread|
    ensures TakesAll(s, ReadBody(s, sizes), Offered(|s.input.unread|, sizes))
    decreases |sizes|
  {
    OfferedIsUnread(|s.input.unread|, sizes);
    if s.input.unread == "" || sizes == [] || sizes[0] == 0 {
      TakenNone(s);
    } else {
      var len := OneRegion(s, sizes);
      if !(s.contentLength >= 0 && |s.body| + len > s.contentLength) {
        RefusesIff(Taken(s, len), sizes[1..]);
        RegionsTaken(s, len, ReadBody(s, sizes), Offered(|s.input.unread| - len, sizes[1..]));
      }
    }
  }

  lemma RegionsTaken(s: Stream, len: nat, r: (Stream, bool), more: nat)
    requires len + more <= |s.input.unread| && TakesAll(Taken(s, len), r, more)
    ensures TakesAll(s, r, len + more)
  {
    TakenTwice(s, len, more);
  }

  /** Each time body is offered to a CONNECT that has a backend, it is refused for its length, or
      all of it is handed over, with the end if that has been read; after the end of the write
      side the last of it is not. */
  lemma OfferedConnectOutcome(s: Stream, sizes: seq<nat>)
    requires IsConnectRequest(s.headers) && s.hasBackend && s.body == ""
    ensures var offered := Offered(|s.input.unread|, sizes);
            && offered <= |s.input.unread|
            && var s', bytes := OnBodyAvailable(s, sizes), s.input.unread[..offered];
               var end := s.input.finArrived && offered == |s.input.unread|;
               if s.contentLength >= 0 && offered > s.contentLength then
                 s'.output.frames == s.output.frames + Refusal(500) && s'.input.stopped && s'.calls == s.calls
               else
                 && s'.output == s.output && s'.input.stopped == s.input.stopped
                 && s'.input.consumed == s.input.consumed + bytes && s'.input.closed == (s.input.closed || end)
                 && s'.calls.connectData == s.calls.connectData
                      + (if end && (s.output.closed || s.output.finBuffered) then [] else [(bytes, end)])
  {
    var offered := Offered(|s.input.unread|, sizes);
    RefusesIff(s, sizes);
    ReadBodyFields(s, sizes);
    assert "" + s.input.unread[..offered] == s.input.unread[..offered];
    assert s.calls.connectData + [] == s.calls.connectData;
    var (s1, overflow) := ReadBody(s, sizes);
    if overflow {
      RefusedWith500(s1);
    }
  }

  /** Without a backend the write side is closed. */
  lemma ConnectWithoutBackend(s: Stream, sizes: seq<nat>)
    requires IsConnectRequest(s.headers) && !s.hasBackend && !ReadBody(s, sizes).1
    requires !s.output.finBuffered
    ensures OnBodyAvailable(s, sizes).output == s.output.(closed := true)
    ensures OnBodyAvailable(s, sizes).calls == s.calls
  {
    ReadBodyFields(s, sizes);
  }

  /** A response has been sent and the event brings another: more bytes are offered at once than
      were announced, or the backend answers. */
  predicate RespondsAgain(w: World, e: Event) {
    w.s.responseSent &&
    match e
    case BodyAvailable(sizes) => Offered(|w.s.input.unread|, sizes) > w.s.contentLength
    case Reply(response, _, _) => response.None? || (!response.value.delayed && Writes(response.value))
    case AlarmFires(_, _) => w.s.alarm.Some? && Writes(w.s.alarm.value)
    case _ => false
  }

  predicate RespondedTwice(w: World, events: seq<Event>)
    decreases |events|
  {
    events != [] && (RespondsAgain(w, events[0]) || RespondedTwice(Step(w, events[0]), events[1..]))
  }

  /** The tunnel while it lasts. What was read has been handed over; and if the stream has
      answered for a backend that still owes its answer, it has ended the response. */
  predicate Tunnel(w: World) {
    var s := w.s;
    && w.started && s.hasBackend && IsConnectRequest(s.headers) && s.contentLength >= 0
    && (!s.input.stopped && !s.input.closed ==> s.body == "")
    && (s.generate > 0 ==> s.responseSent)
    && (s.alarm.Some? ==> w.owed)
    && (w.owed && s.responseSent ==> s.output.finBuffered)
    && OutOk(s.output)
  }

  lemma OfferedFits(w: World, e: Event)
    requires Tunnel(w) && Legal(w, e) && e.BodyAvailable?
    ensures Tunnel(Step(w, e)) && (Sound(Step(w, e).s) <==> Sound(w.s) && !RespondsAgain(w, e))
  {
    var s := w.s;
    ReadBodyFields(s, e.sizes);
    RefusesIff(s, e.sizes);
    var (s1, overflow) := ReadBody(s, e.sizes);
    if overflow {
      ErrorFields(s1, 0);
      ErrorEffect(s1, 0);
    }
  }

  lemma WritableFits(w: World, e: Event)
    requires Tunnel(w) && Legal(w, e) && e.CanWrite?
    ensures Tunnel(Step(w, e))
    ensures Sound(Step(w, e).s) <==> Sound(w.s) && !(WritesOn(w.s, e.blocked) && w.s.output.finBuffered)
  {
    GeneratedEffect(w.s, e.blocked);
    GeneratedFields(w.s, e.blocked);
  }

  lemma NotFoundFits(w: World, e: Event)
    requires Tunnel(w) && Legal(w, e) && e.Reply? && e.response.None?
    ensures Tunnel(Step(w, e)) && (Sound(Step(w, e).s) <==> Sound(w.s) && !RespondsAgain(w, e))
  {
    NotFoundEffect(w.s);
    SendAllFields(w.s, NOT_FOUND_BLOCK, NOT_FOUND_BODY, None);
  }

  lemma DataFits(w: World, e: Event)
    requires Tunnel(w) && Legal(w, e) && e.StreamData?
    ensures Tunnel(Step(w, e)) && (Sound(Step(w, e).s) <==> Sound(w.s))
  {
    StreamDataEffect(w.s, e.bytes, e.close);
    StreamDataFields(w.s, e.bytes, e.close);
  }

  lemma AnswerFits(w: World, e: Event)
    requires Tunnel(w) && Legal(w, e) && Answered(w, e).Some?
    ensures Tunnel(Step(w, e))
    ensures Sound(Step(w, e).s) <==> Sound(w.s) && !RespondsAgain(w, e) && !BadAnswer(Answered(w, e).value, e.path)
  {
    var s, r := w.s.(alarm := None), Answered(w, e).value;
    AnswerIsResponse(w, e);
    RespondEffect(s, r, e.path, e.blocked);
    RespondFields(s, r, e.path, e.blocked);
    if IsEarly(r) {
      EarlyKeepsFlags(s, r, e.path, e.blocked);
    }
  }

  /** A 100 answers nothing yet. */
  lemma EarlyKeepsFlags(s: Stream, r: Response, path: Number, blocked: seq<bool>)
    requires IsEarly(r)
    ensures var s' := Respond(s, r, path, blocked);
            s'.responseSent == s.responseSent && s'.output.finBuffered == s.output.finBuffered
  {
    var hints := Hints(r.earlyHints);
    HintsEffect(s.output, hints);
    SendIncompleteFields(s.(output := PutAll(s.output, hints)), r.headers, r.body);
  }

  lemma TunnelStep(w: World, e: Event)
    requires Tunnel(w) && Legal(w, e) && (Sound(w.s) ==> !w.misanswered && !w.spilled)
    ensures Tunnel(Step(w, e))
    ensures var w' := Step(w, e);
            Sound(w'.s) <==> Sound(w.s) && !RespondsAgain(w, e) && !w'.misanswered && !w'.spilled
  {
    if e.BodyAvailable? {
      OfferedFits(w, e);
    } else if Answered(w, e).Some? {
      AnswerFits(w, e);
    } else if e.Reply? && e.response.None? {
      NotFoundFits(w, e);
    } else if e.StreamData? {
      DataFits(w, e);
    } else if e.CanWrite? {
      WritableFits(w, e);
    }
  }

  lemma {:induction false} TunnelRun(w: World, events: seq<Event>, w': World, twice: bool)
    requires Tunnel(w) && Run(w, events, w')
    requires Sound(w.s) <==> !w.misanswered && !w.spilled && !twice
    ensures Sound(w'.s) <==> !w'.misanswered && !w'.spilled && !twice && !RespondedTwice(w, events)
    decreases |events|
  {
    if events != [] {
      var w1 := Step(w, events[0]);
      TunnelStep(w, events[0]);
      TunnelRun(w1, events[1..], w', twice || RespondsAgain(w, events[0]));
    }
  }

  lemma TunnelStart(w: World, e: Event)
    requires Initial(w) && Legal(w, e) && e.HeadersComplete? && HandsOverLength(w, e)
    ensures var w1 := Step(w, e); Tunnel(w1) && Sound(w1.s) && !w1.misanswered && !w1.spilled
  {
    var s0 := Init(w.s.hasBackend).(input := Input("", "", e.fin, false, false));
    HeadersCompleteFrames(s0, e.fin, e.baseRejects, e.copied);
  }

  /** In every run of such a CONNECT responses are only sent when none was sent before, and the
      message is well formed with a final header block exactly if responseSent, exactly when the
      statuses of the backend's answers fit their use, no leftover bytes could be written, and
      after a response no more bytes were offered at once than announced and no answer came. */
  lemma TunnelIsWellFramedIff(w: World, e: Event, rest: seq<Event>, w': World)
    requires Initial(w) && Legal(w, e) && e.HeadersComplete? && HandsOverLength(w, e)
    requires Run(Step(w, e), rest, w')
    ensures && !w'.s.ruleBroken && WellFramed(w'.s.output.frames)
            && (w'.s.responseSent <==> exists f :: f in w'.s.output.frames && IsFinal(f))
            <==> !w'.misanswered && !w'.spilled && !RespondedTwice(Step(w, e), rest)
  {
    TunnelStart(w, e);
    TunnelRun(Step(w, e), rest, w', false);
    WellFramedIffPhase(w'.s.output.frames);
  }
}

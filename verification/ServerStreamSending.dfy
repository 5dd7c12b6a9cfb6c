/** What each sending function of the response stream (src/quit_server_stream.cc:274-485) does
    to the frames, and what it leaves alone. */
module ServerStreamSending {
  import opened ServerStream
  import opened Text
  import opened ServerStreamFraming

  // ---------------------------------------------------------------------------------------
  // Frames in step with responseSent
  // ---------------------------------------------------------------------------------------

  /** An unbroken message has buffered a FIN exactly if it is done, and nothing after it. */
  predicate OutOk(o: Output) {
    InStep(PhaseOf(o.frames), o.finBuffered, o.afterFin)
  }

  predicate InStep(p: Phase, finBuffered: bool, afterFin: bool) {
    match p
    case Start => !finBuffered && !afterFin
    case Open => !finBuffered && !afterFin
    case Done => finBuffered && !afterFin
    case Broken => true
  }

  /** The frames are well formed with a final header block exactly if responseSent, and every
      response supplied its headers exactly if none was sent before. */
  predicate Sound(s: Stream) {
    !s.ruleBroken && SoundAt(PhaseOf(s.output.frames), s.responseSent)
  }

  predicate SoundAt(p: Phase, responseSent: bool) {
    p != Broken && (p == Start <==> !responseSent)
  }

  /** A step that makes the stream unsound exactly if `bad`, and never sound again. */
  ghost predicate Effect(s: Stream, s': Stream, bad: bool) {
    OutOk(s.output) ==> OutOk(s'.output) && (Sound(s') <==> Sound(s) && !bad)
  }

  lemma PutPhase(o: Output, f: Frame)
    ensures PhaseOf(Put(o, f).frames) == Next(PhaseOf(o.frames), f)
    ensures OutOk(o) ==> OutOk(Put(o, f))
  {
    PhaseOfAppend(o.frames, f);
    NextInStep(PhaseOf(o.frames), f, o.finBuffered, o.afterFin);
  }

  lemma NextInStep(p: Phase, f: Frame, fin: bool, afterFin: bool)
    ensures InStep(p, fin, afterFin) ==> InStep(Next(p, f), fin || EndsStream(f), afterFin || fin)
  {
  }

  lemma NextBody(p: Phase, f: Frame, sent: bool, fin: bool, afterFin: bool)
    requires InStep(p, fin, afterFin) && !f.Headers?
    ensures SoundAt(Next(p, f), sent) <==> SoundAt(p, sent) && sent && !fin
  {
  }

  lemma BodyEffect(s: Stream, f: Frame)
    requires !f.Headers?
    ensures Effect(s, Write(s, f), !s.responseSent || s.output.finBuffered)
  {
    if OutOk(s.output) {
      PutPhase(s.output, f);
      NextBody(PhaseOf(s.output.frames), f, s.responseSent, s.output.finBuffered, s.output.afterFin);
    }
  }

  /** The headers of a response, which set responseSent. */
  function SendHeaders(s: Stream, block: Block, fin: bool): Stream {
    Write(CheckHeaders(s, true), Headers(block, fin)).(responseSent := true)
  }

  lemma SendHeadersEffect(s: Stream, block: Block, fin: bool)
    ensures Effect(s, SendHeaders(s, block, fin), IsInformational(block) || s.responseSent)
    ensures SendHeaders(s, block, fin).output.finBuffered == (s.output.finBuffered || fin)
    ensures SendHeaders(s, block, fin).responseSent
  {
    PutPhase(s.output, Headers(block, fin));
  }

  /** A 100 that does not count as the response. */
  lemma EarlyHeadersEffect(s: Stream, block: Block)
    requires IsInformational(block)
    ensures Effect(s, Write(CheckHeaders(s, true), Headers(block, false)), s.responseSent)
  {
    PutPhase(s.output, Headers(block, false));
  }

  lemma SendAllEffect(s: Stream, block: Block, body: Bytes, trailers: Option<Block>)
    ensures Effect(s, SendHeadersAndBodyAndTrailers(s, Some(block), body, trailers), IsInformational(block) || s.responseSent)
  {
    var fin := trailers.None?;
    var only := body == "" && fin;
    var s1 := SendHeaders(s, block, only);
    SendHeadersEffect(s, block, only);
    if !only {
      var s2 := if body != "" || fin then Write(s1, Data(body, fin)) else s1;
      BodyEffect(s1, Data(body, fin));
      if trailers.Some? {
        BodyEffect(s2, Trailers(trailers.value));
      }
    }
  }

  lemma ErrorEffect(s: Stream, code: int)
    requires !(100 <= code < 200)
    ensures Effect(s, SendErrorResponse(s, code), s.responseSent)
  {
    SendAllEffect(s.(input := s.input.(stopped := true)), ErrorBlock(code), ERROR_BODY, None);
  }

  lemma NotFoundEffect(s: Stream)
    ensures Effect(s, SendNotFoundResponse(s), s.responseSent)
  {
    SendAllEffect(s, NOT_FOUND_BLOCK, NOT_FOUND_BODY, None);
  }

  /** Headers of status 100 come without a body, all others are final. */
  predicate IsBadIncomplete(block: Block, body: Bytes) {
    if block.code == Some(100) then body != "" else IsInformational(block)
  }

  lemma SendIncompleteEffect(s: Stream, block: Block, body: Bytes)
    ensures Effect(s, SendIncompleteResponse(s, Some(block), body), IsBadIncomplete(block, body) || s.responseSent)
  {
    if block.code == Some(100) {
      var s1 := Write(CheckHeaders(s, true), Headers(block, false));
      EarlyHeadersEffect(s, block);
      BodyEffect(s1, Data(body, false));
    } else {
      SendHeadersEffect(s, block, false);
      BodyEffect(SendHeaders(s, block, false), Data(body, false));
    }
  }

  lemma StreamDataEffect(s: Stream, data: Bytes, close: bool)
    requires s.responseSent && !s.output.finBuffered && (data != "" || close)
    ensures Effect(s, SendStreamData(s, data, close), false)
  {
    BodyEffect(s, Data(data, close));
  }

  /** Data frames of which at most the last ends the stream. */
  lemma {:induction false} BodiesEffect(o: Output, fs: seq<Frame>)
    requires OutOk(o)
    requires forall i :: 0 <= i < |fs| ==> !fs[i].Headers? && (EndsStream(fs[i]) ==> i == |fs| - 1)
    ensures OutOk(PutAll(o, fs))
    ensures var p' := PhaseOf(PutAll(o, fs).frames);
            if fs == [] then p' == PhaseOf(o.frames)
            else if PhaseOf(o.frames) == Open then p' == Open || p' == Done
            else p' == Broken
    decreases |fs|
  {
    if fs != [] {
      PutPhase(o, fs[0]);
      BodiesEffect(Put(o, fs[0]), fs[1..]);
    }
  }

  /** Whether OnCanWrite writes anything. */
  predicate WritesOn(s: Stream, blocked: seq<bool>) {
    s.generate > 0 && !(blocked != [] && blocked[0])
  }

  lemma GeneratedEffect(s: Stream, blocked: seq<bool>)
    requires s.generate > 0 ==> s.responseSent
    ensures Effect(s, WriteGeneratedBytes(s, blocked), WritesOn(s, blocked) && s.output.finBuffered)
  {
    if OutOk(s.output) && s.generate > 0 {
      ChunksCover(s.generate);
      BodiesEffect(s.output, Chunks(s.generate)[..ChunksBeforeBlocking(s.generate, blocked)]);
    }
  }

  lemma SendGeneratedEffect(s: Stream, headers: Block, n: nat, blocked: seq<bool>)
    ensures Effect(s, SendGeneratedBytes(s, headers, n, blocked), IsInformational(headers) || s.responseSent)
  {
    var s1 := SendHeaders(s.(generate := n), WithContentLength(headers, n), false);
    SendHeadersEffect(s.(generate := n), WithContentLength(headers, n), false);
    GeneratedEffect(s1, blocked);
  }

  // ---------------------------------------------------------------------------------------
  // Answers of the backend
  // ---------------------------------------------------------------------------------------

  /** Answers whose statuses do not fit their use: a hint that is not informational, an
      informational status on a response, or a 100 with a body. */
  predicate BadAnswer(r: Response, path: Number) {
    || (exists i :: 0 <= i < |r.earlyHints| && !IsInformational(r.earlyHints[i]))
    || IsBadFinal(r, path)
  }

  predicate IsBadFinal(r: Response, path: Number) {
    match r.kind
    case Incomplete => r.headers.code.Some? && IsBadIncomplete(r.headers, r.body)
    case GenerateBytes => path.Parsed? && IsInformational(r.headers)
    case Regular => IsInformational(r.headers)
    case _ => false
  }

  lemma {:induction false} HintsEffect(o: Output, hints: seq<Frame>)
    requires forall i :: 0 <= i < |hints| ==> hints[i].Headers? && !hints[i].fin
    ensures var o' := PutAll(o, hints);
            && (OutOk(o) ==> OutOk(o'))
            && o'.finBuffered == o.finBuffered
            && (PhaseOf(o.frames) == Start ==>
                  (PhaseOf(o'.frames) == Start <==> forall i :: 0 <= i < |hints| ==> IsInterim(hints[i])))
            && (PhaseOf(o.frames) != Start ==> PhaseOf(o'.frames) == if hints == [] then PhaseOf(o.frames) else Broken)
            && (!o.finBuffered ==> o'.afterFin == o.afterFin)
    decreases |hints|
  {
    if hints != [] {
      PutPhase(o, hints[0]);
      HintsEffect(Put(o, hints[0]), hints[1..]);
      assert hints == [hints[0]] + hints[1..];
    }
  }

  /** The answer is not to say nothing. */
  predicate SaysSomething(r: Response) {
    r.kind != CloseConnection && r.kind != IgnoreRequest
  }

  predicate Writes(r: Response) {
    r.earlyHints != [] || SaysSomething(r)
  }

  lemma GeneratedAnswerEffect(s: Stream, r: Response, path: Number, blocked: seq<bool>)
    requires r.kind == GenerateBytes
    ensures Effect(s, Answer(s, r, path, blocked), IsBadFinal(r, path) || s.responseSent)
  {
    if r.headers.code == None {
      ErrorEffect(s, 0);
    } else if path.NotANumber? {
      NotFoundEffect(s.(generate := path.leftover));
    } else {
      SendGeneratedEffect(s, r.headers, path.n, blocked);
    }
  }

  lemma FinalEffect(s: Stream, r: Response, path: Number, blocked: seq<bool>)
    ensures Effect(s, Answer(s, r, path, blocked), IsBadFinal(r, path) || (s.responseSent && SaysSomething(r)))
  {
    match r.kind
    case CloseConnection =>
    case IgnoreRequest =>
    case BackendError => ErrorEffect(s, 502);
    case Incomplete =>
      ErrorEffect(s, 0);
      SendIncompleteEffect(s, r.headers, r.body);
    case GenerateBytes => GeneratedAnswerEffect(s, r, path, blocked);
    case Regular =>
      ErrorEffect(s, 0);
      SendAllEffect(s, r.headers, r.body, r.trailers);
  }

  /** An answer keeps the stream sound exactly if its statuses fit their use and, unless it
      writes nothing, no response was sent before. */
  lemma RespondEffect(s: Stream, r: Response, path: Number, blocked: seq<bool>)
    requires s.responseSent ==> PhaseOf(s.output.frames) != Start
    ensures Effect(s, Respond(s, r, path, blocked), BadAnswer(r, path) || (s.responseSent && Writes(r)))
  {
    var hints := Hints(r.earlyHints);
    HintsEffect(s.output, hints);
    FinalEffect(s.(output := PutAll(s.output, hints)), r, path, blocked);
    assert (forall i :: 0 <= i < |hints| ==> IsInterim(hints[i]))
           <==> (forall i :: 0 <= i < |r.earlyHints| ==> IsInformational(r.earlyHints[i])) by {
      assert forall i :: 0 <= i < |hints| ==> (IsInterim(hints[i]) <==> IsInformational(r.earlyHints[i]));
    }
  }
}

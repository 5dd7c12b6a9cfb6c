/** The frames a response stream writes (src/quit_server_stream.cc:274-355, 383-485) against
    the message framing of section 4.1 of RFC 9114. */
module ServerStreamFraming {
  import opened ServerStream
  import opened Text

  // ---------------------------------------------------------------------------------------
  // Well-formed messages
  // ---------------------------------------------------------------------------------------

  /** A status from 100 to 199. */
  predicate IsInformational(b: Block) {
    b.code.Some? && 100 <= b.code.value < 200
  }

  predicate IsInterim(f: Frame) {
    f.Headers? && IsInformational(f.block) && !f.fin
  }

  predicate IsFinal(f: Frame) {
    f.Headers? && !IsInformational(f.block)
  }

  /** Interim header blocks, then at most one final block, then data, then at most one
      trailers block, with nothing after a FIN. */
  ghost predicate WellFramed(fs: seq<Frame>) {
    exists i :: 0 <= i <= |fs| && FinalAt(fs, i)
  }

  ghost predicate FinalAt(fs: seq<Frame>, i: nat)
    requires i <= |fs|
  {
    && (forall k :: 0 <= k < i ==> IsInterim(fs[k]))
    && (i < |fs| ==> IsFinal(fs[i]))
    && (forall k :: i < k < |fs| ==> !fs[k].Headers?)
    && (forall k :: 0 <= k < |fs| - 1 ==> !EndsStream(fs[k]))
  }

  datatype Phase = Start | Open | Done | Broken

  function Next(p: Phase, f: Frame): Phase {
    if p == Start && IsInterim(f) then Start
    else if p == Start && IsFinal(f) then (if f.fin then Done else Open)
    else if p == Open && !f.Headers? then (if EndsStream(f) then Done else Open)
    else Broken
  }

  function PhaseOf(fs: seq<Frame>): Phase {
    if fs == [] then Start else Next(PhaseOf(fs[..|fs| - 1]), fs[|fs| - 1])
  }

  lemma PhaseOfAppend(fs: seq<Frame>, f: Frame)
    ensures PhaseOf(fs + [f]) == Next(PhaseOf(fs), f)
  {
    assert (fs + [f])[..|fs|] == fs;
  }

  /** Reading frame by frame recognises exactly the well-formed messages. */
  lemma {:induction false} WellFramedIffPhase(fs: seq<Frame>)
    ensures WellFramed(fs) <==> PhaseOf(fs) != Broken
    ensures PhaseOf(fs) != Broken ==> (PhaseOf(fs) != Start <==> exists f :: f in fs && IsFinal(f))
  {
    if WellFramed(fs) {
      var i :| 0 <= i <= |fs| && FinalAt(fs, i);
      FinalGivesPhase(fs, i);
      assert i < |fs| ==> fs[i] in fs;
      forall f | f in fs && i == |fs| ensures IsInterim(f) {
        var k :| 0 <= k < |fs| && fs[k] == f;
      }
    }
    if PhaseOf(fs) != Broken {
      var i := PhaseGivesFinal(fs);
    }
  }

  /** The phase that a well-formed message ends in. */
  function PhaseAt(fs: seq<Frame>, i: nat): Phase {
    if i >= |fs| then Start else if EndsStream(fs[|fs| - 1]) then Done else Open
  }

  lemma {:induction false} FinalGivesPhase(fs: seq<Frame>, i: nat)
    requires i <= |fs| && FinalAt(fs, i)
    ensures PhaseOf(fs) == PhaseAt(fs, i)
  {
    if fs != [] {
      var n := |fs| - 1;
      var front := fs[..n];
      var j := if i <= n then i else n;
      assert FinalAt(front, j);
      FinalGivesPhase(front, j);
      assert i < n ==> !EndsStream(front[n - 1]) by {
        assert i < n ==> front[n - 1] == fs[n - 1];
      }
    }
  }

  lemma {:induction false} PhaseGivesFinal(fs: seq<Frame>) returns (i: nat)
    requires PhaseOf(fs) != Broken
    ensures i <= |fs| && FinalAt(fs, i) && PhaseOf(fs) == PhaseAt(fs, i)
  {
    if fs == [] {
      i := 0;
    } else {
      var n := |fs| - 1;
      var front := fs[..n];
      i := PhaseGivesFinal(front);
      assert forall k :: 0 <= k < n ==> front[k] == fs[k];
      if PhaseOf(front) == Start && IsInterim(fs[n]) {
        i := n + 1;
      }
    }
  }

  // ---------------------------------------------------------------------------------------
  // Generated bytes
  // ---------------------------------------------------------------------------------------

  function Total(fs: seq<Frame>): nat {
    if fs == [] then 0
    else (if fs[0].Data? then |fs[0].bytes| else 0) + Total(fs[1..])
  }

  predicate AllAs(bytes: Bytes) {
    forall i :: 0 <= i < |bytes| ==> bytes[i] == 'a'
  }

  /** n bytes are cut into ceil(n / 1024) pieces of 1 to 1024 bytes, and only the last ends
      the stream. */
  lemma {:induction false} ChunksCover(n: nat)
    requires n > 0
    ensures |Chunks(n)| == (n + CHUNK_SIZE - 1) / CHUNK_SIZE
    ensures Total(Chunks(n)) == n
    ensures forall k :: 0 <= k < |Chunks(n)| ==>
              Chunks(n)[k].Data? && 1 <= |Chunks(n)[k].bytes| <= CHUNK_SIZE && AllAs(Chunks(n)[k].bytes)
    ensures forall k :: 0 <= k < |Chunks(n)| ==> (Chunks(n)[k].fin <==> k == |Chunks(n)| - 1)
  {
    if n > CHUNK_SIZE {
      ChunksCover(n - CHUNK_SIZE);
      assert Chunks(n)[1..] == Chunks(n - CHUNK_SIZE);
    } else {
      assert Chunks(n) == [Data(Filler(n), true)];
      assert Chunks(n)[1..] == [];
    }
  }

  /** Pieces are written until the first of the answers that says the stream is blocked. */
  lemma {:induction false} StopsAtFirstBlock(n: nat, blocked: seq<bool>)
    ensures var k := ChunksBeforeBlocking(n, blocked);
            && (forall i :: 0 <= i < k && i < |blocked| ==> !blocked[i])
            && (k < |Chunks(n)| <==> k < |blocked| && blocked[k] && Remaining(n, k) > 0)
    decreases n
  {
    WrittenPlusLeft(n, ChunksBeforeBlocking(n, blocked));
    if n > 0 && !(blocked != [] && blocked[0]) {
      var len := if n < CHUNK_SIZE then n else CHUNK_SIZE;
      StopsAtFirstBlock(n - len, if blocked == [] then [] else blocked[1..]);
    }
  }

  /** However far the pieces got, the bytes written and the bytes left make n. */
  lemma {:induction false} WrittenPlusLeft(n: nat, k: nat)
    requires k <= |Chunks(n)|
    ensures Total(Chunks(n)[..k]) + Remaining(n, k) == n
    ensures Remaining(n, k) == 0 <==> k == |Chunks(n)|
    ensures Chunks(n)[k..] == Chunks(Remaining(n, k))
  {
    if k > 0 {
      var len := if n < CHUNK_SIZE then n else CHUNK_SIZE;
      var rest := Chunks(n - len);
      WrittenPlusLeft(n - len, k - 1);
      FirstPiece(Data(Filler(len), n == len), rest, k);
    } else {
      assert Chunks(n)[..0] == [] && Chunks(n)[0..] == Chunks(n);
    }
  }

  lemma FirstPiece(f: Frame, rest: seq<Frame>, k: nat)
    requires 0 < k <= |rest| + 1
    ensures ([f] + rest)[..k] == [f] + rest[..k - 1]
    ensures ([f] + rest)[k..] == rest[k - 1..]
    ensures Total([f] + rest[..k - 1]) == (if f.Data? then |f.bytes| else 0) + Total(rest[..k - 1])
  {
    assert ([f] + rest[..k - 1])[1..] == rest[..k - 1];
  }

  lemma {:induction false} PutAllFrames(o: Output, fs: seq<Frame>)
    ensures PutAll(o, fs).frames == o.frames + fs
    ensures PutAll(o, fs).closed == o.closed && PutAll(o, fs).connectionClosed == o.connectionClosed
    decreases |fs|
  {
    if fs != [] {
      PutAllFrames(Put(o, fs[0]), fs[1..]);
      assert [fs[0]] + fs[1..] == fs;
    }
  }

  /** FIN is buffered by the last piece, and written after a FIN are all pieces or none. */
  lemma {:induction false} ChunksFin(o: Output, n: nat, k: nat)
    requires k <= |Chunks(n)|
    ensures var o' := PutAll(o, Chunks(n)[..k]);
            && (o'.finBuffered <==> o.finBuffered || (n > 0 && k == |Chunks(n)|))
            && (o'.afterFin <==> o.afterFin || (k > 0 && o.finBuffered))
    decreases n
  {
    if k > 0 {
      var len := if n < CHUNK_SIZE then n else CHUNK_SIZE;
      var o1 := Put(o, Data(Filler(len), n == len));
      assert Chunks(n)[..k][1..] == Chunks(n - len)[..k - 1];
      assert PutAll(o, Chunks(n)[..k]) == PutAll(o1, Chunks(n - len)[..k - 1]);
      ChunksFin(o1, n - len, k - 1);
    } else {
      assert Chunks(n)[..k] == [];
    }
  }

  /** WriteGeneratedBytes called again and again, each time blocked where the answers say. */
  function OnCanWrites(st: Stream, calls: seq<seq<bool>>): Stream {
    if calls == [] then st else WriteGeneratedBytes(OnCanWrites(st, calls[..|calls| - 1]), calls[|calls| - 1])
  }

  /** Over any number of calls and any pattern of blocking, what has been written is a prefix
      of the pieces of the requested number, and the counter is what that prefix leaves: no byte
      is lost or repeated, and FIN comes with the last byte alone. */
  lemma {:induction false} GeneratedAcrossCalls(st: Stream, calls: seq<seq<bool>>) returns (k: nat)
    ensures k <= |Chunks(st.generate)|
    ensures var st' := OnCanWrites(st, calls);
            && st'.output.frames == st.output.frames + Chunks(st.generate)[..k]
            && st'.generate == Remaining(st.generate, k)
            && Total(Chunks(st.generate)[..k]) + st'.generate == st.generate
            && (st'.generate == 0 <==> k == |Chunks(st.generate)|)
  {
    var n := st.generate;
    if calls == [] {
      k := 0;
      WrittenPlusLeft(n, 0);
      assert st.output.frames + [] == st.output.frames;
    } else {
      var front, blocked := calls[..|calls| - 1], calls[|calls| - 1];
      var j := GeneratedAcrossCalls(st, front);
      var mid := OnCanWrites(st, front);
      var i := ChunksBeforeBlocking(mid.generate, blocked);
      PiecesGoOn(n, j, i);
      PutAllFrames(mid.output, Chunks(mid.generate)[..i]);
      k := j + i;
      assert st.output.frames + Chunks(n)[..j] + Chunks(mid.generate)[..i] == st.output.frames + Chunks(n)[..k];
      WrittenPlusLeft(n, k);
    }
  }

  /** Cutting what is left after j pieces goes on where the first cutting stopped. */
  lemma PiecesGoOn(n: nat, j: nat, i: nat)
    requires j <= |Chunks(n)| && i <= |Chunks(Remaining(n, j))|
    ensures j + i <= |Chunks(n)|
    ensures Chunks(n)[..j] + Chunks(Remaining(n, j))[..i] == Chunks(n)[..j + i]
    ensures Remaining(Remaining(n, j), i) == Remaining(n, j + i)
  {
    WrittenPlusLeft(n, j);
    RemainingAdds(n, j, i);
  }

  // ---------------------------------------------------------------------------------------
  // Content-length of the responses the stream makes itself
  // ---------------------------------------------------------------------------------------

  function DigitValue(c: char): nat {
    if '0' <= c <= '9' then c as nat - '0' as nat else 0
  }

  function DecimalValue(s: string): nat {
    if s == "" then 0 else DecimalValue(s[..|s| - 1]) * 10 + DigitValue(s[|s| - 1])
  }

  lemma {:induction false} DecimalIsRead(n: nat)
    ensures DecimalValue(Decimal(n)) == n
  {
    if n >= 10 {
      DecimalIsRead(n / 10);
      var s := Decimal(n);
      assert s[..|s| - 1] == Decimal(n / 10);
    } else {
      assert Decimal(n)[..0] == "";
    }
  }

  /** The content-length a header block announces. */
  function Announced(b: Block): nat {
    if "content-length" in b.fields then DecimalValue(b.fields["content-length"]) else 0
  }

  /** The error and not-found responses, from a stream that has sent none, are a final header
      block and one closing piece of the announced length. */
  lemma OwnResponsesAnnounceTheirLength(st: Stream, code: int)
    ensures SendErrorResponse(st, code).output.frames
            == st.output.frames + [Headers(ErrorBlock(code), false), Data(ERROR_BODY, true)]
    ensures Announced(ErrorBlock(code)) == |ERROR_BODY|
    ensures var status := if code <= 0 then 500 else code;
            DecimalValue(ErrorBlock(code).fields[":status"]) == status && ErrorBlock(code).code == Some(status)
    ensures SendNotFoundResponse(st).output.frames
            == st.output.frames + [Headers(NOT_FOUND_BLOCK, false), Data(NOT_FOUND_BODY, true)]
    ensures Announced(NOT_FOUND_BLOCK) == |NOT_FOUND_BODY|
    ensures ERROR_BODY == "bad" && NOT_FOUND_BODY == "file not found"
    ensures DecimalValue(NOT_FOUND_BLOCK.fields[":status"]) == 404 && NOT_FOUND_BLOCK.code == Some(404)
  {
    DecimalIsRead(|ERROR_BODY|);
    DecimalIsRead(|NOT_FOUND_BODY|);
    DecimalIsRead(if code <= 0 then 500 else code);
    FourOhFour();
  }

  lemma FourOhFour()
    ensures DecimalValue("404") == 404
  {
    DecimalIsRead(404);
    assert Decimal(4) == "4" && Decimal(40) == "40" && Decimal(404) == "404";
  }

  /** A generated response announces the number of bytes that its pieces carry in the end. */
  lemma GeneratedResponseAnnouncesItsLength(st: Stream, headers: Block, n: nat, blocked: seq<bool>,
                                            calls: seq<seq<bool>>)
    requires n > 0 && OnCanWrites(SendGeneratedBytes(st, headers, n, blocked), calls).generate == 0
    ensures var st' := OnCanWrites(SendGeneratedBytes(st, headers, n, blocked), calls);
            st'.output.frames == st.output.frames + [Headers(WithContentLength(headers, n), false)] + Chunks(n)
    ensures Announced(WithContentLength(headers, n)) == n == Total(Chunks(n))
  {
    DecimalIsRead(n);
    ChunksCover(n);
    var st0 := Write(st.(generate := n), Headers(WithContentLength(headers, n), false));
    var st1 := CheckHeaders(st0, true).(responseSent := true);
    var all := [blocked] + calls;
    OnCanWritesFirst(st1, blocked, calls);
    var k := GeneratedAcrossCalls(st1, all);
    assert Chunks(n)[..|Chunks(n)|] == Chunks(n);
  }

  /** For zero bytes the response is its header block and nothing else, ever: no FIN follows,
      however often the stream can write. */
  lemma ZeroGeneratedBytesNeverEnd(st: Stream, headers: Block, blocked: seq<bool>, calls: seq<seq<bool>>)
    ensures var st' := OnCanWrites(SendGeneratedBytes(st, headers, 0, blocked), calls);
            st'.output.frames == st.output.frames + [Headers(WithContentLength(headers, 0), false)]
  {
    var st0 := Write(st.(generate := 0), Headers(WithContentLength(headers, 0), false));
    var st1 := CheckHeaders(st0, true).(responseSent := true);
    OnCanWritesFirst(st1, blocked, calls);
    var k := GeneratedAcrossCalls(st1, [blocked] + calls);
    assert Chunks(0)[..k] == [];
  }

  /** Letting the stream write buffers FIN exactly with the last byte. */
  lemma {:induction false} FinComesWithTheLastByte(st: Stream, calls: seq<seq<bool>>)
    ensures var st' := OnCanWrites(st, calls);
            st'.output.finBuffered <==> st.output.finBuffered || (st.generate > 0 && st'.generate == 0)
  {
    if calls != [] {
      var front, blocked := calls[..|calls| - 1], calls[|calls| - 1];
      FinComesWithTheLastByte(st, front);
      var mid := OnCanWrites(st, front);
      var k := ChunksBeforeBlocking(mid.generate, blocked);
      ChunksFin(mid.output, mid.generate, k);
      WrittenPlusLeft(mid.generate, k);
      var j := GeneratedAcrossCalls(st, front);
    }
  }

  lemma {:induction false} NothingBlocks(n: nat)
    ensures ChunksBeforeBlocking(n, []) == |Chunks(n)|
  {
    if n > 0 {
      NothingBlocks(n - if n < CHUNK_SIZE then n else CHUNK_SIZE);
    }
  }

  /** A generated response can be ended with a FIN, by letting the stream write often enough,
      exactly if it has bytes. */
  lemma GeneratedEndsIff(st: Stream, headers: Block, n: nat, blocked: seq<bool>)
    requires !st.output.finBuffered
    ensures (exists calls :: OnCanWrites(SendGeneratedBytes(st, headers, n, blocked), calls).output.finBuffered) <==> n > 0
  {
    var st0 := Write(st.(generate := n), Headers(WithContentLength(headers, n), false));
    var st1 := CheckHeaders(st0, true).(responseSent := true);
    var st' := SendGeneratedBytes(st, headers, n, blocked);
    forall calls ensures n == 0 ==> !OnCanWrites(st', calls).output.finBuffered {
      OnCanWritesFirst(st1, blocked, calls);
      FinComesWithTheLastByte(st1, [blocked] + calls);
    }
    if n > 0 {
      var calls: seq<seq<bool>> := [[]];
      var mid := OnCanWrites(st', []);
      assert calls[..0] == [] && OnCanWrites(st', calls) == WriteGeneratedBytes(mid, []);
      NothingBlocks(mid.generate);
      WrittenPlusLeft(mid.generate, |Chunks(mid.generate)|);
      OnCanWritesFirst(st1, blocked, calls);
      FinComesWithTheLastByte(st1, [blocked] + calls);
      assert OnCanWrites(st', calls).output.finBuffered;
    }
  }

  lemma {:induction false} OnCanWritesFirst(st: Stream, blocked: seq<bool>, calls: seq<seq<bool>>)
    ensures OnCanWrites(st, [blocked] + calls) == OnCanWrites(WriteGeneratedBytes(st, blocked), calls)
  {
    var all := [blocked] + calls;
    if calls == [] {
      assert all[..0] == [];
    } else {
      assert all[..|all| - 1] == [blocked] + calls[..|calls| - 1];
      OnCanWritesFirst(st, blocked, calls[..|calls| - 1]);
    }
  }

  // ---------------------------------------------------------------------------------------
  // What each kind of answer puts on the stream
  // ---------------------------------------------------------------------------------------

  function Content(fs: seq<Frame>): Bytes {
    if fs == [] then ""
    else Content(fs[..|fs| - 1]) + if fs[|fs| - 1].Data? then fs[|fs| - 1].bytes else ""
  }

  lemma ContentOfMessage(f: Frame, g: Frame, h: Frame)
    ensures Content([f]) == if f.Data? then f.bytes else ""
    ensures Content([f, g]) == Content([f]) + if g.Data? then g.bytes else ""
    ensures Content([f, g, h]) == Content([f, g]) + if h.Data? then h.bytes else ""
  {
    assert [f][..0] == [] && [f, g][..1] == [f] && [f, g, h][..2] == [f, g];
    assert f.Data? ==> "" + f.bytes == f.bytes;
  }

  function Message(headers: Block, body: Bytes, trailers: Option<Block>): seq<Frame> {
    if trailers.Some? then
      if body == "" then [Headers(headers, false), Trailers(trailers.value)]
      else [Headers(headers, false), Data(body, false), Trailers(trailers.value)]
    else if body == "" then [Headers(headers, true)]
    else [Headers(headers, false), Data(body, true)]
  }

  lemma RegularResponseIsMessage(st: Stream, headers: Block, body: Bytes, trailers: Option<Block>)
    ensures SendHeadersAndBodyAndTrailers(st, Some(headers), body, trailers).output.frames
            == st.output.frames + Message(headers, body, trailers)
  {
    var fs, h := st.output.frames, Headers(headers, body == "" && trailers.None?);
    var d := Data(body, trailers.None?);
    if trailers.Some? {
      AppendOneByOne(fs, h, d, Trailers(trailers.value));
      AppendOneByOne(fs, h, Trailers(trailers.value), d);
    } else {
      AppendOneByOne(fs, h, d, h);
    }
  }

  lemma AppendOneByOne(fs: seq<Frame>, f: Frame, g: Frame, h: Frame)
    ensures fs + [f] + [g] == fs + [f, g]
    ensures fs + [f] + [g] + [h] == fs + [f, g, h]
  {
  }

  lemma MessageIsFramed(headers: Block, body: Bytes, trailers: Option<Block>)
    ensures WellFramed(Message(headers, body, trailers)) <==> !IsInformational(headers)
  {
    var m := Message(headers, body, trailers);
    if !IsInformational(headers) {
      assert FinalAt(m, 0);
    } else {
      forall i | 0 <= i <= |m| ensures !FinalAt(m, i) {
        assert !IsFinal(m[0]) && (IsInterim(m[0]) ==> |m| > 1 && !m[1].Headers?);
      }
    }
  }

  lemma MessageContent(headers: Block, body: Bytes, trailers: Option<Block>)
    ensures Content(Message(headers, body, trailers)) == body
  {
    var m := Message(headers, body, trailers);
    var h, d, t := m[0], Data(body, trailers.None?), m[|m| - 1];
    ContentOfMessage(h, d, t);
    ContentOfMessage(h, t, t);
    assert "" + body == body;
  }

  /** The frames of a whole response: its headers first, its body as content, its trailers, if
      any, last, and FIN exactly at the end. */
  ghost predicate IsResponse(m: seq<Frame>, headers: Block, body: Bytes, trailers: Option<Block>) {
    && m != [] && m[0].Headers? && m[0].block == headers
    && (forall k :: 0 < k < |m| ==> !m[k].Headers?)
    && (forall k :: 0 <= k < |m| ==> (EndsStream(m[k]) <==> k == |m| - 1))
    && Content(m) == body
    && (if trailers.Some? then m[|m| - 1] == Trailers(trailers.value) else !m[|m| - 1].Trailers?)
  }

  /** A regular response is a whole response, and a well-formed message exactly for a final
      status. */
  lemma MessageIsComplete(headers: Block, body: Bytes, trailers: Option<Block>)
    ensures var m := Message(headers, body, trailers);
            IsResponse(m, headers, body, trailers) && (WellFramed(m) <==> !IsInformational(headers))
  {
    MessageIsFramed(headers, body, trailers);
    MessageContent(headers, body, trailers);
  }

  /** The frames of a response that is left open: its headers, then its body as content. */
  ghost predicate IsOpenResponse(m: seq<Frame>, headers: Block, body: Bytes) {
    && m != [] && m[0] == Headers(headers, false)
    && (forall k :: 0 < k < |m| ==> m[k].Data? && !m[k].fin)
    && Content(m) == body
  }

  /** The frames of a response of `n` generated bytes, of which `left` are still to come: the
      headers given, with the number announced, then the bytes, and FIN with the last of them. */
  ghost predicate IsGenerated(m: seq<Frame>, headers: Block, n: nat, left: nat) {
    && m != [] && m[0].Headers? && !m[0].fin && m[0].block.code == headers.code && Announced(m[0].block) == n
    && (forall k :: k != "content-length" ==>
          (k in m[0].block.fields <==> k in headers.fields)
          && (k in headers.fields ==> m[0].block.fields[k] == headers.fields[k]))
    && (forall k :: 0 < k < |m| ==> m[k].Data? && AllAs(m[k].bytes) && (m[k].fin <==> k == |m| - 1 && left == 0))
    && Total(m) + left == n
  }

  /** What an answer writes after its hints. */
  ghost predicate IsAnswer(m: seq<Frame>, r: Response, path: Number, left: nat) {
    match r.kind
    case CloseConnection => m == []
    case IgnoreRequest => m == []
    case BackendError => m == Refusal(502)
    case Incomplete => if r.headers.code == None then m == Refusal(500) else IsOpenResponse(m, r.headers, r.body)
    case Regular => if r.headers.code == None then m == Refusal(500) else IsResponse(m, r.headers, r.body, r.trailers)
    case GenerateBytes =>
      if r.headers.code == None then m == Refusal(500)
      else if path.Parsed? then IsGenerated(m, r.headers, path.n, left)
      else IsResponse(m, NOT_FOUND_BLOCK, NOT_FOUND_BODY, None)
  }

  lemma RegularAnswer(st: Stream, headers: Block, body: Bytes, trailers: Option<Block>) returns (m: seq<Frame>)
    ensures SendHeadersAndBodyAndTrailers(st, Some(headers), body, trailers).output.frames == st.output.frames + m
    ensures IsResponse(m, headers, body, trailers)
  {
    m := Message(headers, body, trailers);
    RegularResponseIsMessage(st, headers, body, trailers);
    MessageIsComplete(headers, body, trailers);
  }

  lemma IncompleteAnswer(st: Stream, headers: Block, body: Bytes) returns (m: seq<Frame>)
    ensures SendIncompleteResponse(st, Some(headers), body).output.frames == st.output.frames + m
    ensures IsOpenResponse(m, headers, body)
  {
    m := [Headers(headers, false)] + Piece(body, false);
    IncompleteResponseStaysOpen(st, headers, body);
    ContentOfMessage(Headers(headers, false), Data(body, false), Data(body, false));
    ContentAppend([Headers(headers, false)], body, false);
    assert "" + body == body;
    assert st.output.frames + [Headers(headers, false)] + Piece(body, false) == st.output.frames + m;
  }

  lemma GeneratedPieces(n: nat, k: nat)
    requires k <= |Chunks(n)|
    ensures var pieces := Chunks(n)[..k];
            && Total(pieces) + Remaining(n, k) == n
            && forall i :: 0 <= i < k ==>
                 pieces[i].Data? && AllAs(pieces[i].bytes) && (pieces[i].fin <==> i == k - 1 && Remaining(n, k) == 0)
  {
    WrittenPlusLeft(n, k);
    if n > 0 {
      ChunksCover(n);
    }
  }

  lemma GeneratedFrames(headers: Block, n: nat, k: nat)
    requires k <= |Chunks(n)|
    ensures IsGenerated([Headers(WithContentLength(headers, n), false)] + Chunks(n)[..k], headers, n, Remaining(n, k))
  {
    var h, pieces := Headers(WithContentLength(headers, n), false), Chunks(n)[..k];
    var m := [h] + pieces;
    GeneratedPieces(n, k);
    DecimalIsRead(n);
    assert m[1..] == pieces;
    assert forall i :: 0 < i < |m| ==> m[i] == pieces[i - 1];
  }

  lemma GeneratedAnswer(st: Stream, headers: Block, n: nat, blocked: seq<bool>) returns (m: seq<Frame>)
    ensures var st' := SendGeneratedBytes(st, headers, n, blocked);
            st'.output.frames == st.output.frames + m && IsGenerated(m, headers, n, st'.generate)
  {
    var k, h := ChunksBeforeBlocking(n, blocked), Headers(WithContentLength(headers, n), false);
    var pieces := Chunks(n)[..k];
    m := [h] + pieces;
    GeneratedFrames(headers, n, k);
    PutAllFrames(Write(st.(generate := n), h).output, pieces);
    assert st.output.frames + [h] + pieces == st.output.frames + m;
  }

  /** What an answer of the backend puts on a stream, whatever was sent before: its hints in order,
      and then what its kind says. */
  lemma RespondWrites(st: Stream, r: Response, path: Number, blocked: seq<bool>) returns (m: seq<Frame>)
    ensures var st' := Respond(st, r, path, blocked);
            && |st'.output.frames| == |st.output.frames| + |r.earlyHints| + |m|
            && st.output.frames <= st'.output.frames && st'.output.frames[|st.output.frames| + |r.earlyHints|..] == m
            && (forall i :: 0 <= i < |r.earlyHints| ==>
                  st'.output.frames[|st.output.frames| + i] == Headers(r.earlyHints[i], false))
            && IsAnswer(m, r, path, st'.generate)
  {
    var hints := Hints(r.earlyHints);
    var st1 := st.(output := PutAll(st.output, hints));
    PutAllFrames(st.output, hints);
    m := AnswerWrites(st1, r, path, blocked);
    assert (st.output.frames + hints + m)[|st.output.frames| + |hints|..] == m;
  }

  lemma RefusalIsWritten(st: Stream, code: int)
    ensures SendErrorResponse(st, code).output.frames == st.output.frames + Refusal(if code <= 0 then 500 else code)
  {
    OwnResponsesAnnounceTheirLength(st, code);
    assert ErrorBlock(0) == ErrorBlock(500);
  }

  lemma GenerateAnswer(st: Stream, r: Response, path: Number, blocked: seq<bool>) returns (m: seq<Frame>)
    requires r.kind == GenerateBytes && r.headers.code.Some?
    ensures var st' := Answer(st, r, path, blocked);
            st'.output.frames == st.output.frames + m && IsAnswer(m, r, path, st'.generate)
  {
    if path.Parsed? {
      m := GeneratedAnswer(st, r.headers, path.n, blocked);
    } else {
      m := RegularAnswer(st.(generate := path.leftover), NOT_FOUND_BLOCK, NOT_FOUND_BODY, None);
    }
  }

  lemma AnswerWrites(st: Stream, r: Response, path: Number, blocked: seq<bool>) returns (m: seq<Frame>)
    ensures var st' := Answer(st, r, path, blocked);
            st'.output.frames == st.output.frames + m && IsAnswer(m, r, path, st'.generate)
  {
    RefusalIsWritten(st, 502);
    RefusalIsWritten(st, 0);
    if r.kind == CloseConnection || r.kind == IgnoreRequest {
      m := [];
    } else if r.kind == BackendError {
      m := Refusal(502);
    } else if r.headers.code == None {
      m := Refusal(500);
    } else if r.kind == Incomplete {
      m := IncompleteAnswer(st, r.headers, r.body);
    } else if r.kind == GenerateBytes {
      m := GenerateAnswer(st, r, path, blocked);
    } else {
      m := RegularAnswer(st, r.headers, r.body, r.trailers);
    }
  }

  /** What the backend's answer adds to a stream that has sent nothing but hints: the hints in
      order, then 502 for a backend error, 500 for an answer without a status, nothing for an
      ignored request or a closed connection. */
  lemma SpecialAnswers(st: Stream, r: Response, path: Number, blocked: seq<bool>)
    requires r.kind == CloseConnection || r.kind == IgnoreRequest || r.kind == BackendError || r.headers.code == None
    ensures var st' := Respond(st, r, path, blocked);
            && st'.output.frames == st.output.frames + Hints(r.earlyHints)
               + (if r.kind == CloseConnection || r.kind == IgnoreRequest then []
                  else [Headers(ErrorBlock(if r.kind == BackendError then 502 else 500), false),
                        Data(ERROR_BODY, true)])
            && (st'.output.connectionClosed <==> st.output.connectionClosed || r.kind == CloseConnection)
  {
    var hints := Hints(r.earlyHints);
    PutAllFrames(st.output, hints);
    var st1 := st.(output := PutAll(st.output, hints));
    OwnResponsesAnnounceTheirLength(st1, 502);
    OwnResponsesAnnounceTheirLength(st1, 0);
    assert ErrorBlock(0) == ErrorBlock(500);
    assert st1.output.frames + [] == st1.output.frames;
  }

  lemma IncompleteResponseStaysOpen(st: Stream, headers: Block, body: Bytes)
    ensures var st' := SendIncompleteResponse(st, Some(headers), body);
            && st'.output.frames == st.output.frames + [Headers(headers, false)] + Piece(body, false)
            && st'.output.finBuffered == st.output.finBuffered
            && (st'.responseSent <==> st.responseSent || headers.code != Some(100))
  {
    var fs := st.output.frames + [Headers(headers, false)];
    assert fs + [] == fs;
  }

  /** What a piece of body puts on the stream: an empty one is written only for its FIN. */
  function Piece(data: Bytes, fin: bool): seq<Frame> {
    if data == "" && !fin then [] else [Data(data, fin)]
  }

  lemma StreamDataIsOnePiece(st: Stream, data: Bytes, close: bool)
    ensures SendStreamData(st, data, close).output.frames == st.output.frames + Piece(data, close)
    ensures SendStreamData(st, data, close).output.finBuffered <==> st.output.finBuffered || close
    ensures SendStreamData(st, data, close).responseSent == st.responseSent
    ensures SendStreamData(st, data, close).ruleBroken
            <==> st.ruleBroken || !st.responseSent || (data == "" && !close)
  {
    assert st.output.frames + [] == st.output.frames;
  }

  /** The backend's data for an open response, piece by piece. */
  function SendPieces(st: Stream, pieces: seq<Bytes>): Stream {
    if pieces == [] then st else SendStreamData(SendPieces(st, pieces[..|pieces| - 1]), pieces[|pieces| - 1], false)
  }

  function Join(pieces: seq<Bytes>): Bytes {
    if pieces == [] then "" else Join(pieces[..|pieces| - 1]) + pieces[|pieces| - 1]
  }

  lemma {:induction false} PiecesFollow(st: Stream, pieces: seq<Bytes>) returns (fs: seq<Frame>)
    ensures var st' := SendPieces(st, pieces);
            && st'.output.frames == st.output.frames + fs
            && st'.output.finBuffered == st.output.finBuffered && st'.responseSent == st.responseSent
            && (st'.ruleBroken <==> st.ruleBroken || (pieces != [] && !st.responseSent) || "" in pieces)
    ensures Content(fs) == Join(pieces)
    ensures forall f :: f in fs ==> f.Data? && !f.fin
  {
    if pieces == [] {
      fs := [];
      assert st.output.frames + [] == st.output.frames;
    } else {
      var front, data := pieces[..|pieces| - 1], pieces[|pieces| - 1];
      var before := PiecesFollow(st, front);
      StreamDataIsOnePiece(SendPieces(st, front), data, false);
      fs := before + Piece(data, false);
      assert st.output.frames + before + Piece(data, false) == st.output.frames + fs;
      assert pieces == front + [data];
      ContentAppend(before, data, false);
    }
  }

  lemma ContentAppend(fs: seq<Frame>, data: Bytes, fin: bool)
    ensures Content(fs + Piece(data, fin)) == Content(fs) + data
  {
    if data == "" && !fin {
      assert fs + [] == fs && Content(fs) + "" == Content(fs);
    } else {
      assert (fs + [Data(data, fin)])[..|fs|] == fs;
    }
  }

  /** An incomplete response is completed by the data that follows it: its headers, then its
      body and all the pieces in order as content, then FIN and nothing else after it; and the
      caller's rules are kept exactly if no piece is empty and no response was sent before. */
  lemma IncompleteResponseIsCompleted(st: Stream, headers: Block, body: Bytes, pieces: seq<Bytes>, last: Bytes)
    returns (m: seq<Frame>)
    requires headers.code != Some(100)
    ensures var st' := SendStreamData(SendPieces(SendIncompleteResponse(st, Some(headers), body), pieces), last, true);
            && st'.output.frames == st.output.frames + m && st'.output.finBuffered
            && (st'.ruleBroken <==> st.ruleBroken || st.responseSent || "" in pieces)
    ensures m != [] && m[0] == Headers(headers, false)
    ensures WellFramed(m) <==> !IsInformational(headers)
    ensures Content(m) == body + Join(pieces) + last
    ensures forall k :: 0 <= k < |m| ==> (EndsStream(m[k]) <==> k == |m| - 1)
  {
    var st1 := SendIncompleteResponse(st, Some(headers), body);
    IncompleteResponseStaysOpen(st, headers, body);
    var fs := PiecesFollow(st1, pieces);
    StreamDataIsOnePiece(SendPieces(st1, pieces), last, true);
    m := Completed(Headers(headers, false), body, fs, last);
    AppendTwice(st.output.frames, [Headers(headers, false)] + Piece(body, false), fs, Piece(last, true));
    CompletedFrames(Headers(headers, false), body, fs, last);
    CompletedContent(Headers(headers, false), body, fs, last);
  }

  function Completed(h: Frame, body: Bytes, fs: seq<Frame>, last: Bytes): seq<Frame> {
    [h] + Piece(body, false) + fs + Piece(last, true)
  }

  lemma AppendTwice(fs: seq<Frame>, a: seq<Frame>, b: seq<Frame>, c: seq<Frame>)
    ensures fs + a + b + c == fs + (a + b + c)
    ensures a != [] ==> fs + [a[0]] + a[1..] == fs + a
  {
  }

  lemma CompletedFrames(h: Frame, body: Bytes, fs: seq<Frame>, last: Bytes)
    requires h.Headers? && !h.fin && forall f :: f in fs ==> f.Data? && !f.fin
    ensures var m := Completed(h, body, fs, last);
            && (forall k :: 0 <= k < |m| ==> (EndsStream(m[k]) <==> k == |m| - 1))
            && (WellFramed(m) <==> !IsInformational(h.block))
  {
    var m := Completed(h, body, fs, last);
    var front := [h] + Piece(body, false) + fs;
    assert m == front + [Data(last, true)];
    forall k | 0 <= k < |front| ensures m[k] == front[k] && !EndsStream(m[k]) && (k > 0 ==> m[k].Data?) {
      assert k > |Piece(body, false)| ==> m[k] in fs;
    }
    if IsInformational(h.block) {
      assert forall i :: 0 <= i <= |m| && FinalAt(m, i) ==> !IsFinal(m[0]) && !IsInterim(m[1]) && !IsFinal(m[1]);
    } else {
      assert FinalAt(m, 0);
    }
  }

  lemma CompletedContent(h: Frame, body: Bytes, fs: seq<Frame>, last: Bytes)
    requires h.Headers?
    ensures Content(Completed(h, body, fs, last)) == body + Content(fs) + last
  {
    ContentOfMessage(h, h, h);
    ContentAppend([h], body, false);
    assert "" + body == body;
    ContentJoins([h] + Piece(body, false), fs);
    ContentAppend([h] + Piece(body, false) + fs, last, true);
  }

  lemma {:induction false} ContentJoins(fs: seq<Frame>, gs: seq<Frame>)
    ensures Content(fs + gs) == Content(fs) + Content(gs)
  {
    if gs == [] {
      assert fs + gs == fs && Content(fs) + "" == Content(fs);
    } else {
      var n := |gs| - 1;
      assert (fs + gs)[..|fs| + n] == fs + gs[..n];
      ContentJoins(fs, gs[..n]);
    }
  }

  /** A delayed response writes nothing before its alarm, and then what it would have written
      at once; no response at all is a 404. */
  lemma DelayOnlyPostpones(st: Stream, r: Response, path: Number, blocked: seq<bool>, path0: Number, blocked0: seq<bool>)
    requires st.alarm == None
    ensures var held := OnResponseBackendComplete(st, Some(r.(delayed := true)), path0, blocked0);
            && held == st.(alarm := held.alarm) && held.alarm.Some?
            && OnAlarm(held, path, blocked)
               == OnResponseBackendComplete(st, Some(r.(delayed := false)), path, blocked)
    ensures OnResponseBackendComplete(st, None, path, blocked).output.frames
            == st.output.frames + [Headers(NOT_FOUND_BLOCK, false), Data(NOT_FOUND_BODY, true)]
  {
    OwnResponsesAnnounceTheirLength(st, 0);
    DelayIsIgnored(st, r, path, blocked);
  }

  lemma DelayIsIgnored(st: Stream, r: Response, path: Number, blocked: seq<bool>)
    ensures Respond(st, r.(delayed := true), path, blocked) == Respond(st, r.(delayed := false), path, blocked)
  {
  }

  /** What the request headers lead to on a new stream: 400 if the base class rejects them, 500
      if they are invalid or ask to connect without a backend, and the backend is told exactly
      of a valid CONNECT that goes on. */
  lemma RequestHeadersOutcome(hasBackend: bool, fin: bool, baseRejects: bool, copied: Copied)
    ensures var st := OnInitialHeadersComplete(Init(hasBackend), fin, baseRejects, copied);
            var connect := !baseRejects && copied.valid && !fin && IsConnectRequest(copied.headers);
            && st.output.frames == (if baseRejects then Refusal(400)
                                    else if !copied.valid || (connect && !hasBackend) then Refusal(500) else [])
            && st.calls.connects == (if connect && hasBackend then 1 else 0)
            && (st.input.stopped <==> st.output.frames != [])
            && (!baseRejects ==> st.headers == copied.headers && st.contentLength == copied.contentLength)
  {
    var st0 := Init(hasBackend);
    var filled := st0.(contentLength := copied.contentLength, headers := copied.headers);
    OwnResponsesAnnounceTheirLength(st0, 400);
    OwnResponsesAnnounceTheirLength(filled, 0);
    assert ErrorBlock(0) == ErrorBlock(500);
    assert st0.output.frames + Refusal(400) == Refusal(400) && st0.output.frames + Refusal(500) == Refusal(500);
  }

  function Refusal(code: int): seq<Frame> {
    [Headers(ErrorBlock(code), false), Data(ERROR_BODY, true)]
  }
}

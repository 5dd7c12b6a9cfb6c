/** The HTTP/3 response stream (src/quit_server_stream.cc): the state of a stream and what
    each of its functions does to it, as values. ServerStreamObject has the functions as
    methods that update fields; the modules after it prove what holds in every run.

    Bytes are characters, as in std::string. The WebTransport branches are not modelled. */
module ServerStream {
  import opened Text

  type Bytes = string

  /** A header block, with the status that ParseHeaderStatusCode finds in it, if any. */
  datatype Block = Block(fields: map<string, string>, code: Option<int>)

  /** What is written. */
  datatype Frame =
    | Headers(block: Block, fin: bool)
    | Data(bytes: Bytes, fin: bool)
    | Trailers(block: Block)

  predicate EndsStream(f: Frame) {
    f.Trailers? || f.fin
  }

  datatype Kind = Regular | CloseConnection | IgnoreRequest | BackendError | Incomplete | GenerateBytes

  datatype Response = Response(
    kind: Kind, earlyHints: seq<Block>, headers: Block, body: Bytes, trailers: Option<Block>, delayed: bool)

  /** SimpleAtoi on the path: a failed parse may leave anything in the counter. */
  datatype Number = Parsed(n: nat) | NotANumber(leftover: nat)

  /** CopyAndValidateHeaders: it fills in both fields, and may have done so in part on failure. */
  datatype Copied = Copied(valid: bool, contentLength: int, headers: map<string, string>)

  /** The read side kept by the base class. */
  datatype Input = Input(
    unread: Bytes,                          // received and not yet marked consumed
    consumed: Bytes,                        // marked consumed so far
    finArrived: bool,
    stopped: bool,                          // after StopReading
    closed: bool)                           // after OnFinRead

  /** The write side kept by the base class. */
  datatype Output = Output(
    frames: seq<Frame>,                     // everything written
    finBuffered: bool,
    closed: bool,                           // write_side_closed
    connectionClosed: bool,
    afterFin: bool)                         // something was written after a FIN

  /** The calls made to the backend. */
  datatype Calls = Calls(
    connects: nat,                          // HandleConnectHeaders
    connectData: seq<(Bytes, bool)>,        // HandleConnectData: data, data_complete
    fetches: seq<Bytes>)                    // FetchResponseFromBackend: request body

  datatype Stream = Stream(
    headers: map<string, string>,           // request_headers_
    contentLength: int,
    body: Bytes,
    generate: nat,                          // generate_bytes_length_
    responseSent: bool,
    alarm: Option<Response>,                // delayed_response_alarm_
    hasBackend: bool,
    input: Input,
    output: Output,
    calls: Calls,
    ruleBroken: bool)                       // a QUICHE_DCHECK on the caller failed

  function Init(hasBackend: bool): Stream {
    Stream(map[], -1, "", 0, false, None, hasBackend,
           Input("", "", false, false, false), Output([], false, false, false, false), Calls(0, [], []), false)
  }

  predicate IsConnectRequest(headers: map<string, string>) {
    ":method" in headers && headers[":method"] == "CONNECT"
  }

  // ---------------------------------------------------------------------------------------
  // Writing
  // ---------------------------------------------------------------------------------------

  function Put(o: Output, f: Frame): Output {
    o.(frames := o.frames + [f],
       finBuffered := o.finBuffered || EndsStream(f),
       afterFin := o.afterFin || o.finBuffered)
  }

  function Write(st: Stream, f: Frame): Stream {
    st.(output := Put(st.output, f))
  }

  /** Headers should be sent iff not sent in a previous response. */
  function CheckHeaders(st: Stream, supplied: bool): Stream {
    st.(ruleBroken := st.ruleBroken || supplied == st.responseSent)
  }

  function SendIncompleteResponse(st: Stream, headers: Option<Block>, body: Bytes): Stream {
    var st0 := CheckHeaders(st, headers.Some?);
    var st1 :=
      if headers.None? then st0
      else
        var early := headers.value.code == Some(100);
        Write(st0.(responseSent := st0.responseSent || !early), Headers(headers.value, false));
    if body != "" then Write(st1, Data(body, false)) else st1
  }

  function SendHeadersAndBodyAndTrailers(st: Stream, headers: Option<Block>, body: Bytes,
                                         trailers: Option<Block>): Stream
  {
    var st0 := CheckHeaders(st, headers.Some?);
    var headersOnly := body == "" && trailers.None?;
    var st1 :=
      if headers.None? then st0
      else Write(st0, Headers(headers.value, headersOnly)).(responseSent := true);
    if headers.Some? && headersOnly then st1
    else
      var fin := trailers.None?;
      var st2 := if body != "" || fin then Write(st1, Data(body, fin)) else st1;
      if fin then st2 else Write(st2, Trailers(trailers.value))
  }

  const ERROR_BODY := "bad"
  const NOT_FOUND_BODY := "file not found"

  /** absl::StrCat of a number. */
  function Decimal(n: nat): string {
    if n < 10 then [Digit(n)] else Decimal(n / 10) + [Digit(n % 10)]
  }

  function Digit(d: nat): char
    requires d < 10
  {
    "0123456789"[d]
  }

  function ErrorBlock(code: int): Block {
    var status := if code <= 0 then 500 else code;
    Block(map[":status" := Decimal(status), "content-length" := Decimal(|ERROR_BODY|)], Some(status))
  }

  const NOT_FOUND_BLOCK :=
    Block(map[":status" := "404", "content-length" := Decimal(|NOT_FOUND_BODY|)], Some(404))

  function SendErrorResponse(st: Stream, code: int): Stream {
    SendHeadersAndBodyAndTrailers(st.(input := st.input.(stopped := true)), Some(ErrorBlock(code)), ERROR_BODY, None)
  }

  function SendNotFoundResponse(st: Stream): Stream {
    SendHeadersAndBodyAndTrailers(st, Some(NOT_FOUND_BLOCK), NOT_FOUND_BODY, None)
  }

  const CHUNK_SIZE := 1024

  function Filler(len: nat): Bytes {
    seq(len, _ => 'a')
  }

  /** The pieces in which n generated bytes are written when nothing blocks. */
  function Chunks(n: nat): seq<Frame> {
    if n == 0 then []
    else
      var len := if n < CHUNK_SIZE then n else CHUNK_SIZE;
      [Data(Filler(len), n == len)] + Chunks(n - len)
  }

  /** How many pieces are written before HasBufferedData() first answers true. */
  function ChunksBeforeBlocking(n: nat, blocked: seq<bool>): nat
    ensures ChunksBeforeBlocking(n, blocked) <= |Chunks(n)|
    decreases n
  {
    if n == 0 || (blocked != [] && blocked[0]) then 0
    else
      var len := if n < CHUNK_SIZE then n else CHUNK_SIZE;
      1 + ChunksBeforeBlocking(n - len, if blocked == [] then [] else blocked[1..])
  }

  function PutAll(o: Output, fs: seq<Frame>): Output
    decreases |fs|
  {
    if fs == [] then o else PutAll(Put(o, fs[0]), fs[1..])
  }

  /** Writes pieces until one of HasBufferedData()'s answers, taken from `blocked` and false
      after its end, is true, and keeps the number of bytes still to write. */
  function WriteGeneratedBytes(st: Stream, blocked: seq<bool>): Stream {
    var k := ChunksBeforeBlocking(st.generate, blocked);
    st.(output := PutAll(st.output, Chunks(st.generate)[..k]), generate := Remaining(st.generate, k))
  }

  /** How many of n bytes are left after that many pieces. */
  function Remaining(n: nat, chunks: nat): nat {
    if chunks == 0 then n else if n < CHUNK_SIZE then 0 else Remaining(n - CHUNK_SIZE, chunks - 1)
  }

  lemma {:induction false} RemainingAdds(n: nat, i: nat, j: nat)
    ensures Remaining(Remaining(n, i), j) == Remaining(n, i + j)
    decreases i
  {
    if i > 0 && n >= CHUNK_SIZE {
      RemainingAdds(n - CHUNK_SIZE, i - 1, j);
    } else if i > 0 {
      assert Remaining(0, j) == 0;
    }
  }

  // ---------------------------------------------------------------------------------------
  // Answering
  // ---------------------------------------------------------------------------------------

  function Hints(blocks: seq<Block>): seq<Frame> {
    seq(|blocks|, i requires 0 <= i < |blocks| => Headers(blocks[i], false))
  }

  function WithContentLength(b: Block, n: nat): Block {
    b.(fields := b.fields["content-length" := Decimal(n)])
  }

  function Respond(st: Stream, r: Response, path: Number, blocked: seq<bool>): Stream {
    Answer(st.(output := PutAll(st.output, Hints(r.earlyHints))), r, path, blocked)
  }

  /** Respond after the early hints. */
  function Answer(st: Stream, r: Response, path: Number, blocked: seq<bool>): Stream {
    if r.kind == CloseConnection then st.(output := st.output.(connectionClosed := true))
    else if r.kind == IgnoreRequest then st
    else if r.kind == BackendError then SendErrorResponse(st, 502)
    else if r.headers.code == None then SendErrorResponse(st, 0)
    else if r.kind == Incomplete then SendIncompleteResponse(st, Some(r.headers), r.body)
    else if r.kind == GenerateBytes then
      match path
      case NotANumber(leftover) => SendNotFoundResponse(st.(generate := leftover))
      case Parsed(n) => SendGeneratedBytes(st, r.headers, n, blocked)
    else SendHeadersAndBodyAndTrailers(st, Some(r.headers), r.body, r.trailers)
  }

  function SendGeneratedBytes(st: Stream, headers: Block, n: nat, blocked: seq<bool>): Stream {
    var st1 := Write(st.(generate := n), Headers(WithContentLength(headers, n), false));
    WriteGeneratedBytes(CheckHeaders(st1, true).(responseSent := true), blocked)
  }

  function OnResponseBackendComplete(st: Stream, r: Option<Response>, path: Number, blocked: seq<bool>): Stream {
    if r.None? then SendNotFoundResponse(st)
    else if r.value.delayed then st.(alarm := r)
    else Respond(st, r.value, path, blocked)
  }

  function OnAlarm(st: Stream, path: Number, blocked: seq<bool>): Stream {
    if st.alarm.None? then st else Respond(st.(alarm := None), st.alarm.value, path, blocked)
  }

  function SendStreamData(st: Stream, data: Bytes, close: bool): Stream {
    var st := st.(ruleBroken := st.ruleBroken || (data == "" && !close));
    if close then SendHeadersAndBodyAndTrailers(st, None, data, None)
    else SendIncompleteResponse(st, None, data)
  }

  // ---------------------------------------------------------------------------------------
  // Reading
  // ---------------------------------------------------------------------------------------

  /** `baseRejects`: the base class has called OnInvalidHeaders first. */
  function OnInitialHeadersComplete(st: Stream, fin: bool, baseRejects: bool, copied: Copied): Stream {
    var st1 := if baseRejects then SendErrorResponse(st, 400) else st;
    var st2 :=
      if st1.responseSent then st1
      else
        var filled := st1.(contentLength := copied.contentLength, headers := copied.headers);
        if copied.valid then filled else SendErrorResponse(filled, 0);
    if !fin && !st2.responseSent && IsConnectRequest(st2.headers) then
      if !st2.hasBackend then SendErrorResponse(st2, 0)
      else st2.(calls := st2.calls.(connects := st2.calls.connects + 1))
    else st2
  }

  function MarkConsumed(i: Input, len: nat): Input
    requires len <= |i.unread|
  {
    i.(consumed := i.consumed + i.unread[..len], unread := i.unread[len..])
  }

  /** The read loop. Each element of `sizes` is how many of the unread bytes the next
      GetReadableRegions offers; it offers none after the end. The result tells whether the
      body outgrew the content length. */
  function ReadBody(st: Stream, sizes: seq<nat>): (Stream, bool)
    decreases |sizes|
  {
    if st.input.unread == "" || sizes == [] || sizes[0] == 0 then (st, false)
    else
      var len := if sizes[0] < |st.input.unread| then sizes[0] else |st.input.unread|;
      var st1 := st.(body := st.body + st.input.unread[..len]);
      if st1.contentLength >= 0 && |st1.body| > st1.contentLength then (st1, true)
      else
        ReadBody(st1.(input := MarkConsumed(st1.input, len)), sizes[1..])
  }

  function OnBodyAvailable(st: Stream, sizes: seq<nat>): Stream {
    var (st1, overflow) := ReadBody(st, sizes);
    if overflow then SendErrorResponse(st1, 0)
    else if !(st1.input.finArrived && st1.input.unread == "") then
      if IsConnectRequest(st1.headers) then HandleRequestConnectData(st1, false) else st1
    else
      var st2 := st1.(input := st1.input.(closed := true));
      if st2.output.closed || st2.output.finBuffered then st2
      else if IsConnectRequest(st2.headers) then HandleRequestConnectData(st2, true)
      else SendResponse(st2)
  }

  function HandleRequestConnectData(st: Stream, fin: bool): Stream {
    if !st.hasBackend then st.(output := st.output.(closed := true))
    else st.(body := "", calls := st.calls.(connectData := st.calls.connectData + [(st.body, fin)]))
  }

  function SendResponse(st: Stream): Stream {
    if st.headers == map[] then SendErrorResponse(st, 0)
    else if st.contentLength > 0 && st.contentLength != |st.body| then SendErrorResponse(st, 0)
    else if ":authority" !in st.headers then SendErrorResponse(st, 0)
    else if ":path" !in st.headers then SendErrorResponse(st, 0)
    else if !st.hasBackend then SendErrorResponse(st, 0)
    else st.(calls := st.calls.(fetches := st.calls.fetches + [st.body]))
  }
}

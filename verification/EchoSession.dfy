/** The WebTransport echo session (src/quit_web_transport_visitors.h) as values: what the
    visitors keep, what their callbacks do, and what holds after any sequence of callbacks.
    EchoVisitors has the visitors as objects.

    A read appends what is available, a write takes everything or nothing, and SendFinOnStream
    succeeds after a successful write, as the assertion in line 166 of the source demands. */
module EchoSession {

  /** What goes out on a stream. */
  datatype Sent = Payload(bytes: string) | Fin

  function Written(log: seq<Sent>): string {
    if log == [] then ""
    else
      var front := Written(log[..|log| - 1]);
      var last := log[|log| - 1];
      if last.Payload? then front + last.bytes else front
  }

  lemma WrittenAppend(log: seq<Sent>, x: Sent)
    ensures Written(log + [x]) == if x.Payload? then Written(log) + x.bytes else Written(log)
  {
    assert (log + [x])[..|log|] == log;
  }

  ghost predicate FinOnlyLast(log: seq<Sent>) {
    forall i :: 0 <= i < |log| - 1 ==> log[i].Payload?
  }

  // ---------------------------------------------------------------------------------------
  // A bidirectional stream echoed on itself
  // ---------------------------------------------------------------------------------------

  datatype Echo = Echo(
    buffer: string, sendFin: bool, finSent: bool, stopSendingReceived: bool,
    read: string,        // everything read from the stream
    log: seq<Sent>,      // everything sent on it
    inputEnded: bool)    // FIN or a reset has been received

  const NEW_ECHO := Echo("", false, false, false, "", [], false)

  /** `writeOk` and `finOk` are the answers of WriteIntoStream and SendFinOnStream. */
  datatype EchoEvent =
    | Readable(bytes: string, fin: bool, writeOk: bool, finOk: bool)
    | Writable(writeOk: bool, finOk: bool)
    | Reset(writeOk: bool, finOk: bool)
    | StopSending

  function Flush(e: Echo, writeOk: bool, finOk: bool): Echo {
    if e.stopSendingReceived then e
    else if e.buffer != "" && !writeOk then e
    else
      var e1 := if e.buffer == "" then e else e.(log := e.log + [Payload(e.buffer)], buffer := "");
      if e1.sendFin && !e1.finSent && finOk then e1.(log := e1.log + [Fin], finSent := true) else e1
  }

  function EchoStep(e: Echo, ev: EchoEvent): Echo {
    match ev
    case Readable(bytes, fin, writeOk, finOk) =>
      Flush(e.(buffer := e.buffer + bytes, read := e.read + bytes,
               sendFin := e.sendFin || fin, inputEnded := e.inputEnded || fin), writeOk, finOk)
    case Writable(writeOk, finOk) => Flush(e, writeOk, finOk)
    case Reset(writeOk, finOk) => Flush(e.(sendFin := true, inputEnded := true), writeOk, finOk)
    case StopSending => e.(stopSendingReceived := true)
  }

  /** No data becomes readable after FIN or a reset. */
  predicate EchoLegal(e: Echo, ev: EchoEvent) {
    ev.Readable? && e.inputEnded ==> ev.bytes == ""
  }

  predicate EchoRun(e: Echo, events: seq<EchoEvent>, e': Echo)
    decreases |events|
  {
    if events == [] then e' == e
    else EchoLegal(e, events[0]) && EchoRun(EchoStep(e, events[0]), events[1..], e')
  }

  /** What the callbacks report, without saying what the visitor keeps: the bytes read... */
  function Received(events: seq<EchoEvent>): string {
    if events == [] then ""
    else BytesOf(events[0]) + Received(events[1..])
  }

  predicate Ends(ev: EchoEvent) {
    ev.Reset? || (ev.Readable? && ev.fin)
  }

  /** ... and whether the input has ended, by FIN or by a reset. */
  predicate InputEnded(events: seq<EchoEvent>) {
    exists ev :: ev in events && Ends(ev)
  }

  function BytesOf(ev: EchoEvent): string {
    if ev.Readable? then ev.bytes else ""
  }

  lemma StepHears(e: Echo, ev: EchoEvent)
    ensures var e' := EchoStep(e, ev);
            && e'.read == e.read + BytesOf(ev)
            && (e'.inputEnded <==> e.inputEnded || Ends(ev))
            && (e'.stopSendingReceived <==> e.stopSendingReceived || ev == StopSending)
  {
    assert e.read + "" == e.read;
  }

  lemma {:induction false} RunHears(e: Echo, events: seq<EchoEvent>, e': Echo)
    requires EchoRun(e, events, e')
    ensures e'.read == e.read + Received(events)
    ensures e'.inputEnded <==> e.inputEnded || InputEnded(events)
    ensures e'.stopSendingReceived <==> e.stopSendingReceived || StopSending in events
    decreases |events|
  {
    if events == [] {
      assert e.read + "" == e.read;
    } else {
      StepHears(e, events[0]);
      EndedFirst(events);
      RunHears(EchoStep(e, events[0]), events[1..], e');
      assert (e.read + BytesOf(events[0])) + Received(events[1..]) == e.read + (BytesOf(events[0]) + Received(events[1..]));
    }
  }

  lemma EndedFirst(events: seq<EchoEvent>)
    requires events != []
    ensures InputEnded(events) <==> Ends(events[0]) || InputEnded(events[1..])
    ensures StopSending in events <==> events[0] == StopSending || StopSending in events[1..]
  {
    assert events == [events[0]] + events[1..];
  }

  ghost predicate EchoOk(e: Echo) {
    && Written(e.log) + e.buffer == e.read
    && FinOnlyLast(e.log)
    && (e.finSent <==> Fin in e.log)
    && (e.finSent ==> e.buffer == "" && e.sendFin)
    && (e.sendFin <==> e.inputEnded)
  }

  lemma FlushKeeps(e: Echo, writeOk: bool, finOk: bool)
    requires EchoOk(e)
    ensures EchoOk(Flush(e, writeOk, finOk))
  {
    if !e.stopSendingReceived && (e.buffer == "" || writeOk) {
      var e1 := if e.buffer == "" then e else e.(log := e.log + [Payload(e.buffer)], buffer := "");
      if e.buffer != "" {
        BufferSent(e);
      }
      if e1.sendFin && !e1.finSent && finOk {
        FinSent(e1);
      }
    }
  }

  lemma NoFinYet(e: Echo)
    requires EchoOk(e) && !e.finSent
    ensures forall i :: 0 <= i < |e.log| ==> e.log[i].Payload?
  {
    assert forall i :: 0 <= i < |e.log| ==> e.log[i] in e.log;
  }

  lemma BufferSent(e: Echo)
    requires EchoOk(e) && e.buffer != ""
    ensures EchoOk(e.(log := e.log + [Payload(e.buffer)], buffer := ""))
  {
    NoFinYet(e);
    WrittenAppend(e.log, Payload(e.buffer));
    assert e.read + "" == e.read;
  }

  lemma FinSent(e: Echo)
    requires EchoOk(e) && e.buffer == "" && e.sendFin && !e.finSent
    ensures EchoOk(e.(log := e.log + [Fin], finSent := true))
  {
    NoFinYet(e);
    WrittenAppend(e.log, Fin);
  }

  /** The visitor before it writes. */
  function Heard(e: Echo, ev: EchoEvent): Echo {
    e.(buffer := e.buffer + BytesOf(ev), read := e.read + BytesOf(ev),
       sendFin := e.sendFin || Ends(ev), inputEnded := e.inputEnded || Ends(ev))
  }

  lemma HeardKeeps(e: Echo, ev: EchoEvent)
    requires EchoOk(e) && EchoLegal(e, ev) && !ev.StopSending?
    ensures EchoOk(Heard(e, ev)) && EchoStep(e, ev) == Flush(Heard(e, ev), ev.writeOk, ev.finOk)
  {
    assert Written(e.log) + e.buffer + BytesOf(ev) == Written(e.log) + (e.buffer + BytesOf(ev));
    assert e.buffer + "" == e.buffer && e.read + "" == e.read;
  }

  lemma {:induction false} EchoRunKeeps(e: Echo, events: seq<EchoEvent>, e': Echo)
    requires EchoOk(e) && EchoRun(e, events, e')
    ensures EchoOk(e')
    decreases |events|
  {
    if events != [] {
      var ev := events[0];
      if !ev.StopSending? {
        HeardKeeps(e, ev);
        FlushKeeps(Heard(e, ev), ev.writeOk, ev.finOk);
      }
      EchoRunKeeps(EchoStep(e, ev), events[1..], e');
    }
  }

  lemma HeardSoFar(events: seq<EchoEvent>, e: Echo)
    requires EchoRun(NEW_ECHO, events, e)
    ensures EchoOk(e) && e.read == Received(events)
    ensures (e.inputEnded <==> InputEnded(events)) && (e.stopSendingReceived <==> StopSending in events)
  {
    EchoRunKeeps(NEW_ECHO, events, e);
    RunHears(NEW_ECHO, events, e);
    assert "" + Received(events) == Received(events);
  }

  /** Whatever the callbacks and their order: what was echoed followed by the buffer is what was
      read; FIN is sent at most once, as the last thing, with everything echoed and only after
      the input ended. */
  lemma {:induction false} EchoIsFaithful(events: seq<EchoEvent>, e: Echo)
    requires EchoRun(NEW_ECHO, events, e)
    ensures Written(e.log) + e.buffer == Received(events)
    ensures forall i :: 0 <= i < |e.log| && e.log[i] == Fin ==>
              i == |e.log| - 1 && Written(e.log) == Received(events) && InputEnded(events)
  {
    HeardSoFar(events, e);
    assert e.buffer == "" ==> Written(e.log) + e.buffer == Written(e.log);
  }

  /** Nothing is sent after stop-sending, whatever arrives. */
  lemma {:induction false} NothingAfterStopSending(e: Echo, events: seq<EchoEvent>, e': Echo)
    requires EchoRun(EchoStep(e, StopSending), events, e')
    ensures e'.log == e.log
  {
    StoppedSendsNothing(EchoStep(e, StopSending), events, e');
  }

  lemma {:induction false} StoppedSendsNothing(e: Echo, events: seq<EchoEvent>, e': Echo)
    requires e.stopSendingReceived && EchoRun(e, events, e')
    ensures e'.log == e.log
    decreases |events|
  {
    if events != [] {
      StoppedSendsNothing(EchoStep(e, events[0]), events[1..], e');
    }
  }

  lemma {:induction false} EchoRunExtend(e: Echo, events: seq<EchoEvent>, e': Echo, ev: EchoEvent)
    requires EchoRun(e, events, e') && EchoLegal(e', ev)
    ensures EchoRun(e, events + [ev], EchoStep(e', ev))
    decreases |events|
  {
    if events == [] {
      assert [] + [ev] == [ev] && [ev][1..] == [];
    } else {
      assert (events + [ev])[1..] == events[1..] + [ev];
      EchoRunExtend(EchoStep(e, events[0]), events[1..], e', ev);
    }
  }

  /** Every callback but stop-sending writes what it can: all that was read and not yet echoed,
      unless stop-sending came or the write fails, and then FIN if the input has ended. */
  lemma {:induction false} CallbackCatchesUp(events: seq<EchoEvent>, e: Echo, ev: EchoEvent)
    requires EchoRun(NEW_ECHO, events, e) && EchoLegal(e, ev) && !ev.StopSending?
    ensures var all := events + [ev];
            var log, log' := e.log, EchoStep(e, ev).log;
            var caughtUp := StopSending !in events && (ev.writeOk || Written(log) == Received(all));
            && Written(log') == (if caughtUp then Received(all) else Written(log))
            && (Fin in log' <==> Fin in log || (caughtUp && ev.finOk && InputEnded(all)))
  {
    var all := events + [ev];
    EchoRunExtend(NEW_ECHO, events, e, ev);
    HeardSoFar(events, e);
    HeardSoFar(all, EchoStep(e, ev));
    HeardKeeps(e, ev);
    FlushOutcome(Heard(e, ev), ev.writeOk, ev.finOk);
  }

  lemma FlushOutcome(e: Echo, writeOk: bool, finOk: bool)
    requires EchoOk(e)
    ensures var e' := Flush(e, writeOk, finOk);
            var caughtUp := !e.stopSendingReceived && (writeOk || Written(e.log) == e.read);
            && Written(e'.log) == (if caughtUp then e.read else Written(e.log))
            && (Fin in e'.log <==> Fin in e.log || (caughtUp && finOk && e.inputEnded))
  {
    var e' := Flush(e, writeOk, finOk);
    FlushKeeps(e, writeOk, finOk);
    assert e.buffer == "" <==> Written(e.log) == e.read;
    assert e'.buffer == "" ==> Written(e'.log) + e'.buffer == Written(e'.log);
  }

  /** A callback that may write catches up completely, with FIN exactly if the input has ended. */
  lemma {:induction false} OneWritableCatchesUp(events: seq<EchoEvent>, e: Echo)
    requires EchoRun(NEW_ECHO, events, e) && StopSending !in events
    ensures var e' := EchoStep(e, Writable(true, true));
            Written(e'.log) == Received(events) && (Fin in e'.log <==> InputEnded(events))
  {
    var ev := Writable(true, true);
    CallbackCatchesUp(events, e, ev);
    EchoIsFaithful(events, e);
    NothingHeard(events, ev);
    assert Fin in e.log ==> InputEnded(events);
  }

  lemma {:induction false} NothingHeard(events: seq<EchoEvent>, ev: EchoEvent)
    requires ev.Writable?
    ensures Received(events + [ev]) == Received(events)
    ensures InputEnded(events + [ev]) <==> InputEnded(events)
    decreases |events|
  {
    if events == [] {
      assert [] + [ev] == [ev] && [ev][1..] == [];
    } else {
      NothingHeard(events[1..], ev);
      assert (events + [ev])[1..] == events[1..] + [ev];
    }
  }

  /** The assumption is needed: once FIN is out, data read later is written after it exactly
      when there is some and the write succeeds. */
  lemma DataAfterFinIsWritten(e: Echo, bytes: string, fin: bool, writeOk: bool, finOk: bool)
    requires EchoOk(e) && e.finSent && !e.stopSendingReceived
    ensures FinOnlyLast(EchoStep(e, Readable(bytes, fin, writeOk, finOk)).log) <==> bytes == "" || !writeOk
  {
    var k :| 0 <= k < |e.log| && e.log[k] == Fin;
    if bytes != "" && writeOk {
      var log := EchoStep(e, Readable(bytes, fin, writeOk, finOk)).log;
      assert log[k] == Fin && |log| > |e.log|;
    }
  }

  // ---------------------------------------------------------------------------------------
  // Unidirectional streams and the session's queue
  // ---------------------------------------------------------------------------------------

  /** An incoming stream with its read visitor. */
  datatype Incoming = Incoming(buffer: string, read: string, done: bool)

  /** An outgoing stream with its write visitor; `payload` is what it was opened for. */
  datatype Outgoing = Outgoing(payload: string, data: string, log: seq<Sent>)

  datatype Session = Session(
    echoStreamOpened: bool,
    queue: seq<string>,          // streams_to_echo_back_
    incoming: seq<Incoming>,     // accepted, in order
    outgoing: seq<Outgoing>,     // opened, in order
    credit: nat,                 // unidirectional streams that may still be opened
    granted: nat,                // all the credit there ever was
    finished: seq<nat>,          // the incoming streams that ended, in the order they did
    bidirectionalOpened: nat)

  const NEW_SESSION := Session(false, [], [], [], 0, 0, [], 0)

  /** WebTransportUnidirectionalEchoWriteVisitor::OnCanWrite. */
  function WriteOut(o: Outgoing, ok: bool): Outgoing {
    if o.data == "" || !ok then o
    else o.(data := "", log := o.log + [Payload(o.data), Fin])
  }

  /** Opens a stream for the front of the queue. */
  function SendOne(s: Session, writable: nat -> bool): Session
    requires s.queue != [] && s.credit > 0
  {
    var o := WriteOut(Outgoing(s.queue[0], s.queue[0], []), writable(|s.outgoing|));
    s.(outgoing := s.outgoing + [o], queue := s.queue[1..], credit := s.credit - 1)
  }

  /** TrySendingUnidirectionalStreams. `writable` tells whether the first write on the stream
      with that number succeeds. */
  function TrySending(s: Session, writable: nat -> bool): Session
    decreases |s.queue|
  {
    if s.queue == [] || s.credit == 0 then s else TrySending(SendOne(s, writable), writable)
  }

  /** The callback of the read visitor. */
  function EchoBack(s: Session, payload: string, writable: nat -> bool): Session {
    TrySending(s.(queue := s.queue + [payload]), writable)
  }

  /** WebTransportUnidirectionalEchoReadVisitor::OnCanRead of stream i. */
  function ReadIn(s: Session, i: nat, bytes: string, fin: bool, writable: nat -> bool): Session
    requires i < |s.incoming|
  {
    var x := s.incoming[i];
    var x' := Incoming(x.buffer + bytes, x.read + bytes, x.done || fin);
    var s1 := s.(incoming := s.incoming[i := x']);
    if fin then EchoBack(s1.(finished := s1.finished + [i]), x'.buffer, writable) else s1
  }

  /** Accepts one stream and reads what is there. */
  function AcceptOne(s: Session, bytes: string, fin: bool, writable: nat -> bool): Session {
    ReadIn(s.(incoming := s.incoming + [Incoming("", "", false)]), |s.incoming|, bytes, fin, writable)
  }

  /** OnIncomingUnidirectionalStreamAvailable: `waiting` holds, for every stream waiting to be
      accepted, what its first read gives. */
  function AcceptAll(s: Session, waiting: seq<(string, bool)>, writable: nat -> bool): Session
    decreases |waiting|
  {
    if waiting == [] then s
    else AcceptAll(AcceptOne(s, waiting[0].0, waiting[0].1, writable), waiting[1..], writable)
  }

  function OpenEchoStream(s: Session): Session {
    if s.echoStreamOpened then s
    else s.(echoStreamOpened := true, bidirectionalOpened := s.bidirectionalOpened + 1)
  }

  datatype SessionEvent =
    | Ready(canOpen: bool)
    | BidirectionalCredit
    | Credit(n: nat, writable: nat -> bool)
    | Accept(waiting: seq<(string, bool)>, writable: nat -> bool)
    | UniReadable(i: nat, bytes: string, fin: bool, writable: nat -> bool)
    | UniWritable(i: nat, ok: bool)

  predicate Legal(s: Session, e: SessionEvent) {
    match e
    case UniReadable(i, bytes, fin, _) => i < |s.incoming| && (s.incoming[i].done ==> bytes == "" && !fin)
    case UniWritable(i, _) => i < |s.outgoing|
    case _ => true
  }

  function Step(s: Session, e: SessionEvent): Session
    requires Legal(s, e)
  {
    match e
    case Ready(canOpen) => if canOpen then OpenEchoStream(s) else s
    case BidirectionalCredit => OpenEchoStream(s)
    case Credit(n, writable) => TrySending(s.(credit := s.credit + n, granted := s.granted + n), writable)
    case Accept(waiting, writable) => AcceptAll(s, waiting, writable)
    case UniReadable(i, bytes, fin, writable) => ReadIn(s, i, bytes, fin, writable)
    case UniWritable(i, ok) => s.(outgoing := s.outgoing[i := WriteOut(s.outgoing[i], ok)])
  }

  ghost predicate Run(s: Session, events: seq<SessionEvent>, s': Session)
    decreases |events|
  {
    if events == [] then s' == s
    else Legal(s, events[0]) && Run(Step(s, events[0]), events[1..], s')
  }

  function Payloads(outgoing: seq<Outgoing>): seq<string> {
    seq(|outgoing|, i requires 0 <= i < |outgoing| => outgoing[i].payload)
  }

  /** Nothing yet, or all of it and then FIN; for an empty payload never anything. */
  predicate OutgoingOk(o: Outgoing) {
    if o.log == [] then o.data == o.payload
    else o.payload != "" && o.data == "" && o.log == [Payload(o.payload), Fin]
  }

  /** What the finished streams carried, in the order they finished. */
  function Completed(incoming: seq<Incoming>, finished: seq<nat>): seq<string>
    requires forall k :: 0 <= k < |finished| ==> finished[k] < |incoming|
  {
    seq(|finished|, k requires 0 <= k < |finished| => incoming[finished[k]].read)
  }

  ghost predicate IncomingOk(incoming: seq<Incoming>, finished: seq<nat>) {
    && (forall k :: 0 <= k < |finished| ==> finished[k] < |incoming|)
    && (forall j, k :: 0 <= j < k < |finished| ==> finished[j] != finished[k])
    && (forall i :: 0 <= i < |incoming| ==> incoming[i].buffer == incoming[i].read)
    && (forall i :: 0 <= i < |incoming| ==> (incoming[i].done <==> i in finished))
  }

  /** Everything but the claim that nothing more can be sent. */
  ghost predicate Unsettled(s: Session) {
    && IncomingOk(s.incoming, s.finished)
    && Payloads(s.outgoing) + s.queue == Completed(s.incoming, s.finished)
    && (forall i :: 0 <= i < |s.outgoing| ==> OutgoingOk(s.outgoing[i]))
    && |s.outgoing| + s.credit == s.granted
    && s.bidirectionalOpened == if s.echoStreamOpened then 1 else 0
  }

  ghost predicate SessionOk(s: Session) {
    Unsettled(s) && (s.queue == [] || s.credit == 0)
  }

  lemma WriteOutKeeps(o: Outgoing, ok: bool)
    requires OutgoingOk(o)
    ensures OutgoingOk(WriteOut(o, ok)) && WriteOut(o, ok).payload == o.payload
  {
    assert o.log == [] ==> o.log + [Payload(o.data), Fin] == [Payload(o.data), Fin];
  }

  /** Sending goes on until the queue is empty or no stream may be opened. */
  lemma {:induction false} TrySendingSettles(s: Session, writable: nat -> bool)
    requires Unsettled(s)
    ensures SessionOk(TrySending(s, writable))
    ensures TrySending(s, writable).incoming == s.incoming && TrySending(s, writable).finished == s.finished
    decreases |s.queue|
  {
    if s.queue != [] && s.credit > 0 {
      var payload := s.queue[0];
      WriteOutKeeps(Outgoing(payload, payload, []), writable(|s.outgoing|));
      var s1 := SendOne(s, writable);
      assert Payloads(s1.outgoing) == Payloads(s.outgoing) + [payload];
      assert Payloads(s1.outgoing) + s1.queue == Payloads(s.outgoing) + s.queue;
      TrySendingSettles(s1, writable);
    }
  }

  /** Bytes read on a stream that has not finished. */
  lemma BytesRead(incoming: seq<Incoming>, finished: seq<nat>, i: nat, bytes: string)
    requires IncomingOk(incoming, finished) && i < |incoming| && (incoming[i].done ==> bytes == "")
    ensures var x := incoming[i];
            var incoming' := incoming[i := x.(buffer := x.buffer + bytes, read := x.read + bytes)];
            IncomingOk(incoming', finished) && Completed(incoming', finished) == Completed(incoming, finished)
  {
    var x := incoming[i];
    var incoming' := incoming[i := x.(buffer := x.buffer + bytes, read := x.read + bytes)];
    forall k | 0 <= k < |finished| ensures incoming'[finished[k]].read == incoming[finished[k]].read {
      assert finished[k] in finished;
    }
  }

  /** A stream that finishes is the next one in the order. */
  lemma StreamFinishes(incoming: seq<Incoming>, finished: seq<nat>, i: nat)
    requires IncomingOk(incoming, finished) && i < |incoming| && !incoming[i].done
    ensures var incoming' := incoming[i := incoming[i].(done := true)];
            && IncomingOk(incoming', finished + [i])
            && Completed(incoming', finished + [i]) == Completed(incoming, finished) + [incoming[i].read]
  {
  }

  lemma ReadInKeeps(s: Session, i: nat, bytes: string, fin: bool, writable: nat -> bool)
    requires SessionOk(s) && i < |s.incoming| && (s.incoming[i].done ==> bytes == "" && !fin)
    ensures SessionOk(ReadIn(s, i, bytes, fin, writable))
  {
    var x := s.incoming[i];
    var y := x.(buffer := x.buffer + bytes, read := x.read + bytes);
    var incoming := s.incoming[i := y];
    BytesRead(s.incoming, s.finished, i, bytes);
    if fin {
      StreamFinishes(incoming, s.finished, i);
      var z := y.(done := true);
      assert incoming[i := z] == s.incoming[i := z];
      var s2 := s.(incoming := s.incoming[i := z], finished := s.finished + [i], queue := s.queue + [y.buffer]);
      assert Payloads(s2.outgoing) + s2.queue == (Payloads(s.outgoing) + s.queue) + [y.buffer];
      TrySendingSettles(s2, writable);
    }
  }

  lemma {:induction false} AcceptAllKeeps(s: Session, waiting: seq<(string, bool)>, writable: nat -> bool)
    requires SessionOk(s)
    ensures SessionOk(AcceptAll(s, waiting, writable))
    decreases |waiting|
  {
    if waiting != [] {
      var s1 := s.(incoming := s.incoming + [Incoming("", "", false)]);
      assert Completed(s1.incoming, s1.finished) == Completed(s.incoming, s.finished);
      ReadInKeeps(s1, |s.incoming|, waiting[0].0, waiting[0].1, writable);
      AcceptAllKeeps(ReadIn(s1, |s.incoming|, waiting[0].0, waiting[0].1, writable), waiting[1..], writable);
    }
  }

  lemma StepKeeps(s: Session, e: SessionEvent)
    requires SessionOk(s) && Legal(s, e)
    ensures SessionOk(Step(s, e))
  {
    match e
    case Ready(_) =>
    case BidirectionalCredit =>
    case Credit(n, writable) => TrySendingSettles(s.(credit := s.credit + n, granted := s.granted + n), writable);
    case Accept(waiting, writable) => AcceptAllKeeps(s, waiting, writable);
    case UniReadable(i, bytes, fin, writable) => ReadInKeeps(s, i, bytes, fin, writable);
    case UniWritable(i, ok) => UniWritableKeeps(s, i, ok);
  }

  lemma UniWritableKeeps(s: Session, i: nat, ok: bool)
    requires SessionOk(s) && i < |s.outgoing|
    ensures SessionOk(s.(outgoing := s.outgoing[i := WriteOut(s.outgoing[i], ok)]))
  {
    WriteOutKeeps(s.outgoing[i], ok);
    assert Payloads(s.outgoing[i := WriteOut(s.outgoing[i], ok)]) == Payloads(s.outgoing);
  }

  lemma {:induction false} RunKeeps(s: Session, events: seq<SessionEvent>, s': Session)
    requires SessionOk(s) && Run(s, events, s')
    ensures SessionOk(s')
    decreases |events|
  {
    if events != [] {
      StepKeeps(s, events[0]);
      RunKeeps(Step(s, events[0]), events[1..], s');
    }
  }

  // ---------------------------------------------------------------------------------------
  // What the events bring, without saying what the session keeps
  // ---------------------------------------------------------------------------------------

  datatype History = History(
    read: seq<string>,     // by accepted stream, all that was read from it
    finished: seq<nat>,    // the streams whose FIN was read, in order
    granted: nat,
    wantsEcho: bool)       // a bidirectional stream could be opened

  const NO_HISTORY := History([], [], 0, false)

  function FinishedAmong(waiting: seq<(string, bool)>, first: nat): seq<nat> {
    if waiting == [] then []
    else (if waiting[0].1 then [first] else []) + FinishedAmong(waiting[1..], first + 1)
  }

  function FirstReads(waiting: seq<(string, bool)>): seq<string> {
    if waiting == [] then [] else [waiting[0].0] + FirstReads(waiting[1..])
  }

  function Brings(h: History, e: SessionEvent): History {
    match e
    case Ready(canOpen) => h.(wantsEcho := h.wantsEcho || canOpen)
    case BidirectionalCredit => h.(wantsEcho := true)
    case Credit(n, _) => h.(granted := h.granted + n)
    case Accept(waiting, _) =>
      h.(read := h.read + FirstReads(waiting), finished := h.finished + FinishedAmong(waiting, |h.read|))
    case UniReadable(i, bytes, fin, _) =>
      if i < |h.read| then
        h.(read := h.read[i := h.read[i] + bytes], finished := h.finished + if fin then [i] else [])
      else h
    case UniWritable(_, _) => h
  }

  function BringAll(h: History, events: seq<SessionEvent>): History
    decreases |events|
  {
    if events == [] then h else BringAll(Brings(h, events[0]), events[1..])
  }

  function Reads(incoming: seq<Incoming>): seq<string> {
    seq(|incoming|, i requires 0 <= i < |incoming| => incoming[i].read)
  }

  function HistoryOf(s: Session): History {
    History(Reads(s.incoming), s.finished, s.granted, s.echoStreamOpened)
  }

  lemma {:induction false} TrySendingHistory(s: Session, writable: nat -> bool)
    ensures var s' := TrySending(s, writable);
            HistoryOf(s') == HistoryOf(s) && s'.bidirectionalOpened == s.bidirectionalOpened
    decreases |s.queue|
  {
    if s.queue != [] && s.credit > 0 {
      TrySendingHistory(SendOne(s, writable), writable);
    }
  }

  lemma ReadInHistory(s: Session, i: nat, bytes: string, fin: bool, writable: nat -> bool)
    requires i < |s.incoming|
    ensures HistoryOf(ReadIn(s, i, bytes, fin, writable)) == Brings(HistoryOf(s), UniReadable(i, bytes, fin, writable))
  {
    var x := s.incoming[i];
    var x' := Incoming(x.buffer + bytes, x.read + bytes, x.done || fin);
    var s1 := s.(incoming := s.incoming[i := x']);
    assert Reads(s1.incoming) == Reads(s.incoming)[i := x.read + bytes];
    assert s.finished + [] == s.finished;
    TrySendingHistory(s1.(finished := s1.finished + [i], queue := s1.queue + [x'.buffer]), writable);
  }

  lemma AcceptOneHistory(s: Session, bytes: string, fin: bool, writable: nat -> bool)
    ensures var h := HistoryOf(s);
            HistoryOf(AcceptOne(s, bytes, fin, writable))
            == h.(read := h.read + [bytes], finished := h.finished + if fin then [|h.read|] else [])
  {
    var s1 := s.(incoming := s.incoming + [Incoming("", "", false)]);
    ReadInHistory(s1, |s.incoming|, bytes, fin, writable);
    assert Reads(s1.incoming) == Reads(s.incoming) + [""];
    assert "" + bytes == bytes;
    assert (Reads(s.incoming) + [""])[|s.incoming| := bytes] == Reads(s.incoming) + [bytes];
    assert |Reads(s.incoming)| == |s.incoming|;
  }

  lemma {:induction false} AcceptAllHistory(s: Session, waiting: seq<(string, bool)>, writable: nat -> bool)
    ensures HistoryOf(AcceptAll(s, waiting, writable)) == Brings(HistoryOf(s), Accept(waiting, writable))
    decreases |waiting|
  {
    var h := HistoryOf(s);
    if waiting == [] {
      assert h.read + [] == h.read && h.finished + [] == h.finished;
    } else {
      var (bytes, fin) := waiting[0];
      AcceptOneHistory(s, bytes, fin, writable);
      AcceptAllHistory(AcceptOne(s, bytes, fin, writable), waiting[1..], writable);
      assert (h.read + [bytes]) + FirstReads(waiting[1..]) == h.read + ([bytes] + FirstReads(waiting[1..]));
      var done, rest := if fin then [|h.read|] else [], FinishedAmong(waiting[1..], |h.read| + 1);
      assert (h.finished + done) + rest == h.finished + (done + rest);
    }
  }

  lemma StepHistory(s: Session, e: SessionEvent)
    requires Legal(s, e)
    ensures HistoryOf(Step(s, e)) == Brings(HistoryOf(s), e)
  {
    match e
    case Ready(_) =>
    case BidirectionalCredit =>
    case Credit(n, writable) => TrySendingHistory(s.(credit := s.credit + n, granted := s.granted + n), writable);
    case Accept(waiting, writable) => AcceptAllHistory(s, waiting, writable);
    case UniReadable(i, bytes, fin, writable) => ReadInHistory(s, i, bytes, fin, writable);
    case UniWritable(_, _) =>
  }

  lemma {:induction false} RunHistory(s: Session, events: seq<SessionEvent>, s': Session)
    requires Run(s, events, s')
    ensures HistoryOf(s') == BringAll(HistoryOf(s), events)
    decreases |events|
  {
    if events != [] {
      StepHistory(s, events[0]);
      RunHistory(Step(s, events[0]), events[1..], s');
    }
  }

  /** What the finished streams carried, in the order they finished. */
  function ToEcho(h: History): seq<string> {
    seq(|h.finished|, k requires 0 <= k < |h.finished| =>
      if h.finished[k] < |h.read| then h.read[h.finished[k]] else "")
  }

  /** After any callbacks: the payloads given to outgoing streams followed by the queue are
      those of the finished incoming streams, in the order they finished and once each. */
  lemma {:induction false} EchoesInCompletionOrder(events: seq<SessionEvent>, s: Session)
    requires Run(NEW_SESSION, events, s)
    ensures var h := BringAll(NO_HISTORY, events);
            && Payloads(s.outgoing) + s.queue == ToEcho(h)
            && (forall k :: 0 <= k < |h.finished| ==> h.finished[k] < |h.read|)
            && (forall j, k :: 0 <= j < k < |h.finished| ==> h.finished[j] != h.finished[k])
  {
    RunKeeps(NEW_SESSION, events, s);
    RunHistory(NEW_SESSION, events, s);
    assert HistoryOf(NEW_SESSION) == NO_HISTORY;
    assert Completed(s.incoming, s.finished) == ToEcho(HistoryOf(s));
  }

  /** Each outgoing stream carries nothing or its whole payload, with FIN exactly when a
      nonempty payload was written; so the stream of an empty payload is never ended. */
  lemma {:induction false} OutgoingIsAllOrNothing(events: seq<SessionEvent>, s: Session, i: nat)
    requires Run(NEW_SESSION, events, s) && i < |s.outgoing|
    ensures var o := s.outgoing[i];
            && (Written(o.log) == "" || Written(o.log) == o.payload)
            && (Fin in o.log <==> Written(o.log) != "")
            && FinOnlyLast(o.log)
  {
    RunKeeps(NEW_SESSION, events, s);
    AllOrNothing(s.outgoing[i]);
  }

  lemma AllOrNothing(o: Outgoing)
    requires OutgoingOk(o)
    ensures Written(o.log) == if o.log == [] then "" else o.payload
    ensures o.log != [] ==> o.payload != "" && o.log == [Payload(o.payload), Fin]
  {
    if o.log != [] {
      WrittenAppend([Payload(o.payload)], Fin);
      WrittenAppend([], Payload(o.payload));
      assert [] + [Payload(o.payload)] == [Payload(o.payload)];
      assert [Payload(o.payload)] + [Fin] == o.log;
    }
  }

  /** Callbacks to write on one outgoing stream, each succeeding or not. */
  function WriteOuts(o: Outgoing, oks: seq<bool>): Outgoing {
    if oks == [] then o else WriteOut(WriteOuts(o, oks[..|oks| - 1]), oks[|oks| - 1])
  }

  lemma {:induction false} WriteOutsKeep(o: Outgoing, oks: seq<bool>)
    requires OutgoingOk(o)
    ensures OutgoingOk(WriteOuts(o, oks)) && WriteOuts(o, oks).payload == o.payload
  {
    if oks != [] {
      WriteOutsKeep(o, oks[..|oks| - 1]);
      WriteOutKeeps(WriteOuts(o, oks[..|oks| - 1]), oks[|oks| - 1]);
    }
  }

  /** Some callbacks to write end the stream with FIN. */
  ghost predicate CanEnd(o: Outgoing) {
    exists oks :: EndedBy(o, oks)
  }

  predicate EndedBy(o: Outgoing, oks: seq<bool>) {
    Fin in WriteOuts(o, oks).log
  }

  lemma EmptyNeverEnds(o: Outgoing)
    requires OutgoingOk(o) && o.payload == ""
    ensures !CanEnd(o)
  {
    forall oks ensures !EndedBy(o, oks) {
      WriteOutsKeep(o, oks);
    }
  }

  lemma OneWriteEnds(o: Outgoing)
    requires OutgoingOk(o) && o.payload != ""
    ensures Fin in WriteOut(o, true).log && CanEnd(o)
  {
    WriteOutKeeps(o, true);
    var oks := [true];
    assert oks[..0] == [] && WriteOuts(o, []) == o;
    assert WriteOuts(o, oks) == WriteOut(o, true);
    assert EndedBy(o, oks);
  }

  /** After any callbacks an outgoing stream can be ended, by letting it write often enough,
      exactly if its payload is not empty; and one write that succeeds is enough. */
  lemma {:induction false} EchoEndsIff(events: seq<SessionEvent>, s: Session, i: nat)
    requires Run(NEW_SESSION, events, s) && i < |s.outgoing|
    ensures CanEnd(s.outgoing[i]) <==> s.outgoing[i].payload != ""
    ensures Fin in WriteOut(s.outgoing[i], true).log <==> s.outgoing[i].payload != ""
  {
    RunKeeps(NEW_SESSION, events, s);
    var o := s.outgoing[i];
    if o.payload == "" {
      EmptyNeverEnds(o);
      WriteOutKeeps(o, true);
    } else {
      OneWriteEnds(o);
    }
  }

  /** Between callbacks nothing waits that could be sent: as many streams have been opened as
      there was credit for or streams to echo, whichever is less. One bidirectional stream is
      opened by the session over the whole run if it ever could, and never a second one. */
  lemma {:induction false} NothingWaitsThatCouldBeSent(events: seq<SessionEvent>, s: Session)
    requires Run(NEW_SESSION, events, s)
    ensures var h := BringAll(NO_HISTORY, events);
            && |s.outgoing| == (if h.granted < |h.finished| then h.granted else |h.finished|)
            && s.bidirectionalOpened == (if h.wantsEcho then 1 else 0)
    ensures s.queue == [] || s.credit == 0
  {
    RunKeeps(NEW_SESSION, events, s);
    RunHistory(NEW_SESSION, events, s);
    assert HistoryOf(NEW_SESSION) == NO_HISTORY;
    assert |Payloads(s.outgoing) + s.queue| == |s.finished|;
  }

  // ---------------------------------------------------------------------------------------
  // Which outgoing streams have been written
  // ---------------------------------------------------------------------------------------

  /** The event lets stream `i` write: at once when it opens the stream, and on its callback. */
  predicate LetsWrite(s: Session, e: SessionEvent, i: nat) {
    match e
    case Credit(_, writable) => i >= |s.outgoing| && writable(i)
    case Accept(_, writable) => i >= |s.outgoing| && writable(i)
    case UniReadable(_, _, _, writable) => i >= |s.outgoing| && writable(i)
    case UniWritable(j, ok) => i == j && ok
    case _ => false
  }

  /** Streams that were there stay as they are, and each new one has had its first write. */
  ghost predicate Opened(outgoing: seq<Outgoing>, outgoing': seq<Outgoing>, writable: nat -> bool) {
    && |outgoing| <= |outgoing'| && outgoing'[..|outgoing|] == outgoing
    && forall i :: |outgoing| <= i < |outgoing'| ==>
         (outgoing'[i].log != [] <==> outgoing'[i].payload != "" && writable(i))
  }

  lemma OpenedTwice(a: seq<Outgoing>, b: seq<Outgoing>, c: seq<Outgoing>, writable: nat -> bool)
    requires Opened(a, b, writable) && Opened(b, c, writable)
    ensures Opened(a, c, writable)
  {
    assert forall i :: 0 <= i < |b| ==> c[..|b|][i] == b[i];
    assert c[..|a|] == b[..|a|];
  }

  lemma {:induction false} TrySendingOpens(s: Session, writable: nat -> bool)
    ensures Opened(s.outgoing, TrySending(s, writable).outgoing, writable)
    decreases |s.queue|
  {
    if s.queue != [] && s.credit > 0 {
      var s1 := SendOne(s, writable);
      TrySendingOpens(s1, writable);
      OpenedTwice(s.outgoing, s1.outgoing, TrySending(s1, writable).outgoing, writable);
    }
  }

  lemma ReadInOpens(s: Session, i: nat, bytes: string, fin: bool, writable: nat -> bool)
    requires i < |s.incoming|
    ensures Opened(s.outgoing, ReadIn(s, i, bytes, fin, writable).outgoing, writable)
  {
    if fin {
      var x := s.incoming[i];
      var x' := Incoming(x.buffer + bytes, x.read + bytes, true);
      TrySendingOpens(s.(incoming := s.incoming[i := x'], finished := s.finished + [i], queue := s.queue + [x'.buffer]),
                      writable);
    }
  }

  lemma {:induction false} AcceptAllOpens(s: Session, waiting: seq<(string, bool)>, writable: nat -> bool)
    ensures Opened(s.outgoing, AcceptAll(s, waiting, writable).outgoing, writable)
    decreases |waiting|
  {
    if waiting != [] {
      var s0 := s.(incoming := s.incoming + [Incoming("", "", false)]);
      var s1 := AcceptOne(s, waiting[0].0, waiting[0].1, writable);
      ReadInOpens(s0, |s.incoming|, waiting[0].0, waiting[0].1, writable);
      AcceptAllOpens(s1, waiting[1..], writable);
      OpenedTwice(s.outgoing, s1.outgoing, AcceptAll(s1, waiting[1..], writable).outgoing, writable);
    }
  }

  /** An outgoing stream has been written exactly if it had been before, or has something to
      write and the event lets it. */
  lemma WrittenIffLet(s: Session, e: SessionEvent, i: nat)
    requires SessionOk(s) && Legal(s, e) && i < |Step(s, e).outgoing|
    ensures var o' := Step(s, e).outgoing[i];
            o'.log != [] <==> (i < |s.outgoing| && s.outgoing[i].log != []) || (o'.payload != "" && LetsWrite(s, e, i))
    ensures i < |s.outgoing| ==> Step(s, e).outgoing[i].payload == s.outgoing[i].payload
  {
    match e
    case Ready(_) =>
    case BidirectionalCredit =>
    case Credit(n, writable) =>
      var s1 := s.(credit := s.credit + n, granted := s.granted + n);
      TrySendingOpens(s1, writable);
      OldAndNew(s.outgoing, Step(s, e).outgoing, writable, i);
    case Accept(waiting, writable) =>
      AcceptAllOpens(s, waiting, writable);
      OldAndNew(s.outgoing, Step(s, e).outgoing, writable, i);
    case UniReadable(j, bytes, fin, writable) =>
      ReadInOpens(s, j, bytes, fin, writable);
      OldAndNew(s.outgoing, Step(s, e).outgoing, writable, i);
    case UniWritable(j, ok) =>
      WriteOutKeeps(s.outgoing[j], ok);
      assert OutgoingOk(s.outgoing[i]);
  }

  lemma OldAndNew(outgoing: seq<Outgoing>, outgoing': seq<Outgoing>, writable: nat -> bool, i: nat)
    requires Opened(outgoing, outgoing', writable) && i < |outgoing'|
    ensures if i < |outgoing| then outgoing'[i] == outgoing[i]
            else outgoing'[i].log != [] <==> outgoing'[i].payload != "" && writable(i)
  {
    if i < |outgoing| {
      assert outgoing'[..|outgoing|][i] == outgoing'[i];
    }
  }
}

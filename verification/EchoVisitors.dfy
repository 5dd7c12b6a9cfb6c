/** The visitors of src/quit_web_transport_visitors.h as objects whose callbacks update their
    fields, each callback proved to do what the function in EchoSession says. */
module EchoVisitors {
  import opened EchoSession

  /** WebTransportBidirectionalEchoVisitor. What stream_ answers is passed in. */
  class BidirectionalEchoVisitor {
    var buffer: string
    var sendFin: bool
    var finSent: bool
    var stopSendingReceived: bool
    ghost var read: string
    ghost var log: seq<Sent>
    ghost var inputEnded: bool

    ghost function View(): Echo
      reads this
    {
      Echo(buffer, sendFin, finSent, stopSendingReceived, read, log, inputEnded)
    }

    constructor ()
      ensures View() == NEW_ECHO
    {
      buffer, sendFin, finSent, stopSendingReceived := "", false, false, false;
      read, log, inputEnded := "", [], false;
    }

    method OnCanRead(bytes: string, fin: bool, writeOk: bool, finOk: bool)
      modifies this
      ensures View() == EchoStep(old(View()), Readable(bytes, fin, writeOk, finOk))
    {
      buffer, read := buffer + bytes, read + bytes;
      if fin {
        sendFin, inputEnded := true, true;
      }
      OnCanWrite(writeOk, finOk);
    }

    method OnCanWrite(writeOk: bool, finOk: bool)
      modifies this
      ensures View() == EchoStep(old(View()), Writable(writeOk, finOk))
    {
      if stopSendingReceived {
        return;
      }
      if buffer != "" {
        if !writeOk {
          return;
        }
        log := log + [Payload(buffer)];
        buffer := "";
      }
      if sendFin && !finSent {
        if finOk {
          log := log + [Fin];
          finSent := true;
        }
      }
    }

    method OnResetStreamReceived(writeOk: bool, finOk: bool)
      modifies this
      ensures View() == EchoStep(old(View()), Reset(writeOk, finOk))
    {
      sendFin, inputEnded := true, true;
      OnCanWrite(writeOk, finOk);
    }

    method OnStopSendingReceived()
      modifies this
      ensures View() == EchoStep(old(View()), StopSending)
    {
      stopSendingReceived := true;
    }
  }

  /** WebTransportUnidirectionalEchoWriteVisitor. */
  class WriteVisitor {
    var data: string
    ghost var payload: string
    ghost var log: seq<Sent>

    ghost function View(): Outgoing
      reads this
    {
      Outgoing(payload, data, log)
    }

    constructor (data: string)
      ensures View() == Outgoing(data, data, [])
    {
      this.data, payload, log := data, data, [];
    }

    method OnCanWrite(writeOk: bool)
      modifies this
      ensures View() == WriteOut(old(View()), writeOk)
    {
      if data == "" {
        return;
      }
      if !writeOk {
        return;
      }
      log := log + [Payload(data), Fin];
      data := "";
    }
  }

  /** WebTransportUnidirectionalEchoReadVisitor, whose callback is the session's. */
  class ReadVisitor {
    var buffer: string
    const session: SessionVisitor
    ghost var read: string
    ghost var done: bool

    ghost function View(): Incoming
      reads this
    {
      Incoming(buffer, read, done)
    }

    constructor (session: SessionVisitor)
      ensures View() == Incoming("", "", false) && this.session == session
    {
      this.session := session;
      buffer, read, done := "", "", false;
    }

    /** `i` is the number of the stream among those the session accepted. */
    method OnCanRead(bytes: string, fin: bool, writable: nat -> bool, ghost i: nat)
      requires session.Valid() && i < |session.incoming| && session.incoming[i] == this
      modifies this, session
      ensures session.Valid() && session.incoming == old(session.incoming)
      ensures session.View() == ReadIn(old(session.View()), i, bytes, fin, writable)
    {
      buffer := buffer + bytes;
      read, done := read + bytes, done || fin;
      assert Ins(session.incoming) == old(Ins(session.incoming))[i := View()];
      if fin {
        session.EchoPayloadBack(buffer, writable, i);
      }
    }
  }

  ghost function Ins(visitors: seq<ReadVisitor>): seq<Incoming>
    reads visitors
  {
    seq(|visitors|, i requires 0 <= i < |visitors| reads visitors => visitors[i].View())
  }

  ghost function Outs(visitors: seq<WriteVisitor>): seq<Outgoing>
    reads visitors
  {
    seq(|visitors|, i requires 0 <= i < |visitors| reads visitors => visitors[i].View())
  }

  /** EchoWebTransportSessionVisitor, with the streams and the credit of session_. */
  class SessionVisitor {
    var echoStreamOpened: bool
    var queue: seq<string>             // streams_to_echo_back_
    var incoming: seq<ReadVisitor>
    var outgoing: seq<WriteVisitor>
    var credit: nat
    ghost var granted: nat
    ghost var finished: seq<nat>
    ghost var bidirectionalOpened: nat

    ghost predicate Valid()
      reads this
    {
      && (forall i :: 0 <= i < |incoming| ==> incoming[i].session == this)
      && (forall i, j :: 0 <= i < j < |incoming| ==> incoming[i] != incoming[j])
      && (forall i, j :: 0 <= i < j < |outgoing| ==> outgoing[i] != outgoing[j])
    }

    ghost function View(): Session
      reads this, incoming, outgoing
    {
      Session(echoStreamOpened, queue, Ins(incoming), Outs(outgoing), credit, granted, finished, bidirectionalOpened)
    }

    constructor ()
      ensures Valid() && View() == NEW_SESSION
    {
      echoStreamOpened, queue, incoming, outgoing := false, [], [], [];
      credit, granted, finished, bidirectionalOpened := 0, 0, [], 0;
    }

    method OnSessionReady(canOpen: bool)
      requires Valid()
      modifies this
      ensures Valid() && View() == Step(old(View()), Ready(canOpen))
    {
      if canOpen {
        OnCanCreateNewOutgoingBidirectionalStream();
      }
    }

    method OnCanCreateNewOutgoingBidirectionalStream()
      requires Valid()
      modifies this
      ensures Valid() && View() == Step(old(View()), BidirectionalCredit)
    {
      if !echoStreamOpened {
        bidirectionalOpened := bidirectionalOpened + 1;
        echoStreamOpened := true;
      }
    }

    /** The body of the sending loop. */
    method SendOneStream(writable: nat -> bool)
      requires Valid() && queue != [] && credit > 0
      modifies this
      ensures Valid() && incoming == old(incoming)
      ensures forall i :: 0 <= i < |outgoing| ==> outgoing[i] in old(outgoing) || fresh(outgoing[i])
      ensures View() == SendOne(old(View()), writable)
    {
      var visitor := new WriteVisitor(queue[0]);
      credit := credit - 1;
      queue := queue[1..];
      visitor.OnCanWrite(writable(|outgoing|));
      outgoing := outgoing + [visitor];
      assert Outs(outgoing) == old(Outs(outgoing)) + [visitor.View()];
    }

    method TrySendingUnidirectionalStreams(writable: nat -> bool)
      requires Valid()
      modifies this
      ensures Valid() && incoming == old(incoming)
      ensures View() == TrySending(old(View()), writable)
    {
      while queue != [] && credit > 0
        invariant Valid() && incoming == old(incoming)
        invariant TrySending(View(), writable) == TrySending(old(View()), writable)
        decreases |queue|
      {
        SendOneStream(writable);
      }
    }

    /** The callback given to the read visitors. */
    method EchoPayloadBack(payload: string, writable: nat -> bool, ghost i: nat)
      requires Valid()
      modifies this
      ensures Valid() && incoming == old(incoming)
      ensures View() == EchoBack(old(View()).(finished := old(finished) + [i]), payload, writable)
    {
      queue, finished := queue + [payload], finished + [i];
      TrySendingUnidirectionalStreams(writable);
    }

    /** The credit comes with the event. */
    method OnCanCreateNewOutgoingUnidirectionalStream(n: nat, writable: nat -> bool)
      requires Valid()
      modifies this
      ensures Valid() && View() == Step(old(View()), Credit(n, writable))
    {
      credit, granted := credit + n, granted + n;
      TrySendingUnidirectionalStreams(writable);
    }

    /** The body of the accepting loop. */
    method AcceptOneStream(bytes: string, fin: bool, writable: nat -> bool)
      requires Valid()
      modifies this
      ensures Valid() && View() == AcceptOne(old(View()), bytes, fin, writable)
    {
      var visitor := new ReadVisitor(this);
      incoming := incoming + [visitor];
      assert Ins(incoming) == old(Ins(incoming)) + [Incoming("", "", false)];
      visitor.OnCanRead(bytes, fin, writable, |incoming| - 1);
    }

    /** The streams waiting to be accepted, each with what its first read gives. */
    method OnIncomingUnidirectionalStreamAvailable(waiting: seq<(string, bool)>, writable: nat -> bool)
      requires Valid()
      modifies this
      ensures Valid() && View() == Step(old(View()), Accept(waiting, writable))
    {
      var i := 0;
      while i < |waiting|
        invariant 0 <= i <= |waiting| && Valid()
        invariant AcceptAll(View(), waiting[i..], writable) == AcceptAll(old(View()), waiting, writable)
      {
        AcceptOneStream(waiting[i].0, waiting[i].1, writable);
        assert waiting[i..][1..] == waiting[i + 1..];
        i := i + 1;
      }
    }
  }
}

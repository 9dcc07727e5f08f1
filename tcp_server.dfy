/** The TCP relay server (TCP/TCPServer.cs): the list of connected clients,
    the per-connection read loop that frames lines and processes them, the
    command reply and the fan-out of a message to every listed client.
    Sockets and the SignalR hub are not modelled; what the server writes to
    them is recorded, in order, in an event trace. */
module Tcp {
  import opened Text
  import opened Framing
  import opened Commands
  import opened Options

  /** An accepted TcpClient: the serial of its accept (two accepts never give
      the same object) and its remote endpoint. */
  datatype ClientHandle = ClientHandle(serial: nat, address: string, port: nat)

  /** "{address}:{port}" of the remote endpoint. */
  function ClientIdOf(c: ClientHandle): string
  {
    c.address + ":" + NatToString(c.port)
  }

  /** What the server sends out: a ReceiveLog to the hub (LogToHubAsync), a
      ReceiveTCPMessage relay to the hub, and one attempted write of data to
      a client's stream, with whether it went through. */
  datatype Event =
    | HubLog(level: string, text: string)
    | HubRelay(clientId: string, message: string)
    | Write(target: ClientHandle, data: string, delivered: bool)

  /** What one ReadAsync gives: some decoded text (empty for a zero-length
      read) or an exception. */
  datatype ReadEvent = Data(text: string) | Fault(reason: string)

  function ConnectedLog(id: string): Event
  {
    HubLog("INFO", "TCP Client connected: " + id)
  }

  function MessageLog(id: string, message: string): Event
  {
    HubLog("INFO", "TCP [" + id + "]: " + message)
  }

  /** What the catch and the finally of HandleClientAsync log. */
  function ExitTrace(id: string, fault: Option<string>): seq<Event>
  {
    (if fault.Some? then [HubLog("ERROR", "TCP Client " + id + " error: " + fault.value)] else [])
    + [HubLog("INFO", "TCP Client disconnected: " + id)]
  }

  /** The write attempts of one SendToTCPClient: message + "\n" to each
      target in turn, each outcome given by the oracle. */
  function Deliveries(targets: seq<ClientHandle>, message: string, writeOk: ClientHandle -> bool): seq<Event>
    decreases |targets|
  {
    if targets == [] then []
    else
      var target := Last(targets);
      Deliveries(AllButLast(targets), message, writeOk) + [Write(target, message + [Newline], writeOk(target))]
  }

  /** Every target, in list order, gets exactly one attempt carrying
      message + "\n", whatever the outcome of the others. */
  lemma {:induction false} DeliveriesSpec(targets: seq<ClientHandle>, message: string, writeOk: ClientHandle -> bool)
    ensures |Deliveries(targets, message, writeOk)| == |targets|
    ensures forall k :: 0 <= k < |targets| ==>
              Deliveries(targets, message, writeOk)[k] == Write(targets[k], message + [Newline], writeOk(targets[k]))
    decreases |targets|
  {
    if targets != [] {
      DeliveriesSpec(AllButLast(targets), message, writeOk);
    }
  }

  /** A failing write stops nothing: whatever the oracle says, the same
      clients get the same data in the same order, and exactly those the
      oracle lets through receive it. */
  lemma {:induction false} FailuresDoNotStopDelivery(targets: seq<ClientHandle>, message: string,
                                  ok1: ClientHandle -> bool, ok2: ClientHandle -> bool)
    ensures |Deliveries(targets, message, ok1)| == |Deliveries(targets, message, ok2)| == |targets|
    ensures forall k :: 0 <= k < |targets| ==>
              var d1, d2 := Deliveries(targets, message, ok1)[k], Deliveries(targets, message, ok2)[k];
              d1.Write? && d2.Write? && d1.target == d2.target && d1.data == d2.data
              && d1.delivered == ok1(targets[k])
  {
    DeliveriesSpec(targets, message, ok1);
    DeliveriesSpec(targets, message, ok2);
  }

  /** The events one framed message causes: the hub log, the relay, then,
      for a command, the reply sent to every listed client. */
  function ProcessTrace(id: string, message: string, clients: seq<ClientHandle>,
                        writeOk: ClientHandle -> bool): seq<Event>
  {
    [MessageLog(id, message), HubRelay(id, message)]
    + match Dispatch(message, |clients|)
      case None => []
      case Some(reply) => Deliveries(clients, reply, writeOk)
  }

  /** A message is logged and relayed before any reply is written; only a
      command gets a reply, and that reply goes to every listed client. */
  lemma {:induction false} ProcessTraceOrder(id: string, message: string, clients: seq<ClientHandle>,
                          writeOk: ClientHandle -> bool)
    ensures var t := ProcessTrace(id, message, clients, writeOk);
            |t| >= 2 && t[0] == MessageLog(id, message) && t[1] == HubRelay(id, message)
    ensures var t := ProcessTrace(id, message, clients, writeOk);
            forall k :: 2 <= k < |t| ==> t[k].Write?
    ensures !IsCommand(message) ==> |ProcessTrace(id, message, clients, writeOk)| == 2
    ensures IsCommand(message) ==>
              var t := ProcessTrace(id, message, clients, writeOk);
              var reply := HandleCommand(CommandBody(message), |clients|);
              |t| == 2 + |clients| &&
              forall k :: 0 <= k < |clients| ==> t[2 + k] == Write(clients[k], reply + [Newline], writeOk(clients[k]))
  {
    if IsCommand(message) {
      DeliveriesSpec(clients, HandleCommand(CommandBody(message), |clients|), writeOk);
    }
  }

  /** The events of a run of framed messages, the n-th one written with the
      n-th oracle. */
  function SessionTrace(id: string, messages: seq<string>, clients: seq<ClientHandle>,
                        writeOk: nat -> (ClientHandle -> bool)): seq<Event>
    decreases |messages|
  {
    if messages == [] then []
    else
      var n := |messages| - 1;
      SessionTrace(id, messages[..n], clients, writeOk) + ProcessTrace(id, messages[n], clients, writeOk(n))
  }

  /** The relays of a session are the messages, in order. */
  function Relays(trace: seq<Event>): seq<string>
  {
    if trace == [] then []
    else (if trace[0].HubRelay? then [trace[0].message] else []) + Relays(trace[1..])
  }

  lemma {:induction false} RelaysAppend(a: seq<Event>, b: seq<Event>)
    ensures Relays(a + b) == Relays(a) + Relays(b)
    decreases |a|
  {
    if a == [] {
      assert a + b == b;
    } else {
      assert (a + b)[1..] == a[1..] + b;
      RelaysAppend(a[1..], b);
    }
  }

  lemma {:induction false} ProcessTraceRelays(id: string, message: string, clients: seq<ClientHandle>,
                           writeOk: ClientHandle -> bool)
    ensures Relays(ProcessTrace(id, message, clients, writeOk)) == [message]
  {
    var t := ProcessTrace(id, message, clients, writeOk);
    ProcessTraceOrder(id, message, clients, writeOk);
    var replies := t[2..];
    assert t == [t[0]] + ([t[1]] + replies);
    RelaysAppend([t[0]], [t[1]] + replies);
    RelaysAppend([t[1]], replies);
    NoRelays(replies);
  }

  lemma {:induction false} NoRelays(t: seq<Event>)
    requires forall k :: 0 <= k < |t| ==> t[k].Write?
    ensures Relays(t) == []
    decreases |t|
  {
    if t != [] {
      NoRelays(t[1..]);
    }
  }

  /** Every framed message of a session is relayed to the hub, once, in the
      order it was read. */
  lemma {:induction false} SessionRelaysEveryMessage(id: string, messages: seq<string>, clients: seq<ClientHandle>,
                                                     writeOk: nat -> (ClientHandle -> bool))
    ensures Relays(SessionTrace(id, messages, clients, writeOk)) == messages
    decreases |messages|
  {
    if messages != [] {
      var n := |messages| - 1;
      SessionRelaysEveryMessage(id, messages[..n], clients, writeOk);
      RelaysAppend(SessionTrace(id, messages[..n], clients, writeOk), ProcessTrace(id, messages[n], clients, writeOk(n)));
      ProcessTraceRelays(id, messages[n], clients, writeOk(n));
      assert messages == messages[..n] + [messages[n]];
    }
  }

  /** The chunks the read loop consumes: every non-empty read up to the first
      zero-length read or exception. */
  function Received(events: seq<ReadEvent>): seq<string>
  {
    if events == [] then []
    else match events[0]
      case Fault(_) => []
      case Data(text) => if text == [] then [] else [text] + Received(events[1..])
  }

  /** The exception that ended the read loop, if one did. */
  function FaultOf(events: seq<ReadEvent>): Option<string>
  {
    if events == [] then None
    else match events[0]
      case Fault(reason) => Some(reason)
      case Data(text) => if text == [] then None else FaultOf(events[1..])
  }

  /** List<T>.Remove: drop the first occurrence, if there is one. */
  function RemoveFirst<T(==)>(xs: seq<T>, x: T): seq<T>
  {
    if xs == [] then []
    else if xs[0] == x then xs[1..]
    else [xs[0]] + RemoveFirst(xs[1..], x)
  }

  /** Removing changes nothing when there is no occurrence. */
  lemma {:induction false} RemoveFirstAbsent<T>(xs: seq<T>, x: T)
    requires x !in xs
    ensures RemoveFirst(xs, x) == xs
    decreases |xs|
  {
    if xs != [] {
      assert x !in xs[1..] by { assert forall k :: 0 <= k < |xs| - 1 ==> xs[1..][k] == xs[k + 1]; }
      RemoveFirstAbsent(xs[1..], x);
    }
  }

  /** Removing takes out one occurrence of x, if there is one, and nothing
      else. */
  lemma {:induction false} RemoveFirstMultiset<T>(xs: seq<T>, x: T)
    ensures multiset(RemoveFirst(xs, x)) == multiset(xs) - multiset{x}
    decreases |xs|
  {
    if xs != [] {
      assert xs == [xs[0]] + xs[1..];
      RemoveFirstMultiset(xs[1..], x);
    }
  }

  /** Removing takes out exactly one occurrence when there is one and
      changes nothing when there is none. */
  lemma {:induction false} RemoveFirstSpec<T>(xs: seq<T>, x: T)
    ensures x !in xs ==> RemoveFirst(xs, x) == xs
    ensures x in xs ==> |RemoveFirst(xs, x)| == |xs| - 1
    ensures multiset(RemoveFirst(xs, x)) == multiset(xs) - multiset{x}
  {
    RemoveFirstMultiset(xs, x);
    if x !in xs {
      RemoveFirstAbsent(xs, x);
    } else {
      assert x in multiset(xs);
      assert |multiset(RemoveFirst(xs, x))| == |multiset(xs)| - 1;
    }
  }

  /** The one occurrence removed is the first: what comes before it stays in
      place. */
  lemma {:induction false} RemoveFirstKeepsPrefix<T>(xs: seq<T>, x: T, i: nat)
    requires i < |xs| && xs[i] == x && x !in xs[..i]
    ensures RemoveFirst(xs, x) == xs[..i] + xs[i + 1..]
    decreases i
  {
    if i > 0 {
      assert xs[0] != x by { assert xs[0] == xs[..i][0]; }
      RemoveFirstKeepsPrefix(xs[1..], x, i - 1);
      assert xs[1..][..i - 1] == xs[1..i];
      assert xs[..i] == [xs[0]] + xs[1..i];
    }
  }

  /** Accept then exit gives the list back when the client was new to it. */
  lemma {:induction false} AcceptThenRemove<T>(xs: seq<T>, c: T)
    requires c !in xs
    ensures RemoveFirst(xs + [c], c) == xs
  {
    RemoveFirstKeepsPrefix(xs + [c], c, |xs|);
    assert (xs + [c])[..|xs|] == xs;
  }

  /** A whole session, accept to exit, leaves the list holding what it held
      before, as a multiset: one entry in, one occurrence of it out. */
  lemma {:induction false} SessionKeepsList<T>(xs: seq<T>, c: T)
    ensures |RemoveFirst(xs + [c], c)| == |xs|
    ensures multiset(RemoveFirst(xs + [c], c)) == multiset(xs)
  {
    RemoveFirstSpec(xs + [c], c);
    assert c in xs + [c];
    assert multiset(xs + [c]) == multiset(xs) + multiset{c};
  }

  lemma {:induction false} ConcatSnoc(chunks: seq<string>, text: string)
    ensures Concat(chunks + [text]) == Concat(chunks) + text
    decreases |chunks|
  {
    if chunks == [] {
      assert [] + [text] == [text];
      assert text + [] == text;
    } else {
      assert (chunks + [text])[1..] == chunks[1..] + [text];
      ConcatSnoc(chunks[1..], text);
    }
  }

  /** One more complete line adds what that line frames to. */
  lemma {:induction false} LineStep(done: seq<string>, lines: seq<string>, j: nat)
    requires j < |lines|
    ensures done + Frame(lines[..j + 1]) == (done + Frame(lines[..j])) + FrameLine(lines[j])
  {
    assert lines[..j + 1] == lines[..j] + [lines[j]];
    FrameSnoc(lines[..j], lines[j]);
  }

  lemma {:induction false} FrameSnoc(lines: seq<string>, line: string)
    ensures Frame(lines + [line]) == Frame(lines) + FrameLine(line)
  {
    FrameAppend(lines, [line]);
    FrameCons(line, []);
    assert [line] + [] == [line];
  }

  class TcpServer {
    /** _connectedClients. */
    var clients: seq<ClientHandle>
    /** Everything sent to the hub and to the clients, oldest first. */
    var trace: seq<Event>

    constructor ()
      ensures clients == [] && trace == []
    {
      clients := [];
      trace := [];
    }

    /** GetConnectedClientsCount: every entry counts, duplicates included. */
    function ConnectedCount(): (n: nat)
      reads this
      ensures n == |clients|
    {
      |clients|
    }

    /** SendToTCPClient: clientId is not looked at; message + "\n" is written
        to every listed client in list order, and a failed write is
        swallowed. */
    method SendToTcpClient(clientId: string, message: string, writeOk: ClientHandle -> bool)
      modifies this
      ensures clients == old(clients)
      ensures trace == old(trace) + Deliveries(old(clients), message, writeOk)
    {
      var k := 0;
      while k < |clients|
        invariant 0 <= k <= |clients|
        invariant clients == old(clients)
        invariant trace == old(trace) + Deliveries(clients[..k], message, writeOk)
      {
        var target := clients[k];
        var ok := writeOk(target);
        assert AllButLast(clients[..k + 1]) == clients[..k];
        trace := trace + [Write(target, message + [Newline], ok)];
        k := k + 1;
      }
      assert clients[..k] == clients;
    }

    /** BroadcastToTCPClients is SendToTCPClient("ALL", message). */
    method BroadcastToTcpClients(message: string, writeOk: ClientHandle -> bool)
      modifies this
      ensures clients == old(clients)
      ensures trace == old(trace) + Deliveries(old(clients), message, writeOk)
    {
      SendToTcpClient("ALL", message, writeOk);
    }

    /** HandleCommandAsync: the reply of the switch, sent to every client. */
    method AnswerCommand(id: string, command: string, writeOk: ClientHandle -> bool)
      modifies this
      ensures clients == old(clients)
      ensures trace == old(trace) + Deliveries(old(clients), HandleCommand(command, |old(clients)|), writeOk)
    {
      var reply := HandleCommand(command, |clients|);
      SendToTcpClient(id, reply, writeOk);
    }

    /** ProcessMessageAsync: log, relay, then answer a command. */
    method ProcessMessage(id: string, message: string, writeOk: ClientHandle -> bool)
      modifies this
      ensures clients == old(clients)
      ensures trace == old(trace) + ProcessTrace(id, message, old(clients), writeOk)
    {
      trace := trace + [MessageLog(id, message)];
      trace := trace + [HubRelay(id, message)];
      if IsCommand(message) {
        var command := CommandBody(message);
        AnswerCommand(id, command, writeOk);
      }
    }

    /** One pass of the inner loop of HandleClientAsync: the line, trimmed,
        is processed unless nothing is left of it. */
    method ProcessLine(id: string, raw: string, writeOk: nat -> (ClientHandle -> bool),
                       ghost start: seq<Event>, done: seq<string>)
      returns (processed: seq<string>)
      requires trace == start + SessionTrace(id, done, clients, writeOk)
      modifies this
      ensures clients == old(clients)
      ensures processed == done + FrameLine(raw)
      ensures trace == start + SessionTrace(id, processed, clients, writeOk)
    {
      processed := done;
      var line := Trim(raw);
      if line != [] {
        ProcessMessage(id, line, writeOk(|processed|));
        SessionTraceSnoc(id, processed, line, clients, writeOk);
        AppendAssoc(start, SessionTrace(id, processed, clients, writeOk), ProcessTrace(id, line, clients, writeOk(|processed|)));
        processed := processed + [line];
      }
    }

    /** The inner loop of HandleClientAsync over the complete lines. */
    method ProcessLines(id: string, lines: seq<string>, writeOk: nat -> (ClientHandle -> bool),
                        ghost start: seq<Event>, done: seq<string>)
      returns (processed: seq<string>)
      requires trace == start + SessionTrace(id, done, clients, writeOk)
      modifies this
      ensures clients == old(clients)
      ensures processed == done + Frame(lines)
      ensures trace == start + SessionTrace(id, processed, clients, writeOk)
    {
      processed := done;
      var j := 0;
      while j < |lines|
        invariant 0 <= j <= |lines|
        invariant clients == old(clients)
        invariant processed == done + Frame(lines[..j])
        invariant trace == start + SessionTrace(id, processed, clients, writeOk)
      {
        processed := ProcessLine(id, lines[j], writeOk, start, processed);
        LineStep(done, lines, j);
        j := j + 1;
      }
      assert lines[..j] == lines;
    }

    /** One non-empty read: the text is appended to the pending buffer, every
        complete line of it is processed and what follows the last '\n' is
        kept; the messages and the buffer are those of feeding everything
        read so far. */
    method ReadChunk(id: string, text: string, writeOk: nat -> (ClientHandle -> bool), ghost start: seq<Event>,
                     ghost chunks: seq<string>, done: seq<string>, pending: string)
      returns (processed: seq<string>, rest: string)
      requires Feed([], Concat(chunks)) == Fed(done, pending)
      requires trace == start + SessionTrace(id, done, clients, writeOk)
      modifies this
      ensures clients == old(clients)
      ensures Feed([], Concat(chunks + [text])) == Fed(processed, rest)
      ensures trace == start + SessionTrace(id, processed, clients, writeOk)
    {
      var pieces := Split(pending + text);
      processed := ProcessLines(id, pieces[..|pieces| - 1], writeOk, start, done);
      rest := pieces[|pieces| - 1];
      FeedStep(chunks, done, pending, text);
    }

    /** The read loop of HandleClientAsync, up to a zero-length read, an
        exception or the end of the reads: what it processed and the
        exception, if any. */
    method ReadLoop(id: string, events: seq<ReadEvent>, writeOk: nat -> (ClientHandle -> bool))
      returns (processed: seq<string>, fault: Option<string>)
      modifies this
      ensures clients == old(clients)
      ensures processed == StreamMessages(Concat(Received(events)))
      ensures fault == FaultOf(events)
      ensures trace == old(trace) + SessionTrace(id, processed, clients, writeOk)
    {
      ghost var start := trace;
      processed := [];
      var pending: string := [];
      ghost var chunks: seq<string> := [];
      fault := None;
      var reading := true;
      var i := 0;
      assert events[0..] == events;
      FeedStart();
      while reading && i < |events|
        invariant 0 <= i <= |events|
        invariant clients == old(clients)
        invariant Feed([], Concat(chunks)) == Fed(processed, pending)
        invariant reading ==> fault == None
        invariant reading ==> Received(events) == chunks + Received(events[i..])
        invariant reading ==> FaultOf(events) == FaultOf(events[i..])
        invariant !reading ==> Received(events) == chunks && FaultOf(events) == fault
        invariant trace == start + SessionTrace(id, processed, clients, writeOk)
        decreases |events| - i, reading
      {
        match events[i] {
          case Fault(reason) =>
            fault := Some(reason);
            reading := false;
            assert chunks + [] == chunks;
          case Data(text) =>
            if text == [] {
              reading := false;
              assert chunks + [] == chunks;
            } else {
              processed, pending := ReadChunk(id, text, writeOk, start, chunks, processed, pending);
              ReadStep(events, i, text);
              chunks := chunks + [text];
              i := i + 1;
            }
        }
      }
      if reading {
        assert events[i..] == [];
        assert chunks + [] == chunks;
      }
    }

    /** HandleClientAsync over the given reads: the client is listed, every
        complete non-blank line is trimmed and processed (the n-th with the
        n-th write oracle), and on every way out the client is unlisted
        again. The messages are those of the whole text read, however it was
        cut into reads; what follows the last '\n' is dropped. */
    method HandleClient(c: ClientHandle, events: seq<ReadEvent>, writeOk: nat -> (ClientHandle -> bool))
      returns (processed: seq<string>)
      modifies this
      ensures processed == StreamMessages(Concat(Received(events)))
      ensures clients == RemoveFirst(old(clients) + [c], c)
      ensures trace == old(trace) + [ConnectedLog(ClientIdOf(c))]
                       + SessionTrace(ClientIdOf(c), processed, old(clients) + [c], writeOk)
                       + ExitTrace(ClientIdOf(c), FaultOf(events))
    {
      var id := ClientIdOf(c);
      clients := clients + [c];
      trace := trace + [ConnectedLog(id)];
      var fault;
      processed, fault := ReadLoop(id, events, writeOk);
      if fault.Some? {
        trace := trace + [HubLog("ERROR", "TCP Client " + id + " error: " + fault.value)];
      }
      clients := RemoveFirst(clients, c);
      trace := trace + [HubLog("INFO", "TCP Client disconnected: " + id)];
    }
  }

  lemma {:induction false} FeedStart()
    ensures Feed([], Concat([])) == Fed([], [])
  {
    assert Split([]) == [[]];
  }

  lemma {:induction false} SessionTraceSnoc(id: string, messages: seq<string>, m: string, clients: seq<ClientHandle>,
                         writeOk: nat -> (ClientHandle -> bool))
    ensures SessionTrace(id, messages + [m], clients, writeOk) ==
            SessionTrace(id, messages, clients, writeOk) + ProcessTrace(id, m, clients, writeOk(|messages|))
  {
    assert (messages + [m])[..|messages|] == messages;
  }

  /** One more read: the framing state of all text so far. */
  lemma {:induction false} FeedStep(chunks: seq<string>, processed: seq<string>, pending: string, text: string)
    requires Feed([], Concat(chunks)) == Fed(processed, pending)
    ensures var pieces := Split(pending + text);
            Feed([], Concat(chunks + [text])) == Fed(processed + Frame(pieces[..|pieces| - 1]), pieces[|pieces| - 1])
  {
    ConcatSnoc(chunks, text);
    FeedTwice([], Concat(chunks), text);
  }

  /** A non-empty read moves the loop one event on. */
  lemma {:induction false} ReadStep(events: seq<ReadEvent>, i: nat, text: string)
    requires i < |events| && events[i] == Data(text) && text != []
    ensures Received(events[i..]) == [text] + Received(events[i + 1..])
    ensures FaultOf(events[i..]) == FaultOf(events[i + 1..])
  {
    assert events[i..][1..] == events[i + 1..];
  }
}

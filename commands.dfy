/** The command protocol of the TCP relay (TCP/TCPServer.cs,
    ProcessMessageAsync and HandleCommandAsync): a message that starts with
    "COMMAND:" carries a command, whose body is dispatched case-insensitively
    to a one-line reply. */
module Commands {
  import opened Text
  import opened Framing
  import opened Options

  const CommandPrefix: string := "COMMAND:"
  const StatusReply: string := "STATUS:OK"
  const ClientsPrefix: string := "CLIENTS:"
  const UnknownPrefix: string := "UNKNOWN_COMMAND:"

  predicate IsCommand(message: string) {
    StartsWith(message, CommandPrefix)
  }

  /** message.Substring(8).Trim(): what follows the prefix, trimmed. */
  function CommandBody(message: string): string
    requires IsCommand(message)
  {
    Trim(message[|CommandPrefix|..])
  }

  /** The commands the switch knows, after upper-casing. */
  predicate IsStatusCommand(command: string) {
    ToUpper(command) == "GET_STATUS"
  }

  predicate IsClientsCommand(command: string) {
    ToUpper(command) == "GET_CLIENTS"
  }

  /** The reply HandleCommandAsync sends for a command body, given the number
      of clients in the list. */
  function HandleCommand(command: string, clientCount: nat): string
  {
    if IsStatusCommand(command) then StatusReply
    else if IsClientsCommand(command) then ClientsPrefix + NatToString(clientCount)
    else UnknownPrefix + command
  }

  /** What ProcessMessageAsync answers to a framed message: a reply for a
      command, nothing for anything else. */
  function Dispatch(message: string, clientCount: nat): (reply: Option<string>)
    ensures reply.Some? <==> IsCommand(message)
  {
    if IsCommand(message) then Some(HandleCommand(CommandBody(message), clientCount)) else None
  }

  /** Prefixing "COMMAND:" makes a command whose body is the trimmed rest. */
  lemma {:induction false} CommandRoundTrip(rest: string)
    ensures IsCommand(CommandPrefix + rest)
    ensures CommandBody(CommandPrefix + rest) == Trim(rest)
  {
    assert (CommandPrefix + rest)[..|CommandPrefix|] == CommandPrefix;
    assert (CommandPrefix + rest)[|CommandPrefix|..] == rest;
  }

  /** The body of a command is trimmed and, when the message is a framed
      message, newline-free. */
  lemma {:induction false} CommandBodyShape(message: string)
    requires IsCommand(message)
    ensures IsTrimmed(CommandBody(message))
    ensures Newline !in message ==> Newline !in CommandBody(message)
  {
    var rest := message[|CommandPrefix|..];
    TrimSpec(rest);
    if Newline !in message {
      assert forall c :: c in rest ==> c in message;
    }
  }

  /** Known commands are case-insensitive: two spellings that upper-case alike
      get the same reply. */
  lemma {:induction false} KnownCommandsIgnoreCase(a: string, b: string, n: nat)
    requires ToUpper(a) == ToUpper(b)
    requires IsStatusCommand(a) || IsClientsCommand(a)
    ensures HandleCommand(a, n) == HandleCommand(b, n)
  {
  }

  /** The GET_CLIENTS reply carries the count in decimal, and reading it back
      gives the count. */
  lemma {:induction false} ClientsReplyReportsCount(command: string, n: nat)
    requires IsClientsCommand(command)
    ensures StartsWith(HandleCommand(command, n), ClientsPrefix)
    ensures var digits := HandleCommand(command, n)[|ClientsPrefix|..];
            AllDigits(digits) && ParseDigits(digits) == n
  {
    var r := HandleCommand(command, n);
    assert r[|ClientsPrefix|..] == NatToString(n);
    ParseNatToString(n);
  }

  /** An unknown command is echoed back as received, not upper-cased. */
  lemma {:induction false} UnknownCommandEchoed(command: string, n: nat)
    requires !IsStatusCommand(command) && !IsClientsCommand(command)
    ensures StartsWith(HandleCommand(command, n), UnknownPrefix)
    ensures HandleCommand(command, n)[|UnknownPrefix|..] == command
  {
    var r := HandleCommand(command, n);
    assert r[..|UnknownPrefix|] == UnknownPrefix;
  }

  /** Every reply is exactly one of the three kinds. */
  lemma {:induction false} ReplyKinds(command: string, n: nat)
    ensures var r := HandleCommand(command, n);
            (r == StatusReply) <==> IsStatusCommand(command)
    ensures var r := HandleCommand(command, n);
            StartsWith(r, ClientsPrefix) <==> IsClientsCommand(command)
    ensures var r := HandleCommand(command, n);
            StartsWith(r, UnknownPrefix) <==> !IsStatusCommand(command) && !IsClientsCommand(command)
  {
    var r := HandleCommand(command, n);
    if IsStatusCommand(command) {
      assert r[..|ClientsPrefix|] != ClientsPrefix by { assert r[0] != ClientsPrefix[0]; }
      assert |r| < |UnknownPrefix|;
    } else if IsClientsCommand(command) {
      assert r[..|ClientsPrefix|] == ClientsPrefix;
      assert r != StatusReply by { assert r[0] != StatusReply[0]; }
      assert !StartsWith(r, UnknownPrefix) by {
        if |UnknownPrefix| <= |r| { assert r[0] != UnknownPrefix[0]; }
      }
    } else {
      assert r[..|UnknownPrefix|] == UnknownPrefix;
      assert r != StatusReply by { assert r[0] != StatusReply[0]; }
      assert !StartsWith(r, ClientsPrefix) by { assert r[0] != ClientsPrefix[0]; }
    }
  }

  /** A trimmed, newline-free body gets a reply that is itself a framed
      message. */
  lemma {:induction false} ReplyIsMessage(command: string, n: nat)
    requires IsTrimmed(command) && Newline !in command
    ensures IsMessage(HandleCommand(command, n))
  {
    var r := HandleCommand(command, n);
    if IsStatusCommand(command) {
      assert r == StatusReply;
    } else if IsClientsCommand(command) {
      var d := NatToString(n);
      assert r == ClientsPrefix + d;
      assert r[|r| - 1] == d[|d| - 1];
      DigitIsNotWhiteSpace(d[|d| - 1]);
      assert forall k :: 0 <= k < |d| ==> d[k] != Newline;
    } else {
      assert r == UnknownPrefix + command;
      if command != [] {
        assert r[|r| - 1] == command[|command| - 1];
      }
    }
  }

  /** A framed message sent as one line, message + "\n", is read back by a
      peer's framing as exactly that message. */
  lemma {:induction false} OneLineReadsBack(m: string)
    requires IsMessage(m)
    ensures StreamMessages(m + [Newline]) == [m]
  {
    StreamMessagesAtNewline(m, []);
    assert m + [Newline] + [] == m + [Newline];
    TrimSpec(m);
    TrimOfTrimmed(m);
    assert StreamMessages([]) == [];
  }

  /** So a command reply reaches every peer as one message. */
  lemma {:induction false} ReplyIsOneLine(command: string, n: nat)
    requires IsTrimmed(command) && Newline !in command
    ensures StreamMessages(HandleCommand(command, n) + [Newline]) == [HandleCommand(command, n)]
  {
    ReplyIsMessage(command, n);
    OneLineReadsBack(HandleCommand(command, n));
  }

  /** A framed command message gets a reply that is one framed line. */
  lemma {:induction false} CommandReplyIsOneLine(message: string, n: nat)
    requires IsMessage(message) && IsCommand(message)
    ensures IsMessage(HandleCommand(CommandBody(message), n))
  {
    CommandBodyShape(message);
    ReplyIsMessage(CommandBody(message), n);
  }

  /** Upper-casing leaves a string without 'a'..'z' as it is. */
  lemma {:induction false} ToUpperWithoutLowerCase(s: string)
    requires forall k :: 0 <= k < |s| ==> !('a' <= s[k] <= 'z')
    ensures ToUpper(s) == s
  {
  }

  /** The replies of the protocol, on concrete messages. */
  lemma {:induction false} StatusExample()
    ensures Dispatch("COMMAND:GET_STATUS", 1) == Some("STATUS:OK")
  {
    StatusBody();
    StatusReplyFor(1);
  }

  lemma {:induction false} StatusReplyFor(n: nat)
    ensures HandleCommand("GET_STATUS", n) == "STATUS:OK"
  {
    ToUpperWithoutLowerCase("GET_STATUS");
  }

  lemma {:induction false} StatusBody()
    ensures IsCommand("COMMAND:GET_STATUS")
    ensures CommandBody("COMMAND:GET_STATUS") == "GET_STATUS"
  {
    var body := "GET_STATUS";
    CommandRoundTrip(body);
    assert "COMMAND:GET_STATUS" == CommandPrefix + body;
    assert IsTrimmed(body) by { assert body[0] == 'G' && body[|body| - 1] == 'S'; }
    TrimOfTrimmed(body);
  }

  lemma {:induction false} ClientsExample()
    ensures Dispatch("COMMAND:GET_CLIENTS", 3) == Some("CLIENTS:3")
  {
    ClientsBody();
    ClientsReply(3);
    ClientsThree();
  }

  lemma {:induction false} ClientsThree()
    ensures ClientsPrefix + NatToString(3) == "CLIENTS:3"
  {
    assert NatToString(3) == "3";
  }

  lemma {:induction false} ClientsBody()
    ensures IsCommand("COMMAND:GET_CLIENTS")
    ensures CommandBody("COMMAND:GET_CLIENTS") == "GET_CLIENTS"
  {
    var body := "GET_CLIENTS";
    CommandRoundTrip(body);
    assert "COMMAND:GET_CLIENTS" == CommandPrefix + body;
    assert IsTrimmed(body) by { assert body[0] == 'G' && body[|body| - 1] == 'S'; }
    TrimOfTrimmed(body);
  }

  lemma {:induction false} ClientsReply(n: nat)
    ensures HandleCommand("GET_CLIENTS", n) == ClientsPrefix + NatToString(n)
  {
    ToUpperWithoutLowerCase("GET_CLIENTS");
  }

  lemma {:induction false} UnknownExample()
    ensures Dispatch("COMMAND:Foo", 2) == Some("UNKNOWN_COMMAND:Foo")
  {
    var body := "Foo";
    CommandRoundTrip(body);
    assert "COMMAND:Foo" == CommandPrefix + body;
    assert IsTrimmed(body) by { assert body[0] == 'F' && body[|body| - 1] == 'o'; }
    TrimOfTrimmed(body);
    assert !IsStatusCommand(body) && !IsClientsCommand(body);
    assert HandleCommand(body, 2) == UnknownPrefix + body;
    assert UnknownPrefix + body == "UNKNOWN_COMMAND:Foo";
  }

  lemma {:induction false} PlainMessageExample()
    ensures Dispatch("hello", 2) == None
  {
    assert "hello"[0] != CommandPrefix[0];
  }
}

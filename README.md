# ChatServer relay core in Dafny

The ChatServer pairs a TCP relay server with a SignalR monitoring hub. This
project models the sequential logic under the plumbing of the two and proves
properties of that model.

**TCP relay server** (`TCP/TCPServer.cs`)
- **Line framing.** Each read of a connection is appended to a pending
  buffer, and the buffer is split on `'\n'`. Every complete line is trimmed
  and processed if anything is left of it. The text after the last `'\n'`
  becomes the new buffer. This is the pure step function `Framing.Feed`.
- **Message processing.** Every framed message is logged to the hub and
  relayed to it. If it starts with `COMMAND:`, the trimmed body is dispatched
  case-insensitively to one of three replies: `STATUS:OK`, `CLIENTS:<count>`
  or `UNKNOWN_COMMAND:<body>`.
- **Fan-out.** `SendToTCPClient` writes `reply + "\n"` to every listed
  client, in list order. A failed write is swallowed and delivery goes on.
- **Client list.** A client is appended on accept and removed (its first
  occurrence) on every way out of the read loop.
- **How it is modelled.**
  - `Tcp.TcpServer` is a class whose fields are `_connectedClients` and an
    ordered trace of everything the server sends out.
  - Each write outcome comes from an oracle parameter.
  - `HandleClient` is proved against pure specification functions: the
    processed messages are `StreamMessages` of everything read, and the trace
    is `SessionTrace` framed by the connect and disconnect logs.

**Monitoring hub** (`Hubs/MonitoringHub.cs`)
- It keeps three static tables, modelled as one object `Hubs.MonitoringHub`:
  - a connection id → `ClientInfo` map;
  - an append-only log list;
  - a client id → metrics map.
- `SendLog`, `SendMetrics`, `OnConnectedAsync` and `OnDisconnectedAsync` are
  methods that update the tables.
- `GetAllMetrics`, `GetConnectedClients` and `GetLogHistory` are functions.
  `GetLogHistory` works in four steps:
  - filter by an optional inclusive `ServerTime` range;
  - sort newest first with a stable insertion sort, as LINQ
    `OrderByDescending` is stable;
  - take at most 1000 entries;
  - prove the filtering, ordering, bound and completeness properties.

Files:
- `options.dfy`: `Option`.
- `text.dfy`: Trim, upper-casing and decimal text.
- `framing.dfy`: split, join, frame, feed and the chunking laws.
- `commands.dfy`: the command switch.
- `tcp_server.dfy`: the server class and its traces.
- `monitoring_hub.dfy`: the hub tables and the log query.

Behaviour of the code that a reader might not expect, modelled as written:
- Command replies go to every listed client, because `SendToTCPClient`
  ignores its `clientId` argument.
- Every message is logged and relayed, commands included, before any reply.
- The client list is a plain list of accepted clients with no
  de-duplication by identity; `Remove` takes out the first occurrence.
- Broadcast iterates the live list, not a snapshot. The model is sequential,
  so no other connection changes the list during a fan-out.
- `StopAsync` does not itself empty the list; each handler's `finally`
  removes its client. `StopAsync` is not part of this model.

## Model

| member | source | states |
|---|---|---|
| Text.TrimSpec | TCP/TCPServer.cs:77 | Trim leaves no white space at either end. It keeps a slice of the input with only white space on both sides, and holds only characters of the input. It is empty exactly when the input is all white space. |
| Text.Trim | TCP/TCPServer.cs:77 | String.Trim(); its contract is stated by Text.TrimSpec, Text.TrimIdempotent and Text.TrimOfTrimmed |
| Text.TrimIdempotent | TCP/TCPServer.cs:110 | trimming a trimmed string changes nothing |
| Text.TrimOfTrimmed | TCP/TCPServer.cs:77 | a string with no white space at either end is its own Trim |
| Text.ToUpper | TCP/TCPServer.cs:117 | upper-casing keeps the length and maps each character by ASCII upper-casing |
| Text.ToUpperChar | TCP/TCPServer.cs:117 | 'a'..'z' go to 'A'..'Z' by a fixed offset, every other character is unchanged |
| Text.NatToString | TCP/TCPServer.cs:124 | the interpolated count is a non-empty string of digits with no leading zero |
| Text.ParseNatToString | TCP/TCPServer.cs:124 | reading the decimal text back gives the count (round trip) |
| Text.NatToStringInjective | TCP/TCPServer.cs:124 | different counts give different texts |
| Framing.Split | TCP/TCPServer.cs:74 | Split('\n') always yields at least one piece |
| Framing.SplitNewlineFree | TCP/TCPServer.cs:74 | no piece holds a '\n' |
| Framing.SplitWithoutNewline | TCP/TCPServer.cs:74 | a buffer without '\n' splits into itself alone |
| Framing.SplitWithNewline | TCP/TCPServer.cs:74 | a buffer with a '\n' splits into more than one piece |
| Framing.JoinSplit | TCP/TCPServer.cs:74 | joining the pieces with '\n' gives the buffer back |
| Framing.SplitJoin | TCP/TCPServer.cs:74 | splitting newline-free pieces joined by '\n' gives the pieces back |
| Framing.SplitLast | TCP/TCPServer.cs:83 | the last piece is the text after the last '\n', or the whole buffer if there is none |
| Framing.SplitAppend | TCP/TCPServer.cs:71-74 | splitting s + t re-splits only the last piece of s |
| Framing.SplitAtNewline | TCP/TCPServer.cs:74 | a '\n' after newline-free x makes x the first piece and splits the rest on its own |
| Framing.FrameLineSpec | TCP/TCPServer.cs:77-81 | a line gives nothing exactly when it is blank. Otherwise it gives its trimmed text once, a framed message when the line is newline-free. |
| Framing.FrameLine | TCP/TCPServer.cs:77-81 | one complete line: its trimmed text unless blank; stated by Framing.FrameLineSpec |
| Framing.Frame | TCP/TCPServer.cs:75-82 | the messages among complete lines, in order; stated by Framing.FrameAppend, Framing.FrameGivesMessages, Framing.FrameKeepsNonBlank and Framing.FrameBlank |
| Framing.FrameAppend | TCP/TCPServer.cs:75-82 | framing two runs of lines is framing each in turn |
| Framing.FrameGivesMessages | TCP/TCPServer.cs:75-82 | framed lines are non-empty, trimmed and newline-free, and no more numerous than the lines |
| Framing.FrameKeepsNonBlank | TCP/TCPServer.cs:77-81 | every non-blank complete line is handed on, trimmed |
| Framing.FrameBlank | TCP/TCPServer.cs:77-78 | empty and white-space-only lines are dropped |
| Framing.FeedSpec | TCP/TCPServer.cs:71-83 | after a read, the pending buffer is newline-free. It is the text after the last '\n' of pending + chunk, or all of it if there is none. Every message handed on is a framed message. |
| Framing.Feed | TCP/TCPServer.cs:70-83 | one pass of the read loop on pending + chunk; stated by Framing.FeedSpec, Framing.FeedTwice and Framing.FeedAllIsFeed |
| Framing.FeedTwice | TCP/TCPServer.cs:70-83 | two reads in a row give the messages and buffer of one read of both chunks |
| Framing.FeedAllIsFeed | TCP/TCPServer.cs:63-84 | feeding text in any split into reads gives the messages and buffer of feeding it at once |
| Framing.SameTextSameMessages | TCP/TCPServer.cs:63-84 | two splits of the same text into reads are indistinguishable |
| Framing.FeedWithoutNewline | TCP/TCPServer.cs:74-83 | a read that completes no line only lengthens the buffer |
| Framing.UnterminatedTailNeverEmitted | TCP/TCPServer.cs:67-83 | text after the last '\n' of a stream never becomes a message, and only lengthens the buffer discarded at the end |
| Framing.StreamPieces | TCP/TCPServer.cs:74-81 | the messages of a stream come from framing every piece but the last |
| Framing.StreamMessagesAtNewline | TCP/TCPServer.cs:74-81 | a complete first line contributes its trimmed text, unless blank, ahead of the rest of the stream |
| Commands.Dispatch | TCP/TCPServer.cs:108-112 | a message gets a reply exactly when it starts with COMMAND: |
| Commands.IsCommand | TCP/TCPServer.cs:108 | the ordinal StartsWith("COMMAND:"); stated by Commands.CommandRoundTrip and Commands.Dispatch |
| Commands.CommandBody | TCP/TCPServer.cs:110 | Substring(8).Trim(); stated by Commands.CommandRoundTrip and Commands.CommandBodyShape |
| Commands.HandleCommand | TCP/TCPServer.cs:115-130 | the switch on the upper-cased body; stated by Commands.ReplyKinds, Commands.KnownCommandsIgnoreCase, Commands.ClientsReplyReportsCount and Commands.UnknownCommandEchoed |
| Commands.CommandRoundTrip | TCP/TCPServer.cs:108-110 | "COMMAND:" + rest is a command whose body is Trim(rest) |
| Commands.CommandBodyShape | TCP/TCPServer.cs:110 | a command body is trimmed, and newline-free when the message is |
| Commands.KnownCommandsIgnoreCase | TCP/TCPServer.cs:117-125 | two spellings of a known command that upper-case alike get the same reply |
| Commands.ClientsReplyReportsCount | TCP/TCPServer.cs:122-124 | the GET_CLIENTS reply is CLIENTS: followed by digits that read back as the client count |
| Commands.UnknownCommandEchoed | TCP/TCPServer.cs:126-127 | any other body gets UNKNOWN_COMMAND: followed by the body as received, not upper-cased |
| Commands.ReplyKinds | TCP/TCPServer.cs:115-130 | STATUS:OK, a CLIENTS: reply and an UNKNOWN_COMMAND: reply each come from exactly their own case of the switch |
| Commands.ReplyIsMessage | TCP/TCPServer.cs:115-130 | a trimmed, newline-free body gets a reply that is itself a framed message |
| Commands.OneLineReadsBack | TCP/TCPServer.cs:140 | a framed message written as message + "\n" is read back by a peer as exactly that message |
| Commands.ReplyIsOneLine | TCP/TCPServer.cs:115-130 | every reply to a well-formed body reaches a peer as exactly one message |
| Commands.CommandReplyIsOneLine | TCP/TCPServer.cs:108-130 | a framed command message gets a reply that is one framed line |
| Commands.ToUpperWithoutLowerCase | TCP/TCPServer.cs:117 | upper-casing leaves a string without 'a'..'z' unchanged |
| Commands.StatusExample | TCP/TCPServer.cs:119-120 | COMMAND:GET_STATUS is answered STATUS:OK |
| Commands.ClientsExample | TCP/TCPServer.cs:122-124 | COMMAND:GET_CLIENTS with three listed clients is answered CLIENTS:3 |
| Commands.UnknownExample | TCP/TCPServer.cs:126-127 | COMMAND:Foo is answered UNKNOWN_COMMAND:Foo |
| Commands.PlainMessageExample | TCP/TCPServer.cs:108 | a message without the prefix gets no reply |
| Tcp.ClientIdOf | TCP/TCPServer.cs:51 | the "address:port" identity, whose port text is stated by Text.NatToString and Text.NatToStringInjective |
| Tcp.DeliveriesSpec | TCP/TCPServer.cs:135-148 | one send makes exactly one write attempt per listed client, in list order, each carrying message + "\n" |
| Tcp.Deliveries | TCP/TCPServer.cs:135-148 | the write attempts of one send; stated by Tcp.DeliveriesSpec and Tcp.FailuresDoNotStopDelivery |
| Tcp.FailuresDoNotStopDelivery | TCP/TCPServer.cs:137-147 | whatever the write outcomes, the same clients get the same data in the same order. Exactly the writes the oracle lets through are delivered. |
| Tcp.ProcessTraceOrder | TCP/TCPServer.cs:99-113 | a message is logged, then relayed, before any reply. A non-command gets nothing more; a command's reply is written to every listed client. |
| Tcp.ProcessTrace | TCP/TCPServer.cs:99-113 | the events one framed message causes; stated by Tcp.ProcessTraceOrder and Tcp.ProcessTraceRelays |
| Tcp.ProcessTraceRelays | TCP/TCPServer.cs:105 | processing one message relays exactly that message |
| Tcp.SessionRelaysEveryMessage | TCP/TCPServer.cs:75-82 | every framed message of a session is relayed once, in the order read |
| Tcp.Received | TCP/TCPServer.cs:63-68 | the non-empty reads before the first zero-length read or exception; tied to the processed messages by Tcp.TcpServer.ReadLoop |
| Tcp.FaultOf | TCP/TCPServer.cs:87-89 | the exception that ended the read loop, if any; tied to the error log by Tcp.TcpServer.HandleClient |
| Tcp.RemoveFirst | TCP/TCPServer.cs:93 | List.Remove; stated by Tcp.RemoveFirstSpec, Tcp.RemoveFirstAbsent, Tcp.RemoveFirstMultiset and Tcp.RemoveFirstKeepsPrefix |
| Tcp.RemoveFirstAbsent | TCP/TCPServer.cs:93 | removing a client that is not listed changes nothing |
| Tcp.RemoveFirstMultiset | TCP/TCPServer.cs:93 | removing takes out one occurrence, if any, and nothing else |
| Tcp.RemoveFirstSpec | TCP/TCPServer.cs:93 | a listed client is removed once, so the count drops by one; an unlisted one is a no-op |
| Tcp.RemoveFirstKeepsPrefix | TCP/TCPServer.cs:93 | the occurrence removed is the first, and the entries before it stay in place |
| Tcp.AcceptThenRemove | TCP/TCPServer.cs:52-93 | accept followed by exit gives the list back when the client was new to it |
| Tcp.SessionKeepsList | TCP/TCPServer.cs:52-93 | a whole session leaves the count and the multiset of listed clients as they were |
| Tcp.TcpServer.constructor | TCP/TCPServer.cs:18 | the list starts empty and nothing has been sent |
| Tcp.TcpServer.ConnectedCount | TCP/TCPServer.cs:186 | the count is the length of the list, duplicates included |
| Tcp.TcpServer.SendToTcpClient | TCP/TCPServer.cs:132-149 | the list is unchanged, and the trace grows by one attempted write of message + "\n" per listed client, in order, whatever clientId is |
| Tcp.TcpServer.BroadcastToTcpClients | TCP/TCPServer.cs:151-154 | broadcasting is the same fan-out |
| Tcp.TcpServer.AnswerCommand | TCP/TCPServer.cs:115-130 | the switch's reply, computed with the current count, is sent to every listed client |
| Tcp.TcpServer.ProcessMessage | TCP/TCPServer.cs:99-113 | the trace grows by the log, the relay and, for a command, the reply's fan-out |
| Tcp.TcpServer.ProcessLine | TCP/TCPServer.cs:77-81 | one complete line is trimmed and processed unless blank |
| Tcp.TcpServer.ProcessLines | TCP/TCPServer.cs:75-82 | the complete lines of one read are processed in order, one per non-blank line |
| Tcp.TcpServer.ReadChunk | TCP/TCPServer.cs:70-83 | after a non-empty read, the processed messages and the buffer are those of feeding everything read so far |
| Tcp.TcpServer.ReadLoop | TCP/TCPServer.cs:63-90 | the loop processes the messages of all text read up to a zero-length read, a fault or the end of the reads, and reports the fault |
| Tcp.TcpServer.HandleClient | TCP/TCPServer.cs:49-97 | the client is listed, every framed message of the connection is processed, and the connect, error and disconnect logs are sent. On every exit path the client's first occurrence is removed. |
| Hubs.Filter | Hubs/MonitoringHub.cs:139-143 | the two Where clauses; stated by Hubs.FilterSpec |
| Hubs.FilterSpec | Hubs/MonitoringHub.cs:139-143 | an entry passes the filter exactly when it is listed and within the optional inclusive bounds. Each kept entry is kept as often as it is listed. |
| Hubs.InsertSpec | Hubs/MonitoringHub.cs:145 | inserting into a newest-first sequence keeps it newest first and adds exactly that entry |
| Hubs.SortDescSpec | Hubs/MonitoringHub.cs:145 | the sort is newest first and a permutation |
| Hubs.SortDesc | Hubs/MonitoringHub.cs:145 | OrderByDescending(x => x.ServerTime); stated by Hubs.SortDescSpec |
| Hubs.Take | Hubs/MonitoringHub.cs:145 | Take(1000); its length is stated by Hubs.HistoryBounded |
| Hubs.History | Hubs/MonitoringHub.cs:135-146 | the whole query; stated by Hubs.HistoryBounded, Hubs.HistoryInRange, Hubs.HistorySorted, Hubs.HistoryComplete and Hubs.HistoryKeepsNewest |
| Hubs.HistoryBounded | Hubs/MonitoringHub.cs:145 | at most 1000 entries are returned: every match when at most 1000 match, and exactly 1000 otherwise |
| Hubs.HistoryInRange | Hubs/MonitoringHub.cs:139-145 | only listed entries within the bounds are returned, none more often than it matches |
| Hubs.HistorySorted | Hubs/MonitoringHub.cs:145 | the result is ordered by ServerTime non-increasing |
| Hubs.HistoryComplete | Hubs/MonitoringHub.cs:139-145 | when at most 1000 entries match, the result holds exactly the matching entries as a multiset |
| Hubs.HistoryKeepsNewest | Hubs/MonitoringHub.cs:145 | when more match, every matching entry left out is no newer than every one returned |
| Hubs.ValuesCount | Hubs/MonitoringHub.cs:131 | ClientInfo values filed under their own connection ids are all distinct |
| Hubs.MonitoringHub.constructor | Hubs/MonitoringHub.cs:10-13 | the three tables start empty |
| Hubs.MonitoringHub.SendLog | Hubs/MonitoringHub.cs:46-61 | a parsable timestamp appends exactly one entry with the given client id, level, message, source time and server time, leaving earlier entries as they were. An unparsable one logs nothing. The table invariant is kept. |
| Hubs.MonitoringHub.SendMetrics | Hubs/MonitoringHub.cs:64-71 | the client's metrics are set, overwriting any earlier value, and every other key is unchanged; GetAllMetrics then reports the new value for that client and the old ones for the rest |
| Hubs.MonitoringHub.AllMetrics | Hubs/MonitoringHub.cs:74-77 | the copy has the table's keys and values |
| Hubs.MonitoringHub.OnConnected | Hubs/MonitoringHub.cs:91-114 | a non-empty client id maps the connection id to a ClientInfo with that client id, replacing any earlier entry; an empty one changes nothing. The table invariant is kept. |
| Hubs.MonitoringHub.OnDisconnected | Hubs/MonitoringHub.cs:117-126 | a registered connection is removed together with the metrics of its client id; an unknown one leaves both tables unchanged |
| Hubs.MonitoringHub.ConnectedClients | Hubs/MonitoringHub.cs:129-132 | exactly the registered ClientInfo values, one per connection, each with a non-empty client id |
| Hubs.MonitoringHub.LogHistory | Hubs/MonitoringHub.cs:135-146 | at most 1000 listed entries within the bounds, newest first: all matches, as a multiset, when at most 1000 match, and exactly 1000 otherwise |

## Left out

- Socket I/O is not modelled:
  - accept, `ReadAsync`, `WriteAsync`/`FlushAsync` and closing clients become inputs;
  - reads are a sequence of `Data`/`Fault` events;
  - write outcomes are an oracle;
  - `tcpClient.Connected` going false is the end of the event sequence.
- `StartAsync`, `StopAsync`, `IsRunning` and the accept loop are not modelled. They start and stop the listener and close sockets, which is I/O.
- Async/await, the fire-and-forget handler tasks, `CancellationToken` and the unsynchronised concurrent access to `_connectedClients` are not modelled. The model is sequential, one connection at a time. A cancelled read surfaces as a `Fault`.
- UTF-8 decoding is not modelled. Text is a sequence of characters. The source decodes each read on its own, which loses a multi-byte character split across reads; the chunking laws hold at the character level only.
- `LogToHubAsync` and every SignalR `SendAsync` are not performed. The server's are recorded as `HubLog`/`HubRelay` events; the hub's broadcasts and caller pushes are dropped.
- An exception thrown by the `ReceiveTCPMessage` send in `ProcessMessageAsync` is not modelled. In the source it would end the connection's read loop.
- `DateTime.Now` and `DateTime.Parse` are not modelled. Times are integer parameters, and a failed parse is `None`. The two `DateTime.Now` reads in `OnConnectedAsync` are two parameters.
- The `double` fields of `SystemMetrics`/`NetworkStats` are not modelled. Metrics are a type parameter.
- Text.ToUpper: ASCII upper-casing only. It does not model culture-sensitive `ToUpper`, which also maps characters such as 'ı' and 'ſ' to ASCII letters.
- Text.IsWhiteSpace: models the fixed `Char.IsWhiteSpace` set, not a Unicode database.
- Commands.IsCommand: ordinal comparison. It does not model the culture-sensitive `StartsWith`.
- The `clientId` query value is one string, empty when absent. It does not model several values joined by commas.
- Hubs.SortDesc: ties are kept in list order by construction, but no lemma states stability.
- Hubs.MonitoringHub.ConnectedClients: returns a set. The list order of `Values.ToList()` is unspecified in the source; `Hubs.ValuesCount` shows the set has as many elements as the list.
- `TcpClient` reference identity is not modelled. `ClientHandle` carries an accept serial instead, so value equality stands in for it.
- The hub's static tables are modelled as one object shared by all hub instances.
- `SendMessageToTCPClients`, `GetTCPStatus`, `SendCommandToTCPClient` and `RequestAllMetrics` are not modelled, nor are `Hubs/ChatHub.cs` and `Program.cs`. These are the hub's pass-through calls and host wiring, outside this model.

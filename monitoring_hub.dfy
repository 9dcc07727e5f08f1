/** The in-memory tables of the monitoring hub (Hubs/MonitoringHub.cs): the
    connection -> ClientInfo table, the append-only log list, the
    clientId -> metrics table, and the log-history query over the list.
    Times are integers (ticks); a metrics payload is any value of type M. */
module Hubs {
  import opened Options

  datatype ClientInfo = ClientInfo(connectionId: string, clientId: string, connectedTime: int, lastActivity: int)

  datatype LogEntry = LogEntry(clientId: string, logLevel: string, message: string, timestamp: int, serverTime: int)

  /** GetLogHistory returns at most this many entries. */
  const MaxHistory: nat := 1000

  /** The optional inclusive bounds on ServerTime. */
  predicate InRange(e: LogEntry, from: Option<int>, to: Option<int>) {
    (from.None? || e.serverTime >= from.value) && (to.None? || e.serverTime <= to.value)
  }

  /** The two Where clauses: the entries in range, in list order. */
  function Filter(entries: seq<LogEntry>, from: Option<int>, to: Option<int>): seq<LogEntry>
  {
    if entries == [] then []
    else if InRange(entries[0], from, to) then [entries[0]] + Filter(entries[1..], from, to)
    else Filter(entries[1..], from, to)
  }

  /** An entry is kept exactly when it is in the list and in range, and
      nothing is kept more often than it is listed. */
  lemma {:induction false} FilterSpec(entries: seq<LogEntry>, from: Option<int>, to: Option<int>)
    ensures forall e :: e in Filter(entries, from, to) <==> e in entries && InRange(e, from, to)
    ensures multiset(Filter(entries, from, to)) <= multiset(entries)
    ensures forall e :: InRange(e, from, to) ==>
              multiset(Filter(entries, from, to))[e] == multiset(entries)[e]
  {
    if entries != [] {
      FilterSpec(entries[1..], from, to);
      assert entries == [entries[0]] + entries[1..];
    }
  }

  /** Newest first: ServerTime never increases along the sequence. */
  predicate SortedDesc(s: seq<LogEntry>) {
    forall i, j :: 0 <= i < j < |s| ==> s[i].serverTime >= s[j].serverTime
  }

  /** Places e in front of the first entry that is strictly older, so an
      entry with the same ServerTime as e that was already there stays in
      front of it. */
  function Insert(e: LogEntry, s: seq<LogEntry>): seq<LogEntry>
  {
    if s == [] || e.serverTime >= s[0].serverTime then [e] + s
    else [s[0]] + Insert(e, s[1..])
  }

  lemma {:induction false} InsertMultiset(e: LogEntry, s: seq<LogEntry>)
    ensures multiset(Insert(e, s)) == multiset(s) + multiset{e}
  {
    if s != [] && e.serverTime < s[0].serverTime {
      InsertMultiset(e, s[1..]);
      assert s == [s[0]] + s[1..];
    }
  }

  /** Everything in Insert(e, s) is e or an entry of s. */
  lemma {:induction false} InsertMembers(e: LogEntry, s: seq<LogEntry>)
    ensures forall x :: x in Insert(e, s) ==> x == e || x in s
  {
    InsertMultiset(e, s);
    forall x | x in Insert(e, s) ensures x == e || x in s {
      assert x in multiset(Insert(e, s));
    }
  }

  lemma {:induction false} SortedTail(s: seq<LogEntry>)
    requires s != [] && SortedDesc(s)
    ensures SortedDesc(s[1..])
    ensures forall x :: x in s[1..] ==> x.serverTime <= s[0].serverTime
  {
    var tail := s[1..];
    forall i, j | 0 <= i < j < |tail| ensures tail[i].serverTime >= tail[j].serverTime {
      assert tail[i] == s[i + 1] && tail[j] == s[j + 1];
    }
  }

  /** A head no older than everything after it keeps a sorted tail sorted. */
  lemma {:induction false} SortedCons(x: LogEntry, r: seq<LogEntry>)
    requires SortedDesc(r)
    requires forall y :: y in r ==> y.serverTime <= x.serverTime
    ensures SortedDesc([x] + r)
  {
    var t := [x] + r;
    forall i, j | 0 <= i < j < |t| ensures t[i].serverTime >= t[j].serverTime {
      assert t[j] == r[j - 1];
      if i > 0 {
        assert t[i] == r[i - 1];
      }
    }
  }

  lemma {:induction false} InsertSorted(e: LogEntry, s: seq<LogEntry>)
    requires SortedDesc(s)
    ensures SortedDesc(Insert(e, s))
  {
    if s == [] || e.serverTime >= s[0].serverTime {
      if s != [] {
        SortedTail(s);
        assert forall y :: y in s ==> y == s[0] || y in s[1..];
      }
      SortedCons(e, s);
    } else {
      SortedTail(s);
      InsertSorted(e, s[1..]);
      InsertMembers(e, s[1..]);
      SortedCons(s[0], Insert(e, s[1..]));
    }
  }

  lemma {:induction false} InsertSpec(e: LogEntry, s: seq<LogEntry>)
    requires SortedDesc(s)
    ensures SortedDesc(Insert(e, s))
    ensures multiset(Insert(e, s)) == multiset(s) + multiset{e}
  {
    InsertSorted(e, s);
    InsertMultiset(e, s);
  }

  /** LINQ OrderByDescending(x => x.ServerTime): a stable insertion sort. */
  function SortDesc(s: seq<LogEntry>): seq<LogEntry>
  {
    if s == [] then [] else Insert(s[0], SortDesc(s[1..]))
  }

  /** The sort orders newest first and is a permutation. */
  lemma {:induction false} SortDescSpec(s: seq<LogEntry>)
    ensures SortedDesc(SortDesc(s))
    ensures multiset(SortDesc(s)) == multiset(s)
  {
    if s != [] {
      SortDescSpec(s[1..]);
      InsertSpec(s[0], SortDesc(s[1..]));
      assert s == [s[0]] + s[1..];
    }
  }

  /** Take(n). */
  function Take(s: seq<LogEntry>, n: nat): seq<LogEntry>
  {
    if |s| <= n then s else s[..n]
  }

  /** GetLogHistory over the log list: filter, newest first, at most
      MaxHistory entries. */
  function History(entries: seq<LogEntry>, from: Option<int>, to: Option<int>): seq<LogEntry>
  {
    Take(SortDesc(Filter(entries, from, to)), MaxHistory)
  }

  /** The query returns at most MaxHistory entries: every match when there
      are no more than that, and exactly MaxHistory otherwise. */
  lemma {:induction false} HistoryBounded(entries: seq<LogEntry>, from: Option<int>, to: Option<int>)
    ensures |History(entries, from, to)| <= MaxHistory
    ensures |History(entries, from, to)| ==
            if |Filter(entries, from, to)| <= MaxHistory then |Filter(entries, from, to)| else MaxHistory
  {
    var f := Filter(entries, from, to);
    SortDescSpec(f);
    assert |multiset(SortDesc(f))| == |multiset(f)|;
  }

  /** A prefix holds nothing its sequence does not. */
  lemma {:induction false} TakeSub(s: seq<LogEntry>, n: nat)
    ensures multiset(Take(s, n)) <= multiset(s)
    ensures forall e :: e in Take(s, n) ==> e in s
  {
    if |s| > n {
      assert s == s[..n] + s[n..];
    }
  }

  /** Only entries of the list that are in range are returned, and none more
      often than it is listed. */
  lemma {:induction false} HistoryInRange(entries: seq<LogEntry>, from: Option<int>, to: Option<int>)
    ensures forall e :: e in History(entries, from, to) ==> e in entries && InRange(e, from, to)
    ensures multiset(History(entries, from, to)) <= multiset(Filter(entries, from, to))
  {
    var f := Filter(entries, from, to);
    var s := SortDesc(f);
    FilterSpec(entries, from, to);
    SortDescSpec(f);
    TakeSub(s, MaxHistory);
    forall e | e in s ensures e in f {
      assert e in multiset(s);
    }
  }

  /** The result is newest first. */
  lemma {:induction false} HistorySorted(entries: seq<LogEntry>, from: Option<int>, to: Option<int>)
    ensures SortedDesc(History(entries, from, to))
  {
    SortDescSpec(Filter(entries, from, to));
  }

  /** When no more than MaxHistory entries match, all of them are returned,
      each as often as it is listed. */
  lemma {:induction false} HistoryComplete(entries: seq<LogEntry>, from: Option<int>, to: Option<int>)
    requires |Filter(entries, from, to)| <= MaxHistory
    ensures multiset(History(entries, from, to)) == multiset(Filter(entries, from, to))
  {
    SortDescSpec(Filter(entries, from, to));
  }

  /** In a newest-first sequence, what comes after position n is no newer
      than what comes before it. */
  lemma {:induction false} SortedSplit(s: seq<LogEntry>, n: nat)
    requires SortedDesc(s) && n <= |s|
    ensures forall e, f :: e in s[n..] && f in s[..n] ==> e.serverTime <= f.serverTime
  {
    forall e, f | e in s[n..] && f in s[..n] ensures e.serverTime <= f.serverTime {
      var i :| 0 <= i < n && s[..n][i] == f;
      var j :| 0 <= j < |s| - n && s[n..][j] == e;
      assert s[i] == f && s[n + j] == e;
    }
  }

  lemma {:induction false} MultisetOfAppend(a: seq<LogEntry>, b: seq<LogEntry>)
    ensures multiset(a + b) - multiset(a) == multiset(b)
    ensures forall x :: x in multiset(b) ==> x in b
  {
  }

  /** When more match, the ones left out are no newer than any returned. */
  lemma {:induction false} HistoryKeepsNewest(entries: seq<LogEntry>, from: Option<int>, to: Option<int>)
    ensures forall e, f ::
              (e in multiset(Filter(entries, from, to)) - multiset(History(entries, from, to))
               && f in History(entries, from, to)) ==> e.serverTime <= f.serverTime
  {
    var fl := Filter(entries, from, to);
    var s := SortDesc(fl);
    SortDescSpec(fl);
    var r := History(entries, from, to);
    if |s| > MaxHistory {
      var rest := s[MaxHistory..];
      assert s == r + rest;
      MultisetOfAppend(r, rest);
      SortedSplit(s, MaxHistory);
    }
  }

  /** The hub's three static tables, kept as one object. */
  class MonitoringHub<M> {
    var connections: map<string, ClientInfo>
    var logEntries: seq<LogEntry>
    var metrics: map<string, M>

    /** Every registered ClientInfo sits under its own connection id and
        carries a non-empty client id. */
    ghost predicate Valid()
      reads this
    {
      forall id :: id in connections ==> connections[id].connectionId == id && connections[id].clientId != ""
    }

    constructor ()
      ensures Valid()
      ensures connections == map[] && logEntries == [] && metrics == map[]
    {
      connections := map[];
      logEntries := [];
      metrics := map[];
    }

    /** SendLog: the source timestamp is the result of DateTime.Parse (None
        when it throws, and then nothing is logged); now is DateTime.Now. */
    method SendLog(clientId: string, logLevel: string, message: string, timestamp: Option<int>, now: int)
      returns (accepted: bool)
      requires Valid()
      modifies this
      ensures Valid()
      ensures accepted <==> timestamp.Some?
      ensures logEntries == if accepted then old(logEntries) + [LogEntry(clientId, logLevel, message, timestamp.value, now)]
                            else old(logEntries)
      ensures connections == old(connections) && metrics == old(metrics)
    {
      accepted := timestamp.Some?;
      if accepted {
        logEntries := logEntries + [LogEntry(clientId, logLevel, message, timestamp.value, now)];
      }
    }

    /** SendMetrics: the latest metrics of clientId replace any earlier ones. */
    method SendMetrics(clientId: string, payload: M)
      requires Valid()
      modifies this
      ensures Valid()
      ensures metrics == old(metrics)[clientId := payload]
      ensures clientId in AllMetrics() && AllMetrics()[clientId] == payload
      ensures forall id :: id != clientId ==> (id in AllMetrics() <==> id in old(AllMetrics()))
      ensures forall id :: id != clientId && id in old(AllMetrics()) ==> AllMetrics()[id] == old(AllMetrics())[id]
      ensures connections == old(connections) && logEntries == old(logEntries)
    {
      metrics := metrics[clientId := payload];
    }

    /** GetAllMetrics: a copy of the metrics table. */
    function AllMetrics(): (r: map<string, M>)
      reads this
      ensures r.Keys == metrics.Keys
      ensures forall id :: id in r ==> r[id] == metrics[id]
    {
      map id | id in metrics :: metrics[id]
    }

    /** OnConnectedAsync: a connection whose clientId query value is
        non-empty is registered (replacing any entry under the same
        connection id); otherwise nothing changes. */
    method OnConnected(connectionId: string, clientId: string, connectedTime: int, lastActivity: int)
      requires Valid()
      modifies this
      ensures Valid()
      ensures connections == if clientId != "" then old(connections)[connectionId := ClientInfo(connectionId, clientId, connectedTime, lastActivity)]
                             else old(connections)
      ensures logEntries == old(logEntries) && metrics == old(metrics)
    {
      if clientId != "" {
        connections := connections[connectionId := ClientInfo(connectionId, clientId, connectedTime, lastActivity)];
      }
    }

    /** OnDisconnectedAsync: a registered connection is removed together with
        the metrics of its client id; an unknown one changes nothing. */
    method OnDisconnected(connectionId: string)
      requires Valid()
      modifies this
      ensures Valid()
      ensures connectionId in old(connections) ==>
                connections == old(connections) - {connectionId}
                && metrics == old(metrics) - {old(connections)[connectionId].clientId}
      ensures connectionId !in old(connections) ==> connections == old(connections) && metrics == old(metrics)
      ensures logEntries == old(logEntries)
    {
      if connectionId in connections {
        var info := connections[connectionId];
        connections := connections - {connectionId};
        metrics := metrics - {info.clientId};
      }
    }

    /** GetConnectedClients: the registered ClientInfo values, one per
        registered connection, each with a non-empty client id. */
    function ConnectedClients(): (r: set<ClientInfo>)
      requires Valid()
      reads this
      ensures |r| == |connections|
      ensures forall info :: info in r <==> info.connectionId in connections && connections[info.connectionId] == info
      ensures forall info :: info in r ==> info.clientId != ""
    {
      ValuesCount(connections);
      connections.Values
    }

    /** GetLogHistory over the current log: at most MaxHistory listed
        entries within the bounds, newest first; all matches when there are
        no more than MaxHistory, and exactly MaxHistory otherwise. */
    function LogHistory(from: Option<int>, to: Option<int>): (r: seq<LogEntry>)
      reads this
      ensures |r| <= MaxHistory
      ensures |r| == if |Filter(logEntries, from, to)| <= MaxHistory then |Filter(logEntries, from, to)| else MaxHistory
      ensures SortedDesc(r)
      ensures forall e :: e in r ==> e in logEntries && InRange(e, from, to)
      ensures |Filter(logEntries, from, to)| <= MaxHistory ==> multiset(r) == multiset(Filter(logEntries, from, to))
    {
      HistoryBounded(logEntries, from, to);
      HistoryInRange(logEntries, from, to);
      HistorySorted(logEntries, from, to);
      if |Filter(logEntries, from, to)| <= MaxHistory then
        HistoryComplete(logEntries, from, to);
        History(logEntries, from, to)
      else
        History(logEntries, from, to)
    }
  }

  /** Distinct connection ids hold distinct ClientInfo values, so the list
      GetConnectedClients builds has one element per registered connection. */
  lemma {:induction false} ValuesCount(m: map<string, ClientInfo>)
    requires forall id :: id in m ==> m[id].connectionId == id
    ensures |m.Values| == |m|
    decreases |m|
  {
    if m != map[] {
      var id :| id in m;
      var rest := m - {id};
      ValuesCount(rest);
      forall v ensures v in m.Values <==> v in rest.Values || v == m[id] {
        if v in m.Values {
          var k :| k in m && m[k] == v;
          if k != id {
            assert rest[k] == v;
          }
        }
        if v in rest.Values {
          var k :| k in rest && rest[k] == v;
          assert m[k] == v;
        }
      }
      assert m.Values == rest.Values + {m[id]};
      assert m[id] !in rest.Values;
    }
  }
}

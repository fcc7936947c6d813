/** Queries (consumer.c): flat condition lists become nested ones, and the job ids anywhere in the
    conditions decide which server is asked. */
module Consumer {
  import opened CText
  import opened CJobId

  /** A condition: on the job id, or on some other attribute. */
  datatype QueryRec = OnJobId(op: int, job: JobId) | OnOther(attr: int, op: int, value: string)

  // ---------- Meaning ----------

  /** A flat list is a conjunction. */
  predicate FlatHolds(holds: QueryRec -> bool, conds: seq<QueryRec>) {
    forall i :: 0 <= i < |conds| ==> holds(conds[i])
  }

  predicate RowHolds(holds: QueryRec -> bool, row: seq<QueryRec>) {
    exists i :: 0 <= i < |row| && holds(row[i])
  }

  /** A nested list is a conjunction of disjunctions (consumer.h:78-84). */
  predicate NestedHolds(holds: QueryRec -> bool, rows: seq<seq<QueryRec>>) {
    forall j :: 0 <= j < |rows| ==> RowHolds(holds, rows[j])
  }

  /** The lowering of edg_wll_QueryJobs and edg_wll_QueryEvents, for one list. */
  method Wrap(conds: seq<QueryRec>) returns (rows: seq<seq<QueryRec>>)
    ensures |rows| == |conds|
    ensures forall holds: QueryRec -> bool :: NestedHolds(holds, rows) <==> FlatHolds(holds, conds)
    ensures Servers(rows) == RowServers(conds)
  {
    rows := [];
    while |rows| < |conds|
      invariant |rows| <= |conds|
      invariant forall i :: 0 <= i < |rows| ==> rows[i] == [conds[i]]
    {
      rows := rows + [[conds[|rows|]]];
    }
    forall holds: QueryRec -> bool
      ensures NestedHolds(holds, rows) <==> FlatHolds(holds, conds)
    {
      SingletonRows(holds, conds, rows);
    }
    forall i | 0 <= i < |conds| && conds[i].OnJobId? ensures ServerOf(conds[i].job) in Servers(rows) {
      assert rows[i][0] == conds[i];
    }
  }

  lemma {:induction false} SingletonRows(holds: QueryRec -> bool, conds: seq<QueryRec>, rows: seq<seq<QueryRec>>)
    requires |rows| == |conds| && forall i :: 0 <= i < |conds| ==> rows[i] == [conds[i]]
    ensures NestedHolds(holds, rows) <==> FlatHolds(holds, conds)
  {
    forall i | 0 <= i < |conds| ensures RowHolds(holds, rows[i]) <==> holds(conds[i]) {
      assert rows[i][0] == conds[i];
    }
  }

  // ---------- Routing ----------

  datatype Server = Server(name: CString, port: Port)

  function ServerOf(j: JobId): Server {
    Server(j.host, EffectivePort(j.port))
  }

  /** The servers of the job ids in one list. */
  function RowServers(row: seq<QueryRec>): set<Server> {
    set i | 0 <= i < |row| && row[i].OnJobId? :: ServerOf(row[i].job)
  }

  /** The servers of all job ids in a nested list. */
  function Servers(rows: seq<seq<QueryRec>>): set<Server> {
    set j, i | 0 <= j < |rows| && 0 <= i < |rows[j]| && rows[j][i].OnJobId? :: ServerOf(rows[j][i].job)
  }

  // ---------- The same by host and port ----------

  /** The job id stands in some condition of the nested list. */
  ghost predicate Asked(rows: seq<seq<QueryRec>>, a: JobId) {
    exists j, i :: 0 <= j < |rows| && 0 <= i < |rows[j]| && rows[j][i].OnJobId? && rows[j][i].job == a
  }

  /** Every job id in the list has this host and this port, where 0 stands for 9000. */
  ghost predicate AllOn(rows: seq<seq<QueryRec>>, host: CString, port: Port) {
    forall a :: Asked(rows, a) ==> a.host == host && port == if a.port == 0 then 9000 else a.port
  }

  ghost predicate SomeJobId(rows: seq<seq<QueryRec>>) {
    exists a :: Asked(rows, a)
  }

  // Two job ids on different hosts, or on different ports
  predicate Differ(a: JobId, b: JobId) {
    a.host != b.host || (if a.port == 0 then 9000 else a.port) != (if b.port == 0 then 9000 else b.port)
  }

  ghost predicate SomeDiffer(rows: seq<seq<QueryRec>>) {
    exists a, b :: Asked(rows, a) && Asked(rows, b) && Differ(a, b)
  }

  lemma {:induction false} AskedIsServed(rows: seq<seq<QueryRec>>, a: JobId)
    requires Asked(rows, a)
    ensures ServerOf(a) in Servers(rows)
  {
    var j, i :| 0 <= j < |rows| && 0 <= i < |rows[j]| && rows[j][i].OnJobId? && rows[j][i].job == a;
    assert ServerOf(rows[j][i].job) == ServerOf(a);
  }

  lemma {:induction false} ServedIsAsked(rows: seq<seq<QueryRec>>, s: Server) returns (a: JobId)
    requires s in Servers(rows)
    ensures Asked(rows, a) && ServerOf(a) == s
  {
    var j, i :| 0 <= j < |rows| && 0 <= i < |rows[j]| && rows[j][i].OnJobId? && ServerOf(rows[j][i].job) == s;
    a := rows[j][i].job;
  }

  lemma {:induction false} AllOnOne(rows: seq<seq<QueryRec>>, host: CString, port: Port)
    requires AllOn(rows, host, port) && SomeJobId(rows)
    ensures Servers(rows) == {Server(host, port)}
  {
    var a :| Asked(rows, a);
    AskedIsServed(rows, a);
    forall s | s in Servers(rows) ensures s == Server(host, port) {
      var b := ServedIsAsked(rows, s);
    }
  }

  lemma {:induction false} DifferIsTwo(rows: seq<seq<QueryRec>>)
    ensures SomeDiffer(rows) <==> Summary(Two, Servers(rows))
  {
    if SomeDiffer(rows) {
      var a, b :| Asked(rows, a) && Asked(rows, b) && Differ(a, b);
      AskedIsServed(rows, a);
      AskedIsServed(rows, b);
      assert ServerOf(a) != ServerOf(b);
    }
    if Summary(Two, Servers(rows)) {
      var s, t :| s in Servers(rows) && t in Servers(rows) && s != t;
      var a := ServedIsAsked(rows, s);
      var b := ServedIsAsked(rows, t);
      assert Differ(a, b);
    }
  }

  lemma {:induction false} NoneIsEmpty(rows: seq<seq<QueryRec>>)
    ensures SomeJobId(rows) <==> Servers(rows) != {}
  {
    if SomeJobId(rows) {
      var a :| Asked(rows, a);
      AskedIsServed(rows, a);
    }
    if s :| s in Servers(rows) {
      var a := ServedIsAsked(rows, s);
    }
  }

  lemma {:induction false} OneIsAllOn(rows: seq<seq<QueryRec>>, s: Server)
    requires Servers(rows) == {s}
    ensures AllOn(rows, s.name, s.port)
  {
    forall a | Asked(rows, a) ensures ServerOf(a) == s {
      AskedIsServed(rows, a);
    }
  }

  datatype Route = NoServer | One(server: Server) | Two

  /** What the job ids say about the server to ask. */
  ghost predicate Summary(r: Route, seen: set<Server>) {
    match r
    case NoServer => seen == {}
    case One(s) => seen == {s}
    case Two => exists s, t :: s in seen && t in seen && s != t
  }

  // One more job id
  function Noticed(r: Route, s: Server): Route {
    match r
    case NoServer => One(s)
    case One(t) => if s == t then r else Two
    case Two => Two
  }

  lemma {:induction false} NoticedIs(r: Route, seen: set<Server>, s: Server)
    requires Summary(r, seen)
    ensures Summary(Noticed(r, s), seen + {s})
  {
    if r.One? && r.server != s {
      assert r.server in seen + {s} && s in seen + {s};
    }
  }

  lemma {:induction false} RowNext(row: seq<QueryRec>, i: nat)
    requires i < |row|
    ensures RowServers(row[..i + 1]) == RowServers(row[..i]) + (if row[i].OnJobId? then {ServerOf(row[i].job)} else {})
  {
    var a, b := row[..i], row[..i + 1];
    forall s | s in RowServers(a) ensures s in RowServers(b) {
      var k :| 0 <= k < |a| && a[k].OnJobId? && ServerOf(a[k].job) == s;
      assert b[k] == a[k];
    }
    assert b[i] == row[i];
    assert forall k :: 0 <= k < i ==> b[k] == a[k];
  }

  lemma {:induction false} RowsNext(rows: seq<seq<QueryRec>>, j: nat)
    requires j < |rows|
    ensures Servers(rows[..j + 1]) == Servers(rows[..j]) + RowServers(rows[j])
  {
    var a, b := rows[..j], rows[..j + 1];
    assert b[j] == rows[j];
    assert forall k :: 0 <= k < j ==> b[k] == a[k];
    forall s | s in Servers(a) ensures s in Servers(b) {
      var k, i :| 0 <= k < |a| && 0 <= i < |a[k]| && a[k][i].OnJobId? && ServerOf(a[k][i].job) == s;
      assert b[k][i] == a[k][i];
    }
    forall s | s in RowServers(rows[j]) ensures s in Servers(b) {
      var i :| 0 <= i < |rows[j]| && rows[j][i].OnJobId? && ServerOf(rows[j][i].job) == s;
      assert b[j][i] == rows[j][i];
    }
  }

  // The inner loop, which stops at a second server
  method ScanRow(row: seq<QueryRec>, before: Route, ghost seen: set<Server>) returns (r: Route)
    requires Summary(before, seen) && !before.Two?
    ensures Summary(r, seen + RowServers(row))
  {
    r := before;
    var i := 0;
    while i < |row|
      invariant i <= |row| && Summary(r, seen + RowServers(row[..i])) && !r.Two?
    {
      RowNext(row, i);
      if row[i].OnJobId? {
        NoticedIs(r, seen + RowServers(row[..i]), ServerOf(row[i].job));
        r := Noticed(r, ServerOf(row[i].job));
        if r.Two? {
          Grows(seen + RowServers(row[..i + 1]), seen + RowServers(row));
          return;
        }
      }
      i := i + 1;
      assert seen + RowServers(row[..i])
          == seen + RowServers(row[..i - 1]) + (if row[i - 1].OnJobId? then {ServerOf(row[i - 1].job)} else {});
    }
    assert row[..i] == row;
  }

  lemma {:induction false} Grows(a: set<Server>, b: set<Server>)
    requires Summary(Two, a) && a <= b
    ensures Summary(Two, b)
  {
    var s, t :| s in a && t in a && s != t;
    assert s in b && t in b;
  }

  /** The loops of set_server_name_and_port. */
  method ScanRows(rows: seq<seq<QueryRec>>) returns (r: Route)
    ensures r.Two? <==> SomeDiffer(rows)
    ensures r.NoServer? <==> !SomeJobId(rows)
    ensures r.One? ==> AllOn(rows, r.server.name, r.server.port)
    ensures Summary(r, Servers(rows))
  {
    r := Summarise(rows);
    DifferIsTwo(rows);
    NoneIsEmpty(rows);
    if r.One? {
      OneIsAllOn(rows, r.server);
    }
  }

  // The same in terms of the set of servers
  method Summarise(rows: seq<seq<QueryRec>>) returns (r: Route)
    ensures Summary(r, Servers(rows))
    ensures r.Two? <==> Summary(Two, Servers(rows))
    ensures r.NoServer? <==> Servers(rows) == {}
  {
    r := NoServer;
    var j := 0;
    while j < |rows|
      invariant j <= |rows| && Summary(r, Servers(rows[..j])) && !r.Two?
    {
      RowsNext(rows, j);
      r := ScanRow(rows[j], r, Servers(rows[..j]));
      if r.Two? {
        Grows(Servers(rows[..j + 1]), Servers(rows));
        return;
      }
      j := j + 1;
    }
    assert rows[..j] == rows;
  }

  class QueryContext {
    var srvName: Option<CString>
    var srvPort: Port
    var queryServer: Option<CString>
    var queryPort: Port
    var serverOverride: bool

    predicate KnowsServer() reads this {
      srvName.Some? && srvPort != 0
    }

    /** set_server_name_and_port; a missing list counts as an empty one. */
    method SetServer(rows: Option<seq<seq<QueryRec>>>) returns (err: int)
      modifies `srvName, `srvPort
      ensures SomeDiffer(Given(rows)) ==> err == EINVAL && srvName == old(srvName) && srvPort == old(srvPort)
      ensures forall h: CString, p: Port :: AllOn(Given(rows), h, p) && SomeJobId(Given(rows)) && !serverOverride ==>
                err == 0 && srvName == Some(h) && srvPort == p
      ensures !SomeDiffer(Given(rows)) && (!SomeJobId(Given(rows)) || serverOverride) && old(KnowsServer()) ==>
                err == 0 && srvName == old(srvName) && srvPort == old(srvPort)
      ensures !SomeDiffer(Given(rows)) && (!SomeJobId(Given(rows)) || serverOverride) && !old(KnowsServer()) ==>
                && err == (if queryServer.None? || queryPort == 0 then EINVAL else 0)
                && srvName == (if queryServer.None? then old(srvName) else queryServer)
                && srvPort == (if queryServer.None? || queryPort == 0 then old(srvPort) else queryPort)
    {
      var r := ScanRows(Given(rows));
      forall h: CString, p: Port | AllOn(Given(rows), h, p) && SomeJobId(Given(rows)) ensures r == One(Server(h, p)) {
        AllOnOne(Given(rows), h, p);
        OneSummary(r, Server(h, p));
      }
      if r.Two? {
        return EINVAL;
      }
      if r.One? && !serverOverride {
        if srvName != Some(r.server.name) || srvPort != r.server.port {
          srvName, srvPort := Some(r.server.name), r.server.port;
        }
        return 0;
      }
      if srvName.None? || srvPort == 0 {
        if queryServer.None? {
          return EINVAL;
        }
        srvName := queryServer;
        if queryPort == 0 {
          return EINVAL;
        }
        srvPort := queryPort;
      }
      return 0;
    }
  }

  function Given(rows: Option<seq<seq<QueryRec>>>): seq<seq<QueryRec>> {
    if rows.Some? then rows.value else []
  }

  lemma {:induction false} OneSummary(r: Route, s: Server)
    requires Summary(r, {s})
    ensures r == One(s)
  {
    assert s in {s};
  }
}

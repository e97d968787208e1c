/**
 The record-building and filter pass of `get_network_connections`.
 The operating system's snapshot of internet sockets is an input sequence
 of raw records; each becomes a four-column row (protocol, local address,
 remote address, status), and a row is kept when it passes the active-only,
 IP-substring and port-substring checks that are switched on.
 */
module SiteTest {
  import opened Builtins

  datatype Option<T> = None | Some(value: T)

  /** Platform codes of the two socket kinds the program names. */
  const SOCK_STREAM: int := 1
  const SOCK_DGRAM: int := 2

  /** An address as the operating system reports it: an IP text and a port. */
  datatype Addr = Addr(ip: string, port: int)

  /** One socket entry of the snapshot; an absent address is `None`. */
  datatype RawConn = RawConn(sockType: int, laddr: Option<Addr>, raddr: Option<Addr>, status: string)

  /** One output row: `[proto, laddr, raddr, status]`. */
  datatype Row = Row(proto: string, laddr: string, raddr: string, status: string)

  /** The three keyword arguments of the filter. */
  datatype FilterConfig = FilterConfig(filterIp: Option<string>, filterPort: Option<int>, showOnlyActive: bool)

  /** Protocol name from the socket kind: stream, datagram, anything else. */
  function Protocol(sockType: int): (r: string)
    ensures r == "TCP" <==> sockType == SOCK_STREAM
    ensures r == "UDP" <==> sockType == SOCK_DGRAM
    ensures r == "Other" <==> sockType != SOCK_STREAM && sockType != SOCK_DGRAM
  {
    if sockType == SOCK_STREAM then "TCP" else if sockType == SOCK_DGRAM then "UDP" else "Other"
  }

  /** `ip:port` when an address is present, the empty text otherwise. */
  function FormatAddr(a: Option<Addr>): (r: string)
    ensures r == "" <==> a.None?
  {
    match a
    case None => ""
    case Some(Addr(ip, port)) => ip + ":" + Decimal(port)
  }

  /** Index of the last `:` in `s`, if any. */
  function LastColon(s: string): (r: Option<nat>)
    ensures r.Some? ==> r.value < |s| && s[r.value] == ':'
  {
    if |s| == 0 then None
    else if s[|s| - 1] == ':' then Some(|s| - 1)
    else LastColon(s[..|s| - 1])
  }

  /** Reads an address field back: empty means absent, otherwise split at the last `:`. */
  function ParseAddr(s: string): Option<Addr> {
    if s == "" then None
    else match LastColon(s)
      case None => None
      case Some(k) => Some(Addr(s[..k], ParseDecimal(s[k + 1..])))
  }

  lemma {:induction false} LastColonAfter(p: string, t: string)
    requires ':' !in t
    ensures LastColon(p + ":" + t) == Some(|p|)
  {
    if |t| > 0 {
      var t' := t[..|t| - 1];
      assert (p + ":" + t)[..|p + ":" + t| - 1] == p + ":" + t';
      LastColonAfter(p, t');
    }
  }

  /** Address formatting loses nothing: the field text determines the address. */
  lemma FormatAddrRoundTrip(a: Option<Addr>)
    ensures ParseAddr(FormatAddr(a)) == a
  {
    if a.Some? {
      var s := FormatAddr(a);
      var d := Decimal(a.value.port);
      LastColonAfter(a.value.ip, d);
      assert s[..|a.value.ip|] == a.value.ip;
      assert s[|a.value.ip| + 1..] == d;
      DecimalRoundTrip(a.value.port);
    }
  }

  /** The row built for one raw record. */
  function BuildRow(c: RawConn): Row {
    Row(Protocol(c.sockType), FormatAddr(c.laddr), FormatAddr(c.raddr), c.status)
  }

  /** The rows of a whole snapshot, one per record, in snapshot order. */
  function Rows(conns: seq<RawConn>): (r: seq<Row>)
    ensures |r| == |conns|
    ensures forall i :: 0 <= i < |conns| ==> r[i] == BuildRow(conns[i])
  {
    seq(|conns|, i requires 0 <= i < |conns| => BuildRow(conns[i]))
  }

  /** Python truthiness: `None` and `""` switch the IP filter off. */
  predicate IpFilterOn(cfg: FilterConfig) {
    cfg.filterIp.Some? && cfg.filterIp.value != ""
  }

  /** Python truthiness: `None` and `0` switch the port filter off. */
  predicate PortFilterOn(cfg: FilterConfig) {
    cfg.filterPort.Some? && cfg.filterPort.value != 0
  }

  ghost predicate ActiveOk(cfg: FilterConfig, row: Row) {
    cfg.showOnlyActive ==> row.status == "ESTABLISHED"
  }

  ghost predicate IpOk(cfg: FilterConfig, row: Row) {
    IpFilterOn(cfg) ==> Occurs(cfg.filterIp.value, row.laddr) || Occurs(cfg.filterIp.value, row.raddr)
  }

  /** The port's decimal text must occur somewhere in either address field. */
  ghost predicate PortOk(cfg: FilterConfig, row: Row) {
    PortFilterOn(cfg) ==>
      Occurs(Decimal(cfg.filterPort.value), row.laddr) || Occurs(Decimal(cfg.filterPort.value), row.raddr)
  }

  /** A row is kept exactly when every switched-on check accepts it. */
  ghost predicate Admits(cfg: FilterConfig, row: Row) {
    ActiveOk(cfg, row) && IpOk(cfg, row) && PortOk(cfg, row)
  }

  /** The admitted rows, in their original order. */
  ghost function FilterRows(cfg: FilterConfig, rows: seq<Row>): seq<Row> {
    if |rows| == 0 then []
    else FilterRows(cfg, rows[..|rows| - 1]) + (if Admits(cfg, rows[|rows| - 1]) then [rows[|rows| - 1]] else [])
  }

  /** Positions of the admitted rows, in increasing order. */
  ghost function Survivors(cfg: FilterConfig, rows: seq<Row>): (idx: seq<nat>)
    ensures forall k :: 0 <= k < |idx| ==> idx[k] < |rows|
    ensures forall k, l :: 0 <= k < l < |idx| ==> idx[k] < idx[l]
    ensures forall i :: 0 <= i < |rows| ==> (i in idx <==> Admits(cfg, rows[i]))
  {
    if |rows| == 0 then []
    else
      var front := rows[..|rows| - 1];
      var idx' := Survivors(cfg, front);
      assert forall i :: 0 <= i < |front| ==> rows[i] == front[i];
      idx' + (if Admits(cfg, rows[|rows| - 1]) then [|rows| - 1] else [])
  }

  /**
   The filter picks a subsequence: its output is exactly the rows at the
   admitted positions, taken in increasing position order.
   */
  lemma {:induction false} FilterSelectsSurvivors(cfg: FilterConfig, rows: seq<Row>)
    ensures |FilterRows(cfg, rows)| == |Survivors(cfg, rows)|
    ensures forall k :: 0 <= k < |Survivors(cfg, rows)| ==>
              FilterRows(cfg, rows)[k] == rows[Survivors(cfg, rows)[k]]
  {
    if |rows| > 0 {
      var front := rows[..|rows| - 1];
      FilterSelectsSurvivors(cfg, front);
      assert forall i :: 0 <= i < |front| ==> rows[i] == front[i];
    }
  }

  /** Nothing is invented: the output is never longer than the input. */
  lemma {:induction false} FilterShrinks(cfg: FilterConfig, rows: seq<Row>)
    ensures |FilterRows(cfg, rows)| <= |rows|
  {
    if |rows| > 0 {
      FilterShrinks(cfg, rows[..|rows| - 1]);
    }
  }

  /** Every output row passes every switched-on check, and comes from the input. */
  lemma {:induction false} FilterSound(cfg: FilterConfig, rows: seq<Row>)
    ensures forall r :: r in FilterRows(cfg, rows) ==> Admits(cfg, r) && r in rows
  {
    if |rows| > 0 {
      var front := rows[..|rows| - 1];
      FilterSound(cfg, front);
      assert forall r :: r in front ==> r in rows;
    }
  }

  /** Every input row that passes the checks is in the output. */
  lemma {:induction false} FilterComplete(cfg: FilterConfig, rows: seq<Row>)
    ensures forall i :: 0 <= i < |rows| && Admits(cfg, rows[i]) ==> rows[i] in FilterRows(cfg, rows)
  {
    if |rows| > 0 {
      var front := rows[..|rows| - 1];
      FilterComplete(cfg, front);
      assert forall i :: 0 <= i < |front| ==> rows[i] == front[i];
    }
  }

  /** Filtering a row list with one more row at the end. */
  lemma FilterSnoc(cfg: FilterConfig, rows: seq<Row>, r: Row)
    ensures FilterRows(cfg, rows + [r]) == FilterRows(cfg, rows) + (if Admits(cfg, r) then [r] else [])
  {
    assert (rows + [r])[..|rows|] == rows;
  }

  /** Filtering distributes over concatenation. */
  lemma {:induction false} FilterAppend(cfg: FilterConfig, xs: seq<Row>, ys: seq<Row>)
    ensures FilterRows(cfg, xs + ys) == FilterRows(cfg, xs) + FilterRows(cfg, ys)
    decreases |ys|
  {
    if |ys| == 0 {
      assert xs + ys == xs;
    } else {
      var ys', y := ys[..|ys| - 1], ys[|ys| - 1];
      assert ys == ys' + [y];
      assert xs + ys == (xs + ys') + [y];
      FilterAppend(cfg, xs, ys');
      FilterSnoc(cfg, xs + ys', y);
      FilterSnoc(cfg, ys', y);
    }
  }

  /** A single record is kept, unchanged, exactly when it passes the checks. */
  lemma FilterOne(cfg: FilterConfig, row: Row)
    ensures FilterRows(cfg, [row]) == if Admits(cfg, row) then [row] else []
  {
    assert [row][..0] == [];
  }

  /** With every filter switched off, every row is kept. */
  lemma {:induction false} FilterOffKeepsAll(cfg: FilterConfig, rows: seq<Row>)
    requires !cfg.showOnlyActive && !IpFilterOn(cfg) && !PortFilterOn(cfg)
    ensures FilterRows(cfg, rows) == rows
  {
    if |rows| > 0 {
      FilterOffKeepsAll(cfg, rows[..|rows| - 1]);
    }
  }

  /** Two configurations that admit the same rows filter identically. */
  lemma {:induction false} FilterSameAdmits(c1: FilterConfig, c2: FilterConfig, rows: seq<Row>)
    requires forall r :: Admits(c1, r) <==> Admits(c2, r)
    ensures FilterRows(c1, rows) == FilterRows(c2, rows)
  {
    if |rows| > 0 {
      FilterSameAdmits(c1, c2, rows[..|rows| - 1]);
    }
  }

  /** An empty IP text filters exactly like no IP filter at all. */
  lemma {:induction false} IpFilterOffIsNoOp(cfg: FilterConfig, rows: seq<Row>)
    requires !IpFilterOn(cfg)
    ensures FilterRows(cfg, rows) == FilterRows(cfg.(filterIp := None), rows)
  {
    FilterSameAdmits(cfg, cfg.(filterIp := None), rows);
  }

  /** A port of zero filters exactly like no port filter at all. */
  lemma {:induction false} PortFilterOffIsNoOp(cfg: FilterConfig, rows: seq<Row>)
    requires !PortFilterOn(cfg)
    ensures FilterRows(cfg, rows) == FilterRows(cfg.(filterPort := None), rows)
  {
    FilterSameAdmits(cfg, cfg.(filterPort := None), rows);
  }

  function ActiveStage(cfg: FilterConfig): FilterConfig {
    FilterConfig(None, None, cfg.showOnlyActive)
  }

  function IpStage(cfg: FilterConfig): FilterConfig {
    FilterConfig(cfg.filterIp, None, false)
  }

  function PortStage(cfg: FilterConfig): FilterConfig {
    FilterConfig(None, cfg.filterPort, false)
  }

  /**
   The three checks, run one after another as separate passes in the
   order active-only, IP, port, give the same output as the combined filter.
   */
  lemma FilterStagesCompose(cfg: FilterConfig, rows: seq<Row>)
    ensures FilterRows(cfg, rows)
         == FilterRows(PortStage(cfg), FilterRows(IpStage(cfg), FilterRows(ActiveStage(cfg), rows)))
  {
    var activeIp := FilterConfig(cfg.filterIp, None, cfg.showOnlyActive);
    FilterTwice(activeIp, ActiveStage(cfg), IpStage(cfg), rows);
    FilterTwice(cfg, activeIp, PortStage(cfg), rows);
  }

  /** Filtering by `c1` and then by `c2` is filtering by a `c` that demands both. */
  lemma {:induction false} FilterTwice(c: FilterConfig, c1: FilterConfig, c2: FilterConfig, rows: seq<Row>)
    requires forall r :: Admits(c, r) <==> Admits(c1, r) && Admits(c2, r)
    ensures FilterRows(c, rows) == FilterRows(c2, FilterRows(c1, rows))
  {
    if |rows| > 0 {
      var front, last := rows[..|rows| - 1], rows[|rows| - 1];
      assert rows == front + [last];
      FilterTwice(c, c1, c2, front);
      FilterSnoc(c, front, last);
      FilterSnoc(c1, front, last);
      assert Admits(c, last) <==> Admits(c1, last) && Admits(c2, last);
      if Admits(c1, last) {
        FilterSnoc(c2, FilterRows(c1, front), last);
      } else {
        assert FilterRows(c1, rows) == FilterRows(c1, front);
      }
    }
  }

  /** The row list `get_network_connections` returns for a snapshot. */
  ghost function Report(cfg: FilterConfig, conns: seq<RawConn>): seq<Row> {
    FilterRows(cfg, Rows(conns))
  }

  /** Building rows commutes with joining snapshots. */
  lemma RowsAppend(a: seq<RawConn>, b: seq<RawConn>)
    ensures Rows(a + b) == Rows(a) + Rows(b)
  {
    assert forall i :: 0 <= i < |b| ==> (a + b)[|a| + i] == b[i];
  }

  /**
   Records are judged one at a time: the report over two snapshots joined
   is the two reports joined, nothing merged, dropped or reordered.
   */
  lemma ReportAppend(cfg: FilterConfig, a: seq<RawConn>, b: seq<RawConn>)
    ensures Report(cfg, a + b) == Report(cfg, a) + Report(cfg, b)
  {
    RowsAppend(a, b);
    FilterAppend(cfg, Rows(a), Rows(b));
  }

  /** The report over one more record of the snapshot. */
  lemma ReportStep(cfg: FilterConfig, conns: seq<RawConn>, i: nat)
    requires i < |conns|
    ensures Report(cfg, conns[..i + 1])
         == Report(cfg, conns[..i]) + (if Admits(cfg, BuildRow(conns[i])) then [BuildRow(conns[i])] else [])
  {
    assert conns[..i + 1] == conns[..i] + [conns[i]];
    ReportAppend(cfg, conns[..i], [conns[i]]);
    assert Rows([conns[i]]) == [BuildRow(conns[i])];
    FilterOne(cfg, BuildRow(conns[i]));
  }

  /**
   `get_network_connections` over a given snapshot: build each record's
   row, skip it at the first check that rejects it, append the rest.
   */
  method GetNetworkConnections(connections: seq<RawConn>, filterIp: Option<string> := None, filterPort: Option<int> := None, showOnlyActive: bool := false)
    returns (result: seq<Row>)
    ensures result == Report(FilterConfig(filterIp, filterPort, showOnlyActive), connections)
    ensures |result| <= |connections|
    ensures forall r :: r in result ==> Admits(FilterConfig(filterIp, filterPort, showOnlyActive), r)
  {
    ghost var cfg := FilterConfig(filterIp, filterPort, showOnlyActive);
    result := [];
    for i := 0 to |connections|
      invariant result == Report(cfg, connections[..i])
    {
      var conn := connections[i];
      var laddr := FormatAddr(conn.laddr);
      var raddr := FormatAddr(conn.raddr);
      var status := conn.status;
      var proto := Protocol(conn.sockType);
      var row := Row(proto, laddr, raddr, status);
      ReportStep(cfg, connections, i);

      if showOnlyActive && status != "ESTABLISHED" {
        continue;
      }

      if filterIp.Some? && filterIp.value != ""
         && (!Contains(filterIp.value, laddr) && !Contains(filterIp.value, raddr)) {
        continue;
      }

      if filterPort.Some? && filterPort.value != 0
         && (!Contains(Decimal(filterPort.value), laddr) && !Contains(Decimal(filterPort.value), raddr)) {
        continue;
      }

      result := result + [row];
    }
    assert connections[..|connections|] == connections;
    FilterShrinks(cfg, Rows(connections));
    FilterSound(cfg, Rows(connections));
  }

  /** With `show_only_active`, only `ESTABLISHED` rows remain; a UDP row with empty status never does. */
  lemma ActiveOnlyKeepsEstablished(cfg: FilterConfig, conns: seq<RawConn>)
    requires cfg.showOnlyActive
    ensures forall r :: r in Report(cfg, conns) ==> r.status == "ESTABLISHED"
    ensures forall c :: c in conns && c.status != "ESTABLISHED" ==> BuildRow(c) !in Report(cfg, conns)
  {
    FilterSound(cfg, Rows(conns));
  }

  /** With a non-empty IP text, every row kept has it in its local or remote address. */
  lemma IpFilterKeepsMatches(cfg: FilterConfig, conns: seq<RawConn>)
    requires IpFilterOn(cfg)
    ensures forall r :: r in Report(cfg, conns) ==>
              Contains(cfg.filterIp.value, r.laddr) || Contains(cfg.filterIp.value, r.raddr)
  {
    FilterSound(cfg, Rows(conns));
  }

  /** With a non-zero port, every row kept has its decimal text in its local or remote address. */
  lemma PortFilterKeepsMatches(cfg: FilterConfig, conns: seq<RawConn>)
    requires PortFilterOn(cfg)
    ensures forall r :: r in Report(cfg, conns) ==>
              Contains(Decimal(cfg.filterPort.value), r.laddr) || Contains(Decimal(cfg.filterPort.value), r.raddr)
  {
    FilterSound(cfg, Rows(conns));
  }

  /**
   The whole snapshot passes when no filter is switched on; a record's row is
   in the output exactly when it passes the switched-on checks.
   */
  lemma ReportCharacterised(cfg: FilterConfig, conns: seq<RawConn>)
    ensures !cfg.showOnlyActive && !IpFilterOn(cfg) && !PortFilterOn(cfg) ==> Report(cfg, conns) == Rows(conns)
    ensures forall i :: 0 <= i < |conns| ==> (BuildRow(conns[i]) in Report(cfg, conns) <==> Admits(cfg, BuildRow(conns[i])))
    ensures forall r :: r in Report(cfg, conns) ==> Admits(cfg, r) && exists c :: c in conns && r == BuildRow(c)
  {
    if !cfg.showOnlyActive && !IpFilterOn(cfg) && !PortFilterOn(cfg) {
      FilterOffKeepsAll(cfg, Rows(conns));
    }
    FilterComplete(cfg, Rows(conns));
    FilterSound(cfg, Rows(conns));
    var rows := Rows(conns);
    forall r | r in Report(cfg, conns) ensures exists c :: c in conns && r == BuildRow(c) {
      var i :| 0 <= i < |rows| && rows[i] == r;
      assert conns[i] in conns;
    }
  }

  /** The literal substring match: port 80 accepts the local address `10.0.0.1:8080`. */
  lemma PortMatchIsSubstring()
    ensures var cfg := FilterConfig(None, Some(80), false);
            var conn := RawConn(SOCK_STREAM, Some(Addr("10.0.0.1", 8080)), None, "LISTEN");
            BuildRow(conn).laddr == "10.0.0.1:8080" && Report(cfg, [conn]) == [BuildRow(conn)]
  {
    var cfg := FilterConfig(None, Some(80), false);
    var conn := RawConn(SOCK_STREAM, Some(Addr("10.0.0.1", 8080)), None, "LISTEN");
    var row := BuildRow(conn);
    assert Digits(8080) == "8080";
    assert Digits(80) == "80";
    assert row.laddr == "10.0.0.1:8080";
    assert OccursAt("80", row.laddr, 9);
    assert Admits(cfg, row);
    assert Rows([conn]) == [row];
    FilterOne(cfg, row);
  }

  /** An active-only report over an established TCP entry and a UDP entry keeps only the first. */
  lemma ActiveOnlyScenario()
    ensures var cfg := FilterConfig(None, None, true);
            var tcp := RawConn(SOCK_STREAM, Some(Addr("127.0.0.1", 5000)), Some(Addr("127.0.0.1", 9000)), "ESTABLISHED");
            var udp := RawConn(SOCK_DGRAM, Some(Addr("0.0.0.0", 53)), None, "");
            Report(cfg, [tcp, udp]) == [Row("TCP", "127.0.0.1:5000", "127.0.0.1:9000", "ESTABLISHED")]
  {
    var cfg := FilterConfig(None, None, true);
    var tcp := RawConn(SOCK_STREAM, Some(Addr("127.0.0.1", 5000)), Some(Addr("127.0.0.1", 9000)), "ESTABLISHED");
    var udp := RawConn(SOCK_DGRAM, Some(Addr("0.0.0.0", 53)), None, "");
    assert Digits(5000) == "5000";
    assert Digits(9000) == "9000";
    assert BuildRow(tcp) == Row("TCP", "127.0.0.1:5000", "127.0.0.1:9000", "ESTABLISHED");
    assert Rows([tcp, udp]) == [BuildRow(tcp)] + [BuildRow(udp)];
    FilterOne(cfg, BuildRow(tcp));
    FilterSnoc(cfg, [BuildRow(tcp)], BuildRow(udp));
  }

  /** An IP filter `192.168` keeps `192.168.1.5:22` with no remote address, whatever its status. */
  lemma IpScenario(status: string)
    ensures var cfg := FilterConfig(Some("192.168"), None, false);
            var conn := RawConn(SOCK_STREAM, Some(Addr("192.168.1.5", 22)), None, status);
            Report(cfg, [conn]) == [BuildRow(conn)]
  {
    var cfg := FilterConfig(Some("192.168"), None, false);
    var conn := RawConn(SOCK_STREAM, Some(Addr("192.168.1.5", 22)), None, status);
    var row := BuildRow(conn);
    assert Digits(22) == "22";
    assert row.laddr == "192.168.1.5:22";
    assert OccursAt("192.168", row.laddr, 0);
    assert Admits(cfg, row);
    assert Rows([conn]) == [row];
    FilterOne(cfg, row);
  }
}

/** The first records of a forward zone file: NS, then MX, then SRV, written from one flat query result. */
module ZoneHeader {
  import opened Results
  import opened Text
  import opened LinkedList
  import opened DataElements
  import opened FlatRows

  /** A port number by protocol and service. */
  type Ports = (string, string) -> Option<nat>

  /** Row k of the columns type, host, protocol, service, pri and destination. */
  ghost predicate IsRow(cells: seq<Datum>, k: nat)
    requires COLUMNS * k + COLUMNS <= |cells|
  {
    var at := COLUMNS * k;
    && cells[at].Text? && cells[at + 1].Text? && cells[at + 2].Text? && cells[at + 3].Text?
    && cells[at + 4].Number? && cells[at + 5].Text?
    && (cells[at].text == "SRV" ==> cells[at + 5].text != "")
  }

  ghost predicate AreRows(cells: seq<Datum>) {
    |cells| % COLUMNS == 0 && forall k :: 0 <= k < |cells| / COLUMNS ==> IsRow(cells, k)
  }

  ghost function Kind(cells: seq<Datum>, k: nat): string
    requires AreRows(cells) && k < |cells| / COLUMNS
  {
    assert IsRow(cells, k);
    cells[COLUMNS * k].text
  }

  function NsLine(dest: string): string { "\tIN\tNS\t" + dest + "\n" }

  function MxLine(pri: nat, dest: string): string { "\tIN\tMX\t" + Decimal(pri) + "\t" + dest + "\n" }

  /** A destination that does not end in a dot is taken to be in the zone. */
  function SrvLine(host: string, proto: string, zone: string, pri: nat, port: nat, dest: string): string
    requires dest != ""
  {
    "_" + host + "._" + proto + "." + zone + ".\tIN SRV " + Decimal(pri) + " 0 " + Decimal(port) + "\t" + dest
    + (if dest[|dest| - 1] != '.' then "." + zone + ".\n" else "\n")
  }

  /** The line for row k; an SRV record whose port is not known has none. */
  ghost function Line(cells: seq<Datum>, k: nat, zone: string, ports: Ports): Option<string>
    requires AreRows(cells) && k < |cells| / COLUMNS
  {
    var at := COLUMNS * k;
    assert IsRow(cells, k);
    match Kind(cells, k)
    case "NS" => Some(NsLine(cells[at + 5].text))
    case "MX" => Some(MxLine(cells[at + 4].number, cells[at + 5].text))
    case "SRV" =>
      (match ports(cells[at + 2].text, cells[at + 3].text)
       case None => None
       case Some(port) =>
         Some(SrvLine(cells[at + 1].text, cells[at + 2].text, zone, cells[at + 4].number, port, cells[at + 5].text)))
    case _ => None
  }

  /** One pass over the first n rows, for one kind: it stops at the first record that has no line. */
  ghost function Pass(cells: seq<Datum>, n: nat, kind: string, zone: string, ports: Ports): (r: (seq<string>, bool))
    requires AreRows(cells) && n <= |cells| / COLUMNS
  {
    if n == 0 then ([], true)
    else
      var (lines, going) := Pass(cells, n - 1, kind, zone, ports);
      if !going || Kind(cells, n - 1) != kind then (lines, going)
      else
        match Line(cells, n - 1, zone, ports)
        case None => (lines, false)
        case Some(line) => (lines + [line], true)
  }

  /** The three passes. */
  ghost function Header(cells: seq<Datum>, zone: string, ports: Ports): seq<string>
    requires AreRows(cells)
  {
    var n := |cells| / COLUMNS;
    Pass(cells, n, "NS", zone, ports).0 + Pass(cells, n, "MX", zone, ports).0 + Pass(cells, n, "SRV", zone, ports).0
  }

  // ---- The order of the records -------------------------------------------------

  function Rank(kind: string): nat {
    if kind == "NS" then 0 else if kind == "MX" then 1 else if kind == "SRV" then 2 else 3
  }

  /** Record a is written before record b: by kind, and within a kind in the order of the query. */
  ghost predicate Precedes(cells: seq<Datum>, a: nat, b: nat)
    requires AreRows(cells) && a < |cells| / COLUMNS && b < |cells| / COLUMNS
  {
    var ka, kb := Rank(Kind(cells, a)), Rank(Kind(cells, b));
    ka < kb || (ka == kb && a < b)
  }

  /** The rows of one kind. */
  ghost function Positions(cells: seq<Datum>, n: nat, kind: string): (ps: seq<nat>)
    requires AreRows(cells) && n <= |cells| / COLUMNS
    ensures forall i :: 0 <= i < |ps| ==> ps[i] < n && Kind(cells, ps[i]) == kind
  {
    if n == 0 then []
    else Positions(cells, n - 1, kind) + if Kind(cells, n - 1) == kind then [n - 1] else []
  }

  ghost predicate Ascending(ps: seq<nat>) { forall i, j :: 0 <= i < j < |ps| ==> ps[i] < ps[j] }

  lemma AscendingPlus(ps: seq<nat>, p: nat)
    requires Ascending(ps) && forall i :: 0 <= i < |ps| ==> ps[i] < p
    ensures Ascending(ps + [p])
  {
  }

  lemma PositionsNext(cells: seq<Datum>, n: nat, kind: string)
    requires AreRows(cells) && 0 < n <= |cells| / COLUMNS
    ensures var before := Positions(cells, n - 1, kind);
            Positions(cells, n, kind) == if Kind(cells, n - 1) == kind then before + [n - 1] else before
  {
    hide Kind, AreRows;
    assert Positions(cells, n - 1, kind) + [] == Positions(cells, n - 1, kind);
  }

  lemma {:induction false} PositionsAscend(cells: seq<Datum>, n: nat, kind: string)
    requires AreRows(cells) && n <= |cells| / COLUMNS
    ensures Ascending(Positions(cells, n, kind))
  {
    if n > 0 {
      hide Positions, Kind, AreRows, Ascending;
      PositionsAscend(cells, n - 1, kind);
      AscendingPlus(Positions(cells, n - 1, kind), n - 1);
      PositionsNext(cells, n, kind);
    }
  }

  lemma {:induction false} PositionsComplete(cells: seq<Datum>, n: nat, kind: string, p: nat)
    requires AreRows(cells) && p < n <= |cells| / COLUMNS && Kind(cells, p) == kind
    ensures p in Positions(cells, n, kind)
  {
    hide Positions, Kind, AreRows;
    PositionsNext(cells, n, kind);
    if p < n - 1 { PositionsComplete(cells, n - 1, kind, p); }
  }

  /** The rows in the order in which they are written. */
  ghost function Order(cells: seq<Datum>): seq<nat>
    requires AreRows(cells)
  {
    var n := |cells| / COLUMNS;
    Positions(cells, n, "NS") + Positions(cells, n, "MX") + Positions(cells, n, "SRV")
  }

  /** It is the one order of the NS, MX and SRV rows, each once, in which each row precedes the next. */
  lemma OrderIsByKindThenPlace(cells: seq<Datum>)
    requires AreRows(cells)
    ensures var order, n := Order(cells), |cells| / COLUMNS;
            && (forall i :: 0 <= i < |order| ==> order[i] < n)
            && (forall i, j :: 0 <= i < j < |order| ==> Precedes(cells, order[i], order[j]))
            && (forall p :: 0 <= p < n ==> (p in order <==> Rank(Kind(cells, p)) < 3))
  {
    var n := |cells| / COLUMNS;
    PositionsAscend(cells, n, "NS");
    PositionsAscend(cells, n, "MX");
    PositionsAscend(cells, n, "SRV");
    var ns, mx, srv := Positions(cells, n, "NS"), Positions(cells, n, "MX"), Positions(cells, n, "SRV");
    hide Positions, Kind, AreRows, Ascending;
    forall p: nat | p < n && Rank(Kind(cells, p)) < 3 ensures p in ns + mx + srv {
      PositionsComplete(cells, n, Kind(cells, p), p);
    }
    AscendingInOrder(cells, ns, "NS");
    AscendingInOrder(cells, mx, "MX");
    AscendingInOrder(cells, srv, "SRV");
    JoinAscending(cells, ns, mx);
    JoinAscending(cells, ns + mx, srv);
  }

  ghost predicate InOrder(cells: seq<Datum>, ps: seq<nat>)
    requires AreRows(cells)
  {
    && (forall i :: 0 <= i < |ps| ==> ps[i] < |cells| / COLUMNS)
    && (forall i, j :: 0 <= i < j < |ps| ==> Precedes(cells, ps[i], ps[j]))
  }

  lemma AscendingInOrder(cells: seq<Datum>, ps: seq<nat>, kind: string)
    requires AreRows(cells) && Ascending(ps)
    requires forall i :: 0 <= i < |ps| ==> ps[i] < |cells| / COLUMNS && Kind(cells, ps[i]) == kind
    ensures InOrder(cells, ps)
  {
  }

  lemma JoinAscending(cells: seq<Datum>, ps: seq<nat>, qs: seq<nat>)
    requires AreRows(cells) && InOrder(cells, ps) && InOrder(cells, qs)
    requires forall i, j :: 0 <= i < |ps| && 0 <= j < |qs| ==> Precedes(cells, ps[i], qs[j])
    ensures InOrder(cells, ps + qs)
  {
    var all := ps + qs;
    forall i, j | 0 <= i < j < |all| ensures Precedes(cells, all[i], all[j]) {
      if i >= |ps| { assert all[i] == qs[i - |ps|] && all[j] == qs[j - |ps|]; }
    }
  }

  /** The lines are those of the rows of ps in turn, up to the first that has none. */
  ghost predicate LinesOf(cells: seq<Datum>, ps: seq<nat>, zone: string, ports: Ports, lines: seq<string>)
    requires AreRows(cells) && forall i :: 0 <= i < |ps| ==> ps[i] < |cells| / COLUMNS
  {
    && |lines| <= |ps|
    && (forall k :: 0 <= k < |lines| ==> Line(cells, ps[k], zone, ports) == Some(lines[k]))
    && (|lines| < |ps| ==> Line(cells, ps[|lines|], zone, ports) == None)
  }

  lemma {:induction false} PassLines(cells: seq<Datum>, n: nat, kind: string, zone: string, ports: Ports)
    requires AreRows(cells) && n <= |cells| / COLUMNS
    ensures var (lines, going) := Pass(cells, n, kind, zone, ports);
            LinesOf(cells, Positions(cells, n, kind), zone, ports, lines)
            && (going <==> |lines| == |Positions(cells, n, kind)|)
  {
    if n > 0 { PassLines(cells, n - 1, kind, zone, ports); }
  }

  /** The header writes the rows in that order, one line each, up to the first SRV record whose port is unknown; so
      when every port is known each NS, MX and SRV row is written exactly once. */
  lemma HeaderWritesInOrder(cells: seq<Datum>, zone: string, ports: Ports)
    requires AreRows(cells)
    ensures forall i :: 0 <= i < |Order(cells)| ==> Order(cells)[i] < |cells| / COLUMNS
    ensures LinesOf(cells, Order(cells), zone, ports, Header(cells, zone, ports))
  {
    var n := |cells| / COLUMNS;
    PassLines(cells, n, "NS", zone, ports);
    PassLines(cells, n, "MX", zone, ports);
    PassLines(cells, n, "SRV", zone, ports);
    var ns, mx, srv := Positions(cells, n, "NS"), Positions(cells, n, "MX"), Positions(cells, n, "SRV");
    var l, m := Pass(cells, n, "NS", zone, ports).0, Pass(cells, n, "MX", zone, ports).0;
    JoinLines(cells, ns, mx, zone, ports, l, m);
    JoinLines(cells, ns + mx, srv, zone, ports, l + m, Pass(cells, n, "SRV", zone, ports).0);
  }

  lemma JoinLines(cells: seq<Datum>, ps: seq<nat>, qs: seq<nat>, zone: string, ports: Ports,
                  l: seq<string>, m: seq<string>)
    requires AreRows(cells)
    requires forall i :: 0 <= i < |ps| ==> ps[i] < |cells| / COLUMNS
    requires forall i :: 0 <= i < |qs| ==> qs[i] < |cells| / COLUMNS
    requires LinesOf(cells, ps, zone, ports, l) && LinesOf(cells, qs, zone, ports, m) && |l| == |ps|
    ensures forall i :: 0 <= i < |ps + qs| ==> (ps + qs)[i] < |cells| / COLUMNS
    ensures LinesOf(cells, ps + qs, zone, ports, l + m)
  {
    hide Line, IsRow;
    assert |m| < |qs| ==> (ps + qs)[|l + m|] == qs[|m|];
  }

  // ---- The writer ---------------------------------------------------------------

  /** A step of the cursor along the list. */
  method Down(r: List<Datum>, e: Elem<Datum>, ghost i: nat, number: nat) returns (e': Elem?<Datum>)
    requires r.Valid() && i < |r.nodes| && r.nodes[i] == e
    ensures e' == if i + number < |r.nodes| then r.nodes[i + number] else null
  {
    r.IndexUnique(e, i);
    e' := r.MoveDown(e, number);
  }

  /** The next element, and what it holds. */
  lemma NextCell(r: List<Datum>, i: nat)
    requires r.Valid() && i + 1 < |r.nodes|
    ensures r.nodes[i].next == r.nodes[i + 1] && r.nodes[i + 1].data == r.vals[i + 1]
  {
    assert r.nodes[i].next == r.nodes[i + 1];
  }

  lemma PassNone(cells: seq<Datum>, kind: string, zone: string, ports: Ports)
    requires AreRows(cells)
    ensures Pass(cells, 0, kind, zone, ports) == ([], true) && |cells| % COLUMNS == 0
  {
  }

  /** What a pass makes of one more row. */
  lemma PassNext(cells: seq<Datum>, k: nat, kind: string, zone: string, ports: Ports)
    requires AreRows(cells) && k < |cells| / COLUMNS && Pass(cells, k, kind, zone, ports).1
    ensures cells[COLUMNS * k].Text?
    ensures var lines := Pass(cells, k, kind, zone, ports).0;
            Pass(cells, k + 1, kind, zone, ports)
            == if cells[COLUMNS * k].text != kind then (lines, true)
               else if Line(cells, k, zone, ports).None? then (lines, false)
               else (lines + [Line(cells, k, zone, ports).value], true)
  {
    hide Line;
    assert IsRow(cells, k);
  }

  /** The types of the cells of a row, and its line. */
  lemma LineOfRow(cells: seq<Datum>, k: nat, zone: string, ports: Ports)
    requires AreRows(cells) && k < |cells| / COLUMNS
    ensures IsRow(cells, k)
    ensures cells[COLUMNS * k].text == "NS" ==> Line(cells, k, zone, ports) == Some(NsLine(cells[COLUMNS * k + 5].text))
    ensures cells[COLUMNS * k].text == "MX" ==>
              Line(cells, k, zone, ports) == Some(MxLine(cells[COLUMNS * k + 4].number, cells[COLUMNS * k + 5].text))
    ensures cells[COLUMNS * k].text == "SRV" ==>
              var at := COLUMNS * k;
              var port := ports(cells[at + 2].text, cells[at + 3].text);
              Line(cells, k, zone, ports)
              == if port.None? then None
                 else Some(SrvLine(cells[at + 1].text, cells[at + 2].text, zone, cells[at + 4].number, port.value,
                                   cells[at + 5].text))
  {
    hide NsLine, MxLine, SrvLine;
    assert IsRow(cells, k);
  }

  /** A pass that has stopped stays as it is. */
  lemma {:induction false} PassStopped(cells: seq<Datum>, k: nat, n: nat, kind: string, zone: string, ports: Ports)
    requires AreRows(cells) && k <= n <= |cells| / COLUMNS && !Pass(cells, k, kind, zone, ports).1
    ensures Pass(cells, n, kind, zone, ports) == Pass(cells, k, kind, zone, ports)
  {
    if k < n { PassStopped(cells, k, n - 1, kind, zone, ports); }
  }

  /** The cursor stands at cell i, or past the end. */
  ghost predicate At(r: List<Datum>, e: Elem?<Datum>, i: nat)
    reads r
  {
    e == if i < |r.nodes| then r.nodes[i] else null
  }

  /** The element under the cursor holds the cell it stands at. */
  lemma Held(r: List<Datum>, e: Elem<Datum>, i: nat)
    requires r.Valid() && At(r, e, i)
    ensures i < |r.nodes| == |r.vals| && e == r.nodes[i] && e.data == r.vals[i]
  {
  }

  /** The first pass. Between rows the cursor is on a row boundary, or null at the end. */
  method WriteNs(r: List<Datum>, zone: string, ports: Ports) returns (lines: seq<string>)
    requires r.Valid() && AreRows(r.vals)
    ensures lines == Pass(r.vals, |r.vals| / COLUMNS, "NS", zone, ports).0
  {
    hide Chain, ClosedChain, Distinct, NsLine, MxLine, SrvLine, Line, Pass, Kind, AreRows;
    PassNone(r.vals, "NS", zone, ports);
    lines := [];
    var e := r.head;
    ghost var k: nat := 0;
    while e != null
      invariant k <= |r.vals| / COLUMNS && At(r, e, COLUMNS * k)
      invariant Pass(r.vals, k, "NS", zone, ports) == (lines, true)
      decreases |r.vals| / COLUMNS - k
    {
      Held(r, e, COLUMNS * k);
      PassNext(r.vals, k, "NS", zone, ports);
      LineOfRow(r.vals, k, zone, ports);
      if e.data.text != "NS" {
        e := Down(r, e, COLUMNS * k, COLUMNS);
      } else {
        e := Down(r, e, COLUMNS * k, COLUMNS - 1);
        Held(r, e, COLUMNS * k + 5);
        lines := lines + [NsLine(e.data.text)];
        e := Down(r, e, COLUMNS * k + 5, 1);
      }
      k := k + 1;
    }
  }

  /** The second pass. */
  method WriteMx(r: List<Datum>, zone: string, ports: Ports) returns (lines: seq<string>)
    requires r.Valid() && AreRows(r.vals)
    ensures lines == Pass(r.vals, |r.vals| / COLUMNS, "MX", zone, ports).0
  {
    hide Chain, ClosedChain, Distinct, NsLine, MxLine, SrvLine, Line, Pass, Kind, AreRows;
    PassNone(r.vals, "MX", zone, ports);
    lines := [];
    var e := r.head;
    ghost var k: nat := 0;
    while e != null
      invariant k <= |r.vals| / COLUMNS && At(r, e, COLUMNS * k)
      invariant Pass(r.vals, k, "MX", zone, ports) == (lines, true)
      decreases |r.vals| / COLUMNS - k
    {
      Held(r, e, COLUMNS * k);
      PassNext(r.vals, k, "MX", zone, ports);
      LineOfRow(r.vals, k, zone, ports);
      if e.data.text != "MX" {
        e := Down(r, e, COLUMNS * k, COLUMNS);
      } else {
        e := Down(r, e, COLUMNS * k, COLUMNS - 2);
        Held(r, e, COLUMNS * k + 4);
        NextCell(r, COLUMNS * k + 4);
        lines := lines + [MxLine(e.data.number, e.next.data.text)];
        e := Down(r, e, COLUMNS * k + 4, 2);
      }
      k := k + 1;
    }
  }

  /** The links of the five elements after the first of a row. */
  lemma RowCells(r: List<Datum>, at: nat)
    requires r.Valid() && at + COLUMNS <= |r.nodes|
    ensures forall j :: at <= j < at + 5 ==> r.nodes[j].next == r.nodes[j + 1]
    ensures forall j :: at <= j < at + COLUMNS ==> r.nodes[j].data == r.vals[j]
  {
    forall j | at <= j < at + 5 ensures r.nodes[j].next == r.nodes[j + 1] { NextCell(r, j); }
  }

  /** The third pass, which gives up at the first port it cannot find. */
  method WriteSrv(r: List<Datum>, zone: string, ports: Ports) returns (lines: seq<string>)
    requires r.Valid() && AreRows(r.vals)
    ensures lines == Pass(r.vals, |r.vals| / COLUMNS, "SRV", zone, ports).0
  {
    hide Chain, ClosedChain, Distinct, NsLine, MxLine, SrvLine, Line, Pass, Kind, AreRows;
    PassNone(r.vals, "SRV", zone, ports);
    lines := [];
    var e := r.head;
    ghost var k: nat := 0;
    while e != null
      invariant k <= |r.vals| / COLUMNS && At(r, e, COLUMNS * k)
      invariant Pass(r.vals, k, "SRV", zone, ports) == (lines, true)
      decreases |r.vals| / COLUMNS - k
    {
      Held(r, e, COLUMNS * k);
      PassNext(r.vals, k, "SRV", zone, ports);
      LineOfRow(r.vals, k, zone, ports);
      if e.data.text != "SRV" {
        e := Down(r, e, COLUMNS * k, COLUMNS);
      } else {
        RowCells(r, COLUMNS * k);
        var proto := e.next.next.data.text;
        var service := e.next.next.next.data.text;
        var pri := e.next.next.next.next.data.number;
        var host := e.next.data.text;
        var port := ports(proto, service);
        if port.None? {
          PassStopped(r.vals, k + 1, |r.vals| / COLUMNS, "SRV", zone, ports);
          return;
        }
        var dest := e.next.next.next.next.next.data.text;
        lines := lines + [SrvLine(host, proto, zone, pri, port.value, dest)];
        e := Down(r, e, COLUMNS * k, COLUMNS);
      }
      k := k + 1;
    }
  }

  /** write_fwd_header_records: nothing is written from a list that is not made of whole rows. */
  method WriteFwdHeaderRecords(r: List<Datum>, zone: string, ports: Ports) returns (lines: seq<string>)
    requires r.Valid() && (|r.vals| % COLUMNS == 0 ==> AreRows(r.vals))
    ensures lines == if |r.vals| % COLUMNS == 0 then Header(r.vals, zone, ports) else []
  {
    if r.total % COLUMNS != 0 {
      return [];
    }
    var ns := WriteNs(r, zone, ports);
    var mx := WriteMx(r, zone, ports);
    var srv := WriteSrv(r, zone, ports);
    return ns + mx + srv;
  }
}

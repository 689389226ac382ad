/** Reading the lines of a forward zone file's header at their tabs and blanks. */
module ZoneLines {
  import opened Results
  import opened Text
  import opened DataElements
  import opened FlatRows
  import opened ZoneHeader

  predicate IsSpace(c: char) { c == '\t' || c == ' ' || c == '\n' }

  predicate NoSpace(t: string) { forall i :: 0 <= i < |t| ==> !IsSpace(t[i]) }

  /** The parts between tabs, blanks and line ends. */
  function Parts(t: string): (ps: seq<string>)
    ensures 0 < |ps|
  {
    if t == "" then [""]
    else
      var rest := Parts(t[1..]);
      if IsSpace(t[0]) then [""] + rest else [[t[0]] + rest[0]] + rest[1..]
  }

  /** What is between the line's parts, the last of them ended by the line end. */
  function Columns(line: string): seq<string> { Parts(line)[..|Parts(line)| - 1] }

  lemma {:induction false} PartFirst(a: string, c: char, t: string)
    requires NoSpace(a) && IsSpace(c)
    ensures Parts(a + [c] + t) == [a] + Parts(t)
  {
    var all := a + [c] + t;
    if a == "" {
      assert all[0] == c && all[1..] == t;
    } else {
      assert all[0] == a[0] && all[1..] == a[1..] + [c] + t;
      PartFirst(a[1..], c, t);
      assert [a[0]] + a[1..] == a;
    }
  }

  lemma NoParts()
    ensures Parts("") == [""]
  {
  }

  lemma DigitsAreNoSpace(n: nat)
    ensures NoSpace(Decimal(n)) && StrToUl(Decimal(n)) == n
  {
    DecimalRoundTrip(n);
  }

  /** The last part and the line end. */
  lemma LastPart(a: string)
    requires NoSpace(a)
    ensures Parts(a + "\n") == [a, ""]
  {
    NoParts();
    PartFirst(a, '\n', "");
    assert a + "\n" == a + ['\n'] + "";
  }

  // ---- NS and MX ---------------------------------------------------------------------

  /** The first two parts of an NS or MX line. */
  lemma InFirst(t: string)
    ensures Parts("\tIN\t" + t) == ["", "IN"] + Parts(t)
  {
    var rest := "IN" + ['\t'] + t;
    assert "\tIN\t" + t == "" + ['\t'] + rest;
    PartFirst("", '\t', rest);
    PartFirst("IN", '\t', t);
    hide Parts;
    assert [""] + (["IN"] + Parts(t)) == ["", "IN"] + Parts(t);
  }

  /** An NS line has its destination. */
  lemma NsLineReads(dest: string)
    requires NoSpace(dest)
    ensures Columns(NsLine(dest)) == ["", "IN", "NS", dest]
  {
    hide Parts, NoSpace;
    var rest := "NS" + ['\t'] + (dest + "\n");
    assert NsLine(dest) == "\tIN\t" + rest;
    InFirst(rest);
    assert NoSpace("NS") by { NamesAreNoSpace(); }
    PartFirst("NS", '\t', dest + "\n");
    LastPart(dest);
    assert Parts(NsLine(dest)) == ["", "IN", "NS", dest, ""];
  }

  lemma NamesAreNoSpace()
    ensures NoSpace("NS") && NoSpace("MX") && NoSpace("IN") && NoSpace("SRV") && NoSpace("0")
  {
  }

  /** An MX line has its preference, and then its destination. */
  lemma MxLineReads(pri: nat, dest: string)
    requires NoSpace(dest)
    ensures var c := Columns(MxLine(pri, dest));
            |c| == 5 && c[..3] == ["", "IN", "MX"] && StrToUl(c[3]) == pri && c[4] == dest
  {
    DigitsAreNoSpace(pri);
    NamesAreNoSpace();
    hide Parts, NoSpace, Decimal, StrToUl;
    var last := Decimal(pri) + ['\t'] + (dest + "\n");
    var rest := "MX" + ['\t'] + last;
    assert MxLine(pri, dest) == "\tIN\t" + rest;
    InFirst(rest);
    PartFirst("MX", '\t', last);
    PartFirst(Decimal(pri), '\t', dest + "\n");
    LastPart(dest);
    assert Parts(MxLine(pri, dest)) == ["", "IN", "MX", Decimal(pri), dest, ""];
  }

  // ---- SRV -----------------------------------------------------------------------------

  /** The owner name: the host and the protocol, each with an underscore, and the zone. */
  predicate IsOwner(owner: string, host: string, proto: string, zone: string) {
    Fields(owner) == Fields("_" + host) + Fields("_" + proto) + Fields(zone) + [""]
  }

  /** The target ends in a dot: it is the destination when that does, and otherwise the destination in the zone. */
  predicate IsSrvTarget(target: string, dest: string, zone: string)
    requires dest != ""
  {
    && target != "" && target[|target| - 1] == '.'
    && (dest[|dest| - 1] == '.' <==> target == dest)
    && (dest[|dest| - 1] != '.' ==> Fields(target) == Fields(dest) + Fields(zone) + [""])
  }

  lemma RootedFields(t: string)
    ensures Fields(t + ".") == Fields(t) + [""]
  {
    FieldsOfDotted(t, "");
    assert t + "." + "" == t + ".";
  }

  lemma OwnerIs(host: string, proto: string, zone: string)
    ensures IsOwner("_" + host + "._" + proto + "." + zone + ".", host, proto, zone)
  {
    hide Fields;
    var h, p := "_" + host, "_" + proto;
    FieldsOfDotted(h, p);
    FieldsOfDotted(h + "." + p, zone);
    RootedFields(h + "." + p + "." + zone);
    assert "_" + host + "._" + proto + "." + zone + "." == h + "." + p + "." + zone + ".";
  }

  function TargetOf(dest: string, zone: string): string
    requires dest != ""
  {
    if dest[|dest| - 1] != '.' then dest + "." + zone + "." else dest
  }

  lemma TargetIs(dest: string, zone: string)
    requires dest != ""
    ensures IsSrvTarget(TargetOf(dest, zone), dest, zone)
  {
    FieldsOfDotted(dest, zone);
    RootedFields(dest + "." + zone);
    hide Fields;
    assert dest + "." + zone + "." != dest;
  }

  /** An SRV line has its owner, then the priority, the weight 0 and the port, and its target. */
  predicate IsSrvLine(c: seq<string>, host: string, proto: string, zone: string, pri: nat, port: nat, dest: string)
    requires dest != ""
  {
    && |c| == 7 && IsOwner(c[0], host, proto, zone) && c[1] == "IN" && c[2] == "SRV"
    && StrToUl(c[3]) == pri && StrToUl(c[4]) == 0 && StrToUl(c[5]) == port && IsSrvTarget(c[6], dest, zone)
  }

  lemma SrvText(owner: string, pri: string, port: string, target: string)
    ensures owner + "\tIN SRV " + pri + " 0 " + port + "\t" + target + "\n"
            == owner + ['\t'] + ("IN" + [' '] + ("SRV" + [' '] + (pri + [' ']
               + ("0" + [' '] + (port + ['\t'] + (target + "\n"))))))
  {
    var last := port + ['\t'] + (target + "\n");
    assert port + "\t" + target + "\n" == last;
    assert " 0 " + last == [' '] + ("0" + [' '] + last);
    assert "\tIN SRV " + (pri + (" 0 " + last)) == ['\t'] + ("IN" + [' '] + ("SRV" + [' '] + (pri + (" 0 " + last))));
    assert pri + (" 0 " + last) == pri + [' '] + ("0" + [' '] + last);
    assert owner + "\tIN SRV " + pri + " 0 " + port + "\t" + target + "\n"
           == owner + ("\tIN SRV " + (pri + (" 0 " + last)));
  }

  lemma SrvParts(owner: string, pri: string, port: string, target: string)
    requires NoSpace(owner) && NoSpace(pri) && NoSpace(port) && NoSpace(target)
    ensures Columns(owner + "\tIN SRV " + pri + " 0 " + port + "\t" + target + "\n")
            == [owner, "IN", "SRV", pri, "0", port, target]
  {
    NamesAreNoSpace();
    hide Parts, NoSpace;
    SrvText(owner, pri, port, target);
    var t1 := port + ['\t'] + (target + "\n");
    var t2 := pri + [' '] + ("0" + [' '] + t1);
    LastPart(target);
    PartFirst(port, '\t', target + "\n");
    PartFirst("0", ' ', t1);
    PartFirst(pri, ' ', "0" + [' '] + t1);
    PartFirst("SRV", ' ', t2);
    PartFirst("IN", ' ', "SRV" + [' '] + t2);
    PartFirst(owner, '\t', "IN" + [' '] + ("SRV" + [' '] + t2));
    assert Parts(t1) == [port, target, ""];
    assert Parts(t2) == [pri, "0", port, target, ""];
    assert Parts(owner + ['\t'] + ("IN" + [' '] + ("SRV" + [' '] + t2)))
           == [owner, "IN", "SRV", pri, "0", port, target, ""];
  }

  lemma SrvLineText(host: string, proto: string, zone: string, pri: nat, port: nat, dest: string)
    requires dest != ""
    ensures SrvLine(host, proto, zone, pri, port, dest)
            == "_" + host + "._" + proto + "." + zone + "." + "\tIN SRV " + Decimal(pri) + " 0 " + Decimal(port)
               + "\t" + TargetOf(dest, zone) + "\n"
  {
    hide Decimal;
    var owner := "_" + host + "._" + proto + "." + zone;
    assert owner + ".\tIN SRV " == owner + "." + "\tIN SRV ";
    if dest[|dest| - 1] != '.' {
      var front := owner + ".\tIN SRV " + Decimal(pri) + " 0 " + Decimal(port) + "\t";
      assert front + dest + ("." + zone + ".\n") == front + (dest + "." + zone + ".") + "\n";
    }
  }

  lemma SrvLineReads(host: string, proto: string, zone: string, pri: nat, port: nat, dest: string)
    requires dest != "" && NoSpace(host) && NoSpace(proto) && NoSpace(zone) && NoSpace(dest)
    ensures IsSrvLine(Columns(SrvLine(host, proto, zone, pri, port, dest)), host, proto, zone, pri, port, dest)
  {
    hide Decimal, StrToUl, Parts, NoSpace, IsOwner, IsSrvTarget, SrvLine, TargetOf;
    DigitsAreNoSpace(pri);
    DigitsAreNoSpace(port);
    ZeroReads();
    SrvLineText(host, proto, zone, pri, port, dest);
    OwnerIs(host, proto, zone);
    TargetIs(dest, zone);
    JoinedNoSpace(host, proto, zone, dest);
    SrvParts("_" + host + "._" + proto + "." + zone + ".", Decimal(pri), Decimal(port), TargetOf(dest, zone));
  }

  lemma ZeroReads()
    ensures StrToUl("0") == 0
  {
    DecimalRoundTrip(0);
    assert Decimal(0) == "0";
  }

  lemma JoinedNoSpace(host: string, proto: string, zone: string, dest: string)
    requires dest != "" && NoSpace(host) && NoSpace(proto) && NoSpace(zone) && NoSpace(dest)
    ensures NoSpace("_" + host + "._" + proto + "." + zone + ".") && NoSpace(TargetOf(dest, zone))
  {
  }

  // ---- The header -------------------------------------------------------------------------

  /** The texts of row k that go into its line hold no tab, blank or line end. */
  ghost predicate CleanRow(cells: seq<Datum>, k: nat)
    requires AreRows(cells) && k < |cells| / COLUMNS
  {
    assert IsRow(cells, k);
    NoSpace(cells[COLUMNS * k + 1].text) && NoSpace(cells[COLUMNS * k + 2].text) && NoSpace(cells[COLUMNS * k + 5].text)
  }

  /** The line reads as the record of row k. */
  ghost predicate Reads(line: string, cells: seq<Datum>, k: nat, zone: string, ports: Ports)
    requires AreRows(cells) && k < |cells| / COLUMNS
  {
    assert IsRow(cells, k);
    var at := COLUMNS * k;
    var c, dest := Columns(line), cells[at + 5].text;
    && (cells[at].text == "NS" ==> c == ["", "IN", "NS", dest])
    && (cells[at].text == "MX" ==>
          |c| == 5 && c[..3] == ["", "IN", "MX"] && StrToUl(c[3]) == cells[at + 4].number && c[4] == dest)
    && (cells[at].text == "SRV" ==>
          && ports(cells[at + 2].text, cells[at + 3].text).Some?
          && IsSrvLine(c, cells[at + 1].text, cells[at + 2].text, zone, cells[at + 4].number,
                       ports(cells[at + 2].text, cells[at + 3].text).value, dest))
  }

  lemma RowReads(cells: seq<Datum>, k: nat, zone: string, ports: Ports, line: string)
    requires AreRows(cells) && k < |cells| / COLUMNS && CleanRow(cells, k) && NoSpace(zone)
    requires ZoneHeader.Line(cells, k, zone, ports) == Some(line)
    ensures Reads(line, cells, k, zone, ports)
  {
    LineOfRow(cells, k, zone, ports);
    hide NsLine, MxLine, SrvLine, Columns, StrToUl, IsSrvLine, NoSpace, ZoneHeader.Line;
    var at := COLUMNS * k;
    if cells[at].text == "NS" { NsLineReads(cells[at + 5].text); }
    if cells[at].text == "MX" { MxLineReads(cells[at + 4].number, cells[at + 5].text); }
    if cells[at].text == "SRV" {
      var port := ports(cells[at + 2].text, cells[at + 3].text);
      SrvLineReads(cells[at + 1].text, cells[at + 2].text, zone, cells[at + 4].number, port.value, cells[at + 5].text);
    }
  }

  /** Each line of the header reads as the record of the row that stands there in the order of writing. */
  lemma HeaderReads(cells: seq<Datum>, zone: string, ports: Ports)
    requires AreRows(cells) && NoSpace(zone) && forall k :: 0 <= k < |cells| / COLUMNS ==> CleanRow(cells, k)
    ensures var lines, order := Header(cells, zone, ports), Order(cells);
            |lines| <= |order|
            && forall i :: 0 <= i < |lines| ==>
                 order[i] < |cells| / COLUMNS && Reads(lines[i], cells, order[i], zone, ports)
  {
    HeaderWritesInOrder(cells, zone, ports);
    hide Header, Order, ZoneHeader.Line, Reads, CleanRow, AreRows;
    var lines, order := Header(cells, zone, ports), Order(cells);
    forall i | 0 <= i < |lines| ensures order[i] < |cells| / COLUMNS && Reads(lines[i], cells, order[i], zone, ports) {
      RowReads(cells, order[i], zone, ports, lines[i]);
    }
  }
}

/** Which address the build allocator picks, and what runs of allocations do to the table of used addresses. */
module BuildAddresses {
  import opened Results

  /** A row of build_ip. */
  datatype UsedIp = UsedIp(ip: nat, hostname: string)

  type Rows = seq<UsedIp>

  predicate Used(rows: Rows, ip: nat) { exists i :: 0 <= i < |rows| && rows[i].ip == ip }

  lemma UsedFirst(rows: Rows, ip: nat)
    requires rows != []
    ensures Used(rows, ip) <==> rows[0].ip == ip || Used(rows[1..], ip)
  {
    assert forall i :: 0 < i < |rows| ==> rows[i] == rows[1..][i - 1];
    if Used(rows[1..], ip) {
      var i :| 0 <= i < |rows[1..]| && rows[1..][i].ip == ip;
      assert rows[i + 1].ip == ip;
    }
  }

  /** The query of the allocator: the rows whose address is in the range. */
  function InRange(table: Rows, start: nat, end: nat): (rows: Rows)
    ensures forall i :: 0 <= i < |rows| ==> start <= rows[i].ip <= end && rows[i] in table
  {
    if table == [] then []
    else (if start <= table[0].ip <= end then [table[0]] else []) + InRange(table[1..], start, end)
  }

  lemma {:induction false} InRangeUsed(table: Rows, start: nat, end: nat, ip: nat)
    requires start <= ip <= end
    ensures Used(InRange(table, start, end), ip) <==> Used(table, ip)
  {
    if table != [] {
      var rest := InRange(table[1..], start, end);
      InRangeUsed(table[1..], start, end, ip);
      UsedFirst(table, ip);
      if start <= table[0].ip <= end {
        assert ([table[0]] + rest)[1..] == rest;
        UsedFirst([table[0]] + rest, ip);
      } else {
        assert [] + rest == rest;
      }
    }
  }

  lemma InRangeUsedAll(table: Rows, start: nat, end: nat)
    ensures forall ip :: start <= ip <= end ==> (Used(InRange(table, start, end), ip) <==> Used(table, ip))
  {
    forall ip | start <= ip <= end ensures Used(InRange(table, start, end), ip) <==> Used(table, ip) {
      InRangeUsed(table, start, end, ip);
    }
  }

  /** The first address from ip up to end that is not used. */
  function LeastFree(rows: Rows, ip: nat, end: nat): Option<nat>
    decreases end + 1 - ip
  {
    if ip > end then None else if Used(rows, ip) then LeastFree(rows, ip + 1, end) else Some(ip)
  }

  /** What the scan of the allocator ends with, given the rows in the range. */
  function Chosen(rows: Rows, start: nat, end: nat): Option<nat> {
    if rows == [] || rows[0] == UsedIp(start, "free") then Some(start)
    else if start >= end then Some(end + 1)
    else LeastFree(rows, start, end)
  }

  /** The least unused address of the range, or nothing when all of them are used. */
  ghost predicate IsLeastFree(table: Rows, start: nat, end: nat, r: Option<nat>) {
    match r
    case None => forall ip :: start <= ip <= end ==> Used(table, ip)
    case Some(v) => start <= v <= end && !Used(table, v) && forall ip :: start <= ip < v ==> Used(table, ip)
  }

  lemma {:induction false} LeastFreeIs(table: Rows, start: nat, end: nat)
    ensures IsLeastFree(table, start, end, LeastFree(table, start, end))
    decreases end + 1 - start
  {
    if start <= end && Used(table, start) { LeastFreeIs(table, start + 1, end); }
  }

  lemma LeastFreeIsUnique(table: Rows, start: nat, end: nat, r: Option<nat>)
    requires IsLeastFree(table, start, end, r)
    ensures r == LeastFree(table, start, end)
  {
    LeastFreeIs(table, start, end);
  }

  /** A range on which the scan is right: with nothing used in it, it must not be empty; with something used in
      it, it must have two addresses or more and its first row must not be its first address held by a host
      called "free". */
  predicate Sound(table: Rows, start: nat, end: nat) {
    var rows := InRange(table, start, end);
    if rows == [] then start <= end else start < end && rows[0] != UsedIp(start, "free")
  }

  /** The allocator picks the least unused address, or reports that all are used, exactly on such ranges. */
  lemma ChosenRightExactly(table: Rows, start: nat, end: nat)
    ensures IsLeastFree(table, start, end, Chosen(InRange(table, start, end), start, end))
            <==> Sound(table, start, end)
  {
    var rows := InRange(table, start, end);
    InRangeUsedAll(table, start, end);
    if rows != [] {
      assert Used(rows, rows[0].ip);
      LeastFreeIs(rows, start, end);
      if start < end { assert IsLeastFree(table, start, end, LeastFree(rows, start, end)); }
    } else if start <= end {
      assert !Used(rows, start);
    }
  }

  /** A range of one address that is used gives the address after it, or, to a first row that is called "free", the
      used address again. */
  lemma OneUsedAddress(table: Rows, ip: nat)
    requires Used(table, ip)
    ensures var rows := InRange(table, ip, ip);
            rows != [] && Chosen(rows, ip, ip) == Some(if rows[0].hostname == "free" then ip else ip + 1)
  {
    InRangeUsed(table, ip, ip, ip);
  }

  /** 10.0.0.5 alone in its range and used by a web server: the allocator gives 10.0.0.6. */
  lemma OneAddressExample()
    ensures var table := [UsedIp(0x0A00_0005, "web")];
            && Chosen(InRange(table, 0x0A00_0005, 0x0A00_0005), 0x0A00_0005, 0x0A00_0005) == Some(0x0A00_0006)
            && !IsLeastFree(table, 0x0A00_0005, 0x0A00_0005, Some(0x0A00_0006))
  {
    var table := [UsedIp(0x0A00_0005, "web")];
    assert table[0].ip == 0x0A00_0005;
    OneUsedAddress(table, 0x0A00_0005);
  }

  /** No host of that name: then only the width of the range matters. */
  lemma NoFreeHost(table: Rows, start: nat, end: nat)
    requires start < end && forall i :: 0 <= i < |table| ==> table[i].hostname != "free"
    ensures Sound(table, start, end)
    ensures Chosen(InRange(table, start, end), start, end) == LeastFree(table, start, end)
  {
    var rows := InRange(table, start, end);
    if rows != [] {
      var i :| 0 <= i < |table| && table[i] == rows[0];
    }
    ChosenRightExactly(table, start, end);
    LeastFreeIsUnique(table, start, end, Chosen(rows, start, end));
  }

  /** The order in which the rows come back makes no difference there. */
  lemma OrderIrrelevant(a: Rows, b: Rows, start: nat, end: nat)
    requires Sound(a, start, end) && Sound(b, start, end)
    requires forall ip :: start <= ip <= end ==> (Used(a, ip) <==> Used(b, ip))
    ensures Chosen(InRange(a, start, end), start, end) == Chosen(InRange(b, start, end), start, end)
  {
    var c := Chosen(InRange(a, start, end), start, end);
    ChosenRightExactly(a, start, end);
    ChosenRightExactly(b, start, end);
    assert IsLeastFree(b, start, end, c);
    LeastFreeIsUnique(b, start, end, c);
    LeastFreeIsUnique(b, start, end, Chosen(InRange(b, start, end), start, end));
  }

  // ---- Runs of allocations ------------------------------------------------------

  /** A build asks for an address in a range, for a host. */
  datatype Request = Request(start: nat, end: nat, host: string)

  /** One build: the scan, then the guarded insertion. */
  function Allocate(table: Rows, q: Request): (Rows, Option<nat>) {
    match Chosen(InRange(table, q.start, q.end), q.start, q.end)
    case None => (table, None)
    case Some(ip) => if Used(table, ip) then (table, None) else (table + [UsedIp(ip, q.host)], Some(ip))
  }

  /** The table after a run, and what each request got. */
  function AllocateRun(table: Rows, qs: seq<Request>): (r: (Rows, seq<Option<nat>>))
    ensures |r.1| == |qs|
    decreases |qs|
  {
    if qs == [] then (table, [])
    else
      var (next, got) := Allocate(table, qs[0]);
      var (last, rest) := AllocateRun(next, qs[1..]);
      (last, [got] + rest)
  }

  /** Nothing is allocated to two hosts. */
  ghost predicate DistinctIps(table: Rows) {
    forall i, j :: 0 <= i < j < |table| ==> table[i].ip != table[j].ip
  }

  /** Over every run of requests, for any ranges, even those on which the scan is wrong, the guard keeps the
      addresses of the table distinct; the run only appends, and appends just what was granted. */
  lemma {:induction false} RunKeepsDistinct(table: Rows, qs: seq<Request>)
    requires DistinctIps(table)
    ensures var (last, got) := AllocateRun(table, qs);
            && DistinctIps(last) && |table| <= |last| && last[..|table|] == table
            && last[|table|..] == Granted(qs, got)
    decreases |qs|
  {
    hide Allocate;
    if qs != [] {
      var (next, got) := Allocate(table, qs[0]);
      AllocateKeepsDistinct(table, qs[0]);
      RunKeepsDistinct(next, qs[1..]);
      hide DistinctIps;
      var last := AllocateRun(next, qs[1..]).0;
      assert last[..|table|] == last[..|next|][..|table|];
      assert last[|table|..] == next[|table|..] + last[|next|..];
    }
  }

  lemma AllocateKeepsDistinct(table: Rows, q: Request)
    requires DistinctIps(table)
    ensures var (next, got) := Allocate(table, q);
            DistinctIps(next) && next == table + if got.Some? then [UsedIp(got.value, q.host)] else []
  {
    hide InRange, Chosen;
  }

  /** The rows of the requests that were granted, in order. */
  function Granted(qs: seq<Request>, got: seq<Option<nat>>): Rows
    requires |qs| == |got|
  {
    if qs == [] then []
    else (if got[0].Some? then [UsedIp(got[0].value, qs[0].host)] else []) + Granted(qs[1..], got[1..])
  }

  // ---- How many allocations a range gives ---------------------------------------

  /** The number of unused addresses from ip up to end. */
  function FreeCount(table: Rows, ip: nat, end: nat): nat
    decreases end + 1 - ip
  {
    if ip > end then 0 else (if Used(table, ip) then 0 else 1) + FreeCount(table, ip + 1, end)
  }

  lemma UsedAfter(table: Rows, row: UsedIp, ip: nat)
    ensures Used(table + [row], ip) <==> Used(table, ip) || ip == row.ip
  {
    var all := table + [row];
    assert all[|table|] == row;
    if Used(table, ip) {
      var i :| 0 <= i < |table| && table[i].ip == ip;
      assert all[i].ip == ip;
    }
  }

  lemma {:induction false} FreeCountAfter(table: Rows, row: UsedIp, ip: nat, end: nat)
    requires !Used(table, row.ip)
    ensures FreeCount(table, ip, end)
            == FreeCount(table + [row], ip, end) + if ip <= row.ip <= end then 1 else 0
    decreases end + 1 - ip
  {
    if ip <= end {
      UsedAfter(table, row, ip);
      FreeCountAfter(table, row, ip + 1, end);
    }
  }

  lemma {:induction false} FreeCountZero(table: Rows, ip: nat, end: nat)
    ensures FreeCount(table, ip, end) == 0 <==> LeastFree(table, ip, end).None?
    decreases end + 1 - ip
  {
    if ip <= end { FreeCountZero(table, ip + 1, end); }
  }

  lemma {:induction false} FreeCountUnused(table: Rows, ip: nat, end: nat)
    requires ip <= end + 1 && forall a :: ip <= a <= end ==> !Used(table, a)
    ensures FreeCount(table, ip, end) == end + 1 - ip
    decreases end + 1 - ip
  {
    if ip <= end { FreeCountUnused(table, ip + 1, end); }
  }

  function Requests(start: nat, end: nat, hosts: seq<string>): seq<Request> {
    seq(|hosts|, i requires 0 <= i < |hosts| => Request(start, end, hosts[i]))
  }

  ghost predicate NoneCalledFree(table: Rows, hosts: seq<string>) {
    && (forall i :: 0 <= i < |table| ==> table[i].hostname != "free")
    && (forall i :: 0 <= i < |hosts| ==> hosts[i] != "free")
  }

  /** Request i succeeds exactly when i is less than the number of addresses that were free, each success is in
      range and was unused, and each is higher than those before it. */
  ghost predicate Ascends(table: Rows, start: nat, end: nat, got: seq<Option<nat>>) {
    && (forall i :: 0 <= i < |got| ==> (got[i].Some? <==> i < FreeCount(table, start, end)))
    && (forall i :: 0 <= i < |got| && got[i].Some? ==> start <= got[i].value <= end && !Used(table, got[i].value))
    && (forall i, j :: 0 <= i < j < |got| && got[j].Some? ==> got[i].Some? && got[i].value < got[j].value)
  }

  lemma FirstThenAscends(table: Rows, row: UsedIp, start: nat, end: nat, rest: seq<Option<nat>>)
    requires IsLeastFree(table, start, end, Some(row.ip)) && Ascends(table + [row], start, end, rest)
    ensures Ascends(table, start, end, [Some(row.ip)] + rest)
  {
    var got := [Some(row.ip)] + rest;
    FreeCountAfter(table, row, start, end);
    forall i | 0 <= i < |rest| && rest[i].Some? ensures !Used(table, rest[i].value) && row.ip < rest[i].value {
      UsedAfter(table, row, rest[i].value);
    }
    forall i | 0 <= i < |got| ensures got[i].Some? <==> i < FreeCount(table, start, end) {
      if i > 0 { assert got[i] == rest[i - 1]; }
    }
  }

  /** Builds in one range get its unused addresses from the lowest up. */
  lemma {:induction false} RunAllocatesAscending(table: Rows, start: nat, end: nat, hosts: seq<string>)
    requires start < end && NoneCalledFree(table, hosts)
    ensures Ascends(table, start, end, AllocateRun(table, Requests(start, end, hosts)).1)
    decreases |hosts|
  {
    if hosts == [] { return; }
    var qs := Requests(start, end, hosts);
    assert qs[1..] == Requests(start, end, hosts[1..]) && qs[0] == Request(start, end, hosts[0]);
    NoFreeHost(table, start, end);
    LeastFreeIs(table, start, end);
    FreeCountZero(table, start, end);
    var (next, first) := Allocate(table, qs[0]);
    assert first == LeastFree(table, start, end);
    var rest := AllocateRun(next, qs[1..]).1;
    RunAllocatesAscending(next, start, end, hosts[1..]);
    assert Ascends(next, start, end, rest);
    if first.Some? {
      FirstThenAscends(table, UsedIp(first.value, hosts[0]), start, end, rest);
    }
  }

  /** From a range with nothing used exactly as many builds succeed as it has addresses. */
  lemma EmptyRangeGivesAll(table: Rows, start: nat, end: nat, hosts: seq<string>)
    requires start < end && NoneCalledFree(table, hosts) && forall a :: start <= a <= end ==> !Used(table, a)
    ensures var got := AllocateRun(table, Requests(start, end, hosts)).1;
            forall i :: 0 <= i < |got| ==> (got[i].Some? <==> i < end - start + 1)
  {
    RunAllocatesAscending(table, start, end, hosts);
    FreeCountUnused(table, start, end);
  }
}

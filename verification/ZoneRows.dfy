/** The rows of the rev_zones table (and, for their SOA columns, of the zones table), and the statements that
    read and change them. */
module ZoneRows {
  import opened Results
  import opened Ipv4
  import opened DataElements

  /** The two databases bind an unsigned long differently: sqlite3_bind_int64 takes it as a signed 64-bit value,
      MYSQL_TYPE_LONG reads its low four bytes as unsigned. */
  datatype Backend = Sqlite | MySql

  /** The value a statement sees for a bound unsigned long. */
  function BindNumber(backend: Backend, n: nat): int
    requires n < ULONG
  {
    match backend
    case Sqlite => if n < ULONG / 2 then n else n - ULONG
    case MySql => n % SPACE
  }

  /** SQLite sees the 64 bits as a number in two's complement, MySQL the low 32 bits as they are. */
  lemma BindNumberIs(backend: Backend, n: nat)
    requires n < ULONG
    ensures var r := BindNumber(backend, n);
            if backend.Sqlite?
            then -0x8000_0000_0000_0000 <= r < 0x8000_0000_0000_0000 && (r == n || r == n - 0x1_0000_0000_0000_0000)
            else 0 <= r < SPACE && n == n / SPACE * SPACE + r
  {
  }

  /** What a stored unsigned long reads back as. */
  function KeptNumber(backend: Backend, n: nat): nat {
    if backend.MySql? then n % SPACE else n
  }

  /** How a statement that writes goes: it takes effect, it fails, or there is no connection to run it on. */
  datatype Executed = Done | Failed | Unreachable

  /** What that comes to for the caller. */
  datatype Outcome = Effective | Reported | Swallowed

  /** SQLite reports every failure. For MySQL the code takes each status that is not negative for success, and the
      statuses of its own are all positive, so only a missing connection is reported. */
  function OutcomeOf(backend: Backend, e: Executed): Outcome {
    match e
    case Done => Effective
    case Failed => if backend.MySql? then Swallowed else Reported
    case Unreachable => Reported
  }

  datatype Flag = Yes | No | Unknown

  function FlagText(f: Flag): (t: string)
    ensures t == "yes" <==> f == Yes
  {
    match f case Yes => "yes" case No => "no" case Unknown => "unknown"
  }

  datatype Kind = Master | Slave

  datatype Timers = Timers(ttl: nat, refresh: nat, retry: nat, expire: nat)

  datatype Zone = Zone(name: string, prefix: string, start: int, finish: int, primary: string, secondary: string,
                       serial: nat, timers: Timers, kind: Kind, master: string, valid: Flag, updated: Flag)

  /** The columns of the SOA query of a zone, in order. */
  datatype Layout = Layout(width: nat, serialAt: nat, updatedAt: nat)

  const FORWARD := Layout(6, 1, 5)
  const REVERSE := Layout(8, 3, 7)

  /** REV_SOA_ON_NET_RANGE: ttl, pri_dns, sec_dns, serial, refresh, retry, expire, updated. */
  function SoaColumns(z: Zone): (row: seq<Datum>)
    ensures |row| == REVERSE.width
    ensures row[REVERSE.serialAt] == Number(z.serial) && row[REVERSE.updatedAt] == Text(FlagText(z.updated))
  {
    [Number(z.timers.ttl), Text(z.primary), Text(z.secondary), Number(z.serial),
     Number(z.timers.refresh), Number(z.timers.retry), Number(z.timers.expire), Text(FlagText(z.updated))]
  }

  /** SELECT ... WHERE net_range = ? */
  function Matching(zones: seq<Zone>, name: string): (r: seq<Zone>)
    ensures forall z :: z in r ==> z in zones && z.name == name
  {
    if zones == [] then []
    else (if zones[0].name == name then [zones[0]] else []) + Matching(zones[1..], name)
  }

  /** UPDATE ... SET ... WHERE net_range = ?: a serial update also clears the updated flag. */
  datatype Change = SerialTo(serial: nat) | ValidTo(valid: Flag) | MarkUpdated

  /** The rows agree in all that a zone is added with; only its serial and its flags may differ. */
  predicate SameDefinition(z: Zone, r: Zone) {
    && r.name == z.name && r.prefix == z.prefix && r.start == z.start && r.finish == z.finish
    && r.primary == z.primary && r.secondary == z.secondary && r.timers == z.timers
    && r.kind == z.kind && r.master == z.master
  }

  function Changed(z: Zone, c: Change): (r: Zone)
    ensures r.name == z.name && r.prefix == z.prefix && r.start == z.start && r.finish == z.finish
    ensures SameDefinition(z, r)
  {
    match c
    case SerialTo(n) => z.(serial := n, updated := No)
    case ValidTo(f) => z.(valid := f)
    case MarkUpdated => z.(updated := Yes)
  }

  function Update(zones: seq<Zone>, name: string, c: Change): (r: seq<Zone>)
    ensures |r| == |zones|
    ensures forall i :: 0 <= i < |r| ==> r[i] == if zones[i].name == name then Changed(zones[i], c) else zones[i]
  {
    if zones == [] then []
    else [if zones[0].name == name then Changed(zones[0], c) else zones[0]] + Update(zones[1..], name, c)
  }

  /** A row selected after an update is the changed row. */
  lemma {:induction false} MatchingAfterUpdate(zones: seq<Zone>, name: string, c: Change)
    requires |Matching(zones, name)| == 1
    ensures Matching(Update(zones, name, c), name) == [Changed(Matching(zones, name)[0], c)]
  {
    var rest := Update(zones[1..], name, c);
    assert Update(zones, name, c)[1..] == rest;
    if zones[0].name == name {
      NoneAfterUpdate(zones[1..], name, c);
    } else {
      MatchingAfterUpdate(zones[1..], name, c);
    }
  }

  lemma {:induction false} NoneAfterUpdate(zones: seq<Zone>, name: string, c: Change)
    requires Matching(zones, name) == []
    ensures Matching(Update(zones, name, c), name) == []
  {
    if zones != [] {
      assert Update(zones, name, c)[1..] == Update(zones[1..], name, c);
      NoneAfterUpdate(zones[1..], name, c);
    }
  }

  predicate DistinctNames(zones: seq<Zone>) {
    forall i, j :: 0 <= i < j < |zones| ==> zones[i].name != zones[j].name
  }

  lemma {:induction false} NoMatch(zones: seq<Zone>, name: string)
    requires forall i :: 0 <= i < |zones| ==> zones[i].name != name
    ensures Matching(zones, name) == []
  {
    if zones != [] { NoMatch(zones[1..], name); }
  }
}

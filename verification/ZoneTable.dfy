/** The table of reverse zones under additions, deletions, updates and validations. */
module ZoneTable {
  import Arithmetic
  import opened Results
  import opened Text
  import opened Ipv4
  import opened LinkedList
  import opened DataElements
  import opened ZoneBlocks
  import opened ZoneSerial
  import opened ZoneRows
  import opened ZoneValidation
  import opened ZoneDatabase

  // ---- The overlap query --------------------------------------------------

  /** The arguments check_for_rev_zone_overlap binds, in order. */
  function OverlapArguments(start: nat, end: nat): seq<nat> { [start, end, start, start, end, end] }

  /** REV_ZONE_OVERLAP: the three-way test on one row. */
  predicate OverlapRow(start: int, finish: int, a: seq<int>)
    requires |a| == 6
  {
    (start >= a[0] && finish <= a[1]) || (start <= a[2] && finish >= a[3]) || (start <= a[4] && finish >= a[5])
  }

  function BindAll(b: Backend, args: seq<nat>): (r: seq<int>)
    requires forall i :: 0 <= i < |args| ==> args[i] < ULONG
    ensures |r| == |args| && forall i :: 0 <= i < |r| ==> r[i] == BindNumber(b, args[i])
  {
    if args == [] then [] else [BindNumber(b, args[0])] + BindAll(b, args[1..])
  }

  predicate OverlapsRow(b: Backend, z: Zone, start: nat, end: nat)
    requires start < ULONG && end < ULONG
  {
    OverlapRow(z.start, z.finish, BindAll(b, OverlapArguments(start, end)))
  }

  /** check_for_rev_zone_overlap, as a function of the rows; the query may fail. */
  function CheckOverlap(b: Backend, zones: seq<Zone>, start: nat, end: nat, queried: bool): Result<()>
    requires start < ULONG && end < ULONG
  {
    if start == 0 || end == 0 || end < start then Err(NoData)
    else if !queried then Err(QueryFail)
    else if exists i :: 0 <= i < |zones| && OverlapsRow(b, zones[i], start, end) then Err(RevZoneOverlap)
    else Ok(())
  }

  /** check_for_rev_zone_overlap */
  method CheckForRevZoneOverlap(db: Database, start: nat, end: nat, queried: bool) returns (r: Result<()>)
    requires start < ULONG && end < ULONG
    ensures r == CheckOverlap(db.backend, db.zones, start, end, queried)
  {
    if start == 0 || end == 0 || end < start {
      return Err(NoData);
    }
    var l: seq<nat> := [start] + [end];
    for i := 0 to 2
      invariant l == [start, end] + [start, start][..i]
    {
      l := l + [start];
    }
    for i := 0 to 2
      invariant l == [start, end, start, start] + [end, end][..i]
    {
      l := l + [end];
    }
    if !queried {
      return Err(QueryFail);
    }
    assert l == OverlapArguments(start, end);
    var found := false;
    for i := 0 to |db.zones|
      invariant found <==> exists j :: 0 <= j < i && OverlapsRow(db.backend, db.zones[j], start, end)
    {
      found := found || OverlapRow(db.zones[i].start, db.zones[i].finish, BindAll(db.backend, l));
    }
    return if found then Err(RevZoneOverlap) else Ok(());
  }

  /** The blocks [s1, s1 + n1) and [s2, s2 + n2) have an address in common. */
  predicate Intersect(s1: nat, n1: nat, s2: nat, n2: nat) {
    s1 < s2 + n2 && s2 < s1 + n1
  }

  /** What is stored, or bound, for the last address of a block that lies in the address space. */
  function BoundFinish(b: Backend, s: nat, n: nat): int {
    if b.Sqlite? && s + n == SPACE then -1 else s + n - 1
  }

  /** The blocks whose end SQLite keeps as -1 are compared wrongly in three ways. */
  predicate Misjudged(b: Backend, s1: nat, n1: nat, s2: nat, n2: nat) {
    && b.Sqlite?
    && var top1, top2 := s1 + n1 == SPACE, s2 + n2 == SPACE;
    || (top1 && !top2 && (s2 + n2 <= s1 || s1 < s2))
    || (!top1 && top2 && s2 < s1)
    || (top1 && top2 && s1 < s2)
  }

  /** The three-way test says whether a stored and a new block intersect, exactly when they are not one of the
      misjudged pairs: for MySQL always, for SQLite whenever neither block reaches the top of the space. */
  lemma OverlapTestExact(b: Backend, s1: nat, n1: nat, s2: nat, n2: nat)
    requires 0 < s1 && 0 < n1 && s1 + n1 <= SPACE && 0 < s2 && 0 < n2 && s2 + n2 <= SPACE
    ensures var args: seq<int> := [s2, BoundFinish(b, s2, n2), s2, s2, BoundFinish(b, s2, n2), BoundFinish(b, s2, n2)];
            (OverlapRow(s1, BoundFinish(b, s1, n1), args) <==> Intersect(s1, n1, s2, n2))
            <==> !Misjudged(b, s1, n1, s2, n2)
  {
  }

  // ---- Rows that come from add_reverse_zone -------------------------------

  /** The address block a row stands for, from its name and prefix; only an address text has a first address. */
  function First(z: Zone): Address {
    match TextToBin(z.name)
    case Ok(ip) => ip
    case Err(_) => 0
  }

  function PrefixOf(z: Zone): nat { StrToUl(z.prefix) }

  function Size(z: Zone): nat { NetRange(PrefixOf(z)) }

  /** A row as add_reverse_zone stores it. */
  predicate Stored(b: Backend, z: Zone) {
    && TextToBin(z.name).Ok? && Supported(PrefixOf(z))
    && 0 < First(z) && First(z) + Size(z) <= SPACE
    && z.start == First(z) && z.finish == BoundFinish(b, First(z), Size(z))
  }

  /** The row reaches the last address of the address space. */
  predicate AtTop(z: Zone) {
    First(z) + Size(z) == SPACE
  }

  predicate Disjoint(z1: Zone, z2: Zone) {
    !Intersect(First(z1), Size(z1), First(z2), Size(z2))
  }

  /** Every row is as an addition stores it, disjoint from the others or not. */
  predicate AllStored(b: Backend, zones: seq<Zone>) {
    forall i :: 0 <= i < |zones| ==> Stored(b, zones[i])
  }

  /** Every row is as an addition stores it, and no two rows share an address. */
  ghost predicate TableInv(b: Backend, zones: seq<Zone>) {
    && (forall i :: 0 <= i < |zones| ==> Stored(b, zones[i]))
    && (forall i, j :: 0 <= i < j < |zones| ==> Disjoint(zones[i], zones[j]))
  }

  // ---- add_reverse_zone ---------------------------------------------------

  /** A request for a zone, with what the new row takes from the configuration and the clock. */
  datatype Request = Request(range: string, prefix: nat, master: Option<string>, clock: Clock,
                             primary: string, secondary: string, timers: Timers)

  /** dnsa_populate_rev_zone: the row to insert. */
  function NewZone(b: Backend, q: Request, start: nat, end: nat): Zone
    requires start < ULONG && end < ULONG
  {
    Zone(q.range, Decimal(q.prefix), BindNumber(b, start), BindNumber(b, end), q.primary, q.secondary,
         KeptNumber(b, GenerateSerial(q.clock)), q.timers, if q.master.None? then Master else Slave,
         if q.master.None? then "NULL" else q.master.value, No, Unknown)
  }

  /** How the two statements of an addition go: the overlap query and the insertion. */
  datatype Insertion = Insertion(queried: bool, executed: Executed)

  const GOES_WELL := Insertion(true, Done)

  /** An accepted request is stored. */
  predicate Stores(b: Backend, ins: Insertion) { ins.queried && OutcomeOf(b, ins.executed) == Effective }

  /** The part of add_reverse_zone up to the insertion. */
  function InsertZone(b: Backend, zones: seq<Zone>, q: Request, ins: Insertion): (seq<Zone>, Result<()>) {
    if q.prefix == 0 then (zones, Err(NoData))
    else
      match GetStartFinish(q.range, q.prefix)
      case Err(e) => (zones, Err(e))
      case Ok((start, end)) =>
        match CheckOverlap(b, zones, start, end, ins.queried)
        case Err(e) => (zones, Err(e))
        case Ok(_) =>
          match OutcomeOf(b, ins.executed)
          case Effective => (zones + [NewZone(b, q, start, end)], Ok(()))
          case Reported => (zones, Err(QueryFail))
          case Swallowed => (zones, Ok(()))
  }

  /** A request for a zone that ends at the last address of the address space. */
  predicate RequestsTop(q: Request) {
    TextToBin(q.range).Ok? && Supported(q.prefix) && TextToBin(q.range).value + NetRange(q.prefix) == SPACE
  }

  /** What an accepted request stores. */
  lemma NewZoneStored(b: Backend, zones: seq<Zone>, q: Request)
    requires InsertZone(b, zones, q, GOES_WELL).1.Ok?
    ensures var z := InsertZone(b, zones, q, GOES_WELL).0[|zones|];
            && InsertZone(b, zones, q, GOES_WELL).0 == zones + [z] && z.name == q.range
            && Stored(b, z) && PrefixOf(z) == q.prefix && (AtTop(z) <==> RequestsTop(q))
  {
    hide Parse, Print, NetRange, GetStartFinish, GenerateSerial, Decimal, StrToUl;
    var (start, end) := GetStartFinish(q.range, q.prefix).value;
    StartFinishSucceeds(q.range, q.prefix);
    var first := TextToBin(q.range).value;
    if q.prefix == 8 {
      SlashEightValue(q.range, first);
      assert false;
    }
    StartFinishValue(q.range, first, q.prefix);
    FinishExact(q.range, first, q.prefix);
    DecimalRoundTrip(q.prefix);
  }

  /** The request names a block that can be stored. */
  predicate Storable(q: Request) {
    TextToBin(q.range).Ok? && Supported(q.prefix) && TextToBin(q.range).value != 0
    && TextToBin(q.range).value + NetRange(q.prefix) <= SPACE
  }

  /** The stored zone and the requested block have an address in common. */
  predicate Shares(z: Zone, q: Request)
    requires Storable(q)
  {
    Intersect(First(z), Size(z), TextToBin(q.range).value, NetRange(q.prefix))
  }

  predicate MisjudgedZone(b: Backend, z: Zone, q: Request)
    requires Storable(q)
  {
    Misjudged(b, First(z), Size(z), TextToBin(q.range).value, NetRange(q.prefix))
  }

  /** No stored zone is in the way, as the database sees it: it shares an address with just those it misjudges. */
  predicate Accepts(b: Backend, zones: seq<Zone>, q: Request) {
    Storable(q) && forall i :: 0 <= i < |zones| ==> (Shares(zones[i], q) <==> MisjudgedZone(b, zones[i], q))
  }

  /** Exactly these requests are accepted: the range is an address other than 0.0.0.0, the prefix is 9 to 24, the
      block lies in the address space, and it shares an address with a stored zone if and only if the database
      misjudges the two. */
  lemma AcceptedExactly(b: Backend, zones: seq<Zone>, q: Request)
    requires AllStored(b, zones)
    ensures InsertZone(b, zones, q, GOES_WELL).1.Ok? <==> Accepts(b, zones, q)
  {
    hide Parse, NetRange, GetStartFinish, StrToUl, Decimal, GenerateSerial, Misjudged, Intersect;
    StartFinishSucceeds(q.range, q.prefix);
    if TextToBin(q.range).Ok? {
      var first := TextToBin(q.range).value;
      SlashEightValue(q.range, first);
      if Supported(q.prefix) {
        StartFinishValue(q.range, first, q.prefix);
        FinishExact(q.range, first, q.prefix);
        if Storable(q) {
          forall i | 0 <= i < |zones|
            ensures OverlapsRow(b, zones[i], first, GetStartFinish(q.range, q.prefix).value.1)
                    <==> !(Shares(zones[i], q) <==> MisjudgedZone(b, zones[i], q))
          {
            RowTestExact(b, zones[i], q);
          }
        }
      }
    }
  }

  /** An accepted request names a range that no stored zone has: two blocks with one start are never misjudged. */
  lemma AcceptedNameIsNew(b: Backend, zones: seq<Zone>, q: Request, i: nat)
    requires AllStored(b, zones) && Accepts(b, zones, q) && i < |zones|
    ensures zones[i].name != q.range
  {
    hide Parse, NetRange, StrToUl;
    NetRangeIsPower(q.prefix);
    NetRangeIsPower(PrefixOf(zones[i]));
    assert Shares(zones[i], q) <==> MisjudgedZone(b, zones[i], q);
  }

  lemma EmptyTableAccepts(b: Backend, q: Request)
    ensures InsertZone(b, [], q, GOES_WELL).1.Ok? <==> Storable(q)
  {
    hide InsertZone, Storable;
    AcceptedExactly(b, [], q);
  }

  lemma RowTestExact(b: Backend, z: Zone, q: Request)
    requires Stored(b, z) && Storable(q)
    ensures GetStartFinish(q.range, q.prefix).Ok?
    ensures OverlapsRow(b, z, TextToBin(q.range).value, GetStartFinish(q.range, q.prefix).value.1)
            <==> !(Shares(z, q) <==> MisjudgedZone(b, z, q))
  {
    hide Parse, NetRange, GetStartFinish, StrToUl, Misjudged, Intersect;
    var first := TextToBin(q.range).value;
    FinishExact(q.range, first, q.prefix);
    StartFinishValue(q.range, first, q.prefix);
    OverlapTestExact(b, First(z), Size(z), first, NetRange(q.prefix));
    BoundArguments(b, first, NetRange(q.prefix), GetStartFinish(q.range, q.prefix).value.1);
  }

  lemma BoundArguments(b: Backend, first: Address, n: nat, end: nat)
    requires 0 < first && 0 < n && first + n <= SPACE && end == MinusOne(Cut(first + n))
    ensures end < ULONG
    ensures BindAll(b, OverlapArguments(first, end))
            == [first, BoundFinish(b, first, n), first, first, BoundFinish(b, first, n), BoundFinish(b, first, n)]
  {
  }

  /** A stored zone that SQLite lets the request run into: the lower of the two starts is that of a block that
      reaches the top of the address space. */
  predicate LetIn(b: Backend, z: Zone, q: Request)
    requires Storable(q)
  {
    && b.Sqlite?
    && ((AtTop(z) && First(z) < TextToBin(q.range).value) || (RequestsTop(q) && TextToBin(q.range).value < First(z)))
  }

  /** An addition that goes wrong: the request is accepted although the database lets it run into a stored zone. */
  predicate GoesWrong(b: Backend, zones: seq<Zone>, q: Request) {
    Accepts(b, zones, q) && exists i :: 0 <= i < |zones| && LetIn(b, zones[i], q)
  }

  /** Of the zones that are not in the way just those that are let in share an address. */
  lemma SharesIfLetIn(b: Backend, z: Zone, q: Request)
    requires Stored(b, z) && Storable(q) && (Shares(z, q) <==> MisjudgedZone(b, z, q))
    ensures Shares(z, q) <==> LetIn(b, z, q)
  {
    hide Parse, NetRange, StrToUl;
  }

  /** An addition, stored or not, leaves the zones disjoint exactly when it does not go wrong. */
  lemma InsertKeepsInvExactly(b: Backend, zones: seq<Zone>, q: Request, ins: Insertion)
    requires TableInv(b, zones)
    ensures TableInv(b, InsertZone(b, zones, q, ins).0) <==> !(Stores(b, ins) && GoesWrong(b, zones, q))
  {
    InsertOutcome(b, zones, q, ins);
    AcceptedExactly(b, zones, q);
    if Stores(b, ins) && Accepts(b, zones, q) {
      NewZoneStored(b, zones, q);
      hide Parse, NetRange, GetStartFinish, StrToUl, Decimal, GenerateSerial, InsertZone, NewZone, LetIn, RequestsTop,
        AtTop, OverlapRow, BindAll, MisjudgedZone, Stored, TableInv;
      var z := InsertZone(b, zones, q, GOES_WELL).0[|zones|];
      forall i | 0 <= i < |zones| ensures Disjoint(zones[i], z) <==> !LetIn(b, zones[i], q) {
        RowsStored(b, zones, i);
        SharesIfLetIn(b, zones[i], q);
        SharesIsIntersect(zones[i], z, q);
      }
      hide Disjoint;
      PlusOneInv(b, zones, z);
    }
  }

  lemma RowsStored(b: Backend, zones: seq<Zone>, i: nat)
    requires TableInv(b, zones) && i < |zones|
    ensures Stored(b, zones[i])
  {
  }

  /** The new row stands for the requested block. */
  lemma SharesIsIntersect(z: Zone, added: Zone, q: Request)
    requires Storable(q) && added.name == q.range && PrefixOf(added) == q.prefix
    ensures Shares(z, q) <==> !Disjoint(z, added)
  {
    hide Parse, NetRange, StrToUl, Intersect;
  }

  /** What is not stored changes nothing; an insertion that is swallowed returns no error either. */
  lemma InsertOutcome(b: Backend, zones: seq<Zone>, q: Request, ins: Insertion)
    ensures var (after, r) := InsertZone(b, zones, q, ins);
            && (r.Ok? <==> ins.queried && OutcomeOf(b, ins.executed) != Reported
                           && InsertZone(b, zones, q, GOES_WELL).1.Ok?)
            && (r.Err? || !Stores(b, ins) ==> after == zones)
            && (r.Ok? && Stores(b, ins) ==> after == InsertZone(b, zones, q, GOES_WELL).0)
  {
    hide GetStartFinish, NewZone;
  }

  lemma PlusOneInv(b: Backend, zones: seq<Zone>, z: Zone)
    requires TableInv(b, zones) && Stored(b, z)
    ensures TableInv(b, zones + [z]) <==> forall i :: 0 <= i < |zones| ==> Disjoint(zones[i], z)
  {
    hide Stored, Disjoint;
    var all := zones + [z];
    if TableInv(b, all) {
      forall i | 0 <= i < |zones| ensures Disjoint(zones[i], z) { assert Disjoint(all[i], all[|zones|]); }
    }
  }

  // ---- What SQLite gets wrong at the top of the address space --------------

  /** Once a zone that reaches the top is stored in SQLite, every later zone that starts no higher is refused,
      wherever it ends. */
  lemma SqliteTopRefusesLower(zones: seq<Zone>, q: Request, k: nat)
    requires k < |zones| && Stored(Sqlite, zones[k]) && AtTop(zones[k])
    requires TextToBin(q.range).Ok? && Supported(q.prefix)
    requires 0 < TextToBin(q.range).value <= First(zones[k])
    requires TextToBin(q.range).value + NetRange(q.prefix) <= SPACE
    ensures InsertZone(Sqlite, zones, q, GOES_WELL) == (zones, Err(RevZoneOverlap))
  {
    hide Parse, NetRange, GetStartFinish, StrToUl, Decimal, GenerateSerial;
    var first := TextToBin(q.range).value;
    FinishExact(q.range, first, q.prefix);
    StartFinishValue(q.range, first, q.prefix);
    var end := GetStartFinish(q.range, q.prefix).value.1;
    BoundArguments(Sqlite, first, NetRange(q.prefix), end);
    assert OverlapsRow(Sqlite, zones[k], first, end);
  }

  /** A zone that reaches the top is accepted by SQLite over every stored zone that starts higher, although the
      two share addresses. */
  lemma SqliteTopCoversHigher(z: Zone, q: Request)
    requires Stored(Sqlite, z) && !AtTop(z) && RequestsTop(q)
    requires 0 < TextToBin(q.range).value < First(z)
    ensures InsertZone(Sqlite, [z], q, GOES_WELL).1.Ok?
    ensures Intersect(First(z), Size(z), TextToBin(q.range).value, NetRange(q.prefix))
  {
    hide Parse, NetRange, GetStartFinish, StrToUl, Decimal, GenerateSerial;
    var first := TextToBin(q.range).value;
    FinishExact(q.range, first, q.prefix);
    StartFinishValue(q.range, first, q.prefix);
    var end := GetStartFinish(q.range, q.prefix).value.1;
    BoundArguments(Sqlite, first, NetRange(q.prefix), end);
    assert !OverlapsRow(Sqlite, z, first, end);
  }

  /** A run of two additions to an empty SQLite table that leaves overlapping zones: 255.255.1.0/24, then
      255.255.0.0/16. */
  lemma SqliteOverlapExample(base: Request)
    ensures var q1 := base.(range := Print(0xFFFF_0100), prefix := 24);
            var q2 := base.(range := Print(0xFFFF_0000), prefix := 16);
            var one := InsertZone(Sqlite, [], q1, GOES_WELL);
            && one.1.Ok? && |one.0| == 1
            && var two := InsertZone(Sqlite, one.0, q2, GOES_WELL);
            && two.1.Ok? && |two.0| == 2
            && TextToBin(two.0[0].name).Ok? && TextToBin(two.0[1].name).Ok? && !Disjoint(two.0[0], two.0[1])
  {
    hide Parse, Print, NetRange, GetStartFinish, StrToUl, Decimal, GenerateSerial, NewZone, InsertZone,
      Arithmetic.Pow2;
    var q1 := base.(range := Print(0xFFFF_0100), prefix := 24);
    var q2 := base.(range := Print(0xFFFF_0000), prefix := 16);
    ParsePrint(0xFFFF_0100);
    ParsePrint(0xFFFF_0000);
    NetRangeIsPower(24);
    NetRangeIsPower(16);
    Arithmetic.Pow2Values();
    AcceptedExactly(Sqlite, [], q1);
    NewZoneStored(Sqlite, [], q1);
    var one := InsertZone(Sqlite, [], q1, GOES_WELL).0;
    assert one == [one[0]];
    SqliteTopCoversHigher(one[0], q2);
    NewZoneStored(Sqlite, one, q2);
  }

  // ---- Names --------------------------------------------------------------

  /** Zones that share no address have different names. */
  lemma InvGivesDistinctNames(b: Backend, zones: seq<Zone>)
    requires TableInv(b, zones)
    ensures DistinctNames(zones)
  {
    hide Parse, NetRange, StrToUl;
    forall i, j | 0 <= i < j < |zones| ensures zones[i].name != zones[j].name {
      assert Disjoint(zones[i], zones[j]);
    }
  }

  // ---- Steps and runs -----------------------------------------------------

  datatype Step =
    | Add(request: Request, ins: Insertion, ztype: Option<string>, env: nat -> Env, recording: Executed)
    | Delete(range: string, kind: Kind, executed: Executed)
    | Mark(range: string, executed: Executed)
    | Revalidate(range: string, ztype: Option<string>, prefix: nat, env: nat -> Env, recording: Executed)

  /** delete_reverse_zone: the row with that range and type goes, when there is exactly one. */
  function DeleteZone(zones: seq<Zone>, range: string, kind: Kind): seq<Zone> {
    if |MatchingKind(zones, range, kind)| != 1 then zones else Without(zones, range, kind)
  }

  function MatchingKind(zones: seq<Zone>, range: string, kind: Kind): seq<Zone> {
    if zones == [] then []
    else (if zones[0].name == range && zones[0].kind == kind then [zones[0]] else [])
         + MatchingKind(zones[1..], range, kind)
  }

  function Without(zones: seq<Zone>, range: string, kind: Kind): seq<Zone> {
    if zones == [] then []
    else (if zones[0].name == range && zones[0].kind == kind then [] else [zones[0]])
         + Without(zones[1..], range, kind)
  }

  /** Row k, and no other, has that range and that type. */
  ghost predicate OnlyAt(zones: seq<Zone>, range: string, kind: Kind, k: nat) {
    k < |zones| && forall i :: 0 <= i < |zones| ==> (zones[i].name == range && zones[i].kind == kind <==> i == k)
  }

  lemma {:induction false} NoneOfKind(zones: seq<Zone>, range: string, kind: Kind)
    requires forall i :: 0 <= i < |zones| ==> !(zones[i].name == range && zones[i].kind == kind)
    ensures MatchingKind(zones, range, kind) == [] && Without(zones, range, kind) == zones
  {
    if zones != [] { NoneOfKind(zones[1..], range, kind); }
  }

  lemma {:induction false} OneOfKind(zones: seq<Zone>, range: string, kind: Kind, k: nat)
    requires OnlyAt(zones, range, kind, k)
    ensures |MatchingKind(zones, range, kind)| == 1 && Without(zones, range, kind) == zones[..k] + zones[k + 1..]
  {
    var rest := zones[1..];
    assert forall i :: 0 <= i < |rest| ==> rest[i] == zones[i + 1];
    if k == 0 {
      NoneOfKind(rest, range, kind);
    } else {
      OneOfKind(rest, range, kind, k - 1);
      assert zones[..k] + zones[k + 1..] == [zones[0]] + (rest[..k - 1] + rest[k..]);
    }
  }

  lemma {:induction false} SingleOfKind(zones: seq<Zone>, range: string, kind: Kind) returns (k: nat)
    requires |MatchingKind(zones, range, kind)| == 1
    ensures OnlyAt(zones, range, kind, k)
  {
    var rest := zones[1..];
    assert forall i :: 0 < i < |zones| ==> zones[i] == rest[i - 1];
    if zones[0].name == range && zones[0].kind == kind {
      NothingOfKind(rest, range, kind);
      k := 0;
    } else {
      var j := SingleOfKind(rest, range, kind);
      k := j + 1;
    }
  }

  lemma {:induction false} NothingOfKind(zones: seq<Zone>, range: string, kind: Kind)
    requires MatchingKind(zones, range, kind) == []
    ensures forall i :: 0 <= i < |zones| ==> !(zones[i].name == range && zones[i].kind == kind)
  {
    if zones != [] {
      var rest := zones[1..];
      assert forall i :: 0 < i < |zones| ==> zones[i] == rest[i - 1];
      NothingOfKind(rest, range, kind);
    }
  }

  /** A deletion takes the one row with that range and type, and nothing when there is none, or more than one. */
  lemma DeletesExactly(zones: seq<Zone>, range: string, kind: Kind)
    ensures forall k: nat :: OnlyAt(zones, range, kind, k) ==>
              DeleteZone(zones, range, kind) == zones[..k] + zones[k + 1..]
    ensures (forall k: nat :: !OnlyAt(zones, range, kind, k)) ==> DeleteZone(zones, range, kind) == zones
  {
    hide MatchingKind, Without;
    forall k: nat | OnlyAt(zones, range, kind, k)
      ensures DeleteZone(zones, range, kind) == zones[..k] + zones[k + 1..]
    {
      OneOfKind(zones, range, kind, k);
    }
    if |MatchingKind(zones, range, kind)| == 1 { var k := SingleOfKind(zones, range, kind); }
  }

  /** A validation, or the end of the process, before anything is changed. */
  function ValidateOrEnd(b: Backend, st: State, range: string, ztype: Option<string>, prefix: nat,
                         env: nat -> Env, recording: Executed): (State, Option<Result<()>>)
  {
    if Crashes(st.zones, range, ztype, prefix, env) then (st, None)
    else var (end, r) := Validate(b, st, range, ztype, prefix, env, recording); (end, Some(r))
  }

  /** add_reverse_zone up to the validation of the new zone, which may end the process when no row was stored. */
  function AddZone(b: Backend, st: State, q: Request, ins: Insertion, ztype: Option<string>, env: nat -> Env,
                   recording: Executed): (State, Option<Result<()>>)
  {
    var (zones, r) := InsertZone(b, st.zones, q, ins);
    if r.Err? then (st, Some(r)) else ValidateOrEnd(b, st.(zones := zones), q.range, ztype, q.prefix, env, recording)
  }

  function Apply(b: Backend, st: State, step: Step): State {
    match step
    case Add(q, ins, ztype, env, recording) => AddZone(b, st, q, ins, ztype, env, recording).0
    case Delete(range, kind, executed) =>
      if OutcomeOf(b, executed) == Effective then st.(zones := DeleteZone(st.zones, range, kind)) else st
    case Mark(range, executed) =>
      if OutcomeOf(b, executed) == Effective then st.(zones := Update(st.zones, range, MarkUpdated)) else st
    case Revalidate(range, ztype, prefix, env, recording) =>
      ValidateOrEnd(b, st, range, ztype, prefix, env, recording).0
  }

  ghost function Run(b: Backend, st: State, steps: seq<Step>): State
    decreases |steps|
  {
    if steps == [] then st else Run(b, Apply(b, st, steps[0]), steps[1..])
  }

  /** Two rows have that range and that type. */
  predicate Twice(zones: seq<Zone>, range: string, kind: Kind) {
    exists i, j :: 0 <= i < j < |zones| && zones[i].name == range && zones[i].kind == kind
                   && zones[j].name == range && zones[j].kind == kind
  }

  predicate Holds(zones: seq<Zone>, range: string, kind: Kind) {
    exists i :: 0 <= i < |zones| && zones[i].name == range && zones[i].kind == kind
  }

  lemma {:induction false} MatchingAround(zones: seq<Zone>, k: nat, name: string)
    requires k < |zones| && zones[k].name != name
    ensures Matching(zones[..k] + zones[k + 1..], name) == Matching(zones, name)
  {
    if k == 0 {
      assert zones[..0] + zones[1..] == zones[1..];
    } else {
      var after := zones[..k] + zones[k + 1..];
      assert after[0] == zones[0] && after[1..] == zones[1..][..k - 1] + zones[1..][k..];
      MatchingAround(zones[1..], k - 1, name);
    }
  }

  /** After a deletion that takes effect no row has that range and that type, unless two had before; every other zone's
      rows, and the files, are as they were. */
  lemma DeleteStep(b: Backend, st: State, range: string, kind: Kind, executed: Executed)
    requires OutcomeOf(b, executed) == Effective
    ensures var end := Apply(b, st, Delete(range, kind, executed));
            && end.files == st.files
            && (Holds(end.zones, range, kind) <==> Twice(st.zones, range, kind))
            && forall name :: name != range ==> Matching(end.zones, name) == Matching(st.zones, name)
  {
    var zones := st.zones;
    DeletesExactly(zones, range, kind);
    hide DeleteZone, Matching, Twice, Holds;
    if k: nat :| OnlyAt(zones, range, kind, k) {
      forall name | name != range ensures Matching(zones[..k] + zones[k + 1..], name) == Matching(zones, name) {
        MatchingAround(zones, k, name);
      }
      OneIsGone(zones, range, kind, k);
    } else {
      HoldsOrTwice(zones, range, kind);
    }
  }

  lemma OneIsGone(zones: seq<Zone>, range: string, kind: Kind, k: nat)
    requires OnlyAt(zones, range, kind, k)
    ensures !Holds(zones[..k] + zones[k + 1..], range, kind) && !Twice(zones, range, kind)
  {
    var after := zones[..k] + zones[k + 1..];
    assert forall i :: 0 <= i < |after| ==> after[i] == if i < k then zones[i] else zones[i + 1];
  }

  lemma HoldsOrTwice(zones: seq<Zone>, range: string, kind: Kind)
    requires forall k: nat :: !OnlyAt(zones, range, kind, k)
    ensures Holds(zones, range, kind) <==> Twice(zones, range, kind)
  {
    if Holds(zones, range, kind) {
      var i :| 0 <= i < |zones| && zones[i].name == range && zones[i].kind == kind;
      assert !OnlyAt(zones, range, kind, i);
    }
  }

  /** add_reverse_zone, up to the validation of the new zone, when the process does not end there. */
  method AddAndValidate(db: Database, q: Request, ins: Insertion, ztype: Option<string>, env: nat -> Env,
                        recording: Executed) returns (r: Result<()>)
    requires AddZone(db.backend, State(db.zones, db.files), q, ins, ztype, env, recording).1.Some?
    modifies db
    ensures (State(db.zones, db.files), Some(r))
            == AddZone(db.backend, old(State(db.zones, db.files)), q, ins, ztype, env, recording)
  {
    if q.prefix == 0 {
      return Err(NoData);
    }
    var ends :- GetStartFinish(q.range, q.prefix);
    var (start, end) := ends;
    var _ :- CheckForRevZoneOverlap(db, start, end, ins.queried);
    match OutcomeOf(db.backend, ins.executed) {
      case Effective => db.zones := db.zones + [NewZone(db.backend, q, start, end)];
      case Reported => return Err(QueryFail);
      case Swallowed =>
    }
    r := db.ValidateRevZone(q.range, ztype, q.prefix, env, recording);
  }

  lemma InsertedMatching(b: Backend, zones: seq<Zone>, q: Request, ins: Insertion)
    requires InsertZone(b, zones, q, ins).1.Ok? && Stores(b, ins)
    ensures Matching(InsertZone(b, zones, q, ins).0, q.range) != []
  {
    hide TextToBin, GetZoneIndex, GetOffsetIp, CheckOverlap, Matching;
    var (start, end) := GetStartFinish(q.range, q.prefix).value;
    MatchingAppend(zones, NewZone(b, q, start, end), q.range);
  }

  /** An addition that is stored, or refused, always returns. */
  lemma AdditionReturns(b: Backend, st: State, q: Request, ins: Insertion, ztype: Option<string>, env: nat -> Env,
                        recording: Executed)
    requires Stores(b, ins) || InsertZone(b, st.zones, q, ins).1.Err?
    ensures AddZone(b, st, q, ins, ztype, env, recording).1.Some?
  {
    hide InsertZone, Validate, Matching;
    if InsertZone(b, st.zones, q, ins).1.Ok? { InsertedMatching(b, st.zones, q, ins); }
  }

  // ---- The row of an addition ----------------------------------------------

  /** The row holds what the request asks for: a master zone of no other server, or a slave of the one named. */
  predicate IsRequested(b: Backend, z: Zone, q: Request) {
    && z.name == q.range && PrefixOf(z) == q.prefix
    && (z.kind == Master <==> q.master == None) && z.master == (match q.master case Some(m) => m case None => "NULL")
    && z.primary == q.primary && z.secondary == q.secondary && z.timers == q.timers
    && z.serial == KeptNumber(b, GenerateSerial(q.clock))
  }

  lemma InsertedAsRequested(b: Backend, zones: seq<Zone>, q: Request)
    requires InsertZone(b, zones, q, GOES_WELL).1.Ok? && |InsertZone(b, zones, q, GOES_WELL).0| == |zones| + 1
    requires PrefixOf(InsertZone(b, zones, q, GOES_WELL).0[|zones|]) == q.prefix
    ensures var z := InsertZone(b, zones, q, GOES_WELL).0[|zones|];
            IsRequested(b, z, q) && z.valid == No && z.updated == Unknown
  {
    hide GetStartFinish, CheckOverlap, GenerateSerial, KeptNumber, Decimal, PrefixOf;
  }

  /** An accepted request that is stored is the one row read back under its range: as requested, and not yet valid. */
  lemma InsertedRow(b: Backend, zones: seq<Zone>, q: Request)
    requires AllStored(b, zones) && InsertZone(b, zones, q, GOES_WELL).1.Ok?
    ensures var rows := Matching(InsertZone(b, zones, q, GOES_WELL).0, q.range);
            |rows| == 1 && IsRequested(b, rows[0], q) && rows[0].valid == No && rows[0].updated == Unknown
  {
    NewZoneStored(b, zones, q);
    AcceptedExactly(b, zones, q);
    forall i | 0 <= i < |zones| ensures zones[i].name != q.range { AcceptedNameIsNew(b, zones, q, i); }
    hide AllStored, Accepts, GetStartFinish, CheckOverlap, GenerateSerial, Parse, StrToUl, Decimal, Stored, Matching,
      InsertZone, IsRequested, KeptNumber;
    NoMatch(zones, q.range);
    MatchingAppend(zones, InsertZone(b, zones, q, GOES_WELL).0[|zones|], q.range);
    InsertedAsRequested(b, zones, q);
  }

  /** And it stays so through the validation that ends the addition. */
  lemma AddedRow(b: Backend, st: State, q: Request, ins: Insertion, ztype: Option<string>, env: nat -> Env,
                 recording: Executed)
    requires AllStored(b, st.zones) && Stores(b, ins) && InsertZone(b, st.zones, q, ins).1.Ok?
    ensures var rows := Matching(AddZone(b, st, q, ins, ztype, env, recording).0.zones, q.range);
            |rows| == 1 && IsRequested(b, rows[0], q)
  {
    InsertOutcome(b, st.zones, q, ins);
    InsertedRow(b, st.zones, q);
    hide AllStored, InsertZone, IsRequested, Matching, Update;
    var zones := InsertZone(b, st.zones, q, ins).0;
    ValidationKeepsRow(b, st.(zones := zones), q.range, ztype, q.prefix, env, recording);
    RequestedStays(b, Matching(zones, q.range)[0],
                   Matching(AddZone(b, st, q, ins, ztype, env, recording).0.zones, q.range)[0], q);
  }

  lemma RequestedStays(b: Backend, z: Zone, r: Zone, q: Request)
    requires IsRequested(b, z, q) && SameDefinition(z, r) && r.serial == z.serial
    ensures IsRequested(b, r, q)
  {
  }

  /** A validation of a zone that is not marked updated leaves all of its row but its valid column. */
  lemma ValidationKeepsRow(b: Backend, st: State, range: string, ztype: Option<string>, prefix: nat, env: nat -> Env,
                           recording: Executed)
    requires |Matching(st.zones, range)| == 1 && Matching(st.zones, range)[0].updated != Yes
    ensures var rows := Matching(ValidateOrEnd(b, st, range, ztype, prefix, env, recording).0.zones, range);
            var z := Matching(st.zones, range)[0];
            |rows| == 1 && SameDefinition(z, rows[0]) && rows[0].serial == z.serial && rows[0].updated == z.updated
  {
    hide GetZoneIndex, Matching, Update, ValidateFrom, EndsEarly;
    if ztype != Some("slave") && GetZoneIndex(prefix).Ok? {
      QuietRounds(b, st, range, prefix, 0, GetZoneIndex(prefix).value, env);
    }
    MatchingAfterUpdate(st.zones, range, ValidTo(Yes));
    MatchingAfterUpdate(st.zones, range, ValidTo(No));
  }

  /** Marking a zone sets its updated flag and leaves the rest of its row, every other row, and the files. */
  lemma MarkStep(b: Backend, st: State, range: string, executed: Executed)
    requires OutcomeOf(b, executed) == Effective && |Matching(st.zones, range)| == 1
    ensures var end, z := Apply(b, st, Step.Mark(range, executed)), Matching(st.zones, range)[0];
            && end.files == st.files && |end.zones| == |st.zones|
            && (forall i :: 0 <= i < |st.zones| && st.zones[i].name != range ==> end.zones[i] == st.zones[i])
            && |Matching(end.zones, range)| == 1
            && var r := Matching(end.zones, range)[0];
               SameDefinition(z, r) && r.serial == z.serial && r.valid == z.valid && r.updated == Yes
  {
    hide Matching, Update;
    MatchingAfterUpdate(st.zones, range, MarkUpdated);
  }

  // ---- An insertion that MySQL fails and the code takes for done -------------

  /** The first sub-zone of an accepted request has an address. */
  lemma FirstSubZone(q: Request)
    requires Storable(q)
    ensures GetZoneIndex(q.prefix).Ok? && 1 <= GetZoneIndex(q.prefix).value && GetOffsetIp(q.range, q.prefix, 0).Ok?
  {
    hide Parse, GetZoneIndex, GetOffsetIp, NetRange;
    SubZonesFillZone(q.prefix);
    OffsetIpText(q.range, TextToBin(q.range).value, q.prefix, 0);
  }

  lemma NothingUpdated(zones: seq<Zone>, name: string, c: Change)
    requires forall i :: 0 <= i < |zones| ==> zones[i].name != name
    ensures Matching(zones, name) == [] && Update(zones, name, c) == zones
  {
    hide Update;
    NoMatch(zones, name);
  }

  /** A validation of a zone that has sub-zones but no row. */
  lemma MissingZone(b: Backend, st: State, range: string, ztype: Option<string>, prefix: nat, env: nat -> Env,
                    recording: Executed)
    requires forall i :: 0 <= i < |st.zones| ==> st.zones[i].name != range
    requires GetZoneIndex(prefix).Ok? && 1 <= GetZoneIndex(prefix).value && GetOffsetIp(range, prefix, 0).Ok?
    ensures ValidateOrEnd(b, st, range, ztype, prefix, env, recording)
            == if ztype == Some("slave")
               then (st, Some(if OutcomeOf(b, recording) == Reported then Err(QueryFail) else Ok(())))
               else if !env(0).readable then (st, Some(Err(QueryFail)))
               else (st, None)
  {
    NothingUpdated(st.zones, range, ValidTo(Yes));
    hide GetZoneIndex, GetOffsetIp, Matching, Update, OutcomeOf;
  }

  /** When the insertion of an accepted request is swallowed there is no row. For a slave the code goes on all the same
      and returns no error, unless the recording is reported; any other zone ends in an error when its SOA cannot be
      read, and otherwise the process ends, because the code follows null. */
  lemma SwallowedInsertion(b: Backend, st: State, q: Request, ins: Insertion, ztype: Option<string>, env: nat -> Env,
                           recording: Executed)
    requires AllStored(b, st.zones) && Accepts(b, st.zones, q)
    requires ins.queried && OutcomeOf(b, ins.executed) == Swallowed
    ensures AddZone(b, st, q, ins, ztype, env, recording)
            == if ztype == Some("slave")
               then (st, Some(if OutcomeOf(b, recording) == Reported then Err(QueryFail) else Ok(())))
               else if !env(0).readable then (st, Some(Err(QueryFail)))
               else (st, None)
  {
    InsertOutcome(b, st.zones, q, ins);
    AcceptedExactly(b, st.zones, q);
    forall i | 0 <= i < |st.zones| ensures st.zones[i].name != q.range { AcceptedNameIsNew(b, st.zones, q, i); }
    FirstSubZone(q);
    hide InsertZone, AllStored, Accepts, Storable, GetZoneIndex, GetOffsetIp, ValidateOrEnd;
    MissingZone(b, st, q.range, ztype, q.prefix, env, recording);
  }

  lemma EmptyAccepts(b: Backend, q: Request)
    ensures AllStored(b, []) && (Accepts(b, [], q) <==> Storable(q))
  {
  }

  /** MySQL, an empty table and a slave zone whose insertion fails: no error, and no row. */
  lemma SwallowedInsertionExample(base: Request, env: nat -> Env, recording: Executed)
    requires recording != Unreachable
    ensures var q := base.(range := Print(0x0A00_0000), prefix := 24);
            AddZone(MySql, State([], []), q, Insertion(true, Executed.Failed), Some("slave"), env, recording)
            == (State([], []), Some(Ok(())))
  {
    var q := base.(range := Print(0x0A00_0000), prefix := 24);
    hide Parse, Print, NetRange, AddZone, GetZoneIndex, Accepts, AllStored;
    assert Storable(q) by {
      ParsePrint(0x0A00_0000);
      SubZonesFillZone(24);
    }
    EmptyAccepts(MySql, q);
    hide Storable;
    SwallowedInsertion(MySql, State([], []), q, Insertion(true, Executed.Failed), Some("slave"), env, recording);
  }

  /** Rows of other names are as they were. */
  predicate OthersKept(zones: seq<Zone>, zones': seq<Zone>, name: string) {
    |zones| == |zones'| && forall i :: 0 <= i < |zones| && zones[i].name != name ==> zones'[i] == zones[i]
  }

  /** The rows are for the same zones: their serials and flags may differ. */
  predicate SameZones(zones: seq<Zone>, zones': seq<Zone>) {
    |zones| == |zones'| && forall i :: 0 <= i < |zones| ==> SameDefinition(zones[i], zones'[i])
  }

  lemma SameZonesKeepInv(b: Backend, zones: seq<Zone>, zones': seq<Zone>)
    requires TableInv(b, zones) && SameZones(zones, zones')
    ensures TableInv(b, zones')
  {
    hide Parse, NetRange, StrToUl;
    forall i, j | 0 <= i < j < |zones'| ensures Disjoint(zones'[i], zones'[j]) {
      assert Disjoint(zones[i], zones[j]);
    }
  }

  lemma SameZonesKeepStored(b: Backend, zones: seq<Zone>, zones': seq<Zone>)
    requires AllStored(b, zones) && SameZones(zones, zones')
    ensures AllStored(b, zones')
  {
    hide Parse, NetRange, StrToUl;
  }

  lemma {:induction false} RoundsKeepZones(b: Backend, st: State, range: string, prefix: nat, i: nat, count: nat,
                                            env: nat -> Env)
    requires i <= count && (Matching(st.zones, range) != [] || EndsEarly(range, prefix, i, count, env))
    ensures SameZones(st.zones, ValidateFrom(b, st, range, prefix, i, count, env).0.zones)
    ensures OthersKept(st.zones, ValidateFrom(b, st, range, prefix, i, count, env).0.zones, range)
    decreases count - i
  {
    hide GetOffsetIp, Matching, Update, GenerateSerial, NextSerial, KeptNumber;
    if i < count && !EndsEarly(range, prefix, i, count, env) {
      var (next, r) := WriteFile(b, st, range, prefix, i, env(i));
      WriteFileKeepsMatching(b, st, range, prefix, i, env(i));
      if r.Ok? && env(i).passed {
        RoundsKeepZones(b, next, range, prefix, i + 1, count, env);
      }
    }
  }

  lemma ValidateKeepsZones(b: Backend, st: State, range: string, ztype: Option<string>, prefix: nat,
                            env: nat -> Env, recording: Executed)
    ensures SameZones(st.zones, ValidateOrEnd(b, st, range, ztype, prefix, env, recording).0.zones)
    ensures OthersKept(st.zones, ValidateOrEnd(b, st, range, ztype, prefix, env, recording).0.zones, range)
  {
    hide GetZoneIndex, Matching, Update, ValidateFrom, EndsEarly;
    if !Crashes(st.zones, range, ztype, prefix, env) && ztype != Some("slave") && GetZoneIndex(prefix).Ok? {
      RoundsKeepZones(b, st, range, prefix, 0, GetZoneIndex(prefix).value, env);
    }
  }

  lemma {:induction false} WithoutKeepsRows(zones: seq<Zone>, range: string, kind: Kind)
    ensures forall z :: z in Without(zones, range, kind) ==> z in zones
  {
    if zones != [] { WithoutKeepsRows(zones[1..], range, kind); }
  }

  lemma {:induction false} WithoutKeepsInv(b: Backend, zones: seq<Zone>, range: string, kind: Kind)
    requires TableInv(b, zones)
    ensures TableInv(b, Without(zones, range, kind))
  {
    hide Stored, Disjoint, TextToBin;
    if zones != [] {
      var z, rest := zones[0], Without(zones[1..], range, kind);
      WithoutKeepsInv(b, zones[1..], range, kind);
      WithoutKeepsRows(zones[1..], range, kind);
      forall j | 0 <= j < |rest| ensures Stored(b, rest[j]) && Disjoint(z, rest[j]) {
        assert rest[j] in zones[1..];
        var i :| 0 <= i < |zones[1..]| && zones[1..][i] == rest[j];
        assert zones[i + 1] == rest[j];
      }
      AddFront(b, z, rest);
    }
  }

  lemma AddFront(b: Backend, z: Zone, rest: seq<Zone>)
    requires TableInv(b, rest) && Stored(b, z)
    requires forall j :: 0 <= j < |rest| ==> Stored(b, rest[j]) && Disjoint(z, rest[j])
    ensures TableInv(b, [z] + rest)
  {
    hide Stored, Disjoint;
  }

  lemma SameZonesInv(b: Backend, zones: seq<Zone>, zones': seq<Zone>)
    requires SameZones(zones, zones')
    ensures TableInv(b, zones) <==> TableInv(b, zones')
  {
    if TableInv(b, zones) { SameZonesKeepInv(b, zones, zones'); }
    if TableInv(b, zones') { SameZonesKeepInv(b, zones', zones); }
  }

  /** The step is not an addition that goes wrong. */
  predicate AdmissibleStep(b: Backend, zones: seq<Zone>, step: Step) {
    step.Add? && Stores(b, step.ins) ==> !GoesWrong(b, zones, step.request)
  }

  lemma AddKeepsZones(b: Backend, st: State, q: Request, ins: Insertion, ztype: Option<string>, env: nat -> Env,
                       recording: Executed)
    ensures SameZones(InsertZone(b, st.zones, q, ins).0,
                       AddZone(b, st, q, ins, ztype, env, recording).0.zones)
  {
    InsertOutcome(b, st.zones, q, ins);
    hide InsertZone, ValidateOrEnd;
    var (zones, r) := InsertZone(b, st.zones, q, ins);
    ValidateKeepsZones(b, st.(zones := zones), q.range, ztype, q.prefix, env, recording);
  }

  lemma AddKeepsStored(b: Backend, st: State, q: Request, ins: Insertion, ztype: Option<string>, env: nat -> Env,
                       recording: Executed)
    requires AllStored(b, st.zones)
    ensures AllStored(b, AddZone(b, st, q, ins, ztype, env, recording).0.zones)
  {
    InsertOutcome(b, st.zones, q, ins);
    if InsertZone(b, st.zones, q, ins).1.Ok? { NewZoneStored(b, st.zones, q); }
    AddKeepsZones(b, st, q, ins, ztype, env, recording);
    hide InsertZone, AddZone, Stored;
    SameZonesKeepStored(b, InsertZone(b, st.zones, q, ins).0,
                         AddZone(b, st, q, ins, ztype, env, recording).0.zones);
  }

  lemma ApplyKeepsInvExactly(b: Backend, st: State, step: Step)
    requires TableInv(b, st.zones)
    ensures TableInv(b, Apply(b, st, step).zones) <==> AdmissibleStep(b, st.zones, step)
  {
    match step
    case Add(q, ins, ztype, env, recording) =>
      hide TableInv, InsertZone, GoesWrong, AddZone;
      InsertKeepsInvExactly(b, st.zones, q, ins);
      AddKeepsZones(b, st, q, ins, ztype, env, recording);
      SameZonesInv(b, InsertZone(b, st.zones, q, ins).0, Apply(b, st, step).zones);
    case Delete(range, kind, executed) =>
      WithoutKeepsInv(b, st.zones, range, kind);
    case Mark(range, executed) =>
      hide TableInv;
      SameZonesInv(b, st.zones, Update(st.zones, range, MarkUpdated));
    case Revalidate(range, ztype, prefix, env, recording) =>
      hide TableInv, ValidateOrEnd;
      ValidateKeepsZones(b, st, range, ztype, prefix, env, recording);
      SameZonesInv(b, st.zones, Apply(b, st, step).zones);
  }

  lemma ApplyKeepsStored(b: Backend, st: State, step: Step)
    requires AllStored(b, st.zones)
    ensures AllStored(b, Apply(b, st, step).zones)
  {
    match step
    case Add(q, ins, ztype, env, recording) =>
      hide AllStored, AddZone;
      AddKeepsStored(b, st, q, ins, ztype, env, recording);
    case Delete(range, kind, executed) =>
      WithoutKeepsRows(st.zones, range, kind);
      FewerStored(b, st.zones, DeleteZone(st.zones, range, kind));
    case Mark(range, executed) =>
      hide AllStored;
      SameZonesKeepStored(b, st.zones, Update(st.zones, range, MarkUpdated));
    case Revalidate(range, ztype, prefix, env, recording) =>
      hide AllStored, ValidateOrEnd;
      ValidateKeepsZones(b, st, range, ztype, prefix, env, recording);
      SameZonesKeepStored(b, st.zones, Apply(b, st, step).zones);
  }

  lemma FewerStored(b: Backend, zones: seq<Zone>, zones': seq<Zone>)
    requires AllStored(b, zones) && forall z :: z in zones' ==> z in zones
    ensures AllStored(b, zones')
  {
    hide Stored;
    forall i | 0 <= i < |zones'| ensures Stored(b, zones'[i]) {
      assert zones'[i] in zones;
      var k :| 0 <= k < |zones| && zones[k] == zones'[i];
    }
  }

  /** The zones are disjoint in every state of a run. */
  ghost predicate InvThroughout(b: Backend, st: State, steps: seq<Step>)
    decreases |steps|
  {
    TableInv(b, st.zones) && (steps == [] || InvThroughout(b, Apply(b, st, steps[0]), steps[1..]))
  }

  ghost predicate AdmissibleRun(b: Backend, st: State, steps: seq<Step>)
    decreases |steps|
  {
    steps == [] || (AdmissibleStep(b, st.zones, steps[0]) && AdmissibleRun(b, Apply(b, st, steps[0]), steps[1..]))
  }

  /** Over every run of additions, deletions, updates and validations the zones are pairwise disjoint throughout,
      exactly when no addition goes wrong. */
  lemma {:induction false} RunKeepsInvExactly(b: Backend, st: State, steps: seq<Step>)
    requires TableInv(b, st.zones)
    ensures InvThroughout(b, st, steps) <==> AdmissibleRun(b, st, steps)
    decreases |steps|
  {
    if steps != [] {
      hide Apply, AdmissibleStep, TableInv;
      ApplyKeepsInvExactly(b, st, steps[0]);
      if TableInv(b, Apply(b, st, steps[0]).zones) {
        RunKeepsInvExactly(b, Apply(b, st, steps[0]), steps[1..]);
      }
    }
  }

  lemma {:induction false} InvAtEnd(b: Backend, st: State, steps: seq<Step>)
    requires InvThroughout(b, st, steps)
    ensures TableInv(b, Run(b, st, steps).zones)
    decreases |steps|
  {
    hide Apply, TableInv;
    if steps != [] { InvAtEnd(b, Apply(b, st, steps[0]), steps[1..]); }
  }

  /** What a caller can see beforehand: no zone, stored or requested, reaches the top of the address space. */
  predicate OffTop(b: Backend, zones: seq<Zone>) {
    b.Sqlite? ==> forall i :: 0 <= i < |zones| ==> !AtTop(zones[i])
  }

  predicate Safe(b: Backend, step: Step) {
    b.Sqlite? && step.Add? ==> !RequestsTop(step.request)
  }

  lemma InsertStaysOffTop(b: Backend, zones: seq<Zone>, q: Request, ins: Insertion)
    requires OffTop(b, zones) && (b.Sqlite? ==> !RequestsTop(q))
    ensures OffTop(b, InsertZone(b, zones, q, ins).0) && !GoesWrong(b, zones, q)
  {
    InsertOutcome(b, zones, q, ins);
    hide InsertZone, AtTop, RequestsTop, Accepts;
    if InsertZone(b, zones, q, ins).1.Ok? { NewZoneStored(b, zones, q); }
  }

  lemma ApplyStaysOffTop(b: Backend, st: State, step: Step)
    requires OffTop(b, st.zones) && Safe(b, step)
    ensures OffTop(b, Apply(b, st, step).zones) && AdmissibleStep(b, st.zones, step)
  {
    match step
    case Add(q, ins, ztype, env, recording) =>
      InsertStaysOffTop(b, st.zones, q, ins);
      hide InsertZone, AddZone, OffTop, GoesWrong;
      AddKeepsZones(b, st, q, ins, ztype, env, recording);
      SameZonesOffTop(b, InsertZone(b, st.zones, q, ins).0, Apply(b, st, step).zones);
    case Delete(range, kind, executed) =>
      WithoutKeepsRows(st.zones, range, kind);
      FewerOffTop(b, st.zones, DeleteZone(st.zones, range, kind));
    case Mark(range, executed) =>
      SameZonesOffTop(b, st.zones, Update(st.zones, range, MarkUpdated));
    case Revalidate(range, ztype, prefix, env, recording) =>
      hide ValidateOrEnd;
      ValidateKeepsZones(b, st, range, ztype, prefix, env, recording);
      SameZonesOffTop(b, st.zones, Apply(b, st, step).zones);
  }

  lemma FewerOffTop(b: Backend, zones: seq<Zone>, zones': seq<Zone>)
    requires OffTop(b, zones) && forall z :: z in zones' ==> z in zones
    ensures OffTop(b, zones')
  {
    hide AtTop;
    forall i | 0 <= i < |zones'| && b.Sqlite? ensures !AtTop(zones'[i]) {
      assert zones'[i] in zones;
      var k :| 0 <= k < |zones| && zones[k] == zones'[i];
    }
  }

  lemma SameZonesOffTop(b: Backend, zones: seq<Zone>, zones': seq<Zone>)
    requires SameZones(zones, zones') && OffTop(b, zones)
    ensures OffTop(b, zones')
  {
    hide Parse, NetRange, StrToUl;
    forall i | 0 <= i < |zones'| && b.Sqlite? ensures !AtTop(zones'[i]) { assert !AtTop(zones[i]); }
  }

  /** So the zones stay pairwise disjoint, and their names distinct, over every MySQL run, and over every SQLite run
      whose zones all end below the top. */
  lemma {:induction false} RunKeepsInv(b: Backend, st: State, steps: seq<Step>)
    requires TableInv(b, st.zones) && OffTop(b, st.zones) && forall i :: 0 <= i < |steps| ==> Safe(b, steps[i])
    ensures InvThroughout(b, st, steps)
    ensures TableInv(b, Run(b, st, steps).zones) && DistinctNames(Run(b, st, steps).zones)
    decreases |steps|
  {
    if steps == [] {
      InvGivesDistinctNames(b, st.zones);
    } else {
      hide Apply, AdmissibleStep, TableInv, OffTop, Safe;
      ApplyStaysOffTop(b, st, steps[0]);
      ApplyKeepsInvExactly(b, st, steps[0]);
      RunKeepsInv(b, Apply(b, st, steps[0]), steps[1..]);
    }
  }

  // ---- The serial of one zone over a run ------------------------------------

  lemma {:induction false} MatchingKept(zones: seq<Zone>, zones': seq<Zone>, changed: string, name: string)
    requires OthersKept(zones, zones', changed) && SameZones(zones, zones') && changed != name
    ensures Matching(zones', name) == Matching(zones, name)
  {
    if zones != [] {
      assert forall i :: 0 <= i < |zones[1..]| ==> zones[1..][i] == zones[i + 1] && zones'[1..][i] == zones'[i + 1];
      MatchingKept(zones[1..], zones'[1..], changed, name);
    }
  }

  /** The steps that leave the set of zones alone. */
  predicate Upkeep(step: Step) { step.Mark? || step.Revalidate? }

  /** What an upkeep step is for the SOA of one zone: for a validation of that zone a check with the clock of the
      round that stores, if there is one. */
  function Projected(b: Backend, step: Step, name: string): seq<SoaStep>
    requires Upkeep(step)
  {
    if step.range != name then []
    else if step.Mark? then (if OutcomeOf(b, step.executed) == Effective then [SoaStep.Mark] else [])
    else [CheckOf(b, name, step.ztype, step.prefix, step.env)]
  }

  /** Numbers below the limit are stored unchanged. */
  function Limit(b: Backend): nat { if b.MySql? then SPACE else ULONG }

  /** An upkeep step acts on the SOA of a zone as its projection does. */
  lemma StepProjects(b: Backend, st: State, step: Step, name: string)
    requires |Matching(st.zones, name)| == 1 && Upkeep(step)
    requires forall check :: check in Projected(b, step, name) ==> Keeps(b, Matching(st.zones, name)[0], check)
    ensures |Matching(Apply(b, st, step).zones, name)| == 1
    ensures SoaOf(Matching(Apply(b, st, step).zones, name)[0])
            == RunSoa(SoaOf(Matching(st.zones, name)[0]), Projected(b, step, name))
    ensures SameZones(st.zones, Apply(b, st, step).zones)
  {
    hide Validate, Matching, Update, CheckOf, Keeps, OutcomeOf, StepSoa;
    var soa := SoaOf(Matching(st.zones, name)[0]);
    var p := Projected(b, step, name);
    assert p != [] ==> RunSoa(soa, p) == StepSoa(soa, p[0]) by {
      if p != [] { assert p[1..] == []; }
    }
    if step.Mark? {
      MarkProjects(st.zones, step.range, name);
    } else {
      ValidateKeepsZones(b, st, step.range, step.ztype, step.prefix, step.env, step.recording);
      if step.range == name {
        assert CheckOf(b, name, step.ztype, step.prefix, step.env) in p;
        ValidationChecksOnce(b, st, name, step.ztype, step.prefix, step.env, step.recording);
      } else {
        MatchingKept(st.zones, Apply(b, st, step).zones, step.range, name);
      }
    }
  }

  lemma MarkProjects(zones: seq<Zone>, range: string, name: string)
    requires |Matching(zones, name)| == 1
    ensures var after := Update(zones, range, MarkUpdated);
            && |Matching(after, name)| == 1 && SameZones(zones, after)
            && var soa := SoaOf(Matching(zones, name)[0]);
            SoaOf(Matching(after, name)[0]) == if range == name then StepSoa(soa, SoaStep.Mark) else soa
  {
    hide Matching, Update;
    if range == name {
      MatchingAfterUpdate(zones, name, MarkUpdated);
    } else {
      MatchingKept(zones, Update(zones, range, MarkUpdated), range, name);
    }
  }

  /** The steps of a run, as the SOA of one zone sees them. */
  function ProjectedRun(b: Backend, steps: seq<Step>, name: string): seq<SoaStep>
    requires forall i :: 0 <= i < |steps| ==> Upkeep(steps[i])
    decreases |steps|
  {
    if steps == [] then [] else Projected(b, steps[0], name) + ProjectedRun(b, steps[1..], name)
  }

  /** Over every run of updates and validations of any zones, with any clock, the SOA of each zone moves as the
      single-zone run of its own steps does, as long as its serial stays below what the database stores. */
  lemma {:induction false} RunProjects(b: Backend, st: State, steps: seq<Step>, name: string)
    requires forall i :: 0 <= i < |steps| ==> Upkeep(steps[i])
    requires |Matching(st.zones, name)| == 1
    requires var p := ProjectedRun(b, steps, name);
             LargestDated(Matching(st.zones, name)[0].serial, p) + |p| < Limit(b)
    ensures var end := Matching(Run(b, st, steps).zones, name);
            |end| == 1 && SoaOf(end[0])
                          == RunSoa(SoaOf(Matching(st.zones, name)[0]), ProjectedRun(b, steps, name))
    decreases |steps|
  {
    hide Apply, Matching, GenerateSerial, NextSerial, LargestDated;
    if steps != [] {
      var soa := SoaOf(Matching(st.zones, name)[0]);
      var next := Apply(b, st, steps[0]);
      var first, rest := Projected(b, steps[0], name), ProjectedRun(b, steps[1..], name);
      SplitRun(soa, first, rest, Limit(b));
      BelowLimit(b, Matching(st.zones, name)[0], first);
      StepProjects(b, st, steps[0], name);
      RunProjects(b, next, steps[1..], name);
    }
  }

  /** Below the limit every check is kept. */
  lemma BelowLimit(b: Backend, z: Zone, p: seq<SoaStep>)
    requires |p| <= 1 && (p != [] && p[0].Check? ==> NextSerial(z.serial, p[0].dated) < Limit(b))
    ensures forall check :: check in p ==> Keeps(b, z, check)
  {
    hide NextSerial;
    forall check | check in p ensures Keeps(b, z, check) { assert check == p[0]; }
  }

  lemma SplitRun(soa: Soa, first: seq<SoaStep>, rest: seq<SoaStep>, limit: nat)
    requires |first| <= 1 && LargestDated(soa.serial, first + rest) + |first + rest| < limit <= ULONG
    ensures RunSoa(soa, first + rest) == RunSoa(RunSoa(soa, first), rest)
    ensures soa.serial < limit
    ensures LargestDated(RunSoa(soa, first).serial, rest) + |rest| < limit
    ensures first != [] && first[0].Check? ==> NextSerial(soa.serial, first[0].dated) < limit
  {
    hide NextSerial;
    var p := first + rest;
    LargestDatedMonotone(soa.serial, soa.serial, p);
    if first == [] {
      assert p == rest;
    } else {
      assert p[0] == first[0] && p[1..] == rest && first[1..] == [];
      StepKeepsLimit(soa, p, limit);
    }
  }

  /** So the serial of each zone never falls over such a run, rises with each bump, and stays within the largest
      dated serial plus the bumps. */
  lemma RunBoundsZoneSerial(b: Backend, st: State, steps: seq<Step>, name: string)
    requires forall i :: 0 <= i < |steps| ==> Upkeep(steps[i])
    requires |Matching(st.zones, name)| == 1
    requires var p := ProjectedRun(b, steps, name);
             LargestDated(Matching(st.zones, name)[0].serial, p) + |p| < Limit(b)
    ensures var soa, p := SoaOf(Matching(st.zones, name)[0]), ProjectedRun(b, steps, name);
            var end := Matching(Run(b, st, steps).zones, name);
            |end| == 1 && soa.serial + Bumps(soa, p) <= end[0].serial <= LargestDated(soa.serial, p) + Bumps(soa, p)
  {
    hide Run, ProjectedRun, Matching;
    RunProjects(b, st, steps, name);
    RunBoundsSerial(SoaOf(Matching(st.zones, name)[0]), ProjectedRun(b, steps, name));
  }
}

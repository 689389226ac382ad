/** The database as the zone code uses it: the rows of a table of zones, and the zone files written. */
module ZoneDatabase {
  import opened Results
  import opened Text
  import opened LinkedList
  import opened DataElements
  import opened ZoneBlocks
  import opened ZoneSerial
  import opened ZoneRows
  import opened ZoneValidation

  /** The result list of the SOA query: the columns of each row, one after another. */
  function SoaData(rows: seq<Zone>): (d: seq<Datum>)
    ensures |d| == 8 * |rows|
    ensures rows != [] ==> d[..REVERSE.width] == SoaColumns(rows[0])
  {
    if rows == [] then [] else SoaColumns(rows[0]) + SoaData(rows[1..])
  }

  lemma SoaDataEmpty()
    ensures SoaData([]) == []
  {
  }

  lemma {:induction false} SoaDataAppend(rows: seq<Zone>, z: Zone)
    ensures SoaData(rows + [z]) == SoaData(rows) + SoaColumns(z)
  {
    if rows == [] {
      assert SoaData([z]) == SoaColumns(z) + SoaData([]);
    } else {
      SoaDataAppend(rows[1..], z);
      var all := rows + [z];
      assert all[0] == rows[0] && all[1..] == rows[1..] + [z];
      assert SoaColumns(rows[0]) + (SoaData(rows[1..]) + SoaColumns(z))
             == SoaColumns(rows[0]) + SoaData(rows[1..]) + SoaColumns(z);
    }
  }

  /** The eight values from a place of the list on are the SOA columns of the zone. */
  predicate ColumnsAt(d: seq<Datum>, at: nat, z: Zone)
    requires at + 8 <= |d|
  {
    && d[at] == Number(z.timers.ttl) && d[at + 1] == Text(z.primary) && d[at + 2] == Text(z.secondary)
    && d[at + 3] == Number(z.serial) && d[at + 4] == Number(z.timers.refresh)
    && d[at + 5] == Number(z.timers.retry) && d[at + 6] == Number(z.timers.expire)
    && d[at + 7] == Text(match z.updated case Yes => "yes" case No => "no" case Unknown => "unknown")
  }

  lemma ColumnsMove(d: seq<Datum>, rest: seq<Datum>, at: nat, z: Zone)
    requires at + 8 <= |rest| && ColumnsAt(rest, at, z) && 8 <= |d| && d[8..] == rest
    ensures ColumnsAt(d, at + 8, z)
  {
    assert forall j :: 0 <= j < |rest| ==> d[j + 8] == d[8..][j];
  }

  lemma ColumnsFirst(d: seq<Datum>, z: Zone)
    requires 8 <= |d| && d[..8] == SoaColumns(z)
    ensures ColumnsAt(d, 0, z)
  {
    assert forall j :: 0 <= j < 8 ==> d[j] == d[..8][j];
  }

  lemma SoaBehind(rows: seq<Zone>)
    requires rows != []
    ensures SoaData(rows)[8..] == SoaData(rows[1..])
  {
    hide SoaColumns;
  }

  /** Each column of each row, by its place in the result list. */
  lemma {:induction false} SoaColumn(rows: seq<Zone>, k: nat)
    requires k < |rows|
    ensures ColumnsAt(SoaData(rows), 8 * k, rows[k])
  {
    hide ColumnsAt, SoaColumns, FlagText, SoaData;
    if k == 0 {
      ColumnsFirst(SoaData(rows), rows[0]);
    } else {
      SoaColumn(rows[1..], k - 1);
      SoaBehind(rows);
      ColumnsMove(SoaData(rows), SoaData(rows[1..]), 8 * (k - 1), rows[k]);
    }
  }

  function Select(z: Zone, name: string): seq<Zone> {
    if z.name == name then [z] else []
  }

  lemma {:induction false} MatchingAppend(zones: seq<Zone>, z: Zone, name: string)
    ensures Matching(zones + [z], name) == Matching(zones, name) + Select(z, name)
  {
    var all := zones + [z];
    assert Matching(all, name) == Select(all[0], name) + Matching(all[1..], name);
    if zones == [] {
      assert all[1..] == [] && Select(z, name) + [] == Select(z, name);
    } else {
      MatchingAppend(zones[1..], z, name);
      assert all[0] == zones[0] && all[1..] == zones[1..] + [z];
      JoinThree(Select(zones[0], name), Matching(zones[1..], name), Select(z, name));
    }
  }

  /** Append values to a list, one ailsa_list_insert each. */
  method AppendAll(s: List<Datum>, row: seq<Datum>)
    requires s.Valid()
    modifies s, s.repr
    ensures s.Valid() && s.vals == old(s.vals) + row
    ensures fresh(s.repr - old(s.repr))
  {
    hide Chain, Distinct, ClosedChain;
    var i := 0;
    while i < |row|
      invariant 0 <= i <= |row| && s.Valid() && s.vals == old(s.vals) + row[..i]
      invariant fresh(s.repr - old(s.repr))
    {
      var r := s.Insert(Some(row[i]));
      i := i + 1;
    }
  }

  /** What a refresh of an SOA list in memory does to it and to the database. */
  datatype Refresh = Refresh(vals: seq<Datum>, zones: seq<Zone>, result: Result<()>)

  function RefreshList(backend: Backend, vals: seq<Datum>, zones: seq<Zone>, name: string, layout: Layout,
                       clock: Clock, updating: Executed): Refresh
    requires 0 < layout.width && layout.serialAt < layout.width && layout.updatedAt < layout.width
    requires |vals| % layout.width == 0 ==> layout.width <= |vals| && vals[layout.serialAt].Number?
  {
    if |vals| % layout.width != 0 then Refresh(vals, zones, Err(WrongListLength))
    else if vals[layout.updatedAt] != Text("yes") then Refresh(vals, zones, Ok(()))
    else
      var serial := NextSerial(vals[layout.serialAt].number, GenerateSerial(clock));
      var outcome := OutcomeOf(backend, updating);
      Refresh(vals[layout.serialAt := Number(serial)],
              if outcome == Effective then Update(zones, name, SerialTo(KeptNumber(backend, serial))) else zones,
              if outcome == Reported then Err(QueryFail) else Ok(()))
  }

  /** The check of a forward zone, on its list of six: the second element moves to the next serial exactly when the
      sixth is "yes", and the others stay. */
  lemma ForwardRefresh(backend: Backend, vals: seq<Datum>, zones: seq<Zone>, name: string, clock: Clock,
                       updating: Executed)
    requires |vals| == 6 && vals[1].Number?
    ensures var after := RefreshList(backend, vals, zones, name, FORWARD, clock, updating).vals;
            && |after| == 6 && after[0] == vals[0] && after[2..] == vals[2..]
            && after[1] == if vals[5] == Text("yes") then Number(NextSerial(vals[1].number, GenerateSerial(clock)))
                           else vals[1]
  {
    hide GenerateSerial, NextSerial, Update, KeptNumber;
  }

  class Database {
    const backend: Backend
    var zones: seq<Zone>
    var files: seq<ZoneFile>

    constructor (backend: Backend)
      ensures this.backend == backend && zones == [] && files == []
    {
      this.backend := backend;
      zones, files := [], [];
    }

    /** REV_SOA_ON_NET_RANGE, into an empty result list. */
    method SoaOnRange(range: string, s: List<Datum>)
      requires s.Valid() && s.vals == []
      modifies s, s.repr
      ensures s.Valid() && s.vals == SoaData(Matching(zones, range))
      ensures fresh(s.repr - old(s.repr))
    {
      hide Chain, Distinct, ClosedChain, Matching, SoaData, SoaColumns;
      assert SoaData(Matching([], range)) == [] by { NoMatch([], range); SoaDataEmpty(); }
      assert zones[..0] == [];
      var i := 0;
      while i < |zones|
        invariant 0 <= i <= |zones| && s.Valid() && s.vals == SoaData(Matching(zones[..i], range))
        invariant fresh(s.repr - old(s.repr))
      {
        assert zones[..i + 1] == zones[..i] + [zones[i]];
        MatchingAppend(zones[..i], zones[i], range);
        if zones[i].name == range {
          SoaDataAppend(Matching(zones[..i], range), zones[i]);
          AppendAll(s, SoaColumns(zones[i]));
        } else {
          assert Matching(zones[..i], range) + [] == Matching(zones[..i], range);
        }
        i := i + 1;
      }
      assert zones[..i] == zones;
    }

    /** ailsa_update_query: one update by the range of a zone. */
    method RunUpdate(name: string, c: Change, updating: Executed) returns (r: Result<()>)
      modifies `zones
      ensures zones == if OutcomeOf(backend, updating) == Effective then Update(old(zones), name, c) else old(zones)
      ensures r == if OutcomeOf(backend, updating) == Reported then Err(QueryFail) else Ok(())
    {
      hide Update;
      match OutcomeOf(backend, updating)
      case Effective =>
        zones := Update(zones, name, c);
        return Ok(());
      case Reported => return Err(QueryFail);
      case Swallowed => return Ok(());
    }

    /** ailsa_check_for_zone_update and ailsa_check_for_rev_zone_update, which differ in the columns of the list:
        the serial in the list is changed in place, and stored. */
    method CheckForUpdate(l: List<Datum>, name: string, layout: Layout, clock: Clock, updating: Executed)
      returns (r: Result<()>)
      requires l.Valid() && 0 < layout.width && layout.serialAt < layout.width && layout.updatedAt < layout.width
      requires |l.vals| % layout.width == 0 ==> layout.width <= |l.vals| && l.vals[layout.serialAt].Number?
      modifies `zones, l, l.repr
      ensures l.Valid() && l.nodes == old(l.nodes) && l.total == old(l.total)
      ensures Refresh(l.vals, zones, r)
              == RefreshList(backend, old(l.vals), old(zones), name, layout, clock, updating)
    {
      hide Chain, Distinct, ClosedChain, GenerateSerial, Update, KeptNumber;
      if l.total % layout.width != 0 {
        return Err(WrongListLength);
      }
      var e := l.GetElement(layout.updatedAt + 1);
      l.DataOf(layout.updatedAt);
      if e.data == Text("yes") {
        var serial := GenerateSerial(clock);
        var c := l.GetElement(layout.serialAt + 1);
        l.DataOf(layout.serialAt);
        if serial <= c.data.number {
          serial := NextSerial(c.data.number, serial);
        }
        l.SetData(c, layout.serialAt, Number(serial));
        r := RunUpdate(name, SerialTo(KeptNumber(backend, serial)), updating);
        return r;
      }
      return Ok(());
    }

    /** write_rev_zone_file */
    method WriteRevZoneFile(range: string, prefix: nat, i: nat, env: Env) returns (r: Result<()>)
      requires env.readable ==> Matching(zones, range) != []
      modifies this
      ensures (State(zones, files), r) == WriteFile(backend, old(State(zones, files)), range, prefix, i, env)
    {
      hide Chain, Distinct, ClosedChain, GenerateSerial, Update, KeptNumber, Matching, SoaData, SoaColumns, GetOffsetIp,
        NextSerial;
      if !env.readable {
        return Err(QueryFail);
      }
      var s := new List<Datum>(true);
      SoaOnRange(range, s);
      ghost var rows := Matching(zones, range);
      SoaOfFirst(rows);
      r := CheckForUpdate(s, range, REVERSE, env.clock, env.updating);
      if r.Err? {
        return;
      }
      if !env.records {
        return Err(QueryFail);
      }
      var ip :- GetOffsetIp(range, prefix, i);
      if !env.writable {
        return Err(FileError);
      }
      var serial := None;
      if s.total == REVERSE.width {
        var e := s.GetElement(REVERSE.serialAt + 1);
        s.DataOf(REVERSE.serialAt);
        serial := Some(e.data.number);
      }
      files := files + [ZoneFile(ip, serial)];
    }

    lemma SoaOfFirst(rows: seq<Zone>)
      requires rows != []
      ensures SoaData(rows)[REVERSE.serialAt] == Number(rows[0].serial)
      ensures SoaData(rows)[REVERSE.updatedAt] == Text("yes") <==> rows[0].updated == Yes
      ensures |SoaData(rows)| % REVERSE.width == 0 && REVERSE.width <= |SoaData(rows)|
      ensures |SoaData(rows)| == REVERSE.width <==> |rows| == 1
    {
      hide FlagText, SoaData, SoaColumns;
      var d := SoaData(rows);
      assert 8 * |rows| % 8 == 0;
      assert d[REVERSE.serialAt] == d[..REVERSE.width][REVERSE.serialAt];
      assert d[REVERSE.updatedAt] == d[..REVERSE.width][REVERSE.updatedAt];
    }

    /** cmdb_validate_rev_zone */
    method ValidateRevZone(range: string, ztype: Option<string>, prefix: nat, env: nat -> Env, recording: Executed)
      returns (r: Result<()>)
      requires !Crashes(zones, range, ztype, prefix, env)
      modifies this
      ensures (State(zones, files), r)
              == Validate(backend, old(State(zones, files)), range, ztype, prefix, env, recording)
    {
      hide Matching, Update, GetOffsetIp, GetZoneIndex, KeptNumber, GenerateSerial, NextSerial;
      var valid := true;
      if ztype != Some("slave") {
        var index :- GetZoneIndex(prefix);
        var i := 0;
        while i < index && valid
          invariant 0 <= i <= index
          invariant Matching(zones, range) != [] || (valid && EndsEarly(range, prefix, i, index, env))
          invariant Rounds(backend, old(State(zones, files)), range, ztype, prefix, env)
                    == if valid then ValidateFrom(backend, State(zones, files), range, prefix, i, index, env)
                       else (State(zones, files), Ok(false))
        {
          var addr :- GetOffsetIp(range, prefix, i);
          WriteFileKeepsMatching(backend, State(zones, files), range, prefix, i, env(i));
          var _ :- WriteRevZoneFile(range, prefix, i, env(i));
          valid := env(i).passed;
          i := i + 1;
        }
      }
      r := RunUpdate(range, ValidTo(if valid then Yes else No), recording);
    }
  }
}

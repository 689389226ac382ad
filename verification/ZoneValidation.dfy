/** Validation of a reverse zone: refresh its serial, write a file for each sub-zone, check each, record the
    outcome. */
module ZoneValidation {
  import opened Results
  import opened Text
  import opened Ipv4
  import opened LinkedList
  import opened DataElements
  import opened ZoneBlocks
  import opened ZoneSerial
  import opened ZoneRows

  /** A written zone file: its name and the serial in its SOA record, when one was written. */
  datatype ZoneFile = ZoneFile(name: string, serial: Option<nat>)

  /** What one round depends on besides the database: the clock, whether the SOA can be read, how the serial update
      goes, and whether the records can be read, the file can be opened and the zone checker is content. */
  datatype Env = Env(clock: Clock, readable: bool, updating: Executed, records: bool, writable: bool, passed: bool) {
    /** The round ends with a file that passes. */
    predicate GoesOn() { records && writable && passed }
  }

  datatype State = State(zones: seq<Zone>, files: seq<ZoneFile>)

  /** The serial a zone gets when it is looked at. */
  function Refreshed(z: Zone, clock: Clock): nat {
    if z.updated == Yes then NextSerial(z.serial, GenerateSerial(clock)) else z.serial
  }

  /** write_rev_zone_file, as a function of the state. The code follows null when there is no SOA row. */
  function WriteFile(b: Backend, st: State, range: string, prefix: nat, i: nat, env: Env): (State, Result<()>)
    requires env.readable ==> Matching(st.zones, range) != []
  {
    if !env.readable then (st, Err(QueryFail))
    else
      var rows := Matching(st.zones, range);
      var outcome := OutcomeOf(b, env.updating);
      if rows[0].updated == Yes && outcome == Reported then (st, Err(QueryFail))
      else
        var serial := Refreshed(rows[0], env.clock);
        var zones := if rows[0].updated == Yes && outcome == Effective
                     then Update(st.zones, range, SerialTo(KeptNumber(b, serial))) else st.zones;
        if !env.records then (State(zones, st.files), Err(QueryFail))
        else
          match GetOffsetIp(range, prefix, i)
          case Err(e) => (State(zones, st.files), Err(e))
          case Ok(ip) =>
            if !env.writable then (State(zones, st.files), Err(FileError))
            else (State(zones, st.files + [ZoneFile(ip, if |rows| == 1 then Some(serial) else None)]), Ok(()))
  }

  lemma {:induction false} UpdateKeepsMatching(zones: seq<Zone>, range: string, c: Change)
    ensures |Matching(Update(zones, range, c), range)| == |Matching(zones, range)|
  {
    if zones != [] {
      assert Update(zones, range, c)[1..] == Update(zones[1..], range, c);
      UpdateKeepsMatching(zones[1..], range, c);
    }
  }

  lemma WriteFileKeepsMatching(b: Backend, st: State, range: string, prefix: nat, i: nat, env: Env)
    requires env.readable ==> Matching(st.zones, range) != []
    ensures |Matching(WriteFile(b, st, range, prefix, i, env).0.zones, range)| == |Matching(st.zones, range)|
  {
    hide GetOffsetIp, NextSerial, GenerateSerial, KeptNumber, Matching, Update;
    if env.readable {
      UpdateKeepsMatching(st.zones, range, SerialTo(KeptNumber(b, Refreshed(Matching(st.zones, range)[0], env.clock))));
    }
  }

  /** Round i ends before it looks at the SOA row. */
  predicate EndsEarly(range: string, prefix: nat, i: nat, count: nat, env: nat -> Env) {
    i < count && (GetOffsetIp(range, prefix, i).Err? || !env(i).readable)
  }

  /** The rounds of cmdb_validate_rev_zone from sub-zone i on; Ok says whether all checks passed. */
  function ValidateFrom(b: Backend, st: State, range: string, prefix: nat, i: nat, count: nat, env: nat -> Env)
    : (State, Result<bool>)
    requires i <= count && (Matching(st.zones, range) != [] || EndsEarly(range, prefix, i, count, env))
    decreases count - i
  {
    if i == count then (st, Ok(true))
    else
      match GetOffsetIp(range, prefix, i)
      case Err(e) => (st, Err(e))
      case Ok(_) =>
        var (next, r) := WriteFile(b, st, range, prefix, i, env(i));
        WriteFileKeepsMatching(b, st, range, prefix, i, env(i));
        if r.Err? then (next, Err(r.error))
        else if !env(i).passed then (next, Ok(false))
        else ValidateFrom(b, next, range, prefix, i + 1, count, env)
  }

  /** A validation of a zone that is not in the table follows null, and the process ends, unless the zone is a slave or
      something fails before. */
  predicate Crashes(zones: seq<Zone>, range: string, ztype: Option<string>, prefix: nat, env: nat -> Env) {
    && Matching(zones, range) == [] && ztype != Some("slave")
    && GetZoneIndex(prefix).Ok? && !EndsEarly(range, prefix, 0, GetZoneIndex(prefix).value, env)
  }

  /** The rounds of a validation; a slave zone has none. */
  function Rounds(b: Backend, st: State, range: string, ztype: Option<string>, prefix: nat, env: nat -> Env)
    : (State, Result<bool>)
    requires !Crashes(st.zones, range, ztype, prefix, env)
  {
    if ztype == Some("slave") then (st, Ok(true))
    else match GetZoneIndex(prefix)
         case Err(e) => (st, Err(e))
         case Ok(count) => ValidateFrom(b, st, range, prefix, 0, count, env)
  }

  /** The last update of a validation, of the valid column. */
  function Record(b: Backend, st: State, range: string, all: bool, recording: Executed): (State, Result<()>) {
    match OutcomeOf(b, recording)
    case Effective => (st.(zones := Update(st.zones, range, ValidTo(if all then Yes else No))), Ok(()))
    case Reported => (st, Err(QueryFail))
    case Swallowed => (st, Ok(()))
  }

  /** cmdb_validate_rev_zone, as a function of the state. */
  function Validate(b: Backend, st: State, range: string, ztype: Option<string>, prefix: nat,
                    env: nat -> Env, recording: Executed): (State, Result<()>)
    requires !Crashes(st.zones, range, ztype, prefix, env)
  {
    var (next, r) := Rounds(b, st, range, ztype, prefix, env);
    match r
    case Err(e) => (next, Err(e))
    case Ok(all) => Record(b, next, range, all, recording)
  }

  // ---- When a validation bumps the serial ------------------------------------

  /** The first round, from round i on, whose serial update takes effect on a zone marked updated. Until then each
      round must have its update swallowed and end with a file that passes. */
  function FirstStore(b: Backend, range: string, prefix: nat, i: nat, count: nat, env: nat -> Env): (j: Option<nat>)
    requires i <= count
    ensures j.Some? ==> i <= j.value < count
    decreases count - i
  {
    if i == count || EndsEarly(range, prefix, i, count, env) then None
    else
      match OutcomeOf(b, env(i).updating)
      case Effective => Some(i)
      case Reported => None
      case Swallowed => if env(i).GoesOn() then FirstStore(b, range, prefix, i + 1, count, env) else None
  }

  /** Round j is reached with the zone still marked, and stores its serial. */
  ghost predicate StoresFirst(b: Backend, range: string, prefix: nat, i: nat, count: nat, env: nat -> Env, j: nat) {
    && i <= j < count && !EndsEarly(range, prefix, j, count, env) && OutcomeOf(b, env(j).updating) == Effective
    && forall k :: i <= k < j ==>
         !EndsEarly(range, prefix, k, count, env) && OutcomeOf(b, env(k).updating) == Swallowed && env(k).GoesOn()
  }

  lemma {:induction false} FirstStoreIs(b: Backend, range: string, prefix: nat, i: nat, count: nat, env: nat -> Env,
                                        j: nat)
    requires i <= count
    ensures FirstStore(b, range, prefix, i, count, env) == Some(j) <==> StoresFirst(b, range, prefix, i, count, env, j)
    decreases count - i
  {
    hide EndsEarly;
    if i < count { FirstStoreIs(b, range, prefix, i + 1, count, env, j); }
  }

  /** The serial round k works out for the zone, marked updated or not. */
  function SerialAt(z: Zone, env: nat -> Env, k: nat): nat { Refreshed(z, env(k).clock) }

  function SoaOf(z: Zone): Soa { Soa(z.serial, z.updated == Yes) }

  /** Rounds on a zone that is not marked updated leave the table alone. */
  lemma {:induction false} QuietRounds(b: Backend, st: State, range: string, prefix: nat, i: nat, count: nat,
                                       env: nat -> Env)
    requires i <= count && Matching(st.zones, range) != [] && Matching(st.zones, range)[0].updated != Yes
    ensures ValidateFrom(b, st, range, prefix, i, count, env).0.zones == st.zones
    decreases count - i
  {
    hide GetOffsetIp, NextSerial, GenerateSerial, Matching, Update;
    if i < count && !EndsEarly(range, prefix, i, count, env) {
      var (next, r) := WriteFile(b, st, range, prefix, i, env(i));
      if r.Ok? && env(i).passed {
        QuietRounds(b, next, range, prefix, i + 1, count, env);
      }
    }
  }

  /** Rounds on a zone marked updated bump its serial exactly when some round is the first to store it, and then to the
      serial that round works out. */
  lemma {:induction false} RoundsBump(b: Backend, st: State, range: string, prefix: nat, i: nat, count: nat,
                                      env: nat -> Env)
    requires i <= count && |Matching(st.zones, range)| == 1 && Matching(st.zones, range)[0].updated == Yes
    ensures ValidateFrom(b, st, range, prefix, i, count, env).0.zones
            == match FirstStore(b, range, prefix, i, count, env)
               case None => st.zones
               case Some(j) =>
                 Update(st.zones, range, SerialTo(KeptNumber(b, SerialAt(Matching(st.zones, range)[0], env, j))))
    decreases count - i
  {
    hide GetOffsetIp, NextSerial, GenerateSerial, Matching, Update, KeptNumber;
    if i < count && !EndsEarly(range, prefix, i, count, env) {
      var (next, r) := WriteFile(b, st, range, prefix, i, env(i));
      MatchingAfterUpdate(st.zones, range, SerialTo(KeptNumber(b, SerialAt(Matching(st.zones, range)[0], env, i))));
      if r.Ok? && env(i).passed {
        if next.zones == st.zones && OutcomeOf(b, env(i).updating) == Swallowed {
          RoundsBump(b, next, range, prefix, i + 1, count, env);
        } else {
          QuietRounds(b, next, range, prefix, i + 1, count, env);
        }
      }
    }
  }

  /** The first storing round of a validation; a slave zone has no rounds. */
  function StoringRound(b: Backend, range: string, ztype: Option<string>, prefix: nat, env: nat -> Env): Option<nat> {
    if ztype == Some("slave") || GetZoneIndex(prefix).Err? then None
    else FirstStore(b, range, prefix, 0, GetZoneIndex(prefix).value, env)
  }

  /** What a validation is for the SOA of its zone: a check that is stored, with the clock of the storing round, or one
      that is not. */
  function CheckOf(b: Backend, range: string, ztype: Option<string>, prefix: nat, env: nat -> Env): SoaStep {
    CheckAt(StoringRound(b, range, ztype, prefix, env), env)
  }

  function CheckAt(storing: Option<nat>, env: nat -> Env): SoaStep {
    match storing
    case Some(j) => Check(GenerateSerial(env(j).clock), true)
    case None => Check(0, false)
  }

  /** From one state of the table to another only the named zone changes, its SOA as the check does. */
  ghost predicate CheckedOnce(zones: seq<Zone>, zones': seq<Zone>, range: string, check: SoaStep)
    requires |Matching(zones, range)| == 1
  {
    && |Matching(zones', range)| == 1 && |zones'| == |zones|
    && (forall i :: 0 <= i < |zones| && zones[i].name != range ==> zones'[i] == zones[i])
    && SoaOf(Matching(zones', range)[0]) == StepSoa(SoaOf(Matching(zones, range)[0]), check)
  }

  /** The serial of the check is one the database stores unchanged. */
  predicate Keeps(b: Backend, z: Zone, check: SoaStep) {
    check.Check? && check.stored ==>
      KeptNumber(b, NextSerial(z.serial, check.dated)) == NextSerial(z.serial, check.dated)
  }

  lemma RoundsCheckOnce(b: Backend, st: State, range: string, ztype: Option<string>, prefix: nat, env: nat -> Env)
    requires |Matching(st.zones, range)| == 1
    requires Keeps(b, Matching(st.zones, range)[0], CheckOf(b, range, ztype, prefix, env))
    ensures CheckedOnce(st.zones, Rounds(b, st, range, ztype, prefix, env).0.zones, range,
                        CheckOf(b, range, ztype, prefix, env))
  {
    hide GetOffsetIp, GetZoneIndex, NextSerial, GenerateSerial, Matching, Update, KeptNumber, ValidateFrom, FirstStore;
    var z := Matching(st.zones, range)[0];
    if ztype != Some("slave") && GetZoneIndex(prefix).Ok? {
      var count := GetZoneIndex(prefix).value;
      if z.updated == Yes {
        RoundsBump(b, st, range, prefix, 0, count, env);
        match FirstStore(b, range, prefix, 0, count, env)
        case None =>
        case Some(j) => MatchingAfterUpdate(st.zones, range, SerialTo(KeptNumber(b, SerialAt(z, env, j))));
      } else {
        QuietRounds(b, st, range, prefix, 0, count, env);
      }
    }
  }

  /** One validation of a zone is one check of its serial: a zone marked updated is bumped, once, exactly when some
      round is the first to store, and otherwise not at all; no other zone changes. */
  lemma ValidationChecksOnce(b: Backend, st: State, range: string, ztype: Option<string>, prefix: nat,
                             env: nat -> Env, recording: Executed)
    requires |Matching(st.zones, range)| == 1
    requires Keeps(b, Matching(st.zones, range)[0], CheckOf(b, range, ztype, prefix, env))
    ensures CheckedOnce(st.zones, Validate(b, st, range, ztype, prefix, env, recording).0.zones, range,
                        CheckOf(b, range, ztype, prefix, env))
  {
    hide Rounds, Matching, Update, CheckedOnce, CheckOf, Keeps;
    RoundsCheckOnce(b, st, range, ztype, prefix, env);
    var (mid, r) := Rounds(b, st, range, ztype, prefix, env);
    if r.Ok? {
      RecordingKeepsCheck(st.zones, mid.zones, range, CheckOf(b, range, ztype, prefix, env),
                          if r.value then Yes else No);
    }
  }

  lemma RecordingKeepsCheck(zones: seq<Zone>, mid: seq<Zone>, range: string, check: SoaStep, flag: Flag)
    requires |Matching(zones, range)| == 1 && CheckedOnce(zones, mid, range, check)
    ensures CheckedOnce(zones, Update(mid, range, ValidTo(flag)), range, check)
  {
    hide Matching, StepSoa, Update;
    MatchingAfterUpdate(mid, range, ValidTo(flag));
  }

  // ---- The serials of the files ------------------------------------------------

  /** The serial that the file of round k carries: what the round works out, until a round has stored a serial. */
  function FileSerial(b: Backend, z: Zone, storing: Option<nat>, env: nat -> Env, k: nat): nat {
    if z.updated == Yes && storing.Some? && storing.value < k then KeptNumber(b, SerialAt(z, env, storing.value))
    else SerialAt(z, env, k)
  }

  /** Each file written since is that of the next round from round i on, under the address of its sub-zone. */
  ghost predicate FilesAre(b: Backend, z: Zone, before: seq<ZoneFile>, after: seq<ZoneFile>, range: string, prefix: nat,
                           i: nat, storing: Option<nat>, env: nat -> Env)
  {
    && |before| <= |after| && after[..|before|] == before
    && forall k: nat :: i <= k < i + |after| - |before| ==>
         && GetOffsetIp(range, prefix, k).Ok?
         && after[|before| + k - i] == ZoneFile(GetOffsetIp(range, prefix, k).value,
                                                Some(FileSerial(b, z, storing, env, k)))
  }

  lemma NoFiles(b: Backend, z: Zone, files: seq<ZoneFile>, range: string, prefix: nat, i: nat, storing: Option<nat>,
                env: nat -> Env)
    ensures FilesAre(b, z, files, files, range, prefix, i, storing, env)
  {
    hide FileSerial;
  }

  /** A file of round i and then those of the later rounds, whose serials are the same seen from either. */
  lemma FirstFile(b: Backend, z: Zone, next: Zone, files: seq<ZoneFile>, file: ZoneFile, after: seq<ZoneFile>,
                  range: string, prefix: nat, i: nat, storing: Option<nat>, later: Option<nat>, env: nat -> Env)
    requires FilesAre(b, next, files + [file], after, range, prefix, i + 1, later, env)
    requires GetOffsetIp(range, prefix, i).Ok?
    requires file == ZoneFile(GetOffsetIp(range, prefix, i).value, Some(FileSerial(b, z, storing, env, i)))
    requires after == files + [file] || forall k: nat :: i < k ==>
               FileSerial(b, next, later, env, k) == FileSerial(b, z, storing, env, k)
    ensures FilesAre(b, z, files, after, range, prefix, i, storing, env)
  {
    hide FileSerial, GetOffsetIp;
    assert after[..|files|] == after[..|files + [file]|][..|files|] == files;
    assert after[|files|] == after[..|files + [file]|][|files|] == file;
  }

  /** The zone after round i, for the serials of the files to come. */
  lemma FileSerialNext(b: Backend, z: Zone, next: Zone, i: nat, storing: Option<nat>, later: Option<nat>,
                       env: nat -> Env, outcome: Outcome)
    requires if z.updated != Yes then next == z
             else if outcome == Effective
             then storing == Some(i) && next == Changed(z, SerialTo(KeptNumber(b, SerialAt(z, env, i))))
             else next == z && storing == later && (later.Some? ==> i < later.value)
    ensures forall k: nat :: i < k ==> FileSerial(b, next, later, env, k) == FileSerial(b, z, storing, env, k)
  {
    hide NextSerial, GenerateSerial, KeptNumber;
  }

  /** The file of a round that writes one, and what the round leaves for the serials of the files to come. */
  lemma RoundFile(b: Backend, st: State, range: string, prefix: nat, i: nat, count: nat, env: nat -> Env)
    requires i < count && |Matching(st.zones, range)| == 1 && !EndsEarly(range, prefix, i, count, env)
    ensures var z, (next, r) := Matching(st.zones, range)[0], WriteFile(b, st, range, prefix, i, env(i));
            var outcome, storing := OutcomeOf(b, env(i).updating), FirstStore(b, range, prefix, i, count, env);
            && |Matching(next.zones, range)| == 1
            && (r.Err? ==> next.files == st.files)
            && (z.updated == Yes && r.Ok? ==> outcome != Reported)
            && (z.updated == Yes && outcome == Swallowed && env(i).GoesOn() ==>
                  r.Ok? && Matching(next.zones, range)[0].updated == Yes)
            && (r.Ok? ==> next.files == st.files + [ZoneFile(GetOffsetIp(range, prefix, i).value,
                                                             Some(FileSerial(b, z, storing, env, i)))])
            && (r.Ok? && env(i).passed ==> forall k: nat :: i < k ==>
                  FileSerial(b, Matching(next.zones, range)[0], FirstStore(b, range, prefix, i + 1, count, env), env, k)
                  == FileSerial(b, z, storing, env, k))
  {
    hide NextSerial, GenerateSerial, GetOffsetIp, Matching, Update, KeptNumber, FileSerial;
    var z := Matching(st.zones, range)[0];
    MatchingAfterUpdate(st.zones, range, SerialTo(KeptNumber(b, SerialAt(z, env, i))));
    var (next, r) := WriteFile(b, st, range, prefix, i, env(i));
    var storing, later := FirstStore(b, range, prefix, i, count, env), FirstStore(b, range, prefix, i + 1, count, env);
    OwnFileSerial(b, z, storing, env, i);
    if r.Ok? && env(i).passed {
      FileSerialNext(b, z, Matching(next.zones, range)[0], i, storing, later, env, OutcomeOf(b, env(i).updating));
    }
  }

  lemma OwnFileSerial(b: Backend, z: Zone, storing: Option<nat>, env: nat -> Env, i: nat)
    requires storing.Some? ==> i <= storing.value
    ensures FileSerial(b, z, storing, env, i) == SerialAt(z, env, i)
  {
  }

  /** What follows after a round that looks at the SOA row. */
  lemma AfterRound(b: Backend, st: State, range: string, prefix: nat, i: nat, count: nat, env: nat -> Env)
    requires i < count && Matching(st.zones, range) != [] && !EndsEarly(range, prefix, i, count, env)
    ensures var (next, r) := WriteFile(b, st, range, prefix, i, env(i));
            && Matching(next.zones, range) != []
            && ValidateFrom(b, st, range, prefix, i, count, env)
               == if r.Err? then (next, Err(r.error))
                  else if !env(i).passed then (next, Ok(false))
                  else ValidateFrom(b, next, range, prefix, i + 1, count, env)
  {
    hide GetOffsetIp, Matching, WriteFile;
    WriteFileKeepsMatching(b, st, range, prefix, i, env(i));
  }

  lemma NoRoundsLeft(b: Backend, st: State, range: string, prefix: nat, count: nat, env: nat -> Env)
    requires Matching(st.zones, range) != []
    ensures ValidateFrom(b, st, range, prefix, count, count, env) == (st, Ok(true))
  {
  }

  /** Each round from i on before the storing one writes its file; when there is no storing one, there are files only
      because updates are swallowed. */
  predicate EnoughFiles(b: Backend, m: int, i: nat, storing: Option<nat>, env: nat -> Env) {
    match storing
    case Some(j) => j - i <= m
    case None => m > 0 ==> OutcomeOf(b, env(i).updating) == Swallowed
  }

  /** The files that rounds from round i on write. */
  ghost predicate Written(b: Backend, z: Zone, before: seq<ZoneFile>, after: seq<ZoneFile>, range: string, prefix: nat,
                          i: nat, storing: Option<nat>, env: nat -> Env)
  {
    && |before| <= |after| && FilesAre(b, z, before, after, range, prefix, i, storing, env)
    && (z.updated == Yes ==> EnoughFiles(b, |after| - |before|, i, storing, env))
  }

  lemma EnoughNext(b: Backend, z: Zone, before: seq<ZoneFile>, after: seq<ZoneFile>, range: string, prefix: nat, i: nat,
                   count: nat, env: nat -> Env)
    requires i <= count
    requires FilesAre(b, z, before, after, range, prefix, i, FirstStore(b, range, prefix, i, count, env), env)
    requires after != before ==> i < count && !EndsEarly(range, prefix, i, count, env)
    requires z.updated == Yes && after != before ==> OutcomeOf(b, env(i).updating) != Reported
    requires var swallowed := i < count && OutcomeOf(b, env(i).updating) == Swallowed && env(i).GoesOn();
             z.updated == Yes && swallowed && !EndsEarly(range, prefix, i, count, env) ==>
               EnoughFiles(b, |after| - |before| - 1, i + 1, FirstStore(b, range, prefix, i + 1, count, env), env)
    ensures Written(b, z, before, after, range, prefix, i, FirstStore(b, range, prefix, i, count, env), env)
  {
    hide EndsEarly, OutcomeOf, FileSerial, GetOffsetIp;
  }

  /** The files that rounds write, and their serials. */
  lemma {:induction false} RoundsWrite(b: Backend, st: State, range: string, prefix: nat, i: nat, count: nat,
                                       env: nat -> Env)
    requires i <= count && |Matching(st.zones, range)| == 1
    ensures var z, end := Matching(st.zones, range)[0], ValidateFrom(b, st, range, prefix, i, count, env).0;
            var storing := FirstStore(b, range, prefix, i, count, env);
            Written(b, z, st.files, end.files, range, prefix, i, storing, env)
    decreases count - i
  {
    var z, end := Matching(st.zones, range)[0], ValidateFrom(b, st, range, prefix, i, count, env).0;
    var storing := FirstStore(b, range, prefix, i, count, env);
    NoFiles(b, z, st.files, range, prefix, i, storing, env);
    if i < count && !EndsEarly(range, prefix, i, count, env) {
      hide GetOffsetIp, Matching, FilesAre, FileSerial, WriteFile, FirstStore, EnoughFiles;
      var (next, r) := WriteFile(b, st, range, prefix, i, env(i));
      RoundFile(b, st, range, prefix, i, count, env);
      AfterRound(b, st, range, prefix, i, count, env);
      if r.Ok? {
        var z', later := Matching(next.zones, range)[0], FirstStore(b, range, prefix, i + 1, count, env);
        NoFiles(b, z', next.files, range, prefix, i + 1, later, env);
        if env(i).passed { RoundsWrite(b, next, range, prefix, i + 1, count, env); }
        var file := ZoneFile(GetOffsetIp(range, prefix, i).value, Some(FileSerial(b, z, storing, env, i)));
        FirstFile(b, z, z', st.files, file, end.files, range, prefix, i, storing, later, env);
      }
    }
    EnoughNext(b, z, st.files, end.files, range, prefix, i, count, env);
  }

  /** The files written since carry the serial. */
  ghost predicate Carry(before: seq<ZoneFile>, after: seq<ZoneFile>, serial: nat)
    requires |before| <= |after|
  {
    forall k :: |before| <= k < |after| ==> after[k].serial == Some(serial)
  }

  /** No file carries a serial that the zone does not get: the zone is not marked updated, or no round stores a serial
      and no file is written, or each round before the storing one works out the same serial. */
  predicate SerialsAgree(z: Zone, storing: Option<nat>, wrote: bool, env: nat -> Env) {
    z.updated != Yes || match storing
                        case None => !wrote
                        case Some(j) => forall k :: 0 <= k < j ==> SerialAt(z, env, k) == SerialAt(z, env, j)
  }

  lemma SerialAtMoves(z: Zone, env: nat -> Env, k: nat)
    requires z.updated == Yes && z.serial < ULONG
    ensures SerialAt(z, env, k) != z.serial
  {
    if z.serial < ULONG - 1 { assert (z.serial + 1) % ULONG == z.serial + 1; }
  }

  lemma FileOfRound(b: Backend, z: Zone, before: seq<ZoneFile>, after: seq<ZoneFile>, range: string, prefix: nat,
                    storing: Option<nat>, env: nat -> Env, k: nat)
    requires FilesAre(b, z, before, after, range, prefix, 0, storing, env) && |before| <= k < |after|
    ensures after[k].serial == Some(FileSerial(b, z, storing, env, k - |before|))
  {
    hide FileSerial, GetOffsetIp;
    assert after[|before| + (k - |before|)] == after[k];
  }

  lemma AgreeThenCarry(b: Backend, z: Zone, before: seq<ZoneFile>, after: seq<ZoneFile>, range: string, prefix: nat,
                       storing: Option<nat>, env: nat -> Env)
    requires Written(b, z, before, after, range, prefix, 0, storing, env)
    requires Keeps(b, z, CheckAt(storing, env)) && SerialsAgree(z, storing, |after| > |before|, env)
    ensures Carry(before, after, StepSoa(SoaOf(z), CheckAt(storing, env)).serial)
  {
    hide FilesAre, KeptNumber, NextSerial, GenerateSerial;
    forall k | |before| <= k < |after|
      ensures after[k].serial == Some(StepSoa(SoaOf(z), CheckAt(storing, env)).serial)
    {
      FileOfRound(b, z, before, after, range, prefix, storing, env, k);
    }
  }

  lemma CarryThenAgree(b: Backend, z: Zone, before: seq<ZoneFile>, after: seq<ZoneFile>, range: string, prefix: nat,
                       storing: Option<nat>, env: nat -> Env)
    requires z.serial < ULONG && Written(b, z, before, after, range, prefix, 0, storing, env)
    requires |before| <= |after| && Carry(before, after, StepSoa(SoaOf(z), CheckAt(storing, env)).serial)
    ensures SerialsAgree(z, storing, |after| > |before|, env)
  {
    hide FilesAre, KeptNumber, NextSerial, GenerateSerial;
    if z.updated == Yes {
      if storing.None? {
        if |after| > |before| {
          FileOfRound(b, z, before, after, range, prefix, storing, env, |before|);
          SerialAtMoves(z, env, 0);
        }
      } else {
        forall k | 0 <= k < storing.value ensures SerialAt(z, env, k) == SerialAt(z, env, storing.value) {
          FileOfRound(b, z, before, after, range, prefix, storing, env, |before| + k);
        }
      }
    }
  }

  lemma MoreFiles(b: Backend, z: Zone, before: seq<ZoneFile>, after: seq<ZoneFile>, range: string, prefix: nat, i: nat,
                  storing: Option<nat>, env: nat -> Env)
    requires Written(b, z, before, after, range, prefix, i, storing, env)
    ensures |before| <= |after|
  {
  }

  lemma ValidationWrites(b: Backend, st: State, range: string, ztype: Option<string>, prefix: nat, env: nat -> Env,
                         recording: Executed)
    requires |Matching(st.zones, range)| == 1
    ensures var z, end := Matching(st.zones, range)[0], Validate(b, st, range, ztype, prefix, env, recording).0;
            && |st.files| <= |end.files|
            && Written(b, z, st.files, end.files, range, prefix, 0, StoringRound(b, range, ztype, prefix, env), env)
  {
    hide FilesAre, Matching, Update, GetZoneIndex, ValidateFrom, FirstStore;
    NoFiles(b, Matching(st.zones, range)[0], st.files, range, prefix, 0, None, env);
    assert Written(b, Matching(st.zones, range)[0], st.files, st.files, range, prefix, 0, None, env);
    hide Written;
    if ztype != Some("slave") && GetZoneIndex(prefix).Ok? {
      RoundsWrite(b, st, range, prefix, 0, GetZoneIndex(prefix).value, env);
    }
    MoreFiles(b, Matching(st.zones, range)[0], st.files, Validate(b, st, range, ztype, prefix, env, recording).0.files,
              range, prefix, 0, StoringRound(b, range, ztype, prefix, env), env);
  }

  /** All files of a validation carry the serial that the zone has in the end, exactly when they agree on it. */
  lemma FilesAgreeExactly(b: Backend, st: State, range: string, ztype: Option<string>, prefix: nat, env: nat -> Env,
                          recording: Executed)
    requires |Matching(st.zones, range)| == 1 && Matching(st.zones, range)[0].serial < ULONG
    requires Keeps(b, Matching(st.zones, range)[0], CheckOf(b, range, ztype, prefix, env))
    ensures var end := Validate(b, st, range, ztype, prefix, env, recording).0;
            && |Matching(end.zones, range)| == 1 && |st.files| <= |end.files|
            && (Carry(st.files, end.files, Matching(end.zones, range)[0].serial)
                <==> SerialsAgree(Matching(st.zones, range)[0], StoringRound(b, range, ztype, prefix, env),
                                  |end.files| > |st.files|, env))
  {
    var z, end := Matching(st.zones, range)[0], Validate(b, st, range, ztype, prefix, env, recording).0;
    var storing := StoringRound(b, range, ztype, prefix, env);
    ValidationWrites(b, st, range, ztype, prefix, env, recording);
    ValidationChecksOnce(b, st, range, ztype, prefix, env, recording);
    hide Written, KeptNumber, NextSerial, GenerateSerial, Validate, Matching, Carry, SerialsAgree, StoringRound;
    if Carry(st.files, end.files, Matching(end.zones, range)[0].serial) {
      CarryThenAgree(b, z, st.files, end.files, range, prefix, storing, env);
    }
    if SerialsAgree(z, storing, |end.files| > |st.files|, env) {
      AgreeThenCarry(b, z, st.files, end.files, range, prefix, storing, env);
    }
  }

  /** So they do whenever the update of the first round is not swallowed, as with SQLite. */
  lemma ReportedUpdatesAgree(b: Backend, st: State, range: string, ztype: Option<string>, prefix: nat, env: nat -> Env,
                             recording: Executed)
    requires |Matching(st.zones, range)| == 1 && Matching(st.zones, range)[0].serial < ULONG
    requires Keeps(b, Matching(st.zones, range)[0], CheckOf(b, range, ztype, prefix, env))
    requires OutcomeOf(b, env(0).updating) != Swallowed
    ensures var end := Validate(b, st, range, ztype, prefix, env, recording).0;
            && |Matching(end.zones, range)| == 1 && |st.files| <= |end.files|
            && Carry(st.files, end.files, Matching(end.zones, range)[0].serial)
  {
    hide Validate, Matching, GetZoneIndex, Keeps, Carry, EndsEarly, OutcomeOf, NextSerial;
    ValidationWrites(b, st, range, ztype, prefix, env, recording);
    FilesAgreeExactly(b, st, range, ztype, prefix, env, recording);
  }

  lemma OnlyZone(z: Zone, c: Change)
    ensures Matching([z], z.name) == [z] && Update([z], z.name, c) == [Changed(z, c)]
  {
    assert [z][1..] == [];
  }

  /** A round that writes its file, on a table that holds just the one zone. */
  lemma OnlyZoneRound(b: Backend, z: Zone, z': Zone, files: seq<ZoneFile>, prefix: nat, i: nat, count: nat,
                      env: nat -> Env, file: ZoneFile)
    requires i < count && z.updated == Yes && env(i).readable && env(i).GoesOn()
    requires GetOffsetIp(z.name, prefix, i) == Ok(file.name) && file.serial == Some(SerialAt(z, env, i))
    requires z' == match OutcomeOf(b, env(i).updating)
                   case Effective => z.(serial := KeptNumber(b, SerialAt(z, env, i)), updated := No)
                   case _ => z
    requires OutcomeOf(b, env(i).updating) != Reported
    ensures Matching([z], z.name) == [z] && Matching([z'], z.name) == [z']
    ensures ValidateFrom(b, State([z], files), z.name, prefix, i, count, env)
            == ValidateFrom(b, State([z'], files + [file]), z.name, prefix, i + 1, count, env)
  {
    hide GetOffsetIp, NextSerial, GenerateSerial, Matching, Update, KeptNumber, ValidateFrom;
    OnlyZone(z, SerialTo(KeptNumber(b, SerialAt(z, env, i))));
    OnlyZone(z', MarkUpdated);
    AfterRound(b, State([z], files), z.name, prefix, i, count, env);
  }

  /** A clock that moves on by a day each round, with the first update failing. */
  function TwoDays(k: nat): Env {
    Env(Day(2024, 0, k + 1), true, if k == 0 then Executed.Failed else Done, true, true, true)
  }

  lemma TwoDaysSerials(z: Zone)
    requires z.serial == 2024010101 && z.updated == Yes
    ensures SerialAt(z, TwoDays, 0) == 2024010102 && OutcomeOf(MySql, TwoDays(0).updating) == Swallowed
    ensures SerialAt(z, TwoDays, 1) == 2024010201 && OutcomeOf(MySql, TwoDays(1).updating) == Effective
    ensures KeptNumber(MySql, 2024010201) == 2024010201
    ensures forall k: nat :: TwoDays(k).readable && TwoDays(k).GoesOn()
  {
    SerialValue(Day(2024, 0, 1));
    SerialValue(Day(2024, 0, 2));
    hide GenerateSerial;
  }

  lemma TwoDaysRounds(z: Zone, z': Zone, next: string)
    requires z.serial == 2024010101 && z.updated == Yes && z' == z.(serial := 2024010201, updated := No)
    requires GetOffsetIp(z.name, 23, 0) == Ok(z.name) && GetOffsetIp(z.name, 23, 1) == Ok(next)
    ensures Matching([z], z.name) == [z]
    ensures ValidateFrom(MySql, State([z], []), z.name, 23, 0, 2, TwoDays)
            == (State([z'], [ZoneFile(z.name, Some(2024010102)), ZoneFile(next, Some(2024010201))]), Ok(true))
  {
    TwoDaysSerials(z);
    hide GetOffsetIp, Matching, ValidateFrom, TwoDays, OutcomeOf, KeptNumber, SerialAt, Env.GoesOn;
    var files := [ZoneFile(z.name, Some(2024010102)), ZoneFile(next, Some(2024010201))];
    assert [] + [files[0]] == files[..1] && files[..1] + [files[1]] == files;
    OnlyZoneRound(MySql, z, z, [], 23, 0, 2, TwoDays, files[0]);
    OnlyZoneRound(MySql, z, z', files[..1], 23, 1, 2, TwoDays, files[1]);
    NoRoundsLeft(MySql, State([z'], files), z.name, 23, 2, TwoDays);
  }

  lemma TwoSubZones(range: string)
    requires range == Print(0x0A00_0000)
    ensures GetZoneIndex(23) == Ok(2)
    ensures GetOffsetIp(range, 23, 0) == Ok(range) && GetOffsetIp(range, 23, 1) == Ok(Print(0x0A00_0100))
  {
    ParsePrint(0x0A00_0000);
    hide Print, Parse, GetOffsetIp;
    OffsetIpText(range, 0x0A00_0000, 23, 0);
    OffsetIpText(range, 0x0A00_0000, 23, 1);
  }

  lemma TwoDaysExample(z: Zone, z': Zone)
    requires z.name == Print(0x0A00_0000) && z.serial == 2024010101 && z.updated == Yes
    requires z' == z.(serial := 2024010201, updated := No)
    ensures Matching([z], z.name) == [z] && Matching([z'], z.name) == [z']
    ensures Update([z'], z.name, ValidTo(Yes)) == [z'.(valid := Yes)]
    ensures Rounds(MySql, State([z], []), z.name, None, 23, TwoDays)
            == (State([z'], [ZoneFile(z.name, Some(2024010102)), ZoneFile(Print(0x0A00_0100), Some(2024010201))]),
                Ok(true))
  {
    hide Print, Parse, GetOffsetIp, Matching, Update, GetZoneIndex, ValidateFrom;
    TwoSubZones(z.name);
    TwoDaysRounds(z, z', Print(0x0A00_0100));
    OnlyZone(z', ValidTo(Yes));
  }

  /** MySQL, 10.0.0.0/23 with serial 2024010101, marked updated, validated over midnight after New Year's Day of 2024
      with its first update swallowed: its two files carry different serials. */
  lemma SwallowedUpdateExample(base: Zone)
    ensures var range := Print(0x0A00_0000);
            var z := base.(name := range, serial := 2024010101, updated := Yes);
            && Matching([z], range) == [z]
            && Validate(MySql, State([z], []), range, None, 23, TwoDays, Done)
               == (State([z.(serial := 2024010201, updated := No, valid := Yes)],
                         [ZoneFile(range, Some(2024010102)), ZoneFile(Print(0x0A00_0100), Some(2024010201))]),
                   Ok(()))
  {
    hide Print, Matching, Update, Rounds;
    var z := base.(name := Print(0x0A00_0000), serial := 2024010101, updated := Yes);
    TwoDaysExample(z, z.(serial := 2024010201, updated := No));
  }

  /** The same with the recording swallowed too: both checks passed and no error is returned, and the zone stays
      recorded as not valid. */
  lemma SwallowedRecordingExample(base: Zone)
    ensures var range := Print(0x0A00_0000);
            var z := base.(name := range, serial := 2024010101, updated := Yes, valid := No);
            && Matching([z], range) == [z]
            && var (end, r) := Validate(MySql, State([z], []), range, None, 23, TwoDays, Executed.Failed);
            r == Ok(()) && end.zones == [z.(serial := 2024010201, updated := No)]
            && TwoDays(0).passed && TwoDays(1).passed
  {
    hide Print, Matching, Update, Rounds;
    var z := base.(name := Print(0x0A00_0000), serial := 2024010101, updated := Yes, valid := No);
    TwoDaysExample(z, z.(serial := 2024010201, updated := No));
  }

  /** Rounds that end without an error say yes exactly when every check from sub-zone i on passed. */
  lemma {:induction false} RoundsReportChecks(b: Backend, st: State, range: string, prefix: nat, i: nat, count: nat,
                                              env: nat -> Env)
    requires i <= count && Matching(st.zones, range) != []
    ensures var r := ValidateFrom(b, st, range, prefix, i, count, env).1;
            r.Ok? ==> (r.value <==> forall k :: i <= k < count ==> env(k).passed)
    decreases count - i
  {
    hide GetOffsetIp, GetZoneIndex, NextSerial, GenerateSerial, Matching, Update;
    if i < count && GetOffsetIp(range, prefix, i).Ok? {
      var (next, r) := WriteFile(b, st, range, prefix, i, env(i));
      WriteFileKeepsMatching(b, st, range, prefix, i, env(i));
      if r.Ok? && env(i).passed {
        RoundsReportChecks(b, next, range, prefix, i + 1, count, env);
      }
    }
  }

  /** A validation that returns no error has recorded the zone as valid or not as its sub-zone checks came out, unless
      the recording was swallowed; then, and when an error is returned, the valid column is as it was. */
  lemma ValidationRecordsChecks(b: Backend, st: State, range: string, ztype: Option<string>, prefix: nat,
                                env: nat -> Env, recording: Executed)
    requires |Matching(st.zones, range)| == 1
    ensures var (end, r) := Validate(b, st, range, ztype, prefix, env, recording);
            && |Matching(end.zones, range)| == 1
            && var valid := Matching(end.zones, range)[0].valid;
            && (r.Ok? && OutcomeOf(b, recording) == Effective ==>
                  && (valid == Yes || valid == No)
                  && (valid == Yes <==> ztype == Some("slave")
                                        || forall k :: 0 <= k < GetZoneIndex(prefix).value ==> env(k).passed))
            && (r.Err? || OutcomeOf(b, recording) != Effective ==> valid == Matching(st.zones, range)[0].valid)
  {
    hide GetOffsetIp, GetZoneIndex, NextSerial, GenerateSerial, Matching, Update;
    var mid := st;
    if ztype != Some("slave") && GetZoneIndex(prefix).Ok? {
      var count := GetZoneIndex(prefix).value;
      RoundsReportChecks(b, st, range, prefix, 0, count, env);
      RoundsKeepValid(b, st, range, prefix, 0, count, env);
      mid := ValidateFrom(b, st, range, prefix, 0, count, env).0;
    }
    MatchingAfterUpdate(mid.zones, range, ValidTo(Yes));
    MatchingAfterUpdate(mid.zones, range, ValidTo(No));
  }

  lemma {:induction false} RoundsKeepValid(b: Backend, st: State, range: string, prefix: nat, i: nat, count: nat,
                                           env: nat -> Env)
    requires i <= count && |Matching(st.zones, range)| == 1
    ensures var end := ValidateFrom(b, st, range, prefix, i, count, env).0;
            |Matching(end.zones, range)| == 1
            && Matching(end.zones, range)[0].valid == Matching(st.zones, range)[0].valid
    decreases count - i
  {
    hide GetOffsetIp, GetZoneIndex, NextSerial, GenerateSerial, Matching, Update, KeptNumber;
    if i < count && !EndsEarly(range, prefix, i, count, env) {
      var (next, r) := WriteFile(b, st, range, prefix, i, env(i));
      MatchingAfterUpdate(st.zones, range,
                          SerialTo(KeptNumber(b, Refreshed(Matching(st.zones, range)[0], env(i).clock))));
      if r.Ok? && env(i).passed {
        RoundsKeepValid(b, next, range, prefix, i + 1, count, env);
      }
    }
  }
}

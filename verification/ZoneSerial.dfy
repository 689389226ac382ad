/** SOA serial numbers: the dated serial of a day, and how a zone's serial moves past it. */
module ZoneSerial {
  import opened Arithmetic
  import opened Text
  import opened Ipv4

  /** localtime: a calendar day, or a failure. Months count from zero and days from one. */
  datatype Clock = Failed | Day(year: nat, month: nat, day: nat) {
    predicate Valid() { Day? ==> month < 12 && 1 <= day <= 31 }
  }

  function TwoDigits(n: nat): string {
    if n < 10 then "0" + Decimal(n) else Decimal(n)
  }

  /** The text generate_zone_serial builds: YYYYMMDD01, section 2.2 of RFC 1912. */
  function SerialText(clock: Clock): string
    requires clock.Day?
  {
    Decimal(clock.year)
    + (if clock.month < 9 then "0" + Decimal(clock.month + 1) else Decimal(clock.month + 1))
    + TwoDigits(clock.day) + "01"
  }

  /** generate_zone_serial: zero when the time cannot be read. */
  function GenerateSerial(clock: Clock): nat {
    if clock.Failed? then 0 else StrToUl(SerialText(clock))
  }

  lemma TwoDigitText(n: nat)
    requires n < 100
    ensures TwoDigits(n) == [Digit(n / 10), Digit(n % 10)]
  {
    if n >= 10 { assert Decimal(n / 10) == [Digit(n / 10)]; }
  }

  /** The serial in numbers: year, month, day and 01, two digits each but the year. */
  lemma SerialValue(clock: Clock)
    requires clock.Day? && clock.Valid()
    ensures GenerateSerial(clock) == ((clock.year * 100 + clock.month + 1) * 100 + clock.day) * 100 + 1
  {
    var y, m, d := Decimal(clock.year), clock.month + 1, clock.day;
    TwoDigitText(m);
    TwoDigitText(d);
    DecimalValue(clock.year);
    var s1 := y + [Digit(m / 10), Digit(m % 10)];
    var s2 := s1 + [Digit(d / 10), Digit(d % 10)];
    var s3 := s2 + [Digit(0), Digit(1)];
    DigitsAppendTwo(y, Digit(m / 10), Digit(m % 10));
    DigitsAppendTwo(s1, Digit(d / 10), Digit(d % 10));
    DigitsAppendTwo(s2, Digit(0), Digit(1));
    assert "01" == [Digit(0), Digit(1)];
    assert SerialText(clock) == s3;
    AllDigits(s3);
  }

  /** One day is before another in the calendar. */
  predicate Before(a: Clock, b: Clock)
    requires a.Day? && b.Day?
  {
    a.year < b.year || (a.year == b.year && (a.month < b.month || (a.month == b.month && a.day < b.day)))
  }

  /** Dated serials order as their days do. */
  lemma SerialsOrderAsDays(a: Clock, b: Clock)
    requires a.Day? && b.Day? && a.Valid() && b.Valid()
    ensures GenerateSerial(a) < GenerateSerial(b) <==> Before(a, b)
    ensures GenerateSerial(a) == GenerateSerial(b) <==> a == b
  {
    SerialValue(a);
    SerialValue(b);
  }

  // ---- Moving a serial ----------------------------------------------------

  /** The next serial: the dated one when it is larger, otherwise one more, in an unsigned long. */
  function NextSerial(current: nat, dated: nat): nat {
    if dated <= current then (current + 1) % ULONG else dated
  }

  /** The next serial is larger exactly when the current one is not the last unsigned long. */
  lemma NextSerialGrows(current: nat, dated: nat)
    requires current < ULONG && dated < ULONG
    ensures current < NextSerial(current, dated) < ULONG <==> current < ULONG - 1
  {
    if dated <= current && current < ULONG - 1 { assert (current + 1) % ULONG == current + 1; }
  }

  /** Serial comparison as section 3.2 of RFC 1982 defines it for 32-bit serials. */
  predicate Newer(s: nat, t: nat)
    requires s < SPACE && t < SPACE
  {
    (t < s && s - t < 0x8000_0000) || (s < t && t - s > 0x8000_0000)
  }

  /** A secondary server takes the next serial as newer exactly when the dated serial is not half the serial
      space or more ahead. */
  lemma NextSerialIsNewer(current: nat, dated: nat)
    requires current < SPACE - 1 && dated < SPACE
    ensures NextSerial(current, dated) < SPACE
    ensures Newer(NextSerial(current, dated), current) <==> dated < current + 0x8000_0000
  {
    if dated <= current { assert (current + 1) % ULONG == current + 1; }
  }

  /** A zone that was last written with serial 1 and is bumped by a clock that shows New Year's Day of 2148 gets
      2148010101, which a secondary server does not take as newer. */
  lemma FarSerialExample()
    ensures var dated := GenerateSerial(Day(2148, 0, 1));
            dated == 2148010101 && NextSerial(1, dated) == dated && !Newer(dated, 1)
  {
    SerialValue(Day(2148, 0, 1));
  }

  // ---- Runs of one zone ---------------------------------------------------

  datatype Soa = Soa(serial: nat, updated: bool)

  /** Mark the zone updated, or check it: a check whose database update fails changes nothing. */
  datatype SoaStep = Mark | Check(dated: nat, stored: bool)

  function StepSoa(soa: Soa, step: SoaStep): Soa {
    match step
    case Mark => soa.(updated := true)
    case Check(dated, stored) =>
      if soa.updated && stored then Soa(NextSerial(soa.serial, dated), false) else soa
  }

  ghost function RunSoa(soa: Soa, steps: seq<SoaStep>): Soa
    decreases |steps|
  {
    if steps == [] then soa else RunSoa(StepSoa(soa, steps[0]), steps[1..])
  }

  /** How many steps of the run clear the updated flag. */
  ghost function Bumps(soa: Soa, steps: seq<SoaStep>): nat
    decreases |steps|
  {
    if steps == [] then 0
    else (if soa.updated && !StepSoa(soa, steps[0]).updated then 1 else 0) + Bumps(StepSoa(soa, steps[0]), steps[1..])
  }

  /** The largest dated serial seen, and at least floor. */
  function LargestDated(floor: nat, steps: seq<SoaStep>): nat
    decreases |steps|
  {
    if steps == [] then floor
    else LargestDated(if steps[0].Check? then Max(floor, steps[0].dated) else floor, steps[1..])
  }

  lemma {:induction false} LargestDatedMonotone(a: nat, b: nat, steps: seq<SoaStep>)
    requires a <= b
    ensures LargestDated(a, steps) <= LargestDated(b, steps) && a <= LargestDated(a, steps)
    ensures LargestDated(b, steps) <= LargestDated(a, steps) + (b - a)
    decreases |steps|
  {
    if steps != [] {
      var a' := if steps[0].Check? then Max(a, steps[0].dated) else a;
      var b' := if steps[0].Check? then Max(b, steps[0].dated) else b;
      LargestDatedMonotone(a', b', steps[1..]);
    }
  }

  lemma LargestDatedStep(floor: nat, steps: seq<SoaStep>)
    requires steps != []
    ensures LargestDated(floor, steps)
            == LargestDated(if steps[0].Check? then Max(floor, steps[0].dated) else floor, steps[1..])
  {
  }

  /** A step moves the serial exactly when it clears the updated flag, and then up. */
  lemma StepMovesSerial(soa: Soa, step: SoaStep)
    requires soa.serial < ULONG - 1 && (step.Check? ==> step.dated < ULONG)
    ensures var next := StepSoa(soa, step);
            if soa.updated && !next.updated then next.serial > soa.serial else next.serial == soa.serial
  {
    if step.Check? { NextSerialGrows(soa.serial, step.dated); }
  }

  lemma NextSerialValue(current: nat, dated: nat)
    requires current < ULONG - 1
    ensures NextSerial(current, dated) == if dated <= current then current + 1 else dated
  {
    assert (current + 1) % ULONG == current + 1;
  }

  /** A limit that the run cannot reach is one its remaining steps cannot reach either. */
  lemma StepKeepsLimit(soa: Soa, steps: seq<SoaStep>, limit: nat)
    requires steps != [] && LargestDated(soa.serial, steps) + |steps| < limit <= ULONG
    ensures var next := StepSoa(soa, steps[0]);
            && next.serial < limit && LargestDated(next.serial, steps[1..]) + |steps[1..]| < limit
            && LargestDated(next.serial, steps[1..])
               <= LargestDated(soa.serial, steps) + (if soa.updated && !next.updated then 1 else 0)
            && (steps[0].Check? ==> NextSerial(soa.serial, steps[0].dated) < limit)
  {
    var next := StepSoa(soa, steps[0]);
    var floor := if steps[0].Check? then Max(soa.serial, steps[0].dated) else soa.serial;
    LargestDatedMonotone(floor, floor, steps[1..]);
    if steps[0].Check? { NextSerialValue(soa.serial, steps[0].dated); }
    hide NextSerial, LargestDated;
    assert LargestDated(soa.serial, steps) == LargestDated(floor, steps[1..]) by {
      LargestDatedStep(soa.serial, steps);
    }
    if next.serial <= floor {
      LargestDatedMonotone(next.serial, floor, steps[1..]);
    } else {
      LargestDatedMonotone(floor, next.serial, steps[1..]);
    }
  }

  /** Over every run, with the clock going backwards or failing, the serial is at most the largest of the
      initial serial and the dated serials seen, plus the number of bumps, and at least the initial serial plus
      that number. The run may not reach the last unsigned long. */
  lemma {:induction false} RunBoundsSerial(soa: Soa, steps: seq<SoaStep>)
    requires LargestDated(soa.serial, steps) + |steps| < ULONG
    ensures soa.serial + Bumps(soa, steps) <= RunSoa(soa, steps).serial
            <= LargestDated(soa.serial, steps) + Bumps(soa, steps)
    ensures Bumps(soa, steps) <= |steps|
    decreases |steps|
  {
    LargestDatedMonotone(soa.serial, soa.serial, steps);
    if steps != [] {
      StepKeepsLimit(soa, steps, ULONG);
      if steps[0].Check? { NextSerialValue(soa.serial, steps[0].dated); }
      hide NextSerial, LargestDated;
      RunBoundsSerial(StepSoa(soa, steps[0]), steps[1..]);
    }
  }
}

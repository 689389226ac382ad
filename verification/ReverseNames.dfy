/** Texts derived from a sub-zone: its in-addr.arpa name and the LIKE pattern for its addresses. */
module ReverseNames {
  import opened Results
  import opened Text
  import opened CString
  import opened Ipv4
  import opened SqlLike
  import opened Arithmetic
  import opened ZoneBlocks

  const SERVICE_LEN: nat := 16
  const ARPA := ".in-addr.arpa"

  // ---- Names --------------------------------------------------------------

  /** How many trailing fields get_in_addr_string drops. */
  function DroppedFields(prefix: nat): nat {
    if 16 < prefix <= 24 then 1 else if 8 < prefix <= 16 then 2 else if prefix == 8 then 3 else 0
  }

  /** The fields from last to first, a dot after all but the last; each cut as strncat cuts it. */
  function Reversed(fs: seq<string>): string
    requires 0 < |fs|
  {
    if |fs| == 1 then Truncate(fs[0], SERVICE_LEN)
    else Truncate(fs[|fs| - 1], SERVICE_LEN) + "." + Reversed(fs[..|fs| - 1])
  }

  /** The kept fields, reversed. A prefix that drops no field reverses none either. */
  function InAddrBody(range: string, prefix: nat): string
    requires DroppedFields(prefix) < |Fields(range)|
  {
    var fs := Fields(range);
    if DroppedFields(prefix) == 0 then Truncate(range, SERVICE_LEN)
    else Reversed(fs[..|fs| - DroppedFields(prefix)])
  }

  /** What get_in_addr_string appends, for a text with enough dots. */
  function InAddrName(range: string, prefix: nat): string
    requires DroppedFields(prefix) < |Fields(range)|
  {
    InAddrBody(range, prefix) + ARPA
  }

  lemma LastDot(s: string, p: nat)
    requires LastAt(s, '.', Some(p))
    ensures Fields(s) == Fields(s[..p]) + [s[p + 1..]]
  {
    assert s == s[..p] + "." + s[p + 1..];
    FieldsOfDotted(s[..p], s[p + 1..]);
    FieldsOfPlain(s[p + 1..]);
  }

  /** Moving the last field of s to the end of out leaves out and the reversed fields of s together as they were. */
  lemma ReversedStep(out: string, s: string, p: nat)
    requires LastAt(s, '.', Some(p))
    ensures out + Truncate(s[p + 1..], SERVICE_LEN) + "." + Reversed(Fields(s[..p])) == out + Reversed(Fields(s))
    ensures |Reversed(Fields(s))| > |Truncate(s[p + 1..], SERVICE_LEN)| + 1
            || Reversed(Fields(s)) == Truncate(s[p + 1..], SERVICE_LEN) + "."
  {
    LastDot(s, p);
    assert Fields(s)[..|Fields(s)| - 1] == Fields(s[..p]);
    var moved, rest := Truncate(s[p + 1..], SERVICE_LEN), Reversed(Fields(s[..p]));
    assert Reversed(Fields(s)) == moved + "." + rest;
    assert out + (moved + "." + rest) == out + moved + "." + rest;
  }

  lemma ReversedOne(s: string)
    requires LastAt(s, '.', None)
    ensures Reversed(Fields(s)) == Truncate(s, SERVICE_LEN)
  {
    FieldsOfPlain(s);
  }

  /** Cut the text at its last dot. */
  method CutLastField(line: array<char>)
    requires HoldsText(line[..]) && 1 < |Fields(Str(line[..]))|
    modifies line
    ensures HoldsText(line[..])
    ensures var fs := Fields(old(Str(line[..]))); Fields(Str(line[..])) == fs[..|fs| - 1]
  {
    ghost var was := line[..];
    var tmp := StrRChr(line, '.');
    if tmp.None? {
      FieldsOfPlain(Str(was));
      assert false;
    } else {
      LastDot(Str(was), tmp.value);
      CutAt(was, Str(was)[..tmp.value], tmp.value);
      line[tmp.value] := '\0';
      assert line[..] == was[tmp.value := '\0'];
    }
  }

  /** Append the field after the last dot, and a dot, to inAddr; cut it from line. */
  method MoveLastField(inAddr: array<char>, line: array<char>, p: nat)
    requires inAddr != line && HoldsText(inAddr[..]) && HoldsText(line[..])
    requires LastAt(Str(line[..]), '.', Some(p))
    requires |Str(inAddr[..])| + |Truncate(Str(line[..])[p + 1..], SERVICE_LEN)| + 1 < inAddr.Length
    modifies inAddr, line
    ensures HoldsText(inAddr[..]) && HoldsText(line[..])
    ensures Str(inAddr[..]) == old(Str(inAddr[..]) + Truncate(Str(line[..])[p + 1..], SERVICE_LEN) + ".")
    ensures Str(line[..]) == old(Str(line[..])[..p])
  {
    ghost var was := line[..];
    StrNCat(inAddr, Str(line[..])[p + 1..], SERVICE_LEN);
    StrNCat(inAddr, ".", 1);
    CutAt(was, Str(was)[..p], p);
    line[p] := '\0';
    assert line[..] == was[p := '\0'];
  }

  /** The loop of get_in_addr_string: move the fields of line, last first, to the end of inAddr. */
  method MoveFields(inAddr: array<char>, line: array<char>)
    requires inAddr != line && HoldsText(inAddr[..]) && HoldsText(line[..])
    requires |Str(inAddr[..])| + |Reversed(Fields(Str(line[..])))| < inAddr.Length
    modifies inAddr, line
    ensures HoldsText(inAddr[..]) && HoldsText(line[..])
    ensures Str(inAddr[..]) + Truncate(Str(line[..]), SERVICE_LEN)
            == old(Str(inAddr[..]) + Reversed(Fields(Str(line[..]))))
  {
    hide Fields, Reversed, LastAt, Truncate;
    ghost var whole := Str(inAddr[..]) + Reversed(Fields(Str(line[..])));
    var tmp := StrRChr(line, '.');
    while tmp.Some?
      invariant HoldsText(inAddr[..]) && HoldsText(line[..])
      invariant Str(inAddr[..]) + Reversed(Fields(Str(line[..]))) == whole
      invariant LastAt(Str(line[..]), '.', tmp)
      decreases |Str(line[..])|
    {
      LastAtInside(Str(line[..]), '.', tmp.value);
      ReversedStep(Str(inAddr[..]), Str(line[..]), tmp.value);
      MoveLastField(inAddr, line, tmp.value);
      tmp := StrRChr(line, '.');
    }
    ReversedOne(Str(line[..]));
  }

  lemma LastAtInside(t: string, c: char, p: nat)
    requires LastAt(t, c, Some(p))
    ensures p < |t|
  {
  }

  /** get_in_addr_string: the name is appended to what the buffer holds. */
  method GetInAddrString(inAddr: array<char>, range: string, prefix: nat)
    requires NoNul(range) && DroppedFields(prefix) < |Fields(range)|
    requires HoldsText(inAddr[..]) && |Str(inAddr[..])| + |InAddrName(range, prefix)| < inAddr.Length
    modifies inAddr
    ensures HoldsText(inAddr[..])
    ensures Str(inAddr[..]) == old(Str(inAddr[..])) + InAddrName(range, prefix)
  {
    hide Fields, Reversed, HoldsText, Str, NoNul, Truncate;
    var line := CopyText(range);
    ghost var was := Str(inAddr[..]);
    DropFields(line, range, prefix);
    if 8 <= prefix <= 24 {
      MoveFields(inAddr, line);
    }
    AppendName(inAddr, line, was, range, prefix);
  }

  /** A buffer that holds the text, with no byte to spare. */
  method CopyText(text: string) returns (line: array<char>)
    requires NoNul(text)
    ensures fresh(line) && HoldsText(line[..]) && Str(line[..]) == text
  {
    line := new char[|text| + 1](_ => '\0');
    Put(line, 0, text);
    StrIs(line[..], text);
  }

  /** The trailing fields that get_in_addr_string cuts off before it moves the others. */
  method DropFields(line: array<char>, ghost range: string, prefix: nat)
    requires HoldsText(line[..]) && Str(line[..]) == range && DroppedFields(prefix) < |Fields(range)|
    modifies line
    ensures HoldsText(line[..])
    ensures DroppedFields(prefix) == 0 ==> Str(line[..]) == range
    ensures Fields(Str(line[..])) == Fields(range)[..|Fields(range)| - DroppedFields(prefix)]
  {
    hide Fields, HoldsText, Str;
    ghost var fs := Fields(range);
    if 16 < prefix <= 24 {
      CutLastField(line);
    } else if 8 < prefix <= 16 {
      CutLastField(line);
      CutLastField(line);
      assert fs[..|fs| - 1][..|fs| - 2] == fs[..|fs| - 2];
    } else if prefix == 8 {
      CutLastField(line);
      CutLastField(line);
      CutLastField(line);
      assert fs[..|fs| - 1][..|fs| - 2][..|fs| - 3] == fs[..|fs| - 3];
    }
  }

  /** The first field and the suffix end the name. */
  method AppendName(inAddr: array<char>, line: array<char>, ghost was: string, range: string, prefix: nat)
    requires inAddr != line && HoldsText(inAddr[..]) && HoldsText(line[..])
    requires DroppedFields(prefix) < |Fields(range)|
    requires Str(inAddr[..]) + Truncate(Str(line[..]), SERVICE_LEN) == was + InAddrBody(range, prefix)
    requires |was| + |InAddrName(range, prefix)| < inAddr.Length
    modifies inAddr
    ensures HoldsText(inAddr[..]) && Str(inAddr[..]) == was + InAddrName(range, prefix)
  {
    hide Fields, InAddrBody;
    StrNCat(inAddr, Str(line[..]), SERVICE_LEN);
    StrNCat(inAddr, ARPA, SERVICE_LEN);
  }

  // ---- LIKE patterns ------------------------------------------------------

  /** How many leading fields get_range_search_string keeps before the '%'. */
  function KeptFields(prefix: nat): nat {
    if prefix > 16 then 3 else if prefix > 8 then 2 else 1
  }

  function PatternOf(addr: string, prefix: nat): string
    requires KeptFields(prefix) < |Fields(addr)|
  {
    JoinDots(Fields(addr)[..KeptFields(prefix)]) + ".%"
  }

  lemma FieldsBefore(t: string, p: nat)
    requires p < |t| && t[p] == '.'
    ensures |Fields(t[..p])| < |Fields(t)|
    ensures Fields(t) == Fields(t[..p]) + Fields(t[p + 1..])
    ensures t[..p] == JoinDots(Fields(t)[..|Fields(t[..p])|])
  {
    assert t == t[..p] + "." + t[p + 1..];
    FieldsOfDotted(t[..p], t[p + 1..]);
    JoinOfFields(t[..p]);
    assert Fields(t)[..|Fields(t[..p])|] == Fields(t[..p]);
  }

  lemma NoMoreDots(t: string, from: nat)
    requires from <= |t| && NoDot(t[from..])
    ensures from > 0 && t[from - 1] == '.' ==> |Fields(t)| == |Fields(t[..from - 1])| + 1
    ensures from == 0 ==> |Fields(t)| == 1
  {
    FieldsOfPlain(t[from..]);
    if from > 0 && t[from - 1] == '.' { FieldsBefore(t, from - 1); }
    if from == 0 { assert t[0..] == t; }
  }

  /** Step over the next dot: one more field lies before it. */
  method NextDot(search: array<char>, from: nat) returns (p: nat)
    requires HoldsText(search[..]) && from <= |Str(search[..])|
    requires from > 0 ==> Str(search[..])[from - 1] == '.'
    requires var t := Str(search[..]);
             (if from == 0 then 0 else |Fields(t[..from - 1])|) + 1 < |Fields(t)|
    ensures from < p <= |Str(search[..])| && Str(search[..])[p - 1] == '.'
    ensures var t := Str(search[..]);
            |Fields(t[..p - 1])| == (if from == 0 then 0 else |Fields(t[..from - 1])|) + 1
  {
    ghost var t := Str(search[..]);
    var q := StrChr(search, from, '.');
    if q.None? {
      assert NoDot(t[from..]);
      NoMoreDots(t, from);
      assert false;
    } else {
      p := q.value + 1;
      ghost var u := t[..p - 1];
      assert NoDot(u[from..]);
      assert from > 0 ==> u[..from - 1] == t[..from - 1];
      NoMoreDots(u, from);
    }
  }

  /** get_range_search_string writes the pattern into search. */
  method GetRangeSearchString(range: string, search: array<char>, prefix: nat, index: nat) returns (r: Result<()>)
    requires search.Length >= SERVICE_LEN
    modifies search
    ensures r.Ok? <==> GetOffsetIp(range, prefix, index).Ok?
    ensures r.Err? ==> r.error == GetOffsetIp(range, prefix, index).error
    ensures r.Ok? ==> |Fields(GetOffsetIp(range, prefix, index).value)| == 4 && HoldsText(search[..])
                      && Str(search[..]) == PatternOf(GetOffsetIp(range, prefix, index).value, prefix)
  {
    var addr :- GetOffsetIp(range, prefix, index);
    OffsetIpIsQuad(range, prefix, index);
    Put(search, 0, addr);
    StrIs(search[..], addr);
    CutToPattern(search, addr, prefix);
    return Ok(());
  }

  /** Write '%' after the dot that ends the kept fields. */
  method CutToPattern(search: array<char>, ghost addr: string, prefix: nat)
    requires HoldsText(search[..]) && Str(search[..]) == addr
    requires |Fields(addr)| == 4 && 0 < |addr| < SERVICE_LEN <= search.Length && NoNul(addr)
    requires addr[|addr| - 1] != '.'
    modifies search
    ensures HoldsText(search[..]) && Str(search[..]) == PatternOf(addr, prefix)
  {
    hide Fields, JoinDots, PatternOf;
    var p := NextDot(search, 0);
    if prefix > 8 { p := NextDot(search, p); }
    if prefix > 16 { p := NextDot(search, p); }
    PatternFrom(addr, p, prefix);
    PutEnd(search, addr, p, "%");
  }

  lemma PatternFrom(addr: string, p: nat, prefix: nat)
    requires 0 < p <= |addr| && addr[p - 1] == '.' && addr[|addr| - 1] != '.'
    requires |Fields(addr)| == 4 && |Fields(addr[..p - 1])| == KeptFields(prefix)
    ensures p < |addr| && PatternOf(addr, prefix) == addr[..p] + "%"
  {
    FieldsBefore(addr, p - 1);
    assert addr[..p] == addr[..p - 1] + ".";
  }

  lemma OffsetIpIsQuad(range: string, prefix: nat, index: nat)
    requires GetOffsetIp(range, prefix, index).Ok?
    ensures var addr := GetOffsetIp(range, prefix, index).value;
            |Fields(addr)| == 4 && 0 < |addr| < SERVICE_LEN && NoNul(addr) && addr[|addr| - 1] != '.'
  {
    hide Print, Parse, QuadFields, Fields;
    var ip := TextToBin(range).value;
    if 16 < prefix <= 24 { PrintIsQuad((ip + 256 * index) % ULONG % SPACE); }
    else if 8 < prefix <= 16 { PrintIsQuad((ip + 0x1_0000 * index) % ULONG % SPACE); }
    else { PrintIsQuad(ip % SPACE); }
  }

  lemma PrintIsQuad(ip: Address)
    ensures Fields(Print(ip)) == QuadFields(ip)
    ensures 0 < |Print(ip)| < SERVICE_LEN && NoNul(Print(ip)) && Print(ip)[|Print(ip)| - 1] != '.'
  {
    FieldsOfPrint(ip);
    hide Parse, OctetsOf;
    var fs := QuadFields(ip);
    JoinOfFour(fs);
  }

  lemma JoinOfFour(fs: seq<string>)
    requires |fs| == 4
    ensures JoinDots(fs) == fs[0] + "." + (fs[1] + "." + (fs[2] + "." + fs[3]))
  {
    assert fs[1..][1..][1..] == [fs[3]];
    assert JoinDots(fs[1..][1..]) == fs[2] + "." + fs[3];
    assert JoinDots(fs[1..]) == fs[1] + "." + (fs[2] + "." + fs[3]);
  }

  // ---- What the patterns match --------------------------------------------

  /** The pattern of an address matches exactly the addresses with the same leading octets. */
  lemma PatternMatches(first: Address, prefix: nat, ip: Address)
    requires 8 <= prefix <= 24
    ensures KeptFields(prefix) < |Fields(Print(first))|
    ensures Like(Print(ip), PatternOf(Print(first), prefix)) <==> InBlockOf(ip, first, prefix)
  {
    var k := KeptFields(prefix);
    FieldsOfPrint(first);
    FieldsOfPrint(ip);
    hide OctetsOf;
    var w := JoinDots(QuadFields(first)[..k]);
    FieldsOfJoin(QuadFields(first)[..k]);
    LiteralQuad(first, k);
    assert PatternOf(Print(first), prefix) == (w + ".") + "%";
    LikePrefix(Print(ip), w + ".");
    DottedPrefix(w, Print(ip));
    LeadingFields(first, ip, k);
    LeadingOctets(first, ip);
  }

  lemma LiteralQuad(first: Address, k: nat)
    requires 1 <= k <= 4
    ensures Literal(JoinDots(QuadFields(first)[..k]))
  {
    LiteralJoin(QuadFields(first)[..k]);
  }

  lemma {:induction false} LiteralJoin(fs: seq<string>)
    requires 0 < |fs| && forall i :: 0 <= i < |fs| ==> Literal(fs[i])
    ensures Literal(JoinDots(fs))
  {
    if |fs| > 1 { LiteralJoin(fs[1..]); }
  }

  /** The search pattern for sub-zone i of a zone. */
  ghost predicate IsPattern(pattern: string, range: string, prefix: nat, i: nat) {
    && GetOffsetIp(range, prefix, i).Ok?
    && KeptFields(prefix) < |Fields(GetOffsetIp(range, prefix, i).value)|
    && pattern == PatternOf(GetOffsetIp(range, prefix, i).value, prefix)
  }

  lemma PatternOfSubZone(range: string, start: Address, prefix: nat, i: nat, pattern: string, ip: Address)
    requires TextToBin(range) == Ok(start) && 8 <= prefix <= 24 && i < GetZoneIndex(prefix).value
    requires SubZoneStart(start, prefix, i) < SPACE && IsPattern(pattern, range, prefix, i)
    ensures Like(Print(ip), pattern) <==> InBlockOf(ip, SubZoneStart(start, prefix, i), prefix)
  {
    SubZonesFillZone(prefix);
    OffsetIpText(range, start, prefix, i);
    PatternMatches(SubZoneStart(start, prefix, i), prefix, ip);
  }

  /** The pattern of sub-zone i matches the addresses of that sub-zone and no others, exactly when the
      zone starts on a sub-zone boundary. */
  lemma PatternExact(range: string, start: Address, prefix: nat, i: nat, pattern: string)
    requires TextToBin(range) == Ok(start) && 8 <= prefix <= 24 && i < GetZoneIndex(prefix).value
    requires SubZoneStart(start, prefix, i) < SPACE && IsPattern(pattern, range, prefix, i)
    ensures (forall ip: Address :: Like(Print(ip), pattern) <==> InSubZone(ip, start, prefix, i))
            <==> start % SubZoneSize(prefix) == 0
  {
    forall ip: Address ensures Like(Print(ip), pattern) <==> InBlockOf(ip, SubZoneStart(start, prefix, i), prefix) {
      PatternOfSubZone(range, start, prefix, i, pattern, ip);
    }
    hide Like, Print, InBlockOf, InSubZone, IsPattern, SubZoneStart, GetZoneIndex, TextToBin;
    SubZoneIsBlockExactly(start, prefix, i);
  }

  /** Some pattern matches the address. */
  ghost predicate Matched(ip: Address, patterns: seq<string>) {
    exists i :: 0 <= i < |patterns| && Like(Print(ip), patterns[i])
  }

  /** Together the patterns of a zone match exactly the addresses of the zone, under the same condition. */
  lemma PatternsCoverZone(range: string, start: Address, prefix: nat, patterns: seq<string>)
    requires TextToBin(range) == Ok(start) && 8 <= prefix <= 24 && start + NetRange(prefix) <= SPACE
    requires |patterns| == GetZoneIndex(prefix).value
    requires forall i :: 0 <= i < |patterns| ==> IsPattern(patterns[i], range, prefix, i)
    ensures (forall ip: Address :: Matched(ip, patterns) <==> InZone(ip, start, prefix))
            <==> start % SubZoneSize(prefix) == 0
  {
    forall ip: Address ensures Matched(ip, patterns) <==> InSomeBlock(ip, start, prefix) {
      MatchedInSomeBlock(range, start, prefix, patterns, ip);
    }
    hide Matched, InSomeBlock, InZone, IsPattern, GetZoneIndex, TextToBin, NetRange;
    BlocksAreZoneExactly(start, prefix);
  }

  lemma MatchedInSomeBlock(range: string, start: Address, prefix: nat, patterns: seq<string>, ip: Address)
    requires TextToBin(range) == Ok(start) && 8 <= prefix <= 24 && start + NetRange(prefix) <= SPACE
    requires |patterns| == GetZoneIndex(prefix).value
    requires forall i :: 0 <= i < |patterns| ==> IsPattern(patterns[i], range, prefix, i)
    ensures Matched(ip, patterns) <==> InSomeBlock(ip, start, prefix)
  {
    hide Like, Print, TextToBin, NetRange, InBlockOf, IsPattern;
    forall i: nat | i < |patterns|
      ensures Like(Print(ip), patterns[i]) <==> InBlockOf(ip, SubZoneStart(start, prefix, i), prefix)
    {
      SubZoneFits(start, prefix, i);
      PatternOfSubZone(range, start, prefix, i, patterns[i], ip);
    }
  }

  lemma SubZoneFits(start: nat, prefix: nat, i: nat)
    requires 8 <= prefix <= 24 && start + NetRange(prefix) <= SPACE && i < GetZoneIndex(prefix).value
    ensures SubZoneStart(start, prefix, i) + SubZoneSize(prefix) <= start + NetRange(prefix)
  {
    SubZonesFillZone(prefix);
    MulMonotone(i + 1, GetZoneIndex(prefix).value, SubZoneSize(prefix));
  }

  /** Where the patterns are defined: the address of the sub-zone must not be zero. */
  lemma PatternDefined(range: string, start: Address, prefix: nat, i: nat)
    requires TextToBin(range) == Ok(start) && 8 <= prefix <= 24 && i < GetZoneIndex(prefix).value
    requires SubZoneStart(start, prefix, i) < SPACE
    ensures GetOffsetIp(range, prefix, i).Ok? <==> SubZoneStart(start, prefix, i) != 0
    ensures (exists pattern :: IsPattern(pattern, range, prefix, i)) <==> SubZoneStart(start, prefix, i) != 0
  {
    SubZonesFillZone(prefix);
    OffsetIpText(range, start, prefix, i);
    if SubZoneStart(start, prefix, i) != 0 {
      FieldsOfPrint(SubZoneStart(start, prefix, i));
      assert IsPattern(PatternOf(GetOffsetIp(range, prefix, i).value, prefix), range, prefix, i);
    }
  }
}

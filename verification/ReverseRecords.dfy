/** Collecting the reverse records to remove and to add: walks over two lists with the pattern of a sub-zone in a
    buffer. */
module ReverseRecords {
  import opened Results
  import opened Text
  import opened CString
  import opened Ipv4
  import opened LinkedList
  import opened ZoneBlocks
  import opened SqlLike
  import opened ReverseNames
  import opened ReverseBuild
  import opened ZoneNames

  const DOMAIN_LEN: nat := 256

  // ---- Stems -------------------------------------------------------------------

  /** The pattern of sub-zone i without its '%'. */
  function StemOf(range: string, prefix: nat, i: nat): Result<string> {
    match GetOffsetIp(range, prefix, i)
    case Err(e) => Err(e)
    case Ok(addr) => OffsetIpIsQuad(range, prefix, i); Ok(JoinDots(Fields(addr)[..KeptFields(prefix)]) + ".")
  }

  /** The stems of the first n sub-zones. */
  function Stems(range: string, prefix: nat, n: nat): (r: Result<seq<string>>)
    ensures r.Ok? ==> |r.value| == n
  {
    if n == 0 then Ok([])
    else
      match Stems(range, prefix, n - 1)
      case Err(e) => Err(e)
      case Ok(stems) =>
        match StemOf(range, prefix, n - 1)
        case Err(e) => Err(e)
        case Ok(stem) => Ok(stems + [stem])
  }

  /** The stems of all sub-zones. */
  function AllStems(range: string, prefix: nat): Result<seq<string>> {
    match GetZoneIndex(prefix)
    case Err(e) => Err(e)
    case Ok(count) => Stems(range, prefix, count)
  }

  lemma {:induction false} StemAt(range: string, prefix: nat, n: nat, i: nat)
    requires Stems(range, prefix, n).Ok? && i < n
    ensures StemOf(range, prefix, i) == Ok(Stems(range, prefix, n).value[i])
  {
    hide StemOf;
    if i < n - 1 { StemAt(range, prefix, n - 1, i); }
  }

  lemma DotsOfJoin(fs: seq<string>)
    requires 0 < |fs| && Plain(fs)
    ensures Dots(JoinDots(fs) + ".") == |fs|
  {
    FieldsOfJoin(fs);
    DotsOfFields(JoinDots(fs));
    DotsAppend(JoinDots(fs), ".");
    assert Dots(".") == 1 + Dots("."[1..]);
  }

  /** The first fields of a text and the dot behind them begin it. */
  lemma LeadingText(addr: string, k: nat)
    requires 1 <= k < |Fields(addr)|
    ensures JoinDots(Fields(addr)[..k]) + "." <= addr
  {
    var fs := Fields(addr);
    assert fs == fs[..k] + fs[k..];
    JoinAppend(fs[..k], fs[k..]);
    JoinOfFields(addr);
  }

  lemma StemShape(range: string, prefix: nat, i: nat)
    requires StemOf(range, prefix, i).Ok?
    ensures var stem := StemOf(range, prefix, i).value;
            && IsStem(stem) && Dots(stem) == KeptFields(prefix) && |stem| < SERVICE_LEN && NoNul(stem)
            && GetOffsetIp(range, prefix, i).Ok?
            && KeptFields(prefix) < |Fields(GetOffsetIp(range, prefix, i).value)|
            && PatternOf(GetOffsetIp(range, prefix, i).value, prefix) == stem + "%"
  {
    OffsetIpIsQuad(range, prefix, i);
    hide GetOffsetIp, Fields, JoinDots, Dots;
    var addr, k := GetOffsetIp(range, prefix, i).value, KeptFields(prefix);
    var fs := Fields(addr)[..k];
    assert Plain(fs);
    DotsOfJoin(fs);
    LeadingText(addr, k);
    assert JoinDots(fs) + ".%" == JoinDots(fs) + "." + "%";
  }

  /** An address begins with the stem exactly when it lies in the block of the sub-zone. */
  lemma StemIsBlock(range: string, start: Address, prefix: nat, i: nat, stem: string, ip: Address)
    requires TextToBin(range) == Ok(start) && 8 <= prefix <= 24 && i < GetZoneIndex(prefix).value
    requires SubZoneStart(start, prefix, i) < SPACE && StemOf(range, prefix, i) == Ok(stem)
    ensures stem <= Print(ip) <==> InBlockOf(ip, SubZoneStart(start, prefix, i), prefix)
  {
    hide Parse, Print, Like, GetOffsetIp, InBlockOf, GetZoneIndex, Fields, JoinDots;
    StemShape(range, prefix, i);
    OffsetIpIsQuad(range, prefix, i);
    PatternOfSubZone(range, start, prefix, i, stem + "%", ip);
    StemLiteral(range, start, prefix, i, stem);
    LikePrefix(Print(ip), stem);
  }

  lemma StemLiteral(range: string, start: Address, prefix: nat, i: nat, stem: string)
    requires TextToBin(range) == Ok(start) && 8 <= prefix <= 24 && i < GetZoneIndex(prefix).value
    requires SubZoneStart(start, prefix, i) < SPACE && StemOf(range, prefix, i) == Ok(stem)
    ensures Literal(stem)
  {
    SubZonesFillZone(prefix);
    OffsetIpText(range, start, prefix, i);
    var first := SubZoneStart(start, prefix, i);
    FieldsOfPrint(first);
    LiteralQuad(first, KeptFields(prefix));
    hide GetOffsetIp, Print, GetZoneIndex, OctetsOf;
  }

  // ---- The walks ---------------------------------------------------------------

  /** The hosts of the rows fit behind a stem. */
  predicate HostsFit(rev: seq<Reverse>) {
    forall k :: 0 <= k < |rev| ==> |rev[k].host| < SERVICE_LEN && NoNul(rev[k].host)
  }

  /** The buffer holds a text that begins with the stem, and there is room for a host behind it. */
  ghost predicate Begins(search: array<char>, stem: string, ptr: nat)
    reads search
  {
    && 2 * SERVICE_LEN <= search.Length && HoldsText(search[..]) && ptr == |stem| < SERVICE_LEN && NoNul(stem)
    && stem <= Str(search[..])
  }

  /** The pattern of a sub-zone into the buffer, and the place of its '%'. */
  method SearchPattern(range: string, search: array<char>, prefix: nat, i: nat) returns (r: Result<nat>)
    requires 2 * SERVICE_LEN <= search.Length
    modifies search
    ensures match StemOf(range, prefix, i)
            case Err(e) => r == Err(e)
            case Ok(stem) => r == Ok(|stem|) && Begins(search, stem, |stem|) && Str(search[..]) == stem + "%"
  {
    hide GetOffsetIp, Fields, JoinDots, PatternOf, Str, HoldsText;
    var _ :- GetRangeSearchString(range, search, prefix, i);
    StemShape(range, prefix, i);
    var ptr := StrRChr(search, '%');
    ghost var stem := StemOf(range, prefix, i).value;
    assert Str(search[..])[|stem|] == '%';
    return Ok(ptr.value);
  }

  /** snprintf of a host behind the stem. */
  method PutHost(search: array<char>, ghost stem: string, ptr: nat, host: string)
    requires Begins(search, stem, ptr) && |host| < SERVICE_LEN && NoNul(host)
    modifies search
    ensures Begins(search, stem, ptr) && Str(search[..]) == stem + host
  {
    ghost var text := Str(search[..]);
    assert text[..ptr] == stem;
    PutEnd(search, text, ptr, host);
  }

  /** The inner walk of cmdb_records_to_remove: a forward record that answers to the row in the buffer. */
  method FindRecord(search: array<char>, ghost stem: string, row: Reverse, rec: List<Forward>) returns (found: bool)
    requires HoldsText(search[..]) && Str(search[..]) == stem + row.host && rec.Valid()
    ensures found <==> Answered(stem, row, rec.vals)
  {
    hide Chain, ClosedChain, Distinct, Fqdn, Str;
    var f := rec.head;
    ghost var k: nat := 0;
    var text := Str(search[..]);
    while f != null
      invariant k <= rec.total && f == if k == rec.total then null else rec.nodes[k]
      invariant forall j :: 0 <= j < k ==> !Answers(stem, row, rec.vals[j])
      decreases rec.total - k
    {
      rec.IndexUnique(f, k);
      rec.Neighbours(f);
      rec.DataOf(k);
      if text == f.data.dest && row.dest == Fqdn(f.data) {
        assert Answers(stem, row, rec.vals[k]);
        return true;
      }
      f := f.next;
      k := k + 1;
    }
    return false;
  }

  /** One sub-zone of cmdb_records_to_remove. */
  method RemovalsOf(search: array<char>, ghost stem: string, ptr: nat, i: nat, rec: List<Forward>, rev: List<Reverse>)
    returns (ids: seq<nat>)
    requires Begins(search, stem, ptr) && rec.Valid() && rev.Valid() && HostsFit(rev.vals)
    modifies search
    ensures ids == RemoveFrom(stem, i, rec.vals, rev.vals)
  {
    hide Chain, ClosedChain, Distinct, Answered, Str, HoldsText;
    ids := [];
    var r := rev.head;
    ghost var k: nat := 0;
    while r != null
      invariant Begins(search, stem, ptr)
      invariant k <= rev.total && r == if k == rev.total then null else rev.nodes[k]
      invariant ids == RemoveFrom(stem, i, rec.vals, rev.vals[..k])
      decreases rev.total - k
    {
      rev.IndexUnique(r, k);
      rev.Neighbours(r);
      rev.DataOf(k);
      assert rev.vals[..k + 1][..k] == rev.vals[..k];
      if r.data.index == i {
        PutHost(search, stem, ptr, r.data.host);
        var found := FindRecord(search, stem, r.data, rec);
        if !found { ids := ids + [r.data.id]; }
      }
      r := r.next;
      k := k + 1;
    }
    assert rev.vals[..k] == rev.vals;
  }

  lemma NoStems(range: string, prefix: nat, rec: seq<Forward>, rev: seq<Reverse>)
    ensures Stems(range, prefix, 0) == Ok([]) && ToRemove([], rec, rev) == [] && ToAdd([], rec, rev) == []
  {
  }

  lemma NextStem(stems: seq<string>, stem: string, rec: seq<Forward>, rev: seq<Reverse>)
    ensures ToRemove(stems + [stem], rec, rev) == ToRemove(stems, rec, rev) + RemoveFrom(stem, |stems|, rec, rev)
    ensures ToAdd(stems + [stem], rec, rev) == ToAdd(stems, rec, rev) + AddFor(stem, |stems|, rec, rev)
  {
    hide RemoveFrom, AddFor;
    assert (stems + [stem])[..|stems|] == stems;
  }

  method RemovalsAt(search: array<char>, range: string, prefix: nat, i: nat, rec: List<Forward>, rev: List<Reverse>)
    returns (r: Result<seq<nat>>)
    requires 2 * SERVICE_LEN <= search.Length && rec.Valid() && rev.Valid() && HostsFit(rev.vals)
    modifies search
    ensures match StemOf(range, prefix, i)
            case Err(e) => r == Err(e)
            case Ok(stem) => r == Ok(RemoveFrom(stem, i, rec.vals, rev.vals))
  {
    hide Chain, ClosedChain, Distinct, RemoveFrom, StemOf, Str, HoldsText;
    var ptr :- SearchPattern(range, search, prefix, i);
    var ids := RemovalsOf(search, StemOf(range, prefix, i).value, ptr, i, rec, rev);
    return Ok(ids);
  }

  /** cmdb_records_to_remove */
  method RecordsToRemove(range: string, prefix: nat, rec: List<Forward>, rev: List<Reverse>)
    returns (r: Result<seq<nat>>)
    requires rec.Valid() && rev.Valid() && HostsFit(rev.vals)
    ensures match AllStems(range, prefix)
            case Err(e) => r == Err(e)
            case Ok(stems) => r == Ok(ToRemove(stems, rec.vals, rev.vals))
  {
    hide Chain, ClosedChain, Distinct, RemoveFrom, StemOf, GetZoneIndex, ToRemove, List.Valid, HostsFit;
    NoStems(range, prefix, rec.vals, rev.vals);
    var index :- GetZoneIndex(prefix);
    var search := new char[HOST_LEN](_ => '\0');
    var ids: seq<nat> := [];
    for i := 0 to index
      invariant Stems(range, prefix, i).Ok? && ids == ToRemove(Stems(range, prefix, i).value, rec.vals, rev.vals)
    {
      if StemOf(range, prefix, i).Err? { StemsStop(range, prefix, i + 1, index); }
      var more :- RemovalsAt(search, range, prefix, i, rec, rev);
      NextStem(Stems(range, prefix, i).value, StemOf(range, prefix, i).value, rec.vals, rev.vals);
      ids := ids + more;
    }
    return Ok(ids);
  }

  lemma {:induction false} StemsStop(range: string, prefix: nat, n: nat, m: nat)
    requires n <= m && Stems(range, prefix, n).Err?
    ensures Stems(range, prefix, m) == Stems(range, prefix, n)
  {
    if n < m { StemsStop(range, prefix, n, m - 1); }
  }

  /** The address of row r is put together in the buffer, and compared, with the name, to the forward record. */
  method IsRowOf(search: array<char>, ghost stem: string, ptr: nat, f: Forward, r: Reverse) returns (known: bool)
    requires Begins(search, stem, ptr) && |r.host| < SERVICE_LEN && NoNul(r.host)
    modifies search
    ensures known <==> Answers(stem, r, f)
    ensures Begins(search, stem, ptr) && HoldsText(search[..]) && Str(search[..]) == stem + r.host
  {
    hide Str, HoldsText, NoNul, Fqdn;
    PutHost(search, stem, ptr, r.host);
    known := f.dest == Str(search[..]) && Fqdn(f) == r.dest;
  }

  /** The inner walk of cmdb_records_to_add: a row that answers to the record. Each row's host is written behind the
      stem, so without a find the buffer ends in that of the last. */
  method FindRow(search: array<char>, ghost stem: string, ptr: nat, f: Forward, rev: List<Reverse>)
    returns (found: bool)
    requires Begins(search, stem, ptr) && HoldsText(search[..]) && rev.Valid() && HostsFit(rev.vals)
    requires rev.vals == [] ==> Str(search[..]) == stem + "%"
    modifies search
    ensures found <==> Known(stem, f, rev.vals)
    ensures Begins(search, stem, ptr) && HoldsText(search[..])
    ensures !found || rev.vals == [] ==> Str(search[..]) == stem + LastHost(rev.vals)
  {
    hide Chain, ClosedChain, Distinct, Fqdn, Str, HoldsText, NoNul, Known, Answers, Begins;
    var r := rev.head;
    ghost var k: nat := 0;
    NoneKnown(stem, f);
    while r != null
      invariant Begins(search, stem, ptr) && HoldsText(search[..])
      invariant k <= rev.total && r == if k == rev.total then null else rev.nodes[k]
      invariant !Known(stem, f, rev.vals[..k])
      invariant Str(search[..]) == if k == 0 then old(Str(search[..])) else stem + rev.vals[k - 1].host
      decreases rev.total - k
    {
      rev.IndexUnique(r, k);
      rev.Neighbours(r);
      rev.DataOf(k);
      KnownNext(stem, f, rev.vals, k);
      found := IsRowOf(search, stem, ptr, f, r.data);
      if found {
        return;
      }
      r := r.next;
      k := k + 1;
    }
    assert rev.vals[..k] == rev.vals;
    return false;
  }

  lemma NoneKnown(stem: string, f: Forward)
    ensures forall rows: seq<Reverse> :: rows == [] ==> !Known(stem, f, rows)
  {
  }

  /** One more row is looked at. */
  lemma KnownNext(stem: string, f: Forward, rows: seq<Reverse>, k: nat)
    requires k < |rows|
    ensures Known(stem, f, rows[..k + 1]) <==> Known(stem, f, rows[..k]) || Answers(stem, rows[k], f)
    ensures Answers(stem, rows[k], f) ==> Known(stem, f, rows)
  {
    hide Answers;
    if Answers(stem, rows[k], f) { assert rows[..k + 1][k] == rows[k]; }
    forall j | 0 <= j < k ensures rows[..k + 1][j] == rows[..k][j] {}
  }

  /** A copy of the text in the buffer, cut at its last dot. */
  method CutText(search: array<char>) returns (cut: string)
    requires HoldsText(search[..]) && Dots(Str(search[..])) > 0
    ensures cut == CutLast(Str(search[..]))
  {
    hide HoldsText, CutLast;
    var text := Str(search[..]);
    var p := StrRChr(search, '.');
    if p.None? {
      NoDots(text);
      assert false;
    } else {
      NoDotsAfter(text, p.value + 1);
      CutAtDot(text, p.value);
      cut := text[..p.value];
    }
  }

  lemma NoDots(t: string)
    requires forall j :: 0 <= j < |t| ==> t[j] != '.'
    ensures Dots(t) == 0
  {
    NoDotsAfter(t, 0);
    assert t[0..] == t;
  }

  lemma {:induction false} NoDotsAfter(t: string, from: nat)
    requires from <= |t| && forall j :: from <= j < |t| ==> t[j] != '.'
    ensures Dots(t[from..]) == 0
    decreases |t| - from
  {
    if from < |t| {
      assert t[from..][1..] == t[from + 1..];
      NoDotsAfter(t, from + 1);
    }
  }

  /** The addresses are no longer than an address. */
  predicate AddressesFit(rec: seq<Forward>) {
    forall k :: 0 <= k < |rec| ==> Dots(rec[k].dest) == 3 && |rec[k].dest| < SERVICE_LEN
  }

  lemma CutShorter(stem: string, t: string, dest: string)
    requires IsStem(stem) && 1 <= Dots(stem) <= 3 && Dots(dest) == 3 && CutLast(stem + t) <= dest
    ensures |stem| <= |dest|
  {
    if !(stem <= dest) { OverreachDots(stem, t, dest); }
  }

  /** cmdb_get_rev_dest_from_search: what is behind the stem. */
  method RevDestFromSearch(search: array<char>, ghost stem: string, dest: string) returns (host: string)
    requires HoldsText(search[..]) && Str(search[..]) == stem + "%" && |stem| <= |dest|
    ensures host == Rest(dest, |stem|)
  {
    var len := StrLen(search[..]) - 1;
    host := dest[len..];
  }

  /** What is done for one forward record in one sub-zone. */
  method AddRecord(search: array<char>, ghost stem: string, ptr: nat, range: string, prefix: nat, i: nat, f: Forward,
                   rev: List<Reverse>) returns (row: Option<Row>)
    requires StemOf(range, prefix, i) == Ok(stem) && Begins(search, stem, ptr) && rev.Valid() && HostsFit(rev.vals)
    requires rev.vals == [] ==> Str(search[..]) == stem + "%"
    requires Dots(f.dest) == 3 && |f.dest| < SERVICE_LEN
    modifies search
    ensures Begins(search, stem, ptr) && (rev.vals == [] ==> Str(search[..]) == stem + "%")
    ensures row == if Adds(stem, f, rev.vals) then Some(AddedRow(stem, i, f)) else None
  {
    hide Chain, ClosedChain, Distinct, Fqdn, Str, HoldsText, Known, CutLast, StemOf, Rest;
    var found := FindRow(search, stem, ptr, f, rev);
    if found {
      return None;
    }
    StemShape(range, prefix, i);
    DotsAppend(stem, LastHost(rev.vals));
    var cut := CutText(search);
    if !(cut <= f.dest) {
      return None;
    }
    CutShorter(stem, LastHost(rev.vals), f.dest);
    var again := SearchPattern(range, search, prefix, i);
    var host := RevDestFromSearch(search, stem, f.dest);
    return Some(Row(i, host, Fqdn(f)));
  }

  /** One sub-zone of cmdb_records_to_add. */
  method AdditionsOf(search: array<char>, ghost stem: string, ptr: nat, range: string, prefix: nat, i: nat,
                     rec: List<Forward>, rev: List<Reverse>) returns (rows: seq<Row>)
    requires StemOf(range, prefix, i) == Ok(stem) && Begins(search, stem, ptr) && Str(search[..]) == stem + "%"
    requires rec.Valid() && rev.Valid() && HostsFit(rev.vals) && AddressesFit(rec.vals)
    modifies search
    ensures rows == AddFor(stem, i, rec.vals, rev.vals)
  {
    hide Chain, ClosedChain, Distinct, Adds, AddedRow, Str, HoldsText, StemOf, Dots;
    rows := [];
    var f := rec.head;
    ghost var k: nat := 0;
    while f != null
      invariant Begins(search, stem, ptr) && (rev.vals == [] ==> Str(search[..]) == stem + "%")
      invariant k <= rec.total && f == if k == rec.total then null else rec.nodes[k]
      invariant rows == AddFor(stem, i, rec.vals[..k], rev.vals)
      decreases rec.total - k
    {
      rec.IndexUnique(f, k);
      rec.Neighbours(f);
      rec.DataOf(k);
      assert rec.vals[..k + 1][..k] == rec.vals[..k];
      var row := AddRecord(search, stem, ptr, range, prefix, i, f.data, rev);
      if row.Some? { rows := rows + [row.value]; }
      f := f.next;
      k := k + 1;
    }
    assert rec.vals[..k] == rec.vals;
  }

  method AdditionsAt(search: array<char>, range: string, prefix: nat, i: nat, rec: List<Forward>, rev: List<Reverse>)
    returns (r: Result<seq<Row>>)
    requires 2 * SERVICE_LEN <= search.Length
    requires rec.Valid() && rev.Valid() && HostsFit(rev.vals) && AddressesFit(rec.vals)
    modifies search
    ensures match StemOf(range, prefix, i)
            case Err(e) => r == Err(e)
            case Ok(stem) => r == Ok(AddFor(stem, i, rec.vals, rev.vals))
  {
    hide Chain, ClosedChain, Distinct, AddFor, StemOf, Str, HoldsText, Dots;
    var ptr :- SearchPattern(range, search, prefix, i);
    var rows := AdditionsOf(search, StemOf(range, prefix, i).value, ptr, range, prefix, i, rec, rev);
    return Ok(rows);
  }

  /** cmdb_records_to_add: the rows it lists, in order. */
  method RecordsToAdd(range: string, prefix: nat, rec: List<Forward>, rev: List<Reverse>)
    returns (r: Result<seq<Row>>)
    requires rec.Valid() && rev.Valid() && HostsFit(rev.vals) && AddressesFit(rec.vals)
    ensures match AllStems(range, prefix)
            case Err(e) => r == Err(e)
            case Ok(stems) => r == Ok(ToAdd(stems, rec.vals, rev.vals))
  {
    hide Chain, ClosedChain, Distinct, AddFor, StemOf, GetZoneIndex, Dots, ToAdd, List.Valid, HostsFit, AddressesFit;
    NoStems(range, prefix, rec.vals, rev.vals);
    var index :- GetZoneIndex(prefix);
    var search := new char[DOMAIN_LEN](_ => '\0');
    var rows: seq<Row> := [];
    for i := 0 to index
      invariant Stems(range, prefix, i).Ok? && rows == ToAdd(Stems(range, prefix, i).value, rec.vals, rev.vals)
    {
      if StemOf(range, prefix, i).Err? { StemsStop(range, prefix, i + 1, index); }
      var more :- AdditionsAt(search, range, prefix, i, rec, rev);
      NextStem(Stems(range, prefix, i).value, StemOf(range, prefix, i).value, rec.vals, rev.vals);
      rows := rows + more;
    }
    return Ok(rows);
  }

  // ---- What the rows mean ---------------------------------------------------------

  lemma AddressFits(dest: string)
    requires TextToBin(dest).Ok?
    ensures Dots(dest) == 3 && |dest| < SERVICE_LEN
  {
    hide Parse;
    var ip := TextToBin(dest).value;
    PrintParse(dest);
    PrintIsQuad(ip);
    DotsOfFields(dest);
  }

  lemma StemsGood(range: string, prefix: nat, rec: seq<Forward>)
    requires AllStems(range, prefix).Ok? && AddressesFit(rec)
    ensures GoodTexts(AllStems(range, prefix).value, rec)
  {
    hide StemOf, Stems, Dots, GetZoneIndex;
    var stems := AllStems(range, prefix).value;
    forall i | 0 <= i < |stems| ensures IsStem(stems[i]) && 1 <= Dots(stems[i]) <= 3 {
      StemAt(range, prefix, |stems|, i);
      StemShape(range, prefix, i);
    }
  }

  /** For every zone, and forward records that are for addresses: the rows of each sub-zone are right after a build
      exactly when the rows before it fit. */
  lemma BuildOfZoneExactly(range: string, prefix: nat, rec: seq<Forward>, rev: seq<Reverse>)
    requires AllStems(range, prefix).Ok? && GoodRows(|AllStems(range, prefix).value|, rev)
    requires forall k :: 0 <= k < |rec| ==> TextToBin(rec[k].dest).Ok?
    ensures var stems := AllStems(range, prefix).value;
            Right(stems, rec, AfterBuild(stems, rec, rev)) <==> Fits(stems, rec, rev)
  {
    hide AllStems, TextToBin, Dots, Fits, Right, AfterBuild;
    forall k | 0 <= k < |rec| ensures Dots(rec[k].dest) == 3 && |rec[k].dest| < SERVICE_LEN {
      AddressFits(rec[k].dest);
    }
    StemsGood(range, prefix, rec);
    BuildRightExactly(AllStems(range, prefix).value, rec, rev);
  }

  /** When the rows are right and the zone starts on a sub-zone boundary, a forward record has its row in sub-zone i
      exactly when its address lies in that sub-zone. */
  lemma RightByAddress(range: string, start: Address, prefix: nat, stems: seq<string>, rec: seq<Forward>,
                       rows: seq<Row>, i: nat, k: nat, ip: Address)
    requires TextToBin(range) == Ok(start) && 8 <= prefix <= 24 && start % SubZoneSize(prefix) == 0
    requires i < |stems| && AllStems(range, prefix) == Ok(stems)
    requires SubZoneStart(start, prefix, i) < SPACE
    requires Right(stems, rec, rows) && k < |rec| && rec[k].dest == Print(ip)
    ensures Row(i, Rest(Print(ip), |stems[i]|), Fqdn(rec[k])) in rows && stems[i] <= Print(ip)
            <==> InSubZone(ip, start, prefix, i)
  {
    hide Parse, Print, StemOf, Stems, Fqdn, GetZoneIndex, InSubZone, InBlockOf, SubZoneStart;
    StemAt(range, prefix, |stems|, i);
    StemIsBlock(range, start, prefix, i, stems[i], ip);
    SubZoneIsBlockExactly(start, prefix, i);
    if stems[i] <= Print(ip) {
      assert stems[i] + Rest(Print(ip), |stems[i]|) == Print(ip);
      IsWanted(stems[i], rec, k, Rest(Print(ip), |stems[i]|));
    }
  }

  lemma OctetTexts()
    ensures OctetText(0) == "0" && OctetText(1) == "1" && OctetText(5) == "5" && OctetText(10) == "10"
  {
  }

  lemma ExampleQuads()
    ensures QuadFields(0x0A00_0000) == ["10", "0", "0", "0"] && QuadFields(0x0A00_0A05) == ["10", "0", "10", "5"]
    ensures QuadFields(0x0A00_0100) == ["10", "0", "1", "0"]
  {
    OctetTexts();
    assert OctetsOf(0x0A00_0000) == [10, 0, 0, 0];
    assert OctetsOf(0x0A00_0A05) == [10, 0, 10, 5];
    assert OctetsOf(0x0A00_0100) == [10, 0, 1, 0];
    hide OctetText, OctetsOf;
  }

  lemma ExampleAddress()
    ensures Print(0x0A00_0A05) == "10.0.10.5"
  {
    ExampleQuads();
    ExampleLiterals();
    hide QuadFields, JoinDots;
  }

  /** The example zone: sub-zone 1 of 10.0.0.0/20 begins with 10.0.1. */
  lemma ExampleStem()
    ensures StemOf(Print(0x0A00_0000), 20, 1) == Ok("10.0.1.")
  {
    hide QuadFields, GetOffsetIp, Parse, GetZoneIndex, Fields, Print, OctetsOf, JoinDots;
    ExampleQuads();
    ExampleLiterals();
    ParsePrint(0x0A00_0000);
    SubZonesFillZone(20);
    OffsetIpText(Print(0x0A00_0000), 0x0A00_0000, 20, 1);
    FieldsOfPrint(0x0A00_0100);
    assert ["10", "0", "1", "0"][..3] == ["10", "0", "1"];
  }

  lemma ExampleLiterals()
    ensures JoinDots(["10", "0", "1"]) + "." == "10.0.1." && JoinDots(["10", "0", "10", "5"]) == "10.0.10.5"
  {
    JoinOfFour(["10", "0", "10", "5"]);
    JoinOfThree("10", "0", "1");
    hide JoinDots;
    assert "10" + "." + ("0" + "." + "1") + "." == "10.0.1.";
  }

  lemma JoinOfThree(a: string, b: string, c: string)
    ensures JoinDots([a, b, c]) == a + "." + (b + "." + c)
  {
    assert [a, b, c][1..] == [b, c] && [b, c][1..] == [c];
    assert JoinDots([b, c]) == b + "." + c;
  }

  lemma SecondStem(range: string, stems: seq<string>)
    requires AllStems(range, 20) == Ok(stems)
    ensures |stems| > 1 && StemOf(range, 20, 1) == Ok(stems[1])
  {
    assert GetZoneIndex(20) == Ok(16);
    hide StemOf, Stems, GetZoneIndex;
    StemAt(range, 20, 16, 1);
  }

  /** An empty table, the zone 10.0.0.0/20 and a record for 10.0.10.5: besides its own row in sub-zone 10 the record
      gets one in sub-zone 1, with the host ".5". */
  lemma OverreachExample(stems: seq<string>, f: Forward)
    requires AllStems(Print(0x0A00_0000), 20) == Ok(stems) && f.dest == Print(0x0A00_0A05)
    ensures Row(1, ".5", Fqdn(f)) in AfterBuild(stems, [f], []) && !Wanted(stems[1], [f], ".5", Fqdn(f))
  {
    hide Print, StemOf, AllStems, Fqdn, AfterBuild, Wanted;
    SecondStem(Print(0x0A00_0000), stems);
    ExampleStem();
    ExampleAddress();
    OverreachAt(stems, f);
  }

  // ---- Owner names -------------------------------------------------------------------

  /** The name that stands for one address: its octets reversed, section 3.5 of RFC 1035. */
  function ReverseName(ip: Address): string {
    var f := QuadFields(ip);
    JoinDots([f[3], f[2], f[1], f[0], "in-addr", "arpa"])
  }

  /** What is behind the stem of an address is its other fields. */
  lemma HostFields(range: string, prefix: nat, i: nat, stem: string, ip: Address)
    requires StemOf(range, prefix, i) == Ok(stem) && stem <= Print(ip)
    ensures Rest(Print(ip), |stem|) == JoinDots(QuadFields(ip)[KeptFields(prefix)..])
  {
    OffsetIpIsQuad(range, prefix, i);
    var f, k := QuadFields(ip), KeptFields(prefix);
    var w := JoinDots(Fields(GetOffsetIp(range, prefix, i).value)[..k]);
    FieldsOfJoin(Fields(GetOffsetIp(range, prefix, i).value)[..k]);
    FieldsOfPrint(ip);
    hide QuadFields, GetOffsetIp;
    DottedPrefix(w, Print(ip));
    JoinOfFields(w);
    assert f == f[..k] + f[k..];
    JoinAppend(f[..k], f[k..]);
  }

  /** The owner name of a row, its host before the name of its sub-zone, is the reverse name of the address it is for
      exactly when the host is one octet or reads the same from both ends: it is never reversed. */
  lemma OwnerNameExact(range: string, prefix: nat, i: nat, stem: string, ip: Address)
    requires StemOf(range, prefix, i) == Ok(stem) && stem <= Print(ip) && 8 <= prefix <= 24
    ensures Rest(Print(ip), |stem|) + "." + NameOf(ip, prefix) == ReverseName(ip)
            <==> prefix > 16 || OctetsOf(ip)[KeptFields(prefix)] == OctetsOf(ip)[3]
  {
    HostFields(range, prefix, i, stem, ip);
    NameIsReversedOctets(ip, prefix);
    var o, f, k := OctetsOf(ip), QuadFields(ip), KeptFields(prefix);
    var owner, full := f[k..] + Labels(ip, prefix), [f[3], f[2], f[1], f[0], "in-addr", "arpa"];
    OctetTextsDiffer(o[k], o[3]);
    assert f[k] == OctetText(o[k]) && f[3] == OctetText(o[3]);
    hide OctetText, OctetsOf, StemOf, NameOf, Print;
    JoinAppend(f[k..], Labels(ip, prefix));
    PlainAppend(f[k..], Labels(ip, prefix));
    OwnerLabels(f, prefix, ip);
    if JoinDots(owner) == JoinDots(full) { JoinInjective(owner, full); }
  }

  lemma OctetTextsDiffer(m: Octet, n: Octet)
    ensures OctetText(m) == OctetText(n) <==> m == n
  {
    if OctetText(m) == OctetText(n) { OctetTextInjective(m, n); }
  }

  lemma OwnerLabels(f: seq<string>, prefix: nat, ip: Address)
    requires f == QuadFields(ip) && 8 <= prefix <= 24
    ensures Plain([f[3], f[2], f[1], f[0], "in-addr", "arpa"])
    ensures f[KeptFields(prefix)..] + Labels(ip, prefix) == [f[3], f[2], f[1], f[0], "in-addr", "arpa"]
            <==> prefix > 16 || f[KeptFields(prefix)] == f[3]
  {
    hide QuadFields;
    var owner := f[KeptFields(prefix)..] + Labels(ip, prefix);
    if prefix > 16 {
      assert owner == [f[3], f[2], f[1], f[0], "in-addr", "arpa"];
    } else if prefix > 8 {
      assert owner == [f[2], f[3], f[1], f[0], "in-addr", "arpa"];
    } else {
      assert owner == [f[1], f[2], f[3], f[0], "in-addr", "arpa"];
    }
  }

  // ---- Preferred records -----------------------------------------------------------

  /** A preferred address: the record that shall have its name. */
  datatype Preferred = Preferred(ip: string, recordId: nat)

  /** The records that one preferred address leaves. */
  function TrimOne(rec: seq<Forward>, p: Preferred): seq<Forward> {
    if rec == [] then []
    else
      var last := rec[|rec| - 1];
      TrimOne(rec[..|rec| - 1], p) + if p.ip == last.dest && last.id != p.recordId then [] else [last]
  }

  function Trim(rec: seq<Forward>, pref: seq<Preferred>): seq<Forward> {
    if pref == [] then rec else TrimOne(Trim(rec, pref[..|pref| - 1]), pref[|pref| - 1])
  }

  lemma {:induction false} InTrimOne(rec: seq<Forward>, p: Preferred, f: Forward)
    ensures f in TrimOne(rec, p) <==> f in rec && (p.ip == f.dest ==> f.id == p.recordId)
  {
    if rec != [] {
      InTrimOne(rec[..|rec| - 1], p, f);
      assert rec == rec[..|rec| - 1] + [rec[|rec| - 1]];
    }
  }

  /** What stays are the records that every preferred entry for their address names. */
  lemma {:induction false} InTrim(rec: seq<Forward>, pref: seq<Preferred>, f: Forward)
    ensures f in Trim(rec, pref)
            <==> f in rec && forall k :: 0 <= k < |pref| && pref[k].ip == f.dest ==> f.id == pref[k].recordId
  {
    if pref != [] {
      var before := pref[..|pref| - 1];
      InTrim(rec, before, f);
      InTrimOne(Trim(rec, before), pref[|pref| - 1], f);
      assert forall k :: 0 <= k < |before| ==> before[k] == pref[k];
    }
  }

  lemma {:induction false} NothingToTrim(pref: seq<Preferred>)
    ensures Trim([], pref) == []
  {
    if pref != [] { NothingToTrim(pref[..|pref| - 1]); }
  }

  /** Taking a record out of the list, and the record after it. */
  method Unlist(r: List<Forward>, record: Elem<Forward>, ghost k: nat) returns (next: Elem?<Forward>)
    requires r.Valid() && k < |r.nodes| && r.nodes[k] == record
    modifies r, r.repr
    ensures r.Valid() && r.repr == old(r.repr) && r.vals == RemoveAt(old(r.vals), k)
    ensures next == if k == r.total then null else r.nodes[k]
  {
    hide Chain, ClosedChain, Distinct;
    r.IndexUnique(record, k);
    r.Neighbours(record);
    if record.prev != null {
      var tmp := record.prev;
      r.IndexUnique(tmp, k - 1);
      r.Neighbours(tmp);
      var _, _ := r.Remove(tmp.next);
      r.IndexUnique(tmp, k - 1);
      r.Neighbours(tmp);
      next := tmp.next;
    } else {
      var _, _ := r.Remove(r.head);
      next := r.head;
    }
  }

  /** One step of the inner walk: the record is taken out or passed. */
  method TrimStep(r: List<Forward>, p: Preferred, record: Elem<Forward>, ghost k: nat)
    returns (next: Elem?<Forward>, ghost k': nat)
    requires r.Valid() && k < |r.nodes| && r.nodes[k] == record
    modifies r, r.repr
    ensures r.Valid() && r.repr == old(r.repr) && |old(r.vals)| == |old(r.nodes)|
    ensures var f := old(r.vals)[k];
            if p.ip == f.dest && f.id != p.recordId then r.vals == RemoveAt(old(r.vals), k) && k' == k
            else r.vals == old(r.vals) && k' == k + 1
    ensures k' <= r.total && next == if k' == r.total then null else r.nodes[k']
  {
    hide Chain, ClosedChain, Distinct, RemoveAt;
    r.IndexUnique(record, k);
    r.Neighbours(record);
    r.DataOf(k);
    k' := k;
    if p.ip == record.data.dest && record.data.id != p.recordId {
      next := Unlist(r, record, k);
    } else {
      next := record.next;
      k' := k + 1;
    }
  }

  /** The inner walk of cmdb_trim_record_list. */
  method TrimFor(r: List<Forward>, p: Preferred)
    requires r.Valid()
    modifies r, r.repr
    ensures r.Valid() && r.repr == old(r.repr) && r.vals == TrimOne(old(r.vals), p)
  {
    hide Chain, ClosedChain, Distinct, RemoveAt, TrimOne;
    ghost var was, j, k := r.vals, 0, 0;
    TrimNothing(was, p);
    var record := r.head;
    while record != null
      invariant r.Valid() && r.repr == old(r.repr) && j <= |was| && k == |TrimOne(was[..j], p)| <= r.total
      invariant r.vals == TrimOne(was[..j], p) + was[j..]
      invariant record == if k == r.total then null else r.nodes[k]
      decreases |was| - j
    {
      TrimNext(was, j, p, r.vals);
      record, k := TrimStep(r, p, record, k);
      j := j + 1;
    }
    assert was[..j] == was;
  }

  lemma TrimNothing(was: seq<Forward>, p: Preferred)
    ensures TrimOne(was[..0], p) == [] && was == TrimOne(was[..0], p) + was[0..]
  {
    assert [] + was[0..] == was;
  }

  /** The next record of the walk goes, or stays. */
  lemma TrimNext(was: seq<Forward>, j: nat, p: Preferred, vals: seq<Forward>)
    requires j < |was| && vals == TrimOne(was[..j], p) + was[j..]
    ensures var k, rest := |TrimOne(was[..j], p)|, TrimOne(was[..j + 1], p);
            if p.ip == was[j].dest && was[j].id != p.recordId
            then |rest| == k && RemoveAt(vals, k) == rest + was[j + 1..]
            else |rest| == k + 1 && vals == rest + was[j + 1..]
  {
    assert was[..j + 1][..j] == was[..j] && was[j..] == [was[j]] + was[j + 1..];
  }

  /** cmdb_trim_record_list, for a list that destroys its records. */
  method TrimRecordList(r: List<Forward>, p: List<Preferred>)
    requires r.Valid() && p.Valid()
    modifies r, r.repr
    ensures r.Valid() && r.vals == Trim(old(r.vals), p.vals)
  {
    hide Chain, ClosedChain, Distinct, TrimOne;
    if r.total == 0 || p.total == 0 {
      NothingToTrim(p.vals);
      return;
    }
    var preferred := p.head;
    ghost var k: nat := 0;
    while preferred != null
      invariant r.Valid() && r.repr == old(r.repr) && k <= p.total
      invariant preferred == if k == p.total then null else p.nodes[k]
      invariant r.vals == Trim(old(r.vals), p.vals[..k])
      decreases p.total - k
    {
      p.IndexUnique(preferred, k);
      p.Neighbours(preferred);
      p.DataOf(k);
      assert p.vals[..k + 1][..k] == p.vals[..k];
      TrimFor(r, preferred.data);
      preferred := preferred.next;
      k := k + 1;
    }
    assert p.vals[..k] == p.vals;
  }

  /** build_reverse_zone between its queries and its statements: the ids to delete and the rows to insert, and the rows
      of the table that they leave. */
  method BuildReverseRecords(range: string, prefix: nat, rec: List<Forward>, pref: List<Preferred>, rev: List<Reverse>)
    returns (r: Result<()>, remove: seq<nat>, add: seq<Row>)
    requires rec.Valid() && pref.Valid() && rev.Valid() && HostsFit(rev.vals) && AddressesFit(rec.vals)
    modifies rec, rec.repr
    ensures rec.Valid() && rec.vals == Trim(old(rec.vals), pref.vals)
    ensures match AllStems(range, prefix)
            case Err(e) => r == Err(e)
            case Ok(stems) => r == Ok(()) && Kept(rev.vals, remove) + add == AfterBuild(stems, rec.vals, rev.vals)
  {
    hide Chain, ClosedChain, Distinct, AllStems, Trim, ToRemove, ToAdd, Dots, Kept;
    remove, add := [], [];
    TrimKeepsFit(rec.vals, pref.vals);
    TrimRecordList(rec, pref);
    remove :- RecordsToRemove(range, prefix, rec, rev);
    var added := RecordsToAdd(range, prefix, rec, rev);
    return Ok(()), remove, added.value;
  }

  lemma TrimKeepsFit(rec: seq<Forward>, pref: seq<Preferred>)
    requires AddressesFit(rec)
    ensures AddressesFit(Trim(rec, pref))
  {
    hide Trim, Dots;
    var trimmed := Trim(rec, pref);
    forall k | 0 <= k < |trimmed| ensures Dots(trimmed[k].dest) == 3 && |trimmed[k].dest| < SERVICE_LEN {
      InTrim(rec, pref, trimmed[k]);
    }
  }
}

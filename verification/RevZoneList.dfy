/** The list of zones for the name server's configuration: one entry for each in-addr.arpa name. */
module RevZoneList {
  import Arithmetic
  import opened Results
  import opened Text
  import opened CString
  import opened Ipv4
  import opened LinkedList
  import opened DataElements
  import opened FlatRows
  import opened ZoneBlocks
  import opened ZoneRows
  import opened ZoneValidation
  import opened ZoneDatabase
  import opened ZoneTable
  import opened SqlLike
  import opened ReverseNames
  import opened ZoneNames
  import opened ZoneConfig

  /** ailsa_rev_zone_s, as far as the list fills it. */
  datatype RevZone = RevZone(kind: string, master: Option<string>, netRange: string, inAddr: Option<string>)

  /** One row of REV_ZONE_CONFIG: type, net_range, pri_dns, sec_dns, master, prefix, all texts. */
  predicate IsRow(row: seq<Datum>) {
    |row| == COLUMNS && forall k :: 0 <= k < COLUMNS ==> row[k].Text?
  }

  /** A prefix with a single sub-zone keeps the row's own range; it must be long enough to name. */
  predicate Nameable(row: seq<Datum>)
    requires IsRow(row)
  {
    var prefix, range := StrToUl(row[5].text), row[1].text;
    prefix == 8 || prefix == 16 || prefix == 24 ==>
      NoNul(range) && DroppedFields(prefix) < |Fields(range)| && |range| <= DOMAIN_LEN
      && |InAddrName(range, prefix)| < HOST_LEN
  }

  /** The entry of sub-zone i of a row. */
  function SubZoneEntry(row: seq<Datum>, prefix: nat, i: nat): (RevZone, Result<()>)
    requires IsRow(row)
  {
    var kind, master := Truncate(row[0].text, SERVICE_LEN), Some(Truncate(row[4].text, DOMAIN_LEN));
    match GetOffsetIp(row[1].text, prefix, i)
    case Err(e) => (RevZone(kind, master, "", None), Err(e))
    case Ok(addr) =>
      OffsetIpIsQuad(row[1].text, prefix, i);
      (RevZone(kind, master, addr, Some(InAddrName(addr, prefix))), Ok(()))
  }

  /** The entries of one row up to sub-zone i; an entry whose address cannot be had ends the list. */
  function Entries(row: seq<Datum>, prefix: nat, i: nat): (r: (seq<RevZone>, Result<()>))
    requires IsRow(row)
  {
    if i == 0 then ([], Ok(()))
    else
      var (before, r) := Entries(row, prefix, i - 1);
      if r.Err? then (before, r)
      else var (e, r') := SubZoneEntry(row, prefix, i - 1); (before + [e], r')
  }

  /** The entries of one row. */
  function RowEntries(row: seq<Datum>): (seq<RevZone>, Result<()>)
    requires IsRow(row) && Nameable(row)
  {
    var prefix, range := StrToUl(row[5].text), row[1].text;
    if prefix != 8 && prefix != 16 && prefix != 24 then
      match GetZoneIndex(prefix)
      case Err(e) => ([], Err(e))
      case Ok(count) => Entries(row, prefix, count)
    else
      var kind := Truncate(row[0].text, SERVICE_LEN);
      var master := if kind == "slave" then Some(Truncate(row[4].text, DOMAIN_LEN)) else None;
      ([RevZone(kind, master, range, Some(InAddrName(range, prefix)))], Ok(()))
  }

  predicate GoodRows(rows: seq<seq<Datum>>) {
    forall k :: 0 <= k < |rows| ==> IsRow(rows[k]) && Nameable(rows[k])
  }

  /** The entries of all rows, stopping at the first error. */
  function AllEntries(rows: seq<seq<Datum>>): (seq<RevZone>, Result<()>)
    requires GoodRows(rows)
  {
    if rows == [] then ([], Ok(()))
    else
      var (first, r) := RowEntries(rows[0]);
      if r.Err? then (first, r)
      else var (rest, r') := AllEntries(rows[1..]); (first + rest, r')
  }

  // ---- The list of a reachable table --------------------------------------

  function KindText(k: Kind): string { if k == Master then "master" else "slave" }

  /** REV_ZONE_CONFIG: type, net_range, pri_dns, sec_dns, master, prefix. */
  function ConfigRow(z: Zone): (row: seq<Datum>)
    ensures IsRow(row) && row[2] == Text(z.primary) && row[3] == Text(z.secondary)
  {
    [Text(KindText(z.kind)), Text(z.name), Text(z.primary), Text(z.secondary), Text(z.master), Text(z.prefix)]
  }

  function ConfigRows(zones: seq<Zone>): (rows: seq<seq<Datum>>)
    ensures |rows| == |zones| && forall k :: 0 <= k < |rows| ==> rows[k] == ConfigRow(zones[k])
  {
    if zones == [] then [] else [ConfigRow(zones[0])] + ConfigRows(zones[1..])
  }

  /** The entry names sub-zone i of the zone, by its address and by its in-addr.arpa name. */
  predicate Names(e: RevZone, z: Zone, i: nat) {
    && Supported(PrefixOf(z)) && i < GetZoneIndex(PrefixOf(z)).value
    && SubZoneStart(First(z), PrefixOf(z), i) < SPACE
    && e.netRange == Print(SubZoneStart(First(z), PrefixOf(z), i))
    && e.inAddr == Some(NameOf(SubZoneStart(First(z), PrefixOf(z), i), PrefixOf(z)))
  }

  lemma SubZoneInside(b: Backend, z: Zone, i: nat)
    requires Stored(b, z) && i < GetZoneIndex(PrefixOf(z)).value
    ensures 0 < First(z) <= SubZoneStart(First(z), PrefixOf(z), i)
    ensures SubZoneStart(First(z), PrefixOf(z), i) + SubZoneSize(PrefixOf(z)) <= First(z) + Size(z) <= SPACE
  {
    hide Parse, StrToUl;
    SubZonesFillZone(PrefixOf(z));
    hide GetZoneIndex, NetRange;
    Arithmetic.MulMonotone(i + 1, GetZoneIndex(PrefixOf(z)).value, SubZoneSize(PrefixOf(z)));
  }

  lemma {:induction false} EntriesOfStored(b: Backend, z: Zone, i: nat)
    requires Stored(b, z) && i <= GetZoneIndex(PrefixOf(z)).value
    ensures var (es, r) := Entries(ConfigRow(z), PrefixOf(z), i);
            r == Ok(()) && |es| == i && forall k :: 0 <= k < i ==> Names(es[k], z, k)
  {
    hide GetOffsetIp, Print, Parse, NetRange, InAddrName, GetZoneIndex, StrToUl, Names, Stored, Truncate;
    if i > 0 {
      EntriesOfStored(b, z, i - 1);
      LastEntry(b, z, i - 1);
    }
  }

  lemma LastEntry(b: Backend, z: Zone, i: nat)
    requires Stored(b, z) && i < GetZoneIndex(PrefixOf(z)).value
    ensures GetOffsetIp(z.name, PrefixOf(z), i).Ok?
    ensures var addr := GetOffsetIp(z.name, PrefixOf(z), i).value;
            && DroppedFields(PrefixOf(z)) < |Fields(addr)|
            && forall kind, master :: Names(RevZone(kind, master, addr, Some(InAddrName(addr, PrefixOf(z)))), z, i)
  {
    SubZoneInside(b, z, i);
    OffsetIpText(z.name, First(z), PrefixOf(z), i);
    OffsetIpIsQuad(z.name, PrefixOf(z), i);
    hide GetOffsetIp, Print, Parse, NetRange, InAddrName, GetZoneIndex, StrToUl;
  }

  /** The entry has the type of the zone, and for a slave its master, as far as the buffer keeps it. An entry of a zone
      with one sub-zone has no master unless it is a slave. */
  predicate Declares(e: RevZone, z: Zone) {
    && (e.kind == "slave" <==> z.kind == Slave) && (e.kind == "master" <==> z.kind == Master)
    && (z.kind == Slave ==> e.master == Some(Truncate(z.master, DOMAIN_LEN)))
    && (z.kind == Master && PrefixOf(z) in {16, 24} ==> e.master == None)
  }

  /** The entry is that of sub-zone i of the zone. */
  predicate IsEntry(e: RevZone, z: Zone, i: nat) { Names(e, z, i) && Declares(e, z) }

  lemma {:induction false} EntriesDeclare(z: Zone, i: nat)
    requires PrefixOf(z) !in {8, 16, 24}
    ensures forall k :: 0 <= k < |Entries(ConfigRow(z), PrefixOf(z), i).0| ==>
              Declares(Entries(ConfigRow(z), PrefixOf(z), i).0[k], z)
  {
    hide GetOffsetIp, InAddrName, StrToUl, GetZoneIndex;
    if i > 0 { EntriesDeclare(z, i - 1); }
  }

  /** A stored zone yields one entry for each of its sub-zones, in order. */
  lemma RowOfStored(b: Backend, z: Zone)
    requires Stored(b, z)
    ensures Nameable(ConfigRow(z)) && GetZoneIndex(PrefixOf(z)).Ok?
    ensures var (es, r) := RowEntries(ConfigRow(z));
            r == Ok(()) && |es| == GetZoneIndex(PrefixOf(z)).value && forall k :: 0 <= k < |es| ==> IsEntry(es[k], z, k)
  {
    RowNames(b, z);
    hide Names, Nameable, Stored, NetRange, Parse, InAddrName, GetZoneIndex, StrToUl, Entries;
    if PrefixOf(z) !in {8, 16, 24} { EntriesDeclare(z, GetZoneIndex(PrefixOf(z)).value); }
  }

  lemma RowNames(b: Backend, z: Zone)
    requires Stored(b, z)
    ensures Nameable(ConfigRow(z)) && GetZoneIndex(PrefixOf(z)).Ok?
    ensures var (es, r) := RowEntries(ConfigRow(z));
            r == Ok(()) && |es| == GetZoneIndex(PrefixOf(z)).value && forall k :: 0 <= k < |es| ==> Names(es[k], z, k)
  {
    hide Print, Parse, NetRange, StrToUl, Fields, Reversed, QuadFields;
    SubZonesFillZone(PrefixOf(z));
    EntriesOfStored(b, z, GetZoneIndex(PrefixOf(z)).value);
    PrintParse(z.name);
    PrintIsQuad(First(z));
    NameFits(First(z), PrefixOf(z));
  }

  /** How many sub-zones a zone has. */
  function Count(z: Zone): nat { match GetZoneIndex(PrefixOf(z)) case Ok(n) => n case Err(_) => 0 }

  /** The number of the first block of the zone, counted from address 0 in blocks of one name. */
  function FirstBlock(z: Zone): nat
    requires Supported(PrefixOf(z))
  {
    First(z) / SubZoneSize(PrefixOf(z))
  }

  lemma BlockOfSubZone(z: Zone, i: nat)
    requires Supported(PrefixOf(z))
    ensures SubZoneStart(First(z), PrefixOf(z), i) / SubZoneSize(PrefixOf(z)) == FirstBlock(z) + i
  {
    hide PrefixOf, First;
    var size := SubZoneSize(PrefixOf(z));
    Arithmetic.DivisionParts(First(z), size);
    Arithmetic.DivisionParts(First(z) + i * size, size);
    assert (First(z) + i * size) / size == First(z) / size + i;
  }

  /** Two entries have the same name exactly when their sub-zones are of one size and stand at one block. */
  lemma NamesEqualExactly(z1: Zone, i1: nat, e1: RevZone, z2: Zone, i2: nat, e2: RevZone)
    requires Names(e1, z1, i1) && Names(e2, z2, i2)
    ensures e1.inAddr == e2.inAddr
            <==> SubZoneSize(PrefixOf(z1)) == SubZoneSize(PrefixOf(z2))
                 && FirstBlock(z1) + i1 == FirstBlock(z2) + i2
  {
    hide NameOf, Print, First, PrefixOf, SubZoneSize, GetZoneIndex;
    BlockOfSubZone(z1, i1);
    BlockOfSubZone(z2, i2);
    NameInjective(SubZoneStart(First(z1), PrefixOf(z1), i1), PrefixOf(z1),
                  SubZoneStart(First(z2), PrefixOf(z2), i2), PrefixOf(z2));
    hide SubZoneStart, FirstBlock;
  }

  /** The zones have sub-zones of one size, and share a block of that size. */
  predicate NamesClash(z1: Zone, z2: Zone) {
    && Supported(PrefixOf(z1)) && Supported(PrefixOf(z2))
    && SubZoneSize(PrefixOf(z1)) == SubZoneSize(PrefixOf(z2))
    && Intersect(FirstBlock(z1), Count(z1), FirstBlock(z2), Count(z2))
  }

  predicate NoClash(zones: seq<Zone>) {
    forall i, j :: 0 <= i < j < |zones| ==> !NamesClash(zones[i], zones[j])
  }

  /** Equal names make a clash. */
  lemma EqualNamesClash(z1: Zone, i1: nat, e1: RevZone, z2: Zone, i2: nat, e2: RevZone)
    requires Names(e1, z1, i1) && Names(e2, z2, i2) && e1.inAddr == e2.inAddr
    ensures NamesClash(z1, z2)
  {
    NamesEqualExactly(z1, i1, e1, z2, i2, e2);
    hide First, PrefixOf, FirstBlock, NameOf, Print, SubZoneStart, SubZoneSize;
  }

  /** A clash makes two sub-zones with one name. */
  lemma ClashingSubZones(z1: Zone, z2: Zone) returns (i1: nat, i2: nat)
    requires NamesClash(z1, z2)
    ensures i1 < Count(z1) && i2 < Count(z2) && FirstBlock(z1) + i1 == FirstBlock(z2) + i2
  {
    hide First, PrefixOf, FirstBlock, GetZoneIndex, NetRange;
    SubZonesFillZone(PrefixOf(z1));
    SubZonesFillZone(PrefixOf(z2));
    var at := if FirstBlock(z1) < FirstBlock(z2) then FirstBlock(z2) else FirstBlock(z1);
    i1, i2 := at - FirstBlock(z1), at - FirstBlock(z2);
  }

  /** Zones that share no address do not clash. */
  lemma DisjointNoClash(b: Backend, z1: Zone, z2: Zone)
    requires Stored(b, z1) && Stored(b, z2) && Disjoint(z1, z2)
    ensures !NamesClash(z1, z2)
  {
    if NamesClash(z1, z2) {
      var i1, i2 := ClashingSubZones(z1, z2);
      SubZoneInside(b, z1, i1);
      SubZoneInside(b, z2, i2);
      BlockOfSubZone(z1, i1);
      BlockOfSubZone(z2, i2);
      hide PrefixOf, First, Size, Stored, SubZoneStart, NamesClash, FirstBlock;
      FarApart(SubZoneStart(First(z1), PrefixOf(z1), i1), SubZoneStart(First(z2), PrefixOf(z2), i2),
               SubZoneSize(PrefixOf(z1)));
      assert false;
    }
  }

  /** The entry names a sub-zone of the zone. */
  ghost predicate NamesSome(e: RevZone, z: Zone) { exists i: nat :: IsEntry(e, z, i) }

  /** The entry names a sub-zone of one of the zones. */
  ghost predicate NamesOneOf(e: RevZone, zones: seq<Zone>) {
    exists j :: 0 <= j < |zones| && NamesSome(e, zones[j])
  }

  predicate DistinctInAddr(es: seq<RevZone>) {
    forall k, l :: 0 <= k < l < |es| ==> es[k].inAddr != es[l].inAddr
  }

  lemma RowDistinct(z: Zone, es: seq<RevZone>)
    requires forall k :: 0 <= k < |es| ==> IsEntry(es[k], z, k)
    ensures DistinctInAddr(es)
  {
    hide Names, Declares;
    forall k, l | 0 <= k < l < |es| ensures es[k].inAddr != es[l].inAddr {
      NamesEqualExactly(z, k, es[k], z, l, es[l]);
    }
  }

  /** How many names the zones have. */
  function NameCount(zones: seq<Zone>): nat {
    if zones == [] then 0 else Count(zones[0]) + NameCount(zones[1..])
  }

  /** Sub-zone i of zone j has an entry. */
  ghost predicate HasEntry(es: seq<RevZone>, zones: seq<Zone>, j: nat, i: nat)
    requires j < |zones|
  {
    exists k :: 0 <= k < |es| && IsEntry(es[k], zones[j], i)
  }

  /** The entries are one for each sub-zone of the zones and name nothing else. */
  ghost predicate Filled(es: seq<RevZone>, zones: seq<Zone>) {
    && |es| == NameCount(zones)
    && (forall k :: 0 <= k < |es| ==> NamesOneOf(es[k], zones))
    && (forall j: nat, i: nat :: j < |zones| && i < Count(zones[j]) ==> HasEntry(es, zones, j, i))
  }

  /** From every table of stored zones, ailsa_fill_rev_zone_list makes one entry for each sub-zone of each zone, without
      an error, and no two entries have the same in-addr.arpa name exactly when no two zones share a block of the size
      of both their sub-zones. */
  lemma {:induction false} FilledNamesExactly(b: Backend, zones: seq<Zone>)
    requires AllStored(b, zones)
    ensures GoodRows(ConfigRows(zones))
    ensures var (es, r) := AllEntries(ConfigRows(zones));
            r == Ok(()) && Filled(es, zones) && (DistinctInAddr(es) <==> NoClash(zones))
  {
    hide Stored, IsEntry, Nameable, RowEntries, GetZoneIndex, ConfigRow, StrToUl, Filled, NoClash, DistinctInAddr;
    if zones == [] {
      NothingFilled();
    } else {
      var z, rest := zones[0], zones[1..];
      FilledNamesExactly(b, rest);
      RowOfStored(b, z);
      assert ConfigRows(zones)[0] == ConfigRow(z) && ConfigRows(zones)[1..] == ConfigRows(rest);
      var es, others := RowEntries(ConfigRow(z)).0, AllEntries(ConfigRows(rest)).0;
      assert AllEntries(ConfigRows(zones)) == (es + others, Ok(()));
      FrontFilled(zones, es, others);
      FrontDistinct(zones, es, others);
    }
  }

  lemma NothingFilled()
    ensures Filled([], []) && DistinctInAddr([]) && NoClash([])
  {
  }

  lemma FrontFilled(zones: seq<Zone>, es: seq<RevZone>, others: seq<RevZone>)
    requires zones != [] && |es| == Count(zones[0]) && forall k :: 0 <= k < |es| ==> IsEntry(es[k], zones[0], k)
    requires Filled(others, zones[1..])
    ensures Filled(es + others, zones)
  {
    hide IsEntry, NamesSome, NamesOneOf, Count;
    var all := es + others;
    forall k | 0 <= k < |all| ensures NamesOneOf(all[k], zones) {
      if k < |es| { NamedOneOf(es[k], zones, 0, k); } else { LaterNamed(others[k - |es|], zones); }
    }
    forall j: nat, i: nat | j < |zones| && i < Count(zones[j]) ensures HasEntry(all, zones, j, i) {
      if j == 0 {
        assert IsEntry(all[i], zones[0], i);
      } else {
        assert HasEntry(others, zones[1..], j - 1, i);
        var k :| 0 <= k < |others| && IsEntry(others[k], zones[1..][j - 1], i);
        assert IsEntry(all[|es| + k], zones[j], i);
      }
    }
  }

  /** The names of the first zone differ from those of the others exactly when it clashes with none. */
  lemma FrontDistinct(zones: seq<Zone>, es: seq<RevZone>, others: seq<RevZone>)
    requires zones != [] && |es| == Count(zones[0]) && forall k :: 0 <= k < |es| ==> IsEntry(es[k], zones[0], k)
    requires Filled(others, zones[1..]) && (DistinctInAddr(others) <==> NoClash(zones[1..]))
    ensures DistinctInAddr(es + others) <==> NoClash(zones)
  {
    hide IsEntry, NamesSome, NamesOneOf, Count, NamesClash;
    var all := es + others;
    RowDistinct(zones[0], es);
    if NoClash(zones) {
      assert forall j :: 0 <= j < |zones[1..]| ==> zones[1..][j] == zones[j + 1];
      forall k, l | 0 <= k < |es| && 0 <= l < |others| ensures es[k].inAddr != others[l].inAddr {
        NoClashDiffers(zones, k, es[k], others[l]);
      }
    }
    if DistinctInAddr(all) {
      forall k, l | 0 <= k < l < |others| ensures others[k].inAddr != others[l].inAddr {
        assert all[|es| + k] == others[k] && all[|es| + l] == others[l];
      }
      forall j | 0 < j < |zones| ensures !NamesClash(zones[0], zones[j]) {
        DiffersNoClash(zones, es, others, j);
      }
      NoClashFront(zones);
    }
  }

  lemma NoClashFront(zones: seq<Zone>)
    requires zones != [] && NoClash(zones[1..]) && forall j :: 0 < j < |zones| ==> !NamesClash(zones[0], zones[j])
    ensures NoClash(zones)
  {
    hide NamesClash;
    forall i, j | 0 <= i < j < |zones| ensures !NamesClash(zones[i], zones[j]) {
      if i > 0 { assert zones[1..][i - 1] == zones[i] && zones[1..][j - 1] == zones[j]; }
    }
  }

  lemma NoClashDiffers(zones: seq<Zone>, k: nat, e: RevZone, other: RevZone)
    requires zones != [] && NoClash(zones) && IsEntry(e, zones[0], k) && NamesOneOf(other, zones[1..])
    ensures e.inAddr != other.inAddr
  {
    var j := ZoneNamed(other, zones[1..]);
    var i: nat :| IsEntry(other, zones[1..][j], i);
    hide IsEntry, NamesClash;
    assert zones[1..][j] == zones[j + 1] && !NamesClash(zones[0], zones[j + 1]);
    if e.inAddr == other.inAddr { EqualNamesClash(zones[0], k, e, zones[j + 1], i, other); }
  }

  lemma DistinctAcross(es: seq<RevZone>, others: seq<RevZone>, k: nat, l: nat)
    requires DistinctInAddr(es + others) && k < |es| && l < |others|
    ensures es[k].inAddr != others[l].inAddr
  {
    assert (es + others)[k] == es[k] && (es + others)[|es| + l] == others[l];
  }

  lemma DiffersNoClash(zones: seq<Zone>, es: seq<RevZone>, others: seq<RevZone>, j: nat)
    requires 0 < j < |zones| && |es| == Count(zones[0]) && forall k :: 0 <= k < |es| ==> IsEntry(es[k], zones[0], k)
    requires Filled(others, zones[1..]) && DistinctInAddr(es + others)
    ensures !NamesClash(zones[0], zones[j])
  {
    if NamesClash(zones[0], zones[j]) {
      var i1, i2 := ClashingSubZones(zones[0], zones[j]);
      assert HasEntry(others, zones[1..], j - 1, i2);
      var l :| 0 <= l < |others| && IsEntry(others[l], zones[1..][j - 1], i2);
      hide IsEntry, Filled, Count;
      DistinctAcross(es, others, i1, l);
      NamesEqualExactly(zones[0], i1, es[i1], zones[j], i2, others[l]);
      assert false;
    }
  }

  lemma ZoneNamed(e: RevZone, zones: seq<Zone>) returns (j: nat)
    requires NamesOneOf(e, zones)
    ensures j < |zones| && NamesSome(e, zones[j])
  {
    j :| 0 <= j < |zones| && NamesSome(e, zones[j]);
  }

  lemma NamedOneOf(e: RevZone, zones: seq<Zone>, j: nat, i: nat)
    requires j < |zones| && IsEntry(e, zones[j], i)
    ensures NamesOneOf(e, zones)
  {
    assert NamesSome(e, zones[j]);
  }

  lemma LaterNamed(e: RevZone, zones: seq<Zone>)
    requires zones != [] && NamesOneOf(e, zones[1..])
    ensures NamesOneOf(e, zones)
  {
    var j := ZoneNamed(e, zones[1..]);
    assert zones[1..][j] == zones[j + 1];
  }

  /** So the names are distinct whenever the zones are disjoint. */
  lemma DisjointZonesNoClash(b: Backend, zones: seq<Zone>)
    requires TableInv(b, zones)
    ensures NoClash(zones)
  {
    hide Stored, Disjoint, NamesClash;
    forall i, j | 0 <= i < j < |zones| ensures !NamesClash(zones[i], zones[j]) {
      DisjointNoClash(b, zones[i], zones[j]);
    }
  }

  // ---- The loop over the query result -------------------------------------

  lemma {:induction false} AllEntriesAppend(rows: seq<seq<Datum>>, row: seq<Datum>)
    requires GoodRows(rows) && IsRow(row) && Nameable(row) && AllEntries(rows).1.Ok?
    ensures GoodRows(rows + [row])
    ensures AllEntries(rows + [row]) == (AllEntries(rows).0 + RowEntries(row).0, RowEntries(row).1)
  {
    hide RowEntries, Nameable;
    var all := rows + [row];
    if rows == [] {
      var es := RowEntries(row).0;
      assert all[0] == row && all[1..] == [] && [] + es == es && es + [] == es;
      assert RowEntries(row).1.Ok? ==> RowEntries(row).1.value == ();
    } else {
      assert all[0] == rows[0] && all[1..] == rows[1..] + [row];
      AllEntriesAppend(rows[1..], row);
      JoinThree(RowEntries(rows[0]).0, AllEntries(rows[1..]).0, RowEntries(row).0);
    }
  }

  lemma {:induction false} AllEntriesStop(rows: seq<seq<Datum>>, more: seq<seq<Datum>>)
    requires GoodRows(rows) && GoodRows(rows + more) && AllEntries(rows).1.Err?
    ensures AllEntries(rows + more) == AllEntries(rows)
  {
    hide RowEntries, Nameable;
    assert (rows + more)[0] == rows[0] && (rows + more)[1..] == rows[1..] + more;
    if RowEntries(rows[0]).1.Ok? { AllEntriesStop(rows[1..], more); }
  }

  /** The value of the element j places down the list from e. */
  method CellAt(l: List<Datum>, e: Elem<Datum>, ghost at: nat, j: nat) returns (d: Datum)
    requires l.Valid() && at + j < |l.nodes| && l.nodes[at] == e
    ensures d == l.vals[at + j]
  {
    l.IndexUnique(e, at);
    var f := l.MoveDown(e, j);
    l.DataOf(at + j);
    d := f.data;
  }

  /** The in-addr.arpa name, built in a buffer of HOST_LEN characters. */
  method BuildName(netRange: string, prefix: nat) returns (name: string)
    requires NoNul(netRange) && DroppedFields(prefix) < |Fields(netRange)| && |InAddrName(netRange, prefix)| < HOST_LEN
    ensures name == InAddrName(netRange, prefix)
  {
    var buffer := new char[HOST_LEN](_ => '\0');
    StrIs(buffer[..], "");
    GetInAddrString(buffer, netRange, prefix);
    name := Str(buffer[..]);
  }

  lemma QuadNameFits(range: string, prefix: nat, i: nat)
    requires GetOffsetIp(range, prefix, i).Ok?
    ensures var addr := GetOffsetIp(range, prefix, i).value;
            && NoNul(addr) && DroppedFields(prefix) < |Fields(addr)| && |InAddrName(addr, prefix)| < HOST_LEN
  {
    hide Print, Parse, Fields, InAddrName, InAddrBody, QuadFields, NoNul;
    OffsetIpIsQuad(range, prefix, i);
    var addr, ip := GetOffsetIp(range, prefix, i).value, TextToBin(range).value;
    var n := if 16 < prefix <= 24 then (ip + 256 * i) % ULONG
             else if 8 < prefix <= 16 then (ip + 0x1_0000 * i) % ULONG else ip;
    assert BinToText(n) == Ok(addr);
    assert addr == Print(n % SPACE);
    NameFits(n % SPACE, prefix);
  }

  /** One entry of a zone with several sub-zones. */
  method MakeEntry(row: seq<Datum>, prefix: nat, i: nat) returns (e: RevZone, r: Result<()>)
    requires IsRow(row) && Entries(row, prefix, i).1.Ok?
    ensures Entries(row, prefix, i + 1) == (Entries(row, prefix, i).0 + [e], r)
  {
    hide GetOffsetIp, InAddrName, InAddrBody, Fields, Truncate;
    var kind, master := Truncate(row[0].text, SERVICE_LEN), Some(Truncate(row[4].text, DOMAIN_LEN));
    var addr := GetOffsetIp(row[1].text, prefix, i);
    if addr.Err? {
      return RevZone(kind, master, "", None), Err(addr.error);
    }
    QuadNameFits(row[1].text, prefix, i);
    var name := BuildName(addr.value, prefix);
    return RevZone(kind, master, addr.value, Some(name)), Ok(());
  }

  /** The outcome of filling a list: entries at its end, and a result. */
  predicate Appended(before: seq<RevZone>, after: seq<RevZone>, r: Result<()>, outcome: (seq<RevZone>, Result<()>)) {
    after == before + outcome.0 && r == outcome.1
  }

  /** The entries of a zone with several sub-zones; the one that fails is kept, incomplete. */
  method AddSubZones(row: seq<Datum>, prefix: nat, count: nat, z: List<RevZone>) returns (r: Result<()>)
    requires IsRow(row) && z.Valid()
    modifies z, z.repr
    ensures z.Valid() && fresh(z.repr - old(z.repr))
    ensures Appended(old(z.vals), z.vals, r, Entries(row, prefix, count))
  {
    hide Chain, Distinct, ClosedChain, Entries;
    NoEntries(row, prefix);
    r := Ok(());
    var i := 0;
    while i < count && r.Ok?
      invariant 0 <= i <= count && z.Valid() && fresh(z.repr - old(z.repr))
      invariant Appended(old(z.vals), z.vals, r, Entries(row, prefix, i))
    {
      var e, r' := MakeEntry(row, prefix, i);
      JoinThree(old(z.vals), Entries(row, prefix, i).0, [e]);
      r := r';
      var _ := z.Insert(Some(e));
      i := i + 1;
    }
    EntriesStop(row, prefix, i, count);
  }

  lemma NoEntries(row: seq<Datum>, prefix: nat)
    requires IsRow(row)
    ensures Entries(row, prefix, 0) == ([], Ok(()))
  {
  }

  lemma {:induction false} EntriesStop(row: seq<Datum>, prefix: nat, i: nat, count: nat)
    requires IsRow(row) && i <= count && (i < count ==> Entries(row, prefix, i).1.Err?)
    ensures Entries(row, prefix, count) == Entries(row, prefix, i)
  {
    hide SubZoneEntry;
    if i < count { EntriesStop(row, prefix, i, count - 1); }
  }

  /** The entries of one row. */
  method AddRow(row: seq<Datum>, z: List<RevZone>) returns (r: Result<()>)
    requires IsRow(row) && Nameable(row) && z.Valid()
    modifies z, z.repr
    ensures z.Valid() && fresh(z.repr - old(z.repr))
    ensures Appended(old(z.vals), z.vals, r, RowEntries(row))
  {
    hide Chain, Distinct, ClosedChain, Entries, InAddrName, GetZoneIndex, Fields, StrToUl;
    var prefix := StrToUl(row[5].text);
    if prefix != 8 && prefix != 16 && prefix != 24 {
      var index := GetZoneIndex(prefix);
      if index.Err? {
        assert z.vals + [] == z.vals;
        return Err(index.error);
      }
      r := AddSubZones(row, prefix, index.value, z);
    } else {
      var kind, range := Truncate(row[0].text, SERVICE_LEN), row[1].text;
      var name := BuildName(range, prefix);
      var master := if kind == "slave" then Some(Truncate(row[4].text, DOMAIN_LEN)) else None;
      var _ := z.Insert(Some(RevZone(kind, master, range, Some(name))));
      r := Ok(());
    }
  }

  /** The six values of the row that begins at e. */
  method ReadRow(l: List<Datum>, e: Elem<Datum>, ghost at: nat) returns (row: seq<Datum>)
    requires l.Valid() && at + COLUMNS <= |l.nodes| && l.nodes[at] == e
    ensures row == l.vals[at..at + COLUMNS]
  {
    hide Chain, Distinct, ClosedChain;
    row := [];
    for j := 0 to COLUMNS
      invariant row == l.vals[at..at + j]
    {
      var d := CellAt(l, e, at, j);
      row := row + [d];
    }
  }

  /** Filling from one more row. */
  lemma OneMoreRow(before: seq<RevZone>, mid: seq<RevZone>, after: seq<RevZone>, rows: seq<seq<Datum>>, k: nat,
                   r0: Result<()>, r: Result<()>)
    requires GoodRows(rows) && k < |rows| && GoodRows(rows[..k]) && r0.Ok?
    requires Appended(before, mid, r0, AllEntries(rows[..k])) && Appended(mid, after, r, RowEntries(rows[k]))
    ensures GoodRows(rows[..k + 1]) && Appended(before, after, r, AllEntries(rows[..k + 1]))
  {
    hide RowEntries, Nameable, AllEntries;
    assert rows[..k + 1] == rows[..k] + [rows[k]];
    AllEntriesAppend(rows[..k], rows[k]);
    JoinThree(before, AllEntries(rows[..k]).0, RowEntries(rows[k]).0);
  }

  /** Filling that stops at an error has done all there is to do. */
  lemma NoMoreRows(before: seq<RevZone>, after: seq<RevZone>, rows: seq<seq<Datum>>, k: nat, r: Result<()>)
    requires GoodRows(rows) && k <= |rows| && GoodRows(rows[..k]) && (k < |rows| ==> r.Err?)
    requires Appended(before, after, r, AllEntries(rows[..k]))
    ensures Appended(before, after, r, AllEntries(rows))
  {
    hide RowEntries, Nameable, AllEntries;
    assert rows == rows[..k] + rows[k..];
    if k < |rows| { AllEntriesStop(rows[..k], rows[k..]); } else { assert rows[..k] == rows; }
  }

  /** One round of ailsa_fill_rev_zone_list. */
  method FillStep(l: List<Datum>, z: List<RevZone>, e: Elem<Datum>, ghost k: nat)
    returns (r: Result<()>, e': Elem?<Datum>)
    requires l.Valid() && z.Valid() && l.total % COLUMNS == 0 && GoodRows(RowsOf(l.vals))
    requires k < |RowsOf(l.vals)| && l.nodes[COLUMNS * k] == e
    modifies z, z.repr
    ensures l.Valid() && z.Valid() && fresh(z.repr - old(z.repr))
    ensures Appended(old(z.vals), z.vals, r, RowEntries(RowsOf(l.vals)[k]))
    ensures e' == if k + 1 < |RowsOf(l.vals)| then l.nodes[COLUMNS * (k + 1)] else null
  {
    hide Chain, Distinct, ClosedChain, Nameable, RowEntries;
    ghost var at := COLUMNS * k;
    var row := ReadRow(l, e, at);
    assert row == RowsOf(l.vals)[k];
    l.IndexUnique(e, at);
    e' := l.MoveDown(e, COLUMNS);
    r := AddRow(row, z);
  }

  lemma NoRowsYet(before: seq<RevZone>, rows: seq<seq<Datum>>)
    ensures GoodRows(rows[..0]) && Appended(before, before, Ok(()), AllEntries(rows[..0]))
  {
    assert rows[..0] == [] && before + [] == before;
  }

  /** The loop of ailsa_fill_rev_zone_list: walk the flat list six elements at a time. */
  method FillAll(l: List<Datum>, z: List<RevZone>) returns (r: Result<()>)
    requires l.Valid() && z.Valid() && l.total % COLUMNS == 0 && GoodRows(RowsOf(l.vals))
    modifies z, z.repr
    ensures z.Valid() && fresh(z.repr - old(z.repr))
    ensures Appended(old(z.vals), z.vals, r, AllEntries(RowsOf(l.vals)))
  {
    hide Chain, Distinct, ClosedChain, Nameable, RowEntries, AllEntries, IsRow, RowsOf, Appended;
    ghost var rows, k := RowsOf(l.vals), 0;
    NoRowsYet(z.vals, rows);
    var e := l.head;
    r := Ok(());
    while e != null && r.Ok?
      invariant l.Valid() && z.Valid() && fresh(z.repr - old(z.repr)) && 0 <= k <= |rows| && GoodRows(rows[..k])
      invariant e == if k < |rows| then l.nodes[COLUMNS * k] else null
      invariant Appended(old(z.vals), z.vals, r, AllEntries(rows[..k]))
      decreases |rows| - k
    {
      ghost var mid, r0 := z.vals, r;
      r, e := FillStep(l, z, e, k);
      OneMoreRow(old(z.vals), mid, z.vals, rows, k, r0, r);
      k := k + 1;
    }
    NoMoreRows(old(z.vals), z.vals, rows, k, r);
  }

  /** ailsa_fill_rev_zone_list. For an empty list the code returns a variable it never sets. */
  method FillRevZoneList(l: List<Datum>, z: List<RevZone>, unset: Result<()>) returns (r: Result<()>)
    requires l.Valid() && z.Valid() && (l.total % COLUMNS == 0 ==> GoodRows(RowsOf(l.vals)))
    modifies z, z.repr
    ensures z.Valid() && fresh(z.repr - old(z.repr))
    ensures l.total % COLUMNS != 0 ==> r == Err(WrongListLength) && z.vals == old(z.vals)
    ensures l.total == 0 ==> r == unset && z.vals == old(z.vals)
    ensures l.total > 0 && l.total % COLUMNS == 0 ==> Appended(old(z.vals), z.vals, r, AllEntries(RowsOf(l.vals)))
  {
    if l.total % COLUMNS != 0 {
      return Err(WrongListLength);
    }
    r := FillAll(l, z);
    if l.total == 0 {
      assert RowsOf(l.vals) == [];
      assert old(z.vals) + [] == old(z.vals);
      r := unset;
    }
  }

  /** The result of REV_ZONE_CONFIG on a table, read back row by row, is the rows of the table. */
  lemma ConfigResultRows(zones: seq<Zone>)
    ensures RowsOf(Flat(ConfigRows(zones))) == ConfigRows(zones)
    ensures |Flat(ConfigRows(zones))| == COLUMNS * |zones|
  {
    RowsOfFlat(ConfigRows(zones));
  }

  // ---- The configuration file ----------------------------------------------

  function OrEmpty(t: Option<string>): string { if t.Some? then t.value else "" }

  /** The text that declares one entry to the name server. */
  function Declaration(e: RevZone, dir: string): string {
    "zone \"" + OrEmpty(e.inAddr) + "\" {\n"
    + (if e.kind == "master" then "\t\t\ttype master;\n"
       else if e.kind == "slave" then "\t\t\ttype slave;\n\t\t\tmasters { " + OrEmpty(e.master) + "; };\n"
       else "")
    + "\t\t\tfile \"" + dir + e.netRange + "\";\n\t\t};\n"
  }

  function Declarations(es: seq<RevZone>, dir: string): string {
    if es == [] then "" else Declarations(es[..|es| - 1], dir) + Declaration(es[|es| - 1], dir)
  }

  /** What cmdb_write_rev_zone_config depends on: whether the zones can be read and the file opened. */
  datatype ConfigEnv = ConfigEnv(dir: string, readable: bool, opens: bool)

  /** What cmdb_write_rev_zone_config returns and writes. */
  function Config(zones: seq<Zone>, env: ConfigEnv): (Result<()>, Option<string>)
    requires GoodRows(ConfigRows(zones))
  {
    if !env.readable then (Err(QueryFail), None)
    else if zones == [] then (Ok(()), None)
    else
      var (es, r) := AllEntries(ConfigRows(zones));
      if r.Err? then (r, None)
      else if !env.opens then (Err(FileError), None)
      else (Ok(()), Some(Declarations(es, env.dir)))
  }

  /** The writing loop: walk the list of entries. */
  method WriteDeclarations(z: List<RevZone>, dir: string) returns (text: string)
    requires z.Valid()
    ensures text == Declarations(z.vals, dir)
  {
    hide Chain, Distinct, ClosedChain, Declaration;
    text := "";
    var e := z.head;
    ghost var k: nat := 0;
    while e != null
      invariant k <= z.total && e == if k < z.total then z.nodes[k] else null
      invariant text == Declarations(z.vals[..k], dir)
      decreases z.total - k
    {
      z.IndexUnique(e, k);
      z.Neighbours(e);
      z.DataOf(k);
      assert z.vals[..k + 1][..k] == z.vals[..k];
      text := text + Declaration(e.data, dir);
      e := e.next;
      k := k + 1;
    }
    assert z.vals[..k] == z.vals;
  }

  /** REV_ZONE_CONFIG, into an empty result list. */
  method ConfigQuery(zones: seq<Zone>) returns (l: List<Datum>)
    ensures fresh(l) && fresh(l.repr) && l.Valid() && l.vals == Flat(ConfigRows(zones))
  {
    hide Chain, Distinct, ClosedChain, ConfigRow, Flat;
    l := new List<Datum>(true);
    NoConfigRows();
    assert zones[..0] == [];
    for i := 0 to |zones|
      invariant fresh(l) && fresh(l.repr) && l.Valid() && l.vals == Flat(ConfigRows(zones[..i]))
    {
      OneMoreConfigRow(zones, i);
      AppendAll(l, ConfigRow(zones[i]));
    }
    assert zones[..|zones|] == zones;
  }

  lemma NoConfigRows()
    ensures Flat(ConfigRows([])) == []
  {
  }

  lemma OneMoreConfigRow(zones: seq<Zone>, i: nat)
    requires i < |zones|
    ensures Flat(ConfigRows(zones[..i + 1])) == Flat(ConfigRows(zones[..i])) + ConfigRow(zones[i])
  {
    FlatAppend(ConfigRows(zones[..i]), ConfigRow(zones[i]));
    assert ConfigRows(zones[..i + 1]) == ConfigRows(zones[..i]) + [ConfigRow(zones[i])];
  }

  /** cmdb_write_rev_zone_config */
  method WriteRevZoneConfig(db: Database, env: ConfigEnv) returns (r: Result<()>, text: Option<string>)
    requires GoodRows(ConfigRows(db.zones))
    ensures (r, text) == Config(db.zones, env)
  {
    hide Chain, Distinct, ClosedChain, RowEntries, AllEntries, RowsOf, ConfigRow, Flat, Nameable, Declarations;
    if !env.readable {
      return Err(QueryFail), None;
    }
    var l := ConfigQuery(db.zones);
    ConfigResultRows(db.zones);
    if l.total == 0 {
      return Ok(()), None;
    }
    var z := new List<RevZone>(true);
    r := FillRevZoneList(l, z, Ok(()));
    assert [] + AllEntries(ConfigRows(db.zones)).0 == AllEntries(ConfigRows(db.zones)).0;
    if r.Err? {
      return r, None;
    }
    if !env.opens {
      return Err(FileError), None;
    }
    var written := WriteDeclarations(z, env.dir);
    return Ok(()), Some(written);
  }

  lemma StoredRowsGood(b: Backend, zones: seq<Zone>)
    requires AllStored(b, zones)
    ensures GoodRows(ConfigRows(zones))
  {
    hide Stored, Nameable, ConfigRow, RowEntries;
    forall k | 0 <= k < |zones| ensures IsRow(ConfigRow(zones[k])) && Nameable(ConfigRow(zones[k])) {
      RowOfStored(b, zones[k]);
    }
  }

  // ---- The configuration, read ---------------------------------------------

  /** The texts of the entry can be told apart from what stands around them. */
  predicate Clean(e: RevZone, dir: string) {
    && NoQuote(OrEmpty(e.inAddr)) && NoQuote(dir + e.netRange) && (e.kind == "slave" ==> IsWord(OrEmpty(e.master)))
  }

  /** The statement says of the zone what the entry says. */
  predicate SaysEntry(s: Stanza, e: RevZone, dir: string) {
    && s.zone == OrEmpty(e.inAddr) && s.file == dir + e.netRange
    && s.kind == (if e.kind == "master" || e.kind == "slave" then Some(e.kind) else None)
    && s.masters == if e.kind == "slave" then [OrEmpty(e.master)] else []
  }

  /** The declaration of an entry is the tokens of a statement that says so. */
  lemma DeclarationTokens(e: RevZone, dir: string, s: Stanza, t: string)
    requires Clean(e, dir) && SaysEntry(s, e, dir)
    ensures Tokens(Declaration(e, dir) + t) == StanzaTokens(s) + Tokens(t)
  {
    hide Tokens, NoQuote, IsWord;
    var head := "zone \"" + OrEmpty(e.inAddr) + "\" {\n";
    var kind := if e.kind == "master" then "\t\t\ttype master;\n"
                else if e.kind == "slave" then "\t\t\ttype slave;\n\t\t\tmasters { " + OrEmpty(e.master) + "; };\n"
                else "";
    var file := "\t\t\tfile \"" + (dir + e.netRange) + "\";\n\t\t};\n";
    DeclarationText(e, dir, head, kind, file, t);
    HeadLine(OrEmpty(e.inAddr), kind + (file + t));
    KindTokens(e, kind, file + t);
    FileLine(dir + e.netRange, t);
  }

  lemma FileWithin(before: string, dir: string, netRange: string)
    ensures before + "\t\t\tfile \"" + dir + netRange + "\";\n\t\t};\n"
            == before + ("\t\t\tfile \"" + (dir + netRange) + "\";\n\t\t};\n")
  {
  }

  lemma DeclarationText(e: RevZone, dir: string, head: string, kind: string, file: string, t: string)
    requires head == "zone \"" + OrEmpty(e.inAddr) + "\" {\n"
    requires kind == if e.kind == "master" then "\t\t\ttype master;\n"
                     else if e.kind == "slave"
                     then "\t\t\ttype slave;\n\t\t\tmasters { " + OrEmpty(e.master) + "; };\n"
                     else ""
    requires file == "\t\t\tfile \"" + (dir + e.netRange) + "\";\n\t\t};\n"
    ensures Declaration(e, dir) + t == head + (kind + (file + t))
  {
    JoinThree("\t\t\tfile \"", dir, e.netRange);
    JoinThree(head, kind, file);
    JoinThree(head + kind, file, t);
    JoinThree(head, kind, file + t);
    FileWithin(head + kind, dir, e.netRange);
  }

  lemma TypeText()
    ensures "\t\t\ttype " + "master" + ";\n" == "\t\t\ttype master;\n"
    ensures "\t\t\ttype " + "slave" + ";\n" == "\t\t\ttype slave;\n"
  {
  }

  lemma SlaveTokens(m: string, t: string)
    requires IsWord(m) && IsWord("slave")
    ensures Tokens("\t\t\ttype slave;\n\t\t\tmasters { " + m + "; };\n" + t)
            == [Word("type"), Word("slave"), Semi] + ([Word("masters"), Open, Word(m), Semi, Close, Semi] + Tokens(t))
  {
    hide Tokens, IsWord;
    SlaveText(m, t);
    TypeText();
    TypeLine("slave", "\t\t\tmasters { " + m + "; };\n" + t);
    MastersLine(m, t);
  }

  lemma SlaveText(m: string, t: string)
    ensures "\t\t\ttype slave;\n\t\t\tmasters { " + m + "; };\n" + t
            == "\t\t\ttype slave;\n" + ("\t\t\tmasters { " + m + "; };\n" + t)
  {
    var rest := m + ("; };\n" + t);
    assert "\t\t\ttype slave;\n\t\t\tmasters { " + rest == "\t\t\ttype slave;\n" + ("\t\t\tmasters { " + rest);
    assert "\t\t\ttype slave;\n\t\t\tmasters { " + m + "; };\n" + t == "\t\t\ttype slave;\n\t\t\tmasters { " + rest;
    assert "\t\t\tmasters { " + m + "; };\n" + t == "\t\t\tmasters { " + rest;
  }

  lemma KindTokens(e: RevZone, kind: string, t: string)
    requires e.kind == "slave" ==> IsWord(OrEmpty(e.master))
    requires kind == if e.kind == "master" then "\t\t\ttype master;\n"
                     else if e.kind == "slave"
                     then "\t\t\ttype slave;\n\t\t\tmasters { " + OrEmpty(e.master) + "; };\n"
                     else ""
    ensures Tokens(kind + t)
            == (if e.kind == "master" || e.kind == "slave" then [Word("type"), Word(e.kind), Semi] else [])
               + (if e.kind == "slave" then [Word("masters"), Open, Word(OrEmpty(e.master)), Semi, Close, Semi] else [])
               + Tokens(t)
  {
    assert IsWord("master") && IsWord("slave");
    hide Tokens, IsWord;
    if e.kind == "master" {
      TypeText();
      TypeLine("master", t);
    } else if e.kind == "slave" {
      SlaveTokens(OrEmpty(e.master), t);
    } else {
      assert kind + t == t;
    }
  }

  lemma OneMoreDeclaration(es: seq<RevZone>, dir: string, t: string)
    requires es != []
    ensures Declarations(es, dir) + t == Declarations(es[..|es| - 1], dir) + (Declaration(es[|es| - 1], dir) + t)
  {
    hide Declaration;
  }

  /** The text of any entries reads back as one statement for each, in order, that says what the entry says. */
  lemma {:induction false} ReadsBack(es: seq<RevZone>, dir: string, t: string)
    requires (forall k :: 0 <= k < |es| ==> Clean(es[k], dir)) && Read(t).Some?
    ensures var r := Read(Declarations(es, dir) + t);
            && r.Some? && |r.value| == |es| + |Read(t).value| && r.value[|es|..] == Read(t).value
            && forall k :: 0 <= k < |es| ==> SaysEntry(r.value[k], es[k], dir)
  {
    hide Tokens, Statements, Clean, StanzaTokens;
    if es == [] {
      assert "" + t == t;
    } else {
      var n := |es| - 1;
      var last := es[n];
      var s := Stanza(OrEmpty(last.inAddr),
                      if last.kind == "master" || last.kind == "slave" then Some(last.kind) else None,
                      if last.kind == "slave" then [OrEmpty(last.master)] else [], dir + last.netRange);
      DeclarationTokens(last, dir, s, t);
      StanzaFirst(s, Tokens(t));
      ReadsBack(es[..n], dir, Declaration(last, dir) + t);
      OneMoreDeclaration(es, dir, t);
      var r := Read(Declarations(es, dir) + t).value;
      assert r[n..] == [s] + Read(t).value && r[n] == r[n..][0] && r[n + 1..] == r[n..][1..];
    }
  }

  /** The statement declares sub-zone i of the zone: its in-addr.arpa name, the file named by its first address, the
      type of the zone, and the master of a slave. */
  predicate IsStatement(s: Stanza, z: Zone, i: nat, dir: string) {
    && Supported(PrefixOf(z)) && i < Count(z)
    && var first := SubZoneStart(First(z), PrefixOf(z), i);
    && first < SPACE && s.zone == NameOf(first, PrefixOf(z)) && s.file == dir + Print(first)
    && s.kind == Some(if z.kind == Slave then "slave" else "master")
    && s.masters == if z.kind == Slave then [z.master] else []
  }

  /** The masters are words that the buffers hold whole. */
  predicate CleanMasters(zones: seq<Zone>) {
    forall j :: 0 <= j < |zones| && zones[j].kind == Slave ==>
      IsWord(zones[j].master) && |zones[j].master| <= DOMAIN_LEN
  }

  ghost predicate IsStatementOf(s: Stanza, zones: seq<Zone>, dir: string) {
    exists j, i: nat :: 0 <= j < |zones| && IsStatement(s, zones[j], i, dir)
  }

  ghost predicate HasStatement(ss: seq<Stanza>, zones: seq<Zone>, j: nat, i: nat, dir: string)
    requires j < |zones|
  {
    exists k :: 0 <= k < |ss| && IsStatement(ss[k], zones[j], i, dir)
  }

  /** The statements are one for each sub-zone of the zones, and there are no others. */
  ghost predicate AreStatements(ss: seq<Stanza>, zones: seq<Zone>, dir: string) {
    && |ss| == NameCount(zones)
    && (forall k :: 0 <= k < |ss| ==> IsStatementOf(ss[k], zones, dir))
    && (forall j: nat, i: nat :: j < |zones| && i < Count(zones[j]) ==> HasStatement(ss, zones, j, i, dir))
  }

  predicate DistinctZones(ss: seq<Stanza>) {
    forall k, l :: 0 <= k < l < |ss| ==> ss[k].zone != ss[l].zone
  }

  lemma EntryIsSaid(s: Stanza, e: RevZone, z: Zone, i: nat, dir: string)
    requires IsEntry(e, z, i) && SaysEntry(s, e, dir) && (z.kind == Slave ==> |z.master| <= DOMAIN_LEN)
    ensures IsStatement(s, z, i, dir) && e.inAddr == Some(s.zone)
  {
    hide NameOf, Print, SubZoneStart, PrefixOf, First;
  }

  /** The entries of stored zones are clean. */
  lemma EntryIsClean(b: Backend, e: RevZone, z: Zone, i: nat, dir: string)
    requires Stored(b, z) && IsEntry(e, z, i) && NoQuote(dir)
    requires z.kind == Slave ==> IsWord(z.master) && |z.master| <= DOMAIN_LEN
    ensures Clean(e, dir)
  {
    var first: Address := SubZoneStart(First(z), PrefixOf(z), i);
    NameHasNoQuote(first, PrefixOf(z));
    hide NameOf, Print, SubZoneStart, PrefixOf, First, Stored, GetZoneIndex, IsWord;
    JoinNoQuote(dir, Print(first));
  }

  lemma JoinNoQuote(a: string, b: string)
    requires NoQuote(a) && NoQuote(b)
    ensures NoQuote(a + b)
  {
  }

  lemma {:induction false} FieldsNoQuote(fs: seq<string>)
    requires 0 < |fs| && forall i :: 0 <= i < |fs| ==> NoQuote(fs[i])
    ensures NoQuote(JoinDots(fs))
  {
    if |fs| > 1 { FieldsNoQuote(fs[1..]); }
  }

  lemma NameHasNoQuote(first: Address, prefix: nat)
    requires 8 <= prefix <= 24
    ensures NoQuote(NameOf(first, prefix)) && NoQuote(Print(first))
  {
    NameIsReversedOctets(first, prefix);
    hide NameOf, OctetsOf;
    FieldsNoQuote(QuadFields(first));
    FieldsNoQuote(Labels(first, prefix));
  }

  /** The configuration made from stored zones reads as one zone statement for each sub-zone of each zone and nothing
      else, and no two statements are for one name exactly when no two zones clash. */
  lemma ConfigDeclaresEachOnce(b: Backend, zones: seq<Zone>, dir: string)
    requires AllStored(b, zones) && zones != [] && NoQuote(dir) && CleanMasters(zones)
    ensures GoodRows(ConfigRows(zones))
    ensures var (r, text) := Config(zones, ConfigEnv(dir, true, true));
            && r == Ok(()) && text.Some? && Read(text.value).Some?
            && AreStatements(Read(text.value).value, zones, dir)
            && (DistinctZones(Read(text.value).value) <==> NoClash(zones))
  {
    hide AllEntries, ConfigRow, Declarations, Filled, DistinctInAddr, Nameable, AllStored, NoClash, Read, CleanMasters,
      AreStatements, DistinctZones, SaysEntry, Clean;
    FilledNamesExactly(b, zones);
    var es := AllEntries(ConfigRows(zones)).0;
    forall k | 0 <= k < |es| ensures Clean(es[k], dir) { FilledIsClean(b, zones, es, k, dir); }
    NothingReads();
    ReadsBack(es, dir, "");
    assert Declarations(es, dir) + "" == Declarations(es, dir);
    FilledIsSaid(zones, es, Read(Declarations(es, dir)).value, dir);
  }

  lemma NothingReads()
    ensures Read("") == Some([])
  {
  }

  lemma FilledIsClean(b: Backend, zones: seq<Zone>, es: seq<RevZone>, k: nat, dir: string)
    requires AllStored(b, zones) && NoQuote(dir) && CleanMasters(zones) && Filled(es, zones) && k < |es|
    ensures Clean(es[k], dir)
  {
    hide Stored, IsEntry, NoQuote, IsWord, Clean;
    var j := ZoneNamed(es[k], zones);
    var i: nat :| IsEntry(es[k], zones[j], i);
    EntryIsClean(b, es[k], zones[j], i, dir);
  }

  /** What is said of the entries is said of the zones. */
  lemma FilledIsSaid(zones: seq<Zone>, es: seq<RevZone>, ss: seq<Stanza>, dir: string)
    requires CleanMasters(zones) && Filled(es, zones) && |ss| == |es|
    requires forall k :: 0 <= k < |es| ==> SaysEntry(ss[k], es[k], dir)
    ensures AreStatements(ss, zones, dir) && (DistinctZones(ss) <==> DistinctInAddr(es))
  {
    hide IsEntry, IsStatement, SaysEntry, NameCount, Count, IsWord;
    forall k | 0 <= k < |ss|
      ensures es[k].inAddr == Some(ss[k].zone)
      ensures IsStatementOf(ss[k], zones, dir)
    {
      var j := ZoneNamed(es[k], zones);
      var i: nat :| IsEntry(es[k], zones[j], i);
      EntryIsSaid(ss[k], es[k], zones[j], i, dir);
    }
    forall j: nat, i: nat | j < |zones| && i < Count(zones[j])
      ensures HasStatement(ss, zones, j, i, dir)
    {
      assert HasEntry(es, zones, j, i);
      var k :| 0 <= k < |es| && IsEntry(es[k], zones[j], i);
      EntryIsSaid(ss[k], es[k], zones[j], i, dir);
    }
  }

  /** Every run keeps the zones as additions store them, also one that leaves them overlapping. */
  lemma {:induction false} RunKeepsStored(b: Backend, st: State, steps: seq<Step>)
    requires AllStored(b, st.zones)
    ensures AllStored(b, Run(b, st, steps).zones)
    decreases |steps|
  {
    hide AllStored, Apply;
    if steps != [] {
      ApplyKeepsStored(b, st, steps[0]);
      RunKeepsStored(b, Apply(b, st, steps[0]), steps[1..]);
    }
  }

  /** From the empty table, over every run: the list is filled without an error, and its names are distinct exactly when
      no two zones clash, as in every run that is admissible. */
  lemma ReachableNamesExactly(b: Backend, files: seq<ZoneFile>, steps: seq<Step>)
    ensures var zones := Run(b, State([], files), steps).zones;
            && GoodRows(ConfigRows(zones))
            && var (es, r) := AllEntries(ConfigRows(zones));
            && r == Ok(()) && Filled(es, zones) && (DistinctInAddr(es) <==> NoClash(zones))
            && (AdmissibleRun(b, State([], files), steps) ==> DistinctInAddr(es))
  {
    var st := State([], files);
    assert TableInv(b, st.zones) && AllStored(b, st.zones);
    hide TableInv, AllStored, Run, AdmissibleRun, InvThroughout, Nameable, AllEntries, Filled, ConfigRows, NoClash;
    RunKeepsStored(b, st, steps);
    FilledNamesExactly(b, Run(b, st, steps).zones);
    if AdmissibleRun(b, st, steps) {
      RunKeepsInvExactly(b, st, steps);
      InvAtEnd(b, st, steps);
      DisjointZonesNoClash(b, Run(b, st, steps).zones);
    }
  }

  /** The requests 255.255.253.0/24 and 255.255.252.0/22 clash, and the second reaches the top from below the first. */
  lemma ClashingRequests(z1: Zone, z2: Zone)
    requires z1.name == Print(0xFFFF_FD00) && PrefixOf(z1) == 24 && z2.name == Print(0xFFFF_FC00) && PrefixOf(z2) == 22
    ensures NamesClash(z1, z2)
  {
    hide Parse, Print, StrToUl;
    ParsePrint(0xFFFF_FD00);
    ParsePrint(0xFFFF_FC00);
    assert GetZoneIndex(24) == Ok(1) && GetZoneIndex(22) == Ok(4);
  }

  /** Two additions to an empty SQLite table, 255.255.253.0/24 and then 255.255.252.0/22, are both accepted, and the
      second zone has a sub-zone with the name of the first. */
  lemma SqliteNamesExample(base: Request)
    ensures var q1 := base.(range := Print(0xFFFF_FD00), prefix := 24);
            var q2 := base.(range := Print(0xFFFF_FC00), prefix := 22);
            var one := InsertZone(Sqlite, [], q1, GOES_WELL);
            var two := InsertZone(Sqlite, one.0, q2, GOES_WELL);
            && one.1.Ok? && two.1.Ok? && |two.0| == 2 && NamesClash(two.0[0], two.0[1])
            && GoodRows(ConfigRows(two.0)) && !DistinctInAddr(AllEntries(ConfigRows(two.0)).0)
  {
    var q1 := base.(range := Print(0xFFFF_FD00), prefix := 24);
    var q2 := base.(range := Print(0xFFFF_FC00), prefix := 22);
    hide InsertZone, Storable, Print, NamesClash, Stored, AtTop, RequestsTop, AllEntries, ConfigRows, Nameable;
    AcceptedOver(q1, q2);
    var one := InsertZone(Sqlite, [], q1, GOES_WELL).0;
    var two := InsertZone(Sqlite, one, q2, GOES_WELL).0;
    ClashingRequests(two[0], two[1]);
    FilledNamesExactly(Sqlite, two);
  }

  /** Both are accepted, and stored as they are. */
  lemma AcceptedOver(q1: Request, q2: Request)
    requires q1.range == Print(0xFFFF_FD00) && q1.prefix == 24 && q2.range == Print(0xFFFF_FC00) && q2.prefix == 22
    ensures var one := InsertZone(Sqlite, [], q1, GOES_WELL);
            var two := InsertZone(Sqlite, one.0, q2, GOES_WELL);
            && one.1.Ok? && two.1.Ok? && |two.0| == 2 && AllStored(Sqlite, two.0)
            && two.0[0].name == q1.range && PrefixOf(two.0[0]) == 24
            && two.0[1].name == q2.range && PrefixOf(two.0[1]) == 22
  {
    hide Parse, Print, NetRange, InsertZone, Arithmetic.Pow2, StrToUl;
    ParsePrint(0xFFFF_FD00);
    ParsePrint(0xFFFF_FC00);
    RequestSizes();
    EmptyTableAccepts(Sqlite, q1);
    NewZoneStored(Sqlite, [], q1);
    var one := InsertZone(Sqlite, [], q1, GOES_WELL).0;
    assert one == [one[0]];
    SqliteTopCoversHigher(one[0], q2);
    NewZoneStored(Sqlite, one, q2);
    hide Stored;
  }

  lemma RequestSizes()
    ensures NetRange(24) == 0x100 && NetRange(22) == 0x400
  {
    NetRangeIsPower(24);
    NetRangeIsPower(22);
    Arithmetic.Pow2Values();
    Arithmetic.Pow2Add(2, 8);
  }

  // ---- The whole of add_reverse_zone ---------------------------------------

  /** What add_reverse_zone returns, when the process does not end in it: the configuration is written and the name
      server reloaded only after all before has gone well. */
  function AddResult(b: Backend, st: State, add: Step, config: ConfigEnv, reloads: bool): (Result<()>, Option<string>)
    requires add.Add? && AllStored(b, st.zones)
    requires AddZone(b, st, add.request, add.ins, add.ztype, add.env, add.recording).1.Some?
  {
    AddKeepsStored(b, st, add.request, add.ins, add.ztype, add.env, add.recording);
    var (end, r) := AddZone(b, st, add.request, add.ins, add.ztype, add.env, add.recording);
    StoredRowsGood(b, end.zones);
    if r.value.Err? then (r.value, None)
    else
      var (r', text) := Config(end.zones, config);
      (if r'.Ok? && !reloads then Err(CommandFail) else r', text)
  }

  /** add_reverse_zone */
  method AddReverseZone(db: Database, q: Request, ins: Insertion, ztype: Option<string>, env: nat -> Env,
                        recording: Executed, config: ConfigEnv, reloads: bool)
    returns (r: Result<()>, text: Option<string>)
    requires AllStored(db.backend, db.zones)
    requires AddZone(db.backend, State(db.zones, db.files), q, ins, ztype, env, recording).1.Some?
    modifies db
    ensures State(db.zones, db.files)
            == Apply(db.backend, old(State(db.zones, db.files)), Add(q, ins, ztype, env, recording))
    ensures (r, text) == AddResult(db.backend, old(State(db.zones, db.files)), Add(q, ins, ztype, env, recording),
                                   config, reloads)
    ensures AllStored(db.backend, db.zones)
  {
    hide AddZone, AllStored, Config, ConfigRows, Nameable;
    AddKeepsStored(db.backend, State(db.zones, db.files), q, ins, ztype, env, recording);
    r := AddAndValidate(db, q, ins, ztype, env, recording);
    if r.Err? {
      return r, None;
    }
    StoredRowsGood(db.backend, db.zones);
    r, text := WriteRevZoneConfig(db, config);
    if r.Ok? && !reloads {
      r := Err(CommandFail);
    }
  }

  /** The statement declares sub-zone i of the requested zone: a slave exactly when a master is named, with it. */
  predicate IsRequestedStatement(s: Stanza, q: Request, i: nat, dir: string)
    requires Storable(q)
  {
    var first := SubZoneStart(TextToBin(q.range).value, q.prefix, i);
    && first < SPACE && s.zone == NameOf(first, q.prefix) && s.file == dir + Print(first)
    && (s.kind == Some("slave") <==> q.master.Some?) && (s.kind == Some("master") <==> q.master.None?)
    && s.masters == match q.master case Some(m) => [m] case None => []
  }

  ghost predicate HasRequested(ss: seq<Stanza>, q: Request, i: nat, dir: string)
    requires Storable(q)
  {
    exists k :: 0 <= k < |ss| && IsRequestedStatement(ss[k], q, i, dir)
  }

  /** After an addition that is stored the configuration reads as a statement for each sub-zone of the zone added, with
      the type and the master of the request. */
  lemma AddedZoneDeclared(b: Backend, st: State, q: Request, ins: Insertion, ztype: Option<string>, env: nat -> Env,
                          recording: Executed, dir: string)
    requires AllStored(b, st.zones) && Stores(b, ins) && Accepts(b, st.zones, q)
    requires NoQuote(dir) && CleanMasters(st.zones)
    requires q.master.Some? ==> IsWord(q.master.value) && |q.master.value| <= DOMAIN_LEN
    ensures var end := AddZone(b, st, q, ins, ztype, env, recording).0;
            && GoodRows(ConfigRows(end.zones)) && GetZoneIndex(q.prefix).Ok?
            && var text := Config(end.zones, ConfigEnv(dir, true, true)).1;
            && text.Some? && Read(text.value).Some?
            && forall i: nat :: i < GetZoneIndex(q.prefix).value ==> HasRequested(Read(text.value).value, q, i, dir)
  {
    var zones := AddZone(b, st, q, ins, ztype, env, recording).0.zones;
    AcceptedExactly(b, st.zones, q);
    InsertOutcome(b, st.zones, q, ins);
    SubZonesFillZone(q.prefix);
    AddKeepsStored(b, st, q, ins, ztype, env, recording);
    AddedRow(b, st, q, ins, ztype, env, recording);
    AddKeepsMasters(b, st, q, ins, ztype, env, recording);
    hide AddZone, InsertZone, AllStored, Accepts, Storable, Stores, Config, ConfigRows, Nameable, CleanMasters,
      Matching, NoQuote, Read, NoClash, IsWord, GetZoneIndex, NetRange, IsRequested, AreStatements, DistinctZones;
    var j := MatchingPlace(zones, q.range);
    ConfigDeclaresEachOnce(b, zones, dir);
    var ss := Read(Config(zones, ConfigEnv(dir, true, true)).1.value).value;
    forall i: nat | i < GetZoneIndex(q.prefix).value ensures HasRequested(ss, q, i, dir) {
      RequestedDeclared(b, zones, ss, j, q, i, dir);
    }
  }

  lemma RequestedDeclared(b: Backend, zones: seq<Zone>, ss: seq<Stanza>, j: nat, q: Request, i: nat, dir: string)
    requires AreStatements(ss, zones, dir) && j < |zones| && IsRequested(b, zones[j], q) && Storable(q)
    requires GetZoneIndex(q.prefix).Ok? && i < GetZoneIndex(q.prefix).value
    ensures HasRequested(ss, q, i, dir)
  {
    hide IsStatement, IsRequestedStatement, NameCount, GetZoneIndex, StrToUl, NetRange, Parse;
    assert HasStatement(ss, zones, j, i, dir);
    var k :| 0 <= k < |ss| && IsStatement(ss[k], zones[j], i, dir);
    StatementAsRequested(b, ss[k], zones[j], i, q, dir);
  }

  lemma StatementAsRequested(b: Backend, s: Stanza, z: Zone, i: nat, q: Request, dir: string)
    requires IsStatement(s, z, i, dir) && IsRequested(b, z, q) && Storable(q)
    ensures IsRequestedStatement(s, q, i, dir)
  {
    hide NameOf, Print, SubZoneStart, StrToUl, Parse, NetRange, GetZoneIndex;
    assert "slave" != "master";
  }

  lemma MatchingPlace(zones: seq<Zone>, name: string) returns (j: nat)
    requires |Matching(zones, name)| == 1
    ensures j < |zones| && zones[j] == Matching(zones, name)[0]
  {
    var z := Matching(zones, name)[0];
    assert z in Matching(zones, name);
    j :| 0 <= j < |zones| && zones[j] == z;
  }

  lemma AddKeepsMasters(b: Backend, st: State, q: Request, ins: Insertion, ztype: Option<string>, env: nat -> Env,
                        recording: Executed)
    requires CleanMasters(st.zones) && Stores(b, ins) && InsertZone(b, st.zones, q, ins).1.Ok? && AllStored(b, st.zones)
    requires q.master.Some? ==> IsWord(q.master.value) && |q.master.value| <= DOMAIN_LEN
    ensures CleanMasters(AddZone(b, st, q, ins, ztype, env, recording).0.zones)
  {
    InsertOutcome(b, st.zones, q, ins);
    AddKeepsZones(b, st, q, ins, ztype, env, recording);
    hide AddZone, InsertZone, AllStored, SameZones, CleanMasters;
    InsertKeepsMasters(b, st.zones, q);
    SameZonesKeepMasters(InsertZone(b, st.zones, q, ins).0, AddZone(b, st, q, ins, ztype, env, recording).0.zones);
  }

  lemma SameZonesKeepMasters(zones: seq<Zone>, zones': seq<Zone>)
    requires SameZones(zones, zones') && CleanMasters(zones)
    ensures CleanMasters(zones')
  {
    hide IsWord;
    forall j | 0 <= j < |zones'| && zones'[j].kind == Slave
      ensures IsWord(zones'[j].master) && |zones'[j].master| <= DOMAIN_LEN
    {
      assert SameDefinition(zones[j], zones'[j]);
    }
  }

  lemma InsertKeepsMasters(b: Backend, zones: seq<Zone>, q: Request)
    requires CleanMasters(zones) && InsertZone(b, zones, q, GOES_WELL).1.Ok? && AllStored(b, zones)
    requires q.master.Some? ==> IsWord(q.master.value) && |q.master.value| <= DOMAIN_LEN
    ensures CleanMasters(InsertZone(b, zones, q, GOES_WELL).0)
  {
    NewZoneStored(b, zones, q);
    InsertedRow(b, zones, q);
    hide InsertZone, AllStored, Stored, Matching, IsWord, StrToUl, First, Size;
    OnlyOfName(InsertZone(b, zones, q, GOES_WELL).0, q.range, |zones|);
  }

  /** The one row of a name is the row of that name. */
  lemma {:induction false} OnlyOfName(zones: seq<Zone>, name: string, k: nat)
    requires |Matching(zones, name)| == 1 && k < |zones| && zones[k].name == name
    ensures Matching(zones, name)[0] == zones[k]
  {
    if k > 0 {
      var rest := Matching(zones[1..], name);
      NameMatches(zones[1..], name, k - 1);
      OnlyOfName(zones[1..], name, k - 1);
    }
  }

  lemma {:induction false} NameMatches(zones: seq<Zone>, name: string, k: nat)
    requires k < |zones| && zones[k].name == name
    ensures Matching(zones, name) != []
  {
    if k > 0 { NameMatches(zones[1..], name, k - 1); }
  }

  // ---- An unaligned zone ----------------------------------------------------

  /** 10.0.0.128/24 is accepted into an empty table. */
  lemma UnalignedZoneAccepted(b: Backend, base: Request)
    ensures var q := base.(range := Print(0x0A00_0080), prefix := 24); InsertZone(b, [], q, GOES_WELL).1.Ok?
  {
    var q := base.(range := Print(0x0A00_0080), prefix := 24);
    hide Parse, Print, NetRange, InsertZone, Arithmetic.Pow2;
    ParsePrint(0x0A00_0080);
    SubZonesFillZone(24);
    EmptyTableAccepts(b, q);
  }

  /** 10.0.1.0 lies in it and has another name than its only one; 10.0.0.0 lies outside and has that name. */
  lemma UnalignedZoneName()
    ensures GetZoneIndex(24) == Ok(1) && SubZoneStart(0x0A00_0080, 24, 0) == 0x0A00_0080
    ensures InZone(0x0A00_0100, 0x0A00_0080, 24) && !InZone(0x0A00_0000, 0x0A00_0080, 24)
    ensures NameOf(0x0A00_0100, 24) != NameOf(0x0A00_0080, 24) && NameOf(0x0A00_0000, 24) == NameOf(0x0A00_0080, 24)
  {
    NetRangeIsPower(24);
    Arithmetic.Pow2Values();
    hide NetRange, NameOf;
    NameIsBlock(0x0A00_0100, 0x0A00_0080, 24);
    NameIsBlock(0x0A00_0000, 0x0A00_0080, 24);
  }

  /** Nor does the text of 10.0.1.0 match its only pattern, while that of 10.0.0.0 does. */
  lemma UnalignedZonePattern(pattern: string)
    requires IsPattern(pattern, Print(0x0A00_0080), 24, 0)
    ensures !Like(Print(0x0A00_0100), pattern) && Like(Print(0x0A00_0000), pattern)
  {
    ParsePrint(0x0A00_0080);
    hide Parse, Print, Like, IsPattern;
    PatternOfSubZone(Print(0x0A00_0080), 0x0A00_0080, 24, 0, pattern, 0x0A00_0100);
    PatternOfSubZone(Print(0x0A00_0080), 0x0A00_0080, 24, 0, pattern, 0x0A00_0000);
  }
}

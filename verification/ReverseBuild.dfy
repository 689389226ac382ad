/** Building the reverse records of a zone from the forward records: which rows go, which are added, and when the rows
    of each sub-zone are then those of the forward records with an address in it. */
module ReverseBuild {
  import opened Results
  import opened Text

  datatype Forward = Forward(id: nat, dest: string, host: string, domain: string)

  datatype Reverse = Reverse(id: nat, index: nat, host: string, dest: string)

  /** A row of the table of reverse records, without its id. */
  datatype Row = Row(index: nat, host: string, dest: string)

  function RowOf(r: Reverse): Row { Row(r.index, r.host, r.dest) }

  /** The name a forward record gives its address. */
  function Fqdn(f: Forward): string {
    if f.host == "@" then f.domain + "." else f.host + "." + f.domain + "."
  }

  // ---- Dots ------------------------------------------------------------------

  function Dots(s: string): nat { if s == "" then 0 else (if s[0] == '.' then 1 else 0) + Dots(s[1..]) }

  lemma {:induction false} DotsAppend(a: string, b: string)
    ensures Dots(a + b) == Dots(a) + Dots(b)
  {
    if a == "" { assert a + b == b; } else { DotsAppend(a[1..], b); assert (a + b)[1..] == a[1..] + b; }
  }

  lemma {:induction false} DotsOfFields(s: string)
    ensures |Fields(s)| == Dots(s) + 1
  {
    if s != "" { DotsOfFields(s[1..]); }
  }

  /** What is before the last dot. */
  function CutLast(s: string): (c: string)
    ensures c <= s && (Dots(s) > 0 ==> |c| < |s| && s[|c|] == '.' && Dots(s[|c| + 1..]) == 0)
  {
    if s == "" then ""
    else
      var before := s[..|s| - 1];
      LastCharDots(s);
      if s[|s| - 1] == '.' then before
      else
        var c := CutLast(before);
        if Dots(before) == 0 then c
        else
          LastCharDots(s[|c| + 1..]);
          assert s[|c| + 1..][..|s| - |c| - 2] == before[|c| + 1..];
          c
  }

  lemma LastCharDots(s: string)
    requires s != ""
    ensures Dots(s) == Dots(s[..|s| - 1]) + if s[|s| - 1] == '.' then 1 else 0
  {
    DotsAppend(s[..|s| - 1], s[|s| - 1..]);
    assert s == s[..|s| - 1] + s[|s| - 1..];
    assert s[|s| - 1..][1..] == "";
  }

  /** The text before the host of an address: it ends in a dot. */
  predicate IsStem(stem: string) { stem != "" && stem[|stem| - 1] == '.' }

  /** Cutting a stem and a text at the last dot. */
  lemma CutStem(stem: string, t: string)
    requires IsStem(stem)
    ensures CutLast(stem + t) == if Dots(t) == 0 then stem[..|stem| - 1] else stem + CutLast(t)
  {
    var s, p := stem + t, |stem| - 1;
    if Dots(t) == 0 {
      assert s[p] == '.' && s[p + 1..] == t && s[..p] == stem[..p];
      CutAtDot(s, p);
    } else {
      var q := |stem| + |CutLast(t)|;
      assert s[q] == '.' && s[q + 1..] == t[|CutLast(t)| + 1..] && s[..q] == stem + CutLast(t);
      CutAtDot(s, q);
    }
  }

  lemma CutAtDot(s: string, p: nat)
    requires p < |s| && s[p] == '.' && Dots(s[p + 1..]) == 0
    ensures CutLast(s) == s[..p]
  {
    hide CutLast;
    DotAt(s, p);
    OneLastDot(s, |CutLast(s)|, p);
  }

  lemma OneLastDot(s: string, p: nat, q: nat)
    requires p < |s| && q < |s| && s[p] == '.' && s[q] == '.' && Dots(s[p + 1..]) == 0 && Dots(s[q + 1..]) == 0
    ensures p == q
  {
    if p < q { DotAt(s[p + 1..], q - p - 1); }
    if q < p { DotAt(s[q + 1..], p - q - 1); }
  }

  lemma {:induction false} DotAt(s: string, k: nat)
    requires k < |s| && s[k] == '.'
    ensures Dots(s) > 0
  {
    if k > 0 { DotAt(s[1..], k - 1); }
  }

  // ---- Which rows go, and which are added -------------------------------------

  /** The row, taken for sub-zone i with that stem, is of the forward record. */
  predicate Answers(stem: string, r: Reverse, f: Forward) { stem + r.host == f.dest && r.dest == Fqdn(f) }

  predicate Answered(stem: string, r: Reverse, rec: seq<Forward>) {
    exists k :: 0 <= k < |rec| && Answers(stem, r, rec[k])
  }

  predicate Known(stem: string, f: Forward, rev: seq<Reverse>) {
    exists k :: 0 <= k < |rev| && Answers(stem, rev[k], f)
  }

  /** What cmdb_records_to_remove lists for sub-zone i. */
  function RemoveFrom(stem: string, i: nat, rec: seq<Forward>, rev: seq<Reverse>): seq<nat> {
    if rev == [] then []
    else
      var last := rev[|rev| - 1];
      RemoveFrom(stem, i, rec, rev[..|rev| - 1])
      + if last.index == i && !Answered(stem, last, rec) then [last.id] else []
  }

  function ToRemove(stems: seq<string>, rec: seq<Forward>, rev: seq<Reverse>): seq<nat> {
    if stems == [] then []
    else
      var n := |stems| - 1;
      ToRemove(stems[..n], rec, rev) + RemoveFrom(stems[n], n, rec, rev)
  }

  /** What the buffer holds behind the stem after a scan of the rows without a find. */
  function LastHost(rev: seq<Reverse>): string { if rev == [] then "%" else rev[|rev| - 1].host }

  function Rest(dest: string, n: nat): string { if n <= |dest| then dest[n..] else "" }

  /** cmdb_records_to_add takes the record for sub-zone i: no row of any sub-zone is known for it, and its address
      begins with what the buffer holds up to its last dot. */
  predicate Adds(stem: string, f: Forward, rev: seq<Reverse>) {
    !Known(stem, f, rev) && CutLast(stem + LastHost(rev)) <= f.dest
  }

  function AddedRow(stem: string, i: nat, f: Forward): Row { Row(i, Rest(f.dest, |stem|), Fqdn(f)) }

  function AddFor(stem: string, i: nat, rec: seq<Forward>, rev: seq<Reverse>): seq<Row> {
    if rec == [] then []
    else
      var last := rec[|rec| - 1];
      AddFor(stem, i, rec[..|rec| - 1], rev) + if Adds(stem, last, rev) then [AddedRow(stem, i, last)] else []
  }

  function ToAdd(stems: seq<string>, rec: seq<Forward>, rev: seq<Reverse>): seq<Row> {
    if stems == [] then []
    else
      var n := |stems| - 1;
      ToAdd(stems[..n], rec, rev) + AddFor(stems[n], n, rec, rev)
  }

  /** The rows that stay. */
  function Kept(rev: seq<Reverse>, removed: seq<nat>): seq<Row> {
    if rev == [] then []
    else Kept(rev[..|rev| - 1], removed) + if rev[|rev| - 1].id in removed then [] else [RowOf(rev[|rev| - 1])]
  }

  /** The rows of the zone after a build. */
  function AfterBuild(stems: seq<string>, rec: seq<Forward>, rev: seq<Reverse>): seq<Row> {
    Kept(rev, ToRemove(stems, rec, rev)) + ToAdd(stems, rec, rev)
  }

  // ---- When that is right ------------------------------------------------------

  /** Some forward record gives that name to the address made of the stem and the host. */
  predicate Wanted(stem: string, rec: seq<Forward>, host: string, dest: string) {
    exists k :: 0 <= k < |rec| && stem + host == rec[k].dest && dest == Fqdn(rec[k])
  }

  /** In each sub-zone there are just the rows of the forward records whose address lies in it. */
  ghost predicate Right(stems: seq<string>, rec: seq<Forward>, rows: seq<Row>) {
    forall i: nat, host, dest :: i < |stems| ==> (Row(i, host, dest) in rows <==> Wanted(stems[i], rec, host, dest))
  }

  /** A row that is known for the record lies in sub-zone i. */
  predicate KnownAt(stem: string, i: nat, f: Forward, rev: seq<Reverse>) {
    exists k :: 0 <= k < |rev| && rev[k].index == i && Answers(stem, rev[k], f)
  }

  /** A record with a known row has one in this sub-zone; for any other the cut text decides as the stem does. */
  predicate FitsAt(stem: string, i: nat, f: Forward, rev: seq<Reverse>) {
    if Known(stem, f, rev) then KnownAt(stem, i, f, rev)
    else CutLast(stem + LastHost(rev)) <= f.dest <==> stem <= f.dest
  }

  predicate Fits(stems: seq<string>, rec: seq<Forward>, rev: seq<Reverse>) {
    forall i, k :: 0 <= i < |stems| && 0 <= k < |rec| ==> FitsAt(stems[i], i, rec[k], rev)
  }

  /** The rows belong to the sub-zones, and have different ids. */
  predicate GoodRows(count: nat, rev: seq<Reverse>) {
    && (forall k :: 0 <= k < |rev| ==> rev[k].index < count)
    && (forall k, l :: 0 <= k < l < |rev| ==> rev[k].id != rev[l].id)
  }

  /** Stems of one kind of sub-zone, and addresses. */
  predicate GoodTexts(stems: seq<string>, rec: seq<Forward>) {
    && (forall i :: 0 <= i < |stems| ==> IsStem(stems[i]) && 1 <= Dots(stems[i]) <= 3)
    && (forall k :: 0 <= k < |rec| ==> Dots(rec[k].dest) == 3)
  }

  lemma {:induction false} InRemoveFrom(stem: string, i: nat, rec: seq<Forward>, rev: seq<Reverse>, id: nat)
    ensures id in RemoveFrom(stem, i, rec, rev)
            <==> exists k :: 0 <= k < |rev| && rev[k].id == id && rev[k].index == i && !Answered(stem, rev[k], rec)
  {
    hide Answered;
    if rev != [] {
      var before := rev[..|rev| - 1];
      InRemoveFrom(stem, i, rec, before, id);
      assert forall k :: 0 <= k < |before| ==> before[k] == rev[k];
    }
  }

  /** A row is removed exactly when no forward record answers to it. */
  lemma {:induction false} InToRemove(stems: seq<string>, rec: seq<Forward>, rev: seq<Reverse>, id: nat)
    ensures id in ToRemove(stems, rec, rev)
            <==> exists k :: 0 <= k < |rev| && rev[k].id == id && rev[k].index < |stems|
                             && !Answered(stems[rev[k].index], rev[k], rec)
  {
    hide Answered, RemoveFrom;
    if stems != [] {
      var n := |stems| - 1;
      InToRemove(stems[..n], rec, rev, id);
      InRemoveFrom(stems[n], n, rec, rev, id);
    }
  }

  /** Which row is added. */
  ghost predicate AddsRow(stem: string, rec: seq<Forward>, rev: seq<Reverse>, host: string, dest: string) {
    exists k :: 0 <= k < |rec| && Adds(stem, rec[k], rev) && host == Rest(rec[k].dest, |stem|) && dest == Fqdn(rec[k])
  }

  lemma {:induction false} InAddFor(stem: string, i: nat, rec: seq<Forward>, rev: seq<Reverse>, row: Row)
    ensures row in AddFor(stem, i, rec, rev) <==> row.index == i && AddsRow(stem, rec, rev, row.host, row.dest)
  {
    hide Adds, Fqdn, Rest;
    if rec != [] {
      var before := rec[..|rec| - 1];
      InAddFor(stem, i, before, rev, row);
      assert forall k :: 0 <= k < |before| ==> before[k] == rec[k];
    }
  }

  lemma {:induction false} InToAdd(stems: seq<string>, rec: seq<Forward>, rev: seq<Reverse>, row: Row)
    ensures row in ToAdd(stems, rec, rev)
            <==> row.index < |stems| && AddsRow(stems[row.index], rec, rev, row.host, row.dest)
  {
    hide AddFor, AddsRow;
    if stems != [] {
      var n := |stems| - 1;
      InToAdd(stems[..n], rec, rev, row);
      InAddFor(stems[n], n, rec, rev, row);
    }
  }

  /** Which row stays. */
  ghost predicate KeepsRow(stem: string, i: nat, rec: seq<Forward>, rev: seq<Reverse>, host: string, dest: string) {
    exists k :: 0 <= k < |rev| && RowOf(rev[k]) == Row(i, host, dest) && Answered(stem, rev[k], rec)
  }

  lemma {:induction false} InKept(rev: seq<Reverse>, removed: seq<nat>, row: Row)
    ensures row in Kept(rev, removed) <==> exists k :: 0 <= k < |rev| && RowOf(rev[k]) == row && rev[k].id !in removed
  {
    if rev != [] {
      var before := rev[..|rev| - 1];
      InKept(before, removed, row);
      assert forall k :: 0 <= k < |before| ==> before[k] == rev[k];
    }
  }

  lemma RemovedExactly(stems: seq<string>, rec: seq<Forward>, rev: seq<Reverse>, k: nat)
    requires GoodRows(|stems|, rev) && k < |rev|
    ensures rev[k].id in ToRemove(stems, rec, rev) <==> !Answered(stems[rev[k].index], rev[k], rec)
  {
    hide Answered, ToRemove;
    InToRemove(stems, rec, rev, rev[k].id);
  }

  /** The rows after a build are those that stay and those that are added. */
  lemma InAfter(stems: seq<string>, rec: seq<Forward>, rev: seq<Reverse>, i: nat, host: string, dest: string)
    requires GoodRows(|stems|, rev) && i < |stems|
    ensures Row(i, host, dest) in AfterBuild(stems, rec, rev)
            <==> KeepsRow(stems[i], i, rec, rev, host, dest) || AddsRow(stems[i], rec, rev, host, dest)
  {
    hide Answered, ToRemove, ToAdd, Kept, AddsRow;
    InKept(rev, ToRemove(stems, rec, rev), Row(i, host, dest));
    InToAdd(stems, rec, rev, Row(i, host, dest));
    forall k | 0 <= k < |rev|
      ensures rev[k].id in ToRemove(stems, rec, rev) <==> !Answered(stems[rev[k].index], rev[k], rec)
    {
      RemovedExactly(stems, rec, rev, k);
    }
  }

  // ---- Both directions, at one sub-zone ----------------------------------------

  lemma StemBegins(stem: string, dest: string)
    requires IsStem(stem) && stem[..|stem| - 1] <= dest && |stem| <= |dest|
    ensures stem <= dest <==> dest[|stem| - 1] == '.'
  {
    assert dest[..|stem|] == stem[..|stem| - 1] + [dest[|stem| - 1]];
    assert stem == stem[..|stem| - 1] + ['.'];
  }

  /** Behind the stem an address that begins with the cut text, but not with the stem, has a dot too many. */
  lemma OverreachDots(stem: string, t: string, dest: string)
    requires IsStem(stem) && CutLast(stem + t) <= dest && !(stem <= dest) && 1 <= Dots(stem) <= 3 && Dots(dest) == 3
    ensures |stem| <= |dest| && Dots(stem) + Dots(Rest(dest, |stem|)) == 4
  {
    CutStem(stem, t);
    LastCharDots(stem);
    var n := |stem| - 1;
    assert dest == stem[..n] + dest[n..];
    DotsAppend(stem[..n], dest[n..]);
    assert dest[n..] != "";
    StemBegins(stem, dest);
    assert dest[n..][1..] == dest[|stem|..];
  }

  lemma HostDots(stem: string, host: string, dest: string)
    requires stem + host == dest
    ensures stem <= dest && Rest(dest, |stem|) == host && Dots(stem) + Dots(host) == Dots(dest)
  {
    DotsAppend(stem, host);
  }

  /** Rows that fit make the sub-zone right. */
  lemma FitsGiveRight(stem: string, i: nat, rec: seq<Forward>, rev: seq<Reverse>, host: string, dest: string)
    requires forall k :: 0 <= k < |rec| ==> FitsAt(stem, i, rec[k], rev)
    ensures KeepsRow(stem, i, rec, rev, host, dest) || AddsRow(stem, rec, rev, host, dest)
            <==> Wanted(stem, rec, host, dest)
  {
    hide Fqdn, CutLast;
    if KeepsRow(stem, i, rec, rev, host, dest) {
      var k :| 0 <= k < |rev| && RowOf(rev[k]) == Row(i, host, dest) && Answered(stem, rev[k], rec);
      assert Wanted(stem, rec, host, dest);
    }
    if AddsRow(stem, rec, rev, host, dest) {
      var k :| 0 <= k < |rec| && Adds(stem, rec[k], rev) && host == Rest(rec[k].dest, |stem|) && dest == Fqdn(rec[k]);
      assert FitsAt(stem, i, rec[k], rev);
      assert stem + host == rec[k].dest;
    }
    if Wanted(stem, rec, host, dest) {
      var k :| 0 <= k < |rec| && stem + host == rec[k].dest && dest == Fqdn(rec[k]);
      WantedIsThere(stem, i, rec, rev, host, k);
    }
  }

  lemma WantedIsThere(stem: string, i: nat, rec: seq<Forward>, rev: seq<Reverse>, host: string, k: nat)
    requires k < |rec| && FitsAt(stem, i, rec[k], rev) && stem + host == rec[k].dest
    ensures KeepsRow(stem, i, rec, rev, host, Fqdn(rec[k])) || AddsRow(stem, rec, rev, host, Fqdn(rec[k]))
  {
    hide Fqdn, CutLast;
    if Known(stem, rec[k], rev) {
      var l :| 0 <= l < |rev| && rev[l].index == i && Answers(stem, rev[l], rec[k]);
      SameHost(stem, rev[l].host, host);
      assert Answered(stem, rev[l], rec);
    } else {
      assert stem <= rec[k].dest && Rest(rec[k].dest, |stem|) == host;
    }
  }

  lemma SameHost(stem: string, a: string, b: string)
    requires stem + a == stem + b
    ensures a == b
  {
    assert (stem + a)[|stem|..] == a && (stem + b)[|stem|..] == b;
  }

  /** A sub-zone that is right has rows that fit. */
  lemma RightGivesFits(stem: string, i: nat, rec: seq<Forward>, rev: seq<Reverse>, k: nat)
    requires IsStem(stem) && 1 <= Dots(stem) <= 3 && forall l :: 0 <= l < |rec| ==> Dots(rec[l].dest) == 3
    requires forall host, dest :: KeepsRow(stem, i, rec, rev, host, dest) || AddsRow(stem, rec, rev, host, dest)
                                  <==> Wanted(stem, rec, host, dest)
    requires k < |rec|
    ensures FitsAt(stem, i, rec[k], rev)
  {
    hide Fqdn, CutLast, KeepsRow, AddsRow, Wanted;
    var f := rec[k];
    if stem <= f.dest {
      var host := Rest(f.dest, |stem|);
      assert stem + host == f.dest;
      IsWanted(stem, rec, k, host);
      ThereFits(stem, i, rec, rev, k, host);
    } else {
      NotKnown(stem, f, rev);
      if CutLast(stem + LastHost(rev)) <= f.dest {
        OverreachAdds(stem, rec, rev, k);
        OverreachUnwanted(stem, rec, rev, k);
        assert false;
      }
    }
  }

  lemma IsWanted(stem: string, rec: seq<Forward>, k: nat, host: string)
    requires k < |rec| && stem + host == rec[k].dest
    ensures Wanted(stem, rec, host, Fqdn(rec[k]))
  {
  }

  lemma NotKnown(stem: string, f: Forward, rev: seq<Reverse>)
    requires !(stem <= f.dest)
    ensures !Known(stem, f, rev)
  {
  }

  lemma OverreachAdds(stem: string, rec: seq<Forward>, rev: seq<Reverse>, k: nat)
    requires k < |rec| && Adds(stem, rec[k], rev)
    ensures AddsRow(stem, rec, rev, Rest(rec[k].dest, |stem|), Fqdn(rec[k]))
  {
  }

  lemma OverreachUnwanted(stem: string, rec: seq<Forward>, rev: seq<Reverse>, k: nat)
    requires k < |rec| && CutLast(stem + LastHost(rev)) <= rec[k].dest && !(stem <= rec[k].dest)
    requires IsStem(stem) && 1 <= Dots(stem) <= 3 && forall l :: 0 <= l < |rec| ==> Dots(rec[l].dest) == 3
    ensures !Wanted(stem, rec, Rest(rec[k].dest, |stem|), Fqdn(rec[k]))
  {
    hide Fqdn;
    OverreachDots(stem, LastHost(rev), rec[k].dest);
    DotsAppend(stem, Rest(rec[k].dest, |stem|));
  }

  /** The row that is there for a record of the sub-zone was known at it, or is added for it. */
  lemma ThereFits(stem: string, i: nat, rec: seq<Forward>, rev: seq<Reverse>, k: nat, host: string)
    requires IsStem(stem) && 1 <= Dots(stem) <= 3 && forall l :: 0 <= l < |rec| ==> Dots(rec[l].dest) == 3
    requires k < |rec| && stem + host == rec[k].dest
    requires KeepsRow(stem, i, rec, rev, host, Fqdn(rec[k])) || AddsRow(stem, rec, rev, host, Fqdn(rec[k]))
    ensures FitsAt(stem, i, rec[k], rev)
  {
    hide Fqdn, CutLast;
    if KeepsRow(stem, i, rec, rev, host, Fqdn(rec[k])) {
      var l :| 0 <= l < |rev| && RowOf(rev[l]) == Row(i, host, Fqdn(rec[k])) && Answered(stem, rev[l], rec);
      assert Answers(stem, rev[l], rec[k]);
    } else {
      var l :| 0 <= l < |rec| && Adds(stem, rec[l], rev) && host == Rest(rec[l].dest, |stem|)
               && Fqdn(rec[k]) == Fqdn(rec[l]);
      HostDots(stem, host, rec[k].dest);
      if !(stem <= rec[l].dest) { OverreachDots(stem, LastHost(rev), rec[l].dest); assert false; }
      assert rec[l].dest == stem + host;
      SameRecord(stem, rec[l], rec[k], rev);
    }
  }

  lemma SameRecord(stem: string, f: Forward, g: Forward, rev: seq<Reverse>)
    requires f.dest == g.dest && Fqdn(f) == Fqdn(g) && Adds(stem, f, rev)
    ensures Adds(stem, g, rev)
  {
    hide Fqdn, CutLast;
  }

  /** After a build the rows of each sub-zone are right exactly when the rows before it fit: no record passes as known
      by a row of another sub-zone, and the text it is compared with decides as the stem does. */
  lemma BuildRightExactly(stems: seq<string>, rec: seq<Forward>, rev: seq<Reverse>)
    requires GoodTexts(stems, rec) && GoodRows(|stems|, rev)
    ensures Right(stems, rec, AfterBuild(stems, rec, rev)) <==> Fits(stems, rec, rev)
  {
    hide AfterBuild, Wanted, KeepsRow, AddsRow, FitsAt, IsStem;
    forall i: nat, host, dest | i < |stems|
      ensures Row(i, host, dest) in AfterBuild(stems, rec, rev)
              <==> KeepsRow(stems[i], i, rec, rev, host, dest) || AddsRow(stems[i], rec, rev, host, dest)
    {
      InAfter(stems, rec, rev, i, host, dest);
    }
    if Right(stems, rec, AfterBuild(stems, rec, rev)) {
      forall i, k | 0 <= i < |stems| && 0 <= k < |rec| ensures FitsAt(stems[i], i, rec[k], rev) {
        RightGivesFits(stems[i], i, rec, rev, k);
      }
    }
    if Fits(stems, rec, rev) {
      forall i: nat, host, dest | i < |stems|
        ensures Row(i, host, dest) in AfterBuild(stems, rec, rev) <==> Wanted(stems[i], rec, host, dest)
      {
        FitsGiveRight(stems[i], i, rec, rev, host, dest);
      }
    }
  }

  // ---- What the rows say ---------------------------------------------------------

  /** The target is the name of the record: the labels of its host, unless that is "@", then those of its domain, and
      the root. */
  predicate IsTarget(dest: string, f: Forward) {
    Fields(dest) == (if f.host == "@" then [] else Fields(f.host)) + Fields(f.domain) + [""]
  }

  lemma FieldsOfRooted(t: string)
    ensures Fields(t + ".") == Fields(t) + [""]
  {
    FieldsOfDotted(t, "");
    assert t + "." + "" == t + ".";
  }

  lemma FqdnHasTarget(f: Forward)
    ensures IsTarget(Fqdn(f), f)
  {
    FieldsOfRooted(f.domain);
    FieldsOfDotted(f.host, f.domain + ".");
    hide Fields;
    var rest := Fields(f.domain) + [""];
    assert [] + Fields(f.domain) == Fields(f.domain);
    assert f.host + "." + (f.domain + ".") == f.host + "." + f.domain + ".";
    JoinThree(Fields(f.host), Fields(f.domain), [""]);
  }

  lemma FqdnIsTarget(f: Forward, dest: string)
    ensures dest == Fqdn(f) <==> IsTarget(dest, f)
  {
    FqdnHasTarget(f);
    JoinOfFields(dest);
    JoinOfFields(Fqdn(f));
    hide Fields, JoinDots, Fqdn;
  }

  /** Every row a build leaves in a sub-zone is for a record: its target is that record's name. A row that stays is at
      the record's address, and an added one has what is behind the stem's length for its host. */
  lemma RowsHaveTargets(stems: seq<string>, rec: seq<Forward>, rev: seq<Reverse>, row: Row)
    requires GoodRows(|stems|, rev) && row.index < |stems| && row in AfterBuild(stems, rec, rev)
    ensures exists k :: 0 <= k < |rec| && IsTarget(row.dest, rec[k])
                        && (stems[row.index] + row.host == rec[k].dest
                            || row.host == Rest(rec[k].dest, |stems[row.index]|))
  {
    hide AfterBuild, IsTarget, Fqdn, CutLast;
    InAfter(stems, rec, rev, row.index, row.host, row.dest);
    var stem := stems[row.index];
    if KeepsRow(stem, row.index, rec, rev, row.host, row.dest) {
      var l :| 0 <= l < |rev| && RowOf(rev[l]) == row && Answered(stem, rev[l], rec);
      var k :| 0 <= k < |rec| && Answers(stem, rev[l], rec[k]);
      FqdnIsTarget(rec[k], row.dest);
    } else {
      var k :| 0 <= k < |rec| && Adds(stem, rec[k], rev) && row.host == Rest(rec[k].dest, |stem|)
               && row.dest == Fqdn(rec[k]);
      FqdnIsTarget(rec[k], row.dest);
    }
  }

  /** Rows that are right are, in each sub-zone, those with the name of a record at its address. */
  lemma RightByTarget(stems: seq<string>, rec: seq<Forward>, rows: seq<Row>)
    requires Right(stems, rec, rows)
    ensures forall i: nat, host, dest :: i < |stems| ==>
              (Row(i, host, dest) in rows
               <==> exists k :: 0 <= k < |rec| && stems[i] + host == rec[k].dest && IsTarget(dest, rec[k]))
  {
    hide IsTarget, Fqdn;
    forall i: nat, host, dest | i < |stems|
      ensures Row(i, host, dest) in rows
              <==> exists k :: 0 <= k < |rec| && stems[i] + host == rec[k].dest && IsTarget(dest, rec[k])
    {
      forall k | 0 <= k < |rec| ensures dest == Fqdn(rec[k]) <==> IsTarget(dest, rec[k]) {
        FqdnIsTarget(rec[k], dest);
      }
      assert Row(i, host, dest) in rows <==> Wanted(stems[i], rec, host, dest);
    }
  }

  /** Records of one domain with different hosts, neither of them "@", have different targets. */
  lemma TargetsDiffer(f: Forward, g: Forward, dest: string)
    requires f.domain == g.domain && f.host != g.host && f.host != "@" && g.host != "@" && IsTarget(dest, f)
    ensures !IsTarget(dest, g)
  {
    hide Fields;
    if IsTarget(dest, g) {
      var rest := Fields(f.domain) + [""];
      JoinThree(Fields(f.host), Fields(f.domain), [""]);
      JoinThree(Fields(g.host), Fields(g.domain), [""]);
      SameFront(Fields(f.host), Fields(g.host), rest);
      JoinOfFields(f.host);
      JoinOfFields(g.host);
      assert false;
    }
  }

  lemma SameFront(a: seq<string>, b: seq<string>, rest: seq<string>)
    requires a + rest == b + rest
    ensures a == b
  {
    assert |a| == |b| && (a + rest)[..|a|] == a && (b + rest)[..|b|] == b;
  }

  // ---- Building again ------------------------------------------------------------

  /** No address begins with a stem but for the stem's dot. */
  predicate NoOverreach(stems: seq<string>, rec: seq<Forward>) {
    forall i, k :: 0 <= i < |stems| && 0 <= k < |rec| && stems[i] != "" ==>
      (stems[i][..|stems[i]| - 1] <= rec[k].dest ==> stems[i] <= rec[k].dest)
  }

  /** Where that is so, a build from rows that are right changes nothing. */
  lemma BuildAgain(stems: seq<string>, rec: seq<Forward>, rev: seq<Reverse>)
    requires GoodTexts(stems, rec) && GoodRows(|stems|, rev) && NoOverreach(stems, rec)
    requires Right(stems, rec, Kept(rev, []))
    ensures ToRemove(stems, rec, rev) == [] && ToAdd(stems, rec, rev) == []
  {
    hide ToRemove, ToAdd, Kept, Answered, AddsRow, Fqdn, IsStem;
    if ToRemove(stems, rec, rev) != [] {
      var id := ToRemove(stems, rec, rev)[0];
      InToRemove(stems, rec, rev, id);
      var k :| 0 <= k < |rev| && rev[k].index < |stems| && !Answered(stems[rev[k].index], rev[k], rec);
      InKept(rev, [], RowOf(rev[k]));
      WantedAnswered(stems[rev[k].index], rec, rev[k]);
      assert false;
    }
    if ToAdd(stems, rec, rev) != [] {
      var row := ToAdd(stems, rec, rev)[0];
      InToAdd(stems, rec, rev, row);
      AddedNotThere(stems, rec, rev, row);
      InKept(rev, [], row);
      assert false;
    }
  }

  lemma WantedAnswered(stem: string, rec: seq<Forward>, r: Reverse)
    requires Wanted(stem, rec, r.host, r.dest)
    ensures Answered(stem, r, rec)
  {
    var k :| 0 <= k < |rec| && stem + r.host == rec[k].dest && r.dest == Fqdn(rec[k]);
    assert Answers(stem, r, rec[k]);
  }

  /** A row that is added is wanted, and not among the rows. */
  lemma AddedNotThere(stems: seq<string>, rec: seq<Forward>, rev: seq<Reverse>, row: Row)
    requires row.index < |stems| && AddsRow(stems[row.index], rec, rev, row.host, row.dest)
    requires NoOverreach(stems, rec) && IsStem(stems[row.index])
    ensures Wanted(stems[row.index], rec, row.host, row.dest)
    ensures forall k :: 0 <= k < |rev| ==> RowOf(rev[k]) != row
  {
    hide Fqdn, CutLast;
    var stem := stems[row.index];
    var k :| 0 <= k < |rec| && Adds(stem, rec[k], rev) && row.host == Rest(rec[k].dest, |stem|)
             && row.dest == Fqdn(rec[k]);
    CutStem(stem, LastHost(rev));
    assert stem <= rec[k].dest;
    assert stem + row.host == rec[k].dest;
    forall l | 0 <= l < |rev| ensures RowOf(rev[l]) != row { assert !Answers(stem, rev[l], rec[k]); }
  }

  // ---- Where a build goes wrong ----------------------------------------------------

  lemma OverreachAt(stems: seq<string>, f: Forward)
    requires |stems| > 1 && stems[1] == "10.0.1." && f.dest == "10.0.10.5"
    ensures Row(1, ".5", Fqdn(f)) in AfterBuild(stems, [f], []) && !Wanted(stems[1], [f], ".5", Fqdn(f))
  {
    hide Fqdn, CutLast, AfterBuild;
    assert Dots("%") == Dots("%"[1..]) == 0;
    CutStem("10.0.1.", "%");
    assert f.dest[..6] == "10.0.1";
    assert Rest(f.dest, 7) == ".5";
    assert Adds(stems[1], [f][0], []);
    InAfter(stems, [f], [], 1, ".5", Fqdn(f));
  }

  /** A host with an address that ends in 5 in each of two sub-zones, and the row of the second: the first gets none. */
  lemma HiddenExample(stems: seq<string>, f: Forward, g: Forward, id: nat)
    requires |stems| == 2 && stems[0] == "10.0.0." && stems[1] == "10.0.1."
    requires f.dest == "10.0.0.5" && g.dest == "10.0.1.5" && Fqdn(f) == Fqdn(g)
    ensures var rev := [Reverse(id, 1, "5", Fqdn(f))];
            && Wanted(stems[0], [f, g], "5", Fqdn(f)) && Row(0, "5", Fqdn(f)) !in AfterBuild(stems, [f, g], rev)
  {
    hide Fqdn, CutLast, AfterBuild;
    var rev := [Reverse(id, 1, "5", Fqdn(f))];
    assert stems[0] + "5" == [f, g][0].dest;
    InAfter(stems, [f, g], rev, 0, "5", Fqdn(f));
    assert Answers(stems[0], rev[0], f);
    assert Dots("5") == Dots("5"[1..]) == 0;
    CutStem("10.0.0.", "5");
    assert !("10.0.0" <= g.dest) by { assert g.dest[5] == '1'; }
    NothingAdded(stems[0], [f, g], rev, "5", Fqdn(f));
  }

  lemma NarrowCut()
    ensures CutLast("10.1." + "3.5") == "10.1.3" && "10.1." + "3.5" == "10.1.3.5"
  {
    assert "10.1.3.5"[7..] == "5" && Dots("5") == Dots("5"[1..]) == 0;
    hide CutLast;
    CutAtDot("10.1.3.5", 6);
    assert "10.1." + "3.5" == "10.1.3.5";
  }

  /** The zone 10.1.0.0/16 with a row of 10.1.3.5: a new record for 10.1.4.7 gets none, because the addresses of all
      records are compared with the text before the last dot, 10.1.3. */
  lemma NarrowExample(f: Forward, g: Forward, id: nat)
    requires f.dest == "10.1.3.5" && g.dest == "10.1.4.7" && Fqdn(f) != Fqdn(g)
    ensures var rev := [Reverse(id, 0, "3.5", Fqdn(f))];
            && Wanted("10.1.", [f, g], "4.7", Fqdn(g)) && Row(0, "4.7", Fqdn(g)) !in AfterBuild(["10.1."], [f, g], rev)
  {
    hide Fqdn, CutLast, AfterBuild, Dots;
    var rev := [Reverse(id, 0, "3.5", Fqdn(f))];
    assert "10.1." + "4.7" == [f, g][1].dest;
    InAfter(["10.1."], [f, g], rev, 0, "4.7", Fqdn(g));
    NarrowCut();
    assert Answers("10.1.", rev[0], f);
    assert !("10.1.3" <= g.dest) by { assert g.dest[5] == '4'; }
    NothingAdded("10.1.", [f, g], rev, "4.7", Fqdn(g));
  }

  /** A record whose address lies in the sub-zone is not added when its name is known by a row with its host. */
  lemma NothingAdded(stem: string, rec: seq<Forward>, rev: seq<Reverse>, host: string, dest: string)
    requires forall k :: 0 <= k < |rec| ==> Known(stem, rec[k], rev) || !(CutLast(stem + LastHost(rev)) <= rec[k].dest)
    ensures !AddsRow(stem, rec, rev, host, dest)
  {
  }
}

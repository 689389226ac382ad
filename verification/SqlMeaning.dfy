/** What INSERT and DELETE statements do, read off their texts, and that the rewritten statements do the same. */
module SqlMeaning {
  import Arithmetic
  import opened Results
  import opened Text
  import opened SqlText

  // ---- Reading a statement --------------------------------------------------

  predicate StartsWith(s: string, t: string) { t <= s }

  /** The number of further parameters at the start of s, and what follows them. */
  function MoreMarks(s: string): (r: (nat, string))
    ensures |r.1| <= |s|
  {
    if StartsWith(s, ", ?") then
      var (n, rest) := MoreMarks(s[3..]); (n + 1, rest)
    else (0, s)
  }

  /** A parameter list at the start of s: how many parameters, and what follows. */
  function ReadMarks(s: string): (r: Option<(nat, string)>)
    ensures r.Some? ==> 1 <= r.value.0 && |r.value.1| < |s|
  {
    if !StartsWith(s, "?") then None
    else var (n, rest) := MoreMarks(s[1..]); Some((n + 1, rest))
  }

  /** A parenthesised parameter list at the start of s. */
  function ReadTuple(s: string): (r: Option<(nat, string)>)
    ensures r.Some? ==> 1 <= r.value.0 && |r.value.1| < |s|
  {
    if !StartsWith(s, "(") then None
    else
      match ReadMarks(s[1..])
      case Some((n, rest)) => if StartsWith(rest, ")") then Some((n, rest[1..])) else None
      case None => None
  }

  /** The tuples of a VALUES list: the number of parameters in each. */
  function ReadTuples(s: string): Option<seq<nat>>
    decreases |s|
  {
    match ReadTuple(s)
    case None => None
    case Some((n, rest)) =>
      if rest == "" then Some([n])
      else if !StartsWith(rest, ", ") then None
      else match ReadTuples(rest[2..])
           case Some(ns) => Some([n] + ns)
           case None => None
  }

  lemma SliceOfRest(s: string, k: nat, n: nat)
    requires s != "" && k + n < |s|
    ensures s[k + 1..k + 1 + n] == s[1..][k..k + n]
  {
    var a, b := s[k + 1..k + 1 + n], s[1..][k..k + n];
    assert forall i :: 0 <= i < n ==> a[i] == b[i];
  }

  /** The first place of t in s. */
  function FirstPlace(s: string, t: string): (r: Option<nat>)
    ensures r.Some? ==> r.value + |t| <= |s| && s[r.value..r.value + |t|] == t
    decreases |s|
  {
    if StartsWith(s, t) then Some(0)
    else if s == "" then None
    else match FirstPlace(s[1..], t)
         case Some(k) => SliceOfRest(s, k, |t|); Some(k + 1)
         case None => None
  }

  const VALUES := " VALUES "

  /** An INSERT: the text that names the table and its columns, and the tuples of its VALUES list. */
  datatype Insert = Insert(into: string, tuples: seq<nat>)

  function ReadInsert(text: string): Option<Insert> {
    match FirstPlace(text, VALUES)
    case None => None
    case Some(k) =>
      match ReadTuples(text[k + |VALUES|..])
      case Some(ns) => Some(Insert(text[..k], ns))
      case None => None
  }

  // ---- What an INSERT does ----------------------------------------------------

  function Sum(ns: seq<nat>): nat {
    if ns == [] then 0 else ns[0] + Sum(ns[1..])
  }

  /** The values, dealt out to the tuples in order. */
  function Deal<V>(ns: seq<nat>, args: seq<V>): seq<seq<V>>
    requires Sum(ns) == |args|
  {
    if ns == [] then [] else [args[..ns[0]]] + Deal(ns[1..], args[ns[0]..])
  }

  /** Executing an INSERT with its parameters bound in order: the rows it adds are tagged with what names their
      table and columns. None stands for an error: no such statement, or the wrong number of parameters. */
  function ExecInsert<V>(table: seq<(string, seq<V>)>, text: string, args: seq<V>): Option<seq<(string, seq<V>)>> {
    match ReadInsert(text)
    case None => None
    case Some(ins) =>
      if Sum(ins.tuples) != |args| then None
      else Some(table + Tagged(ins.into, Deal(ins.tuples, args)))
  }

  function Tagged<V>(into: string, rows: seq<seq<V>>): seq<(string, seq<V>)> {
    if rows == [] then [] else [(into, rows[0])] + Tagged(into, rows[1..])
  }

  /** Executing the single-row statement once for each n values. */
  function ExecSingles<V>(table: seq<(string, seq<V>)>, text: string, n: nat, args: seq<V>)
    : Option<seq<(string, seq<V>)>>
    requires 1 <= n && |args| % n == 0
    decreases |args|
  {
    if args == [] then Some(table)
    else
      Arithmetic.DivisionParts(|args|, n);
      LessARow(|args|, n);
      match ExecInsert(table, text, args[..n])
      case None => None
      case Some(next) => ExecSingles(next, text, n, args[n..])
  }

  lemma LessARow(total: nat, n: nat)
    requires 1 <= n && 0 < total && total % n == 0
    ensures n <= total && (total - n) % n == 0 && (total - n) / n == total / n - 1
  {
    Arithmetic.DivisionParts(total, n);
    var q := total / n;
    assert n * (q - 1) == n * q - n;
    Arithmetic.MulMonotone(1, q, n);
    Arithmetic.DivideExactly(total - n, n, q - 1, 0);
  }

  // ---- Reading the widened INSERT ----------------------------------------------

  lemma {:induction false} ReadMoreMarks(n: nat, rest: string)
    requires rest == "" || rest[0] != ','
    ensures MoreMarks(Repeat(", ?", n) + rest) == (n, rest)
  {
    var s := Repeat(", ?", n) + rest;
    if n == 0 {
      assert s == rest;
    } else {
      assert s == ", ?" + (Repeat(", ?", n - 1) + rest);
      assert s[3..] == Repeat(", ?", n - 1) + rest;
      ReadMoreMarks(n - 1, rest);
    }
  }

  lemma TupleBegins(n: nat, rest: string)
    requires 1 <= n
    ensures Tuple(n) + rest == "(" + ("?" + (Repeat(", ?", n - 1) + (")" + rest)))
  {
    hide Repeat;
  }

  lemma ReadTupleText(n: nat, rest: string)
    requires 1 <= n
    ensures ReadTuple(Tuple(n) + rest) == Some((n, rest))
  {
    var more := Repeat(", ?", n - 1) + (")" + rest);
    TupleBegins(n, rest);
    ReadMoreMarks(n - 1, ")" + rest);
    hide Tuple, Repeat, MoreMarks;
    assert ("(" + ("?" + more))[1..] == "?" + more && ("?" + more)[1..] == more;
    assert (")" + rest)[1..] == rest;
  }

  function Same(n: nat, count: nat): (r: seq<nat>)
    ensures |r| == count && forall i :: 0 <= i < count ==> r[i] == n
  {
    seq(count, i => n)
  }

  lemma {:induction false} ReadWidened(n: nat, rows: nat)
    requires 1 <= n && 1 <= rows
    ensures ReadTuples(Tuple(n) + Repeat(", " + Tuple(n), rows - 1)) == Some(Same(n, rows))
  {
    hide Tuple, ReadTuple;
    var more := Repeat(", " + Tuple(n), rows - 1);
    ReadTupleText(n, more);
    if rows == 1 {
      assert more == "" && Same(n, 1) == [n];
    } else {
      var rest := Tuple(n) + Repeat(", " + Tuple(n), rows - 2);
      assert more == ", " + rest;
      assert more[2..] == rest;
      ReadWidened(n, rows - 1);
      assert Same(n, rows) == [n] + Same(n, rows - 1);
    }
  }

  lemma {:induction false} MoreMarksText(s: string)
    ensures s == Repeat(", ?", MoreMarks(s).0) + MoreMarks(s).1
  {
    if StartsWith(s, ", ?") {
      MoreMarksText(s[3..]);
      var (n, rest) := MoreMarks(s[3..]);
      assert s == ", ?" + s[3..];
      assert ", ?" + (Repeat(", ?", n) + rest) == (", ?" + Repeat(", ?", n)) + rest;
    }
  }

  /** A VALUES list that reads as one tuple is the text of that tuple. */
  lemma OneTupleText(s: string, n: nat)
    requires ReadTuples(s) == Some([n])
    ensures 1 <= n && s == Tuple(n)
  {
    var (m, rest) := ReadTuple(s).value;
    if rest != "" {
      var ns := ReadTuples(rest[2..]).value;
      assert [n][1..] == [] && ([m] + ns)[1..] == ns;
      NoEmptyList(rest[2..]);
      assert false;
    }
    assert [m][0] == [n][0];
    MoreMarksText(s[2..]);
    assert s[1..][1..] == s[2..];
    assert s == "(" + ("?" + (Repeat(", ?", n - 1) + ")"));
  }

  lemma NoEmptyList(s: string)
    ensures ReadTuples(s) != Some([])
  {
  }

  lemma {:induction false} FirstPlaceKept(s: string, t: string, more: string)
    requires FirstPlace(s, t).Some?
    ensures FirstPlace(s + more, t) == FirstPlace(s, t)
    decreases |s|
  {
    if StartsWith(s, t) {
      assert t <= s + more;
    } else {
      assert |s| >= |t| by { var k := FirstPlace(s, t).value; }
      assert !(t <= s + more) by { assert (s + more)[..|t|] == s[..|t|]; }
      assert (s + more)[1..] == s[1..] + more;
      FirstPlaceKept(s[1..], t, more);
    }
  }

  /** The widened text reads as the same insertion, with the tuple repeated. */
  lemma ReadWidenedInsert(single: string, into: string, n: nat, rows: nat)
    requires ReadInsert(single) == Some(Insert(into, [n])) && 1 <= rows
    ensures 1 <= n && ReadInsert(WidenedInsert(single, n, rows)) == Some(Insert(into, Same(n, rows)))
  {
    hide Tuple, ReadTuples, FirstPlace, Repeat, Same;
    var k := FirstPlace(single, VALUES).value;
    var list := single[k + |VALUES|..];
    OneTupleText(list, n);
    var more := Repeat(", " + Tuple(n), rows - 1);
    FirstPlaceKept(single, VALUES, more);
    ReadWidened(n, rows);
    assert (single + more)[k + |VALUES|..] == list + more;
    assert (single + more)[..k] == single[..k];
  }

  lemma {:induction false} SumOfSame(n: nat, rows: nat)
    ensures Sum(Same(n, rows)) == rows * n
  {
    if rows > 0 {
      assert Same(n, rows)[1..] == Same(n, rows - 1);
      SumOfSame(n, rows - 1);
      Distribute(rows - 1, n);
    }
  }

  /** Dealing whole rows: the first n values, then the rest. */
  lemma DealSame<V>(n: nat, rows: nat, args: seq<V>)
    requires 1 <= n && 1 <= rows && |args| == rows * n
    ensures n <= |args| && |args[n..]| == (rows - 1) * n
    ensures Sum(Same(n, rows)) == |args| && Sum(Same(n, rows - 1)) == |args[n..]|
    ensures Deal(Same(n, rows), args) == [args[..n]] + Deal(Same(n, rows - 1), args[n..])
  {
    SumOfSame(n, rows);
    SumOfSame(n, rows - 1);
    Distribute(rows - 1, n);
    Arithmetic.MulMonotone(1, rows, n);
    assert Same(n, rows)[1..] == Same(n, rows - 1);
  }

  lemma TaggedFirst<V>(into: string, row: seq<V>, rows: seq<seq<V>>)
    ensures Tagged(into, [row] + rows) == [(into, row)] + Tagged(into, rows)
  {
    assert ([row] + rows)[1..] == rows;
  }

  lemma ExecSingle<V>(table: seq<(string, seq<V>)>, single: string, into: string, n: nat, row: seq<V>)
    requires ReadInsert(single) == Some(Insert(into, [n])) && |row| == n
    ensures ExecInsert(table, single, row) == Some(table + [(into, row)])
  {
    assert [n][1..] == [] && Sum([n]) == n;
    assert Deal([n], row) == [row] by { assert row[..n] == row && row[n..] == []; }
    assert Tagged(into, [row]) == [(into, row)] by { assert [row][1..] == []; }
  }

  /** Single insertions add one row for each n values. */
  lemma {:induction false} ExecSinglesRows<V>(table: seq<(string, seq<V>)>, single: string, into: string, n: nat,
                                              rows: nat, args: seq<V>)
    requires ReadInsert(single) == Some(Insert(into, [n])) && 1 <= n && |args| == rows * n && |args| % n == 0
    ensures Sum(Same(n, rows)) == |args|
    ensures ExecSingles(table, single, n, args) == Some(table + Tagged(into, Deal(Same(n, rows), args)))
    decreases rows
  {
    hide ReadInsert, ExecInsert, Tagged, Deal, Sum, Same;
    SumOfSame(n, rows);
    if rows == 0 {
      NothingToDeal<V>(into, n);
      assert table + [] == table;
    } else {
      DealSame(n, rows, args);
      ExecSingle(table, single, into, n, args[..n]);
      LessARow(|args|, n);
      var next := table + [(into, args[..n])];
      ExecSinglesRows(next, single, into, n, rows - 1, args[n..]);
      var rest := Deal(Same(n, rows - 1), args[n..]);
      TaggedFirst(into, args[..n], rest);
      JoinThree(table, [(into, args[..n])], Tagged(into, rest));
    }
  }

  lemma NothingToDeal<V>(into: string, n: nat)
    ensures Sum(Same(n, 0)) == 0 && Tagged<V>(into, Deal(Same(n, 0), [])) == []
  {
  }

  /** The widened statement with all values bound in order inserts the same rows, in the same order, as the
      single-row statement run once for each n values. */
  lemma WideningKeepsMeaning<V>(table: seq<(string, seq<V>)>, single: string, into: string, n: nat, args: seq<V>)
    requires ReadInsert(single) == Some(Insert(into, [n])) && 1 <= n <= |args| && |args| % n == 0
    ensures 1 <= |args| / n
    ensures ExecInsert(table, WidenedInsert(single, n, |args| / n), args) == ExecSingles(table, single, n, args)
            != None
  {
    WholeRows(|args|, n);
    var rows := |args| / n;
    ReadWidenedInsert(single, into, n, rows);
    ExecSinglesRows(table, single, into, n, rows, args);
  }

  /** Values that do not make up whole rows are refused: the widened statement has fewer parameters. */
  lemma PartRowsRefused<V>(table: seq<(string, seq<V>)>, single: string, into: string, n: nat, args: seq<V>)
    requires ReadInsert(single) == Some(Insert(into, [n])) && 1 <= n <= |args|
    ensures 1 <= |args| / n
    ensures ExecInsert(table, WidenedInsert(single, n, |args| / n), args) == None <==> |args| % n != 0
  {
    WholeRows(|args|, n);
    ReadWidenedInsert(single, into, n, |args| / n);
    SumOfSame(n, |args| / n);
  }
}

/** What a DELETE with one condition does, read off its text, and that the rewritten statement does the same as
    the single ones. */
module SqlDeletion {
  import opened Results
  import opened Text
  import opened SqlText
  import opened SqlMeaning

  /** A DELETE of the rows whose column is one of the parameters; the head names the table and the column. */
  datatype Deletion = Deletion(head: string, marks: nat)

  const EQUALS := "= ?"
  const IN_LIST := "IN ("

  predicate EndsWith(s: string, t: string) { |t| <= |s| && s[|s| - |t|..] == t }

  /** The last place of t in s. */
  function LastPlace(s: string, t: string): (r: Option<nat>)
    ensures r.Some? ==> r.value + |t| <= |s| && s[r.value..r.value + |t|] == t
    decreases |s|
  {
    if EndsWith(s, t) then Some(|s| - |t|)
    else if s == "" then None
    else match LastPlace(s[..|s| - 1], t)
         case Some(k) => assert s[k..k + |t|] == s[..|s| - 1][k..k + |t|]; Some(k)
         case None => None
  }

  function ReadDelete(text: string): Option<Deletion> {
    if EndsWith(text, EQUALS) then Some(Deletion(text[..|text| - |EQUALS|], 1))
    else
      match LastPlace(text, IN_LIST)
      case None => None
      case Some(k) =>
        match ReadMarks(text[k + |IN_LIST|..])
        case Some((n, rest)) => if rest == ")" then Some(Deletion(text[..k], n)) else None
        case None => None
  }

  /** The rows whose value is not among the parameters. */
  function Keep<Row, V(==)>(table: seq<Row>, column: Row -> V, args: seq<V>): seq<Row> {
    if table == [] then []
    else (if column(table[0]) in args then [] else [table[0]]) + Keep(table[1..], column, args)
  }

  /** Executing a DELETE with its parameters bound in order. columns gives the value of a row in the column that a
      head names. None stands for an error. */
  function ExecDelete<Row, V(==)>(table: seq<Row>, columns: string -> Row -> V, text: string, args: seq<V>)
    : Option<seq<Row>>
  {
    match ReadDelete(text)
    case None => None
    case Some(d) => if d.marks != |args| then None else Some(Keep(table, columns(d.head), args))
  }

  /** Executing the single-argument statement once for each argument, in order. */
  function ExecEach<Row, V(==)>(table: seq<Row>, columns: string -> Row -> V, text: string, args: seq<V>)
    : Option<seq<Row>>
    decreases |args|
  {
    if args == [] then Some(table)
    else match ExecDelete(table, columns, text, args[..1])
         case None => None
         case Some(next) => ExecEach(next, columns, text, args[1..])
  }

  // ---- Reading the rewritten text -------------------------------------------

  lemma EndsDiffer(s: string, t: string)
    requires s != "" && t != "" && s[|s| - 1] != t[|t| - 1]
    ensures !EndsWith(s, t)
  {
    if |t| <= |s| { assert s[|s| - |t|..][|t| - 1] == s[|s| - 1]; }
  }

  /** Text without t's last character does not move the last place of t. */
  lemma {:induction false} LastPlaceBehind(s: string, t: string, more: string)
    requires t != "" && EndsWith(s, t)
    requires forall i :: 0 <= i < |more| ==> more[i] != t[|t| - 1]
    ensures LastPlace(s + more, t) == Some(|s| - |t|)
    decreases |more|
  {
    var all := s + more;
    if more == "" {
      assert all == s;
    } else {
      var n := |all| - 1;
      assert all[n] == more[|more| - 1];
      EndsDiffer(all, t);
      assert all[..n] == s + more[..|more| - 1];
      LastPlaceBehind(s, t, more[..|more| - 1]);
    }
  }

  lemma {:induction false} ListCharacters(n: nat)
    ensures forall i :: 0 <= i < |Repeat(", ?", n)| ==> Repeat(", ?", n)[i] != '('
  {
    if n > 0 { ListCharacters(n - 1); }
  }

  /** A parameter list and what closes it read as such, and have no opening bracket. */
  lemma ReadListEnd(total: nat)
    requires 1 <= total
    ensures var more := MarkList(total) + ")";
            && ReadMarks(more) == Some((total, ")")) && (forall i :: 0 <= i < |more| ==> more[i] != '(')
            && more[|more| - 1] == ')'
  {
    var more, list := MarkList(total) + ")", Repeat(", ?", total - 1);
    ListCharacters(total - 1);
    ReadMoreMarks(total - 1, ")");
    assert more == "?" + (list + ")") && more[1..] == list + ")";
    hide Repeat, MoreMarks;
  }

  /** The rewritten text reads as the same deletion, with more parameters. */
  lemma ReadWidenedDelete(head: string, total: nat)
    requires 1 <= total
    ensures ReadDelete(WidenedDelete(head, total)) == Some(Deletion(head, total))
  {
    var text, more := WidenedDelete(head, total), MarkList(total) + ")";
    hide MarkList, LastPlace, Repeat, ReadMarks;
    ReadListEnd(total);
    assert text == (head + IN_LIST) + more;
    assert (head + IN_LIST)[|head|..] == IN_LIST;
    LastPlaceBehind(head + IN_LIST, IN_LIST, more);
    assert text[|head| + 4..] == more && text[..|head|] == head;
    EndsDiffer(text, EQUALS);
  }

  lemma ReadSingleDelete(head: string)
    ensures ReadDelete(head + EQUALS) == Some(Deletion(head, 1))
  {
    var text := head + EQUALS;
    assert text[|text| - |EQUALS|..] == EQUALS && text[..|text| - |EQUALS|] == head;
  }

  // ---- The same table ---------------------------------------------------------

  lemma {:induction false} KeepNone<Row, V>(table: seq<Row>, column: Row -> V)
    ensures Keep(table, column, []) == table
  {
    if table != [] {
      KeepNone(table[1..], column);
      assert [table[0]] + table[1..] == table;
    }
  }

  /** Deleting for some arguments and then for others deletes for all of them. */
  lemma {:induction false} KeepTwice<Row, V>(table: seq<Row>, column: Row -> V, a: seq<V>, b: seq<V>)
    ensures Keep(Keep(table, column, a), column, b) == Keep(table, column, a + b)
  {
    if table != [] {
      var row, rest := table[0], Keep(table[1..], column, a);
      KeepTwice(table[1..], column, a, b);
      assert column(row) in a + b <==> column(row) in a || column(row) in b;
      if column(row) in a {
        assert [] + rest == rest;
      } else {
        assert ([row] + rest)[1..] == rest;
      }
    }
  }

  lemma {:induction false} EachKeeps<Row, V>(table: seq<Row>, columns: string -> Row -> V, head: string,
                                                 args: seq<V>)
    ensures ExecEach(table, columns, head + EQUALS, args) == Some(Keep(table, columns(head), args))
    decreases |args|
  {
    if args == [] {
      KeepNone(table, columns(head));
    } else {
      ReadSingleDelete(head);
      hide ReadDelete;
      EachKeeps(Keep(table, columns(head), args[..1]), columns, head, args[1..]);
      KeepTwice(table, columns(head), args[..1], args[1..]);
      assert args[..1] + args[1..] == args;
    }
  }

  /** Only which arguments there are matters, not their order. */
  lemma {:induction false} KeepByMembers<Row, V>(table: seq<Row>, column: Row -> V, a: seq<V>, b: seq<V>)
    requires forall v :: v in a <==> v in b
    ensures Keep(table, column, a) == Keep(table, column, b)
  {
    if table != [] { KeepByMembers(table[1..], column, a, b); }
  }

  /** The rewritten deletion with all arguments bound leaves the same table as running the single deletion once
      for each argument, in any order. */
  lemma WidenedDeleteKeepsMeaning<Row, V>(table: seq<Row>, columns: string -> Row -> V, head: string,
                                              args: seq<V>, order: seq<V>)
    requires args != [] && multiset(order) == multiset(args)
    ensures ExecDelete(table, columns, WidenedDelete(head, |args|), args)
            == ExecEach(table, columns, head + EQUALS, order) != None
  {
    ReadWidenedDelete(head, |args|);
    EachKeeps(table, columns, head, order);
    forall v ensures v in args <==> v in order {
      assert v in args <==> v in multiset(args);
      assert v in order <==> v in multiset(order);
    }
    KeepByMembers(table, columns(head), args, order);
  }
}

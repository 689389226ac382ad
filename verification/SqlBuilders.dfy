/** The string building behind multi-row inserts and deletes, in buffers of exactly computed sizes. */
module SqlBuilders {
  import Arithmetic
  import opened Results
  import opened Text
  import opened CString
  import opened LinkedList
  import opened DataElements
  import opened SqlText
  import opened SqlMeaning
  import opened SqlDeletion

  /** ailsa_sql_query_s: a statement, how many parameters it has, and their types. */
  datatype Query = Query(text: string, number: nat, fields: seq<FieldType>)

  /** cmdb_create_value_string: a comma and one more tuple, in a buffer with no byte to spare. */
  method CreateValueString(count: nat) returns (value: array<char>)
    requires 1 <= count
    ensures fresh(value) && HoldsText(value[..]) && Str(value[..]) == ", " + Tuple(count)
  {
    hide Repeat, NoNul, Tuple, MarkList, HoldsText, StrLen;
    value := new char[count * 3 + 4](_ => '\0');
    EmptyText(value[..]);
    NoNulMarks(", (", 0);
    PutEnd(value, "", 0, ", (");
    ghost var text := ", (" + Repeat("?, ", 0);
    NoRepeat("?, ", ", (");
    var i := 0;
    while i < count
      invariant 0 <= i <= count && HoldsText(value[..]) && Str(value[..]) == text && |text| == 3 + 3 * i
      invariant text == ", (" + Repeat("?, ", i)
    {
      var len := StrLen(value[..]);
      NoNulMarks(", (", i);
      MarkAppended(", (", i);
      PutEnd(value, text, len, "?, ");
      text := ", (" + Repeat("?, ", i + 1);
      i := i + 1;
    }
    var len := StrLen(value[..]);
    ValueStringCut(count);
    NoNulMarks(", (", count);
    PutEnd(value, text, len - 2, ")");
  }

  /** One more mark, with a comma behind it, at the end of the text. */
  lemma MarkAppended(start: string, i: nat)
    ensures var text := start + Repeat("?, ", i);
            && text[..|text|] + "?, " == start + Repeat("?, ", i + 1)
            && |start + Repeat("?, ", i + 1)| == |text| + 3
  {
    RepeatBack("?, ", i);
    JoinThree(start, Repeat("?, ", i), "?, ");
  }

  lemma ValueStringCut(count: nat)
    requires 1 <= count
    ensures var s := ", (" + Repeat("?, ", count);
            2 <= |s| && s[..|s| - 2] + ")" == ", " + Tuple(count) && NoNul(s)
  {
    MarksWithoutComma(count);
    var s := ", (" + Repeat("?, ", count);
    assert s == ", (" + MarkList(count) + ", ";
    assert s[..|s| - 2] == ", (" + MarkList(count);
    NoNulRepeat("?, ", count);
  }

  lemma {:induction false} NoNulRepeat(t: string, n: nat)
    requires NoNul(t)
    ensures NoNul(Repeat(t, n))
  {
    if n > 0 { NoNulRepeat(t, n - 1); }
  }

  /** cmdb_insert_fields_array: the types of one row, repeated for each whole row. */
  method InsertFieldsArray(n: nat, total: nat, f: seq<FieldType>) returns (m: array<FieldType>)
    requires 1 <= n <= |f|
    ensures fresh(m) && m.Length == total
    ensures forall k :: 0 <= k < total ==> m[k] == if k < total / n * n then f[k % n] else DbNull
  {
    hide ColumnOf;
    m := new FieldType[total](_ => DbNull);
    var u := total / n;
    for i := 0 to u
      invariant FilledTo(m[..], f, n, i * n)
    {
      RowInside(i, n, total);
      var row := i * n;
      for j := 0 to n
        invariant FilledTo(m[..], f, n, row + j)
      {
        ColumnIs(i, n, j);
        ghost var was := m[..];
        m[row + j] := f[j];
        assert m[..] == was[row + j := f[j]];
      }
    }
    FilledColumns(m[..], f, n, u * n);
  }

  /** The column of the k-th value of rows of n. */
  function ColumnOf(k: nat, n: nat): (c: nat)
    requires 0 < n
    ensures c < n
  {
    k % n
  }

  lemma ColumnIs(i: nat, n: nat, j: nat)
    requires j < n
    ensures ColumnOf(i * n + j, n) == j
  {
    Arithmetic.DivideExactly(i * n + j, n, i, j);
  }

  lemma RowInside(i: nat, n: nat, total: nat)
    requires 0 < n && i < total / n
    ensures i * n + n <= total && (i + 1) * n == i * n + n
  {
    Distribute(i, n);
    Arithmetic.DivisionParts(total, n);
    Arithmetic.MulMonotone(i + 1, total / n, n);
  }

  /** The types up to place p are those of their columns, and the rest is unset. */
  predicate FilledTo(m: seq<FieldType>, f: seq<FieldType>, n: nat, p: nat)
    requires 1 <= n <= |f|
  {
    forall k :: 0 <= k < |m| ==> m[k] == if k < p then f[ColumnOf(k, n)] else DbNull
  }

  lemma FilledColumns(m: seq<FieldType>, f: seq<FieldType>, n: nat, p: nat)
    requires 1 <= n <= |f| && FilledTo(m, f, n, p)
    ensures forall k :: 0 <= k < |m| ==> m[k] == if k < p then f[k % n] else DbNull
  {
  }

  /** The buffer cmdb_create_multi allocates holds the widened text and its NUL exactly when there is at least one
      whole row of values. */
  lemma WidenedInsertFits(single: string, n: nat, total: nat)
    requires 1 <= n
    ensures var rows := total / n;
            |single| + (if rows == 0 then 0 else (rows - 1) * |", " + Tuple(n)|) + 1
            <= |", " + Tuple(n)| * rows + |single|
            <==> n <= total
  {
    MarksOfTuple(n);
    Arithmetic.DivisionParts(total, n);
    if n <= total {
      WholeRows(total, n);
      Distribute(total / n - 1, |", " + Tuple(n)|);
    } else {
      Arithmetic.DivideExactly(total, n, 0, total);
    }
  }

  /** One value for two columns: the text itself takes all of the allocation, and its NUL one byte more. */
  lemma WidenedInsertOverrun()
    ensures var single := "INSERT INTO t (a, b) VALUES (?, ?)";
            && |single| == 34 && 1 / 2 == 0 && |", " + Tuple(2)| * 0 + |single| == 34 < |single| + 1
  {
  }

  /** cmdb_create_multi: with fewer values than one row its buffer is one byte short, so there must be a row. */
  method CreateMulti(query: Query, total: nat) returns (r: Result<()>, q: array<char>, fields: array<FieldType>)
    requires 1 <= query.number <= |query.fields| && NoNul(query.text)
    requires total == 0 || query.number <= total
    ensures r == if total == 0 then Err(NoData) else Ok(())
    ensures r.Ok? ==> 1 <= total / query.number && fresh(q) && HoldsText(q[..])
                      && Str(q[..]) == WidenedInsert(query.text, query.number, total / query.number)
    ensures r.Ok? ==> fields.Length == total
                      && forall k :: 0 <= k < total ==>
                           fields[k] == if k < total / query.number * query.number
                                        then query.fields[k % query.number] else DbNull
  {
    if total == 0 {
      q, fields := new char[0], new FieldType[0];
      return Err(NoData), q, fields;
    }
    var n := query.number;
    var values := CreateValueString(n);
    var value := Str(values[..]);
    WholeRows(total, n);
    q := WriteRows(query.text, value, total / n);
    fields := InsertFieldsArray(n, total, query.fields);
    r := Ok(());
  }

  /** There is room for one more row, and its NUL, while there are rows to come. */
  lemma RowHasRoom(text: string, value: string, i: nat, rows: nat)
    requires NoNul(text) && NoNul(value) && 1 <= |value| && 1 <= i < rows
    ensures |text + Repeat(value, i - 1)| + |value| < |value| * rows + |text| && NoNul(text + Repeat(value, i - 1))
    ensures text + Repeat(value, i - 1) + value == text + Repeat(value, i)
    ensures (text + Repeat(value, i - 1))[..|text + Repeat(value, i - 1)|] == text + Repeat(value, i - 1)
  {
    hide Repeat, NoNul;
    RepeatLength(value, i - 1);
    Distribute(i - 1, |value|);
    Arithmetic.MulMonotone(i + 1, rows, |value|);
    Distribute(i, |value|);
    RepeatBack(value, i - 1);
    JoinThree(text, Repeat(value, i - 1), value);
    NoNulAppend(text, value, i - 1);
  }

  /** The buffer of cmdb_create_multi, filled at moving offsets. */
  method WriteRows(text: string, value: string, rows: nat) returns (q: array<char>)
    requires NoNul(text) && NoNul(value) && 1 <= |value| && 1 <= rows
    ensures fresh(q) && HoldsText(q[..]) && Str(q[..]) == text + Repeat(value, rows - 1)
  {
    hide Repeat, NoNul;
    NoRepeat(value, text);
    Arithmetic.MulMonotone(1, rows, |value|);
    q := new char[|value| * rows + |text|](_ => '\0');
    EmptyText(q[..]);
    PutEnd(q, "", 0, text);
    var at := |text|;
    for i := 1 to rows
      invariant HoldsText(q[..]) && Str(q[..]) == text + Repeat(value, i - 1)
      invariant at == |Str(q[..])|
    {
      RowHasRoom(text, value, i, rows);
      PutEnd(q, Str(q[..]), at, value);
      at := at + |value|;
    }
  }

  /** The buffer cmdb_create_delete_multi allocates holds the parameters while each is still followed by a comma,
      and their NUL, exactly when something follows the '=' at place p of the statement. */
  lemma WidenedDeleteFits(text: string, p: nat, total: nat)
    requires p < |text|
    ensures |text[..p] + "IN (" + Repeat("?, ", total)| + 1 <= total * 3 + 3 + |text| <==> p + 1 < |text|
  {
    RepeatLength("?, ", total);
  }

  /** One argument for a statement that ends in '=': the allocation has 30 bytes, and 31 are written. */
  lemma WidenedDeleteOverrun()
    ensures var text := "DELETE FROM t WHERE id =";
            && |text| == 24 && text[23] == '=' && 1 * 3 + 3 + |text| == 30
            && |text[..23] + "IN (" + Repeat("?, ", 1)| + 1 == 31
  {
    assert Repeat("?, ", 1) == "?, " + Repeat("?, ", 0);
  }

  /** cmdb_create_delete_multi: the text from the last '=' on gives way to an IN list. A statement that ends with
      '=' would overrun the buffer by one byte. */
  method CreateDeleteMulti(query: Query, total: nat)
    returns (r: Result<()>, q: array<char>, fields: array<FieldType>)
    requires NoNul(query.text) && (query.number == 1 ==> 1 <= |query.fields|)
    requires query.text == "" || query.text[|query.text| - 1] != '='
    ensures total == 0 ==> r == Err(NoData)
    ensures total != 0 && query.number != 1 ==> r == Err(WrongListLength)
    ensures total != 0 && query.number == 1 ==> (r == if '=' in query.text then Ok(()) else Err(QueryFail))
    ensures r.Ok? ==>
              exists p :: 0 <= p && LastAt(query.text, '=', Some(p)) && fresh(q) && HoldsText(q[..])
                          && Str(q[..]) == WidenedDelete(query.text[..p], total)
    ensures r.Ok? ==> fields.Length == total && forall k :: 0 <= k < total ==> fields[k] == query.fields[0]
  {
    hide HoldsText, Str, NoNul, WidenedDelete, LastAt;
    q, fields := new char[0], new FieldType[0];
    if total == 0 {
      return Err(NoData), q, fields;
    }
    if query.number != 1 {
      return Err(WrongListLength), q, fields;
    }
    var text := query.text;
    q := new char[total * 3 + 3 + |text|](_ => '\0');
    EmptyText(q[..]);
    PutEnd(q, "", 0, text);
    assert "" + text == text && ""[..0] == "";
    var tmp := StrRChr(q, '=');
    LastEquals(text, tmp);
    if tmp.None? {
      return Err(QueryFail), q, fields;
    }
    var p := tmp.value;
    NoNulHead(text[..p]);
    PutEnd(q, text, p, "IN (");
    fields := WriteMarks(q, text[..p], total, query.fields[0]);
    r := Ok(());
  }

  /** The loop of cmdb_create_delete_multi. */
  method WriteMarks(q: array<char>, head: string, total: nat, field: FieldType) returns (fields: array<FieldType>)
    requires HoldsText(q[..]) && Str(q[..]) == head + "IN (" && NoNul(head) && 1 <= total
    requires |head| + 4 + total * 3 < q.Length
    modifies q
    ensures HoldsText(q[..]) && Str(q[..]) == WidenedDelete(head, total)
    ensures fields.Length == total && forall k :: 0 <= k < total ==> fields[k] == field
  {
    hide Repeat, MarkList, NoNul, HoldsText, Str, WidenedDelete;
    NoRepeat("?, ", head + "IN (");
    fields := new FieldType[total](_ => DbNull);
    var tmp := |head| + 4;
    var start := head + "IN (";
    assert NoNul(start) by { NoNulHead(head); }
    var i := 0;
    while i < total
      invariant 0 <= i <= total && HoldsText(q[..]) && Str(q[..]) == start + Repeat("?, ", i)
      invariant tmp == |head| + 4 + 3 * i == |start + Repeat("?, ", i)|
      invariant forall k :: 0 <= k < i ==> fields[k] == field
    {
      NoNulMarks(start, i);
      MarkAppended(start, i);
      PutEnd(q, start + Repeat("?, ", i), tmp, "?, ");
      tmp := tmp + 3;
      fields[i] := field;
      i := i + 1;
    }
    NoNulMarks(start, total);
    MarksCut(start, total);
    WidenedDeleteIs(head, total);
    PutEnd(q, start + Repeat("?, ", total), tmp - 2, ")");
  }

  lemma WidenedDeleteIs(head: string, total: nat)
    requires 1 <= total
    ensures WidenedDelete(head, total) == head + "IN (" + MarkList(total) + ")"
  {
    hide MarkList;
  }

  lemma EmptyText(s: seq<char>)
    requires s != [] && s[0] == '\0'
    ensures HoldsText(s) && Str(s) == "" && NoNul("")
  {
    StrIs(s, "");
  }

  lemma NoNulAppend(text: string, value: string, n: nat)
    requires NoNul(text) && NoNul(value)
    ensures NoNul(text + Repeat(value, n))
  {
    NoNulRepeat(value, n);
  }

  /** What finding the last '=' of a text without a NUL means. */
  lemma LastEquals(text: string, p: Option<nat>)
    requires LastAt(text, '=', p) && NoNul(text)
    ensures p.Some? <==> '=' in text
    ensures p.Some? ==> p.value < |text| && text[p.value] == '=' && NoNul(text[..p.value])
  {
  }

  lemma NoNulHead(head: string)
    requires NoNul(head)
    ensures NoNul(head + "IN (")
  {
  }

  lemma NoRepeat(t: string, s: string)
    ensures s + Repeat(t, 0) == s
  {
  }

  lemma NoNulMarks(start: string, n: nat)
    ensures NoNul("?, ") && NoNul(")") && NoNul(", (")
    ensures NoNul(start) ==> NoNul(start + Repeat("?, ", n))
  {
    NoNulRepeat("?, ", n);
  }

  lemma MarksCut(start: string, total: nat)
    requires 1 <= total
    ensures var s := start + Repeat("?, ", total); 2 <= |s| && s[..|s| - 2] == start + MarkList(total)
  {
    MarksWithoutComma(total);
    assert start + (MarkList(total) + ", ") == (start + MarkList(total)) + ", ";
  }

  // ---- Binding ----------------------------------------------------------------

  predicate Known(f: FieldType) { f == DbText || f == DbLint || f == DbSint || f == DbFloat }

  /** ailsa_bind_arguments_sqlite: the i-th value of the list becomes the i-th parameter. */
  method BindArguments(args: List<Datum>, t: nat, f: array<FieldType>) returns (r: Result<()>, params: seq<Datum>)
    requires args.Valid() && t <= f.Length
    ensures r.Ok? <==> t <= |args.vals| && forall i :: 0 <= i < t ==> Known(f[i])
    ensures r.Ok? ==> params == args.vals[..t]
    ensures r.Ok? <==> t <= |args.vals| && forall i :: 0 <= i < t ==> f[i] in {DbText, DbLint, DbSint, DbFloat}
    ensures (forall i :: 0 <= i < t ==> Known(f[i])) && |args.vals| < t ==> r == Err(WrongListLength)
    ensures r.Err? ==> r.error == WrongListLength || r.error == InvalidDbType
  {
    params := [];
    var tmp := args.head;
    var i := 0;
    while i < t
      invariant 0 <= i <= t && i <= |args.vals| && params == args.vals[..i]
      invariant tmp == if i < |args.nodes| then args.nodes[i] else null
      invariant forall j :: 0 <= j < i ==> Known(f[j])
    {
      if tmp == null {
        return Err(WrongListLength), params;
      }
      args.DataOf(i);
      if !Known(f[i]) {
        return Err(InvalidDbType), params;
      }
      params := params + [tmp.data];
      args.IndexUnique(tmp, i);
      args.Neighbours(tmp);
      tmp := tmp.next;
      i := i + 1;
    }
    r := Ok(());
  }

  /** ailsa_multiple_query on an INSERT: build the widened statement, bind the whole list, execute. The table ends
      as if the single-row statement had been executed once for each row of values. */
  method MultipleInsert(table: seq<(string, seq<Datum>)>, query: Query, ghost into: string, insert: List<Datum>)
    returns (r: Option<seq<(string, seq<Datum>)>>)
    requires insert.Valid() && 1 <= query.number <= |query.fields| && NoNul(query.text)
    requires query.number <= |insert.vals| && ReadInsert(query.text) == Some(Insert(into, [query.number]))
    requires forall j :: 0 <= j < query.number ==> Known(query.fields[j])
    ensures |insert.vals| % query.number == 0 ==>
              r == ExecSingles(table, query.text, query.number, insert.vals) && r.Some?
    ensures |insert.vals| % query.number != 0 ==> r == None
  {
    hide Chain, Distinct, ClosedChain, WidenedInsert, ExecInsert, ExecSingles, ReadInsert, Str, HoldsText, NoNul;
    var n, total := query.number, insert.total;
    var s, q, fields := CreateMulti(query, total);
    var bound, params := BindArguments(insert, total, fields);
    WholeRows(total, n);
    PartRowsRefused(table, query.text, into, n, insert.vals);
    if bound.Err? {
      return None;
    }
    assert params == insert.vals;
    r := ExecInsert(table, Str(q[..]), params);
    if total % n == 0 {
      WideningKeepsMeaning(table, query.text, into, n, insert.vals);
    }
  }

  lemma EqualsAtHead(text: string, head: string)
    requires text == head + EQUALS
    ensures '=' in text && text[|text| - 1] != '=' && text[..|head|] == head
    ensures forall p :: 0 <= p && LastAt(text, '=', Some(p)) ==> p == |head|
  {
    assert text[|text| - 1] == '?' && text[|head|] == '=' && text[|head| + 1] == ' ';
  }

  /** ailsa_multiple_delete: the table ends as if the single deletion had been executed once for each value, in any
      order. */
  method MultipleDelete<Row>(table: seq<Row>, columns: string -> Row -> Datum, query: Query, head: string,
                             del: List<Datum>, ghost order: seq<Datum>) returns (r: Option<seq<Row>>)
    requires del.Valid() && del.vals != [] && query.number == 1 && 1 <= |query.fields| && Known(query.fields[0])
    requires NoNul(query.text) && query.text == head + EQUALS
    requires multiset(order) == multiset(del.vals)
    ensures r == ExecEach(table, columns, query.text, order) && r.Some?
  {
    hide Chain, Distinct, ClosedChain, WidenedDelete, ExecDelete, ExecEach;
    EqualsAtHead(query.text, head);
    var s, q, fields := CreateDeleteMulti(query, del.total);
    ghost var p :| 0 <= p && LastAt(query.text, '=', Some(p))
                   && Str(q[..]) == WidenedDelete(query.text[..p], del.total);
    assert p == |head|;
    var bound, params := BindArguments(del, del.total, fields);
    assert params == del.vals;
    r := ExecDelete(table, columns, Str(q[..]), params);
    WidenedDeleteKeepsMeaning(table, columns, head, del.vals, order);
  }
}

/** The older builder of INSERT statements, which grows its buffer as it writes and works out the buffer's size
    again from the length of the text. */
module OldSqlBuilder {
  import opened Arithmetic
  import opened Results
  import opened Text
  import opened CString
  import opened SqlText
  import opened SqlMeaning

  const THIS_SQL_MAX: nat := 2097152

  ghost predicate IsPower(n: nat) { exists k: nat :: n == Pow2(k) }

  /** get_size_from_len: the least power of two above a length, by shifting. */
  method GetSizeFromLen(len: nat) returns (size: nat)
    ensures len == 0 ==> size == 0
    ensures len > 0 ==> IsPower(size) && size <= 2 * len < 2 * size
  {
    if len == 0 {
      return 0;
    }
    size := 1;
    var rest := len;
    ghost var k := 0;
    assert Pow2(0) == 1;
    while rest / 2 != 0
      invariant 1 <= rest && size == Pow2(k) && size * rest <= len < size * (rest + 1)
      decreases rest
    {
      HalfStep(size, rest, len);
      rest := rest / 2;
      size := size * 2;
      k := k + 1;
    }
    rest := 1;
    assert Pow2(k + 1) == size * 2;
    size := size * 2;
  }

  lemma HalfStep(size: nat, rest: nat, len: nat)
    requires size * rest <= len < size * (rest + 1)
    ensures size * 2 * (rest / 2) <= len < size * 2 * (rest / 2 + 1)
  {
    var h := rest / 2;
    MulMonotone(2 * h, rest, size);
    MulMonotone(rest + 1, 2 * h + 2, size);
    assert size * 2 * h == size * (2 * h) && size * 2 * (h + 1) == size * (2 * h + 2);
  }

  /** No power of two above the length is smaller than the one worked out from it. */
  lemma SizeIsLeast(len: nat, size: nat, capacity: nat)
    requires 0 < len && IsPower(size) && size <= 2 * len < 2 * size
    requires IsPower(capacity) && len < capacity
    ensures size <= capacity
  {
    var j: nat :| size == Pow2(j);
    var k: nat :| capacity == Pow2(k);
    assert j > 0 ==> Pow2(j) == 2 * Pow2(j - 1);
    if k < j {
      Pow2Monotone(k, j - 1);
    } else {
      Pow2Monotone(j, k);
    }
  }

  /** realloc: what fits of the old buffer is kept. */
  method Reallocate(buf: array<char>, size: nat) returns (r: array<char>)
    ensures fresh(r) && r.Length == size
    ensures forall i :: 0 <= i < size && i < buf.Length ==> r[i] == buf[i]
  {
    r := new char[size](i requires 0 <= i reads buf => if i < buf.Length then buf[i] else '\0');
  }

  /** check_for_resize: double once when the wanted length is not below the size. The new buffer has exactly the
      doubled size, whatever the real capacity was. */
  method CheckForResize(buf: array<char>, size: nat, len: nat) returns (buf': array<char>, size': nat)
    requires HoldsText(buf[..]) && |Str(buf[..])| < size <= buf.Length
    ensures HoldsText(buf'[..]) && Str(buf'[..]) == Str(buf[..]) && size <= size' <= buf'.Length
    ensures buf' == buf || fresh(buf')
    ensures len < 2 * size ==> len < size'
    ensures size' == if len < size then size else 2 * size
    ensures if len < size then buf' == buf else fresh(buf') && buf'.Length == size'
  {
    buf', size' := buf, size;
    if len >= size {
      size' := 2 * size;
      buf' := Reallocate(buf, size');
      StrIs(buf'[..], Str(buf[..]));
    }
  }

  /** A buffer that holds a text, known to be at least size bytes long. */
  ghost predicate Holds(buf: array<char>, size: nat, text: string)
    reads buf
  {
    4 <= size <= buf.Length && HoldsText(buf[..]) && Str(buf[..]) == text && |text| < size && NoNul(text)
  }

  /** The size is a power of two and so is the buffer's real length. */
  ghost predicate Powers(buf: array<char>, size: nat) { IsPower(size) && IsPower(buf.Length) }

  lemma PowersDouble(n: nat)
    requires IsPower(n)
    ensures IsPower(2 * n)
  {
    var k: nat :| n == Pow2(k);
    assert Pow2(k + 1) == 2 * n;
  }

  /** Write t at offset at of the text, after making sure that need more bytes fit there. */
  method GrowAndPut(buf: array<char>, size: nat, ghost text: string, at: nat, t: string, need: nat)
    returns (buf': array<char>, size': nat)
    requires Holds(buf, size, text) && Powers(buf, size) && at <= |text| && NoNul(t)
    requires |t| < need <= size
    modifies buf
    ensures Holds(buf', size', text[..at] + t) && Powers(buf', size') && size <= size'
    ensures if at + need < size then buf' == buf && size' == size
            else fresh(buf') && size' == 2 * size == buf'.Length
  {
    PowersDouble(size);
    buf', size' := CheckForResize(buf, size, at + need);
    PutEnd(buf', text, at, t);
  }

  // ---- The VALUES list ----------------------------------------------------------

  /** The text after some parameters of a row, each with a comma behind it. */
  function RowSoFar(text: string, marks: nat): string {
    text + "(" + Repeat("?, ", marks)
  }

  lemma RowSteps(text: string, marks: nat)
    ensures text[..|text|] + "(" == RowSoFar(text, 0) && |RowSoFar(text, 0)| == |text| + 1
    ensures var s := RowSoFar(text, marks);
            s[..|s|] + "?, " == RowSoFar(text, marks + 1) && |RowSoFar(text, marks + 1)| == |s| + 3
  {
    RepeatBack("?, ", marks);
    JoinThree(text + "(", Repeat("?, ", marks), "?, ");
  }

  /** One row of add_sql_insert_values: a tuple, a comma and a blank. */
  method AddRow(buf: array<char>, size: nat, ghost text: string, no: nat) returns (buf': array<char>, size': nat)
    requires Holds(buf, size, text) && Powers(buf, size) && 1 <= no
    modifies buf
    ensures Holds(buf', size', text + (Tuple(no) + ", ")) && Powers(buf', size') && size <= size'
    ensures buf' == buf || fresh(buf')
  {
    hide Repeat, Tuple, NoNul, HoldsText, Holds, Powers, RowSoFar;
    NoNulPieces();
    RowSteps(text, 0);
    var pos := StrLenOf(buf, size, text);
    SizeAtLeastFour(buf, size, text);
    buf', size' := GrowAndPut(buf, size, text, pos, "(", 2);
    pos := pos + 1;
    for j := 0 to no
      invariant Holds(buf', size', RowSoFar(text, j)) && Powers(buf', size')
      invariant size <= size' && (buf' == buf || fresh(buf')) && pos == |RowSoFar(text, j)|
    {
      RowSteps(text, j);
      buf', size' := GrowAndPut(buf', size', RowSoFar(text, j), pos, "?, ", 4);
      pos := pos + 3;
    }
    RowCut(text, no);
    buf', size' := GrowAndPut(buf', size', RowSoFar(text, no), pos - 2, "), ", 4);
  }

  /** The position of the end of the text. */
  method StrLenOf(buf: array<char>, size: nat, ghost text: string) returns (pos: nat)
    requires Holds(buf, size, text)
    ensures pos == |text|
  {
    pos := StrLen(buf[..]);
  }

  lemma NoNulPieces()
    ensures NoNul("(") && NoNul("?, ") && NoNul("), ") && NoNul("")
  {
  }

  lemma RowCut(text: string, no: nat)
    requires 1 <= no
    ensures var s := RowSoFar(text, no);
            2 <= |s| && s[..|s| - 2] + "), " == text + (Tuple(no) + ", ")
  {
    MarksWithoutComma(no);
    var s := text + "(" + Repeat("?, ", no);
    assert s == text + "(" + MarkList(no) + ", ";
    assert s[..|s| - 2] == text + "(" + MarkList(no);
    assert text + "(" + MarkList(no) + "), " == text + (("(" + MarkList(no) + ")") + ", ");
  }

  /** The text after some rows, each with a comma behind it. */
  function RowsText(text: string, no: nat, rows: nat): string
    requires 1 <= no
  {
    text + Repeat(Tuple(no) + ", ", rows)
  }

  lemma RowsTextSteps(text: string, no: nat, rows: nat)
    requires 1 <= no
    ensures RowsText(text, no, 0) == text
    ensures RowsText(text, no, rows + 1) == RowsText(text, no, rows) + (Tuple(no) + ", ")
  {
    RepeatBack(Tuple(no) + ", ", rows);
    JoinThree(text, Repeat(Tuple(no) + ", ", rows), Tuple(no) + ", ");
  }

  /** The loop of add_sql_insert_values, and the cut of the last comma. */
  method WriteRows(insert: array<char>, size0: nat, ghost text: string, no: nat, count: nat)
    returns (buf: array<char>, size: nat)
    requires Holds(insert, size0, text) && Powers(insert, size0) && 1 <= no && 1 <= count
    modifies insert
    ensures Holds(buf, size, WidenedInsert(text + Tuple(no), no, count)) && Powers(buf, size)
  {
    hide Repeat, Tuple, HoldsText, Holds, Powers, RowsText;
    buf, size := insert, size0;
    RowsTextSteps(text, no, 0);
    for i := 0 to count
      invariant Holds(buf, size, RowsText(text, no, i)) && Powers(buf, size) && (buf == insert || fresh(buf))
    {
      RowsTextSteps(text, no, i);
      buf, size := AddRow(buf, size, RowsText(text, no, i), no);
    }
    RowsCut(text, no, count);
    var pos := StrLenOf(buf, size, RowsText(text, no, count));
    NoNulPieces();
    SizeAtLeastFour(buf, size, RowsText(text, no, count));
    buf, size := GrowAndPut(buf, size, RowsText(text, no, count), pos - 2, "", 2);
  }

  lemma SizeAtLeastFour(buf: array<char>, size: nat, text: string)
    requires Holds(buf, size, text)
    ensures 4 <= size
  {
  }

  /** add_sql_insert_values: the size is worked out from the length of the text, and never exceeds the real
      capacity when that is a power of two. A text of two megabytes or more is given up. */
  method AddSqlInsertValues(insert: array<char>, ghost text: string, no: nat, count: nat)
    returns (r: Option<array<char>>)
    requires HoldsText(insert[..]) && Str(insert[..]) == text && 4 <= |text| && NoNul(text)
    requires IsPower(insert.Length) && 1 <= no && 1 <= count
    modifies insert
    ensures r.Some? <==> |text| < THIS_SQL_MAX
    ensures r.Some? ==> HoldsText(r.value[..]) && Str(r.value[..]) == WidenedInsert(text + Tuple(no), no, count)
  {
    hide Repeat, Tuple;
    var pos := StrLen(insert[..]);
    var size: nat := GetSizeFromLen(pos);
    SizeIsLeast(pos, size, insert.Length);
    MaxIsPower();
    if size > THIS_SQL_MAX {
      SizeIsLeastAbove(pos, size);
      return None;
    }
    var buf;
    buf, size := WriteRows(insert, size, text, no, count);
    r := Some(buf);
  }

  lemma MaxIsPower()
    ensures THIS_SQL_MAX == Pow2(21) && IsPower(THIS_SQL_MAX)
  {
    Pow2Values();
    Pow2Add(16, 5);
    assert Pow2(5) == 32 by { assert Pow2(3) == 8; }
    assert THIS_SQL_MAX == Pow2(21);
  }

  lemma SizeIsLeastAbove(len: nat, size: nat)
    requires 0 < len && IsPower(size) && size <= 2 * len && size > THIS_SQL_MAX
    ensures len >= THIS_SQL_MAX
  {
    MaxIsPower();
    if len < THIS_SQL_MAX { SizeIsLeast(len, size, THIS_SQL_MAX); }
  }

  /** Rows that each end with a comma, less the last comma, are the widened list. */
  lemma RowsCut(text: string, no: nat, count: nat)
    requires 1 <= no && 1 <= count
    ensures var s := RowsText(text, no, count);
            2 <= |s| && s[..|s| - 2] + "" == WidenedInsert(text + Tuple(no), no, count)
  {
    CommasMoved(Tuple(no), count);
    var t := text + Tuple(no) + Repeat(", " + Tuple(no), count - 1);
    assert text + (Tuple(no) + Repeat(", " + Tuple(no), count - 1) + ", ") == t + ", ";
    assert (t + ", ")[..|t|] == t;
  }

  lemma {:induction false} CommasMoved(t: string, count: nat)
    requires 1 <= count
    ensures Repeat(t + ", ", count) == t + Repeat(", " + t, count - 1) + ", "
  {
    if count == 1 {
      assert Repeat(t + ", ", 0) == "" && Repeat(", " + t, 0) == "";
    } else {
      CommasMoved(t, count - 1);
      var r := Repeat(", " + t, count - 2);
      assert t + ", " + (t + r + ", ") == t + (", " + t + r) + ", ";
    }
  }

  // ---- The whole statement --------------------------------------------------------

  /** Names, each followed by a comma and a blank. */
  function Listed(names: seq<string>): string {
    if names == [] then "" else Listed(names[..|names| - 1]) + (names[|names| - 1] + ", ")
  }

  /** The names between commas. */
  function CommaList(names: seq<string>): string
    requires 1 <= |names|
  {
    Listed(names[..|names| - 1]) + names[|names| - 1]
  }

  function InsertHead(table: string, columns: seq<string>): string
    requires 1 <= |columns|
  {
    "INSERT INTO " + table + " (" + CommaList(columns) + ")"
  }

  /** The single-row statement for a table and its columns. */
  function SingleInsert(table: string, columns: seq<string>): string
    requires 1 <= |columns|
  {
    InsertHead(table, columns) + VALUES + Tuple(|columns|)
  }

  predicate ShortName(name: string, capacity: nat) { NoNul(name) && |name| + 3 <= capacity }

  /** build_sql_insert, for a table and the columns that are inserted. The buffer starts with a capacity that is a
      power of two of at least 64 and doubles at most once before each write, so no name may be longer than the
      starting capacity less three. */
  method BuildSqlInsert(table: string, columns: seq<string>, count: nat, capacity: nat)
    returns (r: Option<array<char>>)
    requires IsPower(capacity) && 64 <= capacity && 1 <= |columns| && 1 <= count
    requires ShortName(table, capacity) && forall i :: 0 <= i < |columns| ==> ShortName(columns[i], capacity)
    ensures r.Some? <==> |InsertHead(table, columns) + VALUES| < THIS_SQL_MAX
    ensures r.Some? ==>
              && HoldsText(r.value[..])
              && Str(r.value[..]) == WidenedInsert(SingleInsert(table, columns), |columns|, count)
  {
    var insert, tot := new char[capacity](_ => '\0'), capacity;
    StrIs(insert[..], "");
    PutEnd(insert, "", 0, "INSERT INTO ");
    var pos := |"INSERT INTO "|;
    assert Holds(insert, tot, "INSERT INTO ");
    insert, tot := GrowAndPut(insert, tot, "INSERT INTO ", pos, table + " (", |table| + 3);
    assert "INSERT INTO "[..pos] + (table + " (") == "INSERT INTO " + table + " (";
    insert, tot := WriteColumns(insert, tot, "INSERT INTO " + table + " (", columns, capacity);
    hide Tuple, Holds;
    HoldsOut(insert, tot, InsertHead(table, columns) + VALUES);
    r := AddSqlInsertValues(insert, InsertHead(table, columns) + VALUES, |columns|, count);
  }

  lemma HoldsOut(buf: array<char>, size: nat, text: string)
    requires Holds(buf, size, text)
    ensures HoldsText(buf[..]) && Str(buf[..]) == text && NoNul(text)
  {
  }

  /** The column loop of build_sql_insert, and what follows it. */
  method WriteColumns(buf: array<char>, size: nat, ghost start: string, columns: seq<string>, capacity: nat)
    returns (buf': array<char>, size': nat)
    requires Holds(buf, size, start) && Powers(buf, size) && 64 <= capacity <= size && 1 <= |columns|
    requires forall i :: 0 <= i < |columns| ==> ShortName(columns[i], capacity)
    modifies buf
    ensures Holds(buf', size', start + CommaList(columns) + ")" + VALUES) && Powers(buf', size')
    ensures buf' == buf || fresh(buf')
  {
    buf', size' := buf, size;
    hide Holds, Powers;
    assert start + Listed(columns[..0]) == start;
    for i := 0 to |columns|
      invariant Holds(buf', size', start + Listed(columns[..i])) && Powers(buf', size')
      invariant size <= size' && (buf' == buf || fresh(buf'))
    {
      ghost var text := start + Listed(columns[..i]);
      var pos := StrLenOf(buf', size', text);
      assert columns[..i + 1][..i] == columns[..i];
      JoinThree(start, Listed(columns[..i]), columns[i] + ", ");
      assert text[..pos] == text;
      buf', size' := GrowAndPut(buf', size', text, pos, columns[i] + ", ", |columns[i]| + 3);
    }
    assert columns[..|columns|] == columns;
    ColumnsCut(start, columns);
    var pos := StrLenOf(buf', size', start + Listed(columns));
    buf', size' := GrowAndPut(buf', size', start + Listed(columns), pos - 2, ") VALUES ", 10);
  }

  lemma ColumnsCut(start: string, columns: seq<string>)
    requires 1 <= |columns|
    ensures var s := start + Listed(columns);
            2 <= |s| && s[..|s| - 2] + ") VALUES " == start + CommaList(columns) + ")" + VALUES
  {
    var s, t := start + Listed(columns), start + CommaList(columns);
    assert s == t + ", ";
    assert s[..|s| - 2] == t;
    assert ") VALUES " == ")" + VALUES;
  }

  // ---- What the statement means -----------------------------------------------------

  predicate NoBlank(s: string) { forall i :: 0 <= i < |s| ==> s[i] != ' ' }

  /** Names that need no quotes: without blanks, and the table not called VALUES. */
  predicate PlainNames(table: string, columns: seq<string>) {
    NoBlank(table) && table != "VALUES" && forall i :: 0 <= i < |columns| ==> NoBlank(columns[i])
  }

  /** The place of t is the first at which it stands. */
  lemma {:induction false} FirstPlaceAt(s: string, t: string, k: nat)
    requires k <= |s| && StartsWith(s[k..], t) && forall p :: 0 <= p < k ==> !StartsWith(s[p..], t)
    ensures FirstPlace(s, t) == Some(k)
    decreases |s|
  {
    assert s[0..] == s;
    if k > 0 {
      assert forall p :: 0 <= p < k ==> s[p..] == if p == 0 then s else s[1..][p - 1..];
      assert s[1..][k - 1..] == s[k..];
      forall p | 0 <= p < k - 1 ensures !StartsWith(s[1..][p..], t) { assert s[1..][p..] == s[p + 1..]; }
      FirstPlaceAt(s[1..], t, k - 1);
    }
  }

  lemma NotPrefix(s: string, t: string, j: nat)
    requires j < |s| && j < |t| && s[j] != t[j]
    ensures !StartsWith(s, t)
  {
  }

  /** Every blank follows a comma. */
  predicate CommaBlanks(s: string) { forall i :: 0 <= i < |s| && s[i] == ' ' ==> i > 0 && s[i - 1] == ',' }

  lemma {:induction false} ListedBlanks(names: seq<string>)
    requires forall i :: 0 <= i < |names| ==> NoBlank(names[i])
    ensures CommaBlanks(Listed(names))
  {
    if names != [] { ListedBlanks(names[..|names| - 1]); }
  }

  /** Where the blanks of the head are. */
  lemma HeadBlank(table: string, columns: seq<string>, i: nat)
    requires 1 <= |columns| && PlainNames(table, columns)
    requires i < |InsertHead(table, columns)| && InsertHead(table, columns)[i] == ' '
    ensures i == 6 || i == 11 || i == 12 + |table|
            || (i > 12 + |table| && InsertHead(table, columns)[i - 1] == ',')
  {
    var list, n := CommaList(columns), |columns|;
    ListedBlanks(columns[..n - 1]);
    assert CommaBlanks(list);
    hide CommaList;
    var head, start := InsertHead(table, columns), "INSERT INTO ";
    assert head == start + (table + (" (" + (list + ")")));
    forall j | 12 <= j < 12 + |table| ensures head[j] != ' ' { assert head[j] == table[j - 12]; }
    if i < 12 {
      assert head[i] == start[i];
    } else if i > 13 + |table| && i < |head| - 1 {
      assert head[i] == list[i - 14 - |table|] && (i > 14 + |table| ==> head[i - 1] == list[i - 15 - |table|]);
    }
  }

  /** A name that is not VALUES, followed by a blank, differs from VALUES and a blank in some letter. */
  lemma DifferentLetter(table: string) returns (j: nat)
    requires NoBlank(table) && table != "VALUES"
    ensures j < 7 && j <= |table| && (if j < |table| then table[j] else ' ') != VALUES[1 + j]
  {
    if forall i :: 0 <= i < 6 && i < |table| ==> table[i] == "VALUES"[i] {
      assert |table| == 6 ==> table == "VALUES";
      j := if |table| < 6 then |table| else 6;
    } else {
      var i :| 0 <= i < 6 && i < |table| && table[i] != "VALUES"[i];
      j := i;
    }
  }

  /** VALUES does not stand between blanks inside the head: some character is another. */
  lemma NoEarlierPlace(table: string, columns: seq<string>, rest: string, p: nat) returns (j: nat)
    requires 1 <= |columns| && PlainNames(table, columns) && p < |InsertHead(table, columns)|
    ensures j < 8 && (InsertHead(table, columns) + VALUES + rest)[p + j] != VALUES[j]
  {
    var head := InsertHead(table, columns);
    assert head[7] == 'I' && head[12..12 + |table|] == table;
    assert head[12 + |table|] == ' ' && head[13 + |table|] == '(' && head[|head| - 1] == ')';
    if head[p] != ' ' {
      return 0;
    }
    HeadBlank(table, columns, p);
    if p == 11 {
      j := DifferentLetter(table);
      assert j < |table| ==> head[12 + j] == table[j];
      return j + 1;
    }
    if p <= 12 + |table| {
      return 1;
    }
    if p + 7 < |head| {
      if head[p + 7] == ' ' { HeadBlank(table, columns, p + 7); }
      return if head[p + 7] == ' ' then 6 else 7;
    }
    j := if p + 7 == |head| then 6 else |head| - p;
  }

  /** The single-row statement inserts into the table and the columns it names. */
  lemma SingleInsertReads(table: string, columns: seq<string>)
    requires 1 <= |columns| && PlainNames(table, columns)
    ensures ReadInsert(SingleInsert(table, columns)) == Some(Insert(InsertHead(table, columns), [|columns|]))
  {
    var n, head := |columns|, InsertHead(table, columns);
    hide InsertHead, Tuple, FirstPlace, ReadTuples, Same;
    var text := head + VALUES + Tuple(n);
    forall p | 0 <= p < |head| ensures !StartsWith(text[p..], VALUES) {
      var j := NoEarlierPlace(table, columns, Tuple(n), p);
      NotPrefix(text[p..], VALUES, j);
    }
    assert text[|head|..] == VALUES + Tuple(n);
    FirstPlaceAt(text, VALUES, |head|);
    OneTupleReads(n);
    assert text[|head| + |VALUES|..] == Tuple(n) && text[..|head|] == head;
  }

  lemma OneTupleReads(n: nat)
    requires 1 <= n
    ensures ReadTuples(Tuple(n)) == Some([n])
  {
    hide Tuple, ReadTuples;
    ReadWidened(n, 1);
    assert Tuple(n) + Repeat(", " + Tuple(n), 0) == Tuple(n);
    assert Same(n, 1) == [n];
  }

  /** What the old builder writes for rows rows of values does what running its single-row statement for each row
      does, and what the newer builder's rewriting of that statement does. */
  lemma OldStatementMeaning<V>(rows: seq<(string, seq<V>)>, table: string, columns: seq<string>, args: seq<V>)
    requires 1 <= |columns| <= |args| && |args| % |columns| == 0
    requires PlainNames(table, columns)
    ensures 1 <= |args| / |columns|
    ensures ExecInsert(rows, WidenedInsert(SingleInsert(table, columns), |columns|, |args| / |columns|), args)
            == ExecSingles(rows, SingleInsert(table, columns), |columns|, args) != None
  {
    SingleInsertReads(table, columns);
    WideningKeepsMeaning(rows, SingleInsert(table, columns), InsertHead(table, columns), |columns|, args);
  }
}

/** Collecting the result set of a prepared statement: the cells of the next row are appended to the result list and
    bound before it is known whether there is a next row. */
module ResultFetch {
  import opened Results
  import opened LinkedList
  import opened DataElements
  import opened FlatRows

  /** A datum of the result list. The client library writes into it while it is bound. */
  class Cell {
    var value: Datum

    constructor (value: Datum)
      ensures this.value == value
    {
      this.value := value;
    }
  }

  /** The types ailsa_set_my_type gives for the columns of a result. */
  type ResultType = t: FieldType | t == DbText || t == DbLint || t == DbSint || t == DbTime witness DbText

  /** What a cell of this type holds when it has been bound and not yet filled. */
  function BlankOf(t: ResultType): Datum {
    if t == DbText then Text("") else if t == DbLint then Number(0) else if t == DbSint then Small(0) else Blank
  }

  /** A datum of the kind a column of that type gives: an empty text, or a zero, or for a time nothing yet. */
  predicate IsBlank(d: Datum, t: ResultType) {
    && (t == DbText ==> d.Text? && |d.text| == 0) && (t == DbLint ==> d.Number? && d.number == 0)
    && (t == DbSint ==> d.Small? && d.small == 0) && (t == DbTime ==> d.Blank?)
  }

  function Blanks(fields: seq<ResultType>): (blanks: seq<Datum>)
    ensures |blanks| == |fields|
  {
    seq(|fields|, i requires 0 <= i < |fields| => BlankOf(fields[i]))
  }

  /** How fetching ends: with the end of the result set, or with a fetch that fails or cuts a value, and what it then
      leaves in the bound cells. */
  datatype End = NoMoreRows | Broken(left: seq<Datum>)

  /** A prepared statement: the types of its fields, and what executing and fetching will give. */
  datatype Statement = Statement(
    fields: seq<ResultType>,
    executes: bool,            // whether execution and storing the result succeed
    rows: seq<seq<Datum>>,     // the rows that are fetched whole
    end: End                   // what follows them
  ) {
    predicate Valid() {
      && (forall k :: 0 <= k < |rows| ==> |rows[k]| == |fields|)
      && (end.Broken? ==> |end.left| == |fields|)
    }
  }

  /** The cells hold these values. */
  ghost predicate Hold(cells: seq<Cell>, values: seq<Datum>)
    reads cells
  {
    |cells| == |values| && forall i :: 0 <= i < |cells| ==> cells[i].value == values[i]
  }

  lemma FlatNone()
    ensures Flat<Datum>([]) == []
  {
  }

  /** ailsa_bind_results_mysql: one blank cell for each field, appended to the list. */
  method BindResults(fields: seq<ResultType>, results: List<Cell>) returns (r: Result<()>, bind: seq<Cell>)
    requires results.Valid()
    modifies results, results.repr
    ensures results.Valid() && fresh(results.repr - old(results.repr)) && results.destroyed == old(results.destroyed)
    ensures r == if fields == [] then Err(NoFields) else Ok(())
    ensures results.vals == old(results.vals) + bind && |bind| == |fields|
    ensures Hold(bind, Blanks(fields))
    ensures forall i :: 0 <= i < |bind| ==> IsBlank(bind[i].value, fields[i])
    ensures forall i :: 0 <= i < |bind| ==> fresh(bind[i])
    ensures forall i, j :: 0 <= i < j < |bind| ==> bind[i] != bind[j]
  {
    hide Chain, ClosedChain, Distinct, InsertAt;
    bind := [];
    if fields == [] {
      return Err(NoFields), [];
    }
    for i := 0 to |fields|
      invariant results.Valid() && fresh(results.repr - old(results.repr)) && |bind| == i
      invariant results.vals == old(results.vals) + bind && results.destroyed == old(results.destroyed)
      invariant forall k :: 0 <= k < i ==> bind[k].value == BlankOf(fields[k]) && fresh(bind[k])
      invariant forall k :: 0 <= k < i ==> IsBlank(bind[k].value, fields[k])
      invariant forall j, k :: 0 <= j < k < i ==> bind[j] != bind[k]
    {
      var data := new Cell(BlankOf(fields[i]));
      var inserted := results.Insert(Some(data));
      bind := bind + [data];
    }
    return Ok(()), bind;
  }

  /** A fetch: a row, or what a failure leaves of one, is written into the bound cells. */
  method Fetch(bind: seq<Cell>, row: seq<Datum>)
    requires |bind| == |row| && forall i, j :: 0 <= i < j < |bind| ==> bind[i] != bind[j]
    modifies set c | c in bind
    ensures Hold(bind, row)
  {
    for i := 0 to |bind|
      invariant forall k :: 0 <= k < i ==> bind[k].value == row[k]
    {
      bind[i].value := row[i];
    }
  }

  /** ailsa_remove_empty_results_mysql: as many elements as there are fields, off the tail. */
  method RemoveEmptyResults(fields: nat, results: List<Cell>)
    requires results.Valid() && fields <= |results.vals|
    modifies results, results.repr
    ensures results.Valid() && results.vals == old(results.vals)[..|old(results.vals)| - fields]
    ensures results.repr == old(results.repr) && results.destroyed == old(results.destroyed)
  {
    hide Chain, ClosedChain, Distinct, RemoveAt;
    for i := 0 to fields
      invariant results.Valid() && results.repr == old(results.repr) && results.destroyed == old(results.destroyed)
      invariant results.vals == old(results.vals)[..|old(results.vals)| - i]
    {
      RemoveTail(results);
    }
  }

  method RemoveTail(results: List<Cell>)
    requires results.Valid() && results.total > 0
    modifies results, results.repr
    ensures results.Valid() && results.vals == old(results.vals)[..|old(results.vals)| - 1]
    ensures results.repr == old(results.repr) && results.destroyed == old(results.destroyed)
  {
    hide Chain, ClosedChain, Distinct;
    results.IndexUnique(results.tail, results.total - 1);
    var r, data := results.Remove(results.tail);
  }

  /** Between fetches the list holds what it held, the cells filled so far, and the cells bound now. */
  ghost predicate Ready(results: List<Cell>, was: seq<Cell>, filled: seq<Cell>, bind: seq<Cell>, cells: set<Cell>,
                        fields: seq<ResultType>, rows: seq<seq<Datum>>)
    reads results, results.repr, cells
  {
    && results.Valid() && results.vals == was + filled + bind
    && (forall k :: 0 <= k < |filled| ==> filled[k] in cells)
    && (forall k :: 0 <= k < |bind| ==> bind[k] in cells)
    && Hold(filled, Flat(rows)) && Hold(bind, Blanks(fields))
    && (forall j, k :: 0 <= j < k < |bind| ==> bind[j] != bind[k])
    && (forall j, k :: 0 <= j < |filled| && 0 <= k < |bind| ==> filled[j] != bind[k])
  }

  lemma HoldAppend(a: seq<Cell>, v: seq<Datum>, b: seq<Cell>, w: seq<Datum>)
    requires Hold(a, v) && Hold(b, w)
    ensures Hold(a + b, v + w)
  {
  }

  /** One turn of the loop: a row is fetched, and the cells for the next one are bound. */
  method FetchRow(results: List<Cell>, bind: seq<Cell>, fields: seq<ResultType>, row: seq<Datum>,
                  ghost was: seq<Cell>, ghost filled: seq<Cell>, ghost cells: set<Cell>, ghost rows: seq<seq<Datum>>)
    returns (bind': seq<Cell>, ghost cells': set<Cell>)
    requires Ready(results, was, filled, bind, cells, fields, rows) && fields != [] && |row| == |fields|
    modifies results, results.repr, cells
    ensures Ready(results, was, filled + bind, bind', cells', fields, rows + [row])
    ensures fresh(results.repr - old(results.repr)) && fresh(cells' - cells)
    ensures results.destroyed == old(results.destroyed)
  {
    hide Chain, ClosedChain, Distinct, Flat, Blanks, BlankOf, IsBlank;
    Fetch(bind, row);
    FlatAppend(rows, row);
    HoldAppend(filled, Flat(rows), bind, row);
    var r;
    r, bind' := BindResults(fields, results);
    cells' := cells + set c | c in bind';
  }

  /** The fetch loop. */
  method FetchAll(results: List<Cell>, bind: seq<Cell>, fields: seq<ResultType>, rows: seq<seq<Datum>>,
                  ghost was: seq<Cell>, ghost cells: set<Cell>)
    returns (bind': seq<Cell>, ghost filled: seq<Cell>, ghost cells': set<Cell>)
    requires Ready(results, was, [], bind, cells, fields, []) && fields != []
    requires forall k :: 0 <= k < |rows| ==> |rows[k]| == |fields|
    modifies results, results.repr, cells
    ensures Ready(results, was, filled, bind', cells', fields, rows)
    ensures fresh(results.repr - old(results.repr)) && fresh(cells' - cells)
    ensures results.destroyed == old(results.destroyed)
  {
    hide Chain, ClosedChain, Distinct, Flat, Blanks, Ready;
    bind', filled, cells' := bind, [], cells;
    for i := 0 to |rows|
      invariant Ready(results, was, filled, bind', cells', fields, rows[..i])
      invariant fresh(results.repr - old(results.repr)) && fresh(cells' - cells)
      invariant results.destroyed == old(results.destroyed)
    {
      ghost var bound := bind';
      assert rows[..i] + [rows[i]] == rows[..i + 1];
      bind', cells' := FetchRow(results, bind', fields, rows[i], was, filled, cells', rows[..i]);
      filled := filled + bound;
    }
    assert rows[..|rows|] == rows;
  }

  /** What a query returns. */
  function Outcome(stmt: Statement): Result<()> {
    if stmt.fields == [] then Err(NoFields)
    else if !stmt.executes then Err(QueryFail)
    else if stmt.end.NoMoreRows? then Ok(())
    else Err(FetchFail)
  }

  /** What a query appends: the values of the rows, row by row; when it fails after the first binding, one more group of
      cells, blank or as the failing fetch leaves them. */
  function Appended(stmt: Statement): seq<Datum> {
    if stmt.fields == [] then []
    else if !stmt.executes then Blanks(stmt.fields)
    else Flat(stmt.rows) + if stmt.end.NoMoreRows? then [] else stmt.end.left
  }

  /** The list holds the old cells and then new cells with these values. */
  ghost predicate Grown(vals: seq<Cell>, was: seq<Cell>, values: seq<Datum>)
    reads vals
  {
    |was| <= |vals| && vals[..|was|] == was && Hold(vals[|was|..], values)
  }

  /** After the first binding. */
  lemma FirstReady(results: List<Cell>, was: seq<Cell>, bind: seq<Cell>, cells: set<Cell>, fields: seq<ResultType>)
    requires results.Valid() && results.vals == was + bind && Hold(bind, Blanks(fields))
    requires forall k :: 0 <= k < |bind| ==> bind[k] in cells
    requires forall j, k :: 0 <= j < k < |bind| ==> bind[j] != bind[k]
    ensures Ready(results, was, [], bind, cells, fields, [])
  {
    hide Chain, ClosedChain, Distinct;
  }

  lemma BoundGrown(vals: seq<Cell>, was: seq<Cell>, filled: seq<Cell>, values: seq<Datum>, bind: seq<Cell>,
                   last: seq<Datum>)
    requires vals == was + filled + bind && Hold(filled, values) && Hold(bind, last)
    ensures Grown(vals, was, values + last)
  {
    HoldAppend(filled, values, bind, last);
    assert vals == was + (filled + bind);
  }

  lemma ReadyCells(results: List<Cell>, was: seq<Cell>, filled: seq<Cell>, bind: seq<Cell>, cells: set<Cell>,
                   fields: seq<ResultType>, rows: seq<seq<Datum>>)
    requires Ready(results, was, filled, bind, cells, fields, rows)
    ensures results.Valid() && results.vals == was + filled + bind
    ensures Hold(filled, Flat(rows)) && Hold(bind, Blanks(fields)) && |bind| == |fields|
    ensures forall i :: |was| <= i < |results.vals| ==> results.vals[i] in cells
  {
    hide Chain, ClosedChain, Distinct, Flat, Blanks;
  }

  /** The fetch that fails: it may write into the cells bound for it. */
  method FetchBroken(results: List<Cell>, bind: seq<Cell>, fields: seq<ResultType>, left: seq<Datum>,
                     ghost was: seq<Cell>, ghost filled: seq<Cell>, ghost cells: set<Cell>, ghost rows: seq<seq<Datum>>)
    requires Ready(results, was, filled, bind, cells, fields, rows) && |left| == |fields|
    modifies cells
    ensures results.Valid() && Grown(results.vals, was, Flat(rows) + left)
    ensures results.destroyed == old(results.destroyed) && results.vals == old(results.vals)
    ensures results.repr == old(results.repr)
  {
    hide Chain, ClosedChain, Distinct, Flat, Blanks;
    Fetch(bind, left);
    BoundGrown(results.vals, was, filled, Flat(rows), bind, left);
  }

  /** Execution and the fetch loop: before the cells bound last are taken away again, if they are. */
  method ExecuteAndFetch(stmt: Statement, results: List<Cell>, bind: seq<Cell>,
                         ghost was: seq<Cell>, ghost cells: set<Cell>)
    returns (r: Result<()>, ghost cells': set<Cell>)
    requires stmt.Valid() && stmt.fields != [] && Ready(results, was, [], bind, cells, stmt.fields, [])
    modifies results, results.repr, cells
    ensures results.Valid() && fresh(results.repr - old(results.repr)) && results.destroyed == old(results.destroyed)
    ensures r == Outcome(stmt) && fresh(cells' - cells)
    ensures Grown(results.vals, was, Appended(stmt) + if r.Ok? then Blanks(stmt.fields) else [])
    ensures forall i :: |was| <= i < |results.vals| ==> results.vals[i] in cells'
  {
    hide Chain, ClosedChain, Distinct, Flat, Blanks, Ready, Hold, Grown;
    if !stmt.executes {
      FlatNone();
      ReadyCells(results, was, [], bind, cells, stmt.fields, []);
      BoundGrown(results.vals, was, [], [], bind, Blanks(stmt.fields));
      assert [] + Blanks(stmt.fields) == Blanks(stmt.fields) + [];
      return Err(QueryFail), cells;
    }
    ghost var filled;
    var bind';
    bind', filled, cells' := FetchAll(results, bind, stmt.fields, stmt.rows, was, cells);
    ReadyCells(results, was, filled, bind', cells', stmt.fields, stmt.rows);
    match stmt.end
    case NoMoreRows =>
      BoundGrown(results.vals, was, filled, Flat(stmt.rows), bind', Blanks(stmt.fields));
      assert Flat(stmt.rows) + [] == Flat(stmt.rows);
      r := Ok(());
    case Broken(left) =>
      FetchBroken(results, bind', stmt.fields, left, was, filled, cells', stmt.rows);
      assert Flat(stmt.rows) + left + [] == Flat(stmt.rows) + left;
      r := Err(FetchFail);
  }

  lemma GrownTrimmed(vals: seq<Cell>, was: seq<Cell>, values: seq<Datum>, blanks: seq<Datum>)
    requires Grown(vals, was, values + blanks)
    ensures |vals| == |was| + |values| + |blanks| && Grown(vals[..|vals| - |blanks|], was, values)
  {
    var rest := vals[..|vals| - |blanks|];
    assert rest[..|was|] == vals[..|was|];
    forall i | 0 <= i < |values| ensures rest[|was|..][i].value == values[i] {
      assert rest[|was|..][i] == vals[|was|..][i] && (values + blanks)[i] == values[i];
    }
  }

  lemma NothingGrown(was: seq<Cell>)
    ensures Grown(was, was, [])
  {
  }

  /** What follows the first binding. */
  method AfterBinding(stmt: Statement, results: List<Cell>, bind: seq<Cell>,
                      ghost was: seq<Cell>, ghost cells: set<Cell>)
    returns (r: Result<()>, ghost cells': set<Cell>)
    requires stmt.Valid() && stmt.fields != [] && Ready(results, was, [], bind, cells, stmt.fields, [])
    modifies results, results.repr, cells
    ensures results.Valid() && fresh(results.repr - old(results.repr)) && results.destroyed == old(results.destroyed)
    ensures r == Outcome(stmt) && fresh(cells' - cells) && Grown(results.vals, was, Appended(stmt))
    ensures forall i :: |was| <= i < |results.vals| ==> results.vals[i] in cells'
  {
    hide Chain, ClosedChain, Distinct, Flat, Ready, Hold, Grown, Blanks;
    r, cells' := ExecuteAndFetch(stmt, results, bind, was, cells);
    if r.Ok? {
      GrownTrimmed(results.vals, was, Appended(stmt), Blanks(stmt.fields));
      RemoveEmptyResults(|stmt.fields|, results);
    } else {
      assert Appended(stmt) + [] == Appended(stmt);
    }
  }

  /** ailsa_argument_query_mysql, from the binding of its results on. */
  method ArgumentQuery(stmt: Statement, results: List<Cell>) returns (r: Result<()>)
    requires results.Valid() && stmt.Valid()
    modifies results, results.repr
    ensures results.Valid() && results.destroyed == old(results.destroyed) && r == Outcome(stmt)
    ensures Grown(results.vals, old(results.vals), Appended(stmt))
    ensures forall i :: |old(results.vals)| <= i < |results.vals| ==> fresh(results.vals[i])
  {
    hide Chain, ClosedChain, Distinct, Flat, Ready, Hold, Grown, Blanks;
    ghost var was := results.vals;
    var bind;
    r, bind := BindResults(stmt.fields, results);
    if r.Err? {
      assert was + bind == was;
      NothingGrown(was);
      return;
    }
    ghost var cells := set c | c in bind;
    FirstReady(results, was, bind, cells, stmt.fields);
    hide Appended, Outcome;
    r, cells := AfterBinding(stmt, results, bind, was, cells);
  }
}

/** The database values kept in lists, and the replacement of one of them in place. */
module DataElements {
  import opened Results
  import opened LinkedList

  const DOMAIN_LEN: nat := 256

  /** ailsa_data_s: a typed value. */
  datatype Datum = Text(text: string) | Number(number: nat) | Small(small: int) | Point(point: real) | Blank

  /** The types of values in statements and results; DbNull is zero, which calloc leaves in an unfilled array. */
  datatype FieldType = DbNull | DbText | DbLint | DbSint | DbTiny | DbFloat | DbTime

  /** The copy cmdb_replace_data_element makes: strndup keeps at most DOMAIN_LEN characters of a text. */
  function CopyOf(d: Datum): Datum {
    match d
    case Text(t) => if |t| <= DOMAIN_LEN then d else Text(t[..DOMAIN_LEN])
    case _ => d
  }

  /** A copy is the datum itself, but of a text only its first DOMAIN_LEN characters. */
  predicate IsCopy(c: Datum, d: Datum) {
    if d.Text? && |d.text| > DOMAIN_LEN then c.Text? && |c.text| == 256 && c.text <= d.text else c == d
  }

  /** An element with r in place of element k closes the chain, given the links around it. */
  lemma ReplaceInChain<T>(ns: seq<Elem<T>>, vs: seq<T>, k: nat, r: Elem<T>)
    requires Distinct(ns) && r !in ns && k < |ns| == |vs|
    requires Chain(ns, vs, 0, k) && Chain(ns, vs, k + 1, |ns|)
    requires k > 0 ==> ns[0].prev == null && ns[k - 1].next == r && r.prev == ns[k - 1]
    requires k + 1 < |ns| ==> ns[|ns| - 1].next == null && ns[k + 1].prev == r && r.next == ns[k + 1]
    requires k == 0 ==> r.prev == null
    requires k + 1 == |ns| ==> r.next == null
    ensures ClosedChain(ns[k := r], vs[k := r.data])
  {
  }

  /** The new element takes over both links of the old one at the head of the list, or at its tail, or in
      between. At an end the outer link is the one copied from the source element. */
  predicate Detached(total: nat, number: nat, prevIsNull: bool, nextIsNull: bool) {
    (number == 0 ==> prevIsNull) && (number == total - 1 ==> nextIsNull)
  }

  /** The pointer writes of cmdb_replace_data_element: r stands where e stood. */
  method Splice(list: List<Datum>, r: Elem<Datum>, number: nat) returns (e: Elem<Datum>)
    requires list.Valid() && 2 <= list.total && number < list.total && r !in list.nodes
    modifies list`head, list`tail, r, list.repr
    ensures |list.nodes| == |list.vals| == list.total
    ensures e == list.nodes[number] && r.data == old(r.data) && e.data == list.vals[number]
    ensures list.head == (if number == 0 then r else list.nodes[0])
    ensures list.tail == (if number == list.total - 1 then r else list.nodes[list.total - 1])
    ensures r.prev == if number == 0 then old(r.prev) else list.nodes[number - 1]
    ensures r.next == if number == list.total - 1 then old(r.next) else list.nodes[number + 1]
    ensures ClosedChain(list.nodes[number := r], list.vals[number := r.data])
            <==> Detached(list.total, number, old(r.prev) == null, old(r.next) == null)
  {
    e := list.head;
    if number == 0 {
      assert list.nodes[0].next == list.nodes[1];
      list.head := r;
      r.next := e.next;
      r.next.prev := r;
    } else if number == list.total - 1 {
      e := list.tail;
      assert list.nodes[number - 1].next == list.nodes[number];
      list.tail := r;
      r.prev := e.prev;
      r.prev.next := r;
    } else {
      for i := 0 to number
        invariant e == list.nodes[i]
      {
        assert list.nodes[i].next == list.nodes[i + 1];
        e := e.next;
      }
      assert list.nodes[number - 1].next == list.nodes[number] && list.nodes[number].next == list.nodes[number + 1];
      e.next.prev := r;
      e.prev.next := r;
      r.next := e.next;
      r.prev := e.prev;
    }
    if Detached(list.total, number, old(r.prev) == null, old(r.next) == null) {
      ReplaceInChain(list.nodes, list.vals, number, r);
    }
  }

  /** The old datum is destroyed; the list then holds r in place of e. */
  method Commit(list: List<Datum>, e: Elem<Datum>, r: Elem<Datum>, ghost number: nat)
    requires number < |list.nodes| == |list.vals| == list.total && e.data == list.vals[number]
    requires list.head == (if number == 0 then r else list.nodes[0])
    requires list.tail == (if number == list.total - 1 then r else list.nodes[list.total - 1])
    requires forall i :: 0 <= i < |list.nodes| ==> list.nodes[i] in list.repr
    modifies list`destroyed, list`nodes, list`vals, list`repr
    ensures list.repr == old(list.repr) + {r}
    ensures list.nodes == old(list.nodes)[number := r] && list.vals == old(list.vals)[number := r.data]
    ensures list.destroyed == old(list.destroyed) + (if list.destroys then [old(list.vals)[number]] else [])
    ensures list.Valid() <==> ClosedChain(list.nodes, list.vals)
  {
    hide Chain, Distinct, ClosedChain;
    list.Destroy(e.data);
    list.nodes, list.vals := list.nodes[number := r], list.vals[number := r.data];
    list.repr := list.repr + {r};
  }

  lemma CopyIsCopy(d: Datum)
    ensures IsCopy(CopyOf(d), d)
  {
  }

  /** cmdb_replace_data_element: element number of the list gives way to a copy of another element. The copy
      carries that element's own links, so at an end of the list the result is well formed exactly when the
      other element had nothing on that side. */
  method ReplaceDataElement(list: List<Datum>, element: Elem?<Datum>, number: nat) returns (res: Result<()>)
    requires list.Valid() && (element != null ==> 2 <= list.total && number < list.total)
    modifies list, list.repr
    ensures element == null ==> res == Err(NoData) && list.Valid() && list.vals == old(list.vals)
    ensures element != null ==>
              && res == Ok(()) && list.total == old(list.total) == |list.nodes|
              && fresh(list.repr - old(list.repr))
              && list.vals == old(list.vals)[number := CopyOf(old(element.data))]
              && IsCopy(list.vals[number], old(element.data))
              && list.nodes == old(list.nodes)[number := list.nodes[number]] && fresh(list.nodes[number])
              && list.destroyed == old(list.destroyed) + (if list.destroys then [old(list.vals)[number]] else [])
              && (list.Valid() <==> Detached(list.total, number, old(element.prev) == null, old(element.next) == null))
  {
    hide Chain, Distinct, ClosedChain, CopyOf;
    if element == null {
      return Err(NoData);
    }
    CopyIsCopy(element.data);
    var r := new Elem(CopyOf(element.data));
    r.prev, r.next := element.prev, element.next;
    var e := Splice(list, r, number);
    Commit(list, e, r, number);
    return Ok(());
  }
}

/** The doubly linked list of the library. */
module LinkedList {
  import opened Results

  class Elem<T> {
    var data: T
    var prev: Elem?<T>
    var next: Elem?<T>

    constructor (data: T)
      ensures this.data == data && prev == null && next == null
    {
      this.data := data;
      prev, next := null, null;
    }
  }

  /** Where a cloned element goes. */
  datatype Place = Before | After | Head | Tail | NoPlace | OtherPlace

  function InsertAt<X>(s: seq<X>, k: nat, x: X): (r: seq<X>)
    requires k <= |s|
    ensures |r| == |s| + 1 && r[k] == x
    ensures k > 0 ==> r[0] == s[0]
    ensures k < |s| ==> r[|s|] == s[|s| - 1]
    ensures forall y :: y in r ==> y == x || y in s
  {
    s[..k] + [x] + s[k..]
  }

  function RemoveAt<X>(s: seq<X>, k: nat): (r: seq<X>)
    requires k < |s|
    ensures |r| == |s| - 1
    ensures r != [] ==> r[0] == (if k > 0 then s[0] else s[1])
    ensures r != [] ==> r[|r| - 1] == if k + 1 < |s| then s[|s| - 1] else s[k - 1]
    ensures forall y :: y in r ==> y in s
  {
    s[..k] + s[k + 1..]
  }

  /** The sequence without the run of gap elements that starts at k. */
  function WithoutRun<X>(s: seq<X>, k: nat, gap: nat): (r: seq<X>)
    requires k + gap <= |s|
    ensures |r| == |s| - gap
    ensures forall x :: x in r ==> x in s
  {
    s[..k] + s[k + gap..]
  }

  ghost predicate Distinct<X>(s: seq<X>) {
    forall i, j :: 0 <= i < j < |s| ==> s[i] != s[j]
  }

  lemma InsertDistinct<X>(s: seq<X>, k: nat, x: X)
    requires k <= |s| && Distinct(s) && x !in s
    ensures Distinct(InsertAt(s, k, x))
  {
  }

  lemma InsertedIn<X>(s: seq<X>, k: nat, x: X, all: set<X>)
    requires k <= |s| && forall i :: 0 <= i < |s| ==> s[i] in all
    ensures forall i :: 0 <= i <= |s| ==> InsertAt(s, k, x)[i] in all + {x}
  {
  }

  lemma InsertAtEnd<X>(s: seq<X>, x: X)
    ensures InsertAt(s, |s|, x) == s + [x]
  {
  }

  /** From lo up to hi, neighbours point at each other and each element holds its value. */
  ghost predicate Chain<T>(ns: seq<Elem<T>>, vs: seq<T>, lo: nat, hi: nat)
    requires hi <= |ns| == |vs|
    reads ns
  {
    && (forall i, j :: lo <= i < j < hi && j == i + 1 ==> ns[i].next == ns[j] && ns[j].prev == ns[i])
    && (forall i :: lo <= i < hi ==> ns[i].data == vs[i])
  }

  /** A chain with nothing before its first and nothing after its last element. */
  ghost predicate ClosedChain<T>(ns: seq<Elem<T>>, vs: seq<T>)
    reads ns
  {
    && |ns| == |vs|
    && Chain(ns, vs, 0, |ns|)
    && Distinct(ns)
    && (ns != [] ==> ns[0].prev == null && ns[|ns| - 1].next == null)
  }

  /** Two chains joined through n form a chain. */
  lemma JoinChains<T>(ns: seq<Elem<T>>, vs: seq<T>, k: nat, n: Elem<T>)
    requires Distinct(ns) && n !in ns && k <= |ns| == |vs|
    requires Chain(ns, vs, 0, k) && Chain(ns, vs, k, |ns|)
    requires n.prev == (if k == 0 then null else ns[k - 1]) && n.next == if k == |ns| then null else ns[k]
    requires k > 0 ==> ns[0].prev == null && ns[k - 1].next == n
    requires k < |ns| ==> ns[|ns| - 1].next == null && ns[k].prev == n
    ensures ClosedChain(InsertAt(ns, k, n), InsertAt(vs, k, n.data))
  {
    var all, vals := InsertAt(ns, k, n), InsertAt(vs, k, n.data);
    InsertDistinct(ns, k, n);
    forall i, j | 0 <= i < j < |all| && j == i + 1 ensures all[i].next == all[j] && all[j].prev == all[i] {
      if i > k { assert all[i] == ns[i - 1] && all[j] == ns[j - 1]; }
    }
  }

  /** Two chains joined over the gap left by an element form a chain. */
  lemma JoinOverGap<T>(ns: seq<Elem<T>>, vs: seq<T>, k: nat)
    requires Distinct(ns) && k < |ns| == |vs|
    requires Chain(ns, vs, 0, k) && Chain(ns, vs, k + 1, |ns|)
    requires k > 0 ==> ns[0].prev == null && ns[k - 1].next == if k + 1 < |ns| then ns[k + 1] else null
    requires k + 1 < |ns| ==> ns[|ns| - 1].next == null && ns[k + 1].prev == if k > 0 then ns[k - 1] else null
    ensures ClosedChain(RemoveAt(ns, k), RemoveAt(vs, k))
  {
    var all, vals := RemoveAt(ns, k), RemoveAt(vs, k);
    forall i, j | 0 <= i < j < |all| && j == i + 1 ensures all[i].next == all[j] && all[j].prev == all[i] {
      if i >= k { assert all[i] == ns[i + 1] && all[j] == ns[j + 1]; }
    }
  }

  class List<T> {
    var total: nat
    var head: Elem?<T>
    var tail: Elem?<T>
    const destroys: bool          // whether the list has a destroy function
    ghost var nodes: seq<Elem<T>> // the elements, head first
    ghost var vals: seq<T>        // their data
    ghost var repr: set<Elem<T>>  // every element the list has ever linked
    ghost var destroyed: seq<T>   // what the destroy function has been called on, in order

    ghost predicate Valid()
      reads this, repr
    {
      && (forall i :: 0 <= i < |nodes| ==> nodes[i] in repr)
      && total == |nodes| == |vals|
      && ClosedChain(nodes, vals)
      && head == (if total == 0 then null else nodes[0])
      && tail == (if total == 0 then null else nodes[total - 1])
    }

    /** The place of an element in the list. */
    ghost function IndexOf(e: Elem<T>): (k: nat)
      requires e in nodes
      reads this
      ensures k < |nodes| && nodes[k] == e
    {
      var k :| 0 <= k < |nodes| && nodes[k] == e;
      k
    }

    /** The neighbours of an element are the elements on either side of it. */
    lemma Neighbours(e: Elem<T>)
      requires Valid() && e in nodes
      ensures var k := IndexOf(e);
              && (e.next == null <==> k + 1 == |nodes|) && (e.next != null ==> e.next == nodes[k + 1])
              && (e.prev == null <==> k == 0) && (e.prev != null ==> e.prev == nodes[k - 1])
              && (e == head <==> k == 0)
    {
      var k := IndexOf(e);
      if k + 1 < |nodes| { assert nodes[k].next == nodes[k + 1]; }
      if k > 0 { assert nodes[k].prev == nodes[k - 1]; }
    }

    lemma DataOf(k: nat)
      requires Valid() && k < |nodes|
      ensures nodes[k].data == vals[k]
    {
    }

    /** Writing to the data of element k in place. */
    method SetData(e: Elem<T>, ghost k: nat, x: T)
      requires Valid() && k < |nodes| && nodes[k] == e
      modifies e`data, `vals
      ensures Valid() && vals == old(vals)[k := x]
    {
      e.data := x;
      vals := vals[k := x];
    }

    /** ailsa_list_init */
    constructor (destroys: bool)
      ensures Valid() && vals == [] && nodes == [] && repr == {} && destroyed == [] && this.destroys == destroys
    {
      this.destroys := destroys;
      total := 0;
      head, tail := null, null;
      nodes, vals, repr, destroyed := [], [], {}, [];
    }

    /** The pointer writes shared by the insertions: n goes between before and after, either of which may be
        missing at an end of the list. */
    method Relink(n: Elem<T>, before: Elem?<T>, after: Elem?<T>)
      requires n != before && n != after && (before == null || before != after)
      modifies `head, `tail, n`prev, n`next
      modifies (if before == null then {} else {before})`next, (if after == null then {} else {after})`prev
      ensures n.prev == before && n.next == after
      ensures if before == null then head == n else before.next == n && head == old(head)
      ensures if after == null then tail == n else after.prev == n && tail == old(tail)
    {
      n.prev := before;
      n.next := after;
      if before == null { head := n; } else { before.next := n; }
      if after == null { tail := n; } else { after.prev := n; }
    }

    /** Relinking at place k closes the chain again, around the new element. */
    method LinkIn(n: Elem<T>, before: Elem?<T>, after: Elem?<T>, ghost k: nat)
      requires Valid() && k <= |nodes| && n !in nodes
      requires before == if k == 0 then null else nodes[k - 1]
      requires after == if k == |nodes| then null else nodes[k]
      modifies `head, `tail, n, repr
      ensures n.data == old(n.data) && |nodes| == |vals|
      ensures ClosedChain(InsertAt(nodes, k, n), InsertAt(vals, k, n.data))
      ensures head == InsertAt(nodes, k, n)[0] && tail == InsertAt(nodes, k, n)[|nodes|]
    {
      Relink(n, before, after);
      JoinChains(nodes, vals, k, n);
      assert |nodes| == |vals|;
      hide Chain, Distinct, ClosedChain, InsertAt;
    }

    /** A new element at place k of the list. */
    method Link(before: Elem?<T>, after: Elem?<T>, data: T, ghost k: nat)
      requires Valid() && k <= |nodes|
      requires before == if k == 0 then null else nodes[k - 1]
      requires after == if k == |nodes| then null else nodes[k]
      modifies this, repr
      ensures Valid() && destroyed == old(destroyed) && fresh(repr - old(repr))
      ensures |nodes| == |old(nodes)| + 1 && fresh(nodes[k])
      ensures nodes == InsertAt(old(nodes), k, nodes[k])
      ensures vals == InsertAt(old(vals), k, data)
    {
      hide Chain, Distinct, InsertAt, ClosedChain;
      var n := new Elem<T>(data);
      LinkIn(n, before, after, k);
      Count(n, k);
    }

    /** The last step of an insertion: count the linked element. */
    method Count(n: Elem<T>, ghost k: nat)
      requires total == |nodes| == |vals| && k <= |nodes|
      requires ClosedChain(InsertAt(nodes, k, n), InsertAt(vals, k, n.data))
      requires head == InsertAt(nodes, k, n)[0] && tail == InsertAt(nodes, k, n)[|nodes|]
      requires forall i :: 0 <= i < |nodes| ==> nodes[i] in repr
      modifies `total, `nodes, `vals, `repr
      ensures Valid() && repr == old(repr) + {n}
      ensures nodes == InsertAt(old(nodes), k, n) && vals == InsertAt(old(vals), k, n.data)
    {
      InsertedIn(nodes, k, n, repr);
      hide Chain, Distinct, ClosedChain, InsertAt;
      nodes, vals := InsertAt(nodes, k, n), InsertAt(vals, k, n.data);
      repr := repr + {n};
      total := total + 1;
    }

    /** ailsa_list_ins_next: a null anchor is refused unless the list is empty. */
    method InsNext(element: Elem?<T>, data: T) returns (r: int)
      requires Valid() && (element != null && total != 0 ==> element in nodes)
      modifies this, repr
      ensures Valid() && destroyed == old(destroyed) && fresh(repr - old(repr))
      ensures r == if element == null && old(total) != 0 then -1 else 0
      ensures r == -1 ==> nodes == old(nodes) && vals == old(vals) && repr == old(repr)
      ensures r == 0 ==>
                var k := if old(total) == 0 then 0 else old(IndexOf(element)) + 1;
                && |nodes| == |old(nodes)| + 1 && fresh(nodes[k])
                && nodes == InsertAt(old(nodes), k, nodes[k])
                && vals == InsertAt(old(vals), k, data)
    {
      if element == null && total != 0 {
        return -1;
      }
      if total == 0 {
        Link(null, null, data, 0);
      } else {
        Neighbours(element);
        Link(element, element.next, data, IndexOf(element) + 1);
      }
      return 0;
    }

    /** ailsa_list_ins_prev */
    method InsPrev(element: Elem?<T>, data: T) returns (r: int)
      requires Valid() && (element != null && total != 0 ==> element in nodes)
      modifies this, repr
      ensures Valid() && destroyed == old(destroyed) && fresh(repr - old(repr))
      ensures r == if element == null && old(total) != 0 then -1 else 0
      ensures r == -1 ==> nodes == old(nodes) && vals == old(vals) && repr == old(repr)
      ensures r == 0 ==>
                var k := if old(total) == 0 then 0 else old(IndexOf(element));
                && |nodes| == |old(nodes)| + 1 && fresh(nodes[k])
                && nodes == InsertAt(old(nodes), k, nodes[k])
                && vals == InsertAt(old(vals), k, data)
    {
      if element == null && total != 0 {
        return -1;
      }
      if total == 0 {
        Link(null, null, data, 0);
      } else {
        Neighbours(element);
        Link(element.prev, element, data, IndexOf(element));
      }
      return 0;
    }

    /** ailsa_list_insert: append; None stands for a null pointer, which is refused. */
    method Insert(data: Option<T>) returns (r: int)
      requires Valid()
      modifies this, repr
      ensures Valid() && destroyed == old(destroyed) && fresh(repr - old(repr))
      ensures r == if data.None? then -1 else 0
      ensures data.None? ==> nodes == old(nodes) && vals == old(vals)
      ensures data.Some? ==> vals == old(vals) + [data.value]
                             && |nodes| == |old(nodes)| + 1 && fresh(nodes[|nodes| - 1])
                             && nodes == old(nodes) + [nodes[|nodes| - 1]]
    {
      if data.None? {
        return -1;
      }
      hide Chain, Distinct, ClosedChain, InsertAt;
      InsertAtEnd(vals, data.value);
      if total == 0 {
        r := InsNext(null, data.value);
      } else {
        var n := new Elem<T>(data.value);
        LinkLast(n);
        ghost var k := |nodes|;
        InsertAtEnd(nodes, n);
        Count(n, k);
        return 0;
      }
    }

    /** The pointer writes of ailsa_list_insert close the chain again, with the new element as its last. */
    method LinkLast(n: Elem<T>)
      requires Valid() && total != 0 && n !in nodes && n.prev == null && n.next == null
      modifies `tail, n`prev, repr
      ensures n.data == old(n.data) && |nodes| == |vals|
      ensures ClosedChain(InsertAt(nodes, |nodes|, n), InsertAt(vals, |nodes|, n.data))
      ensures tail == n
    {
      var tmp := tail;
      tmp.next := n;
      n.prev := tail;
      tail := n;
      JoinChains(nodes, vals, |nodes|, n);
      assert |nodes| == |vals|;
      hide Chain, Distinct, ClosedChain, InsertAt;
    }

    /** The pointer writes of ailsa_list_remove: its neighbours now point past the element. */
    method PointPast(element: Elem<T>)
      requires element == head <==> element.prev == null
      requires element.prev != element && element.next != element
      requires element.prev != null ==> element.prev != element.next
      modifies `head, `tail
      modifies (if element.prev == null then {} else {element.prev})`next
      modifies (if element.next == null then {} else {element.next})`prev
      ensures if element.prev == null then head == element.next
              else element.prev.next == element.next && head == old(head)
      ensures if element.next == null then tail == element.prev
              else element.next.prev == element.prev && tail == old(tail)
    {
      if element == head {
        head := element.next;
        if head == null {
          tail := null;
        } else {
          element.next.prev := null;
        }
      } else {
        element.prev.next := element.next;
        if element.next == null {
          tail := element.prev;
        } else {
          element.next.prev := element.prev;
        }
      }
    }

    /** Pointing past element k closes the chain again, without it. */
    method Bypass(element: Elem<T>, ghost k: nat)
      requires Valid() && k < |nodes| && nodes[k] == element
      modifies `head, `tail, repr
      ensures |nodes| == |vals|
      ensures ClosedChain(RemoveAt(nodes, k), RemoveAt(vals, k))
      ensures head == if k > 0 then nodes[0] else if k + 1 < |nodes| then nodes[1] else null
      ensures tail == if k + 1 < |nodes| then nodes[|nodes| - 1] else if k > 0 then nodes[k - 1] else null
    {
      assert k + 1 < |nodes| ==> nodes[k].next == nodes[k + 1];
      assert k > 0 ==> nodes[k].prev == nodes[k - 1];
      PointPast(element);
      JoinOverGap(nodes, vals, k);
      assert |nodes| == |vals|;
      hide Chain, Distinct, ClosedChain, RemoveAt;
    }

    /** Take an element of the list out of the chain. */
    method Unlink(element: Elem<T>)
      requires Valid() && element in nodes
      modifies this, repr
      ensures Valid() && repr == old(repr) && destroyed == old(destroyed)
      ensures nodes == RemoveAt(old(nodes), old(IndexOf(element)))
      ensures vals == RemoveAt(old(vals), old(IndexOf(element)))
    {
      ghost var k := IndexOf(element);
      hide Chain, Distinct, ClosedChain, RemoveAt;
      Bypass(element, k);
      Uncount(k);
    }

    /** The last step of a removal: the element that was pointed past is no longer counted. */
    method Uncount(ghost k: nat)
      requires total == |nodes| == |vals| && k < |nodes|
      requires ClosedChain(RemoveAt(nodes, k), RemoveAt(vals, k))
      requires head == if k > 0 then nodes[0] else if k + 1 < |nodes| then nodes[1] else null
      requires tail == if k + 1 < |nodes| then nodes[|nodes| - 1] else if k > 0 then nodes[k - 1] else null
      requires forall i :: 0 <= i < |nodes| ==> nodes[i] in repr
      modifies `total, `nodes, `vals
      ensures Valid() && nodes == RemoveAt(old(nodes), k) && vals == RemoveAt(old(vals), k)
    {
      hide Chain, Distinct, ClosedChain, RemoveAt;
      total := total - 1;
      nodes, vals := RemoveAt(nodes, k), RemoveAt(vals, k);
      assert forall i :: 0 <= i < |nodes| ==> nodes[i] in nodes;
    }

    /** ailsa_list_remove: unlink an element of the list and hand back its data. */
    method Remove(element: Elem?<T>) returns (r: int, data: Option<T>)
      requires Valid() && (element != null && total != 0 ==> element in nodes)
      modifies this, repr
      ensures Valid() && repr == old(repr) && destroyed == old(destroyed)
      ensures r == if element == null || old(total) == 0 then -1 else 0
      ensures r == -1 ==> nodes == old(nodes) && vals == old(vals) && data == None
      ensures r == 0 ==> var k := old(IndexOf(element));
                         && data == Some(old(vals)[k])
                         && nodes == RemoveAt(old(nodes), k) && vals == RemoveAt(old(vals), k)
    {
      if element == null || total == 0 {
        return -1, None;
      }
      data := Some(element.data);
      assert data.value == vals[IndexOf(element)];
      Unlink(element);
      return 0, data;
    }

    /** An element is at one place only. */
    lemma IndexUnique(e: Elem<T>, k: nat)
      requires Valid() && k < |nodes| && nodes[k] == e
      ensures e in nodes && IndexOf(e) == k
    {
      var i := IndexOf(e);
      assert nodes[i] == e;
    }

    /** The destroy function is called on a datum, when there is one. */
    method Destroy(data: T)
      modifies `destroyed
      ensures destroyed == if destroys then old(destroyed) + [data] else old(destroyed)
    {
      if destroys { destroyed := destroyed + [data]; }
    }

    /** What comes after element k. */
    method Following(p: Elem<T>, ghost k: nat) returns (n: Elem?<T>)
      requires Valid() && k < |nodes| && nodes[k] == p
      ensures n == if k + 1 < |nodes| then nodes[k + 1] else null
    {
      hide Chain, Distinct, ClosedChain;
      IndexUnique(p, k);
      Neighbours(p);
      n := p.next;
    }

    /** One round of ailsa_list_remove_elements: remove p and say what came after it. */
    method RemoveCounting(p: Elem<T>, ghost k: nat) returns (n: Elem?<T>, counted: bool)
      requires Valid() && k < |nodes| && nodes[k] == p
      modifies this, repr
      ensures Valid() && repr == old(repr) && nodes == RemoveAt(old(nodes), k) && vals == RemoveAt(old(vals), k)
      ensures n == if k + 1 < |old(nodes)| then old(nodes)[k + 1] else null
      ensures |old(nodes)| == |old(vals)| && counted == destroys
      ensures destroyed == old(destroyed) + (if destroys then [old(vals)[k]] else [])
    {
      hide Chain, Distinct, RemoveAt, ClosedChain;
      n := Following(p, k);
      IndexUnique(p, k);
      var retval, d := Remove(p);
      counted := retval == 0 && destroys;
      if counted { Destroy(d.value); }
    }

    /** The loop of ailsa_list_remove_elements; no counts the destroyed. */
    method RemoveRun(e: Elem<T>, ghost k: nat, len: nat) returns (no: nat)
      requires Valid() && k + len <= |nodes| == |vals| && k < |nodes| && nodes[k] == e
      modifies this, repr
      ensures Valid() && repr == old(repr) && no == if destroys then len else 0
      ensures nodes == WithoutRun(old(nodes), k, len) && vals == WithoutRun(old(vals), k, len)
      ensures destroyed == old(destroyed) + (if destroys then old(vals)[k..k + len] else [])
    {
      ghost var ns, vs := nodes, vals;
      hide Chain, Distinct, RemoveAt, ClosedChain, WithoutRun;
      NoGap(ns, k);
      NoGap(vs, k);
      no := 0;
      var p: Elem?<T> := e;
      for count := 0 to len
        invariant Valid() && repr == old(repr) && no == if destroys then count else 0
        invariant nodes == WithoutRun(ns, k, count) && vals == WithoutRun(vs, k, count)
        invariant p == if k + count < |ns| then ns[k + count] else null
        invariant destroyed == old(destroyed) + (if destroys then vs[k..k + count] else [])
      {
        WidenGap(ns, vs, old(destroyed), k, count);
        var n, counted := RemoveCounting(p, k);
        if counted { no := no + 1; }
        p := n;
      }
    }

    /** ailsa_list_remove_elements: remove len elements from e on. Without a destroy function everything is
        removed all the same, but nothing is counted and an error is returned. */
    method RemoveElements(e: Elem?<T>, len: nat) returns (r: Result<()>)
      requires Valid() && (e != null ==> e in nodes && IndexOf(e) + len <= |nodes|)
      modifies this, repr
      ensures Valid() && repr == old(repr)
      ensures e == null ==> r == Err(NoData) && vals == old(vals) && nodes == old(nodes) && destroyed == old(destroyed)
      ensures e != null ==>
                var k := old(IndexOf(e));
                && r == (if destroys || len == 0 then Ok(()) else Err(ListError))
                && vals == WithoutRun(old(vals), k, len) && nodes == WithoutRun(old(nodes), k, len)
                && destroyed == old(destroyed) + (if destroys then old(vals)[k..k + len] else [])
    {
      if e == null {
        return Err(NoData);
      }
      var no := RemoveRun(e, IndexOf(e), len);
      return if no != len then Err(ListError) else Ok(());
    }

    /** One round of ailsa_list_clean. */
    method DropTail()
      requires Valid() && total > 0
      modifies this, repr
      ensures Valid() && repr == old(repr)
      ensures nodes == old(nodes)[..|old(nodes)| - 1] && vals == old(vals)[..|old(vals)| - 1]
      ensures destroyed == old(destroyed) + (if destroys then [old(vals)[|old(vals)| - 1]] else [])
    {
      IndexUnique(tail, total - 1);
      var retval, data := Remove(tail);
      if retval == 0 { Destroy(data.value); }
    }

    /** ailsa_list_clean: drain the list from its tail, destroying each datum once. */
    method Clean()
      requires Valid()
      modifies this, repr
      ensures Valid() && repr == old(repr) && total == 0 && vals == [] && nodes == []
      ensures destroyed == old(destroyed) + (if destroys then Reverse(old(vals)) else [])
    {
      ghost var ns, vs := nodes, vals;
      hide Chain, Distinct;
      while total > 0
        invariant Valid() && repr == old(repr) && total == |nodes| == |vals| <= |vs|
        invariant nodes == ns[..total] && vals == vs[..total]
        invariant destroyed == old(destroyed) + (if destroys then Reverse(vs[total..]) else [])
      {
        assert vs[total - 1..][1..] == vs[total..];
        DropTail();
      }
      assert vs[0..] == vs;
    }

    /** ailsa_list_get_element: elements are numbered from one. */
    method GetElement(number: nat) returns (e: Elem?<T>)
      requires Valid()
      ensures e == if number == 0 || number > |nodes| then null else nodes[number - 1]
    {
      if number == 0 || number > total {
        return null;
      }
      e := head;
      for i := 1 to number
        invariant e == nodes[i - 1]
      {
        assert nodes[i - 1].next == nodes[i];
        e := e.next;
      }
    }

    /** ailsa_move_down_list: step along the list, staying at null once its end is passed. */
    method MoveDown(element: Elem?<T>, number: nat) returns (e: Elem?<T>)
      requires Valid() && (element != null ==> element in nodes)
      ensures element == null ==> e == null
      ensures element != null ==>
                e == if IndexOf(element) + number < |nodes| then nodes[IndexOf(element) + number] else null
    {
      if element == null {
        return null;
      }
      ghost var k := IndexOf(element);
      e := element;
      for i := 0 to number
        invariant e == if k + i < |nodes| then nodes[k + i] else null
      {
        if e != null {
          assert k + i + 1 < |nodes| ==> nodes[k + i].next == nodes[k + i + 1];
          e := e.next;
        }
      }
    }

    /** ailsa_list_insert_clone: a copy of an element's data goes before or after ptr, or to an end. */
    method InsertClone(copy: Elem?<T>, ptr: Elem?<T>, action: Place, size: nat) returns (r: Result<()>)
      requires Valid() && (ptr != null && total != 0 ==> ptr in nodes)
      modifies this, repr
      ensures Valid() && destroyed == old(destroyed) && fresh(repr - old(repr))
      ensures r.Ok? <==> copy != null && size != 0 && (action == Head || action == Tail
                                                       || (ptr != null && (action == Before || action == After)))
      ensures r.Err? ==> vals == old(vals) && nodes == old(nodes)
      ensures r.Ok? ==>
                var k := if old(total) == 0 then 0
                         else if action == Head then 0
                         else if action == Tail then old(total)
                         else if action == Before then old(IndexOf(ptr))
                         else old(IndexOf(ptr)) + 1;
                && |nodes| == |old(nodes)| + 1 && fresh(nodes[k])
                && nodes == InsertAt(old(nodes), k, nodes[k])
                && vals == InsertAt(old(vals), k, old(copy.data))
    {
      if copy == null || action == NoPlace || size == 0 {
        return Err(ListError);
      }
      var data := copy.data;
      var retval := -1;
      if total != 0 {
        IndexUnique(head, 0);
        IndexUnique(tail, total - 1);
      }
      match action {
        case Before => if ptr != null { retval := InsPrev(ptr, data); }
        case After => if ptr != null { retval := InsNext(ptr, data); }
        case Head => retval := InsPrev(head, data);
        case Tail => retval := InsNext(tail, data);
        case _ =>
      }
      return if retval != 0 then Err(ListError) else Ok(());
    }
  }

  function Reverse<X>(s: seq<X>): (r: seq<X>)
    ensures |r| == |s|
    ensures forall i :: 0 <= i < |s| ==> r[i] == s[|s| - 1 - i]
  {
    if s == [] then [] else Reverse(s[1..]) + [s[0]]
  }

  lemma NoGap<X>(s: seq<X>, k: nat)
    requires k <= |s|
    ensures WithoutRun(s, k, 0) == s
  {
  }

  /** Removing the element behind a gap widens the gap by one, and the log by that element. */
  lemma WidenGap<X, Y>(ns: seq<Y>, vs: seq<X>, log: seq<X>, k: nat, gap: nat)
    requires k + gap < |ns| == |vs|
    ensures WithoutRun(ns, k, gap)[k] == ns[k + gap]
    ensures k + 1 < |WithoutRun(ns, k, gap)| ==> WithoutRun(ns, k, gap)[k + 1] == ns[k + gap + 1]
    ensures RemoveAt(WithoutRun(ns, k, gap), k) == WithoutRun(ns, k, gap + 1)
    ensures RemoveAt(WithoutRun(vs, k, gap), k) == WithoutRun(vs, k, gap + 1)
    ensures log + vs[k..k + gap] + [WithoutRun(vs, k, gap)[k]] == log + vs[k..k + gap + 1]
  {
  }

  lemma {:induction false} ReverseMultiset<X>(s: seq<X>)
    ensures multiset(Reverse(s)) == multiset(s)
  {
    if s != [] {
      ReverseMultiset(s[1..]);
      assert s == [s[0]] + s[1..];
    }
  }
}

/** Runs of list operations, against a plain sequence. Elements are named by their number, from one,
    as ailsa_list_get_element numbers them. */
module ListRuns {
  import opened Results
  import opened LinkedList
  import opened DataElements

  datatype Op<T> =
    | InsertNext(number: nat, x: T)
    | InsertPrev(number: nat, x: T)
    | Append(x: T)
    | Clone(number: nat, at: nat, place: Place, size: nat)
    | Replace(number: nat, x: T)
    | Remove(number: nat)
    | RemoveSome(number: nat, len: nat)
    | Clean

  /** What a run leaves: the list, what was destroyed, what was handed back to callers, and what was dropped because
      the list has no destroy function. */
  datatype State<T> = State(vals: seq<T>, destroyed: seq<T>, taken: seq<T>, dropped: seq<T>, destroys: bool)

  predicate Exists<T>(s: seq<T>, number: nat) { 1 <= number <= |s| }

  /** RemoveSome must not run past the end of the list, and Replace needs an element and another one: the code would
      follow a null pointer. */
  predicate Allowed<T>(s: seq<T>, op: Op<T>) {
    && (op.RemoveSome? && Exists(s, op.number) ==> op.number - 1 + op.len <= |s|)
    && (op.Replace? ==> Exists(s, op.number) && 2 <= |s|)
  }

  /** Data given up by the list: destroyed, when it has a destroy function. */
  function GiveUp<T>(st: State<T>, vals: seq<T>, data: seq<T>): State<T> {
    if st.destroys then st.(vals := vals, destroyed := st.destroyed + data)
    else st.(vals := vals, dropped := st.dropped + data)
  }

  /** Where a clone goes: nowhere without an element to copy or a size, nor next to an element there is not. */
  function ClonePlace<T>(s: seq<T>, op: Op<T>): (k: Option<nat>)
    requires op.Clone?
    ensures k.Some? ==> Exists(s, op.number) && k.value <= |s|
  {
    if !Exists(s, op.number) || op.size == 0 then None
    else
      match op.place
      case Head => Some(0)
      case Tail => Some(|s|)
      case Before => if Exists(s, op.at) then Some(op.at - 1) else None
      case After => if Exists(s, op.at) then Some(op.at) else None
      case _ => None
  }

  function Step<T>(st: State<T>, op: Op<T>): State<T>
    requires Allowed(st.vals, op)
  {
    var s := st.vals;
    match op
    case InsertNext(n, x) =>
      if s == [] then st.(vals := [x]) else if Exists(s, n) then st.(vals := InsertAt(s, n, x)) else st
    case InsertPrev(n, x) =>
      if s == [] then st.(vals := [x]) else if Exists(s, n) then st.(vals := InsertAt(s, n - 1, x)) else st
    case Append(x) => st.(vals := s + [x])
    case Clone(n, _, _, _) =>
      (match ClonePlace(s, op) case None => st case Some(k) => st.(vals := InsertAt(s, k, s[n - 1])))
    case Replace(n, x) => GiveUp(st, s[n - 1 := x], [s[n - 1]])
    case Remove(n) =>
      if Exists(s, n) then st.(vals := RemoveAt(s, n - 1), taken := st.taken + [s[n - 1]]) else st
    case RemoveSome(n, len) =>
      if Exists(s, n) then GiveUp(st, WithoutRun(s, n - 1, len), s[n - 1..n - 1 + len]) else st
    case Clean => GiveUp(st, [], Reverse(s))
  }

  /** What an operation puts into the list. */
  function Added<T>(s: seq<T>, op: Op<T>): multiset<T> {
    match op
    case InsertNext(n, x) => if s == [] || Exists(s, n) then multiset{x} else multiset{}
    case InsertPrev(n, x) => if s == [] || Exists(s, n) then multiset{x} else multiset{}
    case Append(x) => multiset{x}
    case Clone(n, _, _, _) => if ClonePlace(s, op).Some? then multiset{s[n - 1]} else multiset{}
    case Replace(n, x) => multiset{x}
    case _ => multiset{}
  }

  ghost predicate AllowedRun<T>(st: State<T>, ops: seq<Op<T>>)
    decreases |ops|
  {
    ops == [] || (Allowed(st.vals, ops[0]) && AllowedRun(Step(st, ops[0]), ops[1..]))
  }

  ghost function Run<T>(st: State<T>, ops: seq<Op<T>>): State<T>
    requires AllowedRun(st, ops)
    decreases |ops|
  {
    if ops == [] then st else Run(Step(st, ops[0]), ops[1..])
  }

  ghost function AddedBy<T>(st: State<T>, ops: seq<Op<T>>): multiset<T>
    requires AllowedRun(st, ops)
    decreases |ops|
  {
    if ops == [] then multiset{} else Added(st.vals, ops[0]) + AddedBy(Step(st, ops[0]), ops[1..])
  }

  function Everything<T>(st: State<T>): multiset<T> {
    multiset(st.vals) + multiset(st.destroyed) + multiset(st.taken) + multiset(st.dropped)
  }

  lemma InsertConserves<T>(s: seq<T>, k: nat, x: T)
    requires k <= |s|
    ensures multiset(InsertAt(s, k, x)) == multiset(s) + multiset{x}
  {
    assert s == s[..k] + s[k..];
  }

  lemma RemoveConserves<T>(s: seq<T>, k: nat)
    requires k < |s|
    ensures multiset(RemoveAt(s, k)) + multiset{s[k]} == multiset(s)
  {
    assert s == s[..k] + [s[k]] + s[k + 1..];
  }

  lemma ReplaceConserves<T>(s: seq<T>, k: nat, x: T)
    requires k < |s|
    ensures multiset(s[k := x]) + multiset{s[k]} == multiset(s) + multiset{x}
  {
    assert s == s[..k] + [s[k]] + s[k + 1..] && s[k := x] == s[..k] + [x] + s[k + 1..];
  }

  lemma RunOfConserves<T>(s: seq<T>, k: nat, len: nat)
    requires k + len <= |s|
    ensures multiset(WithoutRun(s, k, len)) + multiset(s[k..k + len]) == multiset(s)
  {
    assert s == s[..k] + s[k..k + len] + s[k + len..];
  }

  /** One step keeps everything, plus what it added. */
  ghost predicate Conserves<T>(st: State<T>, op: Op<T>)
    requires Allowed(st.vals, op)
  {
    Everything(Step(st, op)) == Everything(st) + Added(st.vals, op)
  }

  lemma GrownConserves<T>(st: State<T>, vals: seq<T>, x: multiset<T>)
    requires multiset(vals) == multiset(st.vals) + x
    ensures Everything(st.(vals := vals)) == Everything(st) + x
  {
  }

  /** Giving data up moves them from one pile to another. */
  lemma GiveUpConserves<T>(st: State<T>, vals: seq<T>, data: seq<T>, x: multiset<T>)
    requires multiset(vals) + multiset(data) == multiset(st.vals) + x
    ensures Everything(GiveUp(st, vals, data)) == Everything(st) + x
  {
    assert multiset(st.destroyed + data) == multiset(st.destroyed) + multiset(data);
    assert multiset(st.dropped + data) == multiset(st.dropped) + multiset(data);
    Moved(multiset(vals), multiset(data), multiset(st.vals), x, multiset(st.destroyed), multiset(st.taken),
          multiset(st.dropped));
  }

  lemma HandBackConserves<T>(st: State<T>, vals: seq<T>, x: T)
    requires multiset(vals) + multiset{x} == multiset(st.vals)
    ensures Everything(st.(vals := vals, taken := st.taken + [x])) == Everything(st)
  {
    assert multiset(st.taken + [x]) == multiset(st.taken) + multiset{x};
    assert multiset(vals) + multiset(st.destroyed) + (multiset(st.taken) + multiset{x}) + multiset(st.dropped)
           == (multiset(vals) + multiset{x}) + multiset(st.destroyed) + multiset(st.taken) + multiset(st.dropped);
  }

  lemma Moved<T>(v: multiset<T>, part: multiset<T>, was: multiset<T>, x: multiset<T>, d: multiset<T>, t: multiset<T>,
                 r: multiset<T>)
    requires v + part == was + x
    ensures v + (d + part) + t + r == was + d + t + r + x
    ensures v + d + t + (r + part) == was + d + t + r + x
  {
    assert v + (d + part) + t + r == (v + part) + (d + t + r) == v + d + t + (r + part);
    assert was + d + t + r + x == (was + x) + (d + t + r);
  }

  lemma InsertionConserves<T>(st: State<T>, op: Op<T>)
    requires op.InsertNext? || op.InsertPrev?
    ensures Conserves(st, op)
  {
    hide InsertAt, Everything;
    var s := st.vals;
    GrownConserves(st, s, multiset{});
    if s == [] {
      GrownConserves(st, [op.x], multiset{op.x});
    } else if Exists(s, op.number) {
      var k := if op.InsertNext? then op.number else op.number - 1;
      InsertConserves(s, k, op.x);
      GrownConserves(st, InsertAt(s, k, op.x), multiset{op.x});
    }
  }

  lemma CloneConserves<T>(st: State<T>, op: Op<T>)
    requires op.Clone?
    ensures Conserves(st, op)
  {
    hide InsertAt, Everything, ClonePlace;
    var s := st.vals;
    GrownConserves(st, s, multiset{});
    match ClonePlace(s, op)
    case None =>
    case Some(k) =>
      InsertConserves(s, k, s[op.number - 1]);
      GrownConserves(st, InsertAt(s, k, s[op.number - 1]), multiset{s[op.number - 1]});
  }

  lemma RemoveStepConserves<T>(st: State<T>, n: nat)
    ensures Conserves(st, Remove(n))
  {
    hide RemoveAt, Everything;
    var s := st.vals;
    GrownConserves(st, s, multiset{});
    if Exists(s, n) {
      RemoveConserves(s, n - 1);
      HandBackConserves(st, RemoveAt(s, n - 1), s[n - 1]);
    }
  }

  lemma RemoveSomeConserves<T>(st: State<T>, n: nat, len: nat)
    requires Allowed(st.vals, RemoveSome(n, len))
    ensures Conserves(st, RemoveSome(n, len))
  {
    hide WithoutRun, Everything, GiveUp;
    var s := st.vals;
    GrownConserves(st, s, multiset{});
    if Exists(s, n) {
      RunOfConserves(s, n - 1, len);
      GiveUpConserves(st, WithoutRun(s, n - 1, len), s[n - 1..n - 1 + len], multiset{});
    }
  }

  lemma StepConserves<T>(st: State<T>, op: Op<T>)
    requires Allowed(st.vals, op)
    ensures Conserves(st, op)
  {
    match op
    case Append(x) =>
      hide Everything;
      GrownConserves(st, st.vals + [x], multiset{x});
    case Clone(_, _, _, _) => CloneConserves(st, op);
    case Replace(n, x) =>
      hide Everything, GiveUp;
      ReplaceConserves(st.vals, n - 1, x);
      GiveUpConserves(st, st.vals[n - 1 := x], [st.vals[n - 1]], multiset{x});
    case Remove(n) => RemoveStepConserves(st, n);
    case RemoveSome(n, len) => RemoveSomeConserves(st, n, len);
    case Clean =>
      hide Everything, GiveUp;
      ReverseMultiset(st.vals);
      GiveUpConserves(st, [], Reverse(st.vals), multiset{});
    case _ => InsertionConserves(st, op);
  }

  /** Over every run each datum put in is, counted with multiplicity, in exactly one place: still in the list,
      destroyed, handed back, or dropped by a list without a destroy function. Nothing is lost and nothing is
      destroyed twice. */
  lemma {:induction false} RunConserves<T>(st: State<T>, ops: seq<Op<T>>)
    requires AllowedRun(st, ops)
    ensures Everything(Run(st, ops)) == Everything(st) + AddedBy(st, ops)
    decreases |ops|
  {
    hide Everything, Step, Added;
    if ops != [] {
      StepConserves(st, ops[0]);
      RunConserves(Step(st, ops[0]), ops[1..]);
    } else {
      GrownConserves(st, st.vals, multiset{});
    }
  }

  // ---- On the real list ---------------------------------------------------

  /** The list holds what the state says. */
  ghost predicate Holds<T>(list: List<T>, st: State<T>)
    reads list
  {
    list.vals == st.vals && list.destroyed == st.destroyed && list.destroys == st.destroys
  }

  /** ailsa_list_get_element, and where the element is. */
  method Find<T>(list: List<T>, number: nat) returns (e: Elem?<T>)
    requires list.Valid()
    ensures e == null <==> !Exists(list.vals, number)
    ensures e != null ==> e in list.nodes && list.IndexOf(e) == number - 1
  {
    e := list.GetElement(number);
    if e != null { list.IndexUnique(e, number - 1); }
  }

  method PerformInsertion<T>(list: List<T>, op: Op<T>, ghost st: State<T>)
    requires list.Valid() && Holds(list, st) && (op.InsertNext? || op.InsertPrev? || op.Append?)
    modifies list, list.repr
    ensures list.Valid() && fresh(list.repr - old(list.repr))
    ensures Holds(list, Step(st, op)) && Step(st, op).taken == st.taken
  {
    hide Chain, Distinct, ClosedChain, InsertAt;
    if op.Append? {
      var r := list.Insert(Some(op.x));
    } else {
      var e := Find(list, op.number);
      if op.InsertNext? {
        var r := list.InsNext(e, op.x);
      } else {
        var r := list.InsPrev(e, op.x);
      }
    }
  }

  method PerformClone<T>(list: List<T>, op: Op<T>, ghost st: State<T>)
    requires list.Valid() && Holds(list, st) && op.Clone?
    modifies list, list.repr
    ensures list.Valid() && fresh(list.repr - old(list.repr))
    ensures Holds(list, Step(st, op)) && Step(st, op).taken == st.taken
  {
    hide Chain, Distinct, ClosedChain, InsertAt;
    var copy := Find(list, op.number);
    var ptr := Find(list, op.at);
    if copy != null { list.DataOf(op.number - 1); }
    var r := list.InsertClone(copy, ptr, op.place, op.size);
  }

  method PerformRemove<T>(list: List<T>, op: Op<T>, ghost st: State<T>) returns (back: seq<T>)
    requires list.Valid() && Holds(list, st) && op.Remove?
    modifies list, list.repr
    ensures list.Valid() && fresh(list.repr - old(list.repr))
    ensures Holds(list, Step(st, op)) && Step(st, op).taken == st.taken + back
  {
    hide Chain, Distinct, ClosedChain, RemoveAt;
    var e := Find(list, op.number);
    if e == null {
      assert st.taken + [] == st.taken;
      return [];
    }
    var r, d := list.Remove(e);
    back := [d.value];
  }

  method PerformRemoveSome<T>(list: List<T>, op: Op<T>, ghost st: State<T>)
    requires list.Valid() && Holds(list, st) && Allowed(st.vals, op) && op.RemoveSome?
    modifies list, list.repr
    ensures list.Valid() && fresh(list.repr - old(list.repr))
    ensures Holds(list, Step(st, op)) && Step(st, op).taken == st.taken
  {
    hide Chain, Distinct, ClosedChain, WithoutRun;
    var e := Find(list, op.number);
    if e == null {
      return;
    }
    var r := list.RemoveElements(e, op.len);
  }

  method PerformClean<T>(list: List<T>, ghost st: State<T>)
    requires list.Valid() && Holds(list, st)
    modifies list, list.repr
    ensures list.Valid() && fresh(list.repr - old(list.repr))
    ensures Holds(list, Step(st, Clean)) && Step(st, Clean).taken == st.taken
  {
    hide Chain, Distinct, ClosedChain, Reverse;
    list.Clean();
  }

  /** What a list of database values makes of an operation: a replacement is by a copy. */
  function Copied(op: Op<Datum>): Op<Datum> {
    if op.Replace? then op.(x := CopyOf(op.x)) else op
  }

  /** cmdb_replace_data_element, with a source element that is in no list. */
  method PerformReplacement(list: List<Datum>, op: Op<Datum>, ghost st: State<Datum>)
    requires list.Valid() && Holds(list, st) && op.Replace? && Allowed(st.vals, op)
    modifies list, list.repr
    ensures list.Valid() && fresh(list.repr - old(list.repr))
    ensures Holds(list, Step(st, Copied(op))) && Step(st, Copied(op)).taken == st.taken
  {
    hide Chain, Distinct, ClosedChain;
    var source := new Elem<Datum>(op.x);
    var r := ReplaceDataElement(list, source, op.number - 1);
  }

  /** One operation on the real list, and the data it hands back. */
  method Perform(list: List<Datum>, op: Op<Datum>, ghost st: State<Datum>) returns (back: seq<Datum>)
    requires list.Valid() && Holds(list, st) && Allowed(st.vals, op)
    modifies list, list.repr
    ensures list.Valid() && fresh(list.repr - old(list.repr)) && Allowed(st.vals, Copied(op))
    ensures Holds(list, Step(st, Copied(op))) && Step(st, Copied(op)).taken == st.taken + back
  {
    hide Step, Holds;
    back := [];
    if op.Replace? {
      PerformReplacement(list, op, st);
    } else if op.Clone? {
      PerformClone(list, op, st);
    } else if op.InsertNext? || op.InsertPrev? || op.Append? {
      PerformInsertion(list, op, st);
    } else if op.Remove? {
      back := PerformRemove(list, op, st);
    } else if op.RemoveSome? {
      PerformRemoveSome(list, op, st);
    } else {
      PerformClean(list, st);
    }
  }

  function CopiedAll(ops: seq<Op<Datum>>): (r: seq<Op<Datum>>)
    ensures |r| == |ops| && forall i :: 0 <= i < |r| ==> r[i] == Copied(ops[i])
  {
    seq(|ops|, i requires 0 <= i < |ops| => Copied(ops[i]))
  }

  /** A run on the real list ends where the run on the sequence ends, and hands back what that one takes. */
  method PerformAll(list: List<Datum>, ops: seq<Op<Datum>>) returns (taken: seq<Datum>)
    requires list.Valid() && AllowedRun(State(list.vals, list.destroyed, [], [], list.destroys), CopiedAll(ops))
    modifies list, list.repr
    ensures list.Valid()
    ensures var end := Run(State(old(list.vals), old(list.destroyed), [], [], list.destroys), CopiedAll(ops));
            Holds(list, end) && taken == end.taken
  {
    hide Step, Allowed, Chain, Distinct, ClosedChain, Copied;
    ghost var start := State(list.vals, list.destroyed, [], [], list.destroys);
    ghost var all, st := CopiedAll(ops), start;
    taken := [];
    var i := 0;
    while i < |ops|
      invariant 0 <= i <= |ops| && list.Valid() && fresh(list.repr - old(list.repr))
      invariant Holds(list, st) && taken == st.taken
      invariant AllowedRun(st, all[i..]) && Run(st, all[i..]) == Run(start, all)
    {
      assert all[i..][0] == Copied(ops[i]) && all[i..][1..] == all[i + 1..];
      CopiedAllowed(st, ops[i]);
      var back := Perform(list, ops[i], st);
      st := Step(st, Copied(ops[i]));
      taken := taken + back;
      i := i + 1;
    }
  }

  lemma CopiedAllowed(st: State<Datum>, op: Op<Datum>)
    ensures Allowed(st.vals, Copied(op)) <==> Allowed(st.vals, op)
  {
  }
}

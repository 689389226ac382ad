/** The allocator of build addresses: the list of used addresses it collects, its scan, and the guarded insertion. */
module BuildIp {
  import opened Results
  import opened BuildAddresses

  class IpNode {
    var ip: nat
    var hostname: string
    var next: IpNode?

    /** ip_node_create */
    constructor ()
      ensures ip == 0 && hostname == "NULL" && next == null
    {
      ip, hostname, next := 0, "NULL", null;
    }
  }

  /** Different nodes, each leading to the next one and holding its row. */
  ghost predicate Linked(ns: seq<IpNode>, rows: Rows)
    requires |ns| == |rows|
    reads ns
  {
    && (forall i, j :: 0 <= i < j < |ns| ==> ns[i] != ns[j])
    && (forall i, j :: 0 <= i < j < |ns| && j == i + 1 ==> ns[i].next == ns[j])
    && (forall i :: 0 <= i < |ns| ==> UsedIp(ns[i].ip, ns[i].hostname) == rows[i])
  }

  lemma LinkedAppend(ns: seq<IpNode>, rows: Rows, node: IpNode)
    requires |ns| == |rows| && Linked(ns, rows) && node !in ns && (ns != [] ==> ns[|ns| - 1].next == node)
    ensures Linked(ns + [node], rows + [UsedIp(node.ip, node.hostname)])
  {
  }

  class BuildDomain {
    const startIp: nat
    const endIp: nat
    var iplist: IpNode?
    ghost var nodes: seq<IpNode>   // the nodes of the list, head first
    ghost var rows: Rows           // what they hold
    ghost var repr: set<IpNode>    // every node the list has linked
    ghost var freed: seq<IpNode>   // the nodes given back, in order

    ghost predicate Valid()
      reads this, repr
    {
      && (forall i :: 0 <= i < |nodes| ==> nodes[i] in repr)
      && |nodes| == |rows| && iplist == (if nodes == [] then null else nodes[0])
      && Linked(nodes, rows)
      && (nodes != [] ==> nodes[|nodes| - 1].next == null)
    }

    lemma NextOf(k: nat)
      requires Valid() && k < |nodes|
      ensures nodes[k].next == if k + 1 < |nodes| then nodes[k + 1] else null
      ensures UsedIp(nodes[k].ip, nodes[k].hostname) == rows[k]
    {
      if k + 1 < |nodes| { assert nodes[k].next == nodes[k + 1]; }
    }

    constructor (startIp: nat, endIp: nat)
      ensures Valid() && nodes == [] && repr == {} && freed == [] && this.startIp == startIp && this.endIp == endIp
    {
      this.startIp, this.endIp, iplist := startIp, endIp, null;
      nodes, rows, repr, freed := [], [], {}, [];
    }

    /** The walk to the last node. */
    method LastNode() returns (saved: IpNode)
      requires Valid() && nodes != []
      ensures saved == nodes[|nodes| - 1]
    {
      saved := iplist;
      ghost var k: nat := 0;
      while saved.next != null
        invariant k < |nodes| && saved == nodes[k]
        decreases |nodes| - k
      {
        NextOf(k);
        saved := saved.next;
        k := k + 1;
      }
      NextOf(k);
    }

    /** The pointer write that appends a node. */
    method Append(node: IpNode)
      requires Valid() && node !in repr && node.next == null
      modifies `iplist, repr
      ensures iplist == (if nodes == [] then node else old(iplist)) && |nodes| == |rows|
      ensures Linked(nodes + [node], rows + [UsedIp(node.ip, node.hostname)])
    {
      if iplist == null {
        iplist := node;
      } else {
        var saved := LastNode();
        saved.next := node;
      }
      LinkedAppend(nodes, rows, node);
    }

    /** ip_node_add and ip_node_add_basic: append a node. */
    method IpNodeAdd(row: UsedIp)
      requires Valid()
      modifies this, repr
      ensures Valid() && rows == old(rows) + [row] && freed == old(freed) && fresh(repr - old(repr))
      ensures |nodes| == |old(nodes)| + 1 && nodes == old(nodes) + [nodes[|old(nodes)|]]
      ensures fresh(nodes[|old(nodes)|])
    {
      hide Linked;
      var node := new IpNode();
      node.ip := row.ip;
      node.hostname := row.hostname;
      Append(node);
      nodes, rows, repr := nodes + [node], rows + [row], repr + {node};
    }

    /** The list the scan works on: the used addresses of the range, or its first address as a free one. */
    method Collect(table: Rows)
      requires Valid() && nodes == [] && repr == {}
      modifies this
      ensures Valid() && nodes != [] && freed == old(freed) && fresh(repr)
      ensures rows == Listed(table, startIp, endIp)
    {
      var used := InRange(table, startIp, endIp);
      hide InRange;
      if used == [] {
        IpNodeAdd(UsedIp(startIp, "free"));
      } else {
        for i := 0 to |used|
          invariant Valid() && rows == used[..i] && freed == old(freed) && fresh(repr)
        {
          if used[i].ip < startIp || used[i].ip > endIp {
            assert false;
          } else {
            IpNodeAdd(used[i]);
          }
        }
      }
    }

    /** The walk that looks an address up in the list. */
    method FindIp(ip: nat) returns (node: IpNode?, ghost k: nat)
      requires Valid()
      ensures node == null ==> !Used(rows, ip)
      ensures node != null ==> k < |nodes| && node == nodes[k] && rows[k].ip == ip && Used(rows, ip)
    {
      node := iplist;
      k := 0;
      while node != null
        invariant k <= |nodes| && node == if k < |nodes| then nodes[k] else null
        invariant forall i :: 0 <= i < k ==> rows[i].ip != ip
        decreases |nodes| - k
      {
        NextOf(k);
        if node.ip == ip {
          break;
        }
        node := node.next;
        k := k + 1;
      }
    }

    /** The scan of get_build_ip. Its first comparison is with the node it holds, which is the head until some walk
        has found an address, and afterwards the node of the address before. */
    method Scan() returns (found: bool, ip: nat)
      requires Valid() && nodes != []
      requires rows == [UsedIp(startIp, "free")] || forall i :: 0 <= i < |rows| ==> startIp <= rows[i].ip <= endIp
      ensures Chosen(rows, startIp, endIp) == if found then None else Some(ip)
    {
      var node := iplist;
      ghost var k: nat := 0;
      found := false;
      ip := startIp;
      assert startIp <= endIp ==> startIp <= rows[0].ip <= endIp;
      while ip <= endIp
        invariant startIp <= ip && k < |nodes| && node == nodes[k]
        invariant found ==> startIp < ip <= endIp + 1 && startIp < endIp && rows[k].ip == ip - 1
        invariant !found ==> k == 0 && (ip == startIp || (ip == startIp + 1 <= endIp + 1 && rows[0].ip == startIp))
        invariant startIp < ip ==> rows[0] != UsedIp(startIp, "free") && startIp <= endIp
        invariant LeastFree(rows, ip, endIp) == LeastFree(rows, startIp, endIp)
        decreases endIp + 1 - ip
      {
        found := false;
        NextOf(k);
        if ip == node.ip {
          if node.hostname == "free" {
            break;
          } else {
            ip := ip + 1;
            continue;
          }
        }
        node, k := FindIp(ip);
        found := node != null;
        if !found {
          FirstUnused(rows, startIp, endIp, ip);
          break;
        }
        ip := ip + 1;
      }
    }

    /** Freeing every node but the head, each once. */
    method FreeRest()
      requires Valid() && nodes != []
      modifies `freed
      ensures freed == old(freed) + nodes[1..]
    {
      NextOf(0);
      var node := iplist.next;
      ghost var k: nat := 1;
      while node != null
        invariant 1 <= k <= |nodes| && node == if k < |nodes| then nodes[k] else null
        invariant freed == old(freed) + nodes[1..k]
        decreases |nodes| - k
      {
        NextOf(k);
        var next := node.next;
        freed := freed + [node];
        node := next;
        k := k + 1;
      }
    }

    /** Writing to the address of the head node. */
    method SetHeadIp(ip: nat)
      requires Valid() && nodes != []
      modifies repr, `rows
      ensures Valid() && nodes[0].ip == ip
    {
      iplist.ip := ip;
      rows := rows[0 := UsedIp(ip, iplist.hostname)];
    }

    /** get_build_ip: the chosen address is written over that of the head node, and all other nodes are freed. */
    method GetBuildIp(table: Rows) returns (retval: Result<()>)
      requires Valid() && nodes == [] && repr == {}
      modifies this
      ensures iplist != null && nodes != [] && iplist == nodes[0] && fresh(iplist)
      ensures match Chosen(InRange(table, startIp, endIp), startIp, endIp)
              case Some(ip) => retval == Ok(()) && iplist.ip == ip
              case None => retval == Err(NoBuildIp) && iplist.ip == Listed(table, startIp, endIp)[0].ip
      ensures freed == old(freed) + nodes[1..]
    {
      hide InRange, LeastFree, Chosen, Listed, Linked;
      Collect(table);
      ListedChosen(table, startIp, endIp);
      var found, ip := Scan();
      retval := if found then Err(NoBuildIp) else Ok(());
      NextOf(0);
      if !found {
        SetHeadIp(ip);
      }
      FreeRest();
    }
  }

  /** The rows the scan works on. */
  function Listed(table: Rows, start: nat, end: nat): (rows: Rows)
    ensures rows != []
  {
    var used := InRange(table, start, end);
    if used == [] then [UsedIp(start, "free")] else used
  }

  lemma ListedChosen(table: Rows, start: nat, end: nat)
    ensures var rows := Listed(table, start, end);
            && Chosen(rows, start, end) == Chosen(InRange(table, start, end), start, end)
            && (rows == [UsedIp(start, "free")] || forall i :: 0 <= i < |rows| ==> start <= rows[i].ip <= end)
  {
  }

  /** A scan that got to an unused address, past used ones only, has found what it looks for. */
  lemma FirstUnused(rows: Rows, start: nat, end: nat, ip: nat)
    requires rows != [] && start <= ip <= end && !Used(rows, ip)
    requires forall i :: 0 <= i < |rows| ==> start <= rows[i].ip <= end
    requires LeastFree(rows, ip, end) == LeastFree(rows, start, end)
    requires start < ip ==> rows[0] != UsedIp(start, "free")
    ensures Chosen(rows, start, end) == Some(ip)
  {
    assert Used(rows, rows[0].ip);
  }

  lemma NoRequests(table: Rows, qs: seq<Request>)
    requires qs == []
    ensures AllocateRun(table, qs) == (table, [])
  {
  }

  lemma NextRequest(table: Rows, q: Request, rest: seq<Request>, qs: seq<Request>)
    requires qs == [q] + rest
    ensures var (next, got) := Allocate(table, q);
            && AllocateRun(table, qs).0 == AllocateRun(next, rest).0
            && AllocateRun(table, qs).1 == [got] + AllocateRun(next, rest).1
  {
    assert qs[0] == q && qs[1..] == rest;
  }

  /** The table of used addresses. */
  class BuildIpTable {
    var rows: Rows

    /** insert_ip_into_db */
    method InsertIp(ip: nat, host: string) returns (retval: Result<()>)
      modifies this
      ensures retval == if Used(old(rows), ip) then Err(BuildIpInUse) else Ok(())
      ensures rows == if Used(old(rows), ip) then old(rows) else old(rows) + [UsedIp(ip, host)]
    {
      if exists i :: 0 <= i < |rows| && rows[i].ip == ip {
        return Err(BuildIpInUse);
      }
      rows := rows + [UsedIp(ip, host)];
      return Ok(());
    }

    /** One build: scan, then insert. */
    method Build(q: Request) returns (got: Option<nat>)
      modifies this
      ensures (rows, got) == Allocate(old(rows), q)
    {
      var bd := new BuildDomain(q.start, q.end);
      var retval := bd.GetBuildIp(rows);
      if retval.Err? {
        return None;
      }
      var ip := bd.iplist.ip;
      var inserted := this.InsertIp(ip, q.host);
      return if inserted.Ok? then Some(ip) else None;
    }

    /** Any number of builds. */
    method BuildAll(qs: seq<Request>) returns (got: seq<Option<nat>>)
      modifies this
      ensures (rows, got) == AllocateRun(old(rows), qs)
    {
      hide Allocate, AllocateRun;
      got := [];
      assert qs[0..] == qs;
      for i := 0 to |qs|
        invariant |got| == i
        invariant AllocateRun(old(rows), qs).0 == AllocateRun(rows, qs[i..]).0
        invariant AllocateRun(old(rows), qs).1 == got + AllocateRun(rows, qs[i..]).1
      {
        NextRequest(rows, qs[i], qs[i + 1..], qs[i..]);
        var r := Build(qs[i]);
        got := got + [r];
      }
      NoRequests(rows, qs[|qs|..]);
      assert got + [] == got;
    }
  }
}

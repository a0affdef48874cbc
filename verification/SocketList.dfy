/**
 The intrusive circular list of ExtLibs/List/list.c and the server scan over it
 (ExtLibs/TSocket/tsocket.c:80-89, 110-133, 201-216, 271-284).
 */
module SocketList {
  datatype Kind = Null | Main | Sub

  /** SocketList_S; the pointers of a freed node are gone. */
  class Node {
    var next: Node?
    var prev: Node?
    const fd: int
    const kind: Kind

    constructor (fd: int, kind: Kind)
      ensures this.fd == fd && this.kind == kind
    {
      this.fd := fd;
      this.kind := kind;
      next := null;
      prev := null;
    }
  }

  // ----- circular lists

  function Up(n: nat, i: nat): nat
    requires i < n
  {
    if i + 1 < n then i + 1 else 0
  }

  ghost predicate LinkedAt(ring: seq<Node>, i: nat)
    requires i < |ring|
    reads ring
  {
    ring[i].next == ring[Up(|ring|, i)] && ring[Up(|ring|, i)].prev == ring[i]
  }

  ghost predicate Distinct(ring: seq<Node>) {
    forall i, j :: 0 <= i < j < |ring| ==> ring[i] != ring[j]
  }

  /** next and prev run around the ring, whose first node is the list head. */
  ghost predicate Linked(ring: seq<Node>)
    reads ring
  {
    |ring| > 0 && Distinct(ring) && forall i {:trigger LinkedAt(ring, i)} :: 0 <= i < |ring| ==> LinkedAt(ring, i)
  }

  /** list.c:3-7. */
  method ListInit(node: Node)
    modifies node
    ensures Linked([node])
  {
    node.next := node;
    node.prev := node;
    assert LinkedAt([node], 0);
  }

  /** list.c:9-15. */
  method ListAddTail(head: Node, item: Node, ghost ring: seq<Node>)
    requires Linked(ring) && ring[0] == head && item !in ring
    modifies ring, item
    ensures Linked(ring + [item])
  {
    ghost var (n, all) := (|ring|, ring + [item]);
    assert LinkedAt(ring, n - 1);
    assert forall i {:trigger LinkedAt(ring, i)} :: 0 <= i < n ==> LinkedAt(ring, i);
    item.next := head;
    item.prev := head.prev;
    head.prev.next := item;
    head.prev := item;
    assert Distinct(all);
    forall i | 0 <= i < |all|
      ensures LinkedAt(all, i)
    {
      if i < n - 1 {
        assert old(LinkedAt(ring, i));
      }
    }
  }

  /** list.c:17-21. */
  method ListRemove(item: Node, ghost ring: seq<Node>, ghost k: nat)
    requires Linked(ring) && 0 < k < |ring| && ring[k] == item
    modifies ring
    ensures Linked(ring[..k] + ring[k + 1..])
    ensures item.next == old(item.next)
  {
    ghost var (n, all) := (|ring|, ring[..k] + ring[k + 1..]);
    assert LinkedAt(ring, k) && LinkedAt(ring, k - 1);
    item.next.prev := item.prev;
    item.prev.next := item.next;
    assert Distinct(all);
    forall i | 0 <= i < |all|
      ensures LinkedAt(all, i)
    {
      if i < k - 1 {
        assert old(LinkedAt(ring, i));
      } else if i >= k {
        assert old(LinkedAt(ring, i + 1));
      }
    }
  }

  // ----- one visit

  datatype Outcome = Accepted(fd: int) | Served | Broken

  /** What select reported for a scan, and what accept or the receive loop gives in each of its visits. */
  datatype Net = Net(readable: set<int>, except: set<int>, outcome: nat -> Outcome)

  datatype Effect = Stay | Gone | Grow(fd: int)

  /** The effect of visit number v. */
  function EffectOf(x: Node, net: Net, v: nat): Effect {
    if x.fd in net.except then Gone
    else if x.fd !in net.readable then Stay
    else
      match net.outcome(v)
      case Accepted(fd) => if x.kind == Main && fd > 0 then Grow(fd) else Stay
      case Served => Stay
      case Broken => if x.kind == Sub then Gone else Stay
  }

  /** The ring after the visit of position k, given the node that was appended, if any. */
  ghost function After(ring: seq<Node>, k: nat, effect: Effect, added: seq<Node>): seq<Node>
    requires k < |ring|
  {
    match effect
    case Stay => ring
    case Gone => ring[..k] + ring[k + 1..]
    case Grow(_) => ring + added
  }

  /** added is what an accepted connection appends: nothing, or one new socket. */
  ghost predicate Appends(effect: Effect, added: seq<Node>) {
    match effect
    case Grow(fd) => |added| == 1 && added[0].fd == fd && added[0].kind == Sub
    case _ => added == []
  }

  /** Sockets with descriptors above 0. */
  predicate Open(nodes: seq<Node>) {
    forall i :: 0 <= i < |nodes| ==> nodes[i].fd > 0
  }

  /** tsocket.c:211-214 and 85-87: out of the list, closed and freed. */
  method Discard(item: Node, ghost ring: seq<Node>, ghost k: nat)
    requires Linked(ring) && 0 < k < |ring| && ring[k] == item
    modifies ring
    ensures Linked(ring[..k] + ring[k + 1..]) && item.next == item.prev == null
  {
    ListRemove(item, ring, k);
    ghost var all := ring[..k] + ring[k + 1..];
    assert forall i {:trigger LinkedAt(all, i)} :: 0 <= i < |all| ==> LinkedAt(all, i);
    label Removed:
    item.next := null;
    item.prev := null;
    forall i | 0 <= i < |all|
      ensures LinkedAt(all, i)
    {
      assert old@Removed(LinkedAt(all, i));
    }
  }

  /** tsocket.c:281-282 with 80-89 and 110-133, 201-216. */
  method Visit(head: Node, x: Node, net: Net, v: nat, ghost ring: seq<Node>, ghost k: nat) returns (ghost added: seq<Node>)
    requires Linked(ring) && ring[0] == head && 0 < k < |ring| && ring[k] == x
    modifies ring
    ensures Appends(EffectOf(x, net, v), added) && Open(added) && forall n :: n in added ==> fresh(n)
    ensures Linked(After(ring, k, EffectOf(x, net, v), added))
    ensures EffectOf(x, net, v) == Gone ==> x.next == x.prev == null
  {
    added := [];
    if x.fd in net.except {
      Discard(x, ring, k);
    } else if x.fd in net.readable {
      if x.kind == Main {
        var r := net.outcome(v);
        if r.Accepted? && r.fd > 0 {
          var n := new Node(r.fd, Sub);
          ListAddTail(head, n, ring);
          added := [n];
        }
      } else if x.kind == Sub {
        if net.outcome(v) == Broken {
          Discard(x, ring, k);
        }
      }
    }
  }

  // ----- the scan

  /** Those of the visited nodes that are still in the list. */
  ghost function Survivors(visited: seq<Node>, net: Net): seq<Node> {
    if visited == [] then []
    else
      var (front, x) := (visited[..|visited| - 1], visited[|visited| - 1]);
      Survivors(front, net) + if EffectOf(x, net, |front|) == Gone then [] else [x]
  }

  /** What can still happen: a listening socket may add one more node to be visited. */
  ghost function Work(rest: seq<Node>): nat {
    if rest == [] then 0 else Work(rest[..|rest| - 1]) + if rest[|rest| - 1].kind == Main then 2 else 1
  }

  lemma {:induction false} WorkCons(x: Node, rest: seq<Node>)
    ensures Work([x] + rest) == Work(rest) + if x.kind == Main then 2 else 1
  {
    var all := [x] + rest;
    if rest == [] {
      assert all[..0] == [];
    } else {
      assert all[..|all| - 1] == [x] + rest[..|rest| - 1];
      WorkCons(x, rest[..|rest| - 1]);
    }
  }

  lemma WorkSnoc(rest: seq<Node>, x: Node)
    ensures Work(rest + [x]) == Work(rest) + if x.kind == Main then 2 else 1
  {
    assert (rest + [x])[..|rest|] == rest;
  }

  /** The list as the scan sees it: the head, the visited survivors, the nodes ahead, and a node missed at the end. */
  ghost predicate Scanning(cur: seq<Node>, head: Node, visited: seq<Node>, rest: seq<Node>, late: seq<Node>, net: Net) {
    cur == [head] + Survivors(visited, net) + rest + late && (rest != [] ==> late == [])
  }

  /** Where the nodes ahead go when the first of them has been visited. */
  ghost function Ahead(rest: seq<Node>, added: seq<Node>): (seq<Node>, seq<Node>)
    requires rest != []
  {
    if rest[1..] == [] then ([], added) else (rest[1..] + added, [])
  }

  lemma SurvivorsSnoc(visited: seq<Node>, x: Node, net: Net)
    ensures Survivors(visited + [x], net) == Survivors(visited, net) + if EffectOf(x, net, |visited|) == Gone then [] else [x]
  {
    assert (visited + [x])[..|visited|] == visited;
  }

  /** Visiting position k of h + kept + [x] + tail, in terms of the parts. */
  lemma AfterParts(cur: seq<Node>, front: seq<Node>, x: Node, tail: seq<Node>, effect: Effect, added: seq<Node>)
    requires cur == front + [x] + tail && Appends(effect, added)
    ensures After(cur, |front|, effect, added) == front + (if effect == Gone then [] else [x]) + tail + added
  {
    match effect
    case Gone =>
      assert cur[..|front|] == front && cur[|front| + 1..] == tail;
      assert front + [] + tail + [] == front + tail;
    case Stay => assert cur + [] == cur;
    case Grow(_) =>
  }

  lemma ScanStep(cur: seq<Node>, head: Node, visited: seq<Node>, rest: seq<Node>, net: Net, added: seq<Node>, k: nat)
    requires Scanning(cur, head, visited, rest, [], net) && rest != [] && k == 1 + |Survivors(visited, net)|
    requires Appends(EffectOf(rest[0], net, |visited|), added)
    ensures k < |cur| && cur[k] == rest[0]
    ensures Scanning(After(cur, k, EffectOf(rest[0], net, |visited|), added), head, visited + [rest[0]],
                     Ahead(rest, added).0, Ahead(rest, added).1, net)
  {
    var (x, kept) := (rest[0], Survivors(visited, net));
    var front := [head] + kept;
    Opened(cur, head, kept, rest, front);
    AfterParts(cur, front, x, rest[1..], EffectOf(x, net, |visited|), added);
    SurvivorsSnoc(visited, x, net);
    Placed(head, kept, if EffectOf(x, net, |visited|) == Gone then [] else [x], rest, added);
  }

  lemma Opened(cur: seq<Node>, head: Node, kept: seq<Node>, rest: seq<Node>, front: seq<Node>)
    requires cur == [head] + kept + rest + [] && rest != [] && front == [head] + kept
    ensures cur == front + [rest[0]] + rest[1..] && |front| < |cur| && cur[|front|] == rest[0]
  {
  }

  /** Appended nodes are ahead, unless the last node ahead has just been visited. */
  lemma Placed(head: Node, kept: seq<Node>, x: seq<Node>, rest: seq<Node>, added: seq<Node>)
    requires rest != []
    ensures [head] + kept + x + rest[1..] + added == [head] + (kept + x) + Ahead(rest, added).0 + Ahead(rest, added).1
    ensures Ahead(rest, added).0 != [] ==> Ahead(rest, added).1 == []
  {
    var all := [head] + kept + x + rest[1..] + added;
    if rest[1..] == [] {
      assert all == [head] + (kept + x) + [] + added;
    } else {
      assert all == [head] + (kept + x) + (rest[1..] + added) + [];
    }
  }

  lemma WorkDecreases(rest: seq<Node>, net: Net, v: nat, added: seq<Node>)
    requires rest != [] && Appends(EffectOf(rest[0], net, v), added)
    ensures Work(Ahead(rest, added).0) < Work(rest)
  {
    assert rest == [rest[0]] + rest[1..];
    WorkCons(rest[0], rest[1..]);
    if added != [] {
      WorkSnoc(rest[1..], added[0]);
      assert rest[1..] + added == rest[1..] + [added[0]];
    } else {
      assert rest[1..] + added == rest[1..];
    }
  }

  /** The node the scan is at: the first one ahead, or the head when there is none. */
  ghost function At(head: Node, rest: seq<Node>): Node {
    if rest == [] then head else rest[0]
  }

  lemma NextAhead(cur: seq<Node>, head: Node, visited: seq<Node>, rest: seq<Node>, net: Net, k: nat)
    requires Scanning(cur, head, visited, rest, [], net) && rest != [] && k == 1 + |Survivors(visited, net)|
    ensures k < |cur| && cur[k] == rest[0] && cur[Up(|cur|, k)] == At(head, rest[1..])
  {
    assert cur[k..] == rest;
    assert rest[1..] != [] ==> cur[k + 1] == cur[k..][1];
  }

  /** Every node seen or still ahead is in one place only, and a node that is gone keeps its cleared pointers. */
  ghost predicate Apart(head: Node, visited: seq<Node>, rest: seq<Node>, late: seq<Node>) {
    Distinct([head] + visited + rest + late)
  }

  lemma {:induction false} SurvivorsStay(visited: seq<Node>, net: Net, n: Node)
    requires n in Survivors(visited, net)
    ensures n in visited
  {
    var front := visited[..|visited| - 1];
    if n in Survivors(front, net) {
      SurvivorsStay(front, net, n);
    }
  }

  /** A node that its visit discarded is not among them, since no node is visited twice. */
  lemma {:induction false} GoneNotSurvivor(visited: seq<Node>, net: Net, i: nat)
    requires Distinct(visited) && i < |visited| && EffectOf(visited[i], net, i) == Gone
    ensures visited[i] !in Survivors(visited, net)
  {
    var (front, x) := (visited[..|visited| - 1], visited[|visited| - 1]);
    if i < |front| {
      GoneNotSurvivor(front, net, i);
    } else if x in Survivors(front, net) {
      SurvivorsStay(front, net, x);
    }
  }

  /**
   A visited socket stays in the list unless select reported an exception for it, or it was readable, one of a client,
   and broken.
   */
  lemma {:induction false} StaysIff(visited: seq<Node>, net: Net, i: nat)
    requires Distinct(visited) && i < |visited|
    ensures visited[i] in Survivors(visited, net) <==>
            visited[i].fd !in net.except &&
            !(visited[i].fd in net.readable && visited[i].kind == Sub && net.outcome(i) == Broken)
  {
    var (front, x) := (visited[..|visited| - 1], visited[|visited| - 1]);
    if i < |front| {
      StaysIff(front, net, i);
      assert visited[i] == front[i] != x;
    } else if x in Survivors(front, net) {
      SurvivorsStay(front, net, x);
    }
  }

  /** A new socket is appended exactly for a connection that a readable listening socket without exception accepted. */
  lemma AppendsIff(x: Node, net: Net, v: nat, added: seq<Node>)
    requires Appends(EffectOf(x, net, v), added)
    ensures added != [] <==> x.fd !in net.except && x.fd in net.readable && x.kind == Main &&
                             net.outcome(v).Accepted? && net.outcome(v).fd > 0
    ensures added != [] ==> |added| == 1 && added[0].fd == net.outcome(v).fd && added[0].kind == Sub
  {
  }

  lemma DisjointParts(a: seq<Node>, b: seq<Node>, n: Node)
    requires Distinct(a + b) && n in a
    ensures n !in b
  {
    var i :| 0 <= i < |a| && a[i] == n;
    forall j | 0 <= j < |b|
      ensures b[j] != n
    {
      assert (a + b)[i] == n && (a + b)[|a| + j] == b[j];
    }
  }

  lemma DistinctSnoc(s: seq<Node>, n: Node)
    requires Distinct(s) && n !in s
    ensures Distinct(s + [n])
  {
  }

  /** A node that is gone is not in the list any more. */
  lemma GoneIsOut(cur: seq<Node>, head: Node, visited: seq<Node>, rest: seq<Node>, late: seq<Node>, net: Net, i: nat)
    requires Scanning(cur, head, visited, rest, late, net) && Apart(head, visited, rest, late)
    requires i < |visited| && EffectOf(visited[i], net, i) == Gone
    ensures visited[i] !in cur
  {
    var (n, all) := (visited[i], [head] + visited + rest + late);
    assert all == ([head] + visited) + (rest + late);
    DisjointParts([head] + visited, rest + late, n);
    MiddleDistinct(head, visited, rest + late);
    GoneNotSurvivor(visited, net, i);
    NotHead(head, visited, rest + late, i);
  }

  lemma NotHead(head: Node, visited: seq<Node>, tail: seq<Node>, i: nat)
    requires Distinct([head] + visited + tail) && i < |visited|
    ensures visited[i] != head
  {
    var all := [head] + visited + tail;
    assert all[0] == head && all[1 + i] == visited[i];
  }

  lemma MiddleDistinct(head: Node, visited: seq<Node>, tail: seq<Node>)
    requires Distinct([head] + visited + tail)
    ensures Distinct(visited)
  {
    var all := [head] + visited + tail;
    forall i, j | 0 <= i < j < |visited|
      ensures visited[i] != visited[j]
    {
      assert all[1 + i] == visited[i] && all[1 + j] == visited[j];
    }
  }

  lemma ApartStep(head: Node, visited: seq<Node>, rest: seq<Node>, added: seq<Node>)
    requires Apart(head, visited, rest, []) && rest != [] && |added| <= 1
    requires forall n :: n in added ==> n != head && n !in visited && n !in rest
    ensures Apart(head, visited + [rest[0]], Ahead(rest, added).0, Ahead(rest, added).1)
  {
    var (x, tail) := (rest[0], rest[1..]);
    var (a, b) := ([head] + visited + rest + [], [head] + (visited + [x]) + Ahead(rest, added).0 + Ahead(rest, added).1);
    assert b == a + added;
    if added != [] {
      var n := added[0];
      assert n in added;
      assert n != head && n !in visited && n !in rest;
      assert a == [head] + (visited + rest);
      DistinctSnoc(a, n);
      assert added == [n];
    } else {
      assert a + added == a;
    }
  }

  lemma VisitedStep(visited: seq<Node>, rest: seq<Node>, all: seq<Node>, added: seq<Node>)
    requires visited + rest == all && rest != []
    ensures (visited + [rest[0]]) + Ahead(rest, added).0 == all + if rest[1..] == [] then [] else added
  {
    assert rest == [rest[0]] + rest[1..];
  }

  lemma HeadNotAhead(head: Node, visited: seq<Node>, rest: seq<Node>, late: seq<Node>)
    requires Apart(head, visited, rest, late)
    ensures head !in rest
  {
    assert [head] + visited + rest + late == [head] + (visited + rest + late);
    DisjointParts([head], visited + rest + late, head);
  }

  /** What a visit of the first node ahead does to the parts of the list. */
  lemma PartsAfter(cur: seq<Node>, head: Node, visited: seq<Node>, rest: seq<Node>, net: Net, added: seq<Node>, k: nat)
    returns (cur': seq<Node>, rest': seq<Node>, late: seq<Node>, more: seq<Node>)
    requires Scanning(cur, head, visited, rest, [], net) && Apart(head, visited, rest, []) && rest != []
    requires k == 1 + |Survivors(visited, net)| && Appends(EffectOf(rest[0], net, |visited|), added)
    requires forall n :: n in added ==> n != head && n !in visited && n !in rest
    ensures k < |cur| && cur' == After(cur, k, EffectOf(rest[0], net, |visited|), added)
    ensures Scanning(cur', head, visited + [rest[0]], rest', late, net) && Apart(head, visited + [rest[0]], rest', late)
    ensures At(head, rest') == At(head, rest[1..]) && Work(rest') < Work(rest)
    ensures (visited + [rest[0]]) + rest' == (visited + rest) + more
    ensures |late| <= 1 && (Open(added) ==> Open(more) && Open(late)) && forall n :: n in more || n in late ==> n in added
    ensures forall i :: 0 <= i < |cur'| ==> cur'[i] in cur || cur'[i] in added
  {
    AfterNodes(cur, k, EffectOf(rest[0], net, |visited|), added);
    ScanStep(cur, head, visited, rest, net, added, k);
    ApartStep(head, visited, rest, added);
    WorkDecreases(rest, net, |visited|, added);
    VisitedStep(visited, rest, visited + rest, added);
    cur' := After(cur, k, EffectOf(rest[0], net, |visited|), added);
    rest', late := Ahead(rest, added).0, Ahead(rest, added).1;
    more := if rest[1..] == [] then [] else added;
  }

  lemma AfterNodes(ring: seq<Node>, k: nat, effect: Effect, added: seq<Node>)
    requires k < |ring|
    ensures forall i :: 0 <= i < |After(ring, k, effect, added)| ==>
      After(ring, k, effect, added)[i] in ring || After(ring, k, effect, added)[i] in added
  {
  }

  /** A node that is gone keeps its cleared pointers. */
  ghost predicate Cleared(visited: seq<Node>, net: Net)
    reads visited
  {
    forall i :: 0 <= i < |visited| && EffectOf(visited[i], net, i) == Gone ==> visited[i].next == null && visited[i].prev == null
  }

  /** The state of the scan between two visits. */
  ghost predicate InScan(cur: seq<Node>, head: Node, visited: seq<Node>, rest: seq<Node>, late: seq<Node>, net: Net)
    reads cur, visited
  {
    Linked(cur) && Scanning(cur, head, visited, rest, late, net) && Apart(head, visited, rest, late) && Cleared(visited, net)
  }

  /** A visit of the first node ahead leaves the nodes that are gone alone. */
  method VisitFirst(head: Node, node: Node, net: Net, v: nat, ghost cur: seq<Node>, ghost visited: seq<Node>, ghost rest: seq<Node>,
                    ghost k: nat)
    returns (ghost added: seq<Node>)
    requires InScan(cur, head, visited, rest, [], net) && rest != [] && node == rest[0] && k == 1 + |Survivors(visited, net)|
    requires v == |visited| && k < |cur| && cur[0] == head && cur[k] == node
    modifies cur
    ensures Appends(EffectOf(node, net, v), added) && Open(added) && forall n :: n in added ==> fresh(n)
    ensures Linked(After(cur, k, EffectOf(node, net, v), added)) && Cleared(visited + [node], net)
  {
    forall i | 0 <= i < |visited| && EffectOf(visited[i], net, i) == Gone
      ensures visited[i] !in cur
    {
      GoneIsOut(cur, head, visited, rest, [], net, i);
    }
    added := Visit(head, node, net, v, cur, k);
  }

  /** tsocket.c:280-283: the next pointer is read before the visit, which may free the node. */
  method VisitNext(head: Node, node: Node, net: Net, v: nat, ghost cur: seq<Node>, ghost visited: seq<Node>, ghost rest: seq<Node>)
    returns (nextnode: Node, ghost cur': seq<Node>, ghost rest': seq<Node>, ghost late: seq<Node>, ghost more: seq<Node>)
    requires InScan(cur, head, visited, rest, [], net) && rest != [] && node == rest[0] && v == |visited|
    modifies cur
    ensures InScan(cur', head, visited + [node], rest', late, net) && nextnode == At(head, rest')
    ensures (visited + [node]) + rest' == (visited + rest) + more && Work(rest') < Work(rest)
    ensures |late| <= 1 && Open(more) && Open(late)
    ensures (forall n :: n in more ==> fresh(n)) && forall n :: n in late ==> fresh(n)
    ensures forall i :: 0 <= i < |cur'| ==> cur'[i] in cur || fresh(cur'[i])
  {
    ghost var k := 1 + |Survivors(visited, net)|;
    NextAhead(cur, head, visited, rest, net, k);
    assert LinkedAt(cur, k);
    nextnode := node.next;
    ghost var added := VisitFirst(head, node, net, v, cur, visited, rest, k);
    cur', rest', late, more := PartsAfter(cur, head, visited, rest, net, added, k);
  }

  /** The same with all nodes appended before the last visit of the nodes ahead. */
  method VisitCounted(head: Node, node: Node, net: Net, v: nat, ghost cur: seq<Node>, ghost visited: seq<Node>,
                      ghost rest: seq<Node>, ghost first: seq<Node>, ghost grown: seq<Node>)
    returns (nextnode: Node, ghost cur': seq<Node>, ghost rest': seq<Node>, ghost late: seq<Node>, ghost grown': seq<Node>)
    requires InScan(cur, head, visited, rest, [], net) && rest != [] && node == rest[0] && v == |visited|
    requires visited + rest == first + grown && Open(grown)
    modifies cur
    ensures InScan(cur', head, visited + [node], rest', late, net) && nextnode == At(head, rest')
    ensures (visited + [node]) + rest' == first + grown' && Work(rest') < Work(rest)
    ensures |late| <= 1 && Open(grown') && Open(late)
    ensures (forall n :: n in grown' ==> n in grown || fresh(n)) && forall n :: n in late ==> fresh(n)
    ensures forall i :: 0 <= i < |cur'| ==> cur'[i] in cur || fresh(cur'[i])
  {
    ghost var more;
    nextnode, cur', rest', late, more := VisitNext(head, node, net, v, cur, visited, rest);
    grown' := grown + more;
    assert (first + grown) + more == first + grown';
  }

  /**
   tsocket.c:273-284, where no socket has a descriptor below 1. Every node in the list at the start is visited
   once and in order; then come nodes appended meanwhile. What stays are the visited nodes that were not discarded
   and at most one node that was appended during the last visit.
   */
  method Scan(head: Node, net: Net, ghost ring: seq<Node>)
    returns (ghost visited: seq<Node>, ghost grown: seq<Node>, ghost late: seq<Node>)
    requires Linked(ring) && ring[0] == head && Open(ring[1..])
    modifies ring
    ensures visited == ring[1..] + grown && Apart(head, visited, [], late) && |late| <= 1
    ensures Open(grown) && Open(late)
    ensures (forall n :: n in grown ==> fresh(n)) && forall n :: n in late ==> fresh(n)
    ensures Linked([head] + Survivors(visited, net) + late) && Cleared(visited, net)
  {
    ghost var cur, rest := ring, ring[1..];
    visited, grown, late := [], [], [];
    assert LinkedAt(ring, 0);
    assert [head] + [] + rest + [] == ring;
    var node: Node, v: nat := head.next, 0;
    while node != head
      invariant InScan(cur, head, visited, rest, late, net) && node == At(head, rest) && v == |visited|
      invariant visited + rest == ring[1..] + grown && |late| <= 1 && Open(grown) && Open(late)
      invariant forall i :: 0 <= i < |cur| ==> cur[i] in ring || fresh(cur[i])
      invariant (forall n :: n in grown ==> fresh(n)) && forall n :: n in late ==> fresh(n)
      decreases Work(rest)
    {
      assert rest != [] && late == [];
      ghost var was := visited;
      visited := visited + [node];
      node, cur, rest, late, grown := VisitCounted(head, node, net, v, cur, was, rest, ring[1..], grown);
      v := v + 1;
    }
    ScanEnds(cur, head, visited, rest, late, net);
  }

  lemma ScanEnds(cur: seq<Node>, head: Node, visited: seq<Node>, rest: seq<Node>, late: seq<Node>, net: Net)
    requires Scanning(cur, head, visited, rest, late, net) && Apart(head, visited, rest, late) && At(head, rest) == head
    ensures rest == [] && cur == [head] + Survivors(visited, net) + late
  {
    HeadNotAhead(head, visited, rest, late);
    assert [head] + Survivors(visited, net) + [] + late == [head] + Survivors(visited, net) + late;
  }

  // ----- the server

  lemma {:induction false} SurvivorsOpen(visited: seq<Node>, net: Net)
    requires Open(visited)
    ensures Open(Survivors(visited, net))
  {
    if visited != [] {
      SurvivorsOpen(visited[..|visited| - 1], net);
    }
  }

  lemma {:induction false} SurvivorsAmong(visited: seq<Node>, net: Net, i: nat)
    requires i < |Survivors(visited, net)|
    ensures Survivors(visited, net)[i] in visited
  {
    SurvivorsStay(visited, net, Survivors(visited, net)[i]);
  }

  lemma OpenParts(head: Node, kept: seq<Node>, late: seq<Node>)
    requires Open(kept) && Open(late)
    ensures Open(([head] + kept + late)[1..])
  {
    assert ([head] + kept + late)[1..] == kept + late;
  }

  lemma FromParts(head: Node, ring: seq<Node>, kept: seq<Node>, grown: seq<Node>, late: seq<Node>, i: nat)
    requires head in ring && i < |[head] + kept + late|
    requires forall k :: 0 <= k < |kept| ==> kept[k] in ring || kept[k] in grown
    ensures var x := ([head] + kept + late)[i]; x in ring || x in grown || x in late
  {
  }

  /** The list after a scan, which is fit for the next one. */
  lemma NextRing(head: Node, ring: seq<Node>, visited: seq<Node>, grown: seq<Node>, late: seq<Node>, net: Net)
    returns (ring': seq<Node>)
    requires ring != [] && ring[0] == head && Open(ring[1..]) && Open(grown) && Open(late) && visited == ring[1..] + grown
    ensures ring' == [head] + Survivors(visited, net) + late && ring'[0] == head && Open(ring'[1..])
    ensures forall i :: 0 <= i < |ring'| ==> ring'[i] in ring || ring'[i] in grown || ring'[i] in late
  {
    var kept := Survivors(visited, net);
    ring' := [head] + kept + late;
    SurvivorsOpen(visited, net);
    OpenParts(head, kept, late);
    forall k | 0 <= k < |kept|
      ensures kept[k] in ring || kept[k] in grown
    {
      SurvivorsAmong(visited, net, k);
    }
    forall i | 0 <= i < |ring'|
      ensures ring'[i] in ring || ring'[i] in grown || ring'[i] in late
    {
      FromParts(head, ring, kept, grown, late, i);
    }
  }

  /** tsocket.c:241-271 without time-outs: scan after scan, for whatever each select and accept deliver. */
  method Serve(mainSockfd: int, nets: seq<Net>) returns (head: Node, ghost ring: seq<Node>)
    requires mainSockfd > 0
    ensures Linked(ring) && ring[0] == head && Open(ring[1..])
  {
    head := new Node(0, Null);
    ListInit(head);
    var first := new Node(mainSockfd, Main);
    ListAddTail(head, first, [head]);
    ring := [head] + [first];
    var i := 0;
    while i < |nets|
      invariant i <= |nets| && Linked(ring) && ring[0] == head && Open(ring[1..])
      invariant forall k :: 0 <= k < |ring| ==> fresh(ring[k])
    {
      ghost var visited, grown, late := Scan(head, nets[i], ring);
      ring := NextRing(head, ring, visited, grown, late, nets[i]);
      i := i + 1;
    }
  }
}

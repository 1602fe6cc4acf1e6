/** The simulated overlay: its nodes generate links to others at random, drop those that carry the
    fewest routes, reboot, and disappear. */
module Overlay {
  import opened FiniteSets
  import opened ShortestPaths
  import opened Routes
  import opened OverlayLinks

  class Graph {
    var links: Links
    var size: nat
    const k: nat
    const maxPeers: nat
    const latency: Latencies
    const draws: nat -> nat            // what the random generator gives, and how often
    var drawn: nat                     // it was asked

    ghost function R(): Rules
      reads this`size
    {
      Rules(size, k, maxPeers, latency, draws)
    }

    ghost predicate Valid()
      reads this
    {
      && Budgeted(links, size, k, maxPeers)
      && size <= |latency| && IsTable(latency) && Reachable(links, size, latency)
    }

    /** All nodes start without links and are saturated one after the other. In the end each
        node has k links of its own, or 50 draws in a row were refused, and would still be. */
    constructor (size: nat, k: nat, maxPeers: nat, latency: Latencies, draws: nat -> nat)
      requires k <= maxPeers && size <= |latency| && IsTable(latency)
      ensures Valid() && this.size == size && this.k == k && this.maxPeers == maxPeers
      ensures this.latency == latency && this.draws == draws
      ensures |links.generated| == size && forall i :: 0 <= i < size ==> Saturated(R(), links, i, 0, drawn)
    {
      this.size, this.k, this.maxPeers, this.latency := size, k, maxPeers, latency;
      this.draws, drawn := draws, 0;
      links := Links(seq(size, i => {}), seq(size, i => {}));
      new;
      for i := 0 to size
        invariant Valid() && this.size == size && |links.generated| == size
        invariant forall j :: 0 <= j < i ==> Saturated(R(), links, j, 0, drawn)
      {
        SaturateFirst(i);
      }
    }

    /** The nodes before i stay saturated. */
    method SaturateFirst(i: nat)
      requires Valid() && i < size == |links.generated|
      requires forall j :: 0 <= j < i ==> Saturated(R(), links, j, 0, drawn)
      modifies this`links, this`drawn
      ensures Valid() && |links.generated| == size
      ensures forall j :: 0 <= j < i + 1 ==> Saturated(R(), links, j, 0, drawn)
    {
      ghost var r, l, n := R(), links, drawn;
      SaturateNode(i);
      FilledSaturated(r, l, n, i, links, drawn);
      EarlierDraws(r, links, i, 0, n, drawn);
      ghost var added :| FilledWith(r, l, n, i, links, drawn, added);
      forall j | 0 <= j < i ensures Saturated(r, links, j, 0, drawn) {
        StaysSaturated(r, l, links, j, 0, n, drawn);
      }
    }

    /** Up to 50 random candidates: the first one that is acceptable is linked. */
    method AddEdge(from: int) returns (ok: bool)
      requires Valid() && 0 <= from < size && |links.generated[from]| < k
      modifies this`links, this`drawn
      ensures Valid() && Looked(R(), old(links), old(drawn), from, links, drawn, ok)
    {
      var to;
      ok, to := FindCandidate(from);
      if ok {
        Insert(from, to);
      }
    }

    /** The loop over the candidates. */
    method FindCandidate(from: int) returns (ok: bool, to: int)
      requires 0 <= from < size && Fits(R(), links)
      modifies this`drawn
      ensures old(drawn) <= drawn <= old(drawn) + 50
      ensures !ok ==> drawn == old(drawn) + 50 && Refused(R(), links, from, old(drawn), drawn)
      ensures ok ==> drawn > old(drawn) && Refused(R(), links, from, old(drawn), drawn - 1)
                     && to == Candidate(R(), drawn - 1) && Acceptable(R(), links, from, to)
    {
      ghost var n, r := drawn, R();
      for i := 0 to 50
        invariant drawn == n + i && Refused(r, links, from, n, n + i)
      {
        to := if draws(drawn) < size then draws(drawn) else 0;
        drawn := drawn + 1;
        if to != from
           && latency[from][to] > 0
           && to !in links.adjacency[from]
           && |links.adjacency[to]| + k < maxPeers + |links.generated[to]|
        {
          ok := true;
          return;
        }
      }
      ok, to := false, from;
    }

    method Insert(from: int, to: int)
      requires Valid() && 0 <= from < size && 0 <= to < size && from != to && latency[from][to] > 0
      requires |links.generated[from]| < k && to !in links.adjacency[from]
      requires |links.adjacency[to]| + k < maxPeers + |links.generated[to]|
      modifies this`links
      ensures Valid() && links == Add(old(links), from, to)
    {
      AddKeepsBudget(links, size, k, maxPeers, from, to);
      links := links.(generated := links.generated[from := links.generated[from] + {to}]);
      links := links.(adjacency := links.adjacency[from := links.adjacency[from] + {to}]);
      links := links.(adjacency := links.adjacency[to := links.adjacency[to] + {from}]);
    }

    /** The turn of a node: it ends with k links of its own, or after 50 candidates in a row none
        of which would do. */
    method SaturateNode(node: int)
      requires Valid() && 0 <= node < size
      modifies this`links, this`drawn
      ensures Valid() && Filled(R(), old(links), old(drawn), node, links, drawn)
    {
      var more := true;
      ghost var r, l0, n0, added := R(), links, drawn, {};
      while more && |links.generated[node]| < k
        invariant Valid() && Looking(r, l0, n0, node, links, drawn, added, more)
        invariant !more ==> |links.generated[node]| < k
        decreases more, k - |links.generated[node]|
      {
        more, added := LookOnce(node, l0, n0, added);
      }
      assert InBudget(links, k, maxPeers, node);
      LookedFor(r, l0, n0, node, links, drawn, added, more);
    }

    method LookOnce(node: int, ghost l0: Links, ghost n0: nat, ghost added: set<int>)
      returns (more: bool, ghost added': set<int>)
      requires Valid() && 0 <= node < size && |links.generated[node]| < k
      requires Looking(R(), l0, n0, node, links, drawn, added, true)
      modifies this`links, this`drawn
      ensures Valid() && Looking(R(), l0, n0, node, links, drawn, added', more)
      ensures if more then |links.generated[node]| == |old(links).generated[node]| + 1 else links == old(links)
    {
      ghost var r, l, n := R(), links, drawn;
      more := AddEdge(node);
      assert r == R();
      added' := if more then added + {Candidate(r, drawn - 1)} else added;
      LookedOnce(r, l0, n0, l, n, node, links, drawn, added, more);
    }

    method RemoveEdge(from: int, to: int)
      requires Valid() && 0 <= from < size && 0 <= to < size && from != to
      requires to in links.generated[from] || to !in links.adjacency[from]
      modifies this`links
      ensures Valid() && links == Remove(old(links), from, to)
    {
      RemoveKeepsBudget(links, size, k, maxPeers, from, to);
      links := links.(generated := links.generated[from := links.generated[from] - {to}]);
      links := links.(adjacency := links.adjacency[from := links.adjacency[from] - {to}]);
      links := links.(adjacency := links.adjacency[to := links.adjacency[to] - {from}]);
    }

    ghost function CurrentNet(): Net
      requires Valid()
      reads this
    {
      Network(links, size, latency)
    }

    /** The link of `node` through which the fewest routes go, nRefresh times. */
    method GetRouteResult(node: int, nRefresh: nat) returns (toDelete: seq<int>)
      requires Valid() && 0 <= node < size
      ensures links.generated[node] == {} ==> toDelete == []
      ensures links.generated[node] != {} ==> |toDelete| == nRefresh
      ensures Removable(links, size, node, toDelete) && LeastRouted(CurrentNet(), links.generated[node], node, toDelete)
    {
      var nRoutes, prevs, distances := new int[size], new int[size], new int[size];
      NetworkValid(links, size, latency);
      ghost var dist, prev, counts, order :=
        GetRoutesFrom(Network(links, size, latency), node, nRoutes, prevs, distances);
      toDelete := [];
      if links.generated[node] != {} {
        var mini := FewestRoutes(links.generated[node], nRoutes[..]);
        for i := 0 to nRefresh
          invariant |toDelete| == i && forall x :: x in toDelete ==> x == mini
        {
          toDelete := toDelete + [mini];
        }
      }
      assert LeastIn(links.generated[node], counts, toDelete);
    }

    /** The links that the chosen nodes will drop. */
    method Choose(chosen: set<int>, nRefresh: nat) returns (results: seq<seq<int>>)
      requires Valid()
      ensures |results| == size && Choices(links, size, CurrentNet(), chosen, nRefresh, results)
    {
      results := [];
      ghost var l, n, g := links, size, CurrentNet();
      for i := 0 to size
        invariant |results| == i && Choices(l, n, g, chosen, nRefresh, results)
      {
        var r := ChooseOne(i, i in chosen, nRefresh, l, g);
        results := results + [r];
      }
      assert g == CurrentNet();
    }

    method ChooseOne(i: int, chosen: bool, nRefresh: nat, ghost l: Links, ghost g: Net) returns (r: seq<int>)
      requires Valid() && 0 <= i < size && l == links && g == CurrentNet()
      ensures Choice(l, size, g, i, chosen, nRefresh, r)
    {
      r := [];
      if chosen {
        r := GetRouteResult(i, nRefresh);
      }
    }

    /** `UpdateLowRoutes`: the links to drop are chosen for all nodes first, and dropped
        and replaced node by node afterwards. They are still there at that time. */
    method UpdateLowRoutes(nRefresh: nat)
      returns (ghost dropped: seq<seq<int>>, ghost ls: seq<Links>, ghost ns: seq<nat>)
      requires Valid()
      modifies this`links, this`drawn
      ensures Valid() && |dropped| == size
      ensures Choices(old(links), size, old(CurrentNet()), Below(size), nRefresh, dropped)
      ensures Turns(R(), true, dropped, ls, ns, size)
      ensures ls[0] == old(links) && ns[0] == old(drawn) && ls[size] == links && ns[size] == drawn
    {
      var results := Choose(Below(size), nRefresh);
      dropped := results;
      ls, ns := [links], [drawn];
      ghost var r, l, n := R(), links, drawn;
      for i := 0 to size
        invariant Valid() && Turns(r, true, results, ls, ns, i) && |links.generated| == |l.generated|
        invariant ls[0] == l && ns[0] == n && ls[i] == links && ns[i] == drawn
      {
        ls, ns := TakeTurn(i, results, true, ls, ns);
      }
    }

    /** `UpdateLowRoutesArity`: a node that drops nothing does not look for links either. */
    method UpdateLowRoutesArity(arityToUpdate: nat)
      returns (ghost dropped: seq<seq<int>>, ghost ls: seq<Links>, ghost ns: seq<nat>)
      requires Valid()
      modifies this`links, this`drawn
      ensures Valid() && |dropped| == size
      ensures Choices(old(links), size, old(CurrentNet()),
                      set i | 0 <= i < size
                              && (|old(links).adjacency[i]| == arityToUpdate || |old(links).adjacency[i]| < k),
                      1, dropped)
      ensures Turns(R(), false, dropped, ls, ns, size)
      ensures ls[0] == old(links) && ns[0] == old(drawn) && ls[size] == links && ns[size] == drawn
    {
      var chosen := set i | 0 <= i < size && (|links.adjacency[i]| == arityToUpdate || |links.adjacency[i]| < k);
      var results := Choose(chosen, 1);
      dropped := results;
      ls, ns := [links], [drawn];
      ghost var r, l, n := R(), links, drawn;
      for i := 0 to size
        invariant Valid() && Turns(r, false, results, ls, ns, i) && |links.generated| == |l.generated|
        invariant ls[0] == l && ns[0] == n && ls[i] == links && ns[i] == drawn
      {
        ls, ns := TakeTurn(i, results, false, ls, ns);
      }
    }

    /** The turn of one node, unless it has nothing to drop and nobody has to look for links. */
    method TakeTurn(i: int, results: seq<seq<int>>, always: bool, ghost ls: seq<Links>, ghost ns: seq<nat>)
      returns (ghost ls': seq<Links>, ghost ns': seq<nat>)
      requires Valid() && 0 <= i < size == |results| && Turns(R(), always, results, ls, ns, i)
      requires Removable(ls[0], size, i, results[i]) && |ls[0].generated| == |links.generated|
      requires ls[i] == links && ns[i] == drawn
      modifies this`links, this`drawn
      ensures Valid() && Turns(R(), always, results, ls', ns', i + 1) && |links.generated| == |ls[0].generated|
      ensures ls' == ls + [links] && ns' == ns + [drawn]
    {
      ghost var r := R();
      GeneratedBetween(r, always, results, ls, ns, i, 0, i, i);
      if always || |results[i]| > 0 {
        ReplaceLinks(i, results[i]);
      }
      TurnsNext(r, always, results, ls, ns, i, links, drawn);
      ls', ns' := ls + [links], ns + [drawn];
    }

    /** One node drops its links, and looks for others. */
    method ReplaceLinks(i: int, xs: seq<int>)
      requires Valid() && Removable(links, size, i, xs)
      modifies this`links, this`drawn
      ensures Valid() && Turn(R(), true, i, xs, old(links), old(drawn), links, drawn)
      ensures |links.generated| == |old(links).generated|
    {
      RemoveAll(i, xs);
      SaturateNode(i);
    }

    /** The list repeats one link, so however long it is that link alone is removed. */
    method RemoveAll(node: int, toDelete: seq<int>)
      requires Valid() && Removable(links, size, node, toDelete)
      modifies this`links
      ensures Valid() && |links.generated| == |old(links).generated|
      ensures toDelete == [] ==> links == old(links)
      ensures toDelete != [] ==>
                0 <= toDelete[0] < size && toDelete[0] != node && links == Remove(old(links), node, toDelete[0])
    {
      forall n | 0 <= n < |toDelete| ensures toDelete[n] == toDelete[0] && toDelete[0] in links.generated[node] {
        assert toDelete[n] in toDelete && toDelete[0] in toDelete;
      }
      for n := 0 to |toDelete|
        invariant Valid()
        invariant links == if n == 0 then old(links) else Remove(old(links), node, toDelete[0])
      {
        if n > 0 {
          RemoveTwice(old(links), node, toDelete[0]);
        }
        RemoveEdge(node, toDelete[n]);
      }
    }

    /** A node that reboots loses all its links, its own first; then it and its former
        neighbours look for new ones. */
    method RebootNode(node: int) returns (ghost order: seq<int>, ghost ls: seq<Links>, ghost ns: seq<nat>)
      requires Valid() && 0 <= node < size
      modifies this`links, this`drawn
      ensures Valid() && Reborn(R(), old(links), old(drawn), node, order, ls, ns, links, drawn)
    {
      ghost var r, l := R(), links;
      DropOwnLinks(node);
      var toSaturate := DropOtherLinks(node);
      UnlinkedTwice(l, size, node);
      OrderOfTurns(l, size, node, toSaturate);
      order := [node] + toSaturate;
      ls, ns := [links], [drawn];
      ls, ns := LookForLinks(node, order, ls, ns);
      for i := 0 to |toSaturate|
        invariant Valid() && Fills(r, order, ls, ns, i + 1)
        invariant ls[0] == Alone(l, node) && ns[0] == old(drawn) && ls[i + 1] == links && ns[i + 1] == drawn
      {
        assert toSaturate[i] in toSaturate;
        ls, ns := LookForLinks(toSaturate[i], order, ls, ns);
      }
    }

    /** The turn of one node, in a list of them. */
    method LookForLinks(node: int, ghost order: seq<int>, ghost ls: seq<Links>, ghost ns: seq<nat>)
      returns (ghost ls': seq<Links>, ghost ns': seq<nat>)
      requires Valid() && 0 <= node < size && 0 < |ls| <= |order| && node == order[|ls| - 1]
      requires Fills(R(), order, ls, ns, |ls| - 1) && ls[|ls| - 1] == links && ns[|ls| - 1] == drawn
      modifies this`links, this`drawn
      ensures Valid() && Fills(R(), order, ls', ns', |ls|)
      ensures ls' == ls + [links] && ns' == ns + [drawn]
    {
      ghost var t := |ls| - 1;
      SaturateNode(node);
      FillsNext(R(), order, ls, ns, t, links, drawn);
      ls', ns' := ls + [links], ns + [drawn];
    }

    method DropOwnLinks(node: int)
      requires Valid() && 0 <= node < size
      modifies this`links
      ensures Valid() && links == Unlinked(old(links), node, old(links).generated[node])
    {
      var todo := links.generated[node];
      UnlinkedNone(links, node, todo);
      while todo != {}
        invariant Valid() && todo <= old(links).generated[node] && links.generated[node] == todo
        invariant links == Unlinked(old(links), node, old(links).generated[node] - todo)
        decreases todo
      {
        SomeMember(todo);
        var j :| j in todo;
        UnlinkOwn(old(links), links, size, node, old(links).generated[node] - todo, j);
        RemoveEdge(node, j);
        assert old(links).generated[node] - (todo - {j}) == old(links).generated[node] - todo + {j};
        todo := todo - {j};
      }
      assert old(links).generated[node] - todo == old(links).generated[node];
    }

    method DropOtherLinks(node: int) returns (toSaturate: seq<int>)
      requires Valid() && 0 <= node < size && links.generated[node] == {}
      modifies this`links
      ensures Valid() && links == Alone(old(links), node)
      ensures forall j :: j in toSaturate <==> j in old(links).adjacency[node]
      ensures forall i, j :: 0 <= i < j < |toSaturate| ==> toSaturate[i] != toSaturate[j]
    {
      toSaturate := [];
      ghost var all := links.adjacency[node];
      var todo := links.adjacency[node];
      UnlinkedNone(links, node, todo);
      while todo != {}
        invariant Valid() && links.adjacency[node] == todo <= all && links.generated[node] == {}
        invariant forall j :: j in toSaturate <==> j in all - todo
        invariant forall i, j :: 0 <= i < j < |toSaturate| ==> toSaturate[i] != toSaturate[j]
        invariant links == Unlinked(old(links), node, all - todo)
        decreases todo
      {
        SomeMember(todo);
        var j :| j in todo;
        assert j !in toSaturate;
        UnlinkOther(old(links), links, size, node, all - todo, j);
        toSaturate := [j] + toSaturate;
        RemoveEdge(j, node);
        assert all - (todo - {j}) == all - todo + {j};
        todo := todo - {j};
      }
      assert all - todo == all;
    }

    /** The nodes that reboot do so one after the other; the links between the others stay. ls
        and ns are the links and the number of draws before the turn of each node. */
    method Reboot(killed: set<int>) returns (ghost ls: seq<Links>, ghost ns: seq<nat>)
      requires Valid()
      modifies this`links, this`drawn
      ensures Valid() && KeptBetweenOthers(old(links), links, killed)
      ensures Reboots(R(), killed, ls, ns, size)
      ensures ls[0] == old(links) && ns[0] == old(drawn) && ls[size] == links && ns[size] == drawn
    {
      ls, ns := [links], [drawn];
      ghost var r := R();
      for i := 0 to size
        invariant Valid() && Reboots(r, killed, ls, ns, i)
        invariant ls[0] == old(links) && ns[0] == old(drawn) && ls[i] == links && ns[i] == drawn
        invariant KeptBetweenOthers(old(links), links, killed)
      {
        ghost var l, n := links, drawn;
        if i in killed {
          ghost var order, ls1, ns1 := RebootNode(i);
          RebornKeepsOthers(r, l, n, i, order, ls1, ns1, links, drawn);
        }
        RebootsNext(r, killed, ls, ns, i, links, drawn);
        ls, ns := ls + [links], ns + [drawn];
      }
    }

    /** The last machines disappear, and the others forget them. */
    method KillMachines(left: nat)
      requires Valid() && left <= size
      modifies this`links, this`size
      ensures Valid() && size == left && links == Forgotten(old(links), left, left)
    {
      KillKeepsBudget(links, size, k, maxPeers, left);
      size := left;
      for i := 0 to size
        invariant size == left && links == Forgotten(old(links), left, i)
      {
        var l := links;
        links := Links(l.adjacency[i := Survivors(l.adjacency[i], size)],
          l.generated[i := Survivors(l.generated[i], size)]);
      }
    }

    /** The table of the degrees: it has maxPeers + 1 cells, enough for any degree. */
    method GetArity(arity: array<int>)
      requires Valid() && arity.Length == maxPeers + 1
      modifies arity
      ensures forall a :: 0 <= a <= maxPeers ==> arity[a] == WithDegree(links, size, a)
    {
      for a := 0 to maxPeers + 1
        invariant forall b :: 0 <= b < a ==> arity[b] == 0
      {
        arity[a] := 0;
      }
      for i := 0 to size
        invariant forall a :: 0 <= a <= maxPeers ==> arity[a] == WithDegree(links, i, a)
      {
        DegreeBounded(links, size, k, maxPeers, i);
        arity[|links.adjacency[i]|] := arity[|links.adjacency[i]|] + 1;
      }
    }
  }

  /** The loop of `GetRouteResult` that keeps the element with the fewest routes. */
  method FewestRoutes(s: set<int>, nRoutes: seq<int>) returns (mini: int)
    requires s != {} && forall j :: j in s ==> 0 <= j < |nRoutes|
    ensures mini in s && forall j :: j in s ==> nRoutes[mini] <= nRoutes[j]
  {
    mini := -1;
    var todo := s;
    while todo != {}
      invariant todo <= s && (mini == -1 <==> todo == s)
      invariant mini != -1 ==> mini in s && forall j :: j in s - todo ==> nRoutes[mini] <= nRoutes[j]
    {
      SomeMember(todo);
      var j :| j in todo;
      if mini == -1 || nRoutes[mini] > nRoutes[j] {
        mini := j;
      }
      todo := todo - {j};
    }
  }
}

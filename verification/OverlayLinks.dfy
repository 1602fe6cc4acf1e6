/** The links of the simulated overlay as values: each link is generated by one of its ends, and
    the degree of every node stays within its budget. What the turn of a node may do to them. */
module OverlayLinks {
  import opened FiniteSets
  import opened ShortestPaths
  import opened Routes

  /** adjacency[i] are the neighbours of i, generated[i] those that i chose itself. */
  datatype Links = Links(adjacency: seq<set<int>>, generated: seq<set<int>>)

  /** The sets of the nodes 0 .. size-1; sets of killed nodes are not looked at. */
  ghost predicate WellLinked(l: Links, size: nat) {
    && |l.adjacency| == |l.generated| && size <= |l.adjacency|
    && (forall i, j :: 0 <= i < size && j in l.adjacency[i] ==> 0 <= j < size && j != i)
    && (forall i, j :: 0 <= i < size && 0 <= j < size ==> (j in l.adjacency[i] <==> i in l.adjacency[j]))
    && (forall i, j :: 0 <= i < size && j in l.generated[i] ==> j in l.adjacency[i])
    && (forall i, j :: 0 <= i < size && 0 <= j < size && j in l.adjacency[i] ==>
          (j in l.generated[i] <==> i !in l.generated[j]))
  }

  /** The budget of one node: at most k links of its own, and room kept for those still
      to be generated. */
  predicate InBudget(l: Links, k: nat, maxPeers: nat, i: int)
    requires 0 <= i < |l.adjacency| && 0 <= i < |l.generated|
  {
    && |l.generated[i]| <= k
    && |l.adjacency[i]| + k <= maxPeers + |l.generated[i]|
  }

  ghost predicate Budgeted(l: Links, size: nat, k: nat, maxPeers: nat) {
    && WellLinked(l, size)
    && forall i :: 0 <= i < size ==> InBudget(l, k, maxPeers, i)
  }

  lemma DegreeBounded(l: Links, size: nat, k: nat, maxPeers: nat, i: int)
    requires Budgeted(l, size, k, maxPeers) && 0 <= i < size
    ensures |l.adjacency[i]| <= maxPeers
  {
    assert InBudget(l, k, maxPeers, i);
  }

  function Add(l: Links, from: int, to: int): Links
    requires 0 <= from < |l.adjacency| == |l.generated| && 0 <= to < |l.adjacency| && from != to
  {
    Links(l.adjacency[from := l.adjacency[from] + {to}][to := l.adjacency[to] + {from}],
          l.generated[from := l.generated[from] + {to}])
  }

  function Remove(l: Links, from: int, to: int): Links
    requires 0 <= from < |l.adjacency| == |l.generated| && 0 <= to < |l.adjacency| && from != to
  {
    Links(l.adjacency[from := l.adjacency[from] - {to}][to := l.adjacency[to] - {from}],
          l.generated[from := l.generated[from] - {to}])
  }

  /** No link is lost, and no node has a place more for links that others generate. */
  ghost predicate Fuller(l: Links, l': Links) {
    && |l'.adjacency| == |l.adjacency| == |l'.generated| == |l.generated|
    && (forall i :: 0 <= i < |l.adjacency| ==> l.adjacency[i] <= l'.adjacency[i])
    && (forall i :: 0 <= i < |l.adjacency| ==>
         |l.adjacency[i]| + |l'.generated[i]| <= |l'.adjacency[i]| + |l.generated[i]|)
  }

  /** A new link uses one of the free places of `to`, and one of the k of `from`. */
  lemma AddKeepsBudget(l: Links, size: nat, k: nat, maxPeers: nat, from: int, to: int)
    requires Budgeted(l, size, k, maxPeers) && 0 <= from < size && 0 <= to < size && from != to
    requires |l.generated[from]| < k && to !in l.adjacency[from]
    requires |l.adjacency[to]| + k < maxPeers + |l.generated[to]|
    ensures Budgeted(Add(l, from, to), size, k, maxPeers)
  {
    var r := Add(l, from, to);
    assert from !in l.adjacency[to] && to !in l.generated[from] && from !in l.generated[to];
    forall i | 0 <= i < size ensures InBudget(r, k, maxPeers, i) {
      assert InBudget(l, k, maxPeers, i);
      assert i != from && i != to ==> r.adjacency[i] == l.adjacency[i] && r.generated[i] == l.generated[i];
    }
  }

  /** Removing a link keeps the budget when `from` generated it, or when there is none. */
  lemma RemoveKeepsBudget(l: Links, size: nat, k: nat, maxPeers: nat, from: int, to: int)
    requires Budgeted(l, size, k, maxPeers) && 0 <= from < size && 0 <= to < size && from != to
    requires to in l.generated[from] || to !in l.adjacency[from]
    ensures Budgeted(Remove(l, from, to), size, k, maxPeers)
  {
    var r := Remove(l, from, to);
    RemoveKeepsLinks(l, size, from, to);
    forall i | 0 <= i < size ensures InBudget(r, k, maxPeers, i) {
      assert InBudget(l, k, maxPeers, i);
      assert i != from && i != to ==> r.adjacency[i] == l.adjacency[i] && r.generated[i] == l.generated[i];
    }
  }

  lemma RemoveKeepsLinks(l: Links, size: nat, from: int, to: int)
    requires WellLinked(l, size) && 0 <= from < size && 0 <= to < size && from != to
    requires to in l.generated[from] || to !in l.adjacency[from]
    ensures WellLinked(Remove(l, from, to), size)
  {
  }

  lemma RemoveTwice(l: Links, from: int, to: int)
    requires 0 <= from < |l.adjacency| == |l.generated| && 0 <= to < |l.adjacency| && from != to
    ensures Remove(Remove(l, from, to), from, to) == Remove(l, from, to)
  {
    var r := Remove(l, from, to);
    assert r.adjacency[from] - {to} == r.adjacency[from] && r.adjacency[to] - {from} == r.adjacency[to];
    assert r.generated[from] - {to} == r.generated[from];
  }

  predicate Kept(j: int, size: nat) { j < size }

  function Survivors(s: set<int>, size: nat): set<int> { set j | j in s && Kept(j, size) }

  /** The links once the first `done` nodes have forgotten those from `size` on. */
  function Forgotten(l: Links, size: nat, done: nat): (r: Links)
    requires |l.adjacency| == |l.generated|
    ensures |r.adjacency| == |r.generated| == |l.adjacency|
  {
    Links(seq(|l.adjacency|, i requires 0 <= i < |l.adjacency| =>
            if i < done then Survivors(l.adjacency[i], size) else l.adjacency[i]),
          seq(|l.generated|, i requires 0 <= i < |l.generated| =>
            if i < done then Survivors(l.generated[i], size) else l.generated[i]))
  }

  /** A node loses at least as many links as links of its own. */
  lemma SurvivorsInBudget(adj: set<int>, gen: set<int>, size: nat)
    requires gen <= adj
    ensures |Survivors(gen, size)| <= |gen|
    ensures |Survivors(adj, size)| + |gen| <= |adj| + |Survivors(gen, size)|
  {
    var lostAdj, lostGen := adj - Survivors(adj, size), gen - Survivors(gen, size);
    assert lostGen <= lostAdj;
    assert lostAdj == lostGen + (lostAdj - lostGen);
    assert adj == Survivors(adj, size) + lostAdj && gen == Survivors(gen, size) + lostGen;
  }

  lemma KillKeepsBudget(l: Links, size: nat, k: nat, maxPeers: nat, left: nat)
    requires Budgeted(l, size, k, maxPeers) && left <= size
    ensures Budgeted(Forgotten(l, left, left), left, k, maxPeers)
  {
    var r := Forgotten(l, left, left);
    forall i | 0 <= i < left ensures InBudget(r, k, maxPeers, i) {
      assert InBudget(l, k, maxPeers, i);
      assert forall j :: j in l.generated[i] ==> j in l.adjacency[i];
      SurvivorsInBudget(l.adjacency[i], l.generated[i], left);
    }
  }

  /** What the reboot of `node` leaves of the links of the others. */
  ghost predicate Rebooted(l: Links, l': Links, node: int) {
    && |l'.generated| == |l.generated|
    && (forall i :: 0 <= i < |l.generated| && i != node ==> l.generated[i] - {node} <= l'.generated[i])
    && (forall i :: 0 <= i < |l.generated| && i != node && node !in l.generated[i] ==>
          l'.generated[i] == l.generated[i])
  }

  ghost predicate KeptBetweenOthers(l: Links, l': Links, killed: set<int>) {
    && |l'.generated| == |l.generated|
    && forall i, x :: 0 <= i < |l.generated| && i !in killed && x !in killed && x in l.generated[i] ==>
         x in l'.generated[i]
  }

  /** How many of the first n nodes have the degree a. */
  function WithDegree(l: Links, n: nat, a: nat): nat
    requires n <= |l.adjacency|
  {
    if n == 0 then 0 else WithDegree(l, n - 1, a) + if |l.adjacency[n - 1]| == a then 1 else 0
  }

  type Latencies = seq<seq<int>>

  /** The table of the latencies is square and symmetric. */
  ghost predicate IsTable(latency: Latencies) {
    && (forall i :: 0 <= i < |latency| ==> |latency[i]| == |latency|)
    && (forall i, j :: 0 <= i < |latency| && 0 <= j < |latency| && |latency[i]| == |latency| == |latency[j]| ==>
          latency[i][j] == latency[j][i])
  }

  /** Only nodes that can communicate are linked. */
  ghost predicate Reachable(l: Links, size: nat, latency: Latencies)
    requires size <= |l.adjacency| && size <= |latency|
  {
    forall i, j :: 0 <= i < size && j in l.adjacency[i] && 0 <= j < |latency[i]| ==> latency[i][j] > 0
  }

  /** The network that the routes go through. */
  function Network(l: Links, size: nat, latency: Latencies): Net
    requires size <= |l.adjacency| && size <= |latency| && forall i :: 0 <= i < |latency| ==> |latency[i]| == |latency|
  {
    Net(l.adjacency[..size], seq(size, i requires 0 <= i < size => latency[i][..size]))
  }

  lemma NetworkValid(l: Links, size: nat, latency: Latencies)
    requires WellLinked(l, size) && size <= |latency| && IsTable(latency) && Reachable(l, size, latency)
    ensures ValidNet(Network(l, size, latency)) && forall i :: 0 <= i < size ==> IsNode(Network(l, size, latency), i)
  {
    var g := Network(l, size, latency);
    forall u, v | IsLink(g, u, v) ensures g.latency[v][u] > 0 {
      assert v in l.adjacency[u] && latency[u][v] > 0;
    }
  }

  /** In some tree of shortest paths from `node`, as few nodes as possible are reached
      through the links xs of those that the node generated. */
  ghost predicate LeastRouted(g: Net, own: set<int>, node: int, xs: seq<int>) {
    exists dist, prevs, counts, order ::
      |dist| == |prevs| == |counts| == |g.adj| && RoutesFound(g, node, dist, prevs, counts, order)
        && LeastIn(own, counts, xs)
  }

  /** Every element is a link of the node, the same one each time. */
  ghost predicate Removable(l: Links, size: nat, node: int, xs: seq<int>) {
    && 0 <= node < size && node < |l.generated|
    && (forall x :: x in xs ==> x in l.generated[node] && 0 <= x < size && x != node)
    && Same(xs)
  }

  /** What is to be dropped, of the links that the node generated, is used the least. */
  ghost predicate Least(l: Links, size: nat, g: Net, node: int, xs: seq<int>) {
    Removable(l, size, node, xs) && (xs != [] ==> LeastRouted(g, l.generated[node], node, xs))
  }

  /** Only the chosen nodes that have generated a link drop one, if any is to be dropped. */
  ghost predicate Choice(l: Links, size: nat, g: Net, node: int, chosen: bool, nRefresh: nat, xs: seq<int>) {
    && Least(l, size, g, node, xs)
    && (xs != [] <==> chosen && nRefresh > 0 && l.generated[node] != {})
  }

  ghost predicate Choices(l: Links, size: nat, g: Net, chosen: set<int>, nRefresh: nat, xs: seq<seq<int>>) {
    forall i :: 0 <= i < |xs| ==> Choice(l, size, g, i, i in chosen, nRefresh, xs[i])
  }

  ghost predicate LeastIn(own: set<int>, counts: seq<int>, xs: seq<int>) {
    forall x, j :: x in xs && j in own && 0 <= x < |counts| && 0 <= j < |counts| ==> counts[x] <= counts[j]
  }

  // ---- the turn of one node --------------------------------------------------------------

  /** What the draws are measured by; draws is what the random generator gives. */
  datatype Rules = Rules(size: nat, k: nat, maxPeers: nat, latency: Latencies, draws: nat -> nat)

  predicate Fits(r: Rules, l: Links) {
    && r.size <= |l.adjacency| == |l.generated| && r.size <= |r.latency|
    && forall i :: 0 <= i < |r.latency| ==> |r.latency[i]| == |r.latency|
  }

  /** The n-th number drawn, brought into range: what draws gives is arbitrary. */
  function Candidate(r: Rules, n: nat): (to: int)
    requires r.size > 0
    ensures 0 <= to < r.size
  {
    if r.draws(n) < r.size then r.draws(n) else 0
  }

  /** A link may be generated between two distinct nodes that can communicate and are not
      linked, when the other one has a place left. */
  predicate Acceptable(r: Rules, l: Links, from: int, to: int)
    requires Fits(r, l) && 0 <= from < r.size
  {
    && 0 <= to < r.size && to != from
    && r.latency[from][to] > 0
    && to !in l.adjacency[from]
    && |l.adjacency[to]| + r.k < r.maxPeers + |l.generated[to]|
  }

  /** The node accepts none of the draws from n to m - 1. */
  ghost predicate Refused(r: Rules, l: Links, node: int, n: nat, m: nat) {
    && Fits(r, l) && 0 <= node < r.size
    && forall j :: n <= j < m ==> !Acceptable(r, l, node, Candidate(r, j))
  }

  predicate Drew(r: Rules, j: nat, x: int) { r.size > 0 && Candidate(r, j) == x }

  ghost predicate DrawnIn(r: Rules, x: int, n: nat, m: nat) { exists j: nat :: n <= j < m && Drew(r, j, x) }

  /** The node has k links of its own, or 50 draws in a row between n and m are refused. */
  ghost predicate Saturated(r: Rules, l: Links, node: int, n: nat, m: nat)
    requires 0 <= node < |l.generated|
  {
    |l.generated[node]| == r.k || exists j: nat :: n <= j && j + 50 <= m && NoneOf50(r, l, node, j)
  }

  ghost predicate NoneOf50(r: Rules, l: Links, node: int, n: nat) { Refused(r, l, node, n, n + 50) }

  /** What is refused would be refused again when there are more links. */
  lemma RefusedStays(r: Rules, l: Links, l': Links, node: int, n: nat, m: nat)
    requires Fuller(l, l') && Refused(r, l, node, n, m)
    ensures Refused(r, l', node, n, m)
  {
    forall j | n <= j < m ensures !Acceptable(r, l', node, Candidate(r, j)) {
      assert !Acceptable(r, l, node, Candidate(r, j));
    }
  }

  lemma StaysSaturated(r: Rules, l: Links, l': Links, node: int, n: nat, m: nat, m': nat)
    requires 0 <= node < |l.generated| && Fuller(l, l') && m <= m' && Saturated(r, l, node, n, m)
    requires l'.generated[node] == l.generated[node]
    ensures Saturated(r, l', node, n, m')
  {
    if |l.generated[node]| != r.k {
      var j: nat :| n <= j && j + 50 <= m && NoneOf50(r, l, node, j);
      RefusedStays(r, l, l', node, j, j + 50);
      assert NoneOf50(r, l', node, j);
    }
  }

  /** The links `added` are new, generated by `node`, and nothing else has changed. */
  ghost predicate Linked(l: Links, l': Links, node: int, added: set<int>) {
    && |l'.adjacency| == |l.adjacency| == |l'.generated| == |l.generated| && 0 <= node < |l.adjacency|
    && added !! l.adjacency[node] && node !in added
    && l'.adjacency[node] == l.adjacency[node] + added && l'.generated[node] == l.generated[node] + added
    && (forall i :: 0 <= i < |l.adjacency| && i != node ==>
          l'.adjacency[i] == l.adjacency[i] + if i in added then {node} else {})
    && (forall i :: 0 <= i < |l.adjacency| && i != node ==> l'.generated[i] == l.generated[i])
  }

  /** The turn of a node, with the draws from n to m - 1: all new links are draws of that turn,
      and none of those draws would be accepted any more. It ends with the draw that gave the
      k-th link, or with 50 draws that gave none. */
  ghost predicate Filled(r: Rules, l: Links, n: nat, node: int, l': Links, m: nat) {
    && n <= m && Fuller(l, l') && Refused(r, l', node, n, m)
    && exists added :: FilledWith(r, l, n, node, l', m, added)
  }

  ghost predicate FilledWith(r: Rules, l: Links, n: nat, node: int, l': Links, m: nat, added: set<int>) {
    && Linked(l, l', node, added)
    && if |l'.generated[node]| == r.k
       then AllDrawn(r, added, n, m) && (m == n || (m > 0 && r.size > 0 && Candidate(r, m - 1) in added))
       else n + 50 <= m && AllDrawn(r, added, n, m - 50)
  }

  ghost predicate AllDrawn(r: Rules, added: set<int>, n: nat, m: nat) { forall x :: x in added ==> DrawnIn(r, x, n, m) }

  /** Where the turn of a node is, which has added some links since it began at n0; unless it
      goes on, 50 draws were refused last. */
  ghost predicate Looking(r: Rules, l0: Links, n0: nat, node: int, l: Links, n: nat, added: set<int>, more: bool) {
    && Linked(l0, l, node, added) && Fuller(l0, l) && n0 <= n && Refused(r, l, node, n0, n)
    && if more then AllDrawn(r, added, n0, n) && (n == n0 || Candidate(r, n - 1) in added)
       else n0 + 50 <= n && AllDrawn(r, added, n0, n - 50)
  }

  lemma LookedFor(r: Rules, l0: Links, n0: nat, node: int, l: Links, n: nat, added: set<int>, more: bool)
    requires Looking(r, l0, n0, node, l, n, added, more) && 0 <= node < |l.generated|
    requires if more then |l.generated[node]| == r.k else |l.generated[node]| < r.k
    ensures Filled(r, l0, n0, node, l, n)
  {
    assert FilledWith(r, l0, n0, node, l, n, added);
  }

  lemma RefusedMore(r: Rules, l: Links, node: int, n0: nat, n: nat, m: nat)
    requires Refused(r, l, node, n0, n) && n0 <= n <= m && Refused(r, l, node, n, m)
    ensures Refused(r, l, node, n0, m)
  {
    forall j | n0 <= j < m ensures !Acceptable(r, l, node, Candidate(r, j)) {
      assert j < n || n <= j < m;
    }
  }

  /** Up to 50 draws: the last one is accepted and linked, or none is. */
  ghost predicate Looked(r: Rules, l: Links, n: nat, node: int, l': Links, m: nat, ok: bool) {
    && n <= m <= n + 50 && Fits(r, l) && 0 <= node < r.size
    && if ok then n < m && Refused(r, l, node, n, m - 1) && Acceptable(r, l, node, Candidate(r, m - 1))
                  && l' == Add(l, node, Candidate(r, m - 1))
       else l' == l && m == n + 50 && Refused(r, l, node, n, m)
  }

  lemma LookedOnce(r: Rules, l0: Links, n0: nat, l: Links, n: nat, node: int, l': Links, m: nat, added: set<int>,
                   more: bool)
    requires Looking(r, l0, n0, node, l, n, added, true) && WellLinked(l, r.size)
    requires Looked(r, l, n, node, l', m, more)
    ensures Looking(r, l0, n0, node, l', m, if more then added + {Candidate(r, m - 1)} else added, more)
    ensures more ==> |l'.generated[node]| == |l.generated[node]| + 1
  {
    if more {
      LinkOneMore(r, l0, n0, l, n, node, l', m, added);
    } else {
      RefusedMore(r, l, node, n0, n, m);
    }
  }

  /** One draw accepted, after others refused. */
  lemma LinkOneMore(r: Rules, l0: Links, n0: nat, l: Links, n: nat, node: int, l': Links, m: nat, added: set<int>)
    requires Linked(l0, l, node, added) && Fuller(l0, l) && n0 <= n < m && AllDrawn(r, added, n0, n)
    requires Refused(r, l, node, n0, n) && Refused(r, l, node, n, m - 1) && WellLinked(l, r.size)
    requires Acceptable(r, l, node, Candidate(r, m - 1)) && l' == Add(l, node, Candidate(r, m - 1))
    ensures Linked(l0, l', node, added + {Candidate(r, m - 1)}) && Fuller(l0, l')
    ensures AllDrawn(r, added + {Candidate(r, m - 1)}, n0, m) && Refused(r, l', node, n0, m)
    ensures |l'.generated[node]| == |l.generated[node]| + 1
  {
    var to := Candidate(r, m - 1);
    AddFuller(l, r.size, node, to);
    FullerTransitive(l0, l, l');
    LinkedMore(l0, l, node, added, to);
    RefusedStays(r, l, l', node, n0, n);
    RefusedStays(r, l, l', node, n, m - 1);
    RefusedJoin(r, l', node, n0, n, m);
    DrawnMore(r, added, n0, n, m);
  }

  lemma RefusedJoin(r: Rules, l: Links, node: int, n0: nat, n: nat, m: nat)
    requires Refused(r, l, node, n0, n) && n0 <= n < m && Refused(r, l, node, n, m - 1)
    requires Candidate(r, m - 1) in l.adjacency[node]
    ensures Refused(r, l, node, n0, m)
  {
    forall j | n0 <= j < m ensures !Acceptable(r, l, node, Candidate(r, j)) {
      assert j < n || n <= j < m - 1 || j == m - 1;
    }
  }

  lemma LinkedMore(l0: Links, l: Links, node: int, added: set<int>, to: int)
    requires Linked(l0, l, node, added) && 0 <= to < |l.adjacency| && to != node && to !in l.adjacency[node]
    ensures Linked(l0, Add(l, node, to), node, added + {to})
  {
  }

  lemma FullerTransitive(l0: Links, l: Links, l': Links)
    requires Fuller(l0, l) && Fuller(l, l')
    ensures Fuller(l0, l')
  {
  }

  lemma DrawnMore(r: Rules, added: set<int>, n: nat, m: nat, m': nat)
    requires AllDrawn(r, added, n, m) && n <= m < m' && r.size > 0
    ensures AllDrawn(r, added + {Candidate(r, m' - 1)}, n, m')
  {
    assert Drew(r, m' - 1, Candidate(r, m' - 1));
    forall x | x in added ensures DrawnIn(r, x, n, m') {
      var j: nat :| n <= j < m && Drew(r, j, x);
    }
  }

  lemma AddFuller(l: Links, size: nat, from: int, to: int)
    requires WellLinked(l, size) && 0 <= from < size && 0 <= to < size && from != to && to !in l.adjacency[from]
    ensures Fuller(l, Add(l, from, to)) && |Add(l, from, to).generated[from]| == |l.generated[from]| + 1
  {
    assert from !in l.adjacency[to] && to !in l.generated[from];
  }

  // ---- the turns of an update ---------------------------------------------------------------

  /** A node drops the link that xs repeats, if any, and looks for others; a node without a
      link to drop has a turn only if `always`. */
  ghost predicate Turn(r: Rules, always: bool, node: int, xs: seq<int>, l: Links, n: nat, l': Links, m: nat) {
    && 0 <= node < |l.adjacency| == |l.generated| && (xs != [] ==> 0 <= xs[0] < |l.adjacency| && xs[0] != node)
    && if xs == [] && !always then l' == l && m == n
       else Filled(r, if xs == [] then l else Remove(l, node, xs[0]), n, node, l', m)
  }

  ghost predicate TurnAt(r: Rules, always: bool, dropped: seq<seq<int>>, ls: seq<Links>, ns: seq<nat>, i: nat)
    requires i < |dropped| && i + 1 < |ls| == |ns|
  {
    Turn(r, always, i, dropped[i], ls[i], ns[i], ls[i + 1], ns[i + 1])
  }

  /** The first t nodes have had their turns: ls[i] are the links and ns[i] the number of draws
      before the turn of the node i. */
  ghost predicate Turns(r: Rules, always: bool, dropped: seq<seq<int>>, ls: seq<Links>, ns: seq<nat>, t: nat) {
    && t <= |dropped| && |ls| == |ns| == t + 1
    && forall i :: 0 <= i < t ==> TurnAt(r, always, dropped, ls, ns, i)
  }

  lemma TurnsNext(r: Rules, always: bool, dropped: seq<seq<int>>, ls: seq<Links>, ns: seq<nat>, t: nat,
                  l: Links, n: nat)
    requires Turns(r, always, dropped, ls, ns, t) && t < |dropped|
    requires Turn(r, always, t, dropped[t], ls[t], ns[t], l, n)
    ensures Turns(r, always, dropped, ls + [l], ns + [n], t + 1)
  {
    forall i | 0 <= i < t + 1 ensures TurnAt(r, always, dropped, ls + [l], ns + [n], i) {
      assert i < t ==> TurnAt(r, always, dropped, ls, ns, i);
    }
  }

  /** Only the node whose turn it is changes the links that it has generated. */
  lemma TurnOthers(r: Rules, always: bool, node: int, xs: seq<int>, l: Links, n: nat, l': Links, m: nat, j: int)
    requires Turn(r, always, node, xs, l, n, l', m) && 0 <= j < |l.generated| && j != node
    ensures |l'.generated| == |l.generated| && l'.generated[j] == l.generated[j] && n <= m
  {
    if !(xs == [] && !always) {
      var l1 := if xs == [] then l else Remove(l, node, xs[0]);
      var added :| FilledWith(r, l1, n, node, l', m, added);
    }
  }

  lemma {:induction false} GeneratedBetween(r: Rules, always: bool, dropped: seq<seq<int>>, ls: seq<Links>,
                                            ns: seq<nat>, t: nat, a: nat, b: nat, j: nat)
    requires Turns(r, always, dropped, ls, ns, t) && a <= b <= t && !(a <= j < b) && j < |ls[a].generated|
    ensures |ls[b].generated| == |ls[a].generated| && ls[b].generated[j] == ls[a].generated[j] && ns[a] <= ns[b]
  {
    if a < b {
      GeneratedBetween(r, always, dropped, ls, ns, t, a, b - 1, j);
      assert TurnAt(r, always, dropped, ls, ns, b - 1);
      TurnOthers(r, always, b - 1, dropped[b - 1], ls[b - 1], ns[b - 1], ls[b], ns[b], j);
    }
  }

  /** How the links that a node has generated change in a turn with the draws from n to m - 1:
      it keeps all but the one dropped, which comes back only if it is drawn again, and every
      link that was not there before is drawn. */
  ghost predicate Replaced(r: Rules, xs: seq<int>, own: set<int>, own': set<int>, n: nat, m: nat) {
    && (forall x :: x in own && x !in xs ==> x in own')
    && (forall x :: x in own' && (x in xs || x !in own) ==> DrawnIn(r, x, n, m))
  }

  /** What its turn does to a node, for good. The turn ends with k links of its own, or with 50
      draws refused. */
  lemma TurnReplaces(r: Rules, always: bool, dropped: seq<seq<int>>, ls: seq<Links>, ns: seq<nat>, t: nat, i: nat)
    requires Turns(r, always, dropped, ls, ns, t) && i < t
    requires i < |ls[0].generated| == |ls[0].adjacency|
    requires Same(dropped[i]) && (dropped[i] != [] || always)
    ensures i < |ls[t].generated| == |ls[0].generated| && i < |ls[i + 1].generated| && ns[i] <= ns[i + 1]
    ensures Replaced(r, dropped[i], ls[0].generated[i], ls[t].generated[i], ns[i], ns[i + 1])
    ensures Saturated(r, ls[i + 1], i, ns[i], ns[i + 1])
  {
    GeneratedBetween(r, always, dropped, ls, ns, t, 0, i, i);
    TurnOf(r, always, dropped, ls, ns, t, i);
    GeneratedBetween(r, always, dropped, ls, ns, t, i + 1, t, i);
  }

  ghost predicate Same(xs: seq<int>) { forall x, y :: x in xs && y in xs ==> x == y }

  lemma TurnOf(r: Rules, always: bool, dropped: seq<seq<int>>, ls: seq<Links>, ns: seq<nat>, t: nat, i: nat)
    requires Turns(r, always, dropped, ls, ns, t) && i < t && Same(dropped[i]) && (dropped[i] != [] || always)
    ensures i < |ls[i + 1].generated| == |ls[i].generated| && ns[i] <= ns[i + 1]
    ensures Replaced(r, dropped[i], ls[i].generated[i], ls[i + 1].generated[i], ns[i], ns[i + 1])
    ensures Saturated(r, ls[i + 1], i, ns[i], ns[i + 1])
  {
    assert TurnAt(r, always, dropped, ls, ns, i);
    OneTurn(r, always, i, dropped[i], ls[i], ns[i], ls[i + 1], ns[i + 1]);
  }

  lemma OneTurn(r: Rules, always: bool, node: nat, xs: seq<int>, l: Links, n: nat, l': Links, m: nat)
    requires Turn(r, always, node, xs, l, n, l', m) && (xs != [] || always) && Same(xs)
    ensures node < |l'.generated| == |l.generated| && n <= m && Saturated(r, l', node, n, m)
    ensures Replaced(r, xs, l.generated[node], l'.generated[node], n, m)
  {
    var l1 := if xs == [] then l else Remove(l, node, xs[0]);
    var added :| FilledWith(r, l1, n, node, l', m, added);
    FilledSaturated(r, l1, n, node, l', m);
    AddedDrawn(r, l1, n, node, l', m, added);
    if xs != [] {
      assert xs[0] in xs && forall x :: x in xs ==> x == xs[0];
    }
  }

  lemma AddedDrawn(r: Rules, l: Links, n: nat, node: int, l': Links, m: nat, added: set<int>)
    requires FilledWith(r, l, n, node, l', m, added)
    ensures AllDrawn(r, added, n, m)
  {
    if |l'.generated[node]| != r.k {
      forall x | x in added ensures DrawnIn(r, x, n, m) {
        var j: nat :| n <= j < m - 50 && Drew(r, j, x);
      }
    }
  }

  lemma FilledSaturated(r: Rules, l: Links, n: nat, node: int, l': Links, m: nat)
    requires Filled(r, l, n, node, l', m)
    ensures 0 <= node < |l'.generated| == |l.generated| && Saturated(r, l', node, n, m)
  {
    var added :| FilledWith(r, l, n, node, l', m, added);
    if |l'.generated[node]| != r.k {
      assert NoneOf50(r, l', node, m - 50);
    }
  }

  // ---- a reboot -----------------------------------------------------------------------------

  /** Some neighbours of `node` and the node have forgotten each other. */
  function Unlinked(l: Links, node: int, gone: set<int>): Links
    requires |l.adjacency| == |l.generated|
  {
    Links(seq(|l.adjacency|, i requires 0 <= i < |l.adjacency| =>
            if i == node then l.adjacency[i] - gone
            else if i in gone then l.adjacency[i] - {node} else l.adjacency[i]),
          seq(|l.generated|, i requires 0 <= i < |l.generated| =>
            if i == node then l.generated[i] - gone
            else if i in gone then l.generated[i] - {node} else l.generated[i]))
  }

  /** The node without any link. */
  function Alone(l: Links, node: int): Links
    requires |l.adjacency| == |l.generated| && 0 <= node < |l.adjacency|
  {
    Unlinked(l, node, l.adjacency[node])
  }

  ghost predicate FilledAt(r: Rules, order: seq<int>, ls: seq<Links>, ns: seq<nat>, i: nat)
    requires i < |order| && i + 1 < |ls| == |ns|
  {
    Filled(r, ls[i], ns[i], order[i], ls[i + 1], ns[i + 1])
  }

  /** The first t nodes of the list look for links, one after the other. */
  ghost predicate Fills(r: Rules, order: seq<int>, ls: seq<Links>, ns: seq<nat>, t: nat) {
    && t <= |order| && |ls| == |ns| == t + 1
    && forall i :: 0 <= i < t ==> FilledAt(r, order, ls, ns, i)
  }

  /** Each node once, first the one that reboots, then those that had generated a link to it. */
  ghost predicate InTurn(l: Links, size: nat, node: int, order: seq<int>) {
    && order != [] && order[0] == node
    && (forall i, j :: 0 <= i < j < |order| ==> order[i] != order[j])
    && (forall j :: j in order && j != node <==>
          0 <= j < size && j < |l.generated| && j != node && node in l.generated[j])
  }

  /** A reboot: the node is alone first, then it and those that had generated a link to it look
      for links. ls and ns are the links and the number of draws before each of their turns. */
  ghost predicate Reborn(r: Rules, l: Links, n: nat, node: int, order: seq<int>, ls: seq<Links>, ns: seq<nat>,
                         l': Links, m: nat)
  {
    && |l.adjacency| == |l.generated| && 0 <= node < |l.adjacency| && InTurn(l, r.size, node, order)
    && Fills(r, order, ls, ns, |order|) && ls[0] == Alone(l, node) && ns[0] == n
    && ls[|order|] == l' && ns[|order|] == m
  }

  lemma FillsNext(r: Rules, order: seq<int>, ls: seq<Links>, ns: seq<nat>, t: nat, l: Links, n: nat)
    requires Fills(r, order, ls, ns, t) && t < |order| && Filled(r, ls[t], ns[t], order[t], l, n)
    ensures Fills(r, order, ls + [l], ns + [n], t + 1)
  {
    forall i | 0 <= i < t + 1 ensures FilledAt(r, order, ls + [l], ns + [n], i) {
      assert i < t ==> FilledAt(r, order, ls, ns, i);
    }
  }

  /** Links are only added, and only by the node whose turn it is. */
  lemma {:induction false} FilledBetween(r: Rules, order: seq<int>, ls: seq<Links>, ns: seq<nat>, t: nat, a: nat,
                                         b: nat)
    requires Fills(r, order, ls, ns, t) && a <= b <= t && |ls[a].adjacency| == |ls[a].generated|
    ensures Fuller(ls[a], ls[b]) && ns[a] <= ns[b]
    ensures forall j :: 0 <= j < |ls[a].generated| && j !in order[a..b] ==> ls[b].generated[j] == ls[a].generated[j]
  {
    if a < b {
      FilledBetween(r, order, ls, ns, t, a, b - 1);
      assert FilledAt(r, order, ls, ns, b - 1);
      var added :| FilledWith(r, ls[b - 1], ns[b - 1], order[b - 1], ls[b], ns[b], added);
      FullerTransitive(ls[a], ls[b - 1], ls[b]);
      assert order[a..b] == order[a..b - 1] + [order[b - 1]];
    }
  }

  /** After the reboot each of those nodes has k links of its own, or 50 draws in a row of this
      reboot were refused, and would still be. */
  lemma RebornSaturated(r: Rules, l: Links, n: nat, node: int, order: seq<int>, ls: seq<Links>, ns: seq<nat>,
                        l': Links, m: nat, i: nat)
    requires Reborn(r, l, n, node, order, ls, ns, l', m) && i < |order|
    ensures 0 <= order[i] < |l'.generated| && Saturated(r, l', order[i], n, m)
  {
    var t := |order|;
    FilledBetween(r, order, ls, ns, t, 0, i);
    assert FilledAt(r, order, ls, ns, i);
    FilledSaturated(r, ls[i], ns[i], order[i], ls[i + 1], ns[i + 1]);
    FilledBetween(r, order, ls, ns, t, i + 1, t);
    assert order[i] !in order[i + 1..t];
    StaysSaturated(r, ls[i + 1], l', order[i], ns[i], ns[i + 1], m);
    EarlierDraws(r, l', order[i], n, ns[i], m);
  }

  lemma EarlierDraws(r: Rules, l: Links, node: int, n: nat, n': nat, m: nat)
    requires 0 <= node < |l.generated| && n <= n' && Saturated(r, l, node, n', m)
    ensures Saturated(r, l, node, n, m)
  {
  }

  /** The link between `node` and x is a draw of the turn of one of them. */
  ghost predicate Redrawn(r: Rules, node: int, order: seq<int>, ns: seq<nat>, x: int) {
    exists i :: RedrawnAt(r, node, order, ns, x, i)
  }

  ghost predicate RedrawnAt(r: Rules, node: int, order: seq<int>, ns: seq<nat>, x: int, i: int) {
    && 0 <= i < |order| && i + 1 < |ns|
    && ((order[i] == node && DrawnIn(r, x, ns[i], ns[i + 1])) || (order[i] == x && DrawnIn(r, node, ns[i], ns[i + 1])))
  }

  /** After the reboot every link of the node, former or not, is a draw of that reboot: its own,
      or that of a node which had generated a link to it. */
  lemma RebornLinks(r: Rules, l: Links, n: nat, node: int, order: seq<int>, ls: seq<Links>, ns: seq<nat>,
                    l': Links, m: nat)
    requires Reborn(r, l, n, node, order, ls, ns, l', m)
    ensures node < |l'.adjacency| && forall x :: x in l'.adjacency[node] ==> Redrawn(r, node, order, ns, x)
  {
    FilledBetween(r, order, ls, ns, |order|, 0, |order|);
    forall x | x in l'.adjacency[node] ensures Redrawn(r, node, order, ns, x) {
      LinkRedrawn(r, order, ls, ns, |order|, |order|, node, x);
    }
  }

  lemma {:induction false} LinkRedrawn(r: Rules, order: seq<int>, ls: seq<Links>, ns: seq<nat>, t: nat, b: nat,
                                       node: int, x: int)
    requires Fills(r, order, ls, ns, t) && b <= t && 0 <= node < |ls[0].adjacency| && ls[0].adjacency[node] == {}
    requires node < |ls[b].adjacency| && x in ls[b].adjacency[node]
    ensures Redrawn(r, node, order, ns, x)
  {
    if b > 0 {
      assert FilledAt(r, order, ls, ns, b - 1);
      var added :| FilledWith(r, ls[b - 1], ns[b - 1], order[b - 1], ls[b], ns[b], added);
      if x in ls[b - 1].adjacency[node] {
        LinkRedrawn(r, order, ls, ns, t, b - 1, node, x);
      } else {
        AddedDrawn(r, ls[b - 1], ns[b - 1], order[b - 1], ls[b], ns[b], added);
        assert RedrawnAt(r, node, order, ns, x, b - 1);
      }
    }
  }

  // ---- how a node becomes alone ---------------------------------------------------------------

  lemma UnlinkedNone(l: Links, node: int, all: set<int>)
    requires |l.adjacency| == |l.generated|
    ensures Unlinked(l, node, all - all) == l
  {
    assert all - all == {};
    var u := Unlinked(l, node, {});
    forall i | 0 <= i < |l.adjacency| ensures u.adjacency[i] == l.adjacency[i] && u.generated[i] == l.generated[i] {}
  }

  lemma UnlinkOwn(l0: Links, l: Links, size: nat, node: int, gone: set<int>, j: int)
    requires WellLinked(l0, size) && 0 <= node < size && l == Unlinked(l0, node, gone)
    requires j in l0.generated[node] && 0 <= j < size && j != node && node !in gone
    ensures Remove(l, node, j) == Unlinked(l0, node, gone + {j})
  {
    var r, u := Remove(l, node, j), Unlinked(l0, node, gone + {j});
    assert node !in l0.generated[j];
    forall i | 0 <= i < |l0.adjacency| ensures r.adjacency[i] == u.adjacency[i] && r.generated[i] == u.generated[i] {}
  }

  lemma UnlinkOther(l0: Links, l: Links, size: nat, node: int, gone: set<int>, j: int)
    requires WellLinked(l0, size) && 0 <= node < size && l == Unlinked(l0, node, gone)
    requires j in l0.adjacency[node] && l0.generated[node] == {} && node !in gone
    ensures 0 <= j < size && j != node && Remove(l, j, node) == Unlinked(l0, node, gone + {j})
  {
    var r, u := Remove(l, j, node), Unlinked(l0, node, gone + {j});
    forall i | 0 <= i < |l0.adjacency| ensures r.adjacency[i] == u.adjacency[i] && r.generated[i] == u.generated[i] {}
  }

  /** First its own links, then those of the others. */
  lemma UnlinkedTwice(l: Links, size: nat, node: int)
    requires WellLinked(l, size) && 0 <= node < size
    ensures Alone(Unlinked(l, node, l.generated[node]), node) == Alone(l, node)
    ensures Unlinked(l, node, l.generated[node]).adjacency[node] == l.adjacency[node] - l.generated[node]
    ensures Unlinked(l, node, l.generated[node]).generated[node] == {}
  {
    var u := Unlinked(l, node, l.generated[node]);
    var a, b := Alone(u, node), Alone(l, node);
    assert forall x :: x in l.generated[node] ==> x in l.adjacency[node];
    assert a.generated[node] == {} == b.generated[node];
    forall i | 0 <= i < |l.adjacency| ensures a.adjacency[i] == b.adjacency[i] && a.generated[i] == b.generated[i] {}
  }

  lemma OrderOfTurns(l: Links, size: nat, node: int, others: seq<int>)
    requires WellLinked(l, size) && 0 <= node < size
    requires forall j :: j in others <==> j in l.adjacency[node] - l.generated[node]
    requires forall i, j :: 0 <= i < j < |others| ==> others[i] != others[j]
    ensures InTurn(l, size, node, [node] + others)
    ensures forall j :: j in others ==> 0 <= j < size
  {
    var order := [node] + others;
    forall i, j | 0 <= i < j < |order| ensures order[i] != order[j] {
      assert order[j] in others;
    }
    forall j ensures j in order && j != node <==> 0 <= j < size && j != node && node in l.generated[j] {
      assert j in order <==> j == node || j in others;
    }
  }

  // ---- all the reboots of a round -----------------------------------------------------------

  ghost predicate RebootedAt(r: Rules, l: Links, n: nat, node: int, l': Links, m: nat) {
    exists order, ls, ns :: Reborn(r, l, n, node, order, ls, ns, l', m)
  }

  ghost predicate RebootTurn(r: Rules, killed: set<int>, ls: seq<Links>, ns: seq<nat>, i: nat)
    requires i + 1 < |ls| == |ns|
  {
    if i in killed then RebootedAt(r, ls[i], ns[i], i, ls[i + 1], ns[i + 1])
    else ls[i + 1] == ls[i] && ns[i + 1] == ns[i]
  }

  ghost predicate Reboots(r: Rules, killed: set<int>, ls: seq<Links>, ns: seq<nat>, t: nat) {
    && |ls| == |ns| == t + 1
    && forall i :: 0 <= i < t ==> RebootTurn(r, killed, ls, ns, i)
  }

  lemma RebootsNext(r: Rules, killed: set<int>, ls: seq<Links>, ns: seq<nat>, t: nat, l: Links, n: nat)
    requires Reboots(r, killed, ls, ns, t)
    requires if t in killed then RebootedAt(r, ls[t], ns[t], t, l, n) else l == ls[t] && n == ns[t]
    ensures Reboots(r, killed, ls + [l], ns + [n], t + 1)
  {
    forall i | 0 <= i < t + 1 ensures RebootTurn(r, killed, ls + [l], ns + [n], i) {
      assert i < t ==> RebootTurn(r, killed, ls, ns, i);
    }
  }

  /** The other nodes lose at most their link to the node that reboots, and only those that lose
      it may generate others. */
  lemma RebornKeepsOthers(r: Rules, l: Links, n: nat, node: int, order: seq<int>, ls: seq<Links>, ns: seq<nat>,
                          l': Links, m: nat)
    requires Reborn(r, l, n, node, order, ls, ns, l', m) && WellLinked(l, r.size) && node < r.size
    ensures Rebooted(l, l', node)
  {
    var t := |order|;
    assert order[0..t] == order;
    forall i | 0 <= i < |l.generated| && i != node
      ensures |l'.generated| == |l.generated| && l.generated[i] - {node} <= l'.generated[i]
      ensures node !in l.generated[i] ==> l'.generated[i] == l.generated[i]
    {
      FilledBetween(r, order, ls, ns, t, 0, t);
      OwnLinksGrow(r, order, ls, ns, t, i);
      assert ls[0].generated[i] == if i in l.adjacency[node] then l.generated[i] - {node} else l.generated[i];
    }
    FilledBetween(r, order, ls, ns, t, 0, t);
  }

  lemma {:induction false} OwnLinksGrow(r: Rules, order: seq<int>, ls: seq<Links>, ns: seq<nat>, t: nat, i: nat)
    requires Fills(r, order, ls, ns, |order|) && t <= |order| && i < |ls[0].generated| == |ls[0].adjacency|
    ensures |ls[t].generated| == |ls[0].generated| && ls[0].generated[i] <= ls[t].generated[i]
  {
    if t > 0 {
      OwnLinksGrow(r, order, ls, ns, t - 1, i);
      assert FilledAt(r, order, ls, ns, t - 1);
      var added :| FilledWith(r, ls[t - 1], ns[t - 1], order[t - 1], ls[t], ns[t], added);
    }
  }
}

/** The per-namespace view of capable/src/main.rs: `union_all_childs`, which
    collects the capabilities used in every namespace below a given one, and
    `program_capabilities`, which builds the namespace graph and the
    per-namespace capability sets from the aggregated entries. */
module Namespaces {
  import opened Util
  import opened CapableCommon
  import opened Caps
  import opened Entries

  /** Parent namespace inode to the list of its child inodes. */
  type Graph = map<Nsid, seq<Nsid>>

  /** Namespace inode to the capabilities used inside it. */
  type CapGraph = map<Nsid, CapSet>

  /** `cap_graph.get(ns).unwrap_or(&CapSet::empty())`. */
  function CapsOf(capGraph: CapGraph, ns: Nsid): CapSet {
    if ns in capGraph then capGraph[ns] else {}
  }

  /** `graph.get(n).unwrap_or(&Vec::new())`. */
  function Children(graph: Graph, n: Nsid): seq<Nsid> {
    if n in graph then graph[n] else []
  }

  /** `rank` witnesses that the graph has no cycle other than self-edges:
      every edge into a node with children of its own, other than a
      self-edge, goes down in rank. `union_all_childs` recurses forever on
      any other cycle. */
  ghost predicate Ranked(graph: Graph, rank: map<Nsid, nat>) {
    && (forall p :: p in graph ==> p in rank)
    && (forall p, c :: p in graph && c in graph[p] && c in graph && c != p ==> p in rank && c in rank && rank[c] < rank[p])
  }

  ghost function Depth(n: Nsid, rank: map<Nsid, nat>): nat {
    if n in rank then rank[n] else 0
  }

  /** What `union_all_childs(n)` returns. */
  ghost function Subtree(n: Nsid, graph: Graph, capGraph: CapGraph, rank: map<Nsid, nat>): CapSet
    requires Ranked(graph, rank)
    decreases Depth(n, rank), 1, 0
  {
    KidsUnion(n, Children(graph, n), graph, capGraph, rank)
  }

  /** The union of the contributions of the children `kids` of `n`. */
  ghost function KidsUnion(n: Nsid, kids: seq<Nsid>, graph: Graph, capGraph: CapGraph, rank: map<Nsid, nat>): CapSet
    requires Ranked(graph, rank)
    requires forall i :: 0 <= i < |kids| ==> kids[i] in Children(graph, n)
    decreases Depth(n, rank), 0, |kids|
  {
    if kids == [] then {}
    else
      var k := kids[|kids| - 1];
      assert k in Children(graph, n);
      KidsUnion(n, kids[..|kids| - 1], graph, capGraph, rank)
      + CapsOf(capGraph, k)
      + (if k in graph && k != n then Subtree(k, graph, capGraph, rank) else {})
  }

  /** `union_all_childs`: for each child, its own capabilities and, unless
      it is a leaf or `n` itself, everything below it. */
  method UnionAllChilds(nsinode: Nsid, graph: Graph, capGraph: CapGraph, ghost rank: map<Nsid, nat>)
    returns (result: CapSet)
    requires Ranked(graph, rank)
    ensures result == Subtree(nsinode, graph, capGraph, rank)
    decreases Depth(nsinode, rank)
  {
    result := {};
    var kids := if nsinode in graph then graph[nsinode] else [];
    for i := 0 to |kids|
      invariant result == KidsUnion(nsinode, kids[..i], graph, capGraph, rank)
    {
      var ns := kids[i];
      assert kids[..i + 1][..i] == kids[..i];
      result := result + (if ns in capGraph then capGraph[ns] else {});
      if ns in graph && ns != nsinode {
        var sub := UnionAllChilds(ns, graph, capGraph, rank);
        result := result + sub;
      }
    }
    assert kids[..|kids|] == kids;
  }

  // ---------------------------------------------------------------------
  // What union_all_childs computes

  /** `w` follows child edges of the graph, at least one of them. */
  predicate IsWalk(graph: Graph, w: seq<Nsid>) {
    |w| >= 2 && forall i :: 0 <= i < |w| - 1 ==> w[i + 1] in Children(graph, w[i])
  }

  /** Every child's contribution is part of the union. */
  lemma {:induction false} KidsUnionHas(n: Nsid, kids: seq<Nsid>, graph: Graph, capGraph: CapGraph, rank: map<Nsid, nat>, i: nat)
    requires Ranked(graph, rank)
    requires forall j :: 0 <= j < |kids| ==> kids[j] in Children(graph, n)
    requires i < |kids|
    ensures CapsOf(capGraph, kids[i]) <= KidsUnion(n, kids, graph, capGraph, rank)
    ensures kids[i] in graph && kids[i] != n ==>
      Subtree(kids[i], graph, capGraph, rank) <= KidsUnion(n, kids, graph, capGraph, rank)
    decreases |kids|
  {
    if i < |kids| - 1 {
      var init := kids[..|kids| - 1];
      assert init[i] == kids[i];
      KidsUnionHas(n, init, graph, capGraph, rank, i);
    }
  }

  /** Every capability of the union comes from one child's contribution. */
  lemma {:induction false} KidsUnionFrom(n: Nsid, kids: seq<Nsid>, graph: Graph, capGraph: CapGraph, rank: map<Nsid, nat>, c: Cap)
    requires Ranked(graph, rank)
    requires forall j :: 0 <= j < |kids| ==> kids[j] in Children(graph, n)
    requires c in KidsUnion(n, kids, graph, capGraph, rank)
    ensures exists i ::
      && 0 <= i < |kids|
      && (c in CapsOf(capGraph, kids[i])
          || (kids[i] in graph && kids[i] != n && c in Subtree(kids[i], graph, capGraph, rank)))
    decreases |kids|
  {
    var last := |kids| - 1;
    var k := kids[last];
    if !(c in CapsOf(capGraph, k) || (k in graph && k != n && c in Subtree(k, graph, capGraph, rank))) {
      var init := kids[..last];
      KidsUnionFrom(n, init, graph, capGraph, rank, c);
      var i :| 0 <= i < |init| &&
        (c in CapsOf(capGraph, init[i])
         || (init[i] in graph && init[i] != n && c in Subtree(init[i], graph, capGraph, rank)));
      assert init[i] == kids[i];
    }
  }

  /** Completeness: the capabilities of every namespace reachable from `n`
      by child edges are in `Subtree(n)`, self-edges included. */
  lemma {:induction false} SubtreeComplete(w: seq<Nsid>, graph: Graph, capGraph: CapGraph, rank: map<Nsid, nat>)
    requires Ranked(graph, rank)
    requires IsWalk(graph, w)
    ensures CapsOf(capGraph, w[|w| - 1]) <= Subtree(w[0], graph, capGraph, rank)
    decreases |w|
  {
    var n := w[0];
    var kids := Children(graph, n);
    assert w[1] in kids;
    var i :| 0 <= i < |kids| && kids[i] == w[1];
    KidsUnionHas(n, kids, graph, capGraph, rank, i);
    if |w| > 2 {
      var rest := w[1..];
      assert IsWalk(graph, rest) by {
        forall j | 0 <= j < |rest| - 1
          ensures rest[j + 1] in Children(graph, rest[j])
        {
          assert rest[j] == w[j + 1] && rest[j + 1] == w[j + 2];
        }
      }
      SubtreeComplete(rest, graph, capGraph, rank);
      assert w[2] in Children(graph, w[1]);
    }
  }

  /** Soundness: every capability in `Subtree(n)` belongs to a namespace
      reachable from `n` by child edges. */
  lemma {:induction false} SubtreeSound(n: Nsid, graph: Graph, capGraph: CapGraph, rank: map<Nsid, nat>, c: Cap)
    requires Ranked(graph, rank)
    requires c in Subtree(n, graph, capGraph, rank)
    ensures exists w :: IsWalk(graph, w) && w[0] == n && c in CapsOf(capGraph, w[|w| - 1])
    decreases Depth(n, rank)
  {
    var kids := Children(graph, n);
    KidsUnionFrom(n, kids, graph, capGraph, rank, c);
    var i :| 0 <= i < |kids| &&
      (c in CapsOf(capGraph, kids[i])
       || (kids[i] in graph && kids[i] != n && c in Subtree(kids[i], graph, capGraph, rank)));
    var k := kids[i];
    if c in CapsOf(capGraph, k) {
      var w := [n, k];
      assert IsWalk(graph, w) && w[0] == n && c in CapsOf(capGraph, w[|w| - 1]);
    } else {
      SubtreeSound(k, graph, capGraph, rank, c);
      var w' :| IsWalk(graph, w') && w'[0] == k && c in CapsOf(capGraph, w'[|w'| - 1]);
      WalkCons(graph, n, w');
      var w := [n] + w';
      assert w[|w| - 1] == w'[|w'| - 1];
      assert IsWalk(graph, w) && w[0] == n && c in CapsOf(capGraph, w[|w| - 1]);
    }
  }

  /** A walk extended at its start by an edge into it is a walk. */
  lemma WalkCons(graph: Graph, n: Nsid, w: seq<Nsid>)
    requires IsWalk(graph, w) && w[0] in Children(graph, n)
    ensures IsWalk(graph, [n] + w)
  {
    var v := [n] + w;
    forall j | 0 <= j < |v| - 1
      ensures v[j + 1] in Children(graph, v[j])
    {
      if j > 0 {
        assert v[j] == w[j - 1] && v[j + 1] == w[j];
      }
    }
  }

  /** `union_all_childs(n)` is exactly the capabilities of the namespaces
      reachable from `n`. */
  lemma SubtreeIsReachable(n: Nsid, graph: Graph, capGraph: CapGraph, rank: map<Nsid, nat>, c: Cap)
    requires Ranked(graph, rank)
    ensures c in Subtree(n, graph, capGraph, rank)
      <==> exists w :: IsWalk(graph, w) && w[0] == n && c in CapsOf(capGraph, w[|w| - 1])
  {
    if c in Subtree(n, graph, capGraph, rank) {
      SubtreeSound(n, graph, capGraph, rank, c);
    }
    if exists w :: IsWalk(graph, w) && w[0] == n && c in CapsOf(capGraph, w[|w| - 1]) {
      var w :| IsWalk(graph, w) && w[0] == n && c in CapsOf(capGraph, w[|w| - 1]);
      SubtreeComplete(w, graph, capGraph, rank);
    }
  }

  /** A namespace with no entry in the graph has nothing below it. */
  lemma NoChildrenNoCaps(n: Nsid, graph: Graph, capGraph: CapGraph, rank: map<Nsid, nat>)
    requires Ranked(graph, rank)
    requires n !in graph
    ensures Subtree(n, graph, capGraph, rank) == {}
  {
  }

  // ---------------------------------------------------------------------
  // program_capabilities

  /** The parent-to-own namespace edges that the entries `ids` record. */
  function EdgesIn(ids: set<Identity>): set<(Nsid, Nsid)> {
    set id | id in ids :: (id.parentNs, id.ns)
  }

  /** The capabilities the entries `ids` of `m` used inside namespace `ns`. */
  function NsCapsIn(m: EntrySet, ids: set<Identity>, ns: Nsid): CapSet {
    set id, c | id in ids && id in m && id.ns == ns && c in m[id] :: c
  }

  /** `w` follows recorded namespace edges, at least one of them. */
  predicate IsEdgeWalk(edges: set<(Nsid, Nsid)>, w: seq<Nsid>) {
    |w| >= 2 && forall i :: 0 <= i < |w| - 1 ==> (w[i], w[i + 1]) in edges
  }

  /** `rank` witnesses that the namespaces of the requests form no cycle
      other than a namespace recorded as its own parent. */
  ghost predicate RankedRequests(reqs: seq<Request>, rank: map<Nsid, nat>) {
    forall k :: 0 <= k < |reqs| ==>
      var nsPair := ExtractNs(reqs[k].pnsidNsid);
      nsPair.0 in rank && nsPair.1 in rank && (nsPair.0 != nsPair.1 ==> rank[nsPair.0] < rank[nsPair.1])
  }

  /** The graph and capability map the fold of `program_capabilities`
      has built once it has visited the entries `done` of `m`. */
  predicate FoldedOver(m: EntrySet, done: set<Identity>, graph: Graph, nsidCaps: CapGraph) {
    && (forall ns :: CapsOf(nsidCaps, ns) == NsCapsIn(m, done, ns))
    && (forall p: Nsid, c: Nsid :: c in Children(graph, p) <==> (p, c) in EdgesIn(done))
    && (forall p :: p in graph ==> graph[p] != [])
  }

  /** The graph and capability map built from all the entries. */
  predicate Folded(m: EntrySet, graph: Graph, nsidCaps: CapGraph) {
    FoldedOver(m, m.Keys, graph, nsidCaps)
  }

  /** The loop of `program_capabilities` over the entries: ORs each entry's
      capabilities into its namespace and appends the namespace to its
      parent's children. The entries are visited in an arbitrary order. */
  method FoldEntries(m: EntrySet) returns (graph: Graph, nsidCaps: CapGraph)
    ensures Folded(m, graph, nsidCaps)
  {
    graph := map[];
    nsidCaps := map[];
    var todo := m.Keys;
    ghost var done: set<Identity> := {};
    while todo != {}
      invariant todo !! done && todo + done == m.Keys
      invariant FoldedOver(m, done, graph, nsidCaps)
      decreases |todo|
    {
      var id :| id in todo;
      FoldStep(m, done, id, graph, nsidCaps);
      nsidCaps := nsidCaps[id.ns := CapsOf(nsidCaps, id.ns) + m[id]];
      graph := graph[id.parentNs := Children(graph, id.parentNs) + [id.ns]];
      todo := todo - {id};
      done := done + {id};
    }
  }

  /** One turn of the fold keeps the graph and the map in step with the
      entries visited. */
  lemma FoldStep(m: EntrySet, done: set<Identity>, id: Identity, graph: Graph, nsidCaps: CapGraph)
    requires id in m && id !in done
    requires FoldedOver(m, done, graph, nsidCaps)
    ensures FoldedOver(m, done + {id},
                       graph[id.parentNs := Children(graph, id.parentNs) + [id.ns]],
                       nsidCaps[id.ns := CapsOf(nsidCaps, id.ns) + m[id]])
  {
    var graph' := graph[id.parentNs := Children(graph, id.parentNs) + [id.ns]];
    var nsidCaps' := nsidCaps[id.ns := CapsOf(nsidCaps, id.ns) + m[id]];
    var done' := done + {id};
    forall ns
      ensures CapsOf(nsidCaps', ns) == NsCapsIn(m, done', ns)
    {
      NsCapsInAdd(m, done, id, ns);
    }
    assert EdgesIn(done') == EdgesIn(done) + {(id.parentNs, id.ns)};
    forall p: Nsid, c: Nsid
      ensures c in Children(graph', p) <==> (p, c) in EdgesIn(done')
    {
      if p == id.parentNs {
        assert Children(graph', p) == Children(graph, p) + [id.ns];
      }
    }
  }

  /** Every key of `m` is the identity of one of the requests. */
  predicate KeysFrom(m: EntrySet, reqs: seq<Request>) {
    forall id :: id in m ==> exists k :: 0 <= k < |reqs| && IdentityOf(reqs[k]) == id
  }

  /** `program_capabilities`: aggregates the requests, folds the entries into
      the namespace graph and the per-namespace capability sets, and
      collects everything below `nsinode`. The result is the capabilities
      used in the namespaces reachable from `nsinode` along recorded
      parent-to-child edges. */
  method ProgramCapabilities(nsinode: Nsid, reqs: seq<Request>, stacks: Stacks, ksyms: seq<KSym>, ghost rank: map<Nsid, nat>)
    returns (r: Result<CapSet, AggError>)
    requires RankedRequests(reqs, rank)
    ensures var agg := Aggregate(reqs, stacks, ksyms);
      agg.Failure? ==> r == Failure(agg.error)
    ensures var agg := Aggregate(reqs, stacks, ksyms);
      agg.Success? ==>
        && r.Success?
        && forall c :: c in r.value <==> ReachableCap(agg.value, nsinode, c)
  {
    var agg := AggregateCapSetEntries(reqs, stacks, ksyms);
    if agg.Failure? {
      return Failure(agg.error);
    }
    var graph, nsidCaps := FoldEntries(agg.value);
    forall id | id in agg.value
      ensures exists k :: 0 <= k < |reqs| && IdentityOf(reqs[k]) == id
    {
      AggregateKeys(reqs, stacks, ksyms, id);
    }
    GraphRanked(reqs, agg.value, graph, nsidCaps, rank);
    var caps := UnionAllChilds(nsinode, graph, nsidCaps, rank);
    forall c
      ensures c in caps <==> ReachableCap(agg.value, nsinode, c)
    {
      FoldedSubtree(agg.value, graph, nsidCaps, rank, nsinode, c);
    }
    return Success(caps);
  }

  /** Capability `c` is used in some namespace reachable from `n` along the
      edges the entries of `m` record. */
  ghost predicate ReachableCap(m: EntrySet, n: Nsid, c: Cap) {
    exists w :: IsEdgeWalk(EdgesIn(m.Keys), w) && w[0] == n && c in NsCapsIn(m, m.Keys, w[|w| - 1])
  }

  /** On the folded graph, `union_all_childs` collects exactly the
      capabilities of the reachable namespaces. */
  lemma FoldedSubtree(m: EntrySet, graph: Graph, nsidCaps: CapGraph, rank: map<Nsid, nat>, n: Nsid, c: Cap)
    requires Folded(m, graph, nsidCaps) && Ranked(graph, rank)
    ensures c in Subtree(n, graph, nsidCaps, rank) <==> ReachableCap(m, n, c)
  {
    SubtreeIsReachable(n, graph, nsidCaps, rank, c);
    forall w
      ensures IsWalk(graph, w) <==> IsEdgeWalk(EdgesIn(m.Keys), w)
    {
      WalksAgree(graph, EdgesIn(m.Keys), w);
    }
  }

  /** Adding one entry to the folded ones adds its capabilities to its own
      namespace and changes no other. */
  lemma NsCapsInAdd(m: EntrySet, done: set<Identity>, id: Identity, ns: Nsid)
    requires id in m && id !in done
    ensures NsCapsIn(m, done + {id}, ns) == NsCapsIn(m, done, ns) + (if ns == id.ns then m[id] else {})
  {
  }

  /** Every recorded edge goes down in the requests' ranking. */
  lemma EdgeRanked(reqs: seq<Request>, m: EntrySet, rank: map<Nsid, nat>, p: Nsid, c: Nsid)
    requires RankedRequests(reqs, rank) && KeysFrom(m, reqs)
    requires (p, c) in EdgesIn(m.Keys)
    ensures p in rank && c in rank && (c != p ==> rank[c] < rank[p])
  {
    var id :| id in m && (id.parentNs, id.ns) == (p, c);
    var k :| 0 <= k < |reqs| && IdentityOf(reqs[k]) == id;
  }

  /** The graph built from the entries is ranked by the requests' ranking. */
  lemma GraphRanked(reqs: seq<Request>, m: EntrySet, graph: Graph, nsidCaps: CapGraph, rank: map<Nsid, nat>)
    requires RankedRequests(reqs, rank) && KeysFrom(m, reqs)
    requires Folded(m, graph, nsidCaps)
    ensures Ranked(graph, rank)
  {
    forall p | p in graph
      ensures p in rank
    {
      assert graph[p][0] in Children(graph, p);
      EdgeRanked(reqs, m, rank, p, graph[p][0]);
    }
    forall p, c | p in graph && c in graph[p] && c in graph && c != p
      ensures p in rank && c in rank && rank[c] < rank[p]
    {
      assert c in Children(graph, p);
      EdgeRanked(reqs, m, rank, p, c);
    }
  }

  /** Walks of the graph are exactly walks of its edge set. */
  lemma WalksAgree(graph: Graph, edges: set<(Nsid, Nsid)>, w: seq<Nsid>)
    requires forall p: Nsid, c: Nsid :: c in Children(graph, p) <==> (p, c) in edges
    ensures IsWalk(graph, w) <==> IsEdgeWalk(edges, w)
  {
  }
}

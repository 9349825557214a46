/** The directed graph of DG.hh: nodes are numbered in creation order, edges
    are kept in insertion order without duplicates, and the sorting and
    cycle-finding operations work on a copy that they peel root by root. */
module Digraph {
  import opened Wrappers

  datatype Edge = Edge(src: nat, dst: nat)

  datatype GraphError =
    | NoSrcNode(id: nat)          // an edge operation named a missing source node
    | NoDstNode(id: nat)          // an edge operation named a missing destination node
    | NoSuchNode(id: nat)         // `delete_node` of a node that is not there
    | EdgeExists(src: nat, dst: nat)
    | Cycled(nodes: set<nat>)     // a sort found no root; what was left (`IsLargestCore`)

  predicate Distinct<T(==)>(s: seq<T>)
  {
    forall i, j :: 0 <= i < j < |s| ==> s[i] != s[j]
  }

  function Flip(e: Edge): Edge
  {
    Edge(e.dst, e.src)
  }

  function Flipped(es: seq<Edge>): seq<Edge>
  {
    seq(|es|, i requires 0 <= i < |es| => Flip(es[i]))
  }

  /** Inverting the edges twice gives them back. */
  lemma FlippedTwice(es: seq<Edge>)
    ensures Flipped(Flipped(es)) == es
  {
    assert forall i :: 0 <= i < |es| ==> Flipped(Flipped(es))[i] == es[i];
  }

  predicate Touches(e: Edge, id: nat)
  {
    e.src == id || e.dst == id
  }

  /** What `std::ranges::remove_if` leaves of the edge list once a node goes. */
  function WithoutNode(es: seq<Edge>, id: nat): seq<Edge>
  {
    if es == [] then []
    else WithoutNode(es[..|es| - 1], id) + (if Touches(es[|es| - 1], id) then [] else [es[|es| - 1]])
  }

  /** How many times an edge occurs in the edge list. */
  function Occurrences(es: seq<Edge>, e: Edge): nat
  {
    if es == [] then 0
    else Occurrences(es[..|es| - 1], e) + (if es[|es| - 1] == e then 1 else 0)
  }

  /** The nodes no edge points to: what `roots` returns (a node counts as a
      root whether or not it is the source of some edge). */
  ghost function RootsOf(nodes: set<nat>, edges: seq<Edge>): set<nat>
  {
    set n | n in nodes && forall e :: e in edges ==> e.dst != n
  }

  /** `order` lists every node once and no edge points from a later (or the
      same) position to an earlier one. */
  ghost predicate IsTopoOrder(nodes: set<nat>, edges: seq<Edge>, order: seq<nat>)
  {
    Distinct(order)
    && (forall x :: x in order <==> x in nodes)
    && forall i, j :: 0 <= i <= j < |order| ==> Edge(order[j], order[i]) !in edges
  }

  ghost predicate HasPred(edges: seq<Edge>, s: set<nat>, x: nat)
  {
    exists p :: p in s && Edge(p, x) in edges
  }

  ghost predicate HasSucc(edges: seq<Edge>, s: set<nat>, x: nat)
  {
    exists q :: q in s && Edge(x, q) in edges
  }

  // The triggers keep the solver from chasing predecessors of predecessors.
  ghost predicate AllHavePred(edges: seq<Edge>, s: set<nat>)
  {
    forall x {:trigger HasPred(edges, s, x)} :: x in s ==> HasPred(edges, s, x)
  }

  ghost predicate AllHaveSucc(edges: seq<Edge>, s: set<nat>)
  {
    forall x {:trigger HasSucc(edges, s, x)} :: x in s ==> HasSucc(edges, s, x)
  }

  /** A set in which every member has a predecessor and a successor inside the
      set: no amount of root peeling, forwards or backwards, removes any of it. */
  ghost predicate IsCore(edges: seq<Edge>, s: set<nat>)
  {
    AllHavePred(edges, s) && AllHaveSucc(edges, s)
  }

  /** The union of all cores: the nodes that lie on a cycle or on a path
      between two cycles. */
  ghost predicate IsLargestCore(nodes: set<nat>, edges: seq<Edge>, c: set<nat>)
  {
    c <= nodes
    && IsCore(edges, c)
    && forall s :: s <= nodes && IsCore(edges, s) ==> s <= c
  }

  lemma {:induction false} WithoutNodeMembers(es: seq<Edge>, id: nat)
    ensures forall e :: e in WithoutNode(es, id) <==> e in es && !Touches(e, id)
    decreases |es|
  {
    if es != [] {
      WithoutNodeMembers(es[..|es| - 1], id);
      assert es == es[..|es| - 1] + [es[|es| - 1]];
    }
  }

  lemma {:induction false} WithoutNodeDistinct(es: seq<Edge>, id: nat)
    requires Distinct(es)
    ensures Distinct(WithoutNode(es, id))
    decreases |es|
  {
    if es != [] {
      var init := es[..|es| - 1];
      assert Distinct(init) by {
        forall i, j | 0 <= i < j < |init| ensures init[i] != init[j] { assert init[i] == es[i] && init[j] == es[j]; }
      }
      WithoutNodeDistinct(init, id);
      WithoutNodeMembers(init, id);
      var last := es[|es| - 1];
      assert last !in init by {
        forall i | 0 <= i < |init| ensures init[i] != last { assert init[i] == es[i]; }
      }
    }
  }

  lemma {:induction false} OccurrencesOfDistinct(es: seq<Edge>, e: Edge)
    requires Distinct(es)
    ensures Occurrences(es, e) == if e in es then 1 else 0
    decreases |es|
  {
    if es != [] {
      var init := es[..|es| - 1];
      assert Distinct(init) by {
        forall i, j | 0 <= i < j < |init| ensures init[i] != init[j] { assert init[i] == es[i] && init[j] == es[j]; }
      }
      OccurrencesOfDistinct(init, e);
      var last := es[|es| - 1];
      assert last !in init by {
        forall i | 0 <= i < |init| ensures init[i] != last { assert init[i] == es[i]; }
      }
      assert es == init + [last];
    }
  }

  /** A set whose every member has a predecessor inside it admits no order:
      its first member in the order would need a predecessor placed before it. */
  lemma NoOrderWithoutRoot(nodes: set<nat>, edges: seq<Edge>, s: set<nat>, order: seq<nat>)
    requires s != {} && s <= nodes
    requires AllHavePred(edges, s)
    ensures !IsTopoOrder(nodes, edges, order)
  {
    if IsTopoOrder(nodes, edges, order) {
      var i := FirstIn(order, s);
      var x := order[i];
      ghost var hasPred := HasPred(edges, s, x);
      assert false;
    }
  }

  /** The position of the first element of `order` that lies in `s`. */
  ghost function FirstIn(order: seq<nat>, s: set<nat>): (i: nat)
    requires exists x :: x in s && x in order
    ensures i < |order| && order[i] in s
    ensures forall j :: 0 <= j < i ==> order[j] !in s
  {
    if order[0] in s then 0
    else
      var x :| x in s && x in order;
      assert x in order[1..];
      1 + FirstIn(order[1..], s)
  }

  /** A graph that can be ordered has no core: `get_cycled` of a sortable graph is empty. */
  lemma OrderedHasNoCore(nodes: set<nat>, edges: seq<Edge>, order: seq<nat>, s: set<nat>)
    requires IsTopoOrder(nodes, edges, order)
    requires s <= nodes && IsCore(edges, s)
    ensures s == {}
  {
    if s != {} {
      NoOrderWithoutRoot(nodes, edges, s, order);
    }
  }

  /** The nodes of a closed walk form a core, so `get_cycled` reports every
      node that lies on a cycle. */
  lemma CycleIsCore(edges: seq<Edge>, cycle: seq<nat>)
    requires |cycle| > 0
    requires forall i, j :: 0 <= i < |cycle| && j == i + 1 < |cycle| ==> Edge(cycle[i], cycle[j]) in edges
    requires Edge(cycle[|cycle| - 1], cycle[0]) in edges
    ensures IsCore(edges, set x | x in cycle)
  {
    var s := set x | x in cycle;
    forall x | x in s ensures HasPred(edges, s, x) && HasSucc(edges, s, x) {
      var i :| 0 <= i < |cycle| && cycle[i] == x;
      if i + 1 < |cycle| {
        assert cycle[i + 1] in s && Edge(x, cycle[i + 1]) in edges;
      } else {
        assert cycle[0] in s && Edge(x, cycle[0]) in edges;
      }
      if i > 0 {
        assert cycle[i - 1] in s && Edge(cycle[i - 1], x) in edges;
      } else {
        assert cycle[|cycle| - 1] in s && Edge(cycle[|cycle| - 1], x) in edges;
      }
    }
  }

  /** A core stays a core in any edge list that keeps the edges between its members. */
  lemma CoreKept(edges: seq<Edge>, kept: seq<Edge>, s: set<nat>)
    requires IsCore(edges, s)
    requires forall a, b :: a in s && b in s && Edge(a, b) in edges ==> Edge(a, b) in kept
    ensures IsCore(kept, s)
  {
    forall x | x in s ensures HasPred(kept, s, x) && HasSucc(kept, s, x) {
      assert HasPred(edges, s, x) && HasSucc(edges, s, x);
      var p :| p in s && Edge(p, x) in edges;
      assert Edge(p, x) in kept;
      var q :| q in s && Edge(x, q) in edges;
      assert Edge(x, q) in kept;
    }
  }

  /** `g` holds exactly the edges of `edges` between members of `n`. */
  ghost predicate Induced(edges: seq<Edge>, n: set<nat>, g: seq<Edge>)
  {
    forall e :: e in g <==> e in edges && e.src in n && e.dst in n
  }

  /** The same, with every edge turned around (after `invert_edges`). */
  ghost predicate InducedFlipped(edges: seq<Edge>, n: set<nat>, g: seq<Edge>)
  {
    forall e :: e in g <==> Flip(e) in edges && e.src in n && e.dst in n
  }

  lemma FlippedInduced(edges: seq<Edge>, n: set<nat>, g: seq<Edge>)
    requires Induced(edges, n, g)
    ensures InducedFlipped(edges, n, Flipped(g))
  {
    var f := Flipped(g);
    forall e ensures e in f <==> Flip(e) in edges && e.src in n && e.dst in n {
      if e in f {
        var k :| 0 <= k < |f| && f[k] == e;
        assert g[k] in g && Flip(e) == g[k];
      }
      if Flip(e) in edges && e.src in n && e.dst in n {
        assert Flip(e) in g;
        var k :| 0 <= k < |g| && g[k] == Flip(e);
        assert f[k] == e;
      }
    }
  }

  /** Removing the roots of what remains removes no node of a core. */
  lemma CoresSurvivePeel(edges: seq<Edge>, nodes: set<nat>, n: set<nat>, g: seq<Edge>)
    requires Induced(edges, n, g)
    requires forall s {:trigger IsCore(edges, s)} :: s <= nodes && IsCore(edges, s) ==> s <= n
    ensures forall s {:trigger IsCore(edges, s)} :: s <= nodes && IsCore(edges, s) ==> s <= n - RootsOf(n, g)
  {
    forall s | s <= nodes && IsCore(edges, s) ensures s <= n - RootsOf(n, g) {
      PeelForwardKeepsCore(edges, n, g, s);
      forall x | x in s ensures x !in RootsOf(n, g) {
        assert x !in s * RootsOf(n, g);
      }
    }
  }

  /** Removing the roots of an induced subgraph never removes a core member. */
  lemma PeelForwardKeepsCore(edges: seq<Edge>, n: set<nat>, g: seq<Edge>, s: set<nat>)
    requires Induced(edges, n, g)
    requires s <= n && IsCore(edges, s)
    ensures s * RootsOf(n, g) == {}
  {
    forall x | x in s ensures x !in RootsOf(n, g) {
      assert HasPred(edges, s, x);
      var p :| p in s && Edge(p, x) in edges;
      assert Edge(p, x) in g;
    }
  }

  /** The same for the roots of the inverted graph, the nodes without a successor. */
  lemma PeelBackwardKeepsCore(edges: seq<Edge>, n: set<nat>, g: seq<Edge>, s: set<nat>)
    requires InducedFlipped(edges, n, g)
    requires s <= n && IsCore(edges, s)
    ensures s * RootsOf(n, g) == {}
  {
    forall x | x in s ensures x !in RootsOf(n, g) {
      assert HasSucc(edges, s, x);
      var q :| q in s && Edge(x, q) in edges;
      assert Flip(Edge(q, x)) == Edge(x, q);
      assert Edge(q, x) in g;
    }
  }

  /** Once a graph has no roots, every node has a predecessor. */
  lemma NoRootsAllHavePred(edges: seq<Edge>, n: set<nat>, g: seq<Edge>)
    requires Induced(edges, n, g) && RootsOf(n, g) == {}
    ensures AllHavePred(edges, n)
  {
    forall x | x in n ensures HasPred(edges, n, x) {
      assert x !in RootsOf(n, g);
      var e :| e in g && e.dst == x;
      assert e.src in n && Edge(e.src, x) in edges;
    }
  }

  /** Once an inverted graph has no roots, every node has a successor. */
  lemma NoRootsAllHaveSucc(edges: seq<Edge>, n: set<nat>, g: seq<Edge>)
    requires InducedFlipped(edges, n, g) && RootsOf(n, g) == {}
    ensures AllHaveSucc(edges, n)
  {
    forall x | x in n ensures HasSucc(edges, n, x) {
      assert x !in RootsOf(n, g);
      var e :| e in g && e.dst == x;
      assert Flip(e) == Edge(x, e.src) && e.src in n;
    }
  }

  /** Peeling nodes without successors keeps every remaining node's predecessor:
      a node with a successor is not peeled. */
  lemma PeelBackwardKeepsPreds(edges: seq<Edge>, n: set<nat>, g: seq<Edge>)
    requires InducedFlipped(edges, n, g) && AllHavePred(edges, n)
    ensures AllHavePred(edges, n - RootsOf(n, g))
  {
    var rest := n - RootsOf(n, g);
    forall x | x in rest ensures HasPred(edges, rest, x) {
      assert HasPred(edges, n, x);
      var p :| p in n && Edge(p, x) in edges;
      assert Flip(Edge(x, p)) == Edge(p, x);
      assert Edge(x, p) in g;
      assert p in rest;
    }
  }

  ghost predicate NoBackEdge(edges: seq<Edge>, order: seq<nat>)
  {
    forall i, j :: 0 <= i <= j < |order| ==> Edge(order[j], order[i]) !in edges
  }

  /** No edge leads from a node of `n` into the part of the order already emitted. */
  ghost predicate NoEdgeInto(edges: seq<Edge>, n: set<nat>, order: seq<nat>)
  {
    forall i, x :: 0 <= i < |order| && x in n ==> Edge(x, order[i]) !in edges
  }

  /** One round of `topo_sorted`: emitting the roots of what remains keeps the
      emitted prefix free of backward edges. */
  lemma ExtendOrder(edges: seq<Edge>, n: set<nat>, g: seq<Edge>, order: seq<nat>, rs: seq<nat>)
    requires Induced(edges, n, g)
    requires forall x :: x in rs ==> x in RootsOf(n, g)
    requires NoBackEdge(edges, order) && NoEdgeInto(edges, n, order)
    ensures NoBackEdge(edges, order + rs)
    ensures NoEdgeInto(edges, n - (set x | x in rs), order + rs)
  {
    var o := order + rs;
    forall i, j | 0 <= i <= j < |o| ensures Edge(o[j], o[i]) !in edges {
      if j < |order| {
        assert o[i] == order[i] && o[j] == order[j];
      } else if i < |order| {
        assert o[j] in rs && o[i] == order[i];
      } else {
        assert o[i] in rs && o[j] in rs;
        assert o[i] in RootsOf(n, g);
      }
    }
    forall i, x | 0 <= i < |o| && x in n - (set x | x in rs) ensures Edge(x, o[i]) !in edges {
      if i < |order| {
        assert o[i] == order[i];
      } else {
        assert o[i] in rs;
        assert o[i] in RootsOf(n, g);
      }
    }
  }

  /** When the remaining graph has no root, the graph has no order and the
      largest core of the remainder is the largest core of the whole graph. */
  lemma StuckRemainder(nodes: set<nat>, edges: seq<Edge>, n: set<nat>, g: seq<Edge>, c: set<nat>)
    requires n != {} && n <= nodes && Induced(edges, n, g) && RootsOf(n, g) == {}
    requires forall s {:trigger IsCore(edges, s)} :: s <= nodes && IsCore(edges, s) ==> s <= n
    requires IsLargestCore(n, g, c)
    ensures forall o :: !IsTopoOrder(nodes, edges, o)
    ensures IsLargestCore(nodes, edges, c)
  {
    NoRootsAllHavePred(edges, n, g);
    forall o ensures !IsTopoOrder(nodes, edges, o) {
      NoOrderWithoutRoot(nodes, edges, n, o);
    }
    CoreKept(g, edges, c);
    forall s | s <= nodes && IsCore(edges, s) ensures s <= c {
      CoreKept(edges, g, s);
    }
  }

  /** The nodes of all groups. */
  function Union(groups: seq<set<nat>>): set<nat>
  {
    if groups == [] then {} else Union(groups[..|groups| - 1]) + groups[|groups| - 1]
  }

  lemma UnionSnoc(groups: seq<set<nat>>, g: set<nat>)
    ensures Union(groups + [g]) == Union(groups) + g
  {
    assert (groups + [g])[..|groups|] == groups;
  }

  /** `groups` is the longest-path layering of the graph: the groups split
      the nodes, no edge points back into the same or an earlier group, and
      every node of a later group has a predecessor in the group just before it. */
  ghost predicate IsLayering(nodes: set<nat>, edges: seq<Edge>, groups: seq<set<nat>>)
  {
    Union(groups) == nodes
    && (forall k :: 0 <= k < |groups| ==> groups[k] != {})
    && (forall i, j :: 0 <= i < j < |groups| ==> groups[i] * groups[j] == {})
    && (forall i, j, a, b :: 0 <= i <= j < |groups| && a in groups[j] && b in groups[i] ==> Edge(a, b) !in edges)
    && (forall i, j :: 0 <= i && j == i + 1 && j < |groups| ==> AllFedBy(edges, groups[i], groups[j]))
  }

  ghost predicate AllFedBy(edges: seq<Edge>, prev: set<nat>, group: set<nat>)
  {
    forall x :: x in group ==> HasPred(edges, prev, x)
  }

  /** In a layering the first group is exactly the set of roots: `topo_sorted_grouped`
      starts from the nodes no edge points to. */
  lemma LayeringStartsAtRoots(nodes: set<nat>, edges: seq<Edge>, groups: seq<set<nat>>)
    requires IsLayering(nodes, edges, groups) && groups != []
    requires forall e :: e in edges ==> e.src in nodes && e.dst in nodes
    ensures groups[0] == RootsOf(nodes, edges)
  {
    forall x | x in groups[0] ensures x in RootsOf(nodes, edges) {
      UnionMembers(groups);
      forall e | e in edges ensures e.dst != x {
        if e.dst == x {
          assert false;
        }
      }
    }
    forall x | x in RootsOf(nodes, edges) ensures x in groups[0] {
      UnionMembers(groups);
      var k :| 0 <= k < |groups| && x in groups[k];
      if k > 0 {
        FedByPrevious(nodes, edges, groups, k, x);
        assert false;
      }
    }
  }

  lemma FedByPrevious(nodes: set<nat>, edges: seq<Edge>, groups: seq<set<nat>>, k: nat, x: nat)
    requires IsLayering(nodes, edges, groups)
    requires 0 < k < |groups| && x in groups[k]
    ensures exists p :: p in groups[k - 1] && Edge(p, x) in edges
  {
    assert AllFedBy(edges, groups[k - 1], groups[k]);
    assert HasPred(edges, groups[k - 1], x);
  }

  lemma {:induction false} UnionMembers(groups: seq<set<nat>>)
    ensures forall x :: x in Union(groups) <==> exists k :: 0 <= k < |groups| && x in groups[k]
    decreases |groups|
  {
    if groups != [] {
      var init := groups[..|groups| - 1];
      UnionMembers(init);
      forall x | x in Union(groups) ensures exists k :: 0 <= k < |groups| && x in groups[k] {
        if x in Union(init) {
          var k :| 0 <= k < |init| && x in init[k];
          assert x in groups[k];
        } else {
          assert x in groups[|groups| - 1];
        }
      }
      forall x, k | 0 <= k < |groups| && x in groups[k] ensures x in Union(groups) {
        if k < |init| {
          assert x in init[k];
        }
      }
    }
  }

  /** What the rounds of `topo_sorted_grouped` have built while the nodes `rest`
      remain: disjoint groups, no edge back into an emitted group, and each
      group fed by the one before; the remaining nodes are fed by the last
      group or by each other. */
  ghost predicate LayeredSoFar(edges: seq<Edge>, rest: set<nat>, groups: seq<set<nat>>)
  {
    (forall k :: 0 <= k < |groups| ==> groups[k] != {} && groups[k] * rest == {})
    && (forall i, j :: 0 <= i < j < |groups| ==> groups[i] * groups[j] == {})
    && (forall i, j, a, b :: 0 <= i <= j < |groups| && a in groups[j] && b in groups[i] ==> Edge(a, b) !in edges)
    && (forall i, a, b :: 0 <= i < |groups| && a in rest && b in groups[i] ==> Edge(a, b) !in edges)
    && (forall i, j :: 0 <= i && j == i + 1 && j < |groups| ==> AllFedBy(edges, groups[i], groups[j]))
    && (groups != [] ==> AllFedBy(edges, groups[|groups| - 1] + rest, rest))
  }

  /** One round of `topo_sorted_grouped`: the roots of what remains form the
      next group of the layering. */
  lemma GroupStep(edges: seq<Edge>, n: set<nat>, g: seq<Edge>, groups: seq<set<nat>>)
    requires Induced(edges, n, g)
    requires RootsOf(n, g) != {}
    requires LayeredSoFar(edges, n, groups)
    ensures LayeredSoFar(edges, n - RootsOf(n, g), groups + [RootsOf(n, g)])
  {
    var roots := RootsOf(n, g);
    var gs, rest := groups + [roots], n - roots;
    var last := |groups|;
    forall k | 0 <= k < |gs| ensures gs[k] != {} && gs[k] * rest == {} {
      if k < last {
        assert gs[k] == groups[k];
      }
    }
    forall i, j | 0 <= i < j < |gs| ensures gs[i] * gs[j] == {} {
      if j == last {
        assert gs[i] == groups[i] && groups[i] * n == {};
      }
    }
    forall i, j, a, b | 0 <= i <= j < |gs| && a in gs[j] && b in gs[i] ensures Edge(a, b) !in edges {
      if j == last && i == last {
        assert b in RootsOf(n, g);
      } else if j == last {
        assert gs[i] == groups[i];
      } else {
        assert gs[i] == groups[i] && gs[j] == groups[j];
      }
    }
    forall i, a, b | 0 <= i < |gs| && a in rest && b in gs[i] ensures Edge(a, b) !in edges {
      if i == last {
        assert b in RootsOf(n, g);
      } else {
        assert gs[i] == groups[i];
      }
    }
    forall i, j | 0 <= i && j == i + 1 && j < |gs| ensures AllFedBy(edges, gs[i], gs[j]) {
      if j == last {
        forall x | x in roots ensures HasPred(edges, gs[i], x) {
          assert HasPred(edges, groups[last - 1] + n, x);
          var p :| p in groups[last - 1] + n && Edge(p, x) in edges;
          if p in n {
            assert false;
          }
        }
      } else {
        assert gs[i] == groups[i] && gs[j] == groups[j];
      }
    }
    forall x | x in rest ensures HasPred(edges, gs[|gs| - 1] + rest, x) {
      assert x !in RootsOf(n, g);
      var e :| e in g && e.dst == x;
      assert Edge(e.src, x) == e && e.src in roots + rest;
    }
  }

  lemma LayeredSoFarDone(nodes: set<nat>, edges: seq<Edge>, groups: seq<set<nat>>)
    requires LayeredSoFar(edges, {}, groups) && Union(groups) == nodes
    ensures IsLayering(nodes, edges, groups)
  {
  }

  /** The list of a set's elements in the unspecified order in which a range
      `for` visits an `std::unordered_set`. */
  method Enumerate(s: set<nat>) returns (xs: seq<nat>)
    ensures Distinct(xs)
    ensures forall x :: x in xs <==> x in s
  {
    xs := [];
    var rest := s;
    while rest != {}
      invariant Distinct(xs)
      invariant forall x :: x in xs <==> x in s && x !in rest
      invariant rest <= s
      decreases rest
    {
      var x :| x in rest;
      xs := xs + [x];
      rest := rest - {x};
    }
  }

  class DG {
    var nodes: set<nat>
    var edges: seq<Edge>
    var lastId: nat

    ghost predicate Valid()
      reads this
    {
      (forall e :: e in edges ==> e.src in nodes && e.dst in nodes)
      && Distinct(edges)
      && forall n :: n in nodes ==> n < lastId
    }

    constructor ()
      ensures Valid()
      ensures nodes == {} && edges == [] && lastId == 0
    {
      nodes := {};
      edges := [];
      lastId := 0;
    }

    /** The copy constructor the sorting operations start from. */
    method Copy() returns (g: DG)
      requires Valid()
      ensures fresh(g) && g.Valid()
      ensures g.nodes == nodes && g.edges == edges && g.lastId == lastId
    {
      g := new DG();
      g.nodes, g.edges, g.lastId := nodes, edges, lastId;
    }

    /** `add_node`: the new node takes the next number, so it is never an
        existing one; edges are untouched. */
    method AddNode() returns (id: nat)
      requires Valid()
      modifies this
      ensures Valid()
      ensures id == old(lastId) && id !in old(nodes)
      ensures nodes == old(nodes) + {id} && edges == old(edges) && lastId == old(lastId) + 1
    {
      id := lastId;
      assert id !in nodes;
      nodes := nodes + {id};
      lastId := lastId + 1;
    }

    predicate HasNode(id: nat)
      reads this
    {
      id in nodes
    }

    /** `delete_node`: removes the node and every edge that touches it,
        keeping the order of the other edges. */
    method DeleteNode(id: nat) returns (o: Outcome<GraphError>)
      requires Valid()
      modifies this
      ensures Valid() && lastId == old(lastId)
      ensures old(id in nodes) ==> o.Pass? && nodes == old(nodes) - {id} && edges == WithoutNode(old(edges), id)
      ensures old(id !in nodes) ==> o == Fail(NoSuchNode(id)) && nodes == old(nodes) && edges == old(edges)
    {
      if !HasNode(id) {
        return Fail(NoSuchNode(id));
      }
      nodes := nodes - {id};
      var kept: seq<Edge> := [];
      var i := 0;
      while i < |edges|
        invariant 0 <= i <= |edges|
        invariant kept == WithoutNode(edges[..i], id)
      {
        assert edges[..i + 1][..i] == edges[..i];
        if !Touches(edges[i], id) {
          kept := kept + [edges[i]];
        }
        i := i + 1;
      }
      assert edges[..i] == edges;
      WithoutNodeMembers(edges, id);
      WithoutNodeDistinct(edges, id);
      edges := kept;
      o := Pass;
    }

    /** Both ends of an edge operation must exist; the source is checked first. */
    function EndpointsError(src: nat, dst: nat): Option<GraphError>
      reads this
    {
      if src !in nodes then Some(NoSrcNode(src))
      else if dst !in nodes then Some(NoDstNode(dst))
      else None
    }

    /** `add_edge`: appends a new edge between existing nodes. */
    method AddEdge(src: nat, dst: nat) returns (o: Outcome<GraphError>)
      requires Valid()
      modifies this
      ensures Valid() && nodes == old(nodes) && lastId == old(lastId)
      ensures o.Pass? <==> old(src in nodes && dst in nodes && Edge(src, dst) !in edges)
      ensures o.Pass? ==> edges == old(edges) + [Edge(src, dst)]
      ensures o.Fail? ==> edges == old(edges)
      ensures o.Fail? ==> o.error == old(
        if src !in nodes then NoSrcNode(src)
        else if dst !in nodes then NoDstNode(dst)
        else EdgeExists(src, dst))
    {
      var has := HasEdge(src, dst);
      if has.Err? {
        return Fail(has.error);
      }
      if has.value {
        return Fail(EdgeExists(src, dst));
      }
      edges := edges + [Edge(src, dst)];
      o := Pass;
    }

    /** `n_edges`: how many times the edge occurs. */
    method NEdges(src: nat, dst: nat) returns (r: Result<nat, GraphError>)
      requires Valid()
      ensures EndpointsError(src, dst).Some? ==> r == Err(EndpointsError(src, dst).value)
      ensures EndpointsError(src, dst).None? ==> r == Ok(Occurrences(edges, Edge(src, dst)))
    {
      var err := EndpointsError(src, dst);
      if err.Some? {
        return Err(err.value);
      }
      var n := 0;
      var i := 0;
      while i < |edges|
        invariant 0 <= i <= |edges|
        invariant n == Occurrences(edges[..i], Edge(src, dst))
      {
        assert edges[..i + 1][..i] == edges[..i];
        if edges[i].src == src && edges[i].dst == dst {
          n := n + 1;
        }
        i := i + 1;
      }
      assert edges[..i] == edges;
      r := Ok(n);
    }

    /** `has_edge`: the duplicate-edge error cannot happen, since `add_edge`
        never adds an edge twice. */
    method HasEdge(src: nat, dst: nat) returns (r: Result<bool, GraphError>)
      requires Valid()
      ensures src !in nodes ==> r == Err(NoSrcNode(src))
      ensures src in nodes && dst !in nodes ==> r == Err(NoDstNode(dst))
      ensures src in nodes && dst in nodes ==> r == Ok(Edge(src, dst) in edges)
    {
      var n := NEdges(src, dst);
      if n.Err? {
        return Err(n.error);
      }
      OccurrencesOfDistinct(edges, Edge(src, dst));
      assert n.value <= 1;
      r := Ok(n.value != 0);
    }

    /** `invert_edges`: swaps the ends of every edge in place. */
    method InvertEdges()
      requires Valid()
      modifies this
      ensures Valid() && nodes == old(nodes) && lastId == old(lastId)
      ensures edges == Flipped(old(edges))
    {
      var i := 0;
      ghost var was := edges;
      while i < |edges|
        invariant nodes == old(nodes) && lastId == old(lastId)
        invariant 0 <= i <= |edges| == |was|
        invariant forall k :: 0 <= k < i ==> edges[k] == Flip(was[k])
        invariant forall k :: i <= k < |edges| ==> edges[k] == was[k]
      {
        edges := edges[i := Flip(edges[i])];
        i := i + 1;
      }
      forall e | e in edges ensures e.src in nodes && e.dst in nodes {
        var k :| 0 <= k < |edges| && edges[k] == e;
        assert was[k] in was;
      }
      forall i, j | 0 <= i < j < |edges| ensures edges[i] != edges[j] {
        assert was[i] != was[j];
      }
    }

    /** `roots`: marks every edge's destination, then keeps the unmarked nodes. */
    method Roots() returns (r: set<nat>)
      requires Valid()
      ensures r == RootsOf(nodes, edges)
    {
      var isDst: set<nat> := {};
      var i := 0;
      while i < |edges|
        invariant 0 <= i <= |edges|
        invariant forall n :: n in isDst <==> exists k :: 0 <= k < i && edges[k].dst == n
      {
        isDst := isDst + {edges[i].dst};
        i := i + 1;
      }
      r := set n | n in nodes && n !in isDst;
      forall n | n in nodes ensures n in isDst <==> exists e :: e in edges && e.dst == n {
        if n in isDst {
          var k :| 0 <= k < i && edges[k].dst == n;
          assert edges[k] in edges;
        }
      }
    }

    /** The loop body shared by the sorts and `get_cycled`: delete every root. */
    static method DeleteEach(g: DG, rs: set<nat>)
      requires g.Valid() && rs <= g.nodes
      modifies g
      ensures g.Valid() && g.lastId == old(g.lastId)
      ensures g.nodes == old(g.nodes) - rs
      ensures forall e :: e in g.edges <==> e in old(g.edges) && e.src !in rs && e.dst !in rs
    {
      var rest := rs;
      while rest != {}
        invariant g.Valid() && g.lastId == old(g.lastId)
        invariant rest <= rs && rest <= g.nodes
        invariant g.nodes == old(g.nodes) - (rs - rest)
        invariant forall e :: e in g.edges <==> e in old(g.edges) && e.src !in rs - rest && e.dst !in rs - rest
        decreases rest
      {
        var x :| x in rest;
        ghost var before := g.edges;
        var o := g.DeleteNode(x);
        WithoutNodeMembers(before, x);
        rest := rest - {x};
      }
    }

    /** `get_cycled`: peels roots until none is left, inverts the edges and
        peels again; what remains is the union of every core. */
    method GetCycled() returns (c: set<nat>)
      requires Valid()
      ensures IsLargestCore(nodes, edges, c)
    {
      var tmp := Copy();
      while true
        invariant fresh(tmp) && tmp.Valid()
        invariant tmp.nodes <= nodes && Induced(edges, tmp.nodes, tmp.edges)
        invariant forall s {:trigger IsCore(edges, s)} :: s <= nodes && IsCore(edges, s) ==> s <= tmp.nodes
        decreases tmp.nodes
      {
        var roots := tmp.Roots();
        if roots == {} {
          break;
        }
        ghost var before, edgesBefore := tmp.nodes, tmp.edges;
        DeleteEach(tmp, roots);
        assert tmp.nodes == before - roots;
        forall s | s <= nodes && IsCore(edges, s) ensures s <= tmp.nodes {
          assert s <= before;
          PeelForwardKeepsCore(edges, before, edgesBefore, s);
          assert s * roots == {};
          forall x | x in s ensures x in tmp.nodes {
            assert x !in s * roots;
          }
        }
      }
      NoRootsAllHavePred(edges, tmp.nodes, tmp.edges);
      ghost var peeled := tmp.nodes;
      ghost var forward := tmp.edges;
      tmp.InvertEdges();
      FlippedInduced(edges, peeled, forward);
      while true
        invariant fresh(tmp) && tmp.Valid()
        invariant tmp.nodes <= nodes && InducedFlipped(edges, tmp.nodes, tmp.edges)
        invariant AllHavePred(edges, tmp.nodes)
        invariant forall s {:trigger IsCore(edges, s)} :: s <= nodes && IsCore(edges, s) ==> s <= tmp.nodes
        decreases tmp.nodes
      {
        var roots := tmp.Roots();
        if roots == {} {
          break;
        }
        ghost var before, edgesBefore := tmp.nodes, tmp.edges;
        PeelBackwardKeepsPreds(edges, tmp.nodes, tmp.edges);
        DeleteEach(tmp, roots);
        assert tmp.nodes == before - roots;
        forall s | s <= nodes && IsCore(edges, s) ensures s <= tmp.nodes {
          assert s <= before;
          PeelBackwardKeepsCore(edges, before, edgesBefore, s);
          assert s * roots == {};
          forall x | x in s ensures x in tmp.nodes {
            assert x !in s * roots;
          }
        }
      }
      NoRootsAllHaveSucc(edges, tmp.nodes, tmp.edges);
      c := tmp.nodes;
    }

    /** `topo_sorted`: repeatedly emits the roots of what remains, in the
        unspecified order of the root set; with no root left it reports
        the largest core (`IsLargestCore`): the nodes on cycles and on
        paths between cycles. */
    method TopoSorted() returns (r: Result<seq<nat>, GraphError>)
      requires Valid()
      ensures r.Ok? ==> IsTopoOrder(nodes, edges, r.value)
      ensures r.Err? ==> r.error.Cycled? && IsLargestCore(nodes, edges, r.error.nodes)
      ensures r.Err? ==> forall o :: !IsTopoOrder(nodes, edges, o)
    {
      var src := Copy();
      var order: seq<nat> := [];
      while src.nodes != {}
        invariant fresh(src) && src.Valid()
        invariant src.nodes <= nodes && Induced(edges, src.nodes, src.edges)
        invariant Distinct(order)
        invariant forall x :: x in order <==> x in nodes && x !in src.nodes
        invariant NoBackEdge(edges, order) && NoEdgeInto(edges, src.nodes, order)
        invariant forall s {:trigger IsCore(edges, s)} :: s <= nodes && IsCore(edges, s) ==> s <= src.nodes
        decreases src.nodes
      {
        var roots := src.Roots();
        if roots == {} {
          var c := src.GetCycled();
          StuckRemainder(nodes, edges, src.nodes, src.edges, c);
          return Err(Cycled(c));
        }
        var rs := Enumerate(roots);
        ghost var before, edgesBefore := src.nodes, src.edges;
        ExtendOrder(edges, before, edgesBefore, order, rs);
        assert (set x | x in rs) == roots;
        DeleteEach(src, roots);
        CoresSurvivePeel(edges, nodes, before, edgesBefore);
        forall i, j | 0 <= i < j < |order + rs| ensures (order + rs)[i] != (order + rs)[j] {
          if j >= |order| && i < |order| {
            assert (order + rs)[i] in order;
          }
        }
        order := order + rs;
      }
      r := Ok(order);
    }

    /** `topo_sorted_grouped`: the same rounds, each round's roots kept as one group. */
    method TopoSortedGrouped() returns (r: Result<seq<set<nat>>, GraphError>)
      requires Valid()
      ensures r.Ok? ==> IsLayering(nodes, edges, r.value)
      ensures r.Err? ==> r.error.Cycled? && IsLargestCore(nodes, edges, r.error.nodes)
      ensures r.Err? ==> forall o :: !IsTopoOrder(nodes, edges, o)
    {
      var src := Copy();
      var groups: seq<set<nat>> := [];
      while src.nodes != {}
        invariant fresh(src) && src.Valid()
        invariant src.nodes <= nodes && Induced(edges, src.nodes, src.edges)
        invariant Union(groups) == nodes - src.nodes
        invariant LayeredSoFar(edges, src.nodes, groups)
        invariant forall s {:trigger IsCore(edges, s)} :: s <= nodes && IsCore(edges, s) ==> s <= src.nodes
        decreases src.nodes
      {
        var roots := src.Roots();
        if roots == {} {
          var c := src.GetCycled();
          StuckRemainder(nodes, edges, src.nodes, src.edges, c);
          return Err(Cycled(c));
        }
        groups := PeelGroup(src, nodes, edges, groups, roots);
      }
      LayeredSoFarDone(nodes, edges, groups);
      r := Ok(groups);
    }

    /** One round of `topo_sorted_grouped` past its cycle check: the roots
        become the next group and leave the working copy. */
    static method PeelGroup(src: DG, ghost nodes: set<nat>, ghost edges: seq<Edge>, groups: seq<set<nat>>, roots: set<nat>)
      returns (next: seq<set<nat>>)
      requires src.Valid() && src.nodes <= nodes && Induced(edges, src.nodes, src.edges)
      requires Union(groups) == nodes - src.nodes && LayeredSoFar(edges, src.nodes, groups)
      requires forall s {:trigger IsCore(edges, s)} :: s <= nodes && IsCore(edges, s) ==> s <= src.nodes
      requires roots == RootsOf(src.nodes, src.edges) && roots != {}
      modifies src
      ensures src.Valid() && src.nodes < old(src.nodes) && Induced(edges, src.nodes, src.edges)
      ensures Union(next) == nodes - src.nodes && LayeredSoFar(edges, src.nodes, next)
      ensures forall s {:trigger IsCore(edges, s)} :: s <= nodes && IsCore(edges, s) ==> s <= src.nodes
    {
      ghost var before, edgesBefore := src.nodes, src.edges;
      GroupStep(edges, before, edgesBefore, groups);
      DeleteEach(src, roots);
      CoresSurvivePeel(edges, nodes, before, edgesBefore);
      UnionSnoc(groups, roots);
      next := groups + [roots];
    }
  }
}

/** The graph of named nodes (StringDG.hh): a DG plus the name of every node
    and, for every name, the nodes carrying it (a name may label several nodes). */
module NamedGraph {
  import opened Wrappers
  import opened Text
  import opened Digraph
  import opened Lines

  datatype NameError = NoNodeNamed(name: string)

  /** The names of a list of nodes. */
  function NamesOf(names: map<nat, string>, ids: seq<nat>): (r: seq<string>)
    requires forall x :: x in ids ==> x in names
    ensures |r| == |ids|
    ensures forall i :: 0 <= i < |ids| ==> r[i] == names[ids[i]]
  {
    seq(|ids|, i requires 0 <= i < |ids| => names[ids[i]])
  }

  /** How `dump` writes a node: its name and number in quotes. */
  function Label(names: map<nat, string>, id: nat): string
    requires id in names
  {
    "\"" + names[id] + "(" + Decimal(id) + ")\""
  }

  function EdgeLine(names: map<nat, string>, e: Edge): string
    requires e.src in names && e.dst in names
  {
    Label(names, e.src) + " -> " + Label(names, e.dst)
  }

  function NodeLines(names: map<nat, string>, ids: seq<nat>): (r: seq<string>)
    requires forall x :: x in ids ==> x in names
    ensures |r| == |ids|
  {
    if ids == [] then [] else NodeLines(names, ids[..|ids| - 1]) + [Label(names, ids[|ids| - 1])]
  }

  function EdgeLines(names: map<nat, string>, edges: seq<Edge>): (r: seq<string>)
    requires forall e :: e in edges ==> e.src in names && e.dst in names
    ensures |r| == |edges|
  {
    if edges == [] then [] else EdgeLines(names, edges[..|edges| - 1]) + [EdgeLine(names, edges[|edges| - 1])]
  }

  /** The Graphviz text `dump` produces when it visits the nodes in the order `ids`. */
  function DumpLines(names: map<nat, string>, ids: seq<nat>, edges: seq<Edge>): seq<string>
    requires forall x :: x in ids ==> x in names
    requires forall e :: e in edges ==> e.src in names && e.dst in names
  {
    ["digraph {"] + NodeLines(names, ids) + EdgeLines(names, edges) + ["}"]
  }

  /** Node i depends on node i - 1 for every i below n. */
  ghost predicate Chained(edges: seq<Edge>, n: nat)
  {
    forall i, j :: 0 <= i && j == i + 1 && j < n ==> Edge(j, i) in edges
  }

  /** The edges `topo_sorted_dg` has made once the first n sorted names are
      added: turn k links every node so far named like node k to every node
      so far named like node k - 1. */
  ghost predicate ChainEdge(ns: seq<string>, n: nat, e: Edge)
    requires n <= |ns|
  {
    exists k :: 0 < k < n && e.src <= k && e.dst <= k && ns[e.src] == ns[k] && ns[e.dst] == ns[k - 1]
  }

  /** One more turn adds exactly its own links. */
  lemma ChainEdgeStep(ns: seq<string>, k: nat, e: Edge)
    requires k < |ns|
    ensures ChainEdge(ns, k + 1, e) <==>
      ChainEdge(ns, k, e) || (k > 0 && e.src <= k && e.dst <= k && ns[e.src] == ns[k] && ns[e.dst] == ns[k - 1])
  {
  }

  /** The edges after turn k, given the links that turn made between named
      nodes 0 to k. */
  lemma ChainTurn(ns: seq<string>, k: nat, before: seq<Edge>, after: seq<Edge>,
                  names: map<nat, string>, nodes: set<nat>)
    requires k < |ns|
    requires forall x: nat :: x in nodes <==> x < k + 1
    requires forall i :: 0 <= i < k + 1 ==> i in names && names[i] == ns[i]
    requires forall e :: e in before <==> ChainEdge(ns, k, e)
    requires k == 0 ==> after == before
    requires k > 0 ==> forall e :: e in after <==> (e in before ||
      (e.src in nodes && e.dst in nodes && names[e.src] == ns[k] && names[e.dst] == ns[k - 1]))
    ensures forall e :: e in after <==> ChainEdge(ns, k + 1, e)
  {
    forall e ensures e in after <==> ChainEdge(ns, k + 1, e) {
      ChainEdgeStep(ns, k, e);
    }
  }

  /** Those edges include the chain: each node depends on the one before. */
  lemma ChainEdgesChained(ns: seq<string>, n: nat, edges: seq<Edge>)
    requires n <= |ns| && forall e :: e in edges <==> ChainEdge(ns, n, e)
    ensures Chained(edges, n)
  {
    forall i, j | 0 <= i && j == i + 1 && j < n ensures Edge(j, i) in edges {
      assert 0 < j < n && ns[j] == ns[j] && ns[i] == ns[j - 1];
      assert ChainEdge(ns, n, Edge(j, i));
    }
  }

  /** With distinct names the edges are exactly the chain: node k depends on
      node k - 1 and on nothing else. */
  lemma DistinctNamesChain(ns: seq<string>, e: Edge)
    requires Distinct(ns)
    ensures ChainEdge(ns, |ns|, e) <==> 0 < e.src < |ns| && e.dst == e.src - 1
  {
    if ChainEdge(ns, |ns|, e) {
      var k :| 0 < k < |ns| && e.src <= k && e.dst <= k && ns[e.src] == ns[k] && ns[e.dst] == ns[k - 1];
      assert e.src == k;
      assert e.dst == k - 1;
    }
    if 0 < e.src < |ns| && e.dst == e.src - 1 {
      assert ns[e.src] == ns[e.src] && ns[e.dst] == ns[e.src - 1];
    }
  }

  /** The row of edges `add_dependency` appends for one provider: for each
      dependent in turn, its edge to the provider unless already there. */
  function LinkRow(edges: seq<Edge>, deps: seq<nat>, p: nat): seq<Edge>
  {
    if deps == [] then edges
    else
      var before := LinkRow(edges, deps[..|deps| - 1], p);
      var e := Edge(deps[|deps| - 1], p);
      if e in before then before else before + [e]
  }

  /** The rows of all providers, in provider order. */
  function LinkAll(edges: seq<Edge>, deps: seq<nat>, providers: seq<nat>): seq<Edge>
  {
    if providers == [] then edges
    else LinkRow(LinkAll(edges, deps, providers[..|providers| - 1]), deps, providers[|providers| - 1])
  }

  lemma {:induction false} LinkRowMembers(edges: seq<Edge>, deps: seq<nat>, p: nat)
    ensures edges <= LinkRow(edges, deps, p)
    ensures forall e :: e in LinkRow(edges, deps, p) <==> e in edges || (e.src in deps && e.dst == p)
    ensures Distinct(edges) ==> Distinct(LinkRow(edges, deps, p))
  {
    if deps != [] {
      var init := deps[..|deps| - 1];
      LinkRowMembers(edges, init, p);
      assert deps == init + [deps[|deps| - 1]];
      var before := LinkRow(edges, init, p);
      assert before <= before + [Edge(deps[|deps| - 1], p)];
    }
  }

  /** Linking keeps the old edges in front, adds exactly the edges from every
      dependent to every provider, never duplicates an edge, and changes
      nothing when all of them are already there. */
  lemma {:induction false} LinkAllMembers(edges: seq<Edge>, deps: seq<nat>, providers: seq<nat>)
    ensures edges <= LinkAll(edges, deps, providers)
    ensures forall e :: e in LinkAll(edges, deps, providers) <==>
      e in edges || (e.src in deps && e.dst in providers)
    ensures Distinct(edges) ==> Distinct(LinkAll(edges, deps, providers))
    ensures (forall d, p :: d in deps && p in providers ==> Edge(d, p) in edges) ==>
      LinkAll(edges, deps, providers) == edges
  {
    if providers != [] {
      var init := providers[..|providers| - 1];
      var last := providers[|providers| - 1];
      LinkAllMembers(edges, deps, init);
      var before := LinkAll(edges, deps, init);
      LinkRowMembers(before, deps, last);
      assert providers == init + [last];
      if forall d, p :: d in deps && p in providers ==> Edge(d, p) in edges {
        RowPresent(before, deps, last);
      }
    }
  }

  /** A row whose edges are all there adds nothing. */
  lemma {:induction false} RowPresent(edges: seq<Edge>, deps: seq<nat>, p: nat)
    requires forall d :: d in deps ==> Edge(d, p) in edges
    ensures LinkRow(edges, deps, p) == edges
  {
    if deps != [] {
      var init := deps[..|deps| - 1];
      assert forall d :: d in init ==> d in deps;
      RowPresent(edges, init, p);
    }
  }

  /** `o` is the graph `topo_sorted_dg` builds from the names `ns`: node k
      is named `ns[k]` and the edges are those of `ChainEdge`. */
  ghost predicate ChainGraph(o: StringDG, ns: seq<string>)
    reads o, o.g
  {
    (forall x: nat :: x in o.g.nodes <==> x < |ns|)
    && (forall k :: 0 <= k < |ns| ==> k in o.names && o.names[k] == ns[k])
    && (forall e :: e in o.g.edges <==> ChainEdge(ns, |ns|, e))
  }

  class StringDG {
    var g: DG
    var names: map<nat, string>
    var lut: map<string, seq<nat>>

    ghost predicate Valid()
      reads this, g
    {
      g.Valid()
      && names.Keys == g.nodes
      && (forall name :: name in lut ==> Distinct(lut[name]))
      && (forall name, id :: name in lut && id in lut[name] ==> id in g.nodes && names[id] == name)
      && (forall id :: id in g.nodes ==> names[id] in lut && id in lut[names[id]])
    }

    constructor ()
      ensures Valid() && fresh(g)
      ensures g.nodes == {} && g.edges == [] && g.lastId == 0 && names == map[] && lut == map[]
    {
      g := new DG();
      names := map[];
      lut := map[];
    }

    /** `add_node`: a new node under the given name, even if the name is taken. */
    method AddNode(name: string) returns (id: nat)
      requires Valid()
      modifies this, g
      ensures Valid() && g == old(g)
      ensures id == old(g.lastId) && id !in old(g.nodes) && g.lastId == id + 1
      ensures g.nodes == old(g.nodes) + {id} && g.edges == old(g.edges)
      ensures names == old(names)[id := name]
      ensures lut == old(lut)[name := (if name in old(lut) then old(lut)[name] else []) + [id]]
    {
      id := g.AddNode();
      names := names[id := name];
      lut := lut[name := (if name in lut then lut[name] else []) + [id]];
    }

    /** `add_dependency`: an edge from every node named `dependent` to every
        node named `provider`, skipping edges that already exist. */
    method AddDependency(provider: string, dependent: string) returns (o: Outcome<NameError>)
      requires Valid()
      modifies g
      ensures Valid() && g.nodes == old(g.nodes) && g.lastId == old(g.lastId)
      ensures provider !in lut ==> o == Fail(NoNodeNamed(provider)) && g.edges == old(g.edges)
      ensures provider in lut && dependent !in lut ==> o == Fail(NoNodeNamed(dependent)) && g.edges == old(g.edges)
      ensures provider in lut && dependent in lut ==> o.Pass?
      ensures o.Pass? ==> g.edges == LinkAll(old(g.edges), lut[dependent], lut[provider])
      ensures o.Pass? ==> old(g.edges) <= g.edges
      ensures o.Pass? ==> forall e :: e in g.edges <==>
        e in old(g.edges) || (e.src in lut[dependent] && e.dst in lut[provider])
      ensures o.Pass? && (forall d, p :: d in lut[dependent] && p in lut[provider] ==> Edge(d, p) in old(g.edges))
        ==> g.edges == old(g.edges)
    {
      if provider !in lut {
        return Fail(NoNodeNamed(provider));
      }
      if dependent !in lut {
        return Fail(NoNodeNamed(dependent));
      }
      var providers, deps := lut[provider], lut[dependent];
      var i := 0;
      while i < |providers|
        invariant 0 <= i <= |providers|
        invariant g.Valid() && g.nodes == old(g.nodes) && g.lastId == old(g.lastId)
        invariant g.edges == LinkAll(old(g.edges), deps, providers[..i])
      {
        assert providers[..i + 1][..i] == providers[..i];
        LinkEach(g, deps, providers[i]);
        i := i + 1;
      }
      assert providers[..i] == providers;
      LinkAllMembers(old(g.edges), deps, providers);
      o := Pass;
    }

    /** The inner loop of `add_dependency`: an edge from each of `deps` to `p`
        unless it is already there. */
    static method LinkEach(g: DG, deps: seq<nat>, p: nat)
      requires g.Valid() && p in g.nodes && forall d :: d in deps ==> d in g.nodes
      modifies g
      ensures g.Valid() && g.nodes == old(g.nodes) && g.lastId == old(g.lastId)
      ensures g.edges == LinkRow(old(g.edges), deps, p)
    {
      var j := 0;
      while j < |deps|
        invariant 0 <= j <= |deps|
        invariant g.Valid() && g.nodes == old(g.nodes) && g.lastId == old(g.lastId)
        invariant g.edges == LinkRow(old(g.edges), deps[..j], p)
      {
        assert deps[..j + 1][..j] == deps[..j];
        var has := g.HasEdge(deps[j], p);
        if has.Err? {
          assert false;
        }
        if !has.value {
          var added := g.AddEdge(deps[j], p);
        }
        j := j + 1;
      }
      assert deps[..j] == deps;
    }

    /** `topo_sorted`: the names of the nodes in a topological order of the graph. */
    method TopoSorted() returns (r: Result<seq<string>, GraphError>)
      requires Valid()
      ensures r.Ok? ==> exists order :: IsTopoOrder(g.nodes, g.edges, order) && r.value == NamesOf(names, order)
      ensures r.Err? ==> r.error.Cycled? && IsLargestCore(g.nodes, g.edges, r.error.nodes)
      ensures r.Err? ==> forall order :: !IsTopoOrder(g.nodes, g.edges, order)
    {
      var sorted := g.TopoSorted();
      if sorted.Err? {
        return Err(sorted.error);
      }
      var ids := sorted.value;
      var o: seq<string> := [];
      var i := 0;
      while i < |ids|
        invariant 0 <= i <= |ids|
        invariant o == NamesOf(names, ids[..i])
      {
        o := o + [names[ids[i]]];
        i := i + 1;
      }
      assert ids[..i] == ids;
      r := Ok(o);
    }

    /** `topo_sorted_dg`: a fresh graph with one node per sorted name, in
        order, each made to depend on the name sorted just before it; every
        node carrying that name is linked, so repeated names link every
        same-named pair (`ChainEdge`), and distinct names give exactly the
        chain (`DistinctNamesChain`). */
    method TopoSortedDg() returns (r: Result<StringDG, GraphError>)
      requires Valid()
      ensures r.Ok? ==> fresh(r.value) && fresh(r.value.g) && r.value.Valid()
      ensures r.Ok? ==> exists order :: (IsTopoOrder(g.nodes, g.edges, order)
                                         && ChainGraph(r.value, NamesOf(names, order))
                                         && Chained(r.value.g.edges, |order|))
      ensures r.Err? ==> r.error.Cycled? && forall order :: !IsTopoOrder(g.nodes, g.edges, order)
    {
      var sorted := g.TopoSorted();
      if sorted.Err? {
        return Err(sorted.error);
      }
      var arr := sorted.value;
      var o := BuildChain(NamesOf(names, arr));
      r := Ok(o);
    }

    /** The loop of `topo_sorted_dg`: one node per name, in order, each made
        to depend on the previous name. */
    static method BuildChain(ns: seq<string>) returns (o: StringDG)
      ensures fresh(o) && fresh(o.g) && o.Valid()
      ensures forall x: nat :: x in o.g.nodes <==> x < |ns|
      ensures forall k :: 0 <= k < |ns| ==> o.names[k] == ns[k]
      ensures forall e :: e in o.g.edges <==> ChainEdge(ns, |ns|, e)
      ensures ChainGraph(o, ns) && Chained(o.g.edges, |ns|)
    {
      o := new StringDG();
      var prev: Option<string> := None;
      var k := 0;
      while k < |ns|
        invariant 0 <= k <= |ns|
        invariant fresh(o) && fresh(o.g) && o.Valid()
        invariant o.g.lastId == k && forall x: nat :: x in o.g.nodes <==> x < k
        invariant forall i :: 0 <= i < k ==> o.names[i] == ns[i]
        invariant forall e :: e in o.g.edges <==> ChainEdge(ns, k, e)
        invariant prev == if k == 0 then None else Some(ns[k - 1])
      {
        ChainStep(o, ns, k, prev);
        prev := Some(ns[k]);
        k := k + 1;
      }
      ChainEdgesChained(ns, |ns|, o.g.edges);
    }

    /** One turn of the `topo_sorted_dg` loop: add the node, then make it
        depend on the previous name. */
    static method ChainStep(o: StringDG, ns: seq<string>, k: nat, prev: Option<string>)
      requires o.Valid() && k < |ns| && o.g.lastId == k
      requires forall x: nat :: x in o.g.nodes <==> x < k
      requires forall i :: 0 <= i < k ==> o.names[i] == ns[i]
      requires forall e :: e in o.g.edges <==> ChainEdge(ns, k, e)
      requires prev == if k == 0 then None else Some(ns[k - 1])
      modifies o, o.g
      ensures o.Valid() && o.g == old(o.g) && o.g.lastId == k + 1
      ensures forall x: nat :: x in o.g.nodes <==> x < k + 1
      ensures forall i :: 0 <= i < k + 1 ==> o.names[i] == ns[i]
      ensures forall e :: e in o.g.edges <==> ChainEdge(ns, k + 1, e)
    {
      ghost var before := o.g.edges;
      AppendName(o, ns, k);
      if prev.Some? {
        LinkPrevious(o, prev.value, ns[k], k);
      }
      ChainTurn(ns, k, before, o.g.edges, o.names, o.g.nodes);
    }

    /** The first half of a turn: node k, named `ns[k]`. */
    static method AppendName(o: StringDG, ns: seq<string>, k: nat)
      requires o.Valid() && k < |ns| && o.g.lastId == k
      requires forall x: nat :: x in o.g.nodes <==> x < k
      requires forall i :: 0 <= i < k ==> o.names[i] == ns[i]
      modifies o, o.g
      ensures o.Valid() && o.g == old(o.g) && o.g.lastId == k + 1 && o.g.edges == old(o.g.edges)
      ensures forall x: nat :: x in o.g.nodes <==> x < k + 1
      ensures forall i :: 0 <= i < k + 1 ==> o.names[i] == ns[i]
    {
      var id := o.AddNode(ns[k]);
    }

    /** The dependency of node k on the previous name: every node so far
        named like node k depends on every node so far named like node k - 1. */
    static method LinkPrevious(o: StringDG, prevName: string, nodeStr: string, k: nat)
      requires o.Valid() && k > 0 && k - 1 in o.g.nodes && k in o.g.nodes
      requires o.names[k - 1] == prevName && o.names[k] == nodeStr
      modifies o.g
      ensures o.Valid() && o.g.nodes == old(o.g.nodes) && o.g.lastId == old(o.g.lastId)
      ensures forall e :: e in o.g.edges <==> (e in old(o.g.edges) ||
        (e.src in o.g.nodes && e.dst in o.g.nodes && o.names[e.src] == nodeStr && o.names[e.dst] == prevName))
    {
      assert k - 1 in o.lut[prevName] && k in o.lut[nodeStr];
      var added := o.AddDependency(prevName, nodeStr);
    }

    /** `dump`: the graph in Graphviz syntax, one node or edge per line; the
        nodes come in the unspecified order of the node set. */
    method Dump() returns (s: string)
      requires Valid()
      ensures exists ids: seq<nat> :: (Distinct(ids) && (forall x :: x in ids <==> x in g.nodes)
                             && s == Render(DumpLines(names, ids, g.edges)))
    {
      var ids := Enumerate(g.nodes);
      var lines := CollectDump(names, ids, g.edges);
      s := JoinLines(lines);
    }

    /** The lines `dump` gathers in a string list before joining them. */
    static method CollectDump(nm: map<nat, string>, ids: seq<nat>, edges: seq<Edge>) returns (lines: seq<string>)
      requires forall x :: x in ids ==> x in nm
      requires forall e :: e in edges ==> e.src in nm && e.dst in nm
      ensures lines == DumpLines(nm, ids, edges)
    {
      var o := new StringList();
      o.Push("digraph {");
      PushNodeLines(o, nm, ids);
      PushEdgeLines(o, nm, edges);
      o.Push("}");
      lines := o.Get();
    }

    static method PushNodeLines(o: StringList, nm: map<nat, string>, ids: seq<nat>)
      requires forall x :: x in ids ==> x in nm
      modifies o
      ensures o.val == old(o.val) + NodeLines(nm, ids)
    {
      var i := 0;
      while i < |ids|
        invariant 0 <= i <= |ids|
        invariant o.val == old(o.val) + NodeLines(nm, ids[..i])
      {
        assert ids[..i + 1][..i] == ids[..i];
        o.Push(Label(nm, ids[i]));
        i := i + 1;
      }
      assert ids[..i] == ids;
    }

    static method PushEdgeLines(o: StringList, nm: map<nat, string>, edges: seq<Edge>)
      requires forall e :: e in edges ==> e.src in nm && e.dst in nm
      modifies o
      ensures o.val == old(o.val) + EdgeLines(nm, edges)
    {
      var j := 0;
      while j < |edges|
        invariant 0 <= j <= |edges|
        invariant o.val == old(o.val) + EdgeLines(nm, edges[..j])
      {
        assert edges[..j + 1][..j] == edges[..j];
        o.Push(EdgeLine(nm, edges[j]));
        j := j + 1;
      }
      assert edges[..j] == edges;
    }

    /** The last loop of `dump`: every line followed by a line break. */
    static method JoinLines(lines: seq<string>) returns (s: string)
      ensures s == Render(lines)
    {
      s := [];
      var n := 0;
      while n < |lines|
        invariant 0 <= n <= |lines|
        invariant s + Render(lines[n..]) == Render(lines)
      {
        assert lines[n..][1..] == lines[n + 1..];
        s := s + lines[n] + "\n";
        n := n + 1;
      }
    }
  }
}

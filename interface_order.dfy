/** How GenaMain.cc orders the interfaces of a protocol: the names each
    interface depends on (`ArgInterfaceDependencyGetterVisitor`,
    `interface_get_dep_names`, `interface_get_enum_dep_names`), the
    providers-first order built on a StringDG (`topo_sort_interfaces`) and
    the forward declarations (`emit_object_forward`). */
module InterfaceOrder {
  import opened Wrappers
  import opened Types
  import opened Digraph
  import opened NamedGraph

  /* ------------------------------------------------- dependency names */

  /** The interface an argument type names: the owner of the nameable kinds. */
  function ArgDep(t: ArgType): (r: Option<string>)
    ensures r.Some? <==> t.Nameable() && t.owner.Some?
    ensures r.Some? ==> r == t.owner
  {
    match t
    case UIntEnum(_, owner) => owner
    case Object(owner) => owner
    case NullObject(owner) => owner
    case NewId(owner) => owner
    case _ => None
  }

  /** Whether an argument contributes a name: any nameable argument, or only
      enum arguments for the enum dependency set. */
  predicate Counts(a: Arg, enumOnly: bool)
  {
    (!enumOnly || a.ty.UIntEnum?) && ArgDep(a.ty).Some?
  }

  function ArgDeps(args: seq<Arg>, enumOnly: bool): set<string>
  {
    if args == [] then {}
    else
      var a := args[|args| - 1];
      ArgDeps(args[..|args| - 1], enumOnly) + (if Counts(a, enumOnly) then {ArgDep(a.ty).value} else {})
  }

  function MsgDeps(msgs: seq<Message>, enumOnly: bool): set<string>
  {
    if msgs == [] then {}
    else MsgDeps(msgs[..|msgs| - 1], enumOnly) + ArgDeps(msgs[|msgs| - 1].args, enumOnly)
  }

  /** The messages in the order the source visits them: events, then requests. */
  function MessagesOf(iface: Interface): seq<Message>
  {
    iface.events + iface.requests
  }

  /** `interface_get_dep_names` (`enumOnly` false) and
      `interface_get_enum_dep_names` (`enumOnly` true). */
  function DepNames(iface: Interface, enumOnly: bool): set<string>
  {
    MsgDeps(MessagesOf(iface), enumOnly)
  }

  lemma {:induction false} ArgDepsSpec(args: seq<Arg>, enumOnly: bool)
    ensures forall d :: d in ArgDeps(args, enumOnly) <==>
      exists a :: a in args && Counts(a, enumOnly) && ArgDep(a.ty) == Some(d)
  {
    if args != [] {
      var init := args[..|args| - 1];
      ArgDepsSpec(init, enumOnly);
      assert args == init + [args[|args| - 1]];
    }
  }

  lemma {:induction false} MsgDepsSpec(msgs: seq<Message>, enumOnly: bool)
    ensures forall d :: d in MsgDeps(msgs, enumOnly) <==>
      exists m, a :: m in msgs && a in m.args && Counts(a, enumOnly) && ArgDep(a.ty) == Some(d)
  {
    if msgs != [] {
      var init := msgs[..|msgs| - 1];
      var last := msgs[|msgs| - 1];
      MsgDepsSpec(init, enumOnly);
      ArgDepsSpec(last.args, enumOnly);
      assert msgs == init + [last];
      forall d | d in MsgDeps(msgs, enumOnly)
        ensures exists m, a :: m in msgs && a in m.args && Counts(a, enumOnly) && ArgDep(a.ty) == Some(d)
      {
        if d in ArgDeps(last.args, enumOnly) {
          var a :| a in last.args && Counts(a, enumOnly) && ArgDep(a.ty) == Some(d);
          assert last in msgs;
        }
      }
    }
  }

  /** A name is a dependency of an interface exactly when some argument of
      one of its events or requests names it (an enum argument, for the enum
      set), and the enum dependencies are among the dependencies. */
  lemma DepNamesSpec(iface: Interface, enumOnly: bool)
    ensures forall d :: d in DepNames(iface, enumOnly) <==>
      exists m, a :: m in iface.events + iface.requests && a in m.args &&
        (!enumOnly || a.ty.UIntEnum?) && a.ty.Nameable() && a.ty.owner == Some(d)
    ensures DepNames(iface, true) <= DepNames(iface, false)
  {
    MsgDepsSpec(MessagesOf(iface), enumOnly);
    MsgDepsSpec(MessagesOf(iface), true);
    MsgDepsSpec(MessagesOf(iface), false);
  }

  /** The collecting loops: over the messages, over their arguments,
      inserting every counted name into the set. */
  method CollectDepNames(iface: Interface, enumOnly: bool) returns (o: set<string>)
    ensures o == DepNames(iface, enumOnly)
  {
    var msgs := iface.events + iface.requests;
    o := {};
    var i := 0;
    while i < |msgs|
      invariant 0 <= i <= |msgs|
      invariant o == MsgDeps(msgs[..i], enumOnly)
    {
      var args := msgs[i].args;
      var k := 0;
      while k < |args|
        invariant 0 <= k <= |args|
        invariant o == MsgDeps(msgs[..i], enumOnly) + ArgDeps(args[..k], enumOnly)
      {
        assert args[..k + 1][..k] == args[..k];
        var dep := ArgDep(args[k].ty);
        if (!enumOnly || args[k].ty.UIntEnum?) && dep.Some? {
          o := o + {dep.value};
        }
        k := k + 1;
      }
      assert args[..k] == args;
      assert msgs[..i + 1][..i] == msgs[..i];
      i := i + 1;
    }
    assert msgs[..i] == msgs;
  }

  /* ------------------------------------------------- first definitions */

  /** The interfaces with a duplicate name dropped: an `unordered_map`
      insert keeps the first definition of a name. */
  function FirstDefs(ifaces: seq<Interface>): seq<Interface>
  {
    if ifaces == [] then []
    else
      var r := FirstDefs(ifaces[..|ifaces| - 1]);
      var last := ifaces[|ifaces| - 1];
      if last.name in InterfaceNames(r) then r else r + [last]
  }

  /** Whether `x` is the first interface of `ifaces` with its name. */
  predicate FirstOfItsName(ifaces: seq<Interface>, i: int)
    requires 0 <= i < |ifaces|
  {
    forall k :: 0 <= k < i ==> ifaces[k].name != ifaces[i].name
  }

  /** The names of a list grow by one name per appended interface. */
  lemma NamesSnoc(r: seq<Interface>, x: Interface)
    ensures InterfaceNames(r + [x]) == InterfaceNames(r) + [x.name]
  {
  }

  /** The kept interfaces have distinct names. */
  lemma {:induction false} FirstDefsDistinct(ifaces: seq<Interface>)
    ensures Distinct(InterfaceNames(FirstDefs(ifaces)))
  {
    if ifaces != [] {
      var init := ifaces[..|ifaces| - 1];
      var last := ifaces[|ifaces| - 1];
      var r := FirstDefs(init);
      FirstDefsDistinct(init);
      if last.name !in InterfaceNames(r) {
        NamesSnoc(r, last);
      }
    }
  }

  /** The kept interfaces carry exactly the names of the input. */
  lemma {:induction false} FirstDefsNames(ifaces: seq<Interface>)
    ensures forall n :: n in InterfaceNames(FirstDefs(ifaces)) <==> n in InterfaceNames(ifaces)
  {
    if ifaces != [] {
      var init := ifaces[..|ifaces| - 1];
      var last := ifaces[|ifaces| - 1];
      var r := FirstDefs(init);
      FirstDefsNames(init);
      assert ifaces == init + [last];
      NamesSnoc(init, last);
      if last.name !in InterfaceNames(r) {
        NamesSnoc(r, last);
      }
    }
  }

  /** The kept interfaces are exactly the first definition of every name. */
  lemma {:induction false} FirstDefsMembers(ifaces: seq<Interface>)
    ensures forall x :: x in FirstDefs(ifaces) <==>
      exists i :: 0 <= i < |ifaces| && ifaces[i] == x && FirstOfItsName(ifaces, i)
  {
    if ifaces != [] {
      var init := ifaces[..|ifaces| - 1];
      var last := ifaces[|ifaces| - 1];
      var r := FirstDefs(init);
      FirstDefsMembers(init);
      FirstDefsNames(init);
      var n := |ifaces| - 1;
      assert forall i :: 0 <= i < n ==> init[i] == ifaces[i];
      assert forall i :: 0 <= i < n ==> (FirstOfItsName(init, i) <==> FirstOfItsName(ifaces, i));
      assert FirstOfItsName(ifaces, n) <==> last.name !in InterfaceNames(init) by {
        if last.name in InterfaceNames(init) {
          var k :| 0 <= k < n && InterfaceNames(init)[k] == last.name;
          assert ifaces[k].name == last.name;
        } else {
          forall k | 0 <= k < n ensures ifaces[k].name != last.name {
            assert InterfaceNames(init)[k] == init[k].name;
          }
        }
      }
    }
  }

  /** The three facts together. */
  lemma FirstDefsSpec(ifaces: seq<Interface>)
    ensures Distinct(InterfaceNames(FirstDefs(ifaces)))
    ensures forall x :: x in FirstDefs(ifaces) <==>
      exists i :: 0 <= i < |ifaces| && ifaces[i] == x && FirstOfItsName(ifaces, i)
    ensures forall n :: n in InterfaceNames(FirstDefs(ifaces)) <==> n in InterfaceNames(ifaces)
  {
    FirstDefsDistinct(ifaces);
    FirstDefsMembers(ifaces);
    FirstDefsNames(ifaces);
  }

  /** The loop that fills the name-to-interface map. */
  method DedupInterfaces(ifaces: seq<Interface>) returns (u: seq<Interface>, m: map<string, Interface>)
    ensures u == FirstDefs(ifaces)
    ensures forall n :: n in m <==> n in InterfaceNames(u)
    ensures forall i :: 0 <= i < |u| ==> m[u[i].name] == u[i]
  {
    u := [];
    m := map[];
    var i := 0;
    while i < |ifaces|
      invariant 0 <= i <= |ifaces|
      invariant u == FirstDefs(ifaces[..i])
      invariant forall n :: n in m <==> n in InterfaceNames(u)
      invariant forall k :: 0 <= k < |u| ==> m[u[k].name] == u[k]
    {
      assert ifaces[..i + 1][..i] == ifaces[..i];
      var x := ifaces[i];
      if x.name !in m {
        assert InterfaceNames(u + [x]) == InterfaceNames(u) + [x.name];
        u := u + [x];
        m := m[x.name := x];
      }
      i := i + 1;
    }
    assert ifaces[..i] == ifaces;
  }

  /* ------------------------------------------------- providers first */

  datatype OrderError =
    | UnknownInterface(name: string)  // `add_dependency`: "No node named [..]"
    | CyclicDependency                // `topo_sorted` found no root

  /** Every enum dependency of an interface comes strictly before it (so an
      interface naming itself cannot be placed). */
  ghost predicate ProvidersFirst(s: seq<Interface>)
  {
    forall i, j :: 0 <= i < |s| && 0 <= j < |s| && s[j].name in DepNames(s[i], true) ==> j < i
  }

  /** Every enum dependency is an interface of the list. */
  ghost predicate Closed(s: seq<Interface>)
  {
    forall i, d :: 0 <= i < |s| && d in DepNames(s[i], true) ==> d in InterfaceNames(s)
  }

  /** `perm` lists every index below `n` once. */
  ghost predicate IsPermutation(perm: seq<nat>, n: nat)
  {
    |perm| == n && Distinct(perm) && forall x: nat :: x in perm <==> x < n
  }

  /** The interfaces at the given indexes. */
  function Select(u: seq<Interface>, perm: seq<nat>): (r: seq<Interface>)
    requires forall t :: 0 <= t < |perm| ==> perm[t] < |u|
    ensures |r| == |perm| && forall t :: 0 <= t < |perm| ==> r[t] == u[perm[t]]
  {
    seq(|perm|, t requires 0 <= t < |perm| => u[perm[t]])
  }

  /** Selecting a permutation of a list with distinct names keeps every
      interface, each once. */
  lemma SelectPermutation(u: seq<Interface>, perm: seq<nat>)
    requires IsPermutation(perm, |u|) && Distinct(InterfaceNames(u))
    ensures forall t :: 0 <= t < |perm| ==> perm[t] < |u|
    ensures Distinct(InterfaceNames(Select(u, perm)))
    ensures forall k :: 0 <= k < |u| ==> u[k] in Select(u, perm)
    ensures forall x :: x in Select(u, perm) ==> x in u
  {
    assert forall t :: 0 <= t < |perm| ==> perm[t] in perm;
    SelectDistinct(u, perm);
    SelectCovers(u, perm);
  }

  lemma SelectDistinct(u: seq<Interface>, perm: seq<nat>)
    requires Distinct(perm) && Distinct(InterfaceNames(u))
    requires forall t :: 0 <= t < |perm| ==> perm[t] < |u|
    ensures Distinct(InterfaceNames(Select(u, perm)))
  {
    SelectNames(u, perm);
    PermutedDistinct(InterfaceNames(u), perm, InterfaceNames(Select(u, perm)));
  }

  lemma SelectNames(u: seq<Interface>, perm: seq<nat>)
    requires forall t :: 0 <= t < |perm| ==> perm[t] < |u|
    ensures forall t :: 0 <= t < |perm| ==> InterfaceNames(Select(u, perm))[t] == InterfaceNames(u)[perm[t]]
  {
  }

  lemma PermutedDistinct<T>(un: seq<T>, perm: seq<nat>, sn: seq<T>)
    requires Distinct(perm) && Distinct(un) && |sn| == |perm|
    requires forall t :: 0 <= t < |perm| ==> perm[t] < |un| && sn[t] == un[perm[t]]
    ensures Distinct(sn)
  {
  }

  lemma SelectCovers(u: seq<Interface>, perm: seq<nat>)
    requires forall x: nat :: x in perm <==> x < |u|
    requires forall t :: 0 <= t < |perm| ==> perm[t] < |u|
    ensures forall k :: 0 <= k < |u| ==> u[k] in Select(u, perm)
  {
    var s := Select(u, perm);
    forall k | 0 <= k < |u| ensures u[k] in s {
      assert k in perm;
      var t :| 0 <= t < |perm| && perm[t] == k;
      assert s[t] == u[k];
    }
  }

  /** The edges the source puts into the graph: from each node to the node
      of each name in its dependency set. */
  ghost predicate DepEdges(ns: seq<string>, ds: seq<set<string>>, edges: seq<Edge>)
    requires |ns| == |ds|
  {
    forall e :: e in edges <==> e.src < |ns| && e.dst < |ns| && ns[e.dst] in ds[e.src]
  }

  /** A list in which every dependency comes before its users, by index. */
  ghost predicate IndexProvidersFirst(ns: seq<string>, ds: seq<set<string>>, perm: seq<nat>)
    requires |ns| == |ds| && forall t :: 0 <= t < |perm| ==> perm[t] < |ns|
  {
    forall i, j :: 0 <= i < |perm| && 0 <= j < |perm| && ns[perm[j]] in ds[perm[i]] ==> j < i
  }

  ghost predicate AllBelow(nodes: set<nat>, n: nat)
  {
    forall x: nat :: x in nodes <==> x < n
  }

  /** A providers-first permutation, read backwards, is a topological order
      of the dependency graph. */
  lemma PermutationOrder(ns: seq<string>, ds: seq<set<string>>, nodes: set<nat>, edges: seq<Edge>, perm: seq<nat>)
    requires |ns| == |ds| && AllBelow(nodes, |ns|) && DepEdges(ns, ds, edges)
    requires IsPermutation(perm, |ns|)
    requires forall t :: 0 <= t < |perm| ==> perm[t] < |ns|
    requires IndexProvidersFirst(ns, ds, perm)
    ensures IsTopoOrder(nodes, edges, Reversed(perm))
  {
    var n := |perm|;
    var order := Reversed(perm);
    forall a, b | 0 <= a < b < n ensures order[a] != order[b] {
      assert perm[n - 1 - b] != perm[n - 1 - a];
    }
    forall x | x in order ensures x in perm {
      var t :| 0 <= t < n && order[t] == x;
      assert perm[n - 1 - t] == x;
    }
    forall x | x in perm ensures x in order {
      var t :| 0 <= t < n && perm[t] == x;
      assert order[n - 1 - t] == x;
    }
  }

  /** A topological order of the dependency graph, read backwards, is a
      providers-first permutation. */
  lemma OrderPermutation(ns: seq<string>, ds: seq<set<string>>, nodes: set<nat>, edges: seq<Edge>, order: seq<nat>)
    requires |ns| == |ds| && AllBelow(nodes, |ns|) && DepEdges(ns, ds, edges)
    requires IsTopoOrder(nodes, edges, order)
    ensures IsPermutation(Reversed(order), |ns|)
    ensures forall t :: 0 <= t < |order| ==> order[t] < |ns|
    ensures IndexProvidersFirst(ns, ds, Reversed(order))
  {
    assert forall t :: 0 <= t < |order| ==> order[t] in order;
    assert |order| == |ns| by {
      BelowCard(nodes, |ns|);
      DistinctCard(order, nodes);
    }
    ReversedDistinct(order);
    ReversedProviders(ns, ds, edges, order);
  }

  /** Reading a list backwards keeps its elements and their distinctness. */
  lemma ReversedDistinct<T>(s: seq<T>)
    requires Distinct(s)
    ensures Distinct(Reversed(s)) && forall x :: x in Reversed(s) <==> x in s
  {
    var n, r := |s|, Reversed(s);
    forall a, b | 0 <= a < b < n ensures r[a] != r[b] {
      assert s[n - 1 - b] != s[n - 1 - a];
    }
    forall x | x in r ensures x in s {
      var t :| 0 <= t < n && r[t] == x;
      assert s[n - 1 - t] == x;
    }
    forall x | x in s ensures x in r {
      var t :| 0 <= t < n && s[t] == x;
      assert r[n - 1 - t] == x;
    }
  }

  /** No edge runs forwards in a topological order, so backwards every
      dependency comes before its users. */
  lemma ReversedProviders(ns: seq<string>, ds: seq<set<string>>, edges: seq<Edge>, order: seq<nat>)
    requires |ns| == |ds| && DepEdges(ns, ds, edges) && |order| == |ns|
    requires forall t :: 0 <= t < |order| ==> order[t] < |ns|
    requires forall i, j :: 0 <= i <= j < |order| ==> Edge(order[j], order[i]) !in edges
    ensures IndexProvidersFirst(ns, ds, Reversed(order))
  {
    var n, perm := |order|, Reversed(order);
    forall i, j | 0 <= i < n && 0 <= j < n && ns[perm[j]] in ds[perm[i]] ensures j < i {
      assert Edge(order[n - 1 - i], order[n - 1 - j]) in edges;
    }
  }

  lemma {:induction false} BelowCard(nodes: set<nat>, n: nat)
    requires AllBelow(nodes, n)
    ensures |nodes| == n
  {
    if n > 0 {
      BelowCard(nodes - {n - 1}, n - 1);
    } else {
      assert nodes == {} by {
        forall x: nat | x in nodes ensures false {
        }
      }
    }
  }

  lemma {:induction false} DistinctCard(s: seq<nat>, ids: set<nat>)
    requires Distinct(s) && forall x :: x in ids <==> x in s
    ensures |s| == |ids|
  {
    if s != [] {
      var init := s[..|s| - 1];
      var last := s[|s| - 1];
      assert s == init + [last];
      DistinctCard(init, ids - {last});
    }
  }

  /** The enum dependency sets of a list of interfaces. */
  function EnumDepSets(u: seq<Interface>): (ds: seq<set<string>>)
    ensures |ds| == |u| && forall k :: 0 <= k < |u| ==> ds[k] == DepNames(u[k], true)
  {
    seq(|u|, k requires 0 <= k < |u| => DepNames(u[k], true))
  }

  /** Providers-first over interfaces is providers-first over their names
      and dependency sets. */
  lemma ProvidersFirstByIndex(u: seq<Interface>, perm: seq<nat>)
    requires forall t :: 0 <= t < |perm| ==> perm[t] < |u|
    ensures ProvidersFirst(Select(u, perm)) <==> IndexProvidersFirst(InterfaceNames(u), EnumDepSets(u), perm)
  {
    var s, ns, ds := Select(u, perm), InterfaceNames(u), EnumDepSets(u);
    if ProvidersFirst(s) {
      forall i, j | 0 <= i < |perm| && 0 <= j < |perm| && ns[perm[j]] in ds[perm[i]] ensures j < i {
        DependsAt(u, perm, i, j);
      }
    }
    if IndexProvidersFirst(ns, ds, perm) {
      forall i, j | 0 <= i < |s| && 0 <= j < |s| && s[j].name in DepNames(s[i], true) ensures j < i {
        DependsAt(u, perm, i, j);
      }
    }
  }

  lemma DependsAt(u: seq<Interface>, perm: seq<nat>, i: nat, j: nat)
    requires forall t :: 0 <= t < |perm| ==> perm[t] < |u|
    requires i < |perm| && j < |perm|
    ensures Select(u, perm)[j].name in DepNames(Select(u, perm)[i], true) <==>
      InterfaceNames(u)[perm[j]] in EnumDepSets(u)[perm[i]]
  {
  }

  /** `add_node` for every kept interface name, in order. */
  method AddNodes(ns: seq<string>) returns (graph: StringDG)
    requires Distinct(ns)
    ensures fresh(graph) && fresh(graph.g) && graph.Valid()
    ensures AllBelow(graph.g.nodes, |ns|) && graph.g.edges == []
    ensures forall x: nat :: x < |ns| ==> graph.names[x] == ns[x]
    ensures forall n :: n in graph.lut <==> n in ns
    ensures forall x: nat :: x < |ns| ==> graph.lut[ns[x]] == [x]
  {
    graph := new StringDG();
    var k := 0;
    while k < |ns|
      invariant 0 <= k <= |ns|
      invariant fresh(graph) && fresh(graph.g) && NodesAdded(graph, ns, k)
    {
      AddNext(graph, ns, k);
      k := k + 1;
    }
    assert ns[..k] == ns;
  }

  /** The graph after `add_node` for the first k names. */
  ghost predicate NodesAdded(graph: StringDG, ns: seq<string>, k: nat)
    reads graph, graph.g
  {
    k <= |ns| && graph.Valid()
    && AllBelow(graph.g.nodes, k) && graph.g.lastId == k && graph.g.edges == []
    && (forall x: nat :: x < k ==> graph.names[x] == ns[x])
    && (forall n :: n in graph.lut <==> n in ns[..k])
    && (forall x: nat :: x < k ==> graph.lut[ns[x]] == [x])
  }

  /** One turn of the node loop. */
  method AddNext(graph: StringDG, ns: seq<string>, k: nat)
    requires Distinct(ns) && k < |ns| && NodesAdded(graph, ns, k)
    modifies graph, graph.g
    ensures graph.g == old(graph.g) && NodesAdded(graph, ns, k + 1)
  {
    assert ns[..k + 1] == ns[..k] + [ns[k]];
    assert ns[k] !in ns[..k];
    var id := graph.AddNode(ns[k]);
  }

  /** `add_dependency(dep, iface)` for every enum dependency of every kept
      interface. The first name that is not an interface stops the loop. */
  method LinkDependencies(graph: StringDG, u: seq<Interface>, ns: seq<string>, ghost ds: seq<set<string>>)
    returns (unknown: Option<string>)
    requires |ns| == |u| == |ds| && forall k :: 0 <= k < |u| ==> ds[k] == DepNames(u[k], true)
    requires graph.Valid() && AllBelow(graph.g.nodes, |ns|) && graph.g.edges == []
    requires forall n :: n in graph.lut <==> n in ns
    requires forall x: nat :: x < |ns| ==> graph.lut[ns[x]] == [x]
    modifies graph.g
    ensures graph.Valid() && AllBelow(graph.g.nodes, |ns|)
    ensures unknown.None? ==> (forall i, d :: 0 <= i < |ds| && d in ds[i] ==> d in ns) && DepEdges(ns, ds, graph.g.edges)
    ensures unknown.Some? ==> unknown.value !in ns && exists k :: 0 <= k < |ds| && unknown.value in ds[k]
  {
    unknown := None;
    var k := 0;
    while k < |u|
      invariant 0 <= k <= |u| && unknown.None?
      invariant graph.Valid() && AllBelow(graph.g.nodes, |ns|)
      invariant forall i, d :: 0 <= i < k && d in ds[i] ==> d in ns
      invariant forall e :: e in graph.g.edges <==> e.src < k && e.dst < |ns| && ns[e.dst] in ds[e.src]
    {
      var deps := CollectDepNames(u[k], true);
      unknown := LinkInterface(graph, ns, k, deps);
      if unknown.Some? {
        assert unknown.value in ds[k];
        return;
      }
      k := k + 1;
    }
    assert DepEdges(ns, ds, graph.g.edges);
  }

  /** Closedness over interfaces is closedness over names and dependency sets. */
  lemma ClosedByIndex(u: seq<Interface>)
    ensures Closed(u) <==>
      forall i, d :: 0 <= i < |u| && d in EnumDepSets(u)[i] ==> d in InterfaceNames(u)
  {
    var ds := EnumDepSets(u);
    assert forall i :: 0 <= i < |u| ==> ds[i] == DepNames(u[i], true);
  }

  /** The inner loop: `add_dependency(dep, ns[k])` for every name of `deps`,
      visited in no particular order, as the source's `unordered_set` is. */
  method LinkInterface(graph: StringDG, ns: seq<string>, k: nat, deps: set<string>) returns (unknown: Option<string>)
    requires k < |ns| && graph.Valid() && AllBelow(graph.g.nodes, |ns|)
    requires forall n :: n in graph.lut <==> n in ns
    requires forall x: nat :: x < |ns| ==> graph.lut[ns[x]] == [x]
    modifies graph.g
    ensures graph.Valid() && AllBelow(graph.g.nodes, |ns|)
    ensures unknown.None? ==> forall d :: d in deps ==> d in ns
    ensures unknown.None? ==> forall e :: e in graph.g.edges <==>
      e in old(graph.g.edges) || (e.src == k && e.dst < |ns| && ns[e.dst] in deps)
    ensures unknown.Some? ==> unknown.value in deps && unknown.value !in ns
  {
    var todo := deps;
    while todo != {}
      decreases todo
      invariant todo <= deps
      invariant graph.Valid() && AllBelow(graph.g.nodes, |ns|)
      invariant forall d :: d in deps - todo ==> d in ns
      invariant forall e :: e in graph.g.edges <==>
        e in old(graph.g.edges) || (e.src == k && e.dst < |ns| && ns[e.dst] in deps - todo)
    {
      var d :| d in todo;
      var o := graph.AddDependency(d, ns[k]);
      if o.Fail? {
        return Some(d);
      }
      var j :| 0 <= j < |ns| && ns[j] == d;
      assert graph.lut[d] == [j];
      todo := todo - {d};
    }
    return None;
  }

  /** The graph `topo_sort_interfaces` sorts: one node per kept interface,
      an edge from each interface to each of its enum dependencies. */
  method BuildGraph(u: seq<Interface>) returns (graph: StringDG, unknown: Option<string>)
    requires Distinct(InterfaceNames(u))
    ensures fresh(graph) && fresh(graph.g) && graph.Valid() && AllBelow(graph.g.nodes, |u|)
    ensures forall x: nat :: x < |u| ==> graph.names[x] == u[x].name
    ensures unknown.None? ==> Closed(u) && DepEdges(InterfaceNames(u), EnumDepSets(u), graph.g.edges)
    ensures unknown.Some? ==>
      unknown.value !in InterfaceNames(u) && exists k :: 0 <= k < |u| && unknown.value in DepNames(u[k], true)
  {
    var ns := InterfaceNames(u);
    graph := AddNodes(ns);
    unknown := LinkDependencies(graph, u, ns, EnumDepSets(u));
    ClosedByIndex(u);
  }

  /** `topo_sort_interfaces`: the kept interfaces, every one exactly once,
      each enum dependency before the interfaces that use it. It fails when
      an enum names an interface that is not there, or when no such order
      exists (a cycle, or an interface naming its own enum through itself). */
  method TopoSortInterfaces(ifaces: seq<Interface>) returns (r: Result<seq<Interface>, OrderError>)
    ensures var u := FirstDefs(ifaces);
      (r.Ok? ==>
         Closed(u) && ProvidersFirst(r.value) &&
         exists perm :: IsPermutation(perm, |u|) && (forall t :: 0 <= t < |perm| ==> perm[t] < |u|) &&
           r.value == Select(u, perm)) &&
      (r.Err? && r.error.UnknownInterface? ==>
         r.error.name !in InterfaceNames(u) && exists k :: 0 <= k < |u| && r.error.name in DepNames(u[k], true)) &&
      (r.Err? && r.error.CyclicDependency? ==>
         Closed(u) && forall perm :: IsPermutation(perm, |u|) && (forall t :: 0 <= t < |perm| ==> perm[t] < |u|) ==>
           !ProvidersFirst(Select(u, perm)))
  {
    var u, m := DedupInterfaces(ifaces);
    FirstDefsDistinct(ifaces);
    var graph, unknown := BuildGraph(u);
    if unknown.Some? {
      return Err(UnknownInterface(unknown.value));
    }
    r := SortGraph(u, m, graph);
  }

  /** The sort proper, over the graph of the kept interfaces `u`. */
  method SortGraph(u: seq<Interface>, m: map<string, Interface>, graph: StringDG)
    returns (r: Result<seq<Interface>, OrderError>)
    requires graph.Valid() && AllBelow(graph.g.nodes, |u|)
    requires forall x: nat :: x < |u| ==> graph.names[x] == u[x].name
    requires forall i :: 0 <= i < |u| ==> u[i].name in m && m[u[i].name] == u[i]
    requires DepEdges(InterfaceNames(u), EnumDepSets(u), graph.g.edges)
    ensures r.Ok? ==>
      ProvidersFirst(r.value) &&
      exists perm :: IsPermutation(perm, |u|) && (forall t :: 0 <= t < |perm| ==> perm[t] < |u|) &&
        r.value == Select(u, perm)
    ensures r.Err? ==> r == Err(CyclicDependency)
    ensures r.Err? ==>
      forall perm :: IsPermutation(perm, |u|) && (forall t :: 0 <= t < |perm| ==> perm[t] < |u|) ==>
        !ProvidersFirst(Select(u, perm))
  {
    var sorted := graph.TopoSorted();
    if sorted.Err? {
      NoProvidersFirst(u, graph.g.nodes, graph.g.edges);
      return Err(CyclicDependency);
    }
    ghost var order :| IsTopoOrder(graph.g.nodes, graph.g.edges, order) && sorted.value == NamesOf(graph.names, order);
    SortedProvidersFirst(u, graph.g.nodes, graph.g.edges, order);
    var o := InterfacesNamed(u, m, sorted.value, order);
    ReversedSelect(u, order, o);
    r := Ok(Reversed(o));
  }

  /** Reversing a topological order of the dependency graph puts providers
      first. */
  lemma SortedProvidersFirst(u: seq<Interface>, nodes: set<nat>, edges: seq<Edge>, order: seq<nat>)
    requires AllBelow(nodes, |u|) && DepEdges(InterfaceNames(u), EnumDepSets(u), edges)
    requires IsTopoOrder(nodes, edges, order)
    ensures IsPermutation(Reversed(order), |u|) && forall t :: 0 <= t < |order| ==> order[t] < |u|
    ensures ProvidersFirst(Select(u, Reversed(order)))
  {
    OrderPermutation(InterfaceNames(u), EnumDepSets(u), nodes, edges, order);
    ProvidersFirstByIndex(u, Reversed(order));
  }

  lemma ReversedSelect(u: seq<Interface>, order: seq<nat>, o: seq<Interface>)
    requires forall t :: 0 <= t < |order| ==> order[t] < |u|
    requires o == Select(u, order)
    ensures Reversed(o) == Select(u, Reversed(order))
  {
  }

  /** Without a topological order, no arrangement puts providers first. */
  lemma NoProvidersFirst(u: seq<Interface>, nodes: set<nat>, edges: seq<Edge>)
    requires AllBelow(nodes, |u|) && DepEdges(InterfaceNames(u), EnumDepSets(u), edges)
    requires forall order :: !IsTopoOrder(nodes, edges, order)
    ensures forall perm :: IsPermutation(perm, |u|) && (forall t :: 0 <= t < |perm| ==> perm[t] < |u|) ==>
      !ProvidersFirst(Select(u, perm))
  {
    forall perm | IsPermutation(perm, |u|) && (forall t :: 0 <= t < |perm| ==> perm[t] < |u|)
      ensures !ProvidersFirst(Select(u, perm))
    {
      ProvidersFirstByIndex(u, perm);
      if IndexProvidersFirst(InterfaceNames(u), EnumDepSets(u), perm) {
        PermutationOrder(InterfaceNames(u), EnumDepSets(u), nodes, edges, perm);
      }
    }
  }

  /** The loop over the sorted names: `ifaces.at(name)` for each. */
  method InterfacesNamed(u: seq<Interface>, m: map<string, Interface>, names: seq<string>, ghost order: seq<nat>)
    returns (o: seq<Interface>)
    requires |names| == |order| && forall t :: 0 <= t < |order| ==> order[t] < |u| && names[t] == u[order[t]].name
    requires forall k :: 0 <= k < |u| ==> u[k].name in m && m[u[k].name] == u[k]
    ensures o == Select(u, order)
  {
    o := [];
    var i := 0;
    while i < |names|
      invariant 0 <= i <= |names| && |o| == i
      invariant forall t :: 0 <= t < i ==> o[t] == u[order[t]]
    {
      o := o + [m[names[i]]];
      i := i + 1;
    }
  }

  /** `std::ranges::reverse`. */
  function Reversed<T>(s: seq<T>): (r: seq<T>)
    ensures |r| == |s| && forall i :: 0 <= i < |s| ==> r[i] == s[|s| - 1 - i]
  {
    seq(|s|, i requires 0 <= i < |s| => s[|s| - 1 - i])
  }

  /* ------------------------------------------------- forward declarations */

  function StructLine(name: string): string
  {
    "struct " + name + ";"
  }

  function StructLines(ns: seq<string>): (r: seq<string>)
    ensures |r| == |ns| && forall i :: 0 <= i < |ns| ==> r[i] == StructLine(ns[i])
  {
    seq(|ns|, i requires 0 <= i < |ns| => StructLine(ns[i]))
  }

  function NameSet(ifaces: seq<Interface>): set<string>
  {
    set i | 0 <= i < |ifaces| :: ifaces[i].name
  }

  /** `s` lists the set `xs`, each member once. */
  ghost predicate Enumerates(s: seq<string>, xs: set<string>)
  {
    Distinct(s) && forall x :: x in s <==> x in xs
  }

  /** The block for one interface: nothing when every dependency is already
      declared, otherwise a blank line, a comment and the missing ones. */
  function DepBlock(name: string, missing: seq<string>): seq<string>
  {
    if missing == [] then [] else ["", "// deps for " + name] + StructLines(missing)
  }

  function DepBlocks(ifaces: seq<Interface>, missing: seq<seq<string>>): seq<string>
    requires |missing| == |ifaces|
  {
    if ifaces == [] then []
    else
      var n := |ifaces| - 1;
      DepBlocks(ifaces[..n], missing[..n]) + DepBlock(ifaces[n].name, missing[n])
  }

  /** The output of `emit_object_forward`, given the order in which each
      interface's undeclared dependencies are listed. */
  function ForwardLines(ifaces: seq<Interface>, missing: seq<seq<string>>): seq<string>
    requires |missing| == |ifaces|
  {
    ["// emit_object_forward"] + StructLines(InterfaceNames(ifaces)) + DepBlocks(ifaces, missing)
  }

  /** What each interface's block lists: its dependencies that are not
      interfaces of the list, each once, in any order. */
  ghost predicate ForwardListing(ifaces: seq<Interface>, missing: seq<seq<string>>)
  {
    |missing| == |ifaces| &&
    forall i :: 0 <= i < |ifaces| ==> Enumerates(missing[i], DepNames(ifaces[i], false) - NameSet(ifaces))
  }

  lemma {:induction false} DepBlocksHas(ifaces: seq<Interface>, missing: seq<seq<string>>, i: nat, d: string)
    requires |missing| == |ifaces| && i < |ifaces| && d in missing[i]
    ensures StructLine(d) in DepBlocks(ifaces, missing)
  {
    var n := |ifaces| - 1;
    if i < n {
      assert missing[..n][i] == missing[i];
      DepBlocksHas(ifaces[..n], missing[..n], i, d);
    } else {
      var k :| 0 <= k < |missing[n]| && missing[n][k] == d;
      assert DepBlock(ifaces[n].name, missing[n])[k + 2] == StructLine(d);
    }
  }

  /** Every interface of the list and every name any of them depends on is
      declared by some `struct` line. */
  lemma ForwardDeclaresAll(ifaces: seq<Interface>, missing: seq<seq<string>>)
    requires ForwardListing(ifaces, missing)
    ensures forall i :: 0 <= i < |ifaces| ==> StructLine(ifaces[i].name) in ForwardLines(ifaces, missing)
    ensures forall i, d :: 0 <= i < |ifaces| && d in DepNames(ifaces[i], false) ==>
      StructLine(d) in ForwardLines(ifaces, missing)
  {
    forall i | 0 <= i < |ifaces| ensures StructLine(ifaces[i].name) in ForwardLines(ifaces, missing) {
      HeadDeclares(ifaces, missing, i);
    }
    forall i, d | 0 <= i < |ifaces| && d in DepNames(ifaces[i], false)
      ensures StructLine(d) in ForwardLines(ifaces, missing)
    {
      if d in NameSet(ifaces) {
        var k :| 0 <= k < |ifaces| && ifaces[k].name == d;
        HeadDeclares(ifaces, missing, k);
      } else {
        assert d in missing[i];
        DepBlocksHas(ifaces, missing, i, d);
        assert ForwardLines(ifaces, missing) ==
          (["// emit_object_forward"] + StructLines(InterfaceNames(ifaces))) + DepBlocks(ifaces, missing);
      }
    }
  }

  lemma HeadDeclares(ifaces: seq<Interface>, missing: seq<seq<string>>, k: nat)
    requires |missing| == |ifaces| && k < |ifaces|
    ensures StructLine(ifaces[k].name) in ForwardLines(ifaces, missing)
  {
    assert ForwardLines(ifaces, missing)[k + 1] == StructLine(ifaces[k].name);
  }

  /** `emit_object_forward`: a `struct` line per interface, then for each
      interface the dependencies no such line declares. */
  method EmitObjectForward(ifaces: seq<Interface>) returns (lines: seq<string>)
    ensures exists missing :: ForwardListing(ifaces, missing) && lines == ForwardLines(ifaces, missing)
  {
    var declared, emitted := DeclareInterfaces(ifaces);
    var blocks;
    ghost var missing;
    blocks, missing := DeclareMissing(ifaces, emitted);
    lines := ["// emit_object_forward"] + declared + blocks;
    assert ForwardListing(ifaces, missing);
  }

  /** The first loop: a `struct` line per interface, remembering the names. */
  method DeclareInterfaces(ifaces: seq<Interface>) returns (lines: seq<string>, emitted: set<string>)
    ensures lines == StructLines(InterfaceNames(ifaces)) && emitted == NameSet(ifaces)
  {
    lines := [];
    emitted := {};
    var i := 0;
    while i < |ifaces|
      invariant 0 <= i <= |ifaces|
      invariant lines == StructLines(InterfaceNames(ifaces[..i]))
      invariant emitted == NameSet(ifaces[..i])
    {
      assert NameSet(ifaces[..i + 1]) == NameSet(ifaces[..i]) + {ifaces[i].name} by {
        assert forall k :: 0 <= k < i ==> ifaces[..i + 1][k] == ifaces[..i][k];
      }
      assert StructLines(InterfaceNames(ifaces[..i + 1])) ==
        StructLines(InterfaceNames(ifaces[..i])) + [StructLine(ifaces[i].name)];
      emitted := emitted + {ifaces[i].name};
      lines := lines + [StructLine(ifaces[i].name)];
      i := i + 1;
    }
    assert ifaces[..i] == ifaces;
  }

  /** The second loop: per interface, its dependencies minus the declared
      names, under a comment when there are any. */
  method DeclareMissing(ifaces: seq<Interface>, emitted: set<string>)
    returns (lines: seq<string>, ghost missing: seq<seq<string>>)
    ensures |missing| == |ifaces| && lines == DepBlocks(ifaces, missing)
    ensures forall k :: 0 <= k < |ifaces| ==> Enumerates(missing[k], DepNames(ifaces[k], false) - emitted)
  {
    lines := [];
    missing := [];
    var i := 0;
    while i < |ifaces|
      invariant 0 <= i <= |ifaces| && |missing| == i
      invariant ListsMissing(ifaces, emitted, missing)
      invariant lines == DepBlocks(ifaces[..i], missing)
    {
      var block;
      ghost var listed;
      block, listed := MissingBlock(ifaces[i], emitted);
      DepBlocksSnoc(ifaces, missing, i, listed);
      ListsMissingSnoc(ifaces, emitted, missing, listed);
      lines := lines + block;
      missing := missing + [listed];
      i := i + 1;
    }
    assert ifaces[..i] == ifaces;
  }

  /** `missing` enumerates, for each of the first interfaces, its
      dependencies outside `emitted`. */
  ghost predicate ListsMissing(ifaces: seq<Interface>, emitted: set<string>, missing: seq<seq<string>>)
  {
    |missing| <= |ifaces| &&
    forall k :: 0 <= k < |missing| ==> Enumerates(missing[k], DepNames(ifaces[k], false) - emitted)
  }

  lemma ListsMissingSnoc(ifaces: seq<Interface>, emitted: set<string>, missing: seq<seq<string>>,
                         listed: seq<string>)
    requires ListsMissing(ifaces, emitted, missing) && |missing| < |ifaces|
    requires Enumerates(listed, DepNames(ifaces[|missing|], false) - emitted)
    ensures ListsMissing(ifaces, emitted, missing + [listed])
  {
    var m := missing + [listed];
    forall k | 0 <= k < |m| ensures Enumerates(m[k], DepNames(ifaces[k], false) - emitted) {
      if k < |missing| {
        assert m[k] == missing[k];
      }
    }
  }

  /** One pass of the second loop: the block for `iface`. */
  method MissingBlock(iface: Interface, emitted: set<string>) returns (block: seq<string>, ghost listed: seq<string>)
    ensures Enumerates(listed, DepNames(iface, false) - emitted) && block == DepBlock(iface.name, listed)
  {
    var deps := CollectDepNames(iface, false);
    deps := deps - emitted;
    if deps != {} {
      var structs;
      structs, listed := StructsOf(deps);
      block := ["", "// deps for " + iface.name] + structs;
    } else {
      block, listed := [], [];
    }
  }

  lemma DepBlocksSnoc(ifaces: seq<Interface>, missing: seq<seq<string>>, i: nat, listed: seq<string>)
    requires |missing| == i < |ifaces|
    ensures DepBlocks(ifaces[..i + 1], missing + [listed]) ==
      DepBlocks(ifaces[..i], missing) + DepBlock(ifaces[i].name, listed)
  {
    assert ifaces[..i + 1][..i] == ifaces[..i];
    assert (missing + [listed])[..i] == missing;
  }

  lemma DistinctSnoc(s: seq<string>, x: string)
    requires Distinct(s) && x !in s
    ensures Distinct(s + [x])
  {
  }

  /** The inner loop: a `struct` line per name of the set, in no particular
      order. */
  method StructsOf(deps: set<string>) returns (block: seq<string>, ghost listed: seq<string>)
    ensures Enumerates(listed, deps) && block == StructLines(listed)
    ensures deps != {} ==> listed != []
  {
    block := [];
    listed := [];
    var todo := deps;
    while todo != {}
      decreases todo
      invariant todo <= deps && Distinct(listed)
      invariant forall x :: x in listed <==> x in deps - todo
      invariant block == StructLines(listed)
    {
      var d :| d in todo;
      DistinctSnoc(listed, d);
      listed := listed + [d];
      block := block + [StructLine(d)];
      todo := todo - {d};
    }
  }
}

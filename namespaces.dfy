/** Interface-to-protocol resolution of the header generator (HeaderGena.cc,
    `NamespaceInfo`): every interface of the main protocol and of the context
    protocols is recorded with the protocol that defines it, a name defined
    twice is rejected, and the C++ namespace of an interface is the namespace
    of its protocol, under the optional top namespace. */
module Namespaces {
  import opened Wrappers
  import opened Types

  datatype NsError =
    /** "Found multiple definition of inteface": `protocol` is the one being
        registered, `existing` the one that defined the interface first. */
    | MultipleDefinition(iface: string, protocol: string, existing: string)
    /** "Cannot resolve protocol for [..] interface". */
    | CannotResolve(iface: string)

  /** One interface together with the protocol that defines it. */
  datatype Definition = Definition(iface: string, protocol: string)

  type ProtocolMap = map<string, string>

  function DefinitionsOf(p: Protocol): seq<Definition>
  {
    seq(|p.interfaces|, i requires 0 <= i < |p.interfaces| => Definition(p.interfaces[i].name, p.name))
  }

  function ContextDefinitions(context: seq<Protocol>): seq<Definition>
  {
    if context == [] then [] else DefinitionsOf(context[0]) + ContextDefinitions(context[1..])
  }

  /** Every definition in registration order: the main protocol first, then
      each context protocol in turn. */
  function AllDefinitions(main: Protocol, context: seq<Protocol>): seq<Definition>
  {
    DefinitionsOf(main) + ContextDefinitions(context)
  }

  /** Registering definitions one by one; a name already present aborts with
      both protocol names. */
  function Register(o: ProtocolMap, ds: seq<Definition>): Result<ProtocolMap, NsError>
    decreases |ds|
  {
    if ds == [] then Ok(o)
    else if ds[0].iface in o then Err(MultipleDefinition(ds[0].iface, ds[0].protocol, o[ds[0].iface]))
    else Register(o[ds[0].iface := ds[0].protocol], ds[1..])
  }

  predicate NamesDistinct(ds: seq<Definition>)
  {
    forall i, j :: 0 <= i < j < |ds| ==> ds[i].iface != ds[j].iface
  }

  /** Registration succeeds exactly when no interface name repeats (and none
      is already known); the map then sends every name to its protocol and
      holds nothing else; a failure names an interface defined twice, with the
      protocol of the later definition and that of the earlier one. */
  lemma {:induction false} RegisterSpec(o: ProtocolMap, ds: seq<Definition>)
    ensures Register(o, ds).Ok? <==>
      NamesDistinct(ds) && forall i :: 0 <= i < |ds| ==> ds[i].iface !in o
    ensures Register(o, ds).Ok? ==>
      var out := Register(o, ds).value;
      (forall i :: 0 <= i < |ds| ==> ds[i].iface in out && out[ds[i].iface] == ds[i].protocol) &&
      (forall k :: k in o ==> k in out && out[k] == o[k]) &&
      (forall k :: k in out ==> k in o || exists i :: 0 <= i < |ds| && ds[i].iface == k)
    ensures Register(o, ds).Err? ==>
      var e := Register(o, ds).error;
      e.MultipleDefinition? &&
      exists j :: 0 <= j < |ds| && ds[j] == Definition(e.iface, e.protocol) &&
        ((e.iface in o && o[e.iface] == e.existing) ||
         exists i :: 0 <= i < j && ds[i] == Definition(e.iface, e.existing))
    decreases |ds|
  {
    if ds != [] {
      var d, rest := ds[0], ds[1..];
      if d.iface in o {
        assert ds[0] == Definition(d.iface, d.protocol);
      } else {
        var o' := o[d.iface := d.protocol];
        RegisterSpec(o', rest);
        var r := Register(o', rest);
        assert Register(o, ds) == r;
        if r.Ok? {
          RegisterOkStep(o, ds, r.value);
        } else {
          RegisterErrStep(o, ds, r.error);
        }
      }
    }
  }

  /** A successful registration of the tail, seen from the whole list. */
  lemma RegisterOkStep(o: ProtocolMap, ds: seq<Definition>, out: ProtocolMap)
    requires ds != [] && ds[0].iface !in o
    requires var o', rest := o[ds[0].iface := ds[0].protocol], ds[1..];
      NamesDistinct(rest) && (forall i :: 0 <= i < |rest| ==> rest[i].iface !in o') &&
      (forall i :: 0 <= i < |rest| ==> rest[i].iface in out && out[rest[i].iface] == rest[i].protocol) &&
      (forall k :: k in o' ==> k in out && out[k] == o'[k]) &&
      (forall k :: k in out ==> k in o' || exists i :: 0 <= i < |rest| && rest[i].iface == k)
    ensures NamesDistinct(ds) && forall i :: 0 <= i < |ds| ==> ds[i].iface !in o
    ensures forall i :: 0 <= i < |ds| ==> ds[i].iface in out && out[ds[i].iface] == ds[i].protocol
    ensures forall k :: k in o ==> k in out && out[k] == o[k]
    ensures forall k :: k in out ==> k in o || exists i :: 0 <= i < |ds| && ds[i].iface == k
  {
    var o', rest := o[ds[0].iface := ds[0].protocol], ds[1..];
    forall i | 0 <= i < |ds| ensures ds[i].iface in out && out[ds[i].iface] == ds[i].protocol {
      if i > 0 { assert ds[i] == rest[i - 1]; }
    }
    forall k | k in out ensures k in o || exists i :: 0 <= i < |ds| && ds[i].iface == k {
      if k !in o' {
        var i :| 0 <= i < |rest| && rest[i].iface == k;
        assert ds[i + 1].iface == k;
      } else if k !in o {
        assert ds[0].iface == k;
      }
    }
    forall i, j | 0 <= i < j < |ds| ensures ds[i].iface != ds[j].iface {
      assert ds[j] == rest[j - 1];
      if i > 0 { assert ds[i] == rest[i - 1]; }
    }
    forall i | 0 <= i < |ds| ensures ds[i].iface !in o {
      if i > 0 { assert ds[i] == rest[i - 1]; }
    }
  }

  /** A failed registration of the tail, seen from the whole list. */
  lemma RegisterErrStep(o: ProtocolMap, ds: seq<Definition>, e: NsError)
    requires ds != [] && ds[0].iface !in o
    requires var o', rest := o[ds[0].iface := ds[0].protocol], ds[1..];
      !(NamesDistinct(rest) && forall i :: 0 <= i < |rest| ==> rest[i].iface !in o') &&
      e.MultipleDefinition? &&
      exists j :: 0 <= j < |rest| && rest[j] == Definition(e.iface, e.protocol) &&
        ((e.iface in o' && o'[e.iface] == e.existing) ||
         exists i :: 0 <= i < j && rest[i] == Definition(e.iface, e.existing))
    ensures !(NamesDistinct(ds) && forall i :: 0 <= i < |ds| ==> ds[i].iface !in o)
    ensures exists j :: (0 <= j < |ds| && ds[j] == Definition(e.iface, e.protocol) &&
                         ((e.iface in o && o[e.iface] == e.existing) ||
                          exists i :: 0 <= i < j && ds[i] == Definition(e.iface, e.existing)))
  {
    var o', rest := o[ds[0].iface := ds[0].protocol], ds[1..];
    var j :| 0 <= j < |rest| && rest[j] == Definition(e.iface, e.protocol) &&
      ((e.iface in o' && o'[e.iface] == e.existing) ||
       exists i :: 0 <= i < j && rest[i] == Definition(e.iface, e.existing));
    assert ds[j + 1] == rest[j];
    if e.iface in o' && o'[e.iface] == e.existing && e.iface !in o {
      assert ds[0] == Definition(e.iface, e.existing);
    } else if !(e.iface in o' && o'[e.iface] == e.existing) {
      var i :| 0 <= i < j && rest[i] == Definition(e.iface, e.existing);
      assert ds[i + 1] == rest[i];
    }
    if NamesDistinct(ds) && forall i :: 0 <= i < |ds| ==> ds[i].iface !in o {
      assert false;
    }
  }

  /** Registering two lists is registering the first, then the second into
      the map the first produced. */
  lemma {:induction false} RegisterAppend(o: ProtocolMap, a: seq<Definition>, b: seq<Definition>)
    ensures Register(o, a).Err? ==> Register(o, a + b) == Register(o, a)
    ensures Register(o, a).Ok? ==> Register(o, a + b) == Register(Register(o, a).value, b)
    decreases |a|
  {
    if a == [] {
      assert a + b == b;
    } else {
      assert (a + b)[0] == a[0];
      assert (a + b)[1..] == a[1..] + b;
      if a[0].iface !in o {
        RegisterAppend(o[a[0].iface := a[0].protocol], a[1..], b);
      }
    }
  }

  /** What the constructor keeps: the interface-to-protocol map and the
      optional top namespace. */
  datatype NamespaceInfo = NamespaceInfo(protocolOf: ProtocolMap, top: Option<string>)

  function NamespaceInfoOf(main: Protocol, context: seq<Protocol>, top: Option<string>): Result<NamespaceInfo, NsError>
  {
    var m :- Register(map[], AllDefinitions(main, context));
    Ok(NamespaceInfo(m, top))
  }

  /** The constructor succeeds exactly when no interface name is defined
      twice across the main and the context protocols; the map then sends
      each interface to the protocol that defines it and knows no other name;
      a failure names an interface with two defining protocols, the later one
      first. */
  lemma NamespaceInfoSpec(main: Protocol, context: seq<Protocol>, top: Option<string>)
    ensures var ds := AllDefinitions(main, context);
      NamespaceInfoOf(main, context, top).Ok? <==> NamesDistinct(ds)
    ensures var ds := AllDefinitions(main, context);
      NamespaceInfoOf(main, context, top).Ok? ==>
      var info := NamespaceInfoOf(main, context, top).value;
      info.top == top &&
      (forall i :: 0 <= i < |ds| ==> ds[i].iface in info.protocolOf && info.protocolOf[ds[i].iface] == ds[i].protocol) &&
      (forall k :: k in info.protocolOf ==> exists i :: 0 <= i < |ds| && ds[i].iface == k)
    ensures var ds := AllDefinitions(main, context);
      NamespaceInfoOf(main, context, top).Err? ==>
      var e := NamespaceInfoOf(main, context, top).error;
      e.MultipleDefinition? &&
      exists i, j :: 0 <= i < j < |ds| && ds[i] == Definition(e.iface, e.existing) && ds[j] == Definition(e.iface, e.protocol)
  {
    RegisterSpec(map[], AllDefinitions(main, context));
  }

  /** The `NamespaceInfo` constructor: the loop over the main protocol's
      interfaces, then the nested loops over the context protocols. */
  method BuildNamespaceInfo(main: Protocol, context: seq<Protocol>, top: Option<string>) returns (r: Result<NamespaceInfo, NsError>)
    ensures r == NamespaceInfoOf(main, context, top)
  {
    var first := RegisterProtocol(map[], main);
    RegisterAppend(map[], DefinitionsOf(main), ContextDefinitions(context));
    if first.Err? {
      return Err(first.error);
    }
    var o := first.value;
    var k := 0;
    while k < |context|
      invariant 0 <= k <= |context|
      invariant Register(o, ContextDefinitions(context[k..])) == Register(map[], AllDefinitions(main, context))
    {
      assert context[k..][1..] == context[k + 1..];
      var next := RegisterProtocol(o, context[k]);
      RegisterAppend(o, DefinitionsOf(context[k]), ContextDefinitions(context[k + 1..]));
      if next.Err? {
        return Err(next.error);
      }
      o := next.value;
      k := k + 1;
    }
    return Ok(NamespaceInfo(o, top));
  }

  /** The inner loop: `throw_if_iface_exist`, then record the protocol. */
  method RegisterProtocol(o0: ProtocolMap, p: Protocol) returns (r: Result<ProtocolMap, NsError>)
    ensures r == Register(o0, DefinitionsOf(p))
  {
    var ds := DefinitionsOf(p);
    var o := o0;
    var i := 0;
    while i < |p.interfaces|
      invariant 0 <= i <= |p.interfaces|
      invariant Register(o, ds[i..]) == Register(o0, ds)
    {
      assert ds[i..][1..] == ds[i + 1..];
      var name := p.interfaces[i].name;
      if name in o {
        return Err(MultipleDefinition(name, p.name, o[name]));
      }
      o := o[name := p.name];
      i := i + 1;
    }
    return Ok(o);
  }

  /** "::top" when a top namespace is set, nothing otherwise. */
  function TopPrefix(top: Option<string>): string
  {
    if top.Some? then "::" + top.value else ""
  }

  /** `get_namespace`: the namespace of the protocol that defines `iface`. */
  function GetNamespace(info: NamespaceInfo, iface: string): (r: Result<string, NsError>)
    ensures r.Err? <==> iface !in info.protocolOf
    ensures r.Err? ==> r.error == CannotResolve(iface)
  {
    if iface !in info.protocolOf then Err(CannotResolve(iface))
    else Ok(TopPrefix(info.top) + "::" + info.protocolOf[iface])
  }

  /** After a successful construction, an interface of the main or of a
      context protocol resolves to "::top::protocol" (or "::protocol"
      without a top namespace) for its own protocol, and every other name
      fails to resolve. */
  lemma ResolvedNamespace(main: Protocol, context: seq<Protocol>, top: Option<string>, iface: string)
    requires NamespaceInfoOf(main, context, top).Ok?
    ensures var info := NamespaceInfoOf(main, context, top).value;
      var ds := AllDefinitions(main, context);
      (forall i :: 0 <= i < |ds| && ds[i].iface == iface ==>
         GetNamespace(info, iface) == Ok(TopPrefix(top) + "::" + ds[i].protocol)) &&
      ((forall i :: 0 <= i < |ds| ==> ds[i].iface != iface) ==>
         GetNamespace(info, iface) == Err(CannotResolve(iface)))
  {
    NamespaceInfoSpec(main, context, top);
  }
}

/** The shape of one generated request function (`RequestGenerator` of
    HeaderGena.cc and `emit_interface_request` of GenaMain.cc): which
    arguments are new_ids, the return type they select, the parameter list
    of the function and the argument list of its `wl_proxy_marshal_flags`
    call. A request with more than one new_id is not generated; only a
    comment listing its new_ids is. The model keeps the structure of these
    lists, not their C++ spelling. */
module Requests {
  import opened Wrappers
  import opened Types
  import opened Namespaces
  import opened WireSignature
  import opened Listing

  /** A new_id argument: its name and the interface it creates, if named. */
  datatype NewIdArg = NewIdArg(name: string, owner: Option<string>)

  function NewIdOf(a: Arg): seq<NewIdArg>
  {
    if a.ty.NewId? then [NewIdArg(a.name, a.ty.owner)] else []
  }

  /** The new_id arguments in order. */
  function NewIds(args: seq<Arg>): seq<NewIdArg>
  {
    if args == [] then [] else NewIdOf(args[0]) + NewIds(args[1..])
  }

  /** Every new_id argument is among the new_ids. */
  lemma {:induction false} NewIdsHas(args: seq<Arg>, i: nat)
    requires i < |args| && args[i].ty.NewId?
    ensures NewIdArg(args[i].name, args[i].ty.owner) in NewIds(args)
  {
    if i > 0 {
      assert args[1..][i - 1] == args[i];
      NewIdsHas(args[1..], i - 1);
    }
  }

  /** Every new_id comes from a new_id argument. */
  lemma {:induction false} NewIdsFrom(args: seq<Arg>, x: NewIdArg) returns (i: nat)
    requires x in NewIds(args)
    ensures i < |args| && args[i].ty.NewId? && x == NewIdArg(args[i].name, args[i].ty.owner)
  {
    if x in NewIdOf(args[0]) {
      i := 0;
    } else {
      var j := NewIdsFrom(args[1..], x);
      assert args[1..][j] == args[j + 1];
      i := j + 1;
    }
  }

  /** The first new_id is that of the first new_id argument. */
  lemma {:induction false} NewIdsFirst(args: seq<Arg>) returns (i: nat)
    requires NewIds(args) != []
    ensures i < |args| && args[i].ty.NewId? && NewIds(args)[0] == NewIdArg(args[i].name, args[i].ty.owner)
    ensures forall k :: 0 <= k < i ==> !args[k].ty.NewId?
  {
    if args[0].ty.NewId? {
      i := 0;
    } else {
      var j := NewIdsFirst(args[1..]);
      assert args[1..][j] == args[j + 1];
      i := j + 1;
      forall k | 0 <= k < i ensures !args[k].ty.NewId? {
        if k > 0 {
          assert args[1..][k - 1] == args[k];
        }
      }
    }
  }

  /** The new_ids are exactly the new_id arguments. */
  lemma NewIdsSpec(args: seq<Arg>)
    ensures forall x :: x in NewIds(args) <==>
      exists i :: 0 <= i < |args| && args[i].ty.NewId? && x == NewIdArg(args[i].name, args[i].ty.owner)
  {
    forall x | x in NewIds(args)
      ensures exists i :: 0 <= i < |args| && args[i].ty.NewId? && x == NewIdArg(args[i].name, args[i].ty.owner)
    {
      var i := NewIdsFrom(args, x);
    }
    forall i | 0 <= i < |args| && args[i].ty.NewId?
      ensures NewIdArg(args[i].name, args[i].ty.owner) in NewIds(args)
    {
      NewIdsHas(args, i);
    }
  }

  /** With at most one new_id, the first one is untyped exactly when some
      argument is an untyped new_id. */
  lemma FirstNewIdUntyped(args: seq<Arg>)
    requires |NewIds(args)| <= 1
    ensures (NewIds(args) != [] && NewIds(args)[0].owner.None?) <==>
      exists i :: 0 <= i < |args| && args[i].ty == NewId(None)
  {
    var ids := NewIds(args);
    if ids != [] && ids[0].owner.None? {
      var i := NewIdsFirst(args);
      assert args[i].ty == NewId(None);
    }
    if exists i :: 0 <= i < |args| && args[i].ty == NewId(None) {
      var i :| 0 <= i < |args| && args[i].ty == NewId(None);
      NewIdsHas(args, i);
    }
  }

  /** The loop of GenaMain.cc: every new_id name collected, the first one
      kept as the return value. */
  method CollectNewIds(args: seq<Arg>) returns (first: Option<NewIdArg>, ids: seq<NewIdArg>)
    ensures ids == NewIds(args)
    ensures first == if ids == [] then None else Some(ids[0])
  {
    first := None;
    ids := [];
    var i := 0;
    while i < |args|
      invariant 0 <= i <= |args|
      invariant ids + NewIds(args[i..]) == NewIds(args)
      invariant first == if ids == [] then None else Some(ids[0])
    {
      assert args[i..][1..] == args[i + 1..];
      if args[i].ty.NewId? {
        if first.None? {
          first := Some(NewIdArg(args[i].name, args[i].ty.owner));
        }
        ids := ids + [NewIdArg(args[i].name, args[i].ty.owner)];
      }
      i := i + 1;
    }
  }

  /* ------------------------------------------------- the generated pieces */

  /** The two generators: GenaMain.cc spells interfaces by name only,
      HeaderGena.cc qualifies them with the namespace of their protocol. */
  datatype Flavor = Legacy | Namespaced(info: NamespaceInfo)

  /** The namespace an interface name is qualified with, if any. */
  function Qualifier(fl: Flavor, iface: string): Result<Option<string>, NsError>
  {
    if fl.Legacy? then Ok(None)
    else
      var ns :- GetNamespace(fl.info, iface);
      Ok(Some(ns))
  }

  /** `void`, `void *`, or a pointer to the handle of the created interface. */
  datatype ReturnKind = ReturnVoid | ReturnUntyped | ReturnHandle(iface: string, ns: Option<string>)

  datatype SigParam =
    | SelfParam(iface: string, ns: Option<string>)  // the object the request is sent on
    | InterfaceParam                                // `interface` of an untyped new_id
    | VersionParam                                  // `uint32_t version` of an untyped new_id
    | ArgParam(arg: Arg)                            // every other argument, under its own name
    | NoGen(name: string, owner: string)            // a typed new_id: a `[[nogen]]` comment only

  datatype CallArg =
    | Proxy                                   // the object, as a proxy
    | Opcode                                  // the request index
    | InterfaceRef(iface: string, ns: Option<string>)  // the created interface's description
    | TodoInterface(iface: string)            // GenaMain.cc: a TODO comment naming it, then nullptr
    | InterfaceParamRef                       // the `interface` parameter
    | NullInterface                           // no object is created
    | VersionParamRef                         // the `version` parameter
    | ProxyVersion                            // the version of the object itself
    | Flags(destroy: bool)                    // WL_MARSHAL_FLAG_DESTROY for a destructor
    | InterfaceNameRef                        // `interface->name`
    | NullNewId                               // the slot of the new object
    | Value(name: string)                     // an argument passed by name

  datatype SigLine = SigLine(param: SigParam, comma: bool)
  datatype CallLine = CallLine(arg: CallArg, comma: bool)

  datatype RequestCode =
    | Ignored(request: string, newIds: seq<NewIdArg>)
    | Generated(request: string, ret: ReturnKind, params: seq<SigLine>, call: seq<CallLine>)

  function ArgParams(a: Arg): seq<SigParam>
  {
    if a.ty.NewId? then
      if a.ty.owner.None? then [InterfaceParam, VersionParam] else [NoGen(a.name, a.ty.owner.value)]
    else [ArgParam(a)]
  }

  function Params(args: seq<Arg>): seq<SigParam>
  {
    if args == [] then [] else ArgParams(args[0]) + Params(args[1..])
  }

  function ArgCallArgs(a: Arg): seq<CallArg>
  {
    if a.ty.NewId? then
      if a.ty.owner.None? then [InterfaceNameRef, VersionParamRef, NullNewId] else [NullNewId]
    else [Value(a.name)]
  }

  function CallArgs(args: seq<Arg>): seq<CallArg>
  {
    if args == [] then [] else ArgCallArgs(args[0]) + CallArgs(args[1..])
  }

  /** The parameters with their commas: a `[[nogen]]` comment takes none. */
  function SigLines(ps: seq<SigParam>): (r: seq<SigLine>)
    ensures |r| == |ps|
  {
    var c := Commas(seq(|ps|, i requires 0 <= i < |ps| => !ps[i].NoGen?));
    seq(|ps|, i requires 0 <= i < |ps| => SigLine(ps[i], c[i]))
  }

  function CallLines(cs: seq<CallArg>): (r: seq<CallLine>)
    ensures |r| == |cs|
  {
    var c := Commas(seq(|cs|, _ => true));
    seq(|cs|, i requires 0 <= i < |cs| => CallLine(cs[i], c[i]))
  }

  function ReturnOf(ret: Option<NewIdArg>, ns: Option<string>): ReturnKind
  {
    if ret.None? then ReturnVoid
    else if ret.value.owner.None? then ReturnUntyped
    else ReturnHandle(ret.value.owner.value, ns)
  }

  /** The five leading arguments of the marshalling call. GenaMain.cc has
      no description to pass for a typed new_id yet and passes `nullptr`
      behind a TODO comment; HeaderGena.cc passes the created interface's. */
  function LeadingCallArgs(fl: Flavor, ret: Option<NewIdArg>, ns: Option<string>, destroy: bool): seq<CallArg>
  {
    var iface :=
      if ret.None? then NullInterface
      else if ret.value.owner.None? then InterfaceParamRef
      else if fl.Legacy? then TodoInterface(ret.value.owner.value)
      else InterfaceRef(ret.value.owner.value, ns);
    var version := if ret.Some? && ret.value.owner.None? then VersionParamRef else ProxyVersion;
    [Proxy, Opcode, iface, version, Flags(destroy)]
  }

  /** The interface a parameter's spelled type names: an enum, object or
      nullable object argument with an `interface` attribute is written as a
      member of that interface's class template (`TypeToStringVisitor`). A
      new_id never reaches that visitor. */
  function SpelledOwner(ty: ArgType): Option<string>
  {
    if ty.UIntEnum? || ty.Object? || ty.NullObject? then ty.owner else None
  }

  /** A parameter type whose interface has no namespace. */
  predicate Unqualified(info: NamespaceInfo, ty: ArgType)
  {
    SpelledOwner(ty).Some? && SpelledOwner(ty).value !in info.protocolOf
  }

  /** `i` is the first argument whose type cannot be qualified. */
  predicate FirstUnqualified(info: NamespaceInfo, args: seq<Arg>, i: int)
  {
    0 <= i < |args| && Unqualified(info, args[i].ty) &&
    forall k :: 0 <= k < i ==> !Unqualified(info, args[k].ty)
  }

  /** The parameter types spelled in argument order: the first one whose
      interface cannot be qualified aborts the request. */
  function ResolveArgTypes(fl: Flavor, args: seq<Arg>): (r: Outcome<NsError>)
    ensures r.Fail? <==> fl.Namespaced? && exists i :: 0 <= i < |args| && Unqualified(fl.info, args[i].ty)
    ensures r.Fail? ==>
      exists i :: FirstUnqualified(fl.info, args, i) && r.error == CannotResolve(SpelledOwner(args[i].ty).value)
  {
    if args == [] then Pass
    else
      var o := SpelledOwner(args[0].ty);
      var q := if o.Some? then Qualifier(fl, o.value) else Ok(None);
      if q.Err? then
        assert FirstUnqualified(fl.info, args, 0);
        Fail(q.error)
      else
        var r := ResolveArgTypes(fl, args[1..]);
        ShiftUnqualified(fl, args, r);
        r
  }

  /** What the rest of the arguments say about the whole, given that the
      first one resolves. */
  lemma ShiftUnqualified(fl: Flavor, args: seq<Arg>, r: Outcome<NsError>)
    requires args != [] && (fl.Namespaced? ==> !Unqualified(fl.info, args[0].ty))
    requires r.Fail? <==> fl.Namespaced? && exists i :: 0 <= i < |args[1..]| && Unqualified(fl.info, args[1..][i].ty)
    requires r.Fail? ==>
      exists i :: FirstUnqualified(fl.info, args[1..], i) && r.error == CannotResolve(SpelledOwner(args[1..][i].ty).value)
    ensures r.Fail? <==> fl.Namespaced? && exists i :: 0 <= i < |args| && Unqualified(fl.info, args[i].ty)
    ensures r.Fail? ==>
      exists i :: FirstUnqualified(fl.info, args, i) && r.error == CannotResolve(SpelledOwner(args[i].ty).value)
  {
    if fl.Namespaced? && exists i :: 0 <= i < |args| && Unqualified(fl.info, args[i].ty) {
      var i :| 0 <= i < |args| && Unqualified(fl.info, args[i].ty);
      assert args[1..][i - 1] == args[i];
    }
    if r.Fail? {
      var i :| FirstUnqualified(fl.info, args[1..], i) && r.error == CannotResolve(SpelledOwner(args[1..][i].ty).value);
      forall k | 0 <= k < i + 1 ensures !Unqualified(fl.info, args[k].ty) {
        if k > 0 {
          assert args[1..][k - 1] == args[k];
        }
      }
      assert FirstUnqualified(fl.info, args, i + 1);
    }
  }

  /** `emit_interface_request` for request `req` of interface `self`. The
      namespace of a created interface is looked up first (for the return
      type), then that of `self` (for the first parameter), then those of
      the parameter types in order. */
  function RequestCodeOf(fl: Flavor, self: string, req: Message): Result<RequestCode, NsError>
  {
    var ids := NewIds(req.args);
    if |ids| > 1 then Ok(Ignored(req.name, ids))
    else
      var ret := if ids == [] then None else Some(ids[0]);
      var retNs :- if ret.Some? && ret.value.owner.Some? then Qualifier(fl, ret.value.owner.value) else Ok(None);
      var selfNs :- Qualifier(fl, self);
      var types := ResolveArgTypes(fl, req.args);
      if types.Fail? then Err(types.error)
      else
        Ok(Generated(req.name, ReturnOf(ret, retNs),
                     SigLines([SelfParam(self, selfNs)] + Params(req.args)),
                     CallLines(LeadingCallArgs(fl, ret, retNs, req.destructor) + CallArgs(req.args))))
  }

  /* ------------------------------------------------- what the shape promises */

  function ParamsOf(lines: seq<SigLine>): (r: seq<SigParam>)
    ensures |r| == |lines| && forall i :: 0 <= i < |lines| ==> r[i] == lines[i].param
  {
    seq(|lines|, i requires 0 <= i < |lines| => lines[i].param)
  }

  function ArgsOf(lines: seq<CallLine>): (r: seq<CallArg>)
    ensures |r| == |lines| && forall i :: 0 <= i < |lines| ==> r[i] == lines[i].arg
  {
    seq(|lines|, i requires 0 <= i < |lines| => lines[i].arg)
  }

  /** The parameter lines carry the parameters in order; a line has a comma
      exactly when it is a real parameter followed by another real one. */
  lemma SigLinesSpec(ps: seq<SigParam>)
    ensures ParamsOf(SigLines(ps)) == ps
    ensures forall i :: 0 <= i < |ps| ==>
      (SigLines(ps)[i].comma <==> !ps[i].NoGen? && exists j :: i < j < |ps| && !ps[j].NoGen?)
  {
    var v := seq(|ps|, i requires 0 <= i < |ps| => !ps[i].NoGen?);
    assert forall i :: 0 <= i < |ps| ==> v[i] == !ps[i].NoGen?;
  }

  /** The call lines carry the arguments in order, with a comma on all but
      the last. */
  lemma CallLinesSpec(cs: seq<CallArg>)
    ensures ArgsOf(CallLines(cs)) == cs
    ensures forall i :: 0 <= i < |cs| ==> (CallLines(cs)[i].comma <==> i < |cs| - 1)
  {
    AllValuedCommas(|cs|);
  }

  /** A request is left out exactly when it has more than one new_id, and
      the comment then lists them all in order; no name is looked up for it. */
  lemma IgnoredSpec(fl: Flavor, self: string, req: Message)
    ensures (RequestCodeOf(fl, self, req).Ok? && RequestCodeOf(fl, self, req).value.Ignored?) <==>
      |NewIds(req.args)| > 1
    ensures |NewIds(req.args)| > 1 ==>
      RequestCodeOf(fl, self, req) == Ok(Ignored(req.name, NewIds(req.args)))
  {
  }

  /** The return type: `void` without a new_id, `void *` for a new_id with
      no interface, the created interface's handle otherwise. */
  lemma ReturnSpec(fl: Flavor, self: string, req: Message)
    requires RequestCodeOf(fl, self, req).Ok? && RequestCodeOf(fl, self, req).value.Generated?
    ensures var ret := RequestCodeOf(fl, self, req).value.ret;
      (ret.ReturnVoid? <==> forall i :: 0 <= i < |req.args| ==> !req.args[i].ty.NewId?) &&
      (ret.ReturnUntyped? <==> exists i :: 0 <= i < |req.args| && req.args[i].ty == NewId(None)) &&
      (ret.ReturnHandle? ==> exists i :: 0 <= i < |req.args| && req.args[i].ty == NewId(Some(ret.iface))) &&
      (ret.ReturnHandle? && fl.Legacy? ==> ret.ns.None?) &&
      (ret.ReturnHandle? && fl.Namespaced? ==> ret.ns == Some(TopPrefix(fl.info.top) + "::" + fl.info.protocolOf[ret.iface]))
  {
    var ids := NewIds(req.args);
    FirstNewIdUntyped(req.args);
    if ids != [] {
      var i := NewIdsFirst(req.args);
    } else {
      forall i | 0 <= i < |req.args| ensures !req.args[i].ty.NewId? {
        if req.args[i].ty.NewId? {
          NewIdsHas(req.args, i);
        }
      }
    }
  }

  /** A generated request fails only when an interface it qualifies cannot
      be resolved: the created interface first, then the request's own, then
      the interfaces the parameter types name, in argument order. */
  lemma ErrorSpec(fl: Flavor, self: string, req: Message)
    requires |NewIds(req.args)| <= 1
    ensures var r := RequestCodeOf(fl, self, req);
      var ids := NewIds(req.args);
      var created := ids != [] && ids[0].owner.Some?;
      (fl.Legacy? ==> r.Ok?) &&
      (fl.Namespaced? ==>
        var known := fl.info.protocolOf;
        (r.Ok? <==>
           (self in known && (!created || ids[0].owner.value in known) &&
            forall i :: 0 <= i < |req.args| ==> !Unqualified(fl.info, req.args[i].ty))) &&
        (created && ids[0].owner.value !in known ==> r == Err(CannotResolve(ids[0].owner.value))) &&
        ((!created || ids[0].owner.value in known) && self !in known ==> r == Err(CannotResolve(self))) &&
        ((!created || ids[0].owner.value in known) && self in known && r.Err? ==>
           exists i :: FirstUnqualified(fl.info, req.args, i) && r == Err(CannotResolve(SpelledOwner(req.args[i].ty).value))))
  {
  }

  /** The marshalling call passes, after its five leading arguments, one
      value per wire argument of the message's signature, and the new-object
      slots sit exactly where the signature has its `n` codes. */
  lemma {:induction false} CallArgsMatchWire(args: seq<Arg>)
    ensures |CallArgs(args)| == |WireOfArgs(args)|
    ensures forall i :: 0 <= i < |CallArgs(args)| ==>
      (CallArgs(args)[i] == NullNewId <==> WireOfArgs(args)[i].code == 'n')
  {
    if args != [] {
      CallArgsMatchWire(args[1..]);
      var a: seq<CallArg>, b: seq<WireArg> := ArgCallArgs(args[0]), WireOf(args[0].ty);
      var ra: seq<CallArg>, rb: seq<WireArg> := CallArgs(args[1..]), WireOfArgs(args[1..]);
      assert |a| == |b|;
      forall i | 0 <= i < |a| + |ra| ensures ((a + ra)[i] == NullNewId <==> (b + rb)[i].code == 'n') {
        if i >= |a| {
          assert (a + ra)[i] == ra[i - |a|] && (b + rb)[i] == rb[i - |a|];
        }
      }
    }
  }

  /** Every name the call's argument part refers to is a parameter: the
      `interface` and `version` parameters exist exactly when it uses them,
      and an argument is passed by name exactly when it is a parameter. */
  lemma {:induction false} CallUsesParams(args: seq<Arg>)
    ensures InterfaceNameRef in CallArgs(args) <==> InterfaceParam in Params(args)
    ensures VersionParamRef in CallArgs(args) <==> VersionParam in Params(args)
    ensures forall n :: Value(n) in CallArgs(args) <==> exists a :: ArgParam(a) in Params(args) && a.name == n
    ensures InterfaceParamRef !in CallArgs(args)
  {
    if args != [] {
      CallUsesParams(args[1..]);
      var a := args[0];
      assert CallArgs(args) == ArgCallArgs(a) + CallArgs(args[1..]);
      assert Params(args) == ArgParams(a) + Params(args[1..]);
      forall n ensures Value(n) in CallArgs(args) <==> exists x :: ArgParam(x) in Params(args) && x.name == n {
        if Value(n) in ArgCallArgs(a) {
          assert ArgParam(a) in Params(args);
        }
        if exists x :: ArgParam(x) in Params(args) && x.name == n {
          var x :| ArgParam(x) in Params(args) && x.name == n;
          if ArgParam(x) in ArgParams(a) {
            assert Value(n) in ArgCallArgs(a);
          }
        }
      }
    }
  }

  /** The `interface` and `version` parameters are there exactly when an
      argument is an untyped new_id. */
  lemma {:induction false} UntypedParams(args: seq<Arg>)
    ensures InterfaceParam in Params(args) <==> exists i :: 0 <= i < |args| && args[i].ty == NewId(None)
    ensures VersionParam in Params(args) <==> exists i :: 0 <= i < |args| && args[i].ty == NewId(None)
  {
    if args != [] {
      UntypedParams(args[1..]);
      assert Params(args) == ArgParams(args[0]) + Params(args[1..]);
      if exists i :: 0 <= i < |args[1..]| && args[1..][i].ty == NewId(None) {
        var i :| 0 <= i < |args[1..]| && args[1..][i].ty == NewId(None);
        assert args[i + 1] == args[1..][i];
      }
      if exists i :: 0 <= i < |args| && args[i].ty == NewId(None) {
        var i :| 0 <= i < |args| && args[i].ty == NewId(None);
        if i > 0 {
          assert args[1..][i - 1] == args[i];
        }
      }
    }
  }

  /** The pieces a generated request is made of. */
  lemma GeneratedParts(fl: Flavor, self: string, req: Message)
    returns (ret: Option<NewIdArg>, retNs: Option<string>, selfNs: Option<string>)
    requires RequestCodeOf(fl, self, req).Ok? && RequestCodeOf(fl, self, req).value.Generated?
    ensures |NewIds(req.args)| <= 1 && ret == (if NewIds(req.args) == [] then None else Some(NewIds(req.args)[0]))
    ensures RequestCodeOf(fl, self, req).value ==
      Generated(req.name, ReturnOf(ret, retNs),
                SigLines([SelfParam(self, selfNs)] + Params(req.args)),
                CallLines(LeadingCallArgs(fl, ret, retNs, req.destructor) + CallArgs(req.args)))
  {
    var ids := NewIds(req.args);
    ret := if ids == [] then None else Some(ids[0]);
    retNs := if ret.Some? && ret.value.owner.Some? then Qualifier(fl, ret.value.owner.value).value else None;
    selfNs := Qualifier(fl, self).value;
  }

  /** The five leading call arguments: the object, the opcode, the created
      interface (the `interface` parameter for an untyped new_id, nothing
      without a new_id), the version (the `version` parameter for an untyped
      new_id, the object's own otherwise) and the destroy flag. */
  lemma LeadingSpec(fl: Flavor, args: seq<Arg>, ret: Option<NewIdArg>, retNs: Option<string>, destroy: bool)
    requires |NewIds(args)| <= 1 && ret == (if NewIds(args) == [] then None else Some(NewIds(args)[0]))
    ensures var lead := LeadingCallArgs(fl, ret, retNs, destroy);
      var rk := ReturnOf(ret, retNs);
      |lead| == 5 && lead[0] == Proxy && lead[1] == Opcode && lead[4] == Flags(destroy) &&
      (lead[2] == InterfaceParamRef <==> InterfaceParam in Params(args)) &&
      (lead[3] == VersionParamRef <==> VersionParam in Params(args)) &&
      (lead[2] == NullInterface <==> rk.ReturnVoid?) &&
      (rk.ReturnHandle? && fl.Namespaced? ==> lead[2] == InterfaceRef(rk.iface, rk.ns)) &&
      (rk.ReturnHandle? && fl.Legacy? ==> lead[2] == TodoInterface(rk.iface)) &&
      InterfaceNameRef !in lead && NullNewId !in lead && forall n :: Value(n) !in lead
  {
    LeadingShape(fl, ret, retNs, destroy);
    UntypedParams(args);
    FirstNewIdUntyped(args);
  }

  /** The leading arguments by the kind of the created object. */
  lemma LeadingShape(fl: Flavor, ret: Option<NewIdArg>, retNs: Option<string>, destroy: bool)
    ensures var lead := LeadingCallArgs(fl, ret, retNs, destroy);
      var rk := ReturnOf(ret, retNs);
      var untyped := ret.Some? && ret.value.owner.None?;
      |lead| == 5 && lead[0] == Proxy && lead[1] == Opcode && lead[4] == Flags(destroy) &&
      (lead[2] == InterfaceParamRef <==> untyped) && (lead[3] == VersionParamRef <==> untyped) &&
      (lead[2] == NullInterface <==> rk.ReturnVoid?) &&
      (rk.ReturnHandle? && fl.Namespaced? ==> lead[2] == InterfaceRef(rk.iface, rk.ns)) &&
      (rk.ReturnHandle? && fl.Legacy? ==> lead[2] == TodoInterface(rk.iface)) &&
      InterfaceNameRef !in lead && NullNewId !in lead && forall n :: Value(n) !in lead
  {
  }

  /** Gluing the leading arguments to the per-argument ones. */
  lemma CallJoin(lead: seq<CallArg>, tail: seq<CallArg>, c: CallArg)
    requires c !in lead
    ensures c in lead + tail <==> c in tail
  {
  }

  /** For a generated request, the call refers to the `interface` and
      `version` parameters exactly when the function declares them, passes
      every other parameter by name and nothing else, sets the destroy flag
      exactly for a destructor, carries one value per wire argument after
      its leading five, and names the created interface of a typed new_id
      (HeaderGena.cc) or leaves a TODO in its place (GenaMain.cc). */
  lemma GeneratedSpec(fl: Flavor, self: string, req: Message)
    requires RequestCodeOf(fl, self, req).Ok? && RequestCodeOf(fl, self, req).value.Generated?
    ensures var g := RequestCodeOf(fl, self, req).value;
      var ps := ParamsOf(g.params);
      var cs := ArgsOf(g.call);
      |cs| == 5 + |WireOfArgs(req.args)| &&
      cs[0] == Proxy && cs[1] == Opcode && cs[4] == Flags(req.destructor) &&
      (forall i :: 5 <= i < |cs| ==> (cs[i] == NullNewId <==> WireOfArgs(req.args)[i - 5].code == 'n')) &&
      (cs[2] == InterfaceParamRef <==> InterfaceParam in ps) &&
      (cs[3] == VersionParamRef <==> VersionParam in ps) &&
      (InterfaceNameRef in cs <==> InterfaceParam in ps) &&
      (cs[2] == NullInterface <==> g.ret.ReturnVoid?) &&
      (g.ret.ReturnHandle? && fl.Namespaced? ==> cs[2] == InterfaceRef(g.ret.iface, g.ret.ns)) &&
      (g.ret.ReturnHandle? && fl.Legacy? ==> cs[2] == TodoInterface(g.ret.iface)) &&
      (forall n :: Value(n) in cs <==> exists a :: ArgParam(a) in ps && a.name == n)
  {
    var ret, retNs, selfNs := GeneratedParts(fl, self, req);
    var lead := LeadingCallArgs(fl, ret, retNs, req.destructor);
    var tail := CallArgs(req.args);
    var ps := [SelfParam(self, selfNs)] + Params(req.args);
    SigLinesSpec(ps);
    CallLinesSpec(lead + tail);
    CallVector(fl, req.args, ret, retNs, req.destructor);
    SelfFirst(SelfParam(self, selfNs), Params(req.args));
  }

  /** The whole argument vector of the marshalling call, against the
      parameters the arguments declare. */
  lemma CallVector(fl: Flavor, args: seq<Arg>, ret: Option<NewIdArg>, retNs: Option<string>, destroy: bool)
    requires |NewIds(args)| <= 1 && ret == (if NewIds(args) == [] then None else Some(NewIds(args)[0]))
    ensures var cs := LeadingCallArgs(fl, ret, retNs, destroy) + CallArgs(args);
      var ps := Params(args);
      var rk := ReturnOf(ret, retNs);
      |cs| == 5 + |WireOfArgs(args)| &&
      cs[0] == Proxy && cs[1] == Opcode && cs[4] == Flags(destroy) &&
      (forall i :: 5 <= i < |cs| ==> (cs[i] == NullNewId <==> WireOfArgs(args)[i - 5].code == 'n')) &&
      (cs[2] == InterfaceParamRef <==> InterfaceParam in ps) &&
      (cs[3] == VersionParamRef <==> VersionParam in ps) &&
      (InterfaceNameRef in cs <==> InterfaceParam in ps) &&
      (cs[2] == NullInterface <==> rk.ReturnVoid?) &&
      (rk.ReturnHandle? && fl.Namespaced? ==> cs[2] == InterfaceRef(rk.iface, rk.ns)) &&
      (rk.ReturnHandle? && fl.Legacy? ==> cs[2] == TodoInterface(rk.iface)) &&
      (forall n :: Value(n) in cs <==> exists a :: ArgParam(a) in ps && a.name == n)
  {
    var lead, tail := LeadingCallArgs(fl, ret, retNs, destroy), CallArgs(args);
    LeadingSpec(fl, args, ret, retNs, destroy);
    CallArgsMatchWire(args);
    CallUsesParams(args);
    CallJoin(lead, tail, InterfaceNameRef);
    forall n ensures Value(n) in lead + tail <==> Value(n) in tail {
      CallJoin(lead, tail, Value(n));
    }
    forall i | 5 <= i < |lead + tail| ensures (lead + tail)[i] == tail[i - 5] {
    }
  }

  /** The self parameter in front changes no other parameter's membership. */
  lemma SelfFirst(self: SigParam, ps: seq<SigParam>)
    ensures forall p :: p != self ==> (p in [self] + ps <==> p in ps)
  {
  }

  /* ------------------------------------------------- the emitting loops */

  /** The request emitter: new_id collection, the return type, the
      parameter loop, the call-argument loop and the two comma walks. */
  method EmitRequest(fl: Flavor, self: string, req: Message) returns (r: Result<RequestCode, NsError>)
    ensures r == RequestCodeOf(fl, self, req)
  {
    var first, ids := CollectNewIds(req.args);
    if |ids| > 1 {
      return Ok(Ignored(req.name, ids));
    }
    var retNs: Option<string> := None;
    if first.Some? && first.value.owner.Some? {
      var q := Qualifier(fl, first.value.owner.value);
      if q.Err? {
        assert RequestCodeOf(fl, self, req) == Err(q.error);
        return Err(q.error);
      }
      retNs := q.value;
    }
    var selfQ := Qualifier(fl, self);
    if selfQ.Err? {
      assert RequestCodeOf(fl, self, req) == Err(selfQ.error);
      return Err(selfQ.error);
    }
    var typesQ := CheckArgTypes(fl, req.args);
    if typesQ.Fail? {
      return Err(typesQ.error);
    }
    var ps, cs := CollectArgs(req.args, [SelfParam(self, selfQ.value)],
                              LeadingCallArgs(fl, first, retNs, req.destructor));
    var params, call := LayOut(ps, cs);
    r := Ok(Generated(req.name, ReturnOf(first, retNs), params, call));
  }

  /** The signature loop's type lookups: each parameter type is spelled in
      turn, and the first interface without a namespace aborts. */
  method CheckArgTypes(fl: Flavor, args: seq<Arg>) returns (r: Outcome<NsError>)
    ensures r == ResolveArgTypes(fl, args)
  {
    var i := 0;
    while i < |args|
      invariant 0 <= i <= |args|
      invariant ResolveArgTypes(fl, args) == ResolveArgTypes(fl, args[i..])
    {
      assert args[i..][1..] == args[i + 1..];
      var o := SpelledOwner(args[i].ty);
      if o.Some? {
        var q := Qualifier(fl, o.value);
        if q.Err? {
          return Fail(q.error);
        }
      }
      i := i + 1;
    }
    assert args[i..] == [];
    r := Pass;
  }

  /** The parameters and call arguments of each argument, appended in turn. */
  method CollectArgs(args: seq<Arg>, ps0: seq<SigParam>, cs0: seq<CallArg>)
    returns (ps: seq<SigParam>, cs: seq<CallArg>)
    ensures ps == ps0 + Params(args) && cs == cs0 + CallArgs(args)
  {
    ps, cs := ps0, cs0;
    var i := 0;
    while i < |args|
      invariant 0 <= i <= |args|
      invariant ps + Params(args[i..]) == ps0 + Params(args)
      invariant cs + CallArgs(args[i..]) == cs0 + CallArgs(args)
    {
      assert args[i..][1..] == args[i + 1..];
      ps := ps + ArgParams(args[i]);
      cs := cs + ArgCallArgs(args[i]);
      i := i + 1;
    }
    assert args[i..] == [];
  }

  /** The lines of both lists, with their commas. */
  method LayOut(ps: seq<SigParam>, cs: seq<CallArg>) returns (params: seq<SigLine>, call: seq<CallLine>)
    ensures params == SigLines(ps) && call == CallLines(cs)
  {
    var pc := MarkCommas(seq(|ps|, k requires 0 <= k < |ps| => !ps[k].NoGen?));
    var cc := MarkCommas(seq(|cs|, _ => true));
    params := seq(|ps|, k requires 0 <= k < |ps| => SigLine(ps[k], pc[k]));
    call := seq(|cs|, k requires 0 <= k < |cs| => CallLine(cs[k], cc[k]));
  }
}

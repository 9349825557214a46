/** The parser's partner: a protocol written out as the start and end tags
    of its document, in the layout of the Wayland protocol files (elements
    nested protocol > interface > request | event | enum, arg inside
    messages, entry inside enums). Reading the written document back gives
    the protocol; the older parser, which ignores `since`, gives it with
    every `since` dropped. */
module ParserRoundTrip {
  import opened Wrappers
  import opened Text
  import opened Types
  import opened ProtoParsing

  /* ------------------------------------------------------------- writing */

  function OwnerAttrs(owner: Option<string>): seq<Attribute>
  {
    if owner.Some? then [Attribute("interface", owner.value)] else []
  }

  /** The attributes beside `name` and `type` that describe an argument type. */
  function TypeAttrs(ty: ArgType): seq<Attribute>
  {
    match ty
    case UIntEnum(name, owner) =>
      if owner.Some? then [Attribute("enum", owner.value + "." + name)] else [Attribute("enum", name)]
    case NullStr => [Attribute("allow-null", "true")]
    case Object(owner) => OwnerAttrs(owner)
    case NullObject(owner) => OwnerAttrs(owner) + [Attribute("allow-null", "true")]
    case NewId(owner) => OwnerAttrs(owner)
    case _ => []
  }

  function ArgEvents(a: Arg): seq<XmlEvent>
  {
    [Start("arg", [Attribute("name", a.name), Attribute("type", TypeName(a.ty))] + TypeAttrs(a.ty)),
     End("arg")]
  }

  function ArgsEvents(args: seq<Arg>): seq<XmlEvent>
  {
    if args == [] then [] else ArgsEvents(args[..|args| - 1]) + ArgEvents(args[|args| - 1])
  }

  function SinceAttrs(since: Option<U32>): seq<Attribute>
  {
    if since.Some? then [Attribute("since", Decimal(since.value))] else []
  }

  /** A request (`isRequest`) or an event element. */
  function MessageEvents(isRequest: bool, m: Message): seq<XmlEvent>
  {
    var tag := if isRequest then "request" else "event";
    var kind := if isRequest && m.destructor then [Attribute("type", "destructor")] else [];
    [Start(tag, [Attribute("name", m.name)] + kind + SinceAttrs(m.since))] +
    ArgsEvents(m.args) + [End(tag)]
  }

  function MessagesEvents(isRequest: bool, ms: seq<Message>): seq<XmlEvent>
  {
    if ms == [] then []
    else MessagesEvents(isRequest, ms[..|ms| - 1]) + MessageEvents(isRequest, ms[|ms| - 1])
  }

  /** The `value` text of an entry: `0x` and lower-case digits when it was
      written in hexadecimal, decimal otherwise. */
  function EntryText(e: Entry): string
  {
    if e.isHex then "0x" + LowerHex(e.value) else Decimal(e.value)
  }

  function EntryEvents(e: Entry): seq<XmlEvent>
  {
    [Start("entry", [Attribute("name", e.name), Attribute("value", EntryText(e))]), End("entry")]
  }

  function EntriesEvents(es: seq<Entry>): seq<XmlEvent>
  {
    if es == [] then [] else EntriesEvents(es[..|es| - 1]) + EntryEvents(es[|es| - 1])
  }

  function EnumEvents(e: Enum): seq<XmlEvent>
  {
    [Start("enum", [Attribute("name", e.name)])] + EntriesEvents(e.entries) + [End("enum")]
  }

  function EnumsEvents(es: seq<Enum>): seq<XmlEvent>
  {
    if es == [] then [] else EnumsEvents(es[..|es| - 1]) + EnumEvents(es[|es| - 1])
  }

  /** The children of an interface element: requests, then events, then enums. */
  function InterfaceBody(i: Interface): seq<XmlEvent>
  {
    MessagesEvents(true, i.requests) + MessagesEvents(false, i.events) + EnumsEvents(i.enums)
  }

  function InterfaceEvents(i: Interface): seq<XmlEvent>
  {
    [Start("interface", [Attribute("name", i.name), Attribute("version", Decimal(i.version))])] +
    InterfaceBody(i) + [End("interface")]
  }

  function InterfacesEvents(ifaces: seq<Interface>): seq<XmlEvent>
  {
    if ifaces == [] then [] else InterfacesEvents(ifaces[..|ifaces| - 1]) + InterfaceEvents(ifaces[|ifaces| - 1])
  }

  function ProtocolEvents(p: Protocol): seq<XmlEvent>
  {
    [Start("protocol", [Attribute("name", p.name)])] + InterfacesEvents(p.interfaces) + [End("protocol")]
  }

  /* ------------------------------------------------ what can be written */

  /** An enum reference is written as `owner.name`, so neither part may hold a dot. */
  predicate Writable(ty: ArgType)
  {
    ty.UIntEnum? ==> '.' !in ty.enumName && (ty.owner.Some? ==> '.' !in ty.owner.value)
  }

  /** Events have no `type` attribute, so an event is never a destructor. */
  predicate WritableMessage(isRequest: bool, m: Message)
  {
    (!isRequest ==> !m.destructor) && forall k :: 0 <= k < |m.args| ==> Writable(m.args[k].ty)
  }

  predicate WritableInterface(i: Interface)
  {
    (forall k :: 0 <= k < |i.requests| ==> WritableMessage(true, i.requests[k])) &&
    (forall k :: 0 <= k < |i.events| ==> WritableMessage(false, i.events[k]))
  }

  predicate WritableProtocol(p: Protocol)
  {
    forall k :: 0 <= k < |p.interfaces| ==> WritableInterface(p.interfaces[k])
  }

  /* ----------------------------------------------- what is read back */

  /** A message as a parser reads it: the older parser never sets `since`. */
  function Seen(readSince: bool, m: Message): Message
  {
    if readSince then m else m.(since := None)
  }

  function SeenAll(readSince: bool, ms: seq<Message>): (r: seq<Message>)
    ensures |r| == |ms|
  {
    if ms == [] then [] else SeenAll(readSince, ms[..|ms| - 1]) + [Seen(readSince, ms[|ms| - 1])]
  }

  function SeenInterface(readSince: bool, i: Interface): Interface
  {
    i.(requests := SeenAll(readSince, i.requests), events := SeenAll(readSince, i.events))
  }

  function SeenInterfaces(readSince: bool, ifaces: seq<Interface>): seq<Interface>
  {
    if ifaces == [] then [] else SeenInterfaces(readSince, ifaces[..|ifaces| - 1]) + [SeenInterface(readSince, ifaces[|ifaces| - 1])]
  }

  function SeenProtocol(readSince: bool, p: Protocol): Protocol
  {
    p.(interfaces := SeenInterfaces(readSince, p.interfaces))
  }

  /** The newer parser reads back exactly what was written. */
  lemma {:induction false} SeenAllIdentity(ms: seq<Message>)
    ensures SeenAll(true, ms) == ms
  {
    if ms != [] {
      SeenAllIdentity(ms[..|ms| - 1]);
      assert ms == ms[..|ms| - 1] + [ms[|ms| - 1]];
    }
  }

  lemma {:induction false} SeenInterfacesIdentity(ifaces: seq<Interface>)
    ensures SeenInterfaces(true, ifaces) == ifaces
  {
    if ifaces != [] {
      var i := ifaces[|ifaces| - 1];
      SeenInterfacesIdentity(ifaces[..|ifaces| - 1]);
      SeenAllIdentity(i.requests);
      SeenAllIdentity(i.events);
      assert ifaces == ifaces[..|ifaces| - 1] + [i];
    }
  }

  /* ------------------------------------------------- attribute maps */

  lemma AttrMapStep(m: AttrMap, a: Attribute, rest: seq<Attribute>)
    requires a.key !in m
    ensures AttrMapFrom(m, [a] + rest) == AttrMapFrom(m[a.key := a.value], rest)
  {
    assert ([a] + rest)[0] == a && ([a] + rest)[1..] == rest;
  }

  /** The map of the attributes of an argument element. */
  lemma ArgAttrMap(a: Arg) returns (m: AttrMap)
    ensures AttrMapOf([Attribute("name", a.name), Attribute("type", TypeName(a.ty))] + TypeAttrs(a.ty)) == Ok(m)
    ensures "name" in m && m["name"] == a.name && "type" in m && m["type"] == TypeName(a.ty)
    ensures "enum" in m <==> a.ty.UIntEnum?
    ensures a.ty.UIntEnum? ==> m["enum"] == TypeAttrs(a.ty)[0].value
    ensures OwnerAttr(m) == (if a.ty.Object? || a.ty.NullObject? || a.ty.NewId? then a.ty.owner else None)
    ensures "allow-null" in m <==> a.ty.NullStr? || a.ty.NullObject?
    ensures "allow-null" in m ==> m["allow-null"] == "true"
  {
    var n, t := Attribute("name", a.name), Attribute("type", TypeName(a.ty));
    var m0: AttrMap := map["name" := a.name];
    var m1 := m0["type" := TypeName(a.ty)];
    AttrMapStep(map[], n, [t] + TypeAttrs(a.ty));
    assert [n, t] + TypeAttrs(a.ty) == [n] + ([t] + TypeAttrs(a.ty));
    AttrMapStep(m0, t, TypeAttrs(a.ty));
    m := TypeAttrMap(a.ty, m1);
  }

  /** The attributes that describe an argument type, added to a map that
      holds none of their keys. */
  lemma TypeAttrMap(ty: ArgType, m1: AttrMap) returns (m: AttrMap)
    requires "enum" !in m1 && "interface" !in m1 && "allow-null" !in m1
    ensures AttrMapFrom(m1, TypeAttrs(ty)) == Ok(m)
    ensures forall k :: k in m1 ==> k in m && m[k] == m1[k]
    ensures "enum" in m <==> ty.UIntEnum?
    ensures ty.UIntEnum? ==> m["enum"] == TypeAttrs(ty)[0].value
    ensures OwnerAttr(m) == (if ty.Object? || ty.NullObject? || ty.NewId? then ty.owner else None)
    ensures "allow-null" in m <==> ty.NullStr? || ty.NullObject?
    ensures "allow-null" in m ==> m["allow-null"] == "true"
  {
    var extra := TypeAttrs(ty);
    match ty {
      case UIntEnum(_, _) =>
        var e := extra[0];
        AttrMapStep(m1, e, []);
        m := m1[e.key := e.value];
      case NullStr =>
        AttrMapStep(m1, extra[0], []);
        m := m1["allow-null" := "true"];
      case Object(owner) =>
        if owner.Some? {
          AttrMapStep(m1, extra[0], []);
          m := m1["interface" := owner.value];
        } else {
          m := m1;
        }
      case NewId(owner) =>
        if owner.Some? {
          AttrMapStep(m1, extra[0], []);
          m := m1["interface" := owner.value];
        } else {
          m := m1;
        }
      case NullObject(owner) =>
        if owner.Some? {
          var m2 := m1["interface" := owner.value];
          AttrMapStep(m1, extra[0], [extra[1]]);
          AttrMapStep(m2, extra[1], []);
          m := m2["allow-null" := "true"];
        } else {
          AttrMapStep(m1, extra[0], []);
          m := m1["allow-null" := "true"];
        }
      case _ =>
        m := m1;
    }
  }

  /** `parse_arg_type` reads back every writable argument type. */
  lemma ArgTypeReadBack(a: Arg, m: AttrMap)
    requires Writable(a.ty)
    requires "enum" in m <==> a.ty.UIntEnum?
    requires a.ty.UIntEnum? ==> m["enum"] == TypeAttrs(a.ty)[0].value
    requires OwnerAttr(m) == (if a.ty.Object? || a.ty.NullObject? || a.ty.NewId? then a.ty.owner else None)
    requires "allow-null" in m <==> a.ty.NullStr? || a.ty.NullObject?
    requires "allow-null" in m ==> m["allow-null"] == "true"
    ensures ArgTypeOf(TypeName(a.ty), m) == Ok(a.ty)
  {
    match a.ty {
      case UIntEnum(name, owner) =>
        if owner.Some? {
          SplitDotJoined(owner.value, name);
          assert '.' in owner.value + "." + name by {
            assert (owner.value + "." + name)[|owner.value|] == '.';
          }
        }
      case _ =>
    }
  }

  /* ----------------------------------------------------- reading back */

  lemma RunCons(readSince: bool, s: ParserState, e: XmlEvent, rest: seq<XmlEvent>)
    ensures Step(readSince, s, e).Ok? ==>
      Run(readSince, s, [e] + rest) == Run(readSince, Step(readSince, s, e).value, rest)
    ensures Step(readSince, s, e).Err? ==>
      Run(readSince, s, [e] + rest) == Err(Step(readSince, s, e).error)
  {
    assert ([e] + rest)[0] == e && ([e] + rest)[1..] == rest;
  }

  /** One element of a document: its start tag pushes `t`, its body turns
      `t` into `full`, its end tag appends `full` to the parent. */
  lemma ElementRun(readSince: bool, pre: seq<Target>, parent: Target, out: Option<Protocol>,
                   tag: Tag, attrs: seq<Attribute>, t: Target, body: seq<XmlEvent>, full: Target)
    requires AttrMapOf(attrs).Ok? && OpenTarget(readSince, tag, AttrMapOf(attrs).value) == Ok(t)
    requires Run(readSince, ParserState(pre + [parent, t], out), body) ==
             Ok(ParserState(pre + [parent, full], out))
    requires tag != ProtocolTag && Kind(full) == tag && Accepts(Kind(parent), tag)
    ensures Adopt(parent, full).Ok?
    ensures Run(readSince, ParserState(pre + [parent], out),
                [Start(TagName(tag), attrs)] + body + [End(TagName(tag))]) ==
            Ok(ParserState(pre + [Adopt(parent, full).value], out))
  {
    var s1, s2 := ParserState(pre + [parent, t], out), ParserState(pre + [parent, full], out);
    ElementOpens(readSince, pre, parent, out, tag, attrs, t, body);
    ElementCloses(readSince, pre, parent, out, tag, full);
    RunChain(readSince, s1, s2, ParserState(pre + [Adopt(parent, full).value], out), body, [End(TagName(tag))]);
  }

  /** The start tag of an element pushes its target. */
  lemma ElementOpens(readSince: bool, pre: seq<Target>, parent: Target, out: Option<Protocol>,
                     tag: Tag, attrs: seq<Attribute>, t: Target, body: seq<XmlEvent>)
    requires AttrMapOf(attrs).Ok? && OpenTarget(readSince, tag, AttrMapOf(attrs).value) == Ok(t)
    ensures Run(readSince, ParserState(pre + [parent], out),
                [Start(TagName(tag), attrs)] + body + [End(TagName(tag))]) ==
            Run(readSince, ParserState(pre + [parent, t], out), body + [End(TagName(tag))])
  {
    var s := ParserState(pre + [parent], out);
    var s1 := ParserState(pre + [parent, t], out);
    var start, end := Start(TagName(tag), attrs), End(TagName(tag));
    assert pre + [parent] + [t] == pre + [parent, t];
    assert StartStep(readSince, s, TagName(tag), attrs) == Ok(s1);
    assert [start] + body + [end] == [start] + (body + [end]);
    RunCons(readSince, s, start, body + [end]);
  }

  /** The end tag of an element hands the finished target to its parent. */
  lemma ElementCloses(readSince: bool, pre: seq<Target>, parent: Target, out: Option<Protocol>,
                      tag: Tag, full: Target)
    requires tag != ProtocolTag && Kind(full) == tag && Accepts(Kind(parent), tag)
    ensures Adopt(parent, full).Ok?
    ensures Run(readSince, ParserState(pre + [parent, full], out), [End(TagName(tag))]) ==
            Ok(ParserState(pre + [Adopt(parent, full).value], out))
  {
    var s2 := ParserState(pre + [parent, full], out);
    var end := End(TagName(tag));
    var n := |s2.targets|;
    assert s2.targets[n - 1] == full && s2.targets[n - 2] == parent && s2.targets[..n - 2] == pre;
    RunCons(readSince, s2, end, []);
    assert [end] + [] == [end];
  }

  /** A request or event target with more arguments. */
  function WithArgs(t: Target, args: seq<Arg>): Target
    requires t.TRequest? || t.TEvent?
  {
    if t.TRequest? then TRequest(t.msg.(args := t.msg.args + args))
    else TEvent(t.msg.(args := t.msg.args + args))
  }

  lemma ArgReadBack(readSince: bool, pre: seq<Target>, top: Target, out: Option<Protocol>, a: Arg)
    requires top.TRequest? || top.TEvent?
    requires Writable(a.ty)
    ensures Run(readSince, ParserState(pre + [top], out), ArgEvents(a)) ==
            Ok(ParserState(pre + [WithArgs(top, [a])], out))
  {
    var attrs := [Attribute("name", a.name), Attribute("type", TypeName(a.ty))] + TypeAttrs(a.ty);
    var m := ArgAttrMap(a);
    ArgTypeReadBack(a, m);
    assert OpenTarget(readSince, ArgTag, m) == Ok(TArg(a));
    ElementRun(readSince, pre, top, out, ArgTag, attrs, TArg(a), [], TArg(a));
    assert ArgEvents(a) == [Start(TagName(ArgTag), attrs)] + [] + [End(TagName(ArgTag))];
  }

  lemma {:induction false} ArgsReadBack(readSince: bool, pre: seq<Target>, top: Target,
                                         out: Option<Protocol>, args: seq<Arg>)
    requires top.TRequest? || top.TEvent?
    requires forall k :: 0 <= k < |args| ==> Writable(args[k].ty)
    ensures Run(readSince, ParserState(pre + [top], out), ArgsEvents(args)) ==
            Ok(ParserState(pre + [WithArgs(top, args)], out))
    decreases |args|
  {
    if args == [] {
      assert top.msg.args + [] == top.msg.args;
    } else {
      var init, last := args[..|args| - 1], args[|args| - 1];
      var mid := WithArgs(top, init);
      ArgsReadBack(readSince, pre, top, out, init);
      ArgReadBack(readSince, pre, mid, out, last);
      WithArgsSnoc(top, init, last);
      assert init + [last] == args;
      RunChain(readSince, ParserState(pre + [top], out), ParserState(pre + [mid], out),
               ParserState(pre + [WithArgs(mid, [last])], out), ArgsEvents(init), ArgEvents(last));
    }
  }

  /** Two runs one after the other are the run of both event lists. */
  lemma RunChain(readSince: bool, s: ParserState, mid: ParserState, end: ParserState,
                 a: seq<XmlEvent>, b: seq<XmlEvent>)
    requires Run(readSince, s, a) == Ok(mid) && Run(readSince, mid, b) == Ok(end)
    ensures Run(readSince, s, a + b) == Ok(end)
  {
    RunAppend(readSince, s, a, b);
  }

  lemma WithArgsSnoc(top: Target, init: seq<Arg>, last: Arg)
    requires top.TRequest? || top.TEvent?
    ensures WithArgs(WithArgs(top, init), [last]) == WithArgs(top, init + [last])
  {
    assert top.msg.args + init + [last] == top.msg.args + (init + [last]);
  }

  /** The target a writable message's start tag pushes. */
  lemma MessageOpened(readSince: bool, isRequest: bool, m: Message) returns (t: Target)
    requires WritableMessage(isRequest, m)
    ensures var kind := if isRequest && m.destructor then [Attribute("type", "destructor")] else [];
            var tag := if isRequest then RequestTag else EventTag;
            var attrs := [Attribute("name", m.name)] + kind + SinceAttrs(m.since);
            AttrMapOf(attrs).Ok? && OpenTarget(readSince, tag, AttrMapOf(attrs).value) == Ok(t)
    ensures t == (if isRequest then TRequest(Seen(readSince, m).(args := []))
                  else TEvent(Seen(readSince, m).(args := [])))
  {
    var kind := if isRequest && m.destructor then [Attribute("type", "destructor")] else [];
    var since := SinceAttrs(m.since);
    var na := Attribute("name", m.name);
    var m0: AttrMap := map["name" := m.name];
    AttrMapStep(map[], na, kind + since);
    assert [na] + kind + since == [na] + (kind + since);
    var m1 := m0;
    if kind != [] {
      AttrMapStep(m0, kind[0], since);
      assert kind + since == [kind[0]] + since;
      m1 := m0["type" := "destructor"];
    }
    var m2 := m1;
    if since != [] {
      AttrMapStep(m1, since[0], []);
      assert since == [since[0]] + [];
      m2 := m1["since" := Decimal(m.since.value)];
      ParseDigits(m.since.value, 10);
    }
    assert AttrMapOf([na] + kind + since) == Ok(m2);
    t := if isRequest then TRequest(Seen(readSince, m).(args := []))
         else TEvent(Seen(readSince, m).(args := []));
  }

  /** An interface target with one more request (`isRequest`) or event. */
  function WithMessage(isRequest: bool, i: Interface, m: Message): Interface
  {
    if isRequest then i.(requests := i.requests + [m]) else i.(events := i.events + [m])
  }

  lemma MessageReadBack(readSince: bool, pre: seq<Target>, i: Interface, out: Option<Protocol>,
                        isRequest: bool, m: Message)
    requires WritableMessage(isRequest, m)
    ensures Run(readSince, ParserState(pre + [TInterface(i)], out), MessageEvents(isRequest, m)) ==
            Ok(ParserState(pre + [TInterface(WithMessage(isRequest, i, Seen(readSince, m)))], out))
  {
    var tag := if isRequest then RequestTag else EventTag;
    var kind := if isRequest && m.destructor then [Attribute("type", "destructor")] else [];
    var attrs := [Attribute("name", m.name)] + kind + SinceAttrs(m.since);
    var t := MessageOpened(readSince, isRequest, m);
    MessageBodyRun(readSince, pre, TInterface(i), out, t, m.args);
    MessageAdopted(readSince, i, isRequest, m, t);
    ElementRun(readSince, pre, TInterface(i), out, tag, attrs, t, ArgsEvents(m.args), WithArgs(t, m.args));
    MessageEventsShape(isRequest, m);
  }

  /** The arguments of a message, read inside its element. */
  lemma MessageBodyRun(readSince: bool, pre: seq<Target>, parent: Target, out: Option<Protocol>,
                       t: Target, args: seq<Arg>)
    requires t.TRequest? || t.TEvent?
    requires forall k :: 0 <= k < |args| ==> Writable(args[k].ty)
    ensures Run(readSince, ParserState(pre + [parent, t], out), ArgsEvents(args)) ==
            Ok(ParserState(pre + [parent, WithArgs(t, args)], out))
  {
    ArgsReadBack(readSince, pre + [parent], t, out, args);
    assert pre + [parent] + [t] == pre + [parent, t];
    assert pre + [parent] + [WithArgs(t, args)] == pre + [parent, WithArgs(t, args)];
  }

  /** The finished message joins its interface. */
  lemma MessageAdopted(readSince: bool, i: Interface, isRequest: bool, m: Message, t: Target)
    requires t == (if isRequest then TRequest(Seen(readSince, m).(args := []))
                   else TEvent(Seen(readSince, m).(args := [])))
    ensures Kind(WithArgs(t, m.args)) == (if isRequest then RequestTag else EventTag)
    ensures Adopt(TInterface(i), WithArgs(t, m.args)) == Ok(TInterface(WithMessage(isRequest, i, Seen(readSince, m))))
  {
    assert [] + m.args == m.args;
    assert WithArgs(t, m.args) == (if isRequest then TRequest(Seen(readSince, m)) else TEvent(Seen(readSince, m)));
  }

  lemma MessageEventsShape(isRequest: bool, m: Message)
    ensures var tag := if isRequest then RequestTag else EventTag;
      var kind := if isRequest && m.destructor then [Attribute("type", "destructor")] else [];
      MessageEvents(isRequest, m) ==
        [Start(TagName(tag), [Attribute("name", m.name)] + kind + SinceAttrs(m.since))] +
        ArgsEvents(m.args) + [End(TagName(tag))]
  {
  }

  lemma {:induction false} MessagesReadBack(readSince: bool, pre: seq<Target>, i: Interface,
                                             out: Option<Protocol>, isRequest: bool, ms: seq<Message>)
    requires forall k :: 0 <= k < |ms| ==> WritableMessage(isRequest, ms[k])
    ensures Run(readSince, ParserState(pre + [TInterface(i)], out), MessagesEvents(isRequest, ms)) ==
            Ok(ParserState(pre + [TInterface(
              if isRequest then i.(requests := i.requests + SeenAll(readSince, ms))
              else i.(events := i.events + SeenAll(readSince, ms)))], out))
    decreases |ms|
  {
    if ms == [] {
      assert i.requests + [] == i.requests && i.events + [] == i.events;
      assert i.(requests := i.requests) == i && i.(events := i.events) == i;
    } else {
      var init, last := ms[..|ms| - 1], ms[|ms| - 1];
      var mid := if isRequest then i.(requests := i.requests + SeenAll(readSince, init))
                 else i.(events := i.events + SeenAll(readSince, init));
      MessagesReadBack(readSince, pre, i, out, isRequest, init);
      MessageReadBack(readSince, pre, mid, out, isRequest, last);
      MessagesSnoc(readSince, i, isRequest, ms);
      RunChain(readSince, ParserState(pre + [TInterface(i)], out), ParserState(pre + [TInterface(mid)], out),
               ParserState(pre + [TInterface(WithMessage(isRequest, mid, Seen(readSince, last)))], out),
               MessagesEvents(isRequest, init), MessageEvents(isRequest, last));
    }
  }

  /** The attributes of an entry element are read back as the entry. */
  lemma EntryOpened(readSince: bool, x: Entry) returns (attrs: seq<Attribute>)
    ensures EntryEvents(x) == [Start(TagName(EntryTag), attrs)] + [] + [End(TagName(EntryTag))]
    ensures AttrMapOf(attrs).Ok? && OpenTarget(readSince, EntryTag, AttrMapOf(attrs).value) == Ok(TEntry(x))
  {
    var text := EntryText(x);
    attrs := [Attribute("name", x.name), Attribute("value", text)];
    var m0: AttrMap := map["name" := x.name];
    AttrMapStep(map[], attrs[0], [attrs[1]]);
    AttrMapStep(m0, attrs[1], []);
    assert attrs == [attrs[0]] + [attrs[1]] && [attrs[1]] == [attrs[1]] + [];
    var m := m0["value" := text];
    assert AttrMapOf(attrs) == Ok(m);
    if x.isHex {
      DigitsShape(x.value, 16);
      ParseDigits(x.value, 16);
      assert IsHexLiteral(text) && text[2..] == LowerHex(x.value);
    } else {
      DigitsShape(x.value, 10);
      ParseDigits(x.value, 10);
      if |text| > 2 {
        assert IsDigit(text[1], 10);
      }
      assert !IsHexLiteral(text);
    }
  }

  lemma EntryReadBack(readSince: bool, pre: seq<Target>, e: Enum, out: Option<Protocol>, x: Entry)
    ensures Run(readSince, ParserState(pre + [TEnum(e)], out), EntryEvents(x)) ==
            Ok(ParserState(pre + [TEnum(e.(entries := e.entries + [x]))], out))
  {
    var attrs := EntryOpened(readSince, x);
    ElementRun(readSince, pre, TEnum(e), out, EntryTag, attrs, TEntry(x), [], TEntry(x));
  }

  lemma {:induction false} EntriesReadBack(readSince: bool, pre: seq<Target>, e: Enum,
                                            out: Option<Protocol>, xs: seq<Entry>)
    ensures Run(readSince, ParserState(pre + [TEnum(e)], out), EntriesEvents(xs)) ==
            Ok(ParserState(pre + [TEnum(e.(entries := e.entries + xs))], out))
    decreases |xs|
  {
    if xs == [] {
      assert e.entries + [] == e.entries;
      assert e.(entries := e.entries) == e;
    } else {
      var init, last := xs[..|xs| - 1], xs[|xs| - 1];
      var mid := e.(entries := e.entries + init);
      EntriesReadBack(readSince, pre, e, out, init);
      EntryReadBack(readSince, pre, mid, out, last);
      EntriesSnoc(e, init, last);
      assert init + [last] == xs;
      RunChain(readSince, ParserState(pre + [TEnum(e)], out), ParserState(pre + [TEnum(mid)], out),
               ParserState(pre + [TEnum(mid.(entries := mid.entries + [last]))], out),
               EntriesEvents(init), EntryEvents(last));
    }
  }

  lemma MessagesSnoc(readSince: bool, i: Interface, isRequest: bool, ms: seq<Message>)
    requires ms != []
    ensures var init, last := ms[..|ms| - 1], ms[|ms| - 1];
      var mid := if isRequest then i.(requests := i.requests + SeenAll(readSince, init))
                 else i.(events := i.events + SeenAll(readSince, init));
      WithMessage(isRequest, mid, Seen(readSince, last)) ==
        if isRequest then i.(requests := i.requests + SeenAll(readSince, ms))
        else i.(events := i.events + SeenAll(readSince, ms))
  {
    var init, last := ms[..|ms| - 1], ms[|ms| - 1];
    assert i.requests + SeenAll(readSince, init) + [Seen(readSince, last)] ==
           i.requests + SeenAll(readSince, ms);
    assert i.events + SeenAll(readSince, init) + [Seen(readSince, last)] ==
           i.events + SeenAll(readSince, ms);
  }

  lemma EntriesSnoc(e: Enum, init: seq<Entry>, last: Entry)
    ensures var mid := e.(entries := e.entries + init);
      mid.(entries := mid.entries + [last]) == e.(entries := e.entries + (init + [last]))
  {
    assert e.entries + init + [last] == e.entries + (init + [last]);
  }

  lemma EnumReadBack(readSince: bool, pre: seq<Target>, i: Interface, out: Option<Protocol>, e: Enum)
    ensures Run(readSince, ParserState(pre + [TInterface(i)], out), EnumEvents(e)) ==
            Ok(ParserState(pre + [TInterface(i.(enums := i.enums + [e]))], out))
  {
    var attrs := [Attribute("name", e.name)];
    AttrMapStep(map[], attrs[0], []);
    assert attrs == [attrs[0]] + [];
    assert AttrMapOf(attrs) == Ok(map["name" := e.name]);
    var empty := Enum(e.name, []);
    assert OpenTarget(readSince, EnumTag, map["name" := e.name]) == Ok(TEnum(empty));
    EntriesReadBack(readSince, pre + [TInterface(i)], empty, out, e.entries);
    assert pre + [TInterface(i)] + [TEnum(empty)] == pre + [TInterface(i), TEnum(empty)];
    assert empty.(entries := [] + e.entries) == e;
    assert pre + [TInterface(i)] + [TEnum(e)] == pre + [TInterface(i), TEnum(e)];
    ElementRun(readSince, pre, TInterface(i), out, EnumTag, attrs, TEnum(empty), EntriesEvents(e.entries), TEnum(e));
  }

  lemma {:induction false} EnumsReadBack(readSince: bool, pre: seq<Target>, i: Interface,
                                          out: Option<Protocol>, es: seq<Enum>)
    ensures Run(readSince, ParserState(pre + [TInterface(i)], out), EnumsEvents(es)) ==
            Ok(ParserState(pre + [TInterface(i.(enums := i.enums + es))], out))
    decreases |es|
  {
    if es == [] {
      assert i.enums + [] == i.enums;
      assert i.(enums := i.enums) == i;
    } else {
      var init, last := es[..|es| - 1], es[|es| - 1];
      EnumsReadBack(readSince, pre, i, out, init);
      RunAppend(readSince, ParserState(pre + [TInterface(i)], out), EnumsEvents(init), EnumEvents(last));
      EnumReadBack(readSince, pre, i.(enums := i.enums + init), out, last);
      assert i.enums + init + [last] == i.enums + es;
    }
  }

  /** The body of an interface element: requests, then events, then enums. */
  lemma InterfaceBodyReadBack(readSince: bool, pre: seq<Target>, i: Interface, out: Option<Protocol>)
    requires WritableInterface(i)
    ensures var empty := Interface(i.name, i.version, [], [], []);
            Run(readSince, ParserState(pre + [TInterface(empty)], out), InterfaceBody(i)) ==
            Ok(ParserState(pre + [TInterface(SeenInterface(readSince, i))], out))
  {
    var empty := Interface(i.name, i.version, [], [], []);
    var rq, ev, en := MessagesEvents(true, i.requests), MessagesEvents(false, i.events), EnumsEvents(i.enums);
    MessagesReadBack(readSince, pre, empty, out, true, i.requests);
    var i1 := empty.(requests := [] + SeenAll(readSince, i.requests));
    MessagesReadBack(readSince, pre, i1, out, false, i.events);
    var i2 := i1.(events := [] + SeenAll(readSince, i.events));
    EnumsReadBack(readSince, pre, i2, out, i.enums);
    var i3 := i2.(enums := [] + i.enums);
    var s0, s1 := ParserState(pre + [TInterface(empty)], out), ParserState(pre + [TInterface(i1)], out);
    var s2, s3 := ParserState(pre + [TInterface(i2)], out), ParserState(pre + [TInterface(i3)], out);
    RunChain(readSince, s0, s1, s2, rq, ev);
    RunChain(readSince, s0, s2, s3, rq + ev, en);
    SeenInterfaceFilled(readSince, i);
  }

  lemma SeenInterfaceFilled(readSince: bool, i: Interface)
    ensures Interface(i.name, i.version, [], [], []).(requests := [] + SeenAll(readSince, i.requests))
      .(events := [] + SeenAll(readSince, i.events)).(enums := [] + i.enums) == SeenInterface(readSince, i)
  {
    assert [] + SeenAll(readSince, i.requests) == SeenAll(readSince, i.requests);
    assert [] + SeenAll(readSince, i.events) == SeenAll(readSince, i.events);
    assert [] + i.enums == i.enums;
  }

  /** The attributes of an interface element are read back as the empty interface. */
  lemma InterfaceOpened(readSince: bool, i: Interface) returns (attrs: seq<Attribute>)
    ensures attrs == [Attribute("name", i.name), Attribute("version", Decimal(i.version))]
    ensures AttrMapOf(attrs).Ok? &&
      OpenTarget(readSince, InterfaceTag, AttrMapOf(attrs).value) ==
      Ok(TInterface(Interface(i.name, i.version, [], [], [])))
  {
    attrs := [Attribute("name", i.name), Attribute("version", Decimal(i.version))];
    var m0: AttrMap := map["name" := i.name];
    AttrMapStep(map[], attrs[0], [attrs[1]]);
    AttrMapStep(m0, attrs[1], []);
    assert attrs == [attrs[0]] + [attrs[1]] && [attrs[1]] == [attrs[1]] + [];
    var m := m0["version" := Decimal(i.version)];
    assert AttrMapOf(attrs) == Ok(m);
    ParseDigits(i.version, 10);
    assert Lookup(m, "name") == Ok(i.name);
    assert Lookup(m, "version") == Ok(Decimal(i.version));
  }

  lemma InterfaceBodyInProtocol(readSince: bool, p: Protocol, out: Option<Protocol>, i: Interface)
    requires WritableInterface(i)
    ensures var empty := Interface(i.name, i.version, [], [], []);
            Run(readSince, ParserState([TProtocol(p), TInterface(empty)], out), InterfaceBody(i)) ==
            Ok(ParserState([TProtocol(p), TInterface(SeenInterface(readSince, i))], out))
  {
    var empty := Interface(i.name, i.version, [], [], []);
    InterfaceBodyReadBack(readSince, [TProtocol(p)], i, out);
    assert [TProtocol(p)] + [TInterface(empty)] == [TProtocol(p), TInterface(empty)];
    assert [TProtocol(p)] + [TInterface(SeenInterface(readSince, i))] ==
           [TProtocol(p), TInterface(SeenInterface(readSince, i))];
  }

  /** An element directly under the bottom of the stack. */
  lemma TopElementRun(readSince: bool, parent: Target, out: Option<Protocol>,
                      tag: Tag, attrs: seq<Attribute>, t: Target, body: seq<XmlEvent>, full: Target)
    requires AttrMapOf(attrs).Ok? && OpenTarget(readSince, tag, AttrMapOf(attrs).value) == Ok(t)
    requires Run(readSince, ParserState([parent, t], out), body) == Ok(ParserState([parent, full], out))
    requires tag != ProtocolTag && Kind(full) == tag && Accepts(Kind(parent), tag)
    ensures Adopt(parent, full).Ok?
    ensures Run(readSince, ParserState([parent], out),
                [Start(TagName(tag), attrs)] + body + [End(TagName(tag))]) ==
            Ok(ParserState([Adopt(parent, full).value], out))
  {
    var pre: seq<Target> := [];
    assert pre + [parent, t] == [parent, t] && pre + [parent, full] == [parent, full];
    ElementRun(readSince, pre, parent, out, tag, attrs, t, body, full);
    assert pre + [parent] == [parent] && pre + [Adopt(parent, full).value] == [Adopt(parent, full).value];
  }

  lemma InterfaceReadBack(readSince: bool, p: Protocol, out: Option<Protocol>, i: Interface)
    requires WritableInterface(i)
    ensures Run(readSince, ParserState([TProtocol(p)], out), InterfaceEvents(i)) ==
            Ok(ParserState([TProtocol(p.(interfaces := p.interfaces + [SeenInterface(readSince, i)]))], out))
  {
    var attrs := InterfaceOpened(readSince, i);
    InterfaceBodyInProtocol(readSince, p, out, i);
    InterfaceShape(readSince, p, i, attrs);
    TopElementRun(readSince, TProtocol(p), out, InterfaceTag, attrs, TInterface(Interface(i.name, i.version, [], [], [])),
                  InterfaceBody(i), TInterface(SeenInterface(readSince, i)));
  }

  lemma InterfaceShape(readSince: bool, p: Protocol, i: Interface, attrs: seq<Attribute>)
    requires attrs == [Attribute("name", i.name), Attribute("version", Decimal(i.version))]
    ensures InterfaceEvents(i) == [Start(TagName(InterfaceTag), attrs)] + InterfaceBody(i) + [End(TagName(InterfaceTag))]
    ensures Kind(TInterface(SeenInterface(readSince, i))) == InterfaceTag && Accepts(ProtocolTag, InterfaceTag)
    ensures Adopt(TProtocol(p), TInterface(SeenInterface(readSince, i))) ==
            Ok(TProtocol(p.(interfaces := p.interfaces + [SeenInterface(readSince, i)])))
  {
  }

  lemma {:induction false} InterfacesReadBack(readSince: bool, p: Protocol, out: Option<Protocol>,
                                               ifaces: seq<Interface>)
    requires forall k :: 0 <= k < |ifaces| ==> WritableInterface(ifaces[k])
    ensures Run(readSince, ParserState([TProtocol(p)], out), InterfacesEvents(ifaces)) ==
            Ok(ParserState([TProtocol(p.(interfaces := p.interfaces + SeenInterfaces(readSince, ifaces)))], out))
    decreases |ifaces|
  {
    if ifaces == [] {
      assert p.interfaces + [] == p.interfaces;
      assert p.(interfaces := p.interfaces) == p;
    } else {
      var init, last := ifaces[..|ifaces| - 1], ifaces[|ifaces| - 1];
      var mid := p.(interfaces := p.interfaces + SeenInterfaces(readSince, init));
      InterfacesReadBack(readSince, p, out, init);
      InterfaceReadBack(readSince, mid, out, last);
      InterfacesSnoc(readSince, p, ifaces);
      RunChain(readSince, ParserState([TProtocol(p)], out), ParserState([TProtocol(mid)], out),
               ParserState([TProtocol(mid.(interfaces := mid.interfaces + [SeenInterface(readSince, last)]))], out),
               InterfacesEvents(init), InterfaceEvents(last));
    }
  }

  lemma InterfacesSnoc(readSince: bool, p: Protocol, ifaces: seq<Interface>)
    requires ifaces != []
    ensures var mid := p.(interfaces := p.interfaces + SeenInterfaces(readSince, ifaces[..|ifaces| - 1]));
      mid.(interfaces := mid.interfaces + [SeenInterface(readSince, ifaces[|ifaces| - 1])]) ==
      p.(interfaces := p.interfaces + SeenInterfaces(readSince, ifaces))
  {
    var init, last := ifaces[..|ifaces| - 1], ifaces[|ifaces| - 1];
    assert p.interfaces + SeenInterfaces(readSince, init) + [SeenInterface(readSince, last)] ==
           p.interfaces + SeenInterfaces(readSince, ifaces);
  }

  /** Everything of a protocol element but its end tag: from an empty stack
      it leaves the whole protocol on the stack, whatever the output holds. */
  lemma ProtocolOpened(readSince: bool, out: Option<Protocol>, p: Protocol)
    requires WritableProtocol(p)
    ensures |ProtocolEvents(p)| >= 1
    ensures ProtocolEvents(p) == ProtocolEvents(p)[..|ProtocolEvents(p)| - 1] + [End("protocol")]
    ensures Run(readSince, ParserState([], out), ProtocolEvents(p)[..|ProtocolEvents(p)| - 1]) ==
            Ok(ParserState([TProtocol(SeenProtocol(readSince, p))], out))
  {
    var attrs := [Attribute("name", p.name)];
    AttrMapStep(map[], attrs[0], []);
    assert attrs == [attrs[0]] + [];
    assert AttrMapOf(attrs) == Ok(map["name" := p.name]);
    var empty := Protocol(p.name, []);
    assert OpenTarget(readSince, ProtocolTag, map["name" := p.name]) == Ok(TProtocol(empty));
    var s0 := ParserState([], out);
    var s1 := ParserState([TProtocol(empty)], out);
    assert [] + [TProtocol(empty)] == [TProtocol(empty)];
    assert StartStep(readSince, s0, TagName(ProtocolTag), attrs) == Ok(s1);
    var evs := ProtocolEvents(p);
    var body := InterfacesEvents(p.interfaces);
    assert evs[..|evs| - 1] == [Start("protocol", attrs)] + body;
    assert evs == evs[..|evs| - 1] + [End("protocol")];
    RunCons(readSince, s0, Start("protocol", attrs), body);
    InterfacesReadBack(readSince, empty, out, p.interfaces);
    assert empty.(interfaces := [] + SeenInterfaces(readSince, p.interfaces)) == SeenProtocol(readSince, p);
  }

  /** Closing the only protocol element moves it to the output. */
  lemma ProtocolClosed(readSince: bool, out: Option<Protocol>, p: Protocol)
    requires WritableProtocol(p)
    ensures Run(readSince, ParserState([], out), ProtocolEvents(p)) ==
            if out.Some? then Err(MultipleProtocols)
            else Ok(ParserState([], Some(SeenProtocol(readSince, p))))
  {
    var evs := ProtocolEvents(p);
    var seen := SeenProtocol(readSince, p);
    ProtocolOpened(readSince, out, p);
    RunAppend(readSince, ParserState([], out), evs[..|evs| - 1], [End("protocol")]);
    RunCons(readSince, ParserState([TProtocol(seen)], out), End("protocol"), []);
    assert [End("protocol")] + [] == [End("protocol")];
    var top := ParserState([TProtocol(seen)], out);
    assert top.targets[..0] == [];
    assert EndStep(top, "protocol") == CloseTarget(ProtocolTag, top);
  }

  /** Reading a written protocol gives it back; the older parser gives it
      with every `since` dropped. */
  lemma ProtocolReadBack(readSince: bool, p: Protocol)
    requires WritableProtocol(p)
    ensures ParseEvents(readSince, ProtocolEvents(p)) == Ok(SeenProtocol(readSince, p))
    ensures readSince ==> ParseEvents(readSince, ProtocolEvents(p)) == Ok(p)
  {
    ProtocolClosed(readSince, None, p);
    if readSince {
      SeenInterfacesIdentity(p.interfaces);
    }
  }

  /** A protocol nested in a protocol, the one way a well-formed document
      reaches `fin_protocol` twice: the inner one closes first and becomes
      the output, then closing the outer one fails. */
  lemma NestedProtocolRejected(readSince: bool, outer: string, inner: string)
    ensures Run(readSince, Initial, [Start("protocol", [Attribute("name", outer)]),
                                     Start("protocol", [Attribute("name", inner)]), End("protocol")])
            == Ok(ParserState([TProtocol(Protocol(outer, []))], Some(Protocol(inner, []))))
    ensures ParseEvents(readSince, [Start("protocol", [Attribute("name", outer)]),
                                    Start("protocol", [Attribute("name", inner)]),
                                    End("protocol"), End("protocol")]) == Err(MultipleProtocols)
  {
    var a1, a2 := [Attribute("name", outer)], [Attribute("name", inner)];
    AttrMapStep(map[], a1[0], []);
    AttrMapStep(map[], a2[0], []);
    assert a1 == [a1[0]] + [] && a2 == [a2[0]] + [];
    var e1, e2, e3 := Start("protocol", a1), Start("protocol", a2), End("protocol");
    var s1 := ParserState([TProtocol(Protocol(outer, []))], None);
    var s2 := ParserState([TProtocol(Protocol(outer, [])), TProtocol(Protocol(inner, []))], None);
    var s3 := ParserState([TProtocol(Protocol(outer, []))], Some(Protocol(inner, [])));
    assert OpenTarget(readSince, ProtocolTag, map["name" := outer]) == Ok(TProtocol(Protocol(outer, [])));
    assert OpenTarget(readSince, ProtocolTag, map["name" := inner]) == Ok(TProtocol(Protocol(inner, [])));
    assert AttrMapOf(a1) == Ok(map["name" := outer]) && AttrMapOf(a2) == Ok(map["name" := inner]);
    assert [] + s1.targets == s1.targets && s1.targets + [TProtocol(Protocol(inner, []))] == s2.targets;
    assert StartStep(readSince, Initial, TagName(ProtocolTag), a1) == Ok(s1);
    assert StartStep(readSince, s1, TagName(ProtocolTag), a2) == Ok(s2);
    assert s2.targets[..1] == s1.targets;
    assert Step(readSince, s2, e3) == Ok(s3);
    assert Step(readSince, s3, e3) == Err(MultipleProtocols);
    RunCons(readSince, s3, e3, []);
    RunCons(readSince, s2, e3, []);
    RunCons(readSince, s2, e3, [e3]);
    RunCons(readSince, s1, e2, [e3]);
    RunCons(readSince, s1, e2, [e3, e3]);
    RunCons(readSince, Initial, e1, [e2, e3]);
    RunCons(readSince, Initial, e1, [e2, e3, e3]);
    assert [e1, e2, e3] == [e1] + [e2, e3] && [e2, e3] == [e2] + [e3] && [e3] == [e3] + [];
    assert [e1, e2, e3, e3] == [e1] + [e2, e3, e3] && [e2, e3, e3] == [e2] + [e3, e3] && [e3, e3] == [e3] + [e3];
  }

  /** Two protocols one after the other fail when the second one closes.
      Expat refuses a second root element before the parser sees it, so
      this is the parser's own rule rather than a reachable document. */
  lemma SecondProtocolRejected(readSince: bool, p: Protocol, q: Protocol)
    requires WritableProtocol(p) && WritableProtocol(q)
    ensures ParseEvents(readSince, ProtocolEvents(p) + ProtocolEvents(q)) == Err(MultipleProtocols)
  {
    var sp := SeenProtocol(readSince, p);
    ProtocolClosed(readSince, None, p);
    RunAppend(readSince, Initial, ProtocolEvents(p), ProtocolEvents(q));
    ProtocolClosed(readSince, Some(sp), q);
  }
}

/** The run-time type information the header generator emits for libwayland
    (HeaderGena.cc, namespace `rtti` and `Generator`): per message its wire
    signature, whether every argument is primitive, and the interface each
    argument's type slot points to; one shared `types[]` table that starts
    with a run of null slots long enough for every primitive-only message,
    followed by one slot per argument of every other message; and per message
    the offset into that table its descriptor points at. */
module Rtti {
  import opened Wrappers
  import opened Text
  import opened Types
  import opened Namespaces
  import opened WireSignature

  /* ------------------------------------------------- rtti::Message */

  /** `ArgsTypesVisitor`: the interface an argument's type slot names. Only
      objects, nullable objects and new ids that name an interface have one. */
  function RttiType(t: ArgType): Option<string>
  {
    match t
    case Object(owner) => owner
    case NullObject(owner) => owner
    case NewId(owner) => owner
    case _ => None
  }

  predicate OnlyPrimitives(args: seq<Arg>)
  {
    forall i :: 0 <= i < |args| ==> RttiType(args[i].ty).None?
  }

  datatype RttiArg = RttiArg(name: string, rttiType: Option<string>)

  datatype RttiMessage = RttiMessage(name: string, onlyPrimitives: bool, args: seq<RttiArg>, signature: string)

  function RttiArgs(args: seq<Arg>): seq<RttiArg>
  {
    seq(|args|, i requires 0 <= i < |args| => RttiArg(args[i].name, RttiType(args[i].ty)))
  }

  function RttiMessageOf(m: Message): RttiMessage
  {
    RttiMessage(m.name, OnlyPrimitives(m.args), RttiArgs(m.args), Signature(m))
  }

  /** The `rtti::Message` constructor: one loop writes the signature, one
      collects the type slots and clears `only_primitives` on the first
      argument that names an interface. */
  method MakeRttiMessage(m: Message) returns (r: RttiMessage)
    ensures r == RttiMessageOf(m)
    ensures !r.onlyPrimitives <==>
      exists i :: 0 <= i < |m.args| && (m.args[i].ty.Object? || m.args[i].ty.NullObject? || m.args[i].ty.NewId?) &&
        m.args[i].ty.owner.Some?
    ensures |r.args| == |m.args|
    ensures forall i :: 0 <= i < |m.args| ==> r.args[i].name == m.args[i].name
    ensures ReadSignature(r.signature) == Ok((EffectiveSince(m), WireOfArgs(m.args)))
  {
    var sig := WriteSignature(m);
    var only, rargs := CollectTypes(m.args);
    SignatureReadBack(m);
    return RttiMessage(m.name, only, rargs, sig);
  }

  /** The signature loop of the `rtti::Message` constructor. */
  method WriteSignature(m: Message) returns (sig: string)
    ensures sig == Signature(m)
  {
    sig := SincePrefix(m);
    var i := 0;
    while i < |m.args|
      invariant 0 <= i <= |m.args|
      invariant sig == SincePrefix(m) + Codes(m.args[..i], false)
    {
      assert m.args[..i + 1] == m.args[..i] + [m.args[i]];
      CodesAppend(m.args[..i], m.args[i], false);
      sig := sig + ArgCode(m.args[i].ty, false);
      i := i + 1;
    }
    assert m.args[..i] == m.args;
  }

  /** The type-slot loop of the `rtti::Message` constructor. */
  method CollectTypes(args: seq<Arg>) returns (only: bool, rargs: seq<RttiArg>)
    ensures only == OnlyPrimitives(args)
    ensures rargs == RttiArgs(args)
  {
    only := true;
    rargs := [];
    var i := 0;
    while i < |args|
      invariant 0 <= i <= |args|
      invariant only <==> forall j :: 0 <= j < i ==> RttiType(args[j].ty).None?
      invariant rargs == RttiArgs(args[..i])
    {
      var t := RttiType(args[i].ty);
      if t.Some? {
        only := false;
      }
      rargs := rargs + [RttiArg(args[i].name, t)];
      i := i + 1;
    }
    assert args[..i] == args;
  }

  /* ------------------------------------------------- null run */

  /** The requests or the events of an interface. */
  function Messages(iface: Interface, fromRequest: bool): seq<Message>
  {
    if fromRequest then iface.requests else iface.events
  }

  function Max(a: nat, b: nat): nat { if a < b then b else a }

  /** `get_max_null_run`: the largest argument count among primitive-only
      messages, 0 when there is none. */
  function MaxPrimitiveArgs(msgs: seq<Message>): (n: nat)
    ensures forall i :: 0 <= i < |msgs| && OnlyPrimitives(msgs[i].args) ==> |msgs[i].args| <= n
    ensures n == 0 || exists i :: 0 <= i < |msgs| && OnlyPrimitives(msgs[i].args) && |msgs[i].args| == n
  {
    if msgs == [] then 0
    else
      var init := msgs[..|msgs| - 1];
      var rest := MaxPrimitiveArgs(init);
      var last := msgs[|msgs| - 1];
      assert forall i :: 0 <= i < |init| ==> init[i] == msgs[i];
      if OnlyPrimitives(last.args) then Max(rest, |last.args|) else rest
  }

  /** `null_run_length`: the largest argument count of a primitive-only
      request or event of any interface, 0 when there is none. */
  function NullRun(ifaces: seq<Interface>): (n: nat)
    ensures forall i, k, j ::
      (0 <= i < |ifaces| && 0 <= j < |Messages(ifaces[i], k)| && OnlyPrimitives(Messages(ifaces[i], k)[j].args)) ==>
      |Messages(ifaces[i], k)[j].args| <= n
    ensures n == 0 || exists i, k, j ::
      (0 <= i < |ifaces| && 0 <= j < |Messages(ifaces[i], k)| &&
       OnlyPrimitives(Messages(ifaces[i], k)[j].args) && |Messages(ifaces[i], k)[j].args| == n)
  {
    if ifaces == [] then 0
    else
      var init := ifaces[..|ifaces| - 1];
      var rest := NullRun(init);
      var last := ifaces[|ifaces| - 1];
      assert forall i :: 0 <= i < |init| ==> init[i] == ifaces[i];
      assert last.events == Messages(ifaces[|ifaces| - 1], false);
      assert last.requests == Messages(ifaces[|ifaces| - 1], true);
      Max(Max(rest, MaxPrimitiveArgs(last.events)), MaxPrimitiveArgs(last.requests))
  }

  method MaxNullRunOf(msgs: seq<Message>) returns (n: nat)
    ensures n == MaxPrimitiveArgs(msgs)
  {
    n := 0;
    for i := 0 to |msgs|
      invariant n == MaxPrimitiveArgs(msgs[..i])
    {
      assert msgs[..i + 1][..i] == msgs[..i];
      if OnlyPrimitives(msgs[i].args) {
        n := Max(n, |msgs[i].args|);
      }
    }
    assert msgs[..|msgs|] == msgs;
  }

  /** The first loop of the `TypeArrayInfo` constructor. */
  method NullRunLength(ifaces: seq<Interface>) returns (n: nat)
    ensures n == NullRun(ifaces)
  {
    n := 0;
    for i := 0 to |ifaces|
      invariant n == NullRun(ifaces[..i])
    {
      var e := MaxNullRunOf(ifaces[i].events);
      var r := MaxNullRunOf(ifaces[i].requests);
      NullRunSnoc(ifaces, i);
      n := Max(Max(n, e), r);
    }
    assert ifaces[..|ifaces|] == ifaces;
  }

  lemma NullRunSnoc(ifaces: seq<Interface>, i: nat)
    requires i < |ifaces|
    ensures NullRun(ifaces[..i + 1]) ==
      Max(Max(NullRun(ifaces[..i]), MaxPrimitiveArgs(ifaces[i].events)), MaxPrimitiveArgs(ifaces[i].requests))
  {
    assert ifaces[..i + 1][..i] == ifaces[..i];
  }

  /* ------------------------------------------------- the type array */

  /** One slot of the type array. `fromRequest` records which list the
      message came from; the generator's own entry does not keep it. */
  datatype TypeSlot = TypeSlot(
    index: Option<nat>,
    rttiType: Option<string>,
    iface: string,
    fromRequest: bool,
    message: string,
    arg: string)

  /** The slots of one message: none for a primitive-only message, one per
      argument otherwise. */
  function MessageEntries(iface: string, fromRequest: bool, m: Message): seq<TypeSlot>
  {
    if OnlyPrimitives(m.args) then []
    else
      seq(|m.args|, j requires 0 <= j < |m.args| =>
        TypeSlot(None, RttiType(m.args[j].ty), iface, fromRequest, m.name, m.args[j].name))
  }

  /** Slot lists joined in order. */
  function Flatten<T>(xs: seq<seq<T>>): seq<T>
  {
    if xs == [] then [] else Flatten(xs[..|xs| - 1]) + xs[|xs| - 1]
  }

  function MessageChunks(iface: string, fromRequest: bool, msgs: seq<Message>): seq<seq<TypeSlot>>
  {
    seq(|msgs|, i requires 0 <= i < |msgs| => MessageEntries(iface, fromRequest, msgs[i]))
  }

  /** `generate_entries`: the slots of each message in turn. */
  function MessagesEntries(iface: string, fromRequest: bool, msgs: seq<Message>): seq<TypeSlot>
  {
    Flatten(MessageChunks(iface, fromRequest, msgs))
  }

  function InterfaceEntries(iface: Interface): seq<TypeSlot>
  {
    MessagesEntries(iface.name, true, iface.requests) + MessagesEntries(iface.name, false, iface.events)
  }

  function InterfaceChunks(ifaces: seq<Interface>): seq<seq<TypeSlot>>
  {
    seq(|ifaces|, i requires 0 <= i < |ifaces| => InterfaceEntries(ifaces[i]))
  }

  /** The array before indexing: per interface in order, its request slots
      then its event slots. */
  function AllEntries(ifaces: seq<Interface>): seq<TypeSlot>
  {
    Flatten(InterfaceChunks(ifaces))
  }

  function Numbered(es: seq<TypeSlot>): seq<TypeSlot>
  {
    seq(|es|, i requires 0 <= i < |es| => es[i].(index := Some(i)))
  }

  /** The first interface a slot names that no protocol defines. */
  function FirstUnresolved(info: NamespaceInfo, es: seq<TypeSlot>): (r: Option<string>)
    ensures r.None? <==> forall i :: 0 <= i < |es| && es[i].rttiType.Some? ==> es[i].rttiType.value in info.protocolOf
    ensures r.Some? ==>
      (r.value !in info.protocolOf && exists i :: 0 <= i < |es| && es[i].rttiType == r)
  {
    if es == [] then None
    else if es[0].rttiType.Some? && es[0].rttiType.value !in info.protocolOf then es[0].rttiType
    else
      var r := FirstUnresolved(info, es[1..]);
      assert forall i :: 0 < i < |es| ==> es[i] == es[1..][i - 1];
      r
  }

  datatype TypeArrayInfo = TypeArrayInfo(nullRun: nat, entries: seq<TypeSlot>)

  /** The `TypeArrayInfo` constructor: the null run, and the indexed slots;
      it fails when a slot names an interface whose namespace cannot be
      resolved. */
  function TypeArrayInfoOf(ifaces: seq<Interface>, info: NamespaceInfo): Result<TypeArrayInfo, NsError>
  {
    var es := AllEntries(ifaces);
    var bad := FirstUnresolved(info, es);
    if bad.Some? then Err(CannotResolve(bad.value))
    else Ok(TypeArrayInfo(NullRun(ifaces), Numbered(es)))
  }

  /** The constructor's loops: the null run, the slots of every interface,
      the namespace of every slot, then the index of every slot. */
  method BuildTypeArrayInfo(ifaces: seq<Interface>, info: NamespaceInfo) returns (r: Result<TypeArrayInfo, NsError>)
    ensures r == TypeArrayInfoOf(ifaces, info)
    ensures r.Ok? ==> forall i :: 0 <= i < |r.value.entries| ==> r.value.entries[i].index == Some(i)
  {
    var nullRun := NullRunLength(ifaces);
    var o := CollectEntries(ifaces);
    var bad := CheckResolved(info, o);
    if bad.Some? {
      return Err(CannotResolve(bad.value));
    }
    var entries := NumberEntries(o);
    return Ok(TypeArrayInfo(nullRun, entries));
  }

  /** The loop over the interfaces: request slots, then event slots. */
  method CollectEntries(ifaces: seq<Interface>) returns (o: seq<TypeSlot>)
    ensures o == AllEntries(ifaces)
  {
    o := [];
    for i := 0 to |ifaces|
      invariant o == AllEntries(ifaces[..i])
    {
      AllEntriesSnoc(ifaces, i);
      var reqs := GenerateEntries(ifaces[i].name, true, ifaces[i].requests);
      var evs := GenerateEntries(ifaces[i].name, false, ifaces[i].events);
      o := o + (reqs + evs);
    }
    assert ifaces[..|ifaces|] == ifaces;
  }

  /** `get_namespace` for every slot that names an interface, in order. */
  method CheckResolved(info: NamespaceInfo, o: seq<TypeSlot>) returns (bad: Option<string>)
    ensures bad == FirstUnresolved(info, o)
  {
    var j := 0;
    while j < |o|
      invariant 0 <= j <= |o|
      invariant FirstUnresolved(info, o[j..]) == FirstUnresolved(info, o)
    {
      assert o[j..][1..] == o[j + 1..];
      if o[j].rttiType.Some? && o[j].rttiType.value !in info.protocolOf {
        return o[j].rttiType;
      }
      j := j + 1;
    }
    return None;
  }

  /** The loop that gives every slot its position as index. The generator
      throws on a slot that already has one; no slot has (`AllEntriesKeys`). */
  method NumberEntries(o: seq<TypeSlot>) returns (entries: seq<TypeSlot>)
    ensures entries == Numbered(o)
  {
    entries := o;
    for e := 0 to |entries|
      invariant |entries| == |o|
      invariant forall i :: 0 <= i < e ==> entries[i] == o[i].(index := Some(i))
      invariant forall i :: e <= i < |o| ==> entries[i] == o[i]
    {
      entries := entries[e := entries[e].(index := Some(e))];
    }
  }

  /** `generate_entries`: the loop over the messages and their arguments. */
  method GenerateEntries(iface: string, fromRequest: bool, msgs: seq<Message>) returns (o: seq<TypeSlot>)
    ensures o == MessagesEntries(iface, fromRequest, msgs)
  {
    o := [];
    for i := 0 to |msgs|
      invariant o == MessagesEntries(iface, fromRequest, msgs[..i])
    {
      MessagesEntriesSnoc(iface, fromRequest, msgs, i);
      var m := msgs[i];
      if !OnlyPrimitives(m.args) {
        var k := 0;
        var added: seq<TypeSlot> := [];
        while k < |m.args|
          invariant 0 <= k <= |m.args|
          invariant |added| == k
          invariant forall j :: 0 <= j < k ==> added[j] == MessageEntries(iface, fromRequest, m)[j]
        {
          added := added + [TypeSlot(None, RttiType(m.args[k].ty), iface, fromRequest, m.name, m.args[k].name)];
          k := k + 1;
        }
        o := o + added;
      }
    }
    assert msgs[..|msgs|] == msgs;
  }

  /* ------------------------------------------------- the emitted table */

  datatype TypeRow = TypeRow(index: nat, rttiType: Option<string>)

  /** `types[]` as `emit_rtti_interface_struct_types_member` lays it out:
      the null-run stubs, then every slot at its index shifted by the run. */
  function TypesTable(t: TypeArrayInfo): seq<TypeRow>
    requires forall i :: 0 <= i < |t.entries| ==> t.entries[i].index.Some?
  {
    seq(t.nullRun, k requires 0 <= k => TypeRow(k, None)) +
    seq(|t.entries|, i requires 0 <= i < |t.entries| => TypeRow(t.entries[i].index.value + t.nullRun, t.entries[i].rttiType))
  }

  /** Each row of the emitted table carries its own position as index. */
  lemma TableIndexes(ifaces: seq<Interface>, info: NamespaceInfo)
    requires TypeArrayInfoOf(ifaces, info).Ok?
    ensures var t := TypeArrayInfoOf(ifaces, info).value;
      var rows := TypesTable(t);
      |rows| == t.nullRun + |AllEntries(ifaces)| &&
      forall k :: 0 <= k < |rows| ==> rows[k].index == k
  {
  }

  /** The emitting loops: the stubs, then one row per slot. */
  method EmitTypesTable(t: TypeArrayInfo) returns (rows: seq<TypeRow>)
    requires forall i :: 0 <= i < |t.entries| ==> t.entries[i].index.Some?
    ensures rows == TypesTable(t)
  {
    rows := [];
    var offset := 0;
    while offset < t.nullRun
      invariant 0 <= offset <= t.nullRun
      invariant rows == seq(offset, k requires 0 <= k => TypeRow(k, None))
    {
      rows := rows + [TypeRow(offset, None)];
      offset := offset + 1;
    }
    for i := 0 to |t.entries|
      invariant |rows| == t.nullRun + i
      invariant rows[..t.nullRun] == seq(t.nullRun, k requires 0 <= k => TypeRow(k, None))
      invariant forall j :: 0 <= j < i ==> rows[t.nullRun + j] == TypeRow(t.entries[j].index.value + t.nullRun, t.entries[j].rttiType)
    {
      rows := rows + [TypeRow(t.entries[i].index.value + t.nullRun, t.entries[i].rttiType)];
    }
  }

  /* ------------------------------------------------- find_index and offsets */

  /** The lookup key of a message: its interface, its name and, when given,
      whether it is a request; `find_index` as written gives no kind. */
  predicate Matches(e: TypeSlot, iface: string, kind: Option<bool>, message: string)
  {
    e.iface == iface && e.message == message && (kind.None? || e.fromRequest == kind.value)
  }

  /** The position of the first slot matching the key. */
  function FirstMatch(es: seq<TypeSlot>, iface: string, kind: Option<bool>, message: string): (r: Option<nat>)
    ensures r.Some? ==>
      (r.value < |es| && Matches(es[r.value], iface, kind, message) &&
       forall k :: 0 <= k < r.value ==> !Matches(es[k], iface, kind, message))
    ensures r.None? ==> forall k :: 0 <= k < |es| ==> !Matches(es[k], iface, kind, message)
  {
    if es == [] then None
    else if Matches(es[0], iface, kind, message) then Some(0)
    else
      var r := FirstMatch(es[1..], iface, kind, message);
      assert forall k :: 0 < k < |es| ==> es[k] == es[1..][k - 1];
      if r.None? then None else Some(r.value + 1)
  }

  datatype LookupError = NoEntry(iface: string, message: string) | NoIndex(iface: string, message: string)

  /** `find_index`: the index of the first slot of a message, "Cannot find
      index" when no slot matches. */
  function FindIndex(t: TypeArrayInfo, iface: string, kind: Option<bool>, message: string): Result<nat, LookupError>
  {
    var k := FirstMatch(t.entries, iface, kind, message);
    if k.None? then Err(NoEntry(iface, message))
    else if t.entries[k.value].index.None? then Err(NoIndex(iface, message))
    else Ok(t.entries[k.value].index.value)
  }

  /** The offset of a message descriptor into `types[]` as HeaderGena.cc
      computes it: 0 for a primitive-only message, otherwise the first slot
      of the same interface and message name, whatever its kind. */
  function OffsetAsWritten(t: TypeArrayInfo, iface: string, fromRequest: bool, m: Message): Result<nat, LookupError>
  {
    if OnlyPrimitives(m.args) then Ok(0)
    else
      var k :- FindIndex(t, iface, None, m.name);
      Ok(k + t.nullRun)
  }

  /** The offset the model uses: the slot lookup also matches the kind, so
      a request and an event of the same name find their own slots. */
  function Offset(t: TypeArrayInfo, iface: string, fromRequest: bool, m: Message): Result<nat, LookupError>
  {
    if OnlyPrimitives(m.args) then Ok(0)
    else
      var k :- FindIndex(t, iface, Some(fromRequest), m.name);
      Ok(k + t.nullRun)
  }

  /* ------------------------------------------------- layout lemmas */

  lemma {:induction false} FlattenAppend<T>(a: seq<seq<T>>, b: seq<seq<T>>)
    ensures Flatten(a + b) == Flatten(a) + Flatten(b)
    decreases |b|
  {
    if b == [] {
      assert a + b == a;
    } else {
      var b', last := b[..|b| - 1], b[|b| - 1];
      var ab := a + b;
      assert ab[..|ab| - 1] == a + b' && ab[|ab| - 1] == last;
      FlattenAppend(a, b');
    }
  }

  lemma FlattenSplit<T>(xs: seq<seq<T>>, i: nat)
    requires i < |xs|
    ensures Flatten(xs) == Flatten(xs[..i]) + xs[i] + Flatten(xs[i + 1..])
  {
    var pre, one, post := xs[..i], [xs[i]], xs[i + 1..];
    SplitAt(xs, i);
    FlattenAppend(pre + one, post);
    FlattenAppend(pre, one);
    FlattenOne(xs[i]);
  }

  lemma SplitAt<T>(xs: seq<T>, i: nat)
    requires i < |xs|
    ensures xs == (xs[..i] + [xs[i]]) + xs[i + 1..]
  {
  }

  lemma FlattenOne<T>(x: seq<T>)
    ensures Flatten([x]) == x
  {
    assert [x][..0] == [];
    assert [] + x == x;
  }

  lemma {:induction false} FlattenMember<T>(xs: seq<seq<T>>)
    ensures forall e :: e in Flatten(xs) ==> exists i :: 0 <= i < |xs| && e in xs[i]
  {
    if xs != [] {
      var init := xs[..|xs| - 1];
      FlattenMember(init);
      forall e | e in Flatten(xs) ensures exists i :: 0 <= i < |xs| && e in xs[i] {
        if e in Flatten(init) {
          var i :| 0 <= i < |init| && e in init[i];
          assert xs[i] == init[i];
        } else {
          assert e in xs[|xs| - 1];
        }
      }
    }
  }

  lemma MessagesEntriesSnoc(iface: string, fromRequest: bool, msgs: seq<Message>, i: nat)
    requires i < |msgs|
    ensures MessagesEntries(iface, fromRequest, msgs[..i + 1]) ==
      MessagesEntries(iface, fromRequest, msgs[..i]) + MessageEntries(iface, fromRequest, msgs[i])
  {
    var xs := MessageChunks(iface, fromRequest, msgs[..i + 1]);
    assert xs[..i] == MessageChunks(iface, fromRequest, msgs[..i]);
  }

  lemma AllEntriesSnoc(ifaces: seq<Interface>, i: nat)
    requires i < |ifaces|
    ensures AllEntries(ifaces[..i + 1]) == AllEntries(ifaces[..i]) + InterfaceEntries(ifaces[i])
  {
    var xs := InterfaceChunks(ifaces[..i + 1]);
    assert xs[..i] == InterfaceChunks(ifaces[..i]);
  }

  /** Every slot of a message list is unindexed and carries the interface,
      the kind and the name of one of those messages. */
  lemma MessagesEntriesKeys(iface: string, fromRequest: bool, msgs: seq<Message>)
    ensures forall e :: e in MessagesEntries(iface, fromRequest, msgs) ==>
      e.index.None? && e.iface == iface && e.fromRequest == fromRequest &&
      exists i :: 0 <= i < |msgs| && msgs[i].name == e.message
  {
    var xs := MessageChunks(iface, fromRequest, msgs);
    FlattenMember(xs);
    forall e | e in MessagesEntries(iface, fromRequest, msgs)
      ensures e.index.None? && e.iface == iface && e.fromRequest == fromRequest &&
        exists i :: 0 <= i < |msgs| && msgs[i].name == e.message
    {
      var i :| 0 <= i < |xs| && e in xs[i];
      var j :| 0 <= j < |xs[i]| && xs[i][j] == e;
      assert msgs[i].name == e.message;
    }
  }

  lemma InterfaceEntriesKeys(iface: Interface)
    ensures forall e :: e in InterfaceEntries(iface) ==> e.index.None? && e.iface == iface.name
  {
    MessagesEntriesKeys(iface.name, true, iface.requests);
    MessagesEntriesKeys(iface.name, false, iface.events);
  }

  /** Every slot of an interface list is unindexed and carries the name of
      one of them. */
  lemma AllEntriesKeys(ifaces: seq<Interface>)
    ensures forall e :: e in AllEntries(ifaces) ==>
      e.index.None? && exists i :: 0 <= i < |ifaces| && ifaces[i].name == e.iface
  {
    var xs := InterfaceChunks(ifaces);
    FlattenMember(xs);
    forall e | e in AllEntries(ifaces) ensures e.index.None? && exists i :: 0 <= i < |ifaces| && ifaces[i].name == e.iface {
      var i :| 0 <= i < |xs| && e in xs[i];
      InterfaceEntriesKeys(ifaces[i]);
    }
  }

  predicate NamesUnique(msgs: seq<Message>)
  {
    forall i, j :: 0 <= i < j < |msgs| ==> msgs[i].name != msgs[j].name
  }

  /** Interface names are unique (the namespace map refuses a repeated
      one), and request names and event names within an interface are
      assumed unique: nothing checks them, and with a repeated name every
      lookup finds the first message of that name. */
  predicate WellNamed(ifaces: seq<Interface>)
  {
    (forall i, j :: 0 <= i < j < |ifaces| ==> ifaces[i].name != ifaces[j].name) &&
    (forall i :: 0 <= i < |ifaces| ==> NamesUnique(ifaces[i].requests) && NamesUnique(ifaces[i].events))
  }

  /** No request of an interface shares its name with an event of it. */
  predicate KindsDisjoint(ifaces: seq<Interface>)
  {
    forall i, a, b :: 0 <= i < |ifaces| && 0 <= a < |ifaces[i].requests| && 0 <= b < |ifaces[i].events| ==>
      ifaces[i].requests[a].name != ifaces[i].events[b].name
  }
  lemma InterfaceSplit(ifaces: seq<Interface>, ii: nat)
    requires ii < |ifaces|
    ensures AllEntries(ifaces) ==
      AllEntries(ifaces[..ii]) + InterfaceEntries(ifaces[ii]) + AllEntries(ifaces[ii + 1..])
  {
    FlattenSplit(InterfaceChunks(ifaces), ii);
    InterfaceChunksParts(ifaces, ii);
  }

  lemma InterfaceChunksParts(ifaces: seq<Interface>, ii: nat)
    requires ii < |ifaces|
    ensures InterfaceChunks(ifaces)[..ii] == InterfaceChunks(ifaces[..ii])
    ensures InterfaceChunks(ifaces)[ii + 1..] == InterfaceChunks(ifaces[ii + 1..])
  {
    var xs := InterfaceChunks(ifaces);
    assert xs[..ii] == InterfaceChunks(ifaces[..ii]);
    assert xs[ii + 1..] == InterfaceChunks(ifaces[ii + 1..]);
  }

  lemma MessageSplit(iface: string, fromRequest: bool, msgs: seq<Message>, mi: nat)
    requires mi < |msgs|
    ensures MessagesEntries(iface, fromRequest, msgs) ==
      MessagesEntries(iface, fromRequest, msgs[..mi]) + MessageEntries(iface, fromRequest, msgs[mi]) +
      MessagesEntries(iface, fromRequest, msgs[mi + 1..])
  {
    FlattenSplit(MessageChunks(iface, fromRequest, msgs), mi);
    MessageChunksParts(iface, fromRequest, msgs, mi);
  }

  lemma MessageChunksParts(iface: string, fromRequest: bool, msgs: seq<Message>, mi: nat)
    requires mi < |msgs|
    ensures MessageChunks(iface, fromRequest, msgs)[..mi] == MessageChunks(iface, fromRequest, msgs[..mi])
    ensures MessageChunks(iface, fromRequest, msgs)[mi + 1..] == MessageChunks(iface, fromRequest, msgs[mi + 1..])
  {
    var xs := MessageChunks(iface, fromRequest, msgs);
    assert xs[..mi] == MessageChunks(iface, fromRequest, msgs[..mi]);
    assert xs[mi + 1..] == MessageChunks(iface, fromRequest, msgs[mi + 1..]);
  }

  lemma EarlierInterfacesDiffer(ifaces: seq<Interface>, ii: nat)
    requires WellNamed(ifaces) && ii < |ifaces|
    ensures forall e :: e in AllEntries(ifaces[..ii]) ==> e.iface != ifaces[ii].name
  {
    AllEntriesKeys(ifaces[..ii]);
    forall e | e in AllEntries(ifaces[..ii]) ensures e.iface != ifaces[ii].name {
      var i :| 0 <= i < |ifaces[..ii]| && ifaces[..ii][i].name == e.iface;
      assert ifaces[..ii][i] == ifaces[i];
    }
  }

  lemma EarlierMessagesDiffer(iface: string, fromRequest: bool, msgs: seq<Message>, mi: nat)
    requires NamesUnique(msgs) && mi < |msgs|
    ensures forall e :: e in MessagesEntries(iface, fromRequest, msgs[..mi]) ==> e.message != msgs[mi].name
  {
    MessagesEntriesKeys(iface, fromRequest, msgs[..mi]);
    forall e | e in MessagesEntries(iface, fromRequest, msgs[..mi]) ensures e.message != msgs[mi].name {
      var i :| 0 <= i < |msgs[..mi]| && msgs[..mi][i].name == e.message;
      assert msgs[..mi][i] == msgs[i];
    }
  }

  /** The slots laid out before those of message `mi` of interface `ii`:
      all earlier interfaces, the requests when the message is an event, and
      the earlier messages of its own list. */
  function SlotsBefore(ifaces: seq<Interface>, ii: nat, fromRequest: bool, mi: nat): seq<TypeSlot>
    requires ii < |ifaces| && mi <= |Messages(ifaces[ii], fromRequest)|
  {
    var iface := ifaces[ii];
    AllEntries(ifaces[..ii]) +
    (if fromRequest then [] else MessagesEntries(iface.name, true, iface.requests)) +
    MessagesEntries(iface.name, fromRequest, Messages(iface, fromRequest)[..mi])
  }

  /** The slots of message `mi` of interface `ii` follow `SlotsBefore`. */
  lemma SlotsOfMessage(ifaces: seq<Interface>, ii: nat, fromRequest: bool, mi: nat) returns (c: seq<TypeSlot>)
    requires ii < |ifaces| && mi < |Messages(ifaces[ii], fromRequest)|
    ensures AllEntries(ifaces) ==
      SlotsBefore(ifaces, ii, fromRequest, mi) +
      MessageEntries(ifaces[ii].name, fromRequest, Messages(ifaces[ii], fromRequest)[mi]) + c
  {
    var iface := ifaces[ii];
    var msgs := Messages(iface, fromRequest);
    InterfaceSplit(ifaces, ii);
    MessageSplit(iface.name, fromRequest, msgs, mi);
    var own := MessageEntries(iface.name, fromRequest, msgs[mi]);
    var pre := MessagesEntries(iface.name, fromRequest, msgs[..mi]);
    var post := MessagesEntries(iface.name, fromRequest, msgs[mi + 1..]);
    var reqs := MessagesEntries(iface.name, true, iface.requests);
    var evs := MessagesEntries(iface.name, false, iface.events);
    var b := AllEntries(ifaces[..ii]);
    var rest := AllEntries(ifaces[ii + 1..]);
    assert InterfaceEntries(iface) == reqs + evs;
    if fromRequest {
      assert reqs == pre + own + post;
      c := post + evs + rest;
      RegroupRequest(b, pre, own, post, evs, rest);
    } else {
      assert evs == pre + own + post;
      c := post + rest;
      RegroupEvent(b, reqs, pre, own, post, rest);
    }
  }

  lemma RegroupRequest(b: seq<TypeSlot>, pre: seq<TypeSlot>, own: seq<TypeSlot>, post: seq<TypeSlot>, evs: seq<TypeSlot>, rest: seq<TypeSlot>)
    ensures b + ((pre + own + post) + evs) + rest == (b + [] + pre) + own + (post + evs + rest)
  {
  }

  lemma RegroupEvent(b: seq<TypeSlot>, reqs: seq<TypeSlot>, pre: seq<TypeSlot>, own: seq<TypeSlot>, post: seq<TypeSlot>, rest: seq<TypeSlot>)
    ensures b + (reqs + (pre + own + post)) + rest == (b + reqs + pre) + own + (post + rest)
  {
  }

  /** No slot before a message's own carries its key; without a kind the key
      also needs request and event names apart. */
  lemma NoMatchBefore(ifaces: seq<Interface>, ii: nat, fromRequest: bool, mi: nat, kind: Option<bool>)
    requires WellNamed(ifaces)
    requires kind == Some(fromRequest) || (kind.None? && KindsDisjoint(ifaces))
    requires ii < |ifaces| && mi < |Messages(ifaces[ii], fromRequest)|
    ensures forall e :: e in SlotsBefore(ifaces, ii, fromRequest, mi) ==>
      !Matches(e, ifaces[ii].name, kind, Messages(ifaces[ii], fromRequest)[mi].name)
  {
    var iface := ifaces[ii];
    var msgs := Messages(iface, fromRequest);
    var m := msgs[mi];
    EarlierInterfacesDiffer(ifaces, ii);
    EarlierMessagesDiffer(iface.name, fromRequest, msgs, mi);
    MessagesEntriesKeys(iface.name, true, iface.requests);
    var b := AllEntries(ifaces[..ii]);
    var reqs := if fromRequest then [] else MessagesEntries(iface.name, true, iface.requests);
    var pre := MessagesEntries(iface.name, fromRequest, msgs[..mi]);
    forall e | e in SlotsBefore(ifaces, ii, fromRequest, mi) ensures !Matches(e, iface.name, kind, m.name) {
      if !fromRequest && e in reqs && kind.None? && e.iface == iface.name && e.message == m.name {
        assert false;
      }
    }
  }

  /** The first match is the position that matches with nothing matching before it. */
  lemma FirstMatchAt(es: seq<TypeSlot>, p: nat, iface: string, kind: Option<bool>, message: string)
    requires p < |es| && Matches(es[p], iface, kind, message)
    requires forall k :: 0 <= k < p ==> !Matches(es[k], iface, kind, message)
    ensures FirstMatch(es, iface, kind, message) == Some(p)
  {
  }

  /** The types-table property a message descriptor relies on: reading as
      many slots as the message has arguments from its offset gives, for
      each argument, the interface its type names (or none). `kind` selects
      the lookup: the model's (`Some`) or, when no request shares a name with
      an event, the one as written (`None`). */
  lemma SlotsFromOffset(ifaces: seq<Interface>, info: NamespaceInfo, ii: nat, fromRequest: bool, mi: nat, kind: Option<bool>)
    requires TypeArrayInfoOf(ifaces, info).Ok?
    requires WellNamed(ifaces)
    requires kind == Some(fromRequest) || (kind.None? && KindsDisjoint(ifaces))
    requires ii < |ifaces| && mi < |Messages(ifaces[ii], fromRequest)|
    ensures var t := TypeArrayInfoOf(ifaces, info).value;
      var m := Messages(ifaces[ii], fromRequest)[mi];
      var off := if kind.Some? then Offset(t, ifaces[ii].name, fromRequest, m)
                 else OffsetAsWritten(t, ifaces[ii].name, fromRequest, m);
      var rows := TypesTable(t);
      off.Ok? && off.value + |m.args| <= |rows| &&
      forall j :: 0 <= j < |m.args| ==> rows[off.value + j].rttiType == RttiType(m.args[j].ty)
  {
    if OnlyPrimitives(Messages(ifaces[ii], fromRequest)[mi].args) {
      PrimitiveSlots(ifaces, info, ii, fromRequest, mi, kind);
    } else {
      EntrySlots(ifaces, info, ii, fromRequest, mi, kind);
    }
  }

  /** A message with only primitive arguments reads its types from the
      leading run of null rows. */
  lemma PrimitiveSlots(ifaces: seq<Interface>, info: NamespaceInfo, ii: nat, fromRequest: bool, mi: nat, kind: Option<bool>)
    requires TypeArrayInfoOf(ifaces, info).Ok?
    requires WellNamed(ifaces)
    requires kind == Some(fromRequest) || (kind.None? && KindsDisjoint(ifaces))
    requires ii < |ifaces| && mi < |Messages(ifaces[ii], fromRequest)|
    requires OnlyPrimitives(Messages(ifaces[ii], fromRequest)[mi].args)
    ensures var t := TypeArrayInfoOf(ifaces, info).value;
      var m := Messages(ifaces[ii], fromRequest)[mi];
      var off := if kind.Some? then Offset(t, ifaces[ii].name, fromRequest, m)
                 else OffsetAsWritten(t, ifaces[ii].name, fromRequest, m);
      var rows := TypesTable(t);
      off.Ok? && off.value + |m.args| <= |rows| &&
      forall j :: 0 <= j < |m.args| ==> rows[off.value + j].rttiType == RttiType(m.args[j].ty)
  {
    var t := TypeArrayInfoOf(ifaces, info).value;
    var iface := ifaces[ii];
    var m := Messages(iface, fromRequest)[mi];
    var rows := TypesTable(t);
    assert Offset(t, iface.name, fromRequest, m) == Ok(0) && OffsetAsWritten(t, iface.name, fromRequest, m) == Ok(0);
    NullRunBound(ifaces, ii, fromRequest, mi);
    assert |m.args| <= t.nullRun;
    forall j | 0 <= j < |m.args| ensures rows[j].rttiType == RttiType(m.args[j].ty) {
      assert rows[j] == TypeRow(j, None);
    }
  }

  /** A message with a slot reads its types from its own slots. */
  lemma EntrySlots(ifaces: seq<Interface>, info: NamespaceInfo, ii: nat, fromRequest: bool, mi: nat, kind: Option<bool>)
    requires TypeArrayInfoOf(ifaces, info).Ok?
    requires WellNamed(ifaces)
    requires kind == Some(fromRequest) || (kind.None? && KindsDisjoint(ifaces))
    requires ii < |ifaces| && mi < |Messages(ifaces[ii], fromRequest)|
    requires !OnlyPrimitives(Messages(ifaces[ii], fromRequest)[mi].args)
    ensures var t := TypeArrayInfoOf(ifaces, info).value;
      var m := Messages(ifaces[ii], fromRequest)[mi];
      var off := if kind.Some? then Offset(t, ifaces[ii].name, fromRequest, m)
                 else OffsetAsWritten(t, ifaces[ii].name, fromRequest, m);
      var rows := TypesTable(t);
      off.Ok? && off.value + |m.args| <= |rows| &&
      forall j :: 0 <= j < |m.args| ==> rows[off.value + j].rttiType == RttiType(m.args[j].ty)
  {
    var t := TypeArrayInfoOf(ifaces, info).value;
    var iface := ifaces[ii];
    var m := Messages(iface, fromRequest)[mi];
    var c := SlotsOfMessage(ifaces, ii, fromRequest, mi);
    NoMatchBefore(ifaces, ii, fromRequest, mi, kind);
    var a := SlotsBefore(ifaces, ii, fromRequest, mi);
    var own := MessageEntries(iface.name, fromRequest, m);
    assert t.entries == Numbered(a + own + c);
    MessageSlotsRead(t, a, own, c, iface.name, fromRequest, m, kind);
  }

  /** A message whose slots follow a run with no slot of its key: its
      offset finds them, and they carry its argument types in order. */
  lemma MessageSlotsRead(t: TypeArrayInfo, a: seq<TypeSlot>, own: seq<TypeSlot>, c: seq<TypeSlot>,
                         iface: string, fromRequest: bool, m: Message, kind: Option<bool>)
    requires t.entries == Numbered(a + own + c)
    requires !OnlyPrimitives(m.args) && own == MessageEntries(iface, fromRequest, m)
    requires forall e :: e in a ==> !Matches(e, iface, kind, m.name)
    requires kind == Some(fromRequest) || kind.None?
    ensures var off := if kind.Some? then Offset(t, iface, fromRequest, m) else OffsetAsWritten(t, iface, fromRequest, m);
      var rows := TypesTable(t);
      off.Ok? && off.value + |m.args| <= |rows| &&
      forall j :: 0 <= j < |m.args| ==> rows[off.value + j].rttiType == RttiType(m.args[j].ty)
  {
    assert |own| == |m.args|;
    SlotsOffset(t, a, own, c, iface, fromRequest, m, kind);
    SlotsRows(t, a, own, c, iface, fromRequest, m);
  }

  lemma SlotsOffset(t: TypeArrayInfo, a: seq<TypeSlot>, own: seq<TypeSlot>, c: seq<TypeSlot>,
                    iface: string, fromRequest: bool, m: Message, kind: Option<bool>)
    requires t.entries == Numbered(a + own + c)
    requires !OnlyPrimitives(m.args) && own == MessageEntries(iface, fromRequest, m)
    requires forall e :: e in a ==> !Matches(e, iface, kind, m.name)
    requires kind == Some(fromRequest) || kind.None?
    ensures kind.Some? ==> Offset(t, iface, fromRequest, m) == Ok(|a| + t.nullRun)
    ensures kind.None? ==> OffsetAsWritten(t, iface, fromRequest, m) == Ok(|a| + t.nullRun)
  {
    var i :| 0 <= i < |m.args| && RttiType(m.args[i].ty).Some?;
    assert |own| == |m.args|;
    NumberedFirstMatch(a, own, c, iface, kind, m.name);
    OffsetFromIndex(t, iface, fromRequest, m, kind, |a|);
  }

  lemma SlotsRows(t: TypeArrayInfo, a: seq<TypeSlot>, own: seq<TypeSlot>, c: seq<TypeSlot>,
                  iface: string, fromRequest: bool, m: Message)
    requires t.entries == Numbered(a + own + c)
    requires own == MessageEntries(iface, fromRequest, m) && |own| == |m.args|
    ensures var rows := TypesTable(t);
      |a| + t.nullRun + |m.args| <= |rows| &&
      forall j :: 0 <= j < |m.args| ==> rows[|a| + t.nullRun + j].rttiType == RttiType(m.args[j].ty)
  {
    var rows := TypesTable(t);
    OwnRows(t.nullRun, a, own, c);
    OwnTypes(iface, fromRequest, m, own);
    assert t == TypeArrayInfo(t.nullRun, Numbered(a + own + c));
    forall j | 0 <= j < |m.args| ensures rows[|a| + t.nullRun + j].rttiType == RttiType(m.args[j].ty) {
      assert |a| + t.nullRun + j == t.nullRun + |a| + j;
    }
  }

  lemma OwnTypes(iface: string, fromRequest: bool, m: Message, own: seq<TypeSlot>)
    requires own == MessageEntries(iface, fromRequest, m) && |own| == |m.args|
    ensures forall j :: 0 <= j < |own| ==> own[j].rttiType == RttiType(m.args[j].ty)
  {
  }

  lemma OffsetFromIndex(t: TypeArrayInfo, iface: string, fromRequest: bool, m: Message, kind: Option<bool>, k: nat)
    requires !OnlyPrimitives(m.args)
    requires kind == Some(fromRequest) || kind.None?
    requires FindIndex(t, iface, kind, m.name) == Ok(k)
    ensures kind.Some? ==> Offset(t, iface, fromRequest, m) == Ok(k + t.nullRun)
    ensures kind.None? ==> OffsetAsWritten(t, iface, fromRequest, m) == Ok(k + t.nullRun)
  {
  }

  lemma NullRunBound(ifaces: seq<Interface>, ii: nat, fromRequest: bool, mi: nat)
    requires ii < |ifaces| && mi < |Messages(ifaces[ii], fromRequest)|
    requires OnlyPrimitives(Messages(ifaces[ii], fromRequest)[mi].args)
    ensures |Messages(ifaces[ii], fromRequest)[mi].args| <= NullRun(ifaces)
  {
  }

  /** A slot list whose first match lies past a prefix with no match: the
      numbered list finds it there. */
  lemma NumberedFirstMatch(a: seq<TypeSlot>, own: seq<TypeSlot>, c: seq<TypeSlot>, iface: string, kind: Option<bool>, message: string)
    requires |own| > 0 && Matches(own[0], iface, kind, message)
    requires forall e :: e in a ==> !Matches(e, iface, kind, message)
    ensures FirstMatch(Numbered(a + own + c), iface, kind, message) == Some(|a|)
  {
    var es := Numbered(a + own + c);
    forall k | 0 <= k < |a| ensures !Matches(es[k], iface, kind, message) {
      assert (a + own + c)[k] == a[k];
      assert a[k] in a;
    }
    assert (a + own + c)[|a|] == own[0];
    FirstMatchAt(es, |a|, iface, kind, message);
  }

  /** The rows of a run of slots sit at the run's position shifted by the
      null run. */
  lemma OwnRows(nullRun: nat, a: seq<TypeSlot>, own: seq<TypeSlot>, c: seq<TypeSlot>)
    ensures var rows := TypesTable(TypeArrayInfo(nullRun, Numbered(a + own + c)));
      nullRun + |a| + |own| <= |rows| &&
      forall j :: 0 <= j < |own| ==> rows[nullRun + |a| + j] == TypeRow(nullRun + |a| + j, own[j].rttiType)
  {
    var es := a + own + c;
    forall j | 0 <= j < |own| ensures es[|a| + j] == own[j] {
    }
  }

  /** A request and an event of the same name, each with an object argument
      of a different interface: as written, the event's descriptor points at
      the request's slot. */
  lemma SharedNameCollides()
    ensures var req := Message("set", false, None, [Arg("a", Object(Some("iface_a")))]);
      var ev := Message("set", false, None, [Arg("b", Object(Some("iface_b")))]);
      var ifaces := [Interface("wl_x", 1, [req], [ev], [])];
      var info := NamespaceInfo(map["iface_a" := "p", "iface_b" := "p", "wl_x" := "p"], None);
      TypeArrayInfoOf(ifaces, info).Ok? &&
      var t := TypeArrayInfoOf(ifaces, info).value;
      OffsetAsWritten(t, "wl_x", false, ev) == Ok(0) &&
      TypesTable(t)[0].rttiType == Some("iface_a") &&
      RttiType(ev.args[0].ty) == Some("iface_b") &&
      Offset(t, "wl_x", false, ev) == Ok(1) &&
      TypesTable(t)[1].rttiType == Some("iface_b")
  {
    var req := Message("set", false, None, [Arg("a", Object(Some("iface_a")))]);
    var ev := Message("set", false, None, [Arg("b", Object(Some("iface_b")))]);
    var ifaces := [Interface("wl_x", 1, [req], [ev], [])];
    var info := NamespaceInfo(map["iface_a" := "p", "iface_b" := "p", "wl_x" := "p"], None);
    var ea := TypeSlot(None, Some("iface_a"), "wl_x", true, "set", "a");
    var eb := TypeSlot(None, Some("iface_b"), "wl_x", false, "set", "b");
    SharedNameLayout();
    assert NullRun(ifaces) == 0;
    assert FirstUnresolved(info, [ea, eb]) == None;
    var t := TypeArrayInfoOf(ifaces, info).value;
    assert t.entries == [ea.(index := Some(0)), eb.(index := Some(1))];
    assert FirstMatch(t.entries, "wl_x", None, "set") == Some(0);
    assert FirstMatch(t.entries, "wl_x", Some(false), "set") == Some(1);
  }

  /** The slots of the example above: the request's, then the event's. */
  lemma SharedNameLayout()
    ensures var req := Message("set", false, None, [Arg("a", Object(Some("iface_a")))]);
      var ev := Message("set", false, None, [Arg("b", Object(Some("iface_b")))]);
      AllEntries([Interface("wl_x", 1, [req], [ev], [])]) ==
        [TypeSlot(None, Some("iface_a"), "wl_x", true, "set", "a"), TypeSlot(None, Some("iface_b"), "wl_x", false, "set", "b")]
  {
    var req := Message("set", false, None, [Arg("a", Object(Some("iface_a")))]);
    var ev := Message("set", false, None, [Arg("b", Object(Some("iface_b")))]);
    var iface := Interface("wl_x", 1, [req], [ev], []);
    var ea := TypeSlot(None, Some("iface_a"), "wl_x", true, "set", "a");
    var eb := TypeSlot(None, Some("iface_b"), "wl_x", false, "set", "b");
    assert RttiType(req.args[0].ty).Some? && RttiType(ev.args[0].ty).Some?;
    assert !OnlyPrimitives(req.args) && !OnlyPrimitives(ev.args);
    assert MessageEntries("wl_x", true, req) == [ea];
    assert MessageEntries("wl_x", false, ev) == [eb];
    assert MessageChunks("wl_x", true, [req]) == [[ea]];
    assert MessageChunks("wl_x", false, [ev]) == [[eb]];
    FlattenOne([ea]);
    FlattenOne([eb]);
    assert InterfaceEntries(iface) == [ea, eb];
    assert InterfaceChunks([iface]) == [[ea, eb]];
    FlattenOne([ea, eb]);
  }
}

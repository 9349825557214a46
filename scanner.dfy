/** The older command line (WaylandScanner.cc): `--json` dumps a protocol
    as JSON, optionally with the `wl_` prefix stripped from every interface
    name (`--wl_strip`); `--enums` writes the enums of a protocol out as C++
    (that generator is `EnumEmission.Style.Scanner`). */
module WaylandScanner {
  import opened Wrappers
  import opened Text
  import opened Types
  import opened WireSignature
  import opened JsonFormat
  import opened ArgLists

  /* ------------------------------------------------ the wl_ prefix */

  const WlPrefix: string := "wl_"

  predicate OccursAt(s: string, pat: string, i: nat)
  {
    i + |pat| <= |s| && s[i..i + |pat|] == pat
  }

  /** `std::string_view::find`: the first position at or after `from` where
      `pat` occurs. */
  function FindFrom(s: string, pat: string, from: nat): (r: Option<nat>)
    requires from <= |s|
    ensures r.Some? ==> from <= r.value && OccursAt(s, pat, r.value)
    ensures r.Some? ==> forall j :: from <= j < r.value ==> !OccursAt(s, pat, j)
    ensures r.None? ==> forall j :: from <= j <= |s| ==> !OccursAt(s, pat, j)
    decreases |s| - from
  {
    if OccursAt(s, pat, from) then Some(from)
    else if from == |s| then None
    else FindFrom(s, pat, from + 1)
  }

  /** `strip_wayland_prefix`: the name without its leading `wl_`. The source
      looks for the first `wl_` anywhere and strips only when that is at
      position 0; the contract says this is exactly "starts with `wl_`". */
  function StripWaylandPrefix(s: string): (r: string)
    ensures r == if StartsWith(s, WlPrefix) then s[|WlPrefix|..] else s
    ensures StartsWith(s, WlPrefix) ==> s == WlPrefix + r
  {
    match FindFrom(s, WlPrefix, 0)
    case None => s
    case Some(p) => if p != 0 then s else s[|WlPrefix|..]
  }

  /* --------------------------------------------------- demangling */

  function StripOwnerName(o: Option<string>): Option<string>
  {
    if o.None? then None else Some(StripWaylandPrefix(o.value))
  }

  /** The visitor over an argument type: every type that may name an
      interface has that name stripped, every other type is left alone. */
  function DemangledType(t: ArgType): (u: ArgType)
    ensures u.Nameable() == t.Nameable() && u.UIntEnum? == t.UIntEnum? && u.Object? == t.Object?
    ensures u.NullObject? == t.NullObject? && u.NewId? == t.NewId?
    ensures t.UIntEnum? ==> u.enumName == t.enumName
    ensures t.Nameable() ==> u.owner.Some? == t.owner.Some?
    ensures t.Nameable() && t.owner.Some? ==> u.owner.value == StripWaylandPrefix(t.owner.value)
    ensures !t.Nameable() ==> u == t
  {
    match t
    case UIntEnum(e, owner) => UIntEnum(e, StripOwnerName(owner))
    case Object(owner) => Object(StripOwnerName(owner))
    case NullObject(owner) => NullObject(StripOwnerName(owner))
    case NewId(owner) => NewId(StripOwnerName(owner))
    case _ => t
  }

  function DemangledArg(a: Arg): Arg
  {
    Arg(a.name, DemangledType(a.ty))
  }

  function DemangledArgs(args: seq<Arg>): (r: seq<Arg>)
    ensures |r| == |args| && forall k :: 0 <= k < |args| ==> r[k] == DemangledArg(args[k])
  {
    seq(|args|, k requires 0 <= k < |args| => DemangledArg(args[k]))
  }

  /** A message keeps its name, kind, version and the names and order of
      its arguments; only the interface names in argument types change. */
  function DemangledMessage(m: Message): (r: Message)
    ensures r.name == m.name && r.destructor == m.destructor && r.since == m.since
    ensures |r.args| == |m.args|
    ensures forall k :: 0 <= k < |m.args| ==> r.args[k].name == m.args[k].name && r.args[k].ty == DemangledType(m.args[k].ty)
  {
    Message(m.name, m.destructor, m.since, DemangledArgs(m.args))
  }

  function DemangledMessages(ms: seq<Message>): (r: seq<Message>)
    ensures |r| == |ms| && forall k :: 0 <= k < |ms| ==> r[k] == DemangledMessage(ms[k])
  {
    seq(|ms|, k requires 0 <= k < |ms| => DemangledMessage(ms[k]))
  }

  /** `demangle_wayland_names` of an interface: its own name and the
      interface names its arguments refer to are stripped; its version, its
      enums and the names, kinds and order of its messages and arguments
      stay. */
  function DemangledInterface(iface: Interface): (r: Interface)
    ensures r.name == StripWaylandPrefix(iface.name)
    ensures r.version == iface.version && r.enums == iface.enums
    ensures |r.requests| == |iface.requests| && |r.events| == |iface.events|
    ensures forall k :: 0 <= k < |iface.requests| ==> r.requests[k] == DemangledMessage(iface.requests[k])
    ensures forall k :: 0 <= k < |iface.events| ==> r.events[k] == DemangledMessage(iface.events[k])
  {
    Interface(StripWaylandPrefix(iface.name), iface.version,
      DemangledMessages(iface.requests), DemangledMessages(iface.events), iface.enums)
  }

  function DemangledInterfaces(ifaces: seq<Interface>): (r: seq<Interface>)
    ensures |r| == |ifaces| && forall k :: 0 <= k < |ifaces| ==> r[k] == DemangledInterface(ifaces[k])
  {
    seq(|ifaces|, k requires 0 <= k < |ifaces| => DemangledInterface(ifaces[k]))
  }

  function DemangledProtocol(p: Protocol): (r: Protocol)
    ensures r.name == StripWaylandPrefix(p.name) && |r.interfaces| == |p.interfaces|
    ensures forall k :: 0 <= k < |p.interfaces| ==> r.interfaces[k] == DemangledInterface(p.interfaces[k])
  {
    Protocol(StripWaylandPrefix(p.name), DemangledInterfaces(p.interfaces))
  }

  /** The argument loop, rewriting each argument of a message in place. */
  method DemangleArgs(args: seq<Arg>) returns (out: seq<Arg>)
    ensures out == DemangledArgs(args)
  {
    out := args;
    var k := 0;
    while k < |out|
      invariant 0 <= k <= |out| == |args|
      invariant forall j :: 0 <= j < k ==> out[j] == DemangledArg(args[j])
      invariant forall j :: k <= j < |out| ==> out[j] == args[j]
    {
      out := out[k := DemangledArg(out[k])];
      k := k + 1;
    }
  }

  /** The loop over the requests (or the events) of an interface. */
  method DemangleMessages(ms: seq<Message>) returns (out: seq<Message>)
    ensures out == DemangledMessages(ms)
  {
    out := ms;
    var k := 0;
    while k < |out|
      invariant 0 <= k <= |out| == |ms|
      invariant forall j :: 0 <= j < k ==> out[j] == DemangledMessage(ms[j])
      invariant forall j :: k <= j < |out| ==> out[j] == ms[j]
    {
      var args := DemangleArgs(out[k].args);
      out := out[k := out[k].(args := args)];
      k := k + 1;
    }
  }

  method DemangleInterface(iface: Interface) returns (out: Interface)
    ensures out == DemangledInterface(iface)
  {
    out := iface.(name := StripWaylandPrefix(iface.name));
    var requests := DemangleMessages(out.requests);
    var events := DemangleMessages(out.events);
    out := out.(requests := requests, events := events);
  }

  method DemangleProtocol(p: Protocol) returns (out: Protocol)
    ensures out == DemangledProtocol(p)
  {
    out := p.(name := StripWaylandPrefix(p.name));
    var ifaces := out.interfaces;
    var k := 0;
    while k < |ifaces|
      invariant 0 <= k <= |ifaces| == |p.interfaces|
      invariant forall j :: 0 <= j < k ==> ifaces[j] == DemangledInterface(p.interfaces[j])
      invariant forall j :: k <= j < |ifaces| ==> ifaces[j] == p.interfaces[j]
    {
      var iface := DemangleInterface(ifaces[k]);
      ifaces := ifaces[k := iface];
      k := k + 1;
    }
    out := out.(interfaces := ifaces);
  }

  /** Stripping names never changes how a message travels: the wire layout
      of the demangled arguments is that of the original ones. */
  lemma {:induction false} DemangleKeepsWire(args: seq<Arg>)
    ensures WireOfArgs(DemangledArgs(args)) == WireOfArgs(args)
  {
    if args != [] {
      DemangleKeepsWire(args[1..]);
      assert DemangledArgs(args)[1..] == DemangledArgs(args[1..]);
      var t := args[0].ty;
      assert WireOf(DemangledType(t)) == WireOf(t) by {
        if t.NewId? {
          assert DemangledType(t).owner.None? == t.owner.None?;
        }
      }
    }
  }

  predicate Unprefixed(s: string)
  {
    !StartsWith(s, WlPrefix)
  }

  predicate ArgsUnprefixed(args: seq<Arg>)
  {
    forall k :: 0 <= k < |args| ==> (args[k].ty.Nameable() && args[k].ty.owner.Some? ==> Unprefixed(args[k].ty.owner.value))
  }

  predicate InterfaceUnprefixed(iface: Interface)
  {
    Unprefixed(iface.name) &&
    (forall k :: 0 <= k < |iface.requests| ==> ArgsUnprefixed(iface.requests[k].args)) &&
    (forall k :: 0 <= k < |iface.events| ==> ArgsUnprefixed(iface.events[k].args))
  }

  lemma ArgsFixed(args: seq<Arg>)
    requires ArgsUnprefixed(args)
    ensures DemangledArgs(args) == args
  {
    forall k | 0 <= k < |args| ensures DemangledArg(args[k]) == args[k] {
      var t := args[k].ty;
      if t.Nameable() && t.owner.Some? {
        assert Unprefixed(t.owner.value);
      }
    }
  }

  lemma MessagesFixed(ms: seq<Message>)
    requires forall k :: 0 <= k < |ms| ==> ArgsUnprefixed(ms[k].args)
    ensures DemangledMessages(ms) == ms
  {
    forall k | 0 <= k < |ms| ensures DemangledMessage(ms[k]) == ms[k] {
      ArgsFixed(ms[k].args);
    }
  }

  /** A protocol that names no interface with the `wl_` prefix is left as
      it is, so `--wl_strip` only changes what carries the prefix. */
  lemma UnprefixedFixed(p: Protocol)
    requires Unprefixed(p.name)
    requires forall k :: 0 <= k < |p.interfaces| ==> InterfaceUnprefixed(p.interfaces[k])
    ensures DemangledProtocol(p) == p
  {
    forall k | 0 <= k < |p.interfaces| ensures DemangledInterface(p.interfaces[k]) == p.interfaces[k] {
      var iface := p.interfaces[k];
      MessagesFixed(iface.requests);
      MessagesFixed(iface.events);
    }
  }

  lemma StripKeepsNoQuote(s: string)
    requires NoQuote(s)
    ensures NoQuote(StripWaylandPrefix(s))
  {
    if StartsWith(s, WlPrefix) {
      assert forall c :: c in s[3..] ==> c in s;
    }
  }

  lemma DemangledArgsNoQuote(m: Message)
    requires MessageNoQuote(m)
    ensures MessageNoQuote(DemangledMessage(m))
  {
    forall k | 0 <= k < |m.args| ensures ArgTypeNoQuote(DemangledType(m.args[k].ty)) {
      var t := m.args[k].ty;
      if t.Nameable() && t.owner.Some? {
        StripKeepsNoQuote(t.owner.value);
      }
    }
  }

  lemma DemangledNoQuote(p: Protocol)
    requires ProtocolNoQuote(p)
    ensures ProtocolNoQuote(DemangledProtocol(p))
  {
    StripKeepsNoQuote(p.name);
    forall k | 0 <= k < |p.interfaces| ensures InterfaceNoQuote(DemangledInterface(p.interfaces[k])) {
      var iface := p.interfaces[k];
      StripKeepsNoQuote(iface.name);
      forall j | 0 <= j < |iface.requests| ensures MessageNoQuote(DemangledMessage(iface.requests[j])) {
        DemangledArgsNoQuote(iface.requests[j]);
      }
      forall j | 0 <= j < |iface.events| ensures MessageNoQuote(DemangledMessage(iface.events[j])) {
        DemangledArgsNoQuote(iface.events[j]);
      }
    }
  }

  /* --------------------------------------------------------- --json */

  datatype JsonModeArgs = JsonModeArgs(protoFile: string, wlStrip: bool)

  /** `parse_json_mode_args` on the arguments after the program name. */
  function JsonModeOf(args: seq<string>): Result<JsonModeArgs, string>
  {
    var (rest, json) := TakeFlag(args, "--json");
    if !json then Err("No --json flag")
    else
      var (files, strip) := TakeFlag(rest, "--wl_strip");
      if files == [] then Err("Expected <protocol_file> argument")
      else if |files| != 1 then Err("Expected <protocol_file> only: got " + LeftoverText(files))
      else Ok(JsonModeArgs(files[0], strip))
  }

  method ParseJsonModeArgs(argv: seq<string>) returns (r: Result<JsonModeArgs, string>)
    ensures r == JsonModeOf(argv)
  {
    var args, found := Erase(argv, "--json");
    if !found {
      return Err("No --json flag");
    }
    var wlStrip;
    args, wlStrip := Erase(args, "--wl_strip");
    if args == [] {
      return Err("Expected <protocol_file> argument");
    }
    if |args| != 1 {
      var decorated := Decorate(args);
      var listed := WriteVector(decorated);
      return Err("Expected <protocol_file> only: got " + listed);
    }
    r := Ok(JsonModeArgs(args[0], wlStrip));
  }

  /** `--json` accepts exactly the vectors holding `--json`, one protocol
      file and at most one `--wl_strip`, in any order; a file literally
      named `--wl_strip` is taken for the flag unless the flag is given
      twice. */
  lemma JsonModeAccepts(args: seq<string>, f: string, w: bool)
    ensures JsonModeOf(args) == Ok(JsonModeArgs(f, w)) <==>
      multiset(args) == multiset{"--json", f} + Present(w, "--wl_strip") && (f == "--wl_strip" ==> w)
  {
    if JsonModeOf(args) == Ok(JsonModeArgs(f, w)) {
      JsonModeSound(args, f, w);
    }
    if multiset(args) == multiset{"--json", f} + Present(w, "--wl_strip") && (f == "--wl_strip" ==> w) {
      JsonModeComplete(args, f, w);
    }
  }

  lemma JsonModeSound(args: seq<string>, f: string, w: bool)
    requires JsonModeOf(args) == Ok(JsonModeArgs(f, w))
    ensures multiset(args) == multiset{"--json", f} + Present(w, "--wl_strip") && (f == "--wl_strip" ==> w)
  {
    OneLeft(args, "--json", "--wl_strip");
  }

  lemma JsonModeComplete(args: seq<string>, f: string, w: bool)
    requires multiset(args) == multiset{"--json", f} + Present(w, "--wl_strip") && (f == "--wl_strip" ==> w)
    ensures JsonModeOf(args) == Ok(JsonModeArgs(f, w))
  {
    OneTaken(args, "--json", "--wl_strip", f, w);
  }

  /* -------------------------------------------------------- --enums */

  datatype EnumsModeArgs = EnumsModeArgs(protoFile: string, outputFile: string, wlStrip: bool)

  /** The message for any number of files other than two. */
  function EnumsCountError(files: seq<string>): string
  {
    "Expected" + (if |files| > 2 then " only" else "")
      + " <protocol_file> and <output_file> arguments" + " with --enums flag"
      + ", got " + LeftoverText(files) + " instead"
  }

  /** `parse_enums_mode` on the arguments after the program name. */
  function EnumsModeOf(args: seq<string>): Result<EnumsModeArgs, string>
  {
    var (rest, enums) := TakeFlag(args, "--enums");
    if !enums then Err("No --enums flag")
    else
      var (files, strip) := TakeFlag(rest, "--wl_strip");
      if |files| != 2 then Err(EnumsCountError(files))
      else Ok(EnumsModeArgs(files[0], files[1], strip))
  }

  /** The message is built piece by piece. */
  method WriteEnumsCountError(args: seq<string>) returns (message: string)
    ensures message == EnumsCountError(args)
  {
    message := "Expected";
    if |args| > 2 {
      message := message + " only";
    }
    message := message + " <protocol_file> and <output_file> arguments";
    message := message + " with --enums flag";
    var decorated := Decorate(args);
    var listed := WriteVector(decorated);
    message := message + ", got " + listed + " instead";
  }

  method ParseEnumsMode(argv: seq<string>) returns (r: Result<EnumsModeArgs, string>)
    ensures r == EnumsModeOf(argv)
  {
    var args, found := Erase(argv, "--enums");
    if !found {
      return Err("No --enums flag");
    }
    var wlStrip;
    args, wlStrip := Erase(args, "--wl_strip");
    if |args| != 2 {
      var message := WriteEnumsCountError(args);
      return Err(message);
    }
    r := Ok(EnumsModeArgs(args[0], args[1], wlStrip));
  }

  /** The two files with `--wl_strip` put at position `p` when `w`. */
  function WithStrip(files: seq<string>, p: nat, w: bool): seq<string>
    requires p <= |files|
  {
    if w then Inserted(files, p, "--wl_strip") else files
  }

  /** `args` is the protocol file `a` and the output file `b`, in that
      order, with `--wl_strip` put at `p` when `w` and `--enums` then put at
      `q`, each flag ahead of any file of the same spelling (a file spelled
      `--wl_strip` needs the flag given too). */
  predicate EnumsLayout(args: seq<string>, a: string, b: string, w: bool, p: nat, q: nat)
  {
    p <= 2 &&
    (if w then "--wl_strip" !in [a, b][..p] else "--wl_strip" !in [a, b]) &&
    q <= |WithStrip([a, b], p, w)| && "--enums" !in WithStrip([a, b], p, w)[..q] &&
    args == Inserted(WithStrip([a, b], p, w), q, "--enums")
  }

  /** `--enums` accepts protocol file `a`, output file `b` and strip flag
      `w` exactly from the vectors laid out that way: the files keep their
      order and the flags may stand anywhere. */
  lemma EnumsModeAccepts(args: seq<string>, a: string, b: string, w: bool)
    ensures EnumsModeOf(args) == Ok(EnumsModeArgs(a, b, w)) <==> exists p, q :: EnumsLayout(args, a, b, w, p, q)
  {
    if EnumsModeOf(args) == Ok(EnumsModeArgs(a, b, w)) {
      var p, q := EnumsModeLaidOut(args, a, b, w);
    }
    if exists p, q :: EnumsLayout(args, a, b, w, p, q) {
      var p, q :| EnumsLayout(args, a, b, w, p, q);
      EnumsLayoutAccepted(args, a, b, w, p, q);
    }
  }

  lemma EnumsModeLaidOut(args: seq<string>, a: string, b: string, w: bool) returns (p: nat, q: nat)
    requires EnumsModeOf(args) == Ok(EnumsModeArgs(a, b, w))
    ensures EnumsLayout(args, a, b, w, p, q)
  {
    var rest := TakeFlag(args, "--enums").0;
    EnumsModeParts(args, a, b, w);
    q := FlagPlace(args, "--enums");
    if w {
      p := FlagPlace(rest, "--wl_strip");
    } else {
      p := 0;
    }
  }

  /** What the two erasures leave in an accepted vector. */
  lemma EnumsModeParts(args: seq<string>, a: string, b: string, w: bool)
    requires EnumsModeOf(args) == Ok(EnumsModeArgs(a, b, w))
    ensures TakeFlag(args, "--enums").1
    ensures TakeFlag(TakeFlag(args, "--enums").0, "--wl_strip") == ([a, b], w)
  {
    var t2 := TakeFlag(TakeFlag(args, "--enums").0, "--wl_strip");
    assert t2.0 == [t2.0[0], t2.0[1]];
  }

  /** Where an erased flag stood. */
  lemma FlagPlace(args: seq<string>, flag: string) returns (p: nat)
    requires flag in args
    ensures var rest := TakeFlag(args, flag).0;
      p <= |rest| && flag !in rest[..p] && args == Inserted(rest, p, flag)
  {
    var rest := TakeFlag(args, flag).0;
    p :| 0 <= p <= |rest| && flag !in rest[..p] && args == Inserted(rest, p, flag);
  }

  lemma EnumsLayoutAccepted(args: seq<string>, a: string, b: string, w: bool, p: nat, q: nat)
    requires EnumsLayout(args, a, b, w, p, q)
    ensures EnumsModeOf(args) == Ok(EnumsModeArgs(a, b, w))
  {
    var rest := WithStrip([a, b], p, w);
    TakeInserted(rest, q, "--enums");
    if w {
      TakeInserted([a, b], p, "--wl_strip");
    }
  }

  /** `--enums` accepts files `a`, `b` and strip `w` only from a vector made
      of `--enums`, `a`, `b` and, when `w`, `--wl_strip`; every such vector
      is accepted with those two files, in some order, and that strip flag. */
  lemma EnumsModeCounts(args: seq<string>, a: string, b: string, w: bool)
    ensures EnumsModeOf(args) == Ok(EnumsModeArgs(a, b, w)) ==>
      multiset(args) == multiset{"--enums", a, b} + Present(w, "--wl_strip") &&
      ((a == "--wl_strip" || b == "--wl_strip") ==> w)
    ensures
      (multiset(args) == multiset{"--enums", a, b} + Present(w, "--wl_strip") &&
       ((a == "--wl_strip" || b == "--wl_strip") ==> w)) ==>
      var r := EnumsModeOf(args);
      r.Ok? && r.value.wlStrip == w && multiset{r.value.protoFile, r.value.outputFile} == multiset{a, b}
  {
    if EnumsModeOf(args) == Ok(EnumsModeArgs(a, b, w)) {
      EnumsModeSound(args, a, b, w);
    }
    if multiset(args) == multiset{"--enums", a, b} + Present(w, "--wl_strip") && ((a == "--wl_strip" || b == "--wl_strip") ==> w) {
      EnumsModeComplete(args, a, b, w);
    }
  }

  lemma EnumsModeSound(args: seq<string>, a: string, b: string, w: bool)
    requires EnumsModeOf(args) == Ok(EnumsModeArgs(a, b, w))
    ensures multiset(args) == multiset{"--enums", a, b} + Present(w, "--wl_strip")
    ensures (a == "--wl_strip" || b == "--wl_strip") ==> w
  {
    TwoLeft(args, "--enums", "--wl_strip");
  }

  lemma EnumsModeComplete(args: seq<string>, a: string, b: string, w: bool)
    requires multiset(args) == multiset{"--enums", a, b} + Present(w, "--wl_strip")
    requires (a == "--wl_strip" || b == "--wl_strip") ==> w
    ensures var r := EnumsModeOf(args);
      r.Ok? && r.value.wlStrip == w && multiset{r.value.protoFile, r.value.outputFile} == multiset{a, b}
  {
    var t2 := TakeFlag(TakeFlag(args, "--enums").0, "--wl_strip");
    TwoTaken(args, "--enums", "--wl_strip", a, b, w);
    EnumsModeOfTwo(args, t2.0, w);
  }

  lemma EnumsModeOfTwo(args: seq<string>, files: seq<string>, w: bool)
    requires "--enums" in args && |files| == 2
    requires TakeFlag(TakeFlag(args, "--enums").0, "--wl_strip") == (files, w)
    ensures EnumsModeOf(args) == Ok(EnumsModeArgs(files[0], files[1], w))
  {
  }

  /* ---------------------------------------------------- the program */

  /** What `Application::main` goes on to do. */
  datatype ScannerRun =
    | HackedArgs
    | DumpJson(json: JsonModeArgs)
    | EmitEnums(enums: EnumsModeArgs)
    | Failure(messages: seq<string>)

  /** `Application::main`: drop the program name, try `--json`, then
      `--enums`; when neither parses, report why each did not. */
  function ScannerMain(argv: seq<string>): (r: ScannerRun)
    ensures r.HackedArgs? <==> argv == []
    ensures r.DumpJson? ==> JsonModeOf(argv[1..]) == Ok(r.json)
    ensures r.EmitEnums? ==> JsonModeOf(argv[1..]).Err? && EnumsModeOf(argv[1..]) == Ok(r.enums)
    ensures r.Failure? ==>
      JsonModeOf(argv[1..]).Err? && EnumsModeOf(argv[1..]).Err? &&
      r.messages == ["JSON Mode: [" + JsonModeOf(argv[1..]).error + "]",
                     "ENUMS Mode: [" + EnumsModeOf(argv[1..]).error + "]"]
  {
    if argv == [] then HackedArgs
    else
      var args := argv[1..];
      match JsonModeOf(args)
      case Ok(j) => DumpJson(j)
      case Err(je) =>
        match EnumsModeOf(args)
        case Ok(e) => EmitEnums(e)
        case Err(ee) => Failure(["JSON Mode: [" + je + "]", "ENUMS Mode: [" + ee + "]"])
  }

  /** What `process_json_mode` prints for a parsed protocol. */
  function JsonModeOutput(mode: JsonModeArgs, p: Protocol): string
  {
    Dump(if mode.wlStrip then DemangledProtocol(p) else p) + "\n"
  }

  /** The JSON the scanner prints reads back as the protocol it dumped,
      stripped when `--wl_strip` was given, provided no name contains a
      double quote and no message carries a `since`. */
  lemma JsonModeReadBack(mode: JsonModeArgs, p: Protocol)
    requires ProtocolNoQuote(p)
    requires forall i :: 0 <= i < |p.interfaces| ==> NoSince(p.interfaces[i])
    ensures var out := JsonModeOutput(mode, p);
      Load(out[..|out| - 1]) == Some(if mode.wlStrip then DemangledProtocol(p) else p)
  {
    var q := if mode.wlStrip then DemangledProtocol(p) else p;
    if mode.wlStrip {
      DemangledNoQuote(p);
      forall i | 0 <= i < |q.interfaces| ensures NoSince(q.interfaces[i]) {
        assert NoSince(p.interfaces[i]);
      }
    }
    DumpReadBack(q);
    var out := JsonModeOutput(mode, p);
    assert out[..|out| - 1] == Dump(q);
  }
}

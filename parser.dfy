/** The protocol-file parser (Parser.cc, and its older generation
    WaylandProtoParser.cc): a stack machine fed with the start and end tags
    an XML tokenizer reports. A start tag pushes a fresh target built from
    the tag's attributes; an end tag pops the top target and appends it to
    the target below; closing the protocol element sets the output. The two
    generations differ only in reading `since`, which `readSince` selects. */
module ProtoParsing {
  import opened Wrappers
  import opened Text
  import opened Types

  /** One `key="value"` pair of a start tag, in document order. */
  datatype Attribute = Attribute(key: string, value: string)

  /** What the tokenizer reports: the callbacks `start` and `end` (character
      data is dropped by the parser and is not reported). */
  datatype XmlEvent = Start(tag: string, attrs: seq<Attribute>) | End(tag: string)

  /** The elements the parser knows (`KnownTag`). */
  datatype Tag = ProtocolTag | InterfaceTag | RequestTag | EventTag | ArgTag | EnumTag | EntryTag

  /** An element under construction (`ParseTarget`). */
  datatype Target =
    | TArg(arg: Arg)
    | TEnum(en: Enum)
    | TEntry(entry: Entry)
    | TRequest(msg: Message)
    | TEvent(msg: Message)
    | TInterface(iface: Interface)
    | TProtocol(proto: Protocol)

  /** Why `parse_arg_type` refused an argument. */
  datatype ArgTypeError =
    | NoDot(location: string)          // split_dot found no separator
    | BadAllowNull(value: string)      // allow-null other than "true"
    | UnknownType(name: string)        // "[t] is unknown type"

  /** Every exception the parser can raise while consuming one event, and the
      failure of `get` when no protocol was closed. */
  datatype ParseError =
    | DuplicateAttribute(key: string, value: string)
    | MissingAttribute(key: string)            // AttributeMap::at
    | BadVersion(text: string, cause: NumError)
    | UnknownRequestType(text: string)
    | BadSince(text: string, cause: NumError)
    | BadArgType(text: string, reason: ArgTypeError)
    | UnnamedEnum
    | BadEntryValue(text: string, cause: NumError)
    | EmptyStack                               // top() of an empty stack
    | WrongTarget(expected: Tag)               // std::get of another alternative
    | Misplaced(child: Tag)                    // the visitors of fin_request, fin_event, fin_arg
    | MultipleProtocols
    | NoProtocol                               // get() without an output

  type AttrMap = map<string, string>

  /** The parser's whole state: the target stack, top last, and the output. */
  datatype ParserState = ParserState(targets: seq<Target>, output: Option<Protocol>)

  const Initial := ParserState([], None)

  /* ---------------------------------------------------------------- tags */

  function TagName(t: Tag): string
  {
    match t
    case ProtocolTag => "protocol"
    case InterfaceTag => "interface"
    case RequestTag => "request"
    case EventTag => "event"
    case ArgTag => "arg"
    case EnumTag => "enum"
    case EntryTag => "entry"
  }

  /** `parse_tag`: the known element with this name, if any. */
  function ParseTag(s: string): (r: Option<Tag>)
    ensures r.Some? ==> TagName(r.value) == s
    ensures forall t :: TagName(t) == s ==> r == Some(t)
  {
    if s == "protocol" then Some(ProtocolTag)
    else if s == "interface" then Some(InterfaceTag)
    else if s == "request" then Some(RequestTag)
    else if s == "event" then Some(EventTag)
    else if s == "arg" then Some(ArgTag)
    else if s == "enum" then Some(EnumTag)
    else if s == "entry" then Some(EntryTag)
    else None
  }

  /* ------------------------------------------------------- attribute map */

  predicate KeysDistinct(attrs: seq<Attribute>)
  {
    forall i, j :: 0 <= i < j < |attrs| ==> attrs[i].key != attrs[j].key
  }

  /** Adds the attributes to `m` one by one, failing on the first key that is
      already present. */
  function AttrMapFrom(m: AttrMap, attrs: seq<Attribute>): Result<AttrMap, ParseError>
    decreases |attrs|
  {
    if attrs == [] then Ok(m)
    else if attrs[0].key in m then Err(DuplicateAttribute(attrs[0].key, attrs[0].value))
    else AttrMapFrom(m[attrs[0].key := attrs[0].value], attrs[1..])
  }

  /** The map `make_attr_map` builds, or its duplicate-key failure. */
  function AttrMapOf(attrs: seq<Attribute>): Result<AttrMap, ParseError>
  {
    AttrMapFrom(map[], attrs)
  }

  /** Building succeeds exactly when no key repeats (and none is already in
      `m`); the map then holds every pair and nothing else; a failure names
      a pair whose key was seen before it. */
  lemma {:induction false} AttrMapFromSpec(m: AttrMap, attrs: seq<Attribute>)
    ensures AttrMapFrom(m, attrs).Ok? <==>
      KeysDistinct(attrs) && forall i :: 0 <= i < |attrs| ==> attrs[i].key !in m
    ensures AttrMapFrom(m, attrs).Ok? ==>
      var out := AttrMapFrom(m, attrs).value;
      (forall i :: 0 <= i < |attrs| ==> attrs[i].key in out && out[attrs[i].key] == attrs[i].value) &&
      (forall k :: k in m ==> k in out && out[k] == m[k]) &&
      (forall k :: k in out ==> k in m || exists i :: 0 <= i < |attrs| && attrs[i].key == k)
    ensures AttrMapFrom(m, attrs).Err? ==>
      var e := AttrMapFrom(m, attrs).error;
      e.DuplicateAttribute? &&
      exists j :: 0 <= j < |attrs| && attrs[j] == Attribute(e.key, e.value) &&
        (e.key in m || exists i :: 0 <= i < j && attrs[i].key == e.key)
    decreases |attrs|
  {
    if attrs != [] {
      var a, rest := attrs[0], attrs[1..];
      if a.key in m {
        assert attrs[0] == Attribute(a.key, a.value);
      } else {
        var m' := m[a.key := a.value];
        AttrMapFromSpec(m', rest);
        var r := AttrMapFrom(m', rest);
        assert AttrMapFrom(m, attrs) == r;
        if r.Ok? {
          forall i | 0 <= i < |attrs| ensures attrs[i].key in r.value && r.value[attrs[i].key] == attrs[i].value {
            if i > 0 { assert attrs[i] == rest[i - 1]; }
          }
          forall k | k in r.value ensures k in m || exists i :: 0 <= i < |attrs| && attrs[i].key == k {
            if k !in m' {
              var i :| 0 <= i < |rest| && rest[i].key == k;
              assert attrs[i + 1].key == k;
            } else if k !in m {
              assert attrs[0].key == k;
            }
          }
          forall i, j | 0 <= i < j < |attrs| ensures attrs[i].key != attrs[j].key {
            assert attrs[j] == rest[j - 1];
            if i > 0 { assert attrs[i] == rest[i - 1]; }
          }
        } else {
          var e := r.error;
          var j :| 0 <= j < |rest| && rest[j] == Attribute(e.key, e.value) &&
            (e.key in m' || exists i :: 0 <= i < j && rest[i].key == e.key);
          assert attrs[j + 1] == rest[j];
          if e.key in m' && e.key !in m {
            assert attrs[0].key == e.key;
          } else if e.key !in m' {
            var i :| 0 <= i < j && rest[i].key == e.key;
            assert attrs[i + 1] == rest[i];
          }
          if KeysDistinct(attrs) && forall i :: 0 <= i < |attrs| ==> attrs[i].key !in m {
            assert false;
          }
        }
      }
    }
  }

  /** `make_attr_map`: the loop over the attributes that rejects a repeated key. */
  method MakeAttrMap(attrs: seq<Attribute>) returns (r: Result<AttrMap, ParseError>)
    ensures r == AttrMapOf(attrs)
  {
    var out: AttrMap := map[];
    var i := 0;
    while i < |attrs|
      invariant 0 <= i <= |attrs|
      invariant AttrMapFrom(out, attrs[i..]) == AttrMapOf(attrs)
    {
      assert attrs[i..][1..] == attrs[i + 1..];
      var a := attrs[i];
      if a.key in out {
        return Err(DuplicateAttribute(a.key, a.value));
      }
      out := out[a.key := a.value];
      i := i + 1;
    }
    return Ok(out);
  }

  /* ----------------------------------------------------------- split_dot */

  /** The position of the first `c` in `s`. */
  function IndexOf(s: string, c: char): (k: nat)
    requires c in s
    ensures k < |s| && s[k] == c && c !in s[..k]
  {
    if s[0] == c then 0
    else
      var k := 1 + IndexOf(s[1..], c);
      assert s[..k] == [s[0]] + s[1..][..k - 1];
      k
  }

  /** `s` with every `c` dropped. */
  function Without(s: string, c: char): (r: string)
    ensures c !in r
  {
    if s == [] then []
    else Without(s[..|s| - 1], c) + (if s[|s| - 1] == c then [] else [s[|s| - 1]])
  }

  lemma {:induction false} WithoutAbsent(s: string, c: char)
    requires c !in s
    ensures Without(s, c) == s
  {
    if s != [] {
      assert c !in s[..|s| - 1] by {
        forall x | x in s[..|s| - 1] ensures x in s { }
      }
      WithoutAbsent(s[..|s| - 1], c);
      assert s == s[..|s| - 1] + [s[|s| - 1]];
    }
  }

  /** What `split_dot` returns: the text before the first dot, and every
      non-dot character after it. */
  function SplitDotOf(s: string): (r: Result<(string, string), ArgTypeError>)
    ensures r.Ok? <==> '.' in s
    ensures r.Ok? ==> '.' !in r.value.0 && '.' !in r.value.1
    ensures r.Ok? ==> |r.value.0| < |s| && s[..|r.value.0|] == r.value.0 && s[|r.value.0|] == '.'
  {
    if '.' !in s then Err(NoDot(s))
    else
      var k := IndexOf(s, '.');
      Ok((s[..k], Without(s[k + 1..], '.')))
  }

  /** An owner and an enum name joined by one dot split back into the two. */
  lemma SplitDotJoined(owner: string, name: string)
    requires '.' !in owner && '.' !in name
    ensures SplitDotOf(owner + "." + name) == Ok((owner, name))
  {
    var s := owner + "." + name;
    assert s[|owner|] == '.';
    assert s[..|owner|] == owner;
    var k := IndexOf(s, '.');
    assert s[k + 1..] == name;
    WithoutAbsent(name, '.');
  }

  /** `split_dot`: the character loop of `parse_arg_type`. */
  method SplitDot(s: string) returns (r: Result<(string, string), ArgTypeError>)
    ensures r == SplitDotOf(s)
  {
    var first, second := "", "";
    var found := false;
    ghost var k := 0;
    var i := 0;
    while i < |s|
      invariant 0 <= i <= |s|
      invariant !found ==> '.' !in s[..i] && first == s[..i] && second == ""
      invariant found ==> (k < i && s[k] == '.' && '.' !in s[..k] && first == s[..k] &&
                           second == Without(s[k + 1..i], '.'))
    {
      var c := s[i];
      assert s[..i + 1] == s[..i] + [c];
      if c == '.' {
        if !found {
          k := i;
          assert s[k + 1..i + 1] == [];
        } else {
          assert s[k + 1..i + 1] == s[k + 1..i] + [c];
        }
        found := true;
      } else if !found {
        first := first + [c];
      } else {
        assert s[k + 1..i + 1] == s[k + 1..i] + [c];
        second := second + [c];
      }
      i := i + 1;
    }
    if !found {
      assert s[..i] == s;
      return Err(NoDot(s));
    }
    assert '.' in s;
    assert s[k + 1..i] == s[k + 1..];
    return Ok((first, second));
  }

  /* ------------------------------------------------------ parse_arg_type */

  /** The `type` attribute an argument type is read from. */
  function TypeName(t: ArgType): string
  {
    match t
    case Int => "int"
    case UInt => "uint"
    case UIntEnum(_, _) => "uint"
    case Fixed => "fixed"
    case Str => "string"
    case NullStr => "string"
    case Object(_) => "object"
    case NullObject(_) => "object"
    case NewId(_) => "new_id"
    case Array => "array"
    case Fd => "fd"
  }

  predicate KnownTypeName(t: string)
  {
    t == "int" || t == "uint" || t == "fixed" || t == "string" || t == "object" ||
    t == "new_id" || t == "array" || t == "fd"
  }

  function OwnerAttr(m: AttrMap): Option<string>
  {
    if "interface" in m then Some(m["interface"]) else None
  }

  /** `parse_arg_type`: the argument type named by `t`, with the `enum`,
      `interface` and `allow-null` attributes of the same element. */
  function ArgTypeOf(t: string, m: AttrMap): (r: Result<ArgType, ArgTypeError>)
    ensures r.Err? <==> (!KnownTypeName(t) ||
      ((t == "string" || t == "object") && "allow-null" in m && m["allow-null"] != "true"))
    ensures r.Ok? ==> TypeName(r.value) == t
    ensures r.Ok? && (r.value.Object? || r.value.NullObject? || r.value.NewId?) ==>
      r.value.owner == OwnerAttr(m)
    ensures r.Ok? && (t == "string" || t == "object") ==>
      ((r.value.NullStr? || r.value.NullObject?) <==> "allow-null" in m)
    ensures r.Ok? && t == "uint" ==> (r.value.UIntEnum? <==> "enum" in m)
    ensures r.Ok? && r.value.UIntEnum? ==>
      (r.value.owner.None? <==> '.' !in m["enum"]) &&
      (r.value.owner.None? ==> r.value.enumName == m["enum"]) &&
      (r.value.owner.Some? ==> SplitDotOf(m["enum"]) == Ok((r.value.owner.value, r.value.enumName)))
  {
    if t == "int" then Ok(Int)
    else if t == "uint" then
      if "enum" !in m then Ok(UInt)
      else
        var location := m["enum"];
        if '.' !in location then Ok(UIntEnum(location, None))
        else
          match SplitDotOf(location)
          case Err(e) => Err(e)
          case Ok((owner, name)) => Ok(UIntEnum(name, Some(owner)))
    else if t == "fixed" then Ok(Fixed)
    else if t == "string" || t == "object" then
      var plain := if t == "string" then Str else Object(OwnerAttr(m));
      var nullable := if t == "string" then NullStr else NullObject(OwnerAttr(m));
      if "allow-null" !in m then Ok(plain)
      else if m["allow-null"] != "true" then Err(BadAllowNull(m["allow-null"]))
      else Ok(nullable)
    else if t == "new_id" then Ok(NewId(OwnerAttr(m)))
    else if t == "array" then Ok(Array)
    else if t == "fd" then Ok(Fd)
    else Err(UnknownType(t))
  }

  /** `parse_arg_type` as the source runs it, with `split_dot`'s loop. */
  method ParseArgType(t: string, m: AttrMap) returns (r: Result<ArgType, ArgTypeError>)
    ensures r == ArgTypeOf(t, m)
  {
    if t == "int" { return Ok(Int); }
    if t == "uint" {
      if "enum" !in m { return Ok(UInt); }
      var location := m["enum"];
      if '.' !in location { return Ok(UIntEnum(location, None)); }
      var parts := SplitDot(location);
      match parts {
        case Ok((owner, name)) => return Ok(UIntEnum(name, Some(owner)));
        case Err(_) => assert false;
      }
    }
    if t == "fixed" { return Ok(Fixed); }
    if t == "string" || t == "object" {
      var plain := if t == "string" then Str else Object(OwnerAttr(m));
      var nullable := if t == "string" then NullStr else NullObject(OwnerAttr(m));
      if "allow-null" !in m { return Ok(plain); }
      if m["allow-null"] != "true" { return Err(BadAllowNull(m["allow-null"])); }
      return Ok(nullable);
    }
    if t == "new_id" { return Ok(NewId(OwnerAttr(m))); }
    if t == "array" { return Ok(Array); }
    if t == "fd" { return Ok(Fd); }
    return Err(UnknownType(t));
  }

  /* ------------------------------------------------------ start elements */

  function Lookup(m: AttrMap, key: string): (r: Result<string, ParseError>)
    ensures r.Ok? <==> key in m
    ensures r.Ok? ==> r.value == m[key]
    ensures r.Err? ==> r.error == MissingAttribute(key)
  {
    if key in m then Ok(m[key]) else Err(MissingAttribute(key))
  }

  /** The `since` of a request or event: read only by the newer parser. */
  function SinceOf(readSince: bool, m: AttrMap): Result<Option<U32>, ParseError>
  {
    if readSince && "since" in m then
      match ParseU32(m["since"], 10)
      case Ok(v) => Ok(Some(v))
      case Err(e) => Err(BadSince(m["since"], e))
    else Ok(None)
  }

  /** A request's `type`: absent, or exactly "destructor". */
  function DestructorOf(m: AttrMap): Result<bool, ParseError>
  {
    if "type" !in m then Ok(false)
    else if m["type"] == "destructor" then Ok(true)
    else Err(UnknownRequestType(m["type"]))
  }

  /** An entry value is hexadecimal when it is longer than two characters and
      starts with `0x` or `0X`. */
  predicate IsHexLiteral(v: string)
  {
    |v| > 2 && v[0] == '0' && (v[1] == 'x' || v[1] == 'X')
  }

  /** The digits `parse_entry` hands to `parse_num`, and their base. */
  function EntryDigits(v: string): (string, nat)
  {
    if IsHexLiteral(v) then (v[2..], 16) else (v, 10)
  }

  function Kind(t: Target): Tag
  {
    match t
    case TArg(_) => ArgTag
    case TEnum(_) => EnumTag
    case TEntry(_) => EntryTag
    case TRequest(_) => RequestTag
    case TEvent(_) => EventTag
    case TInterface(_) => InterfaceTag
    case TProtocol(_) => ProtocolTag
  }

  /** A target with nothing appended to it yet. */
  predicate Childless(t: Target)
  {
    match t
    case TArg(_) => true
    case TEnum(e) => e.entries == []
    case TEntry(_) => true
    case TRequest(m) => m.args == []
    case TEvent(m) => m.args == []
    case TInterface(i) => i.requests == [] && i.events == [] && i.enums == []
    case TProtocol(p) => p.interfaces == []
  }

  /** The target a start tag pushes (`parse_protocol` ... `parse_entry`):
      the attributes are read in the source's order, so the first missing
      or malformed one is the error. */
  function OpenTarget(readSince: bool, tag: Tag, m: AttrMap): (r: Result<Target, ParseError>)
    ensures r.Ok? ==> Kind(r.value) == tag && Childless(r.value)
    ensures r.Ok? && tag != EnumTag ==> "name" in m
    ensures r.Ok? && (r.value.TRequest? || r.value.TEvent?) ==>
      (r.value.msg.since.Some? <==> readSince && "since" in m)
    ensures r.Ok? && r.value.TEvent? ==> !r.value.msg.destructor
    ensures r.Ok? && r.value.TEntry? ==>
      ("value" in m && r.value.entry.isHex == IsHexLiteral(m["value"]) &&
       r.value.entry.value == ValueOf(EntryDigits(m["value"]).0, EntryDigits(m["value"]).1))
  {
    match tag
    case ProtocolTag =>
      var name :- Lookup(m, "name");
      Ok(TProtocol(Protocol(name, [])))
    case InterfaceTag =>
      var name :- Lookup(m, "name");
      var text :- Lookup(m, "version");
      (match ParseU32(text, 10)
       case Err(e) => Err(BadVersion(text, e))
       case Ok(v) => Ok(TInterface(Interface(name, v, [], [], []))))
    case RequestTag =>
      var name :- Lookup(m, "name");
      var destructor :- DestructorOf(m);
      var since :- SinceOf(readSince, m);
      Ok(TRequest(Message(name, destructor, since, [])))
    case EventTag =>
      var name :- Lookup(m, "name");
      var since :- SinceOf(readSince, m);
      Ok(TEvent(Message(name, false, since, [])))
    case ArgTag =>
      var name :- Lookup(m, "name");
      var text :- Lookup(m, "type");
      (match ArgTypeOf(text, m)
       case Err(e) => Err(BadArgType(text, e))
       case Ok(ty) => Ok(TArg(Arg(name, ty))))
    case EnumTag =>
      if "name" !in m then Err(UnnamedEnum) else Ok(TEnum(Enum(m["name"], [])))
    case EntryTag =>
      var name :- Lookup(m, "name");
      var text :- Lookup(m, "value");
      var (digits, base) := EntryDigits(text);
      (match ParseU32(digits, base)
       case Err(e) => Err(BadEntryValue(digits, e))
       case Ok(v) => Ok(TEntry(Entry(name, v, IsHexLiteral(text)))))
  }

  /** `parse_arg`, calling `parse_arg_type` with its loop. */
  method ParseArg(readSince: bool, m: AttrMap) returns (r: Result<Target, ParseError>)
    ensures r == OpenTarget(readSince, ArgTag, m)
  {
    if "name" !in m { return Err(MissingAttribute("name")); }
    if "type" !in m { return Err(MissingAttribute("type")); }
    var text := m["type"];
    var ty := ParseArgType(text, m);
    if ty.Err? { return Err(BadArgType(text, ty.error)); }
    return Ok(TArg(Arg(m["name"], ty.value)));
  }

  /* -------------------------------------------------------- end elements */

  /** Which elements a finished element may be appended to. */
  predicate Accepts(parent: Tag, child: Tag)
  {
    match child
    case ProtocolTag => false
    case InterfaceTag => parent == ProtocolTag
    case RequestTag => parent == InterfaceTag
    case EventTag => parent == InterfaceTag
    case EnumTag => parent == InterfaceTag
    case ArgTag => parent == RequestTag || parent == EventTag
    case EntryTag => parent == EnumTag
  }

  /** How many children a target holds. */
  function Children(t: Target): nat
  {
    match t
    case TArg(_) => 0
    case TEnum(e) => |e.entries|
    case TEntry(_) => 0
    case TRequest(m) => |m.args|
    case TEvent(m) => |m.args|
    case TInterface(i) => |i.requests| + |i.events| + |i.enums|
    case TProtocol(p) => |p.interfaces|
  }

  /** The parent with the finished child appended to the matching list (the
      visitors of `fin_request`, `fin_event`, `fin_arg` and the `std::get`
      of `fin_interface`, `fin_enum`, `fin_entry`). */
  function Adopt(parent: Target, child: Target): (r: Result<Target, ParseError>)
    ensures r.Ok? <==> Accepts(Kind(parent), Kind(child))
    ensures r.Ok? ==> Kind(r.value) == Kind(parent) && Children(r.value) == Children(parent) + 1
  {
    match child
    case TInterface(i) =>
      if parent.TProtocol? then
        Ok(TProtocol(parent.proto.(interfaces := parent.proto.interfaces + [i])))
      else Err(WrongTarget(ProtocolTag))
    case TRequest(msg) =>
      if parent.TInterface? then
        Ok(TInterface(parent.iface.(requests := parent.iface.requests + [msg])))
      else Err(Misplaced(RequestTag))
    case TEvent(msg) =>
      if parent.TInterface? then
        Ok(TInterface(parent.iface.(events := parent.iface.events + [msg])))
      else Err(Misplaced(EventTag))
    case TEnum(e) =>
      if parent.TInterface? then
        Ok(TInterface(parent.iface.(enums := parent.iface.enums + [e])))
      else Err(WrongTarget(InterfaceTag))
    case TArg(a) =>
      (match parent
       case TRequest(msg) => Ok(TRequest(msg.(args := msg.args + [a])))
       case TEvent(msg) => Ok(TEvent(msg.(args := msg.args + [a])))
       case _ => Err(Misplaced(ArgTag)))
    case TEntry(e) =>
      if parent.TEnum? then Ok(TEnum(parent.en.(entries := parent.en.entries + [e])))
      else Err(WrongTarget(EnumTag))
    case TProtocol(_) => Err(WrongTarget(ProtocolTag))
  }

  /** What an end tag does (`fin_protocol` ... `fin_entry`). */
  function CloseTarget(tag: Tag, s: ParserState): (r: Result<ParserState, ParseError>)
    ensures tag == ProtocolTag ==>
      (r.Ok? <==> s.output.None? && |s.targets| >= 1 && s.targets[|s.targets| - 1].TProtocol?)
    ensures tag == ProtocolTag && r.Ok? ==>
      r.value == ParserState(s.targets[..|s.targets| - 1], Some(s.targets[|s.targets| - 1].proto))
    ensures tag != ProtocolTag ==>
      (r.Ok? <==> |s.targets| >= 2 && Kind(s.targets[|s.targets| - 1]) == tag &&
                  Accepts(Kind(s.targets[|s.targets| - 2]), tag))
    ensures tag != ProtocolTag && r.Ok? ==>
      var n := |s.targets|;
      r.value.output == s.output && |r.value.targets| == n - 1 &&
      r.value.targets[..n - 2] == s.targets[..n - 2] &&
      Kind(r.value.targets[n - 2]) == Kind(s.targets[n - 2]) &&
      Children(r.value.targets[n - 2]) == Children(s.targets[n - 2]) + 1
  {
    var n := |s.targets|;
    if tag == ProtocolTag then
      if s.output.Some? then Err(MultipleProtocols)
      else if n == 0 then Err(EmptyStack)
      else if !s.targets[n - 1].TProtocol? then Err(WrongTarget(ProtocolTag))
      else Ok(ParserState(s.targets[..n - 1], Some(s.targets[n - 1].proto)))
    else if n == 0 then Err(EmptyStack)
    else if Kind(s.targets[n - 1]) != tag then Err(WrongTarget(tag))
    else if n == 1 then Err(EmptyStack)
    else
      var parent :- Adopt(s.targets[n - 2], s.targets[n - 1]);
      Ok(ParserState(s.targets[..n - 2] + [parent], s.output))
  }

  /** Closing an element that has no element beneath it, such as a root
      `<interface>`: `fin_interface` calls `top()` on the emptied stack,
      which C++ leaves undefined; the model reports `EmptyStack`. */
  lemma RootElementClose(t: Target)
    requires !t.TProtocol?
    ensures CloseTarget(Kind(t), ParserState([t], None)) == Err(EmptyStack)
  {
  }

  /* ----------------------------------------------------------- the run */

  /** `start`: unknown elements are skipped before their attributes are
      looked at; a known one pushes its new target. */
  function StartStep(readSince: bool, s: ParserState, name: string, attrs: seq<Attribute>)
    : Result<ParserState, ParseError>
  {
    match ParseTag(name)
    case None => Ok(s)
    case Some(tag) =>
      var m :- AttrMapOf(attrs);
      var t :- OpenTarget(readSince, tag, m);
      Ok(s.(targets := s.targets + [t]))
  }

  /** `end`: unknown elements are skipped. */
  function EndStep(s: ParserState, name: string): Result<ParserState, ParseError>
  {
    match ParseTag(name)
    case None => Ok(s)
    case Some(tag) => CloseTarget(tag, s)
  }

  function Step(readSince: bool, s: ParserState, e: XmlEvent): Result<ParserState, ParseError>
  {
    match e
    case Start(name, attrs) => StartStep(readSince, s, name, attrs)
    case End(name) => EndStep(s, name)
  }

  /** The state after the events, or the first error (an exception ends the parse). */
  function Run(readSince: bool, s: ParserState, events: seq<XmlEvent>): Result<ParserState, ParseError>
    decreases |events|
  {
    if events == [] then Ok(s)
    else
      var next :- Step(readSince, s, events[0]);
      Run(readSince, next, events[1..])
  }

  /** `parse_protocol` over a tokenized document: run every event, then `get`. */
  function ParseEvents(readSince: bool, events: seq<XmlEvent>): Result<Protocol, ParseError>
  {
    var s :- Run(readSince, Initial, events);
    if s.output.None? then Err(NoProtocol) else Ok(s.output.value)
  }

  lemma {:induction false} RunAppend(readSince: bool, s: ParserState, a: seq<XmlEvent>, b: seq<XmlEvent>)
    ensures Run(readSince, s, a + b) ==
      (match Run(readSince, s, a)
       case Ok(mid) => Run(readSince, mid, b)
       case Err(e) => Err(e))
    decreases |a|
  {
    if a != [] {
      assert (a + b)[0] == a[0] && (a + b)[1..] == a[1..] + b;
      var next := Step(readSince, s, a[0]);
      if next.Ok? {
        RunAppend(readSince, next.value, a[1..], b);
        assert Run(readSince, s, a + b) == Run(readSince, next.value, a[1..] + b);
        assert Run(readSince, s, a) == Run(readSince, next.value, a[1..]);
      } else {
        assert Run(readSince, s, a + b) == Err(next.error);
        assert Run(readSince, s, a) == Err(next.error);
      }
    } else {
      assert a + b == b;
    }
  }

  /** An element the parser does not know is skipped with whatever
      attributes it has, even repeated ones. */
  lemma UnknownElementSkipped(readSince: bool, s: ParserState, a: seq<XmlEvent>, name: string,
                              attrs: seq<Attribute>, b: seq<XmlEvent>)
    requires ParseTag(name).None?
    ensures Run(readSince, s, a + [Start(name, attrs), End(name)] + b) == Run(readSince, s, a + b)
  {
    var skip := [Start(name, attrs), End(name)];
    assert a + skip + b == a + (skip + b);
    RunAppend(readSince, s, a, skip + b);
    RunAppend(readSince, s, a, b);
    var r := Run(readSince, s, a);
    if r.Ok? {
      assert (skip + b)[0] == Start(name, attrs) && (skip + b)[1..] == [End(name)] + b;
      assert ([End(name)] + b)[0] == End(name) && ([End(name)] + b)[1..] == b;
    }
  }

  /* ---------------------------------------------------------- the class */

  /** `ProtoParser`: the target stack and the output protocol, updated by the
      tokenizer's callbacks. */
  class ProtoParser {
    const readSince: bool
    var targets: seq<Target>
    var output: Option<Protocol>

    function State(): ParserState
      reads this
    {
      ParserState(targets, output)
    }

    constructor(readSince: bool)
      ensures this.readSince == readSince && State() == Initial
    {
      this.readSince := readSince;
      targets := [];
      output := None;
    }

    /** The `start` callback. The state after a failure is not specified: the
        exception ends the parse. */
    method Start(name: string, attrs: seq<Attribute>) returns (o: Outcome<ParseError>)
      modifies this
      ensures match StartStep(readSince, old(State()), name, attrs)
              case Ok(s) => o == Pass && State() == s
              case Err(e) => o == Fail(e)
    {
      var known := ParseTag(name);
      if known.None? {
        return Pass;
      }
      var m := MakeAttrMap(attrs);
      if m.Err? {
        return Fail(m.error);
      }
      var t: Result<Target, ParseError>;
      if known.value == ArgTag {
        t := ParseArg(readSince, m.value);
      } else {
        t := OpenTarget(readSince, known.value, m.value);
      }
      if t.Err? {
        return Fail(t.error);
      }
      targets := targets + [t.value];
      return Pass;
    }

    /** The `end` callback. */
    method End(name: string) returns (o: Outcome<ParseError>)
      modifies this
      ensures match EndStep(old(State()), name)
              case Ok(s) => o == Pass && State() == s
              case Err(e) => o == Fail(e)
    {
      var known := ParseTag(name);
      if known.None? {
        return Pass;
      }
      var r := CloseTarget(known.value, State());
      if r.Err? {
        return Fail(r.error);
      }
      targets := r.value.targets;
      output := r.value.output;
      return Pass;
    }

    /** `get`: the closed protocol. */
    function Get(): (r: Result<Protocol, ParseError>)
      reads this
      ensures r.Ok? <==> output.Some?
      ensures r.Ok? ==> r.value == output.value
    {
      if output.None? then Err(NoProtocol) else Ok(output.value)
    }
  }

  /** The free function `parse_protocol`: a fresh parser fed every event in
      order; the first failure ends the parse. */
  method Parse(readSince: bool, events: seq<XmlEvent>) returns (r: Result<Protocol, ParseError>)
    ensures r == ParseEvents(readSince, events)
  {
    var p := new ProtoParser(readSince);
    var i := 0;
    while i < |events|
      invariant 0 <= i <= |events|
      invariant p.readSince == readSince
      invariant Run(readSince, p.State(), events[i..]) == Run(readSince, Initial, events)
    {
      var e := events[i];
      assert events[i..][0] == e && events[i..][1..] == events[i + 1..];
      var o: Outcome<ParseError>;
      match e {
        case Start(name, attrs) => o := p.Start(name, attrs);
        case End(name) => o := p.End(name);
      }
      if o.Fail? {
        return Err(o.error);
      }
      i := i + 1;
    }
    assert events[i..] == [];
    r := p.Get();
  }
}

/** The protocol description that both parser generations build and every
    generator reads (Types.hh): a protocol holds interfaces, an interface holds
    requests, events and enums, a message holds typed arguments. */
module Types {
  import opened Wrappers
  import opened Text

  /** The type of one message argument. `owner` is the optional `interface`
      attribute of the types that may name an interface; an enum argument may
      name the interface that declares the enum. */
  datatype ArgType =
    | Int
    | UInt
    | UIntEnum(enumName: string, owner: Option<string>)
    | Fixed
    | Str
    | NullStr
    | Object(owner: Option<string>)
    | NullObject(owner: Option<string>)
    | NewId(owner: Option<string>)
    | Array
    | Fd
  {
    /** The types that carry an interface name (`InterfaceNameable`). */
    predicate Nameable()
    {
      UIntEnum? || Object? || NullObject? || NewId?
    }
  }

  datatype Arg = Arg(name: string, ty: ArgType)

  datatype Entry = Entry(name: string, value: U32, isHex: bool)

  datatype Enum = Enum(name: string, entries: seq<Entry>)

  /** A request or an event. `destructor` is the `type="destructor"` of a
      request; `since` is the version attribute the newer parser reads. */
  datatype Message = Message(name: string, destructor: bool, since: Option<U32>, args: seq<Arg>)

  datatype Interface = Interface(
    name: string,
    version: U32,
    requests: seq<Message>,
    events: seq<Message>,
    enums: seq<Enum>)

  datatype Protocol = Protocol(name: string, interfaces: seq<Interface>)

  /** How many arguments of a message have the given shape. */
  function CountArgs(args: seq<Arg>, p: ArgType -> bool): (n: nat)
    ensures n <= |args|
  {
    if args == [] then 0 else (if p(args[0].ty) then 1 else 0) + CountArgs(args[1..], p)
  }

  /** Names of all interfaces of a protocol, in declaration order. */
  function InterfaceNames(ifaces: seq<Interface>): (names: seq<string>)
    ensures |names| == |ifaces|
    ensures forall i :: 0 <= i < |ifaces| ==> names[i] == ifaces[i].name
  {
    seq(|ifaces|, i requires 0 <= i < |ifaces| => ifaces[i].name)
  }
}

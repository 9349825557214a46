/** The wire signature of a message (HeaderGena.cc, `rtti::ArgsSignantureVisitor`
    and the signature part of `rtti::Message`): the `since` version in decimal
    when it is above 1, then one type code per argument. The reading side is
    the signature grammar of libwayland's `wl_message`: an optional leading
    version, then per wire argument an optional `?` (nullable) and one of the
    codes `i u f s o n a h`. */
module WireSignature {
  import opened Wrappers
  import opened Text
  import opened Types

  /** The code of one argument. `asWritten` selects the generator's code for
      a new_id that names its interface ("i"); otherwise that argument gets
      the new_id code "n" that the wire format defines for it. */
  function ArgCode(t: ArgType, asWritten: bool): string
  {
    match t
    case Int => "i"
    case UInt => "u"
    case UIntEnum(_, _) => "u"
    case Fixed => "f"
    case Str => "s"
    case NullStr => "?s"
    case Object(_) => "o"
    case NullObject(_) => "?o"
    case NewId(owner) => if owner.None? then "sun" else if asWritten then "i" else "n"
    case Array => "a"
    case Fd => "h"
  }

  function Codes(args: seq<Arg>, asWritten: bool): string
  {
    if args == [] then "" else ArgCode(args[0].ty, asWritten) + Codes(args[1..], asWritten)
  }

  lemma {:induction false} CodesAppend(args: seq<Arg>, a: Arg, asWritten: bool)
    ensures Codes(args + [a], asWritten) == Codes(args, asWritten) + ArgCode(a.ty, asWritten)
  {
    if args == [] {
      assert [] + [a] == [a];
      assert [a][1..] == [];
    } else {
      assert (args + [a])[1..] == args[1..] + [a];
      CodesAppend(args[1..], a, asWritten);
    }
  }

  /** The version prefix: the decimal `since`, only when it is above 1. */
  function SincePrefix(m: Message): string
  {
    if m.since.Some? && m.since.value > 1 then Decimal(m.since.value) else ""
  }

  /** The signature the model uses: typed new_id arguments get "n". */
  function Signature(m: Message): string
  {
    SincePrefix(m) + Codes(m.args, false)
  }

  /** The signature as HeaderGena.cc writes it: typed new_id arguments get "i". */
  function SignatureAsWritten(m: Message): string
  {
    SincePrefix(m) + Codes(m.args, true)
  }

  /* ------------------------------------------------- the reading side */

  /** One argument as the wire protocol sees it. */
  datatype WireArg = WireArg(code: char, nullable: bool)

  datatype SignatureError = UnknownCode(c: char) | DanglingNullable

  predicate IsWireCode(c: char)
  {
    c == 'i' || c == 'u' || c == 'f' || c == 's' || c == 'o' || c == 'n' || c == 'a' || c == 'h'
  }

  /** The arguments a signature declares, after its version prefix. */
  function ReadArgs(s: string): Result<seq<WireArg>, SignatureError>
    decreases |s|
  {
    if s == [] then Ok([])
    else if s[0] == '?' then
      if |s| < 2 || !IsWireCode(s[1]) then Err(DanglingNullable)
      else
        var rest :- ReadArgs(s[2..]);
        Ok([WireArg(s[1], true)] + rest)
    else if IsWireCode(s[0]) then
      var rest :- ReadArgs(s[1..]);
      Ok([WireArg(s[0], false)] + rest)
    else Err(UnknownCode(s[0]))
  }

  /** The version and the arguments of a signature; a signature without a
      version prefix (or with version 0) stands for version 1. */
  function ReadSignature(s: string): Result<(nat, seq<WireArg>), SignatureError>
  {
    var k := DigitRun(s, 10);
    var v := ValueOf(s[..k], 10);
    var args :- ReadArgs(s[k..]);
    Ok((if v == 0 then 1 else v, args))
  }

  /* ------------------------------------------------- the intended meaning */

  /** What each argument kind is on the wire: enums travel as uint, a
      new_id without an interface as the interface name, its version and the
      new id, nullable strings and objects carry the nullable mark. */
  function WireOf(t: ArgType): seq<WireArg>
  {
    match t
    case Int => [WireArg('i', false)]
    case UInt => [WireArg('u', false)]
    case UIntEnum(_, _) => [WireArg('u', false)]
    case Fixed => [WireArg('f', false)]
    case Str => [WireArg('s', false)]
    case NullStr => [WireArg('s', true)]
    case Object(_) => [WireArg('o', false)]
    case NullObject(_) => [WireArg('o', true)]
    case NewId(owner) =>
      if owner.None? then [WireArg('s', false), WireArg('u', false), WireArg('n', false)]
      else [WireArg('n', false)]
    case Array => [WireArg('a', false)]
    case Fd => [WireArg('h', false)]
  }

  function WireOfArgs(args: seq<Arg>): seq<WireArg>
  {
    if args == [] then [] else WireOf(args[0].ty) + WireOfArgs(args[1..])
  }

  /** The version a message is available from: its `since`, 1 when absent. */
  function EffectiveSince(m: Message): nat
  {
    if m.since.Some? && m.since.value > 1 then m.since.value else 1
  }

  /* ------------------------------------------------- the round trip */

  /** Reading one argument's code in front of a signature tail yields that
      argument's wire form in front of what the tail yields. */
  lemma ReadArgCode(t: ArgType, rest: string)
    ensures ReadArgs(ArgCode(t, false) + rest) ==
      if ReadArgs(rest).Ok? then Ok(WireOf(t) + ReadArgs(rest).value) else ReadArgs(rest)
  {
    var s := ArgCode(t, false) + rest;
    if t.NewId? && t.owner.None? {
      assert s[1..] == "un" + rest;
      assert s[1..][1..] == "n" + rest;
      assert s[1..][1..][1..] == rest;
      assert s[0] == 's' && s[1..][0] == 'u' && s[1..][1..][0] == 'n';
      if ReadArgs(rest).Ok? {
        var r := ReadArgs(rest).value;
        assert ReadArgs(s[1..][1..]) == Ok([WireArg('n', false)] + r);
        assert ReadArgs(s[1..]) == Ok([WireArg('u', false)] + ([WireArg('n', false)] + r));
        assert ReadArgs(s) == Ok([WireArg('s', false)] + ([WireArg('u', false)] + ([WireArg('n', false)] + r)));
        assert [WireArg('s', false)] + ([WireArg('u', false)] + ([WireArg('n', false)] + r)) == WireOf(t) + r;
      } else {
        assert ReadArgs(s[1..][1..]) == ReadArgs(rest);
        assert ReadArgs(s[1..]) == ReadArgs(rest);
      }
    } else if t.NullStr? || t.NullObject? {
      assert s[2..] == rest;
    } else {
      assert s[1..] == rest;
    }
  }

  lemma {:induction false} ReadCodes(args: seq<Arg>)
    ensures ReadArgs(Codes(args, false)) == Ok(WireOfArgs(args))
  {
    if args != [] {
      ReadCodes(args[1..]);
      ReadArgCode(args[0].ty, Codes(args[1..], false));
    }
  }

  /** No argument code starts with a decimal digit. */
  lemma CodesStartNonDigit(args: seq<Arg>)
    ensures Codes(args, false) == [] || !IsDigit(Codes(args, false)[0], 10)
  {
    if args != [] {
      assert Codes(args, false)[0] == ArgCode(args[0].ty, false)[0];
    }
  }

  /** The digit run of a digit string followed by a non-digit is that string. */
  lemma {:induction false} DigitRunOfPrefix(a: string, rest: string)
    requires AllDigits(a, 10)
    requires rest == [] || !IsDigit(rest[0], 10)
    ensures DigitRun(a + rest, 10) == |a|
    decreases |a|
  {
    if a != [] {
      assert (a + rest)[1..] == a[1..] + rest;
      DigitRunOfPrefix(a[1..], rest);
    } else {
      assert a + rest == rest;
    }
  }

  /** libwayland reads back from the signature exactly the version the
      message is available from and the wire form of its arguments in order. */
  lemma SignatureReadBack(m: Message)
    ensures ReadSignature(Signature(m)) == Ok((EffectiveSince(m), WireOfArgs(m.args)))
  {
    var p, c := SincePrefix(m), Codes(m.args, false);
    var s := p + c;
    CodesStartNonDigit(m.args);
    ReadCodes(m.args);
    if m.since.Some? && m.since.value > 1 {
      DigitsShape(m.since.value, 10);
    }
    DigitRunOfPrefix(p, c);
    assert s[..|p|] == p;
    assert s[|p|..] == c;
  }

  /** The two signatures differ only for typed new_id arguments. */
  lemma {:induction false} SignaturesAgree(args: seq<Arg>)
    requires forall i :: 0 <= i < |args| ==> !(args[i].ty.NewId? && args[i].ty.owner.Some?)
    ensures Codes(args, true) == Codes(args, false)
  {
    if args != [] {
      SignaturesAgree(args[1..]);
    }
  }

  /** `wl_display.get_registry` (one new_id argument of interface
      `wl_registry`): the signature as written declares an int where the wire
      format needs the new id. */
  lemma TypedNewIdReadAsInt()
    ensures var m := Message("get_registry", false, None, [Arg("registry", NewId(Some("wl_registry")))]);
      SignatureAsWritten(m) == "i" &&
      ReadSignature(SignatureAsWritten(m)) == Ok((1, [WireArg('i', false)])) &&
      WireOfArgs(m.args) == [WireArg('n', false)] &&
      Signature(m) == "n"
  {
    var m := Message("get_registry", false, None, [Arg("registry", NewId(Some("wl_registry")))]);
    assert Codes(m.args, true) == "i" + Codes(m.args[1..], true);
    assert Codes(m.args, false) == "n" + Codes(m.args[1..], false);
    var s := SignatureAsWritten(m);
    assert s == "i";
    assert DigitRun(s, 10) == 0;
    assert s[..0] == [] && s[0..] == s;
    assert |s| == 1 && s[0] == 'i' && s[1..] == [];
    assert ReadArgs(s[1..]) == Ok([]);
    assert [WireArg('i', false)] + [] == [WireArg('i', false)];
    assert ReadArgs(s) == Ok([WireArg('i', false)]);
  }
}

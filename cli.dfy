/** The newer command line (NewGenaMain.cc): `json <protocol_file>` dumps a
    protocol, `header <protocol_file> <output_file> [--includes ...]
    [--context_protocols ...]` generates the C++ header. The model covers
    how the argument vector is read; reading and writing files is not part
    of it. */
module GenaCli {
  import opened Wrappers
  import opened Text
  import opened JsonFormat
  import opened ArgLists

  /* ------------------------------------------------------------ json */

  datatype JsonArgs = JsonArgs(protoFile: string)

  /** `parse_json_mode_args`: exactly one argument, the protocol file. */
  function JsonModeOf(args: seq<string>): (r: Result<JsonArgs, string>)
    ensures r.Ok? <==> |args| == 1
    ensures r.Ok? ==> r.value.protoFile == args[0]
  {
    if args == [] then Err("Expected <protocol_file> argument")
    else if |args| != 1 then Err("Expected <protocol_file> only: got " + LeftoverText(args))
    else Ok(JsonArgs(args[0]))
  }

  method ParseJsonModeArgs(args: seq<string>) returns (r: Result<JsonArgs, string>)
    ensures r == JsonModeOf(args)
  {
    if args == [] {
      return Err("Expected <protocol_file> argument");
    }
    if |args| != 1 {
      var decorated := Decorate(args);
      var listed := WriteVector(decorated);
      return Err("Expected <protocol_file> only: got " + listed);
    }
    r := Ok(JsonArgs(args[0]));
  }

  /* --------------------------------------------------- comma lists */

  /** The character loop that cuts an option value at every comma,
      keeping empty pieces. */
  method SplitCommas(value: string) returns (pieces: seq<string>)
    ensures pieces == SplitOn(value, ',')
  {
    pieces := [[]];
    var i := 0;
    while i < |value|
      invariant 0 <= i <= |value|
      invariant pieces == SplitOn(value[..i], ',')
    {
      var c := value[i];
      SplitOnSnoc(value[..i], c, ',');
      assert value[..i + 1] == value[..i] + [c];
      if c == ',' {
        pieces := pieces + [[]];
      } else {
        pieces := pieces[..|pieces| - 1] + [pieces[|pieces| - 1] + [c]];
      }
      i := i + 1;
    }
    assert value[..i] == value;
  }

  /** Appending one character either opens a new piece (a comma) or extends
      the last one. */
  lemma {:induction false} SplitOnSnoc(s: string, c: char, sep: char)
    ensures var p := SplitOn(s, sep);
      SplitOn(s + [c], sep) == Snoc(p, c, sep)
    decreases |s|
  {
    if s == [] {
      assert s + [c] == [c] && [c][1..] == [];
      assert SplitOn([], sep) == [[]];
      if c != sep {
        assert SplitOn([c], sep) == [[c] + []] + [];
        assert [c] + [] == [c];
        assert [[c] + []] + [] == [[c]];
        assert Snoc([[]], c, sep) == [[] + [c]];
      }
    } else {
      var h := s[0];
      var t := s[1..];
      assert (s + [c])[0] == h && (s + [c])[1..] == t + [c];
      SplitOnSnoc(t, c, sep);
      var r := SplitOn(t, sep);
      if h == sep {
        SnocBehindEmpty(r, c, sep);
      } else {
        SnocBehindChar(h, r, c, sep);
      }
    }
  }

  /** The pieces after one more character: a new piece for the separator,
      the last piece extended otherwise. */
  function Snoc(p: seq<string>, c: char, sep: char): seq<string>
    requires |p| >= 1
  {
    if c == sep then p + [[]] else p[..|p| - 1] + [p[|p| - 1] + [c]]
  }

  lemma SnocBehindEmpty(r: seq<string>, c: char, sep: char)
    requires |r| >= 1
    ensures [[]] + Snoc(r, c, sep) == Snoc([[]] + r, c, sep)
  {
    if c != sep {
      assert ([[]] + r)[..|r|] == [[]] + r[..|r| - 1];
    }
  }

  lemma SnocBehindChar(h: char, r: seq<string>, c: char, sep: char)
    requires |r| >= 1
    ensures var r' := Snoc(r, c, sep);
      [[h] + r'[0]] + r'[1..] == Snoc([[h] + r[0]] + r[1..], c, sep)
  {
    var r' := Snoc(r, c, sep);
    var p := [[h] + r[0]] + r[1..];
    if c == sep {
      assert r'[0] == r[0] && r'[1..] == r[1..] + [[]];
    } else if |r| == 1 {
      assert r' == [r[0] + [c]] && r'[1..] == [];
      assert [h] + r'[0] == ([h] + r[0]) + [c];
    } else {
      assert r'[0] == r[0] && r'[1..] == r[1..|r| - 1] + [r[|r| - 1] + [c]];
      assert p[..|p| - 1] == [[h] + r[0]] + r[1..|r| - 1];
    }
  }

  /** The pieces that are not empty, in their order. */
  function NonEmpty(pieces: seq<string>): (r: seq<string>)
    ensures |r| <= |pieces|
    ensures forall k :: 0 <= k < |r| ==> r[k] != []
    ensures forall x :: x in r <==> x in pieces && x != []
  {
    if pieces == [] then []
    else
      var init := pieces[..|pieces| - 1];
      var last := pieces[|pieces| - 1];
      assert pieces == init + [last];
      NonEmpty(init) + (if last == [] then [] else [last])
  }

  /** A list without empty pieces passes through unchanged. */
  lemma {:induction false} NonEmptyKeeps(pieces: seq<string>)
    requires forall k :: 0 <= k < |pieces| ==> pieces[k] != []
    ensures NonEmpty(pieces) == pieces
  {
    if pieces != [] {
      var init := pieces[..|pieces| - 1];
      NonEmptyKeeps(init);
      assert pieces == init + [pieces[|pieces| - 1]];
    }
  }

  /** The `remove_if` of empty pieces. */
  method DropEmpty(pieces: seq<string>) returns (out: seq<string>)
    ensures out == NonEmpty(pieces)
  {
    out := [];
    var i := 0;
    while i < |pieces|
      invariant 0 <= i <= |pieces|
      invariant out == NonEmpty(pieces[..i])
    {
      assert pieces[..i + 1][..i] == pieces[..i];
      if pieces[i] != [] {
        out := out + [pieces[i]];
      }
      i := i + 1;
    }
    assert pieces[..i] == pieces;
  }

  /* ----------------------------------------------------- includes */

  /** How an include is written into the header: a piece starting with `/`
      becomes a system include `<...>` (the slash replaced), any other a
      quoted one. */
  function IncludeLine(piece: string): (line: string)
    requires piece != []
    ensures |line| >= 2 && (line[0] == '<' <==> piece[0] == '/')
    ensures piece[0] == '/' ==> line[0] == '<' && line[|line| - 1] == '>' && line[1..|line| - 1] == piece[1..]
    ensures piece[0] != '/' ==> line[0] == '"' && line[|line| - 1] == '"' && line[1..|line| - 1] == piece
    ensures IncludeName(line) == piece
  {
    if piece[0] == '/' then "<" + piece[1..] + ">" else "\"" + piece + "\""
  }

  /** The file an include line names, written back as it was given. */
  function IncludeName(line: string): string
    requires |line| >= 2
  {
    if line[0] == '<' then "/" + line[1..|line| - 1] else line[1..|line| - 1]
  }

  function IncludeLines(pieces: seq<string>): (lines: seq<string>)
    requires forall k :: 0 <= k < |pieces| ==> pieces[k] != []
    ensures |lines| == |pieces|
    ensures forall k :: 0 <= k < |pieces| ==> lines[k] == IncludeLine(pieces[k])
  {
    seq(|pieces|, k requires 0 <= k < |pieces| => IncludeLine(pieces[k]))
  }

  /** The decorating loop, rewriting each piece in place. */
  method DecorateIncludes(pieces: seq<string>) returns (lines: seq<string>)
    requires forall k :: 0 <= k < |pieces| ==> pieces[k] != []
    ensures lines == IncludeLines(pieces)
  {
    lines := pieces;
    var k := 0;
    while k < |lines|
      invariant 0 <= k <= |lines| == |pieces|
      invariant forall j :: 0 <= j < k ==> lines[j] == IncludeLine(pieces[j])
      invariant forall j :: k <= j < |lines| ==> lines[j] == pieces[j]
    {
      if lines[k][0] == '/' {
        lines := lines[k := "<" + lines[k][1..] + ">"];
      } else {
        lines := lines[k := "\"" + lines[k] + "\""];
      }
      k := k + 1;
    }
  }

  /** The include lines an `--includes` value asks for. */
  function IncludesOf(value: string): seq<string>
  {
    IncludeLines(NonEmpty(SplitOn(value, ',')))
  }

  function IncludeNames(lines: seq<string>): (names: seq<string>)
    requires forall k :: 0 <= k < |lines| ==> |lines[k]| >= 2
    ensures |names| == |lines| && forall k :: 0 <= k < |lines| ==> names[k] == IncludeName(lines[k])
  {
    seq(|lines|, k requires 0 <= k < |lines| => IncludeName(lines[k]))
  }

  /** Reading the file names back out of the include lines and joining them
      with commas gives the `--includes` value, when it has no empty piece. */
  lemma IncludesReadBack(value: string)
    requires forall k :: 0 <= k < |SplitOn(value, ',')| ==> SplitOn(value, ',')[k] != []
    ensures var lines := IncludesOf(value);
      (forall k :: 0 <= k < |lines| ==> |lines[k]| >= 2) &&
      Join(IncludeNames(lines), ',') == value
  {
    var pieces := SplitOn(value, ',');
    NonEmptyKeeps(pieces);
    var lines := IncludesOf(value);
    assert IncludeNames(lines) == pieces;
    JoinSplit(value, ',');
  }

  /** Empty pieces (doubled, leading or trailing commas) are dropped, and
      every file that is named gets its include line. */
  lemma IncludesDropEmpty(value: string, name: string)
    requires name != []
    ensures IncludeLine(name) in IncludesOf(value) <==> name in SplitOn(value, ',')
  {
    var kept := NonEmpty(SplitOn(value, ','));
    if name in SplitOn(value, ',') {
      var k :| 0 <= k < |kept| && kept[k] == name;
      assert IncludesOf(value)[k] == IncludeLine(name);
    }
    if IncludeLine(name) in IncludesOf(value) {
      var k :| 0 <= k < |kept| && IncludesOf(value)[k] == IncludeLine(name);
      assert kept[k] == IncludeName(IncludeLine(kept[k])) == name;
    }
  }

  /* --------------------------------------------------------- header */

  const Syntax: string :=
    "<protocol_file> <output_file> "
    + "[--includes file[,file_2,/system_file,/system_file_2,...]] "
    + "[--context_protocols protocol_file[,protocol_file_2,...]]"

  function SyntaxError(): string
  {
    "Expected arguments with following syntax (" + Syntax + ")"
  }

  function MissingValue(option: string): string
  {
    "No value for " + option + " option was found. " + SyntaxError()
  }

  datatype HeaderArgs = HeaderArgs(
    protoFile: string,
    outputFile: string,
    includes: seq<string>,
    contextProtocols: seq<string>)

  /** The vector with an option and its value erased, and the value. */
  datatype Taken = Taken(rest: seq<string>, value: Option<string>)

  /** Looking an option up: absent, last (no value), or followed by its
      value. */
  function TakeOption(args: seq<string>, option: string): (r: Result<Taken, string>)
    ensures option !in args ==> r == Ok(Taken(args, None))
    ensures r.Err? ==> r.error == MissingValue(option)
    ensures r.Ok? && r.value.value.Some? ==> |r.value.rest| == |args| - 2
  {
    var i := IndexOf(args, option);
    if i == |args| then Ok(Taken(args, None))
    else if i + 1 == |args| then Err(MissingValue(option))
    else Ok(Taken(args[..i] + args[i + 2..], Some(args[i + 1])))
  }

  /** Only the first occurrence of the option counts: the lookup fails
      exactly when that occurrence ends the vector, finds nothing exactly
      when there is none, and otherwise erases it and the value behind it
      and returns that value. */
  lemma TakeOptionSpec(args: seq<string>, option: string)
    ensures var r := TakeOption(args, option);
      (option !in args <==> r == Ok(Taken(args, None))) &&
      (r.Err? <==> args != [] && args[|args| - 1] == option && option !in args[..|args| - 1]) &&
      (r.Ok? && r.value.value.Some? ==>
        exists i :: 0 <= i < |args| - 1 && args[i] == option && option !in args[..i] &&
          r.value.value.value == args[i + 1] && r.value.rest == args[..i] + args[i + 2..])
  {
    var i := IndexOf(args, option);
    if i < |args| {
      assert args[..i + 1][..i] == args[..i];
      if i + 1 < |args| {
        assert args[i] in args[..|args| - 1];
      }
    }
  }

  method TakeOptionIn(args: seq<string>, option: string) returns (r: Result<Taken, string>)
    ensures r == TakeOption(args, option)
  {
    var at := Find(args, option);
    if at == |args| {
      return Ok(Taken(args, None));
    }
    if at + 1 == |args| {
      var message := "No value for " + option + " option was found. ";
      message := message + "Expected arguments with following syntax (" + Syntax + ")";
      assert message == MissingValue(option);
      return Err(message);
    }
    r := Ok(Taken(args[..at] + args[at + 2..], Some(args[at + 1])));
  }

  function CountError(rest: seq<string>): string
  {
    SyntaxError() + ", got " + LeftoverText(rest) + " instead"
  }

  /** `parse_header_mode_args`: `--help` anywhere asks for the syntax; then
      `--includes` and `--context_protocols` are taken out with their
      values, and exactly the two files must remain. */
  function HeaderModeOf(args: seq<string>): (r: Result<HeaderArgs, string>)
    ensures "--help" in args ==> r == Err(Syntax)
    ensures r.Ok? ==> "--help" !in args && |args| >= 2
  {
    if "--help" in args then Err(Syntax)
    else
      var inc :- TakeOption(args, "--includes");
      var ctx :- TakeOption(inc.rest, "--context_protocols");
      if |ctx.rest| != 2 then Err(CountError(ctx.rest))
      else
        Ok(HeaderArgs(ctx.rest[0], ctx.rest[1],
          if inc.value.None? then [] else IncludesOf(inc.value.value),
          if ctx.value.None? then [] else SplitOn(ctx.value.value, ',')))
  }

  /** Without option names, `header` mode takes exactly two arguments, the
      protocol file and then the output file, and no includes or context
      protocols; any other count is reported with the arguments listed. */
  lemma PlainHeaderArgs(args: seq<string>)
    requires forall k :: 0 <= k < |args| ==> Plain(args[k])
    ensures HeaderModeOf(args).Ok? <==> |args| == 2
    ensures |args| == 2 ==> HeaderModeOf(args) == Ok(HeaderArgs(args[0], args[1], [], []))
    ensures |args| != 2 ==> HeaderModeOf(args) == Err(CountError(args))
  {
    assert "--help" !in args && "--includes" !in args && "--context_protocols" !in args;
  }

  method ParseHeaderModeArgs(argv: seq<string>) returns (r: Result<HeaderArgs, string>)
    ensures r == HeaderModeOf(argv)
  {
    var help := Find(argv, "--help");
    if help != |argv| {
      return Err(Syntax);
    }
    var inc := TakeOptionIn(argv, "--includes");
    if inc.Err? {
      return Err(inc.error);
    }
    var includes := [];
    if inc.value.value.Some? {
      var pieces := SplitCommas(inc.value.value.value);
      pieces := DropEmpty(pieces);
      includes := DecorateIncludes(pieces);
    }
    var ctx := TakeOptionIn(inc.value.rest, "--context_protocols");
    if ctx.Err? {
      return Err(ctx.error);
    }
    var contextProtocols := [];
    if ctx.value.value.Some? {
      contextProtocols := SplitCommas(ctx.value.value.value);
    }
    var args := ctx.value.rest;
    if |args| != 2 {
      var message := WriteCountError(args);
      return Err(message);
    }
    r := Ok(HeaderArgs(args[0], args[1], includes, contextProtocols));
  }

  method WriteCountError(args: seq<string>) returns (message: string)
    ensures message == CountError(args)
  {
    message := "Expected arguments with following syntax (" + Syntax + ")";
    var decorated := Decorate(args);
    var listed := WriteVector(decorated);
    message := message + ", got " + listed + " instead";
  }

  /* ------------------------------------- reading a command line back */

  function OptionArgs(option: string, value: Option<string>): seq<string>
  {
    if value.None? then [] else [option, value.value]
  }

  /** A command line written in the documented order. */
  function HeaderCommand(proto: string, output: string, inc: Option<string>, ctx: Option<string>): seq<string>
  {
    [proto, output] + OptionArgs("--includes", inc) + OptionArgs("--context_protocols", ctx)
  }

  /** An argument that is none of the option names. */
  predicate Plain(a: string)
  {
    a != "--help" && a != "--includes" && a != "--context_protocols"
  }

  lemma TakeBehindTwo(a: string, b: string, option: string, value: string, tail: seq<string>)
    requires a != option && b != option
    ensures TakeOption([a, b] + [option, value] + tail, option) == Ok(Taken([a, b] + tail, Some(value)))
  {
    var args := [a, b] + [option, value] + tail;
    assert args[2] == option;
    assert IndexOf(args, option) == 2;
    assert args[..2] + args[4..] == [a, b] + tail;
  }

  lemma IncludesTaken(proto: string, output: string, inc: Option<string>, tail: seq<string>)
    requires Plain(proto) && Plain(output) && "--includes" !in tail
    ensures TakeOption([proto, output] + OptionArgs("--includes", inc) + tail, "--includes") ==
      Ok(Taken([proto, output] + tail, inc))
  {
    if inc.Some? {
      TakeBehindTwo(proto, output, "--includes", inc.value, tail);
    } else {
      var args := [proto, output] + OptionArgs("--includes", inc) + tail;
      assert args == [proto, output] + tail;
      assert "--includes" !in args;
    }
  }

  lemma ContextTaken(proto: string, output: string, ctx: Option<string>)
    requires Plain(proto) && Plain(output)
    ensures TakeOption([proto, output] + OptionArgs("--context_protocols", ctx), "--context_protocols") ==
      Ok(Taken([proto, output], ctx))
  {
    if ctx.Some? {
      TakeBehindTwo(proto, output, "--context_protocols", ctx.value, []);
      assert [proto, output] + OptionArgs("--context_protocols", ctx) ==
        [proto, output] + ["--context_protocols", ctx.value] + [];
      assert [proto, output] + [] == [proto, output];
    } else {
      assert [proto, output] + OptionArgs("--context_protocols", ctx) == [proto, output];
    }
  }

  /** A command line in the documented form parses to what it says: the
      two files, the include lines of the `--includes` value and the pieces
      of the `--context_protocols` value, which join back to that value. */
  lemma HeaderCommandReadBack(proto: string, output: string, inc: Option<string>, ctx: Option<string>)
    requires Plain(proto) && Plain(output)
    requires inc.Some? ==> Plain(inc.value)
    requires ctx.Some? ==> Plain(ctx.value)
    ensures var r := HeaderModeOf(HeaderCommand(proto, output, inc, ctx));
      r == Ok(HeaderArgs(proto, output,
        if inc.None? then [] else IncludesOf(inc.value),
        if ctx.None? then [] else SplitOn(ctx.value, ','))) &&
      (ctx.Some? ==> Join(r.value.contextProtocols, ',') == ctx.value)
  {
    var tail := OptionArgs("--context_protocols", ctx);
    assert "--help" !in HeaderCommand(proto, output, inc, ctx);
    assert "--includes" !in tail;
    IncludesTaken(proto, output, inc, tail);
    ContextTaken(proto, output, ctx);
    if ctx.Some? {
      JoinSplit(ctx.value, ',');
    }
  }

  /* ------------------------------------------------------- the modes */

  datatype GenaRun =
    | DumpJson(json: JsonArgs)
    | WriteHeader(header: HeaderArgs)
    | Failed(message: string)

  /** `wl_gena::main`: the first argument chooses the mode, the rest are
      that mode's arguments; every failure ends the program with a
      message (the source throws it). */
  function GenaMain(argv: seq<string>): (r: GenaRun)
    ensures argv == [] ==> r == Failed("Expected arguments")
    ensures r.DumpJson? ==> argv[0] == "json" && JsonModeOf(argv[1..]) == Ok(r.json)
    ensures r.WriteHeader? ==> argv[0] == "header" && HeaderModeOf(argv[1..]) == Ok(r.header)
    ensures argv != [] && argv[0] == "json" && JsonModeOf(argv[1..]).Err? ==>
      r == Failed("JSON Mode: [" + JsonModeOf(argv[1..]).error + "]")
    ensures argv != [] && argv[0] == "header" && HeaderModeOf(argv[1..]).Err? ==>
      r == Failed("HEADER Mode: [" + HeaderModeOf(argv[1..]).error + "]")
    ensures argv != [] && argv[0] == "json" && JsonModeOf(argv[1..]).Ok? ==> r == DumpJson(JsonModeOf(argv[1..]).value)
    ensures argv != [] && argv[0] == "header" && HeaderModeOf(argv[1..]).Ok? ==> r == WriteHeader(HeaderModeOf(argv[1..]).value)
    ensures argv != [] && argv[0] != "json" && argv[0] != "header" ==>
      r == Failed("Unknown mode [" + argv[0] + "]: available modes [json,header]")
  {
    if argv == [] then Failed("Expected arguments")
    else
      var mode := argv[0];
      var args := argv[1..];
      if mode == "json" then
        match JsonModeOf(args)
        case Ok(j) => DumpJson(j)
        case Err(e) => Failed("JSON Mode: [" + e + "]")
      else if mode == "header" then
        match HeaderModeOf(args)
        case Ok(h) => WriteHeader(h)
        case Err(e) => Failed("HEADER Mode: [" + e + "]")
      else
        ModesText();
        Failed("Unknown mode [" + mode + "]: available modes " + FormatVector(["json", "header"]))
  }

  /** The list of modes as the usage message prints it. */
  lemma ModesText()
    ensures FormatVector(["json", "header"]) == "[json,header]"
  {
    var modes := ["json", "header"];
    assert modes[1..] == ["header"];
    assert Join(modes, ',') == "json" + [','] + "header";
  }
}

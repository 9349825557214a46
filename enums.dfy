/** Enum emission, in its three generations: `InterfaceGenerator::emit_enum`
    (HeaderGena.cc), `emit_enum` of GenaMain.cc and `emit_enum` of
    WaylandScanner.cc. Each writes `enum class <name>`, `{`, one indented
    `<literal> = <value>` line per entry with a comma on all but the last,
    then `};`. The generators turn an entry name into a C++ identifier
    (prefix `n` before a leading digit, `default` becomes `edefault`); the
    scanner puts `e` in front of every name. */
module EnumEmission {
  import opened Wrappers
  import opened Text
  import opened Types
  import opened Listing
  import ProtoParsing

  datatype Style =
    | Generator   // HeaderGena.cc: the class is named `<enum>_e`
    | Legacy      // GenaMain.cc
    | Scanner     // WaylandScanner.cc: every literal is `e<entry>`

  /** `std::string::at(0)` on an empty entry name throws `out_of_range`. */
  datatype EnumError = EmptyEntryName(enumName: string)

  /** The identifier a generator gives an entry. It never starts with a
      digit and is never the keyword `default`; it ends with the entry name;
      and it is the entry name itself exactly when that name is already
      neither. */
  function LiteralName(name: string): (r: string)
    requires name != []
    ensures r != [] && !IsDigit(r[0], 10) && r != "default"
    ensures |name| <= |r| && r[|r| - |name|..] == name
    ensures r == name <==> !IsDigit(name[0], 10) && name != "default"
  {
    var n := if IsDigit(name[0], 10) then "n" + name else name;
    if n == "default" then "e" + n else n
  }

  /** `0x` and lower-case hex digits for an entry written in hex, the decimal
      value otherwise. */
  function ValueText(e: Entry): string
  {
    if e.isHex then "0x" + LowerHex(e.value) else Decimal(e.value)
  }

  /** The value text reads back, by the parser's entry rule, as the entry's
      value with its hex flag. */
  lemma ValueTextReadBack(e: Entry)
    ensures var text := ValueText(e);
      ProtoParsing.IsHexLiteral(text) == e.isHex &&
      ParseU32(ProtoParsing.EntryDigits(text).0, ProtoParsing.EntryDigits(text).1) == Ok(e.value)
  {
    var text := ValueText(e);
    if e.isHex {
      DigitsShape(e.value, 16);
      ParseDigits(e.value, 16);
      assert text[2..] == LowerHex(e.value);
    } else {
      DigitsShape(e.value, 10);
      ParseDigits(e.value, 10);
      if |text| > 2 {
        assert IsDigit(text[1], 10);
      }
    }
  }

  function ClassName(style: Style, name: string): string
  {
    if style.Generator? then name + "_e" else name
  }

  /** Whether the style can write an entry: the generators need a name to
      look at. */
  predicate Writable(style: Style, e: Entry)
  {
    style.Scanner? || e.name != []
  }

  /** The literal and value of one entry, before the comma and the indentation. */
  function EntryText(style: Style, e: Entry): string
    requires Writable(style, e)
  {
    (if style.Scanner? then "e" + e.name else LiteralName(e.name)) + " = " + ValueText(e)
  }

  /** The entry lines; the generators stop at the first empty entry name. */
  function EntryLines(style: Style, enumName: string, es: seq<Entry>): Result<seq<string>, EnumError>
  {
    if exists k :: 0 <= k < |es| && !Writable(style, es[k]) then Err(EmptyEntryName(enumName))
    else Ok(seq(|es|, k requires 0 <= k < |es| => EntryText(style, es[k])))
  }

  function EnumLines(style: Style, en: Enum): Result<seq<string>, EnumError>
  {
    var body :- EntryLines(style, en.name, en.entries);
    Ok(["enum class " + ClassName(style, en.name), "{"] + Indented(CommaList(body)) + ["};"])
  }

  /** An emitted enum: the class line, the brace, one line per entry, the
      closing brace. Entry `k` is its literal and its value, indented, with a
      comma unless it is the last; a generator fails on an empty entry name. */
  lemma EnumLinesSpec(style: Style, en: Enum)
    ensures EnumLines(style, en).Ok? <==>
      style.Scanner? || forall k :: 0 <= k < |en.entries| ==> en.entries[k].name != []
    ensures EnumLines(style, en).Err? ==> EnumLines(style, en).error == EmptyEntryName(en.name)
    ensures EnumLines(style, en).Ok? ==>
      var lines := EnumLines(style, en).value;
      var n := |en.entries|;
      |lines| == n + 3 &&
      lines[0] == "enum class " + ClassName(style, en.name) && lines[1] == "{" && lines[n + 2] == "};" &&
      forall k :: 0 <= k < n ==>
        var e := en.entries[k];
        var lit := if style.Scanner? then "e" + e.name else LiteralName(e.name);
        lines[k + 2] == "    " + lit + " = " + ValueText(e) + (if k < n - 1 then "," else "")
  {
    if EnumLines(style, en).Ok? {
      forall k | 0 <= k < |en.entries|
        ensures var e := en.entries[k];
          var lit := if style.Scanner? then "e" + e.name else LiteralName(e.name);
          EnumLines(style, en).value[k + 2] == "    " + lit + " = " + ValueText(e) + (if k < |en.entries| - 1 then "," else "")
      {
        EnumLineAt(style, en, k);
      }
    }
  }

  lemma EnumLineAt(style: Style, en: Enum, k: nat)
    requires EnumLines(style, en).Ok? && k < |en.entries|
    ensures var e := en.entries[k];
      var lit := if style.Scanner? then "e" + e.name else LiteralName(e.name);
      EnumLines(style, en).value[k + 2] == "    " + lit + " = " + ValueText(e) + (if k < |en.entries| - 1 then "," else "")
  {
    var body := EntryLines(style, en.name, en.entries).value;
    var e := en.entries[k];
    var lit := if style.Scanner? then "e" + e.name else LiteralName(e.name);
    var comma := if k < |en.entries| - 1 then "," else "";
    BodyLineAt(style, en, k);
    IndentedCommaAt(body, k);
    EntryTextParts(style, e);
    Regroup("    ", lit, " = ", ValueText(e), comma);
  }

  /** Line `k + 2` of an enum is line `k` of its indented, comma-separated body. */
  lemma BodyLineAt(style: Style, en: Enum, k: nat)
    requires EnumLines(style, en).Ok? && k < |en.entries|
    ensures var body := EntryLines(style, en.name, en.entries).value;
      |body| == |en.entries| && body[k] == EntryText(style, en.entries[k]) &&
      EnumLines(style, en).value[k + 2] == Indented(CommaList(body))[k]
  {
    var body := EntryLines(style, en.name, en.entries).value;
    BetweenAt(["enum class " + ClassName(style, en.name), "{"], Indented(CommaList(body)), ["};"], k);
  }

  lemma BetweenAt<T>(head: seq<T>, mid: seq<T>, tail: seq<T>, k: nat)
    requires |head| == 2 && k < |mid|
    ensures (head + mid + tail)[k + 2] == mid[k]
  {
  }

  lemma IndentedCommaAt(body: seq<string>, k: nat)
    requires k < |body|
    ensures Indented(CommaList(body))[k] == "    " + (body[k] + if k < |body| - 1 then "," else "")
  {
  }

  lemma EntryTextParts(style: Style, e: Entry)
    requires Writable(style, e)
    ensures EntryText(style, e) == (if style.Scanner? then "e" + e.name else LiteralName(e.name)) + " = " + ValueText(e)
  {
  }

  lemma Regroup(a: string, b: string, c: string, d: string, e: string)
    ensures a + (b + c + d + e) == a + b + c + d + e
  {
  }

  /** The emitting loop over the entries, the reversed comma walk, then the
      indentation. */
  method EmitEnum(style: Style, en: Enum) returns (r: Result<seq<string>, EnumError>)
    ensures r == EnumLines(style, en)
  {
    var es: seq<string> := [];
    var i := 0;
    while i < |en.entries|
      invariant 0 <= i <= |en.entries| && |es| == i
      invariant forall k :: 0 <= k < i ==> Writable(style, en.entries[k]) && es[k] == EntryText(style, en.entries[k])
    {
      if !Writable(style, en.entries[i]) {
        return Err(EmptyEntryName(en.name));
      }
      es := es + [EntryText(style, en.entries[i])];
      i := i + 1;
    }
    var commas := MarkCommas(seq(|es|, _ => true));
    AllValuedCommas(|es|);
    assert es == EntryLines(style, en.name, en.entries).value;
    assert Suffixed(es, commas) == CommaList(es);
    var body := Indented(Suffixed(es, commas));
    r := Ok(["enum class " + ClassName(style, en.name), "{"] + body + ["};"]);
  }
}

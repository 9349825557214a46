/** The JSON dump of a protocol (Format.hh). Every formatter writes one JSON
    object whose fields come in a fixed order: `{`, `"key":value` pairs
    separated by `,`, `}`; vectors go through `FormatVectorWrap`; names are
    put between quotes exactly as they are, with no escaping. The model
    builds the JSON value each formatter writes and renders it with
    `Serialize`; a reader of that text and a decoder of the values are the
    partners that show the dump determines the protocol. */
module JsonFormat {
  import opened Wrappers
  import opened Text
  import opened Types
  import WireSignature

  datatype JValue =
    | JStr(text: string)
    | JNum(num: nat)
    | JArr(items: seq<JValue>)
    | JObj(members: seq<JMember>)

  datatype JMember = JMember(key: string, value: JValue)

  /* ------------------------------------------------------------ writing */

  /** `FormatVectorWrap`: `[`, the elements separated by `,`, then `]`. */
  function FormatVector(items: seq<string>): string
  {
    "[" + Join(items, ',') + "]"
  }

  lemma {:induction false} JoinSnoc(parts: seq<string>, x: string, sep: char)
    requires parts != []
    ensures Join(parts + [x], sep) == Join(parts, sep) + [sep] + x
    decreases |parts|
  {
    if |parts| == 1 {
      assert (parts + [x])[1..] == [x];
    } else {
      assert (parts + [x])[1..] == parts[1..] + [x];
      JoinSnoc(parts[1..], x, sep);
    }
  }

  /** The formatter's loop: a `first` flag suppresses the comma before the
      first element. */
  method WriteVector(items: seq<string>) returns (out: string)
    ensures out == FormatVector(items)
  {
    out := "[";
    var first := true;
    var i := 0;
    while i < |items|
      invariant 0 <= i <= |items|
      invariant first <==> i == 0
      invariant out == "[" + Join(items[..i], ',')
    {
      if !first {
        out := out + ",";
      }
      first := false;
      if i > 0 {
        JoinSnoc(items[..i], items[i], ',');
      } else {
        assert items[..1] == [items[0]];
      }
      assert items[..i + 1] == items[..i] + [items[i]];
      out := out + items[i];
      i := i + 1;
    }
    assert items[..i] == items;
    out := out + "]";
  }

  /** A non-empty list whose elements hold no comma is read back from its
      vector text by splitting between the brackets. */
  lemma VectorReadBack(items: seq<string>)
    requires items != [] && forall i :: 0 <= i < |items| ==> ',' !in items[i]
    ensures var s := FormatVector(items);
      |s| >= 2 && s[0] == '[' && s[|s| - 1] == ']' && SplitOn(s[1..|s| - 1], ',') == items
  {
    var s := FormatVector(items);
    assert s[1..|s| - 1] == Join(items, ',');
    SplitJoin(items, ',');
  }

  /** `FormatterNoParseArgs::parse`: the format spec must be empty, that is,
      its text must start with the closing brace; the parse position stays
      at the start. */
  function ParseFormatSpec(spec: string): (r: Result<nat, string>)
    ensures r.Ok? ==> r.value == 0
    ensures r.Err? ==> r.error == "Unexpected arguments"
  {
    if spec != [] && spec[0] == '}' then Ok(0) else Err("Unexpected arguments")
  }

  /** Of the specs written `{:<options>}`, only `{}` is accepted. */
  lemma OnlyEmptySpec(options: string)
    requires '}' !in options
    ensures ParseFormatSpec(options + "}").Ok? <==> options == []
  {
    if options != [] {
      assert (options + "}")[0] == options[0];
    }
  }

  function Quoted(s: string): string
  {
    "\"" + s + "\""
  }

  /** The JSON text of a value, with no white space and no escaping. */
  function Serialize(v: JValue): string
    decreases v
  {
    match v
    case JStr(t) => Quoted(t)
    case JNum(n) => Decimal(n)
    case JArr(xs) => FormatVector(Rendered(xs))
    case JObj(ms) => "{" + Join(MemberTexts(ms), ',') + "}"
  }

  function Rendered(xs: seq<JValue>): (r: seq<string>)
    ensures |r| == |xs| && forall i :: 0 <= i < |xs| ==> r[i] == Serialize(xs[i])
    decreases xs
  {
    if xs == [] then [] else [Serialize(xs[0])] + Rendered(xs[1..])
  }

  function MemberTexts(ms: seq<JMember>): (r: seq<string>)
    ensures |r| == |ms|
    ensures forall i :: 0 <= i < |ms| ==> r[i] == Quoted(ms[i].key) + ":" + Serialize(ms[i].value)
    decreases ms
  {
    if ms == [] then [] else [Quoted(ms[0].key) + ":" + Serialize(ms[0].value)] + MemberTexts(ms[1..])
  }

  /* ------------------------------------------------------------ reading */

  /** The position of the first `"`, the length when there is none. */
  function QuoteAt(s: string): (k: nat)
    ensures k <= |s| && '"' !in s[..k] && (k < |s| ==> s[k] == '"')
  {
    if s == [] || s[0] == '"' then 0
    else
      var k := 1 + QuoteAt(s[1..]);
      assert s[..k] == [s[0]] + s[1..][..k - 1];
      k
  }

  /** The text up to the closing quote, and what follows it. */
  function ReadStr(s: string): (r: Option<(string, string)>)
    ensures r.Some? ==> |r.value.1| < |s|
  {
    var k := QuoteAt(s);
    if k == |s| then None else Some((s[..k], s[k + 1..]))
  }

  /** One JSON value at the start of the text, and the rest of the text. */
  function ReadValue(s: string): (r: Option<(JValue, string)>)
    ensures r.Some? ==> |r.value.1| < |s|
    decreases |s|, 0
  {
    if s == [] then None
    else if s[0] == '"' then
      var t :- ReadStr(s[1..]);
      Some((JStr(t.0), t.1))
    else if s[0] == '[' then
      var t :- ReadItems(s[1..]);
      Some((JArr(t.0), t.1))
    else if s[0] == '{' then
      var t :- ReadFields(s[1..]);
      Some((JObj(t.0), t.1))
    else
      var k := DigitRun(s, 10);
      if k == 0 then None else Some((JNum(ValueOf(s[..k], 10)), s[k..]))
  }

  /** After `[`: either `]` or values separated by `,` and closed by `]`. */
  function ReadItems(s: string): (r: Option<(seq<JValue>, string)>)
    ensures r.Some? ==> |r.value.1| < |s|
    decreases |s|, 2
  {
    if s != [] && s[0] == ']' then Some(([], s[1..])) else ReadMoreItems(s)
  }

  function ReadMoreItems(s: string): (r: Option<(seq<JValue>, string)>)
    ensures r.Some? ==> |r.value.1| < |s|
    decreases |s|, 1
  {
    var t :- ReadValue(s);
    var rest := t.1;
    if rest != [] && rest[0] == ']' then Some(([t.0], rest[1..]))
    else if rest != [] && rest[0] == ',' then
      var u :- ReadMoreItems(rest[1..]);
      Some(([t.0] + u.0, u.1))
    else None
  }

  /** After `{`: either `}` or `"key":value` pairs separated by `,` and
      closed by `}`. */
  function ReadFields(s: string): (r: Option<(seq<JMember>, string)>)
    ensures r.Some? ==> |r.value.1| < |s|
    decreases |s|, 2
  {
    if s != [] && s[0] == '}' then Some(([], s[1..])) else ReadMoreFields(s)
  }

  function ReadMoreFields(s: string): (r: Option<(seq<JMember>, string)>)
    ensures r.Some? ==> |r.value.1| < |s|
    decreases |s|, 1
  {
    var t :- ReadField(s);
    var rest := t.1;
    if rest != [] && rest[0] == '}' then Some(([t.0], rest[1..]))
    else if rest != [] && rest[0] == ',' then
      var u :- ReadMoreFields(rest[1..]);
      Some(([t.0] + u.0, u.1))
    else None
  }

  /** One `"key":value` pair. */
  function ReadField(s: string): (r: Option<(JMember, string)>)
    ensures r.Some? ==> |r.value.1| < |s|
    decreases |s|, 0
  {
    if s == [] || s[0] != '"' then None
    else
      var k :- ReadStr(s[1..]);
      var afterKey := k.1;
      if afterKey == [] || afterKey[0] != ':' then None
      else
        var t :- ReadValue(afterKey[1..]);
        Some((JMember(k.0, t.0), t.1))
  }

  /* ------------------------------------------------------- round trip */

  /** No string and no key of the value holds a quote. */
  ghost predicate QuoteFree(v: JValue)
    decreases v
  {
    match v
    case JStr(t) => '"' !in t
    case JNum(_) => true
    case JArr(xs) => forall i :: 0 <= i < |xs| ==> QuoteFree(xs[i])
    case JObj(ms) => forall i :: 0 <= i < |ms| ==> '"' !in ms[i].key && QuoteFree(ms[i].value)
  }

  /** What can follow a value inside the dump: nothing, or a separator or
      closing bracket. */
  predicate Closer(rest: string)
  {
    rest == [] || rest[0] == ',' || rest[0] == ']' || rest[0] == '}'
  }

  lemma ReadQuoted(t: string, rest: string)
    requires '"' !in t
    ensures ReadStr(t + "\"" + rest) == Some((t, rest))
  {
    var s := t + "\"" + rest;
    assert s[..|t|] == t;
    assert s[|t|] == '"';
    assert s[|t| + 1..] == rest;
  }

  /** The reader returns every quote-free value from its text, whatever
      closing text follows. */
  lemma {:induction false} ValueReadBack(v: JValue, rest: string)
    requires QuoteFree(v) && Closer(rest)
    ensures ReadValue(Serialize(v) + rest) == Some((v, rest))
    decreases v, 1
  {
    match v
    case JStr(t) => StrReadBack(t, rest);
    case JNum(n) => NumReadBack(n, rest);
    case JArr(xs) => ArrReadBack(xs, rest);
    case JObj(ms) => ObjReadBack(ms, rest);
  }

  lemma StrReadBack(t: string, rest: string)
    requires '"' !in t
    ensures ReadValue(Serialize(JStr(t)) + rest) == Some((JStr(t), rest))
  {
    var s := Serialize(JStr(t)) + rest;
    assert s[1..] == t + "\"" + rest;
    ReadQuoted(t, rest);
  }

  lemma NumReadBack(n: nat, rest: string)
    requires Closer(rest)
    ensures ReadValue(Serialize(JNum(n)) + rest) == Some((JNum(n), rest))
  {
    var s := Decimal(n) + rest;
    DigitsShape(n, 10);
    WireSignature.DigitRunOfPrefix(Decimal(n), rest);
    assert s[..|Decimal(n)|] == Decimal(n);
    assert s[|Decimal(n)|..] == rest;
    assert IsDigit(s[0], 10);
  }

  lemma {:induction false} ArrReadBack(xs: seq<JValue>, rest: string)
    requires QuoteFree(JArr(xs)) && Closer(rest)
    ensures ReadValue(Serialize(JArr(xs)) + rest) == Some((JArr(xs), rest))
    decreases JArr(xs), 0
  {
    var s := Serialize(JArr(xs)) + rest;
    if xs == [] {
      assert s[1..] == "]" + rest;
    } else {
      var body := Join(Rendered(xs), ',') + "]" + rest;
      assert s[1..] == body;
      ItemsReadBack(xs, rest);
      NotClosingBracket(xs[0], body);
    }
  }

  lemma {:induction false} ObjReadBack(ms: seq<JMember>, rest: string)
    requires QuoteFree(JObj(ms)) && Closer(rest)
    ensures ReadValue(Serialize(JObj(ms)) + rest) == Some((JObj(ms), rest))
    decreases JObj(ms), 0
  {
    var s := Serialize(JObj(ms)) + rest;
    if ms == [] {
      assert s[1..] == "}" + rest;
    } else {
      assert s[1..] == Join(MemberTexts(ms), ',') + "}" + rest;
      FieldsReadBack(ms, rest);
    }
  }

  lemma {:induction false} ItemsReadBack(xs: seq<JValue>, rest: string)
    requires xs != [] && Closer(rest)
    requires forall i :: 0 <= i < |xs| ==> QuoteFree(xs[i])
    ensures ReadMoreItems(Join(Rendered(xs), ',') + "]" + rest) == Some((xs, rest))
    ensures StartsWith(Join(Rendered(xs), ',') + "]" + rest, Serialize(xs[0]))
    decreases xs, 2
  {
    if |xs| == 1 {
      LastItemReadBack(xs, rest);
    } else {
      MoreItemsReadBack(xs, rest);
    }
  }

  lemma {:induction false} LastItemReadBack(xs: seq<JValue>, rest: string)
    requires |xs| == 1 && Closer(rest) && QuoteFree(xs[0])
    ensures ReadMoreItems(Join(Rendered(xs), ',') + "]" + rest) == Some((xs, rest))
    ensures StartsWith(Join(Rendered(xs), ',') + "]" + rest, Serialize(xs[0]))
    decreases xs, 1
  {
    var s := Join(Rendered(xs), ',') + "]" + rest;
    var head, after := Serialize(xs[0]), "]" + rest;
    assert s == head + after;
    ValueReadBack(xs[0], after);
    ItemsStep(s, xs[0], after, [], rest);
    assert [xs[0]] + [] == xs;
    assert s[..|head|] == head;
  }

  lemma {:induction false} MoreItemsReadBack(xs: seq<JValue>, rest: string)
    requires |xs| > 1 && Closer(rest)
    requires forall i :: 0 <= i < |xs| ==> QuoteFree(xs[i])
    ensures ReadMoreItems(Join(Rendered(xs), ',') + "]" + rest) == Some((xs, rest))
    ensures StartsWith(Join(Rendered(xs), ',') + "]" + rest, Serialize(xs[0]))
    decreases xs, 1
  {
    MoreItemsShape(xs, rest);
    ValueReadBack(xs[0], "," + (Join(Rendered(xs[1..]), ',') + "]" + rest));
    ItemsReadBack(xs[1..], rest);
    MoreItemsStep(xs, Join(Rendered(xs), ',') + "]" + rest, Join(Rendered(xs[1..]), ',') + "]" + rest, rest);
  }

  lemma MoreItemsStep(xs: seq<JValue>, s: string, tail: string, rest: string)
    requires |xs| > 1
    requires ReadValue(s) == Some((xs[0], "," + tail)) && ReadMoreItems(tail) == Some((xs[1..], rest))
    ensures ReadMoreItems(s) == Some((xs, rest))
  {
    assert ("," + tail)[1..] == tail;
    assert [xs[0]] + xs[1..] == xs;
  }

  lemma MoreItemsShape(xs: seq<JValue>, rest: string)
    requires |xs| > 1
    ensures var s := Join(Rendered(xs), ',') + "]" + rest;
      s == Serialize(xs[0]) + ("," + (Join(Rendered(xs[1..]), ',') + "]" + rest)) &&
      StartsWith(s, Serialize(xs[0]))
  {
    JoinRendered(xs);
    SplitAfterHead(Serialize(xs[0]), ",", Join(Rendered(xs[1..]), ','), "]", rest);
  }

  lemma SplitAfterHead<T>(a: seq<T>, b: seq<T>, c: seq<T>, d: seq<T>, e: seq<T>)
    ensures a + b + c + d + e == a + (b + (c + d + e))
    ensures (a + (b + (c + d + e)))[..|a|] == a
  {
  }

  lemma JoinRendered(xs: seq<JValue>)
    requires |xs| > 1
    ensures Join(Rendered(xs), ',') == Serialize(xs[0]) + "," + Join(Rendered(xs[1..]), ',')
  {
    assert Rendered(xs)[1..] == Rendered(xs[1..]);
  }

  lemma JoinMembers(ms: seq<JMember>)
    requires |ms| > 1
    ensures Join(MemberTexts(ms), ',') == MemberTexts(ms)[0] + "," + Join(MemberTexts(ms[1..]), ',')
  {
    assert MemberTexts(ms)[1..] == MemberTexts(ms[1..]);
  }

  /** One step of the item reader: a value, then `]` or `,` and more items. */
  lemma ItemsStep(s: string, v: JValue, after: string, vs: seq<JValue>, rest: string)
    requires ReadValue(s) == Some((v, after))
    requires vs == [] ==> after == "]" + rest
    requires vs != [] ==> after != [] && after[0] == ',' && ReadMoreItems(after[1..]) == Some((vs, rest))
    ensures ReadMoreItems(s) == Some(([v] + vs, rest))
  {
    if vs == [] {
      assert after[1..] == rest;
      assert [v] + vs == [v];
    }
  }

  /** A pair is read back from its key and the text of its value. */
  lemma FieldReadBack(key: string, text: string, v: JValue, after: string)
    requires '"' !in key
    requires ReadValue(text + after) == Some((v, after))
    ensures ReadField(Quoted(key) + ":" + text + after) == Some((JMember(key, v), after))
  {
    var tail := ":" + text + after;
    KeyPrefix(key, tail);
    ColonPrefix(text, after);
    Regrouped(Quoted(key), ":", text, after);
    FieldStep(Quoted(key) + tail, key, tail, v, after);
  }

  lemma KeyPrefix(key: string, tail: string)
    requires '"' !in key
    ensures var s := Quoted(key) + tail; s != [] && s[0] == '"' && ReadStr(s[1..]) == Some((key, tail))
  {
    var s := Quoted(key) + tail;
    assert s[1..] == key + "\"" + tail;
    ReadQuoted(key, tail);
  }

  lemma ColonPrefix(text: string, after: string)
    ensures var tail := ":" + text + after; tail != [] && tail[0] == ':' && tail[1..] == text + after
  {
  }

  lemma Regrouped<T>(a: seq<T>, b: seq<T>, c: seq<T>, d: seq<T>)
    ensures a + b + c + d == a + (b + c + d)
  {
  }

  lemma FieldStep(s: string, key: string, afterKey: string, v: JValue, after: string)
    requires s != [] && s[0] == '"' && ReadStr(s[1..]) == Some((key, afterKey))
    requires afterKey != [] && afterKey[0] == ':' && ReadValue(afterKey[1..]) == Some((v, after))
    ensures ReadField(s) == Some((JMember(key, v), after))
  {
  }

  /** One step of the field reader: a pair, then `}` or `,` and more pairs. */
  lemma FieldsStep(s: string, m: JMember, after: string, ms: seq<JMember>, rest: string)
    requires ReadField(s) == Some((m, after))
    requires ms == [] ==> after == "}" + rest
    requires ms != [] ==> after != [] && after[0] == ',' && ReadMoreFields(after[1..]) == Some((ms, rest))
    ensures ReadMoreFields(s) == Some(([m] + ms, rest))
  {
    if ms == [] {
      assert after[1..] == rest;
      assert [m] + ms == [m];
    }
  }

  /** A value's text never starts with a closing bracket. */
  lemma NotClosingBracket(v: JValue, s: string)
    requires StartsWith(s, Serialize(v))
    ensures s != [] && s[0] != ']' && s[0] != '}'
  {
    var t := Serialize(v);
    assert s[0] == t[0];
    if v.JNum? {
      DigitsShape(v.num, 10);
      assert IsDigit(t[0], 10);
    }
  }

  lemma {:induction false} FieldsReadBack(ms: seq<JMember>, rest: string)
    requires ms != [] && Closer(rest)
    requires forall i :: 0 <= i < |ms| ==> '"' !in ms[i].key && QuoteFree(ms[i].value)
    ensures ReadMoreFields(Join(MemberTexts(ms), ',') + "}" + rest) == Some((ms, rest))
    ensures ReadFields(Join(MemberTexts(ms), ',') + "}" + rest) == Some((ms, rest))
    decreases ms, 2
  {
    if |ms| == 1 {
      LastFieldReadBack(ms, rest);
    } else {
      MoreFieldsReadBack(ms, rest);
    }
  }

  lemma {:induction false} LastFieldReadBack(ms: seq<JMember>, rest: string)
    requires |ms| == 1 && Closer(rest) && '"' !in ms[0].key && QuoteFree(ms[0].value)
    ensures ReadMoreFields(Join(MemberTexts(ms), ',') + "}" + rest) == Some((ms, rest))
    ensures ReadFields(Join(MemberTexts(ms), ',') + "}" + rest) == Some((ms, rest))
    decreases ms, 1
  {
    LastFieldShape(ms, rest);
    FirstFieldRead(ms[0], "}" + rest);
    LastFieldStep(ms, Join(MemberTexts(ms), ',') + "}" + rest, rest);
  }

  lemma {:induction false} MoreFieldsReadBack(ms: seq<JMember>, rest: string)
    requires |ms| > 1 && Closer(rest)
    requires forall i :: 0 <= i < |ms| ==> '"' !in ms[i].key && QuoteFree(ms[i].value)
    ensures ReadMoreFields(Join(MemberTexts(ms), ',') + "}" + rest) == Some((ms, rest))
    ensures ReadFields(Join(MemberTexts(ms), ',') + "}" + rest) == Some((ms, rest))
    decreases ms, 1
  {
    MoreFieldsShape(ms, rest);
    FirstFieldRead(ms[0], "," + (Join(MemberTexts(ms[1..]), ',') + "}" + rest));
    FieldsReadBack(ms[1..], rest);
    MoreFieldsStep(ms, Join(MemberTexts(ms), ',') + "}" + rest, Join(MemberTexts(ms[1..]), ',') + "}" + rest, rest);
  }

  /** One pair reads back up to what follows its value. */
  lemma {:induction false} FirstFieldRead(m: JMember, after: string)
    requires '"' !in m.key && QuoteFree(m.value) && Closer(after)
    ensures ReadField(Quoted(m.key) + ":" + Serialize(m.value) + after) == Some((m, after))
    decreases m, 0
  {
    ValueReadBack(m.value, after);
    FieldReadBack(m.key, Serialize(m.value), m.value, after);
  }

  lemma LastFieldShape(ms: seq<JMember>, rest: string)
    requires |ms| == 1
    ensures Join(MemberTexts(ms), ',') + "}" + rest == Quoted(ms[0].key) + ":" + Serialize(ms[0].value) + ("}" + rest)
  {
  }

  lemma MoreFieldsShape(ms: seq<JMember>, rest: string)
    requires |ms| > 1
    ensures Join(MemberTexts(ms), ',') + "}" + rest ==
      Quoted(ms[0].key) + ":" + Serialize(ms[0].value) + ("," + (Join(MemberTexts(ms[1..]), ',') + "}" + rest))
  {
    JoinMembers(ms);
    var head := MemberTexts(ms)[0];
    assert head == Quoted(ms[0].key) + ":" + Serialize(ms[0].value);
    Regroup(head, Join(MemberTexts(ms[1..]), ','), rest);
  }

  /** The separator and the closing text regrouped around the rest. */
  lemma Regroup(head: string, tail: string, rest: string)
    ensures head + "," + tail + "}" + rest == head + ("," + (tail + "}" + rest))
  {
  }

  lemma LastFieldStep(ms: seq<JMember>, s: string, rest: string)
    requires |ms| == 1 && ReadField(s) == Some((ms[0], "}" + rest))
    ensures ReadMoreFields(s) == Some((ms, rest)) && ReadFields(s) == Some((ms, rest))
  {
    FieldsStep(s, ms[0], "}" + rest, [], rest);
    assert [ms[0]] + [] == ms;
  }

  lemma MoreFieldsStep(ms: seq<JMember>, s: string, tail: string, rest: string)
    requires |ms| > 1
    requires ReadField(s) == Some((ms[0], "," + tail)) && ReadMoreFields(tail) == Some((ms[1..], rest))
    ensures ReadMoreFields(s) == Some((ms, rest)) && ReadFields(s) == Some((ms, rest))
  {
    assert ("," + tail)[1..] == tail;
    FieldsStep(s, ms[0], "," + tail, ms[1..], rest);
    assert [ms[0]] + ms[1..] == ms;
  }

  /* ------------------------------------------------------ the formatters */

  function NameField(n: string): JMember
  {
    JMember("name", JStr(n))
  }

  /** The `"interface"` member, written only when the argument names one. */
  function OwnerField(owner: Option<string>): seq<JMember>
  {
    if owner.Some? then [JMember("interface", JStr(owner.value))] else []
  }

  /** The `ArgType` formatter: the kind name, then the interface when there
      is one, then for an enum its name. */
  function ArgTypeJson(t: ArgType): JValue
  {
    match t
    case Int => JObj([NameField("int")])
    case UInt => JObj([NameField("uint")])
    case UIntEnum(e, owner) => JObj([NameField("enum")] + OwnerField(owner) + [JMember("enum_name", JStr(e))])
    case Fixed => JObj([NameField("fixed")])
    case Str => JObj([NameField("string")])
    case NullStr => JObj([NameField("?str")])
    case Object(owner) => JObj([NameField("obj")] + OwnerField(owner))
    case NullObject(owner) => JObj([NameField("?obj")] + OwnerField(owner))
    case NewId(owner) => JObj([NameField("id")] + OwnerField(owner))
    case Array => JObj([NameField("arr")])
    case Fd => JObj([NameField("fd")])
  }

  function ArgJson(a: Arg): JValue
  {
    JObj([NameField(a.name), JMember("type", ArgTypeJson(a.ty))])
  }

  /** An entry: its name, its decimal value, and for an entry written in hex
      the value again in lower-case hex without `0x`. */
  function EntryJson(e: Entry): JValue
  {
    JObj([NameField(e.name), JMember("value", JNum(e.value))]
      + (if e.isHex then [JMember("value_hex", JStr(LowerHex(e.value)))] else []))
  }

  function EntriesJson(es: seq<Entry>): seq<JValue>
  {
    seq(|es|, i requires 0 <= i < |es| => EntryJson(es[i]))
  }

  function EnumJson(en: Enum): JValue
  {
    JObj([NameField(en.name), JMember("entries", JArr(EntriesJson(en.entries)))])
  }

  function ArgsJson(args: seq<Arg>): seq<JValue>
  {
    seq(|args|, i requires 0 <= i < |args| => ArgJson(args[i]))
  }

  /** A request or an event (they format alike): the name, the destructor
      mark when set, the arguments. */
  function MessageJson(m: Message): JValue
  {
    JObj([NameField(m.name)]
      + (if m.destructor then [JMember("type", JStr("DESTRUCTOR"))] else [])
      + [JMember("args", JArr(ArgsJson(m.args)))])
  }

  function MessagesJson(ms: seq<Message>): seq<JValue>
  {
    seq(|ms|, i requires 0 <= i < |ms| => MessageJson(ms[i]))
  }

  function EnumsJson(ens: seq<Enum>): seq<JValue>
  {
    seq(|ens|, i requires 0 <= i < |ens| => EnumJson(ens[i]))
  }

  function InterfaceJson(iface: Interface): JValue
  {
    JObj([NameField(iface.name), JMember("version", JNum(iface.version)),
      JMember("requests", JArr(MessagesJson(iface.requests))),
      JMember("events", JArr(MessagesJson(iface.events))),
      JMember("enums", JArr(EnumsJson(iface.enums)))])
  }

  function InterfacesJson(ifs: seq<Interface>): seq<JValue>
  {
    seq(|ifs|, i requires 0 <= i < |ifs| => InterfaceJson(ifs[i]))
  }

  function ProtocolJson(p: Protocol): JValue
  {
    JObj([NameField(p.name), JMember("interfaces", JArr(InterfacesJson(p.interfaces)))])
  }

  /** What the JSON mode prints for a protocol, before the newline. */
  function Dump(p: Protocol): string
  {
    Serialize(ProtocolJson(p))
  }

  lemma Join2(a: string, b: string, sep: char)
    ensures Join([a, b], sep) == a + [sep] + b
  {
    assert [a, b][1..] == [b];
  }

  lemma Join3(a: string, b: string, c: string, sep: char)
    ensures Join([a, b, c], sep) == a + [sep] + b + [sep] + c
  {
    assert [a, b, c][1..] == [b, c];
    Join2(b, c, sep);
  }

  /** A field written `"key":value`. */
  function FieldText(key: string, value: string): string
  {
    "\"" + key + "\":" + value
  }

  lemma MemberText(m: JMember)
    ensures MemberTexts([m]) == [FieldText(m.key, Serialize(m.value))]
  {
    assert Quoted(m.key) + ":" + Serialize(m.value) == FieldText(m.key, Serialize(m.value));
  }

  lemma ObjectText2(a: JMember, b: JMember)
    ensures Serialize(JObj([a, b])) ==
      "{" + FieldText(a.key, Serialize(a.value)) + "," + FieldText(b.key, Serialize(b.value)) + "}"
  {
    var ta, tb := FieldText(a.key, Serialize(a.value)), FieldText(b.key, Serialize(b.value));
    assert MemberTexts([a, b]) == [ta, tb] by {
      assert MemberTexts([a, b])[0] == ta;
      assert MemberTexts([a, b])[1] == tb;
    }
    Join2(ta, tb, ',');
  }

  lemma ObjectText3(a: JMember, b: JMember, c: JMember)
    ensures Serialize(JObj([a, b, c])) ==
      "{" + FieldText(a.key, Serialize(a.value)) + "," + FieldText(b.key, Serialize(b.value))
      + "," + FieldText(c.key, Serialize(c.value)) + "}"
  {
    var ta, tb, tc := FieldText(a.key, Serialize(a.value)), FieldText(b.key, Serialize(b.value)),
      FieldText(c.key, Serialize(c.value));
    MemberTexts3(a, b, c);
    Join3(ta, tb, tc, ',');
    Wrapped3("{", ta, ",", tb, tc, "}");
  }

  lemma MemberTexts3(a: JMember, b: JMember, c: JMember)
    ensures MemberTexts([a, b, c]) == [FieldText(a.key, Serialize(a.value)),
      FieldText(b.key, Serialize(b.value)), FieldText(c.key, Serialize(c.value))]
  {
    var r := MemberTexts([a, b, c]);
    assert r[0] == FieldText(a.key, Serialize(a.value));
    assert r[1] == FieldText(b.key, Serialize(b.value));
    assert r[2] == FieldText(c.key, Serialize(c.value));
  }

  lemma Wrapped3<T>(open: seq<T>, x: seq<T>, sep: seq<T>, y: seq<T>, z: seq<T>, close: seq<T>)
    ensures open + (x + sep + y + sep + z) + close == open + x + sep + y + sep + z + close
  {
  }

  /** The entry text as the formatter writes it: name, decimal value, and the
      hex spelling only for an entry written in hex. */
  lemma EntryText(e: Entry)
    ensures Serialize(EntryJson(e)) ==
      "{" + FieldText("name", Quoted(e.name)) + "," + FieldText("value", Decimal(e.value))
      + (if e.isHex then "," + FieldText("value_hex", Quoted(LowerHex(e.value))) else "") + "}"
  {
    var a, b := NameField(e.name), JMember("value", JNum(e.value));
    if e.isHex {
      var c := JMember("value_hex", JStr(LowerHex(e.value)));
      assert EntryJson(e) == JObj([a, b, c]);
      ObjectText3(a, b, c);
    } else {
      assert EntryJson(e) == JObj([a, b]);
      ObjectText2(a, b);
    }
  }

  /** The message text as the formatter writes it: the name, the destructor
      mark only when set, then the argument vector. */
  lemma MessageText(m: Message)
    ensures var args := JArr(ArgsJson(m.args));
      Serialize(MessageJson(m)) ==
      "{" + FieldText("name", Quoted(m.name))
      + (if m.destructor then "," + FieldText("type", Quoted("DESTRUCTOR")) else "")
      + "," + FieldText("args", Serialize(args)) + "}"
  {
    var args := JArr(ArgsJson(m.args));
    var a, c := NameField(m.name), JMember("args", args);
    if m.destructor {
      var b := JMember("type", JStr("DESTRUCTOR"));
      assert MessageJson(m) == JObj([a, b, c]);
      ObjectText3(a, b, c);
    } else {
      assert MessageJson(m) == JObj([a, c]);
      ObjectText2(a, c);
    }
  }

  /* ---------------------------------------------------------- decoding */

  function StrAt(ms: seq<JMember>, i: nat, key: string): Option<string>
  {
    if i < |ms| && ms[i].key == key && ms[i].value.JStr? then Some(ms[i].value.text) else None
  }

  function NumAt(ms: seq<JMember>, i: nat, key: string): Option<U32>
  {
    if i < |ms| && ms[i].key == key && ms[i].value.JNum? && ms[i].value.num < U32_LIMIT
    then Some(ms[i].value.num) else None
  }

  function ArrAt(ms: seq<JMember>, i: nat, key: string): Option<seq<JValue>>
  {
    if i < |ms| && ms[i].key == key && ms[i].value.JArr? then Some(ms[i].value.items) else None
  }

  /** Every element decoded, or nothing. */
  function DecodeAll<T>(xs: seq<JValue>, dec: JValue -> Option<T>): Option<seq<T>>
  {
    if xs == [] then Some([])
    else
      var y :- dec(xs[0]);
      var ys :- DecodeAll(xs[1..], dec);
      Some([y] + ys)
  }

  lemma {:induction false} DecodeAllOf<T>(xs: seq<JValue>, dec: JValue -> Option<T>, ys: seq<T>)
    requires |xs| == |ys| && forall i :: 0 <= i < |xs| ==> dec(xs[i]) == Some(ys[i])
    ensures DecodeAll(xs, dec) == Some(ys)
    decreases |xs|
  {
    if xs != [] {
      DecodeAllOf(xs[1..], dec, ys[1..]);
      assert [ys[0]] + ys[1..] == ys;
    }
  }

  function DecodeArgType(v: JValue): Option<ArgType>
  {
    if !v.JObj? then None
    else
      var ms := v.members;
      var kind :- StrAt(ms, 0, "name");
      var owner := StrAt(ms, 1, "interface");
      var n := if owner.Some? then 2 else 1;
      if kind == "enum" then
        var e :- StrAt(ms, n, "enum_name");
        if |ms| == n + 1 then Some(UIntEnum(e, owner)) else None
      else if |ms| != n then None
      else if kind == "obj" then Some(Object(owner))
      else if kind == "?obj" then Some(NullObject(owner))
      else if kind == "id" then Some(NewId(owner))
      else if owner.Some? then None
      else if kind == "int" then Some(Int)
      else if kind == "uint" then Some(UInt)
      else if kind == "fixed" then Some(Fixed)
      else if kind == "string" then Some(Str)
      else if kind == "?str" then Some(NullStr)
      else if kind == "arr" then Some(Array)
      else if kind == "fd" then Some(Fd)
      else None
  }

  function DecodeArg(v: JValue): Option<Arg>
  {
    if !v.JObj? || |v.members| != 2 || v.members[1].key != "type" then None
    else
      var name :- StrAt(v.members, 0, "name");
      var ty :- DecodeArgType(v.members[1].value);
      Some(Arg(name, ty))
  }

  function DecodeEntry(v: JValue): Option<Entry>
  {
    if !v.JObj? then None
    else
      var ms := v.members;
      var name :- StrAt(ms, 0, "name");
      var value :- NumAt(ms, 1, "value");
      if |ms| == 2 then Some(Entry(name, value, false))
      else if |ms| == 3 && StrAt(ms, 2, "value_hex") == Some(LowerHex(value)) then Some(Entry(name, value, true))
      else None
  }

  function DecodeEnum(v: JValue): Option<Enum>
  {
    if !v.JObj? || |v.members| != 2 then None
    else
      var name :- StrAt(v.members, 0, "name");
      var items :- ArrAt(v.members, 1, "entries");
      var es :- DecodeAll(items, DecodeEntry);
      Some(Enum(name, es))
  }

  /** The dump carries no `since`: a decoded message has none. */
  function DecodeMessage(v: JValue): Option<Message>
  {
    if !v.JObj? then None
    else
      var ms := v.members;
      var name :- StrAt(ms, 0, "name");
      var destructor := StrAt(ms, 1, "type") == Some("DESTRUCTOR");
      var n := if destructor then 2 else 1;
      if |ms| != n + 1 then None
      else
        var items :- ArrAt(ms, n, "args");
        var args :- DecodeAll(items, DecodeArg);
        Some(Message(name, destructor, None, args))
  }

  function DecodeInterface(v: JValue): Option<Interface>
  {
    if !v.JObj? || |v.members| != 5 then None
    else
      var ms := v.members;
      var name :- StrAt(ms, 0, "name");
      var version :- NumAt(ms, 1, "version");
      var rq :- ArrAt(ms, 2, "requests");
      var ev :- ArrAt(ms, 3, "events");
      var en :- ArrAt(ms, 4, "enums");
      var requests :- DecodeAll(rq, DecodeMessage);
      var events :- DecodeAll(ev, DecodeMessage);
      var enums :- DecodeAll(en, DecodeEnum);
      Some(Interface(name, version, requests, events, enums))
  }

  function DecodeProtocol(v: JValue): Option<Protocol>
  {
    if !v.JObj? || |v.members| != 2 then None
    else
      var name :- StrAt(v.members, 0, "name");
      var items :- ArrAt(v.members, 1, "interfaces");
      var ifaces :- DecodeAll(items, DecodeInterface);
      Some(Protocol(name, ifaces))
  }

  /** A dump read back: one JSON value filling the whole text, decoded. */
  function Load(s: string): Option<Protocol>
  {
    var t :- ReadValue(s);
    if t.1 != [] then None else DecodeProtocol(t.0)
  }

  lemma ArgTypeDecode(t: ArgType)
    ensures DecodeArgType(ArgTypeJson(t)) == Some(t)
  {
    var ms := ArgTypeJson(t).members;
    if t.Nameable() && t.owner.Some? {
      assert StrAt(ms, 1, "interface") == Some(t.owner.value);
    } else {
      assert StrAt(ms, 1, "interface") == None;
    }
  }

  lemma ArgDecode(a: Arg)
    ensures DecodeArg(ArgJson(a)) == Some(a)
  {
    ArgTypeDecode(a.ty);
  }

  lemma ArgsDecode(args: seq<Arg>)
    ensures DecodeAll(ArgsJson(args), DecodeArg) == Some(args)
  {
    forall i | 0 <= i < |args| ensures DecodeArg(ArgsJson(args)[i]) == Some(args[i]) {
      ArgDecode(args[i]);
    }
    DecodeAllOf(ArgsJson(args), DecodeArg, args);
  }

  lemma EntryDecode(e: Entry)
    ensures DecodeEntry(EntryJson(e)) == Some(e)
  {
  }

  lemma EnumDecode(en: Enum)
    ensures DecodeEnum(EnumJson(en)) == Some(en)
  {
    var es := EntriesJson(en.entries);
    forall i | 0 <= i < |es| ensures DecodeEntry(es[i]) == Some(en.entries[i]) {
      EntryDecode(en.entries[i]);
    }
    DecodeAllOf(es, DecodeEntry, en.entries);
  }

  lemma MessageDecode(m: Message)
    requires m.since.None?
    ensures DecodeMessage(MessageJson(m)) == Some(m)
  {
    var ms := MessageJson(m).members;
    ArgsDecode(m.args);
    if m.destructor {
      assert StrAt(ms, 1, "type") == Some("DESTRUCTOR");
    } else {
      assert StrAt(ms, 1, "type") == None;
    }
  }

  lemma MessagesDecode(msgs: seq<Message>)
    requires forall i :: 0 <= i < |msgs| ==> msgs[i].since.None?
    ensures DecodeAll(MessagesJson(msgs), DecodeMessage) == Some(msgs)
  {
    forall i | 0 <= i < |msgs| ensures DecodeMessage(MessagesJson(msgs)[i]) == Some(msgs[i]) {
      MessageDecode(msgs[i]);
    }
    DecodeAllOf(MessagesJson(msgs), DecodeMessage, msgs);
  }

  /** No message of the interface carries a `since` (the dumped types have
      none). */
  predicate NoSince(iface: Interface)
  {
    (forall i :: 0 <= i < |iface.requests| ==> iface.requests[i].since.None?) &&
    (forall i :: 0 <= i < |iface.events| ==> iface.events[i].since.None?)
  }

  lemma InterfaceDecode(iface: Interface)
    requires NoSince(iface)
    ensures DecodeInterface(InterfaceJson(iface)) == Some(iface)
  {
    var v := InterfaceJson(iface);
    var ms := v.members;
    assert StrAt(ms, 0, "name") == Some(iface.name) && NumAt(ms, 1, "version") == Some(iface.version);
    assert ArrAt(ms, 2, "requests") == Some(MessagesJson(iface.requests));
    assert ArrAt(ms, 3, "events") == Some(MessagesJson(iface.events));
    assert ArrAt(ms, 4, "enums") == Some(EnumsJson(iface.enums));
    MessagesDecode(iface.requests);
    MessagesDecode(iface.events);
    EnumsDecode(iface.enums);
    InterfaceDecodeStep(v, iface);
  }

  lemma InterfaceDecodeStep(v: JValue, iface: Interface)
    requires v.JObj? && |v.members| == 5
    requires StrAt(v.members, 0, "name") == Some(iface.name)
    requires NumAt(v.members, 1, "version") == Some(iface.version)
    requires var rq := ArrAt(v.members, 2, "requests");
      rq.Some? && DecodeAll(rq.value, DecodeMessage) == Some(iface.requests)
    requires var ev := ArrAt(v.members, 3, "events");
      ev.Some? && DecodeAll(ev.value, DecodeMessage) == Some(iface.events)
    requires var en := ArrAt(v.members, 4, "enums");
      en.Some? && DecodeAll(en.value, DecodeEnum) == Some(iface.enums)
    ensures DecodeInterface(v) == Some(iface)
  {
  }

  lemma EnumsDecode(ens: seq<Enum>)
    ensures DecodeAll(EnumsJson(ens), DecodeEnum) == Some(ens)
  {
    var es := EnumsJson(ens);
    forall i | 0 <= i < |es| ensures DecodeEnum(es[i]) == Some(ens[i]) {
      EnumDecode(ens[i]);
    }
    DecodeAllOf(es, DecodeEnum, ens);
  }

  /** The decoder recovers every protocol without `since` from its JSON value. */
  lemma ProtocolDecode(p: Protocol)
    requires forall i :: 0 <= i < |p.interfaces| ==> NoSince(p.interfaces[i])
    ensures DecodeProtocol(ProtocolJson(p)) == Some(p)
  {
    var xs := InterfacesJson(p.interfaces);
    forall i | 0 <= i < |xs| ensures DecodeInterface(xs[i]) == Some(p.interfaces[i]) {
      InterfaceDecode(p.interfaces[i]);
    }
    DecodeAllOf(xs, DecodeInterface, p.interfaces);
  }

  /* ------------------------------------------------ the dump read back */

  predicate NoQuote(s: string)
  {
    '"' !in s
  }

  predicate ArgTypeNoQuote(t: ArgType)
  {
    (t.Nameable() && t.owner.Some? ==> NoQuote(t.owner.value)) && (t.UIntEnum? ==> NoQuote(t.enumName))
  }

  predicate MessageNoQuote(m: Message)
  {
    NoQuote(m.name) && forall i :: 0 <= i < |m.args| ==> NoQuote(m.args[i].name) && ArgTypeNoQuote(m.args[i].ty)
  }

  predicate EnumNoQuote(en: Enum)
  {
    NoQuote(en.name) && forall i :: 0 <= i < |en.entries| ==> NoQuote(en.entries[i].name)
  }

  predicate InterfaceNoQuote(iface: Interface)
  {
    NoQuote(iface.name) &&
    (forall i :: 0 <= i < |iface.requests| ==> MessageNoQuote(iface.requests[i])) &&
    (forall i :: 0 <= i < |iface.events| ==> MessageNoQuote(iface.events[i])) &&
    (forall i :: 0 <= i < |iface.enums| ==> EnumNoQuote(iface.enums[i]))
  }

  /** No name of the protocol holds a double quote, the one character the
      formatters would have to escape to keep the dump readable. */
  predicate ProtocolNoQuote(p: Protocol)
  {
    NoQuote(p.name) && forall i :: 0 <= i < |p.interfaces| ==> InterfaceNoQuote(p.interfaces[i])
  }

  lemma ArgTypeQuoteFree(t: ArgType)
    requires ArgTypeNoQuote(t)
    ensures QuoteFree(ArgTypeJson(t))
  {
    ArgTypeMembersFree(t);
    ObjectFree(ArgTypeJson(t).members);
  }

  lemma ObjectFree(ms: seq<JMember>)
    requires MembersFree(ms)
    ensures QuoteFree(JObj(ms))
  {
  }

  lemma ArgTypeMembersFree(t: ArgType)
    requires ArgTypeNoQuote(t)
    ensures ArgTypeJson(t).JObj? && MembersFree(ArgTypeJson(t).members)
  {
    if t.Nameable() {
      OwnedMembersFree(t);
    } else {
      PlainMembersFree(t);
    }
  }

  /** The types with an interface or enum name beside the kind. */
  lemma OwnedMembersFree(t: ArgType)
    requires ArgTypeNoQuote(t) && t.Nameable()
    ensures ArgTypeJson(t).JObj? && MembersFree(ArgTypeJson(t).members)
  {
    OwnerQuoteFree(t.owner);
    match t {
      case UIntEnum(e, owner) =>
        MembersFreeAppend([NameField("enum")], OwnerField(owner));
        MembersFreeAppend([NameField("enum")] + OwnerField(owner), [JMember("enum_name", JStr(e))]);
      case Object(owner) =>
        MembersFreeAppend([NameField("obj")], OwnerField(owner));
      case NullObject(owner) =>
        MembersFreeAppend([NameField("?obj")], OwnerField(owner));
      case NewId(owner) =>
        MembersFreeAppend([NameField("id")], OwnerField(owner));
    }
  }

  /** The types written by their kind alone. */
  lemma PlainMembersFree(t: ArgType)
    requires !t.Nameable()
    ensures ArgTypeJson(t).JObj? && MembersFree(ArgTypeJson(t).members)
  {
  }

  /** No `"` in any key or value of an object's members. */
  ghost predicate MembersFree(ms: seq<JMember>)
  {
    forall i :: 0 <= i < |ms| ==> '"' !in ms[i].key && QuoteFree(ms[i].value)
  }

  lemma MembersFreeAppend(a: seq<JMember>, b: seq<JMember>)
    requires MembersFree(a) && MembersFree(b)
    ensures MembersFree(a + b)
  {
    forall i | 0 <= i < |a + b| ensures '"' !in (a + b)[i].key && QuoteFree((a + b)[i].value) {
      if i >= |a| {
        assert (a + b)[i] == b[i - |a|];
      }
    }
  }

  lemma OwnerQuoteFree(owner: Option<string>)
    requires owner.Some? ==> NoQuote(owner.value)
    ensures MembersFree(OwnerField(owner))
  {
  }

  lemma MessageQuoteFree(m: Message)
    requires MessageNoQuote(m)
    ensures QuoteFree(MessageJson(m))
  {
    var xs := ArgsJson(m.args);
    forall i | 0 <= i < |xs| ensures QuoteFree(xs[i]) {
      ArgTypeQuoteFree(m.args[i].ty);
    }
    assert QuoteFree(JArr(xs));
  }

  lemma EnumQuoteFree(en: Enum)
    requires EnumNoQuote(en)
    ensures QuoteFree(EnumJson(en))
  {
    var xs := EntriesJson(en.entries);
    forall i | 0 <= i < |xs| ensures QuoteFree(xs[i]) {
      EntryQuoteFree(en.entries[i]);
    }
    assert QuoteFree(JArr(xs));
  }

  lemma EntryQuoteFree(e: Entry)
    requires NoQuote(e.name)
    ensures QuoteFree(EntryJson(e))
  {
    DigitsShape(e.value, 16);
  }

  lemma InterfaceQuoteFree(iface: Interface)
    requires InterfaceNoQuote(iface)
    ensures QuoteFree(InterfaceJson(iface))
  {
    var rq, ev, en := MessagesJson(iface.requests), MessagesJson(iface.events), EnumsJson(iface.enums);
    forall i | 0 <= i < |rq| ensures QuoteFree(rq[i]) {
      MessageQuoteFree(iface.requests[i]);
    }
    forall i | 0 <= i < |ev| ensures QuoteFree(ev[i]) {
      MessageQuoteFree(iface.events[i]);
    }
    forall i | 0 <= i < |en| ensures QuoteFree(en[i]) {
      EnumQuoteFree(iface.enums[i]);
    }
    assert QuoteFree(JArr(rq)) && QuoteFree(JArr(ev)) && QuoteFree(JArr(en));
  }

  lemma ProtocolQuoteFree(p: Protocol)
    requires ProtocolNoQuote(p)
    ensures QuoteFree(ProtocolJson(p))
  {
    var xs := InterfacesJson(p.interfaces);
    forall i | 0 <= i < |xs| ensures QuoteFree(xs[i]) {
      InterfaceQuoteFree(p.interfaces[i]);
    }
    assert QuoteFree(JArr(xs));
  }

  /** The JSON mode's output determines the protocol: reading the dump back
      gives the protocol itself, as long as no name holds a quote and no
      message carries a `since` the dump does not print. */
  lemma DumpReadBack(p: Protocol)
    requires ProtocolNoQuote(p)
    requires forall i :: 0 <= i < |p.interfaces| ==> NoSince(p.interfaces[i])
    ensures Load(Dump(p)) == Some(p)
  {
    ProtocolQuoteFree(p);
    ValueReadBack(ProtocolJson(p), []);
    assert Dump(p) + [] == Dump(p);
    ProtocolDecode(p);
  }

  /** Names go between quotes unescaped, so a quote in a name ends the
      string early: the dump of a protocol named `"` does not read back. */
  lemma QuotedNameBreaksDump()
    ensures Load(Dump(Protocol("\"", []))) == None
  {
    var p := Protocol("\"", []);
    var after := "\"," + FieldText("interfaces", "[]") + "}";
    var s1 := FieldText("name", "\"\"") + after;
    DumpOfQuotedName(after, s1);
    StrayQuote("name", after);
  }

  lemma DumpOfQuotedName(after: string, s1: string)
    requires after == "\"," + FieldText("interfaces", "[]") + "}"
    requires s1 == FieldText("name", "\"\"") + after
    ensures Dump(Protocol("\"", []))[0] == '{' && Dump(Protocol("\"", []))[1..] == s1
  {
    var x := FieldText("interfaces", "[]");
    QuoteProtocolText();
    QuoteSplit();
    Regroup7("{", "\"" + "name" + "\":", "\"\"", "\"", ",", x, "}");
  }

  /** The dump of a protocol named by one quote, field by field. */
  lemma QuoteProtocolText()
    ensures Dump(Protocol("\"", [])) ==
      "{" + FieldText("name", "\"\"" + "\"") + "," + FieldText("interfaces", "[]") + "}"
  {
    var p := Protocol("\"", []);
    var name := NameField("\"");
    var ifs := JMember("interfaces", JArr([]));
    assert InterfacesJson([]) == [];
    assert ProtocolJson(p) == JObj([name, ifs]);
    ObjectText2(name, ifs);
    assert Serialize(JArr([])) == "[]";
    assert Serialize(JStr("\"")) == "\"\"" + "\"";
  }

  lemma QuoteSplit()
    ensures "\"" + "," == "\"," && FieldText("name", "\"\"") == ("\"" + "name" + "\":") + "\"\""
  {
  }

  lemma Regroup7<T>(o: seq<T>, p: seq<T>, q2: seq<T>, q: seq<T>, c: seq<T>, x: seq<T>, cl: seq<T>)
    ensures o + (p + (q2 + q)) + c + x + cl == o + ((p + q2) + ((q + c) + x + cl))
  {
  }

  /** An empty string followed by a stray quote stops the field reader. */
  lemma StrayQuote(key: string, after: string)
    requires '"' !in key && after != [] && after[0] == '"'
    ensures ReadFields(FieldText(key, "\"\"") + after) == None
  {
    var empty := "\"\"";
    EmptyStrText();
    StrReadBack("", after);
    FieldReadBack(key, empty, JStr(""), after);
    FieldTextQuoted(key, empty, after);
    FieldsStop(FieldText(key, empty) + after, JMember(key, JStr("")), after);
  }

  lemma EmptyStrText()
    ensures Serialize(JStr("")) == "\"\""
  {
  }

  lemma FieldTextQuoted(key: string, value: string, after: string)
    ensures FieldText(key, value) + after == Quoted(key) + ":" + value + after
    ensures (FieldText(key, value) + after)[0] == '"'
  {
  }

  lemma FieldsStop(s: string, m: JMember, after: string)
    requires s != [] && s[0] == '"' && ReadField(s) == Some((m, after))
    requires after != [] && after[0] != '}' && after[0] != ','
    ensures ReadFields(s) == None
  {
  }
}

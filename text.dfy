/** Character-level helpers shared by the parser, the generators and the
    command line: the digits `std::from_chars` accepts, the value of a digit
    string, decimal and hexadecimal rendering, and splitting on a separator. */
module Text {
  import opened Wrappers

  /** Values of `uint32_t`, the type every number of a protocol file is read into. */
  const U32_LIMIT: nat := 0x1_0000_0000
  type U32 = x: nat | x < U32_LIMIT

  /** Why `std::from_chars` (with the completeness test of `parse_num`) gave no number. */
  datatype NumError =
    | InvalidArgument   // no digit at the start of the text
    | OutOfRange        // the digits denote a value that does not fit in 32 bits
    | Incomplete        // the digits stop before the end of the text

  /** The value of an alphanumeric character as a digit, 36 for every other
      character; letters count the same in upper and lower case. */
  function DigitValue(c: char): nat
  {
    if '0' <= c <= '9' then (c - '0') as nat
    else if 'a' <= c <= 'z' then (c - 'a') as nat + 10
    else if 'A' <= c <= 'Z' then (c - 'A') as nat + 10
    else 36
  }

  predicate IsDigit(c: char, base: nat)
  {
    DigitValue(c) < base
  }

  predicate AllDigits(s: string, base: nat)
  {
    forall i :: 0 <= i < |s| ==> IsDigit(s[i], base)
  }

  /** The value of a digit string, most significant digit first. */
  function ValueOf(s: string, base: nat): nat
  {
    if s == [] then 0
    else ValueOf(s[..|s| - 1], base) * base + DigitValue(s[|s| - 1])
  }

  /** The length of the longest prefix of `s` made of digits. */
  function DigitRun(s: string, base: nat): (k: nat)
    ensures k <= |s|
    ensures AllDigits(s[..k], base)
    ensures k < |s| ==> !IsDigit(s[k], base)
  {
    if s == [] || !IsDigit(s[0], base) then 0
    else
      var k := 1 + DigitRun(s[1..], base);
      assert s[..k] == [s[0]] + s[1..][..k - 1];
      k
  }

  /** `std::from_chars` into a `uint32_t` followed by the check that the whole
      text was consumed (Parser.cc `parse_num`): no sign, no prefix, no
      surrounding blanks. */
  function ParseU32(s: string, base: nat): (r: Result<U32, NumError>)
    requires 2 <= base <= 36
    ensures r.Ok? <==> s != [] && AllDigits(s, base) && ValueOf(s, base) < U32_LIMIT
    ensures r.Ok? ==> r.value == ValueOf(s, base)
    ensures r == Err(InvalidArgument) <==> s == [] || !IsDigit(s[0], base)
  {
    if s == [] || !IsDigit(s[0], base) then Err(InvalidArgument)
    else
      var k := DigitRun(s, base);
      var v := ValueOf(s[..k], base);
      if k == |s| then
        assert s[..k] == s;
        if v >= U32_LIMIT then Err(OutOfRange) else Ok(v)
      else if v >= U32_LIMIT then Err(OutOfRange)
      else Err(Incomplete)
  }

  /** The character `std::format` writes for a digit (lower-case letters). */
  function DigitChar(d: nat): (c: char)
    requires d < 36
    ensures DigitValue(c) == d
  {
    if d < 10 then ('0' as int + d) as char else ('a' as int + d - 10) as char
  }

  /** `n` written in `base` without leading zeros ("0" for zero). */
  function Digits(n: nat, base: nat): (s: string)
    requires 2 <= base <= 36
    decreases n
  {
    if n < base then [DigitChar(n)] else Digits(n / base, base) + [DigitChar(n % base)]
  }

  function Decimal(n: nat): string { Digits(n, 10) }

  /** `std::format("{:x}", n)`. */
  function LowerHex(n: nat): string { Digits(n, 16) }

  lemma {:induction false} DigitsShape(n: nat, base: nat)
    requires 2 <= base <= 36
    ensures Digits(n, base) != []
    ensures AllDigits(Digits(n, base), base)
    ensures ValueOf(Digits(n, base), base) == n
    decreases n
  {
    if n < base {
      LastDigit([], DigitChar(n), base);
      assert [] + [DigitChar(n)] == Digits(n, base);
    } else {
      DigitsShape(n / base, base);
      DigitsStep(n, base);
    }
  }

  lemma DigitsStep(n: nat, base: nat)
    requires 2 <= base <= 36 && n >= base
    requires AllDigits(Digits(n / base, base), base)
    requires ValueOf(Digits(n / base, base), base) == n / base
    ensures AllDigits(Digits(n, base), base)
    ensures ValueOf(Digits(n, base), base) == n
  {
    var q, d := n / base, n % base;
    DivMod(n, base, q, d);
    LastDigit(Digits(q, base), DigitChar(d), base);
  }

  lemma DivMod(n: nat, base: nat, q: nat, d: nat)
    requires 2 <= base && q == n / base && d == n % base
    ensures n == q * base + d && d < base
  {
  }

  /** Appending one digit multiplies the value by the base and adds the digit. */
  lemma LastDigit(p: string, c: char, base: nat)
    requires AllDigits(p, base) && IsDigit(c, base)
    ensures AllDigits(p + [c], base)
    ensures ValueOf(p + [c], base) == ValueOf(p, base) * base + DigitValue(c)
  {
    var s := p + [c];
    assert s[..|s| - 1] == p;
    forall i | 0 <= i < |s| ensures IsDigit(s[i], base) {
      if i < |p| { assert s[i] == p[i]; }
    }
  }

  /** Rendering a 32-bit number and reading it back with `parse_num` gives the number. */
  lemma ParseDigits(n: U32, base: nat)
    requires 2 <= base <= 36
    ensures ParseU32(Digits(n, base), base) == Ok(n)
  {
    DigitsShape(n, base);
  }

  predicate StartsWith(s: string, prefix: string)
  {
    |prefix| <= |s| && s[..|prefix|] == prefix
  }

  /** The pieces of `s` between occurrences of `sep`, empty pieces kept: a
      text with k separators has k + 1 pieces. */
  function SplitOn(s: string, sep: char): (parts: seq<string>)
    ensures |parts| >= 1
    ensures forall i :: 0 <= i < |parts| ==> sep !in parts[i]
    decreases |s|
  {
    if s == [] then [[]]
    else if s[0] == sep then [[]] + SplitOn(s[1..], sep)
    else
      var rest := SplitOn(s[1..], sep);
      [[s[0]] + rest[0]] + rest[1..]
  }

  /** The pieces written one after another with `sep` between each two. */
  function Join(parts: seq<string>, sep: char): string
  {
    if parts == [] then []
    else if |parts| == 1 then parts[0]
    else parts[0] + [sep] + Join(parts[1..], sep)
  }

  lemma {:induction false} JoinSplit(s: string, sep: char)
    ensures Join(SplitOn(s, sep), sep) == s
    decreases |s|
  {
    if s != [] {
      JoinSplit(s[1..], sep);
      var rest := SplitOn(s[1..], sep);
      if s[0] == sep {
        assert s == [sep] + s[1..];
      } else {
        var parts := SplitOn(s, sep);
        assert parts[1..] == rest[1..];
        if |rest| == 1 {
          assert s == [s[0]] + rest[0];
        } else {
          assert Join(rest, sep) == rest[0] + [sep] + Join(rest[1..], sep);
          assert s == [s[0]] + s[1..];
        }
      }
    }
  }

  lemma {:induction false} SplitJoin(parts: seq<string>, sep: char)
    requires |parts| >= 1
    requires forall i :: 0 <= i < |parts| ==> sep !in parts[i]
    ensures SplitOn(Join(parts, sep), sep) == parts
    decreases |parts|, |parts[0]|
  {
    var head := parts[0];
    if head == [] {
      if |parts| > 1 {
        SplitJoin(parts[1..], sep);
        assert Join(parts, sep) == [sep] + Join(parts[1..], sep);
        assert parts == [[]] + parts[1..];
      }
    } else {
      var shorter := [head[1..]] + parts[1..];
      assert sep !in head[1..] by { assert forall c :: c in head[1..] ==> c in head; }
      SplitJoin(shorter, sep);
      assert Join(parts, sep) == [head[0]] + Join(shorter, sep) by {
        if |parts| > 1 {
          assert Join(shorter, sep) == head[1..] + [sep] + Join(parts[1..], sep);
          assert head == [head[0]] + head[1..];
        } else {
          assert head == [head[0]] + head[1..];
        }
      }
      var x := Join(parts, sep);
      assert x[0] == head[0] && head[0] != sep;
      assert x[1..] == Join(shorter, sep);
      assert SplitOn(x, sep) == [[x[0]] + SplitOn(x[1..], sep)[0]] + SplitOn(x[1..], sep)[1..];
      assert shorter[0] == head[1..] && shorter[1..] == parts[1..];
      assert [head[0]] + head[1..] == head;
      assert parts == [head] + parts[1..];
    }
  }
}

/** The argument-vector operations both command lines share: looking an
    option up with `std::ranges::find`, erasing it (with its value), and
    the `(arg)` decoration of leftover arguments in error messages. */
module ArgLists {
  import opened JsonFormat

  /** `std::ranges::find`: the first position holding `x`, the length when
      there is none. */
  function IndexOf<T(==)>(args: seq<T>, x: T): (i: nat)
    ensures i <= |args|
    ensures i < |args| ==> args[i] == x
    ensures forall j :: 0 <= j < i ==> args[j] != x
    ensures i == |args| <==> x !in args
  {
    if args == [] then 0
    else if args[0] == x then 0
    else 1 + IndexOf(args[1..], x)
  }

  method Find<T(==)>(args: seq<T>, x: T) returns (i: nat)
    ensures i == IndexOf(args, x)
  {
    i := 0;
    while i < |args| && args[i] != x
      invariant i <= |args|
      invariant forall j :: 0 <= j < i ==> args[j] != x
    {
      i := i + 1;
    }
  }

  /** `x` put into `xs` at position `p`. */
  function Inserted<T>(xs: seq<T>, p: nat, x: T): (r: seq<T>)
    requires p <= |xs|
    ensures |r| == |xs| + 1 && r[p] == x
    ensures forall k :: 0 <= k < p ==> r[k] == xs[k]
    ensures forall k :: p < k < |r| ==> r[k] == xs[k - 1]
  {
    xs[..p] + [x] + xs[p..]
  }

  /** The vector with the option at its first occurrence erased, and whether
      there was one: putting the option back where it was, ahead of any other
      copy, gives the vector again. */
  function TakeFlag<T(==)>(args: seq<T>, flag: T): (r: (seq<T>, bool))
    ensures r.1 <==> flag in args
    ensures !r.1 ==> r.0 == args
    ensures r.1 ==> exists p :: 0 <= p <= |r.0| && flag !in r.0[..p] && args == Inserted(r.0, p, flag)
  {
    var i := IndexOf(args, flag);
    if i == |args| then (args, false)
    else
      var rest := args[..i] + args[i + 1..];
      assert rest[..i] == args[..i];
      assert args == Inserted(rest, i, flag);
      (rest, true)
  }

  /** Conversely, erasing an option put into a vector ahead of any copy it
      already holds gives that vector back. */
  lemma TakeInserted<T>(xs: seq<T>, p: nat, flag: T)
    requires p <= |xs| && flag !in xs[..p]
    ensures TakeFlag(Inserted(xs, p, flag), flag) == (xs, true)
  {
    var args := Inserted(xs, p, flag);
    assert forall k :: 0 <= k < p ==> args[k] == xs[..p][k];
    assert IndexOf(args, flag) == p;
    assert args[..p] + args[p + 1..] == xs;
  }

  /** Finding the option and erasing it where it was found. */
  method Erase<T(==)>(args: seq<T>, flag: T) returns (rest: seq<T>, found: bool)
    ensures (rest, found) == TakeFlag(args, flag)
  {
    var at := Find(args, flag);
    if at == |args| {
      rest, found := args, false;
    } else {
      rest, found := args[..at] + args[at + 1..], true;
    }
  }

  /** Erasing the option takes exactly one copy of it out of the vector. */
  lemma TakeFlagCount<T>(args: seq<T>, flag: T)
    ensures var r := TakeFlag(args, flag);
      multiset(r.0) == if r.1 then multiset(args) - multiset{flag} else multiset(args)
  {
    var i := IndexOf(args, flag);
    if i < |args| {
      assert args == args[..i] + [flag] + args[i + 1..];
    }
  }

  /** One copy of `opt` when `w`, none otherwise. */
  function Present<T(==)>(w: bool, opt: T): multiset<T>
  {
    if w then multiset{opt} else multiset{}
  }

  /** Erasing a mandatory `flag` and then an optional `opt`: what was taken
      out and what is left make up the vector, and a copy of `opt` can be
      left only when one was taken. */
  lemma FlagsTakenOut<T>(args: seq<T>, flag: T, opt: T)
    ensures var t1 := TakeFlag(args, flag); var t2 := TakeFlag(t1.0, opt);
      t1.1 ==>
        multiset(args) == multiset{flag} + multiset(t2.0) + Present(t2.1, opt) &&
        (opt in multiset(t2.0) ==> t2.1)
  {
    var t1 := TakeFlag(args, flag);
    TakeFlagCount(args, flag);
    TakeFlagCount(t1.0, opt);
  }

  /** Conversely, a vector made of the flag, the `files` and possibly `opt`
      gives back exactly those `files`, provided `opt` is not among them
      without also being given as the option. */
  lemma FlagsTakenIn<T>(args: seq<T>, flag: T, opt: T, files: multiset<T>, w: bool)
    requires flag != opt && (opt in files ==> w)
    requires multiset(args) == multiset{flag} + files + Present(w, opt)
    ensures var t1 := TakeFlag(args, flag); var t2 := TakeFlag(t1.0, opt);
      t1.1 && t2.1 == w && multiset(t2.0) == files
  {
    FlagTakenIn(args, flag, files + Present(w, opt));
    OptionTakenIn(TakeFlag(args, flag).0, opt, files, w);
  }

  lemma FlagTakenIn<T>(args: seq<T>, flag: T, rest: multiset<T>)
    requires multiset(args) == multiset{flag} + rest
    ensures TakeFlag(args, flag).1 && multiset(TakeFlag(args, flag).0) == rest
  {
    assert flag in multiset(args);
    TakeFlagCount(args, flag);
  }

  lemma OptionTakenIn<T>(args: seq<T>, opt: T, files: multiset<T>, w: bool)
    requires (opt in files ==> w) && multiset(args) == files + Present(w, opt)
    ensures TakeFlag(args, opt).1 == w && multiset(TakeFlag(args, opt).0) == files
  {
    TakeFlagCount(args, opt);
    if !w {
      assert opt !in multiset(args);
    } else {
      assert opt in multiset(args);
    }
  }

  /** What the two erasures leave, when that is one file, was the vector
      less the flag and the option taken. */
  lemma OneLeft<T>(args: seq<T>, flag: T, opt: T)
    ensures var t1 := TakeFlag(args, flag); var t2 := TakeFlag(t1.0, opt);
      t1.1 && |t2.0| == 1 ==>
        multiset(args) == multiset{flag, t2.0[0]} + Present(t2.1, opt) &&
        (t2.0[0] == opt ==> t2.1)
  {
    var t1 := TakeFlag(args, flag);
    var t2 := TakeFlag(t1.0, opt);
    if t1.1 && |t2.0| == 1 {
      FlagsTakenOut(args, flag, opt);
      OneOf(multiset(args), t2.0, Present(t2.1, opt), flag);
    }
  }

  lemma OneOf<T>(all: multiset<T>, s: seq<T>, p: multiset<T>, f: T)
    requires |s| == 1 && all == multiset{f} + multiset(s) + p
    ensures all == multiset{f, s[0]} + p
    ensures s[0] in multiset(s)
  {
    assert s == [s[0]];
  }

  lemma TwoLeft<T>(args: seq<T>, flag: T, opt: T)
    ensures var t1 := TakeFlag(args, flag); var t2 := TakeFlag(t1.0, opt);
      t1.1 && |t2.0| == 2 ==>
        multiset(args) == multiset{flag, t2.0[0], t2.0[1]} + Present(t2.1, opt) &&
        ((t2.0[0] == opt || t2.0[1] == opt) ==> t2.1)
  {
    var t1 := TakeFlag(args, flag);
    var t2 := TakeFlag(t1.0, opt);
    if t1.1 && |t2.0| == 2 {
      FlagsTakenOut(args, flag, opt);
      TwoOf(multiset(args), t2.0, Present(t2.1, opt), flag);
    }
  }

  lemma TwoOf<T>(all: multiset<T>, s: seq<T>, p: multiset<T>, f: T)
    requires |s| == 2 && all == multiset{f} + multiset(s) + p
    ensures all == multiset{f, s[0], s[1]} + p
    ensures s[0] in multiset(s) && s[1] in multiset(s)
  {
    assert s == [s[0]] + [s[1]];
  }

  /** The two values a vector of two holds. */
  lemma PairOf<T>(s: seq<T>, a: T, b: T)
    requires multiset(s) == multiset{a, b}
    ensures |s| == 2 && multiset{s[0], s[1]} == multiset{a, b}
  {
    assert |s| == |multiset(s)|;
    assert s == [s[0], s[1]];
  }

  /** With one file left over, that file is the whole remainder. */
  lemma OneTaken<T>(args: seq<T>, flag: T, opt: T, f: T, w: bool)
    requires flag != opt && (f == opt ==> w)
    requires multiset(args) == multiset{flag, f} + Present(w, opt)
    ensures var t1 := TakeFlag(args, flag); var t2 := TakeFlag(t1.0, opt);
      t1.1 && t2.1 == w && t2.0 == [f]
  {
    var t2 := TakeFlag(TakeFlag(args, flag).0, opt);
    FlagsTakenIn(args, flag, opt, multiset{f}, w);
    SingleOf(t2.0, f);
  }

  lemma SingleOf<T>(s: seq<T>, f: T)
    requires multiset(s) == multiset{f}
    ensures s == [f]
  {
    assert |s| == |multiset(s)| == 1;
    assert s[0] in multiset(s);
  }

  /** With two files left over, the remainder holds both, in some order. */
  lemma TwoTaken<T>(args: seq<T>, flag: T, opt: T, a: T, b: T, w: bool)
    requires flag != opt && ((a == opt || b == opt) ==> w)
    requires multiset(args) == multiset{flag, a, b} + Present(w, opt)
    ensures var t1 := TakeFlag(args, flag); var t2 := TakeFlag(t1.0, opt);
      t1.1 && t2.1 == w && |t2.0| == 2 && multiset{t2.0[0], t2.0[1]} == multiset{a, b}
  {
    var t2 := TakeFlag(TakeFlag(args, flag).0, opt);
    FlagsTakenIn(args, flag, opt, multiset{a, b}, w);
    PairOf(t2.0, a, b);
  }

  /** Each leftover argument between parentheses. */
  function Decorated(args: seq<string>): (r: seq<string>)
    ensures |r| == |args| && forall k :: 0 <= k < |args| ==> r[k] == "(" + args[k] + ")"
  {
    seq(|args|, k requires 0 <= k < |args| => "(" + args[k] + ")")
  }

  /** The decorating loop, rewriting the vector in place. */
  method Decorate(args: seq<string>) returns (out: seq<string>)
    ensures out == Decorated(args)
  {
    out := args;
    var k := 0;
    while k < |out|
      invariant 0 <= k <= |out| == |args|
      invariant forall j :: 0 <= j < k ==> out[j] == "(" + args[j] + ")"
      invariant forall j :: k <= j < |out| ==> out[j] == args[j]
    {
      out := out[k := "(" + out[k] + ")"];
      k := k + 1;
    }
  }

  /** How leftover arguments are listed in a message: `[(a),(b)]`. */
  function LeftoverText(args: seq<string>): string
  {
    FormatVector(Decorated(args))
  }

  /** The listing names every leftover argument, in order: when no argument
      holds a comma, splitting between the brackets gives each one back
      between parentheses. */
  lemma LeftoverListed(args: seq<string>)
    requires args != [] && forall k :: 0 <= k < |args| ==> ',' !in args[k]
    ensures var s := LeftoverText(args); var pieces := Text.SplitOn(s[1..|s| - 1], ',');
      |pieces| == |args| &&
      forall k :: 0 <= k < |args| ==> pieces[k] == "(" + args[k] + ")"
  {
    var d := Decorated(args);
    forall k | 0 <= k < |d| ensures ',' !in d[k] {
      assert d[k] == "(" + args[k] + ")";
    }
    VectorReadBack(d);
  }
}

/** The growable list of output lines every generator writes into
    (StringList.hh). */
module Lines {

  /** Every line with `pad` in front of it. */
  function Padded(lines: seq<string>, pad: string): (r: seq<string>)
    ensures |r| == |lines|
    ensures forall i :: 0 <= i < |lines| ==> r[i] == pad + lines[i]
  {
    if lines == [] then [] else [pad + lines[0]] + Padded(lines[1..], pad)
  }

  /** Padding twice is padding once with both pads, the outer one first. */
  lemma PaddedTwice(lines: seq<string>, inner: string, outer: string)
    ensures Padded(Padded(lines, inner), outer) == Padded(lines, outer + inner)
  {
    var a, b := Padded(Padded(lines, inner), outer), Padded(lines, outer + inner);
    assert forall i :: 0 <= i < |lines| ==> a[i] == outer + (inner + lines[i]) == b[i];
  }

  /** Every line followed by a line break, all run together. */
  function Render(lines: seq<string>): string
  {
    if lines == [] then [] else lines[0] + "\n" + Render(lines[1..])
  }

  lemma {:induction false} RenderAppend(a: seq<string>, b: seq<string>)
    ensures Render(a + b) == Render(a) + Render(b)
    decreases |a|
  {
    if a != [] {
      RenderAppend(a[1..], b);
      assert (a + b)[0] == a[0] && (a + b)[1..] == a[1..] + b;
      assert Render(a + b) == a[0] + "\n" + Render(a[1..] + b);
    } else {
      assert a + b == b;
    }
  }

  class StringList {
    var val: seq<string>

    constructor ()
      ensures val == []
    {
      val := [];
    }

    /** `operator+=(std::string&&)`: one more line at the end. */
    method Push(line: string)
      modifies this
      ensures val == old(val) + [line]
    {
      val := val + [line];
    }

    /** `operator+=(StringList&&)`: moves the other list's lines to the end
        of this one and leaves the other list empty. */
    method Append(o: StringList)
      requires o != this
      modifies this, o
      ensures val == old(val) + old(o.val)
      ensures o.val == []
    {
      var i := 0;
      while i < |o.val|
        invariant 0 <= i <= |o.val|
        invariant o.val == old(o.val)
        invariant val == old(val) + o.val[..i]
      {
        val := val + [o.val[i]];
        i := i + 1;
      }
      assert o.val[..i] == o.val;
      o.val := [];
    }

    /** `leftPad`: prefixes every line in place. */
    method LeftPad(pad: string)
      modifies this
      ensures val == Padded(old(val), pad)
    {
      var i := 0;
      while i < |val|
        invariant 0 <= i <= |val| == |old(val)|
        invariant forall k :: 0 <= k < i ==> val[k] == pad + old(val)[k]
        invariant forall k :: i <= k < |val| ==> val[k] == old(val)[k]
      {
        val := val[i := pad + val[i]];
        i := i + 1;
      }
    }

    predicate Empty()
      reads this
    {
      val == []
    }

    function Get(): seq<string>
      reads this
    {
      val
    }
  }
}

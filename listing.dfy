/** The comma rule every generator applies to the lists it emits (the
    argument lists of a request, the call arguments, the entries of an enum):
    walking the list from its end, every item after the first valued one
    met gets a trailing comma; items without a value (diagnostic comments)
    are passed over and never get one. */
module Listing {

  /** Which items get a comma: a valued item followed, somewhere later, by
      another valued item. */
  function Commas(valued: seq<bool>): (r: seq<bool>)
    ensures |r| == |valued|
    ensures forall i :: 0 <= i < |valued| ==>
      (r[i] <==> valued[i] && exists j :: i < j < |valued| && valued[j])
  {
    if valued == [] then []
    else
      var init := valued[..|valued| - 1];
      var rest := Commas(init);
      if valued[|valued| - 1] then
        assert forall i :: 0 <= i < |init| ==> init[i] == valued[i];
        init + [false]
      else
        assert forall i :: 0 <= i < |init| ==> init[i] == valued[i];
        rest + [false]
  }

  /** The reversed walk of the generators: a `first` flag, cleared by the
      first valued item met from the end. */
  method MarkCommas(valued: seq<bool>) returns (commas: seq<bool>)
    ensures commas == Commas(valued)
  {
    commas := seq(|valued|, _ => false);
    var first := true;
    var i := |valued|;
    while i > 0
      invariant 0 <= i <= |valued| && |commas| == |valued|
      invariant first <==> forall j :: i <= j < |valued| ==> !valued[j]
      invariant forall k :: i <= k < |valued| ==>
        (commas[k] <==> valued[k] && exists j :: k < j < |valued| && valued[j])
      invariant forall k :: 0 <= k < i ==> !commas[k]
    {
      i := i - 1;
      if valued[i] {
        if !first {
          commas := commas[i := true];
        }
        first := false;
      }
    }
    var spec := Commas(valued);
    assert forall k :: 0 <= k < |valued| ==> commas[k] == spec[k];
  }

  /** In a list whose every item is valued, exactly the items before the
      last get a comma. */
  lemma AllValuedCommas(n: nat)
    ensures var r := Commas(seq(n, _ => true));
      forall i :: 0 <= i < n ==> (r[i] <==> i < n - 1)
  {
    var v := seq(n, _ => true);
    if n > 0 {
      assert v[n - 1];
    }
  }

  /** Each line with its comma appended where the rule puts one: every
      line starts with the original one and is one character longer exactly
      where a comma is due, that character being the comma. */
  function Suffixed(lines: seq<string>, commas: seq<bool>): (r: seq<string>)
    requires |commas| == |lines|
    ensures |r| == |lines|
    ensures forall i :: 0 <= i < |lines| ==>
      |lines[i]| <= |r[i]| && r[i][..|lines[i]|] == lines[i] &&
      (|r[i]| > |lines[i]| <==> commas[i]) &&
      (commas[i] ==> r[i] == lines[i] + ",")
  {
    seq(|lines|, i requires 0 <= i < |lines| => if commas[i] then lines[i] + "," else lines[i])
  }

  /** The lines of a list in which every item is valued. */
  function CommaList(lines: seq<string>): (r: seq<string>)
    ensures |r| == |lines|
    ensures forall i :: 0 <= i < |lines| ==>
      r[i] == (if i < |lines| - 1 then lines[i] + "," else lines[i])
  {
    AllValuedCommas(|lines|);
    Suffixed(lines, Commas(seq(|lines|, _ => true)))
  }

  /** Every line shifted right by four spaces (`indent`, `leftPad("    ")`). */
  function Indented(lines: seq<string>): (r: seq<string>)
    ensures |r| == |lines|
    ensures forall i :: 0 <= i < |lines| ==> r[i] == "    " + lines[i]
  {
    seq(|lines|, i requires 0 <= i < |lines| => "    " + lines[i])
  }
}

/** The pair split of List: the reply's Results are (type, name, type, name, ...). */
module Listing {
  import opened Wrappers

  /** The flattened form the device sends: each type followed by its name. */
  function Interleave(types: seq<string>, names: seq<string>): (r: seq<string>)
    requires |types| == |names|
    ensures |r| == 2 * |types|
  {
    if types == [] then [] else [types[0], names[0]] + Interleave(types[1..], names[1..])
  }

  lemma {:induction false} InterleaveAt(types: seq<string>, names: seq<string>, k: nat)
    requires |types| == |names| && k < |types|
    ensures Interleave(types, names)[2 * k] == types[k]
    ensures Interleave(types, names)[2 * k + 1] == names[k]
  {
    if k > 0 {
      InterleaveAt(types[1..], names[1..], k - 1);
    }
  }

  /** The loop `for (i = 0; i < Results.Count; i += 2)` adding Results[i] to the types and
      Results[i + 1] to the names; on an odd count the last Results[i + 1] is out of range. */
  method SplitPairs(results: seq<string>) returns (r: Result<(seq<string>, seq<string>)>)
    ensures r.Ok? <==> |results| % 2 == 0
    ensures r.Err? ==> r.error == ArgumentOutOfRange
    ensures r.Ok? ==> |r.value.0| == |r.value.1| == |results| / 2
    ensures r.Ok? ==> forall k :: 0 <= k < |results| / 2 ==>
      r.value.0[k] == results[2 * k] && r.value.1[k] == results[2 * k + 1]
    ensures r.Ok? ==> Interleave(r.value.0, r.value.1) == results
  {
    var types: seq<string> := [];
    var names: seq<string> := [];
    var i := 0;
    while i < |results|
      invariant 0 <= i <= |results| && i % 2 == 0
      invariant |types| == |names| == i / 2
      invariant forall k :: 0 <= k < i / 2 ==> types[k] == results[2 * k] && names[k] == results[2 * k + 1]
    {
      types := types + [results[i]];
      if i + 1 >= |results| {
        return Err(ArgumentOutOfRange);
      }
      names := names + [results[i + 1]];
      i := i + 2;
    }
    var flat := Interleave(types, names);
    forall j | 0 <= j < |results| ensures flat[j] == results[j] {
      InterleaveAt(types, names, j / 2);
    }
    r := Ok((types, names));
  }
}

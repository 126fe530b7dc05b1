/** The entropy a cell is scheduled by: the sum of its options' weights over
    their largest weight, 0 for no options, and the float INFINITY for a
    cell that has not been weighed yet. */
module Entropy {
  import opened Tiles

  /** A float entropy; `Infinite` is INFINITY. */
  datatype Entropy = Finite(value: real) | Infinite

  /** The float comparison `a < b`, INFINITY lying above every finite value. */
  predicate Less(a: Entropy, b: Entropy)
  {
    match a
    case Infinite => false
    case Finite(x) => b.Infinite? || x < b.value
  }

  /** `Less` is a strict total order, which is what the heap relies on. */
  lemma LessIsStrictTotalOrder(a: Entropy, b: Entropy, c: Entropy)
    ensures !Less(a, a)
    ensures Less(a, b) && Less(b, c) ==> Less(a, c)
    ensures a != b ==> Less(a, b) || Less(b, a)
  {
  }

  predicate Positive(ws: seq<real>)
  {
    forall i :: 0 <= i < |ws| ==> ws[i] > 0.0
  }

  /** The weights of the tiles with the given ids, in the same order. */
  function WeightsOf(lib: seq<Tile>, ids: seq<int>): (ws: seq<real>)
    requires forall k :: 0 <= k < |ids| ==> 0 <= ids[k] < |lib|
    ensures |ws| == |ids| && forall k :: 0 <= k < |ids| ==> ws[k] == lib[ids[k]].weight
  {
    seq(|ids|, k requires 0 <= k < |ids| => lib[ids[k]].weight)
  }

  /** Running sum, added left to right as `total_weight += ...`. */
  function Sum(ws: seq<real>): real
  {
    if ws == [] then 0.0 else Sum(ws[..|ws| - 1]) + ws[|ws| - 1]
  }

  /** The `MAX` macro: `((x) > (y)) ? (x) : (y)`. */
  function Max(x: real, y: real): real
  {
    if x > y then x else y
  }

  /** Running maximum starting from 0.0, as `max_weight = MAX(max_weight, ...)`. */
  function MaxWeight(ws: seq<real>): real
  {
    if ws == [] then 0.0 else Max(MaxWeight(ws[..|ws| - 1]), ws[|ws| - 1])
  }

  lemma {:induction false} SumBounds(ws: seq<real>)
    requires Positive(ws)
    ensures Sum(ws) >= MaxWeight(ws) >= 0.0
    ensures ws != [] ==> MaxWeight(ws) > 0.0
    ensures Sum(ws) <= (|ws| as real) * MaxWeight(ws)
    ensures forall i :: 0 <= i < |ws| ==> ws[i] <= MaxWeight(ws)
  {
    if ws != [] {
      var p := ws[..|ws| - 1];
      assert Positive(p);
      SumBounds(p);
      assert forall i :: 0 <= i < |p| ==> ws[i] == p[i];
    }
  }

  /** `cell_calc_entropy` on the weights of a cell's options. */
  function EntropyOf(ws: seq<real>): (e: Entropy)
    requires Positive(ws)
    ensures e.Finite?
    ensures ws == [] <==> e == Finite(0.0)
  {
    if ws == [] then Finite(0.0)
    else
      SumBounds(ws);
      Finite(Sum(ws) / MaxWeight(ws))
  }

  /** With positive weights, a cell with options has entropy between 1 and
      its option count. */
  lemma EntropyBounds(ws: seq<real>)
    requires Positive(ws) && ws != []
    ensures 1.0 <= EntropyOf(ws).value <= |ws| as real
  {
    SumBounds(ws);
    var s, m := Sum(ws), MaxWeight(ws);
    assert s / m * m == s;
  }

  lemma {:induction false} SumEqual(ws: seq<real>, w: real)
    requires forall i :: 0 <= i < |ws| ==> ws[i] == w
    ensures Sum(ws) == (|ws| as real) * w
    ensures ws != [] && w > 0.0 ==> MaxWeight(ws) == w
  {
    if ws != [] {
      var p := ws[..|ws| - 1];
      SumEqual(p, w);
    }
  }

  /** With equal weights the entropy is the option count, so it grows with
      the number of options. */
  lemma EntropyOfEqualWeights(ws: seq<real>, w: real)
    requires w > 0.0 && forall i :: 0 <= i < |ws| ==> ws[i] == w
    ensures EntropyOf(ws) == Finite(|ws| as real)
  {
    SumEqual(ws, w);
  }

  /** `cell_calc_entropy`: 0 for no options, otherwise one pass summing the
      options' weights and tracking their maximum. */
  method CalcEntropy(lib: seq<Tile>, options: seq<int>, count: int) returns (e: Entropy)
    requires Library(lib) && 0 <= count <= |options|
    requires forall k :: 0 <= k < |options| ==> 0 <= options[k] < |lib|
    ensures e == EntropyOf(WeightsOf(lib, options[..count]))
  {
    ghost var ws := WeightsOf(lib, options[..count]);
    var total := 0.0;
    var max := 0.0;
    if count == 0 {
      return Finite(0.0);
    }
    var i := 0;
    while i < count
      invariant 0 <= i <= count
      invariant total == Sum(ws[..i]) && max == MaxWeight(ws[..i])
    {
      assert ws[..i + 1][..i] == ws[..i];
      total := total + lib[options[i]].weight;
      max := Max(max, lib[options[i]].weight);
      i := i + 1;
    }
    assert ws[..count] == ws;
    SumBounds(ws);
    e := Finite(total / max);
  }
}

/**
 * `get_euclidean_distance`, modelled as the integer SQUARED distance.
 * SqrtOrderAgrees shows why minimising it picks the same palette entry as
 * minimising its square root.
 */
module Distance {
  import opened Common
  import opened HexColour

  function Square(x: int): (r: nat)
    ensures r == 0 <==> x == 0
  {
    if x < 0 then (-x) * (-x) else x * x
  }

  /** The sum over the three channels of the squared difference. */
  function SquaredDistance(a: Rgb, b: Rgb): (d: nat)
    ensures d == 0 <==> a == b
  {
    Square(a.red - b.red) + Square(a.green - b.green) + Square(a.blue - b.blue)
  }

  lemma SquaredDistanceSymmetric(a: Rgb, b: Rgb)
    ensures SquaredDistance(a, b) == SquaredDistance(b, a)
  {
  }

  lemma SquareBound(x: int)
    requires -255 <= x <= 255
    ensures Square(x) <= 255 * 255
  {
    var y := if x < 0 then -x else x;
    assert y * y <= y * 255 <= 255 * 255;
  }

  /** The sums are small integers: at most 3 * 255 * 255 for in-range triples. */
  lemma SquaredDistanceBound(a: Rgb, b: Rgb)
    requires InRange(a) && InRange(b)
    ensures SquaredDistance(a, b) <= 3 * 255 * 255
  {
    SquareBound(a.red - b.red);
    SquareBound(a.green - b.green);
    SquareBound(a.blue - b.blue);
  }

  /**
   * `get_euclidean_distance(colour, another_colour)` with the square root left
   * out; None where `evaluate` raises on either argument.
   */
  function EuclideanDistance(colour: string, another: string): (d: Option<nat>)
    ensures d.Some? <==> Evaluable(colour) && Evaluable(another)
    ensures d.Some? ==> (d.value == 0 <==> Evaluate(colour) == Evaluate(another))
    ensures d.Some? ==> d.value <= 3 * 255 * 255
  {
    if Evaluable(colour) && Evaluable(another) then
      var a, b := Evaluate(colour).value, Evaluate(another).value;
      SquaredDistanceBound(a, b);
      Some(SquaredDistance(a, b))
    else None
  }

  lemma MultiplyStrict(x: real, y: real)
    requires 0.0 <= x < y
    ensures x * x < y * y
  {
    calc {
      x * x;
    <= { assert x * (y - x) >= 0.0; }
      x * y;
    < { assert (y - x) * y > 0.0; }
      y * y;
    }
  }

  /** Non-negative square roots compare exactly as the squares they are roots of. */
  lemma SqrtOrderAgrees(d1: nat, d2: nat, r1: real, r2: real)
    requires 0.0 <= r1 && 0.0 <= r2
    requires r1 * r1 == d1 as real && r2 * r2 == d2 as real
    ensures r1 < r2 <==> d1 < d2
    ensures r1 == r2 <==> d1 == d2
  {
    if r1 < r2 {
      MultiplyStrict(r1, r2);
    } else if r2 < r1 {
      MultiplyStrict(r2, r1);
    }
  }
}

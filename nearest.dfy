/** `find_nearest_colour`: Python's `min` over the palette, keyed by distance. */
module Nearest {
  import opened Common
  import opened HexColour
  import opened Distance

  /** k is the first position holding the least key. */
  predicate IsFirstMinimum(keys: seq<nat>, k: int) {
    && 0 <= k < |keys|
    && (forall j | 0 <= j < |keys| :: keys[k] <= keys[j])
    && (forall j | 0 <= j < k :: keys[k] < keys[j])
  }

  /**
   * `min` with a key: a left-to-right scan that replaces the best so far only
   * by a strictly smaller key.
   */
  function ArgMin(keys: seq<nat>): (k: nat)
    requires |keys| > 0
    ensures IsFirstMinimum(keys, k)
  {
    if |keys| == 1 then 0
    else
      var k := ArgMin(keys[..|keys| - 1]);
      if keys[|keys| - 1] < keys[k] then |keys| - 1 else k
  }

  /** At most one position is the first minimum. */
  lemma FirstMinimumUnique(keys: seq<nat>, k1: int, k2: int)
    requires IsFirstMinimum(keys, k1) && IsFirstMinimum(keys, k2)
    ensures k1 == k2
  {
    assert keys[k1] <= keys[k2] && keys[k2] <= keys[k1];
  }

  /** k is the first position holding the least real key. */
  predicate IsFirstMinimumReal(keys: seq<real>, k: int) {
    && 0 <= k < |keys|
    && (forall j | 0 <= j < |keys| :: keys[k] <= keys[j])
    && (forall j | 0 <= j < k :: keys[k] < keys[j])
  }

  /**
   * Keying `min` by the square roots of the squared distances (what the
   * source does with `math.sqrt`) selects the same position.
   */
  lemma {:induction false} SqrtArgMinAgrees(squares: seq<nat>, roots: seq<real>, k: int)
    requires |roots| == |squares|
    requires forall i | 0 <= i < |roots| :: 0.0 <= roots[i] && roots[i] * roots[i] == squares[i] as real
    ensures IsFirstMinimum(squares, k) <==> IsFirstMinimumReal(roots, k)
  {
    if 0 <= k < |roots| {
      forall j | 0 <= j < |roots|
        ensures (roots[k] < roots[j] <==> squares[k] < squares[j])
        ensures (roots[k] <= roots[j] <==> squares[k] <= squares[j])
      {
        SqrtOrderAgrees(squares[k], squares[j], roots[k], roots[j]);
      }
    }
  }

  predicate AllEvaluable(palette: seq<string>) {
    forall i | 0 <= i < |palette| :: Evaluable(palette[i])
  }

  /** The key `min` computes for each palette entry, in palette order. */
  function Distances(palette: seq<string>, colour: string): (ds: seq<nat>)
    requires AllEvaluable(palette) && Evaluable(colour)
  {
    seq(|palette|, i requires 0 <= i < |palette| => EuclideanDistance(palette[i], colour).value)
  }

  /**
   * `find_nearest_colour(palette, colour)`: the earliest palette entry at the
   * least distance from `colour`.
   */
  function FindNearestColour(palette: seq<string>, colour: string): (r: Result<string, Error>)
    ensures |palette| == 0 ==> r == Err(EmptyPalette)
    ensures r.Ok? <==> |palette| > 0 && Evaluable(colour) && AllEvaluable(palette)
    ensures r.Err? && |palette| > 0 ==> r.error == InvalidLiteral
    ensures r.Ok? ==> exists k :: 0 <= k < |palette| && palette[k] == r.value
                                  && IsFirstMinimum(Distances(palette, colour), k)
  {
    if |palette| == 0 then Err(EmptyPalette)
    else if !Evaluable(colour) || !AllEvaluable(palette) then Err(InvalidLiteral)
    else Ok(palette[ArgMin(Distances(palette, colour))])
  }

  /** Conversely, whatever entry stands at the first minimum is the result. */
  lemma NearestAtFirstMinimum(palette: seq<string>, colour: string, k: int)
    requires AllEvaluable(palette) && Evaluable(colour)
    requires IsFirstMinimum(Distances(palette, colour), k)
    ensures FindNearestColour(palette, colour) == Ok(palette[k])
  {
    FirstMinimumUnique(Distances(palette, colour), k, ArgMin(Distances(palette, colour)));
  }

  /** The result is a palette entry no farther from `colour` than any other entry. */
  lemma NearestIsClosest(palette: seq<string>, colour: string)
    requires FindNearestColour(palette, colour).Ok?
    ensures FindNearestColour(palette, colour).value in palette
    ensures forall p | p in palette ::
      EuclideanDistance(FindNearestColour(palette, colour).value, colour).value
        <= EuclideanDistance(p, colour).value
  {
    var ds := Distances(palette, colour);
    var k := ArgMin(ds);
    forall p | p in palette
      ensures EuclideanDistance(palette[k], colour).value <= EuclideanDistance(p, colour).value
    {
      var j :| 0 <= j < |palette| && palette[j] == p;
      assert ds[k] <= ds[j];
    }
  }

  /** Upper- and lower-case spellings of a literal have the same nearest entry. */
  lemma {:induction false} NearestCaseInsensitive(palette: seq<string>, colour: string)
    ensures FindNearestColour(palette, Lower(colour)) == FindNearestColour(palette, colour)
  {
    EvaluateCaseInsensitive(colour);
    if |palette| > 0 && Evaluable(colour) && AllEvaluable(palette) {
      assert Distances(palette, Lower(colour)) == Distances(palette, colour);
    }
  }

  lemma NearestSameIgnoringCase(palette: seq<string>, a: string, b: string)
    requires Lower(a) == Lower(b)
    ensures FindNearestColour(palette, a) == FindNearestColour(palette, b)
  {
    NearestCaseInsensitive(palette, a);
    NearestCaseInsensitive(palette, b);
  }

  /**
   * Looking up an entry that a lookup returned gives that entry again: no
   * earlier entry with the same triple can exist, since it would have tied
   * and won.
   */
  lemma {:induction false} NearestIsFixedPoint(palette: seq<string>, colour: string)
    requires FindNearestColour(palette, colour).Ok?
    ensures FindNearestColour(palette, FindNearestColour(palette, colour).value)
            == FindNearestColour(palette, colour)
  {
    var ds := Distances(palette, colour);
    var m := ArgMin(ds);
    var p := palette[m];
    var es := Distances(palette, p);
    var m' := ArgMin(es);
    assert es[m] == 0;
    assert es[m'] == 0;
    assert Evaluate(palette[m']) == Evaluate(p);
    assert ds[m'] == ds[m];
    assert m' == m;
  }
}

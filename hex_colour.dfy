/**
 * `evaluate`: reading the three hexadecimal pairs of a `#rrggbb` literal,
 * and the recognition rule `#[0-9a-f]{6}` (case-insensitive) of the scan.
 */
module HexColour {
  import opened Common

  /** The integer triple `evaluate` produces. */
  datatype Rgb = Rgb(red: int, green: int, blue: int)

  predicate InRange(c: Rgb) {
    0 <= c.red < 256 && 0 <= c.green < 256 && 0 <= c.blue < 256
  }

  /** A digit that `int(..., 16)` accepts, in either case. */
  predicate IsHexDigit(ch: char) {
    '0' <= ch <= '9' || 'a' <= ch <= 'f' || 'A' <= ch <= 'F'
  }

  function DigitValue(ch: char): (v: nat)
    requires IsHexDigit(ch)
    ensures v < 16
  {
    if '0' <= ch <= '9' then ch as int - '0' as int
    else if 'a' <= ch <= 'f' then ch as int - 'a' as int + 10
    else ch as int - 'A' as int + 10
  }

  /** The lower-case digit of a value below 16: the inverse of DigitValue. */
  function Digit(v: nat): (ch: char)
    requires v < 16
    ensures IsHexDigit(ch) && DigitValue(ch) == v
    ensures !('A' <= ch <= 'Z')
  {
    if v < 10 then ('0' as int + v) as char else ('a' as int + v - 10) as char
  }

  function ToLower(ch: char): char {
    if 'A' <= ch <= 'Z' then (ch as int - 'A' as int + 'a' as int) as char else ch
  }

  function Lower(s: string): (r: string)
    ensures |r| == |s|
  {
    seq(|s|, i requires 0 <= i < |s| => ToLower(s[i]))
  }

  /** One pair of hex digits, as `int(colour[i:i + 2], 16)` reads it. */
  function PairValue(hi: char, lo: char): (v: nat)
    requires IsHexDigit(hi) && IsHexDigit(lo)
    ensures v < 256
  {
    16 * DigitValue(hi) + DigitValue(lo)
  }

  /** The strings on which every slice `colour[1:3]`, `colour[3:5]`, `colour[5:7]` is a hex pair. */
  predicate Evaluable(colour: string) {
    |colour| >= 7 && forall i | 1 <= i < 7 :: IsHexDigit(colour[i])
  }

  /** A match of `#[0-9a-f]{6}` under re.IGNORECASE. */
  predicate IsLiteral(s: string) {
    |s| == 7 && s[0] == '#' && Evaluable(s)
  }

  /**
   * `evaluate(colour)`: the three hex pairs after the first character.
   * None stands for the ValueError that `int` raises on a non-hex pair.
   */
  function Evaluate(colour: string): (r: Option<Rgb>)
    ensures r.Some? <==> Evaluable(colour)
    ensures r.Some? ==> InRange(r.value)
  {
    if Evaluable(colour) then
      Some(Rgb(PairValue(colour[1], colour[2]),
               PairValue(colour[3], colour[4]),
               PairValue(colour[5], colour[6])))
    else None
  }

  /** The lower-case literal of a triple: the reference inverse of Evaluate. */
  function Render(c: Rgb): (s: string)
    requires InRange(c)
    ensures IsLiteral(s)
  {
    ['#', Digit(c.red / 16), Digit(c.red % 16),
     Digit(c.green / 16), Digit(c.green % 16),
     Digit(c.blue / 16), Digit(c.blue % 16)]
  }

  lemma DigitLower(ch: char)
    requires IsHexDigit(ch)
    ensures IsHexDigit(ToLower(ch)) && DigitValue(ToLower(ch)) == DigitValue(ch)
    ensures Digit(DigitValue(ch)) == ToLower(ch)
  {
  }

  lemma PairDigits(hi: char, lo: char)
    requires IsHexDigit(hi) && IsHexDigit(lo)
    ensures Digit(PairValue(hi, lo) / 16) == ToLower(hi)
    ensures Digit(PairValue(hi, lo) % 16) == ToLower(lo)
  {
    DigitLower(hi);
    DigitLower(lo);
  }

  /** Every in-range triple is what Evaluate reads back from its rendering. */
  lemma EvaluateRender(c: Rgb)
    requires InRange(c)
    ensures Evaluate(Render(c)) == Some(c)
  {
  }

  /** Rendering what Evaluate read gives the literal back, up to case. */
  lemma {:induction false} RenderEvaluate(s: string)
    requires IsLiteral(s)
    ensures Render(Evaluate(s).value) == Lower(s)
  {
    PairDigits(s[1], s[2]);
    PairDigits(s[3], s[4]);
    PairDigits(s[5], s[6]);
  }

  /** Upper- and lower-case digits give the same triple. */
  lemma {:induction false} EvaluateCaseInsensitive(s: string)
    ensures Evaluate(Lower(s)) == Evaluate(s)
  {
    var t := Lower(s);
    if Evaluable(s) {
      forall i | 1 <= i < 7 ensures IsHexDigit(t[i]) && DigitValue(t[i]) == DigitValue(s[i]) {
        DigitLower(s[i]);
      }
    } else if |s| >= 7 {
      var i :| 1 <= i < 7 && !IsHexDigit(s[i]);
      assert !IsHexDigit(t[i]);
    }
  }

  /** Two literals denote the same triple exactly when they agree up to case. */
  lemma {:induction false} SameColourIffSameIgnoringCase(s: string, t: string)
    requires IsLiteral(s) && IsLiteral(t)
    ensures Evaluate(s) == Evaluate(t) <==> Lower(s) == Lower(t)
  {
    RenderEvaluate(s);
    RenderEvaluate(t);
    if Lower(s) == Lower(t) {
      EvaluateCaseInsensitive(s);
      EvaluateCaseInsensitive(t);
    }
  }
}

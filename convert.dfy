/**
 * `convert`: find the distinct literals of the content, look each one up once,
 * and rewrite the content in one left-to-right pass.
 */
module Convert {
  import opened Common
  import opened HexColour
  import opened Nearest

  /** A literal `#` + six hex digits starts at position i of s. */
  predicate IsWindowAt(s: string, i: int) {
    0 <= i && i + 7 <= |s| && IsLiteral(s[i..i + 7])
  }

  predicate HasLiteral(s: string) {
    exists i | 0 <= i < |s| :: IsWindowAt(s, i)
  }

  lemma WindowChars(s: string, i: int)
    requires IsWindowAt(s, i)
    ensures s[i] == '#'
    ensures forall j | i < j < i + 7 :: IsHexDigit(s[j])
  {
    assert s[i] == s[i..i + 7][0];
    forall j | i < j < i + 7 ensures IsHexDigit(s[j]) {
      assert s[j] == s[i..i + 7][j - i];
    }
  }

  /** Since `#` is not a hex digit, two windows never overlap. */
  lemma NoOverlap(s: string, v: int, w: int)
    requires IsWindowAt(s, v) && IsWindowAt(s, w) && v < w
    ensures v + 7 <= w
  {
    WindowChars(s, v);
    WindowChars(s, w);
  }

  /** Windows of a suffix are the windows of the whole, shifted. */
  lemma WindowShift(s: string, d: nat, w: int)
    requires d <= |s| && 0 <= w
    ensures IsWindowAt(s[d..], w) <==> IsWindowAt(s, w + d)
    ensures 0 <= w && w + d + 7 <= |s| ==> s[d..][w..w + 7] == s[w + d..w + d + 7]
  {
    if 0 <= w && w + d + 7 <= |s| {
      assert s[d..][w..w + 7] == s[w + d..w + d + 7];
    }
  }

  /**
   * `re.findall(r'#[0-9a-f]{6}', content, re.IGNORECASE)`: try a match at the
   * current position; after a match resume past it, otherwise one further on.
   */
  function FindAll(s: string): (ms: seq<string>)
    ensures forall m | m in ms :: IsLiteral(m)
    decreases |s|
  {
    if |s| < 7 then []
    else if IsLiteral(s[..7]) then [s[..7]] + FindAll(s[7..])
    else FindAll(s[1..])
  }

  /** findall returns exactly the texts of the windows: no window is skipped. */
  lemma {:induction false} FindAllIsEveryWindow(s: string, m: string)
    ensures m in FindAll(s) <==> exists i :: IsWindowAt(s, i) && s[i..i + 7] == m
    decreases |s|
  {
    if |s| < 7 {
    } else if IsLiteral(s[..7]) {
      var t := s[7..];
      FindAllIsEveryWindow(t, m);
      if m in FindAll(s) {
        if m == s[..7] {
          assert IsWindowAt(s, 0) && s[0..7] == m;
        } else {
          var i :| IsWindowAt(t, i) && t[i..i + 7] == m;
          WindowShift(s, 7, i);
        }
      }
      if i :| IsWindowAt(s, i) && s[i..i + 7] == m {
        if i == 0 {
          assert s[..7] == s[0..7];
        } else {
          NoOverlap(s, 0, i);
          WindowShift(s, 7, i - 7);
        }
      }
    } else {
      var t := s[1..];
      FindAllIsEveryWindow(t, m);
      if m in FindAll(s) {
        var i :| IsWindowAt(t, i) && t[i..i + 7] == m;
        WindowShift(s, 1, i);
      }
      if i :| IsWindowAt(s, i) && s[i..i + 7] == m {
        assert s[..7] == s[0..7];
        WindowShift(s, 1, i - 1);
      }
    }
  }

  /** `set(findall(...))`: the distinct literals of the content. */
  function Literals(content: string): (ls: set<string>)
    ensures forall l | l in ls :: IsLiteral(l)
  {
    set m | m in FindAll(content)
  }

  lemma LiteralsAreWindows(content: string)
    ensures forall l | l in Literals(content) :: exists i :: IsWindowAt(content, i) && content[i..i + 7] == l
    ensures forall i | IsWindowAt(content, i) :: content[i..i + 7] in Literals(content)
    ensures Literals(content) == {} <==> !HasLiteral(content)
  {
    forall l | l in Literals(content)
      ensures exists i :: IsWindowAt(content, i) && content[i..i + 7] == l
    {
      FindAllIsEveryWindow(content, l);
    }
    forall i | IsWindowAt(content, i) ensures content[i..i + 7] in Literals(content) {
      FindAllIsEveryWindow(content, content[i..i + 7]);
    }
  }

  predicate KeysAreLiterals(table: map<string, string>) {
    forall k | k in table :: IsLiteral(k)
  }

  /**
   * The dictionary comprehension: one lookup per distinct literal. Any palette
   * line that `evaluate` rejects raises, unless there is nothing to look up.
   */
  function BuildTable(palette: seq<string>, literals: set<string>): (r: Result<map<string, string>, Error>)
    requires |palette| > 0
    requires forall l | l in literals :: IsLiteral(l)
    ensures r.Ok? <==> literals == {} || AllEvaluable(palette)
    ensures r.Err? ==> r.error == InvalidLiteral
    ensures r.Ok? ==> r.value.Keys == literals
    ensures r.Ok? ==> forall l | l in literals :: FindNearestColour(palette, l) == Ok(r.value[l])
    ensures r.Ok? ==> forall l | l in literals :: r.value[l] in palette
  {
    if literals == {} then Ok(map[])
    else if !AllEvaluable(palette) then Err(InvalidLiteral)
    else
      assert forall l | l in literals :: IsLiteral(l) && Evaluable(l);
      assert forall l | l in literals :: FindNearestColour(palette, l).Ok?;
      var table := map l | l in literals :: FindNearestColour(palette, l).value;
      assert forall l | l in literals :: table[l] in palette by {
        forall l | l in literals ensures table[l] in palette {
          NearestIsClosest(palette, l);
        }
      }
      Ok(table)
  }

  /**
   * `pattern.sub(...)` with the pattern `'|'.join(keys)`: the keys are
   * literals, so at each position at most the one key equal to the next seven
   * characters matches; a match is replaced and skipped, any other character
   * is copied.
   */
  function Rewrite(s: string, table: map<string, string>): string
    requires KeysAreLiterals(table)
    decreases |s|
  {
    if |s| >= 7 && s[..7] in table then table[s[..7]] + Rewrite(s[7..], table)
    else if |s| == 0 then []
    else [s[0]] + Rewrite(s[1..], table)
  }

  /**
   * Compiling `'|'.join(table.keys())` and substituting: an empty table gives
   * the pattern `''`, whose empty match is looked up and raises KeyError.
   */
  function Substitute(table: map<string, string>, content: string): (r: Result<string, Error>)
    requires KeysAreLiterals(table)
    ensures r.Err? <==> table == map[]
    ensures r.Err? ==> r.error == KeyError
  {
    if table == map[] then Err(KeyError) else Ok(Rewrite(content, table))
  }

  /** `convert(content, palette)`; a palette of None is the empty sequence. */
  function ConvertText(content: string, palette: seq<string>): (r: Result<string, Error>)
    ensures |palette| == 0 ==> r == Ok(content)
    ensures r.Err? <==> |palette| > 0 && (!HasLiteral(content) || !AllEvaluable(palette))
    ensures r.Err? ==> r.error == (if HasLiteral(content) then InvalidLiteral else KeyError)
  {
    if |palette| == 0 then Ok(content)
    else
      var literals := Literals(content);
      LiteralsAreWindows(content);
      match BuildTable(palette, literals)
      case Err(e) => Err(e)
      case Ok(table) => Substitute(table, content)
  }

  /**
   * `convert` as evidently intended: a content without any literal comes back
   * unchanged instead of reaching the empty pattern. Elsewhere it is ConvertText.
   */
  function ConvertTextCorrected(content: string, palette: seq<string>): (r: Result<string, Error>)
    ensures !HasLiteral(content) ==> r == Ok(content)
    ensures HasLiteral(content) ==> r == ConvertText(content, palette)
    ensures r.Err? <==> |palette| > 0 && HasLiteral(content) && !AllEvaluable(palette)
    ensures r.Err? ==> r.error == InvalidLiteral
  {
    if |palette| > 0 && !HasLiteral(content) then Ok(content) else ConvertText(content, palette)
  }
}

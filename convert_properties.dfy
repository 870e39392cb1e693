/**
 * What `convert` promises about its output: only the `#rrggbb` windows change,
 * each into the verbatim text of its nearest palette line; the literals of
 * the output all come from the palette; and converting twice changes nothing.
 */
module ConvertProperties {
  import opened Common
  import opened HexColour
  import opened Nearest
  import opened Convert

  /** Position i lies inside the window that starts at w. */
  predicate Covers(s: string, w: int, i: int) {
    IsWindowAt(s, w) && w <= i < w + 7
  }

  ghost predicate Covered(s: string, i: int) {
    exists w :: Covers(s, w, i)
  }

  /** Every window of s has an entry in the table, as `set(findall(...))` guarantees. */
  ghost predicate TableCoversWindows(s: string, table: map<string, string>) {
    forall w | IsWindowAt(s, w) :: s[w..w + 7] in table
  }

  predicate ValuesAreLiterals(table: map<string, string>) {
    forall k | k in table :: IsLiteral(table[k])
  }

  /** A palette whose every line is exactly one `#rrggbb` literal. */
  predicate AllLiterals(palette: seq<string>) {
    forall i | 0 <= i < |palette| :: IsLiteral(palette[i])
  }

  /**
   * The substitution, position by position: inside a window the output holds
   * the window's replacement, everywhere else the original character.
   */
  lemma {:induction false} RewritePositional(s: string, table: map<string, string>)
    requires KeysAreLiterals(table) && TableCoversWindows(s, table)
    requires forall k | k in table :: |table[k]| == 7
    ensures |Rewrite(s, table)| == |s|
    ensures forall w, i | Covers(s, w, i) :: Rewrite(s, table)[i] == table[s[w..w + 7]][i - w]
    ensures forall i | 0 <= i < |s| && !Covered(s, i) :: Rewrite(s, table)[i] == s[i]
    decreases |s|
  {
    if |s| >= 7 && s[..7] in table {
      var t := s[7..];
      forall w | IsWindowAt(t, w) ensures t[w..w + 7] in table {
        WindowShift(s, 7, w);
      }
      RewritePositional(t, table);
      PositionalAfterLiteral(s, table);
    } else if |s| > 0 {
      var t := s[1..];
      forall w | IsWindowAt(t, w) ensures t[w..w + 7] in table {
        WindowShift(s, 1, w);
      }
      RewritePositional(t, table);
      PositionalAfterCopy(s, table);
    }
  }

  /** The conclusion of RewritePositional, for one string. */
  ghost predicate InPlace(s: string, table: map<string, string>)
    requires KeysAreLiterals(table) && TableCoversWindows(s, table)
    requires forall k | k in table :: |table[k]| == 7
  {
    |Rewrite(s, table)| == |s|
    && (forall w, i | Covers(s, w, i) :: Rewrite(s, table)[i] == table[s[w..w + 7]][i - w])
    && (forall i | 0 <= i < |s| && !Covered(s, i) :: Rewrite(s, table)[i] == s[i])
  }

  /** The step of RewritePositional where a literal of the table is replaced. */
  lemma PositionalAfterLiteral(s: string, table: map<string, string>)
    requires KeysAreLiterals(table) && TableCoversWindows(s, table)
    requires forall k | k in table :: |table[k]| == 7
    requires |s| >= 7 && s[..7] in table
    requires TableCoversWindows(s[7..], table) && InPlace(s[7..], table)
    ensures InPlace(s, table)
  {
    var out, t := Rewrite(s, table), s[7..];
    assert s[0..7] == s[..7];
    forall w, i | Covers(s, w, i) ensures out[i] == table[s[w..w + 7]][i - w] {
      if w != 0 {
        NoOverlap(s, 0, w);
        WindowShift(s, 7, w - 7);
        assert Covers(t, w - 7, i - 7);
      }
    }
    forall i | 0 <= i < 7 ensures Covered(s, i) {
      assert Covers(s, 0, i);
    }
    forall i | 7 <= i < |s| && !Covered(s, i) ensures out[i] == s[i] {
      var i' := i - 7;
      forall v | Covers(t, v, i') ensures Covers(s, v + 7, i) {
        WindowShift(s, 7, v);
      }
      assert !Covered(t, i');
      assert out[i] == Rewrite(t, table)[i'];
    }
  }

  /** The step of RewritePositional where one character is copied. */
  lemma PositionalAfterCopy(s: string, table: map<string, string>)
    requires KeysAreLiterals(table) && TableCoversWindows(s, table)
    requires forall k | k in table :: |table[k]| == 7
    requires |s| > 0 && !(|s| >= 7 && s[..7] in table)
    requires TableCoversWindows(s[1..], table) && InPlace(s[1..], table)
    ensures InPlace(s, table)
  {
    var out, t := Rewrite(s, table), s[1..];
    if |s| >= 7 {
      assert s[0..7] == s[..7];
    }
    forall w, i | Covers(s, w, i) ensures out[i] == table[s[w..w + 7]][i - w] {
      assert w != 0;
      WindowShift(s, 1, w - 1);
      assert Covers(t, w - 1, i - 1);
    }
    forall i | 1 <= i < |s| && !Covered(s, i) ensures out[i] == s[i] {
      var i' := i - 1;
      forall v | Covers(t, v, i') ensures Covers(s, v + 1, i) {
        WindowShift(s, 1, v);
      }
      assert !Covered(t, i');
    }
  }

  /** A window's replacement occupies exactly the window's seven positions. */
  lemma WindowReplaced(s: string, table: map<string, string>, w: int)
    requires KeysAreLiterals(table) && TableCoversWindows(s, table)
    requires forall k | k in table :: |table[k]| == 7
    requires IsWindowAt(s, w)
    ensures |Rewrite(s, table)| == |s|
    ensures Rewrite(s, table)[w..w + 7] == table[s[w..w + 7]]
  {
    RewritePositional(s, table);
    var out := Rewrite(s, table);
    var v := table[s[w..w + 7]];
    forall j | 0 <= j < 7 ensures v[j] == out[w..w + 7][j] {
      assert Covers(s, w, w + j);
    }
  }

  /** A `#` that starts no window is followed, within six characters, by a non-digit. */
  lemma NonDigitAfterHash(s: string, p: int) returns (q: int)
    requires 0 <= p && p + 7 <= |s| && s[p] == '#' && !IsWindowAt(s, p)
    ensures p < q < p + 7 && !IsHexDigit(s[q])
  {
    var j :| 1 <= j < 7 && !IsHexDigit(s[p..p + 7][j]);
    q := p + j;
  }

  /**
   * The non-digit at q, outside the window-free position p, is still a
   * non-digit in the output at q or earlier: either copied, or the `#` of a
   * replacement that starts after p.
   */
  lemma NonDigitSurvives(s: string, table: map<string, string>, p: int, q: int) returns (r: int)
    requires KeysAreLiterals(table) && TableCoversWindows(s, table) && ValuesAreLiterals(table)
    requires 0 <= p < q < |s| && !Covered(s, p) && !IsHexDigit(s[q])
    ensures |Rewrite(s, table)| == |s|
    ensures p < r <= q && !IsHexDigit(Rewrite(s, table)[r])
  {
    RewritePositional(s, table);
    if w :| Covers(s, w, q) {
      assert !Covers(s, w, p);
      r := w;
      assert Rewrite(s, table)[w] == table[s[w..w + 7]][0];
    } else {
      r := q;
    }
  }

  /** A `#` the rewrite copied from outside every window never starts a literal of the output. */
  lemma UncoveredStartsNoWindow(s: string, table: map<string, string>, p: int)
    requires KeysAreLiterals(table) && TableCoversWindows(s, table) && ValuesAreLiterals(table)
    requires 0 <= p < |s| && !Covered(s, p)
    ensures !IsWindowAt(Rewrite(s, table), p)
  {
    RewritePositional(s, table);
    var out := Rewrite(s, table);
    if s[p] == '#' && p + 7 <= |s| {
      assert !Covers(s, p, p);
      var q := NonDigitAfterHash(s, p);
      var r := NonDigitSurvives(s, table, p, q);
      assert out[p..p + 7][r - p] == out[r];
    } else {
      assert p + 7 <= |out| ==> out[p..p + 7][0] == out[p];
    }
  }

  /** Every literal of the rewritten text is one of the table's replacements. */
  lemma RewriteWindowsAreValues(s: string, table: map<string, string>)
    requires KeysAreLiterals(table) && TableCoversWindows(s, table) && ValuesAreLiterals(table)
    ensures forall p | IsWindowAt(Rewrite(s, table), p) :: Rewrite(s, table)[p..p + 7] in table.Values
  {
    RewritePositional(s, table);
    var out := Rewrite(s, table);
    forall p | 0 <= p < |s| && !Covered(s, p) ensures !IsWindowAt(out, p) {
      UncoveredStartsNoWindow(s, table, p);
    }
    forall p | IsWindowAt(out, p) ensures out[p..p + 7] in table.Values {
      assert Covered(s, p);
      var w :| Covers(s, w, p);
      var v := table[s[w..w + 7]];
      WindowChars(out, p);
      assert out[p] == v[p - w];
      assert p == w;
      WindowReplaced(s, table, w);
    }
  }

  /** A table that maps every key to itself leaves the text as it is. */
  lemma {:induction false} RewriteIdentity(s: string, table: map<string, string>)
    requires KeysAreLiterals(table)
    requires forall k | k in table :: table[k] == k
    ensures Rewrite(s, table) == s
    decreases |s|
  {
    if |s| >= 7 && s[..7] in table {
      RewriteIdentity(s[7..], table);
      assert s == s[..7] + s[7..];
    } else if |s| > 0 {
      RewriteIdentity(s[1..], table);
      assert s == [s[0]] + s[1..];
    }
  }

  /** Text without a `#` holds no literal: the scan passes over it. */
  lemma {:induction false} FindAllSkipsPlain(a: string, t: string)
    requires '#' !in a
    ensures FindAll(a + t) == FindAll(t)
    decreases |a|
  {
    if a != [] {
      var s := a + t;
      assert a[0] in a;
      assert |s| >= 7 ==> s[..7][0] == a[0];
      assert s[1..] == a[1..] + t;
      assert !(|s| >= 7 && IsLiteral(s[..7]));
      assert |s| < 7 ==> FindAll(s) == [] && FindAll(t) == [];
      assert |s| >= 7 ==> FindAll(s) == FindAll(s[1..]);
      FindAllSkipsPlain(a[1..], t);
    } else {
      assert a + t == t;
    }
  }

  lemma FindAllTakesLiteral(l: string, t: string)
    requires IsLiteral(l)
    ensures FindAll(l + t) == [l] + FindAll(t)
  {
    assert (l + t)[..7] == l;
    assert (l + t)[7..] == t;
  }

  /** Text without a `#` is copied through unchanged. */
  lemma {:induction false} RewriteCopiesPlain(a: string, t: string, table: map<string, string>)
    requires KeysAreLiterals(table) && '#' !in a
    ensures Rewrite(a + t, table) == a + Rewrite(t, table)
    decreases |a|
  {
    if a != [] {
      var s := a + t;
      assert a[0] in a && s[0] == a[0];
      assert |s| >= 7 ==> s[..7][0] == a[0];
      assert s[1..] == a[1..] + t;
      assert !(|s| >= 7 && s[..7] in table);
      assert Rewrite(s, table) == [a[0]] + Rewrite(a[1..] + t, table);
      RewriteCopiesPlain(a[1..], t, table);
      assert a == [a[0]] + a[1..];
    } else {
      assert a + t == t;
    }
  }

  lemma RewriteReplacesLiteral(l: string, t: string, table: map<string, string>)
    requires KeysAreLiterals(table) && l in table
    ensures Rewrite(l + t, table) == table[l] + Rewrite(t, table)
  {
    assert (l + t)[..7] == l;
    assert (l + t)[7..] == t;
  }

  /** The table `convert` builds, and the facts about it the lemmas below share. */
  lemma ConvertTable(content: string, palette: seq<string>) returns (table: map<string, string>)
    requires AllLiterals(palette) && |palette| > 0
    requires ConvertText(content, palette).Ok?
    ensures KeysAreLiterals(table) && TableCoversWindows(content, table) && ValuesAreLiterals(table)
    ensures table.Keys == Literals(content) && table != map[]
    ensures forall k | k in table :: FindNearestColour(palette, k) == Ok(table[k])
    ensures ConvertText(content, palette) == Ok(Rewrite(content, table))
  {
    LiteralsAreWindows(content);
    table := BuildTable(palette, Literals(content)).value;
    forall k | k in table ensures IsLiteral(table[k]) {
      var i :| 0 <= i < |palette| && palette[i] == table[k];
    }
  }

  /**
   * With a palette of literal lines, `convert` keeps every character outside
   * the windows and replaces each window by its nearest palette line, verbatim.
   */
  lemma ConvertChangesOnlyWindows(content: string, palette: seq<string>)
    requires AllLiterals(palette) && |palette| > 0
    requires ConvertText(content, palette).Ok?
    ensures |ConvertText(content, palette).value| == |content|
    ensures forall i | 0 <= i < |content| && !Covered(content, i) ::
      ConvertText(content, palette).value[i] == content[i]
    ensures forall w | IsWindowAt(content, w) ::
      ConvertText(content, palette).value[w..w + 7] == FindNearestColour(palette, content[w..w + 7]).value
  {
    var table := ConvertTable(content, palette);
    RewritePositional(content, table);
    forall w | IsWindowAt(content, w)
      ensures Rewrite(content, table)[w..w + 7] == FindNearestColour(palette, content[w..w + 7]).value
    {
      WindowReplaced(content, table, w);
    }
  }

  /** Windows that spell the same colour up to case get the same replacement. */
  lemma ConvertIgnoresCase(content: string, palette: seq<string>, v: int, w: int)
    requires AllLiterals(palette) && |palette| > 0
    requires ConvertText(content, palette).Ok?
    requires IsWindowAt(content, v) && IsWindowAt(content, w)
    requires Lower(content[v..v + 7]) == Lower(content[w..w + 7])
    ensures |ConvertText(content, palette).value| == |content|
    ensures ConvertText(content, palette).value[v..v + 7] == ConvertText(content, palette).value[w..w + 7]
  {
    var a, b := content[v..v + 7], content[w..w + 7];
    ConvertChangesOnlyWindows(content, palette);
    NearestSameIgnoringCase(palette, a, b);
  }

  /** Every literal in the output of `convert` is a line of the palette. */
  lemma ConvertOutputUsesPalette(content: string, palette: seq<string>)
    requires AllLiterals(palette) && |palette| > 0
    requires ConvertText(content, palette).Ok?
    ensures forall p | IsWindowAt(ConvertText(content, palette).value, p) ::
      ConvertText(content, palette).value[p..p + 7] in palette
  {
    var table := ConvertTable(content, palette);
    RewriteWindowsAreValues(content, table);
    forall p | IsWindowAt(Rewrite(content, table), p) ensures Rewrite(content, table)[p..p + 7] in palette {
      var k :| k in table && table[k] == Rewrite(content, table)[p..p + 7];
      NearestIsClosest(palette, k);
    }
  }

  /** Converting an already converted text with the same palette changes nothing. */
  lemma ConvertIdempotent(content: string, palette: seq<string>)
    requires AllLiterals(palette)
    requires ConvertText(content, palette).Ok?
    ensures ConvertText(ConvertText(content, palette).value, palette) == ConvertText(content, palette)
  {
    if |palette| > 0 {
      var table := ConvertTable(content, palette);
      var out := Rewrite(content, table);
      RewriteWindowsAreValues(content, table);
      var w :| 0 <= w < |content| && IsWindowAt(content, w);
      WindowReplaced(content, table, w);
      assert IsWindowAt(out, w);
      LiteralsAreWindows(out);
      var table' := BuildTable(palette, Literals(out)).value;
      forall l | l in table' ensures table'[l] == l {
        var p :| IsWindowAt(out, p) && out[p..p + 7] == l;
        var k :| k in table && table[k] == l;
        NearestIsFixedPoint(palette, k);
      }
      RewriteIdentity(out, table');
    }
  }

  /** The corrected `convert` is idempotent too, on every content it accepts. */
  lemma ConvertCorrectedIdempotent(content: string, palette: seq<string>)
    requires AllLiterals(palette)
    requires ConvertTextCorrected(content, palette).Ok?
    ensures ConvertTextCorrected(ConvertTextCorrected(content, palette).value, palette)
            == ConvertTextCorrected(content, palette)
  {
    if HasLiteral(content) {
      ConvertIdempotent(content, palette);
    }
  }
}

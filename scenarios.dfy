/** The worked examples of the unit tests, restated for the palette-as-lines interface. */
module Scenarios {
  import opened Common
  import opened HexColour
  import opened Distance
  import opened Nearest
  import opened Convert
  import opened ConvertProperties

  lemma EvaluateBlack()
    ensures Evaluate("#000000") == Some(Rgb(0, 0, 0))
  {
  }

  lemma EvaluateExample()
    ensures Evaluate("#ABCDEF") == Some(Rgb(171, 205, 239))
    ensures Evaluate("#abcdef") == Some(Rgb(171, 205, 239))
  {
  }

  /** The squared distances behind the comment `sqrt(49) < sqrt(51) < sqrt(57)`. */
  lemma DistancesFromBlack(palette: seq<string>, black: string)
    requires palette == ["#020306", "#040405", "#010107"] && black == "#000000"
    ensures |palette| == 3
    ensures EuclideanDistance(palette[0], black) == Some(49)
    ensures EuclideanDistance(palette[1], black) == Some(57)
    ensures EuclideanDistance(palette[2], black) == Some(51)
  {
    assert palette[0] == "#020306" && palette[1] == "#040405" && palette[2] == "#010107";
    assert Evaluate(black) == Some(Rgb(0, 0, 0));
    assert Evaluate(palette[0]) == Some(Rgb(2, 3, 6));
    assert Evaluate(palette[1]) == Some(Rgb(4, 4, 5));
    assert Evaluate(palette[2]) == Some(Rgb(1, 1, 7));
  }

  /** A three-line palette whose distances are known picks the entry at their first minimum. */
  lemma NearestOfThree(palette: seq<string>, colour: string, d0: nat, d1: nat, d2: nat, k: nat)
    requires |palette| == 3
    requires EuclideanDistance(palette[0], colour) == Some(d0)
    requires EuclideanDistance(palette[1], colour) == Some(d1)
    requires EuclideanDistance(palette[2], colour) == Some(d2)
    requires IsFirstMinimum([d0, d1, d2], k)
    ensures FindNearestColour(palette, colour) == Ok(palette[k])
  {
    forall i | 0 <= i < |palette| ensures Evaluable(palette[i]) {
      assert i == 0 || i == 1 || i == 2;
    }
    assert Distances(palette, colour) == [d0, d1, d2];
    NearestAtFirstMinimum(palette, colour, k);
  }

  /** A two-line palette whose distances are known picks the entry at their first minimum. */
  lemma NearestOfTwo(palette: seq<string>, colour: string, d0: nat, d1: nat, k: nat)
    requires |palette| == 2
    requires EuclideanDistance(palette[0], colour) == Some(d0)
    requires EuclideanDistance(palette[1], colour) == Some(d1)
    requires IsFirstMinimum([d0, d1], k)
    ensures FindNearestColour(palette, colour) == Ok(palette[k])
  {
    forall i | 0 <= i < |palette| ensures Evaluable(palette[i]) {
      assert i == 0 || i == 1;
    }
    assert Distances(palette, colour) == [d0, d1];
    NearestAtFirstMinimum(palette, colour, k);
  }

  lemma NearestToBlack(palette: seq<string>, black: string)
    requires palette == ["#020306", "#040405", "#010107"] && black == "#000000"
    ensures FindNearestColour(palette, black) == Ok("#020306")
  {
    DistancesFromBlack(palette, black);
    NearestOfThree(palette, black, 49, 57, 51, 0);
  }

  lemma DistancesFromNavy(palette: seq<string>, colour: string)
    requires palette == ["#ff0000", "#00ff00", "#0000ff"] && colour == "#123456"
    ensures |palette| == 3
    ensures EuclideanDistance(palette[0], colour) == Some(66269)
    ensures EuclideanDistance(palette[1], colour) == Some(48929)
    ensures EuclideanDistance(palette[2], colour) == Some(31589)
  {
    assert palette[0] == "#ff0000" && palette[1] == "#00ff00" && palette[2] == "#0000ff";
    assert Evaluate(colour) == Some(Rgb(18, 52, 86));
    assert Evaluate(palette[0]) == Some(Rgb(255, 0, 0));
    assert Evaluate(palette[1]) == Some(Rgb(0, 255, 0));
    assert Evaluate(palette[2]) == Some(Rgb(0, 0, 255));
  }

  lemma NearestPrimary(palette: seq<string>, colour: string)
    requires palette == ["#ff0000", "#00ff00", "#0000ff"] && colour == "#123456"
    ensures FindNearestColour(palette, colour) == Ok("#0000ff")
  {
    DistancesFromNavy(palette, colour);
    NearestOfThree(palette, colour, 66269, 48929, 31589, 2);
  }

  lemma DistancesToGrey(palette: seq<string>, colour: string)
    requires palette == ["#000000", "#010101"] && colour == "#010101"
    ensures |palette| == 2
    ensures EuclideanDistance(palette[0], colour) == Some(3)
    ensures EuclideanDistance(palette[1], colour) == Some(0)
  {
    assert palette[0] == "#000000" && palette[1] == "#010101";
    assert Evaluate(colour) == Some(Rgb(1, 1, 1));
    assert Evaluate(palette[0]) == Some(Rgb(0, 0, 0));
  }

  lemma NearestExactMatch(palette: seq<string>, colour: string)
    requires palette == ["#000000", "#010101"] && colour == "#010101"
    ensures FindNearestColour(palette, colour) == Ok("#010101")
  {
    DistancesToGrey(palette, colour);
    NearestOfTwo(palette, colour, 3, 0, 1);
  }

  lemma DistancesAcrossGrey(palette: seq<string>, colour: string)
    requires palette == ["#010101", "#030303"] && colour == "#020202"
    ensures |palette| == 2
    ensures EuclideanDistance(palette[0], colour) == Some(3)
    ensures EuclideanDistance(palette[1], colour) == Some(3)
  {
    assert palette[0] == "#010101" && palette[1] == "#030303";
    assert Evaluate(colour) == Some(Rgb(2, 2, 2));
    assert Evaluate(palette[0]) == Some(Rgb(1, 1, 1));
    assert Evaluate(palette[1]) == Some(Rgb(3, 3, 3));
  }

  /** Two entries at the same distance: the earlier one wins. */
  lemma NearestTieGoesToEarlier(palette: seq<string>, colour: string)
    requires palette == ["#010101", "#030303"] && colour == "#020202"
    ensures FindNearestColour(palette, colour) == Ok("#010101")
  {
    DistancesAcrossGrey(palette, colour);
    NearestOfTwo(palette, colour, 3, 3, 0);
  }

  lemma NearestOfNothing()
    ensures FindNearestColour([], "#020202") == Err(EmptyPalette)
  {
  }

  lemma ConvertWithoutPalette()
    ensures ConvertText("", []) == Ok("")
    ensures ConvertText("anything", []) == Ok("anything")
  {
  }

  /** The empty pattern: a palette but nothing to replace raises KeyError. */
  lemma ConvertWithoutLiteral()
    ensures ConvertText("anything", ["#ffffff"]) == Err(KeyError)
    ensures ConvertText("", ["#ffffff"]) == Err(KeyError)
    ensures ConvertTextCorrected("anything", ["#ffffff"]) == Ok("anything")
  {
  }

  lemma ConvertBlankPaletteLine()
    ensures ConvertText("#123456", ["#ffffff", ""]) == Err(InvalidLiteral)
  {
    var content, palette := "#123456", ["#ffffff", ""];
    assert content[0..7] == content && IsLiteral(content);
    assert IsWindowAt(content, 0);
    assert !Evaluable(palette[1]);
  }

  /** A content that is one literal, against a one-line palette, becomes that line. */
  lemma ConvertLoneLiteral(s: string, line: string)
    requires IsLiteral(s) && IsLiteral(line)
    ensures ConvertText(s, [line]) == Ok(line)
  {
    assert s[..7] == s;
    assert FindAll(s) == [s] by {
      assert FindAll(s[7..]) == [];
    }
    assert Literals(s) == {s};
    assert FindNearestColour([line], s) == Ok(line);
    assert AllEvaluable([line]);
    var table := BuildTable([line], {s}).value;
    assert table.Keys == {s} && table[s] == line;
    assert s[7..] == [];
    assert Rewrite(s, table) == line + Rewrite([], table) == line;
    assert s in table;
    assert Substitute(table, s) == Ok(line);
  }

  lemma ConvertSingle()
    ensures ConvertText("#f0f0f0", ["#ffffff"]) == Ok("#ffffff")
    ensures ConvertText("#ABCDEF", ["#000000"]) == Ok("#000000")
  {
    var a, b, c, d := "#f0f0f0", "#ffffff", "#ABCDEF", "#000000";
    assert IsLiteral(a) && IsLiteral(b) && IsLiteral(c) && IsLiteral(d);
    ConvertLoneLiteral(a, b);
    ConvertLoneLiteral(c, d);
  }

  const Primaries := ["#ff0000", "#00ff00", "#0000ff"]
  const Before := "<colour>"
  const Between := "</colour>\n<anotherColour>"
  const After := "</anotherColour>"

  /** The document `<colour>first</colour>`, a line break, `<anotherColour>second</anotherColour>`. */
  function Document(first: string, second: string): string {
    Before + (first + (Between + (second + After)))
  }

  lemma PlainPieces()
    ensures '#' !in Before && '#' !in Between && '#' !in After
  {
  }

  lemma DocumentLiterals()
    ensures Literals(Document("#123456", "#654321")) == {"#123456", "#654321"}
  {
    var l1, l2 := "#123456", "#654321";
    assert IsLiteral(l1) && IsLiteral(l2);
    PlainPieces();
    FindAllSkipsPlain(Before, l1 + (Between + (l2 + After)));
    FindAllTakesLiteral(l1, Between + (l2 + After));
    FindAllSkipsPlain(Between, l2 + After);
    FindAllTakesLiteral(l2, After);
    FindAllSkipsPlain(After, []);
    assert After + [] == After;
    assert FindAll(Document(l1, l2)) == [l1, l2];
  }

  lemma DistancesFromBrown(palette: seq<string>, colour: string)
    requires palette == ["#ff0000", "#00ff00", "#0000ff"] && colour == "#654321"
    ensures |palette| == 3
    ensures EuclideanDistance(palette[0], colour) == Some(29294)
    ensures EuclideanDistance(palette[1], colour) == Some(46634)
    ensures EuclideanDistance(palette[2], colour) == Some(63974)
  {
    assert palette[0] == "#ff0000" && palette[1] == "#00ff00" && palette[2] == "#0000ff";
    assert Evaluate(colour) == Some(Rgb(101, 67, 33));
    assert Evaluate(palette[0]) == Some(Rgb(255, 0, 0));
    assert Evaluate(palette[1]) == Some(Rgb(0, 255, 0));
    assert Evaluate(palette[2]) == Some(Rgb(0, 0, 255));
  }

  lemma NearestBrown(palette: seq<string>, colour: string)
    requires palette == ["#ff0000", "#00ff00", "#0000ff"] && colour == "#654321"
    ensures FindNearestColour(palette, colour) == Ok("#ff0000")
  {
    DistancesFromBrown(palette, colour);
    NearestOfThree(palette, colour, 29294, 46634, 63974, 0);
  }

  lemma DocumentRewrite(table: map<string, string>)
    requires KeysAreLiterals(table)
    requires "#123456" in table && "#654321" in table
    ensures Rewrite(Document("#123456", "#654321"), table)
         == Document(table["#123456"], table["#654321"])
  {
    var l1, l2 := "#123456", "#654321";
    PlainPieces();
    RewriteCopiesPlain(Before, l1 + (Between + (l2 + After)), table);
    RewriteReplacesLiteral(l1, Between + (l2 + After), table);
    RewriteCopiesPlain(Between, l2 + After, table);
    RewriteReplacesLiteral(l2, After, table);
    RewriteCopiesPlain(After, [], table);
    assert After + [] == After;
  }

  /**
   * Both literals of a two-line document are rewritten; the markup around
   * them is kept, and the replacements keep the palette's own spelling.
   */
  lemma ConvertDocument()
    ensures ConvertText(Document("#123456", "#654321"), Primaries) == Ok(Document("#0000ff", "#ff0000"))
  {
    var l1, l2 := "#123456", "#654321";
    var content := Document(l1, l2);
    DocumentLiterals();
    NearestPrimary(Primaries, l1);
    NearestBrown(Primaries, l2);
    assert IsLiteral(l1) && IsLiteral(l2);
    var table := BuildTable(Primaries, {l1, l2}).value;
    assert table[l1] == "#0000ff" && table[l2] == "#ff0000";
    DocumentRewrite(table);
    assert Substitute(table, content) == Ok(Document("#0000ff", "#ff0000"));
  }
}

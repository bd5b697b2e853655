/** The text "Share Results" copies to the clipboard: a title line naming
    the mystery player, a result line, a blank line, one row of five
    coloured squares per guess, a blank line and a link back to the game. */
module Share {
  import opened Wrappers
  import opened Text
  import opened Players
  import opened Feedback
  import opened Game
  import opened Session

  /** A green square (U+1F7E9) for a matching attribute, a white one
      (U+2B1C) otherwise. */
  const Hit: char := '\U{1F7E9}'
  const Miss: char := '\U{2B1C}'

  /** The attributes a row reports, left to right. */
  const RowFields: seq<Field> := [Position, Age, Team, AllStar, WorldSeries]

  const TitlePrefix := "MLB Wordle - "
  const GaveUpLine := "I gave up!"
  const Footer := "Play at: https://mlbwordle.me"

  function Glyph(hit: bool): char {
    if hit then Hit else Miss
  }

  /** The row for one guess: square `j` is green exactly when the guess
      matches the mystery player on the `j`-th reported attribute. */
  function GlyphRow(mystery: Option<Player>, guess: Player): (r: string)
    ensures |r| == |RowFields| == 5
    ensures forall j :: 0 <= j < 5 ==> (r[j] == Hit <==> IsMatch(mystery, guess, RowFields[j]))
    ensures forall j :: 0 <= j < 5 ==> r[j] == Hit || r[j] == Miss
    ensures '\n' !in r
  {
    [Glyph(IsMatch(mystery, guess, Position)),
     Glyph(IsMatch(mystery, guess, Age)),
     Glyph(IsMatch(mystery, guess, Team)),
     Glyph(IsMatch(mystery, guess, AllStar)),
     Glyph(IsMatch(mystery, guess, WorldSeries))]
  }

  /** The rows of all guesses, in guess order, each ended by a newline. */
  function Grid(mystery: Option<Player>, guesses: seq<Player>): (r: string)
    ensures |r| == 6 * |guesses|
  {
    if |guesses| == 0 then ""
    else GlyphRow(mystery, guesses[0]) + "\n" + Grid(mystery, guesses[1..])
  }

  /** The rows the grid is made of, one per guess. */
  function Rows(mystery: Option<Player>, guesses: seq<Player>): (r: seq<string>)
    ensures |r| == |guesses|
  {
    seq(|guesses|, k requires 0 <= k < |guesses| => GlyphRow(mystery, guesses[k]))
  }

  /** The second line: the guess count on a win, "I gave up!" on every
      other outcome, running out of guesses included. */
  function ResultLine(s: GameState): (r: string)
    ensures !s.won ==> r == GaveUpLine
    ensures '\n' !in r
  {
    if s.won then "I got it in " + Decimal(|s.guesses|) + "/" + Decimal(s.maxGuesses) + " guesses!"
    else GaveUpLine
  }

  /** The full share text; there is none before a mystery player exists. */
  function ShareText(s: GameState): (r: Option<string>)
    ensures r.None? <==> s.mysteryPlayer.None?
  {
    if s.mysteryPlayer.None? then None
    else
      Some(TitlePrefix + s.mysteryPlayer.value.name + "\n" + ResultLine(s) + "\n\n"
           + Grid(s.mysteryPlayer, s.guesses) + "\n" + Footer)
  }

  /** `shareResults` as the page runs it: the text is grown one guess at a
      time, and the result is the share text. */
  method BuildShareText(s: GameState) returns (text: string)
    requires s.mysteryPlayer.Some?
    ensures ShareText(s) == Some(text)
  {
    text := TitlePrefix + s.mysteryPlayer.value.name + "\n";
    text := text + ResultLine(s);
    text := text + "\n\n";
    ghost var head := text;
    var i := 0;
    while i < |s.guesses|
      invariant 0 <= i <= |s.guesses|
      invariant text == head + Grid(s.mysteryPlayer, s.guesses[..i])
    {
      ghost var grid := Grid(s.mysteryPlayer, s.guesses[..i]);
      var row := GlyphRow(s.mysteryPlayer, s.guesses[i]);
      GridSnoc(s.mysteryPlayer, s.guesses[..i + 1]);
      assert s.guesses[..i + 1][..i] == s.guesses[..i];
      Assoc(head, grid, row);
      Assoc(head, grid + row, "\n");
      text := text + row + "\n";
      i := i + 1;
    }
    assert s.guesses[..i] == s.guesses;
    text := text + "\n" + Footer;
  }

  /** The grid of one more guess is the old grid and one more row. */
  lemma {:induction false} GridSnoc(mystery: Option<Player>, guesses: seq<Player>)
    requires |guesses| > 0
    ensures Grid(mystery, guesses)
      == Grid(mystery, guesses[..|guesses| - 1]) + GlyphRow(mystery, guesses[|guesses| - 1]) + "\n"
    decreases |guesses|
  {
    var n := |guesses|;
    var first := GlyphRow(mystery, guesses[0]) + "\n";
    var last := GlyphRow(mystery, guesses[n - 1]);
    if n > 1 {
      var middle := Grid(mystery, guesses[1..n - 1]);
      calc {
        Grid(mystery, guesses);
        first + Grid(mystery, guesses[1..]);
        { GridSnoc(mystery, guesses[1..]);
          assert guesses[1..][..n - 2] == guesses[1..n - 1]; }
        first + (middle + last + "\n");
        { Assoc(first, middle + last, "\n"); Assoc(first, middle, last); }
        first + middle + last + "\n";
        { assert guesses[..n - 1][1..] == guesses[1..n - 1]; }
        Grid(mystery, guesses[..n - 1]) + last + "\n";
      }
    } else {
      assert guesses[..0] == [] && guesses[1..] == [];
    }
  }

  /** The grid splits into its rows in front of whatever follows it. */
  lemma {:induction false} GridLines(mystery: Option<Player>, guesses: seq<Player>, rest: string)
    ensures SplitLines(Grid(mystery, guesses) + rest) == Rows(mystery, guesses) + SplitLines(rest)
    decreases |guesses|
  {
    if |guesses| > 0 {
      var row := GlyphRow(mystery, guesses[0]);
      var tail := Grid(mystery, guesses[1..]);
      calc {
        SplitLines(Grid(mystery, guesses) + rest);
        { Assoc(row + "\n", tail, rest); }
        SplitLines(row + "\n" + (tail + rest));
        { SplitFirstLine(row, tail + rest); }
        [row] + SplitLines(tail + rest);
        { GridLines(mystery, guesses[1..], rest); }
        [row] + (Rows(mystery, guesses[1..]) + SplitLines(rest));
        { assert [row] + Rows(mystery, guesses[1..]) == Rows(mystery, guesses); }
        Rows(mystery, guesses) + SplitLines(rest);
      }
    } else {
      assert Grid(mystery, guesses) + rest == rest;
      assert Rows(mystery, guesses) == [];
    }
  }

  /** Read line by line, the share text is the title, the result line, a
      blank line, one five-square row per guess, a blank line and the
      footer. */
  lemma ShareLines(s: GameState)
    requires s.mysteryPlayer.Some? && SingleLine(s.mysteryPlayer.value)
    ensures SplitLines(ShareText(s).value)
      == [TitlePrefix + s.mysteryPlayer.value.name, ResultLine(s), ""]
         + Rows(s.mysteryPlayer, s.guesses) + ["", Footer]
  {
    var title := TitlePrefix + s.mysteryPlayer.value.name;
    var result := ResultLine(s);
    var grid := Grid(s.mysteryPlayer, s.guesses);
    var rows := Rows(s.mysteryPlayer, s.guesses);
    var afterGrid := "" + "\n" + Footer;
    var afterResult := "" + "\n" + (grid + afterGrid);
    FixedTextSingleLine();
    assert '\n' !in title;
    calc {
      SplitLines(ShareText(s).value);
      { ShareTextShape(s); }
      SplitLines(title + "\n" + (result + "\n" + afterResult));
      { SplitFirstLine(title, result + "\n" + afterResult); }
      [title] + SplitLines(result + "\n" + afterResult);
      { SplitFirstLine(result, afterResult); }
      [title] + ([result] + SplitLines(afterResult));
      { SplitFirstLine("", grid + afterGrid); }
      [title] + ([result] + ([""] + SplitLines(grid + afterGrid)));
      { GridLines(s.mysteryPlayer, s.guesses, afterGrid); }
      [title] + ([result] + ([""] + (rows + SplitLines(afterGrid))));
      { SplitFirstLine("", Footer); SplitSingleLine(Footer); }
      [title] + ([result] + ([""] + (rows + ([""] + [Footer]))));
      [title, result, ""] + rows + ["", Footer];
    }
  }

  /** The share text regrouped line by line. */
  lemma ShareTextShape(s: GameState)
    requires s.mysteryPlayer.Some?
    ensures var title := TitlePrefix + s.mysteryPlayer.value.name;
      var grid := Grid(s.mysteryPlayer, s.guesses);
      ShareText(s).value
        == title + "\n" + (ResultLine(s) + "\n" + ("" + "\n" + (grid + ("" + "\n" + Footer))))
  {
  }

  lemma FixedTextSingleLine()
    ensures '\n' !in TitlePrefix && '\n' !in Footer
  {
  }

  lemma Assoc(a: string, b: string, c: string)
    ensures a + b + c == a + (b + c)
  {
  }

  /** On a win the result line reports the number of guesses taken and the
      budget, in digits that read back as those numbers. */
  lemma WonLineCounts(s: GameState)
    requires s.won
    ensures var count, budget := Decimal(|s.guesses|), Decimal(s.maxGuesses);
      && ResultLine(s) == "I got it in " + count + "/" + budget + " guesses!"
      && DigitsValue(count) == |s.guesses| && DigitsValue(budget) == s.maxGuesses
  {
    DecimalRoundTrip(|s.guesses|);
    DecimalRoundTrip(s.maxGuesses);
  }

  /** In every state the page can reach, the share text (once a mystery
      player exists) reads line by line as `ShareLines` describes. */
  lemma ReachableShareLines(es: seq<Event>)
    requires Run(Initial, es).mysteryPlayer.Some?
    ensures var s := Run(Initial, es);
      SplitLines(ShareText(s).value)
        == [TitlePrefix + s.mysteryPlayer.value.name, ResultLine(s), ""]
           + Rows(s.mysteryPlayer, s.guesses) + ["", Footer]
  {
    var s := Run(Initial, es);
    ReachableValid(es);
    var k :| 0 <= k < |Catalog| && Catalog[k] == s.mysteryPlayer.value;
    CatalogSingleLine();
    ShareLines(s);
  }

  /** After a win the last row of the grid is all green: the winning guess
      is the mystery player itself. */
  lemma WinningRowAllGreen(s: GameState)
    requires Valid(s) && s.won
    ensures var rows := Rows(s.mysteryPlayer, s.guesses);
      |rows| > 0 && rows[|rows| - 1] == [Hit, Hit, Hit, Hit, Hit]
  {
    var g := Last(s.guesses);
    assert g in Catalog;
    CatalogNameDetermines(g, s.mysteryPlayer.value);
  }

  /** A player who ran out of guesses without giving up is still reported
      as having given up, after the full budget of guesses. */
  lemma OutOfGuessesSharesGaveUp(s: GameState)
    requires Valid(s) && s.gameOver && !s.won && !s.gaveUp
    ensures |s.guesses| == MaxGuesses
    ensures ResultLine(s) == "I gave up!"
  {
  }
}

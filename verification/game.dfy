/** The game session record and the transitions the page applies to it:
    drawing the mystery player, guessing, giving up and starting over. */
module Game {
  import opened Wrappers
  import opened Players

  /** The guess budget every game starts with. */
  const MaxGuesses: nat := 8

  datatype GameState = GameState(
    mysteryPlayer: Option<Player>,
    guesses: seq<Player>,
    gameOver: bool,
    won: bool,
    gaveUp: bool,
    loading: bool,
    maxGuesses: nat)

  /** The state the page renders before the catalog has been drawn from. */
  const Initial := GameState(None, [], false, false, false, true, MaxGuesses)

  /** The page's mount effect: draw the mystery player at index `i` (the
      scaled random number) and leave the loading state. */
  function Mount(s: GameState, i: int): (r: GameState)
    requires 0 <= i < |Catalog|
    ensures r.mysteryPlayer == Some(Catalog[i]) && !r.loading
    ensures r.guesses == s.guesses && r.gameOver == s.gameOver && r.won == s.won
    ensures r.gaveUp == s.gaveUp && r.maxGuesses == s.maxGuesses
  {
    s.(mysteryPlayer := Some(Catalog[i]), loading := false)
  }

  /** `selectPlayer`: a player whose name was already guessed changes
      nothing; any other is appended, wins if it is the mystery player, and
      ends the game on a win or once the budget is used up. */
  function SelectPlayer(s: GameState, p: Player): (r: GameState)
    ensures Guessed(s.guesses, p.name) ==> r == s
    ensures !Guessed(s.guesses, p.name) ==>
      && r.guesses == s.guesses + [p]
      && (r.won <==> s.mysteryPlayer.Some? && p.name == s.mysteryPlayer.value.name)
      && (r.gameOver <==> r.won || |r.guesses| >= s.maxGuesses)
      && r.mysteryPlayer == s.mysteryPlayer && r.gaveUp == s.gaveUp
      && r.loading == s.loading && r.maxGuesses == s.maxGuesses
  {
    if Guessed(s.guesses, p.name) then s
    else
      var isCorrect := s.mysteryPlayer.Some? && p.name == s.mysteryPlayer.value.name;
      var newGuesses := s.guesses + [p];
      s.(guesses := newGuesses,
         gameOver := isCorrect || |newGuesses| >= s.maxGuesses,
         won := isCorrect)
  }

  /** `handleGiveUp`: end the game as a forfeit, keeping everything else. */
  function GiveUp(s: GameState): (r: GameState)
    ensures r.gameOver && r.gaveUp
    ensures r.guesses == s.guesses && r.won == s.won && r.mysteryPlayer == s.mysteryPlayer
    ensures r.loading == s.loading && r.maxGuesses == s.maxGuesses
  {
    s.(gameOver := true, gaveUp := true)
  }

  /** `handleNewGame`: a fresh game whose mystery player is catalog entry
      `i`, whatever state came before. */
  function NewGame(i: int): (r: GameState)
    requires 0 <= i < |Catalog|
    ensures r.mysteryPlayer == Some(Catalog[i]) && r.mysteryPlayer.value in Catalog
    ensures r.guesses == [] && r.maxGuesses == 8
    ensures !r.gameOver && !r.won && !r.gaveUp && !r.loading
  {
    GameState(Some(Catalog[i]), [], false, false, false, false, MaxGuesses)
  }

  /** A wrong new guess that uses up the budget ends the game as a loss,
      not a forfeit. */
  lemma LastMissLoses(s: GameState, p: Player)
    requires s.maxGuesses == MaxGuesses && |s.guesses| == MaxGuesses - 1 && !s.gaveUp
    requires !Guessed(s.guesses, p.name)
    requires s.mysteryPlayer.Some? && p.name != s.mysteryPlayer.value.name
    ensures var r := SelectPlayer(s, p);
      r.gameOver && !r.won && !r.gaveUp && |r.guesses| == 8
  {
  }

  /** Re-submitting a player changes nothing more than submitting it once. */
  lemma SelectIdempotent(s: GameState, p: Player)
    ensures SelectPlayer(SelectPlayer(s, p), p) == SelectPlayer(s, p)
  {
    if !Guessed(s.guesses, p.name) {
      assert (s.guesses + [p])[|s.guesses|] == p;
    }
  }

  /** Giving up twice is giving up once. */
  lemma GiveUpIdempotent(s: GameState)
    ensures GiveUp(GiveUp(s)) == GiveUp(s)
  {
  }
}

/** The page as a whole: the user actions the rendered page offers in each
    state, and the invariant every state reachable from the first render
    keeps. */
module Session {
  import opened Wrappers
  import opened Players
  import opened Search
  import opened Game

  /** A user-visible step. `Pick` is typing `term` into the search box and
      clicking entry `choice` of the dropdown (the "Guess" button is entry
      0); `Load` is the mount effect drawing index `index`; `Forfeit` and
      `Restart` are the "Give up" and "New Game" buttons. */
  datatype Event =
    | Load(index: int)
    | Pick(term: string, choice: int)
    | Forfeit
    | Restart(index: int)

  /** Whether the page offers `e` in state `s`: nothing but the loading
      text before the mount effect, the search box and "Give up" (with at
      least one guess) while the game runs, "New Game" once it is over. */
  predicate Enabled(s: GameState, e: Event)
    ensures Enabled(s, e) && !e.Load? ==> !s.loading
    ensures Enabled(s, e) && !e.Load? ==> (s.gameOver <==> e.Restart?)
  {
    match e
    case Load(i) => s.loading && 0 <= i < |Catalog|
    case Pick(term, k) =>
      !s.loading && !s.gameOver && 0 <= k < |Suggestions(Catalog, term, s.guesses)|
    case Forfeit => !s.loading && !s.gameOver && |s.guesses| > 0
    case Restart(i) => !s.loading && s.gameOver && 0 <= i < |Catalog|
  }

  function Apply(s: GameState, e: Event): (r: GameState)
    requires Enabled(s, e)
    ensures e.Load? ==> !r.loading && r.mysteryPlayer.Some? && r.guesses == s.guesses
    ensures e.Pick? ==> |r.guesses| == |s.guesses| + 1 && r.guesses[..|s.guesses|] == s.guesses
    ensures e.Forfeit? ==> r.gameOver && r.gaveUp && r.guesses == s.guesses
    ensures e.Restart? ==> r.guesses == [] && !r.gameOver && !r.won && !r.gaveUp
  {
    match e
    case Load(i) => Mount(s, i)
    case Pick(term, k) =>
      SuggestionsFresh(Catalog, term, s.guesses, k);
      SelectPlayer(s, Suggestions(Catalog, term, s.guesses)[k])
    case Forfeit => GiveUp(s)
    case Restart(i) => NewGame(i)
  }

  /** The state after a sequence of user actions; an action the page does
      not offer at that moment (a disabled button) has no effect. */
  function Run(s: GameState, es: seq<Event>): GameState
    decreases |es|
  {
    if |es| == 0 then s
    else Run(if Enabled(s, es[0]) then Apply(s, es[0]) else s, es[1..])
  }

  function Last(players: seq<Player>): Player
    requires |players| > 0
  {
    players[|players| - 1]
  }

  /** The session invariant: the mystery player is drawn from the catalog
      exactly when loading is over, the guesses are distinct catalog players
      within the budget, and the flags agree with the guesses. */
  ghost predicate Valid(s: GameState) {
    && s.maxGuesses == MaxGuesses
    && (s.loading <==> s.mysteryPlayer.None?)
    && (s.mysteryPlayer.Some? ==> s.mysteryPlayer.value in Catalog)
    && GuessesValid(s)
    && FlagsValid(s)
  }

  ghost predicate GuessesValid(s: GameState) {
    && |s.guesses| <= s.maxGuesses
    && DistinctNames(s.guesses)
    && (forall k :: 0 <= k < |s.guesses| ==> s.guesses[k] in Catalog)
  }

  /** Only the last guess can name the mystery player, `won` says whether
      it does, and `gameOver` holds exactly on a win, a forfeit or an
      exhausted budget. */
  ghost predicate FlagsValid(s: GameState) {
    && (s.loading ==> s.guesses == [] && !s.gameOver)
    && (s.gameOver <==> s.won || s.gaveUp || |s.guesses| == s.maxGuesses)
    && !(s.won && s.gaveUp)
    && (s.gaveUp ==> |s.guesses| > 0)
    && (s.won <==> |s.guesses| > 0 && s.mysteryPlayer.Some? && Last(s.guesses).name == s.mysteryPlayer.value.name)
    && (s.mysteryPlayer.Some? ==>
          forall k :: 0 <= k < |s.guesses| - 1 ==> s.guesses[k].name != s.mysteryPlayer.value.name)
  }

  lemma InitialValid()
    ensures Valid(Initial)
  {
  }

  /** The loading screen offers nothing but the mount effect. */
  lemma InitialOnlyLoads(e: Event)
    ensures Enabled(Initial, e) <==> e.Load? && 0 <= e.index < |Catalog|
  {
  }

  /** Every action the page offers keeps the invariant. */
  lemma StepValid(s: GameState, e: Event)
    requires Valid(s) && Enabled(s, e)
    ensures Valid(Apply(s, e))
  {
    match e
    case Load(i) => LoadValid(s, i);
    case Pick(term, k) => PickValid(s, term, k);
    case Forfeit =>
    case Restart(i) => RestartValid(i);
  }

  lemma LoadValid(s: GameState, i: int)
    requires Valid(s) && Enabled(s, Load(i))
    ensures Valid(Mount(s, i))
  {
  }

  lemma RestartValid(i: int)
    requires 0 <= i < |Catalog|
    ensures Valid(NewGame(i))
  {
  }

  /** A pick is a fresh catalog player, so it keeps the invariant. */
  lemma PickValid(s: GameState, term: string, k: int)
    requires Valid(s) && Enabled(s, Pick(term, k))
    ensures Valid(Apply(s, Pick(term, k)))
  {
    SuggestionsFresh(Catalog, term, s.guesses, k);
    SelectValid(s, Suggestions(Catalog, term, s.guesses)[k]);
  }

  /** "Give up" and "New Game" leave the search box's term and dropdown as
      they were, so a new game can show a dropdown filtered against the
      previous game's guesses. Clicking one of its entries is still a
      guess the fresh game's own dropdown for that term offers, and it
      keeps the invariant. */
  lemma StalePickValid(i: int, term: string, previous: seq<Player>, k: int)
    requires 0 <= i < |Catalog|
    requires 0 <= k < |Suggestions(Catalog, term, previous)|
    ensures Suggestions(Catalog, term, previous)[k] in Suggestions(Catalog, term, [])
    ensures Valid(SelectPlayer(NewGame(i), Suggestions(Catalog, term, previous)[k]))
  {
    var p := Suggestions(Catalog, term, previous)[k];
    SuggestionsFresh(Catalog, term, previous, k);
    KeepFewerGuesses(Catalog, term, previous);
    SubsequenceMembers(Suggestions(Catalog, term, previous), Suggestions(Catalog, term, []));
    RestartValid(i);
    SelectValid(NewGame(i), p);
  }

  /** Guessing a fresh catalog player while the game runs keeps the
      invariant. */
  lemma SelectValid(s: GameState, p: Player)
    requires Valid(s) && !s.loading && !s.gameOver
    requires p in Catalog && !Guessed(s.guesses, p.name)
    ensures Valid(SelectPlayer(s, p))
  {
    SelectGuessesValid(s, p);
    SelectFlagsValid(s, p);
  }

  lemma SelectGuessesValid(s: GameState, p: Player)
    requires Valid(s) && !s.loading && !s.gameOver
    requires p in Catalog && !Guessed(s.guesses, p.name)
    ensures GuessesValid(SelectPlayer(s, p))
  {
  }

  /** If the new guess is not the mystery player, neither was any earlier
      one, since the game would be over otherwise. */
  lemma SelectFlagsValid(s: GameState, p: Player)
    requires Valid(s) && !s.loading && !s.gameOver
    requires !Guessed(s.guesses, p.name)
    ensures FlagsValid(SelectPlayer(s, p))
  {
  }

  /** Every state reachable from `s` by user actions is valid when `s` is. */
  lemma {:induction false} RunValid(s: GameState, es: seq<Event>)
    requires Valid(s)
    ensures Valid(Run(s, es))
    decreases |es|
  {
    if |es| > 0 {
      var next := if Enabled(s, es[0]) then Apply(s, es[0]) else s;
      if Enabled(s, es[0]) {
        StepValid(s, es[0]);
      }
      RunValid(next, es[1..]);
    }
  }

  /** Every state the page can reach from its first render is valid. */
  lemma ReachableValid(es: seq<Event>)
    ensures Valid(Run(Initial, es))
  {
    InitialValid();
    RunValid(Initial, es);
  }

  /** Once the game is over, "New Game" is the only action on offer. */
  lemma GameOverOnlyRestarts(s: GameState, e: Event)
    requires Valid(s) && s.gameOver && Enabled(s, e)
    ensures e.Restart?
  {
  }

  /** Giving up after some wrong guesses keeps them and ends the game
      without a win. */
  lemma ForfeitKeepsGuesses(s: GameState)
    requires Valid(s) && Enabled(s, Forfeit)
    ensures var r := Apply(s, Forfeit);
      r.gameOver && r.gaveUp && !r.won && r.guesses == s.guesses && Valid(r)
  {
    StepValid(s, Forfeit);
  }
}

# MLB Wordle — a Dafny model of the guessing game's core

MLB Wordle is a one-page game: the page draws a hidden "mystery player" from a
fixed catalog of ten Major League Baseball players, and the user guesses
players by typing part of a name and picking from a dropdown. For each guess
the page shows which attributes match the mystery player (position, age,
team, All-Star selections, World Series titles), with an up or down arrow on
the numeric ones. The game ends on a correct guess, after eight guesses, or
when the user gives up. A "Share Results" button copies a text summary with
one row of coloured squares per guess.

This project models that core, all of which sits in `pages/index.tsx`, as
pure Dafny functions over immutable values:

| module | file | models |
|---|---|---|
| `Wrappers` | `wrappers.dfy` | `Option`, for the nullable mystery player |
| `Text` | `text.dfy` | `toLowerCase`, `includes`, decimal rendering of a number, splitting a text into lines |
| `Players` | `players.dfy` | the player record and the ten-entry catalog constant |
| `Search` | `search.dfy` | the filter in `handleSearchChange` |
| `Feedback` | `feedback.dfy` | `isMatch` and `getDirectionalHint` |
| `Game` | `game.dfy` | `GameState` and its transitions: the mount effect, `selectPlayer`, `handleGiveUp`, `handleNewGame` |
| `Session` | `session.dfy` | the actions the rendered page offers in each state, runs of actions, and the invariant of every reachable state |
| `Share` | `share.dfy` | the text built by `shareResults` |

The transitions are modelled as the code writes them. `selectPlayer` does not
look at `gameOver`, and `handleGiveUp` does not look at the number of
guesses. The page enforces both only by what it renders: the search box
exists only while the game runs (line 200), "Give up" is disabled before the
first guess (line 240), "New Game" appears only once the game is over (lines
293-318), and nothing but a loading text is shown before the mystery player
is drawn (line 171). `Session.Enabled` collects these guards. `Session.Run`
applies a sequence of user actions and ignores an action the page does not
offer at that moment, such as a click on a disabled button. A pick is typing
a search term and clicking entry `k` of the resulting dropdown. The "Guess"
button is entry 0 (lines 229-231).

Random numbers become parameters. `Math.floor(Math.random() *
dummyPlayers.length)` (lines 46 and 112) is an index `i` with
`0 <= i < |Catalog|`.

The catalog is a constant in the code. There is no data file to load, so
there are no load-time or empty-catalog error paths to model. Giving up
leaves `won` as it was. It is false whenever "Give up" is on offer, so a
forfeit never records a win (`Session.ForfeitKeepsGuesses`).

## Model

| member | source | states |
|---|---|---|
| Players.CatalogNames | pages/index.tsx:5-16 | the catalog has ten entries, with the names given in the code in that order |
| Players.CatalogDistinct | pages/index.tsx:5-16 | no two catalog entries share a name |
| Players.CatalogNameDetermines | pages/index.tsx:5-16 | within the catalog a name determines the whole record |
| Players.CatalogSingleLine | pages/index.tsx:5-16 | no catalog name contains a newline, so a name never breaks the share text's title line |
| Players.GuessedMember | pages/index.tsx:84 | `.some(g => g.name === name)` holds exactly when some guess carries the name, and one more guess adds exactly its own name |
| Players.AppendFresh | pages/index.tsx:84-91 | appending a player whose name is not yet guessed keeps guess names pairwise distinct, and the name is then guessed |
| Text.LowerChar | pages/index.tsx:69 | an upper-case letter maps to its lower-case partner 32 code points up; every other character is unchanged; the result is never upper-case |
| Text.Lower | pages/index.tsx:69 | lower-casing keeps the length, leaves no upper-case letter in the result and leaves every character that is not an upper-case letter where it was |
| Text.LowerIdempotent | pages/index.tsx:69 | lower-casing an already lower-cased text changes nothing |
| Text.Includes | pages/index.tsx:69 | `s.includes(t)` holds exactly when `t` occurs in `s` at some index |
| Text.Decimal | pages/index.tsx:150 | a number renders as a non-empty string of digits with no leading zero |
| Text.DecimalRoundTrip | pages/index.tsx:150 | reading the rendered digits back gives the number |
| Text.DecimalInjective | pages/index.tsx:150 | different numbers render differently |
| Search.Suggested | pages/index.tsx:69-70 | a suggested player has a name at least as long as the term and not yet guessed; an empty term is included in every name, so then exactly the unguessed players qualify |
| Search.Keep | pages/index.tsx:68-71 | the filter keeps, in order, exactly the players whose lower-cased name includes the lower-cased term and whose name no guess carries, each as many times as the input lists it |
| Search.Suggestions | pages/index.tsx:63-76 | an empty term suggests nothing; otherwise the suggestions are an ordered subsequence of the catalog holding exactly the matching players that have not been guessed, each as often as the catalog lists it |
| Search.KeepFewerGuesses | pages/index.tsx:68-71 | a list filtered against some guesses is a sub-list of the list filtered against no guesses |
| Search.SuggestionsDistinct | pages/index.tsx:68-71 | the dropdown never lists a name twice |
| Search.CaseInsensitive | pages/index.tsx:69 | a term typed in any letter case gives the same suggestions as its lower-cased form |
| Search.SuggestionsFresh | pages/index.tsx:68-71 | every suggestion is a catalog player that has not been guessed yet |
| Search.TypingTr | pages/index.tsx:63-76 | with Mike Trout and Aaron Judge on offer and no guesses, "tr" suggests Mike Trout alone |
| Feedback.IsMatch | pages/index.tsx:125-128 | there is no match while no mystery player is drawn, and the mystery player matches itself on every attribute |
| Feedback.DirectionalHint | pages/index.tsx:131-143 | no arrow when there is no mystery player or the values are equal (exactly when `isMatch` holds); up exactly when the guess's value is smaller; down exactly when it is larger |
| Feedback.MatchSymmetric | pages/index.tsx:125-128 | an attribute match does not depend on which player is the mystery one |
| Feedback.AllMatch | pages/index.tsx:125-128 | a guess matches on all five attributes exactly when it equals the mystery player apart from its name |
| Feedback.HintSwap | pages/index.tsx:131-143 | swapping guess and mystery player swaps up and down arrows and keeps "no arrow" |
| Feedback.HintExample | pages/index.tsx:125-143 | mystery (P1, 30, T1, 1, 0) against guess (P2, 25, T2, 3, 1): no attribute matches; age up, All-Star down, World Series down |
| Game.Mount | pages/index.tsx:44-51 | the mount effect sets the mystery player to catalog entry `i`, leaves loading, and changes nothing else |
| Game.SelectPlayer | pages/index.tsx:79-99 | a repeated name leaves the state unchanged; a new player is appended, `won` says whether its name is the mystery player's, `gameOver` is `won` or the budget reached, and the mystery player, `gaveUp`, `loading` and `maxGuesses` are kept |
| Game.GiveUp | pages/index.tsx:102-108 | giving up sets `gameOver` and `gaveUp` and keeps the guesses, `won`, the mystery player, `loading` and the budget |
| Game.NewGame | pages/index.tsx:111-122 | a new game has catalog entry `i` as its mystery player, no guesses, all flags false and a budget of 8 |
| Game.LastMissLoses | pages/index.tsx:89-98 | a new wrong guess that brings the count to the budget of 8 ends the game as a loss: over, not won, not given up |
| Game.SelectIdempotent | pages/index.tsx:84-86 | submitting the same player twice has the effect of submitting it once |
| Game.GiveUpIdempotent | pages/index.tsx:102-108 | giving up twice has the effect of giving up once |
| Session.Enabled | pages/index.tsx:171-318 | every action other than the mount effect is on offer only once loading is over, and among those "New Game" is the one on offer exactly when the game is over |
| Session.Apply | pages/index.tsx:44-122 | loading draws a mystery player and keeps the guesses; a pick always adds exactly one guess at the end, since the dropdown holds only fresh players; a forfeit ends the game with the guesses kept; a new game starts with no guesses and no flag set |
| Session.InitialOnlyLoads | pages/index.tsx:33-41 | the first render is the loading state, in which drawing a catalog index is the only thing that can happen |
| Session.InitialValid | pages/index.tsx:33-41 | the first render's state satisfies the session invariant |
| Session.LoadValid | pages/index.tsx:44-51 | drawing the mystery player keeps the invariant |
| Session.PickValid | pages/index.tsx:211-221 | picking a dropdown entry while the game runs keeps the invariant, because every entry is a fresh catalog player |
| Session.SelectValid | pages/index.tsx:79-99 | guessing a fresh catalog player while the game runs keeps the invariant: the budget is respected, names stay distinct, only the last guess can be the mystery player, and the flags agree with the guesses |
| Session.StalePickValid | pages/index.tsx:204-221 | after "New Game", clicking an entry of a dropdown still filtered against the previous game's guesses picks a player the new game's own dropdown for that term offers, and keeps the invariant |
| Session.RestartValid | pages/index.tsx:111-122 | a new game satisfies the invariant |
| Session.StepValid | pages/index.tsx:200-318 | every action the page offers keeps the invariant |
| Session.RunValid | pages/index.tsx:200-318 | every state reached by user actions from a valid state is valid |
| Session.ReachableValid | pages/index.tsx:33-41 | every state reachable from the first render has at most 8 distinct catalog guesses; `won` holds exactly when the last guess is the mystery player; `gameOver` holds exactly on a win, a forfeit or 8 guesses |
| Session.GameOverOnlyRestarts | pages/index.tsx:293-318 | once the game is over, "New Game" is the only action on offer |
| Session.ForfeitKeepsGuesses | pages/index.tsx:102-108 | giving up ends the game unwon, keeps the guesses, and keeps the invariant |
| Share.GlyphRow | pages/index.tsx:155-161 | a row has five squares, one per attribute in the order position, age, team, All-Star, World Series; a square is green exactly when that attribute matches |
| Share.Grid | pages/index.tsx:154-162 | the grid has six characters per guess: five squares and a newline |
| Share.ResultLine | pages/index.tsx:150 | the result line is "I gave up!" whenever the game was not won, running out of guesses included; it never contains a newline |
| Share.WonLineCounts | pages/index.tsx:150 | on a win the result line reports the guess count and the budget in digits that read back as those numbers |
| Share.ShareText | pages/index.tsx:146-147 | there is no share text exactly when there is no mystery player |
| Share.BuildShareText | pages/index.tsx:146-164 | growing the text one guess at a time, as the code does, yields the share text |
| Share.GridLines | pages/index.tsx:154-162 | the grid splits into exactly one line per guess, in guess order, each that guess's row |
| Share.ShareLines | pages/index.tsx:149-164 | line by line, the share text is the title naming the mystery player, the result line, a blank line, one row per guess, a blank line and the footer |
| Share.ReachableShareLines | pages/index.tsx:146-164 | in every reachable state with a mystery player, the share text has that line structure |
| Share.WinningRowAllGreen | pages/index.tsx:89-98 | after a win the last row is five green squares |
| Share.OutOfGuessesSharesGaveUp | pages/index.tsx:150 | a game lost by running out of guesses used all 8 guesses and still shares "I gave up!" |

## Left out

- `lib/gtag.ts`, `components/SEO.tsx`, `components/ExampleComponent.tsx` and `next-sitemap.config.js` are not part of this model. They hold analytics calls, page metadata and site configuration, with no game logic.
- The `localStorage` "has played" flag and the instructions panel (lines 54-59 and 186-198): browser storage and display state, with no effect on the game.
- `Math.random` (lines 46 and 112): replaced by the index it produces, a parameter in `0 <= i < |Catalog|`.
- `navigator.clipboard` and the alerts (lines 166-168): only the text handed to the clipboard is modelled.
- The JSX rendering and CSS classes (lines 171-327). This includes the table cells that show an arrow only when the attribute does not match (lines 273, 280, 284). The UI guards the rendering implies are kept as `Session.Enabled`.
- The search box's own state, `searchTerm` and `filteredPlayers` (lines 30-31, 65, 72-74, 80-81), is not part of `GameState`: a `Pick` in `Session.Run` takes the term together with the dropdown it produces against the current guesses. Only `selectPlayer` clears that state; `handleGiveUp` and `handleNewGame` do not. So after "Give up" and "New Game" the page can still show a dropdown filtered against the previous game's guesses. `Session.Run` does not model that click; `Session.StalePickValid` covers it separately, and it is the only way the stale list can be used, because the search box is hidden while the game is over.
- React's asynchronous state updates: `selectPlayer` reads `gameState.guesses` but writes through `prev` (lines 84, 91-93). Transitions are applied one after another as pure functions.
- Text.LowerChar: lower-cases only ASCII `A`-`Z` and the Latin-1 capitals U+00C0-U+00DE other than U+00D7. JavaScript's `toLowerCase` covers all of Unicode, including letters whose lower-case form has a different length. No catalog name has a capital letter outside ASCII, but a typed term might.
- Text.Lower: inherits `Text.LowerChar`'s limit; "upper-case" in its contract means the letters `Text.LowerChar` covers.
- Strings are sequences of Unicode scalar values. JavaScript counts UTF-16 code units, so the green square is one character here and two code units there. The model never uses string lengths in a way where this matters.

# Go rules engine and BEM class names, modelled in Dafny

This project models two parts of a small browser Go game:

- **The rules engine** `Game` (`blocks/game/game.js`):
  - a square board indexed `board[col][row]`;
  - the player to move;
  - the flags `lastMovePassed`, `inAtari`, `attemptedSuicide` and `gameOver`;
  - the operations `play`, `pass` and `endGame`.

  `play` does the following, in order:
  1. It places the mover's stone.
  2. It computes, by flood fill, the group and liberty count of every opposing neighbour.
  3. It undoes a move that captures nothing and leaves its own group without a liberty (suicide).
  4. Otherwise it removes every captured group and hands the turn over.
- **The scored copy of the engine** bundled in `_index.js`. It behaves the same, plus a per-colour count of captured stones.
- **The class-name builders of the `i-bem__internal` module.** These build class names of the form `block`, `block_mod_val`, `block__elem` and `block__elem_mod_val` from JavaScript values.

The model is functional:
- A game is an immutable `Engine.Game` value.
- `play` returns `Result<Turn, GameError>`, where `Turn` is the new game and the boolean `play` returns. A thrown error becomes a `Failure`.
- Liberty counts and groups are specified declaratively in `Groups`:
  - `Component` is the set of points joined to a point by a same-colour chain of orthogonal steps.
  - `LibertyPairs` is the set of (stone, empty neighbour) pairs of a set of stones.

  The flood fill `Groups.Fill` pops its stack from the end, like `queue.pop()`. It is proved to return exactly the component, without repeats, and the number of pairs.

The model keeps three behaviours of the code as written:
1. **Liberties are counted per pair.** An empty point next to two stones of a group counts twice. In the game of Go the liberties of a group are its distinct adjacent empty points; the model follows the code. `Groups.LibertyCountVersusPoints` shows that the two counts agree on zero, so captures and suicides are decided the same either way. The pair count can exceed the point count, as `Groups.PairCountExceedsPoints` shows on a 2x2 board, and then the atari flag, which tests for exactly one, can stay down for a group that has a single liberty point.
2. **A group can be captured twice.** Suppose a zero-liberty group touches the played point on two sides. It is then pushed onto the capture list twice, and the scored copy adds its size twice.
3. **`play` clears the flags first.** It clears `inAtari` and `attemptedSuicide` before it checks whether the point is free, so a refused move also clears them.

Two more points on how `play` is modelled:
- A row off the board reads `undefined`, which differs from `EMPTY`, so that move is refused like an occupied point.
- A column off the board makes `board[col]` undefined. Reading from it raises a TypeError. This is modelled as the failure `NoSuchColumn`, which carries the game with both flags already cleared.

Modules:
- `Wrappers` (`wrappers.dfy`)
- `Board` (`board.dfy`)
- `Groups` (`groups.dfy`)
- `Engine` (`engine.dfy`)
- `ScoredEngine` (`scored.dfy`)
- `BemNaming` (`bem.dfy`)

## Model

| member | source | states |
|---|---|---|
| Board.CreateBoard | blocks/game/game.js:18-27 | the new board has `size` columns of `size` rows, and every point of it is empty |
| Board.Switch | blocks/game/game.js:82-84 | the next player is never empty and differs from a non-empty current player |
| Board.SwitchInvolutive | blocks/game/game.js:82-84 | switching twice gives the turn back to the same player |
| Board.Put | blocks/game/game.js:165 | writing one point sets that point and leaves every other point of the board as it was |
| Board.PutRestores | blocks/game/game.js:183-186 | placing a stone on an empty point and then emptying it restores the original board, which is why a suicide leaves the board unchanged |
| Board.AdjacentPoints | blocks/game/game.js:86-97 | at most four distinct points; for a point on the board, a point is listed iff it is on the board and one orthogonal step away |
| Board.AdjacentSymmetric | blocks/game/game.js:86-97 | on the board, q is a neighbour of p iff p is a neighbour of q |
| Board.Holding | blocks/game/game.js:113-121 | keeps exactly the neighbours holding a given state, as a subsequence of the neighbour list (so in the same order), and without repeats when the list has none |
| Groups.ConnectedStep | blocks/game/game.js:120 | a same-coloured neighbour of a point joined to the start is itself joined to the start |
| Groups.ConnectedColour | blocks/game/game.js:120 | every point joined to the start holds the start's colour |
| Groups.ComponentClosed | blocks/game/game.js:110-125 | the start lies in its own component, and every same-coloured neighbour of a component member is a member |
| Groups.Fill | blocks/game/game.js:110-125 | the fill loop returns each point of the start's component exactly once, and nothing else, and counts exactly the (stone, empty neighbour) pairs of the component |
| Groups.GetGroup | blocks/game/game.js:99-131 | no group (null) iff the point is empty; otherwise the stones are exactly the point's component, without repeats, and the liberty count is the number of (stone, empty neighbour) pairs |
| Groups.NoLibertiesIff | blocks/game/game.js:113-118 | a group has liberty count zero iff no stone of it has an empty neighbour |
| Groups.LibertyCountVersusPoints | blocks/game/game.js:113-118 | the liberty count, which counts pairs, is at least the number of distinct empty points next to the group, and is zero exactly when there is no such point |
| Groups.PairCountExceedsPoints | blocks/game/game.js:113-118 | on the 2x2 board with three black stones, the group's liberty count is 2 while it touches a single empty point |
| Groups.PairsVersusPoints | blocks/game/game.js:113-118 | for any set of stones, the (stone, empty neighbour) pairs are at least as many as the distinct empty neighbour points, and there are none exactly when there is no such point |
| Groups.SameComponent | blocks/game/game.js:99-131 | every stone of a group yields the same group and the same liberty count |
| Groups.GroupSize | blocks/game/game.js:99-131 | the starting stone is in its group, and the group's length is the size of the component |
| Engine.NewGame | blocks/game/game.js:8-16 | a fresh game is well formed and has an empty board; Black moves first; no flag is set |
| Engine.ScanNeighbours | blocks/game/game.js:170-180 | the capture list has one entry per neighbour whose opposing group has no liberty, with duplicates, and every stone on it is on the board |
| Engine.ScanGroups | blocks/game/game.js:170-180 | entry i of the capture list is the group computed at the i-th such neighbour, in neighbour order |
| Engine.ScanAtari | blocks/game/game.js:170-180 | the atari flag is raised iff some opposing neighbour's group has liberty count one |
| Engine.ClearStones | blocks/game/game.js:190-192 | exactly the listed points become empty; all others keep their state |
| Engine.RemoveGroups | blocks/game/game.js:189-193 | exactly the points of some listed group become empty; all others keep their state |
| Engine.Attempt | blocks/game/game.js:158-193 | a move is refused without a stone iff the point is occupied; an undone suicide leaves exactly the original board; a placed move leaves a square board of the same size with the mover's stone on the played point |
| Engine.Play | blocks/game/game.js:154-201 | throws iff the game is over or the column is off the board; the column error leaves both flags cleared; a refused or suicidal move keeps the board, the player and the pass flag, and clears the atari flag; the suicide flag is set iff the point was free; a placed move requires a free point, leaves the mover's stone there, switches the player, and clears the pass and suicide flags |
| Engine.PlayOnBoard | blocks/game/game.js:158-200 | on a point of the board, `play` keeps the game well formed; a refused move leaves board and player unchanged; a placed move puts the stone on a free point and switches the player |
| Engine.CaptureListStones | blocks/game/game.js:170-180 | a point lies in some group of the capture list iff it belongs to a zero-liberty opposing group next to the played point |
| Engine.PlayedPointNotCaptured | blocks/game/game.js:172 | the played stone is never part of a captured group |
| Engine.PlaySuicide | blocks/game/game.js:182-187 | a move on a free point is refused iff it captures nothing and the new stone's group has liberty count zero; the suicide flag then reports it |
| Engine.PlayBoard | blocks/game/game.js:165-193 | after a placed move, the played point holds the mover's stone, every stone of a zero-liberty opposing neighbour group is empty, and every other point is unchanged |
| Engine.PlayRemovesOnlyOpponent | blocks/game/game.js:170-193 | any other point that changes held the opponent's stone and becomes empty |
| Engine.PlayAtari | blocks/game/game.js:177-179 | after a placed move, `inAtari` holds iff some opposing neighbour group has liberty count one |
| Engine.EndGame | blocks/game/game.js:207-210 | the game is over and nothing else changes |
| Engine.Pass | blocks/game/game.js:137-145 | the pass flag is set; after an earlier pass the game ends and the player stays; otherwise the player switches; board and other flags are kept |
| Engine.TwoPassesEndGame | blocks/game/game.js:137-145 | two passes in a row end the game |
| Engine.FreshGamePasses | blocks/game/game.js:137-145 | from a new game, one pass hands the turn to White and a second pass ends the game |
| Engine.OverIsTerminal | blocks/game/game.js:155-156 | once over, `play` throws the game-over error and `pass`/`endGame` keep the game over |
| ScoredEngine.NewScoredGame | _index.js:3773-3782 | a fresh scored game is the unscored fresh game with both scores zero |
| ScoredEngine.GetScoreOf | _index.js:3853-3855 | one colour's score; none for the empty state, whose index has no entry |
| ScoredEngine.GetScore | _index.js:3853-3855 | the pair of scores, agreeing with the per-colour accessor |
| ScoredEngine.AddTo | _index.js:3970 | only the given colour's score grows, by exactly k |
| ScoredEngine.StonesOnListWeight | _index.js:3965-3971 | the stones summed over the capture list equal the sum of component sizes over the capture sites |
| ScoredEngine.SitesWeightTwoTerms | _index.js:3965-3971 | two entries of the capture list both contribute their full size, even when they name the same group |
| ScoredEngine.Play | _index.js:3929-3979 | throws iff the game is over or the column is off the board; a refused move leaves the score unchanged |
| ScoredEngine.PlaySameAsUnscored | _index.js:3929-3979 | apart from the score, the scored `play` has exactly the outcome of the unscored one |
| ScoredEngine.PlayScore | _index.js:3965-3971 | on a placed move only the mover's score changes, growing by the size of each zero-liberty opposing group, counted once per neighbour that reaches it |
| ScoredEngine.DoubleScoring | _index.js:3946-3971 | a captured group reached from two sides of the played point adds at least twice its size |
| ScoredEngine.Pass | _index.js:3912-3920 | the unscored pass, with the score kept |
| ScoredEngine.EndGame | _index.js:3985-3988 | the unscored endGame, with the score kept |
| ScoredEngine.ScoresNeverDecrease | _index.js:3929-3988 | no play, pass or endGame lowers either score |
| BemNaming.Digits | _index.js:1206-1207 | the decimal rendering of a number is non-empty digits, starting with 0 only for zero |
| BemNaming.DigitsRoundTrip | _index.js:1206-1207 | the digits of a number read back, most significant first, to that same number |
| BemNaming.IntToString | _index.js:1206-1207 | a number renders with a leading minus iff it is negative, and digits after it |
| BemNaming.IntToStringRoundTrip | _index.js:1206-1207 | the rendering of any integer, minus sign included, reads back to that integer, so distinct numbers give distinct modifier values |
| BemNaming.IsSimple | _index.js:1197-1200 | a value is simple iff it is a string, a number or a boolean; `undefined`, `null` and objects are not |
| BemNaming.BuildModPostfix | _index.js:1202-1210 | empty iff the value is null, undefined or false; `_name` for true; `_name_value` otherwise |
| BemNaming.ModPostfixRoundTrip | _index.js:1202-1210 | for a name without the delimiter, the postfix reads back to the name and the rendered value (or the name alone for true); null, undefined and false give nothing |
| BemNaming.BuildBlockClass | _index.js:1212-1214 | the block class starts with the block name and equals it iff the value is null, undefined or false |
| BemNaming.BuildElemClass | _index.js:1216-1220 | the element class starts with `block__name`; the element delimiter follows the block name directly |
| BemNaming.BuildClass | _index.js:1238-1258 | the class starts with the block name; it is the block name when the element and modifier name are both falsy; anything after the block name starts with `_` |
| BemNaming.BuildClassBlockOnly | _index.js:1251-1253 | with no element or modifier, `buildClass` returns the block name |
| BemNaming.BuildClassElem | _index.js:1238-1258 | a non-empty string element with simple or absent modifier arguments gives `block__elem` plus the modifier postfix |
| BemNaming.BuildClassShift | _index.js:1238-1258 | three simple arguments `(block, name, value)` give `block_name_value` |
| BemNaming.BuildClassUndefinedModName | _index.js:1245-1256 | an element with an undefined modifier name but a value renders the name as `undefined` |
| BemNaming.BuildClassDropsModName | _index.js:1245-1246 | with a string or falsy element, a defined modifier name that is not simple (`null`, an object) gives the same class as a left-out one |
| BemNaming.BuildClassKeepsObjectElem | _index.js:1245-1256 | an object element is kept as `[object Object]` when the modifier name is `null`, and dropped, leaving the block name, when the modifier name is left out |
| BemNaming.BuildClassDropsElem | _index.js:1247-1253 | with the modifier name left out, a truthy element that is not a string gives the block name alone |
| BemNaming.BuildClasses | _index.js:1267-1288 | the classes start with the block name; with falsy element and modifiers they are the block name; a non-empty string element gives `block__elem` first |
| BemNaming.ModClassList | _index.js:1277-1285 | at most one class per modifier; one for each when every value is truthy; none iff no value is truthy |
| BemNaming.ModClassesSplit | _index.js:1277-1285 | split on spaces, the text of the modifier loop is the list of classes of the truthy modifiers, in order |
| BemNaming.BuildClassesWords | _index.js:1267-1288 | split on spaces, `buildClasses` yields the base class followed by one class per truthy own modifier, in order |
| BemNaming.BuildClassesShift | _index.js:1268-1271 | a truthy non-string second argument is taken as the modifiers, and the third argument is ignored |
| BemNaming.BuildClassesModsWords | _index.js:1267-1288 | called with the modifiers as second argument, split on spaces, `buildClasses` yields the block name followed by one block class per truthy own modifier, in order |
| BemNaming.ModClassListIsBuildClass | _index.js:1238-1288 | a word is in the modifier class list iff it is what `buildClass` builds for one truthy modifier with a simple value |

## Left out

- The module system, `inherit`, the Emitter, BEMDOM, the polyfills, the templates and the UI blocks: they are outside the rules engine and the class-name builders.
- The `console.log` on a refused move: it is output only and changes no state.
- The array form of `getStateByPos([col, row])`: it reads the same cell as the two-argument form, which `Engine.GetStateByPos` models.
- Engine.GetStateByPos: only points on the board are modelled; reading off the board yields `undefined` or throws, and `Engine.Play` models those cases itself.
- Ko, territory and end-of-game scoring: the code has none.
- Engine.Pass: a pass after the game is over is accepted and changes the state, as in the code; nothing guards it.
- Non-integer coordinates and numbers: boards and coordinates are integers. `BemNaming.IntToString` renders integers only, not JavaScript's fractional or exponent notation.
- BemNaming.OwnProperties: only plain objects, strings, numbers and booleans are modelled as `mods`. An object is given as its own enumerable properties in enumeration order, not in JavaScript's key-ordering rules. Arrays, functions and inherited properties are not modelled.
- BemNaming.BuildClass: the block name is taken to be a string; other types for it are not modelled.
- The integer encodings of the colours (0/1/2 in one copy, -1/0/1 in the other) are abstracted to `Empty`, `Black` and `White`.

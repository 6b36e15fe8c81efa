# Avalon client game rules

A Dafny model of the game-rule helpers inside the React client of an
Avalon-style hidden-role game (`src/App.js`). The client receives a state
snapshot from the game server (phase, leader id, round, win counters,
drafted team, results, players). From that snapshot it derives:

- the mission team size for the current player count and round. This is a
  table for 5 to 10 players, read with a fallback of 2 (`MissionRules`);
- the new draft list that a click on a player sends during team selection
  (`TeamDraft`);
- the leader test, the game-over flag, whether the confirm button is
  enabled, the upper bound of the assassin-count input and the five
  round-result chips (`Board`).

Everything is modelled as pure functions, because the source computes these
values with expressions and builds new lists without changing the old ones.
`Wrappers.Option` stands for a JavaScript `undefined`.

Points about the code that the model makes explicit:

- The table has no row for 4 players. Any count outside 5..10, or any
  round outside 1..5, gives 2, so the lookup never falls outside the
  table's values.
- The client sends `selectTeam` with the new list on every click
  (`src/App.js:85`), and the confirm button sends the same message with the
  current list (`src/App.js:265`).
- The required team size is computed at `src/App.js:26-27` from `state`,
  which is declared only at `src/App.js:30`. In JavaScript reading a `const`
  before its declaration throws a ReferenceError (temporal dead zone), so
  this throws on every render. The model uses the evidently intended
  function of (player count, round) and does not model the crash.

## Model

| member | source | states |
|---|---|---|
| MissionRules.TableRowsWellFormed | src/App.js:18-25 | every row has five entries; each entry is between 2 and 5 and smaller than its player count |
| MissionRules.RequiredTeamSize | src/App.js:26-27 | the required size is always between 2 and 5, and at most the player count once there are two players |
| MissionRules.RequiredTeamSizeFromTable | src/App.js:18-27 | for 5..10 players and rounds 1..5 the required size is the table entry `missionTeamSizes[n][r-1]` (the `|| 2` fallback never replaces a real entry) |
| MissionRules.RequiredTeamSizeFallback | src/App.js:26-27 | for at most 4 or at least 11 players, or a round outside 1..5, the required size is 2 |
| MissionRules.RequiredTeamSizeLeavesSomeoneOut | src/App.js:18-27 | with five or more players the required team is strictly smaller than the roster |
| TeamDraft.RemoveAll | src/App.js:83 | the filter result has no `id`, the same other members, length reduced by the number of `id` occurrences, and is a subsequence of the input (order kept) |
| TeamDraft.NextTeam | src/App.js:82-84 | the new draft contains `id` iff the old one did not; membership of every other id is unchanged |
| TeamDraft.ToggleTeam | src/App.js:80-86 | a click sends a list iff the phase is `teamSelection`; the list sent flips `id` and keeps every other id's membership |
| TeamDraft.ToggleAbsentAppends | src/App.js:82-84 | an absent id is appended at the end of the unchanged draft |
| TeamDraft.TogglePresentRemoves | src/App.js:82-83 | a present id has every occurrence removed and the draft gets strictly shorter |
| TeamDraft.RemoveAllAbsent | src/App.js:83 | filtering out an id that is absent returns the list unchanged |
| TeamDraft.RemoveAllAppend | src/App.js:83 | filtering distributes over concatenation |
| TeamDraft.ToggleAbsentTwice | src/App.js:82-84 | clicking an absent player twice returns exactly the original draft |
| TeamDraft.RemoveAllKeepsDistinct | src/App.js:83 | filtering a duplicate-free list gives a duplicate-free list |
| TeamDraft.ToggleKeepsDistinct | src/App.js:82-84 | a duplicate-free draft stays duplicate-free, and each click changes its size by exactly one |
| TeamDraft.ToggleStaysInRoster | src/App.js:80-86 | a draft of seated players stays a draft of seated players when a seated player is clicked |
| TeamDraft.ApplyTogglesParity | src/App.js:80-86 | if the server adopts each sent list before the next click, then after any sequence of clicks a player is drafted iff it started drafted XOR it was clicked an odd number of times |
| TeamDraft.ApplyTogglesAppendsFresh | src/App.js:80-86 | if the server adopts each sent list before the next click, clicking distinct undrafted players one after another appends them in click order |
| Board.IAmLeader | src/App.js:92 | nobody is leader while `leaderId` is null; a connected client is leader iff its socket id equals the leader id; a disconnected client (socket id `undefined`) is leader only when `leaderId` is also `undefined` |
| Board.LeaderControlsForOnePlayer | src/App.js:92 | among connected players with distinct ids that include the leader id, exactly one sees itself as leader |
| Board.GameOver | src/App.js:93-94 | when the game is not over, both win counters are at most 2 and the round is at most 5 |
| Board.GameOverStaysOver | src/App.js:93-94 | since counters and round only grow, a game that is over stays over |
| Board.RoundsSplit | src/App.js:244 | every result counts for exactly one side ("Buenos" or not), so the two tallies add up to the number of results |
| Board.GameOverIffThreeWins | src/App.js:93-94 | when the counters and round agree with at most five results, the game is over iff one side has 3 wins, so `round > 5` never decides alone |
| Board.ConfirmEnabled | src/App.js:263 | confirm is enabled only for a draft of 2 to 5 players, and with at least two seated players never larger than the roster |
| Board.ConfirmEnabledBySize | src/App.js:263 | inside the table, confirm is enabled iff the draft has the table's size; outside the table, iff it has 2 players |
| Board.ConfirmReachable | src/App.js:263 | with two or more distinct seated players, and if the server adopts each sent list before the next click, clicking the first required-size players from an empty draft enables confirm, with a duplicate-free team of seated players |
| Board.AssassinCountMax | src/App.js:143 | the input bound is always at least 1; it is n-1 for n >= 2 players and 1 when the players list is missing, empty or has one player |
| Board.AssassinCountLeavesGoodPlayer | src/App.js:143 | with two or more players, every count within the input's `max` bound is below the player count |
| Board.FirstWithRound | src/App.js:239 | `find` gives the first result whose round matches, or none when no result matches |
| Board.ChipAt | src/App.js:238-247 | a chip is pending (showing its round number) iff no result has its round, good iff the first such result's winner is "Buenos", evil otherwise |
| Board.Chips | src/App.js:238-250 | the board has exactly five chips; chip i is pending showing i+1 iff no result has round i+1, good iff the first result for round i+1 has winner "Buenos", evil iff it has another winner |
| Board.ChipsFollowResults | src/App.js:238-247 | for results numbered 1, 2, ... in order, chip i shows result i if there is one, else the pending round number |
| Board.GoodChipsCountGoodRounds | src/App.js:238-247 | for at most five results numbered in order, the number of good chips equals the number of rounds won by "Buenos" |

## Left out

- Socket connection, event subscriptions and every `socket.emit`: network I/O against a server whose code is not part of this model. `ToggleTeam` returns the list that would be sent, and None when nothing is sent.
- React state hooks, effects, memoisation and all rendering: presentation only.
- `circlePlayers`, the seating angles: floating-point layout.
- `alert`, `window.location.reload`, `console.log` and the avatar initials: browser side effects and presentation.
- The round badge `Math.min(state.round, 5)` and the mission-vote panels keyed on `team.includes(socket.id)`: presentation.
- The parsing of the assassin-count input, `Number(assassinCount || 1)`: JavaScript string-to-number conversion is not modelled.
- The server engine (room registry, reconnection, vote tallying, role assignment, round resolution) is not part of this model. `GameOverIffThreeWins` and the chip lemmas take as a hypothesis how the server fills in results, counters and round.
- The crash from reading `state` before its declaration is described above but not modelled.
- ApplyToggles: composes `NextTeam` over a sequence of clicks, assuming the server stores each sent list as `state.team` and the client receives that snapshot before the next click. `toggleTeam` itself only sends (`src/App.js:85`) and always starts from the last received `state.team` (`src/App.js:82`), so two clicks before a new snapshot arrives both start from the same list and the first is lost. `TeamDraft.ApplyTogglesParity`, `TeamDraft.ApplyTogglesAppendsFresh` and `Board.ConfirmReachable` hold only under that assumption about the server, whose code is not part of this model.
- AssassinCountLeavesGoodPlayer: the client does not enforce the bound. `max` at `src/App.js:143` is an advisory attribute of the number input, `onChange` stores whatever is typed (`src/App.js:145`) and `start` sends `Number(assassinCount || 1)` unchecked (`src/App.js:76`). The lemma speaks only of counts within the bound.

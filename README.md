# punto: board, deck, turn and move-relay logic

A Dafny model of the game state of punto, a small networked card game for up to four players:

- **The 11 x 11 board of `player.py`.** It is a dictionary from cells `(x, y)` to `(owner, value)`.
  - Three sentinels stand in for a card value: `CARD_EMPTY = -1`, `CARD_SELECTABLE = -2` and `CARD_HOVER = -3`.
  - After every placement a scan stamps the cells a player may play on as `(-1, CARD_SELECTABLE)`.
- **The players' decks.** Each player has 18 cards (1..9 twice) and draws from the end of the deck.
- **Round-robin turns**, handled by `Game`.
- **The move relay of `server.py`.**
  - A 4-slot `MOVES` list. A submitted move is copied to every slot except the sender's.
  - `get_move` consumes the caller's own slot.
  - A `PLAYERS` list, and an id counter used by the accept loop.

Modules:

- `Selectability` (`selectability.dfy`): the scan as pure functions over a map, with the lemmas about it.
  - `SelectablesFromPos` is `get_selectables_from_pos`.
    - It tries shifts dx outer, dy inner.
    - It writes each mark before trying the next shift, as the consuming loop of `set_selectable` does between two yields.
  - `ScanFrom` is the loop of `get_all_selectables` over the keys in dictionary order, x outer and y inner (`KeyOrder`).
    - A cell's value is read when the iteration reaches it, so a cell marked earlier is no longer a source.
  - `AllSelectables` is the whole generator, including the opening move, where only `(5, 5)` is offered.
- `Boards` (`boards.dfy`): `class Board`.
  - The cells live in an `array2` that the methods update in place. A ghost map mirrors the dictionary.
  - `SetSelectable` runs one loop over the keys and calls `MarkFromPos`, whose nested dx/dy loops mark as they go. Both are proved equal to the functions of `Selectability`.
- `Players` (`players.dfy`): decks, `class Player` and `class Game`.
- `Relay` (`relay.dfy`): `class RelayState`, with the slot functions `Fanout` and `Take` and their lemmas.
- `Wrappers` (`wrappers.dfy`): `Option`.

This model follows the code. In particular:

- **The marking rule is the code's.** A cell is stamped when it is a board neighbour of a cell whose value is at least 0 when the scan reaches it, and it is empty or holds a value greater than that neighbour's value. The drawn card is never consulted.
- **Placement is not validated,** and there is no win detection.
- **The scan can erase a card that was just placed.** A stamp overwrites whatever the cell held, so `Board.Update` can replace the new card with `(-1, CARD_SELECTABLE)`. Example: the first card (value 3) is at `(5, 5)`, and a 7 is then placed at `(5, 6)`. The 7 is erased, because 7 > 3. `Selectability.UpdateCanEraseThePlacedCard` proves this for any board whose only card is a lower neighbour of the placed one. With more cards on the board that neighbour can itself be marked before it is visited, and the placed card may then survive.
- **Player ids past 3 get no session.**
  - `server.py:30` builds `Player(player_id)` before the `try`.
  - For an id of 4 or more, `PLAYER_COLORS[player_id]` raises.
  - So the handler thread ends before it appends anything or sends the id.
  - `RelayState.Accept` reports this as `session == false`.
  - `RelayState.Handle` still describes what such an id would do inside the loop: a move fills all four slots, and `get_move` ends the session.

## Model

| member | source | states |
|---|---|---|
| Selectability.SelectablesFromPos | player.py:107-117 | the key set of the board never changes while neighbours are yielded and marked |
| Selectability.YieldedFromPos | player.py:107-117 | from shift (dx, dy) on, a position is yielded exactly when it is a board key, a neighbour not yet tried (never the source itself), and holds CARD_EMPTY or a value greater than val |
| Selectability.FromPosCell | player.py:89-117 | every yielded neighbour ends up (-1, CARD_SELECTABLE); every other cell keeps what it held |
| Selectability.FromPosDistinct | player.py:107-117 | one source never yields the same neighbour twice |
| Selectability.KeyOrder | player.py:77-79 | the dictionary's insertion order, x outer and y inner, has exactly 121 keys (which key sits at which index is KeyOrderIndex and KeyOrderAt) |
| Selectability.KeyOrderIndex | player.py:77-79 | the k-th key in dictionary order is (k / 11, k % 11), a board key |
| Selectability.KeyOrderAt | player.py:77-79 | every board key (x, y) occurs in the iteration order, at index 11x + y |
| Selectability.VisitKey | player.py:101-105 | visiting a key never changes the key set |
| Selectability.VisitKeyFacts | player.py:101-117 | key s yields p exactly when s is a key whose value is at least 0 at that moment and p is a neighbour that is empty or holds more than s's value; yielded cells become selectable and the rest are unchanged |
| Selectability.VisitKeyDistinct | player.py:101-117 | one visited key yields no duplicates |
| Selectability.ScanFrom | player.py:101-105 | the key iteration never changes the key set |
| Selectability.ScanYieldsEmptyOrCard | player.py:101-117 | a scanned cell is only ever yielded if it was CARD_EMPTY or held a card of value at least 1; selectable, hover and 0 cells never are |
| Selectability.ScanCell | player.py:89-95 | after the scan, every yielded cell is (-1, CARD_SELECTABLE), whatever card it held, and every other cell is unchanged |
| Selectability.ScanDistinct | player.py:89-117 | one scan returns no position twice |
| Selectability.ScanSound | player.py:101-117 | every yielded cell is next to a visited cell that held a value of at least 0 before the scan, and is empty or held more than that value |
| Selectability.ScanComplete | player.py:101-117 | a visited cell with value at least 0 that the scan never marks gets every eligible neighbour marked |
| Selectability.ScanLeavesStable | player.py:101-117 | after a scan over every key, no cell with value at least 0 has a neighbour that is empty or holds a greater value |
| Selectability.StableScanIsNoOp | player.py:101-117 | on such a stable board a scan yields nothing and changes nothing |
| Selectability.AllSelectables | player.py:89-99 | the key set stays the 121 board keys; before the first placement exactly [(5, 5)] is returned, whatever the board holds |
| Selectability.AllSelectablesCell | player.py:89-95 | set_selectable returns no duplicates, stamps exactly the returned cells with (-1, CARD_SELECTABLE) and leaves every other cell as it was |
| Selectability.AllSelectablesSound | player.py:101-117 | after the opening, a returned cell was empty or held a card of at least 1, and lies next to a cell of value at least 0 that it is eligible against; the drawn card plays no part |
| Selectability.AllSelectablesComplete | player.py:101-117 | after the opening, a cell of value at least 0 that is not itself returned has every eligible neighbour returned |
| Selectability.SecondScanIsNoOp | player.py:89-117 | after the opening, a second consecutive set_selectable returns [] and changes nothing |
| Selectability.UpdateCanEraseThePlacedCard | player.py:83-117 | on a board whose only card (value at least 0) is a lower neighbour of pos, a card placed at pos is stamped (-1, CARD_SELECTABLE) by the scan that follows, so the placed card is lost |
| Boards.Board.constructor | player.py:73-81 | round is 0 and game_start is true; the keys are exactly the 121 cells; every cell is (-1, CARD_EMPTY) except (5, 5), which is (-1, CARD_SELECTABLE) |
| Boards.Board.Clear | player.py:76-79 | the nested loops insert every board key with (-1, CARD_EMPTY) |
| Boards.Board.Update | player.py:83-87 | the key set is unchanged, game_start is false afterwards, and the board is the placed board after the full scan |
| Boards.Board.Store | player.py:84 | an assignment to a board key changes that cell only |
| Boards.Board.SetSelectable | player.py:89-105 | the in-place loop returns and stamps exactly what AllSelectables specifies for the current game_start |
| Boards.Board.MarkFromPos | player.py:104-117 | the nested shift loops mark and return exactly what SelectablesFromPos specifies |
| Boards.Board.TryShift | player.py:110-117 | one pass of the inner loop yields and stamps exactly what SelectablesFromPos does at shift (dx, dy), leaving the remaining shifts to run on the new board |
| Players.Range | player.py:37 | list(range(lo, hi)) has hi - lo elements, the i-th being lo + i |
| Players.FullDeck | player.py:37 | the unshuffled deck is 18 cards, 1..9 in order and then 1..9 again |
| Players.RangeCount | player.py:37 | range(lo, hi) holds each of its values once and nothing else |
| Players.FullDeckCounts | player.py:37 | a new deck has 18 cards: each of 1..9 twice and nothing else |
| Players.FullDeckSize | player.py:37-38 | every shuffle of the deck has 18 cards |
| Players.DeckCardsAreCards | player.py:37-43 | what is left of a deck holds only values 1..9 |
| Players.Player.constructor | player.py:33-40 | p must index PLAYER_COLORS (-4 <= p < 4); the deck is the shuffled full deck; playing is false and current_card is None |
| Players.Player.DrawCard | player.py:42-44 | the last card is removed and returned, becomes current_card and lies in 1..9; an empty deck yields None and changes nothing |
| Players.Game.constructor | player.py:143-148 | players 0..n-1 (1 <= n <= 4); player 0 is current, the only one playing, and has drawn the last card of its deck; the others hold their full shuffled decks; the board is the fresh one of Board(): round 0, game_start true, every cell (-1, CARD_EMPTY) except (5, 5), which is (-1, CARD_SELECTABLE) |
| Players.Game.NewPlayers | player.py:146 | player i is number i, not playing, without a card and holding shuffle i |
| Players.Game.StartGame | player.py:150-152 | the current player plays and has drawn the last card of its deck |
| Players.Game.NextPlayer | player.py:154-159 | players[(p + 1) % n] becomes current, and exactly one player is playing; the new current player draws the last card of its deck; no other player's deck or card changes |
| Relay.Fanout | server.py:54-57 | a submission keeps the number of slots |
| Relay.Take | server.py:59-66 | get_move keeps the number of slots |
| Relay.FanoutReachesPeers | server.py:54-57 | after a submission every slot but the sender's holds the move, and the sender's slot is unchanged |
| Relay.PeerReceivesMove | server.py:52-66 | a peer polling after a submission receives that move, and its slot is cleared |
| Relay.LatestMoveWins | server.py:54-57 | two submissions before a peer polls: the peer receives only the second |
| Relay.SenderSkipsOwnMove | server.py:54-61 | a submission does not change what the sender's own get_move answers |
| Relay.SecondTakeIsNone | server.py:59-66 | an immediate second get_move answers None and changes nothing |
| Relay.TakeKeepsOtherSlots | server.py:61-64 | get_move touches no slot but the caller's |
| Relay.OutsiderFillsEverySlot | server.py:54-57 | a move from an id of 4 or more is written to all four slots |
| Relay.RelayState.constructor | server.py:23-25 | MOVES is four Nones, PLAYERS is empty, and the first id to hand out (current_player, line 76) is 0 |
| Relay.RelayState.Accept | server.py:76-82 | ids are handed out 0, 1, 2, ..., one more per connection; the handler's Player(id) at line 30 appends exactly one new Player with that id, the given deck, not playing and without a card, for ids below 4, and for larger ids raises, so nothing is appended and no session opens |
| Relay.RelayState.Count | server.py:45-47 | n_connected answers len(PLAYERS) |
| Relay.RelayState.Submit | server.py:52-58 | the slots become Fanout of the old slots |
| Relay.RelayState.GetMove | server.py:59-66 | a caller with a slot gets exactly what Take specifies; an id of 4 or more is out of range and changes nothing |
| Relay.RelayState.Handle | server.py:35-70 | falsy data, an unrecognised message, a failed receive, and get_move from an id of 4 or more end the session with slots unchanged; n_connected, get_players, a move and get_move answer as specified |

## Left out

- Drawing and input are not modelled: `Player.draw`, `Board.draw`, `Game.draw`, `pos_to_xy`, `MARGIN`, `PLAYER_POS`, fonts and pygame.
  - `Game.draw` writes `CARD_HOVER` over a selectable cell under the mouse. That depends on `pygame.mouse`, so it is left out.
  - A hover cell is negative, so it is never a source, and it is never eligible as a target. Both follow from `Selectability.VisitKeyFacts`.
- `network.py` and `gui.py` are not part of this model. They are socket I/O and the window loop.
- Only the number of colours is kept from `PLAYER_COLORS`, as the precondition of `Player`. `Player.color` and `Player.pos` are drawing data.
- `random.shuffle` is not modelled: each deck is a parameter that must be a permutation of the full deck.
- The server's sockets, threads, pickle framing, logging, `conn.close` and the blocking accept loop are not modelled.
  - `MOVES` is shared between threads without locks. It is modelled one operation at a time.
  - The `while True` loop of `threaded_client` is not modelled. `RelayState.Handle` models one pass of it, and a `None` reply stands for `break`.
- `Move` is a type parameter. `player.py` does not define it.
  - Every `Move` is taken to be truthy, both for `not data` and for `if move:`.
  - Every `Move` is taken to differ from the three command strings.
- `get_players` has no contract beyond returning the current `PLAYERS` list, because it only sends a snapshot.
- Boards.Board.Update: requires `pos` to be on the board. In Python an off-board key would add a 122nd dictionary entry, and the scan would then visit it last.
- Players.Player.DrawCard: an empty deck makes Python's `pop()` raise `IndexError`, which propagates out of `next_player`. Here it returns `None` with the deck unchanged. Players.Game.NextPlayer passes the turn before the draw, as the source does.
- `Board.round` is kept as a field. Nothing in the source changes it.

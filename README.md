# Kicker lobby, modelled in Dafny

The kicker bot is a Slack bot for organising table-football games. The
`/kicker` slash command posts a lobby message with four slots. The creator
holds slot 0 and the other three slots are free. Each slot carries one
button: a join button (`button-join-i`, empty value) on a free slot, and a
leave button (`button-leave-i`, the occupant's user id as value) on an
occupied one. The bot keeps no store of its own. Every button click brings
the whole lobby back inside the original message, and the handler answers
with one of four things:

- the next lobby message, which replaces the original;
- a private warning;
- a closed lobby plus a "GO GO GO" rally call, when the fourth player joins;
- a cancellation, when the last player leaves.

The model has these modules:

- `Slack` (slack.dfy): the message values the handlers read and write (a
  message, its slots, its response type and flags), the four kinds of
  handler response (dropped, status 500, reply, reply plus post), and Go's `strings.Contains`.
- `Buttons` (buttons.dfy): the eight button names, the switch that decodes a
  clicked name into a slot index, and the proof that the `"join"`/`"leave"`
  substring test tells the two kinds of button apart.
- `Lobby` (lobby.dfy): the player list collected from the slots, the lobby
  invariant, and the slash-command handler.
- `Interaction` (interaction.dfy): the click handler. `Transition` is its
  specification as a function. `HandleAction` is the handler written the
  way the Go code runs: the loop that collects player ids, the loop that
  looks for the clicking user, the selected slot's button replaced and then its title, the
  write-back and the count check. `HandleAction` is proved equal to
  `Transition` on every input.
- `LobbyProperties` (properties.dfy): what one click does to a lobby that
  is on display. This covers which branch runs, the refusals, how the count
  moves, that only the clicked slot changes, when the game starts and when
  it is cancelled, and that the lobby invariant is preserved.
- `Scenarios` (scenarios.dfy): complete games played click by click.

The click handler answers with status 500 (`ServerError`) only when the
clicked name is not one of the eight button names (main.go:143-146). A Go
runtime panic writes nothing: the HTTP server recovers it, logs it and
closes the connection, so Slack gets no answer at all. The model gives such
a request the separate answer `Dropped`. There are three such panics:

- indexing an empty action list (main.go:126);
- an attachment index past the end of the message (main.go:129-141);
- `playerIds[:len(playerIds)-1]` on an empty list (main.go:215).

The handler's local copy of the message and the in-place slice write at
main.go:218 are modelled as values. Nothing else can observe that slice
once the response is encoded.

The players named by the rally call are the players collected before the
click, in slot order, followed by the user who joined (main.go:150-154,
188, 228). One might expect all four in slot order, but the two agree only
when the last free slot is the highest one. This model follows the code: `GameStartRally`
states the code's order, `RallyPlayers` proves that the same four distinct
players are named, and `RallyListsNewcomerLast` shows a lobby where the
newcomer is named last even though they took slot 1.

## Model

| member | source | states |
|---|---|---|
| Lobby.SlashCommand | main.go:23-112 | `/kicker` always answers with a plain reply (never a post, never replacing another message) carrying the in-channel text "New kicker game created. Feel free to join!" and four slots: slot 0 is `<@U> joined!` with `button-leave-0` holding the creator; slots 1 to 3 are "Free Slot" with `button-join-i` and an empty value. Any other command is a 500 |
| Lobby.NewLobbyForming | main.go:33-98 | a new lobby satisfies the lobby invariant, and its only player is its creator |
| Lobby.Occupants | main.go:149-154 | the player list is no longer than the slot list and holds no empty id |
| Lobby.OccupantsCount | main.go:149-154 | the player list has exactly one entry per occupied slot |
| Lobby.OccupantsConcat | main.go:150-154 | the list is built in slot order: the list for two runs of slots put together is the two lists concatenated |
| Lobby.OccupantsMembership | main.go:149-154 | an id is in the player list exactly when it is non-empty and some slot's button holds it |
| Buttons.ButtonName | main.go:180 | the names `button-join-i` (13 characters) and `button-leave-i` (14 characters) written for slot i end in the digit i |
| Buttons.DecodeSlot | main.go:126-147 | a name is accepted only if it is `button-join-i` or `button-leave-i` for some i < 4, and it then decodes to that i |
| Buttons.DecodeButtonName | main.go:126-147 | every button name the bot writes decodes back to its own slot index |
| Buttons.KindOfButtonName | main.go:156-191 | a join button's name contains "join" and not "leave", and a leave button's the other way round |
| Interaction.JoinStep | main.go:157-189 | the join branch runs exactly when the stored name contains "join"; it refuses exactly when the user is already in the player list, with the "already occupying" text; otherwise the slot gets the user's value, the leave button for its index and the title `<@U> joined!`, and the list grows by one with the old list as its prefix and the user in it. A stored name without "join" leaves slot and list as they were |
| Interaction.LeaveStep | main.go:191-216 | after a join step that went through, the leave branch runs exactly when the stored name contains "leave"; it refuses exactly when the slot (as the join step left it) does not hold the user, with the "can not leave" text; it panics exactly when the list is empty; otherwise the slot gets an empty value, the join button for its index and the title `<@U> left!`, and the list loses its last entry, keeping the rest as it was |
| Interaction.Finish | main.go:218-250 | the count check never fails: four players give the rally reply (in the clicked message's thread, not replacing it) and the slotless "Enjoy the game! :soccer:" post that replaces the lobby; no player gives a slotless replacing reply reading "This game has been cancelled!"; any other count gives the lobby with only the clicked slot rewritten and its text kept, replacing the original in the channel |
| Interaction.Transition | main.go:126-254 | on every input, the answer is a 500 exactly when there is an action and its name is not one of the eight button names, and a rally is always threaded under the clicked message with the slotless lobby posted to replace it |
| Interaction.CollectPlayers | main.go:149-154 | the loop's result is the player list: the non-empty button values in slot order |
| Interaction.AlreadyPlaying | main.go:158-171 | the flag is set exactly when the user is in the player list |
| Interaction.HandleAction | main.go:114-255 | the handler, loops and step-by-step rewrites included, returns exactly what `Transition` specifies on every input, including the 500 for an unknown name and the dropped requests of the three panics |
| LobbyProperties.StoredKind | main.go:156-191 | in a well-formed lobby, the stored name of a slot contains "join" exactly when the slot is free and "leave" exactly when it is occupied, so exactly one branch runs |
| LobbyProperties.JoinWhilePlayingRefused | main.go:157-175 | a user who already holds any slot and clicks a free slot gets the private "already occupying" warning, and the original is not replaced |
| LobbyProperties.JoinFreeSlot | main.go:177-188 | otherwise the slot becomes the user's: `<@U> joined!`, `button-leave-i`, value = user. The list the handler counts is the old list with the user appended |
| LobbyProperties.JoinOccupants | main.go:177-188 | after a join, the occupants of the new slots are the old occupants plus the newcomer (same multiset as the handler's list), one more than before |
| LobbyProperties.LeaveOthersSlotRefused | main.go:191-202 | clicking a slot someone else holds gets the private "can not leave" warning, and the original is not replaced |
| LobbyProperties.LeaveOwnSlot | main.go:204-215 | the owner clicking their slot frees it: `<@U> left!`, `button-join-i`, empty value. The list the handler counts loses its last entry |
| LobbyProperties.LeaveOccupants | main.go:204-215 | after a leave, the occupants of the new slots are the old ones less the leaver, one fewer, and the leaver is no longer among them |
| LobbyProperties.JoinOutcome | main.go:218-246 | a join that brings the count to 4 yields the rally reply and the closed lobby; one that stays below 4 yields the updated lobby, which satisfies the lobby invariant |
| LobbyProperties.JoinKeepsForming | main.go:177-188 | a join that does not fill the lobby preserves the lobby invariant: slots match their values, no player appears twice, the count stays between 1 and 3 |
| LobbyProperties.LeaveOutcome | main.go:204-250 | the last player leaving cancels the game; any other leave yields the updated lobby, which satisfies the lobby invariant. A leave never starts a game |
| LobbyProperties.LeaveKeepsForming | main.go:204-215 | a leave by one of several players preserves the lobby invariant |
| LobbyProperties.ClickKeepsLobby | main.go:218-220 | whatever the click, a lobby that is redisplayed satisfies the invariant, has the same length and text, differs only in the clicked slot, replaces the original and is in-channel |
| LobbyProperties.GameStartsExactlyOnFourthJoin | main.go:222-246 | on a lobby on display, the game starts exactly when a user who does not play yet takes a free slot while three players are in |
| LobbyProperties.GameStartRally | main.go:222-235 | when the game starts, the rally names the collected list followed by the newcomer, in a thread under the clicked message; the posted lobby reads "Enjoy the game! :soccer:", has no slots and replaces the original |
| LobbyProperties.RallyPlayers | main.go:222-228 | the four players the rally names are distinct and are exactly the occupants of the filled lobby |
| LobbyProperties.CancelledExactlyWhenLastLeaves | main.go:247-250 | on a lobby on display, the lobby is closed without slots exactly when the only player leaves, and it then reads "This game has been cancelled!" |
| LobbyProperties.DroppedOnlyWithoutAction | main.go:126-147 | on a lobby on display, a click is dropped exactly when it carries no action, and gets the 500 exactly when its name is not one of the eight button names; every other click gets a reply |
| LobbyProperties.DroppedOnlyForMalformedRequests | main.go:126-215 | for any message, a request is dropped only when it has no action, its slot lies past the end of the message, or its user id is empty |
| LobbyProperties.ClickedKindIgnored | main.go:156-157 | two clicks naming the same slot have the same effect, whatever kind of button the clicked name says |
| LobbyProperties.OnlyClickedSlotWritten | main.go:218-220 | for any message, a redisplayed lobby is the original with only the clicked slot rewritten, and every non-replacing reply is one of the two warnings |
| Scenarios.U2Joins | main.go:177-220 | U2 joining slot 1 of U1's new lobby redisplays it with players U1, U2 |
| Scenarios.U3Joins | main.go:177-220 | U3 joining slot 2 next redisplays it with players U1, U2, U3 |
| Scenarios.FourPlayersStartTheGame | main.go:222-246 | U4 joining slot 3 starts the game with "<@U1>, <@U2>, <@U3>, <@U4> GO GO GO!" and a closed lobby |
| Scenarios.CreatorLeavingCancels | main.go:247-250 | the creator leaving a new lobby cancels it |
| Scenarios.CreatorCannotJoinTwice | main.go:158-175 | the creator clicking a free slot of their own lobby is refused |
| Scenarios.RallyListsNewcomerLast | main.go:222-228 | U2 filling slot 1 after U1, U3, U4 hold slots 0, 2, 3 gets "<@U1>, <@U3>, <@U4>, <@U2> GO GO GO!", which is not slot order |

## Left out

- HTTP routing and server start-up (main.go:17-21): I/O.
- Request parsing with `slack.SlashCommandParse` (main.go:24) and `json.Unmarshal` of the payload (main.go:116): foreign library calls. A request that fails to parse is a 500 in the code. The model starts from the parsed command or callback.
- JSON encoding of responses, response headers and status codes (main.go:100-106, 166-168, 198-200, 233-235, 252-254): responses are returned as `Response` values. A failing `json.Marshal` (main.go:100-104, 237-240) is not modelled, because marshalling these plain structs does not fail.
- The `http.Post` of the closed lobby to the response URL, its logging and its nil-response dereference (main.go:242-245): network I/O. The model returns the message that would be posted as `ReplyAndPost.post`.
- The `ResponseURL` itself and the unused global `slackClient` (main.go:15).
- Presentation-only fields: attachment colour, fallback text, callback id, and button text, type and style.
- Attachments with no button or several buttons: a `Slot` has exactly one button, as every message the bot writes does. With no button, the Go handler panics at `Actions[0]` (main.go:151, 156).
- Interaction.HandleAction: the Go loop writes the warning once per occurrence of the user in the list (main.go:159-171). The model returns a single warning. On a lobby on display the user occurs at most once, so the two agree there.
- The race between two users clicking the same free slot with the same stale message: the code has no lock or versioning, and neither does the model.
- Logging of invalid action names (main.go:144), and the log line and stack trace the HTTP server writes when it recovers a panic: a dropped request is modelled by the answer `Dropped` alone.

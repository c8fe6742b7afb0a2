# Muting in the LAN game proxy, and the host's action clock

This project models two small state machines of the flo Warcraft III game service.

**Chat-command muting in the LAN game proxy** (`crates/client/src/lan/game/game.rs`).
The client-side `GameHandler` keeps `muted_players`, a set of slot player ids.
- When the game starts, the handler fills the set from the player's saved mute list.
- Chat commands typed by the local player (`-flo`, `-game`, `-muteall`, `-muteopps`, `-unmuteall`, `-mute[f] [<id>]`, `-unmute[f] [<id>]`, `-stats ...`) change the set and send private lines back. Each command reports whether it was consumed; a command that is not consumed travels on as ordinary chat.
- Every scoped chat message the host relays from a muted sender is dropped before it reaches the local game.

The model has three parts:
- `Text`: the string primitives the handler uses, namely `trim_end` over Unicode White_Space, `str::parse::<u8>`, and the decimal display of ids.
- `ChatCommands`:
  - the candidate lists the handler computes;
  - the command dispatch `ParseCommand`;
  - the whole effect of one command as a value, `Respond` (and `Execute` on an already-parsed command);
  - the rules the handler promises, as lemmas.
- `LanGame`: the handler as a class.
  - Its fields are `muted`, `outbox` and `forwarded`. `outbox` holds the private lines, including the requests to save a mute, as abstract `Notice` values. `forwarded` holds the packets passed on to the game.
  - Its methods are proved equal to the functional specification.
  - Lemmas cover the incoming filter and how it combines with the commands.

**The action tick clock on the game host** (`crates/node/src/game/host/clock.rs`).
`ActionTickStream` emits a tick once every step duration unless it is paused. The step duration is `step` milliseconds, except after a `set_step` whose value was clamped (see below). Each tick carries the time increment and every player action buffered since the last tick.

In the model, time is an integer count of milliseconds passed as `now`, and the tokio sleep is its deadline. `ActionClock.Clock` is the state as a value, and `Start`, `Restep`, `Push`, `Replace`, `PauseAt`, `ResumeAt` and `PollAt` are its operations. The class `ActionClock.ActionTickStream` performs them in place, and each method is proved to equal its function. Lemmas state:
- the pause/resume rules;
- when a poll fires;
- what a tick carries;
- over runs of adds and polls, that every action is delivered exactly once and in order, and that deadlines do not drift.

The `set_step` behaviour is modelled as written: the step is clamped to [15, 250], but the step duration and the next deadline use the unclamped value (`RestepRules`, `RestepDurationDiffers`). The constructor raises a step below 15 but has no upper clamp (`StartRules`).

## Model

| member | source | states |
|---|---|---|
| `Text.TrimEnd` | crates/client/src/lan/game/game.rs:550 | the result is a prefix of the input, ends in a non-whitespace character or is empty, and every character dropped is whitespace |
| `Text.TrimEndKeepsPrefix` | crates/client/src/lan/game/game.rs:650 | trimming keeps any prefix that ends in a non-whitespace character, so a command starting with "mute" or "unmute" still does after `trim_end` |
| `Text.ParseU8` | crates/client/src/lan/game/game.rs:588 | a successful parse comes from a nonempty string of digits, optionally led by '+', with no surrounding whitespace |
| `Text.Decimal` | crates/client/src/lan/game/game.rs:576 | the ` ID=<id>` display of an id is a nonempty digit string whose value is the id |
| `Text.ParseDecimal` | crates/client/src/lan/game/game.rs:688 | every displayed id parses back to itself, with or without a leading '+' |
| `Text.ParseRejectsOverflow` | crates/client/src/lan/game/game.rs:588 | a digit string worth 256 or more is a parse error, not a wrapped value |
| `ChatCommands.OthersIds` | crates/client/src/lan/game/game.rs:296-307 | an id is a `muteall` target exactly when it is listed and is not the local player's |
| `ChatCommands.OpponentIds` | crates/client/src/lan/game/game.rs:315-330 | an id is a `muteopps` target exactly when it is not the local player's and some entry for it sits on a slot of another team |
| `ChatCommands.MuteCandidates` | crates/client/src/lan/game/game.rs:533-548 | the bare `mute` candidates are exactly the table entries that are neither the local player nor already muted |
| `ChatCommands.MuteCandidatesCounts` | crates/client/src/lan/game/game.rs:533-548 | each entry that is neither the local player nor muted is a candidate as many times as it is in the table, and no other entry is |
| `ChatCommands.MuteCandidatesNone` | crates/client/src/lan/game/game.rs:533-548 | with no such entry the candidate list is empty |
| `ChatCommands.MuteCandidatesSingle` | crates/client/src/lan/game/game.rs:533-548 | when the entry at one position is the only such entry, it is the whole candidate list |
| `ChatCommands.MuteCandidatesSeveral` | crates/client/src/lan/game/game.rs:533-548 | two such entries at different positions give at least two candidates |
| `ChatCommands.FindPlayer` | crates/client/src/lan/game/game.rs:598-603 | `find` succeeds exactly when the id is listed, and returns an entry of the table with that id |
| `ChatCommands.FindPlayerFindsFirst` | crates/client/src/lan/game/game.rs:598-603 | the entry `find` returns is the first one with that id |
| `ChatCommands.UnmuteCandidates` | crates/client/src/lan/game/game.rs:632-648 | every `unmute` candidate is a muted id other than the local player's |
| `ChatCommands.UnmuteCandidatesAscending` | crates/client/src/lan/game/game.rs:632-636 | candidates come in the ascending order of the muted set, so no id appears twice |
| `ChatCommands.UnmuteCandidatesAreFirstEntries` | crates/client/src/lan/game/game.rs:640-647 | each candidate is the first table entry for a muted, listed id that is not the local player's |
| `ChatCommands.UnmuteCandidatesComplete` | crates/client/src/lan/game/game.rs:632-648 | every muted, listed id other than the local player's has a candidate |
| `ChatCommands.UnmuteCandidateIffUnmutable` | crates/client/src/lan/game/game.rs:688-693 | an id is found among the `unmute` candidates exactly when it is muted, listed and not the local player's |
| `ChatCommands.ParseCommand` | crates/client/src/lan/game/game.rs:253-726 | the dispatch yields ordinary chat exactly when the text is none of the five command words and starts with none of "stats", "mute" and "unmute"; a mute form starts with "mute", an unmute form with "unmute", and `muteopps` is chosen exactly for that word |
| `ChatCommands.ExecuteConsumesCommands` | crates/client/src/lan/game/game.rs:721-726 | every parsed command except ordinary chat is consumed, and ordinary chat changes nothing |
| `ChatCommands.ConsumedIffRecognised` | crates/client/src/lan/game/game.rs:721-726 | a command is consumed exactly when it is recognised; an unrecognised one leaves the set unchanged and sends nothing |
| `ChatCommands.MuteAllMutesEveryoneElse` | crates/client/src/lan/game/game.rs:295-313 | `muteall` keeps the muted ids and adds exactly the listed players other than the local one |
| `ChatCommands.MuteOppsMutesOpponents` | crates/client/src/lan/game/game.rs:314-336 | `muteopps` keeps the muted ids and adds exactly the listed non-local players on another team |
| `ChatCommands.UnmuteAllClears` | crates/client/src/lan/game/game.rs:337-343 | `unmuteall` empties the set |
| `ChatCommands.BareMuteNeedsOneCandidate` | crates/client/src/lan/game/game.rs:550-580 | bare `mute`/`mutef` inserts the one candidate when there is exactly one, and otherwise leaves the set unchanged |
| `ChatCommands.BareMuteByTable` | crates/client/src/lan/game/game.rs:550-580 | bare `mute`/`mutef` mutes and confirms the player at the only table position that is neither the local player nor muted; with no such position, or two, the set is unchanged |
| `ChatCommands.MuteByIdRules` | crates/client/src/lan/game/game.rs:581-622 | `mute <id>`: the local player's id is refused with "You cannot mute yourself.", a listed id is inserted, and an unknown id leaves the set unchanged and lists the candidates |
| `ChatCommands.BadIdIsSyntaxError` | crates/client/src/lan/game/game.rs:623-628 | an argument that is not a u8 leaves the set unchanged and reports the syntax error, for both `mute` and `unmute` |
| `ChatCommands.UnmuteByIdRules` | crates/client/src/lan/game/game.rs:681-712 | `unmute <id>` removes the id exactly when it is muted, listed and not the local player's, and otherwise leaves the set unchanged |
| `ChatCommands.BareUnmuteNeedsOneCandidate` | crates/client/src/lan/game/game.rs:650-680 | bare `unmute`/`unmutef` removes the one unmutable id when there is exactly one, and otherwise leaves the set unchanged |
| `ChatCommands.NeverMutesSelf` | crates/client/src/lan/game/game.rs:253-727 | no command puts the local player's own id into the set |
| `ChatCommands.OnlyListedPlayersGetMuted` | crates/client/src/lan/game/game.rs:253-727 | every id a command adds is a listed player other than the local one, and the unmute forms only remove |
| `ChatCommands.MuteWithArgument` | crates/client/src/lan/game/game.rs:581-588 | `mute <arg>` and `mutef <arg>` pass exactly `arg` to the id parser |
| `ChatCommands.UnmuteWithArgument` | crates/client/src/lan/game/game.rs:681-688 | `unmute <arg>` and `unmutef <arg>` pass exactly `arg` to the id parser |
| `ChatCommands.MuteIdParsesBack` | crates/client/src/lan/game/game.rs:573-588 | typing `mute`/`mutef` and an id the handler lists gives a mute of exactly that id |
| `ChatCommands.UnmuteIdParsesBack` | crates/client/src/lan/game/game.rs:673-688 | typing `unmute`/`unmutef` and an id the handler lists gives an unmute of exactly that id |
| `LanGame.AutoMutedIdsExactly` | crates/client/src/lan/game/game.rs:87-91 | the startup loop mutes exactly the slot ids of the entries whose player id is on the mute list |
| `LanGame.OnListIndicesExactly` | crates/client/src/lan/game/game.rs:87-88 | the table positions the startup loop acts on are in strictly ascending order, each is on the mute list, and every position on the list is among them |
| `LanGame.AutoMutedNamesAtIndices` | crates/client/src/lan/game/game.rs:87-89 | the k-th "Auto muted" name is the name of the entry at the k-th position on the mute list |
| `LanGame.AutoMutedNamesExactly` | crates/client/src/lan/game/game.rs:84-102 | the "Auto muted" names are the names of the entries on the mute list, one per entry and in table order; every such entry's name is among them, and there are none exactly when nobody is on the list |
| `LanGame.AutoMutedAreSilenced` | crates/client/src/lan/game/game.rs:87-91 | after the startup loop, a scoped chat from anybody on the mute list is dropped, and the "Auto muted" line is sent |
| `LanGame.RouteRules` | crates/client/src/lan/game/game.rs:177-202 | for the filter `Route`: it drops exactly the scoped messages of muted senders; an undecodable chat packet is an error only while somebody is muted; other packets always pass |
| `LanGame.RouteMonotone` | crates/client/src/lan/game/game.rs:181-193 | muting more ids never lets more chat through |
| `LanGame.UnmuteAllForwardsEverything` | crates/client/src/lan/game/game.rs:337-343 | after `unmuteall` every packet is passed on |
| `LanGame.MuteByIdSilences` | crates/client/src/lan/game/game.rs:588-610 | after `mute <id>` of a listed player other than the local one, that player's scoped chat is dropped |
| `LanGame.GameHandler.constructor` | crates/client/src/lan/game/game.rs:69 | the handler starts with nobody muted |
| `LanGame.GameHandler.SeedAutoMutes` | crates/client/src/lan/game/game.rs:84-102 | the loop adds the auto-muted ids to the set and sends the "Auto muted" line when there is one |
| `LanGame.GameHandler.HandleChatCommand` | crates/client/src/lan/game/game.rs:253-727 | the consumed flag, new set and lines sent are those of `Respond`; no packet is forwarded |
| `LanGame.GameHandler.Apply` | crates/client/src/lan/game/game.rs:254-726 | each arm's effect on the set and the lines sent is that of `Execute` |
| `LanGame.GameHandler.ApplyMute` | crates/client/src/lan/game/game.rs:532-630 | the `mute` arm does what `RespondMute` specifies |
| `LanGame.GameHandler.ApplyUnmute` | crates/client/src/lan/game/game.rs:631-720 | the `unmute` arm does what `RespondUnmute` specifies |
| `LanGame.GameHandler.HandleIncoming` | crates/client/src/lan/game/game.rs:177-202 | a packet is passed on exactly when `Route` says so; the set and the lines sent do not change |
| `ActionClock.TickIncrement` | crates/node/src/game/host/clock.rs:104-110 | the increment is the step plus the lateness modulo 2^16, and exactly their sum when that fits in a u16 |
| `ActionClock.ActionTickStream.constructor` | crates/node/src/game/host/clock.rs:26-38 | the new stream is `Start(step, now)` |
| `ActionClock.ActionTickStream.SetStep` | crates/node/src/game/host/clock.rs:40-47 | `set_step` yields `Restep` of the old state |
| `ActionClock.ActionTickStream.Step` | crates/node/src/game/host/clock.rs:49-51 | returns the current step |
| `ActionClock.ActionTickStream.AddAction` | crates/node/src/game/host/clock.rs:53-55 | `add_action` yields `Push` of the old state |
| `ActionClock.ActionTickStream.ReplaceActions` | crates/node/src/game/host/clock.rs:57-59 | `replace_actions` yields `Replace` of the old state |
| `ActionClock.ActionTickStream.Pause` | crates/node/src/game/host/clock.rs:61-64 | `pause` yields `PauseAt` of the old state |
| `ActionClock.ActionTickStream.IsPaused` | crates/node/src/game/host/clock.rs:66-70 | returns the paused flag |
| `ActionClock.ActionTickStream.Resume` | crates/node/src/game/host/clock.rs:72-79 | `resume` yields `ResumeAt` of the old state |
| `ActionClock.ActionTickStream.PollNext` | crates/node/src/game/host/clock.rs:91-114 | the tick (or pending) and the new state are those of `PollAt` |
| `ActionClock.StartRules` | crates/node/src/game/host/clock.rs:26-38 | `new(s)` has step max(15, s) with no upper clamp, a matching duration, a first deadline one step away, not paused, empty buffer |
| `ActionClock.RestepRules` | crates/node/src/game/host/clock.rs:40-47 | after `set_step(v)`: 15 <= step <= 250 and step = min(250, max(15, v)); duration = v; deadline = now + v; nothing else changes |
| `ActionClock.RestepDurationDiffers` | crates/node/src/game/host/clock.rs:41-42 | the duration differs from the step exactly when `v` was clamped |
| `ActionClock.OperationsKeepStepValid` | crates/node/src/game/host/clock.rs:23-47 | every operation keeps the step at or above the minimum |
| `ActionClock.BufferRules` | crates/node/src/game/host/clock.rs:53-59 | `add_action` appends after the earlier actions in order; `replace_actions` makes the buffer exactly the new list |
| `ActionClock.PausedClockNeverTicks` | crates/node/src/game/host/clock.rs:61-97 | `pause` sets the flag and `resume` clears it; a paused clock is pending and unchanged however late it is polled |
| `ActionClock.PollFiresIff` | crates/node/src/game/host/clock.rs:91-100 | a poll yields a tick exactly when the clock runs and the deadline has passed, and otherwise changes nothing |
| `ActionClock.TickRules` | crates/node/src/game/host/clock.rs:100-113 | a tick carries the whole buffer and empties it; its increment is step + lateness; the next deadline is the old deadline plus one duration |
| `ActionClock.ResumeWaitsOneDuration` | crates/node/src/game/host/clock.rs:72-79 | after `resume` the next tick comes exactly one step duration later |
| `ActionClock.LatePollCatchesUp` | crates/node/src/game/host/clock.rs:102-107 | because deadlines are measured from the old deadline, a poll more than one duration late is followed at once by another tick |
| `ActionClock.ActionsDeliveredOnce` | crates/node/src/game/host/clock.rs:53-111 | over any run of adds and polls, the ticks' actions followed by the buffer equal the starting buffer followed by every action added: each is delivered once, in order |
| `ActionClock.NoDrift` | crates/node/src/game/host/clock.rs:106-107 | over any run of adds and polls, after k ticks the deadline is exactly k durations past the start, whatever the poll times |
| `ActionClock.PausedRunEmitsNothing` | crates/node/src/game/host/clock.rs:92-97 | a paused clock emits no tick over any run of adds and polls, and only its buffer grows |

## Left out

- `GameHandler::run`'s `select!` loop, the ping interval, the stream sends and receives, `handle_game_status_change` and the leave handling are asynchronous I/O and are not modelled. The mute list that `run` requests from the controller is a parameter of `SeedAutoMutes`; an empty list stands for a failed request.
- `handle_game_packet` is not modelled. It calls `handle_chat_command` and drops a consumed command's packet. `parse_chat_command` and packet decoding (`decode_simple`, `from_player`) are not part of this model. The command text and the packet's sender and scope are inputs.
- The text of the private lines is not modelled. `send_chats_to_self` outside the `stats` arm is recorded as abstract `Notice` values; the `stats` arm sends nothing in the model (see the `stats` line below). The help text and the game summary of `flo` and `game` are single constants.
- `save_mute`'s controller request and its "forever"/"temporary" follow-up line run in a spawned task. The model records the request as a `SaveMute` notice; the outcome is not modelled.
- `stats` calls an external statistics service. The model treats every `stats...` command as consumed, with the set unchanged and no lines sent: neither the statistics output (`send_stats_to_self`) nor the arm's own fallback lines listing the ids to ask about are recorded.
- The `blacklist` commands and the blacklist lookup in `run` exist only in builds with that feature, and they do file I/O. The model is of the default build, where such commands are ordinary chat.
- `ChatCommands.Execute`, `ChatCommands.Respond` and `LanGame.GameHandler.HandleChatCommand` assume, for `muteopps` only (`CanExecute`, `CanRespond`), that the slot index of every entry other than the local player's own names a slot of the game. The source skips the own entry before it indexes the game's slots, and panics on any other index out of range; the model does not model that panic. The `stats` forms index the slots too, but they are modelled without effect, so no assumption is made for them.
- `ChatCommands.ParseCommand` requires `ArgumentOnCharBoundary`. The source slices the command at a byte offset and panics when that offset is not a character boundary; the model leaves that panic out through the precondition.
- `ActionClock.TickIncrement` follows a release build: the lateness is truncated to 16 bits and the addition wraps. A debug build panics on the overflow instead.
- The run lemmas `ActionsDeliveredOnce`, `NoDrift` and `PausedRunEmitsNothing` cover runs of `add_action` and polls only. `replace_actions` discards buffered actions, and `pause`, `resume` and `set_step` move the deadline, so neither the exactly-once delivery nor the no-drift statement holds across them.
- The clock's `Waker`, `Sleep` and `Instant` mechanics are not modelled, nor is the `resume_waker` a paused poll registers. Time is whole milliseconds passed in as `now`, the sleep is its deadline, and "pending" is a poll that returns `None`.
- crates/lobby/src/game/mod.rs is not part of this model. It is asynchronous orchestration over locks and a database, and its state changes live in modules not shown.
- binaries/flo-cli/src/client.rs is not part of this model. It is command-line plumbing.

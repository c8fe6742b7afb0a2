/** The chat commands a player types into the LAN game ("-mute 3", "-muteall", ...),
    as `GameHandler::handle_chat_command` in crates/client/src/lan/game/game.rs reads them.

    The only state a command changes is the set of muted slot player ids; everything else
    it does is send private chat lines back to the local player, which this module records
    as abstract `Notice` values. `Respond` is the whole behaviour of one command as a value;
    the lemmas at the end state the rules the handler promises. */
module ChatCommands {
  import opened Wrappers
  import opened Text

  /** One entry of `slot_info.player_infos`. */
  datatype PlayerInfo = PlayerInfo(slotPlayerId: u8, name: string, playerId: int, slotIndex: nat)

  /** What the handler reads of `LanGameInfo`: the player table, the team of every game
      slot (`game.slots[i].settings.team`), and the local player's own slot id and team. */
  datatype SlotInfo = SlotInfo(players: seq<PlayerInfo>, slotTeams: seq<int>, mySlotPlayerId: u8, myTeam: int)
  {
    /** Every other player's slot index names a game slot (the source indexes `game.slots`
        with it once the local player's own entry has been skipped). */
    predicate Valid() {
      SlotIndicesValid(players, slotTeams, mySlotPlayerId)
    }
  }

  predicate Listed(ps: seq<PlayerInfo>, id: u8) {
    exists i :: 0 <= i < |ps| && ps[i].slotPlayerId == id
  }

  predicate SlotIndicesValid(ps: seq<PlayerInfo>, teams: seq<int>, me: u8) {
    forall i :: 0 <= i < |ps| && ps[i].slotPlayerId != me ==> ps[i].slotIndex < |teams|
  }

  /** `id` is not the local player's, and some entry for it sits in a slot whose team is
      not the local player's team. */
  predicate ListedAsOpponent(ps: seq<PlayerInfo>, teams: seq<int>, me: u8, id: u8, myTeam: int)
    requires SlotIndicesValid(ps, teams, me)
  {
    exists i :: 0 <= i < |ps| && ps[i].slotPlayerId == id && id != me && teams[ps[i].slotIndex] != myTeam
  }

  /** An id that the `unmute` forms may act on: muted, not the local player, and listed. */
  predicate Unmutable(muted: set<u8>, ps: seq<PlayerInfo>, me: u8, id: u8) {
    id in muted && id != me && Listed(ps, id)
  }

  function SetOf(s: seq<u8>): set<u8> {
    set x | x in s
  }

  // ---------------------------------------------------------------------------------
  // The target lists the handler computes with `filter_map` / `find` over the tables.

  /** The `muteall` targets: the slot id of every listed player except the local one. */
  function OthersIds(ps: seq<PlayerInfo>, me: u8): (r: seq<u8>)
    ensures forall id :: id in r <==> id != me && Listed(ps, id)
  {
    if ps == [] then []
    else
      var rest := OthersIds(ps[1..], me);
      assert forall id :: Listed(ps, id) <==> ps[0].slotPlayerId == id || Listed(ps[1..], id) by {
        forall id | Listed(ps[1..], id) ensures Listed(ps, id) {
          var i :| 0 <= i < |ps[1..]| && ps[1..][i].slotPlayerId == id;
          assert ps[i + 1].slotPlayerId == id;
        }
      }
      (if ps[0].slotPlayerId == me then [] else [ps[0].slotPlayerId]) + rest
  }

  /** The `muteopps` targets: the slot id of every listed player other than the local one
      whose game slot is on a different team. */
  function OpponentIds(ps: seq<PlayerInfo>, teams: seq<int>, me: u8, myTeam: int): (r: seq<u8>)
    requires SlotIndicesValid(ps, teams, me)
    ensures forall id :: id in r <==> ListedAsOpponent(ps, teams, me, id, myTeam)
  {
    if ps == [] then []
    else
      var rest := OpponentIds(ps[1..], teams, me, myTeam);
      assert forall id :: ListedAsOpponent(ps, teams, me, id, myTeam) <==>
          (ps[0].slotPlayerId == id && id != me && teams[ps[0].slotIndex] != myTeam) || ListedAsOpponent(ps[1..], teams, me, id, myTeam) by {
        forall id | ListedAsOpponent(ps[1..], teams, me, id, myTeam) ensures ListedAsOpponent(ps, teams, me, id, myTeam) {
          var i :| 0 <= i < |ps[1..]| && ps[1..][i].slotPlayerId == id && id != me && teams[ps[1..][i].slotIndex] != myTeam;
          assert ps[i + 1] == ps[1..][i];
        }
      }
      (if ps[0].slotPlayerId == me || teams[ps[0].slotIndex] == myTeam then [] else [ps[0].slotPlayerId]) + rest
  }

  /** The bare `mute` candidates: every entry, in table order, that is neither the local
      player nor already muted. */
  function MuteCandidates(ps: seq<PlayerInfo>, me: u8, muted: set<u8>): (r: seq<PlayerInfo>)
    ensures forall p :: p in r <==> p in ps && p.slotPlayerId != me && p.slotPlayerId !in muted
    ensures |r| <= |ps|
  {
    if ps == [] then []
    else
      var rest := MuteCandidates(ps[1..], me, muted);
      assert forall p :: p in ps <==> p == ps[0] || p in ps[1..];
      (if ps[0].slotPlayerId == me || ps[0].slotPlayerId in muted then [] else [ps[0]]) + rest
  }

  /** An entry the bare `mute` may pick: neither the local player nor already muted. */
  predicate Mutable(muted: set<u8>, me: u8, p: PlayerInfo) {
    p.slotPlayerId != me && p.slotPlayerId !in muted
  }

  /** The candidates hold every mutable entry as often as the table does, and nothing else. */
  lemma {:induction false} MuteCandidatesCounts(ps: seq<PlayerInfo>, me: u8, muted: set<u8>)
    ensures forall p :: multiset(MuteCandidates(ps, me, muted))[p] == if Mutable(muted, me, p) then multiset(ps)[p] else 0
  {
    if ps != [] {
      MuteCandidatesCounts(ps[1..], me, muted);
      assert ps == [ps[0]] + ps[1..];
    }
  }

  /** With no mutable entry there is no candidate. */
  lemma {:induction false} MuteCandidatesNone(ps: seq<PlayerInfo>, me: u8, muted: set<u8>)
    requires forall k :: 0 <= k < |ps| ==> !Mutable(muted, me, ps[k])
    ensures MuteCandidates(ps, me, muted) == []
  {
    if ps != [] {
      forall k | 0 <= k < |ps[1..]| ensures !Mutable(muted, me, ps[1..][k]) {
        assert ps[1..][k] == ps[k + 1];
      }
      MuteCandidatesNone(ps[1..], me, muted);
    }
  }

  /** When the entry at `i` is the only mutable one, it is the whole candidate list. */
  lemma {:induction false} MuteCandidatesSingle(ps: seq<PlayerInfo>, me: u8, muted: set<u8>, i: nat)
    requires i < |ps| && Mutable(muted, me, ps[i])
    requires forall j :: 0 <= j < |ps| && j != i ==> !Mutable(muted, me, ps[j])
    ensures MuteCandidates(ps, me, muted) == [ps[i]]
  {
    if i == 0 {
      forall k | 0 <= k < |ps[1..]| ensures !Mutable(muted, me, ps[1..][k]) {
        assert ps[1..][k] == ps[k + 1];
      }
      MuteCandidatesNone(ps[1..], me, muted);
    } else {
      forall j | 0 <= j < |ps[1..]| && j != i - 1 ensures !Mutable(muted, me, ps[1..][j]) {
        assert ps[1..][j] == ps[j + 1];
      }
      MuteCandidatesSingle(ps[1..], me, muted, i - 1);
    }
  }

  /** Two mutable entries at different positions give at least two candidates. */
  lemma {:induction false} MuteCandidatesSeveral(ps: seq<PlayerInfo>, me: u8, muted: set<u8>, i: nat, j: nat)
    requires i < j < |ps| && Mutable(muted, me, ps[i]) && Mutable(muted, me, ps[j])
    ensures |MuteCandidates(ps, me, muted)| >= 2
  {
    if i == 0 {
      assert ps[1..][j - 1] == ps[j];
      assert ps[j] in MuteCandidates(ps[1..], me, muted);
    } else {
      assert ps[1..][i - 1] == ps[i] && ps[1..][j - 1] == ps[j];
      MuteCandidatesSeveral(ps[1..], me, muted, i - 1, j - 1);
    }
  }

  /** `iter().find(|info| info.slot_player_id == id)`: the first entry for `id`. */
  function FindPlayer(ps: seq<PlayerInfo>, id: u8): (r: Option<PlayerInfo>)
    ensures r.Some? <==> Listed(ps, id)
    ensures r.Some? ==> r.value in ps && r.value.slotPlayerId == id
  {
    if ps == [] then None
    else if ps[0].slotPlayerId == id then Some(ps[0])
    else
      assert Listed(ps, id) ==> Listed(ps[1..], id) by {
        if Listed(ps, id) {
          var i :| 0 <= i < |ps| && ps[i].slotPlayerId == id;
          assert ps[1..][i - 1].slotPlayerId == id;
        }
      }
      FindPlayer(ps[1..], id)
  }

  /** The entry `FindPlayer` returns is the first one for that id, so its name and
      player id are those of the earliest entry in the table. */
  lemma {:induction false} FindPlayerFindsFirst(ps: seq<PlayerInfo>, id: u8)
    requires Listed(ps, id)
    ensures exists i :: 0 <= i < |ps| && Some(ps[i]) == FindPlayer(ps, id)
                        && forall j :: 0 <= j < i ==> ps[j].slotPlayerId != id
  {
    if ps[0].slotPlayerId != id {
      FindPlayerFindsFirst(ps[1..], id);
      var i :| 0 <= i < |ps[1..]| && Some(ps[1..][i]) == FindPlayer(ps[1..], id)
               && forall j :: 0 <= j < i ==> ps[1..][j].slotPlayerId != id;
      assert ps[i + 1] == ps[1..][i];
      forall j | 1 <= j < i + 1 ensures ps[j].slotPlayerId != id {
        assert ps[j] == ps[1..][j - 1];
      }
    } else {
      assert Some(ps[0]) == FindPlayer(ps, id);
    }
  }

  /** The `unmute` candidates: walking the muted ids in ascending order (the iteration order
      of the source's `BTreeSet`) from `lo` on, the first table entry of every id that is
      not the local player's and is listed. */
  function UnmuteCandidates(muted: set<u8>, ps: seq<PlayerInfo>, me: u8, lo: nat): (r: seq<PlayerInfo>)
    decreases 0x100 - lo
    ensures forall i :: 0 <= i < |r| ==> lo <= r[i].slotPlayerId
    ensures forall i :: 0 <= i < |r| ==> r[i].slotPlayerId in muted && r[i].slotPlayerId != me
  {
    if lo >= 0x100 then []
    else
      var id := lo as u8;
      var rest := UnmuteCandidates(muted, ps, me, lo + 1);
      var found := FindPlayer(ps, id);
      if id in muted && id != me && found.Some? then [found.value] + rest else rest
  }

  /** Strictly ascending ids, so no id twice. */
  predicate Ascending(r: seq<PlayerInfo>) {
    forall i, j :: 0 <= i < j < |r| ==> r[i].slotPlayerId < r[j].slotPlayerId
  }

  /** The candidates come in the ascending order of the muted set, so no id is listed twice. */
  lemma {:induction false} UnmuteCandidatesAscending(muted: set<u8>, ps: seq<PlayerInfo>, me: u8, lo: nat)
    ensures Ascending(UnmuteCandidates(muted, ps, me, lo))
    decreases 0x100 - lo
  {
    if lo < 0x100 {
      UnmuteCandidatesAscending(muted, ps, me, lo + 1);
      var r := UnmuteCandidates(muted, ps, me, lo);
      var rest := UnmuteCandidates(muted, ps, me, lo + 1);
      if r != rest {
        var found := FindPlayer(ps, lo as u8);
        assert found.Some? && r == [found.value] + rest;
        assert r[0].slotPlayerId == lo;
        forall i, j | 0 <= i < j < |r|
          ensures r[i].slotPlayerId < r[j].slotPlayerId
        {
          assert r[j] == rest[j - 1];
          if i > 0 { assert r[i] == rest[i - 1]; }
        }
      }
    }
  }

  /** Each candidate is the first table entry for its id, so the name and player id
      an `unmute` reports are those `find` returns. */
  lemma {:induction false} UnmuteCandidatesAreFirstEntries(muted: set<u8>, ps: seq<PlayerInfo>, me: u8, lo: nat, i: nat)
    requires i < |UnmuteCandidates(muted, ps, me, lo)|
    ensures var c := UnmuteCandidates(muted, ps, me, lo);
      FindPlayer(ps, c[i].slotPlayerId) == Some(c[i]) && Unmutable(muted, ps, me, c[i].slotPlayerId)
    decreases 0x100 - lo
  {
    var c := UnmuteCandidates(muted, ps, me, lo);
    var rest := UnmuteCandidates(muted, ps, me, lo + 1);
    if c == rest {
      UnmuteCandidatesAreFirstEntries(muted, ps, me, lo + 1, i);
    } else if i > 0 {
      assert c[i] == rest[i - 1];
      UnmuteCandidatesAreFirstEntries(muted, ps, me, lo + 1, i - 1);
    }
  }

  /** Every unmutable id from `lo` on has its entry among the candidates. */
  lemma {:induction false} UnmuteCandidatesComplete(muted: set<u8>, ps: seq<PlayerInfo>, me: u8, lo: nat, id: u8)
    requires lo <= id && Unmutable(muted, ps, me, id)
    ensures Listed(UnmuteCandidates(muted, ps, me, lo), id)
    decreases 0x100 - lo
  {
    var r := UnmuteCandidates(muted, ps, me, lo);
    if lo < id {
      UnmuteCandidatesComplete(muted, ps, me, lo + 1, id);
      var rest := UnmuteCandidates(muted, ps, me, lo + 1);
      var i :| 0 <= i < |rest| && rest[i].slotPlayerId == id;
      if r != rest {
        assert r[i + 1] == rest[i];
      }
    } else {
      assert r[0].slotPlayerId == id;
    }
  }

  // ---------------------------------------------------------------------------------
  // Parsing the command text.

  /** The argument of `mute <ID>` / `unmute <ID>` once sliced off. */
  datatype Target = Bare | Id(id: u8) | BadId

  datatype Command =
    | Help                                   // "flo"
    | GameInfo                               // "game"
    | MuteAll                                // "muteall"
    | MuteOpponents                          // "muteopps"
    | UnmuteAll                              // "unmuteall"
    | Stats                                  // anything starting with "stats"
    | Mute(forever: bool, target: Target)    // anything else starting with "mute"
    | Unmute(forever: bool, target: Target)  // anything starting with "unmute"
    | Chat                                   // not a command: forwarded as ordinary chat

  /** The source slices the trimmed command at the byte length of "stats ", "mute ",
      "mutef ", "unmute " or "unmutef "; Rust panics unless that offset falls on a character
      boundary, which is the case exactly when the character right after the command word
      is a single UTF-8 byte. */
  predicate ArgumentOnCharBoundary(raw: string) {
    var t := TrimEnd(raw);
    && ("stats" <= raw && |t| > 5 ==> IsAscii(t[5]))
    && ("mute" <= raw && !("mutef" <= t) && |t| > 4 ==> IsAscii(t[4]))
    && ("mute" <= raw && "mutef" <= t && |t| > 5 ==> IsAscii(t[5]))
    && ("unmute" <= raw && !("unmutef" <= t) && |t| > 6 ==> IsAscii(t[6]))
    && ("unmute" <= raw && "unmutef" <= t && |t| > 7 ==> IsAscii(t[7]))
  }

  /** The words `match cmd.raw()` has an arm for. */
  predicate Recognised(raw: string) {
    raw == "flo" || raw == "game" || raw == "muteall" || raw == "muteopps" || raw == "unmuteall"
    || "stats" <= raw || "mute" <= raw || "unmute" <= raw
  }

  function ArgTarget(arg: string): Target {
    match ParseU8(arg)
    case Some(id) => Id(id)
    case None => BadId
  }

  /** The dispatch of `match cmd.raw()`: five exact words first, then the prefix arms in
      source order ("stats", "mute", "unmute"); the `blacklist` arms exist only in builds with
      that feature, which this model leaves off. */
  function ParseCommand(raw: string): (c: Command)
    requires ArgumentOnCharBoundary(raw)
    ensures c.Chat? <==> !Recognised(raw)
    ensures (c.Mute? ==> "mute" <= raw) && (c.Unmute? ==> "unmute" <= raw)
    ensures c.MuteOpponents? <==> raw == "muteopps"
  {
    if raw == "flo" then Help
    else if raw == "game" then GameInfo
    else if raw == "muteall" then MuteAll
    else if raw == "muteopps" then MuteOpponents
    else if raw == "unmuteall" then UnmuteAll
    else if "stats" <= raw then Stats
    else if "mute" <= raw then
      var t := TrimEnd(raw);
      TrimEndKeepsPrefix(raw, "mute");
      if t == "mute" || t == "mutef" then Mute(t == "mutef", Bare)
      else if "mutef" <= t then Mute(true, ArgTarget(t[6..]))
      else Mute(false, ArgTarget(t[5..]))
    else if "unmute" <= raw then
      var t := TrimEnd(raw);
      TrimEndKeepsPrefix(raw, "unmute");
      if t == "unmute" || t == "unmutef" then Unmute(t == "unmutef", Bare)
      else if "unmutef" <= t then Unmute(true, ArgTarget(t[8..]))
      else Unmute(false, ArgTarget(t[7..]))
    else Chat
  }

  // ---------------------------------------------------------------------------------
  // What a command does.

  /** A private chat line sent to the local player, or a request to persist a mute. */
  datatype Notice =
    | HelpLines                                   // the "-flo" command list
    | GameSummary                                 // game, server and player lines
    | AllPlayersMuted                             // "All players muted."
    | OpponentsMuted                              // "All opponents muted."
    | AllPlayersUnmuted                           // "All players un-muted."
    | SilencedEveryone                            // "You have silenced all the players."
    | Muted(name: string)                         // "Muted: <name>"
    | MuteChoices(players: seq<PlayerInfo>)       // "Type `-mute or -mutef <ID>` ..." + " ID=<id> <name>" lines
    | CannotMuteSelf                              // "You cannot mute yourself."
    | InvalidPlayerId(players: seq<PlayerInfo>)   // "Invalid player id. Players:" + lines
    | InvalidMuteSyntax                           // "Invalid syntax. Example: -mute 1"
    | NothingToUnmute                             // "No player to unmute."
    | Unmuted(name: string)                       // "Un-muted: <name>"
    | UnmuteChoices(players: seq<PlayerInfo>)     // "Type `-unmute <ID>` ..." + lines
    | InvalidMutedId(players: seq<PlayerInfo>)    // "Invalid player id. Muted players:" + lines
    | InvalidUnmuteSyntax                         // "Invalid syntax. Example: -unmute 1"
    | SaveMute(playerId: int, name: string, mute: bool)  // `save_mute`: the MutePlayer/UnmutePlayer request
    | AutoMuted(names: seq<string>)               // "Auto muted: <names>"

  datatype Response = Response(consumed: bool, muted: set<u8>, notices: seq<Notice>)

  /** `mutef` persists the mute through the controller; `mute` only confirms it. */
  function MuteConfirmation(forever: bool, p: PlayerInfo): Notice {
    if forever then SaveMute(p.playerId, p.name, true) else Muted(p.name)
  }

  function UnmuteConfirmation(forever: bool, p: PlayerInfo): Notice {
    if forever then SaveMute(p.playerId, p.name, false) else Unmuted(p.name)
  }

  /** The `mute` / `mutef` arm. */
  function RespondMute(info: SlotInfo, muted: set<u8>, forever: bool, target: Target): Response {
    var me := info.mySlotPlayerId;
    var c := MuteCandidates(info.players, me, muted);
    match target
    case Bare =>
      if |c| == 0 then Response(true, muted, [SilencedEveryone])
      else if |c| == 1 then Response(true, muted + {c[0].slotPlayerId}, [MuteConfirmation(forever, c[0])])
      else Response(true, muted, [MuteChoices(c)])
    case Id(id) =>
      if id == me then Response(true, muted, [CannotMuteSelf])
      else
        (match FindPlayer(info.players, id)
         case Some(p) => Response(true, muted + {id}, [MuteConfirmation(forever, p)])
         case None => Response(true, muted, [InvalidPlayerId(c)]))
    case BadId => Response(true, muted, [InvalidMuteSyntax])
  }

  /** The `unmute` / `unmutef` arm. */
  function RespondUnmute(info: SlotInfo, muted: set<u8>, forever: bool, target: Target): Response {
    var c := UnmuteCandidates(muted, info.players, info.mySlotPlayerId, 0);
    match target
    case Bare =>
      if |c| == 0 then Response(true, muted, [NothingToUnmute])
      else if |c| == 1 then Response(true, muted - {c[0].slotPlayerId}, [UnmuteConfirmation(forever, c[0])])
      else Response(true, muted, [UnmuteChoices(c)])
    case Id(id) =>
      (match FindPlayer(c, id)
       case Some(p) => Response(true, muted - {id}, [UnmuteConfirmation(forever, p)])
       case None => Response(true, muted, [InvalidMutedId(c)]))
    case BadId => Response(true, muted, [InvalidUnmuteSyntax])
  }

  /** `muteopps` reads the team of every player's slot, which panics unless each player's
      slot index names a game slot; no other modelled arm reads the slots. */
  predicate CanExecute(info: SlotInfo, cmd: Command) {
    cmd.MuteOpponents? ==> info.Valid()
  }

  /** The text reaches no panicking slice, and `muteopps` finds every player's slot. */
  predicate CanRespond(info: SlotInfo, raw: string) {
    ArgumentOnCharBoundary(raw) && (raw == "muteopps" ==> info.Valid())
  }

  /** What a parsed command does to the muted set, given the tables. */
  function Execute(info: SlotInfo, muted: set<u8>, cmd: Command): Response
    requires CanExecute(info, cmd)
  {
    var me := info.mySlotPlayerId;
    match cmd
    case Help => Response(true, muted, [HelpLines])
    case GameInfo => Response(true, muted, [GameSummary])
    case MuteAll => Response(true, muted + SetOf(OthersIds(info.players, me)), [AllPlayersMuted])
    case MuteOpponents =>
      Response(true, muted + SetOf(OpponentIds(info.players, info.slotTeams, me, info.myTeam)), [OpponentsMuted])
    case UnmuteAll => Response(true, {}, [AllPlayersUnmuted])
    case Stats => Response(true, muted, [])
    case Mute(forever, target) => RespondMute(info, muted, forever, target)
    case Unmute(forever, target) => RespondUnmute(info, muted, forever, target)
    case Chat => Response(false, muted, [])
  }

  /** One call of `handle_chat_command`: whether the command was consumed (otherwise the
      chat message is forwarded unchanged), the new muted set, and the lines sent back. */
  function Respond(info: SlotInfo, muted: set<u8>, raw: string): Response
    requires CanRespond(info, raw)
  {
    Execute(info, muted, ParseCommand(raw))
  }

  // ---------------------------------------------------------------------------------
  // The rules.

  /** Every parsed command but `Chat` is consumed; `Chat` changes nothing. */
  lemma ExecuteConsumesCommands(info: SlotInfo, muted: set<u8>, cmd: Command)
    requires CanExecute(info, cmd)
    ensures Execute(info, muted, cmd).consumed <==> !cmd.Chat?
    ensures cmd.Chat? ==> Execute(info, muted, cmd) == Response(false, muted, [])
  {
    match cmd
    case Mute(forever, target) =>
      assert Execute(info, muted, cmd) == RespondMute(info, muted, forever, target);
    case Unmute(forever, target) =>
      assert Execute(info, muted, cmd) == RespondUnmute(info, muted, forever, target);
    case _ =>
  }

  /** A command is consumed exactly when it is recognised; anything else is ordinary chat
      and changes nothing. */
  lemma ConsumedIffRecognised(info: SlotInfo, muted: set<u8>, raw: string)
    requires CanRespond(info, raw)
    ensures Respond(info, muted, raw).consumed <==> Recognised(raw)
    ensures !Recognised(raw) ==> Respond(info, muted, raw) == Response(false, muted, [])
  {
    ExecuteConsumesCommands(info, muted, ParseCommand(raw));
  }

  /** `muteall` adds every listed player but the local one and keeps the ids already muted. */
  lemma MuteAllMutesEveryoneElse(info: SlotInfo, muted: set<u8>)
    ensures ArgumentOnCharBoundary("muteall")
    ensures var r := Respond(info, muted, "muteall");
      && r.consumed && r.notices == [AllPlayersMuted]
      && forall id :: id in r.muted <==> id in muted || (id != info.mySlotPlayerId && Listed(info.players, id))
  {
  }

  /** `muteopps` adds exactly the listed non-local players seated on another team. */
  lemma MuteOppsMutesOpponents(info: SlotInfo, muted: set<u8>)
    requires info.Valid()
    ensures ArgumentOnCharBoundary("muteopps")
    ensures var r := Respond(info, muted, "muteopps");
      && r.consumed && r.notices == [OpponentsMuted]
      && forall id :: id in r.muted <==>
           id in muted || ListedAsOpponent(info.players, info.slotTeams, info.mySlotPlayerId, id, info.myTeam)
  {
  }

  /** `unmuteall` empties the set. */
  lemma UnmuteAllClears(info: SlotInfo, muted: set<u8>)
    ensures ArgumentOnCharBoundary("unmuteall")
    ensures Respond(info, muted, "unmuteall") == Response(true, {}, [AllPlayersUnmuted])
  {
  }

  /** Bare `mute` / `mutef` acts only when exactly one entry is neither the local player
      nor muted already, and then mutes that one; otherwise the set is unchanged. */
  lemma BareMuteNeedsOneCandidate(info: SlotInfo, muted: set<u8>, forever: bool)
    ensures var c := MuteCandidates(info.players, info.mySlotPlayerId, muted);
      var r := Execute(info, muted, Mute(forever, Bare));
      && r.consumed
      && (|c| == 1 ==> c[0] in info.players && c[0].slotPlayerId != info.mySlotPlayerId && c[0].slotPlayerId !in muted
                       && r.muted == muted + {c[0].slotPlayerId} && r.notices == [MuteConfirmation(forever, c[0])])
      && (|c| != 1 ==> r.muted == muted)
  {
  }

  /** The bare `mute` rule read off the table itself: with exactly one mutable entry that
      player is muted and confirmed; with none, or with two at different positions, the set
      is unchanged. */
  lemma BareMuteByTable(info: SlotInfo, muted: set<u8>, forever: bool)
    ensures (forall k :: 0 <= k < |info.players| ==> !Mutable(muted, info.mySlotPlayerId, info.players[k])) ==>
      Execute(info, muted, Mute(forever, Bare)).muted == muted
    ensures forall i :: (0 <= i < |info.players| && Mutable(muted, info.mySlotPlayerId, info.players[i]) &&
                         forall j :: 0 <= j < |info.players| && j != i ==> !Mutable(muted, info.mySlotPlayerId, info.players[j])) ==>
      Execute(info, muted, Mute(forever, Bare)) ==
        Response(true, muted + {info.players[i].slotPlayerId}, [MuteConfirmation(forever, info.players[i])])
    ensures forall i, j :: (0 <= i < j < |info.players| &&
                            Mutable(muted, info.mySlotPlayerId, info.players[i]) && Mutable(muted, info.mySlotPlayerId, info.players[j])) ==>
      Execute(info, muted, Mute(forever, Bare)).muted == muted
  {
    var ps, me := info.players, info.mySlotPlayerId;
    BareMuteNeedsOneCandidate(info, muted, forever);
    if forall k :: 0 <= k < |ps| ==> !Mutable(muted, me, ps[k]) {
      MuteCandidatesNone(ps, me, muted);
    }
    forall i | 0 <= i < |ps| && Mutable(muted, me, ps[i]) && (forall j :: 0 <= j < |ps| && j != i ==> !Mutable(muted, me, ps[j]))
      ensures Execute(info, muted, Mute(forever, Bare)) == Response(true, muted + {ps[i].slotPlayerId}, [MuteConfirmation(forever, ps[i])])
    {
      MuteCandidatesSingle(ps, me, muted, i);
    }
    forall i, j | 0 <= i < j < |ps| && Mutable(muted, me, ps[i]) && Mutable(muted, me, ps[j])
      ensures Execute(info, muted, Mute(forever, Bare)).muted == muted
    {
      MuteCandidatesSeveral(ps, me, muted, i, j);
    }
  }

  /** `mute <id>` refuses the local player's id, mutes a listed id, and leaves the set
      unchanged for an id nobody holds. */
  lemma MuteByIdRules(info: SlotInfo, muted: set<u8>, forever: bool, id: u8)
    ensures var r := Execute(info, muted, Mute(forever, Id(id)));
      && r.consumed
      && (id == info.mySlotPlayerId ==> r.muted == muted && r.notices == [CannotMuteSelf])
      && (id != info.mySlotPlayerId && Listed(info.players, id) ==> r.muted == muted + {id})
      && (id != info.mySlotPlayerId && !Listed(info.players, id) ==>
            r.muted == muted && r.notices == [InvalidPlayerId(MuteCandidates(info.players, info.mySlotPlayerId, muted))])
  {
  }

  /** An argument that is not a u8 is a syntax error for both `mute` and `unmute`. */
  lemma BadIdIsSyntaxError(info: SlotInfo, muted: set<u8>, forever: bool)
    ensures Execute(info, muted, Mute(forever, BadId)) == Response(true, muted, [InvalidMuteSyntax])
    ensures Execute(info, muted, Unmute(forever, BadId)) == Response(true, muted, [InvalidUnmuteSyntax])
  {
  }

  /** An id is among the `unmute` candidates exactly when it is unmutable. */
  lemma {:induction false} UnmuteCandidateIffUnmutable(muted: set<u8>, ps: seq<PlayerInfo>, me: u8, id: u8)
    ensures FindPlayer(UnmuteCandidates(muted, ps, me, 0), id).Some? <==> Unmutable(muted, ps, me, id)
  {
    var c := UnmuteCandidates(muted, ps, me, 0);
    if Unmutable(muted, ps, me, id) {
      UnmuteCandidatesComplete(muted, ps, me, 0, id);
    } else if Listed(c, id) {
      var i :| 0 <= i < |c| && c[i].slotPlayerId == id;
      UnmuteCandidatesAreFirstEntries(muted, ps, me, 0, i);
    }
  }

  /** `unmute <id>` removes the id exactly when it is muted, not the local player's, and
      listed; any other id leaves the set unchanged. */
  lemma UnmuteByIdRules(info: SlotInfo, muted: set<u8>, forever: bool, id: u8)
    ensures var r := Execute(info, muted, Unmute(forever, Id(id)));
      && r.consumed
      && (Unmutable(muted, info.players, info.mySlotPlayerId, id) ==> r.muted == muted - {id})
      && (!Unmutable(muted, info.players, info.mySlotPlayerId, id) ==> r.muted == muted)
  {
    var c := UnmuteCandidates(muted, info.players, info.mySlotPlayerId, 0);
    var r := Execute(info, muted, Unmute(forever, Id(id)));
    assert r == RespondUnmute(info, muted, forever, Id(id));
    UnmuteCandidateIffUnmutable(muted, info.players, info.mySlotPlayerId, id);
    if FindPlayer(c, id).Some? {
      assert r.muted == muted - {id};
    } else {
      assert r.muted == muted;
    }
  }

  /** Bare `unmute` / `unmutef` removes the one unmutable id when there is exactly one,
      and changes nothing when there are none or several. */
  lemma BareUnmuteNeedsOneCandidate(info: SlotInfo, muted: set<u8>, forever: bool)
    ensures var c := UnmuteCandidates(muted, info.players, info.mySlotPlayerId, 0);
      var r := Execute(info, muted, Unmute(forever, Bare));
      && r.consumed
      && (|c| == 1 ==> (forall id :: Unmutable(muted, info.players, info.mySlotPlayerId, id) <==> id == c[0].slotPlayerId)
                       && r.muted == muted - {c[0].slotPlayerId})
      && (|c| != 1 ==> r.muted == muted)
  {
    var me := info.mySlotPlayerId;
    var c := UnmuteCandidates(muted, info.players, me, 0);
    assert Execute(info, muted, Unmute(forever, Bare)) == RespondUnmute(info, muted, forever, Bare);
    if |c| == 1 {
      forall id ensures Unmutable(muted, info.players, me, id) <==> id == c[0].slotPlayerId {
        UnmuteCandidateIffUnmutable(muted, info.players, me, id);
        assert c[1..] == [];
      }
    }
  }

  /** No command ever mutes the local player. */
  lemma NeverMutesSelf(info: SlotInfo, muted: set<u8>, cmd: Command)
    requires CanExecute(info, cmd)
    requires info.mySlotPlayerId !in muted
    ensures info.mySlotPlayerId !in Execute(info, muted, cmd).muted
  {
  }

  /** Every id a command adds belongs to a listed player other than the local one, and
      the unmute forms only ever remove. */
  lemma OnlyListedPlayersGetMuted(info: SlotInfo, muted: set<u8>, cmd: Command)
    requires CanExecute(info, cmd)
    ensures var r := Execute(info, muted, cmd);
      forall id :: id in r.muted && id !in muted ==> id != info.mySlotPlayerId && Listed(info.players, id)
    ensures cmd.Unmute? ==> Execute(info, muted, cmd).muted <= muted
  {
    var me := info.mySlotPlayerId;
    match cmd
    case Mute(forever, target) =>
      var c := MuteCandidates(info.players, me, muted);
      if target == Bare && |c| == 1 {
        assert c[0] in info.players;
      }
    case _ =>
  }

  /** `w + d` for a command word `w` and a run of digits `d` is already trimmed, and the
      argument the handler slices off after `w` is `d`. */
  lemma WordThenDigits(w: string, d: string)
    requires d != [] && AllDigits(d)
    ensures TrimEnd(w + d) == w + d && (w + d)[|w|..] == d && (w + d)[..|w|] == w
  {
    assert (w + d)[|w + d| - 1] == d[|d| - 1];
    TrimEndFixesTrimmed(w + d);
  }

  /** None of the five exact command words contains a space. */
  lemma SpacedIsNoExactWord(raw: string)
    requires ' ' in raw
    ensures raw != "flo" && raw != "game" && raw != "muteall" && raw != "muteopps" && raw != "unmuteall"
  {
  }

  /** `mute <arg>` and `mutef <arg>` with an argument that has no trailing whitespace pass
      exactly `arg` to the id parser. */
  lemma MuteWithArgument(forever: bool, arg: string)
    requires arg != [] && !IsWhitespace(arg[|arg| - 1])
    requires ArgumentOnCharBoundary((if forever then "mutef " else "mute ") + arg)
    ensures ParseCommand((if forever then "mutef " else "mute ") + arg) == Mute(forever, ArgTarget(arg))
  {
    var w := if forever then "mutef " else "mute ";
    var raw := w + arg;
    assert raw[|raw| - 1] == arg[|arg| - 1];
    TrimEndFixesTrimmed(raw);
    assert raw[|w| - 1] == ' ';
    SpacedIsNoExactWord(raw);
    assert raw[0] == 'm' && raw[..4] == "mute" && raw[4] == w[4] && raw[..|w|] == w && raw[|w|..] == arg;
    if forever {
      assert raw[..5] == "mutef";
    }
  }

  /** The same for `unmute <arg>` and `unmutef <arg>`. */
  lemma UnmuteWithArgument(forever: bool, arg: string)
    requires arg != [] && !IsWhitespace(arg[|arg| - 1])
    requires ArgumentOnCharBoundary((if forever then "unmutef " else "unmute ") + arg)
    ensures ParseCommand((if forever then "unmutef " else "unmute ") + arg) == Unmute(forever, ArgTarget(arg))
  {
    var w := if forever then "unmutef " else "unmute ";
    var raw := w + arg;
    assert raw[|raw| - 1] == arg[|arg| - 1];
    TrimEndFixesTrimmed(raw);
    assert raw[|w| - 1] == ' ';
    SpacedIsNoExactWord(raw);
    assert raw[0] == 'u' && raw[2] == 'm' && raw[..6] == "unmute" && raw[6] == w[6] && raw[..|w|] == w && raw[|w|..] == arg;
    if forever {
      assert raw[..7] == "unmutef";
    }
  }

  lemma MuteIdOnCharBoundary(id: u8, forever: bool)
    ensures ArgumentOnCharBoundary((if forever then "mutef " else "mute ") + Decimal(id))
  {
    var w := if forever then "mutef " else "mute ";
    var raw := w + Decimal(id);
    WordThenDigits(w, Decimal(id));
    assert raw[0] == 'm' && raw[4] == w[4] && raw[|w| - 1] == ' ';
    assert !("stats" <= raw) && !("unmute" <= raw);
    assert "mute" <= raw && ("mutef" <= raw <==> forever);
  }

  /** The ids the handler lists (" ID=<n> <name>") are accepted back by `mute <n>` and
      `mutef <n>`. */
  lemma MuteIdParsesBack(id: u8, forever: bool)
    ensures var raw := (if forever then "mutef " else "mute ") + Decimal(id);
      ArgumentOnCharBoundary(raw) && ParseCommand(raw) == Mute(forever, Id(id))
  {
    var d := Decimal(id);
    MuteIdOnCharBoundary(id, forever);
    ParseDecimal(id);
    MuteWithArgument(forever, d);
  }

  lemma UnmuteIdOnCharBoundary(id: u8, forever: bool)
    ensures ArgumentOnCharBoundary((if forever then "unmutef " else "unmute ") + Decimal(id))
  {
    var w := if forever then "unmutef " else "unmute ";
    var raw := w + Decimal(id);
    WordThenDigits(w, Decimal(id));
    assert raw[0] == 'u' && raw[6] == w[6] && raw[|w| - 1] == ' ';
    assert !("stats" <= raw) && !("mute" <= raw);
    assert "unmute" <= raw && ("unmutef" <= raw <==> forever);
  }

  /** ... and by `unmute <n>` and `unmutef <n>`. */
  lemma UnmuteIdParsesBack(id: u8, forever: bool)
    ensures var raw := (if forever then "unmutef " else "unmute ") + Decimal(id);
      ArgumentOnCharBoundary(raw) && ParseCommand(raw) == Unmute(forever, Id(id))
  {
    var d := Decimal(id);
    UnmuteIdOnCharBoundary(id, forever);
    ParseDecimal(id);
    UnmuteWithArgument(forever, d);
  }
}

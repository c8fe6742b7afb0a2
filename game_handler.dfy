/** The LAN game proxy's `GameHandler` (crates/client/src/lan/game/game.rs) as far as muting
    goes: the set of muted slot player ids, seeded from the saved mute list when the game
    starts, changed by chat commands, and consulted for every chat packet the host sends
    towards the local game.

    Chat lines sent back to the local player are recorded in `outbox` as `Notice` values;
    packets passed on to the local game are recorded in `forwarded`. */
module LanGame {
  import opened Wrappers
  import opened Text
  import opened ChatCommands

  // ---------------------------------------------------------------------------------
  // The startup auto-mute.

  /** The ids the auto-mute loop inserts, walking the table in order. */
  function AutoMutedIds(ps: seq<PlayerInfo>, muteList: seq<int>): set<u8> {
    if ps == [] then {}
    else
      var last := ps[|ps| - 1];
      var rest := AutoMutedIds(ps[..|ps| - 1], muteList);
      if last.playerId in muteList then rest + {last.slotPlayerId} else rest
  }

  /** The names the "Auto muted: ..." line lists, in table order. */
  function AutoMutedNames(ps: seq<PlayerInfo>, muteList: seq<int>): seq<string> {
    if ps == [] then []
    else
      var last := ps[|ps| - 1];
      var rest := AutoMutedNames(ps[..|ps| - 1], muteList);
      if last.playerId in muteList then rest + [last.name] else rest
  }

  /** The loop mutes exactly the slot ids of the entries whose player id is on the list. */
  lemma {:induction false} AutoMutedIdsExactly(ps: seq<PlayerInfo>, muteList: seq<int>)
    ensures forall id :: id in AutoMutedIds(ps, muteList) <==>
      exists i :: 0 <= i < |ps| && ps[i].slotPlayerId == id && ps[i].playerId in muteList
  {
    if ps != [] {
      var init := ps[..|ps| - 1];
      AutoMutedIdsExactly(init, muteList);
      assert forall i :: 0 <= i < |init| ==> init[i] == ps[i];
    }
  }

  /** The indices of the entries whose player id is on the list, in table order. */
  function OnListIndices(ps: seq<PlayerInfo>, muteList: seq<int>): seq<nat> {
    if ps == [] then []
    else
      var rest := OnListIndices(ps[..|ps| - 1], muteList);
      if ps[|ps| - 1].playerId in muteList then rest + [|ps| - 1] else rest
  }

  /** `idx` holds, in ascending order, exactly the indices of the entries on the list. */
  predicate IndicesOnList(idx: seq<nat>, ps: seq<PlayerInfo>, muteList: seq<int>) {
    && (forall k :: 0 <= k < |idx| ==> idx[k] < |ps| && ps[idx[k]].playerId in muteList)
    && (forall k, l :: 0 <= k < l < |idx| ==> idx[k] < idx[l])
    && (forall i :: 0 <= i < |ps| && ps[i].playerId in muteList ==> i in idx)
  }

  lemma {:induction false} OnListIndicesExactly(ps: seq<PlayerInfo>, muteList: seq<int>)
    ensures IndicesOnList(OnListIndices(ps, muteList), ps, muteList)
  {
    if ps != [] {
      var init := ps[..|ps| - 1];
      OnListIndicesExactly(init, muteList);
      assert forall i :: 0 <= i < |init| ==> init[i] == ps[i];
    }
  }

  /** `names[k]` is the name of entry `idx[k]`. */
  predicate NamesAt(names: seq<string>, idx: seq<nat>, ps: seq<PlayerInfo>) {
    |names| == |idx| && forall k :: 0 <= k < |idx| ==> idx[k] < |ps| && names[k] == ps[idx[k]].name
  }

  lemma {:induction false} AutoMutedNamesAtIndices(ps: seq<PlayerInfo>, muteList: seq<int>)
    ensures NamesAt(AutoMutedNames(ps, muteList), OnListIndices(ps, muteList), ps)
  {
    if ps != [] {
      var init := ps[..|ps| - 1];
      AutoMutedNamesAtIndices(init, muteList);
      assert forall i :: 0 <= i < |init| ==> init[i] == ps[i];
    }
  }

  /** One name per entry on the mute list, in table order, so every auto-muted player is
      named; and none when nobody is on it. */
  lemma AutoMutedNamesExactly(ps: seq<PlayerInfo>, muteList: seq<int>)
    ensures IndicesOnList(OnListIndices(ps, muteList), ps, muteList)
    ensures NamesAt(AutoMutedNames(ps, muteList), OnListIndices(ps, muteList), ps)
    ensures forall i :: 0 <= i < |ps| && ps[i].playerId in muteList ==> ps[i].name in AutoMutedNames(ps, muteList)
    ensures AutoMutedNames(ps, muteList) == [] <==> forall i :: 0 <= i < |ps| ==> ps[i].playerId !in muteList
  {
    var names := AutoMutedNames(ps, muteList);
    var idx := OnListIndices(ps, muteList);
    OnListIndicesExactly(ps, muteList);
    AutoMutedNamesAtIndices(ps, muteList);
    forall i | 0 <= i < |ps| && ps[i].playerId in muteList
      ensures ps[i].name in names
    {
      var k :| 0 <= k < |idx| && idx[k] == i;
      assert names[k] == ps[i].name;
    }
  }

  /** The one line the loop sends, if it muted anybody. */
  function AutoMuteNotices(ps: seq<PlayerInfo>, muteList: seq<int>): seq<Notice> {
    var names := AutoMutedNames(ps, muteList);
    if names == [] then [] else [AutoMuted(names)]
  }

  // ---------------------------------------------------------------------------------
  // The incoming filter.

  /** A `ChatFromHost` payload: either it does not decode, or it names its sender and
      whether it is a scoped (player-to-player) message. */
  datatype HostChat = Undecodable | Decoded(sender: u8, scoped: bool)

  /** A packet on its way from the host to the local game. Every packet type other than
      `ChatFromHost` is treated alike, so they are one constructor. */
  datatype Packet = ChatFromHost(chat: HostChat) | OtherPacket(typeId: nat)

  /** Passed on, silently dropped, or the decode error that ends the handler. */
  datatype Delivery = Forwarded | Dropped | DecodeError

  /** `handle_incoming_w3gs`: a chat packet is decoded only when somebody is muted; a
      scoped message from a muted sender is dropped; everything else is passed on. */
  function Route(muted: set<u8>, pkt: Packet): Delivery {
    match pkt
    case ChatFromHost(chat) =>
      if muted == {} then Forwarded
      else
        (match chat
         case Undecodable => DecodeError
         case Decoded(sender, scoped) => if scoped && sender in muted then Dropped else Forwarded)
    case OtherPacket(_) => Forwarded
  }

  /** A scoped message from a muted sender. */
  predicate Silenced(muted: set<u8>, pkt: Packet) {
    pkt.ChatFromHost? && pkt.chat.Decoded? && pkt.chat.scoped && pkt.chat.sender in muted
  }

  // ---------------------------------------------------------------------------------
  // The handler.

  class GameHandler {
    /** `info.slot_info`, the game's slot teams and the local player's id and team. */
    const info: SlotInfo
    /** `muted_players`. */
    var muted: set<u8>
    /** The private chat lines (and mute saves) the handler has produced. */
    var outbox: seq<Notice>
    /** The packets passed on to the local game. */
    var forwarded: seq<Packet>

    /** `GameHandler::new`: nobody is muted yet. */
    constructor(info: SlotInfo)
      ensures this.info == info && muted == {} && outbox == [] && forwarded == []
    {
      this.info := info;
      muted := {};
      outbox := [];
      forwarded := [];
    }

    /** The loop at the start of `run`: mute every player on the saved mute list (empty
        when the controller could not be asked) and report the names. */
    method SeedAutoMutes(muteList: seq<int>)
      modifies this
      ensures muted == old(muted) + AutoMutedIds(info.players, muteList)
      ensures outbox == old(outbox) + AutoMuteNotices(info.players, muteList)
      ensures forwarded == old(forwarded)
    {
      var ps := info.players;
      var names: seq<string> := [];
      for k := 0 to |ps|
        invariant muted == old(muted) + AutoMutedIds(ps[..k], muteList)
        invariant names == AutoMutedNames(ps[..k], muteList)
        invariant outbox == old(outbox) && forwarded == old(forwarded)
      {
        var p := ps[k];
        assert ps[..k + 1][..k] == ps[..k] && ps[..k + 1][k] == p;
        if p.playerId in muteList {
          names := names + [p.name];
          muted := muted + {p.slotPlayerId};
        }
      }
      assert ps[..|ps|] == ps;
      if names != [] {
        outbox := outbox + [AutoMuted(names)];
      }
    }

    /** `handle_chat_command`: act on one command and report whether it was consumed. */
    method HandleChatCommand(raw: string) returns (consumed: bool)
      requires CanRespond(info, raw)
      modifies this
      ensures var r := Respond(info, old(muted), raw);
        consumed == r.consumed && muted == r.muted && outbox == old(outbox) + r.notices
      ensures forwarded == old(forwarded)
    {
      consumed := Apply(ParseCommand(raw));
    }

    /** The arms of `match cmd.raw()`, once the command word is known. */
    method Apply(cmd: Command) returns (consumed: bool)
      requires CanExecute(info, cmd)
      modifies this
      ensures var r := Execute(info, old(muted), cmd);
        consumed == r.consumed && muted == r.muted && outbox == old(outbox) + r.notices
      ensures forwarded == old(forwarded)
    {
      var me := info.mySlotPlayerId;
      consumed := true;
      match cmd {
      case Help =>
        outbox := outbox + [HelpLines];
      case GameInfo =>
        outbox := outbox + [GameSummary];
      case MuteAll =>
        muted := muted + SetOf(OthersIds(info.players, me));
        outbox := outbox + [AllPlayersMuted];
      case MuteOpponents =>
        muted := muted + SetOf(OpponentIds(info.players, info.slotTeams, me, info.myTeam));
        outbox := outbox + [OpponentsMuted];
      case UnmuteAll =>
        muted := {};
        outbox := outbox + [AllPlayersUnmuted];
      case Stats =>
      case Mute(forever, target) =>
        ApplyMute(forever, target);
      case Unmute(forever, target) =>
        ApplyUnmute(forever, target);
      case Chat =>
        consumed := false;
      }
    }

    /** The `mute` / `mutef` arm. */
    method ApplyMute(forever: bool, target: Target)
      modifies this
      ensures var r := RespondMute(info, old(muted), forever, target);
        muted == r.muted && outbox == old(outbox) + r.notices
      ensures forwarded == old(forwarded)
    {
      var me := info.mySlotPlayerId;
      var targets := MuteCandidates(info.players, me, muted);
      match target {
      case Bare =>
        if |targets| == 0 {
          outbox := outbox + [SilencedEveryone];
        } else if |targets| == 1 {
          muted := muted + {targets[0].slotPlayerId};
          outbox := outbox + [MuteConfirmation(forever, targets[0])];
        } else {
          outbox := outbox + [MuteChoices(targets)];
        }
      case Id(id) =>
        if id == me {
          outbox := outbox + [CannotMuteSelf];
        } else {
          var found := FindPlayer(info.players, id);
          if found.Some? {
            muted := muted + {id};
            outbox := outbox + [MuteConfirmation(forever, found.value)];
          } else {
            outbox := outbox + [InvalidPlayerId(targets)];
          }
        }
      case BadId =>
        outbox := outbox + [InvalidMuteSyntax];
      }
    }

    /** The `unmute` / `unmutef` arm. */
    method ApplyUnmute(forever: bool, target: Target)
      modifies this
      ensures var r := RespondUnmute(info, old(muted), forever, target);
        muted == r.muted && outbox == old(outbox) + r.notices
      ensures forwarded == old(forwarded)
    {
      var m := muted;
      var targets := UnmuteCandidates(m, info.players, info.mySlotPlayerId, 0);
      match target {
      case Bare =>
        if |targets| == 0 {
          outbox := outbox + [NothingToUnmute];
        } else if |targets| == 1 {
          muted := m - {targets[0].slotPlayerId};
          outbox := outbox + [UnmuteConfirmation(forever, targets[0])];
        } else {
          outbox := outbox + [UnmuteChoices(targets)];
        }
      case Id(id) =>
        var found := FindPlayer(targets, id);
        if found.Some? {
          muted := m - {id};
          outbox := outbox + [UnmuteConfirmation(forever, found.value)];
        } else {
          outbox := outbox + [InvalidMutedId(targets)];
        }
      case BadId =>
        outbox := outbox + [InvalidUnmuteSyntax];
      }
    }

    /** `handle_incoming_w3gs` for one packet from the host: pass it on to the local game
        unless it is dropped or fails to decode. */
    method HandleIncoming(pkt: Packet) returns (d: Delivery)
      modifies this
      ensures d == Route(old(muted), pkt)
      ensures forwarded == old(forwarded) + (if d == Forwarded then [pkt] else [])
      ensures muted == old(muted) && outbox == old(outbox)
    {
      match pkt {
      case ChatFromHost(chat) =>
        if muted != {} {
          match chat {
          case Undecodable =>
            return DecodeError;
          case Decoded(sender, scoped) =>
            if scoped && sender in muted {
              return Dropped;
            }
          }
        }
      case OtherPacket(_) =>
      }
      forwarded := forwarded + [pkt];
      d := Forwarded;
    }
  }

  // ---------------------------------------------------------------------------------
  // The rules of the filter.

  /** Exactly the scoped messages of muted senders are dropped; a chat packet that does not
      decode is an error only while somebody is muted; everything else is passed on. */
  lemma RouteRules(muted: set<u8>, pkt: Packet)
    ensures Route(muted, pkt) == Dropped <==> Silenced(muted, pkt)
    ensures Route(muted, pkt) == DecodeError <==> pkt == ChatFromHost(Undecodable) && muted != {}
    ensures !pkt.ChatFromHost? ==> Route(muted, pkt) == Forwarded
  {
  }

  /** Muting more never lets more through. */
  lemma RouteMonotone(muted: set<u8>, more: set<u8>, pkt: Packet)
    requires muted <= more
    ensures Route(muted, pkt) == Dropped ==> Route(more, pkt) == Dropped
    ensures Route(more, pkt) == Forwarded ==> Route(muted, pkt) == Forwarded
  {
  }

  /** After the startup loop, every player on the mute list is silenced. */
  lemma AutoMutedAreSilenced(ps: seq<PlayerInfo>, muteList: seq<int>, muted: set<u8>, i: nat)
    requires i < |ps| && ps[i].playerId in muteList
    ensures Route(muted + AutoMutedIds(ps, muteList), ChatFromHost(Decoded(ps[i].slotPlayerId, true))) == Dropped
    ensures AutoMuteNotices(ps, muteList) != []
  {
    AutoMutedIdsExactly(ps, muteList);
    AutoMutedNamesExactly(ps, muteList);
  }

  /** After `unmuteall` every packet is passed on. */
  lemma UnmuteAllForwardsEverything(info: SlotInfo, muted: set<u8>, pkt: Packet)
    ensures ArgumentOnCharBoundary("unmuteall")
    ensures Route(Respond(info, muted, "unmuteall").muted, pkt) == Forwarded
  {
    UnmuteAllClears(info, muted);
  }

  /** `mute <id>` for a listed player other than the local one silences that player from
      then on. */
  lemma MuteByIdSilences(info: SlotInfo, muted: set<u8>, id: u8, forever: bool)
    requires id != info.mySlotPlayerId && Listed(info.players, id)
    ensures var raw := (if forever then "mutef " else "mute ") + Decimal(id);
      ArgumentOnCharBoundary(raw)
      && Route(Respond(info, muted, raw).muted, ChatFromHost(Decoded(id, true))) == Dropped
  {
    MuteIdParsesBack(id, forever);
    MuteByIdRules(info, muted, forever, id);
  }
}

/**
 * The button-click handler: one step of the lobby state machine. It reads
 * the whole state from the message Slack attaches to the click and answers
 * with the next message, a private warning, a rally reply together with the
 * closed lobby posted to the response URL, or status 500; a request on which
 * the Go handler panics is dropped without an answer.
 */
module Interaction {
  import opened Slack
  import opened Buttons
  import opened Lobby

  const AlreadyPlayingText := "You are already occupying a spot in this game, leave some room to others!"
  const NotYoursText := "You can not leave a spot that belongs to someone else!"
  const EnjoyText := "Enjoy the game! :soccer:"
  const CancelledText := "This game has been cancelled!"

  /**
   * The decoded interaction payload: the names of the clicked actions, the
   * clicking user, the message the buttons belong to and its timestamp.
   */
  datatype Callback = Callback(actions: seq<string>, user: string, original: Msg, messageTs: string)

  /** Where the join and leave steps leave the handler. */
  datatype Step =
    | Crash                                        // a Go runtime panic: the request is dropped
    | Rejected(text: string)                       // a private warning
    | Next(selected: Slot, players: seq<string>)   // the slot to write back and the player list

  /** The private warning a refused click gets; the lobby message stays as it was. */
  function Warning(text: string): Msg
  {
    Msg(text, [], Ephemeral, false, false, "")
  }

  /** The rally call naming the first four players. */
  function GoText(players: seq<string>): string
    requires |players| >= SlotCount
  {
    "<@" + players[0] + ">, <@" + players[1] + ">, <@" + players[2] + ">, <@" + players[3] + "> GO GO GO!"
  }

  /**
   * The join branch, taken when the STORED button name of the slot contains
   * "join": refused if the user is anywhere in the player list, otherwise the
   * slot becomes the user's and the user is appended to the list.
   */
  function JoinStep(stored: string, selected: Slot, index: nat, user: string, players: seq<string>): (r: Step)
    requires index < SlotCount
    ensures !r.Crash?
    ensures r.Rejected? <==> Contains(stored, "join") && user in players
    ensures r.Rejected? ==> r.text == AlreadyPlayingText
    ensures !Contains(stored, "join") ==> r == Next(selected, players)
    ensures r.Next? && Contains(stored, "join") ==>
      && r.selected.value == user && r.selected.name == ButtonName(Leave, index)
      && r.selected.title == "<@" + user + "> joined!"
      && |r.players| == |players| + 1 && r.players[..|players|] == players && user in r.players
  {
    if !Contains(stored, "join") then Next(selected, players)
    else if user in players then Rejected(AlreadyPlayingText)
    else Next(JoinedSlot(user, index), players + [user])
  }

  /**
   * The leave branch, taken afterwards when the stored name contains "leave":
   * refused unless the slot (as the join branch left it) holds the user,
   * otherwise the slot is freed and the list loses its last entry.
   */
  function LeaveStep(stored: string, step: Step, index: nat, user: string): (r: Step)
    requires index < SlotCount
    ensures !step.Next? || !Contains(stored, "leave") ==> r == step
    ensures step.Next? ==> (r.Rejected? <==> Contains(stored, "leave") && step.selected.value != user)
    ensures r.Rejected? && step.Next? ==> r.text == NotYoursText
    ensures step.Next? ==> (r.Crash? <==> Contains(stored, "leave") && step.selected.value == user && step.players == [])
    ensures r.Next? && step.Next? && Contains(stored, "leave") ==>
      && r.selected.value == "" && r.selected.name == ButtonName(Join, index)
      && r.selected.title == "<@" + user + "> left!"
      && |r.players| == |step.players| - 1 && r.players == step.players[..|r.players|]
  {
    match step
    case Next(selected, players) =>
      if !Contains(stored, "leave") then step
      else if selected.value != user then Rejected(NotYoursText)
      else if players == [] then Crash
      else Next(LeftSlot(user, index), players[..|players| - 1])
    case _ => step
  }

  /** The lobby message with slot `index` written back, to be shown in the channel in place of the original. */
  function WriteBack(original: Msg, index: nat, selected: Slot): Msg
    requires index < |original.slots|
  {
    original.(slots := original.slots[index := selected], responseType := InChannel, replaceOriginal := true)
  }

  /**
   * Writes the slot back and checks the player count: four players start the
   * game (a rally reply, and the lobby is closed through the response URL),
   * none cancels it, anything else redisplays the updated lobby.
   */
  function Finish(original: Msg, index: nat, selected: Slot, players: seq<string>, messageTs: string): (r: Response)
    requires index < |original.slots|
    ensures !r.ServerError? && !r.Dropped?
    ensures r.ReplyAndPost? <==> |players| == SlotCount
    ensures r.Reply? ==> r.body.replaceOriginal && r.body.responseType == InChannel
    ensures (r.Reply? && r.body.slots == []) <==> |players| == 0
    ensures r.Reply? && |players| == 0 ==> r.body.text == CancelledText
    ensures r.Reply? && |players| != 0 ==>
      r.body.slots == original.slots[index := selected] && r.body.text == original.text
    ensures r.ReplyAndPost? ==>
      && r.body.text == GoText(players) && r.body.threadTs == messageTs
      && r.body.responseType == InChannel && !r.body.replaceOriginal
      && r.post.slots == [] && r.post.text == EnjoyText && r.post.replaceOriginal
  {
    var updated := WriteBack(original, index, selected);
    if |players| == SlotCount then
      ReplyAndPost(Msg(GoText(players), [], InChannel, false, false, messageTs), updated.(text := EnjoyText, slots := []))
    else if |players| == 0 then
      Reply(updated.(text := CancelledText, slots := []))
    else
      Reply(updated)
  }

  /** The whole effect of one button click. */
  function Transition(ev: Callback): (r: Response)
    ensures r.ServerError? <==> |ev.actions| > 0 && DecodeSlot(ev.actions[0]).None?
    ensures r.ReplyAndPost? ==>
      && r.body.threadTs == ev.messageTs && !r.body.replaceOriginal
      && r.post.slots == [] && r.post.text == EnjoyText && r.post.replaceOriginal
  {
    if |ev.actions| == 0 then Dropped
    else match DecodeSlot(ev.actions[0])
      case None => ServerError
      case Some(index) =>
        if index >= |ev.original.slots| then Dropped
        else ClickSlot(ev, index)
  }

  /** The effect of a click on slot `index`, once its name has been decoded. */
  function ClickSlot(ev: Callback, index: nat): Response
    requires index < SlotCount && index < |ev.original.slots|
  {
    var stored := ev.original.slots[index];
    var joined := JoinStep(stored.name, stored, index, ev.user, Occupants(ev.original.slots));
    match LeaveStep(stored.name, joined, index, ev.user)
    case Crash => Dropped
    case Rejected(text) => Reply(Warning(text))
    case Next(selected, players) => Finish(ev.original, index, selected, players, ev.messageTs)
  }

  /** The first loop of the handler: the non-empty button values, in slot order. */
  method CollectPlayers(slots: seq<Slot>) returns (playerIds: seq<string>)
    ensures playerIds == Occupants(slots)
  {
    playerIds := [];
    var k := 0;
    while k < |slots|
      invariant 0 <= k <= |slots|
      invariant playerIds == Occupants(slots[..k])
    {
      assert slots[..k + 1][..k] == slots[..k];
      if slots[k].value != "" {
        playerIds := playerIds + [slots[k].value];
      }
      k := k + 1;
    }
    assert slots[..k] == slots;
  }

  /** The second loop: whether the clicking user is already in the player list. */
  method AlreadyPlaying(playerIds: seq<string>, user: string) returns (samePerson: bool)
    ensures samePerson <==> user in playerIds
  {
    samePerson := false;
    var j := 0;
    while j < |playerIds|
      invariant 0 <= j <= |playerIds|
      invariant samePerson <==> user in playerIds[..j]
    {
      assert playerIds[..j + 1] == playerIds[..j] + [playerIds[j]];
      if playerIds[j] == user {
        samePerson := true;
      }
      j := j + 1;
    }
    assert playerIds[..j] == playerIds;
  }

  /**
   * The handler as it runs: decode the clicked name, collect the player list,
   * look for the user, rewrite the selected slot field by field, write it
   * back and check the count.
   */
  method HandleAction(ev: Callback) returns (resp: Response)
    ensures resp == Transition(ev)
  {
    if |ev.actions| == 0 {
      return Dropped;
    }
    var actionName := ev.actions[0];
    var decoded := DecodeSlot(actionName);
    if decoded.None? {
      return ServerError;
    }
    var index := decoded.value;
    var message := ev.original;
    if index >= |message.slots| {
      return Dropped;
    }
    var selected := message.slots[index];

    var playerIds := CollectPlayers(message.slots);
    assert Transition(ev) == ClickSlot(ev, index);

    var action := selected;
    ghost var joined := JoinStep(action.name, action, index, ev.user, playerIds);
    if Contains(action.name, "join") {
      var samePerson := AlreadyPlaying(playerIds, ev.user);
      if samePerson {
        return Reply(Warning(AlreadyPlayingText));
      }
      selected := selected.(name := ButtonName(Leave, index), value := ev.user);
      selected := selected.(title := "<@" + ev.user + "> joined!");
      playerIds := playerIds + [ev.user];
    }
    assert joined == Next(selected, playerIds);
    ghost var left := LeaveStep(action.name, joined, index, ev.user);

    if Contains(action.name, "leave") {
      if selected.value != ev.user {
        return Reply(Warning(NotYoursText));
      }
      selected := selected.(name := ButtonName(Join, index), value := "");
      selected := selected.(title := "<@" + ev.user + "> left!");
      if |playerIds| == 0 {
        return Dropped;
      }
      playerIds := playerIds[..|playerIds| - 1];
    }
    assert left == Next(selected, playerIds);

    message := message.(slots := message.slots[index := selected], responseType := InChannel, replaceOriginal := true);

    if |playerIds| == SlotCount {
      var reply := Msg(GoText(playerIds), [], InChannel, false, false, ev.messageTs);
      message := message.(text := EnjoyText, slots := []);
      return ReplyAndPost(reply, message);
    } else if |playerIds| == 0 {
      message := message.(text := CancelledText, slots := []);
    }
    resp := Reply(message);
  }
}

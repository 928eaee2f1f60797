/**
 * Whole games played through the two handlers, click by click.
 */
module Scenarios {
  import opened Slack
  import opened Buttons
  import opened Lobby
  import opened Interaction
  import opened LobbyProperties

  /** A click on the button named `name` by `user`, on the message `m`. */
  function Click(name: string, user: string, m: Msg): Callback
  {
    Callback([name], user, m, "1500000000.000100")
  }

  /** The lobby U1 creates. */
  function Created(): Msg
  {
    SlashCommand("/kicker", "U1").body
  }

  /** The lobby after U2 took slot 1. */
  function WithU2(): Msg
  {
    WriteBack(Created(), 1, JoinedSlot("U2", 1))
  }

  /** The lobby after U3 took slot 2 as well. */
  function WithU3(): Msg
  {
    WriteBack(WithU2(), 2, JoinedSlot("U3", 2))
  }

  lemma U2Joins()
    ensures Transition(Click("button-join-1", "U2", Created())) == Reply(WithU2())
    ensures Forming(WithU2().slots) && Occupants(WithU2().slots) == ["U1", "U2"]
  {
    NewLobbyForming("U1");
    var e := Click("button-join-1", "U2", Created());
    assert ClicksSlot(e, 1);
    JoinOutcome(e, 1);
    OccupantsOfFour(WithU2().slots);
  }

  lemma U3Joins()
    ensures Transition(Click("button-join-2", "U3", WithU2())) == Reply(WithU3())
    ensures Forming(WithU3().slots) && Occupants(WithU3().slots) == ["U1", "U2", "U3"]
  {
    var e := Click("button-join-2", "U3", WithU2());
    assert Forming(WithU2().slots) && Occupants(WithU2().slots) == ["U1", "U2"] by {
      U2Joins();
    }
    assert ClicksSlot(e, 2);
    assert Transition(e) == Reply(WithU3()) && Forming(WithU3().slots) by {
      JoinOutcome(e, 2);
    }
    assert Occupants(WithU3().slots) == ["U1", "U2", "U3"] by {
      OccupantsOfFour(WithU3().slots);
    }
  }

  /** The rally text for U1, U2, U3 and U4, spelled out. */
  lemma RallyInSlotOrder()
    ensures GoText(["U1", "U2", "U3", "U4"]) == "<@U1>, <@U2>, <@U3>, <@U4> GO GO GO!"
  {
    assert "<@" + "U1" + ">, <@" == "<@U1>, <@";
    assert "<@U1>, <@" + "U2" + ">, <@" == "<@U1>, <@U2>, <@";
    assert "<@U1>, <@U2>, <@" + "U3" + ">, <@" == "<@U1>, <@U2>, <@U3>, <@";
    assert "<@U1>, <@U2>, <@U3>, <@" + "U4" + "> GO GO GO!" == "<@U1>, <@U2>, <@U3>, <@U4> GO GO GO!";
  }

  /** The rally text for U1, U3, U4 and U2, spelled out. */
  lemma RallyNewcomerLast()
    ensures GoText(["U1", "U3", "U4", "U2"]) == "<@U1>, <@U3>, <@U4>, <@U2> GO GO GO!"
  {
    assert "<@" + "U1" + ">, <@" == "<@U1>, <@";
    assert "<@U1>, <@" + "U3" + ">, <@" == "<@U1>, <@U3>, <@";
    assert "<@U1>, <@U3>, <@" + "U4" + ">, <@" == "<@U1>, <@U3>, <@U4>, <@";
    assert "<@U1>, <@U3>, <@U4>, <@" + "U2" + "> GO GO GO!" == "<@U1>, <@U3>, <@U4>, <@U2> GO GO GO!";
  }

  /**
   * U1 creates a game and U2, U3 and U4 join slots 1, 2 and 3: the third
   * join starts the game, the rally names U1, U2, U3, U4, and the lobby
   * message is closed without slots.
   */
  lemma FourPlayersStartTheGame()
    ensures var r := Transition(Click("button-join-3", "U4", WithU3()));
      && r.ReplyAndPost?
      && r.body.text == "<@U1>, <@U2>, <@U3>, <@U4> GO GO GO!"
      && r.post.slots == [] && r.post.text == EnjoyText
  {
    var e := Click("button-join-3", "U4", WithU3());
    var players := ["U1", "U2", "U3", "U4"];
    assert Forming(WithU3().slots) && Occupants(WithU3().slots) == ["U1", "U2", "U3"] by {
      U3Joins();
    }
    assert ClicksSlot(e, 3);
    assert Transition(e).ReplyAndPost? && Transition(e).body.text == GoText(players) by {
      JoinOutcome(e, 3);
    }
    assert Transition(e).post.slots == [] && Transition(e).post.text == EnjoyText by {
      JoinOutcome(e, 3);
    }
    RallyInSlotOrder();
  }

  /** U1 creates a game and leaves it again: the game is cancelled and nothing is posted. */
  lemma CreatorLeavingCancels()
    ensures var r := Transition(Click("button-leave-0", "U1", Created()));
      r.Reply? && r.body.slots == [] && r.body.text == CancelledText && r.body.replaceOriginal
  {
    NewLobbyForming("U1");
    var e := Click("button-leave-0", "U1", Created());
    assert ClicksSlot(e, 0);
    LeaveOutcome(e, 0);
  }

  /** The creator clicking a free slot of their own game is refused with a private warning. */
  lemma CreatorCannotJoinTwice()
    ensures Transition(Click("button-join-2", "U1", Created())) == Reply(Warning(AlreadyPlayingText))
  {
    NewLobbyForming("U1");
    var e := Click("button-join-2", "U1", Created());
    assert ClicksSlot(e, 2);
    JoinWhilePlayingRefused(e, 2);
  }

  /** U1, U3 and U4 in slots 0, 2 and 3, slot 1 free. */
  function Gap(): Msg
  {
    Msg(NewGameText, [JoinedSlot("U1", 0), FreeSlot(1), JoinedSlot("U3", 2), JoinedSlot("U4", 3)],
        InChannel, true, false, "")
  }

  lemma GapForming()
    ensures Forming(Gap().slots) && Occupants(Gap().slots) == ["U1", "U3", "U4"]
  {
    var s := Gap().slots;
    OccupantsOfFour(s);
    forall j | 0 <= j < |s| ensures SlotMatchesValue(s[j], j) {
    }
  }

  /**
   * U2 taking slot 1 after U1, U3 and U4 hold slots 0, 2 and 3: the rally
   * lists U2 last, after the players already there, not in slot order.
   */
  lemma RallyListsNewcomerLast()
    ensures var r := Transition(Click("button-join-1", "U2", Gap()));
      r.ReplyAndPost? && r.body.text == "<@U1>, <@U3>, <@U4>, <@U2> GO GO GO!"
  {
    var e := Click("button-join-1", "U2", Gap());
    var players := ["U1", "U3", "U4", "U2"];
    GapForming();
    assert ClicksSlot(e, 1);
    assert Transition(e).ReplyAndPost? && Transition(e).body.text == GoText(players) by {
      JoinOutcome(e, 1);
    }
    RallyNewcomerLast();
  }
}

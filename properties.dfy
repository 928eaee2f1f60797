/**
 * What one click does to a lobby on display: which branch runs, when it is
 * refused, how the player count moves, which slot changes, when the lobby
 * ends, and that every lobby still on display keeps the lobby invariant.
 */
module LobbyProperties {
  import opened Slack
  import opened Buttons
  import opened Lobby
  import opened Interaction

  /** The click's first action name decodes to slot `i`. */
  predicate ClicksSlot(ev: Callback, i: nat)
  {
    |ev.actions| > 0 && DecodeSlot(ev.actions[0]) == Some(i)
  }

  /** In a well-formed lobby the stored button name of a slot says "join" exactly when the slot is free. */
  lemma {:induction false} StoredKind(s: seq<Slot>, i: nat)
    requires WellFormed(s) && i < |s|
    ensures Contains(s[i].name, "join") <==> s[i].value == ""
    ensures Contains(s[i].name, "leave") <==> s[i].value != ""
  {
    assert SlotMatchesValue(s[i], i);
    KindOfButtonName(if s[i].value == "" then Join else Leave, i);
  }

  /** Inserting a new id into a list without repeats keeps it without repeats. */
  lemma {:induction false} DistinctInsert(a: seq<string>, b: seq<string>, u: string)
    requires Distinct(a + b) && u !in a + b
    ensures Distinct(a + [u] + b)
  {
    var c := a + [u] + b;
    forall x, y | 0 <= x < y < |c| ensures c[x] != c[y] {
      if y < |a| {
        assert c[x] == (a + b)[x] && c[y] == (a + b)[y];
      } else if y == |a| {
        assert c[x] == (a + b)[x];
      } else if x == |a| {
        assert c[y] == (a + b)[y - 1];
      } else if x < |a| {
        assert c[x] == (a + b)[x] && c[y] == (a + b)[y - 1];
      } else {
        assert c[x] == (a + b)[x - 1] && c[y] == (a + b)[y - 1];
      }
    }
  }

  /** Taking an id out of a list without repeats leaves a list without repeats that no longer holds it. */
  lemma {:induction false} DistinctRemove(a: seq<string>, b: seq<string>, u: string)
    requires Distinct(a + [u] + b)
    ensures Distinct(a + b) && u !in a + b
  {
    var c := a + [u] + b;
    forall x, y | 0 <= x < y < |a + b| ensures (a + b)[x] != (a + b)[y] {
      if y < |a| {
        assert c[x] == (a + b)[x] && c[y] == (a + b)[y];
      } else if x < |a| {
        assert c[x] == (a + b)[x] && c[y + 1] == (a + b)[y];
      } else {
        assert c[x + 1] == (a + b)[x] && c[y + 1] == (a + b)[y];
      }
    }
    forall k | 0 <= k < |a + b| ensures (a + b)[k] != u {
      assert c[|a|] == u;
      if k < |a| {
        assert c[k] == (a + b)[k];
      } else {
        assert c[k + 1] == (a + b)[k];
      }
    }
  }

  /** Slot `i` taken by `u`: the player list gains `u` at the position of slot `i`. */
  lemma {:induction false} OccupantsAfterJoin(s: seq<Slot>, i: nat, u: string)
    requires i < |s| && i < SlotCount && s[i].value == "" && u != ""
    ensures Occupants(s) == Occupants(s[..i]) + Occupants(s[i + 1..])
    ensures Occupants(s[i := JoinedSlot(u, i)]) == Occupants(s[..i]) + [u] + Occupants(s[i + 1..])
  {
    assert Occupants(s) == Occupants(s[..i]) + Occupants(s[i + 1..]) by {
      OccupantsAround(s, i);
      assert Held(s[i]) == [];
    }
    assert Occupants(s[i := JoinedSlot(u, i)]) == Occupants(s[..i]) + [u] + Occupants(s[i + 1..]) by {
      OccupantsReplace(s, i, JoinedSlot(u, i));
    }
  }

  /** Slot `i` of `u` freed: the player list loses `u` at the position of slot `i`. */
  lemma {:induction false} OccupantsAfterLeave(s: seq<Slot>, i: nat, u: string)
    requires i < |s| && i < SlotCount && s[i].value == u && u != ""
    ensures Occupants(s) == Occupants(s[..i]) + [u] + Occupants(s[i + 1..])
    ensures Occupants(s[i := LeftSlot(u, i)]) == Occupants(s[..i]) + Occupants(s[i + 1..])
  {
    assert Occupants(s) == Occupants(s[..i]) + [u] + Occupants(s[i + 1..]) by {
      OccupantsAround(s, i);
    }
    assert Occupants(s[i := LeftSlot(u, i)]) == Occupants(s[..i]) + Occupants(s[i + 1..]) by {
      OccupantsReplace(s, i, LeftSlot(u, i));
      assert Held(LeftSlot(u, i)) == [];
    }
  }

  /** A click on a slot whose name decodes runs the slot's branch. */
  lemma ClickDecoded(ev: Callback, i: nat)
    requires ClicksSlot(ev, i) && i < |ev.original.slots|
    ensures i < SlotCount && Transition(ev) == ClickSlot(ev, i)
  {
  }

  /** A user who already plays, clicking a free slot, gets the private warning and the lobby stays as it is. */
  lemma JoinWhilePlayingRefused(ev: Callback, i: nat)
    requires ClicksSlot(ev, i) && WellFormed(ev.original.slots)
    requires ev.original.slots[i].value == "" && ev.user in Occupants(ev.original.slots)
    ensures Transition(ev) == Reply(Warning(AlreadyPlayingText))
    ensures !Transition(ev).body.replaceOriginal && Transition(ev).body.responseType == Ephemeral
  {
    StoredKind(ev.original.slots, i);
  }

  /**
   * A user who does not play yet, clicking a free slot, takes it: the slot
   * becomes the user's leave button and the user is appended to the player
   * list the handler counts.
   */
  lemma JoinFreeSlot(ev: Callback, i: nat)
    requires ClicksSlot(ev, i) && WellFormed(ev.original.slots)
    requires ev.original.slots[i].value == "" && ev.user !in Occupants(ev.original.slots)
    ensures Transition(ev) == Finish(ev.original, i, JoinedSlot(ev.user, i), Occupants(ev.original.slots) + [ev.user], ev.messageTs)
  {
    var s := ev.original.slots;
    var p := Occupants(s);
    ClickDecoded(ev, i);
    StoredKind(s, i);
    assert JoinStep(s[i].name, s[i], i, ev.user, p) == Next(JoinedSlot(ev.user, i), p + [ev.user]);
  }

  /**
   * A newcomer `u` taking free slot `i`: the new slots hold the old players
   * and `u`, one more; the handler's list (old players, then `u`) holds the
   * same ids.
   */
  lemma {:induction false} JoinOccupants(s: seq<Slot>, i: nat, u: string)
    requires i < |s| && i < SlotCount && u != "" && s[i].value == ""
    ensures var p' := Occupants(s[i := JoinedSlot(u, i)]);
      && multiset(p') == multiset(Occupants(s) + [u])
      && |p'| == |Occupants(s)| + 1
  {
    var a, b := Occupants(s[..i]), Occupants(s[i + 1..]);
    OccupantsAfterJoin(s, i, u);
    assert multiset(a + [u] + b) == multiset(a + b + [u]);
  }

  /**
   * The owner of an occupied slot, clicking it, frees it: the slot becomes a
   * join button again and the player list the handler counts loses its last
   * entry.
   */
  lemma LeaveOwnSlot(ev: Callback, i: nat)
    requires ClicksSlot(ev, i) && WellFormed(ev.original.slots)
    requires ev.user != "" && ev.original.slots[i].value == ev.user
    ensures var p := Occupants(ev.original.slots);
      && |p| > 0
      && Transition(ev) == Finish(ev.original, i, LeftSlot(ev.user, i), p[..|p| - 1], ev.messageTs)
  {
    var s := ev.original.slots;
    var p := Occupants(s);
    assert |p| > 0 by {
      OccupantsAfterLeave(s, i, ev.user);
    }
    ClickDecoded(ev, i);
    StoredKind(s, i);
    assert JoinStep(s[i].name, s[i], i, ev.user, p) == Next(s[i], p);
    assert LeaveStep(s[i].name, Next(s[i], p), i, ev.user) == Next(LeftSlot(ev.user, i), p[..|p| - 1]);
  }

  /**
   * Freeing the slot of `u` in a lobby without repeated players: the new
   * slots hold the old players less `u`, one fewer.
   */
  lemma {:induction false} LeaveOccupants(s: seq<Slot>, i: nat, u: string)
    requires i < |s| && i < SlotCount && u != "" && s[i].value == u && Distinct(Occupants(s))
    ensures var p' := Occupants(s[i := LeftSlot(u, i)]);
      && multiset(p') == multiset(Occupants(s)) - multiset{u}
      && u !in p'
      && |p'| == |Occupants(s)| - 1
  {
    var a, b := Occupants(s[..i]), Occupants(s[i + 1..]);
    OccupantsAfterLeave(s, i, u);
    DistinctRemove(a, b, u);
    assert multiset(a + b) == multiset(a + [u] + b) - multiset{u};
  }

  /** Clicking someone else's slot gets the private warning and the lobby stays as it is. */
  lemma LeaveOthersSlotRefused(ev: Callback, i: nat)
    requires ClicksSlot(ev, i) && WellFormed(ev.original.slots)
    requires ev.original.slots[i].value != "" && ev.original.slots[i].value != ev.user
    ensures Transition(ev) == Reply(Warning(NotYoursText))
    ensures !Transition(ev).body.replaceOriginal && Transition(ev).body.responseType == Ephemeral
  {
    StoredKind(ev.original.slots, i);
  }
  /**
   * A successful join on a lobby on display: with the fourth player the game
   * starts (the rally reply names the old players in slot order, then the
   * newcomer, and the lobby message is closed without slots); with fewer the
   * updated lobby replaces the original and is again a lobby on display.
   */
  lemma JoinOutcome(ev: Callback, i: nat)
    requires ClicksSlot(ev, i) && Forming(ev.original.slots) && ev.user != ""
    requires ev.original.slots[i].value == "" && ev.user !in Occupants(ev.original.slots)
    ensures var s := ev.original.slots;
      var joined := JoinedSlot(ev.user, i);
      && (|Occupants(s)| + 1 == SlotCount ==>
            Transition(ev) == ReplyAndPost(
              Msg(GoText(Occupants(s) + [ev.user]), [], InChannel, false, false, ev.messageTs),
              WriteBack(ev.original, i, joined).(text := EnjoyText, slots := [])))
      && (|Occupants(s)| + 1 < SlotCount ==>
            Transition(ev) == Reply(WriteBack(ev.original, i, joined)) && Forming(s[i := joined]))
  {
    JoinFreeSlot(ev, i);
    if |Occupants(ev.original.slots)| + 1 < SlotCount {
      JoinKeepsForming(ev.original.slots, i, ev.user);
    }
  }

  /** A newcomer taking a free slot of a lobby that does not fill up leaves a lobby on display. */
  lemma {:induction false} JoinKeepsForming(s: seq<Slot>, i: nat, u: string)
    requires Forming(s) && i < |s| && u != "" && s[i].value == "" && u !in Occupants(s)
    requires |Occupants(s)| + 1 < SlotCount
    ensures Forming(s[i := JoinedSlot(u, i)])
  {
    var s' := s[i := JoinedSlot(u, i)];
    OccupantsAfterJoin(s, i, u);
    DistinctInsert(Occupants(s[..i]), Occupants(s[i + 1..]), u);
    forall j | 0 <= j < |s'| ensures SlotMatchesValue(s'[j], j) {
      assert SlotMatchesValue(s[j], j);
    }
  }

  /**
   * A successful leave on a lobby on display: the last player leaving
   * cancels the game (the lobby message loses its slots); otherwise the
   * updated lobby replaces the original and is again a lobby on display.
   * A leave never starts a game.
   */
  lemma LeaveOutcome(ev: Callback, i: nat)
    requires ClicksSlot(ev, i) && Forming(ev.original.slots) && ev.user != ""
    requires ev.original.slots[i].value == ev.user
    ensures var s := ev.original.slots;
      var left := LeftSlot(ev.user, i);
      && (|Occupants(s)| == 1 ==>
            Transition(ev) == Reply(WriteBack(ev.original, i, left).(text := CancelledText, slots := [])))
      && (|Occupants(s)| > 1 ==>
            Transition(ev) == Reply(WriteBack(ev.original, i, left)) && Forming(s[i := left]))
      && !Transition(ev).ReplyAndPost?
  {
    var s := ev.original.slots;
    var p := Occupants(s);
    LeaveOwnSlot(ev, i);
    assert |p[..|p| - 1]| == |p| - 1 < SlotCount - 1;
    if |p| > 1 {
      LeaveKeepsForming(s, i, ev.user);
    }
  }

  /** Freeing one's own slot in a lobby with other players leaves a lobby on display. */
  lemma {:induction false} LeaveKeepsForming(s: seq<Slot>, i: nat, u: string)
    requires Forming(s) && i < |s| && u != "" && s[i].value == u && |Occupants(s)| > 1
    ensures Forming(s[i := LeftSlot(u, i)])
  {
    var s' := s[i := LeftSlot(u, i)];
    OccupantsAfterLeave(s, i, u);
    DistinctRemove(Occupants(s[..i]), Occupants(s[i + 1..]), u);
    forall j | 0 <= j < |s'| ensures SlotMatchesValue(s'[j], j) {
      assert SlotMatchesValue(s[j], j);
    }
  }

  /**
   * Lobby invariant: whatever the click, a lobby that is redisplayed after it
   * is again a lobby on display, and it differs from the old one in the
   * clicked slot only.
   */
  lemma ClickKeepsLobby(ev: Callback, i: nat)
    requires ClicksSlot(ev, i) && Forming(ev.original.slots) && ev.user != ""
    ensures var r := Transition(ev);
      r.Reply? && |r.body.slots| > 0 ==>
        && Forming(r.body.slots)
        && |r.body.slots| == |ev.original.slots|
        && (forall j :: 0 <= j < |r.body.slots| && j != i ==> r.body.slots[j] == ev.original.slots[j])
        && r.body.replaceOriginal && r.body.responseType == InChannel && r.body.text == ev.original.text
  {
    var s := ev.original.slots;
    var p := Occupants(s);
    if s[i].value == "" {
      if ev.user in p {
        JoinWhilePlayingRefused(ev, i);
      } else {
        JoinOutcome(ev, i);
      }
    } else if s[i].value != ev.user {
      LeaveOthersSlotRefused(ev, i);
    } else {
      LeaveOutcome(ev, i);
    }
  }

  /** On a lobby on display a game starts exactly when a newcomer takes the last free slot. */
  lemma GameStartsExactlyOnFourthJoin(ev: Callback, i: nat)
    requires ClicksSlot(ev, i) && Forming(ev.original.slots) && ev.user != ""
    ensures var s := ev.original.slots;
      var p := Occupants(s);
      Transition(ev).ReplyAndPost? <==> s[i].value == "" && ev.user !in p && |p| == SlotCount - 1
  {
    var s := ev.original.slots;
    if s[i].value == "" {
      if ev.user in Occupants(s) {
        JoinWhilePlayingRefused(ev, i);
      } else {
        JoinOutcome(ev, i);
      }
    } else if s[i].value != ev.user {
      LeaveOthersSlotRefused(ev, i);
    } else {
      LeaveOutcome(ev, i);
    }
  }

  /**
   * When a game starts, the rally reply names the old players in the order
   * the handler collected them (slot order), then the newcomer, in a thread
   * under the lobby message; the lobby message itself is closed without
   * slots.
   */
  lemma GameStartRally(ev: Callback, i: nat)
    requires ClicksSlot(ev, i) && Forming(ev.original.slots) && ev.user != ""
    requires Transition(ev).ReplyAndPost?
    ensures var p := Occupants(ev.original.slots);
      var r := Transition(ev);
      && |p| + 1 == SlotCount
      && r.body.text == GoText(p + [ev.user]) && r.body.threadTs == ev.messageTs
      && r.post.slots == [] && r.post.text == EnjoyText && r.post.replaceOriginal
  {
    GameStartsExactlyOnFourthJoin(ev, i);
    JoinOutcome(ev, i);
  }

  /**
   * The four players a rally names are distinct and are exactly the
   * occupants of the filled lobby, though not necessarily in slot order.
   */
  lemma {:induction false} RallyPlayers(s: seq<Slot>, i: nat, u: string)
    requires Forming(s) && i < |s| && u != "" && s[i].value == "" && u !in Occupants(s)
    ensures var p := Occupants(s);
      && Distinct(p + [u])
      && multiset(p + [u]) == multiset(Occupants(s[i := JoinedSlot(u, i)]))
  {
    var p := Occupants(s);
    JoinOccupants(s, i, u);
    assert p + [] == p && p + [u] + [] == p + [u];
    DistinctInsert(p, [], u);
  }

  /** On a lobby on display the game is cancelled exactly when its last player leaves. */
  lemma CancelledExactlyWhenLastLeaves(ev: Callback, i: nat)
    requires ClicksSlot(ev, i) && Forming(ev.original.slots) && ev.user != ""
    ensures var r := Transition(ev);
      (r.Reply? && r.body.replaceOriginal && r.body.slots == [])
        <==> ev.original.slots[i].value == ev.user && |Occupants(ev.original.slots)| == 1
    ensures var r := Transition(ev);
      r.Reply? && r.body.replaceOriginal && r.body.slots == [] ==> r.body.text == CancelledText
  {
    var s := ev.original.slots;
    var p := Occupants(s);
    if s[i].value == "" {
      if ev.user in p {
        JoinWhilePlayingRefused(ev, i);
      } else {
        JoinOutcome(ev, i);
      }
    } else if s[i].value != ev.user {
      LeaveOthersSlotRefused(ev, i);
    } else {
      LeaveOutcome(ev, i);
    }
  }
  /**
   * On a lobby on display a click is dropped only when it carries no action
   * at all; a name that is not one of the eight button names gets the 500,
   * and everything else gets a reply.
   */
  lemma DroppedOnlyWithoutAction(ev: Callback)
    requires Forming(ev.original.slots) && ev.user != ""
    ensures Transition(ev).Dropped? <==> |ev.actions| == 0
    ensures Transition(ev).ServerError? <==> |ev.actions| > 0 && DecodeSlot(ev.actions[0]).None?
  {
    if Transition(ev).Dropped? {
      DroppedOnlyForMalformedRequests(ev);
    }
  }

  /**
   * For any message, a request is dropped only when the payload carries no
   * action, the decoded slot lies past the end of the message, or the user
   * id is empty (only then can a leave find an empty player list).
   */
  lemma DroppedOnlyForMalformedRequests(ev: Callback)
    requires Transition(ev).Dropped?
    ensures ev.user == "" || |ev.actions| == 0 || DecodeSlot(ev.actions[0]).value >= |ev.original.slots|
  {
    if ev.user != "" && |ev.actions| > 0 && DecodeSlot(ev.actions[0]).value < |ev.original.slots| {
      OccupantsMembership(ev.original.slots, ev.user);
    }
  }

  /**
   * The branch is chosen by the button stored in the slot, not by the kind
   * in the clicked name: two clicks that name the same slot have the same
   * effect, so a stale "join" click on a slot its clicker now holds leaves it.
   */
  lemma ClickedKindIgnored(ev: Callback, names: seq<string>)
    requires |ev.actions| > 0 && |names| > 0 && DecodeSlot(names[0]) == DecodeSlot(ev.actions[0])
    ensures Transition(ev.(actions := names)) == Transition(ev)
  {
  }

  /**
   * With no assumption on the incoming message: a redisplayed lobby keeps
   * the original's text and every slot but the clicked one, and a refusal
   * never replaces the original.
   */
  lemma OnlyClickedSlotWritten(ev: Callback, i: nat)
    requires ClicksSlot(ev, i)
    ensures var r := Transition(ev);
      r.Reply? && |r.body.slots| > 0 ==>
        && i < |ev.original.slots|
        && r.body == WriteBack(ev.original, i, r.body.slots[i])
        && (forall j :: 0 <= j < |ev.original.slots| && j != i ==> r.body.slots[j] == ev.original.slots[j])
    ensures var r := Transition(ev);
      r.Reply? && !r.body.replaceOriginal ==>
        r.body == Warning(AlreadyPlayingText) || r.body == Warning(NotYoursText)
  {
    var s := ev.original.slots;
    if i < |s| {
      ClickDecoded(ev, i);
      var stored := s[i];
      var joined := JoinStep(stored.name, stored, i, ev.user, Occupants(s));
      match LeaveStep(stored.name, joined, i, ev.user)
      case Crash =>
      case Rejected(text) =>
        assert text == AlreadyPlayingText || text == NotYoursText;
      case Next(selected, players) =>
        assert WriteBack(ev.original, i, selected).slots[i] == selected;
    }
  }
}

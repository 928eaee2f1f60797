/**
 * The lobby as the message carries it: four slots, who occupies them, the
 * invariant every displayed lobby keeps, and the `/kicker` command that
 * creates one.
 */
module Lobby {
  import opened Slack
  import opened Buttons

  const NewGameText := "New kicker game created. Feel free to join!"
  const FreeTitle := "Free Slot"

  /** Slot `i` taken by `user`: title `<@user> joined!` and a leave button holding the user id. */
  function JoinedSlot(user: string, i: nat): Slot
    requires i < SlotCount
  {
    Slot("<@" + user + "> joined!", ButtonName(Leave, i), user)
  }

  /** Slot `i` just vacated by `user`: title `<@user> left!` and an empty join button. */
  function LeftSlot(user: string, i: nat): Slot
    requires i < SlotCount
  {
    Slot("<@" + user + "> left!", ButtonName(Join, i), "")
  }

  /** Slot `i` of a new lobby that nobody has taken yet. */
  function FreeSlot(i: nat): Slot
    requires i < SlotCount
  {
    Slot(FreeTitle, ButtonName(Join, i), "")
  }

  /** The occupant a slot contributes to the player list: its button value, unless empty. */
  function Held(t: Slot): seq<string>
  {
    if t.value != "" then [t.value] else []
  }

  /**
   * The player list the handler builds: the non-empty button values of the
   * slots, in slot order.
   */
  function Occupants(slots: seq<Slot>): (r: seq<string>)
    ensures |r| <= |slots|
    ensures forall p :: p in r ==> p != ""
  {
    if slots == [] then [] else Occupants(slots[..|slots| - 1]) + Held(slots[|slots| - 1])
  }

  predicate Distinct(ps: seq<string>)
  {
    forall i, j :: 0 <= i < j < |ps| ==> ps[i] != ps[j]
  }

  /** Slot `i` shows a leave button named for `i` when it is occupied and a join button named for `i` when it is free. */
  predicate SlotMatchesValue(t: Slot, i: nat)
  {
    i < SlotCount && t.name == ButtonName(if t.value == "" then Join else Leave, i)
  }

  /** Four slots, each exposing exactly the action its occupancy allows. */
  predicate WellFormed(slots: seq<Slot>)
  {
    |slots| == SlotCount && forall i :: 0 <= i < |slots| ==> SlotMatchesValue(slots[i], i)
  }

  /**
   * A lobby still on display: well formed, nobody in two slots, and neither
   * empty nor full (those end the lobby).
   */
  predicate Forming(slots: seq<Slot>)
  {
    WellFormed(slots) && Distinct(Occupants(slots)) && 0 < |Occupants(slots)| < SlotCount
  }

  /** The four attachments of a new lobby: the creator in slot 0, slots 1 to 3 free. */
  function NewLobby(user: string): seq<Slot>
  {
    [JoinedSlot(user, 0), FreeSlot(1), FreeSlot(2), FreeSlot(3)]
  }

  /**
   * The slash-command handler: `/kicker` posts a new lobby to the channel;
   * every other command is answered with status 500 and nothing else.
   */
  function SlashCommand(command: string, user: string): (r: Response)
    ensures r.ServerError? <==> command != "/kicker"
    ensures r.Reply? <==> command == "/kicker"
    ensures r.Reply? ==> !r.body.replaceOriginal && !r.body.deleteOriginal
    ensures r.Reply? ==> r.body.text == NewGameText && r.body.responseType == InChannel
    ensures r.Reply? ==> |r.body.slots| == SlotCount
    ensures r.Reply? ==> r.body.slots[0] == Slot("<@" + user + "> joined!", "button-leave-0", user)
    ensures r.Reply? ==> forall i :: 1 <= i < SlotCount ==> r.body.slots[i] == Slot(FreeTitle, ButtonName(Join, i), "")
  {
    if command == "/kicker" then Reply(Msg(NewGameText, NewLobby(user), InChannel, false, false, ""))
    else ServerError
  }

  /** A new lobby is on display, and its only player is its creator. */
  lemma {:induction false} NewLobbyForming(user: string)
    requires user != ""
    ensures Forming(NewLobby(user))
    ensures Occupants(NewLobby(user)) == [user]
  {
    var s := NewLobby(user);
    assert s[..1] == [JoinedSlot(user, 0)];
    assert s[..2][..1] == s[..1];
    assert s[..3][..2] == s[..2];
    assert s[..4][..3] == s[..3];
    assert Occupants(s[..1]) == [user];
    assert Occupants(s[..2]) == [user];
    assert Occupants(s[..3]) == [user];
    assert s[..4] == s;
  }

  /** The player list of two runs of slots put together is the two lists put together. */
  lemma {:induction false} OccupantsConcat(a: seq<Slot>, b: seq<Slot>)
    ensures Occupants(a + b) == Occupants(a) + Occupants(b)
  {
    if b == [] {
      assert a + b == a;
    } else {
      var b' := b[..|b| - 1];
      assert (a + b)[..|a + b| - 1] == a + b';
      OccupantsConcat(a, b');
    }
  }

  /** The player list split around slot `i`. */
  lemma {:induction false} OccupantsAround(s: seq<Slot>, i: nat)
    requires i < |s|
    ensures Occupants(s) == Occupants(s[..i]) + Held(s[i]) + Occupants(s[i + 1..])
  {
    var front := s[..i + 1];
    assert Occupants(front) == Occupants(s[..i]) + Held(s[i]) by {
      assert front[..i] == s[..i] && front[i] == s[i];
    }
    assert Occupants(s) == Occupants(front) + Occupants(s[i + 1..]) by {
      assert front + s[i + 1..] == s;
      OccupantsConcat(front, s[i + 1..]);
    }
  }

  /** Writing slot `i` changes the player list only in what slot `i` contributes. */
  lemma {:induction false} OccupantsReplace(s: seq<Slot>, i: nat, t: Slot)
    requires i < |s|
    ensures Occupants(s[i := t]) == Occupants(s[..i]) + Held(t) + Occupants(s[i + 1..])
  {
    var s' := s[i := t];
    OccupantsAround(s', i);
    assert s'[..i] == s[..i];
    assert s'[i + 1..] == s[i + 1..];
  }

  /** The indices of the slots that hold a player. */
  function OccupiedSlots(s: seq<Slot>): set<nat>
  {
    set k: nat | k < |s| && s[k].value != ""
  }

  /** The player list has one entry per occupied slot. */
  lemma {:induction false} OccupantsCount(s: seq<Slot>)
    ensures |Occupants(s)| == |OccupiedSlots(s)|
  {
    if s != [] {
      var n := |s| - 1;
      var s' := s[..n];
      OccupantsCount(s');
      if s[n].value != "" {
        assert OccupiedSlots(s) == OccupiedSlots(s') + {n};
      } else {
        assert OccupiedSlots(s) == OccupiedSlots(s');
      }
    }
  }

  /** A user is in the player list exactly when some slot's button holds that (non-empty) user id. */
  lemma {:induction false} OccupantsMembership(s: seq<Slot>, p: string)
    ensures p in Occupants(s) <==> p != "" && exists k :: 0 <= k < |s| && s[k].value == p
  {
    if s != [] {
      var s' := s[..|s| - 1];
      OccupantsMembership(s', p);
      if p != "" && (exists k :: 0 <= k < |s| && s[k].value == p) {
        var k :| 0 <= k < |s| && s[k].value == p;
        if k < |s| - 1 {
          assert s'[k].value == p;
        }
      }
    }
  }

  /** The player list of a four-slot lobby, slot by slot. */
  lemma {:induction false} OccupantsOfFour(s: seq<Slot>)
    requires |s| == SlotCount
    ensures Occupants(s) == Held(s[0]) + Held(s[1]) + Held(s[2]) + Held(s[3])
  {
    assert Occupants(s[..1]) == Held(s[0]) by {
      assert s[..1][..0] == [];
    }
    assert Occupants(s[..2]) == Held(s[0]) + Held(s[1]) by {
      assert s[..2][..1] == s[..1];
    }
    assert Occupants(s[..3]) == Held(s[0]) + Held(s[1]) + Held(s[2]) by {
      assert s[..3][..2] == s[..2];
    }
    assert s[..4][..3] == s[..3];
    assert s[..4] == s;
  }
}

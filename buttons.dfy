/**
 * The button names that carry a slot's identity: `button-join-i` on a free
 * slot and `button-leave-i` on an occupied one, for a slot index i in 0..3.
 */
module Buttons {
  import opened Slack

  datatype Kind = Join | Leave

  /** The number of slots of a lobby. */
  const SlotCount: nat := 4

  /** `fmt.Sprintf("button-join-%v", i)` or `fmt.Sprintf("button-leave-%v", i)` for a slot index. */
  function ButtonName(k: Kind, i: nat): (r: string)
    requires i < SlotCount
    ensures |r| == (if k == Join then 13 else 14)
    ensures r[|r| - 1] == "0123"[i]
  {
    "button-" + (if k == Join then "join" else "leave") + "-" + ["0123"[i]]
  }

  /**
   * The switch on the clicked action's name: the eight names of the form
   * `button-{join|leave}-{0..3}` give their slot index, every other name is
   * refused.
   */
  function DecodeSlot(name: string): (r: Option<nat>)
    ensures r.Some? ==> r.value < SlotCount
    ensures r.Some? ==> name == ButtonName(Join, r.value) || name == ButtonName(Leave, r.value)
  {
    if name == "button-join-0" || name == "button-leave-0" then Some(0)
    else if name == "button-join-1" || name == "button-leave-1" then Some(1)
    else if name == "button-join-2" || name == "button-leave-2" then Some(2)
    else if name == "button-join-3" || name == "button-leave-3" then Some(3)
    else None
  }

  /** Every button name the bot writes decodes back to its own slot index. */
  lemma DecodeButtonName(k: Kind, i: nat)
    requires i < SlotCount
    ensures DecodeSlot(ButtonName(k, i)) == Some(i)
  {
    var n := ButtonName(k, i);
    assert n[|n| - 1] == "0123"[i];
  }

  /**
   * The handler tells the two kinds of button apart by searching the name
   * for "join" and "leave": a join button contains "join" and not "leave",
   * a leave button the other way round.
   */
  lemma KindOfButtonName(k: Kind, i: nat)
    requires i < SlotCount
    ensures Contains(ButtonName(k, i), "join") <==> k == Join
    ensures Contains(ButtonName(k, i), "leave") <==> k == Leave
  {
    var n := ButtonName(k, i);
    if k == Join {
      assert n[7..11] == "join";
      assert OccursAt(n, "join", 7);
      assert 'l' !in n by {
        forall c | 0 <= c < |n| ensures n[c] != 'l' {
          assert n == ['b','u','t','t','o','n','-','j','o','i','n','-', "0123"[i]];
        }
      }
      MissingFirstChar(n, "leave");
    } else {
      assert n[7..12] == "leave";
      assert OccursAt(n, "leave", 7);
      assert 'j' !in n by {
        forall c | 0 <= c < |n| ensures n[c] != 'j' {
          assert n == ['b','u','t','t','o','n','-','l','e','a','v','e','-', "0123"[i]];
        }
      }
      MissingFirstChar(n, "join");
    }
  }
}

/**
 * The positional mapping behind the Android notification: one action per
 * saved record, identified by the record's index, labelled by its icon and
 * carrying its address; and the broadcast handler's test before it copies
 * an address.  The Android calls themselves are not modelled.
 */
module Notify {
  import opened Wrappers
  import opened Text
  import opened Store

  /** The icon choices of the save popup, as (label, icon path). */
  const SaveIcons: seq<(string, string)> :=
    [("Home", "icons/home.png"), ("Work", "icons/work.png"), ("Family", "icons/family.png")]

  /** `icon_mapping.get(icon_path, "Location")`. */
  function IconLabel(icon: string): string {
    if icon == "icons/home.png" then "Home"
    else if icon == "icons/work.png" then "Work"
    else if icon == "icons/family.png" then "Family"
    else "Location"
  }

  /** The notification labels agree with the save popup's icon names, and
      an icon the popup does not offer is labelled `Location`. */
  lemma IconLabelMatchesSaveIcons(icon: string)
    ensures forall k :: 0 <= k < |SaveIcons| ==> IconLabel(SaveIcons[k].1) == SaveIcons[k].0
    ensures (forall k :: 0 <= k < |SaveIcons| ==> SaveIcons[k].1 != icon) <==> IconLabel(icon) == "Location"
  {
    if IconLabel(icon) == "Location" {
      assert SaveIcons[0].1 != icon && SaveIcons[1].1 != icon && SaveIcons[2].1 != icon;
    } else {
      assert icon in {SaveIcons[0].1, SaveIcons[1].1, SaveIcons[2].1};
    }
  }

  /** The action identifier of the record at `index`:
      `f"{pkg}.copy_address_{index}"`. */
  function ActionId(pkg: string, index: nat): string {
    pkg + ".copy_address_" + NatToString(index)
  }

  /** Different positions get different identifiers, so a tapped action
      names exactly one position. */
  lemma ActionIdInjective(pkg: string, i: nat, j: nat)
    requires ActionId(pkg, i) == ActionId(pkg, j)
    ensures i == j
  {
    var prefix := pkg + ".copy_address_";
    assert NatToString(i) == ActionId(pkg, i)[|prefix|..];
    assert NatToString(j) == ActionId(pkg, j)[|prefix|..];
    NatToStringInjective(i, j);
  }

  /** One action button: its identifier, its title (the icon label), the
      `address` extra of its intent and the request code of its pending
      intent. */
  datatype Action = Action(id: string, title: string, address: string, requestCode: int)

  /** The request codes start at 1000. */
  const RequestCodeBase: int := 1000

  /** The action built for the record at `index`. */
  function ActionFor(pkg: string, saved: seq<SavedLocation>, index: nat): Action
    requires index < |saved|
  {
    Action(ActionId(pkg, index), IconLabel(saved[index].icon), saved[index].address, RequestCodeBase + index)
  }

  /** Two buttons of one notification never share an identifier or a
      request code, so no pending intent replaces another. */
  lemma ActionsDistinct(pkg: string, saved: seq<SavedLocation>, i: nat, j: nat)
    requires i < |saved| && j < |saved| && i != j
    ensures ActionFor(pkg, saved, i).id != ActionFor(pkg, saved, j).id
    ensures ActionFor(pkg, saved, i).requestCode != ActionFor(pkg, saved, j).requestCode
  {
    if ActionFor(pkg, saved, i).id == ActionFor(pkg, saved, j).id {
      ActionIdInjective(pkg, i, j);
    }
  }

  /** The `enumerate` loop of `send_notification`: no notification without
      saved records, and otherwise one action per record, in order. */
  method BuildNotificationActions(pkg: string, saved: seq<SavedLocation>) returns (actions: Option<seq<Action>>)
    ensures actions.None? <==> saved == []
    ensures actions.Some? ==>
      |actions.value| == |saved| && forall i :: 0 <= i < |saved| ==> actions.value[i] == ActionFor(pkg, saved, i)
  {
    if saved == [] {
      return None;
    }
    var built: seq<Action> := [];
    var index := 0;
    while index < |saved|
      invariant 0 <= index <= |saved|
      invariant |built| == index
      invariant forall i :: 0 <= i < index ==> built[i] == ActionFor(pkg, saved, i)
    {
      var location := saved[index];
      var iconText := IconLabel(location.icon);
      var action := Action(ActionId(pkg, index), iconText, location.address, RequestCodeBase + index);
      assert action == ActionFor(pkg, saved, index);
      built := built + [action];
      index := index + 1;
    }
    return Some(built);
  }

  /** The actions `register_broadcast_receiver` listens to: none without
      saved records (no receiver), and otherwise one identifier per index. */
  function RegisteredActions(pkg: string, saved: seq<SavedLocation>): Option<seq<string>> {
    if saved == [] then None
    else Some(seq(|saved|, i requires 0 <= i < |saved| => ActionId(pkg, i)))
  }

  /** The receiver listens to exactly the identifiers of the notification's
      buttons, each at its own position and nowhere else. */
  lemma RegisteredActionsMatchButtons(pkg: string, saved: seq<SavedLocation>, i: nat)
    requires i < |saved|
    ensures RegisteredActions(pkg, saved).Some?
    ensures var ids := RegisteredActions(pkg, saved).value;
            && |ids| == |saved|
            && forall j :: 0 <= j < |ids| ==> (ids[j] == ActionFor(pkg, saved, i).id <==> j == i)
  {
    var ids := RegisteredActions(pkg, saved).value;
    forall j | 0 <= j < |ids| && ids[j] == ActionFor(pkg, saved, i).id ensures j == i {
      ActionIdInjective(pkg, j, i);
    }
  }

  /** `handle_broadcast`: the `address` extra is copied to the clipboard
      only when it is present, non-empty and not the text `None`. */
  function CopiedAddress(extra: Option<string>): (copied: Option<string>)
    ensures copied.Some? ==> extra == copied
  {
    if extra.Some? && extra.value != "" && extra.value != "None" then extra else None
  }

  /** Tapping the button of the record at `i` copies that record's address,
      unless it is empty or the text `None`. */
  lemma TapCopiesRecordAddress(pkg: string, saved: seq<SavedLocation>, i: nat)
    requires i < |saved|
    ensures CopiedAddress(Some(ActionFor(pkg, saved, i).address)) ==
              if saved[i].address == "" || saved[i].address == "None" then None else Some(saved[i].address)
  {
  }
}

/**
 * The saved-location store: the list of records kept in
 * `saved_locations.json`, and the save, overwrite and delete operations of
 * the "Save Location" and "Saved Locations" popups.  The file becomes a
 * field; reading and writing it become reading and assigning the field.
 */
module Store {
  import opened Wrappers

  /** One saved record with its four JSON fields. */
  datatype SavedLocation = SavedLocation(originalAddress: string, address: string, description: string, icon: string)

  /** At most one record per icon slot. */
  predicate UniqueIcons(s: seq<SavedLocation>) {
    forall i, j :: 0 <= i < j < |s| ==> s[i].icon != s[j].icon
  }

  /** The position of the first occurrence of `x` in `s`. */
  function IndexOf(s: seq<SavedLocation>, x: SavedLocation): (k: nat)
    requires x in s
    ensures k < |s| && s[k] == x && x !in s[..k]
  {
    if s[0] == x then 0 else 1 + IndexOf(s[1..], x)
  }

  /** Python's `list.remove(x)` on a list that holds `x`: the first
      element equal to `x` is dropped. */
  function RemoveFirst(s: seq<SavedLocation>, x: SavedLocation): seq<SavedLocation>
    requires x in s
  {
    if s[0] == x then s[1..] else [s[0]] + RemoveFirst(s[1..], x)
  }

  /** `list.remove(x)` cuts out exactly the first occurrence of `x`. */
  lemma {:induction false} RemoveFirstIsSplice(s: seq<SavedLocation>, x: SavedLocation)
    requires x in s
    ensures RemoveFirst(s, x) == s[..IndexOf(s, x)] + s[IndexOf(s, x) + 1..]
    decreases |s|
  {
    if s[0] != x {
      var t := s[1..];
      var k := IndexOf(t, x);
      assert IndexOf(s, x) == k + 1;
      RemoveFirstIsSplice(t, x);
      assert RemoveFirst(s, x) == [s[0]] + (t[..k] + t[k + 1..]);
      assert s[..k + 1] == [s[0]] + t[..k];
      assert s[k + 2..] == t[k + 1..];
    }
  }

  /** `list.remove(x)` leaves one element fewer: one copy of `x` goes and
      every other element stays. */
  lemma RemoveFirstCount(s: seq<SavedLocation>, x: SavedLocation)
    requires x in s
    ensures |RemoveFirst(s, x)| == |s| - 1
    ensures multiset(RemoveFirst(s, x)) == multiset(s) - multiset{x}
  {
    RemoveFirstIsSplice(s, x);
    var k := IndexOf(s, x);
    assert s == s[..k] + [x] + s[k + 1..];
  }

  /** The comprehension of `delete_address`: the records whose `address`
      differs from the given one. */
  function WithoutAddress(s: seq<SavedLocation>, address: string): seq<SavedLocation>
    decreases |s|
  {
    if s == [] then []
    else (if s[0].address != address then [s[0]] else []) + WithoutAddress(s[1..], address)
  }

  /** A record survives the deletion exactly when it was there and its
      address differs from the deleted one: no record with that address is
      left, and no other record is lost. */
  lemma {:induction false} WithoutAddressMembers(s: seq<SavedLocation>, address: string)
    ensures forall r :: r in WithoutAddress(s, address) <==> r in s && r.address != address
    decreases |s|
  {
    if s != [] {
      WithoutAddressMembers(s[1..], address);
      assert s == [s[0]] + s[1..];
    }
  }

  /** Deleting works piecewise, so the survivors keep their order. */
  lemma {:induction false} WithoutAddressAppend(a: seq<SavedLocation>, b: seq<SavedLocation>, address: string)
    ensures WithoutAddress(a + b, address) == WithoutAddress(a, address) + WithoutAddress(b, address)
    decreases |a|
  {
    if a == [] {
      assert a + b == b;
    } else {
      WithoutAddressAppend(a[1..], b, address);
      var head := if a[0].address != address then [a[0]] else [];
      assert (a + b)[0] == a[0] && (a + b)[1..] == a[1..] + b;
      assert WithoutAddress(a + b, address) == head + WithoutAddress(a[1..] + b, address);
      assert WithoutAddress(a, address) == head + WithoutAddress(a[1..], address);
    }
  }

  /** Deleting an address that no record has is a no-op, not an error. */
  lemma {:induction false} WithoutAbsentAddress(s: seq<SavedLocation>, address: string)
    requires forall k :: 0 <= k < |s| ==> s[k].address != address
    ensures WithoutAddress(s, address) == s
    decreases |s|
  {
    if s != [] {
      WithoutAbsentAddress(s[1..], address);
    }
  }

  /** Deleting keeps at most one record per icon. */
  lemma {:induction false} WithoutAddressKeepsUniqueIcons(s: seq<SavedLocation>, address: string)
    requires UniqueIcons(s)
    ensures UniqueIcons(WithoutAddress(s, address))
    decreases |s|
  {
    if s != [] {
      WithoutAddressKeepsUniqueIcons(s[1..], address);
      WithoutAddressMembers(s[1..], address);
      var rest := WithoutAddress(s[1..], address);
      forall k | 0 <= k < |rest| ensures rest[k].icon != s[0].icon {
        assert rest[k] in s[1..];
      }
    }
  }

  /** Appending a record whose icon no record holds keeps at most one
      record per icon. */
  lemma AppendNewIconKeepsUniqueIcons(s: seq<SavedLocation>, r: SavedLocation)
    requires UniqueIcons(s)
    requires forall k :: 0 <= k < |s| ==> s[k].icon != r.icon
    ensures UniqueIcons(s + [r])
  {
  }

  /** Cutting one record out keeps at most one record per icon, and no
      remaining record holds the icon of the one cut out. */
  lemma SpliceKeepsUniqueIcons(s: seq<SavedLocation>, i: nat, rest: seq<SavedLocation>)
    requires UniqueIcons(s) && i < |s| && rest == s[..i] + s[i + 1..]
    ensures UniqueIcons(rest)
    ensures forall k :: 0 <= k < |rest| ==> rest[k].icon != s[i].icon
  {
    assert forall k :: 0 <= k < i ==> rest[k] == s[k];
    assert forall k :: i <= k < |rest| ==> rest[k] == s[k + 1];
  }

  /** The confirmed overwrite keeps the length, keeps at most one record
      per icon, and leaves the new record the sole holder of its icon. */
  lemma OverwriteKeepsUniqueIcons(s: seq<SavedLocation>, existing: SavedLocation, r: SavedLocation)
    requires UniqueIcons(s) && existing in s && existing.icon == r.icon
    ensures var t := RemoveFirst(s, existing) + [r];
            && |t| == |s|
            && UniqueIcons(t)
            && t[|t| - 1] == r
            && forall k :: 0 <= k < |t| - 1 ==> t[k].icon != r.icon
  {
    RemoveFirstIsSplice(s, existing);
    var i := IndexOf(s, existing);
    var rest := RemoveFirst(s, existing);
    SpliceKeepsUniqueIcons(s, i, rest);
    var t := rest + [r];
    assert forall k :: 0 <= k < |rest| ==> t[k] == rest[k];
  }

  /** What `save_location` reports. */
  datatype SaveOutcome =
    | IconRequired                    // no icon chosen: a warning, nothing saved
    | IconTaken(existing: SavedLocation, saved: seq<SavedLocation>)  // the icon is in use: ask before overwriting
    | Saved                           // appended and written

  /** The store of saved locations, with `records` standing for the content
      of `saved_locations.json`. */
  class LocationStore {
    var records: seq<SavedLocation>

    /** No file yet: `load_saved_locations` reads an empty list. */
    constructor ()
      ensures records == []
    {
      records := [];
    }

    /** `load_saved_locations`. */
    method Load() returns (saved: seq<SavedLocation>)
      ensures saved == records
    {
      saved := records;
    }

    /** `save_saved_locations`: the whole list replaces the file. */
    method Write(saved: seq<SavedLocation>)
      modifies this
      ensures records == saved
    {
      records := saved;
    }

    /** `save_new_location`: the new record is appended to the list that
        was read and the list is written back. */
    method SaveNewLocation(saved: seq<SavedLocation>, r: SavedLocation)
      modifies this
      ensures records == saved + [r]
    {
      var list := saved + [r];
      Write(list);
    }

    /** `save_location`: refuse without an icon; stop at the first record
        that already holds the icon; append the new record otherwise. */
    method SaveLocation(selectedIcon: Option<string>, originalAddress: string, address: string, description: string)
      returns (outcome: SaveOutcome)
      modifies this
      ensures selectedIcon.None? || selectedIcon.value == "" ==>
                outcome == IconRequired && records == old(records)
      ensures selectedIcon.Some? && selectedIcon.value != "" ==>
                if exists k :: 0 <= k < |old(records)| && old(records)[k].icon == selectedIcon.value then
                  && outcome.IconTaken?
                  && records == old(records) && outcome.saved == old(records)
                  && outcome.existing in old(records) && outcome.existing.icon == selectedIcon.value
                  && exists k :: 0 <= k < |old(records)| && old(records)[k] == outcome.existing
                       && forall j :: 0 <= j < k ==> old(records)[j].icon != selectedIcon.value
                else
                  && outcome == Saved
                  && records == old(records) + [SavedLocation(originalAddress, address, description, selectedIcon.value)]
      ensures outcome.Saved? && UniqueIcons(old(records)) ==> UniqueIcons(records)
    {
      if selectedIcon.None? || selectedIcon.value == "" {
        return IconRequired;
      }
      var icon := selectedIcon.value;
      var saved := Load();
      var i := 0;
      while i < |saved|
        invariant 0 <= i <= |saved|
        invariant forall j :: 0 <= j < i ==> saved[j].icon != icon
      {
        if saved[i].icon == icon {
          return IconTaken(saved[i], saved);
        }
        i := i + 1;
      }
      var r := SavedLocation(originalAddress, address, description, icon);
      SaveNewLocation(saved, r);
      if UniqueIcons(saved) {
        AppendNewIconKeepsUniqueIcons(saved, r);
      }
      outcome := Saved;
    }

    /** The "Yes" of `ask_overwrite`: `list.remove(existing)` on the list
        that `save_location` read, then `save_new_location` with it.
        `list.remove` raises when `existing` is not in that list; then
        nothing is written and `ok` is false. */
    method Overwrite(saved: seq<SavedLocation>, existing: SavedLocation,
                     originalAddress: string, address: string, description: string, icon: string)
      returns (ok: bool)
      modifies this
      ensures ok == (existing in saved)
      ensures ok ==> records == RemoveFirst(saved, existing) + [SavedLocation(originalAddress, address, description, icon)]
      ensures !ok ==> records == old(records)
      ensures ok ==> |records| == |saved|
      ensures ok && UniqueIcons(saved) && existing.icon == icon ==>
                UniqueIcons(records) && forall k :: 0 <= k < |records| - 1 ==> records[k].icon != icon
    {
      if existing !in saved {
        return false;
      }
      var r := SavedLocation(originalAddress, address, description, icon);
      RemoveFirstCount(saved, existing);
      if UniqueIcons(saved) && existing.icon == icon {
        OverwriteKeepsUniqueIcons(saved, existing, r);
      }
      SaveNewLocation(RemoveFirst(saved, existing), r);
      ok := true;
    }

    /** `delete_address`: keep the records whose address differs, and
        write them back. */
    method DeleteAddress(address: string)
      modifies this
      ensures records == WithoutAddress(old(records), address)
      ensures forall k :: 0 <= k < |records| ==> records[k].address != address
      ensures (forall k :: 0 <= k < |old(records)| ==> old(records)[k].address != address) ==> records == old(records)
      ensures UniqueIcons(old(records)) ==> UniqueIcons(records)
    {
      var saved := Load();
      WithoutAddressMembers(saved, address);
      if forall k :: 0 <= k < |saved| ==> saved[k].address != address {
        WithoutAbsentAddress(saved, address);
      }
      if UniqueIcons(saved) {
        WithoutAddressKeepsUniqueIcons(saved, address);
      }
      Write(WithoutAddress(saved, address));
      assert forall k :: 0 <= k < |records| ==> records[k] in records;
    }
  }

  /** Two saves under the Home icon: the second is refused with the first
      record as the conflict and leaves the store alone, and the confirmed
      overwrite leaves exactly one Home record, the second one. */
  method SaveTwiceUnderOneIcon(store: LocationStore, first: SavedLocation, second: SavedLocation)
    requires store.records == []
    requires first.icon == "icons/home.png" && second.icon == "icons/home.png"
    modifies store
    ensures store.records == [second]
  {
    var o1 := store.SaveLocation(Some(first.icon), first.originalAddress, first.address, first.description);
    assert store.records == [first];
    var o2 := store.SaveLocation(Some(second.icon), second.originalAddress, second.address, second.description);
    assert store.records[0].icon == second.icon;
    assert o2 == IconTaken(first, [first]) && store.records == [first];
    var ok := store.Overwrite(o2.saved, o2.existing, second.originalAddress, second.address, second.description, second.icon);
    assert ok;
  }
}

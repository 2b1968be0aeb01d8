# DeLocator anonymization engine in Dafny

DeLocator is a mobile app that replaces a real address with the address of
a public place nearby: a restaurant, a bank, a pharmacy. It can also keep
up to one saved location per icon (Home, Work, Family) and offer each saved
address as a button of an Android notification. This project models the
logic behind those features in `App/main.py`:

- **Places** (`places.dfy`): `determine_category_from_tags`, the
  `PLACE_CATEGORIES` table it mirrors, `is_valid_address` and
  `extract_address_from_tags`.
- **Fetch** (`fetch.dfy`): the element loop of `get_places_with_fallback`.
  It skips elements without truthy coordinates or tags and keeps those with
  a street and a city. Each kept element becomes `street, city`, its
  coordinates become `(lon, lat)`, and the loop stops at ten entries. The
  HTTP request is an input, the `Response` it produced.
- **Selection** (`selection.dfy`): `_perform_api_calls`. A saved record with
  the same original address wins. Otherwise the geocoder's answer and the
  place list decide between "Address Not Found", "No Locations Found" and a
  randomly chosen place.
- **Store** (`store.dfy`): the file `saved_locations.json` as a class with a
  `seq` field.
  - `save_location` refuses a missing icon, reports the first record that
    already holds the icon, and otherwise appends.
  - The confirmed overwrite is `list.remove` followed by an append.
  - `delete_address` filters.
- **Notify** (`notify.dfy`): the action buttons of `send_notification`
  (identifier, icon label, address, request code) and the identifiers
  `register_broadcast_receiver` listens to. It also covers the test
  `handle_broadcast` applies before copying an address.
- **Text** (`text.dfy`): the pieces of Python string behaviour the code
  relies on.
  - `str.strip()` scans like CPython: forward, then backward.
  - `", ".join`.
  - The decimal rendering of an index in an f-string.
- **Wrappers** (`wrappers.dfy`): `Option`, for Python values that may be
  `None`.

Behaviour that follows the code as written:

- A coordinate is truthy when it is present and not `0.0`. An element at
  latitude or longitude exactly `0.0` is therefore skipped.
- A failed request, a non-200 status and an exception all give the empty
  place list. They then lead to the "No Locations Found" popup, not to a
  separate transport error.
- `determine_category_from_tags`, `is_valid_address` and
  `extract_address_from_tags` are not called by the fetch loop. The loop
  builds `street, city` and `amenity or shop or 'Unknown'` itself, and the
  model does the same.

## Model

| member | source | states |
|---|---|---|
| Places.Get | App/main.py:83-86 | Models `tags.get(key, "")`: the value under the key, and the empty string when the key is missing (also the reads at 229-232); used by every lemma about the tags |
| Places.DetermineCategory | App/main.py:78-101 | Models the if/elif chain over `amenity`, `shop`, `leisure` and `highway`, reading a missing tag as ""; its properties are CategoryFollowsTable, CategoryIsFirstMatchingRule and CategoryPriorityExamples |
| Places.Category.Name | App/main.py:88-101 | The string returned is one of the seven names the chain returns |
| Places.NameInjective | App/main.py:88-101 | Two categories with the same name are the same category, so the returned string identifies the category |
| Places.FirstMatchIndex | App/main.py:78-101 | The index found is the first rule (at or after the start) that selects the tags: no earlier rule selects, and the found one does unless it is past the table |
| Places.KeyFiltersMatch | App/main.py:47-76 | A list of `key=value` filters on one key selects exactly the tags whose value for that key is one of the listed values |
| Places.DiningRule | App/main.py:48-53 | The Dining row of the table selects exactly the amenity values of the first branch |
| Places.ShoppingRule | App/main.py:54-58 | The Shopping row selects exactly the shop values of the second branch |
| Places.HealthcareRule | App/main.py:59-61 | The Healthcare row selects exactly `amenity=pharmacy` |
| Places.ServicesRule | App/main.py:62-67 | The Services row selects exactly the amenity values of the fourth branch |
| Places.TransportRule | App/main.py:68-70 | The Transport row selects exactly `highway=bus_stop` |
| Places.RecreationRule | App/main.py:71-74 | The Recreation row selects exactly `leisure=park` or `shop=hairdresser` |
| Places.CategoryFollowsTable | App/main.py:78-101 | The if/elif chain gives the same category as the table read first-match |
| Places.CategoryIsFirstMatchingRule | App/main.py:88-101 | Other exactly when no rule selects the tags; otherwise the category of a selecting rule that no earlier rule precedes (the earlier rule wins) |
| Places.CategoryPriorityExamples | App/main.py:88-95 | `amenity=cafe` is Dining whatever the shop tag; pharmacy beats hairdresser; a supermarket is Shopping unless the amenity is a Dining value |
| Places.IsValidAddress | App/main.py:104-108 | Models `is_valid_address`: the address is not None and is non-empty after `strip()`; characterised by IsValidAddressIff |
| Places.IsValidAddressIff | App/main.py:104-108 | An address is valid exactly when it holds a non-whitespace character |
| Places.AssembleAddress | App/main.py:235-249 | Models the assembly of the address: street and house number joined by a space, postcode and city joined by a space, the two joined by `", "`; stated by AssembleAddressCases and AssembleAddressBounds |
| Places.AssembleAddressCases | App/main.py:235-249 | The assembled address is exactly one of the four house number / postcode shapes |
| Places.AssembleAddressBounds | App/main.py:235-249 | The assembled address starts with the street and ends with the city |
| Places.ExtractAddress | App/main.py:223-255 | No address exactly when the stripped street or the stripped city is empty |
| Places.ExtractAddressReadsOnlyAddressTags | App/main.py:229-255 | Two tag maps that agree on the four address keys give the same result, whatever name, brand or operator tags they hold |
| Places.ExtractedAddressIsValid | App/main.py:234-251 | An accepted address starts with the stripped street, ends with the stripped city, and passes `is_valid_address` |
| Places.StripNoSpaceEnds | App/main.py:229-232 | A non-empty value with no whitespace at either end is kept unchanged by the stripping |
| Places.PlainAddress | App/main.py:229-249 | Clean street and city with no house number or postcode give exactly `street, city` |
| Places.TriesteRestaurant | App/main.py:223-249 | A restaurant on Via Roma in Trieste with no number or postcode gives `Via Roma, Trieste` and Dining |
| Places.NamedDinerDiscarded | App/main.py:253-255 | A record with only a name and an amenity is discarded |
| Text.IsSpace | App/main.py:108 | Models the whitespace test of `str.strip()`: the characters CPython's `isspace` accepts (also used at 229-232) |
| Text.Strip | App/main.py:229-232 | Models `str.strip()` as the slice between the forward and the backward scan (also used at 108); characterised by StripIsTrimmedSlice and StripEmptyIff |
| Text.LeadingEnd | App/main.py:229-232 | The forward scan stops at the first non-whitespace character, or at the end when there is none |
| Text.TrailingStart | App/main.py:229-232 | The backward scan stops just past the last non-whitespace character, or at the front scan's stop |
| Text.StripIsTrimmedSlice | App/main.py:229-232 | `strip()` gives the slice with only whitespace on either side, and its result neither starts nor ends with whitespace |
| Text.StripEmptyIff | App/main.py:108 | `strip()` gives the empty string exactly when the input is all whitespace |
| Text.Join | App/main.py:249 | Models `sep.join(parts)`: the parts in order with the separator between consecutive ones; stated for two parts by JoinTwo |
| Text.JoinTwo | App/main.py:247 | Joining two parts with `", "` puts the separator between them once |
| Text.DigitChar | App/main.py:1365 | A digit below ten renders as the digit character of that value |
| Text.NatToString | App/main.py:1365 | An index renders as a non-empty string of decimal digits |
| Text.ParseNatToString | App/main.py:1365 | Reading the rendering back gives the index |
| Text.NatToStringInjective | App/main.py:1365 | Different indices render differently |
| Fetch.Truthy | App/main.py:152 | Models Python truthiness of a coordinate: present and different from 0.0 |
| Fetch.Accepts | App/main.py:150-164 | Models the tests an element passes: truthy `lat` and `lon`, non-empty `tags`, non-empty street and city |
| Fetch.Or | App/main.py:170 | Models `a or b` on strings: `a` unless it is empty |
| Fetch.ToAmenity | App/main.py:165-177 | Models the entry appended for an accepted element: `street, city`, coordinates `(lon, lat)`, category `amenity or shop or 'Unknown'` and the tags |
| Fetch.Accepted | App/main.py:147-177 | Models the entries of all accepted elements in input order, without the cap; stated by AcceptedPositionsExact, AcceptedOrigins and AcceptedAppend |
| Fetch.Candidates | App/main.py:147-182 | Models the loop's result: the accepted entries cut at ten; stated by CandidatesCap, CandidatesFromElements and RejectedIsIgnored |
| Fetch.AcceptedAppend | App/main.py:147-177 | The element filter works piecewise over concatenated inputs |
| Fetch.RejectedIsIgnored | App/main.py:150-164 | Removing a rejected element changes nothing: rejected elements never count toward the cap |
| Fetch.AcceptedPositions | App/main.py:147-177 | There is one position per accepted entry, and each lies inside the input |
| Fetch.AcceptedPositionsIncreasing | App/main.py:147-177 | The positions strictly increase, so the entries keep the input order |
| Fetch.AcceptedPositionsExact | App/main.py:150-164 | A position is listed exactly when the element there is accepted |
| Fetch.AcceptedOrigins | App/main.py:161-177 | Each entry is built from the accepted element at its position |
| Fetch.CandidatesCap | App/main.py:180-182 | At most ten entries: ten when at least ten are accepted, all of them otherwise, and always the earliest ones |
| Fetch.CandidatesFromElements | App/main.py:147-177 | Every returned entry comes from an accepted element, in order, with address `street, city` and coordinates `(lon, lat)` |
| Fetch.CapReachedAt | App/main.py:180-182 | Once a prefix yields ten entries, the rest of the input is irrelevant |
| Fetch.CapNotReached | App/main.py:145-189 | Below the cap every accepted entry is returned |
| Fetch.AcceptedStep | App/main.py:147-177 | One more element adds its own entry, or nothing |
| Fetch.CollectAmenities | App/main.py:145-189 | The loop with its `continue`s and its `break` returns exactly the capped accepted entries |
| Fetch.GetPlacesWithFallback | App/main.py:133-193 | No places for a failed request or a non-200 status; the capped accepted entries of the elements otherwise |
| Selection.FindSavedOriginal | App/main.py:872-877 | The position of the first saved record with the input as original address, or none when no record has it |
| Selection.PerformApiCalls | App/main.py:861-923 | A saved match shows the first matching record. Otherwise: no geocoder answer gives Address Not Found; no places gives No Locations Found; else the drawn place is shown with its `(lat, lon)` swapped back, and it is one of the candidates |
| Store.UniqueIcons | App/main.py:628-635 | Models the invariant the save path keeps: no two records share an icon; preserved by AppendNewIconKeepsUniqueIcons, OverwriteKeepsUniqueIcons and WithoutAddressKeepsUniqueIcons |
| Store.IndexOf | App/main.py:640 | The index of the first occurrence of a record in the list |
| Store.RemoveFirst | App/main.py:640 | Models `list.remove`: the list without its first occurrence of the record; stated by RemoveFirstIsSplice and RemoveFirstCount |
| Store.RemoveFirstIsSplice | App/main.py:640 | `list.remove` cuts out exactly the first occurrence |
| Store.RemoveFirstCount | App/main.py:640 | `list.remove` drops one element and one copy of the record, and keeps all others |
| Store.WithoutAddress | App/main.py:1073 | Models the comprehension that keeps the records whose address differs; stated by WithoutAddressMembers, WithoutAddressAppend and WithoutAbsentAddress |
| Store.WithoutAddressMembers | App/main.py:1073 | A record survives the delete exactly when it was there and its address differs |
| Store.WithoutAddressAppend | App/main.py:1073 | The delete works piecewise, so the survivors keep their order |
| Store.WithoutAbsentAddress | App/main.py:1073 | Deleting an address no record has leaves the list unchanged |
| Store.WithoutAddressKeepsUniqueIcons | App/main.py:1073 | The delete keeps at most one record per icon |
| Store.AppendNewIconKeepsUniqueIcons | App/main.py:630-635 | Appending under an unused icon keeps at most one record per icon |
| Store.SpliceKeepsUniqueIcons | App/main.py:640 | Cutting one record out keeps icons unique, and none of the rest holds its icon |
| Store.OverwriteKeepsUniqueIcons | App/main.py:639-641 | The overwrite keeps the length and unique icons, and the new record is the only holder of its icon |
| Store.LocationStore.constructor | App/main.py:1468-1474 | With no file the store reads as the empty list |
| Store.LocationStore.Load | App/main.py:1468-1474 | Loading returns the stored list |
| Store.LocationStore.Write | App/main.py:1477-1479 | Writing replaces the whole stored list |
| Store.LocationStore.SaveNewLocation | App/main.py:686-695 | The new record is appended to the list that was read, and that list is written |
| Store.LocationStore.SaveLocation | App/main.py:613-635 | No icon: nothing changes. Icon in use: nothing changes, and the first holder is returned with the list read. Otherwise: the record is appended. Saving keeps unique icons |
| Store.LocationStore.Overwrite | App/main.py:639-641 | Succeeds exactly when the record is in the list. Then the list minus its first occurrence, plus the new record, is written, with the same length and unique icons kept. Otherwise nothing changes |
| Store.LocationStore.DeleteAddress | App/main.py:1070-1074 | The filtered list is written: no record with the address remains, an absent address changes nothing, and unique icons are kept |
| Store.SaveTwiceUnderOneIcon | App/main.py:613-695 | Saving twice under Home and confirming the overwrite leaves exactly the second record |
| Notify.IconLabel | App/main.py:1349-1359 | Models `icon_mapping.get(icon, "Location")`: Home, Work or Family for the three icon paths and Location for any other; stated by IconLabelMatchesSaveIcons |
| Notify.IconLabelMatchesSaveIcons | App/main.py:1349-1359 | The notification labels match the names of the save popup's icons, and any other icon is labelled Location |
| Notify.ActionId | App/main.py:1365 | Models `f"{pkg}.copy_address_{index}"` with the index in decimal; stated by ActionIdInjective |
| Notify.ActionFor | App/main.py:1356-1385 | Models the action button for the record at an index: its identifier, icon label, address and request code 1000 + index; stated by ActionsDistinct |
| Notify.ActionIdInjective | App/main.py:1365 | Different record positions get different action identifiers |
| Notify.ActionsDistinct | App/main.py:1365-1377 | Two buttons never share an identifier or a request code |
| Notify.BuildNotificationActions | App/main.py:1313-1385 | No notification without saved records; otherwise one action per record, in order, with that record's label and address |
| Notify.RegisteredActions | App/main.py:1419 | Models the list of action identifiers registered with the receiver, none when no record is saved; stated by RegisteredActionsMatchButtons |
| Notify.RegisteredActionsMatchButtons | App/main.py:1404-1426 | The receiver listens to exactly the buttons' identifiers, and each identifier names one position |
| Notify.CopiedAddress | App/main.py:1283-1291 | Whatever is copied is the address extra itself |
| Notify.TapCopiesRecordAddress | App/main.py:1283-1291 | Tapping a record's button copies its address, unless that address is empty or the text `None` |

## Left out

- The Kivy user interface is not modelled: widgets, popups, map markers and the legend. The model returns which popup or map update would follow.
- Network calls are not modelled. The Overpass request and the Nominatim geocoder are inputs: the `Response` and the `Geocoded` answer.
- Threads, `Clock.schedule_once` and the submit button state are not modelled, because they concern concurrency and scheduling.
- JSON file I/O is not modelled. The file is the `records` field, and a missing file reads as the empty list.
- Any record shape other than four string fields is not modelled, and neither is a JSON value that is not a string where the code expects one. The per-element `try`/`except` of the fetch loop (App/main.py:184-186) guards against such values and has no counterpart.
- Fetch.CandidatesCap and Fetch.CollectAmenities assume that the log `print` after each append (App/main.py:178) never raises. In the source an exception there is caught by the per-element `except` after the append (172-177) and before the cap test (181-182). The element stays in the list without the test, so more than ten entries can come back.
- `random.choice` is represented by an arbitrary number `choice`. The place drawn is the one at `choice % |places|`, which covers every index.
- Coordinates are opaque numbers. Only their truth value is tested, and no floating-point arithmetic is modelled.
- Android integration is left out: jnius calls, pending intent flags, channel setup, SDK version branches and re-registering the receiver. Only the per-record mapping to identifier, label, address and request code is kept.
- Selection.PerformApiCalls does not model `_update_ui_with_saved_location`, which geocodes the saved record's two addresses again to place markers. The model returns the saved record.
- Selection.PerformApiCalls does not model exceptions raised by `load_saved_locations` (App/main.py:872) on a malformed file or by `loc.geocode` (880) on a timeout or service failure. Its `geocoded` input has no failure case. In the source such an exception leaves `_perform_api_calls` and reaches the handler of `api_thread` (839-848). That handler schedules an "API Error" popup through a lambda that reads `e`, but Python 3 unbinds `e` at the end of the `except` block. As written, the lambda raises `NameError` inside a Kivy `Clock` callback and no popup appears. The `finally` (846-848) schedules `_reset_submit_button` after that lambda; whether the reset runs after the `NameError` depends on Kivy's exception handling, which the source does not configure. The inner "API Error" handler around `get_places_with_fallback` (892-897) cannot fire in practice. That function catches everything from its `try` (133) on, and the `print` and the query f-string before it (118-131) do not raise for a geopy `Location`.
- Selection.PerformApiCalls does not model the "No Valid Addresses" popup as a branch. It comes after the non-empty test on the same list, so it cannot be reached.
- Places.IsValidAddress drops the `tags` parameter, which `is_valid_address` never reads.

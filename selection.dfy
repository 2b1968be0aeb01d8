/**
 * The decision part of `_perform_api_calls`: reuse the saved anonymised
 * address for an input that was saved before, and otherwise pick one of
 * the nearby places at random.  Geocoding and the place query are calls to
 * remote services; their answers are inputs here, and `random.choice` is
 * an arbitrary valid index.
 */
module Selection {
  import opened Wrappers
  import opened Fetch
  import opened Store

  /** What the geocoder answered for the input text. */
  datatype Geocoded = Geocoded(address: string, lat: Number, lon: Number)

  /** How the map is updated, or which error popup is shown. */
  datatype Anonymized =
    | ShowSaved(saved: SavedLocation)         // `_update_ui_with_saved_location`
    | AddressNotFound                        // "Address Not Found"
    | NoLocationsFound                       // "No Locations Found"
    | ShowNew(place: string, lat: Number, lon: Number, original: Geocoded)  // `_update_ui_with_new_location`

  /** The scan over the saved records: the position of the first record
      whose `original_address` is `address`, if any. */
  method FindSavedOriginal(saved: seq<SavedLocation>, address: string) returns (found: Option<nat>)
    ensures found.Some? ==>
      && found.value < |saved|
      && saved[found.value].originalAddress == address
      && forall j :: 0 <= j < found.value ==> saved[j].originalAddress != address
    ensures found.None? ==> forall j :: 0 <= j < |saved| ==> saved[j].originalAddress != address
  {
    var i := 0;
    while i < |saved|
      invariant 0 <= i <= |saved|
      invariant forall j :: 0 <= j < i ==> saved[j].originalAddress != address
    {
      if saved[i].originalAddress == address {
        return Some(i);
      }
      i := i + 1;
    }
    return None;
  }

  /** `_perform_api_calls` without its remote calls.  `geocoded` is the
      geocoder's answer for `address`, `response` the outcome of the place
      query around it, and `choice` stands for the draw of `random.choice`,
      which picks the place at `choice % |places|`. */
  method PerformApiCalls(saved: seq<SavedLocation>, address: string, geocoded: Option<Geocoded>,
                         response: Response, choice: nat)
    returns (result: Anonymized)
    ensures (exists k :: 0 <= k < |saved| && saved[k].originalAddress == address) ==>
      && result.ShowSaved?
      && exists k ::
           && 0 <= k < |saved| && result.saved == saved[k]
           && saved[k].originalAddress == address
           && forall j :: 0 <= j < k ==> saved[j].originalAddress != address
    ensures (forall k :: 0 <= k < |saved| ==> saved[k].originalAddress != address) ==>
      var places := if response.Response? && response.status == 200 then Candidates(response.elements) else [];
      && (geocoded.None? ==> result == AddressNotFound)
      && (geocoded.Some? && places == [] ==> result == NoLocationsFound)
      && (geocoded.Some? && places != [] ==>
            var place := places[choice % |places|];
            result == ShowNew(place.address, place.coordinates.1, place.coordinates.0, geocoded.value))
    ensures result.ShowNew? ==>
      && response.Response? && response.status == 200
      && exists k :: 0 <= k < |Candidates(response.elements)|
           && Candidates(response.elements)[k].address == result.place
           && Candidates(response.elements)[k].coordinates == (result.lon, result.lat)
  {
    var found := FindSavedOriginal(saved, address);
    if found.Some? {
      return ShowSaved(saved[found.value]);
    }
    if geocoded.None? {
      return AddressNotFound;
    }
    var places := GetPlacesWithFallback(response);
    if places == [] {
      return NoLocationsFound;
    }
    var (place, (lon, lat)) := (places[choice % |places|].address, places[choice % |places|].coordinates);
    result := ShowNew(place, lat, lon, geocoded.value);
  }
}

/**
 * The element loop of `get_places_with_fallback`: turning the `elements`
 * array of an Overpass response into at most ten candidate places.  The
 * HTTP request itself is not modelled; its outcome is an input.
 */
module Fetch {
  import opened Wrappers
  import opened Places

  /** A JSON number of the response.  Only its truth value is tested, so
      no arithmetic on it is modelled. */
  type Number = real

  /** Python truthiness of `element.get('lat')`: present and non-zero. */
  predicate Truthy(x: Option<Number>) {
    x.Some? && x.value != 0.0
  }

  /** One raw element: `lat`, `lon` and `tags` (a missing `tags` key reads
      as the empty map, which is falsy like it). */
  datatype Element = Element(lat: Option<Number>, lon: Option<Number>, tags: Tags)

  /** One entry of `amenities_data`. */
  datatype Amenity = Amenity(address: string, coordinates: (Number, Number), category: string, tags: Tags)

  /** The cap on accepted entries. */
  const MaxAmenities: nat := 10

  /** The element survives every `continue` and the `if street and city`
      test. */
  predicate Accepts(e: Element) {
    && Truthy(e.lat) && Truthy(e.lon)
    && |e.tags| > 0
    && Get(e.tags, "addr:street") != "" && Get(e.tags, "addr:city") != ""
  }

  /** Python's `a or b` on strings. */
  function Or(a: string, b: string): string {
    if a != "" then a else b
  }

  /** The entry built for an accepted element: `street, city`, the
      coordinates as `(lon, lat)`, and `amenity or shop or 'Unknown'`. */
  function ToAmenity(e: Element): Amenity
    requires Accepts(e)
  {
    Amenity(
      Get(e.tags, "addr:street") + ", " + Get(e.tags, "addr:city"),
      (e.lon.value, e.lat.value),
      Or(Or(Get(e.tags, "amenity"), Get(e.tags, "shop")), "Unknown"),
      e.tags)
  }

  /** The entries of all accepted elements, in input order, uncapped. */
  function Accepted(es: seq<Element>): seq<Amenity>
    decreases |es|
  {
    if es == [] then []
    else
      var last := es[|es| - 1];
      Accepted(es[..|es| - 1]) + if Accepts(last) then [ToAmenity(last)] else []
  }

  /** What the loop returns: the first `MaxAmenities` accepted entries. */
  function Candidates(es: seq<Element>): seq<Amenity> {
    var a := Accepted(es);
    if |a| <= MaxAmenities then a else a[..MaxAmenities]
  }

  /** Accepting distributes over concatenation. */
  lemma {:induction false} AcceptedAppend(a: seq<Element>, b: seq<Element>)
    ensures Accepted(a + b) == Accepted(a) + Accepted(b)
    decreases |b|
  {
    if b == [] {
      assert a + b == a;
    } else {
      var b' := b[..|b| - 1];
      var last := b[|b| - 1];
      var tail := if Accepts(last) then [ToAmenity(last)] else [];
      AcceptedAppend(a, b');
      assert (a + b)[..|a + b| - 1] == a + b';
      assert (a + b)[|a + b| - 1] == last;
      assert Accepted(a + b) == Accepted(a + b') + tail;
      assert Accepted(b) == Accepted(b') + tail;
    }
  }

  /** Removing a rejected element changes nothing: rejected elements never
      count toward the cap. */
  lemma RejectedIsIgnored(a: seq<Element>, e: Element, b: seq<Element>)
    requires !Accepts(e)
    ensures Candidates(a + [e] + b) == Candidates(a + b)
  {
    AcceptedAppend(a + [e], b);
    AcceptedAppend(a, [e]);
    AcceptedAppend(a, b);
    assert [e][..0] == [];
    assert Accepted([e]) == [];
    assert Accepted(a + [e]) == Accepted(a);
    assert Accepted(a + [e] + b) == Accepted(a + b);
  }

  /** The positions of the accepted elements, in input order. */
  function AcceptedPositions(es: seq<Element>): (pos: seq<nat>)
    ensures |pos| == |Accepted(es)|
    ensures forall k :: 0 <= k < |pos| ==> pos[k] < |es|
    decreases |es|
  {
    if es == [] then []
    else AcceptedPositions(es[..|es| - 1]) + if Accepts(es[|es| - 1]) then [|es| - 1] else []
  }

  /** The positions are strictly increasing: the entries keep the input
      order. */
  lemma {:induction false} AcceptedPositionsIncreasing(es: seq<Element>)
    ensures forall k, l :: 0 <= k < l < |AcceptedPositions(es)| ==> AcceptedPositions(es)[k] < AcceptedPositions(es)[l]
    decreases |es|
  {
    if es != [] {
      var init := es[..|es| - 1];
      AcceptedPositionsIncreasing(init);
      var p := AcceptedPositions(init);
      var pos := AcceptedPositions(es);
      assert pos == p + if Accepts(es[|es| - 1]) then [|es| - 1] else [];
      forall k, l | 0 <= k < l < |pos| ensures pos[k] < pos[l] {
        assert pos[k] == p[k] && p[k] < |init|;
        if l < |p| {
          assert pos[l] == p[l] && p[k] < p[l];
        } else {
          assert pos[l] == |es| - 1;
        }
      }
    }
  }

  /** A position is listed exactly when its element is accepted. */
  lemma {:induction false} AcceptedPositionsExact(es: seq<Element>)
    ensures forall j :: 0 <= j < |es| ==> (j in AcceptedPositions(es) <==> Accepts(es[j]))
    decreases |es|
  {
    if es != [] {
      var init := es[..|es| - 1];
      AcceptedPositionsExact(init);
      var p := AcceptedPositions(init);
      assert forall j :: 0 <= j < |init| ==> es[j] == init[j];
      assert |es| - 1 !in p;
    }
  }

  /** Each accepted entry is built from the element at its position. */
  lemma {:induction false} AcceptedOrigins(es: seq<Element>)
    ensures forall k :: 0 <= k < |AcceptedPositions(es)| ==>
              Accepts(es[AcceptedPositions(es)[k]]) && Accepted(es)[k] == ToAmenity(es[AcceptedPositions(es)[k]])
    decreases |es|
  {
    if es != [] {
      var init := es[..|es| - 1];
      AcceptedOrigins(init);
      var p := AcceptedPositions(init);
      var acc := Accepted(init);
      var pos := AcceptedPositions(es);
      var last := es[|es| - 1];
      if Accepts(last) {
        assert Accepted(es) == acc + [ToAmenity(last)];
        assert pos == p + [|es| - 1];
        forall k | 0 <= k < |pos| ensures Accepts(es[pos[k]]) && Accepted(es)[k] == ToAmenity(es[pos[k]]) {
          if k < |p| {
            assert pos[k] == p[k] && Accepted(es)[k] == acc[k] && es[p[k]] == init[p[k]];
          } else {
            assert pos[k] == |es| - 1 && Accepted(es)[k] == ToAmenity(last);
          }
        }
      } else {
        assert Accepted(es) == acc && pos == p;
        forall k | 0 <= k < |pos| ensures Accepts(es[pos[k]]) && Accepted(es)[k] == ToAmenity(es[pos[k]]) {
          assert es[p[k]] == init[p[k]];
        }
      }
    }
  }

  /** The cap: never more than `MaxAmenities` entries, exactly that many
      when enough elements are accepted, all of them when fewer are, and
      always the earliest accepted ones. */
  lemma CandidatesCap(es: seq<Element>)
    ensures |Candidates(es)| <= MaxAmenities
    ensures |Candidates(es)| == if |Accepted(es)| < MaxAmenities then |Accepted(es)| else MaxAmenities
    ensures Candidates(es) == Accepted(es)[..|Candidates(es)|]
  {
  }

  /** Every returned entry comes from an accepted input element, with
      address `street, city` and coordinates `(lon, lat)`, and the entries
      keep the input order. */
  lemma CandidatesFromElements(es: seq<Element>) returns (pos: seq<nat>)
    ensures |pos| == |Candidates(es)|
    ensures forall k :: 0 <= k < |pos| ==>
      && pos[k] < |es| && Accepts(es[pos[k]])
      && Candidates(es)[k].address == Get(es[pos[k]].tags, "addr:street") + ", " + Get(es[pos[k]].tags, "addr:city")
      && Candidates(es)[k].coordinates == (es[pos[k]].lon.value, es[pos[k]].lat.value)
    ensures forall k, l :: 0 <= k < l < |pos| ==> pos[k] < pos[l]
  {
    AcceptedOrigins(es);
    AcceptedPositionsIncreasing(es);
    CandidatesCap(es);
    var all := AcceptedPositions(es);
    var c := Candidates(es);
    pos := all[..|c|];
    forall k | 0 <= k < |pos| ensures pos[k] == all[k] && c[k] == Accepted(es)[k] {
    }
  }

  /** Once the accepted entries of a prefix reach the cap, the rest of the
      input is irrelevant. */
  lemma CapReachedAt(es: seq<Element>, i: nat)
    requires i <= |es| && |Accepted(es[..i])| == MaxAmenities
    ensures Candidates(es) == Accepted(es[..i])
  {
    assert es == es[..i] + es[i..];
    AcceptedAppend(es[..i], es[i..]);
  }

  /** Below the cap, every accepted entry is returned. */
  lemma CapNotReached(es: seq<Element>)
    requires |Accepted(es)| < MaxAmenities
    ensures Candidates(es) == Accepted(es)
  {
  }

  /** One more element extends the accepted entries of a prefix by its
      own entry or by nothing. */
  lemma AcceptedStep(es: seq<Element>, i: nat)
    requires i < |es|
    ensures Accepted(es[..i + 1]) == Accepted(es[..i]) + if Accepts(es[i]) then [ToAmenity(es[i])] else []
  {
    assert es[..i + 1][..i] == es[..i];
  }

  /** The `for element in elements` loop, with its `continue`s and its
      `break` at ten accepted entries. */
  method CollectAmenities(elements: seq<Element>) returns (amenities: seq<Amenity>)
    ensures amenities == Candidates(elements)
  {
    amenities := [];
    var i := 0;
    while i < |elements|
      invariant 0 <= i <= |elements|
      invariant amenities == Accepted(elements[..i])
      invariant |amenities| < MaxAmenities
    {
      var element := elements[i];
      AcceptedStep(elements, i);
      ghost var next := Accepted(elements[..i + 1]);
      if !(Truthy(element.lat) && Truthy(element.lon)) {
        assert next == amenities;
        i := i + 1;
        continue;
      }
      var tags := element.tags;
      if |tags| == 0 {
        assert next == amenities;
        i := i + 1;
        continue;
      }
      var street := Get(tags, "addr:street");
      var city := Get(tags, "addr:city");
      if street != "" && city != "" {
        var address := street + ", " + city;
        var category := Or(Or(Get(tags, "amenity"), Get(tags, "shop")), "Unknown");
        amenities := amenities + [Amenity(address, (element.lon.value, element.lat.value), category, tags)];
        assert next == amenities;
        if |amenities| >= MaxAmenities {
          CapReachedAt(elements, i + 1);
          break;
        }
      } else {
        assert next == amenities;
      }
      i := i + 1;
    }
    if i == |elements| {
      assert elements[..i] == elements;
      CapNotReached(elements);
    }
  }

  /** The outcome of the HTTP request: a response with its status code and
      its `elements` array (empty when the key is missing), or an exception
      (transport failure or a body that is not JSON). */
  datatype Response = Response(status: int, elements: seq<Element>) | RequestFailed

  /** `get_places_with_fallback` after its request: no places unless the
      status is 200, and the capped candidates of the elements otherwise. */
  method GetPlacesWithFallback(response: Response) returns (amenities: seq<Amenity>)
    ensures response.RequestFailed? || response.status != 200 ==> amenities == []
    ensures response.Response? && response.status == 200 ==> amenities == Candidates(response.elements)
  {
    if response.RequestFailed? || response.status != 200 {
      return [];
    }
    amenities := CollectAmenities(response.elements);
  }
}

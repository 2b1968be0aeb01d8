/**
 * Candidate validation and categorisation: what the engine makes of the
 * tags of one OpenStreetMap point of interest.  A tag map is a Python
 * dictionary from tag key to tag value; a missing key reads as "".
 */
module Places {
  import opened Wrappers
  import opened Text

  type Tags = map<string, string>

  /** `tags.get(key, "")`. */
  function Get(tags: Tags, key: string): string {
    if key in tags then tags[key] else ""
  }

  /** The closed category taxonomy. */
  datatype Category = Dining | Shopping | Healthcare | Services | Transport | Recreation | Other {

    /** The human-readable string the source returns for the category. */
    function Name(): (s: string)
      ensures s in ["Dining", "Shopping", "Healthcare", "Services", "Transport", "Recreation", "Other"]
    {
      match this
      case Dining => "Dining"
      case Shopping => "Shopping"
      case Healthcare => "Healthcare"
      case Services => "Services"
      case Transport => "Transport"
      case Recreation => "Recreation"
      case Other => "Other"
    }
  }

  /** Different categories have different names, so the returned string
      determines the category. */
  lemma NameInjective(a: Category, b: Category)
    requires a.Name() == b.Name()
    ensures a == b
  {
  }

  /** `determine_category_from_tags`: the if/elif chain over the
      `amenity`, `shop`, `leisure` and `highway` tags. */
  function DetermineCategory(tags: Tags): Category {
    var amenity := Get(tags, "amenity");
    var shop := Get(tags, "shop");
    var leisure := Get(tags, "leisure");
    var highway := Get(tags, "highway");
    if amenity in ["restaurant", "cafe", "bar", "fast_food"] then Dining
    else if shop in ["supermarket", "bakery", "convenience"] then Shopping
    else if amenity == "pharmacy" then Healthcare
    else if amenity in ["bank", "atm", "post_office", "fuel"] then Services
    else if highway == "bus_stop" then Transport
    else if leisure == "park" || shop == "hairdresser" then Recreation
    else Other
  }

  /** One rule of the category table: the category and the `key=value`
      tag filters that select it. */
  datatype Rule = Rule(category: Category, filters: seq<(string, string)>)

  /** The `PLACE_CATEGORIES` table, in its declaration order. */
  const PlaceCategories: seq<Rule> := [
    Rule(Dining, [("amenity", "restaurant"), ("amenity", "cafe"), ("amenity", "bar"), ("amenity", "fast_food")]),
    Rule(Shopping, [("shop", "supermarket"), ("shop", "bakery"), ("shop", "convenience")]),
    Rule(Healthcare, [("amenity", "pharmacy")]),
    Rule(Services, [("amenity", "bank"), ("amenity", "atm"), ("amenity", "post_office"), ("amenity", "fuel")]),
    Rule(Transport, [("highway", "bus_stop")]),
    Rule(Recreation, [("leisure", "park"), ("shop", "hairdresser")])
  ]

  /** Some filter of the list holds of the tags. */
  predicate AnyFilter(filters: seq<(string, string)>, tags: Tags) {
    exists p :: p in filters && Get(tags, p.0) == p.1
  }

  /** The rule `table[k]` selects `tags`. */
  predicate RuleMatches(table: seq<Rule>, k: int, tags: Tags) {
    0 <= k < |table| && AnyFilter(table[k].filters, tags)
  }

  /** The index of the first rule of `table`, from index `from` on, that
      selects `tags`, or `|table|` when none does. */
  function FirstMatchIndex(table: seq<Rule>, from: nat, tags: Tags): (k: nat)
    requires from <= |table|
    ensures from <= k <= |table|
    ensures forall j :: from <= j < k ==> !RuleMatches(table, j, tags)
    ensures k < |table| ==> RuleMatches(table, k, tags)
    decreases |table| - from
  {
    if from == |table| then from
    else if AnyFilter(table[from].filters, tags) then from
    else FirstMatchIndex(table, from + 1, tags)
  }

  /** The table read first-match: the category of the first rule that
      selects `tags`, and `Other` when none does. */
  function FirstMatch(table: seq<Rule>, tags: Tags): Category {
    var k := FirstMatchIndex(table, 0, tags);
    if k < |table| then table[k].category else Other
  }

  /** The filters `key=v` for each `v` of `values`. */
  function KeyFilters(key: string, values: seq<string>): (f: seq<(string, string)>)
    ensures |f| == |values| && forall i :: 0 <= i < |f| ==> f[i] == (key, values[i])
  {
    seq(|values|, i requires 0 <= i < |values| => (key, values[i]))
  }

  /** Filters that all test one key select exactly the tags whose value
      for that key is one of the listed values. */
  lemma KeyFiltersMatch(key: string, values: seq<string>, tags: Tags)
    ensures AnyFilter(KeyFilters(key, values), tags) <==> Get(tags, key) in values
  {
    var f := KeyFilters(key, values);
    if AnyFilter(f, tags) {
      var p :| p in f && Get(tags, p.0) == p.1;
      var i :| 0 <= i < |f| && f[i] == p;
      assert Get(tags, key) == values[i];
    }
    if Get(tags, key) in values {
      var i :| 0 <= i < |values| && values[i] == Get(tags, key);
      assert f[i] in f;
    }
  }

  /** Each rule of the table selects exactly the tag values that the
      matching branch of `determine_category_from_tags` tests. */
  lemma DiningRule(tags: Tags)
    ensures AnyFilter(PlaceCategories[0].filters, tags) <==> Get(tags, "amenity") in ["restaurant", "cafe", "bar", "fast_food"]
  {
    assert PlaceCategories[0].filters == KeyFilters("amenity", ["restaurant", "cafe", "bar", "fast_food"]);
    KeyFiltersMatch("amenity", ["restaurant", "cafe", "bar", "fast_food"], tags);
  }

  lemma ShoppingRule(tags: Tags)
    ensures AnyFilter(PlaceCategories[1].filters, tags) <==> Get(tags, "shop") in ["supermarket", "bakery", "convenience"]
  {
    assert PlaceCategories[1].filters == KeyFilters("shop", ["supermarket", "bakery", "convenience"]);
    KeyFiltersMatch("shop", ["supermarket", "bakery", "convenience"], tags);
  }

  lemma HealthcareRule(tags: Tags)
    ensures AnyFilter(PlaceCategories[2].filters, tags) <==> Get(tags, "amenity") == "pharmacy"
  {
    var f := PlaceCategories[2].filters;
    if Get(tags, "amenity") == "pharmacy" { assert f[0] in f; }
  }

  lemma ServicesRule(tags: Tags)
    ensures AnyFilter(PlaceCategories[3].filters, tags) <==> Get(tags, "amenity") in ["bank", "atm", "post_office", "fuel"]
  {
    assert PlaceCategories[3].filters == KeyFilters("amenity", ["bank", "atm", "post_office", "fuel"]);
    KeyFiltersMatch("amenity", ["bank", "atm", "post_office", "fuel"], tags);
  }

  lemma TransportRule(tags: Tags)
    ensures AnyFilter(PlaceCategories[4].filters, tags) <==> Get(tags, "highway") == "bus_stop"
  {
    var f := PlaceCategories[4].filters;
    if Get(tags, "highway") == "bus_stop" { assert f[0] in f; }
  }

  lemma RecreationRule(tags: Tags)
    ensures AnyFilter(PlaceCategories[5].filters, tags) <==> Get(tags, "leisure") == "park" || Get(tags, "shop") == "hairdresser"
  {
    var f := PlaceCategories[5].filters;
    if Get(tags, "leisure") == "park" { assert f[0] in f; }
    if Get(tags, "shop") == "hairdresser" { assert f[1] in f; }
  }

  /** The if/elif chain of `determine_category_from_tags` agrees with the
      `PLACE_CATEGORIES` table read first-match, with `Other` as the
      fallback. */
  lemma CategoryFollowsTable(tags: Tags)
    ensures DetermineCategory(tags) == FirstMatch(PlaceCategories, tags)
  {
    var t := PlaceCategories;
    DiningRule(tags);
    ShoppingRule(tags);
    HealthcareRule(tags);
    ServicesRule(tags);
    TransportRule(tags);
    RecreationRule(tags);
    assert FirstMatchIndex(t, 6, tags) == 6;
    assert FirstMatchIndex(t, 5, tags) == if AnyFilter(t[5].filters, tags) then 5 else 6;
    assert FirstMatchIndex(t, 4, tags) == if AnyFilter(t[4].filters, tags) then 4 else FirstMatchIndex(t, 5, tags);
    assert FirstMatchIndex(t, 3, tags) == if AnyFilter(t[3].filters, tags) then 3 else FirstMatchIndex(t, 4, tags);
    assert FirstMatchIndex(t, 2, tags) == if AnyFilter(t[2].filters, tags) then 2 else FirstMatchIndex(t, 3, tags);
    assert FirstMatchIndex(t, 1, tags) == if AnyFilter(t[1].filters, tags) then 1 else FirstMatchIndex(t, 2, tags);
    assert FirstMatchIndex(t, 0, tags) == if AnyFilter(t[0].filters, tags) then 0 else FirstMatchIndex(t, 1, tags);
  }

  /** The category is the first rule of the table that selects the tags:
      that rule selects them and no earlier one does; `Other` exactly when
      none does. */
  lemma CategoryIsFirstMatchingRule(tags: Tags)
    ensures DetermineCategory(tags) == Other <==> forall k :: !RuleMatches(PlaceCategories, k, tags)
    ensures DetermineCategory(tags) != Other ==>
      exists k :: RuleMatches(PlaceCategories, k, tags)
        && DetermineCategory(tags) == PlaceCategories[k].category
        && forall j :: 0 <= j < k ==> !RuleMatches(PlaceCategories, j, tags)
  {
    var t := PlaceCategories;
    CategoryFollowsTable(tags);
    var k := FirstMatchIndex(t, 0, tags);
    if k < |t| {
      assert t[k].category != Other;
    }
  }

  /** A Dining amenity wins over any shop tag; a pharmacy wins over a
      hairdresser. */
  lemma CategoryPriorityExamples(tags: Tags)
    ensures Get(tags, "amenity") == "cafe" ==> DetermineCategory(tags) == Dining
    ensures Get(tags, "amenity") == "pharmacy" && Get(tags, "shop") == "hairdresser" ==>
              DetermineCategory(tags) == Healthcare
    ensures (Get(tags, "shop") == "supermarket" && Get(tags, "amenity") != "restaurant"
              && Get(tags, "amenity") != "cafe" && Get(tags, "amenity") != "bar"
              && Get(tags, "amenity") != "fast_food") ==> DetermineCategory(tags) == Shopping
  {
  }

  /** `is_valid_address`: present and not blank once stripped.  (The
      source's unused `tags` parameter is dropped.) */
  predicate IsValidAddress(address: Option<string>) {
    address.Some? && |Strip(address.value)| > 0
  }

  /** An address is valid exactly when it holds a non-whitespace character. */
  lemma IsValidAddressIff(s: string)
    ensures IsValidAddress(Some(s)) <==> exists k :: 0 <= k < |s| && !IsSpace(s[k])
  {
    StripEmptyIff(s);
  }

  /** The two parts of an address, `street[ housenumber]` and
      `[postcode ]city`, joined by `", "`.  The arguments are already
      stripped; an empty house number or postcode is left out. */
  function AssembleAddress(street: string, housenumber: string, postcode: string, city: string): string {
    var first := if housenumber != [] then street + " " + housenumber else street;
    var second := if postcode != [] then postcode + " " + city else city;
    Join([first, second], ", ")
  }

  /** The exact shape of an assembled address, for each of the four
      combinations of house number and postcode. */
  lemma AssembleAddressCases(street: string, housenumber: string, postcode: string, city: string)
    ensures housenumber == [] && postcode == [] ==>
              AssembleAddress(street, housenumber, postcode, city) == street + ", " + city
    ensures housenumber != [] && postcode == [] ==>
              AssembleAddress(street, housenumber, postcode, city) == street + " " + housenumber + ", " + city
    ensures housenumber == [] && postcode != [] ==>
              AssembleAddress(street, housenumber, postcode, city) == street + ", " + postcode + " " + city
    ensures housenumber != [] && postcode != [] ==>
              AssembleAddress(street, housenumber, postcode, city) == street + " " + housenumber + ", " + postcode + " " + city
  {
    var first := if housenumber != [] then street + " " + housenumber else street;
    var second := if postcode != [] then postcode + " " + city else city;
    JoinTwo(first, second, ", ");
  }

  /** An assembled address starts with the street and ends with the city. */
  lemma AssembleAddressBounds(street: string, housenumber: string, postcode: string, city: string)
    ensures var a := AssembleAddress(street, housenumber, postcode, city);
            street <= a && |city| <= |a| && a[|a| - |city|..] == city
  {
    AssembleAddressCases(street, housenumber, postcode, city);
    var a := AssembleAddress(street, housenumber, postcode, city);
    assert a[..|street|] == street;
    assert a[|a| - |city|..] == city;
  }

  /** `extract_address_from_tags`: the address assembled from the stripped
      address tags when both the stripped street and the stripped city are
      non-empty, and nothing otherwise. */
  function ExtractAddress(tags: Tags): (r: Option<string>)
    ensures r.None? <==> Strip(Get(tags, "addr:street")) == [] || Strip(Get(tags, "addr:city")) == []
  {
    var street := Strip(Get(tags, "addr:street"));
    var city := Strip(Get(tags, "addr:city"));
    if street != [] && city != [] then
      Some(AssembleAddress(street, Strip(Get(tags, "addr:housenumber")), Strip(Get(tags, "addr:postcode")), city))
    else
      None
  }

  /** The keys the address gate reads. */
  const AddressKeys: set<string> := {"addr:street", "addr:housenumber", "addr:postcode", "addr:city"}

  /** Only the four address tags matter: name, brand, operator or any other
      tag can neither rescue nor spoil a record. */
  lemma ExtractAddressReadsOnlyAddressTags(tags: Tags, other: Tags)
    requires forall key :: key in AddressKeys ==> Get(tags, key) == Get(other, key)
    ensures ExtractAddress(tags) == ExtractAddress(other)
  {
    assert Get(tags, "addr:street") == Get(other, "addr:street");
    assert Get(tags, "addr:housenumber") == Get(other, "addr:housenumber");
    assert Get(tags, "addr:postcode") == Get(other, "addr:postcode");
    assert Get(tags, "addr:city") == Get(other, "addr:city");
  }

  /** An accepted address starts with the stripped street, ends with the
      stripped city and passes `is_valid_address`. */
  lemma ExtractedAddressIsValid(tags: Tags)
    requires ExtractAddress(tags).Some?
    ensures var a := ExtractAddress(tags).value;
            var street := Strip(Get(tags, "addr:street"));
            var city := Strip(Get(tags, "addr:city"));
            && street <= a
            && |city| <= |a| && a[|a| - |city|..] == city
            && IsValidAddress(ExtractAddress(tags))
  {
    var street := Strip(Get(tags, "addr:street"));
    var city := Strip(Get(tags, "addr:city"));
    var a := AssembleAddress(street, Strip(Get(tags, "addr:housenumber")), Strip(Get(tags, "addr:postcode")), city);
    AssembleAddressBounds(street, Strip(Get(tags, "addr:housenumber")), Strip(Get(tags, "addr:postcode")), city);
    StripIsTrimmedSlice(Get(tags, "addr:street"));
    assert a[0] == street[0];
    IsValidAddressIff(a);
  }

  /** A string that neither starts nor ends with whitespace is its own
      strip. */
  lemma StripNoSpaceEnds(s: string)
    requires s != [] && !IsSpace(s[0]) && !IsSpace(s[|s| - 1])
    ensures Strip(s) == s
  {
  }

  /** Tags whose street and city carry no surrounding whitespace and
      which have no house number and no postcode give `street, city`. */
  lemma PlainAddress(tags: Tags)
    requires var street := Get(tags, "addr:street");
             street != [] && !IsSpace(street[0]) && !IsSpace(street[|street| - 1])
    requires var city := Get(tags, "addr:city");
             city != [] && !IsSpace(city[0]) && !IsSpace(city[|city| - 1])
    requires Get(tags, "addr:housenumber") == "" && Get(tags, "addr:postcode") == ""
    ensures ExtractAddress(tags) == Some(Get(tags, "addr:street") + ", " + Get(tags, "addr:city"))
  {
    var street := Get(tags, "addr:street");
    var city := Get(tags, "addr:city");
    StripNoSpaceEnds(street);
    StripNoSpaceEnds(city);
    assert Strip(Get(tags, "addr:housenumber")) == [] && Strip(Get(tags, "addr:postcode")) == [];
    AssembleAddressCases(street, "", "", city);
  }

  /** A record with `amenity=restaurant`, street `Via Roma`, city
      `Trieste` and no house number or postcode becomes `Via Roma, Trieste`, a Dining place. */
  lemma TriesteRestaurant(tags: Tags)
    requires Get(tags, "amenity") == "restaurant"
    requires Get(tags, "addr:street") == "Via Roma" && Get(tags, "addr:city") == "Trieste"
    requires Get(tags, "addr:housenumber") == "" && Get(tags, "addr:postcode") == ""
    ensures ExtractAddress(tags) == Some("Via Roma, Trieste")
    ensures DetermineCategory(tags) == Dining
  {
    PlainAddress(tags);
    assert "Via Roma" + ", " + "Trieste" == "Via Roma, Trieste";
  }

  /** A record with only a name and an amenity is discarded. */
  lemma NamedDinerDiscarded(tags: Tags)
    requires tags == map["name" := "Joe's Diner", "amenity" := "restaurant"]
    ensures ExtractAddress(tags).None?
  {
    assert Get(tags, "addr:street") == "";
  }
}

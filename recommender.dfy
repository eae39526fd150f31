/** `TourismRecommender` (src/recommender.py): the lookup structures built
    once from the place table, the place sampling, and the assembly of
    the recommendations for one profile, city and trip type. */
module Recommender {
  import opened SeqUtil
  import opened RulesTable
  import opened Scoring
  import opened Places
  import opened Assembly
  import opened Wrappers

  /** Lines 241-253: available rows first, then unavailable ones, until
      `n_categories` rows are selected. */
  method SelectCategories(available: seq<BoostedRule>, unavailable: seq<BoostedRule>, nCategories: nat)
    returns (selected: seq<BoostedRule>)
    ensures selected == (available + unavailable)[..Min(nCategories, |available| + |unavailable|)]
  {
    selected := [];
    var i := 0;
    while i < |available|
      invariant 0 <= i <= |available|
      invariant selected == available[..Min(nCategories, i)]
    {
      if |selected| < nCategories {
        selected := selected + [available[i]];
      } else {
        break;
      }
      i := i + 1;
    }
    assert selected == available[..Min(nCategories, |available|)];
    var k := |selected|;
    i := 0;
    while i < |unavailable|
      invariant 0 <= i <= |unavailable|
      invariant selected == available[..k] + unavailable[..Min(nCategories - k, i)]
    {
      if |selected| < nCategories {
        selected := selected + [unavailable[i]];
      } else {
        break;
      }
      i := i + 1;
    }
    assert selected == available[..k] + unavailable[..Min(nCategories - k, |unavailable|)];
    assert (available + unavailable)[..Min(nCategories, |available| + |unavailable|)]
      == available[..k] + unavailable[..Min(nCategories - k, |unavailable|)];
  }

  class TourismRecommender {
    /** `tourism_df`, as read from `tourism_processed.csv`. */
    const tourism: seq<Place>
    /** `rules_df`, as read from `rules_data.csv`. */
    const rules: seq<Rule>

    var categoryToPlaces: map<string, seq<PlaceRecord>>
    var cityToCategories: map<string, map<string, nat>>
    var cityCategoryPlaces: CityIndex

    /** The two maps nothing updates after `prepare_data` are what it
        built. */
    ghost predicate Prepared()
      reads this`categoryToPlaces, this`cityToCategories
    {
      && categoryToPlaces == CategoryIndex(tourism)
      && cityToCategories == CityCategoryCounts(tourism)
    }

    /** The city index started as `prepare_data` built it and has since
        only had records of the same city appended to some buckets. */
    ghost predicate Valid()
      reads this`cityCategoryPlaces
    {
      IndexValid(tourism, cityCategoryPlaces)
    }

    /** Lines 9-23, with the two tables given instead of read from disk. */
    constructor (tourism: seq<Place>, rules: seq<Rule>)
      ensures this.tourism == tourism && this.rules == rules
      ensures cityCategoryPlaces == CityCategoryIndex(tourism)
      ensures Prepared() && Valid()
    {
      this.tourism := tourism;
      this.rules := rules;
      new;
      PrepareData();
      CityCategoryIndexValid(tourism);
    }

    /** Lines 25-58: the three lookup maps. */
    method PrepareData()
      modifies this
      ensures categoryToPlaces == CategoryIndex(tourism)
      ensures cityToCategories == CityCategoryCounts(tourism)
      ensures cityCategoryPlaces == CityCategoryIndex(tourism)
    {
      categoryToPlaces := CategoryToPlaces();
      cityToCategories := CityToCategories();
      cityCategoryPlaces := CityCategoryPlaces();
    }

    /** Lines 27-35: `category_to_places`. */
    method CategoryToPlaces() returns (byCategory: map<string, seq<PlaceRecord>>)
      ensures byCategory == CategoryIndex(tourism)
    {
      byCategory := map[];
      var categories := Places.CategoryList(tourism);
      for i := 0 to |categories|
        invariant forall c :: c in byCategory <==> c in categories[..i]
        invariant forall c :: c in byCategory ==> byCategory[c] == Records(Filter(tourism, OfCategory(c)))
      {
        var category := categories[i];
        byCategory := byCategory[category := Records(Filter(tourism, OfCategory(category)))];
      }
      assert categories[..|categories|] == categories;
      CategoryIndexFrom(tourism, byCategory);
    }

    /** Lines 29-48: `city_to_categories`. */
    method CityToCategories() returns (counts: map<string, map<string, nat>>)
      ensures counts == CityCategoryCounts(tourism)
    {
      counts := map[];
      var cities := CityList(tourism);
      for i := 0 to |cities|
        invariant forall c :: c in counts <==> c in cities[..i]
        invariant forall c :: c in counts ==> counts[c] == CountsIn(tourism, c)
      {
        var city := cities[i];
        var categoryCounts := CategoryCounts(city);
        counts := counts[city := categoryCounts];
      }
      assert cities[..|cities|] == cities;
      CityCategoryCountsFrom(tourism, counts);
    }

    /** Lines 50-58: `city_category_places`. */
    method CityCategoryPlaces() returns (byCity: CityIndex)
      ensures byCity == CityCategoryIndex(tourism)
    {
      byCity := map[];
      var cities := CityList(tourism);
      for i := 0 to |cities|
        invariant forall c :: c in byCity <==> c in cities[..i]
        invariant forall c :: c in byCity ==> byCity[c] == BucketsIn(tourism, c)
      {
        var city := cities[i];
        var buckets := CategoryBuckets(city);
        byCity := byCity[city := buckets];
      }
      assert cities[..|cities|] == cities;
      CityCategoryIndexFrom(tourism, byCity);
    }

    /** Lines 39-45: `category_counts` for one city. */
    method CategoryCounts(city: string) returns (counts: map<string, nat>)
      ensures counts == CountsIn(tourism, city)
    {
      var cityPlaces := CityPlaces(tourism, city);
      var categories := Places.CategoryList(cityPlaces);
      CityCategoriesListed(tourism, city);
      counts := map[];
      for j := 0 to |categories|
        invariant forall c :: c in counts <==> c in categories[..j]
        invariant forall c :: c in counts ==> counts[c] == |Bucket(tourism, city, c)|
      {
        var category := categories[j];
        counts := counts[category := |Filter(cityPlaces, OfCategory(category))|];
      }
      assert categories[..|categories|] == categories;
      CountsInFrom(tourism, city, counts);
    }

    /** Lines 53-58: `city_category_places[city]`. */
    method CategoryBuckets(city: string) returns (buckets: map<string, seq<PlaceRecord>>)
      ensures buckets == BucketsIn(tourism, city)
    {
      var cityPlaces := CityPlaces(tourism, city);
      var categories := Places.CategoryList(cityPlaces);
      CityCategoriesListed(tourism, city);
      buckets := map[];
      for j := 0 to |categories|
        invariant forall c :: c in buckets <==> c in categories[..j]
        invariant forall c :: c in buckets ==> buckets[c] == Bucket(tourism, city, c)
      {
        var category := categories[j];
        buckets := buckets[category := Records(Filter(cityPlaces, OfCategory(category)))];
      }
      assert categories[..|categories|] == categories;
      BucketsInFrom(tourism, city, buckets);
    }

    /** Lines 178-199. The random draw of distinct positions is a
        nondeterministic choice; the clock-seeded generator is not
        modelled. */
    method GetPlacesForCategoryInCity(category: string, city: string, n: nat) returns (places: seq<PlaceRecord>)
      ensures IsFetch(places, cityCategoryPlaces, city, category, n)
      ensures |places| == FetchSize(cityCategoryPlaces, city, category, n)
    {
      if city in cityCategoryPlaces && category in cityCategoryPlaces[city] {
        var placesInCity := cityCategoryPlaces[city][category];
        if |placesInCity| >= n {
          var identity: seq<nat> := seq(n, k requires 0 <= k < n => k);
          assert DistinctIndices(identity, |placesInCity|);
          var selectedIndices: seq<nat> :| |selectedIndices| == n && DistinctIndices(selectedIndices, |placesInCity|);
          assert DistinctIndices(selectedIndices, |placesInCity|);
          assert forall k :: 0 <= k < n ==> selectedIndices[k] < |placesInCity|;
          places := seq(n, k requires 0 <= k < n => placesInCity[selectedIndices[k]]);
          assert PickedAt(places, placesInCity, selectedIndices);
          FetchSpec(places, cityCategoryPlaces, city, category, n);
          return;
        }
        return placesInCity;
      }
      return [];
    }

    /** Lines 223-235: available and unavailable rows, each in boosted
        order. */
    method SplitByAvailability(boosted: seq<BoostedRule>, city: string)
      returns (available: seq<BoostedRule>, unavailable: seq<BoostedRule>)
      ensures available == AvailableRows(boosted, cityCategoryPlaces, city)
      ensures unavailable == UnavailableRows(boosted, cityCategoryPlaces, city)
    {
      available, unavailable := [], [];
      for i := 0 to |boosted|
        invariant available == AvailableRows(boosted[..i], cityCategoryPlaces, city)
        invariant unavailable == UnavailableRows(boosted[..i], cityCategoryPlaces, city)
      {
        var row := boosted[i];
        var category := row.rule.category;
        if city in cityCategoryPlaces && category in cityCategoryPlaces[city] {
          var nPlaces := |cityCategoryPlaces[city][category]|;
          if nPlaces > 0 {
            available := available + [row];
          } else {
            unavailable := unavailable + [row];
          }
        } else {
          unavailable := unavailable + [row];
        }
        assert boosted[..i + 1] == boosted[..i] + [row];
        FilterSnoc(boosted[..i], row, IsAvailableIn(cityCategoryPlaces, city));
        FilterSnoc(boosted[..i], row, Not(IsAvailableIn(cityCategoryPlaces, city)));
      }
      assert boosted[..|boosted|] == boosted;
    }

    /** Lines 259-302: one item per selected row, from one fetch of
        `n_places_per_category` places each. */
    method FetchPrimary(selected: seq<BoostedRule>, city: string, nPlaces: nat) returns (items: seq<Pending>)
      ensures |items| == |selected|
      ensures forall i :: 0 <= i < |items| ==>
        && IsFetch(items[i].rec.places, cityCategoryPlaces, city, selected[i].rule.category, nPlaces)
        && items[i] == PendingOf(selected[i], items[i].rec.places, cityCategoryPlaces, city, nPlaces)
    {
      items := [];
      for i := 0 to |selected|
        invariant |items| == i
        invariant forall k :: 0 <= k < i ==>
          && IsFetch(items[k].rec.places, cityCategoryPlaces, city, selected[k].rule.category, nPlaces)
          && items[k] == PendingOf(selected[k], items[k].rec.places, cityCategoryPlaces, city, nPlaces)
      {
        var row := selected[i];
        var places := GetPlacesForCategoryInCity(row.rule.category, city, nPlaces);
        var needs: nat;
        if |places| == 0 {
          needs := nPlaces;
        } else {
          needs := if nPlaces > |places| then nPlaces - |places| else 0;
        }
        var shares := city in cityCategoryPlaces && row.rule.category in cityCategoryPlaces[city]
          && |cityCategoryPlaces[city][row.rule.category]| < nPlaces;
        items := items + [Pending(NewRecommendation(row, places), needs, shares)];
      }
    }

    /** Lines 310-314: the categories of the city with a non-empty bucket. */
    method AvailableCityCategories(city: string) returns (cats: set<string>)
      ensures cats == AvailableCategories(cityCategoryPlaces, city)
    {
      cats := {};
      if city in cityCategoryPlaces {
        var buckets := cityCategoryPlaces[city];
        var remaining := buckets.Keys;
        while remaining != {}
          invariant remaining <= buckets.Keys
          invariant forall c :: c in cats <==> c in buckets && c !in remaining && |buckets[c]| > 0
          decreases |remaining|
        {
          var c :| c in remaining;
          if |buckets[c]| > 0 {
            cats := cats + {c};
          }
          remaining := remaining - {c};
        }
      }
    }

    /** Lines 318-341 for one item that still needs places: the boosted
        rows are tried in order, each eligible one is asked for the
        shortfall read once at line 319, its places are appended, and the
        loop stops once one of them fills the request. */
    method BackfillItem(item: Pending, boosted: seq<BoostedRule>, recCats: seq<string>,
                        availableCats: set<string>, city: string)
      returns (out: Pending, ghost pieces: seq<seq<PlaceRecord>>)
      ensures IsBackfill(item, out, pieces,
                         Contributors(Eligible(boosted, recCats, availableCats), cityCategoryPlaces, city, item.needsPlaces),
                         cityCategoryPlaces, city, item.needsPlaces)
    {
      var neededPlaces := item.needsPlaces;
      ghost var index := cityCategoryPlaces;
      ghost var done: seq<BoostedRule> := [];
      out := item;
      pieces := [];
      var j := 0;
      while j < |boosted|
        invariant BackfillAt(item, out, pieces, done, boosted, j, recCats, availableCats, index, city, neededPlaces)
      {
        var row := boosted[j];
        var altCategory := row.rule.category;
        if altCategory in recCats || altCategory !in availableCats {
          BackfillSkip(item, out, pieces, done, boosted, j, recCats, availableCats, index, city, neededPlaces);
          j := j + 1;
          continue;
        }
        var altPlaces := GetPlacesForCategoryInCity(altCategory, city, neededPlaces);
        if |altPlaces| > 0 {
          BackfillTake(item, out, pieces, done, boosted, j, recCats, availableCats, index, city, neededPlaces, altPlaces);
          out := Extend(out, altCategory, altPlaces, neededPlaces);
          pieces := pieces + [altPlaces];
          done := done + [row];
          if out.needsPlaces == 0 {
            return;
          }
        } else {
          BackfillSkip(item, out, pieces, done, boosted, j, recCats, availableCats, index, city, neededPlaces);
        }
        j := j + 1;
      }
      BackfillEnd(item, out, pieces, done, boosted, recCats, availableCats, index, city, neededPlaces);
    }

    /** Lines 316-341: every item that still needs places is backfilled
        from the eligible alternates, each item on its own; `primaries`
        are the first fetches the items were built from. */
    method BackfillAll(items: seq<Pending>, boosted: seq<BoostedRule>, recCats: seq<string>,
                       availableCats: set<string>, city: string, nPlaces: nat,
                       ghost selected: seq<BoostedRule>)
      returns (out: seq<Pending>, ghost extras: seq<seq<seq<PlaceRecord>>>)
      requires |items| == |selected|
      requires forall i :: 0 <= i < |items| ==>
        && IsFetch(items[i].rec.places, cityCategoryPlaces, city, selected[i].rule.category, nPlaces)
        && items[i] == PendingOf(selected[i], items[i].rec.places, cityCategoryPlaces, city, nPlaces)
      ensures |out| == |items| && |extras| == |items|
      ensures forall i :: 0 <= i < |items| ==>
        && IsAssembled(out[i].rec, selected[i], items[i].rec.places, extras[i],
                       Eligible(boosted, recCats, availableCats), cityCategoryPlaces, city, nPlaces)
        && out[i].sharesBucket == SharesBucket(cityCategoryPlaces, city, selected[i].rule.category, nPlaces)
        && (out[i].sharesBucket ==>
              out[i].rec.places == cityCategoryPlaces[city][selected[i].rule.category] + Flatten(extras[i]))
    {
      out, extras := [], [];
      for i := 0 to |items|
        invariant |out| == i && |extras| == i
        invariant forall k :: 0 <= k < i ==>
          && IsAssembled(out[k].rec, selected[k], items[k].rec.places, extras[k],
                         Eligible(boosted, recCats, availableCats), cityCategoryPlaces, city, nPlaces)
          && out[k].sharesBucket == SharesBucket(cityCategoryPlaces, city, selected[k].rule.category, nPlaces)
          && (out[k].sharesBucket ==>
                out[k].rec.places == cityCategoryPlaces[city][selected[k].rule.category] + Flatten(extras[k]))
      {
        var item := items[i];
        var filled := item;
        ghost var pieces: seq<seq<PlaceRecord>> := [];
        if item.needsPlaces > 0 {
          filled, pieces := BackfillItem(item, boosted, recCats, availableCats, city);
        }
        BackfillAssembles(selected[i], item.rec.places, item, filled, pieces,
                          Eligible(boosted, recCats, availableCats), cityCategoryPlaces, city, nPlaces);
        out := out + [filled];
        extras := extras + [pieces];
      }
    }

    /** Lines 335 and 343-346: the items lose their `needs_places` field,
        and an item whose place list is the stored bucket has, by
        extending its list, extended that bucket. */
    method StoreSharedBuckets(items: seq<Pending>, city: string, nPlaces: nat,
                              ghost before: CityIndex, ghost extras: seq<seq<PlaceRecord>>)
      returns (recs: seq<Recommendation>)
      requires IndexValid(tourism, cityCategoryPlaces) && cityCategoryPlaces == before
      requires ReadyToStore(tourism, items, before, city, nPlaces, extras)
      modifies this`cityCategoryPlaces
      ensures recs == RecsOf(items)
      ensures IndexValid(tourism, cityCategoryPlaces)
      ensures StoredAfter(before, cityCategoryPlaces, city, recs, nPlaces)
    {
      recs := RecsOf(items);
      for i := 0 to |items|
        invariant IndexValid(tourism, cityCategoryPlaces)
        invariant StoredAfter(before, cityCategoryPlaces, city, recs[..i], nPlaces)
      {
        var rec := items[i].rec;
        var next := cityCategoryPlaces;
        if items[i].sharesBucket {
          next := next[city := next[city][rec.category := rec.places]];
        }
        StorePrefixNext(tourism, before, cityCategoryPlaces, next, city, recs, i, items[i].sharesBucket, extras[i], nPlaces);
        cityCategoryPlaces := next;
      }
      assert recs[..|items|] == recs;
    }

    /** Lines 216-253: the boosted rows, and the ones selected: the
        available rows first, then the unavailable, the first
        `nCategories` of them. */
    method ChooseRows(gender: string, ageGroup: string, city: string, tripType: string, nCategories: nat)
      returns (boosted: seq<BoostedRule>, selected: seq<BoostedRule>)
      requires KnownProfile(rules, gender, ageGroup)
      ensures boosted == ApplyContextBoost(GetCategoryRecommendations(rules, gender, ageGroup), tripType)
      ensures selected == SelectedFor(rules, gender, ageGroup, tripType, cityCategoryPlaces, city, nCategories)
    {
      var allCategories := GetCategoryRecommendations(rules, gender, ageGroup);
      boosted := ApplyContextBoost(allCategories, tripType);
      var available, unavailable := SplitByAvailability(boosted, city);
      selected := SelectCategories(available, unavailable, nCategories);
    }

    /** Lines 216-341: the items before `needs_places` is dropped, each
        assembled from its first fetch and its backfill fetches. */
    method AssembleItems(gender: string, ageGroup: string, city: string, tripType: string,
                         nCategories: nat, nPlaces: nat)
      returns (items: seq<Pending>, ghost primaries: seq<seq<PlaceRecord>>,
               ghost extras: seq<seq<seq<PlaceRecord>>>)
      requires KnownProfile(rules, gender, ageGroup)
      ensures var selected := SelectedFor(rules, gender, ageGroup, tripType, cityCategoryPlaces, city, nCategories);
              var boosted := ApplyContextBoost(GetCategoryRecommendations(rules, gender, ageGroup), tripType);
              var elig := Eligible(boosted, CategoriesOfRows(selected), AvailableCategories(cityCategoryPlaces, city));
              && AllAssembled(RecsOf(items), selected, primaries, extras, elig, cityCategoryPlaces, city, nPlaces)
              && forall i :: 0 <= i < |items| ==>
                   && items[i].sharesBucket == SharesBucket(cityCategoryPlaces, city, selected[i].rule.category, nPlaces)
                   && (items[i].sharesBucket ==>
                         items[i].rec.places == cityCategoryPlaces[city][selected[i].rule.category] + Flatten(extras[i]))
    {
      var boosted, selected := ChooseRows(gender, ageGroup, city, tripType, nCategories);
      var first := FetchPrimary(selected, city, nPlaces);
      var availableCats := AvailableCityCategories(city);
      var recCats := CategoriesOfRows(selected);
      items, extras := BackfillAll(first, boosted, recCats, availableCats, city, nPlaces, selected);
      primaries := PlacesOfItems(first);
    }

    /** Lines 201-348: the recommendations for one profile, city and trip
        type. `primaries` and `extras` are the fetches the items were
        assembled from; the stored buckets the items shared have grown. */
    method GetRecommendations(gender: string, ageGroup: string, city: string, tripType: string,
                              nCategories: nat, nPlaces: nat)
      returns (recs: seq<Recommendation>, ghost primaries: seq<seq<PlaceRecord>>,
               ghost extras: seq<seq<seq<PlaceRecord>>>)
      requires Valid()
      requires KnownProfile(rules, gender, ageGroup)
      modifies this`cityCategoryPlaces
      ensures Valid()
      ensures var selected := SelectedFor(rules, gender, ageGroup, tripType, old(cityCategoryPlaces), city, nCategories);
              var boosted := ApplyContextBoost(GetCategoryRecommendations(rules, gender, ageGroup), tripType);
              var elig := Eligible(boosted, CategoriesOfRows(selected), AvailableCategories(old(cityCategoryPlaces), city));
              AllAssembled(recs, selected, primaries, extras, elig, old(cityCategoryPlaces), city, nPlaces)
      ensures CategoriesDistinct(recs)
      ensures PlacesInCity(tourism, recs, city)
      ensures StoredAfter(old(cityCategoryPlaces), cityCategoryPlaces, city, recs, nPlaces)
    {
      ghost var before := cityCategoryPlaces;
      ghost var selected := SelectedFor(rules, gender, ageGroup, tripType, before, city, nCategories);
      ghost var boosted := ApplyContextBoost(GetCategoryRecommendations(rules, gender, ageGroup), tripType);
      ghost var elig := Eligible(boosted, CategoriesOfRows(selected), AvailableCategories(before, city));
      var items;
      items, primaries, extras := AssembleItems(gender, ageGroup, city, tripType, nCategories, nPlaces);
      SelectedCategoriesDistinct(rules, gender, ageGroup, tripType, before, city, nCategories);
      AssembledReady(tourism, items, selected, primaries, extras, elig, before, city, nPlaces);
      recs := StoreSharedBuckets(items, city, nPlaces, before, Appended(extras));
    }
  }
}

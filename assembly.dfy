/** The specification of `get_places_for_category_in_city` and of the
    assembly steps of `get_recommendations` (src/recommender.py), as
    functions and predicates of the stored index. The methods of
    `TourismRecommender` in recommender.dfy are proved against these. */
module Assembly {
  import opened SeqUtil
  import opened RulesTable
  import opened Scoring
  import opened Places
  import opened Wrappers

  // ---------------------------------------------------------------------
  // Place sampling (lines 178-199)

  /** `city in city_category_places and category in city_category_places[city]` */
  predicate HasBucket(index: CityIndex, city: string, category: string) {
    city in index && category in index[city]
  }

  /** `idx` names `|idx|` pairwise distinct positions below `size`. */
  predicate DistinctIndices(idx: seq<nat>, size: nat) {
    && (forall k :: 0 <= k < |idx| ==> idx[k] < size)
    && (forall k, l :: 0 <= k < l < |idx| ==> idx[k] != idx[l])
  }

  /** `picked` is `[bucket[i] for i in idx]`. */
  ghost predicate PickedAt(picked: seq<PlaceRecord>, bucket: seq<PlaceRecord>, idx: seq<nat>) {
    && |idx| == |picked|
    && DistinctIndices(idx, |bucket|)
    && forall k :: 0 <= k < |idx| ==> picked[k] == bucket[idx[k]]
  }

  /** `np.random.choice(len(bucket), n, replace=False)` applied to the
      bucket: n elements taken at pairwise distinct positions, in any
      order. */
  ghost predicate IsSample(picked: seq<PlaceRecord>, bucket: seq<PlaceRecord>, n: nat) {
    |picked| == n && exists idx :: PickedAt(picked, bucket, idx)
  }

  /** What one call of `get_places_for_category_in_city` may return:
      [] without a bucket, the stored bucket itself when it holds fewer
      than n places, a sample of n otherwise. */
  ghost predicate IsFetch(places: seq<PlaceRecord>, index: CityIndex, city: string, category: string, n: nat) {
    if HasBucket(index, city, category) then
      if |index[city][category]| >= n then IsSample(places, index[city][category], n)
      else places == index[city][category]
    else places == []
  }

  /** The number of places such a call returns. */
  function FetchSize(index: CityIndex, city: string, category: string, n: nat): (size: nat)
    ensures size <= n
    ensures HasBucket(index, city, category) ==> size <= |index[city][category]|
  {
    if HasBucket(index, city, category) then Min(n, |index[city][category]|) else 0
  }

  /** Every fetch has `FetchSize` places, all taken from the bucket. */
  lemma FetchSpec(places: seq<PlaceRecord>, index: CityIndex, city: string, category: string, n: nat)
    requires IsFetch(places, index, city, category, n)
    ensures |places| == FetchSize(index, city, category, n)
    ensures HasBucket(index, city, category) ==> forall r :: r in places ==> r in index[city][category]
    ensures !HasBucket(index, city, category) ==> places == []
  {
    if HasBucket(index, city, category) && |index[city][category]| >= n {
      var bucket := index[city][category];
      var idx :| PickedAt(places, bucket, idx);
      forall r | r in places ensures r in bucket {
        var k :| 0 <= k < |places| && places[k] == r;
        assert bucket[idx[k]] == r;
      }
    }
  }

  /** The draw may return any n distinct positions: every choice of
      indices is a possible fetch. */
  lemma AnyIndicesAreAFetch(index: CityIndex, city: string, category: string, n: nat, idx: seq<nat>)
    requires HasBucket(index, city, category) && |index[city][category]| >= n
    requires |idx| == n && DistinctIndices(idx, |index[city][category]|)
    ensures IsFetch(seq(n, k requires 0 <= k < n => index[city][category][idx[k]]), index, city, category, n)
  {
    var bucket := index[city][category];
    var picked := seq(n, k requires 0 <= k < n => bucket[idx[k]]);
    assert PickedAt(picked, bucket, idx);
  }

  /** A fetch from a valid index returns places of the requested city. */
  lemma FetchInCity(tourism: seq<Place>, index: CityIndex, places: seq<PlaceRecord>,
                    city: string, category: string, n: nat)
    requires IndexValid(tourism, index)
    requires IsFetch(places, index, city, category, n)
    ensures forall r :: r in places ==> r in CityRecords(tourism, city)
  {
    FetchSpec(places, index, city, category, n);
    if HasBucket(index, city, category) {
      assert BucketValid(tourism, city, category, index[city][category]);
    }
  }

  // ---------------------------------------------------------------------
  // Availability and selection (lines 223-253)

  /** The test of lines 228-230: a bucket exists and is non-empty. */
  predicate HasPlaces(index: CityIndex, city: string, category: string) {
    HasBucket(index, city, category) && |index[city][category]| > 0
  }

  function IsAvailableIn(index: CityIndex, city: string): BoostedRule -> bool {
    (b: BoostedRule) => HasPlaces(index, city, b.rule.category)
  }

  /** `available_categories`, in boosted order. */
  function AvailableRows(boosted: seq<BoostedRule>, index: CityIndex, city: string): seq<BoostedRule> {
    Filter(boosted, IsAvailableIn(index, city))
  }

  /** `unavailable_categories`, in boosted order. */
  function UnavailableRows(boosted: seq<BoostedRule>, index: CityIndex, city: string): seq<BoostedRule> {
    Filter(boosted, Not(IsAvailableIn(index, city)))
  }

  /** `selected_categories`: the first n of the available rows followed by
      the unavailable ones. */
  function SelectRows(boosted: seq<BoostedRule>, index: CityIndex, city: string, n: nat): seq<BoostedRule> {
    var both := AvailableRows(boosted, index, city) + UnavailableRows(boosted, index, city);
    both[..Min(n, |both|)]
  }

  /** The selection has min(n, |boosted|) rows, and the available ones
      come first and number as many as fit. */
  lemma SelectRowsShape(boosted: seq<BoostedRule>, index: CityIndex, city: string, n: nat)
    ensures var sel := SelectRows(boosted, index, city, n);
            var k := Min(n, |AvailableRows(boosted, index, city)|);
      && |sel| == Min(n, |boosted|)
      && k <= |sel|
      && (forall i :: 0 <= i < k ==> HasPlaces(index, city, sel[i].rule.category))
      && (forall i :: k <= i < |sel| ==> !HasPlaces(index, city, sel[i].rule.category))
  {
    var sel := SelectRows(boosted, index, city, n);
    var k := Min(n, |AvailableRows(boosted, index, city)|);
    PartitionPrefix(boosted, IsAvailableIn(index, city), n);
    forall i | 0 <= i < k ensures HasPlaces(index, city, sel[i].rule.category) {
      assert IsAvailableIn(index, city)(sel[i]);
    }
    forall i | k <= i < |sel| ensures !HasPlaces(index, city, sel[i].rule.category) {
      assert !IsAvailableIn(index, city)(sel[i]);
    }
  }

  /** Each of the two groups keeps boosted order. */
  lemma SelectRowsOrder(boosted: seq<BoostedRule>, index: CityIndex, city: string, n: nat)
    ensures var sel := SelectRows(boosted, index, city, n);
            var k := Min(n, |AvailableRows(boosted, index, city)|);
      && k <= |sel|
      && SubsequenceOf(sel[..k], boosted)
      && SubsequenceOf(sel[k..], boosted)
  {
    var avail := AvailableRows(boosted, index, city);
    var unavail := UnavailableRows(boosted, index, city);
    var sel := SelectRows(boosted, index, city, n);
    var k := Min(n, |avail|);
    FilterSubsequence(boosted, IsAvailableIn(index, city));
    FilterSubsequence(boosted, Not(IsAvailableIn(index, city)));
    assert sel[..k] == avail[..k];
    PrefixSubsequence(avail, boosted, k);
    var both := avail + unavail;
    assert sel == both[..|sel|];
    if k == |avail| {
      assert sel[k..] == unavail[..|sel| - k];
    } else {
      assert |sel| == k && sel[k..] == unavail[..0];
    }
    PrefixSubsequence(unavail, boosted, |sel| - k);
  }

  /** No boosted row is selected twice. */
  lemma SelectRowsSubset(boosted: seq<BoostedRule>, index: CityIndex, city: string, n: nat)
    ensures multiset(SelectRows(boosted, index, city, n)) <= multiset(boosted)
  {
    var avail := AvailableRows(boosted, index, city);
    var unavail := UnavailableRows(boosted, index, city);
    FilterPartition(boosted, IsAvailableIn(index, city));
    assert multiset(avail + unavail) == multiset(boosted);
    PrefixMultiset(avail + unavail, Min(n, |avail + unavail|));
  }

  /** Rows with distinct categories stay distinct after the selection. */
  lemma SelectRowsDistinct(boosted: seq<BoostedRule>, index: CityIndex, city: string, n: nat)
    requires KeysDistinct(boosted, CategoryOfBoosted)
    ensures KeysDistinct(SelectRows(boosted, index, city, n), CategoryOfBoosted)
  {
    var sel := SelectRows(boosted, index, city, n);
    SelectRowsSubset(boosted, index, city, n);
    forall i, j | 0 <= i < j < |sel| ensures CategoryOfBoosted(sel[i]) != CategoryOfBoosted(sel[j]) {
      assert sel[i] in multiset(boosted) && sel[j] in multiset(boosted);
      var a :| 0 <= a < |boosted| && boosted[a] == sel[i];
      var b :| 0 <= b < |boosted| && boosted[b] == sel[j];
      if CategoryOfBoosted(sel[i]) == CategoryOfBoosted(sel[j]) {
        assert a == b;
        CountAtLeastTwo(sel, i, j);
        DistinctCountsOne(boosted, CategoryOfBoosted, sel[i]);
        assert false;
      }
    }
  }

  /** The profile check of `get_category_recommendations`: either no
      gender, or a gender and an age group the rules table knows. */
  predicate KnownProfile(rules: seq<Rule>, gender: string, ageGroup: string) {
    gender == Unspecified
      || ((exists r :: r in rules && r.gender == gender) && (exists r :: r in rules && r.ageGroup == ageGroup))
  }

  /** The rows selected for one call (lines 217-253). */
  function SelectedFor(rules: seq<Rule>, gender: string, ageGroup: string, trip: string,
                       index: CityIndex, city: string, n: nat): seq<BoostedRule>
    requires KnownProfile(rules, gender, ageGroup)
  {
    SelectRows(ApplyContextBoost(GetCategoryRecommendations(rules, gender, ageGroup), trip), index, city, n)
  }

  /** No category is selected twice: the scored rows hold one row per
      category, boosting and sorting keep them, and the selection takes
      each boosted row at most once. */
  lemma SelectedCategoriesDistinct(rules: seq<Rule>, gender: string, ageGroup: string, trip: string,
                                   index: CityIndex, city: string, n: nat)
    requires KnownProfile(rules, gender, ageGroup)
    ensures KeysDistinct(SelectedFor(rules, gender, ageGroup, trip, index, city, n), CategoryOfBoosted)
  {
    var scored := GetCategoryRecommendations(rules, gender, ageGroup);
    if gender == Unspecified {
      UnspecifiedGenderSpec(rules, ageGroup);
    } else {
      ConcreteGenderRows(rules, gender, ageGroup);
    }
    ApplyContextBoostDistinct(scored, trip);
    SelectRowsDistinct(ApplyContextBoost(scored, trip), index, city, n);
  }

  // ---------------------------------------------------------------------
  // Recommendation items (lines 259-306, 343-346)

  /** `{'total': Final_Score, 'similarity': Similarity, 'boost': Boost}` */
  datatype Score = Score(total: nat, similarity: nat, boost: nat)

  /** `{'gender': ..., 'age_group': ..., 'trip_type': ...}` of the winning rule. */
  datatype UserMatch = UserMatch(gender: string, ageGroup: string, tripType: string)

  /** One returned item, after `needs_places` has been deleted;
      `alternateCategory` is None when the key was never set. */
  datatype Recommendation = Recommendation(
    category: string,
    score: Score,
    similarity: nat,
    boost: nat,
    userMatch: UserMatch,
    places: seq<PlaceRecord>,
    alternateCategory: Option<string>)

  /** An item while it is assembled: the recommendation, its
      `needs_places` field, and whether its place list is the stored
      bucket itself (the list line 196 returns). */
  datatype Pending = Pending(rec: Recommendation, needsPlaces: nat, sharesBucket: bool)

  /** The dictionary of lines 265-281 and 286-302, without `needs_places`. */
  function NewRecommendation(row: BoostedRule, places: seq<PlaceRecord>): (rec: Recommendation)
    ensures rec.category == row.rule.category && rec.places == places
    ensures rec.score.total == row.finalScore
    ensures rec.score.similarity == rec.similarity == row.similarity
    ensures rec.score.boost == rec.boost == row.boost
    ensures rec.userMatch == UserMatch(row.rule.gender, row.rule.ageGroup, row.rule.tripType)
    ensures rec.alternateCategory == None
  {
    Recommendation(row.rule.category, Score(row.finalScore, row.similarity, row.boost),
                   row.similarity, row.boost,
                   UserMatch(row.rule.gender, row.rule.ageGroup, row.rule.tripType),
                   places, None)
  }

  /** `max(0, wanted - found)` */
  function Shortfall(wanted: nat, found: nat): nat {
    if wanted > found then wanted - found else 0
  }

  /** `needs_places` after the first fetch: n when nothing was found,
      otherwise `max(0, n - len(places))`. Both branches agree: the result
      is what is still missing. */
  function NeedsPlaces(found: nat, n: nat): (needs: nat)
    ensures needs == if found >= n then 0 else n - found
    ensures needs + found >= n
  {
    if found == 0 then n
    else Shortfall(n, found)
  }

  /** The fetch returned the stored list itself: the bucket exists and
      holds fewer than n places (line 196). */
  predicate SharesBucket(index: CityIndex, city: string, category: string, n: nat) {
    HasBucket(index, city, category) && |index[city][category]| < n
  }

  /** An item for `row`, built from a fetch. */
  function PendingOf(row: BoostedRule, places: seq<PlaceRecord>, index: CityIndex, city: string, n: nat): Pending {
    Pending(NewRecommendation(row, places), NeedsPlaces(|places|, n), SharesBucket(index, city, row.rule.category, n))
  }

  /** An item shares the bucket exactly when its fetch returned the whole
      bucket while falling short, so such an item is always backfilled
      (when n > 0) and its place list starts as the stored bucket. */
  lemma SharedItemIsShort(index: CityIndex, city: string, row: BoostedRule, places: seq<PlaceRecord>, n: nat)
    requires IsFetch(places, index, city, row.rule.category, n)
    ensures var item := PendingOf(row, places, index, city, n);
      && (item.sharesBucket ==> places == index[city][row.rule.category] && item.needsPlaces > 0)
      && (item.needsPlaces == 0 <==> |places| >= n)
  {
    FetchSpec(places, index, city, row.rule.category, n);
  }

  // ---------------------------------------------------------------------
  // Backfill (lines 308-341)

  /** `available_city_categories` (lines 310-314). */
  function AvailableCategories(index: CityIndex, city: string): (cats: set<string>)
    ensures forall c :: c in cats <==> HasPlaces(index, city, c)
  {
    if city in index then set c | c in index[city] && |index[city][c]| > 0 else {}
  }

  function IsEligible(recCats: seq<string>, availableCats: set<string>): BoostedRule -> bool {
    (b: BoostedRule) => b.rule.category !in recCats && b.rule.category in availableCats
  }

  /** The boosted rows the backfill does not skip at line 327, in boosted
      order. */
  function Eligible(boosted: seq<BoostedRule>, recCats: seq<string>, availableCats: set<string>): (elig: seq<BoostedRule>)
    ensures forall b :: b in elig <==> b in boosted && b.rule.category !in recCats && b.rule.category in availableCats
  {
    Filter(boosted, IsEligible(recCats, availableCats))
  }

  /** The alternates that add places to one item asked for `needed`
      places: in order, every eligible row whose fetch is non-empty, up to
      and including the first whose fetch brings `needs_places` to 0. */
  function Contributors(elig: seq<BoostedRule>, index: CityIndex, city: string, needed: nat): seq<BoostedRule>
    decreases |elig|
  {
    if elig == [] then []
    else
      var size := FetchSize(index, city, elig[0].rule.category, needed);
      if size == 0 then Contributors(elig[1..], index, city, needed)
      else if size >= needed then [elig[0]]
      else [elig[0]] + Contributors(elig[1..], index, city, needed)
  }

  /** The contributors are eligible rows, in eligible order. */
  lemma {:induction false} ContributorsOrder(elig: seq<BoostedRule>, index: CityIndex, city: string, needed: nat)
    ensures SubsequenceOf(Contributors(elig, index, city, needed), elig)
    decreases |elig|
  {
    var cs := Contributors(elig, index, city, needed);
    if elig == [] {
      assert Embeds(cs, elig, []);
    } else {
      var rest := Contributors(elig[1..], index, city, needed);
      ContributorsOrder(elig[1..], index, city, needed);
      var idx :| Embeds(rest, elig[1..], idx);
      var size := FetchSize(index, city, elig[0].rule.category, needed);
      if size == 0 {
        SkipEmbeds(rest, elig, idx);
      } else if size >= needed {
        assert Embeds(cs, elig, [0]);
      } else {
        ConsEmbeds(rest, elig, idx);
      }
    }
  }

  /** Every contributor adds places, and every contributor but the last
      falls short of `needed`. */
  lemma {:induction false} ContributorsFetch(elig: seq<BoostedRule>, index: CityIndex, city: string, needed: nat)
    ensures forall b :: b in Contributors(elig, index, city, needed) ==>
      FetchSize(index, city, b.rule.category, needed) > 0
    ensures var cs := Contributors(elig, index, city, needed);
      cs != [] ==> forall b :: b in cs[..|cs| - 1] ==> FetchSize(index, city, b.rule.category, needed) < needed
    decreases |elig|
  {
    if elig != [] {
      var rest := Contributors(elig[1..], index, city, needed);
      ContributorsFetch(elig[1..], index, city, needed);
      var cs := Contributors(elig, index, city, needed);
      var size := FetchSize(index, city, elig[0].rule.category, needed);
      if size == 0 {
        assert cs == rest;
      } else if size >= needed {
        assert cs == [elig[0]];
      } else {
        assert cs == [elig[0]] + rest;
        if rest != [] {
          assert cs[..|cs| - 1] == [elig[0]] + rest[..|rest| - 1];
        } else {
          assert cs[..|cs| - 1] == [];
        }
      }
    }
  }

  /** The loop stops at the first eligible row that can fill the request:
      when one exists, the last contributor fills it. */
  lemma {:induction false} ContributorsStop(elig: seq<BoostedRule>, index: CityIndex, city: string, needed: nat)
    requires 0 < needed
    requires exists b :: b in elig && FetchSize(index, city, b.rule.category, needed) >= needed
    ensures var cs := Contributors(elig, index, city, needed);
      cs != [] && FetchSize(index, city, cs[|cs| - 1].rule.category, needed) >= needed
    decreases |elig|
  {
    var size := FetchSize(index, city, elig[0].rule.category, needed);
    if size < needed {
      var b :| b in elig && FetchSize(index, city, b.rule.category, needed) >= needed;
      assert b in elig[1..] by {
        assert elig == [elig[0]] + elig[1..];
      }
      ContributorsStop(elig[1..], index, city, needed);
    }
  }

  /** When no eligible row can fill the request alone, every eligible row
      with places contributes. */
  lemma {:induction false} ContributorsAll(elig: seq<BoostedRule>, index: CityIndex, city: string, needed: nat)
    requires forall b :: b in elig ==> FetchSize(index, city, b.rule.category, needed) < needed
    ensures Contributors(elig, index, city, needed) == Filter(elig, HasFetch(index, city, needed))
    decreases |elig|
  {
    if elig != [] {
      assert forall b :: b in elig[1..] ==> b in elig;
      ContributorsAll(elig[1..], index, city, needed);
      assert elig[0] in elig;
    }
  }

  function HasFetch(index: CityIndex, city: string, needed: nat): BoostedRule -> bool {
    (b: BoostedRule) => FetchSize(index, city, b.rule.category, needed) > 0
  }

  function Flatten(pieces: seq<seq<PlaceRecord>>): (flat: seq<PlaceRecord>)
    ensures forall r :: r in flat ==> exists k :: 0 <= k < |pieces| && r in pieces[k]
    decreases |pieces|
  {
    if pieces == [] then [] else pieces[0] + Flatten(pieces[1..])
  }

  lemma {:induction false} FlattenSnoc(pieces: seq<seq<PlaceRecord>>, last: seq<PlaceRecord>)
    ensures Flatten(pieces + [last]) == Flatten(pieces) + last
    decreases |pieces|
  {
    if pieces == [] {
      assert pieces + [last] == [last];
      assert Flatten([last]) == last + Flatten([]);
    } else {
      assert (pieces + [last])[1..] == pieces[1..] + [last];
      FlattenSnoc(pieces[1..], last);
    }
  }

  /** `alternate_category` after the backfill: the last contributor, or
      the previous value when none contributed. */
  function AlternateAfter(contributors: seq<BoostedRule>, before: Option<string>): Option<string> {
    if contributors == [] then before else Some(contributors[|contributors| - 1].rule.category)
  }

  /** The effect of lines 317-341 on one item asked for `needed` places:
      one fetch per contributor, all appended to the item's places, the
      last contributor named as the alternate. */
  ghost predicate IsBackfill(item: Pending, out: Pending, pieces: seq<seq<PlaceRecord>>,
                             contributors: seq<BoostedRule>, index: CityIndex, city: string, needed: nat) {
    && |pieces| == |contributors|
    && (forall k :: 0 <= k < |pieces| ==>
          IsFetch(pieces[k], index, city, contributors[k].rule.category, needed))
    && out.rec == item.rec.(places := item.rec.places + Flatten(pieces),
                            alternateCategory := AlternateAfter(contributors, item.rec.alternateCategory))
    && out.sharesBucket == item.sharesBucket
    && out.needsPlaces == (if pieces == [] then item.needsPlaces
                           else Shortfall(needed, |pieces[|pieces| - 1]|))
  }

  /** The eligible rows from position j on: row j (when eligible), then
      those after it. */
  lemma EligibleFrom(boosted: seq<BoostedRule>, j: nat, recCats: seq<string>, availableCats: set<string>)
    requires j < |boosted|
    ensures Eligible(boosted[j..], recCats, availableCats)
      == (if IsEligible(recCats, availableCats)(boosted[j]) then [boosted[j]] else [])
         + Eligible(boosted[j + 1..], recCats, availableCats)
  {
    assert boosted[j..][0] == boosted[j] && boosted[j..][1..] == boosted[j + 1..];
  }

  /** The contributors among the eligible rows from position j on, by
      what row j is: skipped (not eligible, or nothing to fetch), the one
      that fills the request, or one more partial contributor. */
  lemma ContributorsFrom(boosted: seq<BoostedRule>, j: nat, recCats: seq<string>, availableCats: set<string>,
                         index: CityIndex, city: string, needed: nat)
    requires j < |boosted|
    ensures var row := boosted[j];
            var here := Contributors(Eligible(boosted[j..], recCats, availableCats), index, city, needed);
            var rest := Contributors(Eligible(boosted[j + 1..], recCats, availableCats), index, city, needed);
            var size := FetchSize(index, city, row.rule.category, needed);
            here == (if !IsEligible(recCats, availableCats)(row) || size == 0 then rest
                     else if size >= needed then [row]
                     else [row] + rest)
  {
    EligibleFrom(boosted, j, recCats, availableCats);
    var row := boosted[j];
    var tail := Eligible(boosted[j + 1..], recCats, availableCats);
    var here := Eligible(boosted[j..], recCats, availableCats);
    if IsEligible(recCats, availableCats)(row) {
      assert here == [row] + tail;
      assert here != [] && here[0] == row && here[1..] == tail;
    } else {
      assert here == tail;
    }
  }

  /** The contributors met from position j of the boosted rows on, row by
      row as the loop at lines 323-341 meets them. */
  function ContributorsAfter(boosted: seq<BoostedRule>, j: nat, recCats: seq<string>, availableCats: set<string>,
                             index: CityIndex, city: string, needed: nat): seq<BoostedRule>
    decreases |boosted| - j
  {
    if j >= |boosted| then []
    else
      var row := boosted[j];
      var size := FetchSize(index, city, row.rule.category, needed);
      if !IsEligible(recCats, availableCats)(row) || size == 0 then
        ContributorsAfter(boosted, j + 1, recCats, availableCats, index, city, needed)
      else if size >= needed then [row]
      else [row] + ContributorsAfter(boosted, j + 1, recCats, availableCats, index, city, needed)
  }

  /** Met row by row, the contributors are those of the eligible rows. */
  lemma {:induction false} ContributorsAfterSpec(boosted: seq<BoostedRule>, j: nat, recCats: seq<string>,
                                                 availableCats: set<string>, index: CityIndex, city: string, needed: nat)
    requires j <= |boosted|
    ensures ContributorsAfter(boosted, j, recCats, availableCats, index, city, needed)
         == Contributors(Eligible(boosted[j..], recCats, availableCats), index, city, needed)
    decreases |boosted| - j
  {
    if j == |boosted| {
      assert boosted[j..] == [];
    } else {
      ContributorsFrom(boosted, j, recCats, availableCats, index, city, needed);
      ContributorsAfterSpec(boosted, j + 1, recCats, availableCats, index, city, needed);
    }
  }

  /** Appending one more contributor's fetch keeps the backfill relation. */
  lemma BackfillStep(item: Pending, out: Pending, pieces: seq<seq<PlaceRecord>>, done: seq<BoostedRule>,
                     row: BoostedRule, fetched: seq<PlaceRecord>, index: CityIndex, city: string, needed: nat)
    requires IsBackfill(item, out, pieces, done, index, city, needed)
    requires IsFetch(fetched, index, city, row.rule.category, needed)
    ensures IsBackfill(item,
                       out.(rec := out.rec.(places := out.rec.places + fetched, alternateCategory := Some(row.rule.category)),
                            needsPlaces := Shortfall(needed, |fetched|)),
                       pieces + [fetched], done + [row], index, city, needed)
  {
    FlattenSnoc(pieces, fetched);
    var pieces' := pieces + [fetched];
    var done' := done + [row];
    forall k | 0 <= k < |pieces'| ensures IsFetch(pieces'[k], index, city, done'[k].rule.category, needed) {
      if k < |pieces| {
        assert pieces'[k] == pieces[k] && done'[k] == done[k];
      }
    }
  }

  /** An item after one more contributor's fetch was appended (lines
      333-336). */
  function Extend(out: Pending, category: string, fetched: seq<PlaceRecord>, needed: nat): (ext: Pending)
    ensures ext.rec.places == out.rec.places + fetched
    ensures ext.rec.alternateCategory == Some(category)
    ensures ext.sharesBucket == out.sharesBucket
    ensures ext.needsPlaces == 0 <==> |fetched| >= needed
  {
    out.(rec := out.rec.(places := out.rec.places + fetched, alternateCategory := Some(category)),
         needsPlaces := Shortfall(needed, |fetched|))
  }

  /** The state of the backfill loop before row j: the contributors met so
      far, with their fetches appended. */
  ghost predicate BackfillAt(item: Pending, out: Pending, pieces: seq<seq<PlaceRecord>>, done: seq<BoostedRule>,
                             boosted: seq<BoostedRule>, j: nat, recCats: seq<string>, availableCats: set<string>,
                             index: CityIndex, city: string, needed: nat) {
    && j <= |boosted|
    && done + ContributorsAfter(boosted, j, recCats, availableCats, index, city, needed)
       == ContributorsAfter(boosted, 0, recCats, availableCats, index, city, needed)
    && IsBackfill(item, out, pieces, done, index, city, needed)
  }

  /** A row that is skipped, or whose fetch comes back empty, changes
      nothing. */
  lemma BackfillSkip(item: Pending, out: Pending, pieces: seq<seq<PlaceRecord>>, done: seq<BoostedRule>,
                     boosted: seq<BoostedRule>, j: nat, recCats: seq<string>, availableCats: set<string>,
                     index: CityIndex, city: string, needed: nat)
    requires BackfillAt(item, out, pieces, done, boosted, j, recCats, availableCats, index, city, needed)
    requires j < |boosted|
    requires !IsEligible(recCats, availableCats)(boosted[j]) || FetchSize(index, city, boosted[j].rule.category, needed) == 0
    ensures BackfillAt(item, out, pieces, done, boosted, j + 1, recCats, availableCats, index, city, needed)
  {
  }

  /** A row whose fetch is not empty becomes a contributor: the loop goes
      on while the item is still short, and otherwise has met all of them. */
  lemma BackfillTake(item: Pending, out: Pending, pieces: seq<seq<PlaceRecord>>, done: seq<BoostedRule>,
                     boosted: seq<BoostedRule>, j: nat, recCats: seq<string>, availableCats: set<string>,
                     index: CityIndex, city: string, needed: nat, fetched: seq<PlaceRecord>)
    requires BackfillAt(item, out, pieces, done, boosted, j, recCats, availableCats, index, city, needed)
    requires j < |boosted| && IsEligible(recCats, availableCats)(boosted[j])
    requires IsFetch(fetched, index, city, boosted[j].rule.category, needed) && |fetched| > 0
    ensures var ext := Extend(out, boosted[j].rule.category, fetched, needed);
            if ext.needsPlaces == 0 then
              IsBackfill(item, ext, pieces + [fetched],
                         Contributors(Eligible(boosted, recCats, availableCats), index, city, needed), index, city, needed)
            else
              BackfillAt(item, ext, pieces + [fetched], done + [boosted[j]], boosted, j + 1,
                         recCats, availableCats, index, city, needed)
  {
    var row := boosted[j];
    FetchSpec(fetched, index, city, row.rule.category, needed);
    BackfillStep(item, out, pieces, done, row, fetched, index, city, needed);
    var rest := ContributorsAfter(boosted, j + 1, recCats, availableCats, index, city, needed);
    if |fetched| >= needed {
      ContributorsAfterSpec(boosted, 0, recCats, availableCats, index, city, needed);
      assert boosted[0..] == boosted;
    } else {
      assert done + ([row] + rest) == (done + [row]) + rest;
    }
  }

  /** Once every row was met, the contributors are all of them. */
  lemma BackfillEnd(item: Pending, out: Pending, pieces: seq<seq<PlaceRecord>>, done: seq<BoostedRule>,
                    boosted: seq<BoostedRule>, recCats: seq<string>, availableCats: set<string>,
                    index: CityIndex, city: string, needed: nat)
    requires BackfillAt(item, out, pieces, done, boosted, |boosted|, recCats, availableCats, index, city, needed)
    ensures IsBackfill(item, out, pieces, Contributors(Eligible(boosted, recCats, availableCats), index, city, needed),
                       index, city, needed)
  {
    ContributorsAfterSpec(boosted, 0, recCats, availableCats, index, city, needed);
    assert boosted[0..] == boosted;
  }

  /** A backfill only ever adds places of the target city. */
  lemma BackfillInCity(tourism: seq<Place>, index: CityIndex, city: string, needed: nat,
                       pieces: seq<seq<PlaceRecord>>, contributors: seq<BoostedRule>)
    requires IndexValid(tourism, index)
    requires |pieces| == |contributors|
    requires forall k :: 0 <= k < |pieces| ==> IsFetch(pieces[k], index, city, contributors[k].rule.category, needed)
    ensures forall r :: r in Flatten(pieces) ==> r in CityRecords(tourism, city)
  {
    forall r | r in Flatten(pieces) ensures r in CityRecords(tourism, city) {
      var k :| 0 <= k < |pieces| && r in pieces[k];
      FetchInCity(tourism, index, pieces[k], city, contributors[k].rule.category, needed);
    }
  }

  /** Because `needed_places` is never reduced (line 319), an item can end
      up with more places than it asked for: asked for 3, an alternate with
      2 places contributes both and the next, with 3, contributes 3 more. */
  lemma BackfillCanOvershoot()
    ensures var p := PlaceRecord(0, "", "C", "");
            var index: CityIndex := map["C" := map["A" := [p, p], "B" := [p, p, p]]];
            var row := (c: string) => BoostedRule(Rule(c, "", "", "", "", 1), 0, 0, 0);
            var cs := Contributors([row("A"), row("B")], index, "C", 3);
      && cs == [row("A"), row("B")]
      && FetchSize(index, "C", "A", 3) + FetchSize(index, "C", "B", 3) == 5
  {
  }

  // ---------------------------------------------------------------------
  // The whole call

  function CategoriesOfRows(rows: seq<BoostedRule>): (cats: seq<string>)
    ensures |cats| == |rows|
    ensures forall i :: 0 <= i < |rows| ==> cats[i] == rows[i].rule.category
  {
    seq(|rows|, i requires 0 <= i < |rows| => rows[i].rule.category)
  }

  /** One returned item for the selected row `row`: its first fetch
      `primary`, then one fetch per contributing alternate (`extras`),
      each asked for the shortfall of the first fetch; the alternate named
      is the last contributor. */
  ghost predicate IsAssembled(rec: Recommendation, row: BoostedRule, primary: seq<PlaceRecord>,
                              extras: seq<seq<PlaceRecord>>, elig: seq<BoostedRule>,
                              index: CityIndex, city: string, n: nat) {
    && IsFetch(primary, index, city, row.rule.category, n)
    && var needed := NeedsPlaces(|primary|, n);
       var cs := if needed > 0 then Contributors(elig, index, city, needed) else [];
       && |extras| == |cs|
       && (forall k :: 0 <= k < |extras| ==> IsFetch(extras[k], index, city, cs[k].rule.category, needed))
       && rec == NewRecommendation(row, primary + Flatten(extras)).(alternateCategory := AlternateAfter(cs, None))
  }

  /** An item whose first fetch was `primary`, backfilled when it fell
      short, is assembled; when it shares the stored bucket its place list
      is that bucket followed by what the backfill appended. */
  lemma BackfillAssembles(row: BoostedRule, primary: seq<PlaceRecord>, item: Pending, out: Pending,
                          pieces: seq<seq<PlaceRecord>>, elig: seq<BoostedRule>,
                          index: CityIndex, city: string, n: nat)
    requires IsFetch(primary, index, city, row.rule.category, n)
    requires item == PendingOf(row, primary, index, city, n)
    requires item.needsPlaces > 0 ==>
      IsBackfill(item, out, pieces, Contributors(elig, index, city, item.needsPlaces), index, city, item.needsPlaces)
    requires item.needsPlaces == 0 ==> out == item && pieces == []
    ensures IsAssembled(out.rec, row, primary, pieces, elig, index, city, n)
    ensures out.sharesBucket == SharesBucket(index, city, row.rule.category, n)
    ensures out.sharesBucket ==> out.rec.places == index[city][row.rule.category] + Flatten(pieces)
  {
    SharedItemIsShort(index, city, row, primary, n);
    if item.needsPlaces == 0 {
      assert primary + Flatten(pieces) == primary;
    }
  }

  /** Every place of an assembled item is a place of the target city. */
  lemma AssembledInCity(tourism: seq<Place>, rec: Recommendation, row: BoostedRule, primary: seq<PlaceRecord>,
                        extras: seq<seq<PlaceRecord>>, elig: seq<BoostedRule>,
                        index: CityIndex, city: string, n: nat)
    requires IndexValid(tourism, index)
    requires IsAssembled(rec, row, primary, extras, elig, index, city, n)
    ensures forall r :: r in Flatten(extras) ==> r in CityRecords(tourism, city)
    ensures forall r :: r in rec.places ==> r in CityRecords(tourism, city)
  {
    var needed := NeedsPlaces(|primary|, n);
    var cs := if needed > 0 then Contributors(elig, index, city, needed) else [];
    FetchInCity(tourism, index, primary, city, row.rule.category, n);
    BackfillInCity(tourism, index, city, needed, extras, cs);
  }

  /** The items with their `needs_places` field deleted (lines 343-346). */
  function RecsOf(items: seq<Pending>): (recs: seq<Recommendation>)
    ensures |recs| == |items|
    ensures forall i :: 0 <= i < |items| ==> recs[i] == items[i].rec
  {
    seq(|items|, i requires 0 <= i < |items| => items[i].rec)
  }

  /** Every returned item is assembled from its selected row. */
  ghost predicate AllAssembled(recs: seq<Recommendation>, selected: seq<BoostedRule>,
                               primaries: seq<seq<PlaceRecord>>, extras: seq<seq<seq<PlaceRecord>>>,
                               elig: seq<BoostedRule>, index: CityIndex, city: string, n: nat) {
    && |recs| == |selected| && |primaries| == |selected| && |extras| == |selected|
    && forall i :: 0 <= i < |recs| ==>
         IsAssembled(recs[i], selected[i], primaries[i], extras[i], elig, index, city, n)
  }

  /** The first fetch of every item. */
  function PlacesOfItems(items: seq<Pending>): (lists: seq<seq<PlaceRecord>>)
    ensures |lists| == |items|
    ensures forall i :: 0 <= i < |items| ==> lists[i] == items[i].rec.places
  {
    seq(|items|, i requires 0 <= i < |items| => items[i].rec.places)
  }

  /** A list holding each item's recommendation, in order, is `RecsOf`. */
  lemma RecsOfFrom(items: seq<Pending>, recs: seq<Recommendation>)
    requires |recs| == |items|
    requires forall k :: 0 <= k < |items| ==> recs[k] == items[k].rec
    ensures recs == RecsOf(items)
  {
  }

  /** No category is recommended twice. */
  predicate CategoriesDistinct(recs: seq<Recommendation>) {
    forall i, j :: 0 <= i < j < |recs| ==> recs[i].category != recs[j].category
  }

  /** Every recommended place lies in the target city. */
  ghost predicate PlacesInCity(tourism: seq<Place>, recs: seq<Recommendation>, city: string) {
    forall i, r :: 0 <= i < |recs| && r in recs[i].places ==> r in CityRecords(tourism, city)
  }

  /** The items of one call, assembled from rows of distinct categories
      out of a valid index, recommend distinct categories and only places
      of the target city, appended ones included. */
  lemma AssembledRecs(tourism: seq<Place>, recs: seq<Recommendation>, selected: seq<BoostedRule>,
                      primaries: seq<seq<PlaceRecord>>, extras: seq<seq<seq<PlaceRecord>>>,
                      elig: seq<BoostedRule>, index: CityIndex, city: string, n: nat)
    requires IndexValid(tourism, index)
    requires AllAssembled(recs, selected, primaries, extras, elig, index, city, n)
    requires KeysDistinct(selected, CategoryOfBoosted)
    ensures forall i :: 0 <= i < |recs| ==> recs[i].category == selected[i].rule.category
    ensures CategoriesDistinct(recs)
    ensures PlacesInCity(tourism, recs, city)
    ensures forall i, r :: 0 <= i < |recs| && r in Flatten(extras[i]) ==> r in CityRecords(tourism, city)
  {
    forall i | 0 <= i < |recs|
      ensures recs[i].category == selected[i].rule.category
      ensures forall r :: r in Flatten(extras[i]) ==> r in CityRecords(tourism, city)
      ensures forall r :: r in recs[i].places ==> r in CityRecords(tourism, city)
    {
      AssembledInCity(tourism, recs[i], selected[i], primaries[i], extras[i], elig, index, city, n);
    }
    forall i, j | 0 <= i < j < |recs| ensures recs[i].category != recs[j].category {
      assert CategoryOfBoosted(selected[i]) != CategoryOfBoosted(selected[j]);
    }
  }

  /** The places appended to each item by the backfill, in one list. */
  function Appended(extras: seq<seq<seq<PlaceRecord>>>): (lists: seq<seq<PlaceRecord>>)
    ensures |lists| == |extras|
    ensures forall i :: 0 <= i < |extras| ==> lists[i] == Flatten(extras[i])
  {
    seq(|extras|, i requires 0 <= i < |extras| => Flatten(extras[i]))
  }

  /** What writing the items back needs: distinct categories, and every
      item that shares its bucket holds that bucket followed by places of
      the city. */
  ghost predicate ReadyToStore(tourism: seq<Place>, items: seq<Pending>, before: CityIndex, city: string,
                               n: nat, extras: seq<seq<PlaceRecord>>) {
    && |extras| == |items|
    && CategoriesDistinct(RecsOf(items))
    && forall i :: 0 <= i < |items| ==>
         && items[i].sharesBucket == SharesBucket(before, city, items[i].rec.category, n)
         && (items[i].sharesBucket ==>
               && items[i].rec.places == before[city][items[i].rec.category] + extras[i]
               && forall r :: r in extras[i] ==> r in CityRecords(tourism, city))
  }

  /** Items assembled from the selected rows are ready to be written back,
      and recommend only places of the target city. */
  lemma AssembledReady(tourism: seq<Place>, items: seq<Pending>, selected: seq<BoostedRule>,
                       primaries: seq<seq<PlaceRecord>>, extras: seq<seq<seq<PlaceRecord>>>,
                       elig: seq<BoostedRule>, index: CityIndex, city: string, n: nat)
    requires IndexValid(tourism, index)
    requires AllAssembled(RecsOf(items), selected, primaries, extras, elig, index, city, n)
    requires KeysDistinct(selected, CategoryOfBoosted)
    requires forall i :: 0 <= i < |items| ==>
      && items[i].sharesBucket == SharesBucket(index, city, selected[i].rule.category, n)
      && (items[i].sharesBucket ==>
            items[i].rec.places == index[city][selected[i].rule.category] + Flatten(extras[i]))
    ensures ReadyToStore(tourism, items, index, city, n, Appended(extras))
    ensures CategoriesDistinct(RecsOf(items))
    ensures PlacesInCity(tourism, RecsOf(items), city)
  {
    var recs := RecsOf(items);
    AssembledRecs(tourism, recs, selected, primaries, extras, elig, index, city, n);
    forall i | 0 <= i < |items| ensures items[i].rec.category == selected[i].rule.category {
      assert recs[i] == items[i].rec;
    }
  }

  /** The categories whose stored bucket an item's place list is. */
  function SharedCategories(before: CityIndex, city: string, recs: seq<Recommendation>, n: nat): set<string> {
    set r | r in recs && SharesBucket(before, city, r.category, n) :: r.category
  }

  /** The index after the call: every bucket an item shared is now that
      item's place list; every other bucket is unchanged. */
  ghost predicate StoredAfter(before: CityIndex, after: CityIndex, city: string, recs: seq<Recommendation>, n: nat) {
    && after.Keys == before.Keys
    && (forall c :: c in after ==> after[c].Keys == before[c].Keys)
    && (forall i :: 0 <= i < |recs| && SharesBucket(before, city, recs[i].category, n) ==>
          after[city][recs[i].category] == recs[i].places)
    && (forall c, cat {:trigger after[c][cat]} ::
          c in before && cat in before[c] && (c != city || cat !in SharedCategories(before, city, recs, n)) ==>
          after[c][cat] == before[c][cat])
  }

  /** Writing one more item back (or not, when it does not share its
      bucket) keeps the stored index in step with the items. */
  lemma StoreStep(before: CityIndex, cur: CityIndex, city: string, recs: seq<Recommendation>,
                  rec: Recommendation, shares: bool, n: nat)
    requires StoredAfter(before, cur, city, recs, n)
    requires forall r :: r in recs ==> r.category != rec.category
    requires shares == SharesBucket(before, city, rec.category, n)
    ensures StoredAfter(before, if shares then cur[city := cur[city][rec.category := rec.places]] else cur,
                        city, recs + [rec], n)
  {
    var recs' := recs + [rec];
    assert forall r :: r in recs' <==> r in recs || r == rec;
    assert SharedCategories(before, city, recs', n)
        == SharedCategories(before, city, recs, n) + (if shares then {rec.category} else {});
    if shares {
      var next := cur[city := cur[city][rec.category := rec.places]];
      forall i | 0 <= i < |recs'| && SharesBucket(before, city, recs'[i].category, n)
        ensures next[city][recs'[i].category] == recs'[i].places
      {
        if i < |recs| {
          assert recs'[i] == recs[i] && recs[i] in recs;
        }
      }
    } else {
      assert SharedCategories(before, city, recs', n) == SharedCategories(before, city, recs, n);
      forall i | 0 <= i < |recs'| && SharesBucket(before, city, recs'[i].category, n)
        ensures cur[city][recs'[i].category] == recs'[i].places
      {
        assert i < |recs| && recs'[i] == recs[i];
      }
      forall c, cat | c in before && cat in before[c] && (c != city || cat !in SharedCategories(before, city, recs', n))
        ensures cur[c][cat] == before[c][cat]
      {
        assert c != city || cat !in SharedCategories(before, city, recs, n);
      }
    }
  }

  /** The write-back of a shared item keeps the index valid: the bucket
      it replaces is still the original one, and the item only appended
      records of the city to it. */
  lemma StoreKeepsValid(tourism: seq<Place>, before: CityIndex, cur: CityIndex, city: string,
                        recs: seq<Recommendation>, rec: Recommendation, extra: seq<PlaceRecord>, n: nat)
    requires IndexValid(tourism, cur)
    requires StoredAfter(before, cur, city, recs, n)
    requires forall r :: r in recs ==> r.category != rec.category
    requires SharesBucket(before, city, rec.category, n)
    requires rec.places == before[city][rec.category] + extra
    requires forall r :: r in extra ==> r in CityRecords(tourism, city)
    ensures IndexValid(tourism, cur[city := cur[city][rec.category := rec.places]])
  {
    assert rec.category !in SharedCategories(before, city, recs, n);
    assert cur[city][rec.category] == before[city][rec.category];
    AppendKeepsValid(tourism, cur, city, rec.category, extra);
  }

  /** One step of the write-back: the next index is still valid and in
      step with one more item. */
  lemma StoreNext(tourism: seq<Place>, before: CityIndex, cur: CityIndex, next: CityIndex, city: string,
                  recs: seq<Recommendation>, rec: Recommendation, shares: bool, extra: seq<PlaceRecord>, n: nat)
    requires IndexValid(tourism, cur)
    requires StoredAfter(before, cur, city, recs, n)
    requires forall k :: 0 <= k < |recs| ==> recs[k].category != rec.category
    requires shares == SharesBucket(before, city, rec.category, n)
    requires shares ==> rec.places == before[city][rec.category] + extra
    requires shares ==> forall r :: r in extra ==> r in CityRecords(tourism, city)
    requires next == if shares then cur[city := cur[city][rec.category := rec.places]] else cur
    ensures IndexValid(tourism, next)
    ensures StoredAfter(before, next, city, recs + [rec], n)
  {
    assert forall r :: r in recs ==> r.category != rec.category;
    StoreStep(before, cur, city, recs, rec, shares, n);
    if shares {
      StoreKeepsValid(tourism, before, cur, city, recs, rec, extra, n);
    }
  }

  /** `StoreNext` for the `i`-th of a list of recommendations. */
  lemma StorePrefixNext(tourism: seq<Place>, before: CityIndex, cur: CityIndex, next: CityIndex, city: string,
                        recs: seq<Recommendation>, i: nat, shares: bool, extra: seq<PlaceRecord>, n: nat)
    requires i < |recs| && CategoriesDistinct(recs)
    requires IndexValid(tourism, cur)
    requires StoredAfter(before, cur, city, recs[..i], n)
    requires shares == SharesBucket(before, city, recs[i].category, n)
    requires shares ==> recs[i].places == before[city][recs[i].category] + extra
    requires shares ==> forall r :: r in extra ==> r in CityRecords(tourism, city)
    requires next == if shares then cur[city := cur[city][recs[i].category := recs[i].places]] else cur
    ensures IndexValid(tourism, next)
    ensures StoredAfter(before, next, city, recs[..i + 1], n)
  {
    assert recs[..i + 1] == recs[..i] + [recs[i]];
    StoreNext(tourism, before, cur, next, city, recs[..i], recs[i], shares, extra, n);
  }

  /** The aliasing of lines 196 and 335: when an item's first fetch was
      the stored bucket, that bucket grows by everything the backfill
      appended to the item, and later calls see the longer bucket. */
  lemma SharedBucketGrows(before: CityIndex, after: CityIndex, city: string, recs: seq<Recommendation>, n: nat,
                          i: nat, row: BoostedRule, primary: seq<PlaceRecord>, extras: seq<seq<PlaceRecord>>,
                          elig: seq<BoostedRule>)
    requires StoredAfter(before, after, city, recs, n)
    requires i < |recs| && IsAssembled(recs[i], row, primary, extras, elig, before, city, n)
    requires SharesBucket(before, city, recs[i].category, n)
    ensures after[city][recs[i].category] == before[city][recs[i].category] + Flatten(extras)
    ensures |after[city][recs[i].category]| >= |before[city][recs[i].category]|
  {
  }
}

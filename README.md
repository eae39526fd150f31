# recsys-objek-wisata, modelled in Dafny

A model of the tourism recommender of recsys-objek-wisata. Given a profile
(gender, age group), a target city and a trip type, the recommender works in
these steps:

1. It scores the place categories with a content-based step: cosine
   similarity between one-hot encodings of the profile and of the
   aggregated rule table.
2. It adds a context boost that depends on the trip type.
3. It takes the categories that have places in the city first.
4. It samples places for each selected category.
5. It backfills short categories with places from the next-best
   alternates.

Around it the model covers:

- the offline aggregation that builds the rule table from the rating rows;
- the age bucketing;
- the parts of the Streamlit front end that compute something: the image
  list of a place card, the category icon, color and description lookups,
  the card title and score, and the form check that decides whether the
  recommender is called at all.

Modules, one per concern:

| file | module | models |
|---|---|---|
| utils.dfy | `Utils` | `get_age_group` |
| preprocess.dfy | `Preprocess` | the rule aggregation and the second copy of `get_age_group` |
| rules_table.dfy | `RulesTable` | one row of the rule table |
| scoring.dfy | `Scoring` | `get_category_recommendations`, `apply_context_boost` |
| places.dfy | `Places` | the place table and the three lookup structures of `prepare_data`, as functions of the table |
| assembly.dfy | `Assembly` | `get_places_for_category_in_city` and the steps of `get_recommendations`, as predicates and functions the class is proved against |
| recommender.dfy | `Recommender` | the class `TourismRecommender`: its maps are fields, and every loop of the source is a method with invariants |
| app.dfy | `App` | the computing parts of the front end |
| seq_util.dfy | `SeqUtil` | filters, sorts, subsequences, string order |
| wrappers.dfy | `Wrappers` | `Option` |

Scores are integer hundredths: a similarity of 1.0 is 100, a trip weight of
0.25 is 25, and the trip-type bonus of 0.1 is 10. Every score of the source
is a sum of such multiples of 0.05, so the order is unaffected; only the
float rounding of exact ties differs, and the one-column sorts of the
scoring leave ties unordered anyway. The rule table is different: the
groupby lists its groups by (Category, Gender, Age_Group) and the
two-column sort at src/preprocess.py:85 is stable, so rules tied on
Category and Total_Users keep the (Gender, Age_Group) order, and the
model fixes that order too.

Some behaviour of the source the model reproduces as written:

- Below 18, `get_age_group` returns "Mature Adult" (`Utils.UnderageIsMatureAdult`).
- The backfill asks every alternate for the shortfall measured once, at
  `src/recommender.py` line 319. An item can therefore end up with more
  places than it asked for (`Assembly.BackfillCanOvershoot`).
- When a city holds fewer places of a category than requested, line 196
  returns the stored list itself. The backfill's `extend` (line 335) then
  grows the stored bucket of `city_category_places`, and later calls see
  the longer bucket (`Assembly.SharedBucketGrows`,
  `Recommender.TourismRecommender.StoreSharedBuckets`).
- `src/recommender.py` lines 65-82 do not parse as written: the body of the
  `if` is indented less than the `if`. The model follows the evident
  two-branch `if`/`else`.

## Model

| member | source | states |
|---|---|---|
| Utils.GetAgeGroup | src/utils.py:3-12 | each of the four groups is returned exactly for its age range (18-22, 23-27, 28-32, and everything else, ages below 18 included) |
| Utils.AgeGroupMonotone | src/utils.py:5-12 | from 18 on, an older age never falls into an earlier group |
| Utils.UnderageIsMatureAdult | src/utils.py:5-12 | every age below 18 is "Mature Adult", ranked after the group of 18 |
| Preprocess.AgeGroupsAgree | src/preprocess.py:103-112 | the preprocessing copy of the bucketing agrees with src/utils.py on every age |
| Preprocess.InSegment | src/preprocess.py:76-77 | a groupby group holds exactly the rows with that (Category, Gender, Age_Group) triple |
| Preprocess.ModeAmong | src/preprocess.py:79-80 | a value from the candidates, at least as frequent as every candidate, and the smallest among the equally frequent |
| Preprocess.Mode | src/preprocess.py:79-80 | `mode()[0]`: a value of the column, of maximal frequency, the smallest of those |
| Preprocess.RuleBeforeIsPreorder | src/preprocess.py:76-85 | the order of the final table (Category ascending, Total_Users descending, then Gender and Age_Group ascending from the groupby keys, kept by the stable sort) is total and transitive |
| Preprocess.RuleBeforeIsTableOrder | src/preprocess.py:76-85 | for rules of different triples, that order is strict: a tie on Category and Total_Users is broken by Gender, then Age_Group |
| Preprocess.Segments | src/preprocess.py:76-77 | the triples present among the high-rated rows, each exactly once |
| Preprocess.GroupRules | src/preprocess.py:76-82 | one aggregated rule per distinct triple, each built from a non-empty group |
| Preprocess.RuleForAggregates | src/preprocess.py:76-82 | a rule's triple is its group's, Total_Users counts the group's rows, and trip type and location are modes of the group |
| Preprocess.RulesOfAggregate | src/preprocess.py:76-85 | after sorting, no triple repeats and every rule aggregates its group |
| Preprocess.RulesOfCover | src/preprocess.py:76-82 | every triple present among the high-rated rows has a rule |
| Preprocess.RulesOfSorted | src/preprocess.py:76-85 | the rule table is sorted by Category ascending, then Total_Users descending, and rules tied on both are in ascending (Gender, Age_Group) order |
| Preprocess.AggregateRulesSpec | src/preprocess.py:73-85 | one rule per high-rated triple and none for any other, each the aggregate of its group, with Total_Users >= 1, ordered by Category, then Total_Users descending, then Gender and Age_Group |
| Preprocess.PairRules | src/preprocess.py:73-82 | two high-rated rows of different triples give two rules of Total_Users 1, one per triple |
| Preprocess.TiesFollowGroupOrder | src/preprocess.py:76-85 | a Perempuan row followed by a Laki-laki row of the same Bahari / Young Adult segment gives the Laki-laki rule first |
| Preprocess.LowRatingsIgnored | src/preprocess.py:73 | inserting a rating below 4 anywhere leaves the rule table unchanged |
| Preprocess.AggregateRules | src/preprocess.py:73-85 | the aggregation as a function of the rating rows; its properties are stated by `Preprocess.AggregateRulesSpec` and `Preprocess.LowRatingsIgnored` |
| Scoring.GenderVocab | src/recommender.py:88-92 | the encoder's gender vocabulary is exactly the genders of the rule table, without repeats |
| Scoring.AgeVocab | src/recommender.py:88-92 | the encoder's age-group vocabulary is exactly the age groups of the rule table, without repeats |
| Scoring.OneHotDot | src/recommender.py:88-95 | two one-hot vectors over a repeat-free vocabulary meet once when they encode the same known value, else never |
| Scoring.Similarity | src/recommender.py:94-95 | the similarity is 0, 0.5 or 1.0; 1.0 exactly when gender and age group both match, 0 exactly when neither does |
| Scoring.CosineIsHalfMatchCount | src/recommender.py:86-95 | both encodings have squared norm 2, and their cosine (dot product over 2) is `Similarity` |
| Scoring.MaxBy | src/recommender.py:102-104 | a row of the group whose key is at least every other row's |
| Scoring.RowsOfCategory | src/recommender.py:103 | the group holds exactly the rows of that category |
| Scoring.BestInCategory | src/recommender.py:102-104 | `.first()` of a group sorted by the key: a row of that category with the largest key |
| Scoring.CategoryList | src/recommender.py:103 | the groupby keys are exactly the categories of the table |
| Scoring.BestPerCategorySpec | src/recommender.py:102-105 | one row per category of the table, each a row with the largest key in its category |
| Scoring.BestRowsPermutation | src/recommender.py:106 | the final re-sort keeps the per-category winners |
| Scoring.RankedBestSpec | src/recommender.py:102-106 | the winners, one per category, sorted by the key descending |
| Scoring.RulesOfAgeGroup | src/recommender.py:68-69 | exactly the rules of the user's age group |
| Scoring.ScoreSpec | src/recommender.py:98-99 | adding the Similarity column keeps the rows, one per category, with the same categories |
| Scoring.UnspecifiedGenderSpec | src/recommender.py:65-81 | no gender: only rules of the age group; one per category of that age group, the one with the largest Total_Users; similarity 1.0; sorted by Total_Users descending |
| Scoring.ConcreteGenderRows | src/recommender.py:83-109 | a gender: one rule per category of the whole table, scored with its similarity to the profile |
| Scoring.BestScoredRanked | src/recommender.py:102-106 | scoring the winners by their ranking key gives each category's largest similarity, in descending order |
| Scoring.ConcreteGenderRanked | src/recommender.py:95-109 | each category's row has the largest similarity in its category, and the table is sorted by similarity descending |
| Scoring.GetCategoryRecommendations | src/recommender.py:60-109 | the content-based step; its properties are stated by `Scoring.UnspecifiedGenderSpec`, `Scoring.ConcreteGenderRows` and `Scoring.ConcreteGenderRanked` |
| Scoring.TripWeightRange | src/recommender.py:119-160 | every weight is a multiple of 0.05 up to 0.30; it is non-zero exactly for the four trip types and six categories of the table |
| Scoring.TripWeight | src/recommender.py:119-160 | the trip-type weight table; its range and support are stated by `Scoring.TripWeightRange` |
| Scoring.ContextBoost | src/recommender.py:155-167 | the boost is the table weight, plus 0.1 exactly when the rule's trip type is the user's |
| Scoring.ApplyContextBoostRows | src/recommender.py:116-173 | a permutation of the boosted input rows; each has Boost = weight + bonus and Final_Score = Similarity + Boost |
| Scoring.ApplyContextBoostSorted | src/recommender.py:176 | the boosted table is sorted by Final_Score descending |
| Scoring.ApplyContextBoostDistinct | src/recommender.py:111-176 | boosting keeps one row per category |
| Scoring.ApplyContextBoost | src/recommender.py:111-176 | the context boost; its properties are stated by `Scoring.ApplyContextBoostRows`, `Scoring.ApplyContextBoostSorted` and `Scoring.ApplyContextBoostDistinct` |
| Places.CityList | src/recommender.py:38 | `unique()` of the City column lists exactly the cities |
| Places.CategoryList | src/recommender.py:33 | `unique()` of the Category column lists exactly the categories |
| Places.CityPlaces | src/recommender.py:39 | exactly the places of the city |
| Places.CityCategoriesListed | src/recommender.py:54-56 | the categories listed for a city's places are the categories with a place in that city |
| Places.BucketMembers | src/recommender.py:56-58 | a bucket holds the record of every place with that city and category, and nothing else |
| Places.BucketConcat | src/recommender.py:56-58 | buckets keep table order |
| Places.BucketInCity | src/recommender.py:56-58 | every record of a bucket is a place of that city |
| Places.BucketNonEmpty | src/recommender.py:56-58 | a category listed for a city has a non-empty bucket |
| Places.CategoryIndexSpec | src/recommender.py:32-35 | `category_to_places` has exactly the categories of the table as keys; each list is the records of that category's places in table order, is not empty, holds every such place and nothing else |
| Places.CategoryIndex | src/recommender.py:32-35 | `category_to_places` as a function of the table; its properties are stated by `Places.CategoryIndexSpec` |
| Places.CountsMatchIndex | src/recommender.py:37-58 | `city_to_categories` has the same keys as `city_category_places`, and each count is the non-zero size of the matching bucket |
| Places.CityCategoryIndexSpec | src/recommender.py:50-58 | a city is a key exactly when it has a place; a category is a key under it exactly when it has a place there; the bucket is those places in table order and is not empty |
| Places.CityCategoryIndexValid | src/recommender.py:50-58 | the freshly built index satisfies the invariant the class keeps |
| Places.CityCategoryIndex | src/recommender.py:50-58 | `city_category_places` as a function of the table; its properties are stated by `Places.CityCategoryIndexSpec` and `Places.CityCategoryIndexValid` |
| Places.BucketGrows | src/recommender.py:335 | appending places of the same city to a valid bucket keeps it valid |
| Places.AppendKeepsValid | src/recommender.py:335 | appending places of the same city to one bucket keeps the whole index valid |
| Recommender.TourismRecommender.constructor | src/recommender.py:9-23 | the tables are kept, and the maps are built as `prepare_data` builds them |
| Recommender.TourismRecommender.PrepareData | src/recommender.py:25-58 | the three maps equal their specification functions of the place table |
| Recommender.TourismRecommender.CategoryToPlaces | src/recommender.py:27-35 | the loop builds exactly `category_to_places` |
| Recommender.TourismRecommender.CityToCategories | src/recommender.py:29-48 | the loop builds exactly `city_to_categories` |
| Recommender.TourismRecommender.CategoryCounts | src/recommender.py:41-45 | the inner loop counts exactly the places of each category of the city |
| Recommender.TourismRecommender.CityCategoryPlaces | src/recommender.py:50-58 | the loop builds exactly `city_category_places` |
| Recommender.TourismRecommender.CategoryBuckets | src/recommender.py:53-58 | the inner loop builds exactly the buckets of the city |
| Recommender.TourismRecommender.GetPlacesForCategoryInCity | src/recommender.py:178-199 | returns [] without a bucket, the stored bucket itself when it holds fewer than n places, else n places drawn from distinct positions; its size is `FetchSize` |
| Assembly.FetchSize | src/recommender.py:186-199 | a fetch never returns more than asked for, nor more than the bucket holds |
| Assembly.FetchSpec | src/recommender.py:186-199 | every fetch has `FetchSize` places, all from the bucket, and none without a bucket |
| Assembly.AnyIndicesAreAFetch | src/recommender.py:191-193 | every choice of n distinct positions is a possible draw |
| Assembly.FetchInCity | src/recommender.py:186-199 | a fetch from a valid index returns places of the requested city |
| Assembly.IsFetch | src/recommender.py:186-199 | the possible results of one fetch; stated by `Assembly.FetchSpec` and `Assembly.AnyIndicesAreAFetch` |
| Recommender.TourismRecommender.SplitByAvailability | src/recommender.py:223-235 | the available rows (non-empty bucket) and the others, each in boosted order |
| Recommender.SelectCategories | src/recommender.py:238-253 | the first `n_categories` rows of "available, then unavailable" |
| Assembly.SelectRowsShape | src/recommender.py:238-253 | min(n, number of rows) rows; the available ones come first and number as many as fit, and the rest are unavailable |
| Assembly.SelectRowsOrder | src/recommender.py:223-253 | each of the two groups keeps boosted order |
| Assembly.SelectRowsSubset | src/recommender.py:238-253 | no boosted row is selected twice |
| Assembly.SelectRowsDistinct | src/recommender.py:238-253 | rows of distinct categories stay distinct |
| Assembly.SelectRows | src/recommender.py:223-253 | the category selection; its properties are stated by `Assembly.SelectRowsShape`, `Assembly.SelectRowsOrder`, `Assembly.SelectRowsSubset` and `Assembly.SelectRowsDistinct` |
| Assembly.SelectedCategoriesDistinct | src/recommender.py:216-253 | no category is selected twice |
| Recommender.TourismRecommender.ChooseRows | src/recommender.py:216-253 | the boosted rows and the selection are the specified ones |
| Assembly.NewRecommendation | src/recommender.py:265-302 | the item carries the row's category, Final_Score, Similarity and Boost, the winning rule's profile, the fetched places, and no alternate |
| Assembly.NeedsPlaces | src/recommender.py:264-284 | both branches set `needs_places` to what is still missing |
| Assembly.SharedItemIsShort | src/recommender.py:191-196 | an item shares the stored bucket only when it falls short (so it is backfilled), and it needs nothing exactly when the fetch was full |
| Recommender.TourismRecommender.FetchPrimary | src/recommender.py:259-302 | one item per selected row, built from one fetch of `n_places_per_category` places |
| Assembly.AvailableCategories | src/recommender.py:310-314 | exactly the categories with a non-empty bucket in the city |
| Recommender.TourismRecommender.AvailableCityCategories | src/recommender.py:310-314 | the loop builds exactly those categories |
| Assembly.Eligible | src/recommender.py:326-328 | the alternates not skipped: not already recommended and available in the city |
| Assembly.ContributorsOrder | src/recommender.py:323-341 | the alternates that add places are eligible rows, in boosted order |
| Assembly.ContributorsFetch | src/recommender.py:331-341 | every contributor adds places, and every one but the last falls short |
| Assembly.ContributorsStop | src/recommender.py:339-341 | when some eligible row can fill the request, the last contributor fills it |
| Assembly.ContributorsAll | src/recommender.py:323-341 | when none can fill it alone, every eligible row with places contributes |
| Assembly.ContributorsAfterSpec | src/recommender.py:323-341 | meeting the rows one by one, as the loop does, yields exactly those contributors |
| Assembly.Contributors | src/recommender.py:323-341 | the alternates whose places the backfill appends; their properties are stated by `Assembly.ContributorsOrder`, `Assembly.ContributorsFetch`, `Assembly.ContributorsStop` and `Assembly.ContributorsAll` |
| Assembly.Extend | src/recommender.py:333-337 | the fetch is appended, the alternate is named, and the item needs nothing more exactly when the fetch was full |
| Assembly.BackfillStep | src/recommender.py:333-337 | appending one contributor's fetch keeps the backfill relation |
| Assembly.BackfillSkip | src/recommender.py:326-333 | a skipped row, or one whose fetch is empty, changes nothing |
| Assembly.BackfillTake | src/recommender.py:331-341 | a row with places becomes a contributor; the loop stops exactly when the item is full |
| Assembly.BackfillEnd | src/recommender.py:323-341 | once every row was met, the contributors are all of them |
| Assembly.BackfillInCity | src/recommender.py:331-335 | a backfill adds only places of the target city |
| Assembly.BackfillCanOvershoot | src/recommender.py:319-336 | asked for 3, an alternate with 2 places and the next with 3 both contribute: 5 places are added |
| Recommender.TourismRecommender.BackfillItem | src/recommender.py:318-341 | the item gets exactly the specified contributors' fetches appended, and the last of them as alternate |
| Recommender.TourismRecommender.BackfillAll | src/recommender.py:316-341 | every item is assembled from its first fetch and its backfill; an item that shares its bucket holds that bucket followed by what was appended |
| Assembly.BackfillAssembles | src/recommender.py:259-341 | an item backfilled when it fell short is assembled |
| Assembly.AssembledInCity | src/recommender.py:259-341 | every place of an assembled item is a place of the target city |
| Assembly.AssembledRecs | src/recommender.py:259-341 | the items follow the selected categories, recommend no category twice, and name only places of the city |
| Assembly.AssembledReady | src/recommender.py:259-341 | assembled items are ready to be written back: distinct categories, and each shared bucket followed by places of the city |
| Recommender.TourismRecommender.AssembleItems | src/recommender.py:216-341 | the items are assembled from the selected rows, with the specified first fetches and backfills |
| Assembly.StoreStep | src/recommender.py:335 | writing back one more item keeps the index in step with the items written so far |
| Assembly.StoreKeepsValid | src/recommender.py:335 | writing back a shared item keeps the index valid |
| Assembly.SharedBucketGrows | src/recommender.py:335 | after a call, a bucket an item shared is that bucket plus everything the backfill appended to the item |
| Recommender.TourismRecommender.StoreSharedBuckets | src/recommender.py:343-346 | the recommendations are the items without `needs_places`; each shared bucket is now its item's list; every other bucket is unchanged; the index stays valid |
| Recommender.TourismRecommender.GetRecommendations | src/recommender.py:201-348 | every item is assembled from its selected row; no category repeats; every place is in the target city; the stored index changes only as described |
| App.Split | app.py:283 | at least one piece, and no piece contains the separator |
| App.JoinSplit | app.py:283 | joining the pieces of a split gives the string back |
| App.SplitJoin | app.py:283 | splitting a join of separator-free pieces gives the pieces back |
| App.SplitFree | app.py:283 | a string without the separator is a single piece |
| App.SplitBlank | app.py:283-285 | every piece is blank exactly when the string is only separators and whitespace |
| App.LStrip | app.py:285 | a suffix of the input that does not start with whitespace |
| App.LStripSpec | app.py:285 | what left-stripping cuts off is whitespace only |
| App.RStrip | app.py:285 | a prefix of the input that does not end with whitespace |
| App.RStripSpec | app.py:285 | what right-stripping cuts off is whitespace only |
| App.Strip | app.py:285 | no longer than the input, with neither leading nor trailing whitespace |
| App.StripSpec | app.py:285 | the stripped string is a middle slice of the input with only whitespace before and after it: nothing but whitespace is cut |
| App.LStripBlank | app.py:285 | left-stripping leaves nothing exactly when the string is all whitespace |
| App.RStripBlank | app.py:285 | right-stripping leaves nothing exactly when the string is all whitespace |
| App.StripBlank | app.py:285 | stripping leaves nothing exactly when the string is all whitespace |
| App.StripStripped | app.py:285 | an already stripped string is left as it is |
| App.CleanUrls | app.py:285 | every URL kept is non-empty and stripped, and there are no more URLs than pieces |
| App.CleanUrlsEmpty | app.py:285 | nothing is kept exactly when every piece is blank |
| App.CleanUrlsClean | app.py:285 | clean pieces pass through unchanged and in order |
| App.CleanUrlsConcat | app.py:285 | the URLs of two runs of pieces are those of the first followed by those of the second |
| App.CleanUrlsOne | app.py:285 | one piece gives nothing when blank, and its stripped form otherwise |
| App.CleanUrlsAt | app.py:285 | piece k gives, at its own position between the URLs of the pieces before and after it, nothing when blank and its stripped form otherwise |
| App.ImagesOf | app.py:283-285 | the URLs of a non-empty value are all non-empty and stripped |
| App.GetPlaceImages | app.py:279-288 | a non-empty value gives the URLs of its '|'-separated pieces: with `App.CleanUrlsAt`, each piece in order contributes its stripped form, or nothing when blank |
| App.MissingImages | app.py:281-288 | a missing or empty value gives exactly the single placeholder |
| App.ImagesOfJoin | app.py:283-285 | clean URLs joined with the separator split back into themselves |
| App.ImagesRoundTrip | app.py:279-286 | clean URLs joined with the separator and read back give the same list |
| App.ImagesEmptyIff | app.py:281-286 | a value of only separators and whitespace gives no URL (not the placeholder); any other value gives at least one |
| App.CardImage | app.py:301-304 | the card always shows an image: the list placeholder for a missing value, the card placeholder for a value of only separators |
| App.CategoryIcon | app.py:333-343 | the table icon for the six categories, the default icon otherwise |
| App.CategoryColor | app.py:345-355 | the table color for the six categories, the default color otherwise |
| App.CategoryDescription | app.py:357-367 | the table text for the six categories, the default text otherwise |
| App.DefaultsOnlyForUnknown | app.py:333-367 | each lookup gives its default exactly for categories outside the six |
| App.ColorsTellCategoriesApart | app.py:345-355 | no two categories share a color, unless both are unknown |
| App.IconsTellCategoriesApart | app.py:333-343 | no two categories share an icon, unless both are unknown |
| App.DescriptionsTellCategoriesApart | app.py:357-367 | no two categories share a description, unless both are unknown |
| App.CardTitle | app.py:513-515 | the title starts with the category |
| App.CardTitleSpec | app.py:513-515 | with a non-empty alternate the title is exactly category + " + " + alternate; otherwise it is the category alone |
| App.DisplayedScore | app.py:508-524 | a missing score shows zeros; a dictionary shows its "similarity" and "boost" entries, each 0 when absent, and final = similarity + boost; a bare number is shown as the final score |
| App.DisplayedScoreIsTotal | app.py:517-520 | for a recommendation, the card's recomputed final score is the stored Final_Score |
| App.KnownProfileCheck | src/recommender.py:86-92 | true exactly when the encoder accepts the profile: no gender given, or a gender and an age group both present in the rules |
| App.HandleSubmit | app.py:453-487 | the recommender is called only when the form is complete and the profile known, and is otherwise left untouched; the profile stored uses `get_age_group`; an unknown profile is rejected; the recommendations are those `get_recommendations` assembles for (gender, `get_age_group(age)`, city, trip type, 3, 3), with the stored index updated as it specifies; at most three, of distinct categories, all in the chosen city |

## Left out

- Reading `tourism_processed.csv`, `rules_data.csv` and `encoder.pkl`, and writing them in the preprocessing script: the two tables are constructor parameters, and the encoder is represented by its vocabulary, which comes from the rule table it was fitted on.
- The joins of ratings, places and users in src/preprocess.py that come before line 73: the aggregation starts from the joined rows.
- The clock-seeded generator of `get_places_for_category_in_city`: the draw is any n distinct positions of the bucket, chosen nondeterministically.
- Floating point: scores are integer hundredths. Float rounding could only reorder exact score ties, and the scoring sorts do not order ties anyway.
- Scoring.UnspecifiedGenderSpec: does not fix which row wins a tie on Total_Users, or the order of tied rows, because pandas' default sort is not stable and the source promises neither. The same holds for Scoring.ConcreteGenderRanked and ties on similarity, and for Scoring.ApplyContextBoostSorted and ties on Final_Score. The functions fix one admissible order (first maximal row, insertion sort).
- Recommender.TourismRecommender.GetRecommendations: `categories_with_places` (lines 257 and 304-306) is built but never read, so it is not modelled.
- Recommender.TourismRecommender.StoreSharedBuckets: the growth of a shared bucket is applied when `needs_places` is deleted, not at each `extend` of line 335. Within one call the grown bucket is never read again: it is not re-fetched, because its category is already recommended, and `available_city_categories` only tests it for emptiness. So the final index is the same.
- Recommender.TourismRecommender.BackfillItem: leaves the loop by returning where the source uses `break`; the state afterwards is the same.
- App.HandleSubmit: does not model the image enrichment of lines 472-481, the session state, the spinner or the messages. The age widget's bounds are not modelled; any integer age is accepted. The encoder's exception for an unknown gender or age group is the `ProfileRejected` outcome.
- The HTML and CSS of the cards, the carousel, and the rest of the Streamlit layout in app.py: presentation only.
- The scrapers and image-cleaning scripts (scraper_wisata.py, scraper_images.py, clean_tourism_images_step1.py, clean_tourism_images2.py): they produce data files and are not part of this model.
- Unicode: strings are sequences of code points; `str.isspace` is modelled by the code-point list of Python's whitespace characters.

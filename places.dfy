/** The place table (`tourism_processed.csv`) and the lookup structures the
    recommender builds from it in `prepare_data` (src/recommender.py). The
    structures are specified here as functions of the table; the class in
    recommender.dfy fills its fields with loops and is proved to produce
    exactly these values. */
module Places {
  import opened SeqUtil

  /** One row of the place table, restricted to the columns the
      recommender reads. */
  datatype Place = Place(
    placeId: int,
    placeName: string,
    city: string,
    category: string,
    description: string)

  /** `places[['Place_Id', 'Place_Name', 'City', 'Description']].to_dict('records')`,
      one element. */
  datatype PlaceRecord = PlaceRecord(
    placeId: int,
    placeName: string,
    city: string,
    description: string)

  /** The shape of `city_category_places`: city -> category -> records. */
  type CityIndex = map<string, map<string, seq<PlaceRecord>>>

  function RecordOf(p: Place): PlaceRecord {
    PlaceRecord(p.placeId, p.placeName, p.city, p.description)
  }

  function Records(ps: seq<Place>): (rs: seq<PlaceRecord>)
    ensures |rs| == |ps|
    ensures forall i :: 0 <= i < |ps| ==> rs[i] == RecordOf(ps[i])
  {
    seq(|ps|, i requires 0 <= i < |ps| => RecordOf(ps[i]))
  }

  lemma RecordsConcat(a: seq<Place>, b: seq<Place>)
    ensures Records(a + b) == Records(a) + Records(b)
  {
    assert |Records(a + b)| == |Records(a) + Records(b)|;
    forall i | 0 <= i < |a + b| ensures Records(a + b)[i] == (Records(a) + Records(b))[i] {
      if i >= |a| {
        assert (a + b)[i] == b[i - |a|];
      }
    }
  }

  /** `tourism_df['City'] == city` */
  function InCity(city: string): Place -> bool {
    (p: Place) => p.city == city
  }

  /** `tourism_df['Category'] == category` */
  function OfCategory(category: string): Place -> bool {
    (p: Place) => p.category == category
  }

  function Cities(tourism: seq<Place>): set<string> {
    set p | p in tourism :: p.city
  }

  function CategoriesOf(tourism: seq<Place>): set<string> {
    set p | p in tourism :: p.category
  }

  /** The categories that have a place in `city`. */
  function CategoriesIn(tourism: seq<Place>, city: string): set<string> {
    set p | p in tourism && p.city == city :: p.category
  }

  /** `tourism_df[col].unique()`: the distinct values of a column, each once. */
  function CityList(tourism: seq<Place>): (cities: seq<string>)
    ensures forall c :: c in cities <==> c in Cities(tourism)
  {
    var col := seq(|tourism|, i requires 0 <= i < |tourism| => tourism[i].city);
    assert forall c :: c in col <==> c in Cities(tourism) by {
      forall c | c in Cities(tourism) ensures c in col {
        var p :| p in tourism && p.city == c;
        var i :| 0 <= i < |tourism| && tourism[i] == p;
        assert col[i] == c;
      }
    }
    Unique(col)
  }

  function CategoryList(tourism: seq<Place>): (cats: seq<string>)
    ensures forall c :: c in cats <==> c in CategoriesOf(tourism)
  {
    var col := seq(|tourism|, i requires 0 <= i < |tourism| => tourism[i].category);
    assert forall c :: c in col <==> c in CategoriesOf(tourism) by {
      forall c | c in CategoriesOf(tourism) ensures c in col {
        var p :| p in tourism && p.category == c;
        var i :| 0 <= i < |tourism| && tourism[i] == p;
        assert col[i] == c;
      }
    }
    Unique(col)
  }

  /** The places of one city, in table order (`city_places`). */
  function CityPlaces(tourism: seq<Place>, city: string): (ps: seq<Place>)
    ensures forall p :: p in ps <==> p in tourism && p.city == city
  {
    Filter(tourism, InCity(city))
  }

  /** Lines 56-58: `city_places[city_places['Category'] == category]`, as
      records, in table order. */
  function Bucket(tourism: seq<Place>, city: string, category: string): seq<PlaceRecord> {
    Records(Filter(CityPlaces(tourism, city), OfCategory(category)))
  }

  /** The records of every place in `city`. */
  function CityRecords(tourism: seq<Place>, city: string): seq<PlaceRecord> {
    Records(CityPlaces(tourism, city))
  }

  /** `category_to_places`: category -> records of its places. */
  function CategoryIndex(tourism: seq<Place>): map<string, seq<PlaceRecord>> {
    map c | c in CategoriesOf(tourism) :: Records(Filter(tourism, OfCategory(c)))
  }

  /** `category_counts` for one city: category -> number of places. */
  function CountsIn(tourism: seq<Place>, city: string): map<string, nat> {
    map c | c in CategoriesIn(tourism, city) :: |Bucket(tourism, city, c)|
  }

  /** `city_category_places[city]`: category -> records of its places. */
  function BucketsIn(tourism: seq<Place>, city: string): map<string, seq<PlaceRecord>> {
    map c | c in CategoriesIn(tourism, city) :: Bucket(tourism, city, c)
  }

  /** A map keyed by the categories holding each category's records is
      `CategoryIndex`. */
  lemma CategoryIndexFrom(tourism: seq<Place>, byCategory: map<string, seq<PlaceRecord>>)
    requires forall c :: c in byCategory <==> c in CategoriesOf(tourism)
    requires forall c :: c in byCategory ==> byCategory[c] == Records(Filter(tourism, OfCategory(c)))
    ensures byCategory == CategoryIndex(tourism)
  {
  }

  /** A map keyed by the cities holding each city's counts is
      `CityCategoryCounts`. */
  lemma CityCategoryCountsFrom(tourism: seq<Place>, counts: map<string, map<string, nat>>)
    requires forall c :: c in counts <==> c in Cities(tourism)
    requires forall c :: c in counts ==> counts[c] == CountsIn(tourism, c)
    ensures counts == CityCategoryCounts(tourism)
  {
  }

  /** A map keyed by the cities holding each city's buckets is
      `CityCategoryIndex`. */
  lemma CityCategoryIndexFrom(tourism: seq<Place>, byCity: CityIndex)
    requires forall c :: c in byCity <==> c in Cities(tourism)
    requires forall c :: c in byCity ==> byCity[c] == BucketsIn(tourism, c)
    ensures byCity == CityCategoryIndex(tourism)
  {
  }

  /** A map keyed by the city's categories holding each bucket's size is
      `CountsIn`. */
  lemma CountsInFrom(tourism: seq<Place>, city: string, counts: map<string, nat>)
    requires forall c :: c in counts <==> c in CategoriesIn(tourism, city)
    requires forall c :: c in counts ==> counts[c] == |Bucket(tourism, city, c)|
    ensures counts == CountsIn(tourism, city)
  {
  }

  /** A map keyed by the city's categories holding each bucket is
      `BucketsIn`. */
  lemma BucketsInFrom(tourism: seq<Place>, city: string, buckets: map<string, seq<PlaceRecord>>)
    requires forall c :: c in buckets <==> c in CategoriesIn(tourism, city)
    requires forall c :: c in buckets ==> buckets[c] == Bucket(tourism, city, c)
    ensures buckets == BucketsIn(tourism, city)
  {
  }

  /** `city_to_categories`: city -> category -> number of places. */
  function CityCategoryCounts(tourism: seq<Place>): map<string, map<string, nat>> {
    map city | city in Cities(tourism) :: CountsIn(tourism, city)
  }

  /** `city_category_places`: city -> category -> records of its places. */
  function CityCategoryIndex(tourism: seq<Place>): CityIndex {
    map city | city in Cities(tourism) :: BucketsIn(tourism, city)
  }

  /** `city_places['Category'].unique()` lists the categories of the city. */
  lemma CityCategoriesListed(tourism: seq<Place>, city: string)
    ensures CategoriesOf(CityPlaces(tourism, city)) == CategoriesIn(tourism, city)
  {
    var ps := CityPlaces(tourism, city);
    forall c | c in CategoriesIn(tourism, city) ensures c in CategoriesOf(ps) {
      var p :| p in tourism && p.city == city && p.category == c;
      assert p in ps;
    }
  }

  // ---------------------------------------------------------------------
  // What the index holds

  /** A bucket holds the record of every place with that city and
      category, and nothing else. */
  lemma BucketMembers(tourism: seq<Place>, city: string, category: string)
    ensures forall p :: p in tourism && p.city == city && p.category == category ==>
      RecordOf(p) in Bucket(tourism, city, category)
    ensures forall r :: r in Bucket(tourism, city, category) ==>
      exists p :: p in tourism && p.city == city && p.category == category && RecordOf(p) == r
  {
    var ps := Filter(CityPlaces(tourism, city), OfCategory(category));
    forall p | p in tourism && p.city == city && p.category == category
      ensures RecordOf(p) in Bucket(tourism, city, category)
    {
      assert OfCategory(category)(p);
      var i :| 0 <= i < |ps| && ps[i] == p;
      assert Bucket(tourism, city, category)[i] == RecordOf(p);
    }
    forall r | r in Bucket(tourism, city, category)
      ensures exists p :: p in tourism && p.city == city && p.category == category && RecordOf(p) == r
    {
      var i :| 0 <= i < |ps| && Bucket(tourism, city, category)[i] == r;
      assert ps[i] in ps;
      assert OfCategory(category)(ps[i]);
    }
  }

  /** Buckets keep table order: the bucket of a concatenation is the
      concatenation of the buckets. */
  lemma BucketConcat(a: seq<Place>, b: seq<Place>, city: string, category: string)
    ensures Bucket(a + b, city, category) == Bucket(a, city, category) + Bucket(b, city, category)
  {
    FilterConcat(a, b, InCity(city));
    FilterConcat(CityPlaces(a, city), CityPlaces(b, city), OfCategory(category));
    RecordsConcat(Filter(CityPlaces(a, city), OfCategory(category)),
                  Filter(CityPlaces(b, city), OfCategory(category)));
  }

  /** Every bucket of a city lies within that city's records. */
  lemma BucketInCity(tourism: seq<Place>, city: string, category: string)
    ensures forall r :: r in Bucket(tourism, city, category) ==> r in CityRecords(tourism, city)
  {
    BucketMembers(tourism, city, category);
    forall r | r in Bucket(tourism, city, category) ensures r in CityRecords(tourism, city) {
      var p :| p in tourism && p.city == city && p.category == category && RecordOf(p) == r;
      var ps := CityPlaces(tourism, city);
      var i :| 0 <= i < |ps| && ps[i] == p;
      assert CityRecords(tourism, city)[i] == r;
    }
  }

  /** A category listed for a city has at least one place there. */
  lemma BucketNonEmpty(tourism: seq<Place>, city: string, category: string)
    requires category in CategoriesIn(tourism, city)
    ensures |Bucket(tourism, city, category)| > 0
  {
    var p :| p in tourism && p.city == city && p.category == category;
    BucketMembers(tourism, city, category);
    assert RecordOf(p) in Bucket(tourism, city, category);
  }

  /** Lines 51-58 as a whole: a city is a key exactly when it has a place,
      a category is a key under it exactly when it has a place in that
      city, each bucket is that category's places in the city, in table
      order, and no bucket is empty. */
  lemma CityCategoryIndexSpec(tourism: seq<Place>, city: string, category: string)
    ensures var index := CityCategoryIndex(tourism);
      && (city in index <==> exists p :: p in tourism && p.city == city)
      && (city in index && category in index[city] <==>
            exists p :: p in tourism && p.city == city && p.category == category)
      && (city in index && category in index[city] ==>
            index[city][category] == Bucket(tourism, city, category)
            && |index[city][category]| > 0)
  {
    var index := CityCategoryIndex(tourism);
    if exists p :: p in tourism && p.city == city && p.category == category {
      var p :| p in tourism && p.city == city && p.category == category;
      assert city in Cities(tourism) && category in CategoriesIn(tourism, city);
      BucketNonEmpty(tourism, city, category);
    }
    if exists p :: p in tourism && p.city == city {
      var p :| p in tourism && p.city == city;
      assert city in Cities(tourism);
    }
  }

  /** `city_to_categories[city][category]` is the size of the matching
      bucket of `city_category_places`. */
  lemma CountsMatchIndex(tourism: seq<Place>, city: string, category: string)
    ensures var counts := CityCategoryCounts(tourism);
            var index := CityCategoryIndex(tourism);
      && (city in counts <==> city in index)
      && (city in counts ==> (category in counts[city] <==> category in index[city]))
      && (city in counts && category in counts[city] ==>
            counts[city][category] == |index[city][category]| > 0)
  {
    if city in Cities(tourism) && category in CategoriesIn(tourism, city) {
      BucketNonEmpty(tourism, city, category);
    }
  }

  /** `category_to_places[category]` holds the records of exactly the
      places of that category, in table order, for exactly the categories
      of the table. */
  lemma CategoryIndexSpec(tourism: seq<Place>, category: string)
    ensures var index := CategoryIndex(tourism);
      && (category in index <==> exists p :: p in tourism && p.category == category)
      && (category in index ==>
            |index[category]| > 0
            && index[category] == Records(Filter(tourism, OfCategory(category)))
            && (forall p :: p in tourism && p.category == category ==> RecordOf(p) in index[category])
            && (forall r :: r in index[category] ==>
                  exists p :: p in tourism && p.category == category && RecordOf(p) == r))
  {
    var index := CategoryIndex(tourism);
    if exists p :: p in tourism && p.category == category {
      var p :| p in tourism && p.category == category;
      assert category in CategoriesOf(tourism);
    }
    if category in index {
      assert index[category] == Records(Filter(tourism, OfCategory(category)));
      RecordsOfCategory(tourism, category);
      var p :| p in tourism && p.category == category;
      assert RecordOf(p) in index[category];
    }
  }

  /** The records of the places of one category are those of exactly
      the places of that category. */
  lemma RecordsOfCategory(tourism: seq<Place>, category: string)
    ensures var rs := Records(Filter(tourism, OfCategory(category)));
      && (forall p :: p in tourism && p.category == category ==> RecordOf(p) in rs)
      && (forall r :: r in rs ==> exists p :: p in tourism && p.category == category && RecordOf(p) == r)
  {
    var ps := Filter(tourism, OfCategory(category));
    var rs := Records(ps);
    forall p | p in tourism && p.category == category ensures RecordOf(p) in rs {
      assert OfCategory(category)(p);
      var i :| 0 <= i < |ps| && ps[i] == p;
      assert rs[i] == RecordOf(p);
    }
    forall r | r in rs
      ensures exists p :: p in tourism && p.category == category && RecordOf(p) == r
    {
      var i :| 0 <= i < |rs| && rs[i] == r;
      assert ps[i] in ps;
    }
  }

  // ---------------------------------------------------------------------
  // The stored index, as the backfill leaves it

  /** What holds of `city_category_places` at every point of the
      recommender's life: the keys are the cities and their categories,
      each bucket starts with that category's places in the city (the
      backfill may have appended to it, see recommender.dfy), and every
      record in a bucket is a place of that city. */
  ghost predicate IndexValid(tourism: seq<Place>, index: CityIndex) {
    && index.Keys == Cities(tourism)
    && (forall city :: city in index ==> index[city].Keys == CategoriesIn(tourism, city))
    && (forall city, c :: city in index && c in index[city] ==>
          BucketValid(tourism, city, c, index[city][c]))
  }

  /** One stored bucket: the category's places in the city, possibly
      followed by other records of the same city. */
  ghost predicate BucketValid(tourism: seq<Place>, city: string, c: string, bucket: seq<PlaceRecord>) {
    && Bucket(tourism, city, c) <= bucket
    && |bucket| > 0
    && forall r :: r in bucket ==> r in CityRecords(tourism, city)
  }

  /** The freshly built index is valid. */
  lemma CityCategoryIndexValid(tourism: seq<Place>)
    ensures IndexValid(tourism, CityCategoryIndex(tourism))
  {
    var index := CityCategoryIndex(tourism);
    assert index.Keys == Cities(tourism);
    forall city | city in index ensures index[city].Keys == CategoriesIn(tourism, city) {
      assert index[city] == BucketsIn(tourism, city);
    }
    forall city, c | city in index && c in index[city]
      ensures BucketValid(tourism, city, c, index[city][c])
    {
      assert index[city] == BucketsIn(tourism, city);
      assert index[city][c] == Bucket(tourism, city, c);
      BucketNonEmpty(tourism, city, c);
      BucketInCity(tourism, city, c);
    }
  }

  /** Appending records of the same city to a valid bucket keeps it
      valid. */
  lemma BucketGrows(tourism: seq<Place>, city: string, c: string,
                    bucket: seq<PlaceRecord>, extra: seq<PlaceRecord>)
    requires BucketValid(tourism, city, c, bucket)
    requires forall r :: r in extra ==> r in CityRecords(tourism, city)
    ensures BucketValid(tourism, city, c, bucket + extra)
  {
    assert bucket <= bucket + extra;
    forall r | r in bucket + extra ensures r in CityRecords(tourism, city) {
      if r !in bucket {
        assert r in extra;
      }
    }
  }

  /** Appending records of the same city to one bucket keeps the index
      valid. */
  lemma AppendKeepsValid(tourism: seq<Place>, index: CityIndex,
                         city: string, c: string, extra: seq<PlaceRecord>)
    requires IndexValid(tourism, index)
    requires city in index && c in index[city]
    requires forall r :: r in extra ==> r in CityRecords(tourism, city)
    ensures IndexValid(tourism, index[city := index[city][c := index[city][c] + extra]])
  {
    var bucket := index[city][c] + extra;
    var updated := index[city := index[city][c := bucket]];
    BucketGrows(tourism, city, c, index[city][c], extra);
    UpdateShape(index, city, c, bucket);
    forall city', c' | city' in updated && c' in updated[city']
      ensures BucketValid(tourism, city', c', updated[city'][c'])
    {
      if city' != city || c' != c {
        assert updated[city'][c'] == index[city'][c'];
      }
    }
  }

  /** Replacing one bucket keeps every key and every other bucket. */
  lemma UpdateShape(index: CityIndex, city: string, c: string, bucket: seq<PlaceRecord>)
    requires city in index && c in index[city]
    ensures var updated := index[city := index[city][c := bucket]];
      && updated.Keys == index.Keys
      && (forall city' :: city' in updated ==> updated[city'].Keys == index[city'].Keys)
      && (forall city', c' :: city' in updated && c' in updated[city'] ==>
            updated[city'][c'] == if city' == city && c' == c then bucket else index[city'][c'])
  {
  }
}

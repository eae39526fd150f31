/** Category scoring of the recommender (src/recommender.py,
    `get_category_recommendations` and `apply_context_boost`). Scores are
    integer hundredths: a similarity of 0.5 is 50, a weight of 0.25 is 25
    and the trip-type bonus of 0.1 is 10. */
module Scoring {
  import opened SeqUtil
  import opened RulesTable

  /** The gender value that selects the age-group-only branch. */
  const Unspecified := "Tidak ingin menyebutkan"

  // ---------------------------------------------------------------------
  // One-hot encoding and cosine similarity

  /** The encoder's vocabulary for a column: the values seen in the rule
      table it was fitted on. */
  function GenderVocab(rules: seq<Rule>): (vocab: seq<string>)
    ensures forall g :: g in vocab <==> exists r :: r in rules && r.gender == g
    ensures forall i, j :: 0 <= i < j < |vocab| ==> vocab[i] != vocab[j]
  {
    var col := seq(|rules|, i requires 0 <= i < |rules| => rules[i].gender);
    assert forall r :: r in rules ==> r.gender in col by {
      forall r | r in rules ensures r.gender in col {
        var i :| 0 <= i < |rules| && rules[i] == r;
        assert col[i] == r.gender;
      }
    }
    Unique(col)
  }

  function AgeVocab(rules: seq<Rule>): (vocab: seq<string>)
    ensures forall a :: a in vocab <==> exists r :: r in rules && r.ageGroup == a
    ensures forall i, j :: 0 <= i < j < |vocab| ==> vocab[i] != vocab[j]
  {
    var col := seq(|rules|, i requires 0 <= i < |rules| => rules[i].ageGroup);
    assert forall r :: r in rules ==> r.ageGroup in col by {
      forall r | r in rules ensures r.ageGroup in col {
        var i :| 0 <= i < |rules| && rules[i] == r;
        assert col[i] == r.ageGroup;
      }
    }
    Unique(col)
  }

  function OneHot(value: string, vocab: seq<string>): (v: seq<int>)
    ensures |v| == |vocab|
  {
    seq(|vocab|, i requires 0 <= i < |vocab| => if vocab[i] == value then 1 else 0)
  }

  /** The encoder's row for a (Gender, Age_Group) pair. */
  function Encode(gender: string, ageGroup: string, rules: seq<Rule>): seq<int> {
    OneHot(gender, GenderVocab(rules)) + OneHot(ageGroup, AgeVocab(rules))
  }

  function Dot(u: seq<int>, v: seq<int>): int
    requires |u| == |v|
    decreases |u|
  {
    if u == [] then 0 else u[0] * v[0] + Dot(u[1..], v[1..])
  }

  lemma {:induction false} DotConcat(a: seq<int>, b: seq<int>, c: seq<int>, d: seq<int>)
    requires |a| == |c| && |b| == |d|
    ensures Dot(a + b, c + d) == Dot(a, c) + Dot(b, d)
    decreases |a|
  {
    if a == [] {
      assert a + b == b && c + d == d;
    } else {
      assert (a + b)[1..] == a[1..] + b && (c + d)[1..] == c[1..] + d;
      DotConcat(a[1..], b, c[1..], d);
    }
  }

  /** Two one-hot vectors over a vocabulary without repeats meet in exactly
      one position when they encode the same known value, else nowhere. */
  lemma {:induction false} OneHotDot(x: string, y: string, vocab: seq<string>)
    requires forall i, j :: 0 <= i < j < |vocab| ==> vocab[i] != vocab[j]
    ensures Dot(OneHot(x, vocab), OneHot(y, vocab)) == if x == y && x in vocab then 1 else 0
    decreases |vocab|
  {
    if vocab != [] {
      var tail := vocab[1..];
      assert OneHot(x, vocab)[1..] == OneHot(x, tail);
      assert OneHot(y, vocab)[1..] == OneHot(y, tail);
      OneHotDot(x, y, tail);
      assert vocab == [vocab[0]] + tail;
      if x == vocab[0] {
        assert x !in tail by {
          forall k | 0 <= k < |tail| ensures tail[k] != x {
            assert vocab[0] != vocab[k + 1];
          }
        }
      }
    }
  }

  /** Number of the two features (gender, age group) a rule shares with the user. */
  function MatchCount(rule: Rule, gender: string, ageGroup: string): (m: nat)
    ensures m <= 2
  {
    (if rule.gender == gender then 1 else 0) + (if rule.ageGroup == ageGroup then 1 else 0)
  }

  /** Cosine similarity of the two encodings, in hundredths. */
  function Similarity(rule: Rule, gender: string, ageGroup: string): (s: nat)
    ensures s == 0 || s == 50 || s == 100
    ensures s == 100 <==> rule.gender == gender && rule.ageGroup == ageGroup
    ensures s == 0 <==> rule.gender != gender && rule.ageGroup != ageGroup
  {
    50 * MatchCount(rule, gender, ageGroup)
  }

  /** Each encoding has exactly two ones (squared norm 2), so the cosine of
      a rule's and the user's encodings is their dot product over 2, which
      is the number of shared features over 2: `Similarity` in hundredths. */
  lemma CosineIsHalfMatchCount(rules: seq<Rule>, rule: Rule, gender: string, ageGroup: string)
    requires rule in rules
    requires exists r :: r in rules && r.gender == gender
    requires exists r :: r in rules && r.ageGroup == ageGroup
    ensures var u := Encode(rule.gender, rule.ageGroup, rules);
            var v := Encode(gender, ageGroup, rules);
            && Dot(u, u) == 2 && Dot(v, v) == 2
            && Dot(u, v) == MatchCount(rule, gender, ageGroup)
            && 2 * Similarity(rule, gender, ageGroup) == 100 * Dot(u, v)
  {
    var gs, ags := GenderVocab(rules), AgeVocab(rules);
    assert rule.gender in gs && rule.ageGroup in ags && gender in gs && ageGroup in ags;
    DotConcat(OneHot(rule.gender, gs), OneHot(rule.ageGroup, ags), OneHot(rule.gender, gs), OneHot(rule.ageGroup, ags));
    DotConcat(OneHot(gender, gs), OneHot(ageGroup, ags), OneHot(gender, gs), OneHot(ageGroup, ags));
    DotConcat(OneHot(rule.gender, gs), OneHot(rule.ageGroup, ags), OneHot(gender, gs), OneHot(ageGroup, ags));
    OneHotDot(rule.gender, rule.gender, gs);
    OneHotDot(rule.ageGroup, rule.ageGroup, ags);
    OneHotDot(gender, gender, gs);
    OneHotDot(ageGroup, ageGroup, ags);
    OneHotDot(rule.gender, gender, gs);
    OneHotDot(rule.ageGroup, ageGroup, ags);
  }

  // ---------------------------------------------------------------------
  // Best rule per category

  datatype ScoredRule = ScoredRule(rule: Rule, similarity: nat)

  function CategoryOfRule(r: Rule): string { r.category }
  function CategoryOfScored(s: ScoredRule): string { s.rule.category }
  function TotalUsersOf(r: Rule): int { r.totalUsers }

  /** A row of `rows` with the largest key: what `.first()` of a group sorted
      by that key (descending) yields. */
  function MaxBy(rows: seq<Rule>, key: Rule -> int): (best: Rule)
    requires |rows| > 0
    ensures best in rows
    ensures forall r :: r in rows ==> key(r) <= key(best)
    decreases |rows|
  {
    if |rows| == 1 then rows[0]
    else
      var rest := MaxBy(rows[1..], key);
      assert rows == [rows[0]] + rows[1..];
      if key(rows[0]) >= key(rest) then rows[0] else rest
  }

  /** The categories that occur in a table. */
  function Categories(rows: seq<Rule>): set<string> {
    set r | r in rows :: r.category
  }

  function RowsOfCategory(rows: seq<Rule>, cat: string): (group: seq<Rule>)
    ensures forall r :: r in group <==> r in rows && r.category == cat
  {
    Filter(rows, (r: Rule) => r.category == cat)
  }

  /** `.first()` of one category group after sorting by `key`, descending:
      a row of that category with the largest key. */
  function BestInCategory(rows: seq<Rule>, cat: string, key: Rule -> int): (best: Rule)
    requires cat in Categories(rows)
    ensures best in rows && best.category == cat
    ensures forall r :: r in rows && r.category == cat ==> key(r) <= key(best)
  {
    assert RowsOfCategory(rows, cat) != [] by {
      var r :| r in rows && r.category == cat;
      assert r in RowsOfCategory(rows, cat);
    }
    MaxBy(RowsOfCategory(rows, cat), key)
  }

  /** The categories of a table in first-occurrence order, each once. */
  function CategoryList(rows: seq<Rule>): (cats: seq<string>)
    ensures forall c :: c in cats <==> c in Categories(rows)
  {
    var col := seq(|rows|, i requires 0 <= i < |rows| => rows[i].category);
    assert forall c :: c in col <==> c in Categories(rows) by {
      forall c | c in Categories(rows) ensures c in col {
        var r :| r in rows && r.category == c;
        var i :| 0 <= i < |rows| && rows[i] == r;
        assert col[i] == c;
      }
    }
    Unique(col)
  }

  /** `sort_values(key, ascending=False).groupby('Category').first()`. */
  function BestPerCategory(rows: seq<Rule>, key: Rule -> int): seq<Rule> {
    var cats := CategoryList(rows);
    seq(|cats|, k requires 0 <= k < |cats| =>
      assert cats[k] in cats;
      BestInCategory(rows, cats[k], key))
  }

  /** `best` holds one row per category of `rows`, each a row of
      `rows` with the largest key in its category. */
  ghost predicate BestRows(best: seq<Rule>, rows: seq<Rule>, key: Rule -> int) {
    && KeysDistinct(best, CategoryOfRule)
    && (forall b :: b in best ==> b in rows)
    && (forall b, r :: b in best && r in rows && r.category == b.category ==> key(r) <= key(b))
    && Categories(best) == Categories(rows)
  }

  lemma BestPerCategorySpec(rows: seq<Rule>, key: Rule -> int)
    ensures BestRows(BestPerCategory(rows, key), rows, key)
  {
    var cats := CategoryList(rows);
    var best := BestPerCategory(rows, key);
    assert |best| == |cats|;
    forall k | 0 <= k < |cats|
      ensures best[k].category == cats[k] && best[k] in rows
      ensures forall r :: r in rows && r.category == cats[k] ==> key(r) <= key(best[k])
    {
      assert cats[k] in cats;
      assert best[k] == BestInCategory(rows, cats[k], key);
    }
    forall i, j | 0 <= i < j < |best| ensures CategoryOfRule(best[i]) != CategoryOfRule(best[j]) {
      assert best[i].category == cats[i] && best[j].category == cats[j];
    }
    forall c | c in Categories(rows) ensures c in Categories(best) {
      var i :| 0 <= i < |cats| && cats[i] == c;
      assert best[i].category == c;
    }
  }

  /** Reordering a table of per-category winners keeps it one. */
  lemma BestRowsPermutation(best: seq<Rule>, other: seq<Rule>, rows: seq<Rule>, key: Rule -> int)
    requires multiset(other) == multiset(best)
    requires BestRows(best, rows, key)
    ensures BestRows(other, rows, key)
  {
    PermutationKeepsKeysDistinct(best, other, CategoryOfRule);
    forall b ensures b in other <==> b in best {
      assert b in other <==> b in multiset(other);
      assert b in best <==> b in multiset(best);
    }
    assert Categories(other) == Categories(best);
  }

  /** `best_rules`: the per-category winners sorted by `key`, descending. */
  function RankedBest(rows: seq<Rule>, key: Rule -> int): seq<Rule> {
    DescendingIsPreorder(key);
    SortBy(BestPerCategory(rows, key), Descending(key))
  }

  lemma RankedBestSpec(rows: seq<Rule>, key: Rule -> int)
    ensures BestRows(RankedBest(rows, key), rows, key)
    ensures var ranked := RankedBest(rows, key);
      forall i, j :: 0 <= i < j < |ranked| ==> key(ranked[i]) >= key(ranked[j])
  {
    BestPerCategorySpec(rows, key);
    DescendingIsPreorder(key);
    BestRowsPermutation(BestPerCategory(rows, key), RankedBest(rows, key), rows, key);
    SortedDescending(RankedBest(rows, key), key);
  }

  function RulesOfAgeGroup(rules: seq<Rule>, ageGroup: string): (rows: seq<Rule>)
    ensures forall r :: r in rows <==> r in rules && r.ageGroup == ageGroup
  {
    Filter(rules, (r: Rule) => r.ageGroup == ageGroup)
  }

  function Score(ranked: seq<Rule>, sim: Rule -> nat): (out: seq<ScoredRule>)
    ensures |out| == |ranked|
    ensures forall i :: 0 <= i < |out| ==> out[i] == ScoredRule(ranked[i], sim(ranked[i]))
  {
    seq(|ranked|, i requires 0 <= i < |ranked| => ScoredRule(ranked[i], sim(ranked[i])))
  }

  /** The categories that occur in a scored table. */
  function ScoredCategories(out: seq<ScoredRule>): set<string> {
    set s | s in out :: s.rule.category
  }

  /** Scoring a table of per-category winners keeps one row per category,
      the same rows, and the same categories. */
  lemma ScoreSpec(ranked: seq<Rule>, sim: Rule -> nat)
    requires KeysDistinct(ranked, CategoryOfRule)
    ensures var out := Score(ranked, sim);
      && KeysDistinct(out, CategoryOfScored)
      && (forall s :: s in out ==> s.rule in ranked && s.similarity == sim(s.rule))
      && ScoredCategories(out) == Categories(ranked)
  {
    var out := Score(ranked, sim);
    forall i, j | 0 <= i < j < |out| ensures CategoryOfScored(out[i]) != CategoryOfScored(out[j]) {
      assert CategoryOfRule(ranked[i]) != CategoryOfRule(ranked[j]);
    }
    forall c | c in Categories(ranked) ensures c in ScoredCategories(out) {
      var r :| r in ranked && r.category == c;
      var i :| 0 <= i < |ranked| && ranked[i] == r;
      assert out[i] in out;
    }
  }

  /** The key the concrete-gender branch ranks by. */
  function SimilarityTo(gender: string, ageGroup: string): Rule -> nat {
    r => Similarity(r, gender, ageGroup)
  }

  /** The same key, as the ranking takes it. */
  function SimilarityRank(gender: string, ageGroup: string): Rule -> int {
    r => Similarity(r, gender, ageGroup)
  }

  /** Lines 60-109, read as the evident two-branch `if`/`else` of lines
      65-82. The encoder rejects a gender or age group it was not fitted
      on, hence the requires for the second branch. */
  function GetCategoryRecommendations(rules: seq<Rule>, gender: string, ageGroup: string): seq<ScoredRule>
    requires gender == Unspecified
      || ((exists r :: r in rules && r.gender == gender) && (exists r :: r in rules && r.ageGroup == ageGroup))
  {
    if gender == Unspecified then
      Score(RankedBest(RulesOfAgeGroup(rules, ageGroup), TotalUsersOf), _ => 100)
    else
      Score(RankedBest(rules, SimilarityRank(gender, ageGroup)), SimilarityTo(gender, ageGroup))
  }

  /** For the unspecified gender: only rules of the user's age group, one
      per category of that age group with the largest Total_Users,
      similarity 1.0, sorted by Total_Users descending. */
  lemma UnspecifiedGenderSpec(rules: seq<Rule>, ageGroup: string)
    ensures var out := GetCategoryRecommendations(rules, Unspecified, ageGroup);
      && KeysDistinct(out, CategoryOfScored)
      && (forall s :: s in out ==> s.rule in rules && s.rule.ageGroup == ageGroup && s.similarity == 100)
      && (forall s, r :: s in out && r in rules && r.ageGroup == ageGroup && r.category == s.rule.category
            ==> r.totalUsers <= s.rule.totalUsers)
      && ScoredCategories(out) == Categories(RulesOfAgeGroup(rules, ageGroup))
      && (forall i, j :: 0 <= i < j < |out| ==> out[i].rule.totalUsers >= out[j].rule.totalUsers)
  {
    var rows := RulesOfAgeGroup(rules, ageGroup);
    var ranked := RankedBest(rows, TotalUsersOf);
    RankedBestSpec(rows, TotalUsersOf);
    ScoreSpec(ranked, _ => 100);
    var out := GetCategoryRecommendations(rules, Unspecified, ageGroup);
    forall s, r | s in out && r in rules && r.ageGroup == ageGroup && r.category == s.rule.category
      ensures r.totalUsers <= s.rule.totalUsers
    {
      assert r in rows;
      assert TotalUsersOf(r) <= TotalUsersOf(s.rule);
    }
    forall i, j | 0 <= i < j < |out| ensures out[i].rule.totalUsers >= out[j].rule.totalUsers {
      assert TotalUsersOf(ranked[i]) >= TotalUsersOf(ranked[j]);
    }
  }

  /** For a concrete gender: one rule per category of the table, scored
      with its similarity to the user. */
  lemma ConcreteGenderRows(rules: seq<Rule>, gender: string, ageGroup: string)
    requires gender != Unspecified
    requires exists r :: r in rules && r.gender == gender
    requires exists r :: r in rules && r.ageGroup == ageGroup
    ensures var out := GetCategoryRecommendations(rules, gender, ageGroup);
      && KeysDistinct(out, CategoryOfScored)
      && (forall s :: s in out ==> s.rule in rules && s.similarity == Similarity(s.rule, gender, ageGroup))
      && ScoredCategories(out) == Categories(rules)
  {
    var rank, sim := SimilarityRank(gender, ageGroup), SimilarityTo(gender, ageGroup);
    RankedBestSpec(rules, rank);
    ScoreSpec(RankedBest(rules, rank), sim);
  }

  /** Scoring the per-category winners by the key they were ranked by:
      each row has the largest key in its category, and the rows are in
      descending order of it. */
  lemma BestScoredRanked(rules: seq<Rule>, rank: Rule -> int, sim: Rule -> nat)
    requires forall r :: rank(r) == sim(r)
    ensures var out := Score(RankedBest(rules, rank), sim);
      && (forall s, r :: s in out && r in rules && r.category == s.rule.category ==> sim(r) <= s.similarity)
      && (forall i, j :: 0 <= i < j < |out| ==> out[i].similarity >= out[j].similarity)
  {
    var ranked := RankedBest(rules, rank);
    RankedBestSpec(rules, rank);
    var out := Score(ranked, sim);
    forall s, r | s in out && r in rules && r.category == s.rule.category
      ensures sim(r) <= s.similarity
    {
      var i :| 0 <= i < |out| && out[i] == s;
      assert ranked[i] in ranked;
      assert rank(r) <= rank(ranked[i]);
    }
    forall i, j | 0 <= i < j < |out| ensures out[i].similarity >= out[j].similarity {
      assert rank(ranked[i]) >= rank(ranked[j]);
    }
  }

  /** For a concrete gender: each category's rule has the largest
      similarity in its category, and the table is sorted by similarity,
      descending. */
  lemma ConcreteGenderRanked(rules: seq<Rule>, gender: string, ageGroup: string)
    requires gender != Unspecified
    requires exists r :: r in rules && r.gender == gender
    requires exists r :: r in rules && r.ageGroup == ageGroup
    ensures var out := GetCategoryRecommendations(rules, gender, ageGroup);
      && (forall s, r :: s in out && r in rules && r.category == s.rule.category
            ==> Similarity(r, gender, ageGroup) <= s.similarity)
      && (forall i, j :: 0 <= i < j < |out| ==> out[i].similarity >= out[j].similarity)
  {
    var rank, sim := SimilarityRank(gender, ageGroup), SimilarityTo(gender, ageGroup);
    var out := GetCategoryRecommendations(rules, gender, ageGroup);
    assert out == Score(RankedBest(rules, rank), sim);
    BestScoredRanked(rules, rank, sim);
    forall s, r | s in out && r in rules && r.category == s.rule.category
      ensures Similarity(r, gender, ageGroup) <= s.similarity
    {
      assert sim(r) <= s.similarity;
    }
  }

  // ---------------------------------------------------------------------
  // Trip-type context boost

  datatype BoostedRule = BoostedRule(rule: Rule, similarity: nat, boost: nat, finalScore: nat)

  function CategoryOfBoosted(b: BoostedRule): string { b.rule.category }
  function FinalScoreOf(b: BoostedRule): int { b.finalScore }

  /** `trip_type_weights`, in hundredths. */
  const TripTypeWeights: map<string, map<string, nat>> := map[
    "Solo Trip" := map[
      "Cagar Alam" := 30, "Bahari" := 25, "Budaya" := 20,
      "Taman Hiburan" := 15, "Tempat Ibadah" := 10, "Pusat Perbelanjaan" := 5],
    "Family Trip" := map[
      "Taman Hiburan" := 30, "Pusat Perbelanjaan" := 25, "Bahari" := 20,
      "Cagar Alam" := 15, "Budaya" := 10, "Tempat Ibadah" := 5],
    "Couple Trip" := map[
      "Bahari" := 30, "Budaya" := 25, "Taman Hiburan" := 20,
      "Pusat Perbelanjaan" := 15, "Cagar Alam" := 10, "Tempat Ibadah" := 5],
    "Friends Trip" := map[
      "Taman Hiburan" := 30, "Bahari" := 25, "Pusat Perbelanjaan" := 20,
      "Cagar Alam" := 15, "Budaya" := 10, "Tempat Ibadah" := 5]]

  /** The bonus for a rule whose recorded trip type is the user's. */
  const TripTypeBonus: nat := 10

  /** `trip_type_weights.get(trip, {}).get(category, 0)` */
  function TripWeight(trip: string, category: string): nat {
    if trip in TripTypeWeights && category in TripTypeWeights[trip] then TripTypeWeights[trip][category] else 0
  }

  /** Every weight is one of 0.05, 0.10, ..., 0.30, and a weight is
      non-zero exactly for the four trip types and six categories of the
      table. */
  lemma TripWeightRange(trip: string, category: string)
    ensures TripWeight(trip, category) <= 30 && TripWeight(trip, category) % 5 == 0
    ensures TripWeight(trip, category) > 0 <==>
      trip in {"Solo Trip", "Family Trip", "Couple Trip", "Friends Trip"}
      && category in {"Bahari", "Budaya", "Cagar Alam", "Pusat Perbelanjaan", "Taman Hiburan", "Tempat Ibadah"}
  {
  }

  /** `get_trip_type_boost(row)` */
  function ContextBoost(rule: Rule, trip: string): (boost: nat)
    ensures boost >= TripWeight(trip, rule.category)
    ensures boost - TripWeight(trip, rule.category) == (if rule.tripType == trip then TripTypeBonus else 0)
  {
    TripWeight(trip, rule.category) + (if rule.tripType == trip then TripTypeBonus else 0)
  }

  function WithBoost(s: ScoredRule, trip: string): BoostedRule {
    var boost := ContextBoost(s.rule, trip);
    BoostedRule(s.rule, s.similarity, boost, s.similarity + boost)
  }

  function BoostAll(rows: seq<ScoredRule>, trip: string): (out: seq<BoostedRule>)
    ensures |out| == |rows|
    ensures forall i :: 0 <= i < |out| ==> out[i] == WithBoost(rows[i], trip)
  {
    seq(|rows|, i requires 0 <= i < |rows| => WithBoost(rows[i], trip))
  }

  /** Lines 111-176: add the boost column and the final score, sort by the
      final score, descending. */
  function ApplyContextBoost(rows: seq<ScoredRule>, trip: string): seq<BoostedRule> {
    DescendingIsPreorder(FinalScoreOf);
    SortBy(BoostAll(rows, trip), Descending(FinalScoreOf))
  }

  /** Each boosted row comes from one scored row, with Boost = weight +
      bonus and Final_Score = Similarity + Boost. */
  lemma ApplyContextBoostRows(rows: seq<ScoredRule>, trip: string)
    ensures var out := ApplyContextBoost(rows, trip);
      && |out| == |rows|
      && multiset(out) == multiset(BoostAll(rows, trip))
      && (forall i :: 0 <= i < |out| ==>
            && out[i].boost == ContextBoost(out[i].rule, trip)
            && out[i].finalScore == out[i].similarity + out[i].boost
            && exists j :: 0 <= j < |rows| && rows[j] == ScoredRule(out[i].rule, out[i].similarity))
  {
    var all := BoostAll(rows, trip);
    var out := ApplyContextBoost(rows, trip);
    assert multiset(out) == multiset(all);
    forall i | 0 <= i < |out|
      ensures out[i].boost == ContextBoost(out[i].rule, trip)
      ensures out[i].finalScore == out[i].similarity + out[i].boost
      ensures exists j :: 0 <= j < |rows| && rows[j] == ScoredRule(out[i].rule, out[i].similarity)
    {
      assert out[i] in multiset(all);
      var j :| 0 <= j < |all| && all[j] == out[i];
      assert rows[j] == ScoredRule(out[i].rule, out[i].similarity);
    }
  }

  /** The boosted table is sorted by Final_Score, descending. */
  lemma ApplyContextBoostSorted(rows: seq<ScoredRule>, trip: string)
    ensures var out := ApplyContextBoost(rows, trip);
      forall i, j :: 0 <= i < j < |out| ==> out[i].finalScore >= out[j].finalScore
  {
    DescendingIsPreorder(FinalScoreOf);
    SortedDescending(ApplyContextBoost(rows, trip), FinalScoreOf);
  }

  /** Boosting keeps one row per category. */
  lemma ApplyContextBoostDistinct(rows: seq<ScoredRule>, trip: string)
    requires KeysDistinct(rows, CategoryOfScored)
    ensures KeysDistinct(ApplyContextBoost(rows, trip), CategoryOfBoosted)
  {
    var all := BoostAll(rows, trip);
    var out := ApplyContextBoost(rows, trip);
    assert multiset(out) == multiset(all);
    forall i, j | 0 <= i < j < |all| ensures CategoryOfBoosted(all[i]) != CategoryOfBoosted(all[j]) {
      assert CategoryOfScored(rows[i]) != CategoryOfScored(rows[j]);
    }
    PermutationKeepsKeysDistinct(all, out, CategoryOfBoosted);
  }
}

/** The offline rule aggregation of src/preprocess.py: from the joined
    rating rows (rating, trip type, place category, user gender, age group
    and location) to the rule table, one rule per (Category, Gender,
    Age_Group) triple among the high-rated rows. */
module Preprocess {
  import opened SeqUtil
  import opened RulesTable
  import Utils

  /** The copy of the age bucketing kept in the preprocessing script. */
  function GetAgeGroup(age: int): string {
    if 18 <= age <= 22 then "Teen/College"
    else if 23 <= age <= 27 then "Young Adult"
    else if 28 <= age <= 32 then "Adult"
    else "Mature Adult"
  }

  /** The two copies of the bucketing agree on every age. */
  lemma AgeGroupsAgree(age: int)
    ensures GetAgeGroup(age) == Utils.GetAgeGroup(age)
  {
  }

  /** One row of `full_data`: a rating joined with its place's category and
      its user's profile. */
  datatype RatingRow = RatingRow(
    userId: int,
    placeId: int,
    placeRatings: int,
    tripType: string,
    category: string,
    gender: string,
    ageGroup: string,
    userLocation: string)

  function SegmentOfRow(row: RatingRow): Segment {
    Segment(row.category, row.gender, row.ageGroup)
  }

  predicate IsHighRated(row: RatingRow) {
    row.placeRatings >= 4
  }

  /** `full_data[full_data['Place_Ratings'] >= 4]` */
  function HighRated(rows: seq<RatingRow>): seq<RatingRow> {
    Filter(rows, IsHighRated)
  }

  function OfSegment(seg: Segment): RatingRow -> bool {
    row => SegmentOfRow(row) == seg
  }

  /** The rows of one groupby group. */
  function InSegment(rows: seq<RatingRow>, seg: Segment): (group: seq<RatingRow>)
    ensures forall row :: row in group <==> row in rows && SegmentOfRow(row) == seg
  {
    Filter(rows, OfSegment(seg))
  }

  function TripTypesOf(rows: seq<RatingRow>): (col: seq<string>)
    ensures |col| == |rows|
  {
    seq(|rows|, i requires 0 <= i < |rows| => rows[i].tripType)
  }

  function LocationsOf(rows: seq<RatingRow>): (col: seq<string>)
    ensures |col| == |rows|
  {
    seq(|rows|, i requires 0 <= i < |rows| => rows[i].userLocation)
  }

  /** `m` is what `vals.mode()[0]` returns: a most frequent value, and the
      smallest one when several are equally frequent. */
  ghost predicate IsMode(m: string, vals: seq<string>) {
    && m in vals
    && (forall v :: v in vals ==> multiset(vals)[v] <= multiset(vals)[m])
    && (forall v :: v in vals && multiset(vals)[v] == multiset(vals)[m] ==> StrLe(m, v))
  }

  /** The most frequent value of `vals` among `cands`, smallest on ties. */
  function ModeAmong(cands: seq<string>, vals: seq<string>): (m: string)
    requires |cands| > 0
    ensures m in cands
    ensures forall v :: v in cands ==> multiset(vals)[v] <= multiset(vals)[m]
    ensures forall v :: v in cands && multiset(vals)[v] == multiset(vals)[m] ==> StrLe(m, v)
  {
    if |cands| == 1 then cands[0]
    else
      var rest := ModeAmong(cands[1..], vals);
      var c := cands[0];
      assert cands == [c] + cands[1..];
      if multiset(vals)[c] > multiset(vals)[rest]
         || (multiset(vals)[c] == multiset(vals)[rest] && StrLt(c, rest)) then
        assert forall v :: v in cands[1..] && multiset(vals)[v] == multiset(vals)[c] ==> StrLe(c, v) by {
          forall v | v in cands[1..] && multiset(vals)[v] == multiset(vals)[c]
            ensures StrLe(c, v)
          {
            if v != rest {
              StrLtTransitive(c, rest, v);
            }
          }
        }
        c
      else
        assert multiset(vals)[c] == multiset(vals)[rest] ==> StrLe(rest, c) by {
          StrLtTrichotomy(c, rest);
        }
        rest
  }

  /** `vals.mode()[0]` */
  function Mode(vals: seq<string>): (m: string)
    requires |vals| > 0
    ensures IsMode(m, vals)
  {
    ModeAmong(vals, vals)
  }

  /** The rule the `agg` call builds for one group. */
  function RuleFor(high: seq<RatingRow>, seg: Segment): (r: Rule)
    requires InSegment(high, seg) != []
  {
    var group := InSegment(high, seg);
    Rule(seg.category, seg.gender, seg.ageGroup,
         Mode(LocationsOf(group)), Mode(TripTypesOf(group)), |group|)
  }

  /** The order the rule table ends up in. The groupby yields its groups
      with the (Category, Gender, Age_Group) keys ascending, and the
      two-column `sort_values(by=['Category', 'Total_Users'],
      ascending=[True, False])` is a stable lexsort, so rules equal on
      Category and Total_Users keep the groupby's (Gender, Age_Group)
      order. Sorting once by all four keys gives the same table. */
  predicate RuleBefore(a: Rule, b: Rule) {
    || StrLt(a.category, b.category)
    || (a.category == b.category && a.totalUsers > b.totalUsers)
    || (a.category == b.category && a.totalUsers == b.totalUsers && StrLt(a.gender, b.gender))
    || (a.category == b.category && a.totalUsers == b.totalUsers && a.gender == b.gender
        && StrLe(a.ageGroup, b.ageGroup))
  }

  lemma RuleBeforeIsPreorder()
    ensures TotalPreorder(RuleBefore)
  {
    forall a: Rule, b: Rule ensures RuleBefore(a, b) || RuleBefore(b, a) {
      StrLtTrichotomy(a.category, b.category);
      StrLtTrichotomy(a.gender, b.gender);
      StrLtTrichotomy(a.ageGroup, b.ageGroup);
    }
    forall a: Rule, b: Rule, c: Rule | RuleBefore(a, b) && RuleBefore(b, c)
      ensures RuleBefore(a, c)
    {
      if StrLt(a.category, b.category) && StrLt(b.category, c.category) {
        StrLtTransitive(a.category, b.category, c.category);
      }
      if StrLt(a.gender, b.gender) && StrLt(b.gender, c.gender) {
        StrLtTransitive(a.gender, b.gender, c.gender);
      }
      if StrLt(a.ageGroup, b.ageGroup) && StrLt(b.ageGroup, c.ageGroup) {
        StrLtTransitive(a.ageGroup, b.ageGroup, c.ageGroup);
      }
    }
  }

  /** The distinct triples among the high-rated rows. */
  function Segments(high: seq<RatingRow>): (segs: seq<Segment>)
    ensures forall seg :: seg in segs <==> exists row :: row in high && SegmentOfRow(row) == seg
    ensures forall i, j :: 0 <= i < j < |segs| ==> segs[i] != segs[j]
    ensures |segs| <= |high|
  {
    var keys := seq(|high|, i requires 0 <= i < |high| => SegmentOfRow(high[i]));
    assert forall row :: row in high ==> SegmentOfRow(row) in keys by {
      forall row | row in high ensures SegmentOfRow(row) in keys {
        var i :| 0 <= i < |high| && high[i] == row;
        assert keys[i] == SegmentOfRow(row);
      }
    }
    Unique(keys)
  }

  /** One rule per distinct triple, in the order the triples first appear
      (the sort that follows fixes the final order whatever this one is). */
  function GroupRules(high: seq<RatingRow>): (unsorted: seq<Rule>)
    ensures |unsorted| == |Segments(high)|
    ensures forall k :: 0 <= k < |unsorted| ==>
      InSegment(high, Segments(high)[k]) != [] && unsorted[k] == RuleFor(high, Segments(high)[k])
  {
    var segs := Segments(high);
    assert forall k :: 0 <= k < |segs| ==> InSegment(high, segs[k]) != [] by {
      forall k | 0 <= k < |segs| ensures InSegment(high, segs[k]) != [] {
        assert segs[k] in segs;
        var row :| row in high && SegmentOfRow(row) == segs[k];
        assert row in InSegment(high, segs[k]);
      }
    }
    seq(|segs|, i requires 0 <= i < |segs| => RuleFor(high, segs[i]))
  }

  /** The sorted rule table built from the high-rated rows. */
  function RulesOf(high: seq<RatingRow>): seq<Rule> {
    RuleBeforeIsPreorder();
    SortBy(GroupRules(high), RuleBefore)
  }

  /** Lines 73-85: filter ratings >= 4, group by (Category, Gender,
      Age_Group), aggregate, sort. */
  function AggregateRules(rows: seq<RatingRow>): seq<Rule> {
    RulesOf(HighRated(rows))
  }

  /** What one rule says about its group of high-rated rows: the group is
      not empty, Total_Users counts its rows (not distinct users), and the
      trip type and location are modes of the group. */
  ghost predicate IsAggregateOf(rule: Rule, high: seq<RatingRow>) {
    var group := InSegment(high, SegmentOfRule(rule));
    && group != []
    && rule.totalUsers == |group|
    && IsMode(rule.tripType, TripTypesOf(group))
    && IsMode(rule.userLocation, LocationsOf(group))
  }

  /** The rule built for a group aggregates that group. */
  lemma RuleForAggregates(high: seq<RatingRow>, seg: Segment)
    requires InSegment(high, seg) != []
    ensures SegmentOfRule(RuleFor(high, seg)) == seg
    ensures IsAggregateOf(RuleFor(high, seg), high)
  {
  }

  /** Sorting keeps the rule table a permutation of the per-group rules:
      every sorted rule is the aggregate of its group and no triple repeats. */
  lemma RulesOfAggregate(high: seq<RatingRow>)
    ensures KeysDistinct(RulesOf(high), SegmentOfRule)
    ensures forall i :: 0 <= i < |RulesOf(high)| ==> IsAggregateOf(RulesOf(high)[i], high)
  {
    var unsorted := GroupRules(high);
    var rules := RulesOf(high);
    assert multiset(rules) == multiset(unsorted);
    var segs := Segments(high);
    forall k | 0 <= k < |unsorted|
      ensures SegmentOfRule(unsorted[k]) == segs[k] && IsAggregateOf(unsorted[k], high)
    {
      RuleForAggregates(high, segs[k]);
    }
    PermutationKeepsKeysDistinct(unsorted, rules, SegmentOfRule);
    forall i | 0 <= i < |rules| ensures IsAggregateOf(rules[i], high) {
      assert rules[i] in multiset(unsorted);
    }
  }

  /** Every triple present among the high-rated rows has a rule. */
  lemma RulesOfCover(high: seq<RatingRow>, row: RatingRow)
    requires row in high
    ensures exists i :: 0 <= i < |RulesOf(high)| && SegmentOfRule(RulesOf(high)[i]) == SegmentOfRow(row)
  {
    var segs := Segments(high);
    var unsorted := GroupRules(high);
    var rules := RulesOf(high);
    assert multiset(rules) == multiset(unsorted);
    assert SegmentOfRow(row) in segs;
    var k :| 0 <= k < |segs| && segs[k] == SegmentOfRow(row);
    RuleForAggregates(high, segs[k]);
    assert unsorted[k] in multiset(rules);
    var i :| 0 <= i < |rules| && rules[i] == unsorted[k];
    assert SegmentOfRule(rules[i]) == SegmentOfRow(row);
  }

  /** Rule a comes before rule b in the table: by Category ascending, then
      Total_Users descending, and rules tied on both by Gender, then
      Age_Group, ascending. */
  predicate TableOrder(a: Rule, b: Rule) {
    && StrLe(a.category, b.category)
    && (a.category == b.category ==> a.totalUsers >= b.totalUsers)
    && (a.category == b.category && a.totalUsers == b.totalUsers ==>
          StrLt(a.gender, b.gender) || (a.gender == b.gender && StrLt(a.ageGroup, b.ageGroup)))
  }

  /** Two rules of different triples, in the sort order, are in table
      order. */
  lemma RuleBeforeIsTableOrder(a: Rule, b: Rule)
    requires RuleBefore(a, b) && SegmentOfRule(a) != SegmentOfRule(b)
    ensures TableOrder(a, b)
  {
    StrLtIrreflexive(a.category);
    StrLtIrreflexive(a.gender);
    if StrLt(a.category, b.category) {
      StrLtAsymmetric(a.category, b.category);
    }
  }

  /** The rule table is sorted by Category ascending, then Total_Users
      descending, with ties in (Gender, Age_Group) order. */
  lemma RulesOfSorted(high: seq<RatingRow>)
    ensures var rules := RulesOf(high);
      forall i, j :: 0 <= i < j < |rules| ==> TableOrder(rules[i], rules[j])
  {
    var rules := RulesOf(high);
    assert SortedBy(rules, RuleBefore);
    RulesOfAggregate(high);
    forall i, j | 0 <= i < j < |rules| ensures TableOrder(rules[i], rules[j]) {
      assert RuleBefore(rules[i], rules[j]);
      assert SegmentOfRule(rules[i]) != SegmentOfRule(rules[j]);
      RuleBeforeIsTableOrder(rules[i], rules[j]);
    }
  }

  /** The rule table holds exactly one rule per triple present among the
      high-rated rows and none for any other triple; each rule aggregates
      its group (so Total_Users >= 1); the table is sorted by Category
      ascending, then Total_Users descending, and rules tied on both are
      in (Gender, Age_Group) order. */
  lemma AggregateRulesSpec(rows: seq<RatingRow>)
    ensures var rules := AggregateRules(rows);
      && KeysDistinct(rules, SegmentOfRule)
      && (forall i :: 0 <= i < |rules| ==> IsAggregateOf(rules[i], HighRated(rows)))
      && (forall i :: 0 <= i < |rules| ==> rules[i].totalUsers >= 1)
      && (forall row :: row in rows && IsHighRated(row) ==>
            exists i :: 0 <= i < |rules| && SegmentOfRule(rules[i]) == SegmentOfRow(row))
      && (forall i, j :: 0 <= i < j < |rules| ==> TableOrder(rules[i], rules[j]))
  {
    var high := HighRated(rows);
    RulesOfAggregate(high);
    RulesOfSorted(high);
    forall row | row in rows && IsHighRated(row)
      ensures exists i :: 0 <= i < |RulesOf(high)| && SegmentOfRule(RulesOf(high)[i]) == SegmentOfRow(row)
    {
      RulesOfCover(high, row);
    }
  }

  lemma HighRatedPair(p: RatingRow, l: RatingRow)
    requires IsHighRated(p) && IsHighRated(l)
    ensures HighRated([p, l]) == [p, l]
  {
    FilterPair(p, l, IsHighRated);
    assert [p] + [l] == [p, l];
  }

  lemma InSegmentPair(p: RatingRow, l: RatingRow)
    requires SegmentOfRow(p) != SegmentOfRow(l)
    ensures InSegment([p, l], SegmentOfRow(p)) == [p]
    ensures InSegment([p, l], SegmentOfRow(l)) == [l]
  {
    FilterPair(p, l, OfSegment(SegmentOfRow(p)));
    FilterPair(p, l, OfSegment(SegmentOfRow(l)));
    assert [p] + [] == [p] && [] + [l] == [l];
  }

  /** Two high-rated rows of different triples give one rule each, each
      counting one row. */
  lemma PairRules(p: RatingRow, l: RatingRow)
    requires IsHighRated(p) && IsHighRated(l) && SegmentOfRow(p) != SegmentOfRow(l)
    ensures var rules := AggregateRules([p, l]);
      && |rules| == 2
      && (forall i :: 0 <= i < 2 ==>
            && rules[i].totalUsers == 1
            && (SegmentOfRule(rules[i]) == SegmentOfRow(p) || SegmentOfRule(rules[i]) == SegmentOfRow(l)))
      && SegmentOfRule(rules[0]) != SegmentOfRule(rules[1])
  {
    var sp, sl := SegmentOfRow(p), SegmentOfRow(l);
    HighRatedPair(p, l);
    var high := [p, l];
    var segs := Segments(high);
    assert forall seg :: seg in segs <==> seg == sp || seg == sl;
    assert sp in segs && sl in segs;
    assert |segs| == 2;
    InSegmentPair(p, l);
    var unsorted := GroupRules(high);
    forall k | 0 <= k < 2
      ensures unsorted[k].totalUsers == 1 && (SegmentOfRule(unsorted[k]) == sp || SegmentOfRule(unsorted[k]) == sl)
    {
      assert segs[k] in segs;
      assert unsorted[k] == RuleFor(high, segs[k]);
      if segs[k] == sp {
        assert InSegment(high, segs[k]) == [p];
      } else {
        assert InSegment(high, segs[k]) == [l];
      }
    }
    var rules := AggregateRules([p, l]);
    assert multiset(rules) == multiset(unsorted);
    forall i | 0 <= i < 2
      ensures rules[i].totalUsers == 1 && (SegmentOfRule(rules[i]) == sp || SegmentOfRule(rules[i]) == sl)
    {
      assert rules[i] in multiset(unsorted);
    }
    assert KeysDistinct(rules, SegmentOfRule) by {
      RulesOfAggregate(high);
    }
  }

  /** Two high-rated "Bahari" ratings from "Young Adult" users, a woman's
      first and then a man's, give two rules with the same Category and
      Total_Users; the table lists "Laki-laki" first, as the groupby's key
      order leaves it. */
  lemma TiesFollowGroupOrder()
    ensures var p := RatingRow(1, 10, 5, "Keluarga", "Bahari", "Perempuan", "Young Adult", "Jakarta");
      var l := RatingRow(2, 10, 5, "Keluarga", "Bahari", "Laki-laki", "Young Adult", "Jakarta");
      var rules := AggregateRules([p, l]);
      |rules| == 2 && rules[0].gender == "Laki-laki" && rules[1].gender == "Perempuan"
  {
    var p := RatingRow(1, 10, 5, "Keluarga", "Bahari", "Perempuan", "Young Adult", "Jakarta");
    var l := RatingRow(2, 10, 5, "Keluarga", "Bahari", "Laki-laki", "Young Adult", "Jakarta");
    assert SegmentOfRow(p) != SegmentOfRow(l) by {
      assert p.gender[0] != l.gender[0];
    }
    PairRules(p, l);
    var rules := AggregateRules([p, l]);
    HighRatedPair(p, l);
    RulesOfSorted([p, l]);
    assert TableOrder(rules[0], rules[1]);
    assert !StrLt("Perempuan", "Laki-laki");
  }

  /** A rating below 4 contributes to no rule: removing it anywhere leaves
      the rule table unchanged. */
  lemma LowRatingsIgnored(before: seq<RatingRow>, row: RatingRow, after: seq<RatingRow>)
    requires !IsHighRated(row)
    ensures AggregateRules(before + [row] + after) == AggregateRules(before + after)
  {
    FilterConcat(before + [row], after, IsHighRated);
    FilterConcat(before, [row], IsHighRated);
    FilterConcat(before, after, IsHighRated);
    assert Filter([row], IsHighRated) == [];
    assert HighRated(before + [row] + after) == HighRated(before + after);
  }
}

/** One row of the rule table (`rules_data.csv`): written by the offline
    aggregation, read by the recommender. */
module RulesTable {

  /** Columns Category, Gender, Age_Group, User Location, Tipe_Perjalanan,
      Total_Users. */
  datatype Rule = Rule(
    category: string,
    gender: string,
    ageGroup: string,
    userLocation: string,
    tripType: string,
    totalUsers: nat)

  /** The (Category, Gender, Age_Group) triple a rule aggregates. */
  datatype Segment = Segment(category: string, gender: string, ageGroup: string)

  function SegmentOfRule(r: Rule): Segment {
    Segment(r.category, r.gender, r.ageGroup)
  }
}

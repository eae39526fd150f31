/** Age bucketing shared by the form handler and the offline aggregation
    (src/utils.py). */
module Utils {

  const TeenCollege := "Teen/College"
  const YoungAdult := "Young Adult"
  const Adult := "Adult"
  const MatureAdult := "Mature Adult"

  /** Converts a numeric age into its age group. Every age outside the three
      closed ranges, the ones below 18 included, is "Mature Adult". */
  function GetAgeGroup(age: int): (group: string)
    ensures group == TeenCollege <==> 18 <= age <= 22
    ensures group == YoungAdult <==> 23 <= age <= 27
    ensures group == Adult <==> 28 <= age <= 32
    ensures group == MatureAdult <==> age < 18 || 32 < age
    ensures group in {TeenCollege, YoungAdult, Adult, MatureAdult}
  {
    if 18 <= age <= 22 then TeenCollege
    else if 23 <= age <= 27 then YoungAdult
    else if 28 <= age <= 32 then Adult
    else MatureAdult
  }

  /** Position of a group in the order Teen/College < Young Adult < Adult < Mature Adult. */
  function GroupRank(group: string): (rank: nat)
    ensures rank <= 3
  {
    if group == TeenCollege then 0
    else if group == YoungAdult then 1
    else if group == Adult then 2
    else 3
  }

  /** From 18 on, an older age never falls into an earlier group. */
  lemma AgeGroupMonotone(younger: int, older: int)
    requires 18 <= younger <= older
    ensures GroupRank(GetAgeGroup(younger)) <= GroupRank(GetAgeGroup(older))
  {
  }

  /** Below 18 the monotonicity breaks: a 17-year-old is "Mature Adult"
      while an 18-year-old is "Teen/College". */
  lemma UnderageIsMatureAdult(age: int)
    requires age < 18
    ensures GetAgeGroup(age) == MatureAdult
    ensures GroupRank(GetAgeGroup(age)) > GroupRank(GetAgeGroup(18))
  {
  }
}

/** The reference-data queries AdminManager answers from cached lists: state and
    province filtering by country, community filtering by country, province and
    type, and choosing the planned outage to show. */
module Metadata {
  import opened Common

  datatype StateProvince = StateProvince(code: string, name: string, countryCode: string)

  /** A community; `communityType` is the name of its type (the query compares the
      types' ToString() forms). */
  datatype Community = Community(
    code: string,
    name: string,
    countryCode: string,
    stateProvinceCode: string,
    communityType: string)

  datatype OutageInformation = OutageInformation(content: string, outageStartDate: Time, outageEndDate: Time)

  /** A state or province passes StateProvincesQuery's filter: an absent or empty
      country code does not restrict. */
  predicate StateProvinceMatches(sp: StateProvince, countryCode: Option<string>)
  {
    IsNullOrEmpty(countryCode) || sp.countryCode == countryCode.value
  }

  /** StateProvincesQuery over the cached list. */
  function StateProvincesQuery(all: seq<StateProvince>, countryCode: Option<string>): (r: seq<StateProvince>)
    ensures IsSubsequence(r, all)
    ensures forall sp :: sp in r <==> sp in all && StateProvinceMatches(sp, countryCode)
    ensures forall sp :: multiset(r)[sp] == if StateProvinceMatches(sp, countryCode) then multiset(all)[sp] else 0
    ensures IsNullOrEmpty(countryCode) ==> r == all
  {
    SubsequenceReflexive(all);
    if IsNullOrEmpty(countryCode) then all
    else
      FilterCounts(all, (sp: StateProvince) => sp.countryCode == countryCode.value);
      Filter(all, (sp: StateProvince) => sp.countryCode == countryCode.value)
  }

  /** A community passes CommunitiesQuery's filters: the conjunction of the three,
      where an absent or empty filter does not restrict. */
  predicate CommunityMatches(c: Community, countryCode: Option<string>, stateProvinceCode: Option<string>,
                             types: Option<seq<string>>)
  {
    (IsNullOrEmpty(countryCode) || c.countryCode == countryCode.value) &&
    (IsNullOrEmpty(stateProvinceCode) || c.stateProvinceCode == stateProvinceCode.value) &&
    (types.None? || types.value == [] || c.communityType in types.value)
  }

  /** CommunitiesQuery over the cached list: the three filters applied one after the
      other give the subsequence of the communities that pass all of them. */
  function CommunitiesQuery(all: seq<Community>, countryCode: Option<string>, stateProvinceCode: Option<string>,
                            types: Option<seq<string>>): (r: seq<Community>)
    ensures IsSubsequence(r, all)
    ensures forall c :: c in r <==> c in all && CommunityMatches(c, countryCode, stateProvinceCode, types)
    ensures forall c :: multiset(r)[c] == if CommunityMatches(c, countryCode, stateProvinceCode, types) then multiset(all)[c] else 0
    ensures IsNullOrEmpty(countryCode) && IsNullOrEmpty(stateProvinceCode) && (types.None? || types.value == []) ==> r == all
  {
    var byCountry := if IsNullOrEmpty(countryCode) then all
                     else (FilterCounts(all, (c: Community) => c.countryCode == countryCode.value);
                           Filter(all, (c: Community) => c.countryCode == countryCode.value));
    var byProvince := if IsNullOrEmpty(stateProvinceCode) then byCountry
                      else (FilterCounts(byCountry, (c: Community) => c.stateProvinceCode == stateProvinceCode.value);
                            Filter(byCountry, (c: Community) => c.stateProvinceCode == stateProvinceCode.value));
    var byType := if types.None? || types.value == [] then byProvince
                  else (FilterCounts(byProvince, (c: Community) => c.communityType in types.value);
                        Filter(byProvince, (c: Community) => c.communityType in types.value));
    SubsequenceReflexive(all);
    SubsequenceReflexive(byCountry);
    SubsequenceReflexive(byProvince);
    SubsequenceTransitive(byType, byProvince, byCountry);
    SubsequenceTransitive(byType, byCountry, all);
    byType
  }

  /** OutageQuery: the outage that comes first when the list is ordered by start date
      (a stable ordering, so the earliest one listed first), or none for an empty list. */
  function FirstOutage(outages: seq<OutageInformation>): (r: Option<OutageInformation>)
    ensures r.None? <==> outages == []
    ensures r.Some? ==> r.value in outages
    ensures r.Some? ==> forall o :: o in outages ==> r.value.outageStartDate <= o.outageStartDate
    ensures r.Some? ==> exists i :: 0 <= i < |outages| && outages[i] == r.value &&
                          forall j :: 0 <= j < i ==> outages[j].outageStartDate > r.value.outageStartDate
  {
    if outages == [] then None
    else
      var rest := FirstOutage(outages[1..]);
      if rest.None? || outages[0].outageStartDate <= rest.value.outageStartDate then
        HeadComesFirst(outages, rest);
        Some(outages[0])
      else
        var i :| 0 <= i < |outages[1..]| && outages[1..][i] == rest.value &&
                 forall j :: 0 <= j < i ==> outages[1..][j].outageStartDate > rest.value.outageStartDate;
        TailComesFirst(outages, rest.value, i);
        rest
  }

  /** The head is chosen when nothing after it starts earlier. */
  lemma HeadComesFirst(outages: seq<OutageInformation>, rest: Option<OutageInformation>)
    requires outages != []
    requires rest.None? <==> outages[1..] == []
    requires rest.Some? ==> forall o :: o in outages[1..] ==> rest.value.outageStartDate <= o.outageStartDate
    requires rest.None? || outages[0].outageStartDate <= rest.value.outageStartDate
    ensures forall o :: o in outages ==> outages[0].outageStartDate <= o.outageStartDate
  {
    assert forall o :: o in outages ==> o == outages[0] || o in outages[1..];
  }

  /** The tail's choice is kept when it starts strictly before the head. */
  lemma TailComesFirst(outages: seq<OutageInformation>, chosen: OutageInformation, i: nat)
    requires outages != [] && i < |outages[1..]| && outages[1..][i] == chosen
    requires forall o :: o in outages[1..] ==> chosen.outageStartDate <= o.outageStartDate
    requires forall j :: 0 <= j < i ==> outages[1..][j].outageStartDate > chosen.outageStartDate
    requires outages[0].outageStartDate > chosen.outageStartDate
    ensures chosen in outages
    ensures forall o :: o in outages ==> chosen.outageStartDate <= o.outageStartDate
    ensures outages[i + 1] == chosen && forall j :: 0 <= j < i + 1 ==> outages[j].outageStartDate > chosen.outageStartDate
  {
    assert forall o :: o in outages ==> o == outages[0] || o in outages[1..];
    assert forall j :: 1 <= j < i + 1 ==> outages[j] == outages[1..][j - 1];
  }
}

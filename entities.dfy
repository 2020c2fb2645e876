/**
 * The three tables of the astronaut roster and the point lookups the
 * handlers run against them.  `FirstOrDefault` with an equality predicate
 * returns the first matching row in table order, or null.
 */
module Entities {
  import opened Optional
  import opened Dates

  datatype Person = Person(id: int, name: string)

  /** The career summary: one row per person who has recorded a duty. */
  datatype AstronautDetail = AstronautDetail(
    personId: int,
    currentRank: string,
    currentDutyTitle: string,
    careerStartDate: DateTime,
    careerEndDate: Option<DateTime>)

  /** One duty assignment; `dutyEndDate == None` marks an open duty. */
  datatype AstronautDuty = AstronautDuty(
    id: int,
    personId: int,
    rank: string,
    dutyTitle: string,
    dutyStartDate: DateTime,
    dutyEndDate: Option<DateTime>)

  /** The contents of the store: `People`, `AstronautDetails`, `AstronautDuties`. */
  datatype Tables = Tables(
    people: seq<Person>,
    details: seq<AstronautDetail>,
    duties: seq<AstronautDuty>)

  /** No two people share a name (exact, case-sensitive comparison). */
  ghost predicate NamesUnique(people: seq<Person>)
  {
    forall i, j :: 0 <= i < j < |people| ==> people[i].name != people[j].name
  }

  ghost predicate HasName(people: seq<Person>, name: string)
  {
    exists i :: 0 <= i < |people| && people[i].name == name
  }

  /** `FirstOrDefault(p)` over rows `from ..`, as a row index: the first row satisfying `p`, or None. */
  function FirstMatchFrom<T>(rows: seq<T>, p: T -> bool, from: nat): (r: Option<nat>)
    requires from <= |rows|
    ensures r.Some? ==> from <= r.value < |rows| && p(rows[r.value])
    ensures r.Some? ==> forall j :: from <= j < r.value ==> !p(rows[j])
    ensures r.None? <==> forall j :: from <= j < |rows| ==> !p(rows[j])
    decreases |rows| - from
  {
    if from == |rows| then None
    else if p(rows[from]) then Some(from)
    else FirstMatchFrom(rows, p, from + 1)
  }

  /** `People.FirstOrDefault(z => z.Name == name)`, as a row index. */
  function FindPerson(people: seq<Person>, name: string): (r: Option<nat>)
    ensures r.Some? ==> r.value < |people| && people[r.value].name == name
    ensures r.Some? ==> forall j :: 0 <= j < r.value ==> people[j].name != name
    ensures r.None? <==> !HasName(people, name)
  {
    FirstMatchFrom(people, (z: Person) => z.name == name, 0)
  }

  /** `AstronautDetails.FirstOrDefault(z => z.PersonId == personId)`, as a row index. */
  function FindDetail(details: seq<AstronautDetail>, personId: int): (r: Option<nat>)
    ensures r.Some? ==> r.value < |details| && details[r.value].personId == personId
    ensures r.Some? ==> forall j :: 0 <= j < r.value ==> details[j].personId != personId
    ensures r.None? <==> forall j :: 0 <= j < |details| ==> details[j].personId != personId
  {
    FirstMatchFrom(details, (z: AstronautDetail) => z.personId == personId, 0)
  }

  /** The first-match contract pins the lookup down to one index. */
  lemma FindPersonIsFirstMatch(people: seq<Person>, name: string, i: nat)
    requires i < |people| && people[i].name == name
    requires forall j :: 0 <= j < i ==> people[j].name != name
    ensures FindPerson(people, name) == Some(i)
  {
  }

  lemma FindDetailIsFirstMatch(details: seq<AstronautDetail>, personId: int, i: nat)
    requires i < |details| && details[i].personId == personId
    requires forall j :: 0 <= j < i ==> details[j].personId != personId
    ensures FindDetail(details, personId) == Some(i)
  {
  }
}

/**
 * The read side: every query projects a person, left-joined with their
 * career summary, into a `PersonAstronaut`; the duty history adds that
 * person's duties, newest start date first.  Queries only read the tables.
 */
module CareerProjection {
  import opened Optional
  import opened Dates
  import opened Entities
  import DutyTimeline

  /** The `PersonAstronaut` record a query returns; the four career fields are null without a summary. */
  datatype PersonAstronaut = PersonAstronaut(
    personId: int,
    name: string,
    currentRank: Option<string>,
    currentDutyTitle: Option<string>,
    careerStartDate: Option<DateTime>,
    careerEndDate: Option<DateTime>)

  /** Row `i` is the summary the left join picks for `personId`: the first one in table order. */
  ghost predicate IsDetailOf(details: seq<AstronautDetail>, personId: int, i: int)
  {
    && 0 <= i < |details|
    && details[i].personId == personId
    && (forall j :: 0 <= j < i ==> details[j].personId != personId)
  }

  ghost predicate CopiesDetail(r: PersonAstronaut, d: AstronautDetail)
  {
    && r.currentRank == Some(d.currentRank)
    && r.currentDutyTitle == Some(d.currentDutyTitle)
    && r.careerStartDate == Some(d.careerStartDate)
    && r.careerEndDate == d.careerEndDate
  }

  ghost predicate CareerFieldsNull(r: PersonAstronaut)
  {
    r.currentRank.None? && r.currentDutyTitle.None? && r.careerStartDate.None? && r.careerEndDate.None?
  }

  /** The projection of one person. */
  function Project(p: Person, details: seq<AstronautDetail>): (r: PersonAstronaut)
    ensures r.personId == p.id && r.name == p.name
    ensures (forall j :: 0 <= j < |details| ==> details[j].personId != p.id) ==> CareerFieldsNull(r)
    ensures forall i :: IsDetailOf(details, p.id, i) ==> CopiesDetail(r, details[i])
  {
    match FindDetail(details, p.id)
    case None => PersonAstronaut(p.id, p.name, None, None, None, None)
    case Some(i) =>
      assert forall k :: IsDetailOf(details, p.id, k) ==> k == i;
      var d := details[i];
      PersonAstronaut(p.id, p.name, Some(d.currentRank), Some(d.currentDutyTitle), Some(d.careerStartDate), d.careerEndDate)
  }

  /** `GetPeopleHandler.Handle`: one projection per person, in table order. */
  function GetPeople(t: Tables): (r: seq<PersonAstronaut>)
    ensures |r| == |t.people|
    ensures forall i :: 0 <= i < |r| ==> r[i].personId == t.people[i].id && r[i].name == t.people[i].name
    ensures forall i :: 0 <= i < |r| && (forall j :: 0 <= j < |t.details| ==> t.details[j].personId != t.people[i].id) ==>
              CareerFieldsNull(r[i])
    ensures forall i, k :: 0 <= i < |r| && IsDetailOf(t.details, t.people[i].id, k) ==> CopiesDetail(r[i], t.details[k])
  {
    seq(|t.people|, i requires 0 <= i < |t.people| => Project(t.people[i], t.details))
  }

  /** `GetPersonByNameHandler.Handle`: the projection of the first person with exactly that name, or null. */
  function GetPersonByName(t: Tables, name: string): (r: Option<PersonAstronaut>)
    ensures r.None? <==> !HasName(t.people, name)
    ensures forall i :: 0 <= i < |t.people| && t.people[i].name == name && (forall j :: 0 <= j < i ==> t.people[j].name != name) ==>
              r == Some(Project(t.people[i], t.details))
  {
    match FindPerson(t.people, name)
    case None => None
    case Some(i) => Some(Project(t.people[i], t.details))
  }

  /** `AstronautDuties.Where(z => z.PersonId == personId)`, in table order. */
  function DutiesOf(duties: seq<AstronautDuty>, personId: int): (r: seq<AstronautDuty>)
    ensures forall k :: 0 <= k < |r| ==> r[k].personId == personId
    ensures forall d :: multiset(r)[d] == if d.personId == personId then multiset(duties)[d] else 0
  {
    if duties == [] then []
    else
      assert duties == [duties[0]] + duties[1..];
      (if duties[0].personId == personId then [duties[0]] else []) + DutiesOf(duties[1..], personId)
  }

  /** Newest first: start dates never increase along the list. */
  ghost predicate SortedByStartDesc(s: seq<AstronautDuty>)
  {
    forall i, j :: 0 <= i < j < |s| ==> AtOrBefore(s[j].dutyStartDate, s[i].dutyStartDate)
  }

  /** Inserts `d` ahead of the first duty that does not start after it. */
  function InsertByStartDesc(d: AstronautDuty, s: seq<AstronautDuty>): (r: seq<AstronautDuty>)
    ensures |r| == |s| + 1
    ensures r[0] == d || (s != [] && r[0] == s[0])
    ensures multiset(r) == multiset(s) + multiset{d}
  {
    if s == [] then [d]
    else if AtOrBefore(s[0].dutyStartDate, d.dutyStartDate) then [d] + s
    else
      assert s == [s[0]] + s[1..];
      [s[0]] + InsertByStartDesc(d, s[1..])
  }

  /** Insertion into a newest-first list keeps it newest first. */
  lemma {:induction false} InsertKeepsSorted(d: AstronautDuty, s: seq<AstronautDuty>)
    requires SortedByStartDesc(s)
    ensures SortedByStartDesc(InsertByStartDesc(d, s))
  {
    if s != [] && !AtOrBefore(s[0].dutyStartDate, d.dutyStartDate) {
      AtOrBeforeIsTotalOrder(d.dutyStartDate, s[0].dutyStartDate, s[0].dutyStartDate);
      InsertKeepsSorted(d, s[1..]);
    }
  }

  /** `Order By DutyStartDate Desc`. */
  function SortByStartDesc(s: seq<AstronautDuty>): (r: seq<AstronautDuty>)
    ensures SortedByStartDesc(r)
    ensures multiset(r) == multiset(s)
  {
    if s == [] then []
    else
      assert s == [s[0]] + s[1..];
      var rest := SortByStartDesc(s[1..]);
      InsertKeepsSorted(s[0], rest);
      InsertByStartDesc(s[0], rest)
  }

  /** What `GetAstronautDutiesByNameHandler.Handle` returns; `Faulted` is the null dereference of an unknown person. */
  datatype DutiesByNameResult =
    | Found(person: PersonAstronaut, duties: seq<AstronautDuty>)
    | Faulted

  /** `GetAstronautDutiesByNameHandler.Handle`. */
  function GetAstronautDutiesByName(t: Tables, name: string): (r: DutiesByNameResult)
    ensures r.Faulted? <==> !HasName(t.people, name)
    ensures r.Found? ==> GetPersonByName(t, name) == Some(r.person)
    ensures r.Found? ==> SortedByStartDesc(r.duties)
    ensures r.Found? ==> forall d :: multiset(r.duties)[d] ==
                                     if d.personId == r.person.personId then multiset(t.duties)[d] else 0
  {
    match GetPersonByName(t, name)
    case None => Faulted
    case Some(p) => Found(p, SortByStartDesc(DutiesOf(t.duties, p.personId)))
  }

  /** The head of a sorted selection of one person's duties starts when their latest duty does. */
  lemma SortedSelectionHead(duties: seq<AstronautDuty>, personId: int, s: seq<AstronautDuty>, k: int)
    requires SortedByStartDesc(s)
    requires forall d :: multiset(s)[d] == if d.personId == personId then multiset(duties)[d] else 0
    requires DutyTimeline.IsLatest(duties, personId, k)
    ensures |s| > 0 && s[0].dutyStartDate == duties[k].dutyStartDate
  {
    var d := duties[k];
    assert d in multiset(duties);
    assert multiset(s)[d] > 0;
    var p :| 0 <= p < |s| && s[p] == d;
    assert AtOrBefore(d.dutyStartDate, s[0].dutyStartDate);
    assert multiset(s)[s[0]] > 0;
    assert s[0] in multiset(duties);
    var j :| 0 <= j < |duties| && duties[j] == s[0];
  }

  /** A sorted selection of one person's duties is empty exactly when the person has none. */
  lemma SortedSelectionEmpty(duties: seq<AstronautDuty>, personId: int, s: seq<AstronautDuty>)
    requires forall d :: multiset(s)[d] == if d.personId == personId then multiset(duties)[d] else 0
    ensures s == [] <==> forall j :: 0 <= j < |duties| ==> duties[j].personId != personId
  {
    if s != [] {
      assert multiset(s)[s[0]] > 0;
      assert s[0] in multiset(duties);
      var j :| 0 <= j < |duties| && duties[j] == s[0];
    } else {
      forall j | 0 <= j < |duties|
        ensures duties[j].personId != personId
      {
        assert duties[j] in multiset(duties);
        assert multiset(s)[duties[j]] == 0;
      }
    }
  }

  /** The history's first duty starts when the person's latest duty does, the one the duty handler closes. */
  lemma DutyHistoryStartsWithLatest(t: Tables, name: string)
    requires GetAstronautDutiesByName(t, name).Found?
    ensures var r := GetAstronautDutiesByName(t, name);
            forall k :: DutyTimeline.IsLatest(t.duties, r.person.personId, k) ==>
              |r.duties| > 0 && r.duties[0].dutyStartDate == t.duties[k].dutyStartDate
    ensures var r := GetAstronautDutiesByName(t, name);
            r.duties == [] <==> DutyTimeline.LatestDuty(t.duties, r.person.personId).None?
  {
    var r := GetAstronautDutiesByName(t, name);
    forall k | DutyTimeline.IsLatest(t.duties, r.person.personId, k)
      ensures |r.duties| > 0 && r.duties[0].dutyStartDate == t.duties[k].dutyStartDate
    {
      SortedSelectionHead(t.duties, r.person.personId, r.duties, k);
    }
    SortedSelectionEmpty(t.duties, r.person.personId, r.duties);
  }
}

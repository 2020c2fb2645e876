/**
 * Recording an astronaut duty: the guard that runs before the handler (two
 * versions exist, one scoped to the person and an older one that is not) and
 * the state transition the handler applies to the three tables.
 */
module DutyTimeline {
  import opened Optional
  import opened Dates
  import opened Entities

  /** `DutyTitles.Retired`, the reserved title that ends a career. */
  const Retired: string := "Retired"

  datatype DutyRequest = DutyRequest(
    name: string,
    rank: string,
    dutyTitle: string,
    dutyStartDate: DateTime)

  /** Why a guard threw `BadHttpRequestException("Bad Request")`. */
  datatype GuardError = PersonNotFound | DuplicateDuty

  datatype GuardOutcome = Pass | Reject(error: GuardError)

  /** The duplicate test: same title and the same raw start date (time of day included),
    * so a duty stored at midnight never matches a request with a time of day. */
  predicate Clashes(d: AstronautDuty, req: DutyRequest)
    ensures IsMidnight(d.dutyStartDate) && !IsMidnight(req.dutyStartDate) ==> !Clashes(d, req)
  {
    d.dutyTitle == req.dutyTitle && d.dutyStartDate == req.dutyStartDate
  }

  ghost predicate PersonHasClash(duties: seq<AstronautDuty>, personId: int, req: DutyRequest)
  {
    exists k :: 0 <= k < |duties| && duties[k].personId == personId && Clashes(duties[k], req)
  }

  ghost predicate AnyClash(duties: seq<AstronautDuty>, req: DutyRequest)
  {
    exists k :: 0 <= k < |duties| && Clashes(duties[k], req)
  }

  /** `CreateAstronautDutyPreProcessor.Process` (current version): the clash search is limited to the person found. */
  function ScopedGuard(t: Tables, req: DutyRequest): (r: GuardOutcome)
    ensures r == Reject(PersonNotFound) <==> !HasName(t.people, req.name)
    ensures r != Reject(PersonNotFound) ==>
              (r == Reject(DuplicateDuty) <==>
                 PersonHasClash(t.duties, t.people[FindPerson(t.people, req.name).value].id, req))
  {
    match FindPerson(t.people, req.name)
    case None => Reject(PersonNotFound)
    case Some(i) =>
      var personId := t.people[i].id;
      if exists k :: 0 <= k < |t.duties| && t.duties[k].personId == personId && Clashes(t.duties[k], req)
      then Reject(DuplicateDuty)
      else Pass
  }

  /** `CreateAstronautDutyPreProcessor.Process` (legacy version): the clash search covers every person's duties. */
  function LegacyGuard(t: Tables, req: DutyRequest): (r: GuardOutcome)
    ensures r == Reject(PersonNotFound) <==> !HasName(t.people, req.name)
    ensures r != Reject(PersonNotFound) ==> (r == Reject(DuplicateDuty) <==> AnyClash(t.duties, req))
  {
    match FindPerson(t.people, req.name)
    case None => Reject(PersonNotFound)
    case Some(_) =>
      if exists k :: 0 <= k < |t.duties| && Clashes(t.duties[k], req)
      then Reject(DuplicateDuty)
      else Pass
  }

  /** Row `k` is the person's latest duty: greatest start date, first in table order among equal starts. */
  ghost predicate IsLatest(duties: seq<AstronautDuty>, personId: int, k: int)
  {
    && 0 <= k < |duties|
    && duties[k].personId == personId
    && (forall j :: 0 <= j < |duties| && duties[j].personId == personId ==>
          AtOrBefore(duties[j].dutyStartDate, duties[k].dutyStartDate))
    && (forall j :: 0 <= j < k && duties[j].personId == personId ==>
          Before(duties[j].dutyStartDate, duties[k].dutyStartDate))
  }

  /** The person's latest duty among the first `n` rows. */
  function LatestAmong(duties: seq<AstronautDuty>, personId: int, n: nat): (r: Option<nat>)
    requires n <= |duties|
    ensures r.Some? ==> r.value < n && duties[r.value].personId == personId
    ensures r.Some? ==> forall j :: 0 <= j < n && duties[j].personId == personId ==>
                          AtOrBefore(duties[j].dutyStartDate, duties[r.value].dutyStartDate)
    ensures r.Some? ==> forall j :: 0 <= j < r.value && duties[j].personId == personId ==>
                          Before(duties[j].dutyStartDate, duties[r.value].dutyStartDate)
    ensures r.None? <==> forall j :: 0 <= j < n ==> duties[j].personId != personId
    decreases n
  {
    if n == 0 then None
    else
      var prev := LatestAmong(duties, personId, n - 1);
      var d := duties[n - 1];
      if d.personId == personId && (prev.None? || Before(duties[prev.value].dutyStartDate, d.dutyStartDate))
      then Some(n - 1)
      else prev
  }

  /** `AstronautDuties.Where(PersonId).OrderByDescending(DutyStartDate).FirstOrDefault()`. */
  function LatestDuty(duties: seq<AstronautDuty>, personId: int): (r: Option<nat>)
    ensures r.Some? ==> IsLatest(duties, personId, r.value)
    ensures r.None? <==> forall j :: 0 <= j < |duties| ==> duties[j].personId != personId
  {
    LatestAmong(duties, personId, |duties|)
  }

  /** A person has at most one latest duty. */
  lemma LatestIsUnique(duties: seq<AstronautDuty>, personId: int, k: int, m: int)
    requires IsLatest(duties, personId, k) && IsLatest(duties, personId, m)
    ensures k == m
  {
  }

  /** Step 1 of the handler: create the career summary, or update the existing one. */
  function UpsertDetail(details: seq<AstronautDetail>, personId: int, req: DutyRequest): (r: seq<AstronautDetail>)
    ensures || (&& |r| == |details| + 1 && r == details + [r[|details|]]
                && r[|details|].personId == personId
                && (forall k :: 0 <= k < |details| ==> details[k].personId != personId))
            || (&& |r| == |details|
                && (forall k :: 0 <= k < |details| ==> r[k].personId == details[k].personId))
    ensures forall k :: 0 <= k < |details| && details[k].personId != personId ==> r[k] == details[k]
    ensures exists k :: && 0 <= k < |r| && r[k].personId == personId
                        && r[k].currentRank == req.rank && r[k].currentDutyTitle == req.dutyTitle
  {
    match FindDetail(details, personId)
    case None =>
      var careerEnd := if req.dutyTitle == Retired then Some(Date(req.dutyStartDate)) else None;
      details + [AstronautDetail(personId, req.rank, req.dutyTitle, Date(req.dutyStartDate), careerEnd)]
    case Some(i) =>
      var current := details[i];
      var careerEnd := if req.dutyTitle == Retired then Some(PreviousDate(req.dutyStartDate)) else current.careerEndDate;
      details[i := current.(currentRank := req.rank, currentDutyTitle := req.dutyTitle, careerEndDate := careerEnd)]
  }

  /** Step 2: close the person's latest duty at the day before the new start. */
  function CloseLatest(duties: seq<AstronautDuty>, personId: int, start: DateTime): (r: seq<AstronautDuty>)
    ensures |r| == |duties|
    ensures forall k :: 0 <= k < |duties| ==> r[k] == duties[k].(dutyEndDate := r[k].dutyEndDate)
    ensures forall k :: 0 <= k < |duties| && duties[k].personId != personId ==> r[k] == duties[k]
    ensures forall k :: 0 <= k < |duties| && r[k] != duties[k] ==> r[k].dutyEndDate == Some(PreviousDate(start))
  {
    match LatestDuty(duties, personId)
    case None => duties
    case Some(k) => duties[k := duties[k].(dutyEndDate := Some(PreviousDate(start)))]
  }

  /** Step 3: the appended duty, open and with the truncated start date. */
  function NewDuty(id: int, personId: int, req: DutyRequest): (r: AstronautDuty)
    ensures r.dutyEndDate.None? && IsMidnight(r.dutyStartDate) && r.dutyStartDate.day == req.dutyStartDate.day
    ensures Clashes(r, req) <==> IsMidnight(req.dutyStartDate)
  {
    DateIsMidnight(req.dutyStartDate);
    AstronautDuty(id, personId, req.rank, req.dutyTitle, Date(req.dutyStartDate), None)
  }

  /** The person the handler looks up again (`person.Id` is dereferenced without a check). */
  function RequestedPerson(t: Tables, req: DutyRequest): Person
    requires HasName(t.people, req.name)
  {
    t.people[FindPerson(t.people, req.name).value]
  }

  /** `CreateAstronautDutyHandler.Handle`, identical in both versions; `newId` is the id the store assigns. */
  function RecordDuty(t: Tables, req: DutyRequest, newId: int): (r: Tables)
    requires HasName(t.people, req.name)
    ensures r.people == t.people
    ensures |t.details| <= |r.details| <= |t.details| + 1
    ensures |r.duties| == |t.duties| + 1
    ensures r.duties[|t.duties|].id == newId && r.duties[|t.duties|].personId == RequestedPerson(t, req).id
    ensures r.duties[|t.duties|].dutyEndDate.None?
  {
    var personId := RequestedPerson(t, req).id;
    Tables(
      t.people,
      UpsertDetail(t.details, personId, req),
      CloseLatest(t.duties, personId, req.dutyStartDate) + [NewDuty(newId, personId, req)])
  }

  // ---------------------------------------------------------------------
  // The two guards compared

  /** Whatever the person-scoped guard rejects, the legacy guard rejects for the same reason. */
  lemma ScopedRejectionImpliesLegacyRejection(t: Tables, req: DutyRequest)
    ensures ScopedGuard(t, req).Reject? ==> LegacyGuard(t, req) == ScopedGuard(t, req)
    ensures LegacyGuard(t, req) == Pass ==> ScopedGuard(t, req) == Pass
  {
    if ScopedGuard(t, req) == Reject(DuplicateDuty) {
      var personId := RequestedPerson(t, req).id;
      var k :| 0 <= k < |t.duties| && t.duties[k].personId == personId && Clashes(t.duties[k], req);
      assert AnyClash(t.duties, req);
    }
  }

  /** The legacy guard rejects more exactly when only another person's duty clashes. */
  lemma LegacyExtraRejections(t: Tables, req: DutyRequest)
    ensures (ScopedGuard(t, req) == Pass && LegacyGuard(t, req) == Reject(DuplicateDuty)) <==>
            (HasName(t.people, req.name) &&
             !PersonHasClash(t.duties, RequestedPerson(t, req).id, req) &&
             (exists k :: 0 <= k < |t.duties| && t.duties[k].personId != RequestedPerson(t, req).id
                          && Clashes(t.duties[k], req)))
  {
    if HasName(t.people, req.name) && !PersonHasClash(t.duties, RequestedPerson(t, req).id, req) {
      var personId := RequestedPerson(t, req).id;
      if AnyClash(t.duties, req) {
        var k :| 0 <= k < |t.duties| && Clashes(t.duties[k], req);
        assert t.duties[k].personId != personId;
      }
    }
  }

  /** Two people, one duty starting 2024-07-20: the scoped guard accepts the second person, the legacy guard does not. */
  lemma OtherPersonsClashSeparatesGuards()
    ensures var t := Tables(
              [Person(1, "Test Person A"), Person(2, "Test Person B")],
              [],
              [AstronautDuty(3, 1, "Commander", "Mission Specialist", DateTime(739086, 0), None)]);
            var req := DutyRequest("Test Person B", "Commander", "Mission Specialist", DateTime(739086, 0));
            ScopedGuard(t, req) == Pass && LegacyGuard(t, req) == Reject(DuplicateDuty)
  {
    var t := Tables(
      [Person(1, "Test Person A"), Person(2, "Test Person B")],
      [],
      [AstronautDuty(3, 1, "Commander", "Mission Specialist", DateTime(739086, 0), None)]);
    var req := DutyRequest("Test Person B", "Commander", "Mission Specialist", DateTime(739086, 0));
    assert t.people[0].name != req.name;
    FindPersonIsFirstMatch(t.people, req.name, 1);
    assert Clashes(t.duties[0], req);
  }

  // ---------------------------------------------------------------------
  // The transition

  /** A person's first duty creates their career summary. */
  lemma FirstDutyCreatesDetail(t: Tables, req: DutyRequest, newId: int)
    requires HasName(t.people, req.name)
    requires forall j :: 0 <= j < |t.details| ==> t.details[j].personId != RequestedPerson(t, req).id
    ensures RecordDuty(t, req, newId).details ==
              t.details + [AstronautDetail(
                RequestedPerson(t, req).id, req.rank, req.dutyTitle, Date(req.dutyStartDate),
                if req.dutyTitle == Retired then Some(Date(req.dutyStartDate)) else None)]
  {
  }

  /** A later duty overwrites rank and title, keeps the career start, and sets the career end only on retirement. */
  lemma LaterDutyUpdatesDetail(t: Tables, req: DutyRequest, newId: int, i: nat)
    requires HasName(t.people, req.name)
    requires i < |t.details| && t.details[i].personId == RequestedPerson(t, req).id
    requires forall j :: 0 <= j < i ==> t.details[j].personId != RequestedPerson(t, req).id
    ensures var after := RecordDuty(t, req, newId).details;
            && |after| == |t.details|
            && after[i].personId == t.details[i].personId
            && after[i].currentRank == req.rank
            && after[i].currentDutyTitle == req.dutyTitle
            && after[i].careerStartDate == t.details[i].careerStartDate
            && after[i].careerEndDate ==
                 (if req.dutyTitle == Retired then Some(PreviousDate(req.dutyStartDate))
                  else t.details[i].careerEndDate)
            && (forall j :: 0 <= j < |t.details| && j != i ==> after[j] == t.details[j])
  {
    FindDetailIsFirstMatch(t.details, RequestedPerson(t, req).id, i);
  }

  /** Exactly the person's latest duty is closed, one open duty is appended, and nothing else changes. */
  lemma RecordDutyClosesLatest(t: Tables, req: DutyRequest, newId: int)
    requires HasName(t.people, req.name)
    ensures var personId := RequestedPerson(t, req).id;
            var after := RecordDuty(t, req, newId).duties;
            && |after| == |t.duties| + 1
            && after[|t.duties|] == AstronautDuty(newId, personId, req.rank, req.dutyTitle, Date(req.dutyStartDate), None)
            && (forall k :: 0 <= k < |t.duties| && IsLatest(t.duties, personId, k) ==>
                  after[k] == t.duties[k].(dutyEndDate := Some(PreviousDate(req.dutyStartDate))))
            && (forall k :: 0 <= k < |t.duties| && !IsLatest(t.duties, personId, k) ==> after[k] == t.duties[k])
  {
    var personId := RequestedPerson(t, req).id;
    match LatestDuty(t.duties, personId)
    case None =>
    case Some(m) =>
      forall k | 0 <= k < |t.duties| && IsLatest(t.duties, personId, k)
        ensures k == m
      {
        LatestIsUnique(t.duties, personId, k, m);
      }
  }

  /** Recording a duty changes neither the People table nor any other person's rows. */
  lemma RecordDutyTouchesOnlyThePerson(t: Tables, req: DutyRequest, newId: int)
    requires HasName(t.people, req.name)
    ensures var personId := RequestedPerson(t, req).id;
            var after := RecordDuty(t, req, newId);
            && after.people == t.people
            && |t.details| <= |after.details| <= |t.details| + 1
            && (forall j :: 0 <= j < |t.details| && t.details[j].personId != personId ==>
                  after.details[j] == t.details[j])
            && (forall j :: |t.details| <= j < |after.details| ==> after.details[j].personId == personId)
            && (forall k :: 0 <= k < |t.duties| && t.duties[k].personId != personId ==>
                  after.duties[k] == t.duties[k])
            && after.duties[|t.duties|].personId == personId
  {
    RecordDutyClosesLatest(t, req, newId);
  }

  /** Every open duty of the person is their latest one (so they have at most one). */
  ghost predicate OpenDutyIsLatest(duties: seq<AstronautDuty>, personId: int)
  {
    forall k :: 0 <= k < |duties| && duties[k].personId == personId && duties[k].dutyEndDate.None? ==>
      IsLatest(duties, personId, k)
  }

  /** If the person's only open duty was their latest, afterwards their one open duty is the new one. */
  lemma RecordDutyLeavesOneOpenDuty(t: Tables, req: DutyRequest, newId: int)
    requires HasName(t.people, req.name)
    requires OpenDutyIsLatest(t.duties, RequestedPerson(t, req).id)
    ensures var personId := RequestedPerson(t, req).id;
            var after := RecordDuty(t, req, newId).duties;
            forall k :: 0 <= k < |after| ==>
              (after[k].personId == personId && after[k].dutyEndDate.None? <==> k == |t.duties|)
  {
    RecordDutyClosesLatest(t, req, newId);
  }

  /** The timeline rule for every person: an open duty is always its owner's latest. */
  ghost predicate TimelineConsistent(duties: seq<AstronautDuty>)
  {
    forall personId :: OpenDutyIsLatest(duties, personId)
  }

  /** Recording duties in start-date order keeps the timeline rule, with the new duty as the latest. */
  lemma RecordDutyInOrderKeepsTimeline(t: Tables, req: DutyRequest, newId: int)
    requires HasName(t.people, req.name)
    requires TimelineConsistent(t.duties)
    requires forall k :: 0 <= k < |t.duties| && t.duties[k].personId == RequestedPerson(t, req).id ==>
               Before(t.duties[k].dutyStartDate, Date(req.dutyStartDate))
    ensures TimelineConsistent(RecordDuty(t, req, newId).duties)
    ensures IsLatest(RecordDuty(t, req, newId).duties, RequestedPerson(t, req).id, |t.duties|)
  {
    var personId := RequestedPerson(t, req).id;
    var after := RecordDuty(t, req, newId).duties;
    RecordDutyClosesLatest(t, req, newId);
    assert OpenDutyIsLatest(t.duties, personId);
    RecordDutyLeavesOneOpenDuty(t, req, newId);
    assert forall k :: 0 <= k < |t.duties| ==>
      after[k].personId == t.duties[k].personId && after[k].dutyStartDate == t.duties[k].dutyStartDate;
    assert IsLatest(after, personId, |t.duties|);
    forall q
      ensures OpenDutyIsLatest(after, q)
    {
      if q != personId {
        forall k | 0 <= k < |after| && after[k].personId == q && after[k].dutyEndDate.None?
          ensures IsLatest(after, q, k)
        {
          assert k < |t.duties|;
          assert after[k] == t.duties[k];
          assert OpenDutyIsLatest(t.duties, q);
          assert IsLatest(t.duties, q, k);
        }
      }
    }
  }

  /** Recording duties out of order breaks the one-open-duty rule: two guarded, backdated recordings leave two open duties. */
  lemma BackdatedRecordingsLeaveTwoOpenDuties()
    ensures var t0 := Tables([Person(1, "A")], [], [AstronautDuty(2, 1, "Major", "Pilot", DateTime(10, 0), None)]);
            var r1 := DutyRequest("A", "Major", "Engineer", DateTime(5, 0));
            HasName(t0.people, "A") &&
            var t1 := RecordDuty(t0, r1, 3);
            var r2 := DutyRequest("A", "Major", "Commander", DateTime(3, 0));
            var t2 := RecordDuty(t1, r2, 4);
            && ScopedGuard(t0, r1) == Pass
            && t1.duties[0].dutyEndDate == Some(DateTime(4, 0))
            && ScopedGuard(t1, r2) == Pass
            && |t2.duties| == 3
            && t2.duties[1].dutyEndDate.None? && t2.duties[2].dutyEndDate.None?
  {
    var t0 := Tables([Person(1, "A")], [], [AstronautDuty(2, 1, "Major", "Pilot", DateTime(10, 0), None)]);
    var r1 := DutyRequest("A", "Major", "Engineer", DateTime(5, 0));
    assert t0.people[0].name == "A";
    FindPersonIsFirstMatch(t0.people, "A", 0);
    assert !Clashes(t0.duties[0], r1);
    var t1 := RecordDuty(t0, r1, 3);
    assert LatestDuty(t0.duties, 1) == Some(0);
    var r2 := DutyRequest("A", "Major", "Commander", DateTime(3, 0));
    assert !Clashes(t1.duties[0], r2) && !Clashes(t1.duties[1], r2);
    assert LatestDuty(t1.duties, 1) == Some(0);
  }

  /** Two recordings, neither one backdated, leave two open duties when the first starts on the day of the latest.
    * Both starting duties tie; the handler closes the first one in table order, which is already closed. */
  lemma SameDayRecordingLeavesTwoOpenDuties()
    ensures var t0 := Tables([Person(1, "A")], [], [AstronautDuty(2, 1, "Major", "Pilot", DateTime(10, 0), None)]);
            var r1 := DutyRequest("A", "Major", "Engineer", DateTime(10, 0));
            HasName(t0.people, "A") &&
            var t1 := RecordDuty(t0, r1, 3);
            var r2 := DutyRequest("A", "Major", "Commander", DateTime(20, 0));
            var t2 := RecordDuty(t1, r2, 4);
            && ScopedGuard(t0, r1) == Pass
            && ScopedGuard(t1, r2) == Pass
            && (forall k :: 0 <= k < |t1.duties| ==> Before(t1.duties[k].dutyStartDate, r2.dutyStartDate))
            && |t2.duties| == 3
            && t2.duties[0].dutyEndDate == Some(DateTime(19, 0))
            && t2.duties[1].dutyEndDate.None? && t2.duties[2].dutyEndDate.None?
  {
    var t0 := Tables([Person(1, "A")], [], [AstronautDuty(2, 1, "Major", "Pilot", DateTime(10, 0), None)]);
    var r1 := DutyRequest("A", "Major", "Engineer", DateTime(10, 0));
    assert t0.people[0].name == "A";
    FindPersonIsFirstMatch(t0.people, "A", 0);
    assert !Clashes(t0.duties[0], r1);
    var t1 := RecordDuty(t0, r1, 3);
    assert LatestDuty(t0.duties, 1) == Some(0);
    var r2 := DutyRequest("A", "Major", "Commander", DateTime(20, 0));
    assert !Clashes(t1.duties[0], r2) && !Clashes(t1.duties[1], r2);
    assert LatestDuty(t1.duties, 1) == Some(0);
  }

  /** The duty the handler closes ends strictly before the new duty starts. */
  lemma ClosedDutyEndsBeforeNewStart(t: Tables, req: DutyRequest, newId: int)
    requires HasName(t.people, req.name)
    ensures var after := RecordDuty(t, req, newId).duties;
            forall k :: 0 <= k < |t.duties| && after[k] != t.duties[k] ==>
              && after[k].dutyEndDate == Some(PreviousDate(req.dutyStartDate))
              && Before(after[k].dutyEndDate.value, after[|t.duties|].dutyStartDate)
  {
    RecordDutyClosesLatest(t, req, newId);
    PreviousDateBeforeDate(req.dutyStartDate);
  }

  // ---------------------------------------------------------------------
  // Raw request dates against truncated stored dates

  /** Re-sending a request whose start is at midnight is rejected as a duplicate. */
  lemma MidnightRequestRepeatedIsRejected(t: Tables, req: DutyRequest, newId: int)
    requires HasName(t.people, req.name)
    requires IsMidnight(req.dutyStartDate)
    ensures ScopedGuard(RecordDuty(t, req, newId), req) == Reject(DuplicateDuty)
    ensures LegacyGuard(RecordDuty(t, req, newId), req) == Reject(DuplicateDuty)
  {
    var after := RecordDuty(t, req, newId);
    RecordDutyClosesLatest(t, req, newId);
    DateIsMidnight(req.dutyStartDate);
    assert Clashes(after.duties[|t.duties|], req);
  }

  /** A request with a time of day never matches the truncated duty the handler stored, so re-sending it passes whatever the guard said before. */
  lemma TimedRequestRepeatedIsNotDetected(t: Tables, req: DutyRequest, newId: int)
    requires HasName(t.people, req.name)
    requires !IsMidnight(req.dutyStartDate)
    ensures ScopedGuard(RecordDuty(t, req, newId), req) == ScopedGuard(t, req)
    ensures LegacyGuard(RecordDuty(t, req, newId), req) == LegacyGuard(t, req)
  {
    var personId := RequestedPerson(t, req).id;
    var after := RecordDuty(t, req, newId);
    RecordDutyClosesLatest(t, req, newId);
    DateIsMidnight(req.dutyStartDate);
    assert !Clashes(after.duties[|t.duties|], req);
    assert forall k :: 0 <= k < |t.duties| ==>
      after.duties[k].personId == t.duties[k].personId && (Clashes(after.duties[k], req) <==> Clashes(t.duties[k], req));
    assert PersonHasClash(after.duties, personId, req) <==> PersonHasClash(t.duties, personId, req);
    assert AnyClash(after.duties, req) <==> AnyClash(t.duties, req);
  }

  // ---------------------------------------------------------------------
  // Concrete timelines

  /** Major/Pilot from 2024-01-01, then Colonel/Commander from 2024-07-01: the pilot duty ends 2024-06-30. */
  lemma CareerChangeScenario()
    ensures var t := Tables(
              [Person(1, "Test Person A")],
              [AstronautDetail(1, "Major", "Pilot", DateTime(738885, 0), None)],
              [AstronautDuty(2, 1, "Major", "Pilot", DateTime(738885, 0), None)]);
            var req := DutyRequest("Test Person A", "Colonel", "Commander", DateTime(739067, 0));
            HasName(t.people, req.name) &&
            var after := RecordDuty(t, req, 3);
            && ScopedGuard(t, req) == Pass
            && after.details == [AstronautDetail(1, "Colonel", "Commander", DateTime(738885, 0), None)]
            && after.duties == [
                 AstronautDuty(2, 1, "Major", "Pilot", DateTime(738885, 0), Some(DateTime(739066, 0))),
                 AstronautDuty(3, 1, "Colonel", "Commander", DateTime(739067, 0), None)]
  {
    var t := Tables(
      [Person(1, "Test Person A")],
      [AstronautDetail(1, "Major", "Pilot", DateTime(738885, 0), None)],
      [AstronautDuty(2, 1, "Major", "Pilot", DateTime(738885, 0), None)]);
    var req := DutyRequest("Test Person A", "Colonel", "Commander", DateTime(739067, 0));
    assert t.people[0].name == req.name;
    FindPersonIsFirstMatch(t.people, req.name, 0);
    FindDetailIsFirstMatch(t.details, 1, 0);
    assert !Clashes(t.duties[0], req);
    assert LatestDuty(t.duties, 1) == Some(0);
  }

  /** Retiring on 2024-12-31 after a career that began 2024-01-01 ends the career on 2024-12-30. */
  lemma RetirementScenario()
    ensures var t := Tables(
              [Person(1, "Test Person B")],
              [AstronautDetail(1, "Colonel", "Pilot", DateTime(738885, 0), None)],
              []);
            var req := DutyRequest("Test Person B", "Colonel", Retired, DateTime(739250, 0));
            HasName(t.people, req.name) &&
            var after := RecordDuty(t, req, 2);
            && after.details == [AstronautDetail(1, "Colonel", Retired, DateTime(738885, 0), Some(DateTime(739249, 0)))]
            && after.duties == [AstronautDuty(2, 1, "Colonel", Retired, DateTime(739250, 0), None)]
  {
    var t := Tables(
      [Person(1, "Test Person B")],
      [AstronautDetail(1, "Colonel", "Pilot", DateTime(738885, 0), None)],
      []);
    var req := DutyRequest("Test Person B", "Colonel", Retired, DateTime(739250, 0));
    assert t.people[0].name == req.name;
    FindPersonIsFirstMatch(t.people, req.name, 0);
    FindDetailIsFirstMatch(t.details, 1, 0);
  }
}

/**
 * The store the handlers share (`StargateContext`): the three tables and the
 * id counter the database uses to number new rows.  Each handler is one
 * atomic method; its postcondition ties the new tables to the pure step it
 * performs, so the lemmas proved about those steps apply to the store.
 */
module Store {
  import opened Optional
  import opened Dates
  import opened Entities
  import opened DutyTimeline
  import opened Identity
  import opened CareerProjection

  ghost predicate PersonIdExists(people: seq<Person>, personId: int)
  {
    exists i :: 0 <= i < |people| && people[i].id == personId
  }

  /** Positive ids below the counter, no two rows alike. */
  ghost predicate PeopleIdsFresh(people: seq<Person>, nextId: int)
  {
    && (forall i :: 0 <= i < |people| ==> 1 <= people[i].id < nextId)
    && (forall i, j :: 0 <= i < j < |people| ==> people[i].id != people[j].id)
  }

  ghost predicate DutyIdsFresh(duties: seq<AstronautDuty>, nextId: int)
  {
    && (forall k :: 0 <= k < |duties| ==> 1 <= duties[k].id < nextId)
    && (forall k, l :: 0 <= k < l < |duties| ==> duties[k].id != duties[l].id)
  }

  /** Every duty and every summary belongs to a stored person. */
  ghost predicate ReferencesResolve(t: Tables)
  {
    && (forall k :: 0 <= k < |t.duties| ==> PersonIdExists(t.people, t.duties[k].personId))
    && (forall k :: 0 <= k < |t.details| ==> PersonIdExists(t.people, t.details[k].personId))
  }

  ghost predicate OneDetailPerPerson(details: seq<AstronautDetail>)
  {
    forall k, l :: 0 <= k < l < |details| ==> details[k].personId != details[l].personId
  }

  ghost predicate StoreInvariant(t: Tables, nextId: int)
  {
    && 1 <= nextId
    && PeopleIdsFresh(t.people, nextId)
    && DutyIdsFresh(t.duties, nextId)
    && ReferencesResolve(t)
    && OneDetailPerPerson(t.details)
  }

  lemma RecordDutyKeepsDutyIds(t: Tables, req: DutyRequest, nextId: int)
    requires 1 <= nextId && DutyIdsFresh(t.duties, nextId)
    requires HasName(t.people, req.name)
    ensures DutyIdsFresh(RecordDuty(t, req, nextId).duties, nextId + 1)
  {
  }

  lemma RecordDutyKeepsOneDetail(t: Tables, req: DutyRequest, nextId: int)
    requires OneDetailPerPerson(t.details)
    requires HasName(t.people, req.name)
    ensures OneDetailPerPerson(RecordDuty(t, req, nextId).details)
  {
  }

  lemma RecordDutyKeepsReferences(t: Tables, req: DutyRequest, nextId: int)
    requires ReferencesResolve(t)
    requires HasName(t.people, req.name)
    ensures ReferencesResolve(RecordDuty(t, req, nextId))
  {
    var personId := RequestedPerson(t, req).id;
    assert PersonIdExists(t.people, personId);
  }

  /** Recording a duty under the counter's id keeps the store invariant. */
  lemma RecordDutyKeepsStoreInvariant(t: Tables, req: DutyRequest, nextId: int)
    requires StoreInvariant(t, nextId)
    requires HasName(t.people, req.name)
    ensures StoreInvariant(RecordDuty(t, req, nextId), nextId + 1)
  {
    RecordDutyKeepsDutyIds(t, req, nextId);
    RecordDutyKeepsOneDetail(t, req, nextId);
    RecordDutyKeepsReferences(t, req, nextId);
  }

  /** Appending a person under the counter's id keeps the store invariant. */
  lemma AddPersonKeepsStoreInvariant(t: Tables, name: string, nextId: int)
    requires StoreInvariant(t, nextId)
    ensures StoreInvariant(AddPerson(t, name, nextId), nextId + 1)
  {
    var after := AddPerson(t, name, nextId);
    assert forall k :: 0 <= k < |t.people| ==> after.people[k] == t.people[k];
    forall k | 0 <= k < |t.duties|
      ensures PersonIdExists(after.people, t.duties[k].personId)
    {
      var i :| 0 <= i < |t.people| && t.people[i].id == t.duties[k].personId;
      assert after.people[i].id == t.duties[k].personId;
    }
    forall k | 0 <= k < |t.details|
      ensures PersonIdExists(after.people, t.details[k].personId)
    {
      var i :| 0 <= i < |t.people| && t.people[i].id == t.details[k].personId;
      assert after.people[i].id == t.details[k].personId;
    }
  }

  /** A rename keeps the store invariant: ids and references do not depend on names. */
  lemma UpdatePersonKeepsStoreInvariant(t: Tables, currentName: string, newName: string, nextId: int)
    requires StoreInvariant(t, nextId)
    ensures StoreInvariant(Identity.UpdatePerson(t, currentName, newName).tables, nextId)
  {
    var after := Identity.UpdatePerson(t, currentName, newName).tables;
    assert |after.people| == |t.people|;
    assert forall k :: 0 <= k < |t.people| ==> after.people[k].id == t.people[k].id;
    forall k | 0 <= k < |t.duties|
      ensures PersonIdExists(after.people, t.duties[k].personId)
    {
      var i :| 0 <= i < |t.people| && t.people[i].id == t.duties[k].personId;
      assert after.people[i].id == t.duties[k].personId;
    }
    forall k | 0 <= k < |t.details|
      ensures PersonIdExists(after.people, t.details[k].personId)
    {
      var i :| 0 <= i < |t.people| && t.people[i].id == t.details[k].personId;
      assert after.people[i].id == t.details[k].personId;
    }
  }

  /** No stored summary or duty refers to the id the counter hands out next. */
  lemma FreshIdHasNoHistory(t: Tables, nextId: int)
    requires StoreInvariant(t, nextId)
    ensures forall j :: 0 <= j < |t.details| ==> t.details[j].personId != nextId
    ensures forall k :: 0 <= k < |t.duties| ==> t.duties[k].personId != nextId
    ensures forall k :: 0 <= k < |t.duties| ==> t.duties[k].id != nextId
  {
  }

  /** A person created through the guard into a consistent store starts with no career and no duties. */
  lemma CreatePersonStartsWithoutHistory(t: Tables, name: string, nextId: int)
    requires StoreInvariant(t, nextId)
    requires CreatePersonGuard(t.people, name) == NameFree
    ensures GetPersonByName(AddPerson(t, name, nextId), name) == Some(PersonAstronaut(nextId, name, None, None, None, None))
    ensures GetAstronautDutiesByName(AddPerson(t, name, nextId), name) ==
              Found(PersonAstronaut(nextId, name, None, None, None, None), [])
  {
    FreshIdHasNoHistory(t, nextId);
    CreatedPersonHasNoHistory(t, name, nextId);
  }

  class StargateContext {
    var people: seq<Person>
    var details: seq<AstronautDetail>
    var duties: seq<AstronautDuty>
    /** The id the next inserted row receives; ids are positive and never reused. */
    var nextId: int

    /** The store invariant over the current tables and counter. */
    ghost predicate Valid()
      reads this
    {
      StoreInvariant(Tables(people, details, duties), nextId)
    }

    function Snapshot(): Tables
      reads this
    {
      Tables(people, details, duties)
    }

    /** An empty database. */
    constructor ()
      ensures Valid()
      ensures people == [] && details == [] && duties == [] && nextId == 1
    {
      people, details, duties, nextId := [], [], [], 1;
    }

    /** `CreatePersonHandler.Handle`: append the person under a fresh id and return it. */
    method HandleCreatePerson(name: string) returns (id: int)
      requires Valid()
      modifies this
      ensures Valid()
      ensures id == old(nextId) && nextId == old(nextId) + 1
      ensures Snapshot() == AddPerson(old(Snapshot()), name, id)
      ensures forall i :: 0 <= i < |old(people)| ==> old(people)[i].id != id
      ensures NamesUnique(old(people)) && CreatePersonGuard(old(people), name) == NameFree ==> NamesUnique(people)
    {
      AddPersonKeepsStoreInvariant(Snapshot(), name, nextId);
      id := nextId;
      nextId := nextId + 1;
      people := people + [Person(id, name)];
      if NamesUnique(old(people)) && CreatePersonGuard(old(people), name) == NameFree {
        GuardedAddKeepsNamesUnique(old(Snapshot()), name, id);
      }
    }

    /** The request pipeline for `CreatePerson`: the pre-processor, then the handler. */
    method CreatePerson(name: string) returns (r: Result<int, CreatePersonGuardOutcome>)
      requires Valid()
      modifies this
      ensures Valid()
      ensures CreatePersonGuard(old(people), name) == NameTaken ==>
                r == Failure(NameTaken) && Snapshot() == old(Snapshot()) && nextId == old(nextId)
      ensures CreatePersonGuard(old(people), name) == NameFree ==>
                r == Success(old(nextId)) && Snapshot() == AddPerson(old(Snapshot()), name, old(nextId))
      ensures CreatePersonGuard(old(people), name) == NameFree ==>
                && nextId == old(nextId) + 1
                && GetPersonByName(Snapshot(), name) == Some(PersonAstronaut(old(nextId), name, None, None, None, None))
                && GetAstronautDutiesByName(Snapshot(), name) ==
                     Found(PersonAstronaut(old(nextId), name, None, None, None, None), [])
      ensures NamesUnique(old(people)) ==> NamesUnique(people)
    {
      if CreatePersonGuard(people, name) == NameTaken {
        return Failure(NameTaken);
      }
      CreatePersonStartsWithoutHistory(Snapshot(), name, nextId);
      var id := HandleCreatePerson(name);
      r := Success(id);
    }

    /** `UpdatePersonHandler.Handle`: rename in place, or report 404 / 400 and change nothing. */
    method UpdatePerson(currentName: string, newName: string) returns (r: UpdatePersonResult)
      requires Valid()
      modifies this
      ensures Valid() && nextId == old(nextId)
      ensures r == Identity.UpdatePerson(old(Snapshot()), currentName, newName).result
      ensures Snapshot() == Identity.UpdatePerson(old(Snapshot()), currentName, newName).tables
      ensures NamesUnique(old(people)) ==> NamesUnique(people)
    {
      var found := FindPerson(people, currentName);
      if found.None? {
        return NotFoundResult;
      }
      if FindPerson(people, newName).Some? {
        return NameTakenResult;
      }
      var i := found.value;
      ghost var before := Snapshot();
      UpdatePersonKeepsStoreInvariant(before, currentName, newName, nextId);
      people := people[i := people[i].(name := newName)];
      r := Updated(people[i].id);
      assert Snapshot() == Identity.UpdatePerson(before, currentName, newName).tables;
      if NamesUnique(before.people) {
        UpdatePersonKeepsNamesUnique(before, currentName, newName);
      }
    }

    /** The handler's first step: create or update the person's career summary in place. */
    method SaveDetail(personId: int, req: DutyRequest)
      modifies this`details
      ensures details == UpsertDetail(old(details), personId, req)
    {
      var found := FindDetail(details, personId);
      if found.None? {
        var careerEnd := if req.dutyTitle == Retired then Some(Date(req.dutyStartDate)) else None;
        details := details + [AstronautDetail(personId, req.rank, req.dutyTitle, Date(req.dutyStartDate), careerEnd)];
      } else {
        var detail := details[found.value];
        detail := detail.(currentDutyTitle := req.dutyTitle, currentRank := req.rank);
        if req.dutyTitle == Retired {
          detail := detail.(careerEndDate := Some(PreviousDate(req.dutyStartDate)));
        }
        details := details[found.value := detail];
      }
    }

    /** The handler's second step: overwrite the end date of the person's latest duty. */
    method CloseLatestDuty(personId: int, start: DateTime)
      modifies this`duties
      ensures duties == CloseLatest(old(duties), personId, start)
    {
      var latest := LatestDuty(duties, personId);
      if latest.Some? {
        var k := latest.value;
        duties := duties[k := duties[k].(dutyEndDate := Some(PreviousDate(start)))];
      }
    }

    /** `CreateAstronautDutyHandler.Handle` (the same in both versions); the guard has found the person. */
    method HandleCreateAstronautDuty(req: DutyRequest) returns (id: int)
      requires HasName(people, req.name)
      modifies this
      ensures id == old(nextId) && nextId == old(nextId) + 1
      ensures people == old(people)
      ensures Snapshot() == RecordDuty(old(Snapshot()), req, id)
    {
      ghost var after := RecordDuty(Snapshot(), req, nextId);
      var person := people[FindPerson(people, req.name).value];
      SaveDetail(person.id, req);
      CloseLatestDuty(person.id, req.dutyStartDate);
      id := nextId;
      nextId := nextId + 1;
      duties := duties + [NewDuty(id, person.id, req)];
      assert details == after.details;
      assert duties == after.duties;
    }

    /** The request pipeline for `CreateAstronautDuty` with the person-scoped pre-processor. */
    method CreateAstronautDuty(req: DutyRequest) returns (r: Result<int, GuardError>)
      requires Valid()
      modifies this
      ensures Valid()
      ensures ScopedGuard(old(Snapshot()), req).Reject? ==>
                && r == Failure(ScopedGuard(old(Snapshot()), req).error)
                && Snapshot() == old(Snapshot()) && nextId == old(nextId)
      ensures ScopedGuard(old(Snapshot()), req) == Pass ==>
                && r == Success(old(nextId)) && nextId == old(nextId) + 1
                && (forall k :: 0 <= k < |old(duties)| ==> old(duties)[k].id != r.value)
                && Snapshot() == RecordDuty(old(Snapshot()), req, old(nextId))
    {
      var verdict := ScopedGuard(Snapshot(), req);
      if verdict.Reject? {
        return Failure(verdict.error);
      }
      RecordDutyKeepsStoreInvariant(Snapshot(), req, nextId);
      FreshIdHasNoHistory(Snapshot(), nextId);
      var id := HandleCreateAstronautDuty(req);
      r := Success(id);
    }

    /** The same pipeline with the legacy pre-processor, whose duplicate check ignores the person. */
    method CreateAstronautDutyLegacy(req: DutyRequest) returns (r: Result<int, GuardError>)
      requires Valid()
      modifies this
      ensures Valid()
      ensures LegacyGuard(old(Snapshot()), req).Reject? ==>
                && r == Failure(LegacyGuard(old(Snapshot()), req).error)
                && Snapshot() == old(Snapshot()) && nextId == old(nextId)
      ensures LegacyGuard(old(Snapshot()), req) == Pass ==>
                && r == Success(old(nextId)) && nextId == old(nextId) + 1
                && (forall k :: 0 <= k < |old(duties)| ==> old(duties)[k].id != r.value)
                && Snapshot() == RecordDuty(old(Snapshot()), req, old(nextId))
    {
      var verdict := LegacyGuard(Snapshot(), req);
      if verdict.Reject? {
        return Failure(verdict.error);
      }
      RecordDutyKeepsStoreInvariant(Snapshot(), req, nextId);
      FreshIdHasNoHistory(Snapshot(), nextId);
      var id := HandleCreateAstronautDuty(req);
      r := Success(id);
    }
  }
}

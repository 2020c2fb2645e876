/**
 * The identity registry: creating a person (a duplicate-name guard, then an
 * append) and renaming one in place.  Names are compared exactly.
 */
module Identity {
  import opened Optional
  import opened Entities
  import opened CareerProjection

  /** `CreatePersonPreProcessor.Process`: throws "Bad Request" when the name is taken. */
  datatype CreatePersonGuardOutcome = NameFree | NameTaken

  function CreatePersonGuard(people: seq<Person>, name: string): (r: CreatePersonGuardOutcome)
    ensures r == NameTaken <==> HasName(people, name)
  {
    if FindPerson(people, name).Some? then NameTaken else NameFree
  }

  /** `CreatePersonHandler.Handle`: appends the person with the id the store assigns. */
  function AddPerson(t: Tables, name: string, newId: int): (r: Tables)
    ensures r.details == t.details && r.duties == t.duties
    ensures |r.people| == |t.people| + 1 && r.people[|t.people|] == Person(newId, name)
    ensures forall i :: 0 <= i < |t.people| ==> r.people[i] == t.people[i]
    ensures CreatePersonGuard(r.people, name) == NameTaken
  {
    t.(people := t.people + [Person(newId, name)])
  }

  /** The guard followed by the handler keeps names unique. */
  lemma GuardedAddKeepsNamesUnique(t: Tables, name: string, newId: int)
    requires NamesUnique(t.people)
    requires CreatePersonGuard(t.people, name) == NameFree
    ensures NamesUnique(AddPerson(t, name, newId).people)
  {
    var after := AddPerson(t, name, newId).people;
    forall i, j | 0 <= i < j < |after|
      ensures after[i].name != after[j].name
    {
      if j == |t.people| {
        assert after[i] == t.people[i];
      }
    }
  }

  /** A freshly created person has no career summary and no duties. */
  lemma CreatedPersonHasNoHistory(t: Tables, name: string, newId: int)
    requires CreatePersonGuard(t.people, name) == NameFree
    requires forall j :: 0 <= j < |t.details| ==> t.details[j].personId != newId
    requires forall k :: 0 <= k < |t.duties| ==> t.duties[k].personId != newId
    ensures GetPersonByName(AddPerson(t, name, newId), name) == Some(PersonAstronaut(newId, name, None, None, None, None))
    ensures GetAstronautDutiesByName(AddPerson(t, name, newId), name) ==
              Found(PersonAstronaut(newId, name, None, None, None, None), [])
  {
    var after := AddPerson(t, name, newId);
    FindPersonIsFirstMatch(after.people, name, |t.people|);
  }

  /** `UpdatePersonResult`: the renamed person's id, or a failure with its response code and message. */
  datatype UpdatePersonResult =
    | Updated(id: int)
    | NotUpdated(responseCode: int, message: string)

  const NotFoundResult: UpdatePersonResult := NotUpdated(404, "Person not found")
  const NameTakenResult: UpdatePersonResult := NotUpdated(400, "A person with the new name already exists")

  datatype UpdatePersonOutcome = UpdatePersonOutcome(tables: Tables, result: UpdatePersonResult)

  /** `UpdatePersonHandler.Handle`. */
  function UpdatePerson(t: Tables, currentName: string, newName: string): (r: UpdatePersonOutcome)
    ensures r.result == NotFoundResult <==> !HasName(t.people, currentName)
    ensures r.result == NameTakenResult <==> HasName(t.people, currentName) && HasName(t.people, newName)
    ensures r.result.Updated? <==> HasName(t.people, currentName) && !HasName(t.people, newName)
    ensures r.result.NotUpdated? ==> r.tables == t
    ensures r.result.Updated? ==>
              && r.tables.details == t.details && r.tables.duties == t.duties
              && |r.tables.people| == |t.people|
              && exists i :: && 0 <= i < |t.people| && t.people[i].name == currentName
                             && (forall j :: 0 <= j < i ==> t.people[j].name != currentName)
                             && r.result.id == t.people[i].id
                             && r.tables.people[i] == Person(t.people[i].id, newName)
                             && (forall j :: 0 <= j < |t.people| && j != i ==> r.tables.people[j] == t.people[j])
  {
    match FindPerson(t.people, currentName)
    case None => UpdatePersonOutcome(t, NotFoundResult)
    case Some(i) =>
      if FindPerson(t.people, newName).Some? then UpdatePersonOutcome(t, NameTakenResult)
      else
        var renamed := t.people[i].(name := newName);
        UpdatePersonOutcome(t.(people := t.people[i := renamed]), Updated(t.people[i].id))
  }

  /** A rename never breaks name uniqueness. */
  lemma UpdatePersonKeepsNamesUnique(t: Tables, currentName: string, newName: string)
    requires NamesUnique(t.people)
    ensures NamesUnique(UpdatePerson(t, currentName, newName).tables.people)
  {
    var r := UpdatePerson(t, currentName, newName);
    if r.result.Updated? {
      var i := FindPerson(t.people, currentName).value;
      var after := r.tables.people;
      assert !HasName(t.people, newName);
      forall a, b | 0 <= a < b < |after|
        ensures after[a].name != after[b].name
      {
        if a == i {
          assert after[b] == t.people[b];
        } else if b == i {
          assert after[a] == t.people[a];
        } else {
          assert after[a] == t.people[a] && after[b] == t.people[b];
        }
      }
    }
  }

  /** Renaming a person to the name they already have is refused: the duplicate check does not exclude them. */
  lemma RenameToOwnNameIsRefused(t: Tables, name: string)
    requires HasName(t.people, name)
    ensures UpdatePerson(t, name, name) == UpdatePersonOutcome(t, NameTakenResult)
  {
  }
}

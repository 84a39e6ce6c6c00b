/** PersonService: create, update, read and search persons. A person's
    (firstName, lastName) pair is unique in the store; a request the store
    rejects on a constraint becomes a conflict, any other failure an internal
    error, and neither leaves a trace in the store. */
module PersonService {
  import opened JavaLang
  import opened PersonIdentity
  import opened EntityStore
  import opened PersonSpecification
  import Persons

  function NotFoundMessage(personId: Id): string {
    "Person with id '" + DecimalText(personId) + "' not found"
  }

  function CreateConflictMessage(fullName: string): string {
    "Could not create person, another person with the same name '" + fullName + "' already exists"
  }

  function UpdateConflictMessage(fullName: string): string {
    "Could not update person, another person with the name '" + fullName + "' equal to updated name already exists"
  }

  /** Some stored person already carries this name pair. */
  predicate NameTaken(persons: map<Id, Persons.Person>, firstName: string, lastName: string) {
    exists k | k in persons :: persons[k].firstName == firstName && persons[k].lastName == lastName
  }

  /** The row saveAndFlush inserts for a new person: the request's fields
      under the next identity value. */
  function NewRow(s: Store, personDto: Persons.PersonDto): (row: Persons.Person)
    ensures Persons.ToDto(row) == personDto
    ensures row.id == Some(s.nextPersonId) && row.personPets == []
  {
    Persons.FromDto(personDto).(id := Some(s.nextPersonId))
  }

  /** The store with one more person row. */
  function Inserted(s: Store, row: Persons.Person): Store {
    s.(persons := s.persons[s.nextPersonId := row], nextPersonId := s.nextPersonId + 1)
  }

  /** findById. */
  function FindById(s: Store, personId: Id): (r: Option<Persons.PersonDto>)
    ensures r.None? <==> personId !in s.persons
    ensures r.Some? ==> r.value == Persons.ToDto(s.persons[personId])
  {
    if personId in s.persons then Some(Persons.ToDto(s.persons[personId])) else None
  }

  /** createPerson. On success the answer is the new row's id. */
  function CreatePerson(s: Store, personDto: Persons.PersonDto, fault: StoreFault): (r: Step<Id>)
    ensures r.outcome.Ok? || r.store == s
    ensures r.outcome.Conflict? ==>
      r.outcome.message == CreateConflictMessage(CreateFullName(personDto.firstName, personDto.lastName))
    ensures r.outcome.Ok? ==>
      && fault == NoFault && r.outcome.value == s.nextPersonId
      && r.store == Inserted(s, NewRow(s, personDto))
    ensures r.outcome.Internal? ==> fault == OtherFault
  {
    var row := NewRow(s, personDto);
    match Flush(Inserted(s, row), fault)
    case Committed(after) => Step(after, Ok(s.nextPersonId))
    case Rejected(IntegrityViolation) => Step(s, Conflict(CreateConflictMessage(row.FullName())))
    case Rejected(OtherFailure) => Step(s, Internal)
  }

  /** updatePerson. */
  function UpdatePerson(s: Store, personId: Id, personUpdate: Persons.PersonUpdate, fault: StoreFault): (r: Step<()>)
    ensures r.outcome.Ok? || r.store == s
    ensures personId !in s.persons ==> r.outcome == Conflict(NotFoundMessage(personId))
    ensures personId in s.persons && r.outcome.Conflict? ==>
      r.outcome.message == UpdateConflictMessage(s.persons[personId].FullName())
    ensures r.outcome.Ok? ==>
      && personId in s.persons && fault == NoFault
      && r.store == s.(persons := s.persons[personId := s.persons[personId].(address := personUpdate.address)])
    ensures r.outcome.Internal? ==> fault == OtherFault
  {
    if personId !in s.persons then Step(s, Conflict(NotFoundMessage(personId)))
    else
      var person := Persons.Update(s.persons[personId], personUpdate);
      match Flush(s.(persons := s.persons[personId := person]), fault)
      case Committed(after) => Step(after, Ok(()))
      case Rejected(IntegrityViolation) => Step(s, Conflict(UpdateConflictMessage(person.FullName())))
      case Rejected(OtherFailure) => Step(s, Internal)
  }

  /** retrievePerson: agrees with findById, and names a missing id in a
      conflict. */
  function RetrievePerson(s: Store, personId: Id): (r: Outcome<Persons.PersonDto>)
    ensures r.Ok? <==> FindById(s, personId).Some?
    ensures r.Ok? ==> FindById(s, personId) == Some(r.value)
    ensures !r.Ok? ==> r == Conflict(NotFoundMessage(personId))
  {
    if personId !in s.persons then Conflict(NotFoundMessage(personId))
    else Ok(Persons.ToDto(s.persons[personId]))
  }

  /** findAll(spec): the rows the predicate admits, in scan order. */
  function Select(rows: seq<Persons.Person>, spec: Specification): (r: seq<Persons.Person>)
    ensures |r| <= |rows|
    ensures forall p :: p in r <==> p in rows && Matches(spec, p)
    ensures (forall p | p in rows :: !Matches(spec, p)) ==> r == []
  {
    if rows == [] then []
    else (if Matches(spec, rows[0]) then [rows[0]] else []) + Select(rows[1..], spec)
  }

  function Dtos(rows: seq<Persons.Person>): (r: seq<Persons.PersonDto>)
    ensures |r| == |rows|
    ensures forall i :: 0 <= i < |rows| ==> r[i] == Persons.ToDto(rows[i])
  {
    seq(|rows|, i requires 0 <= i < |rows| => Persons.ToDto(rows[i]))
  }

  /** retrievePersons: the query either fails as a whole or answers. */
  function RetrievePersons(s: Store, criteria: Criteria, fault: StoreFault): (r: Outcome<seq<Persons.PersonDto>>)
    ensures r.Internal? <==> fault != NoFault
    ensures !r.Conflict?
    ensures r.Ok? ==> |r.value| <= |PersonRows(s)|
  {
    if fault != NoFault then Internal
    else Ok(Dtos(Select(PersonRows(s), CreatePersonSpecification(criteria))))
  }

  // ---------------------------------------------------------------------
  // The name constraint
  // ---------------------------------------------------------------------

  /** Adding a row under an unused id keeps the store consistent exactly
      when no stored person has the new row's names. */
  lemma InsertConsistentIff(s: Store, row: Persons.Person)
    requires Consistent(s) && s.nextPersonId !in s.persons
    ensures Consistent(Inserted(s, row)) <==> !NameTaken(s.persons, row.firstName, row.lastName)
  {
    var t := Inserted(s, row);
    var n := s.nextPersonId;
    if NameTaken(s.persons, row.firstName, row.lastName) {
      var j :| j in s.persons && s.persons[j].firstName == row.firstName && s.persons[j].lastName == row.lastName;
      assert NameClash(t.persons, j, n);
    } else {
      forall a, b | a in t.persons && b in t.persons
        ensures !NameClash(t.persons, a, b)
      {
        if a != n && b != n {
          assert !NameClash(s.persons, a, b);
        } else if a == n && b != n {
          assert t.persons[b] == s.persons[b];
        } else if a != n && b == n {
          assert t.persons[a] == s.persons[a];
        }
      }
      forall k | k in t.links
        ensures Resolves(t, k)
      {
        assert Resolves(s, k);
      }
      forall k | k in t.links
        ensures Once(t.links, k)
      {
        assert Once(s.links, k);
      }
    }
  }

  /** Replacing a row by one with the same names keeps the store consistent. */
  lemma ReplaceKeepsConsistent(s: Store, personId: Id, row: Persons.Person)
    requires Consistent(s) && personId in s.persons
    requires SameName(row.Ref(), s.persons[personId].Ref())
    ensures Consistent(s.(persons := s.persons[personId := row]))
  {
    var t := s.(persons := s.persons[personId := row]);
    forall a, b | a in t.persons && b in t.persons
      ensures !NameClash(t.persons, a, b)
    {
      assert !NameClash(s.persons, a, b);
    }
    forall k | k in t.links
      ensures Resolves(t, k)
    {
      assert Resolves(s, k);
    }
    forall k | k in t.links
      ensures Once(t.links, k)
    {
      assert Once(s.links, k);
    }
  }

  // ---------------------------------------------------------------------
  // Properties of the operations
  // ---------------------------------------------------------------------

  /** createPerson on a valid store: a conflict exactly when the name pair is
      taken or the database reports an integrity violation; otherwise an
      internal error exactly on another failure. */
  lemma CreatePersonOutcome(s: Store, personDto: Persons.PersonDto, fault: StoreFault)
    requires Valid(s)
    ensures var r := CreatePerson(s, personDto, fault);
      && (r.outcome.Conflict? <==> NameTaken(s.persons, personDto.firstName, personDto.lastName) || fault == IntegrityFault)
      && (r.outcome.Internal? <==> !NameTaken(s.persons, personDto.firstName, personDto.lastName) && fault == OtherFault)
  {
    NextPersonIdFresh(s);
    CreateClassified(s, personDto, fault);
  }

  /** The classification of a create, needing only the name constraint and
      an unused next identity value. */
  lemma CreateClassified(s: Store, personDto: Persons.PersonDto, fault: StoreFault)
    requires Consistent(s) && s.nextPersonId !in s.persons
    ensures var r := CreatePerson(s, personDto, fault);
      && (r.outcome.Conflict? <==> NameTaken(s.persons, personDto.firstName, personDto.lastName) || fault == IntegrityFault)
      && (r.outcome.Internal? <==> !NameTaken(s.persons, personDto.firstName, personDto.lastName) && fault == OtherFault)
  {
    InsertConsistentIff(s, NewRow(s, personDto));
  }

  /** A successful create hands out an id no row had and, for a request
      within the field bounds, keeps the store valid. */
  lemma CreatePersonKeepsValid(s: Store, personDto: Persons.PersonDto, fault: StoreFault)
    requires Valid(s)
    ensures var r := CreatePerson(s, personDto, fault);
      && (r.outcome.Ok? ==> r.outcome.value !in s.persons)
      && (r.outcome.Ok? && Persons.Valid(Persons.FromDto(personDto)) ==> Valid(r.store))
  {
    NextPersonIdFresh(s);
    var row := NewRow(s, personDto);
    if Consistent(Inserted(s, row)) && Persons.Valid(Persons.FromDto(personDto)) {
      InsertedValid(s, row);
    }
  }

  /** The identity value about to be handed out is not in use. */
  lemma NextPersonIdFresh(s: Store)
    requires RowsWellFormed(s)
    ensures s.nextPersonId !in s.persons
  {
    forall k | k in s.persons
      ensures k < s.nextPersonId
    {
      assert PersonRow(s, k);
    }
  }

  /** A consistent insert of a well-formed row under the next identity value
      keeps the store valid. */
  lemma InsertedValid(s: Store, row: Persons.Person)
    requires Valid(s) && Consistent(Inserted(s, row))
    requires row.id == Some(s.nextPersonId) && row.personPets == [] && Persons.Valid(row)
    ensures Valid(Inserted(s, row))
  {
    var t := Inserted(s, row);
    forall k | k in t.persons
      ensures PersonRow(t, k)
    {
      if k != s.nextPersonId {
        assert PersonRow(s, k);
      }
    }
    forall k | k in t.pets
      ensures PetRow(t, k)
    {
      assert PetRow(s, k);
    }
  }

  /** A created person reads back with the four fields it was created with. */
  lemma CreateThenFind(s: Store, personDto: Persons.PersonDto, fault: StoreFault)
    ensures var r := CreatePerson(s, personDto, fault);
      r.outcome.Ok? ==> FindById(r.store, r.outcome.value) == Some(personDto)
  {
  }

  /** A second create with the same name pair is refused and leaves the store
      as the first create left it. */
  lemma CreateSameNameTwice(s: Store, personDto: Persons.PersonDto, fault: StoreFault)
    requires Valid(s) && Persons.Valid(Persons.FromDto(personDto))
    ensures var r1 := CreatePerson(s, personDto, NoFault);
      var r2 := CreatePerson(r1.store, personDto, fault);
      r1.outcome.Ok? ==>
        && r2.store == r1.store
        && r2.outcome == Conflict(CreateConflictMessage(CreateFullName(personDto.firstName, personDto.lastName)))
  {
    CreatePersonKeepsValid(s, personDto, NoFault);
    var r1 := CreatePerson(s, personDto, NoFault);
    if r1.outcome.Ok? {
      var n := s.nextPersonId;
      assert r1.store.persons[n] == NewRow(s, personDto);
      assert NameTaken(r1.store.persons, personDto.firstName, personDto.lastName);
      CreatePersonOutcome(r1.store, personDto, fault);
    }
  }

  /** updatePerson on a stored person: only the address changes, a conflict
      comes only from the database's own report, and the store stays valid
      for an address within the bound. */
  lemma UpdatePersonOutcome(s: Store, personId: Id, personUpdate: Persons.PersonUpdate, fault: StoreFault)
    requires Valid(s) && personId in s.persons
    ensures var r := UpdatePerson(s, personId, personUpdate, fault);
      && (r.outcome.Ok? <==> fault == NoFault)
      && (r.outcome.Conflict? <==> fault == IntegrityFault)
      && (r.outcome.Ok? ==>
            FindById(r.store, personId) == Some(Persons.ToDto(s.persons[personId]).(address := personUpdate.address)))
      && (r.outcome.Ok? && |personUpdate.address| <= Persons.MAX_ADDRESS_LENGTH ==> Valid(r.store))
  {
    var row := Persons.Update(s.persons[personId], personUpdate);
    ReplaceKeepsConsistent(s, personId, row);
    var t := s.(persons := s.persons[personId := row]);
    if |personUpdate.address| <= Persons.MAX_ADDRESS_LENGTH {
      forall k | k in t.persons
        ensures PersonRow(t, k)
      {
        assert PersonRow(s, k);
      }
      forall k | k in t.pets
        ensures PetRow(t, k)
      {
        assert PetRow(s, k);
      }
    }
  }

  /** Repeating an update changes nothing more. */
  lemma UpdatePersonIdempotent(s: Store, personId: Id, personUpdate: Persons.PersonUpdate)
    requires Valid(s)
    ensures var r1 := UpdatePerson(s, personId, personUpdate, NoFault);
      r1.outcome.Ok? ==> UpdatePerson(r1.store, personId, personUpdate, NoFault) == r1
  {
    var r1 := UpdatePerson(s, personId, personUpdate, NoFault);
    if r1.outcome.Ok? {
      UpdatePersonOutcome(s, personId, personUpdate, NoFault);
      var row := s.persons[personId].(address := personUpdate.address);
      assert r1.store.persons[personId := row] == r1.store.persons;
    }
  }

  /** Select keeps the input order: it is the rows the predicate admits. */
  lemma {:induction false} SelectAll(rows: seq<Persons.Person>)
    ensures Select(rows, None) == rows
  {
    if rows != [] {
      SelectAll(rows[1..]);
      assert [rows[0]] + rows[1..] == rows;
    }
  }

  /** Rows with pairwise different name pairs. */
  predicate DistinctNames(rows: seq<Persons.Person>) {
    forall i, j | 0 <= i < j < |rows| :: !SameName(rows[i].Ref(), rows[j].Ref())
  }

  /** The person scan of a consistent, well-formed store lists each name pair
      at most once. */
  lemma ScanHasDistinctNames(s: Store)
    requires Valid(s)
    ensures DistinctNames(PersonRows(s))
  {
    var ids := IdsBetween(s.persons, 0, s.nextPersonId);
    var rows := PersonRows(s);
    forall i, j | 0 <= i < j < |rows|
      ensures !SameName(rows[i].Ref(), rows[j].Ref())
    {
      assert ids[i] < ids[j];
      assert !NameClash(s.persons, ids[i], ids[j]);
    }
  }

  /** Among rows with distinct name pairs, a search on both names finds at
      most one. */
  lemma {:induction false} SelectByFullName(rows: seq<Persons.Person>, firstName: string, lastName: string)
    requires DistinctNames(rows)
    ensures |Select(rows, CreatePersonSpecification(Criteria(Present(firstName), Present(lastName))))| <= 1
  {
    var spec := CreatePersonSpecification(Criteria(Present(firstName), Present(lastName)));
    if rows != [] {
      var rest := rows[1..];
      assert DistinctNames(rest) by {
        forall i, j | 0 <= i < j < |rest|
          ensures !SameName(rest[i].Ref(), rest[j].Ref())
        {
          assert rest[i] == rows[i + 1] && rest[j] == rows[j + 1];
        }
      }
      SelectByFullName(rest, firstName, lastName);
      if Matches(spec, rows[0]) {
        forall p | p in rest
          ensures !Matches(spec, p)
        {
          var j :| 0 <= j < |rest| && rest[j] == p;
          assert rows[j + 1] == p;
        }
      }
    }
  }

  /** retrievePersons answers with the stored persons the criteria admit:
      every one of them, and nothing else. */
  lemma RetrievePersonsSelects(s: Store, criteria: Criteria)
    requires RowsWellFormed(s)
    ensures var r := RetrievePersons(s, criteria, NoFault);
      && r.Ok?
      && (forall k | k in s.persons && AsPredicate(criteria)(s.persons[k]) :: Persons.ToDto(s.persons[k]) in r.value)
      && (forall d | d in r.value :: exists k | k in s.persons :: AsPredicate(criteria)(s.persons[k]) && Persons.ToDto(s.persons[k]) == d)
  {
    ScansListEveryRow(s);
    var selected := Select(PersonRows(s), CreatePersonSpecification(criteria));
    var dtos := Dtos(selected);
    forall k | k in s.persons && AsPredicate(criteria)(s.persons[k])
      ensures Persons.ToDto(s.persons[k]) in dtos
    {
      var p := s.persons[k];
      assert p in selected;
      var i :| 0 <= i < |selected| && selected[i] == p;
      assert dtos[i] == Persons.ToDto(p);
    }
    forall d | d in dtos
      ensures exists k | k in s.persons :: AsPredicate(criteria)(s.persons[k]) && Persons.ToDto(s.persons[k]) == d
    {
      var i :| 0 <= i < |dtos| && dtos[i] == d;
      assert selected[i] in selected;
      var k :| k in s.persons && s.persons[k] == selected[i];
    }
  }

  /** Criteria without filters list every stored person, in scan order. */
  lemma EmptyCriteriaListAll(s: Store, criteria: Criteria)
    requires !criteria.firstName.Present? && !criteria.lastName.Present?
    ensures RetrievePersons(s, criteria, NoFault) == Ok(Dtos(PersonRows(s)))
  {
    SelectAll(PersonRows(s));
  }

  /** A search on both names finds at most the one person the name
      constraint allows, and finds it exactly when it is stored. */
  lemma FullNameSearchFindsAtMostOne(s: Store, firstName: string, lastName: string)
    requires Valid(s)
    ensures var r := RetrievePersons(s, Criteria(Present(firstName), Present(lastName)), NoFault);
      && r.Ok? && |r.value| <= 1
      && (|r.value| == 1 <==> NameTaken(s.persons, firstName, lastName))
  {
    var criteria := Criteria(Present(firstName), Present(lastName));
    ScanHasDistinctNames(s);
    SelectByFullName(PersonRows(s), firstName, lastName);
    RetrievePersonsSelects(s, criteria);
    var r := RetrievePersons(s, criteria, NoFault);
    if NameTaken(s.persons, firstName, lastName) {
      var k :| k in s.persons && s.persons[k].firstName == firstName && s.persons[k].lastName == lastName;
      assert AsPredicate(criteria)(s.persons[k]);
      assert Persons.ToDto(s.persons[k]) in r.value;
    }
    if |r.value| == 1 {
      assert r.value[0] in r.value;
      var k :| k in s.persons && AsPredicate(criteria)(s.persons[k]) && Persons.ToDto(s.persons[k]) == r.value[0];
      assert s.persons[k].firstName == firstName && s.persons[k].lastName == lastName;
    }
  }

  /** A missing id is named in the message unambiguously. */
  lemma NotFoundMessageNamesId(m: Id, n: Id)
    requires NotFoundMessage(m) == NotFoundMessage(n)
    ensures m == n
  {
    OneIdMessageInjective("Person with id '", "' not found", m, n);
  }
}

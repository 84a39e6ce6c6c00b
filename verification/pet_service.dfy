/** PetService: create, update, delete, read and list pets. Pet names need not
    be unique, so the only constraint a pet write can break is a link that
    still refers to a deleted pet; the database's own reports become a
    conflict or an internal error, and neither leaves a trace in the store. */
module PetService {
  import opened JavaLang
  import opened PersonPetIds
  import opened EntityStore
  import Pets

  function NotFoundMessage(petId: Id): string {
    "Pet with id '" + DecimalText(petId) + "' not found"
  }

  function CreateConflictMessage(name: string): string {
    "Could not create pet, another pet with the same name '" + name + "' already exists"
  }

  function UpdateConflictMessage(name: string): string {
    "Could not update pet, another pet with the name '" + name + "' equal to updated name already exists"
  }

  function DeleteConflictMessage(petId: Id): string {
    "Could not delete pet with id '" + DecimalText(petId) + "'"
  }

  /** Some link of the link table refers to the pet. */
  predicate PetLinked(s: Store, petId: Id) {
    exists k | k in s.links :: k.petId == Some(petId)
  }

  /** The row saveAndFlush inserts for a new pet. */
  function NewRow(s: Store, petDto: Pets.PetDto): (row: Pets.Pet)
    ensures Pets.ToDto(row) == petDto
    ensures row.id == Some(s.nextPetId) && row.personPet == None
  {
    Pets.FromDto(petDto).(id := Some(s.nextPetId))
  }

  /** The store with one more pet row. */
  function Inserted(s: Store, row: Pets.Pet): Store {
    s.(pets := s.pets[s.nextPetId := row], nextPetId := s.nextPetId + 1)
  }

  /** findById. */
  function FindById(s: Store, petId: Id): (r: Option<Pets.PetDto>)
    ensures r.None? <==> petId !in s.pets
    ensures r.Some? ==> r.value == Pets.ToDto(s.pets[petId])
  {
    if petId in s.pets then Some(Pets.ToDto(s.pets[petId])) else None
  }

  /** createPet. On success the answer is the new row's id. */
  function CreatePet(s: Store, petDto: Pets.PetDto, fault: StoreFault): (r: Step<Id>)
    ensures r.outcome.Ok? || r.store == s
    ensures r.outcome.Conflict? ==> r.outcome.message == CreateConflictMessage(petDto.name)
    ensures r.outcome.Ok? ==>
      && fault == NoFault && r.outcome.value == s.nextPetId
      && r.store == Inserted(s, NewRow(s, petDto))
    ensures r.outcome.Internal? ==> fault == OtherFault
  {
    var row := NewRow(s, petDto);
    match Flush(Inserted(s, row), fault)
    case Committed(after) => Step(after, Ok(s.nextPetId))
    case Rejected(IntegrityViolation) => Step(s, Conflict(CreateConflictMessage(row.name)))
    case Rejected(OtherFailure) => Step(s, Internal)
  }

  /** updatePet: the stored pet takes the request's name and age. */
  function UpdatePet(s: Store, petId: Id, petDto: Pets.PetDto, fault: StoreFault): (r: Step<()>)
    ensures r.outcome.Ok? || r.store == s
    ensures petId !in s.pets ==> r.outcome == Conflict(NotFoundMessage(petId))
    ensures petId in s.pets && r.outcome.Conflict? ==> r.outcome.message == UpdateConflictMessage(petDto.name)
    ensures r.outcome.Ok? ==>
      && petId in s.pets && fault == NoFault
      && r.store == s.(pets := s.pets[petId := s.pets[petId].(name := petDto.name, age := petDto.age)])
    ensures r.outcome.Internal? ==> fault == OtherFault
  {
    if petId !in s.pets then Step(s, Conflict(NotFoundMessage(petId)))
    else
      var pet := Pets.Update(s.pets[petId], Pets.FromDto(petDto));
      match Flush(s.(pets := s.pets[petId := pet]), fault)
      case Committed(after) => Step(after, Ok(()))
      case Rejected(IntegrityViolation) => Step(s, Conflict(UpdateConflictMessage(pet.name)))
      case Rejected(OtherFailure) => Step(s, Internal)
  }

  /** deletePet: the row goes, unless the database refuses. */
  function DeletePet(s: Store, petId: Id, fault: StoreFault): (r: Step<()>)
    ensures r.outcome.Ok? || r.store == s
    ensures petId !in s.pets ==> r.outcome == Conflict(NotFoundMessage(petId))
    ensures petId in s.pets && r.outcome.Conflict? ==> r.outcome.message == DeleteConflictMessage(petId)
    ensures r.outcome.Ok? ==> petId in s.pets && fault == NoFault && r.store == s.(pets := s.pets - {petId})
    ensures r.outcome.Internal? ==> fault == OtherFault
  {
    if petId !in s.pets then Step(s, Conflict(NotFoundMessage(petId)))
    else
      match Flush(s.(pets := s.pets - {petId}), fault)
      case Committed(after) => Step(after, Ok(()))
      case Rejected(IntegrityViolation) => Step(s, Conflict(DeleteConflictMessage(petId)))
      case Rejected(OtherFailure) => Step(s, Internal)
  }

  /** retrievePet: agrees with findById, and names a missing id in a
      conflict. */
  function RetrievePet(s: Store, petId: Id): (r: Outcome<Pets.PetDto>)
    ensures r.Ok? <==> FindById(s, petId).Some?
    ensures r.Ok? ==> FindById(s, petId) == Some(r.value)
    ensures !r.Ok? ==> r == Conflict(NotFoundMessage(petId))
  {
    if petId !in s.pets then Conflict(NotFoundMessage(petId))
    else Ok(Pets.ToDto(s.pets[petId]))
  }

  function Dtos(rows: seq<Pets.Pet>): (r: seq<Pets.PetDto>)
    ensures |r| == |rows|
    ensures forall i :: 0 <= i < |rows| ==> r[i] == Pets.ToDto(rows[i])
  {
    seq(|rows|, i requires 0 <= i < |rows| => Pets.ToDto(rows[i]))
  }

  /** retrieveAllPets: the scan either fails as a whole or answers. */
  function RetrieveAllPets(s: Store, fault: StoreFault): (r: Outcome<seq<Pets.PetDto>>)
    ensures r.Internal? <==> fault != NoFault
    ensures !r.Conflict?
    ensures r.Ok? ==> |r.value| == |PetRows(s)|
  {
    if fault != NoFault then Internal
    else Ok(Dtos(PetRows(s)))
  }

  // ---------------------------------------------------------------------
  // The constraints a pet write meets
  // ---------------------------------------------------------------------

  /** The identity value about to be handed out is not in use. */
  lemma NextPetIdFresh(s: Store)
    requires RowsWellFormed(s)
    ensures s.nextPetId !in s.pets
  {
    forall k | k in s.pets
      ensures k < s.nextPetId
    {
      assert PetRow(s, k);
    }
  }

  /** A new or rewritten pet row never breaks a constraint: names are free
      and links only need the id to stay. */
  lemma WritePetKeepsConsistent(s: Store, t: Store, petId: Id, row: Pets.Pet)
    requires Consistent(s)
    requires t.persons == s.persons && t.links == s.links && t.pets == s.pets[petId := row]
    ensures Consistent(t)
  {
    forall k | k in t.links
      ensures Resolves(t, k)
    {
      assert Resolves(s, k);
    }
    forall a, b | a in t.persons && b in t.persons
      ensures !NameClash(t.persons, a, b)
    {
      assert !NameClash(s.persons, a, b);
    }
  }

  /** Removing a pet row keeps the store consistent exactly when no link
      refers to the pet. */
  lemma DeleteConsistentIff(s: Store, petId: Id)
    requires Consistent(s)
    ensures Consistent(s.(pets := s.pets - {petId})) <==> !PetLinked(s, petId)
  {
    var t := s.(pets := s.pets - {petId});
    if PetLinked(s, petId) {
      var k :| k in s.links && k.petId == Some(petId);
      assert !Resolves(t, k);
    } else {
      forall k | k in t.links
        ensures Resolves(t, k)
      {
        assert Resolves(s, k);
      }
      forall k | k in t.links
        ensures Once(t.links, k)
      {
        assert Once(s.links, k);
      }
      forall a, b | a in t.persons && b in t.persons
        ensures !NameClash(t.persons, a, b)
      {
        assert !NameClash(s.persons, a, b);
      }
    }
  }

  /** Valid after a write that kept the store consistent and the rows well
      formed outside the pet table. */
  lemma PetTableWritten(s: Store, t: Store)
    requires Valid(s) && Consistent(t)
    requires t.persons == s.persons && t.nextPersonId == s.nextPersonId && t.nextPetId >= s.nextPetId
    requires forall k | k in t.pets :: PetRow(t, k)
    ensures Valid(t)
  {
    forall k | k in t.persons
      ensures PersonRow(t, k)
    {
      assert PersonRow(s, k);
    }
  }

  // ---------------------------------------------------------------------
  // Properties of the operations
  // ---------------------------------------------------------------------

  /** createPet on a valid store: no name check, so a conflict only on the
      database's own report; a success hands out an id no row had, and the
      store stays valid for a request within the bounds. */
  lemma CreatePetOutcome(s: Store, petDto: Pets.PetDto, fault: StoreFault)
    requires Valid(s)
    ensures var r := CreatePet(s, petDto, fault);
      && (r.outcome.Ok? <==> fault == NoFault)
      && (r.outcome.Conflict? <==> fault == IntegrityFault)
      && (r.outcome.Ok? ==> r.outcome.value !in s.pets && FindById(r.store, r.outcome.value) == Some(petDto))
      && (r.outcome.Ok? && Pets.Valid(Pets.FromDto(petDto)) ==> Valid(r.store))
  {
    NextPetIdFresh(s);
    var n := s.nextPetId;
    var row := NewRow(s, petDto);
    var t := Inserted(s, row);
    WritePetKeepsConsistent(s, t, n, row);
    if Pets.Valid(Pets.FromDto(petDto)) {
      forall k | k in t.pets
        ensures PetRow(t, k)
      {
        if k != n {
          assert PetRow(s, k);
        }
      }
      PetTableWritten(s, t);
    }
  }

  /** Two creates of a pet with one name both succeed, under different ids,
      and both pets read back with that name. */
  lemma CreateSameNameTwice(s: Store, petDto: Pets.PetDto)
    requires Valid(s) && Pets.Valid(Pets.FromDto(petDto))
    ensures var r1 := CreatePet(s, petDto, NoFault);
      var r2 := CreatePet(r1.store, petDto, NoFault);
      && r1.outcome.Ok? && r2.outcome.Ok?
      && r1.outcome.value != r2.outcome.value
      && FindById(r2.store, r1.outcome.value) == Some(petDto)
      && FindById(r2.store, r2.outcome.value) == Some(petDto)
  {
    CreatePetOutcome(s, petDto, NoFault);
    var r1 := CreatePet(s, petDto, NoFault);
    CreatePetOutcome(r1.store, petDto, NoFault);
  }

  /** updatePet on a stored pet: name and age replaced, id and link state
      kept, a conflict only on the database's own report, and the store stays
      valid for a request within the bounds. */
  lemma UpdatePetOutcome(s: Store, petId: Id, petDto: Pets.PetDto, fault: StoreFault)
    requires Valid(s) && petId in s.pets
    ensures var r := UpdatePet(s, petId, petDto, fault);
      && (r.outcome.Ok? <==> fault == NoFault)
      && (r.outcome.Conflict? <==> fault == IntegrityFault)
      && (r.outcome.Ok? ==> FindById(r.store, petId) == Some(petDto) && r.store.pets[petId].id == s.pets[petId].id)
      && (r.outcome.Ok? && Pets.Valid(Pets.FromDto(petDto)) ==> Valid(r.store))
  {
    var row := Pets.Update(s.pets[petId], Pets.FromDto(petDto));
    var t := s.(pets := s.pets[petId := row]);
    WritePetKeepsConsistent(s, t, petId, row);
    if Pets.Valid(Pets.FromDto(petDto)) {
      forall k | k in t.pets
        ensures PetRow(t, k)
      {
        assert PetRow(s, k);
      }
      PetTableWritten(s, t);
    }
  }

  /** deletePet on a stored pet: refused with a conflict exactly when a link
      still refers to the pet or the database reports a violation; after a
      success the pet is gone, nothing else changed, and the store is valid. */
  lemma DeletePetOutcome(s: Store, petId: Id, fault: StoreFault)
    requires Valid(s) && petId in s.pets
    ensures var r := DeletePet(s, petId, fault);
      && (r.outcome.Conflict? <==> PetLinked(s, petId) || fault == IntegrityFault)
      && (r.outcome.Internal? <==> !PetLinked(s, petId) && fault == OtherFault)
      && (r.outcome.Ok? ==> FindById(r.store, petId).None? && Valid(r.store))
      && (r.outcome.Ok? ==> forall q | q in s.pets && q != petId :: FindById(r.store, q) == FindById(s, q))
  {
    DeleteConsistentIff(s, petId);
    var t := s.(pets := s.pets - {petId});
    forall k | k in t.pets
      ensures PetRow(t, k)
    {
      assert PetRow(s, k);
    }
    if Consistent(t) {
      PetTableWritten(s, t);
    }
  }

  /** In a well-formed store the listing holds every stored pet and nothing
      else. */
  lemma RetrieveAllPetsListsEvery(s: Store)
    requires RowsWellFormed(s)
    ensures var r := RetrieveAllPets(s, NoFault);
      && r.Ok?
      && (forall k | k in s.pets :: Pets.ToDto(s.pets[k]) in r.value)
      && (forall d | d in r.value :: exists k | k in s.pets :: Pets.ToDto(s.pets[k]) == d)
  {
    ScansListEveryRow(s);
    var rows := PetRows(s);
    var dtos := Dtos(rows);
    forall k | k in s.pets
      ensures Pets.ToDto(s.pets[k]) in dtos
    {
      assert s.pets[k] in rows;
      var i :| 0 <= i < |rows| && rows[i] == s.pets[k];
      assert dtos[i] == Pets.ToDto(s.pets[k]);
    }
    forall d | d in dtos
      ensures exists k | k in s.pets :: Pets.ToDto(s.pets[k]) == d
    {
      var i :| 0 <= i < |dtos| && dtos[i] == d;
      assert rows[i] in rows;
      var k :| k in s.pets && s.pets[k] == rows[i];
    }
  }

  /** A created pet shows up in the listing. */
  lemma CreatedPetIsListed(s: Store, petDto: Pets.PetDto)
    requires Valid(s) && Pets.Valid(Pets.FromDto(petDto))
    ensures var r := CreatePet(s, petDto, NoFault);
      && r.outcome.Ok?
      && petDto in RetrieveAllPets(r.store, NoFault).value
  {
    CreatePetOutcome(s, petDto, NoFault);
    var r := CreatePet(s, petDto, NoFault);
    RetrieveAllPetsListsEvery(r.store);
    assert Pets.ToDto(r.store.pets[r.outcome.value]) == petDto;
  }

  /** Each id-naming message names its id unambiguously. */
  lemma MessagesNameId(m: Id, n: Id)
    ensures NotFoundMessage(m) == NotFoundMessage(n) ==> m == n
    ensures DeleteConflictMessage(m) == DeleteConflictMessage(n) ==> m == n
  {
    if NotFoundMessage(m) == NotFoundMessage(n) {
      OneIdMessageInjective("Pet with id '", "' not found", m, n);
    }
    if DeleteConflictMessage(m) == DeleteConflictMessage(n) {
      OneIdMessageInjective("Could not delete pet with id '", "'", m, n);
    }
  }
}

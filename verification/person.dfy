/** Person: the aggregate that owns its links to pets. Person.equals and
    Person.hashCode are name-based; the (firstName, lastName) pair is the
    store's unique natural key. */
module Persons {
  import opened JavaLang
  import opened PersonPetIds
  import opened PersonIdentity
  import Pets
  import PersonPets

  /** A calendar date; the model only stores and compares it. */
  datatype LocalDate = LocalDate(year: int, month: int, day: int)

  /** The only field a person update may change (PersonUpdate). */
  datatype PersonUpdate = PersonUpdate(address: string)

  /** The request and response body of the person operations (PersonDTO). */
  datatype PersonDto = PersonDto(firstName: string, lastName: string, dateOfBirth: LocalDate, address: string)

  datatype Person = Person(
    id: Long,
    firstName: string,
    lastName: string,
    dateOfBirth: LocalDate,
    address: string,
    personPets: seq<PersonPets.PersonPet>)
  {
    /** This person as its links refer to it. */
    function Ref(): PersonRef {
      PersonRef(id, firstName, lastName)
    }

    /** Person.getFullName. */
    function FullName(): string {
      CreateFullName(firstName, lastName)
    }
  }

  const MAX_NAME_LENGTH: nat := 100
  const MAX_ADDRESS_LENGTH: nat := 300

  /** The bean-validation bounds on a person's fields, counted in characters
      rather than UTF-16 code units. */
  predicate Valid(p: Person) {
    |p.firstName| <= MAX_NAME_LENGTH && |p.lastName| <= MAX_NAME_LENGTH
    && |p.address| <= MAX_ADDRESS_LENGTH
  }

  /** Person.equals(Object): same class, same first and last name. */
  function Equals(p: Person, o: JavaRef<Person>): bool {
    match o
    case Instance(that) => SameName(p.Ref(), that.Ref())
    case _ => false
  }

  /** Person.hashCode: the hash of the full name. */
  function HashCode(p: Person): int {
    PersonIdentity.HashCode(p.Ref())
  }

  /** PersonMapper: the fields the response carries, and the transient entity a request becomes. */
  function ToDto(p: Person): PersonDto {
    PersonDto(p.firstName, p.lastName, p.dateOfBirth, p.address)
  }

  function FromDto(d: PersonDto): Person {
    Person(None, d.firstName, d.lastName, d.dateOfBirth, d.address, [])
  }

  /** The equals/hashCode contract: never equal to null or another class,
      reflexive, symmetric, decided by the two names only (id, date of birth,
      address and links are ignored), and equal persons hash alike. */
  lemma EqualsContract(p: Person, q: Person)
    ensures !Equals(p, Null) && !Equals(p, OtherClass)
    ensures Equals(p, Instance(p))
    ensures Equals(p, Instance(q)) <==> Equals(q, Instance(p))
    ensures Equals(p, Instance(q)) <==> p.firstName == q.firstName && p.lastName == q.lastName
    ensures Equals(p, Instance(q)) ==> HashCode(p) == HashCode(q)
  {
  }

  // ---------------------------------------------------------------------
  // The link collection
  // ---------------------------------------------------------------------

  /** `personPet.getPet() == pet`: the link refers to this very pet object.
      A persistence context holds one object per stored row, so the model
      reads reference identity as "the same assigned pet id". */
  predicate HoldsPet(l: PersonPets.PersonPet, pet: Pets.Pet) {
    l.pet.Some? && l.pet.value.id.Some? && l.pet.value.id == pet.id
  }

  /** The link the removal evicts, with its pet reference cleared. */
  function Severed(l: PersonPets.PersonPet): PersonPets.PersonPet {
    PersonPets.SetPet(l, None).link
  }

  /** The position of the first link that holds the pet, if any. */
  function IndexOfPet(links: seq<PersonPets.PersonPet>, pet: Pets.Pet): (r: Option<nat>)
    ensures r.Some? ==> r.value < |links| && HoldsPet(links[r.value], pet)
    ensures r.Some? ==> forall j :: 0 <= j < r.value ==> !HoldsPet(links[j], pet)
    ensures r.None? <==> forall j :: 0 <= j < |links| ==> !HoldsPet(links[j], pet)
  {
    if links == [] then None
    else if HoldsPet(links[0], pet) then Some(0)
    else
      match IndexOfPet(links[1..], pet)
      case None => None
      case Some(i) => Some(i + 1)
  }

  /** Person.addPet: appends one new link binding this person and the pet, and
      returns it. There is no duplicate check: earlier links stay as they are. */
  function AddPet(p: Person, pet: Pets.Pet): (r: (Person, PersonPets.PersonPet))
    ensures r.0.personPets == p.personPets + [r.1]
    ensures r.0.(personPets := p.personPets) == p
    ensures r.1.id == PersonPetId(p.id, pet.id)
    ensures r.1.person == p.Ref() && r.1.pet == Some(pet)
  {
    var link := PersonPets.New(p.Ref(), pet);
    (p.(personPets := p.personPets + [link]), link)
  }

  /** The iterator loop of Person.removePet from position `i` on, where
      `visited` is the link the loop variable last held (null before the first
      step). */
  function RemovePetFrom(links: seq<PersonPets.PersonPet>, pet: Pets.Pet, i: nat, visited: Option<PersonPets.PersonPet>)
    : (r: (seq<PersonPets.PersonPet>, Option<PersonPets.PersonPet>))
    requires i <= |links|
    requires forall j :: 0 <= j < i ==> !HoldsPet(links[j], pet)
    requires visited == if i == 0 then None else Some(links[i - 1])
    ensures var k := IndexOfPet(links, pet);
      && (k.Some? ==> r.0 == links[..k.value] + links[k.value + 1..] && r.1 == Some(Severed(links[k.value])))
      && (k.None? ==> r.0 == links && r.1 == if |links| == 0 then None else Some(links[|links| - 1]))
    decreases |links| - i
  {
    if i == |links| then (links, visited)
    else if HoldsPet(links[i], pet) then (links[..i] + links[i + 1..], Some(Severed(links[i])))
    else RemovePetFrom(links, pet, i + 1, Some(links[i]))
  }

  /** Person.removePet, as written. The first link holding the pet has its pet
      reference cleared and is removed; the other links keep their order, and
      the removed link is returned. When no link holds the pet the list is
      unchanged, but the result is the last link the loop visited (null only
      for an empty list), not a not-found value. */
  function RemovePet(p: Person, pet: Pets.Pet): (r: (Person, Option<PersonPets.PersonPet>))
    ensures var links := p.personPets;
      var k := IndexOfPet(links, pet);
      && r.0.(personPets := p.personPets) == p
      && (k.Some? ==> r.0.personPets == links[..k.value] + links[k.value + 1..]
                      && r.1 == Some(Severed(links[k.value])))
      && (k.None? ==> r.0 == p && r.1 == if |links| == 0 then None else Some(links[|links| - 1]))
  {
    var (rest, returned) := RemovePetFrom(p.personPets, pet, 0, None);
    (p.(personPets := rest), returned)
  }

  /** Person.removePet as evidently intended: like RemovePet, except that the
      result is empty exactly when no link holds the pet. */
  function DetachPet(p: Person, pet: Pets.Pet): (r: (Person, Option<PersonPets.PersonPet>))
    ensures r.0.(personPets := p.personPets) == p
    ensures r.1.None? <==> forall j :: 0 <= j < |p.personPets| ==> !HoldsPet(p.personPets[j], pet)
    ensures r.1.None? ==> r.0 == p
    ensures r.1.Some? ==> r.1.value.pet.None? && |r.0.personPets| == |p.personPets| - 1
    ensures r.1.Some? ==>
      exists i :: && 0 <= i < |p.personPets| && HoldsPet(p.personPets[i], pet)
                  && (forall j :: 0 <= j < i ==> !HoldsPet(p.personPets[j], pet))
                  && r.0.personPets == p.personPets[..i] + p.personPets[i + 1..]
                  && r.1.value.id == p.personPets[i].id
  {
    match IndexOfPet(p.personPets, pet)
    case None => (p, None)
    case Some(i) => (p.(personPets := p.personPets[..i] + p.personPets[i + 1..]), Some(Severed(p.personPets[i])))
  }

  /** DetachPet removes the link IndexOfPet finds. */
  lemma DetachAtIndex(p: Person, pet: Pets.Pet)
    ensures var k := IndexOfPet(p.personPets, pet);
      k.Some? ==> DetachPet(p, pet).0.personPets == p.personPets[..k.value] + p.personPets[k.value + 1..]
  {
  }

  /** Person.update: only the address changes. */
  function Update(p: Person, personUpdate: PersonUpdate): (r: Person)
    ensures r.address == personUpdate.address
    ensures r.(address := p.address) == p
  {
    p.(address := personUpdate.address)
  }

  /** When the pet is linked, the intended and the written removal agree. */
  lemma DetachAgreesWithRemovePet(p: Person, pet: Pets.Pet)
    requires exists j :: 0 <= j < |p.personPets| && HoldsPet(p.personPets[j], pet)
    ensures DetachPet(p, pet) == RemovePet(p, pet)
  {
  }

  /** The removal quirk, on a concrete input: a person whose one link holds
      pet 1, asked to remove pet 2, keeps the link and yet gets it back as if
      it had been removed. */
  lemma RemovePetReturnsUnrelatedLink()
    ensures exists p: Person, pet: Pets.Pet ::
      && RemovePet(p, pet).0 == p
      && RemovePet(p, pet).1.Some?
      && !HoldsPet(RemovePet(p, pet).1.value, pet)
      && DetachPet(p, pet).1.None?
  {
    var jan := Person(Some(1), "Jan", "Jansen", LocalDate(1980, 6, 18), "Kalverhoeve 41", []);
    var caesar := Pets.Pet(Some(1), "Caesar", 3, None);
    var jackie := Pets.Pet(Some(2), "Jackie", 5, None);
    var (owner, link) := AddPet(jan, caesar);
    assert owner.personPets == [link];
    assert !HoldsPet(link, jackie);
    assert IndexOfPet(owner.personPets, jackie).None?;
    assert RemovePet(owner, jackie) == (owner, Some(link));
  }

  /** Adding a pet that was not linked and then detaching it gives back the
      person as before. */
  lemma AddThenDetach(p: Person, pet: Pets.Pet)
    requires pet.id.Some?
    requires forall j :: 0 <= j < |p.personPets| ==> !HoldsPet(p.personPets[j], pet)
    ensures DetachPet(AddPet(p, pet).0, pet).0 == p
  {
    var (q, link) := AddPet(p, pet);
    var links := q.personPets;
    assert links[|p.personPets|] == link && HoldsPet(link, pet);
    var k := IndexOfPet(links, pet);
    assert k == Some(|p.personPets|) by {
      forall j | 0 <= j < |p.personPets|
        ensures !HoldsPet(links[j], pet)
      {
        assert links[j] == p.personPets[j];
      }
    }
    assert links[..|p.personPets|] == p.personPets;
  }

  /** addPet does not look for an existing link: adding a linked pet again
      leaves two links under one key. */
  lemma AddPetHasNoDuplicateCheck(p: Person, pet: Pets.Pet)
    ensures var q := AddPet(AddPet(p, pet).0, pet).0;
      |q.personPets| == |p.personPets| + 2
      && q.personPets[|p.personPets|].id == q.personPets[|p.personPets| + 1].id
  {
  }

  /** An update keeps the person equal to itself before the update (names are
      untouched), keeps its hash code, and is idempotent. */
  lemma UpdateKeepsIdentity(p: Person, personUpdate: PersonUpdate)
    ensures Equals(Update(p, personUpdate), Instance(p))
    ensures HashCode(Update(p, personUpdate)) == HashCode(p)
    ensures Update(Update(p, personUpdate), personUpdate) == Update(p, personUpdate)
  {
  }
}

/** Pet: a named animal with an age. Its identity in the store is its id, but
    Pet.equals and Pet.hashCode look at the name only, and names need not be
    unique. */
module Pets {
  import opened JavaLang
  import opened PersonPetIds

  const MAX_NAME_LENGTH: nat := 100
  const MIN_AGE: int := 1
  const MAX_AGE: int := 199

  /** `personPet` is the inverse side of the one-to-one mapping to the link
      that owns this pet, recorded here by the link's key. */
  datatype Pet = Pet(id: Long, name: string, age: int, personPet: Option<PersonPetId>)

  /** The request and response body of the pet operations (PetDTO). */
  datatype PetDto = PetDto(name: string, age: int)

  /** The bean-validation bounds on a pet's fields, counted in characters
      rather than UTF-16 code units. */
  predicate Valid(p: Pet) {
    |p.name| <= MAX_NAME_LENGTH && MIN_AGE <= p.age <= MAX_AGE
  }

  /** Pet(name, age): sets name and age; id and link are left unset. */
  function New(name: string, age: int): (p: Pet)
    ensures p.id == None && p.personPet == None
    ensures p.name == name && p.age == age
  {
    Pet(None, name, age, None)
  }

  /** Pet.update: copies name and age from the argument; the id and the
      back-reference to the link stay as they were. */
  function Update(p: Pet, petUpdate: Pet): (r: Pet)
    ensures r.id == p.id && r.personPet == p.personPet
    ensures r.name == petUpdate.name && r.age == petUpdate.age
  {
    p.(name := petUpdate.name, age := petUpdate.age)
  }

  /** Pet.equals(Object): same class and same name; id and age are ignored. */
  function Equals(p: Pet, o: JavaRef<Pet>): bool {
    match o
    case Instance(that) => p.name == that.name
    case _ => false
  }

  /** Pet.hashCode: Objects.hash(name). */
  function HashCode(p: Pet): int {
    ObjectsHash1(StringHashCode(p.name))
  }

  /** PetMapper: the fields the response carries, and the transient entity a request becomes. */
  function ToDto(p: Pet): PetDto {
    PetDto(p.name, p.age)
  }

  function FromDto(d: PetDto): Pet {
    New(d.name, d.age)
  }

  /** The equals/hashCode contract: never equal to null or another class,
      reflexive, symmetric, decided by the name alone, and equal pets hash alike. */
  lemma EqualsContract(p: Pet, q: Pet)
    ensures !Equals(p, Null) && !Equals(p, OtherClass)
    ensures Equals(p, Instance(p))
    ensures Equals(p, Instance(q)) <==> p.name == q.name
    ensures Equals(p, Instance(q)) <==> Equals(q, Instance(p))
    ensures Equals(p, Instance(q)) ==> HashCode(p) == HashCode(q)
  {
  }

  /** Two pets with different ids and ages are still equal when they share a
      name: equality is not identity. */
  lemma SameNameDifferentPetsAreEqual()
    ensures exists p: Pet, q: Pet :: p.id != q.id && p.age != q.age && Equals(p, Instance(q))
  {
    var p := Pet(Some(1), "Caesar", 3, None);
    var q := Pet(Some(2), "Caesar", 2, None);
    assert Equals(p, Instance(q));
  }

  /** After an update the pet equals its update source, keeps its id, and
      updating again with the same source changes nothing. */
  lemma UpdateAdoptsSource(p: Pet, petUpdate: Pet)
    ensures Equals(Update(p, petUpdate), Instance(petUpdate))
    ensures ToDto(Update(p, petUpdate)) == ToDto(petUpdate)
    ensures Update(Update(p, petUpdate), petUpdate) == Update(p, petUpdate)
    ensures Valid(petUpdate) ==> Valid(Update(p, petUpdate))
  {
  }

  /** A pet built from a request carries exactly the request's fields. */
  lemma FromDtoRoundTrip(d: PetDto)
    ensures ToDto(FromDto(d)) == d
    ensures FromDto(d).id == None
  {
  }
}

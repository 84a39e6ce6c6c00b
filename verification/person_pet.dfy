/** PersonPet: the link "this person owns this pet". Its key is the composite
    (personId, petId); its equals and hashCode, however, compare the person and
    the pet with their own name-based equality. */
module PersonPets {
  import opened JavaLang
  import opened PersonPetIds
  import opened PersonIdentity
  import Pets

  /** `pet` is None once the link has been severed by setPet(null). */
  datatype PersonPet = PersonPet(id: PersonPetId, person: PersonRef, pet: Option<Pets.Pet>)

  /** The result of setPet: the updated link and the previous pet, whose
      back-reference to a link has been cleared. */
  datatype SetPetResult = SetPetResult(link: PersonPet, released: Option<Pets.Pet>)

  /** PersonPet(person, pet): binds both and derives the key from their ids. */
  function New(person: PersonRef, pet: Pets.Pet): (l: PersonPet)
    ensures l.id.personId == person.id && l.id.petId == pet.id
    ensures l.person == person && l.pet == Some(pet)
  {
    PersonPet(PersonPetId(person.id, pet.id), person, Some(pet))
  }

  /** PersonPet.setPet: first clears the old pet's back-reference, then
      replaces the pet; the key and the person are not touched. */
  function SetPet(l: PersonPet, pet: Option<Pets.Pet>): (r: SetPetResult)
    ensures r.link.id == l.id && r.link.person == l.person && r.link.pet == pet
    ensures l.pet.None? ==> r.released.None?
    ensures l.pet.Some? ==> r.released.Some? && r.released.value.personPet.None?
    ensures l.pet.Some? ==> r.released.value.(personPet := l.pet.value.personPet) == l.pet.value
  {
    match l.pet
    case None => SetPetResult(l.(pet := pet), None)
    case Some(previous) => SetPetResult(l.(pet := pet), Some(previous.(personPet := None)))
  }

  /** Objects.equals on two nullable pets. */
  predicate SamePet(a: Option<Pets.Pet>, b: Option<Pets.Pet>) {
    match a
    case None => b.None?
    case Some(p) => b.Some? && Pets.Equals(p, Instance(b.value))
  }

  /** PersonPet.equals(Object): same class, equal persons and equal pets;
      the key is not compared. */
  function Equals(l: PersonPet, o: JavaRef<PersonPet>): bool {
    match o
    case Instance(that) => SameName(l.person, that.person) && SamePet(l.pet, that.pet)
    case _ => false
  }

  /** PersonPet.hashCode: Objects.hash(person, pet), a null pet counting 0. */
  function HashCode(l: PersonPet): int {
    var petHash := match l.pet case None => 0 case Some(p) => Pets.HashCode(p);
    ObjectsHash2(PersonIdentity.HashCode(l.person), petHash)
  }

  /** PersonPet.toString. */
  function ToString(l: PersonPet): string {
    var petName := match l.pet case None => "null" case Some(p) => p.name;
    "PersonPet {id=" + PersonPetIds.ToString(l.id) + ", person='" + FullName(l.person)
      + "', pet='" + petName + "'}"
  }

  /** Severing a link and putting its pet back restores the link. */
  lemma SetPetRoundTrip(l: PersonPet, pet: Option<Pets.Pet>)
    ensures SetPet(SetPet(l, pet).link, l.pet).link == l
  {
  }

  /** The equals/hashCode contract: never equal to null or another class,
      reflexive, symmetric, decided by person names and pet names, and equal
      links hash alike. */
  lemma EqualsContract(a: PersonPet, b: PersonPet)
    ensures !Equals(a, Null) && !Equals(a, OtherClass)
    ensures Equals(a, Instance(a))
    ensures Equals(a, Instance(b)) <==> Equals(b, Instance(a))
    ensures Equals(a, Instance(b)) <==>
      a.person.firstName == b.person.firstName && a.person.lastName == b.person.lastName
      && (a.pet.None? <==> b.pet.None?)
      && (a.pet.Some? ==> a.pet.value.name == b.pet.value.name)
    ensures Equals(a, Instance(b)) ==> HashCode(a) == HashCode(b)
  {
  }

  /** Link equality is not key equality: one person owning two pets that share
      a name holds two links with different keys that are nevertheless equal. */
  lemma EqualLinksMayHaveDifferentKeys()
    ensures exists a: PersonPet, b: PersonPet :: a.id != b.id && Equals(a, Instance(b))
  {
    var jan := PersonRef(Some(1), "Jan", "Jansen");
    var a := New(jan, Pets.Pet(Some(1), "Caesar", 3, None));
    var b := New(jan, Pets.Pet(Some(2), "Caesar", 2, None));
    assert a.id != b.id;
    assert Equals(a, Instance(b));
  }
}

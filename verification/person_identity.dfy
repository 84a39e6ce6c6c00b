/** The part of a Person that Person.equals, Person.hashCode and the links
    read: its id and its two names. A link refers to its person through this
    value rather than through an object reference. */
module PersonIdentity {
  import opened JavaLang

  datatype PersonRef = PersonRef(id: Long, firstName: string, lastName: string)

  /** Person.createFullName: first name, one space, last name. */
  function CreateFullName(firstName: string, lastName: string): (r: string)
    ensures |r| == |firstName| + 1 + |lastName|
    ensures r[..|firstName|] == firstName
    ensures r[|firstName|] == ' '
    ensures r[|firstName| + 1..] == lastName
  {
    firstName + " " + lastName
  }

  function FullName(r: PersonRef): string {
    CreateFullName(r.firstName, r.lastName)
  }

  /** What Person.equals compares: both names, nothing else. */
  predicate SameName(a: PersonRef, b: PersonRef) {
    a.firstName == b.firstName && a.lastName == b.lastName
  }

  /** Person.hashCode: Objects.hash(getFullName()). */
  function HashCode(r: PersonRef): int {
    ObjectsHash1(StringHashCode(FullName(r)))
  }

  /** Persons with the same names have the same full name and hash code. */
  lemma SameNameSameHash(a: PersonRef, b: PersonRef)
    requires SameName(a, b)
    ensures FullName(a) == FullName(b)
    ensures HashCode(a) == HashCode(b)
  {
  }

  /** The full name does not determine the name pair: ("Anna Maria", "Smit")
      and ("Anna", "Maria Smit") are different persons with one full name, so
      equality is decided on the pair while the hash and the create-conflict
      message only see the joined string. */
  lemma FullNameIsAmbiguous()
    ensures exists a: PersonRef, b: PersonRef :: !SameName(a, b) && FullName(a) == FullName(b)
  {
    var a := PersonRef(None, "Anna Maria", "Smit");
    var b := PersonRef(None, "Anna", "Maria Smit");
    assert FullName(a) == "Anna Maria Smit" == FullName(b);
    assert !SameName(a, b);
  }
}

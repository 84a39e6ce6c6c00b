/** PersonPetId: the composite key (personId, petId) of a person-pet link.
    It is a plain value: two keys are the same key exactly when both ids agree. */
module PersonPetIds {
  import opened JavaLang

  datatype PersonPetId = PersonPetId(personId: Long, petId: Long)

  /** PersonPetId.equals(Object): false for null and for other classes,
      otherwise both ids compared with Objects.equals (null equals null). */
  function Equals(k: PersonPetId, o: JavaRef<PersonPetId>): bool {
    match o
    case Instance(that) => k.personId == that.personId && k.petId == that.petId
    case _ => false
  }

  /** PersonPetId.hashCode: Objects.hash(personId, petId). */
  function HashCode(k: PersonPetId): int {
    ObjectsHash2(LongHashCode(k.personId), LongHashCode(k.petId))
  }

  /** The toString Lombok generates for the key. */
  function ToString(k: PersonPetId): string {
    "PersonPetId(personId=" + LongText(k.personId) + ", petId=" + LongText(k.petId) + ")"
  }

  /** The equals/hashCode contract of the key: never equal to null or to an
      object of another class, reflexive, symmetric, equal exactly when both
      ids are equal (so equality is the key value itself), and equal keys
      hash alike. */
  lemma EqualsContract(k: PersonPetId, o: PersonPetId)
    ensures !Equals(k, Null) && !Equals(k, OtherClass)
    ensures Equals(k, Instance(k))
    ensures Equals(k, Instance(o)) <==> k.personId == o.personId && k.petId == o.petId
    ensures Equals(k, Instance(o)) <==> k == o
    ensures Equals(k, Instance(o)) <==> Equals(o, Instance(k))
    ensures Equals(k, Instance(o)) ==> HashCode(k) == HashCode(o)
  {
  }
}

/** PersonPetService: links and unlinks a stored person and a stored pet and
    lists a person's pets. Each operation is one transaction over the store:
    the guards run in a fixed order, then the person aggregate is saved and
    flushed, and a failure at any point leaves the store as it was. */
module PersonPetService {
  import opened JavaLang
  import opened PersonPetIds
  import opened EntityStore
  import Pets
  import Persons
  import PersonPets

  function AlreadyLinkedMessage(personId: Id, petId: Id): string {
    "Person with id '" + DecimalText(personId) + "' already has Pet with id '" + DecimalText(petId) + "'"
  }

  function NotLinkedMessage(personId: Id, petId: Id): string {
    "Person with id '" + DecimalText(personId) + "' does not have Pet with id '" + DecimalText(petId) + "'"
  }

  function PersonMissingMessage(personId: Id): string {
    "Person with id '" + DecimalText(personId) + "' does not exist"
  }

  function PetMissingMessage(petId: Id): string {
    "Pet with id '" + DecimalText(petId) + "' does not exist"
  }

  function AddRejectedMessage(personId: Id, petId: Id): string {
    "Could not add pet with Id " + DecimalText(petId) + " to the person with Id " + DecimalText(personId) + ", db error"
  }

  /** The removal's db-error message, the removed link printed by its
      toString (the literal "{}" is part of the text). */
  function RemoveRejectedMessage(removed: Option<PersonPets.PersonPet>): string {
    var shown := match removed case None => "null" case Some(l) => PersonPets.ToString(l);
    "Could not delete personPet {}" + shown + ", db error"
  }

  /** All guards of addPersonPet pass. */
  predicate CanAdd(s: Store, personId: Id, petId: Id) {
    Key(personId, petId) !in s.links && personId in s.persons && petId in s.pets
  }

  /** All guards of removePersonPet pass. */
  predicate CanRemove(s: Store, personId: Id, petId: Id) {
    Key(personId, petId) in s.links && personId in s.persons && petId in s.pets
  }

  /** addPersonPet. */
  function AddPersonPet(s: Store, personId: Id, petId: Id, fault: StoreFault): (r: Step<()>)
    ensures r.outcome.Ok? || r.store == s
    ensures Key(personId, petId) in s.links ==> r.outcome == Conflict(AlreadyLinkedMessage(personId, petId))
    ensures Key(personId, petId) !in s.links && personId !in s.persons ==>
      r.outcome == Conflict(PersonMissingMessage(personId))
    ensures Key(personId, petId) !in s.links && personId in s.persons && petId !in s.pets ==>
      r.outcome == Conflict(PetMissingMessage(petId))
    ensures CanAdd(s, personId, petId) && r.outcome.Conflict? ==>
      r.outcome.message == AddRejectedMessage(personId, petId)
    ensures r.outcome.Ok? ==> CanAdd(s, personId, petId) && fault == NoFault && Consistent(r.store)
    ensures r.outcome.Ok? ==> r.store.pets == s.pets
  {
    if Key(personId, petId) in s.links then Step(s, Conflict(AlreadyLinkedMessage(personId, petId)))
    else if personId !in s.persons then Step(s, Conflict(PersonMissingMessage(personId)))
    else if petId !in s.pets then Step(s, Conflict(PetMissingMessage(petId)))
    else
      var (person, _) := Persons.AddPet(Load(s, personId), s.pets[petId]);
      match Flush(SaveAggregate(s, person, personId), fault)
      case Committed(after) => Step(after, Ok(()))
      case Rejected(IntegrityViolation) => Step(s, Conflict(AddRejectedMessage(personId, petId)))
      case Rejected(OtherFailure) => Step(s, Internal)
  }

  /** removePersonPet. The person's link to the pet is detached with the
      intended Persons.DetachPet; once the first guard has found the link the
      as-written Persons.RemovePet behaves the same (LinkedPetIsHeld). */
  function RemovePersonPet(s: Store, personId: Id, petId: Id, fault: StoreFault): (r: Step<()>)
    ensures r.outcome.Ok? || r.store == s
    ensures Key(personId, petId) !in s.links ==> r.outcome == Conflict(NotLinkedMessage(personId, petId))
    ensures Key(personId, petId) in s.links && personId !in s.persons ==>
      r.outcome == Conflict(PersonMissingMessage(personId))
    ensures Key(personId, petId) in s.links && personId in s.persons && petId !in s.pets ==>
      r.outcome == Conflict(PetMissingMessage(petId))
    ensures CanRemove(s, personId, petId) && r.outcome.Conflict? ==>
      r.outcome.message == RemoveRejectedMessage(Persons.DetachPet(Load(s, personId), s.pets[petId]).1)
    ensures r.outcome.Ok? ==> CanRemove(s, personId, petId) && fault == NoFault && Consistent(r.store)
    ensures r.outcome.Ok? ==> r.store.pets == s.pets
  {
    if Key(personId, petId) !in s.links then Step(s, Conflict(NotLinkedMessage(personId, petId)))
    else if personId !in s.persons then Step(s, Conflict(PersonMissingMessage(personId)))
    else if petId !in s.pets then Step(s, Conflict(PetMissingMessage(petId)))
    else
      var (person, removed) := Persons.DetachPet(Load(s, personId), s.pets[petId]);
      match Flush(SaveAggregate(s, person, personId), fault)
      case Committed(after) => Step(after, Ok(()))
      case Rejected(IntegrityViolation) => Step(s, Conflict(RemoveRejectedMessage(removed)))
      case Rejected(OtherFailure) => Step(s, Internal)
  }

  /** The pet column of a run of links. */
  function PetIds(keys: seq<PersonPetId>): (r: seq<Long>)
    ensures |r| == |keys|
    ensures forall i :: 0 <= i < |r| ==> r[i] == keys[i].petId
  {
    seq(|keys|, i requires 0 <= i < |keys| => keys[i].petId)
  }

  lemma PetIdsAppend(keys: seq<PersonPetId>, key: PersonPetId)
    ensures PetIds(keys + [key]) == PetIds(keys) + [key.petId]
  {
  }

  /** retrieveAllPersonPets: the pet ids of the person's links in table order.
      The person is not looked up, so an unknown person, like one without
      pets, gets an empty list; only a failing read is an error. */
  function RetrieveAllPersonPets(s: Store, personId: Id, fault: StoreFault): (r: Outcome<seq<Long>>)
    ensures r.Internal? <==> fault != NoFault
    ensures !r.Conflict?
    ensures r.Ok? ==> forall petId: Id :: Some(petId) in r.value <==> Key(personId, petId) in s.links
    ensures r.Ok? && (forall k | k in s.links :: k.personId != Some(personId)) ==> r.value == []
  {
    if fault != NoFault then Internal
    else
      var keys := LinksOf(s.links, personId);
      assert forall petId: Id :: Some(petId) in PetIds(keys) ==> Key(personId, petId) in keys by {
        forall petId: Id | Some(petId) in PetIds(keys)
          ensures Key(personId, petId) in keys
        {
          var i :| 0 <= i < |keys| && PetIds(keys)[i] == Some(petId);
          assert keys[i] == Key(personId, petId);
        }
      }
      assert forall petId: Id :: Key(personId, petId) in keys ==> Some(petId) in PetIds(keys) by {
        forall petId: Id | Key(personId, petId) in keys
          ensures Some(petId) in PetIds(keys)
        {
          var i :| 0 <= i < |keys| && keys[i] == Key(personId, petId);
          assert PetIds(keys)[i] == Some(petId);
        }
      }
      assert (forall k | k in s.links :: k.personId != Some(personId)) ==> keys == [] by {
        if keys != [] {
          assert keys[0] in keys;
        }
      }
      Ok(PetIds(keys))
  }

  // ---------------------------------------------------------------------
  // Properties
  // ---------------------------------------------------------------------

  /** In a valid store, the link the person loads for a key holds the stored
      pet exactly when the key is that person's key for that pet. */
  lemma HoldsIffKey(s: Store, personId: Id, petId: Id, j: nat)
    requires Valid(s) && personId in s.persons && petId in s.pets
    requires j < |LinksOf(s.links, personId)|
    ensures |Load(s, personId).personPets| == |LinksOf(s.links, personId)|
    ensures Persons.HoldsPet(Load(s, personId).personPets[j], s.pets[petId])
      <==> LinksOf(s.links, personId)[j] == Key(personId, petId)
  {
    var keys := LinksOf(s.links, personId);
    var objs := Load(s, personId).personPets;
    assert |KeysOf(objs)| == |objs|;
    var k := keys[j];
    assert k in keys;
    assert objs[j].id == k;
    assert k.personId == Some(personId);
    assert k in s.links && Resolves(s, k);
    assert PetRow(s, k.petId.value) && PetRow(s, petId);
    assert objs[j].pet == PetFor(s, k) by {
      assert objs == LinkObjects(s, s.persons[personId].Ref(), keys);
    }
  }

  /** The aggregate addPersonPet saves: the stored row with the person's
      links followed by the new key. */
  lemma AddedKeys(s: Store, personId: Id, petId: Id)
    requires Valid(s) && CanAdd(s, personId, petId)
    ensures var p1 := Persons.AddPet(Load(s, personId), s.pets[petId]).0;
      && p1.(personPets := []) == s.persons[personId].(personPets := [])
      && KeysOf(p1.personPets) == LinksOf(s.links, personId) + [Key(personId, petId)]
  {
    var key := Key(personId, petId);
    var p0 := Load(s, personId);
    var (p1, link) := Persons.AddPet(p0, s.pets[petId]);
    var ks := KeysOf(p1.personPets);
    var before := LinksOf(s.links, personId);
    assert p0.id == Some(personId) by {
      assert PersonRow(s, personId);
      assert p0.(personPets := []).id == s.persons[personId].(personPets := []).id;
    }
    assert PetRow(s, petId);
    assert KeysOf(p0.personPets) == before;
    assert |ks| == |before| + 1;
    forall i | 0 <= i < |ks|
      ensures ks[i] == (before + [key])[i]
    {
      if i < |before| {
        assert p1.personPets[i] == p0.personPets[i];
        assert KeysOf(p0.personPets)[i] == before[i];
      } else {
        assert p1.personPets[i] == link;
      }
    }
    assert p1.(personPets := []) == p0.(personPets := []);
  }

  /** The store addPersonPet flushes: only the link table changes, the person's
      links gain the key at the end, nobody else's change. */
  lemma AddedLinks(s: Store, personId: Id, petId: Id)
    requires Valid(s) && CanAdd(s, personId, petId)
    ensures var after := SaveAggregate(s, Persons.AddPet(Load(s, personId), s.pets[petId]).0, personId);
      && after == s.(links := after.links)
      && Consistent(after)
      && LinksOf(after.links, personId) == LinksOf(s.links, personId) + [Key(personId, petId)]
      && (forall other :: other != personId ==> LinksOf(after.links, other) == LinksOf(s.links, other))
      && multiset(after.links) == multiset(s.links) + multiset{Key(personId, petId)}
  {
    var p1 := Persons.AddPet(Load(s, personId), s.pets[petId]).0;
    AddedKeys(s, personId, petId);
    SaveKeepsRows(s, p1, personId);
    RelinkAppended(s, personId, Key(personId, petId));
  }

  /** What a successful add does to the link table, and when it succeeds. */
  lemma AddPersonPetAppends(s: Store, personId: Id, petId: Id, fault: StoreFault)
    requires Valid(s)
    ensures var r := AddPersonPet(s, personId, petId, fault);
      && (CanAdd(s, personId, petId) ==>
            && (r.outcome.Ok? <==> fault == NoFault)
            && (r.outcome.Conflict? <==> fault == IntegrityFault)
            && (r.outcome.Internal? <==> fault == OtherFault))
      && (r.outcome.Ok? ==>
            && r.store == s.(links := r.store.links)
            && Valid(r.store)
            && LinksOf(r.store.links, personId) == LinksOf(s.links, personId) + [Key(personId, petId)]
            && multiset(r.store.links) == multiset(s.links) + multiset{Key(personId, petId)})
  {
    if CanAdd(s, personId, petId) {
      AddedLinks(s, personId, petId);
      var r := AddPersonPet(s, personId, petId, fault);
      if r.outcome.Ok? {
        ValidAfterCommit(s, r.store);
      }
    }
  }

  /** A successful add leaves every other person's links as they were. */
  lemma AddPersonPetKeepsOthers(s: Store, personId: Id, petId: Id, fault: StoreFault, other: Id)
    requires Valid(s) && other != personId
    ensures var r := AddPersonPet(s, personId, petId, fault);
      r.outcome.Ok? ==> LinksOf(r.store.links, other) == LinksOf(s.links, other)
  {
    if CanAdd(s, personId, petId) {
      AddedLinks(s, personId, petId);
    }
  }

  /** In the service the as-written removal finds the link, so it agrees with
      the intended one. */
  lemma LinkedPetIsHeld(s: Store, personId: Id, petId: Id)
    requires Valid(s) && CanRemove(s, personId, petId)
    ensures Persons.DetachPet(Load(s, personId), s.pets[petId])
         == Persons.RemovePet(Load(s, personId), s.pets[petId])
  {
    var keys := LinksOf(s.links, personId);
    var key := Key(personId, petId);
    assert key in keys;
    var j :| 0 <= j < |keys| && keys[j] == key;
    HoldsIffKey(s, personId, petId, j);
    Persons.DetachAgreesWithRemovePet(Load(s, personId), s.pets[petId]);
  }

  /** The aggregate removePersonPet saves: the stored row with the person's
      links minus the key. */
  lemma RemovedKeys(s: Store, personId: Id, petId: Id)
    requires Valid(s) && CanRemove(s, personId, petId)
    ensures var p1 := Persons.DetachPet(Load(s, personId), s.pets[petId]).0;
      && p1.(personPets := []) == s.persons[personId].(personPets := [])
      && KeysOf(p1.personPets) == Erase(LinksOf(s.links, personId), Key(personId, petId))
  {
    var key := Key(personId, petId);
    var keys := LinksOf(s.links, personId);
    var p0 := Load(s, personId);
    var pet := s.pets[petId];
    assert key in keys;
    var j :| 0 <= j < |keys| && keys[j] == key;
    HoldsIffKey(s, personId, petId, j);
    var k := Persons.IndexOfPet(p0.personPets, pet);
    assert k.Some?;
    var i := k.value;
    HoldsIffKey(s, personId, petId, i);
    assert keys[i] == key;
    LinksOfUnique(s.links, personId, key);
    Persons.DetachAtIndex(p0, pet);
    var p1 := Persons.DetachPet(p0, pet).0;
    KeysOfDelete(p0.personPets, i);
    EraseOnce(keys, i);
    assert p1.(personPets := []) == p0.(personPets := []);
  }

  /** The store removePersonPet flushes: only the link table changes, the
      person loses exactly the key, nobody else's links change. */
  lemma RemovedLinks(s: Store, personId: Id, petId: Id)
    requires Valid(s) && CanRemove(s, personId, petId)
    ensures var after := SaveAggregate(s, Persons.DetachPet(Load(s, personId), s.pets[petId]).0, personId);
      && after == s.(links := after.links)
      && Consistent(after)
      && Key(personId, petId) !in after.links
      && LinksOf(after.links, personId) == Erase(LinksOf(s.links, personId), Key(personId, petId))
      && (forall other :: other != personId ==> LinksOf(after.links, other) == LinksOf(s.links, other))
      && multiset(after.links) == multiset(s.links) - multiset{Key(personId, petId)}
  {
    var p1 := Persons.DetachPet(Load(s, personId), s.pets[petId]).0;
    RemovedKeys(s, personId, petId);
    SaveKeepsRows(s, p1, personId);
    RelinkErased(s, personId, Key(personId, petId));
  }

  /** What a successful remove does to the link table, and when it succeeds:
      exactly the one link is gone and the rest keep their order. */
  lemma RemovePersonPetErases(s: Store, personId: Id, petId: Id, fault: StoreFault)
    requires Valid(s)
    ensures var r := RemovePersonPet(s, personId, petId, fault);
      && (CanRemove(s, personId, petId) ==>
            && (r.outcome.Ok? <==> fault == NoFault)
            && (r.outcome.Conflict? <==> fault == IntegrityFault)
            && (r.outcome.Internal? <==> fault == OtherFault))
      && (r.outcome.Ok? ==>
            && r.store == s.(links := r.store.links)
            && Valid(r.store)
            && LinksOf(r.store.links, personId) == Erase(LinksOf(s.links, personId), Key(personId, petId))
            && Key(personId, petId) !in r.store.links
            && multiset(r.store.links) == multiset(s.links) - multiset{Key(personId, petId)})
  {
    if CanRemove(s, personId, petId) {
      RemovedLinks(s, personId, petId);
      var r := RemovePersonPet(s, personId, petId, fault);
      if r.outcome.Ok? {
        ValidAfterCommit(s, r.store);
      }
    }
  }

  /** A successful remove leaves every other person's links as they were. */
  lemma RemovePersonPetKeepsOthers(s: Store, personId: Id, petId: Id, fault: StoreFault, other: Id)
    requires Valid(s) && other != personId
    ensures var r := RemovePersonPet(s, personId, petId, fault);
      r.outcome.Ok? ==> LinksOf(r.store.links, other) == LinksOf(s.links, other)
  {
    if CanRemove(s, personId, petId) {
      RemovedLinks(s, personId, petId);
    }
  }

  /** Linking a pet and unlinking it again succeeds twice and leaves the
      person and pet tables as they were and the link table with the same
      contents. */
  lemma AddThenRemove(s: Store, personId: Id, petId: Id)
    requires Valid(s) && CanAdd(s, personId, petId)
    ensures var s1 := AddPersonPet(s, personId, petId, NoFault);
      && s1.outcome.Ok?
      && var s2 := RemovePersonPet(s1.store, personId, petId, NoFault);
      && s2.outcome.Ok?
      && s2.store.persons == s.persons && s2.store.pets == s.pets
      && multiset(s2.store.links) == multiset(s.links)
  {
    var key := Key(personId, petId);
    AddPersonPetAppends(s, personId, petId, NoFault);
    var s1 := AddPersonPet(s, personId, petId, NoFault).store;
    assert key in s1.links by {
      assert LinksOf(s1.links, personId)[|LinksOf(s.links, personId)|] == key;
    }
    RemovePersonPetErases(s1, personId, petId, NoFault);
  }

  /** After the same round trip every person reads back the links it had. */
  lemma AddThenRemoveReadsBack(s: Store, personId: Id, petId: Id, q: Id)
    requires Valid(s) && CanAdd(s, personId, petId)
    ensures var s1 := AddPersonPet(s, personId, petId, NoFault);
      var s2 := RemovePersonPet(s1.store, personId, petId, NoFault);
      LinksOf(s2.store.links, q) == LinksOf(s.links, q)
  {
    var key := Key(personId, petId);
    var before := LinksOf(s.links, personId);
    AddPersonPetAppends(s, personId, petId, NoFault);
    var s1 := AddPersonPet(s, personId, petId, NoFault).store;
    assert key in s1.links by {
      assert LinksOf(s1.links, personId)[|before|] == key;
    }
    if q == personId {
      RemovePersonPetErases(s1, personId, petId, NoFault);
      EraseAppended(before, key);
    } else {
      AddPersonPetKeepsOthers(s, personId, petId, NoFault, q);
      RemovePersonPetKeepsOthers(s1, personId, petId, NoFault, q);
    }
  }

  /** The list the service returns after an add ends with the new pet. */
  lemma ListAfterAdd(s: Store, personId: Id, petId: Id)
    requires Valid(s) && CanAdd(s, personId, petId)
    ensures var after := AddPersonPet(s, personId, petId, NoFault).store;
      RetrieveAllPersonPets(after, personId, NoFault)
        == Ok(PetIds(LinksOf(s.links, personId)) + [Some(petId)])
  {
    AddPersonPetAppends(s, personId, petId, NoFault);
    PetIdsAppend(LinksOf(s.links, personId), Key(personId, petId));
  }

  /** A first add to a person without pets. */
  lemma AddFirstPet(s: Store, personId: Id, a: Id, b: Id)
    requires Valid(s) && personId in s.persons && a in s.pets && a != b
    requires LinksOf(s.links, personId) == []
    ensures var r := AddPersonPet(s, personId, a, NoFault);
      && r.outcome.Ok? && Valid(r.store) && personId in r.store.persons && (b in r.store.pets <==> b in s.pets)
      && LinksOf(r.store.links, personId) == [Key(personId, a)]
      && Key(personId, b) !in r.store.links
  {
    var ka := Key(personId, a);
    var kb := Key(personId, b);
    assert ka !in LinksOf(s.links, personId);
    AddPersonPetAppends(s, personId, a, NoFault);
    var s1 := AddPersonPet(s, personId, a, NoFault).store;
    assert kb !in LinksOf(s1.links, personId);
  }

  /** A second add, of a pet the person does not have yet. */
  lemma AddSecondPet(s: Store, personId: Id, a: Id, b: Id)
    requires Valid(s) && personId in s.persons && b in s.pets
    requires LinksOf(s.links, personId) == [Key(personId, a)] && Key(personId, b) !in s.links
    ensures var r := AddPersonPet(s, personId, b, NoFault);
      && r.outcome.Ok? && Valid(r.store)
      && LinksOf(r.store.links, personId) == [Key(personId, a), Key(personId, b)]
  {
    AddPersonPetAppends(s, personId, b, NoFault);
  }

  /** The list a person with two links reads back. */
  lemma ListOfTwo(s: Store, personId: Id, a: Id, b: Id)
    requires LinksOf(s.links, personId) == [Key(personId, a), Key(personId, b)]
    ensures RetrieveAllPersonPets(s, personId, NoFault) == Ok([Some(a), Some(b)])
  {
    assert PetIds([Key(personId, a), Key(personId, b)]) == [Some(a), Some(b)];
  }

  /** The list a person with one link reads back. */
  lemma ListOfOne(s: Store, personId: Id, b: Id)
    requires LinksOf(s.links, personId) == [Key(personId, b)]
    ensures RetrieveAllPersonPets(s, personId, NoFault) == Ok([Some(b)])
  {
    assert PetIds([Key(personId, b)]) == [Some(b)];
  }

  /** Two adds to a person without pets: both succeed, in order. */
  lemma AddTwoPets(s: Store, personId: Id, a: Id, b: Id)
    requires Valid(s) && personId in s.persons && a in s.pets && b in s.pets && a != b
    requires LinksOf(s.links, personId) == []
    ensures var s1 := AddPersonPet(s, personId, a, NoFault);
      var s2 := AddPersonPet(s1.store, personId, b, NoFault);
      && s1.outcome.Ok? && s2.outcome.Ok? && Valid(s2.store)
      && LinksOf(s2.store.links, personId) == [Key(personId, a), Key(personId, b)]
      && RetrieveAllPersonPets(s2.store, personId, NoFault) == Ok([Some(a), Some(b)])
  {
    AddFirstPet(s, personId, a, b);
    var s1 := AddPersonPet(s, personId, a, NoFault).store;
    AddSecondPet(s1, personId, a, b);
    ListOfTwo(AddPersonPet(s1, personId, b, NoFault).store, personId, a, b);
  }

  /** Removing the first of two pets. */
  lemma RemoveFirstPet(s: Store, personId: Id, a: Id, b: Id)
    requires Valid(s) && personId in s.persons && a in s.pets && a != b
    requires LinksOf(s.links, personId) == [Key(personId, a), Key(personId, b)]
    ensures var r := RemovePersonPet(s, personId, a, NoFault);
      && r.outcome.Ok? && Valid(r.store) && r.store.persons == s.persons && r.store.pets == s.pets
      && LinksOf(r.store.links, personId) == [Key(personId, b)]
  {
    var ka := Key(personId, a);
    var kb := Key(personId, b);
    assert ka in LinksOf(s.links, personId);
    RemovePersonPetErases(s, personId, a, NoFault);
    EraseFirstOfTwo(ka, kb);
  }

  lemma EraseFirstOfTwo(ka: PersonPetId, kb: PersonPetId)
    requires ka != kb
    ensures Erase([ka, kb], ka) == [kb]
  {
    assert [ka, kb][1..] == [kb];
    EraseAbsent([kb], ka);
  }

  lemma EraseOnly(kb: PersonPetId)
    ensures Erase([kb], kb) == []
  {
  }

  /** Removing the last pet. */
  lemma RemoveLastPet(s: Store, personId: Id, b: Id)
    requires Valid(s) && personId in s.persons && b in s.pets
    requires LinksOf(s.links, personId) == [Key(personId, b)]
    ensures var r := RemovePersonPet(s, personId, b, NoFault);
      r.outcome.Ok? && LinksOf(r.store.links, personId) == []
  {
    var kb := Key(personId, b);
    assert kb in LinksOf(s.links, personId);
    RemovePersonPetErases(s, personId, b, NoFault);
    EraseOnly(kb);
  }

  /** Removing the two pets again, first a then b. */
  lemma RemoveTwoPets(s: Store, personId: Id, a: Id, b: Id)
    requires Valid(s) && personId in s.persons && a in s.pets && b in s.pets && a != b
    requires LinksOf(s.links, personId) == [Key(personId, a), Key(personId, b)]
    ensures var s3 := RemovePersonPet(s, personId, a, NoFault);
      var s4 := RemovePersonPet(s3.store, personId, b, NoFault);
      && s3.outcome.Ok? && s4.outcome.Ok?
      && RetrieveAllPersonPets(s3.store, personId, NoFault) == Ok([Some(b)])
      && RetrieveAllPersonPets(s4.store, personId, NoFault) == Ok([])
  {
    RemoveFirstPet(s, personId, a, b);
    var s3 := RemovePersonPet(s, personId, a, NoFault).store;
    RemoveLastPet(s3, personId, b);
    ListOfOne(s3, personId, b);
  }

  /** Linking two pets to a person without pets and unlinking them one by
      one lists [a, b], then [b], then nothing. */
  lemma LinkAndUnlinkTwoPets(s: Store, personId: Id, a: Id, b: Id)
    requires Valid(s) && personId in s.persons && a in s.pets && b in s.pets && a != b
    requires LinksOf(s.links, personId) == []
    ensures var s1 := AddPersonPet(s, personId, a, NoFault);
      var s2 := AddPersonPet(s1.store, personId, b, NoFault);
      var s3 := RemovePersonPet(s2.store, personId, a, NoFault);
      var s4 := RemovePersonPet(s3.store, personId, b, NoFault);
      && s1.outcome.Ok? && s2.outcome.Ok? && s3.outcome.Ok? && s4.outcome.Ok?
      && RetrieveAllPersonPets(s2.store, personId, NoFault) == Ok([Some(a), Some(b)])
      && RetrieveAllPersonPets(s3.store, personId, NoFault) == Ok([Some(b)])
      && RetrieveAllPersonPets(s4.store, personId, NoFault) == Ok([])
  {
    AddTwoPets(s, personId, a, b);
    var s2 := AddPersonPet(AddPersonPet(s, personId, a, NoFault).store, personId, b, NoFault).store;
    RemoveTwoPets(s2, personId, a, b);
  }

  /** Each conflict message names its ids unambiguously. */
  lemma AlreadyLinkedMessageNamesIds(p1: Id, q1: Id, p2: Id, q2: Id)
    requires AlreadyLinkedMessage(p1, q1) == AlreadyLinkedMessage(p2, q2)
    ensures p1 == p2 && q1 == q2
  {
    TwoIdMessageInjective("Person with id '", "' already has Pet with id '", "'", p1, q1, p2, q2);
  }

  lemma NotLinkedMessageNamesIds(p1: Id, q1: Id, p2: Id, q2: Id)
    requires NotLinkedMessage(p1, q1) == NotLinkedMessage(p2, q2)
    ensures p1 == p2 && q1 == q2
  {
    TwoIdMessageInjective("Person with id '", "' does not have Pet with id '", "'", p1, q1, p2, q2);
  }

  lemma AddRejectedMessageNamesIds(p1: Id, q1: Id, p2: Id, q2: Id)
    requires AddRejectedMessage(p1, q1) == AddRejectedMessage(p2, q2)
    ensures p1 == p2 && q1 == q2
  {
    TwoIdMessageInjective("Could not add pet with Id ", " to the person with Id ", ", db error", q1, p1, q2, p2);
  }

  lemma MissingMessagesNameIds(p1: Id, p2: Id)
    ensures PersonMissingMessage(p1) == PersonMissingMessage(p2) ==> p1 == p2
    ensures PetMissingMessage(p1) == PetMissingMessage(p2) ==> p1 == p2
    ensures PersonMissingMessage(p1) != PetMissingMessage(p2)
  {
    if PersonMissingMessage(p1) == PersonMissingMessage(p2) {
      OneIdMessageInjective("Person with id '", "' does not exist", p1, p2);
    }
    if PetMissingMessage(p1) == PetMissingMessage(p2) {
      OneIdMessageInjective("Pet with id '", "' does not exist", p1, p2);
    }
    assert PersonMissingMessage(p1)[2] == 'r';
    assert PetMissingMessage(p2)[2] == 't';
  }
}

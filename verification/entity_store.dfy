/** The relational store behind the repositories, as one immutable value:
    the person and pet tables keyed by id, the link table of composite keys,
    and the two identity counters. A write becomes visible only through Flush,
    which applies the table constraints (and whatever else the database
    reports, given as a fault) the way saveAndFlush does. */
module EntityStore {
  import opened JavaLang
  import opened PersonPetIds
  import opened PersonIdentity
  import Pets
  import Persons
  import PersonPets

  datatype Store = Store(
    persons: map<Id, Persons.Person>,
    pets: map<Id, Pets.Pet>,
    links: seq<PersonPetId>,
    nextPersonId: Id,
    nextPetId: Id)

  /** What the database reports on a write beyond the constraints modelled
      here: nothing, a data-integrity violation (a concurrent writer, say), or
      any other failure. */
  datatype StoreFault = NoFault | IntegrityFault | OtherFault

  datatype FlushError = IntegrityViolation | OtherFailure

  datatype Flushed = Committed(store: Store) | Rejected(error: FlushError)

  /** What a service call answers: a value, a conflict with its message, or
      an internal error. */
  datatype Outcome<+T> = Ok(value: T) | Conflict(message: string) | Internal

  /** A transaction's result: the store after it and its outcome. Every
      public service method is transactional, so a failed call hands back the
      store it started from. */
  datatype Step<+T> = Step(store: Store, outcome: Outcome<T>)

  /** A fresh database: no rows, identity columns starting at 1. */
  function Empty(): Store {
    Store(map[], map[], [], 1, 1)
  }

  /** The link-table key of a stored person and a stored pet. */
  function Key(personId: Id, petId: Id): PersonPetId {
    PersonPetId(Some(personId), Some(petId))
  }

  // ---------------------------------------------------------------------
  // Constraints and well-formedness
  // ---------------------------------------------------------------------

  /** Two different rows of the person table carry the same name pair. */
  predicate NameClash(persons: map<Id, Persons.Person>, a: Id, b: Id) {
    a in persons && b in persons && a != b && SameName(persons[a].Ref(), persons[b].Ref())
  }

  /** The unique constraint on (first_name, last_name). */
  predicate UniqueNames(persons: map<Id, Persons.Person>) {
    forall a, b {:trigger NameClash(persons, a, b)} | a in persons && b in persons :: !NameClash(persons, a, b)
  }

  /** The key occurs at most once in the link table. */
  predicate Once(links: seq<PersonPetId>, k: PersonPetId) {
    multiset(links)[k] <= 1
  }

  /** The primary key of the link table: (person_id, pet_id). */
  predicate UniqueLinks(links: seq<PersonPetId>) {
    forall k {:trigger Once(links, k)} | k in links :: Once(links, k)
  }

  /** The foreign keys of one link: both ends are stored rows. */
  predicate Resolves(s: Store, k: PersonPetId) {
    k.personId.Some? && k.personId.value in s.persons && k.petId.Some? && k.petId.value in s.pets
  }

  predicate LinksResolve(s: Store) {
    forall k {:trigger Resolves(s, k)} | k in s.links :: Resolves(s, k)
  }

  /** Everything the database checks when a write is flushed. */
  predicate Consistent(s: Store) {
    UniqueNames(s.persons) && UniqueLinks(s.links) && LinksResolve(s)
  }

  /** Rows are keyed by their own id, below the identity counter, hold no
      in-memory link state, and satisfy the field bounds. */
  predicate PersonRow(s: Store, k: Id) {
    && k in s.persons
    && s.persons[k].id == Some(k) && s.persons[k].personPets == []
    && k < s.nextPersonId && Persons.Valid(s.persons[k])
  }

  predicate PetRow(s: Store, k: Id) {
    && k in s.pets
    && s.pets[k].id == Some(k) && s.pets[k].personPet == None
    && k < s.nextPetId && Pets.Valid(s.pets[k])
  }

  predicate RowsWellFormed(s: Store) {
    && (forall k {:trigger PersonRow(s, k)} | k in s.persons :: PersonRow(s, k))
    && (forall k {:trigger PetRow(s, k)} | k in s.pets :: PetRow(s, k))
  }

  /** The store invariant every service call preserves. */
  predicate Valid(s: Store) {
    Consistent(s) && RowsWellFormed(s)
  }

  /** saveAndFlush / deleteById: the write is committed only when the
      database accepts it; a broken constraint is a data-integrity violation. */
  function Flush(after: Store, fault: StoreFault): (r: Flushed)
    ensures r.Committed? <==> Consistent(after) && fault == NoFault
    ensures r.Committed? ==> r.store == after
    ensures r == Rejected(OtherFailure) <==> Consistent(after) && fault == OtherFault
  {
    if !Consistent(after) then Rejected(IntegrityViolation)
    else
      match fault
      case NoFault => Committed(after)
      case IntegrityFault => Rejected(IntegrityViolation)
      case OtherFault => Rejected(OtherFailure)
  }

  // ---------------------------------------------------------------------
  // The link table seen per person
  // ---------------------------------------------------------------------

  /** findByPersonId: the person's links in table order. */
  function LinksOf(links: seq<PersonPetId>, personId: Id): (r: seq<PersonPetId>)
    ensures forall k :: k in r <==> k in links && k.personId == Some(personId)
    ensures |r| <= |links|
  {
    if links == [] then []
    else (if links[0].personId == Some(personId) then [links[0]] else []) + LinksOf(links[1..], personId)
  }

  /** The links of everybody else, in table order. */
  function LinksNotOf(links: seq<PersonPetId>, personId: Id): (r: seq<PersonPetId>)
    ensures forall k :: k in r <==> k in links && k.personId != Some(personId)
  {
    if links == [] then []
    else (if links[0].personId != Some(personId) then [links[0]] else []) + LinksNotOf(links[1..], personId)
  }

  lemma {:induction false} LinksOfConcat(a: seq<PersonPetId>, b: seq<PersonPetId>, personId: Id)
    ensures LinksOf(a + b, personId) == LinksOf(a, personId) + LinksOf(b, personId)
  {
    if a == [] {
      assert a + b == b;
    } else {
      assert (a + b)[1..] == a[1..] + b;
      LinksOfConcat(a[1..], b, personId);
    }
  }

  lemma {:induction false} LinksOfOwn(ks: seq<PersonPetId>, personId: Id)
    requires forall k | k in ks :: k.personId == Some(personId)
    ensures LinksOf(ks, personId) == ks
  {
    if ks != [] {
      LinksOfOwn(ks[1..], personId);
    }
  }

  lemma {:induction false} LinksOfForeign(ks: seq<PersonPetId>, personId: Id)
    requires forall k | k in ks :: k.personId != Some(personId)
    ensures LinksOf(ks, personId) == []
  {
    if ks != [] {
      LinksOfForeign(ks[1..], personId);
    }
  }

  /** Under the link table's primary key a person's links are distinct too. */
  lemma LinksOfUnique(links: seq<PersonPetId>, personId: Id, key: PersonPetId)
    requires UniqueLinks(links) && key in LinksOf(links, personId)
    ensures multiset(LinksOf(links, personId))[key] == 1
  {
    SplitByPerson(links, personId);
    assert key in links;
    assert Once(links, key);
  }

  /** Setting one person's links aside does not change anybody else's. */
  lemma {:induction false} LinksOfOthers(links: seq<PersonPetId>, personId: Id, other: Id)
    requires other != personId
    ensures LinksOf(LinksNotOf(links, personId), other) == LinksOf(links, other)
  {
    if links != [] {
      LinksOfOthers(links[1..], personId, other);
      var head := if links[0].personId != Some(personId) then [links[0]] else [];
      LinksOfConcat(head, LinksNotOf(links[1..], personId), other);
    }
  }

  /** One step of the two selections: the head goes to exactly one side. */
  lemma SplitHead(links: seq<PersonPetId>, personId: Id)
    requires links != []
    ensures var mine := if links[0].personId == Some(personId) then [links[0]] else [];
      var others := if links[0].personId != Some(personId) then [links[0]] else [];
      && LinksOf(links, personId) == mine + LinksOf(links[1..], personId)
      && LinksNotOf(links, personId) == others + LinksNotOf(links[1..], personId)
      && multiset(others) + multiset(mine) == multiset{links[0]}
  {
  }

  lemma MultisetOfCons<T>(xs: seq<T>)
    requires xs != []
    ensures multiset(xs) == multiset{xs[0]} + multiset(xs[1..])
  {
    assert xs == [xs[0]] + xs[1..];
  }

  lemma RegroupCounts<T>(all: multiset<T>, rest: multiset<T>, head: multiset<T>,
                         mine: multiset<T>, others: multiset<T>, restMine: multiset<T>, restOthers: multiset<T>)
    requires all == head + rest && restOthers + restMine == rest && others + mine == head
    ensures (others + restOthers) + (mine + restMine) == all
  {
  }

  /** A person's links and everybody else's links together are the table. */
  lemma {:induction false} SplitByPerson(links: seq<PersonPetId>, personId: Id)
    ensures multiset(LinksNotOf(links, personId)) + multiset(LinksOf(links, personId)) == multiset(links)
  {
    if links != [] {
      var rest := links[1..];
      SplitByPerson(rest, personId);
      SplitHead(links, personId);
      var mine := if links[0].personId == Some(personId) then [links[0]] else [];
      var others := if links[0].personId != Some(personId) then [links[0]] else [];
      MultisetOfCons(links);
      RegroupCounts(multiset(links), multiset(rest), multiset{links[0]}, multiset(mine), multiset(others),
                    multiset(LinksOf(rest, personId)), multiset(LinksNotOf(rest, personId)));
    }
  }

  /** The table with one person's links moved to the end and replaced by `ks`. */
  function Relink(links: seq<PersonPetId>, personId: Id, ks: seq<PersonPetId>): seq<PersonPetId> {
    LinksNotOf(links, personId) + ks
  }

  /** Relinking a person with keys of that person: the person now reads back
      `ks`, every other person reads back what it had. */
  lemma RelinkReadBack(links: seq<PersonPetId>, personId: Id, ks: seq<PersonPetId>)
    requires forall k | k in ks :: k.personId == Some(personId)
    ensures LinksOf(Relink(links, personId, ks), personId) == ks
    ensures forall other :: other != personId ==>
      LinksOf(Relink(links, personId, ks), other) == LinksOf(links, other)
    ensures multiset(Relink(links, personId, ks)) + multiset(LinksOf(links, personId))
      == multiset(links) + multiset(ks)
  {
    var rest := LinksNotOf(links, personId);
    LinksOfConcat(rest, ks, personId);
    LinksOfForeign(rest, personId);
    LinksOfOwn(ks, personId);
    forall other | other != personId
      ensures LinksOf(Relink(links, personId, ks), other) == LinksOf(links, other)
    {
      LinksOfConcat(rest, ks, other);
      LinksOfForeign(ks, other);
      LinksOfOthers(links, personId, other);
    }
    SplitByPerson(links, personId);
  }

  /** The keys without any occurrence of `key`, in order. */
  function Erase(ks: seq<PersonPetId>, key: PersonPetId): (r: seq<PersonPetId>)
    ensures forall k :: k in r <==> k in ks && k != key
  {
    if ks == [] then []
    else (if ks[0] != key then [ks[0]] else []) + Erase(ks[1..], key)
  }

  lemma {:induction false} EraseAbsent(ks: seq<PersonPetId>, key: PersonPetId)
    requires key !in ks
    ensures Erase(ks, key) == ks
  {
    if ks != [] {
      EraseAbsent(ks[1..], key);
    }
  }

  lemma {:induction false} EraseAppended(ks: seq<PersonPetId>, key: PersonPetId)
    requires key !in ks
    ensures Erase(ks + [key], key) == ks
  {
    if ks == [] {
      assert Erase([key], key) == [] + Erase([], key);
    } else {
      assert (ks + [key])[1..] == ks[1..] + [key];
      EraseAppended(ks[1..], key);
    }
  }

  /** Erasing a key that occurs once removes exactly its position. */
  lemma {:induction false} EraseOnce(ks: seq<PersonPetId>, i: nat)
    requires i < |ks| && multiset(ks)[ks[i]] == 1
    ensures Erase(ks, ks[i]) == ks[..i] + ks[i + 1..]
  {
    var key := ks[i];
    assert ks == [ks[0]] + ks[1..];
    if i == 0 {
      assert multiset(ks[1..])[key] == 0;
      EraseAbsent(ks[1..], key);
    } else {
      assert ks[0] != key;
      assert ks[1..][i - 1] == key;
      assert multiset(ks[1..])[key] == 1;
      EraseOnce(ks[1..], i - 1);
      assert ks[..i] + ks[i + 1..] == [ks[0]] + (ks[1..][..i - 1] + ks[1..][i..]);
    }
  }

  /** Erasing a key that occurs once takes one copy out of the multiset. */
  lemma EraseUnique(ks: seq<PersonPetId>, key: PersonPetId)
    requires multiset(ks)[key] == 1
    ensures multiset(Erase(ks, key)) == multiset(ks) - multiset{key}
  {
    assert key in ks;
    var i :| 0 <= i < |ks| && ks[i] == key;
    EraseOnce(ks, i);
    DeleteAt(ks, i);
  }

  lemma DeleteAt(ks: seq<PersonPetId>, i: nat)
    requires i < |ks|
    ensures multiset(ks[..i] + ks[i + 1..]) == multiset(ks) - multiset{ks[i]}
  {
    assert ks == ks[..i] + [ks[i]] + ks[i + 1..];
  }

  // ---------------------------------------------------------------------
  // Loading and saving a person aggregate
  // ---------------------------------------------------------------------

  /** The pet object a loaded link points at, its back-reference set to the link. */
  function PetFor(s: Store, k: PersonPetId): Option<Pets.Pet> {
    if k.petId.Some? && k.petId.value in s.pets then Some(s.pets[k.petId.value].(personPet := Some(k)))
    else None
  }

  function LinkObjects(s: Store, owner: PersonRef, keys: seq<PersonPetId>): (r: seq<PersonPets.PersonPet>)
    ensures |r| == |keys|
    ensures forall i :: 0 <= i < |r| ==> r[i] == PersonPets.PersonPet(keys[i], owner, PetFor(s, keys[i]))
  {
    seq(|keys|, i requires 0 <= i < |keys| => PersonPets.PersonPet(keys[i], owner, PetFor(s, keys[i])))
  }

  /** The keys a person's link collection is written back under. */
  function KeysOf(links: seq<PersonPets.PersonPet>): (r: seq<PersonPetId>)
    ensures |r| == |links|
    ensures forall i :: 0 <= i < |r| ==> r[i] == links[i].id
  {
    seq(|links|, i requires 0 <= i < |links| => links[i].id)
  }

  /** personRepository.findById: the row with its link collection filled in. */
  function Load(s: Store, personId: Id): (p: Persons.Person)
    requires personId in s.persons
    ensures p.(personPets := []) == s.persons[personId].(personPets := [])
    ensures KeysOf(p.personPets) == LinksOf(s.links, personId)
  {
    var row := s.persons[personId];
    row.(personPets := LinkObjects(s, row.Ref(), LinksOf(s.links, personId)))
  }

  lemma KeysOfDelete(links: seq<PersonPets.PersonPet>, i: nat)
    requires i < |links|
    ensures KeysOf(links[..i] + links[i + 1..]) == KeysOf(links)[..i] + KeysOf(links)[i + 1..]
  {
  }

  /** personRepository.saveAndFlush(person) before the constraints are
      checked: the row is rewritten and the link table follows the collection
      (new links inserted, orphans removed). */
  function SaveAggregate(s: Store, p: Persons.Person, personId: Id): Store {
    s.(persons := s.persons[personId := p.(personPets := [])],
       links := Relink(s.links, personId, KeysOf(p.personPets)))
  }

  /** Saving an aggregate that carries the stored row's fields rewrites only
      the link table. */
  lemma SaveKeepsRows(s: Store, p: Persons.Person, personId: Id)
    requires RowsWellFormed(s) && personId in s.persons
    requires p.(personPets := []) == s.persons[personId].(personPets := [])
    ensures SaveAggregate(s, p, personId) == s.(links := Relink(s.links, personId, KeysOf(p.personPets)))
  {
    assert PersonRow(s, personId);
    assert s.persons[personId].(personPets := []) == s.persons[personId];
    assert s.persons[personId := p.(personPets := [])] == s.persons;
  }

  /** Adding one new link between stored rows keeps the constraints. */
  lemma InsertKeepsConsistent(s: Store, links: seq<PersonPetId>, key: PersonPetId)
    requires Consistent(s) && key !in s.links
    requires key.personId.Some? && key.personId.value in s.persons
    requires key.petId.Some? && key.petId.value in s.pets
    requires multiset(links) == multiset(s.links) + multiset{key}
    ensures Consistent(s.(links := links))
  {
    var t := s.(links := links);
    forall k | k in links
      ensures Once(links, k) && Resolves(t, k)
    {
      assert k in multiset(links);
      if k != key {
        assert k in multiset(s.links);
        assert Once(s.links, k) && Resolves(s, k);
      } else {
        assert multiset(s.links)[key] == 0;
      }
    }
  }

  /** Dropping a link keeps the constraints. */
  lemma DeleteKeepsConsistent(s: Store, links: seq<PersonPetId>, key: PersonPetId)
    requires Consistent(s)
    requires multiset(links) == multiset(s.links) - multiset{key}
    ensures Consistent(s.(links := links))
    ensures key !in links
  {
    var t := s.(links := links);
    forall k | k in links
      ensures Once(links, k) && Resolves(t, k)
    {
      assert k in multiset(links);
      assert k in multiset(s.links);
      assert Once(s.links, k) && Resolves(s, k);
    }
    if key in s.links {
      assert Once(s.links, key);
    }
    assert multiset(links)[key] == 0;
  }

  lemma CancelAdded(links: multiset<PersonPetId>, mine: multiset<PersonPetId>, all: multiset<PersonPetId>,
                    ks: multiset<PersonPetId>, key: PersonPetId)
    requires links + mine == all + ks
    requires ks == mine + multiset{key}
    ensures links == all + multiset{key}
  {
    forall y
      ensures links[y] == (all + multiset{key})[y]
    {
      assert (links + mine)[y] == (all + ks)[y];
    }
  }

  lemma CancelErased(links: multiset<PersonPetId>, mine: multiset<PersonPetId>, all: multiset<PersonPetId>,
                     ks: multiset<PersonPetId>, key: PersonPetId)
    requires links + mine == all + ks
    requires ks == mine - multiset{key} && key in mine
    ensures links == all - multiset{key}
  {
    forall y
      ensures links[y] == (all - multiset{key})[y]
    {
      assert (links + mine)[y] == (all + ks)[y];
    }
  }

  /** A person's links rewritten with one new key at the end. */
  lemma RelinkAppended(s: Store, personId: Id, key: PersonPetId)
    requires Consistent(s) && key !in s.links && key.personId == Some(personId) && personId in s.persons
    requires key.petId.Some? && key.petId.value in s.pets
    ensures var links := Relink(s.links, personId, LinksOf(s.links, personId) + [key]);
      && Consistent(s.(links := links))
      && LinksOf(links, personId) == LinksOf(s.links, personId) + [key]
      && (forall other :: other != personId ==> LinksOf(links, other) == LinksOf(s.links, other))
      && multiset(links) == multiset(s.links) + multiset{key}
  {
    var before := LinksOf(s.links, personId);
    var ks := before + [key];
    RelinkReadBack(s.links, personId, ks);
    var links := Relink(s.links, personId, ks);
    CancelAdded(multiset(links), multiset(before), multiset(s.links), multiset(ks), key);
    InsertKeepsConsistent(s, links, key);
  }

  /** A person's links rewritten without one of its keys. */
  lemma RelinkErased(s: Store, personId: Id, key: PersonPetId)
    requires Consistent(s) && key in s.links && key.personId == Some(personId)
    ensures var links := Relink(s.links, personId, Erase(LinksOf(s.links, personId), key));
      && Consistent(s.(links := links))
      && key !in links
      && LinksOf(links, personId) == Erase(LinksOf(s.links, personId), key)
      && (forall other :: other != personId ==> LinksOf(links, other) == LinksOf(s.links, other))
      && multiset(links) == multiset(s.links) - multiset{key}
  {
    var before := LinksOf(s.links, personId);
    LinksOfUnique(s.links, personId, key);
    EraseUnique(before, key);
    var ks := Erase(before, key);
    RelinkReadBack(s.links, personId, ks);
    var links := Relink(s.links, personId, ks);
    assert key in before;
    CancelErased(multiset(links), multiset(before), multiset(s.links), multiset(ks), key);
    DeleteKeepsConsistent(s, links, key);
  }

  // ---------------------------------------------------------------------
  // Full scans
  // ---------------------------------------------------------------------

  /** The ids of a table in [lo, hi), ascending: the order rows with identity
      keys are scanned in. */
  function IdsBetween<T>(m: map<Id, T>, lo: nat, hi: nat): (r: seq<Id>)
    ensures forall i :: 0 <= i < |r| ==> lo <= r[i] < hi
    ensures forall i, j :: 0 <= i < j < |r| ==> r[i] < r[j]
    ensures forall k :: k in r <==> k in m && lo <= k < hi
    decreases hi - lo
  {
    if lo >= hi then []
    else (if lo in m then [lo] else []) + IdsBetween(m, lo + 1, hi)
  }

  function Rows<T>(m: map<Id, T>, ids: seq<Id>): (r: seq<T>)
    requires forall k | k in ids :: k in m
    ensures |r| == |ids|
    ensures forall i :: 0 <= i < |r| ==> r[i] == m[ids[i]]
  {
    seq(|ids|, i requires 0 <= i < |ids| => m[ids[i]])
  }

  /** findAll on the person table. */
  function PersonRows(s: Store): seq<Persons.Person> {
    Rows(s.persons, IdsBetween(s.persons, 0, s.nextPersonId))
  }

  /** findAll on the pet table. */
  function PetRows(s: Store): seq<Pets.Pet> {
    Rows(s.pets, IdsBetween(s.pets, 0, s.nextPetId))
  }

  /** In a well-formed store the scans list every row and nothing else. */
  lemma ScansListEveryRow(s: Store)
    requires RowsWellFormed(s)
    ensures forall p :: p in PersonRows(s) <==> exists k :: k in s.persons && s.persons[k] == p
    ensures forall p :: p in PetRows(s) <==> exists k :: k in s.pets && s.pets[k] == p
  {
    var personIds := IdsBetween(s.persons, 0, s.nextPersonId);
    forall p | p in PersonRows(s)
      ensures exists k :: k in s.persons && s.persons[k] == p
    {
      var i :| 0 <= i < |PersonRows(s)| && PersonRows(s)[i] == p;
      assert personIds[i] in s.persons;
    }
    forall p | exists k :: k in s.persons && s.persons[k] == p
      ensures p in PersonRows(s)
    {
      var k :| k in s.persons && s.persons[k] == p;
      assert PersonRow(s, k);
      assert k in personIds;
      var i :| 0 <= i < |personIds| && personIds[i] == k;
      assert PersonRows(s)[i] == p;
    }
    var petIds := IdsBetween(s.pets, 0, s.nextPetId);
    forall p | p in PetRows(s)
      ensures exists k :: k in s.pets && s.pets[k] == p
    {
      var i :| 0 <= i < |PetRows(s)| && PetRows(s)[i] == p;
      assert petIds[i] in s.pets;
    }
    forall p | exists k :: k in s.pets && s.pets[k] == p
      ensures p in PetRows(s)
    {
      var k :| k in s.pets && s.pets[k] == p;
      assert PetRow(s, k);
      assert k in petIds;
      var i :| 0 <= i < |petIds| && petIds[i] == k;
      assert PetRows(s)[i] == p;
    }
  }

  /** A store whose tables did not change and whose write was accepted is
      again valid. */
  lemma ValidAfterCommit(s: Store, after: Store)
    requires Valid(s) && Consistent(after)
    requires after.persons == s.persons && after.pets == s.pets
    requires after.nextPersonId == s.nextPersonId && after.nextPetId == s.nextPetId
    ensures Valid(after)
  {
    forall k | k in after.persons
      ensures PersonRow(after, k)
    {
      assert PersonRow(s, k);
    }
    forall k | k in after.pets
      ensures PetRow(after, k)
    {
      assert PetRow(s, k);
    }
  }
}

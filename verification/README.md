# pepe-app core, modelled in Dafny

pepe-app is a small Spring service that keeps persons and pets and lets a person
own pets. This project models the core beneath its HTTP layer:

- the entities: `Person`, `Pet`, the link `PersonPet` and its composite key `PersonPetId`;
- the search-predicate builder `PersonSpecificationBuilder`, with its input `PersonSearchCriteria`;
- the three transactional services `PersonService`, `PetService` and `PersonPetService`.

The database behind the repositories is one immutable value, `EntityStore.Store`. It holds:

- a person table and a pet table, keyed by id;
- the link table, an ordered sequence of `(personId, petId)` keys;
- the two identity counters.

`EntityStore.Flush` models `saveAndFlush`. It checks the table constraints:

- unique `(first_name, last_name)`;
- the primary key of the link table;
- the foreign keys of a link.

It also takes a `StoreFault` parameter that stands for whatever else the database
may report. Every service call is a pure function. It returns a `Step`: the store
afterwards and an `Outcome`, which is `Ok(value)`, `Conflict(message)` or
`Internal`. Every public method is `@Transactional`, so a failed call hands back
the store it started from.

A person aggregate is loaded from the tables with `EntityStore.Load`. The service
changes it with `Person.addPet` / `removePet`, and it is written back with
`EntityStore.SaveAggregate`. Links are identified by their composite key, never by
object identity. `personPet.getPet() == pet` is therefore read as "the link's pet
carries this pet's id".

Modules, one per source concept:

| file | module | models |
|---|---|---|
| java_lang.dfy | JavaLang | `Optional`/nullable values, `Objects.hash`, `String.hashCode`, decimal printing of ids |
| person_pet_id.dfy | PersonPetIds | `PersonPetId` |
| person_identity.dfy | PersonIdentity | the name part of `Person` that links and `equals` read, `createFullName` |
| pet.dfy | Pets | `Pet` |
| person_pet.dfy | PersonPets | `PersonPet` |
| person.dfy | Persons | `Person` |
| entity_store.dfy | EntityStore | the tables, their constraints, loading and saving an aggregate, scans |
| person_specification.dfy | PersonSpecification | `PersonSearchCriteria`, `PersonSpecificationBuilder` |
| person_service.dfy | PersonService | `PersonService` |
| pet_service.dfy | PetService | `PetService` |
| person_pet_service.dfy | PersonPetService | `PersonPetService` |

## Model

| member | source | states |
|---|---|---|
| PersonPetIds.EqualsContract | src/main/java/org/dmship/model/PersonPetId.java:25-39 | a key never equals null or another class; equality is reflexive and symmetric; two keys are equal exactly when both ids are equal; equal keys hash alike |
| PersonIdentity.CreateFullName | src/main/java/org/dmship/model/Person.java:43-45 | the full name is the first name, one space, then the last name, recoverable by position |
| PersonIdentity.SameNameSameHash | src/main/java/org/dmship/model/Person.java:62-65 | persons with equal name pairs have equal full names and hash codes |
| PersonIdentity.FullNameIsAmbiguous | src/main/java/org/dmship/model/Person.java:43-65 | two different name pairs can share one full name, so the hash and the create-conflict message cannot tell them apart while equals can |
| Pets.New | src/main/java/org/dmship/model/Pet.java:39-42 | the constructor sets name and age and leaves the id and the link unset |
| Pets.Update | src/main/java/org/dmship/model/Pet.java:44-47 | update copies name and age and keeps the id and the link back-reference |
| Pets.EqualsContract | src/main/java/org/dmship/model/Pet.java:55-69 | pets are equal exactly when their names are equal (id and age ignored), never equal to null or another class, symmetric, and equal pets hash alike |
| Pets.SameNameDifferentPetsAreEqual | src/main/java/org/dmship/model/Pet.java:55-64 | two pets with different ids and ages are equal when they share a name |
| Pets.UpdateAdoptsSource | src/main/java/org/dmship/model/Pet.java:31-47 | an updated pet equals its source, shows the source's fields, is idempotent, and stays within the field bounds when the source does |
| Pets.FromDtoRoundTrip | src/main/java/org/dmship/model/Pet.java:39-42 | a pet built from a request shows exactly the request's fields and has no id |
| PersonPets.New | src/main/java/org/dmship/model/PersonPet.java:29-33 | the constructor binds person and pet and derives the key (person.id, pet.id) |
| PersonPets.SetPet | src/main/java/org/dmship/model/PersonPet.java:61-67 | setPet clears the previous pet's back-reference, then replaces the pet; key and person stay |
| PersonPets.SetPetRoundTrip | src/main/java/org/dmship/model/PersonPet.java:61-67 | severing a link and putting its pet back restores the link |
| PersonPets.EqualsContract | src/main/java/org/dmship/model/PersonPet.java:43-59 | links are equal exactly when their persons have equal names and their pets equal names (or both are null); the key is not compared; equal links hash alike |
| PersonPets.EqualLinksMayHaveDifferentKeys | src/main/java/org/dmship/model/PersonPet.java:17-54 | two links with different keys can be equal, so link equality is not key identity |
| Persons.EqualsContract | src/main/java/org/dmship/model/Person.java:51-65 | persons are equal exactly when first and last names are equal (id, birth date, address, links ignored), never equal to null or another class, symmetric, and equal persons hash alike |
| Persons.IndexOfPet | src/main/java/org/dmship/model/Person.java:76-79 | the position the removal loop stops at: the first link holding the pet, or none when no link holds it |
| Persons.AddPet | src/main/java/org/dmship/model/Person.java:67-71 | addPet appends exactly one link binding this person and the pet, returns it, and leaves earlier links and all other fields unchanged |
| Persons.AddPetHasNoDuplicateCheck | src/main/java/org/dmship/model/Person.java:67-71 | adding the same pet twice leaves two links with one key |
| Persons.RemovePetFrom | src/main/java/org/dmship/model/Person.java:76-87 | the iterator loop removes the first link holding the pet and keeps the others in order; with no match it returns the last link it visited |
| Persons.RemovePet | src/main/java/org/dmship/model/Person.java:73-88 | removePet as written: the first holding link has its pet cleared and is removed, the rest keep their order; with no match the list is unchanged and the last link (null for an empty list) is returned |
| Persons.RemovePetReturnsUnrelatedLink | src/main/java/org/dmship/model/Person.java:73-88 | a person whose only link holds another pet gets that link back from removePet although nothing was removed |
| Persons.DetachPet | src/main/java/org/dmship/model/Person.java:73-88 | the intended removal: nothing is returned exactly when no link holds the pet; otherwise the first holding link is removed with its pet cleared and the rest keep their order |
| Persons.DetachAgreesWithRemovePet | src/main/java/org/dmship/model/Person.java:73-88 | when the pet is linked, the intended and the written removal give the same result |
| Persons.AddThenDetach | src/main/java/org/dmship/model/Person.java:67-88 | adding a pet that was not linked and then removing it gives back the person as before |
| Persons.Update | src/main/java/org/dmship/model/Person.java:90-92 | update sets the address and changes nothing else |
| Persons.UpdateKeepsIdentity | src/main/java/org/dmship/model/Person.java:51-65 | an updated person equals itself before the update, keeps its hash, and a repeated update changes nothing |
| EntityStore.Flush | src/main/java/org/dmship/services/PersonPetService.java:65-88 | a write is committed exactly when the constraints hold and the database reports nothing; a broken constraint is an integrity violation; another failure is reported only for a consistent write |
| EntityStore.LinksOf | src/main/java/org/dmship/repository/PersonPetRepository.java:17 | findByPersonId holds exactly the person's keys of the link table |
| EntityStore.LinksOfConcat | src/main/java/org/dmship/repository/PersonPetRepository.java:17 | selecting a person's links distributes over concatenation, so table order is kept |
| EntityStore.LinksOfUnique | src/main/java/org/dmship/model/PersonPet.java:17-18 | under the link table's primary key, a person's key occurs once among its links |
| EntityStore.RelinkReadBack | src/main/java/org/dmship/model/Person.java:38-41 | writing a person's link collection back makes that person read back exactly it and leaves every other person's links unchanged |
| EntityStore.EraseOnce | src/main/java/org/dmship/model/Person.java:76-83 | removing a key that occurs once removes the element at its position and keeps the rest in order |
| EntityStore.EraseUnique | src/main/java/org/dmship/model/Person.java:76-83 | removing a key that occurs once takes exactly one occurrence out of the multiset |
| EntityStore.Load | src/main/java/org/dmship/services/PersonPetService.java:45 | a loaded person carries the stored row's fields, and its links carry exactly the person's keys in table order |
| EntityStore.SaveKeepsRows | src/main/java/org/dmship/services/PersonPetService.java:68 | saving an aggregate that carries the stored fields rewrites only the link table |
| EntityStore.RelinkAppended | src/main/java/org/dmship/services/PersonPetService.java:63-68 | writing back a person with one new key keeps the store consistent, adds the key at the end of the person's links, and leaves other persons unchanged |
| EntityStore.RelinkErased | src/main/java/org/dmship/services/PersonPetService.java:118-123 | writing back a person with one key erased keeps the store consistent, removes the key, and leaves other persons unchanged |
| EntityStore.IdsBetween | src/main/java/org/dmship/services/PetService.java:174 | the identity keys of a table in a range, ascending, each listed exactly when it is a row |
| EntityStore.ScansListEveryRow | src/main/java/org/dmship/services/PetService.java:174 | in a well-formed store, findAll lists every stored row and nothing else |
| EntityStore.ValidAfterCommit | src/main/java/org/dmship/services/PersonPetService.java:68 | a committed write that changed only the link table leaves the store valid |
| PersonSpecification.EqualTo | domain/src/main/java/org/dmship/model/PersonSpecificationBuilder.java:14-36 | a null or empty filter builds no predicate; a present one builds a predicate that holds exactly for the persons whose attribute equals the value |
| PersonSpecification.FirstNameEqualTo | domain/src/main/java/org/dmship/model/PersonSpecificationBuilder.java:14-24 | a person matches exactly when the filter is absent or the first name equals it |
| PersonSpecification.LastNameEqualTo | domain/src/main/java/org/dmship/model/PersonSpecificationBuilder.java:26-36 | a person matches exactly when the filter is absent or the last name equals it |
| PersonSpecification.AndSpec | domain/src/main/java/org/dmship/model/PersonSpecificationBuilder.java:9-12 | combining two specifications matches exactly the persons both match, and builds no predicate only when neither side has one |
| PersonSpecification.SearchIsConjunction | domain/src/main/java/org/dmship/model/PersonSpecificationBuilder.java:9-36 | the search predicate is the conjunction of the first-name and the last-name filters, each an equality when present |
| PersonSpecification.AbsentFiltersSelectAll | domain/src/main/java/org/dmship/model/PersonSearchCriteria.java:9-19 | criteria without a present filter build no predicate, and every person matches |
| PersonSpecification.NullFilterIsEmptyFilter | domain/src/main/java/org/dmship/model/PersonSpecificationBuilder.java:14-36 | a null Optional filters exactly like an empty one |
| PersonSpecification.EmptyStringIsAFilter | domain/src/main/java/org/dmship/model/PersonSpecificationBuilder.java:19-23 | a present empty string is a real filter: it excludes a person with a non-empty first name |
| PersonSpecification.SearchReadsNamesOnly | domain/src/main/java/org/dmship/model/PersonSpecificationBuilder.java:9-36 | persons equal under Person.equals are selected together |
| PersonService.FindById | src/main/java/org/dmship/services/PersonService.java:30-39 | findById is empty exactly for an unknown id, and otherwise shows the stored person's fields |
| PersonService.CreatePerson | src/main/java/org/dmship/services/PersonService.java:41-67 | a failed create leaves the store unchanged; a conflict carries the "same name" message with the full name; a success returns the next identity and inserts the request's fields under it; an internal error comes only from another failure |
| PersonService.CreatePersonOutcome | src/main/java/org/dmship/services/PersonService.java:41-67 | on a valid store, create conflicts exactly when the name pair is taken or the database reports a violation, and fails internally exactly on another failure |
| PersonService.CreateClassified | src/main/java/org/dmship/services/PersonService.java:41-67 | the same classification of a create, on any store that keeps the name constraint and whose next identity value is unused |
| PersonService.CreatePersonKeepsValid | src/main/java/org/dmship/services/PersonService.java:41-67 | a successful create hands out an id no stored person had and, for a request within the field bounds, keeps the store valid |
| PersonService.NextPersonIdFresh | src/main/java/org/dmship/model/Person.java:20-22 | the identity value about to be generated is not in use in a well-formed store |
| PersonService.InsertConsistentIff | src/main/java/org/dmship/model/Person.java:12-14 | a new person row keeps the store consistent exactly when no stored person has its name pair |
| PersonService.CreateThenFind | src/main/java/org/dmship/services/PersonService.java:30-67 | findById on a created person's id yields the four fields it was created with |
| PersonService.CreateSameNameTwice | src/main/java/org/dmship/services/PersonService.java:49-56 | creating the same name pair again is refused with the "same name" message and leaves the store unchanged |
| PersonService.UpdatePerson | src/main/java/org/dmship/services/PersonService.java:69-103 | an unknown id gives the "not found" conflict; a success replaces only the address of that person; a conflict carries the update message with the person's full name; a failure leaves the store unchanged |
| PersonService.UpdatePersonOutcome | src/main/java/org/dmship/services/PersonService.java:78-102 | on a stored person, update succeeds exactly without a database fault, conflicts exactly on an integrity report, afterwards reads back with only the address changed, and keeps the store valid |
| PersonService.ReplaceKeepsConsistent | src/main/java/org/dmship/services/PersonService.java:78-85 | rewriting a person row without changing its names keeps the store consistent |
| PersonService.UpdatePersonIdempotent | src/main/java/org/dmship/services/PersonService.java:69-103 | repeating a successful update leaves the store as the first one left it |
| PersonService.RetrievePerson | src/main/java/org/dmship/services/PersonService.java:105-125 | retrievePerson agrees with findById, and a missing id gives the "not found" conflict |
| PersonService.Select | src/main/java/org/dmship/services/PersonService.java:134-137 | the query keeps exactly the scanned rows that the predicate admits |
| PersonService.RetrievePersons | src/main/java/org/dmship/services/PersonService.java:127-149 | the search fails internally exactly on a database fault, never conflicts, and answers at most the stored persons |
| PersonService.RetrievePersonsSelects | src/main/java/org/dmship/services/PersonService.java:127-149 | the search answers every stored person the criteria admit, and only such persons |
| PersonService.EmptyCriteriaListAll | src/test/java/org/dmship/services/PersonServiceTest.java:91-99 | criteria without filters list every stored person in scan order |
| PersonService.ScanHasDistinctNames | src/main/java/org/dmship/model/Person.java:12-14 | in a valid store, the person scan lists each name pair at most once |
| PersonService.SelectByFullName | src/main/java/org/dmship/services/PersonService.java:134-137 | among rows with distinct name pairs, a search on both names selects at most one |
| PersonService.FullNameSearchFindsAtMostOne | src/test/java/org/dmship/services/PersonServiceTest.java:219-228 | a search on both names answers at most one person, and exactly one when that name pair is stored |
| PersonService.NotFoundMessageNamesId | src/main/java/org/dmship/services/PersonService.java:73-75 | the "not found" message names its id unambiguously |
| PetService.FindById | src/main/java/org/dmship/services/PetService.java:29-38 | findById is empty exactly for an unknown id, and otherwise shows the stored pet's fields |
| PetService.CreatePet | src/main/java/org/dmship/services/PetService.java:40-66 | a failed create leaves the store unchanged; a conflict carries the "same name" message; a success returns the next identity and inserts the request's fields under it |
| PetService.CreatePetOutcome | src/main/java/org/dmship/services/PetService.java:40-66 | on a valid store, create succeeds exactly without a database fault and conflicts only on an integrity report, since names are free; the new id was unused, reads back with the request's fields, and the store stays valid |
| PetService.WritePetKeepsConsistent | src/main/java/org/dmship/model/Pet.java:20-37 | writing a pet row never breaks a constraint, because pet names carry no uniqueness |
| PetService.CreateSameNameTwice | src/main/java/org/dmship/services/PetService.java:40-66 | two creates with one name both succeed, under different ids, and both read back |
| PetService.UpdatePet | src/main/java/org/dmship/services/PetService.java:68-102 | an unknown id gives the "not found" conflict; a success replaces name and age of that pet only; a failure leaves the store unchanged |
| PetService.UpdatePetOutcome | src/main/java/org/dmship/services/PetService.java:77-101 | on a stored pet, update succeeds exactly without a fault, conflicts exactly on an integrity report, reads back with the request's fields, keeps the id, and keeps the store valid |
| PetService.DeletePet | src/main/java/org/dmship/services/PetService.java:104-135 | an unknown id gives the "not found" conflict; a store refusal gives "Could not delete pet with id 'X'"; a success removes exactly that row |
| PetService.DeleteConsistentIff | src/main/java/org/dmship/services/PetService.java:113-126 | removing a pet row keeps the store consistent exactly when no link refers to the pet |
| PetService.DeletePetOutcome | src/main/java/org/dmship/services/PetService.java:104-135 | on a stored pet, delete conflicts exactly when a link still refers to it or the database reports a violation; afterwards findById is empty, other pets read as before, and the store is valid |
| PetService.RetrievePet | src/main/java/org/dmship/services/PetService.java:137-167 | retrievePet agrees with findById, and a missing id gives the "not found" conflict |
| PetService.RetrieveAllPets | src/main/java/org/dmship/services/PetService.java:169-186 | the listing fails internally exactly on a database fault, never conflicts, and has one entry per scanned row |
| PetService.RetrieveAllPetsListsEvery | src/main/java/org/dmship/services/PetService.java:169-186 | the listing holds every stored pet and nothing else |
| PetService.CreatedPetIsListed | src/main/java/org/dmship/services/PetService.java:40-186 | a created pet shows up in the listing |
| PetService.MessagesNameId | src/main/java/org/dmship/services/PetService.java:108-126 | the "not found" and the delete-conflict messages name their id unambiguously |
| PersonPetService.AddPersonPet | src/main/java/org/dmship/services/PersonPetService.java:32-89 | guards in order: an existing link gives "already has", then a missing person gives "Person ... does not exist", then a missing pet gives "Pet ... does not exist"; a rejected save gives the "db error" conflict; every failure leaves the store unchanged; a success needed all guards and no fault |
| PersonPetService.AddPersonPetAppends | src/main/java/org/dmship/services/PersonPetService.java:63-88 | once the guards pass, add succeeds, conflicts or fails internally exactly as the database reports nothing, a violation or another failure; a success appends exactly one key to the person's links, adds it once to the table, and keeps the store valid |
| PersonPetService.AddPersonPetKeepsOthers | src/main/java/org/dmship/services/PersonPetService.java:63-68 | an add leaves every other person's links unchanged |
| PersonPetService.RemovePersonPet | src/main/java/org/dmship/services/PersonPetService.java:91-143 | guards in order: no link gives "does not have", then a missing person, then a missing pet; a rejected save gives the "db error" conflict naming the removed link; every failure leaves the store unchanged |
| PersonPetService.LinkedPetIsHeld | src/main/java/org/dmship/services/PersonPetService.java:93-118 | once the link was found, the intended removal and the written removePet agree on the loaded person |
| PersonPetService.RemovePersonPetErases | src/main/java/org/dmship/services/PersonPetService.java:118-142 | once the guards pass, remove succeeds, conflicts or fails internally exactly per the database's report; a success removes exactly that key, keeps the person's other links in order, and keeps the store valid |
| PersonPetService.RemovePersonPetKeepsOthers | src/main/java/org/dmship/services/PersonPetService.java:118-123 | a remove leaves every other person's links unchanged |
| PersonPetService.AddThenRemove | src/main/java/org/dmship/services/PersonPetService.java:32-143 | adding a link and removing it again succeeds twice, restores the person and pet tables, and leaves the link table with the same contents |
| PersonPetService.AddThenRemoveReadsBack | src/main/java/org/dmship/services/PersonPetService.java:32-143 | after that round trip every person's links read back as they were, in the same order |
| PersonPetService.RetrieveAllPersonPets | src/main/java/org/dmship/services/PersonPetService.java:146-169 | the list fails internally exactly on a database fault, never conflicts, holds a pet exactly when the link exists, and is empty for a person without links |
| PersonPetService.PetIdsAppend | src/main/java/org/dmship/services/PersonPetService.java:154-156 | the pet ids of one more link are the earlier ids followed by its pet id |
| PersonPetService.ListAfterAdd | src/main/java/org/dmship/services/PersonPetService.java:63-68 | after an add the person's list is the earlier list followed by the new pet |
| PersonPetService.AddTwoPets | src/test/java/org/dmship/services/PersonPetServiceTest.java:44-67 | two adds to a person without pets both succeed and list the pets in order |
| PersonPetService.RemoveTwoPets | src/test/java/org/dmship/services/PersonPetServiceTest.java:85-92 | removing both pets in turn lists the second pet, then nothing |
| PersonPetService.LinkAndUnlinkTwoPets | src/test/java/org/dmship/services/PersonPetServiceTest.java:71-92 | adding two pets and removing both succeeds at each step, and the list is [a, b], then [b], then empty |
| PersonPetService.AlreadyLinkedMessageNamesIds | src/main/java/org/dmship/services/PersonPetService.java:39 | the "already has" message names both ids unambiguously |
| PersonPetService.NotLinkedMessageNamesIds | src/main/java/org/dmship/services/PersonPetService.java:96 | the "does not have" message names both ids unambiguously |
| PersonPetService.AddRejectedMessageNamesIds | src/main/java/org/dmship/services/PersonPetService.java:76-77 | the add "db error" message names both ids unambiguously |
| PersonPetService.MissingMessagesNameIds | src/main/java/org/dmship/services/PersonPetService.java:48-57 | the missing-person and missing-pet messages name their id unambiguously and never coincide |

## Left out

- Controllers, the exception advice, security and feature toggles: HTTP routing and status mapping carry no domain logic.
- Repository query semantics: the repositories are replaced by the store value. `findByPersonIdAndPetId` is key membership and `findByPersonId` is `EntityStore.LinksOf`.
- MapStruct mappers and DTO records are modelled only as field copies (`ToDto`/`FromDto`).
- Bean-validation annotations: requests are not validated. Field bounds appear only as the store invariant `Valid`, which the `...Outcome` lemmas keep for requests within the bounds.
- Logging.
- The message text of internal errors: `Internal` carries no message.
- `LocalDate` is an opaque triple that is only stored and compared.
- Integer widths: ids are unbounded naturals, and identity values never wrap. `String.hashCode` and `Objects.hash` are written with explicit 32-bit wrap-around.
- The duplicate `PersonPet` and `Pet` classes under `domain/` are not modelled; they key a link by `pet_id` alone. The model uses the composite `(person_id, pet_id)` key, so "a pet has at most one owner" is not a store constraint.
- The disabled test about a second owner is not modelled: with the composite key, that add succeeds.
- `Pet.personPet`: the inverse side of the one-to-one mapping to a link is not maintained in the store. Loaded pets carry the key of the link they are loaded through.
- `PetService.deletePet` calls `deleteById` without a flush. In the model, the foreign-key violation of a still-linked pet is reported inside the call, as the `catch` block expects, and becomes the "Could not delete pet" conflict.
- `PetService.DeletePet` does not model the cascade of the pet's own mapping: `Pet.personPet` is declared with `cascade = CascadeType.ALL` and `orphanRemoval = true` (src/main/java/org/dmship/model/Pet.java:49-53), so `deleteById` removes a linked pet's link together with the pet. The model instead follows the foreign-key reading of the TODO at src/main/java/org/dmship/services/PetService.java:115, under which a still-linked pet cannot be deleted.
- `PetService.DeletePetOutcome`: states that deleting a pet conflicts exactly when a link still refers to it; with the mapping's cascade, deleting a pet that has one link would commit and remove that link too.
- `JavaLang.StringHashCode`, `Persons.Valid`, `Pets.Valid`: a Dafny character is a Unicode scalar value, not a UTF-16 code unit. A character outside the Basic Multilingual Plane counts once here, where Java hashes it as two surrogates and `@Size` counts it twice, so such text hashes differently and the length bounds admit some names and addresses Java rejects.
- `PersonService.CreatePerson` and `PetService.CreatePet`: a failed create does not advance the identity counter in the model. A real IDENTITY column may skip the value.
- `PersonService.RetrievePerson`, `PetService.RetrievePet`: their `catch` blocks guard only a DTO mapping, which cannot fail in the model, so these two operations have no `Internal` or `Conflict` path besides "not found".
- Concurrency between transactions is not modelled. The `StoreFault` parameter stands for whatever another writer or the database may report.
- The order of `PersonService.RetrievePersons` and `PetService.RetrieveAllPets` results is modelled as ascending id. The source's `findAll` promises no order, and the contracts state membership only.

## Findings

| source | as written | input that shows it | evidently intended | confidence | as-written member | corrected member |
|---|---|---|---|---|---|---|
| src/main/java/org/dmship/model/Person.java:73-88 | when no link holds the pet, `removePet` returns the last link the loop visited instead of a not-found value | a person whose one link holds pet 1, asked to remove pet 2: the list is unchanged, yet that link comes back as if it had been removed | return null when no link holds the pet | not executed; high | Persons.RemovePet, Persons.RemovePetReturnsUnrelatedLink | Persons.DetachPet, Persons.AddThenDetach |

`PersonPetService.RemovePersonPet` uses `Persons.DetachPet`. Its guards establish only that the key `(personId, petId)` is in the link table. On a valid store, `PersonPetService.LinkedPetIsHeld` (which requires `Valid(s)`) takes that key to a link of the loaded person that holds the pet, and `Persons.DetachAgreesWithRemovePet` then shows that both removals give the same result.

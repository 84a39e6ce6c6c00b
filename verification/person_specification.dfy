/** PersonSpecificationBuilder: turns a PersonSearchCriteria into the query
    predicate the person search runs. Each field is a java.util.Optional that
    may itself be null; a filter that is null or empty contributes no
    condition, and the two filters are joined the way Specification.and joins
    possibly-missing predicates. */
module PersonSpecification {
  import opened JavaLang
  import Persons

  /** A java.util.Optional<String> field that may also be null. */
  datatype OptionalText = NullOptional | EmptyOptional | Present(value: string)

  /** PersonSearchCriteria(firstName, lastName). */
  datatype Criteria = Criteria(firstName: OptionalText, lastName: OptionalText)

  datatype Attribute = FirstName | LastName

  /** The criteria-API predicate a specification builds: builder.equal on one
      attribute, or builder.and of two predicates. */
  datatype Condition = Equal(attribute: Attribute, value: string) | And(left: Condition, right: Condition)

  /** What toPredicate returns: a predicate, or null for "no restriction". */
  type Specification = Option<Condition>

  function AttributeOf(p: Persons.Person, a: Attribute): string {
    match a
    case FirstName => p.firstName
    case LastName => p.lastName
  }

  /** The person satisfies the predicate. */
  predicate Holds(c: Condition, p: Persons.Person) {
    match c
    case Equal(a, v) => AttributeOf(p, a) == v
    case And(l, r) => Holds(l, p) && Holds(r, p)
  }

  /** findAll(spec): a null predicate puts no where clause on the query. */
  predicate Matches(spec: Specification, p: Persons.Person) {
    match spec
    case None => true
    case Some(c) => Holds(c, p)
  }

  /** The predicate of one filter on one attribute. */
  function EqualTo(a: Attribute, filter: OptionalText): (r: Specification)
    ensures r.None? <==> !filter.Present?
    ensures r.Some? ==> forall p :: Holds(r.value, p) <==> AttributeOf(p, a) == filter.value
  {
    match filter
    case NullOptional => None
    case EmptyOptional => None
    case Present(v) => Some(Equal(a, v))
  }

  /** firstNameEqualTo. */
  function FirstNameEqualTo(firstName: OptionalText): (r: Specification)
    ensures forall p :: Matches(r, p) <==> (firstName.Present? ==> p.firstName == firstName.value)
  {
    EqualTo(FirstName, firstName)
  }

  /** lastNameEqualTo. */
  function LastNameEqualTo(lastName: OptionalText): (r: Specification)
    ensures forall p :: Matches(r, p) <==> (lastName.Present? ==> p.lastName == lastName.value)
  {
    EqualTo(LastName, lastName)
  }

  /** Specification.and: a side without a predicate drops out; two
      predicates are joined with builder.and. */
  function AndSpec(left: Specification, right: Specification): (r: Specification)
    ensures r.None? <==> left.None? && right.None?
    ensures forall p :: Matches(r, p) <==> Matches(left, p) && Matches(right, p)
  {
    match left
    case None => right
    case Some(l) =>
      match right
      case None => left
      case Some(rc) => Some(And(l, rc))
  }

  /** createPersonSpecification. */
  function CreatePersonSpecification(criteria: Criteria): Specification {
    AndSpec(FirstNameEqualTo(criteria.firstName), LastNameEqualTo(criteria.lastName))
  }

  /** The search as a predicate on persons. */
  function AsPredicate(criteria: Criteria): Persons.Person -> bool {
    p => Matches(CreatePersonSpecification(criteria), p)
  }

  /** The search is the conjunction of the two filters, each of which is an
      equality when present and no constraint when absent. */
  lemma SearchIsConjunction(criteria: Criteria, p: Persons.Person)
    ensures AsPredicate(criteria)(p) <==>
      Matches(FirstNameEqualTo(criteria.firstName), p) && Matches(LastNameEqualTo(criteria.lastName), p)
    ensures AsPredicate(criteria)(p) <==>
      && (criteria.firstName.Present? ==> p.firstName == criteria.firstName.value)
      && (criteria.lastName.Present? ==> p.lastName == criteria.lastName.value)
  {
  }

  /** Criteria without a present filter build no predicate at all, so every
      person is selected. */
  lemma AbsentFiltersSelectAll(criteria: Criteria, p: Persons.Person)
    requires !criteria.firstName.Present? && !criteria.lastName.Present?
    ensures CreatePersonSpecification(criteria).None?
    ensures AsPredicate(criteria)(p)
  {
  }

  /** A null Optional and an empty Optional filter alike. */
  lemma NullFilterIsEmptyFilter(criteria: Criteria)
    ensures CreatePersonSpecification(criteria)
         == CreatePersonSpecification(
              criteria.(firstName := if criteria.firstName.NullOptional? then EmptyOptional else criteria.firstName,
                        lastName := if criteria.lastName.NullOptional? then EmptyOptional else criteria.lastName))
  {
  }

  /** An empty string is a value like any other: it selects the persons whose
      name is empty, and no other. */
  lemma EmptyStringIsAFilter(p: Persons.Person)
    requires p.firstName != ""
    ensures !AsPredicate(Criteria(Present(""), EmptyOptional))(p)
    ensures AsPredicate(Criteria(Present(""), EmptyOptional))(p.(firstName := ""))
  {
  }

  /** The search reads only the two names: persons equal under Person.equals
      are selected together. */
  lemma SearchReadsNamesOnly(criteria: Criteria, p: Persons.Person, q: Persons.Person)
    requires Persons.Equals(p, Instance(q))
    ensures AsPredicate(criteria)(p) <==> AsPredicate(criteria)(q)
  {
  }
}

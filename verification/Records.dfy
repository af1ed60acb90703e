/**
 The ordering contract of the record payloads: `PersonID` is ordered
 lexicographically on (series, number), and a `Person` is compared by its id
 alone. The tree relies on this through `compareItems` when it stores records.
 */
module Records {
  import opened Trees
  import opened Search

  datatype PersonID = PersonID(series: int, number: int) {
    predicate Equal(other: PersonID) {
      series == other.series && number == other.number
    }

    predicate NotEqual(other: PersonID) {
      !Equal(other)
    }

    /** Series first; the number breaks ties. */
    predicate Less(other: PersonID) {
      if series != other.series then series < other.series else number < other.number
    }

    predicate Greater(other: PersonID) {
      other.Less(this)
    }
  }

  /**
   A person record. The name parts and the birth date (a `time_t`) are carried
   but take no part in comparisons.
   */
  datatype Person = Person(id: PersonID, firstName: string, middleName: string, lastName: string, birthDate: int) {
    predicate Equal(other: Person) {
      id.Equal(other.id)
    }

    predicate NotEqual(other: Person) {
      !Equal(other)
    }

    predicate Less(other: Person) {
      id.Less(other.id)
    }

    predicate Greater(other: Person) {
      other.Less(this)
    }
  }

  /** `operator<` on records, as the tree's comparison sees it. */
  function PersonLess(a: Person, b: Person): bool {
    a.Less(b)
  }

  /** The id order is a strict order: irreflexive and transitive. */
  lemma IdOrderIsStrict(a: PersonID, b: PersonID, c: PersonID)
    ensures !a.Less(a)
    ensures a.Less(b) && b.Less(c) ==> a.Less(c)
  {
  }

  /**
   Exactly one of `a < b`, `a == b`, `b < a` holds, and id equality is value
   equality, so `compareItems` on ids returns 0 exactly for equal ids.
   */
  lemma IdTrichotomy(a: PersonID, b: PersonID)
    ensures a.Equal(b) <==> a == b
    ensures (a.Less(b) && !a.Equal(b) && !b.Less(a))
         || (!a.Less(b) && a.Equal(b) && !b.Less(a))
         || (!a.Less(b) && !a.Equal(b) && b.Less(a))
    ensures CompareItems((x: PersonID, y: PersonID) => x.Less(y), a, b) == 0 <==> a == b
  {
  }

  /** `>` is the converse of `<` and `!=` the negation of `==`, for ids and for records. */
  lemma DerivedOperators(a: PersonID, b: PersonID, p: Person, q: Person)
    ensures a.Greater(b) <==> b.Less(a)
    ensures a.NotEqual(b) <==> !a.Equal(b)
    ensures p.Greater(q) <==> q.Less(p)
    ensures p.NotEqual(q) <==> !p.Equal(q)
  {
  }

  /** Records compare by id alone: other fields never change a comparison. */
  lemma OnlyIdMatters(p: Person, q: Person, p': Person, q': Person)
    requires p.id == p'.id && q.id == q'.id
    ensures p.Less(q) == p'.Less(q')
    ensures p.Equal(q) == p'.Equal(q')
    ensures CompareItems(PersonLess, p, q) == 0 <==> p.id == q.id
  {
  }

  /** The lookup walk for a record goes where the walk for any record with the same id goes. */
  lemma {:induction false} FindByIdOnly(t: Tree<Person>, p: Person, q: Person)
    requires p.id == q.id
    ensures Find(PersonLess, t, p) == Find(PersonLess, t, q)
  {
    match t
    case Leaf =>
    case Node(k, l, r) =>
      OnlyIdMatters(p, k, q, k);
      OnlyIdMatters(k, p, k, q);
      FindByIdOnly(l, p, q);
      FindByIdOnly(r, p, q);
  }

  /**
   Inserting a record whose id is already stored leaves the tree unchanged,
   even when its names or dates differ from the stored record's.
   */
  lemma SameIdInsertIsNoOp(t: Tree<Person>, p: Person, q: Person)
    requires Contains(PersonLess, t, p) && q.id == p.id
    ensures Insert(PersonLess, t, q) == t
  {
    FindByIdOnly(t, p, q);
    InsertFoundIsNoOp(PersonLess, t, q);
  }
}

/**
 * The list the user screen displays (`filteredUsers`): the roster filtered by a case-insensitive
 * search term over name, email and phone, then sorted with `Array.prototype.sort` and a
 * comparator on one lowercased field, ascending or descending, or left in order with no key.
 */
module QueryView {
  import opened Wrappers
  import opened Seqs
  import opened JsText
  import opened Roster
  import opened StableSort

  datatype Order = Asc | Desc

  // ---------------------------------------------------------------- filter

  /** The search test: the lowercased term occurs in the lowercased name, email or phone. */
  predicate Matches(u: User, term: string) {
    var t := ToLower(term);
    Includes(ToLower(u.name), t) || Includes(ToLower(u.email), t) || Includes(ToLower(u.phone), t)
  }

  function Filter(users: seq<User>, term: string): (r: seq<User>)
    ensures |r| <= |users|
    ensures forall u :: u in r <==> u in users && Matches(u, term)
  {
    Keep(users, u => Matches(u, term))
  }

  /**
   * The filter is exact: an order-preserving subsequence of the roster holding every
   * occurrence of each matching record and nothing else.
   */
  lemma FilterIsExact(users: seq<User>, term: string)
    ensures IsSubsequence(Filter(users, term), users)
    ensures forall u :: u in Filter(users, term) <==> u in users && Matches(u, term)
    ensures forall u :: multiset(Filter(users, term))[u] == if Matches(u, term) then multiset(users)[u] else 0
  {
    KeepIsSubsequence(users, u => Matches(u, term));
    forall u ensures multiset(Filter(users, term))[u] == if Matches(u, term) then multiset(users)[u] else 0 {
      KeepCount(users, u => Matches(u, term), u);
    }
  }

  /** Every record matches the empty search term. */
  lemma EmptyTermMatchesAll(u: User)
    ensures Matches(u, "")
  {
    assert ToLower("") == "";
    IncludesEmpty(ToLower(u.name));
  }

  /** The search is case-insensitive in the term: lowercasing it first changes nothing. */
  lemma MatchesLowerTerm(u: User, term: string)
    ensures Matches(u, ToLower(term)) == Matches(u, term)
  {
    ToLowerIdempotent(term);
  }

  lemma EmptyTermKeepsAll(users: seq<User>)
    ensures Filter(users, "") == users
  {
    forall i | 0 <= i < |users| ensures Matches(users[i], "") {
      EmptyTermMatchesAll(users[i]);
    }
    KeepAll(users, u => Matches(u, ""));
  }

  // ---------------------------------------------------------------- comparator

  /** The value the comparator compares: the lowercased field. */
  function SortValue(u: User, f: Field): string {
    ToLower(FieldOf(u, f))
  }

  /** The comparator passed to `sort`: 0 with no key, otherwise -1, 0 or 1 by direction. */
  function Compare(a: User, b: User, key: Option<Field>, order: Order): (r: int)
    ensures -1 <= r <= 1
    ensures key.None? ==> r == 0
  {
    if key.None? then 0
    else
      var av, bv := SortValue(a, key.value), SortValue(b, key.value);
      if LessThan(av, bv) then (if order == Asc then -1 else 1)
      else if LessThan(bv, av) then (if order == Asc then 1 else -1)
      else 0
  }

  /** Two records the comparator cannot tell apart. */
  predicate SameKey(a: User, b: User, key: Option<Field>) {
    key.None? || SortValue(a, key.value) == SortValue(b, key.value)
  }

  /** The comparator is consistent: antisymmetric, zero exactly on ties, and transitive. */
  lemma CompareAntisymmetric(a: User, b: User, key: Option<Field>, order: Order)
    ensures Compare(a, b, key, order) == -Compare(b, a, key, order)
    ensures Compare(a, b, key, order) == 0 <==> SameKey(a, b, key)
  {
    if key.Some? {
      LessThanTrichotomy(SortValue(a, key.value), SortValue(b, key.value));
    }
  }

  lemma CompareTransitive(a: User, b: User, c: User, key: Option<Field>, order: Order)
    requires Compare(a, b, key, order) <= 0 && Compare(b, c, key, order) <= 0
    ensures Compare(a, c, key, order) <= 0
  {
    if key.Some? {
      var av, bv, cv := SortValue(a, key.value), SortValue(b, key.value), SortValue(c, key.value);
      LessThanTrichotomy(av, bv);
      LessThanTrichotomy(bv, cv);
      LessThanTrichotomy(av, cv);
      if av != bv && bv != cv {
        if order == Asc {
          LessThanTransitive(av, bv, cv);
        } else {
          LessThanTransitive(cv, bv, av);
        }
      }
    }
  }

  /**
   * With a key, a pair the comparator accepts is in ascending JavaScript string order of the
   * lowercased field for Asc and in descending order for Desc.
   */
  lemma CompareByDirection(a: User, b: User, f: Field)
    ensures Compare(a, b, Some(f), Asc) <= 0 <==> !LessThan(SortValue(b, f), SortValue(a, f))
    ensures Compare(a, b, Some(f), Desc) <= 0 <==> !LessThan(SortValue(a, f), SortValue(b, f))
  {
    LessThanTrichotomy(SortValue(a, f), SortValue(b, f));
  }


  /** The comparator as the function value handed to `sort`. */
  function Comparator(key: Option<Field>, order: Order): (User, User) -> int {
    (a, b) => Compare(a, b, key, order)
  }

  /** The screen's comparator meets ECMA-262's requirements on a sort comparator. */
  lemma ComparatorConsistent(key: Option<Field>, order: Order)
    ensures Consistent(Comparator(key, order))
  {
    var cmp := Comparator(key, order);
    forall a, b ensures cmp(a, b) == -cmp(b, a) {
      CompareAntisymmetric(a, b, key, order);
    }
    forall a, b, c ensures Chain(cmp, a, b, c) {
      if cmp(a, b) <= 0 && cmp(b, c) <= 0 {
        CompareTransitive(a, b, c, key, order);
      }
    }
  }

  /** The comparator ties two records exactly when their lowercased key fields are equal. */
  lemma ComparatorTies(a: User, b: User, key: Option<Field>, order: Order)
    ensures Comparator(key, order)(a, b) == 0 <==> SameKey(a, b, key)
  {
    CompareAntisymmetric(a, b, key, order);
  }

  // ---------------------------------------------------------------- the projection

  /** `filteredUsers`: filter by the search term, then sort. */
  function Project(users: seq<User>, term: string, key: Option<Field>, order: Order): seq<User> {
    SortBy(Filter(users, term), Comparator(key, order))
  }

  /**
   * The projection is the filtered roster, sorted by the comparator, with tied records in
   * their filtered order, and it holds exactly the matching records of the roster.
   */
  lemma ProjectSpec(users: seq<User>, term: string, key: Option<Field>, order: Order)
    ensures multiset(Project(users, term, key, order)) == multiset(Filter(users, term))
    ensures Sorted(Project(users, term, key, order), Comparator(key, order))
    ensures StableFrom(Project(users, term, key, order), Filter(users, term), Comparator(key, order))
    ensures forall u :: u in Project(users, term, key, order) <==> u in users && Matches(u, term)
  {
    ComparatorConsistent(key, order);
    SortBySpec(Filter(users, term), Comparator(key, order));
    FilterIsExact(users, term);
    forall u ensures u in Project(users, term, key, order) <==> u in Filter(users, term) {
      assert u in Project(users, term, key, order) <==> u in multiset(Project(users, term, key, order));
    }
  }

  /**
   * With a key, the lowercased field runs in ascending JavaScript string order for Asc and in
   * descending order for Desc.
   */
  lemma ProjectOrderedByKey(users: seq<User>, term: string, f: Field, order: Order)
    ensures var r := Project(users, term, Some(f), order);
      forall i, j :: 0 <= i < j < |r| ==>
        if order == Asc then !LessThan(SortValue(r[j], f), SortValue(r[i], f))
        else !LessThan(SortValue(r[i], f), SortValue(r[j], f))
  {
    var r := Project(users, term, Some(f), order);
    ProjectSpec(users, term, Some(f), order);
    forall i, j | 0 <= i < j < |r|
      ensures if order == Asc then !LessThan(SortValue(r[j], f), SortValue(r[i], f))
              else !LessThan(SortValue(r[i], f), SortValue(r[j], f))
    {
      assert Comparator(Some(f), order)(r[i], r[j]) <= 0;
      CompareByDirection(r[i], r[j], f);
    }
  }

  /**
   * Records with equal lowercased keys appear in the projection in their roster order: for
   * every record `x`, the records that tie with it are listed as the filter lists them.
   */
  lemma ProjectIsStable(users: seq<User>, term: string, key: Option<Field>, order: Order, x: User)
    ensures KeyTies(Project(users, term, key, order), x, key) == KeyTies(Filter(users, term), x, key)
  {
    var cmp := Comparator(key, order);
    var f := Filter(users, term);
    ComparatorConsistent(key, order);
    SortBySpec(f, cmp);
    assert Ties(SortBy(f, cmp), x, cmp) == Ties(f, x, cmp);
    KeyTiesAreTies(SortBy(f, cmp), x, key, order);
    KeyTiesAreTies(f, x, key, order);
  }

  /** The records of `s` whose lowercased key field equals that of `x`, in their order in `s`. */
  function KeyTies(s: seq<User>, x: User, key: Option<Field>): seq<User> {
    Keep(s, y => SameKey(y, x, key))
  }

  lemma {:induction false} KeyTiesAreTies(s: seq<User>, x: User, key: Option<Field>, order: Order)
    ensures KeyTies(s, x, key) == Ties(s, x, Comparator(key, order))
    decreases |s|
  {
    if s != [] {
      KeyTiesAreTies(s[..|s| - 1], x, key, order);
      ComparatorTies(s[|s| - 1], x, key, order);
    }
  }

  /**
   * Any sorted, stable arrangement of the filtered roster, which is what a conforming
   * `Array.prototype.sort` returns, is the projection.
   */
  lemma ProjectIsTheStableSort(users: seq<User>, term: string, key: Option<Field>, order: Order, r: seq<User>)
    requires Sorted(r, Comparator(key, order)) && StableFrom(r, Filter(users, term), Comparator(key, order))
    ensures r == Project(users, term, key, order)
  {
    ComparatorConsistent(key, order);
    ProjectSpec(users, term, key, order);
    SortedStableUnique(r, Project(users, term, key, order), Comparator(key, order));
  }

  /** With an empty search term and no sort key the list is the roster, in roster order. */
  lemma ProjectIdentity(users: seq<User>, order: Order)
    ensures Project(users, "", None, order) == users
  {
    EmptyTermKeepsAll(users);
    ComparatorConsistent(None, order);
    SortBySorted(users, Comparator(None, order));
  }

  /** Projecting the projection again with the same inputs changes nothing. */
  lemma ProjectIdempotent(users: seq<User>, term: string, key: Option<Field>, order: Order)
    ensures Project(Project(users, term, key, order), term, key, order) == Project(users, term, key, order)
  {
    var p := Project(users, term, key, order);
    ProjectSpec(users, term, key, order);
    forall i | 0 <= i < |p| ensures Matches(p[i], term) {
      assert p[i] in p;
    }
    KeepAll(p, u => Matches(u, term));
    ComparatorConsistent(key, order);
    SortBySorted(p, Comparator(key, order));
  }

  /** The sort direction changes the order of the list, never which records are in it. */
  lemma DirectionKeepsRecords(users: seq<User>, term: string, key: Option<Field>)
    ensures multiset(Project(users, term, key, Asc)) == multiset(Project(users, term, key, Desc))
  {
    ProjectSpec(users, term, key, Asc);
    ProjectSpec(users, term, key, Desc);
  }

  /** After an update the list shows the new fields for the record with that id. */
  lemma ProjectAfterUpdate(users: seq<User>, id: string, name: string, email: string, phone: string,
                           term: string, key: Option<Field>, order: Order)
    ensures forall u :: u in Project(UpdateById(users, id, name, email, phone), term, key, order) && u.id == id ==>
      u.name == name && u.email == email && u.phone == phone
  {
    var updated := UpdateById(users, id, name, email, phone);
    ProjectSpec(updated, term, key, order);
    forall u | u in updated && u.id == id ensures u.name == name && u.email == email && u.phone == phone {
      var i :| 0 <= i < |updated| && updated[i] == u;
    }
  }

  /** After a removal the list never shows a record with that id. */
  lemma ProjectAfterRemove(users: seq<User>, id: string, term: string, key: Option<Field>, order: Order)
    ensures forall u :: u in Project(RemoveId(users, id), term, key, order) ==> u.id != id
  {
    ProjectSpec(RemoveId(users, id), term, key, order);
    RemoveIdSpec(users, id);
  }

  // ---------------------------------------------------------------- examples

  const Bob := User("1", "Bob", "b@x.com", "1112223333", 0)
  const Ann := User("2", "Ann", "a@x.com", "4445556666", 0)

  /** A character of a non-empty needle occurs in every string that includes it. */
  lemma IncludesFirstChar(hay: string, needle: string)
    requires needle != [] && Includes(hay, needle)
    ensures needle[0] in hay
  {
    IncludesIffOccurs(hay, needle);
    var i :| OccursAt(hay, needle, i);
    assert hay[i] == needle[0];
  }

  lemma BobMatches()
    ensures Matches(Bob, "b@x")
  {
    assert ToLower("b@x") == "b@x";
    assert ToLower("b@x.com") == "b@x.com";
    assert "b@x" <= "b@x.com";
  }

  lemma AnnDoesNotMatch()
    ensures !Matches(Ann, "b@x")
  {
    var t := ToLower("b@x");
    assert t[0] == 'b' by { assert "b@x"[0] == 'b'; }
    LowerLacks(Ann.name, 'b');
    LowerLacks(Ann.email, 'b');
    LowerLacks(Ann.phone, 'b');
    LacksFirstChar(ToLower(Ann.name), t);
    LacksFirstChar(ToLower(Ann.email), t);
    LacksFirstChar(ToLower(Ann.phone), t);
  }

  /** A lower-case letter is missing from a lowercased string that had it in neither case. */
  lemma LowerLacks(s: string, c: char)
    requires 'a' <= c <= 'z' && c !in s && (c as int - 32) as char !in s
    ensures c !in ToLower(s)
  {
    forall i | 0 <= i < |s| ensures ToLower(s)[i] != c {
      assert s[i] != c && s[i] != (c as int - 32) as char;
    }
  }

  /** A string without the first character of the needle does not include it. */
  lemma LacksFirstChar(hay: string, needle: string)
    requires needle != [] && needle[0] !in hay
    ensures !Includes(hay, needle)
  {
    if Includes(hay, needle) {
      IncludesFirstChar(hay, needle);
    }
  }

  /** Searching "b@x" finds Bob by his email and not Ann. */
  lemma SearchExample()
    ensures Project([Bob, Ann], "b@x", None, Asc) == [Bob]
  {
    BobMatches();
    AnnDoesNotMatch();
    FirstOfTwo(Bob, Ann, "b@x");
  }

  lemma FirstOfTwo(a: User, b: User, term: string)
    requires Matches(a, term) && !Matches(b, term)
    ensures Project([a, b], term, None, Asc) == [a]
  {
    assert [a, b][..1] == [a];
    assert [a][..0] == [];
    assert Keep([a], u => Matches(u, term)) == [a];
    assert Keep([a, b], u => Matches(u, term)) == [a];
    ComparatorConsistent(None, Asc);
    SortBySorted([a], Comparator(None, Asc));
  }

  /** Sorting by name ascending lists Ann before Bob. */
  lemma SortByNameExample()
    ensures Project([Bob, Ann], "", Some(Name), Asc) == [Ann, Bob]
  {
    EmptyTermKeepsAll([Bob, Ann]);
    var cmp := Comparator(Some(Name), Asc);
    assert ToLower("Bob") == "bob";
    assert ToLower("Ann") == "ann";
    assert LessThan("ann", "bob");
    assert !LessThan("bob", "ann");
    assert cmp(Bob, Ann) == 1;
    assert [Bob, Ann][..1] == [Bob];
    assert SortBy([Bob], cmp) == [Bob];
    assert Insert(Ann, [Bob], cmp) == [Ann, Bob];
  }

  const Sam1 := User("1", "Sam", "s@x.com", "1112223333", 0)
  const Sam2 := User("2", "sam", "t@x.com", "4445556666", 0)

  /**
   * Records whose keys tie keep their roster order in both directions, so the descending
   * list is not the ascending list reversed.
   */
  lemma DescendingIsNotReversedAscending()
    ensures Project([Sam1, Sam2], "", Some(Name), Asc) == [Sam1, Sam2]
    ensures Project([Sam1, Sam2], "", Some(Name), Desc) == [Sam1, Sam2]
  {
    EmptyTermKeepsAll([Sam1, Sam2]);
    assert ToLower("Sam") == "sam";
    assert ToLower("sam") == "sam";
    forall order: Order ensures Project([Sam1, Sam2], "", Some(Name), order) == [Sam1, Sam2] {
      var cmp := Comparator(Some(Name), order);
      CompareAntisymmetric(Sam1, Sam2, Some(Name), order);
      assert cmp(Sam1, Sam2) == 0;
      ComparatorConsistent(Some(Name), order);
      SortBySorted([Sam1, Sam2], cmp);
    }
  }
}

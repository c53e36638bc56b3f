/**
 * Properties that relate several calls of the service: repeated adds,
 * cascades seen through the queries, bulk adds with duplicates, and the
 * order-independence of the start-up defaults.
 */
module ServiceProperties {
  import opened Wrappers
  import opened Entities
  import opened Stores
  import opened CategorizerModels
  import CR = CategoryRepository
  import SR = SubcategoryRepository
  import opened CategoryService
  import Seqs

  /**
   * Adding the same category twice: the second call is refused, changes
   * nothing, and the name is listed exactly once.
   */
  lemma AddCategoryTwice(st: Store, n: string)
    requires Valid(st) && n != []
    ensures AddCategory(AddCategory(st, Some(n)).store, Some(n)).response == NotModified(AlreadyExists)
    ensures AddCategory(AddCategory(st, Some(n)).store, Some(n)).store == AddCategory(st, Some(n)).store
    ensures n in FindAllCategoryNames(AddCategory(st, Some(n)).store)
    ensures Seqs.Distinct(FindAllCategoryNames(AddCategory(st, Some(n)).store))
  {
  }

  /**
   * Adding the same (category, subcategory) twice under a stored category:
   * the second call is refused and the combination is listed exactly once.
   */
  lemma AddSubcategoryTwice(st: Store, cat: string, sub: string)
    requires Valid(st) && cat in CategoryNames(st) && sub != []
    ensures var once := AddSubcategory(st, Some(cat), Some(sub)).store;
      && AddSubcategory(once, Some(cat), Some(sub)) == Reply(once, NotModified(NotUnique))
      && (cat, sub) in FindAllCategorySubcategoryNames(once)
      && Seqs.Distinct(FindAllCategorySubcategoryNames(once))
  {
  }

  /**
   * Uniqueness is per category: a subcategory name stored under one category
   * can still be added under another.
   */
  lemma SameNameUnderAnotherCategory(st: Store, a: string, b: string, sub: string)
    requires Valid(st) && a in CategoryNames(st) && b in CategoryNames(st) && a != b
    requires sub != [] && (a, sub) in Pairs(st) && (b, sub) !in Pairs(st)
    ensures AddSubcategory(st, Some(b), Some(sub)).response.Ok?
    ensures Pairs(AddSubcategory(st, Some(b), Some(sub)).store) >= {(a, sub), (b, sub)}
  {
  }

  /**
   * After a category is deleted neither it nor any of its subcategories can
   * be looked up, and no listed combination names it.
   */
  lemma DeleteCategoryCascades(st: Store, n: string, sub: string)
    requires Valid(st) && n in CategoryNames(st)
    ensures var after := DeleteCategory(st, Some(n)).store;
      && CR.FindOneByName(after, Some(n)).None?
      && CR.CountByName(after, Some(n)) == 0
      && SR.FindOneByNameAndCategory(after, Some(n), Some(sub)).None?
      && (forall p :: p in FindAllCategorySubcategoryNames(after) ==> p.0 != n)
  {
  }

  /** A subcategory added under `cat` records the given name and that stored parent. */
  lemma AddedSubcategoryRecordsArguments(st: Store, cat: Option<string>, sub: Option<string>)
    requires AddSubcategory(st, cat, sub).response.Ok?
    ensures var s := AddSubcategory(st, cat, sub).response.entity.subcategory;
      && Some(s.name) == sub
      && Some(CategoryName(s)) == cat
      && s.category in st.categories
      && s in AddSubcategory(st, cat, sub).store.subcategories
  {
    var r := AddSubcategory(st, cat, sub);
    var s := r.response.entity.subcategory;
    assert Key(s) in Pairs(r.store);
    var t :| t in r.store.subcategories && Key(t) == Key(s);
    KeyIdentifiesRow(t, s);
    assert CR.FindOneByName(st, cat).Some?;
  }

  /**
   * A bulk add of one new combination and one already stored returns only
   * the new one, with status 200.
   */
  lemma BulkAddSkipsDuplicate(st: Store, added: CategorizerModel, dup: CategorizerModel)
    requires Valid(st)
    requires added.category.Some? && added.category.value in CategoryNames(st)
    requires added.subcategory.Some? && added.subcategory.value != []
    requires (added.category.value, added.subcategory.value) !in Pairs(st)
    requires dup.category.Some? && dup.subcategory.Some?
    requires (dup.category.value, dup.subcategory.value) in Pairs(st)
    ensures BulkAccepted(st, [added, dup]) == [added]
  {
    assert [added, dup][..1] == [added];
    assert [added][..0] == [];
    var one := AddSubcategory(st, added.category, added.subcategory);
    assert BulkStore(st, [added]) == one.store;
    assert (dup.category.value, dup.subcategory.value) in Pairs(one.store);
  }

  /** The start-up defaults give the same category names in any order or repetition. */
  lemma InitializeOrderIndependent(st: Store, a: seq<string>, b: seq<string>)
    requires forall t :: t in a <==> t in b
    ensures CategoryNames(AddCategories(st, a)) == CategoryNames(AddCategories(st, b))
  {
    assert (set t | t in a && t != []) == (set t | t in b && t != []);
  }

  /** Dumping an empty store still gives two rows, both empty. */
  lemma DumpOfEmptyStore()
    ensures Dump(Store([], [])).response == Ok(Snapshot([], []))
  {
  }

  /**
   * Name-only `equals` disagrees with the store's notion of identity: a valid
   * store can hold two different rows that `equals` calls equal.
   */
  lemma EqualsCoarserThanStoreIdentity()
    ensures var st := Store([Category("A"), Category("B")],
                            [Subcategory("x", Category("A")), Subcategory("x", Category("B"))]);
      && Valid(st)
      && st.subcategories[0] != st.subcategories[1]
      && Equals(st.subcategories[0], SubcategoryRef(st.subcategories[1]))
  {
  }

  /**
   * The worked example: under PERSON, "Joe King" is added once, refused the
   * second time, and gone with PERSON once PERSON is deleted.
   */
  lemma PersonExample()
    ensures var st0 := Store([Category("PERSON")], []);
      var r1 := AddSubcategory(st0, Some("PERSON"), Some("Joe King"));
      var r2 := AddSubcategory(r1.store, Some("PERSON"), Some("Joe King"));
      var r3 := DeleteCategory(r2.store, Some("PERSON"));
      && r1.response == Ok(SubcategoryEntity(Subcategory("Joe King", Category("PERSON"))))
      && r2.response == NotModified(NotUnique)
      && r3.response == NoContent
      && FindAllCategorySubcategoryNames(r3.store) == []
  {
    var st0 := Store([Category("PERSON")], []);
    assert "PERSON" in CategoryNames(st0) by { assert Category("PERSON") in st0.categories; }
    var r1 := AddSubcategory(st0, Some("PERSON"), Some("Joe King"));
    var r2 := AddSubcategory(r1.store, Some("PERSON"), Some("Joe King"));
    var r3 := DeleteCategory(r2.store, Some("PERSON"));
    assert Pairs(r3.store) == {};
  }
}

/** The queries of `SubcategoryRepository`, as pure functions of the store. */
module SubcategoryRepository {
  import opened Wrappers
  import opened Entities
  import opened Stores
  import opened CategorizerModels
  import Seqs

  /** The first subcategory row named `sub` under a category named `cat`. */
  function FirstWithKey(subs: seq<Subcategory>, cat: string, sub: string): (r: Option<Subcategory>)
    ensures r.Some? ==> r.value in subs && r.value.name == sub && r.value.category.name == cat
    ensures r.None? ==> forall s :: s in subs ==> Key(s) != (cat, sub)
  {
    if subs == [] then None
    else if subs[0].name == sub && subs[0].category.name == cat then Some(subs[0])
    else FirstWithKey(subs[1..], cat, sub)
  }

  /**
   * `findOneByNameAndCategory`: the subcategory with that name whose parent
   * has that name, or null. A null argument makes `=` unknown in JPQL, so
   * nothing matches.
   */
  function FindOneByNameAndCategory(st: Store, cat: Option<string>, sub: Option<string>): (r: Option<Subcategory>)
    ensures r.Some? <==> cat.Some? && sub.Some? && (cat.value, sub.value) in Pairs(st)
    ensures r.Some? ==> r.value in st.subcategories && r.value.name == sub.value && r.value.category.name == cat.value
  {
    if cat.None? || sub.None? then None
    else FirstWithKey(st.subcategories, cat.value, sub.value)
  }

  /** Under the uniqueness invariant at most one row matches a lookup. */
  lemma AtMostOneMatchingRow(st: Store, cat: string, sub: string, i: int, j: int)
    requires Valid(st)
    requires 0 <= i < |st.subcategories| && 0 <= j < |st.subcategories|
    requires Key(st.subcategories[i]) == (cat, sub) && Key(st.subcategories[j]) == (cat, sub)
    ensures i == j
  {
  }

  /**
   * The pair built from a stored subcategory looks that very row up again:
   * its two names identify it.
   */
  lemma ModelIdentifiesStoredSubcategory(st: Store, s: Subcategory)
    requires s in st.subcategories
    ensures FindOneByNameAndCategory(st, FromSubcategory(s).category, FromSubcategory(s).subcategory) == Some(s)
  {
    var m := FromSubcategory(s);
    assert Key(s) in Pairs(st);
    var r := FindOneByNameAndCategory(st, m.category, m.subcategory);
    KeyIdentifiesRow(r.value, s);
  }

  /**
   * `findAllNames` (`select category.name, name from Subcategory`): the path
   * `category.name` is an implicit inner join, so there is one (category
   * name, subcategory name) row per stored subcategory whose parent is
   * stored. Under the foreign key that is every subcategory.
   */
  function FindAllNames(st: Store): (r: seq<(string, string)>)
    ensures |r| <= |st.subcategories|
    ensures forall p :: p in r ==> p in Pairs(st)
    ensures forall s :: s in st.subcategories && s.category in st.categories ==> Key(s) in r
    ensures Valid(st) ==> |r| == |st.subcategories|
    ensures Valid(st) ==> forall p :: p in r <==> p in Pairs(st)
    ensures Valid(st) ==> Seqs.Distinct(r)
  {
    var joined := Seqs.Filter(st.subcategories, (s: Subcategory) => s.category in st.categories);
    var r := Keys(joined);
    assert forall p :: p in r ==> p in Pairs(st) by {
      forall p | p in r ensures p in Pairs(st) {
        var i :| 0 <= i < |r| && r[i] == p;
        assert joined[i] in joined;
      }
    }
    assert forall s :: s in joined ==> Key(s) in r by {
      forall s | s in joined ensures Key(s) in r {
        var i :| 0 <= i < |joined| && joined[i] == s;
        assert r[i] == Key(s);
      }
    }
    assert Valid(st) ==> joined == st.subcategories by {
      if Valid(st) { Seqs.FilterKeepsAll(st.subcategories, (s: Subcategory) => s.category in st.categories); }
    }
    r
  }

  /** The combination of each row, in row order; distinct when the rows' combinations are unique. */
  function Keys(subs: seq<Subcategory>): (r: seq<(string, string)>)
    ensures |r| == |subs|
    ensures forall i :: 0 <= i < |subs| ==> r[i] == Key(subs[i])
    ensures UniqueKeys(subs) ==> Seqs.Distinct(r)
  {
    seq(|subs|, i requires 0 <= i < |subs| => Key(subs[i]))
  }
}

/**
 * `CategoryServiceImpl`: every operation is a pure function from the store
 * (and its arguments) to the resulting store and the HTTP response. Business
 * rule violations are never errors here either: they are `NotModified`
 * responses that leave the store as it was.
 */
module CategoryService {
  import opened Wrappers
  import opened Entities
  import opened Stores
  import opened CategorizerModels
  import CR = CategoryRepository
  import SR = SubcategoryRepository
  import DefaultsParser
  import Seqs

  /** Why a request was answered with 304 Not Modified (the message text is not modelled). */
  datatype Reason =
    | NullOrEmptyName
    | AlreadyExists
    | NotAValidCategory
    | NotUnique
    | EmptyList
    | NotFound

  /** The body of a 200 response. */
  datatype Entity =
    | CategoryEntity(category: Category)
    | SubcategoryEntity(subcategory: Subcategory)
    | ModelList(models: seq<CategorizerModel>)
      /** The two rows of `dump`: the subcategories as name pairs, then the counts. */
    | Snapshot(pairs: seq<CategorizerModel>, counts: seq<CR.CountRow>)

  datatype Response = Ok(entity: Entity) | NotModified(reason: Reason) | NoContent

  /** A store transition together with the response it produced. */
  datatype Reply = Reply(store: Store, response: Response)

  /** The HTTP status code of a response. */
  function Status(r: Response): int {
    match r
    case Ok(_) => 200
    case NoContent => 204
    case NotModified(_) => 304
  }

  /**
   * `addCategory`: a null or empty name and an existing name are refused;
   * otherwise a category with that name is inserted and returned.
   */
  function AddCategory(st: Store, name: Option<string>): (r: Reply)
    ensures r.response.Ok? <==> name.Some? && name.value != [] && name.value !in CategoryNames(st)
    ensures r.response.Ok? ==>
      && r.response.entity == CategoryEntity(Category(name.value))
      && CategoryNames(r.store) == CategoryNames(st) + {name.value}
      && |r.store.categories| == |st.categories| + 1
      && r.store.subcategories == st.subcategories
    ensures !r.response.Ok? ==> r.store == st && r.response.NotModified?
    ensures name.None? || name.value == [] ==> r.response == NotModified(NullOrEmptyName)
    ensures name.Some? && name.value != [] && name.value in CategoryNames(st) ==>
      r.response == NotModified(AlreadyExists)
    ensures Valid(st) ==> Valid(r.store)
  {
    if name.None? || name.value == [] then Reply(st, NotModified(NullOrEmptyName))
    else if CR.CountByName(st, name) > 0 then Reply(st, NotModified(AlreadyExists))
    else
      var c := Category(name.value);
      InsertCategory(st, c);
      Reply(Store(st.categories + [c], st.subcategories), Ok(CategoryEntity(c)))
  }

  /**
   * `addSubcategory`: refused for a null or empty subcategory name, for a
   * category that is not stored, and for a combination already stored;
   * otherwise the subcategory is inserted under the stored category.
   */
  function AddSubcategory(st: Store, cat: Option<string>, sub: Option<string>): (r: Reply)
    ensures r.response.Ok? <==>
      && sub.Some? && sub.value != []
      && cat.Some? && cat.value in CategoryNames(st)
      && (cat.value, sub.value) !in Pairs(st)
    ensures r.response.Ok? ==>
      && r.response.entity == SubcategoryEntity(Subcategory(sub.value, Category(cat.value)))
      && Pairs(r.store) == Pairs(st) + {(cat.value, sub.value)}
      && |r.store.subcategories| == |st.subcategories| + 1
      && r.store.categories == st.categories
    ensures !r.response.Ok? ==> r.store == st && r.response.NotModified?
    ensures sub.None? || sub.value == [] ==> r.response == NotModified(NullOrEmptyName)
    ensures sub.Some? && sub.value != [] && (cat.None? || cat.value !in CategoryNames(st)) ==>
      r.response == NotModified(NotAValidCategory)
    ensures (sub.Some? && sub.value != [] && cat.Some? && cat.value in CategoryNames(st)
             && (cat.value, sub.value) in Pairs(st)) ==>
      r.response == NotModified(NotUnique)
    ensures Valid(st) ==> Valid(r.store)
  {
    if sub.None? || sub.value == [] then Reply(st, NotModified(NullOrEmptyName))
    else
      match CR.FindOneByName(st, cat)
      case None => Reply(st, NotModified(NotAValidCategory))
      case Some(c) =>
        if SR.FindOneByNameAndCategory(st, cat, sub).None? then
          var s := Subcategory(sub.value, c);
          InsertSubcategory(st, s);
          Reply(Store(st.categories, st.subcategories + [s]), Ok(SubcategoryEntity(s)))
        else Reply(st, NotModified(NotUnique))
  }

  /** The (category, subcategory) combination a pair names, when both names are present. */
  function ModelKeys(ms: seq<CategorizerModel>): set<(string, string)> {
    set m | m in ms && m.category.Some? && m.subcategory.Some? :: (m.category.value, m.subcategory.value)
  }

  /** A pair `AddSubcategory` would store: a non-empty subcategory under a stored category. */
  predicate Addable(st: Store, m: CategorizerModel) {
    m.category.Some? && m.subcategory.Some? && m.subcategory.value != [] && m.category.value in CategoryNames(st)
  }

  /** The store after adding the pairs `xs` one at a time, in order: a left fold of `AddSubcategory`. */
  function BulkStore(st: Store, xs: seq<CategorizerModel>): (r: Store)
    ensures r.categories == st.categories
    ensures Valid(st) ==> Valid(r)
    decreases |xs|
  {
    if xs == [] then st
    else
      var x := xs[|xs| - 1];
      AddSubcategory(BulkStore(st, xs[..|xs| - 1]), x.category, x.subcategory).store
  }

  /** The input pairs whose own `AddSubcategory` succeeded, in input order. */
  function BulkAccepted(st: Store, xs: seq<CategorizerModel>): (r: seq<CategorizerModel>)
    ensures |r| <= |xs|
    decreases |xs|
  {
    if xs == [] then []
    else
      var init := xs[..|xs| - 1];
      var x := xs[|xs| - 1];
      var one := AddSubcategory(BulkStore(st, init), x.category, x.subcategory);
      BulkAccepted(st, init) + (if one.response.Ok? then [x] else [])
  }

  /**
   * What a bulk add does to the store: exactly the accepted pairs are added,
   * each was new and named a stored category, none is accepted twice, and
   * each comes from the input. Conversely, every input pair that names a
   * stored category and a non-empty subcategory is stored afterwards, whether
   * it was accepted or already there.
   */
  lemma BulkAddEffect(st: Store, xs: seq<CategorizerModel>)
    ensures Pairs(BulkStore(st, xs)) == Pairs(st) + ModelKeys(BulkAccepted(st, xs))
    ensures forall m :: m in BulkAccepted(st, xs) ==>
      && m in xs
      && m.category.Some? && m.subcategory.Some? && m.subcategory.value != []
      && m.category.value in CategoryNames(st)
      && (m.category.value, m.subcategory.value) !in Pairs(st)
    ensures Seqs.Distinct(BulkAccepted(st, xs))
    ensures forall m :: m in xs && Addable(st, m) ==> (m.category.value, m.subcategory.value) in Pairs(BulkStore(st, xs))
  {
    BulkAcceptedEffect(st, xs);
    BulkStoresAddable(st, xs);
  }

  /** The accepted pairs: what they add, where they come from, and that none repeats. */
  lemma {:induction false} BulkAcceptedEffect(st: Store, xs: seq<CategorizerModel>)
    ensures Pairs(BulkStore(st, xs)) == Pairs(st) + ModelKeys(BulkAccepted(st, xs))
    ensures forall m :: m in BulkAccepted(st, xs) ==>
      && m in xs
      && m.category.Some? && m.subcategory.Some? && m.subcategory.value != []
      && m.category.value in CategoryNames(st)
      && (m.category.value, m.subcategory.value) !in Pairs(st)
    ensures Seqs.Distinct(BulkAccepted(st, xs))
    decreases |xs|
  {
    if xs != [] {
      var init := xs[..|xs| - 1];
      var x := xs[|xs| - 1];
      BulkAcceptedEffect(st, init);
      var prev := BulkStore(st, init);
      var acc := BulkAccepted(st, init);
      var one := AddSubcategory(prev, x.category, x.subcategory);
      assert forall m :: m in init ==> m in xs;
      if one.response.Ok? {
        var k := (x.category.value, x.subcategory.value);
        assert ModelKeys(acc + [x]) == ModelKeys(acc) + {k};
        assert k !in Pairs(st);
        assert x !in acc;
        forall i, j | 0 <= i < j < |acc + [x]| ensures (acc + [x])[i] != (acc + [x])[j] {
          if j == |acc| {
            assert (acc + [x])[i] in acc;
          }
        }
      } else {
        assert acc + [] == acc;
      }
    }
  }

  /** Every addable input pair is stored once the whole list has been folded in. */
  lemma {:induction false} BulkStoresAddable(st: Store, xs: seq<CategorizerModel>)
    ensures forall m :: m in xs && Addable(st, m) ==> (m.category.value, m.subcategory.value) in Pairs(BulkStore(st, xs))
    decreases |xs|
  {
    if xs != [] {
      var init := xs[..|xs| - 1];
      var x := xs[|xs| - 1];
      BulkStoresAddable(st, init);
      BulkStepStoresInput(BulkStore(st, init), x);
      assert forall m :: m in xs ==> m in init || m == x;
    }
  }

  /**
   * One `AddSubcategory` keeps every stored pair, and afterwards its own pair
   * is stored when it names a stored category and a non-empty subcategory.
   */
  lemma BulkStepStoresInput(prev: Store, x: CategorizerModel)
    ensures Pairs(prev) <= Pairs(AddSubcategory(prev, x.category, x.subcategory).store)
    ensures Addable(prev, x) ==>
      (x.category.value, x.subcategory.value) in Pairs(AddSubcategory(prev, x.category, x.subcategory).store)
  {
  }

  /**
   * The pair `addSubcategories` reports for an accepted input, rebuilt from
   * the returned Subcategory's parent name and own name, is the input pair.
   */
  lemma AcceptedEntryIsInputPair(st: Store, x: CategorizerModel)
    requires AddSubcategory(st, x.category, x.subcategory).response.Ok?
    ensures AddSubcategory(st, x.category, x.subcategory).response.entity.SubcategoryEntity?
    ensures FromSubcategory(AddSubcategory(st, x.category, x.subcategory).response.entity.subcategory) == x
  {
  }

  /** One more input pair extends the fold and the accepted list by that pair's own add. */
  lemma BulkStep(st: Store, xs: seq<CategorizerModel>, i: nat)
    requires i < |xs|
    ensures var one := AddSubcategory(BulkStore(st, xs[..i]), xs[i].category, xs[i].subcategory);
      && BulkStore(st, xs[..i + 1]) == one.store
      && BulkAccepted(st, xs[..i + 1]) == BulkAccepted(st, xs[..i]) + (if one.response.Ok? then [xs[i]] else [])
  {
    var prefix := xs[..i + 1];
    assert prefix[..|prefix| - 1] == xs[..i] && prefix[|prefix| - 1] == xs[i];
  }

  /**
   * `addSubcategories`: a null or empty list is refused; otherwise each pair
   * is added in turn and the response is 200 with the pairs that went in,
   * even if none did.
   */
  method AddSubcategories(st: Store, list: Option<seq<CategorizerModel>>) returns (r: Reply)
    ensures list.None? || list.value == [] ==> r == Reply(st, NotModified(EmptyList))
    ensures list.Some? && list.value != [] ==>
      && r.store == BulkStore(st, list.value)
      && r.response == Ok(ModelList(BulkAccepted(st, list.value)))
    ensures Valid(st) ==> Valid(r.store)
  {
    if list.None? || |list.value| == 0 {
      return Reply(st, NotModified(EmptyList));
    }
    var xs := list.value;
    var current := st;
    var added: seq<CategorizerModel> := [];
    var i := 0;
    while i < |xs|
      invariant 0 <= i <= |xs|
      invariant current == BulkStore(st, xs[..i])
      invariant added == BulkAccepted(st, xs[..i])
    {
      var one := AddSubcategory(current, xs[i].category, xs[i].subcategory);
      BulkStep(st, xs, i);
      if Status(one.response) == 200 {
        AcceptedEntryIsInputPair(current, xs[i]);
        added := added + [FromSubcategory(one.response.entity.subcategory)];
      }
      current := one.store;
      i := i + 1;
    }
    assert xs[..i] == xs;
    return Reply(current, Ok(ModelList(added)));
  }

  /**
   * `deleteCategory`: refused when no category has that name (null included);
   * otherwise the category and all its subcategories are deleted.
   */
  function DeleteCategory(st: Store, name: Option<string>): (r: Reply)
    ensures r.response == NoContent <==> name.Some? && name.value in CategoryNames(st)
    ensures r.response == NoContent ==>
      && CategoryNames(r.store) == CategoryNames(st) - {name.value}
      && Pairs(r.store) == set p | p in Pairs(st) && p.0 != name.value
      && forall c: Category :: c.name != name.value ==> ChildrenOf(r.store, c) == ChildrenOf(st, c)
    ensures r.response != NoContent ==> r == Reply(st, NotModified(NotFound))
    ensures Valid(st) ==> Valid(r.store)
  {
    match CR.FindOneByName(st, name)
    case None => Reply(st, NotModified(NotFound))
    case Some(c) => Reply(CascadeDelete(st, c), NoContent)
  }

  /**
   * `deleteSubcategory`: keyed by both names; refused when either is null or
   * the combination is not stored, otherwise exactly that row is deleted.
   */
  function DeleteSubcategory(st: Store, cat: Option<string>, sub: Option<string>): (r: Reply)
    ensures r.response == NoContent <==> cat.Some? && sub.Some? && (cat.value, sub.value) in Pairs(st)
    ensures r.response == NoContent ==>
      && Pairs(r.store) == Pairs(st) - {(cat.value, sub.value)}
      && r.store.categories == st.categories
      && (Valid(st) ==> |r.store.subcategories| == |st.subcategories| - 1)
    ensures r.response != NoContent ==> r == Reply(st, NotModified(NotFound))
    ensures Valid(st) ==> Valid(r.store)
  {
    match SR.FindOneByNameAndCategory(st, cat, sub)
    case None => Reply(st, NotModified(NotFound))
    case Some(s) => Reply(DeleteRow(st, s), NoContent)
  }

  /** `deleteAllSubcategories`: every subcategory goes, every category stays. */
  function DeleteAllSubcategories(st: Store): (r: Reply)
    ensures r.response == NoContent
    ensures Pairs(r.store) == {}
    ensures CategoryNames(r.store) == CategoryNames(st) && r.store.categories == st.categories
    ensures forall c :: ChildrenOf(r.store, c) == []
    ensures Valid(st) ==> Valid(r.store)
  {
    Reply(Store(st.categories, []), NoContent)
  }

  /** `findAllCategoryNames`: each stored category name, once. */
  function FindAllCategoryNames(st: Store): (r: seq<string>)
    ensures forall n :: n in r <==> n in CategoryNames(st)
    ensures Valid(st) ==> Seqs.Distinct(r)
  {
    CR.FindAllNames(st)
  }

  /** `findAllCategories`, on the corrected query: every category with its children. */
  function FindAllCategories(st: Store): (r: seq<CR.CategoryView>)
    ensures forall c :: c in st.categories <==> CR.ViewOf(st, c) in r
    ensures forall v :: v in r ==> v == CR.ViewOf(st, v.category)
  {
    CR.FindAllCategories(st)
  }

  /**
   * `findAllCategorySubcategoryNames`: the stored (category, subcategory)
   * combinations whose category is stored, which in a valid store is all.
   */
  function FindAllCategorySubcategoryNames(st: Store): (r: seq<(string, string)>)
    ensures forall p :: p in r ==> p in Pairs(st)
    ensures Valid(st) ==> forall p :: p in r <==> p in Pairs(st)
    ensures Valid(st) ==> Seqs.Distinct(r)
  {
    SR.FindAllNames(st)
  }

  /**
   * `findAllSubcategories`: every stored subcategory row, with its parent,
   * once each under a valid store.
   */
  function FindAllSubcategories(st: Store): (r: seq<Subcategory>)
    ensures |r| == |st.subcategories|
    ensures forall s :: s in r <==> s in st.subcategories
    ensures forall s :: s in r ==> Key(s) in Pairs(st)
    ensures Valid(st) ==> Seqs.Distinct(r)
  {
    assert Valid(st) ==> Seqs.Distinct(st.subcategories) by {
      UniqueKeysDistinct(st.subcategories);
    }
    st.subcategories
  }

  /** The pair of each subcategory row, in table order. */
  function ModelsOf(subs: seq<Subcategory>): (r: seq<CategorizerModel>)
    ensures |r| == |subs|
    ensures forall i :: 0 <= i < |subs| ==> r[i] == FromSubcategory(subs[i])
  {
    seq(|subs|, i requires 0 <= i < |subs| => FromSubcategory(subs[i]))
  }

  /**
   * `dump`: always 200 with two rows: one name pair per stored subcategory,
   * then the category counts, largest first. Nothing is changed.
   */
  function Dump(st: Store): (r: Reply)
    ensures r.store == st
    ensures r.response.Ok? && r.response.entity.Snapshot?
    ensures |r.response.entity.pairs| == |st.subcategories|
    ensures forall m :: m in r.response.entity.pairs ==>
      m.category.Some? && m.subcategory.Some? && (m.category.value, m.subcategory.value) in Pairs(st)
    ensures forall p :: p in Pairs(st) ==> CategorizerModel(Some(p.0), Some(p.1)) in r.response.entity.pairs
    ensures Valid(st) ==> CR.IsCategoryCounts(st, r.response.entity.counts)
  {
    var subs := FindAllSubcategories(st);
    var pairs := ModelsOf(subs);
    assert forall m :: m in pairs ==> (m.category.value, m.subcategory.value) in Pairs(st) by {
      forall m | m in pairs ensures (m.category.value, m.subcategory.value) in Pairs(st) {
        var i :| 0 <= i < |pairs| && pairs[i] == m;
        assert subs[i] in subs;
      }
    }
    assert forall p :: p in Pairs(st) ==> CategorizerModel(Some(p.0), Some(p.1)) in pairs by {
      forall p | p in Pairs(st) ensures CategorizerModel(Some(p.0), Some(p.1)) in pairs {
        var s :| s in subs && Key(s) == p;
        var i :| 0 <= i < |subs| && subs[i] == s;
        assert pairs[i] == CategorizerModel(Some(p.0), Some(p.1));
      }
    }
    Reply(st, Ok(Snapshot(pairs, CR.FindCategoryAndCounts(st))))
  }

  /**
   * The categories `initialize` adds: none when the setting is null or empty;
   * the empty case is short-cut, but the parser would give none for it too.
   */
  function DefaultTokens(defaults: Option<string>): (tokens: seq<string>)
    ensures defaults.None? ==> tokens == []
    ensures forall t :: t in tokens ==> t != [] && ',' !in t
    ensures defaults.Some? ==> forall t :: t in tokens ==> DefaultsParser.IsToken(t)
    ensures defaults.Some? ==> tokens == DefaultsParser.ParseDefaults(defaults.value)
  {
    DefaultsParser.ParseEmpty();
    if defaults.None? || defaults.value == [] then [] else DefaultsParser.ParseDefaults(defaults.value)
  }

  /** `addCategory` for each name in turn, keeping only the store. */
  function AddCategories(st: Store, names: seq<string>): (r: Store)
    ensures CategoryNames(r) == CategoryNames(st) + (set t | t in names && t != [])
    ensures r.subcategories == st.subcategories
    ensures Valid(st) ==> Valid(r)
    decreases |names|
  {
    if names == [] then st
    else
      var init := names[..|names| - 1];
      var n := names[|names| - 1];
      var prev := AddCategories(st, init);
      assert forall t :: t in names <==> t in init || t == n;
      AddCategory(prev, Some(n)).store
  }

  /**
   * `initialize`: the parsed default categories are added one after another.
   * Duplicates and already stored names are refused one by one, so the final
   * set of names does not depend on their order or repetition.
   */
  function Initialize(st: Store, defaults: Option<string>): (r: Store)
    ensures CategoryNames(r) == CategoryNames(st) + (set t | t in DefaultTokens(defaults))
    ensures r.subcategories == st.subcategories
    ensures Valid(st) ==> Valid(r)
  {
    AddCategories(st, DefaultTokens(defaults))
  }
}

/**
 * The queries of `CategoryRepository`, as pure functions of the store: the
 * two derived-name queries and the three JPQL queries.
 */
module CategoryRepository {
  import opened Wrappers
  import opened Entities
  import opened Stores
  import Seqs

  /** The first category row with name `n`, if any. */
  function FirstNamed(cats: seq<Category>, n: string): (r: Option<Category>)
    ensures r.Some? ==> r.value in cats && r.value.name == n
    ensures r.None? ==> n !in NameSet(cats)
  {
    if cats == [] then None
    else if cats[0].name == n then Some(cats[0])
    else FirstNamed(cats[1..], n)
  }

  /**
   * `findOneByName`: the category whose name equals the argument, or null.
   * A null argument derives an `IS NULL` test, which no stored name meets.
   */
  function FindOneByName(st: Store, name: Option<string>): (r: Option<Category>)
    ensures r.Some? <==> name.Some? && name.value in CategoryNames(st)
    ensures r.Some? ==> r.value == Category(name.value) && r.value in st.categories
  {
    if name.None? then None else FirstNamed(st.categories, name.value)
  }

  /** How many category rows carry name `n`. */
  function CountNamed(cats: seq<Category>, n: string): (k: nat)
    ensures k == 0 <==> n !in NameSet(cats)
    ensures UniqueNames(cats) ==> k <= 1
  {
    if cats == [] then 0
    else
      assert NameSet(cats) == {cats[0].name} + NameSet(cats[1..]);
      assert UniqueNames(cats) ==> UniqueNames(cats[1..]) && cats[0].name !in NameSet(cats[1..]) by {
        if UniqueNames(cats) { UniqueNamesTail(cats); }
      }
      (if cats[0].name == n then 1 else 0) + CountNamed(cats[1..], n)
  }

  /**
   * `countByName`: the number of categories with that name. It is 1 exactly
   * when the name is stored, and never more than 1 under the unique constraint.
   */
  function CountByName(st: Store, name: Option<string>): (r: nat)
    ensures r == 0 <==> name.None? || name.value !in CategoryNames(st)
    ensures Valid(st) ==> r <= 1
  {
    if name.None? then 0 else CountNamed(st.categories, name.value)
  }

  /** `findAllNames` (`select name from Category`): every stored name, once each. */
  function FindAllNames(st: Store): (r: seq<string>)
    ensures |r| == |st.categories|
    ensures forall n :: n in r <==> n in CategoryNames(st)
    ensures Valid(st) ==> Seqs.Distinct(r)
  {
    var cats := st.categories;
    var r := seq(|cats|, i requires 0 <= i < |cats| => cats[i].name);
    assert forall n :: n in r ==> n in CategoryNames(st) by {
      forall n | n in r ensures n in CategoryNames(st) {
        var i :| 0 <= i < |r| && r[i] == n;
        assert cats[i] in cats;
      }
    }
    assert forall n :: n in CategoryNames(st) ==> n in r by {
      forall n | n in CategoryNames(st) ensures n in r {
        var c :| c in cats && c.name == n;
        var i :| 0 <= i < |cats| && cats[i] == c;
        assert r[i] == n;
      }
    }
    r
  }

  /** A category serialised with its `subcategories` collection populated. */
  datatype CategoryView = CategoryView(category: Category, subcategories: seq<Subcategory>)

  /** The view of one category, its collection filled from the subcategory table. */
  function ViewOf(st: Store, c: Category): (v: CategoryView)
    ensures v.category == c
    ensures forall s :: s in v.subcategories <==> s in st.subcategories && s.category == c
  {
    CategoryView(c, ChildrenOf(st, c))
  }

  /**
   * `findAllWithChildren` as written (`select c from Category c join fetch
   * c.subcategories`): an inner join, so it yields one row per joined
   * (category, subcategory) pair, taken here in subcategory-table order. A
   * category appears once per child, and a category without children does
   * not appear at all.
   */
  function FindAllWithChildren(st: Store): (r: seq<CategoryView>)
    ensures forall v :: v in r ==> v.category in st.categories && |v.subcategories| >= 1
    ensures forall v :: v in r ==> v == ViewOf(st, v.category)
    ensures forall c :: c in st.categories && ChildrenOf(st, c) != [] ==> ViewOf(st, c) in r
    ensures Valid(st) ==> |r| == |st.subcategories|
    ensures forall c :: c in st.categories ==> multiset(r)[ViewOf(st, c)] == |ChildrenOf(st, c)|
  {
    var joined := Seqs.Filter(st.subcategories, (s: Subcategory) => s.category in st.categories);
    var r := ParentViews(st, joined);
    JoinedViewsHaveChildren(st, joined, r);
    JoinedViewsCoverParents(st, joined, r);
    forall c | c in st.categories ensures multiset(r)[ViewOf(st, c)] == |ChildrenOf(st, c)| {
      Seqs.FilterOfFilter(st.subcategories, (s: Subcategory) => s.category in st.categories,
                          (s: Subcategory) => s.category == c);
      ParentViewsCount(st, joined, c, (s: Subcategory) => s.category == c);
    }
    assert Valid(st) ==> joined == st.subcategories by {
      if Valid(st) { ParentsStoredKeepsAll(st.subcategories, st.categories); }
    }
    r
  }

  /** One populated view of the parent per joined subcategory row, in row order. */
  function ParentViews(st: Store, joined: seq<Subcategory>): (r: seq<CategoryView>)
    ensures |r| == |joined|
    ensures forall i :: 0 <= i < |joined| ==> r[i] == ViewOf(st, joined[i].category)
  {
    seq(|joined|, i requires 0 <= i < |joined| => ViewOf(st, joined[i].category))
  }

  /** A category's view occurs once per joined row that it is the parent of. */
  lemma {:induction false} ParentViewsCount(st: Store, joined: seq<Subcategory>, c: Category, p: Subcategory -> bool)
    requires forall s :: p(s) <==> s.category == c
    ensures multiset(ParentViews(st, joined))[ViewOf(st, c)] == |Seqs.Filter(joined, p)|
    decreases |joined|
  {
    if joined != [] {
      ParentViewsCount(st, joined[1..], c, p);
      assert ParentViews(st, joined) == [ViewOf(st, joined[0].category)] + ParentViews(st, joined[1..]);
    }
  }

  /** Every joined row names a stored parent, and that parent has this row as a child. */
  lemma JoinedViewsHaveChildren(st: Store, joined: seq<Subcategory>, r: seq<CategoryView>)
    requires forall s :: s in joined ==> s in st.subcategories && s.category in st.categories
    requires r == ParentViews(st, joined)
    ensures forall v :: v in r ==> v.category in st.categories && |v.subcategories| >= 1
    ensures forall v :: v in r ==> v == ViewOf(st, v.category)
  {
    forall v | v in r ensures v.category in st.categories && |v.subcategories| >= 1 {
      var i :| 0 <= i < |r| && r[i] == v;
      assert joined[i] in joined;
      assert joined[i] in v.subcategories;
    }
  }

  /** Every stored category with a child is the parent of some joined row. */
  lemma JoinedViewsCoverParents(st: Store, joined: seq<Subcategory>, r: seq<CategoryView>)
    requires forall s :: s in st.subcategories && s.category in st.categories ==> s in joined
    requires r == ParentViews(st, joined)
    ensures forall c :: c in st.categories && ChildrenOf(st, c) != [] ==> ViewOf(st, c) in r
  {
    forall c | c in st.categories && ChildrenOf(st, c) != [] ensures ViewOf(st, c) in r {
      var s := ChildrenOf(st, c)[0];
      assert s in ChildrenOf(st, c);
      assert s in joined;
      var i :| 0 <= i < |joined| && joined[i] == s;
      assert r[i] == ViewOf(st, c);
    }
  }

  /** When every parent is stored, the inner join drops no subcategory row. */
  lemma {:induction false} ParentsStoredKeepsAll(subs: seq<Subcategory>, cats: seq<Category>)
    requires forall s :: s in subs ==> s.category in cats
    ensures Seqs.Filter(subs, (s: Subcategory) => s.category in cats) == subs
    decreases |subs|
  {
    if subs != [] {
      ParentsStoredKeepsAll(subs[1..], cats);
    }
  }

  /**
   * `findAllWithChildren` as the service's documentation describes it ("all
   * categories"): every stored category once, with its children populated,
   * in table order; a `left join fetch` with `distinct`.
   */
  function FindAllCategories(st: Store): (r: seq<CategoryView>)
    ensures |r| == |st.categories|
    ensures forall c :: c in st.categories <==> ViewOf(st, c) in r
    ensures forall v :: v in r ==> v == ViewOf(st, v.category)
    ensures Valid(st) ==> Seqs.Distinct(r)
  {
    var cats := st.categories;
    var r := seq(|cats|, i requires 0 <= i < |cats| => ViewOf(st, cats[i]));
    assert forall c :: ViewOf(st, c) in r ==> c in cats by {
      forall c | ViewOf(st, c) in r ensures c in cats {
        var i :| 0 <= i < |r| && r[i] == ViewOf(st, c);
        assert cats[i] == c;
      }
    }
    assert forall c :: c in cats ==> ViewOf(st, c) in r by {
      forall c | c in cats ensures ViewOf(st, c) in r {
        var i :| 0 <= i < |cats| && cats[i] == c;
        assert r[i] == ViewOf(st, c);
      }
    }
    r
  }

  /**
   * The inner join loses categories: a stored category without subcategories
   * is missing from `findAllWithChildren`, though it is in `FindAllCategories`.
   */
  lemma ChildlessCategoryIsDropped(st: Store, c: Category)
    requires c in st.categories && ChildrenOf(st, c) == []
    ensures forall v :: v in FindAllWithChildren(st) ==> v.category != c
    ensures ViewOf(st, c) in FindAllCategories(st)
  {
  }

  /** A concrete instance: one stored category and no subcategories. */
  lemma ChildlessCategoryExample()
    ensures Valid(Store([Category("PERSON")], []))
    ensures FindAllWithChildren(Store([Category("PERSON")], [])) == []
    ensures |FindAllCategories(Store([Category("PERSON")], []))| == 1
  {
  }

  /** One row of `findCategoryAndCounts`: a category name and its child count. */
  datatype CountRow = CountRow(name: string, count: nat)

  /** The number of stored subcategories whose parent is named `n`. */
  function SubcategoryCount(st: Store, n: string): nat {
    |ChildrenOf(st, Category(n))|
  }

  function RowNames(rows: seq<CountRow>): set<string> {
    set r | r in rows :: r.name
  }

  predicate SortedByCountDesc(rows: seq<CountRow>) {
    forall i, j :: 0 <= i < j < |rows| ==> rows[i].count >= rows[j].count
  }

  predicate UniqueRowNames(rows: seq<CountRow>) {
    forall i, j :: 0 <= i < j < |rows| ==> rows[i].name != rows[j].name
  }

  /**
   * What any answer of `select c.name, count(sc) as scc from Category c join
   * c.subcategories sc group by c.name order by scc desc` satisfies, whatever
   * order it puts equal counts in.
   */
  ghost predicate IsCategoryCounts(st: Store, rows: seq<CountRow>) {
    && (forall r :: r in rows ==> r.count == SubcategoryCount(st, r.name) && r.count >= 1)
    && SortedByCountDesc(rows)
    && UniqueRowNames(rows)
    && (forall n :: n in RowNames(rows) <==> n in CategoryNames(st) && SubcategoryCount(st, n) >= 1)
  }

  /** The grouping step: one row per category (in table order) with children. */
  function Group(st: Store, cats: seq<Category>): (rows: seq<CountRow>)
    ensures forall r :: r in rows ==> r.count == SubcategoryCount(st, r.name) && r.count >= 1
    ensures forall n :: n in RowNames(rows) <==> n in NameSet(cats) && SubcategoryCount(st, n) >= 1
    ensures UniqueNames(cats) ==> UniqueRowNames(rows)
  {
    if cats == [] then []
    else
      var c := cats[0];
      var rest := Group(st, cats[1..]);
      assert NameSet(cats) == {c.name} + NameSet(cats[1..]);
      assert UniqueNames(cats) ==> UniqueNames(cats[1..]) && c.name !in NameSet(cats[1..]) by {
        if UniqueNames(cats) { UniqueNamesTail(cats); }
      }
      assert c == Category(c.name);
      if SubcategoryCount(st, c.name) >= 1 then
        var rows := [CountRow(c.name, SubcategoryCount(st, c.name))] + rest;
        assert RowNames(rows) == {c.name} + RowNames(rest);
        assert UniqueNames(cats) ==> UniqueRowNames(rows) by {
          if UniqueNames(cats) { UniqueRowNamesCons(rows); }
        }
        rows
      else rest
  }

  /** Dropping the first row keeps row names unique, and the first name is not among the rest. */
  lemma UniqueRowNamesTail(s: seq<CountRow>)
    requires s != [] && UniqueRowNames(s)
    ensures UniqueRowNames(s[1..])
    ensures s[0].name !in RowNames(s[1..])
  {
    forall y | y in s[1..] ensures y.name != s[0].name {
      var j :| 0 <= j < |s[1..]| && s[1..][j] == y;
      assert s[1..][j] == s[j + 1];
    }
  }

  /** A first row whose name is new in front of rows with unique names. */
  lemma UniqueRowNamesCons(s: seq<CountRow>)
    requires s != [] && UniqueRowNames(s[1..]) && s[0].name !in RowNames(s[1..])
    ensures UniqueRowNames(s)
  {
    forall i, j | 0 <= i < j < |s| ensures s[i].name != s[j].name {
      assert s[j] == s[1..][j - 1];
      if i > 0 {
        assert s[i] == s[1..][i - 1];
      } else {
        assert s[j] in s[1..];
      }
    }
  }

  /** Rows sorted by descending count stay sorted without their first row. */
  lemma SortedTail(s: seq<CountRow>)
    requires s != [] && SortedByCountDesc(s)
    ensures SortedByCountDesc(s[1..])
    ensures forall y :: y in s[1..] ==> y.count <= s[0].count
  {
    forall i, j | 0 <= i < j < |s[1..]| ensures s[1..][i].count >= s[1..][j].count {
      assert s[1..][i] == s[i + 1] && s[1..][j] == s[j + 1];
    }
    forall y | y in s[1..] ensures y.count <= s[0].count {
      var j :| 0 <= j < |s[1..]| && s[1..][j] == y;
      assert s[1..][j] == s[j + 1];
    }
  }

  /** A first row whose count bounds the rest, in front of sorted rows. */
  lemma SortedCons(s: seq<CountRow>)
    requires s != [] && SortedByCountDesc(s[1..])
    requires forall y :: y in s[1..] ==> y.count <= s[0].count
    ensures SortedByCountDesc(s)
  {
    forall i, j | 0 <= i < j < |s| ensures s[i].count >= s[j].count {
      assert s[j] == s[1..][j - 1];
      if i > 0 {
        assert s[i] == s[1..][i - 1];
      } else {
        assert s[j] in s[1..];
      }
    }
  }

  /** Putting `x` in front of rows whose counts it bounds keeps them sorted and unique. */
  lemma InsertFront(x: CountRow, s: seq<CountRow>)
    requires s != [] && x.count >= s[0].count
    ensures SortedByCountDesc(s) ==> SortedByCountDesc([x] + s)
    ensures UniqueRowNames(s) && x.name !in RowNames(s) ==> UniqueRowNames([x] + s)
  {
    var r := [x] + s;
    assert r[1..] == s;
    if SortedByCountDesc(s) { SortedTail(s); SortedCons(r); }
    if UniqueRowNames(s) && x.name !in RowNames(s) { UniqueRowNamesCons(r); }
  }

  /** Keeping the first row in front of `rest`, where `x` went into the tail. */
  lemma InsertBehind(x: CountRow, s: seq<CountRow>, rest: seq<CountRow>)
    requires s != [] && x.count < s[0].count
    requires forall y :: y in rest <==> y == x || y in s[1..]
    requires SortedByCountDesc(s[1..]) ==> SortedByCountDesc(rest)
    requires UniqueRowNames(s[1..]) && x.name !in RowNames(s[1..]) ==> UniqueRowNames(rest)
    ensures SortedByCountDesc(s) ==> SortedByCountDesc([s[0]] + rest)
    ensures UniqueRowNames(s) && x.name !in RowNames(s) ==> UniqueRowNames([s[0]] + rest)
  {
    var r := [s[0]] + rest;
    assert r[1..] == rest;
    if SortedByCountDesc(s) {
      SortedTail(s);
      SortedCons(r);
    }
    if UniqueRowNames(s) && x.name !in RowNames(s) {
      UniqueRowNamesTail(s);
      assert x.name !in RowNames(s[1..]) by {
        assert forall y :: y in s[1..] ==> y in s;
      }
      assert s[0].name !in RowNames(rest);
      UniqueRowNamesCons(r);
    }
  }

  /** Inserts `x` into rows sorted by descending count, before any equal count. */
  function InsertByCount(x: CountRow, s: seq<CountRow>): (r: seq<CountRow>)
    ensures multiset(r) == multiset(s) + multiset{x}
    ensures forall y :: y in r <==> y == x || y in s
    ensures SortedByCountDesc(s) ==> SortedByCountDesc(r)
    ensures UniqueRowNames(s) && x.name !in RowNames(s) ==> UniqueRowNames(r)
  {
    if s == [] then [x]
    else if x.count >= s[0].count then
      InsertFront(x, s);
      [x] + s
    else
      var rest := InsertByCount(x, s[1..]);
      assert s == [s[0]] + s[1..];
      InsertBehind(x, s, rest);
      [s[0]] + rest
  }

  /** Stable insertion sort by descending count. */
  function SortByCountDesc(s: seq<CountRow>): (r: seq<CountRow>)
    ensures multiset(r) == multiset(s)
    ensures forall y :: y in r <==> y in s
    ensures SortedByCountDesc(r)
    ensures UniqueRowNames(s) ==> UniqueRowNames(r)
  {
    if s == [] then []
    else
      var rest := SortByCountDesc(s[1..]);
      assert s == [s[0]] + s[1..];
      assert UniqueRowNames(s) ==> UniqueRowNames(s[1..]) && s[0].name !in RowNames(s[1..]) by {
        if UniqueRowNames(s) { UniqueRowNamesTail(s); }
      }
      assert RowNames(rest) == RowNames(s[1..]);
      InsertByCount(s[0], rest)
  }

  /**
   * `findCategoryAndCounts`: categories that have subcategories, each with its
   * number of subcategories, sorted by that number, largest first. Equal
   * counts keep category-table order here; the query leaves it open.
   */
  function FindCategoryAndCounts(st: Store): (r: seq<CountRow>)
    ensures Valid(st) ==> IsCategoryCounts(st, r)
    ensures forall row :: row in r ==> row.count == SubcategoryCount(st, row.name) && row.count >= 1
    ensures SortedByCountDesc(r)
  {
    var rows := Group(st, st.categories);
    var r := SortByCountDesc(rows);
    assert RowNames(r) == RowNames(rows);
    r
  }
}

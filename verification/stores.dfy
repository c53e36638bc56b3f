/**
 * The database as two tables: the category rows and the subcategory rows, in
 * insertion order. `Valid` is the set of constraints the schema and the
 * service together keep: unique category names, a stored parent for every
 * subcategory, and a unique (category, subcategory) name combination.
 */
module Stores {
  import opened Entities
  import Seqs

  datatype Store = Store(categories: seq<Category>, subcategories: seq<Subcategory>)

  /** The (category name, subcategory name) combination naming a subcategory row. */
  function Key(s: Subcategory): (string, string) {
    (s.category.name, s.name)
  }

  /** The `unique = true` constraint on the category name column. */
  predicate UniqueNames(cats: seq<Category>) {
    forall i, j :: 0 <= i < j < |cats| ==> cats[i].name != cats[j].name
  }

  /** No two subcategory rows share a (category, subcategory) combination. */
  predicate UniqueKeys(subs: seq<Subcategory>) {
    forall i, j :: 0 <= i < j < |subs| ==> Key(subs[i]) != Key(subs[j])
  }

  /** The non-null foreign key: every subcategory's parent is a stored category. */
  predicate ParentsStored(st: Store) {
    forall s :: s in st.subcategories ==> s.category in st.categories
  }

  predicate Valid(st: Store) {
    && UniqueNames(st.categories)
    && ParentsStored(st)
    && UniqueKeys(st.subcategories)
  }

  /** The set of names of some category rows. */
  function NameSet(cats: seq<Category>): set<string> {
    set c | c in cats :: c.name
  }

  /** Dropping the first row keeps names unique, and the first name is not among the rest. */
  lemma UniqueNamesTail(cats: seq<Category>)
    requires cats != [] && UniqueNames(cats)
    ensures UniqueNames(cats[1..])
    ensures cats[0].name !in NameSet(cats[1..])
  {
    forall d | d in cats[1..] ensures d.name != cats[0].name {
      var j :| 0 <= j < |cats[1..]| && cats[1..][j] == d;
      assert cats[1..][j] == cats[j + 1];
    }
  }

  /** The set of stored category names. */
  function CategoryNames(st: Store): set<string> {
    NameSet(st.categories)
  }

  /** The set of stored (category name, subcategory name) combinations. */
  function Pairs(st: Store): set<(string, string)> {
    set s | s in st.subcategories :: Key(s)
  }

  /** A combination names exactly one row: equal keys mean equal rows. */
  lemma KeyIdentifiesRow(a: Subcategory, b: Subcategory)
    ensures Key(a) == Key(b) <==> a == b
  {
  }

  /** Unique combinations and pairwise distinct rows are the same thing. */
  lemma UniqueKeysDistinct(subs: seq<Subcategory>)
    ensures UniqueKeys(subs) <==> Seqs.Distinct(subs)
  {
  }

  /** Inserting a category row with a new name. */
  lemma InsertCategory(st: Store, c: Category)
    requires c.name !in CategoryNames(st)
    ensures CategoryNames(Store(st.categories + [c], st.subcategories)) == CategoryNames(st) + {c.name}
    ensures Valid(st) ==> Valid(Store(st.categories + [c], st.subcategories))
  {
    var cats := st.categories + [c];
    assert forall d :: d in cats <==> d in st.categories || d == c;
    assert NameSet(cats) == NameSet(st.categories) + {c.name};
    if Valid(st) {
      forall i, j | 0 <= i < j < |cats| ensures cats[i].name != cats[j].name {
        if j == |cats| - 1 {
          assert cats[i] in st.categories;
        }
      }
    }
  }

  /** Inserting a subcategory row under a stored parent with a new combination. */
  lemma InsertSubcategory(st: Store, x: Subcategory)
    requires Key(x) !in Pairs(st)
    ensures Pairs(Store(st.categories, st.subcategories + [x])) == Pairs(st) + {Key(x)}
    ensures Valid(st) && x.category in st.categories ==> Valid(Store(st.categories, st.subcategories + [x]))
  {
    var subs := st.subcategories + [x];
    assert forall s :: s in subs <==> s in st.subcategories || s == x;
    if Valid(st) && x.category in st.categories {
      forall i, j | 0 <= i < j < |subs| ensures Key(subs[i]) != Key(subs[j]) {
        if j == |subs| - 1 {
          assert subs[i] in st.subcategories;
        }
      }
    }
  }

  /**
   * The `mappedBy = "category"` association: a category's subcategories are
   * exactly the stored subcategories whose parent it is, in table order.
   */
  function ChildrenOf(st: Store, c: Category): (r: seq<Subcategory>)
    ensures forall s :: s in r <==> s in st.subcategories && s.category == c
    ensures Valid(st) ==> Seqs.Distinct(r)
    ensures |r| <= |st.subcategories|
  {
    assert Valid(st) ==> Seqs.Distinct(st.subcategories) by {
      if Valid(st) { UniqueKeysDistinct(st.subcategories); }
    }
    Seqs.Filter(st.subcategories, (s: Subcategory) => s.category == c)
  }

  /**
   * The store once category `c` is deleted: `cascade = CascadeType.ALL`
   * removes its subcategories along with it.
   */
  function CascadeDelete(st: Store, c: Category): (r: Store)
    ensures forall d :: d in r.categories <==> d in st.categories && d != c
    ensures forall s :: s in r.subcategories <==> s in st.subcategories && s.category != c
    ensures CategoryNames(r) == CategoryNames(st) - {c.name}
    ensures Pairs(r) == set p | p in Pairs(st) && p.0 != c.name
    ensures forall d :: d != c ==> ChildrenOf(r, d) == ChildrenOf(st, d)
    ensures Valid(st) ==> Valid(r)
  {
    var cats := Seqs.Filter(st.categories, (d: Category) => d != c);
    var subs := Seqs.Filter(st.subcategories, (s: Subcategory) => s.category != c);
    var r := Store(cats, subs);
    forall d | d != c ensures ChildrenOf(r, d) == ChildrenOf(st, d) {
      Seqs.FilterOfFilter(st.subcategories, (s: Subcategory) => s.category != c, (s: Subcategory) => s.category == d);
    }
    assert Valid(st) ==> Valid(r) by {
      if Valid(st) {
        forall i, j | 0 <= i < j < |cats| ensures cats[i].name != cats[j].name {
          SubsequenceNames(st.categories, c, i, j);
        }
        UniqueKeysDistinct(st.subcategories);
        UniqueKeysDistinct(subs);
      }
    }
    r
  }

  /** Rows kept by the cascade keep their relative order, so names stay unique. */
  lemma {:induction false} SubsequenceNames(cats: seq<Category>, c: Category, i: int, j: int)
    requires UniqueNames(cats)
    requires 0 <= i < j < |Seqs.Filter(cats, (d: Category) => d != c)|
    ensures Seqs.Filter(cats, (d: Category) => d != c)[i].name != Seqs.Filter(cats, (d: Category) => d != c)[j].name
    decreases |cats|
  {
    var f := Seqs.Filter(cats, (d: Category) => d != c);
    UniqueNamesTail(cats);
    var rest := Seqs.Filter(cats[1..], (d: Category) => d != c);
    if cats[0] != c {
      assert f == [cats[0]] + rest;
      if i == 0 {
        assert f[j] in rest;
        assert f[j] in cats[1..];
      } else {
        SubsequenceNames(cats[1..], c, i - 1, j - 1);
      }
    } else {
      assert f == rest;
      SubsequenceNames(cats[1..], c, i, j);
    }
  }

  /** The store once subcategory row `x` is deleted. */
  function DeleteRow(st: Store, x: Subcategory): (r: Store)
    ensures r.categories == st.categories
    ensures forall s :: s in r.subcategories <==> s in st.subcategories && s != x
    ensures Pairs(r) == Pairs(st) - {Key(x)}
    ensures Valid(st) && x in st.subcategories ==> |r.subcategories| == |st.subcategories| - 1
    ensures Valid(st) ==> Valid(r)
  {
    var subs := Seqs.Filter(st.subcategories, (s: Subcategory) => s != x);
    var r := Store(st.categories, subs);
    assert Pairs(r) == Pairs(st) - {Key(x)} by {
      forall p | p in Pairs(st) - {Key(x)} ensures p in Pairs(r) {
        var s :| s in st.subcategories && Key(s) == p;
        KeyIdentifiesRow(s, x);
      }
    }
    assert Valid(st) ==> Valid(r) by {
      if Valid(st) {
        UniqueKeysDistinct(st.subcategories);
        UniqueKeysDistinct(subs);
      }
    }
    assert Valid(st) && x in st.subcategories ==> |subs| == |st.subcategories| - 1 by {
      if Valid(st) && x in st.subcategories {
        UniqueKeysDistinct(st.subcategories);
        Seqs.FilterOutOne(st.subcategories, x, (s: Subcategory) => s != x);
      }
    }
    r
  }
}

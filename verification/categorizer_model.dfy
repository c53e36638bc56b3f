/**
 * `CategorizerModel`: the (category name, subcategory name) pair that the
 * bulk-add request carries and that the bulk-add and dump responses return.
 * Either name may be null when the pair comes from a request body.
 */
module CategorizerModels {
  import opened Wrappers
  import opened Entities

  /** The two-string constructor is the datatype constructor itself. */
  datatype CategorizerModel = CategorizerModel(category: Option<string>, subcategory: Option<string>)

  /**
   * The constructor that copies a Subcategory's parent name and own name. The
   * two names are all there is to a Subcategory here, so the pair rebuilds it.
   */
  function FromSubcategory(s: Subcategory): (m: CategorizerModel)
    ensures m.category.Some? && m.subcategory.Some?
    ensures Subcategory(m.subcategory.value, Category(m.category.value)) == s
  {
    CategorizerModel(Some(CategoryName(s)), Some(s.name))
  }
}

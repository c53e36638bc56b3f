# Categorizer service, modelled in Dafny

This project models the category/subcategory service of the *categorizer*
application. `CategoryServiceImpl` keeps a two-level taxonomy in a relational
database: categories with unique names, and subcategories under them, where
the (category, subcategory) name combination is unique. The service adds,
bulk-adds, deletes (with cascade), lists and dumps entries, and at start-up
it adds a configured comma-separated list of default categories.

The database is a value, `Stores.Store`: the category table and the
subcategory table as sequences in insertion order. Every service operation
is a pure function from a store and its arguments to a `Reply`: the new
store plus the HTTP response (`Ok(entity)` = 200, `NotModified(reason)` =
304, `NoContent` = 204).

`Stores.Valid` is the invariant the schema and the service keep between them:
- category names are unique (the `unique = true` column constraint);
- every subcategory's parent is stored (the non-null foreign key);
- no (category, subcategory) combination occurs twice. No schema constraint
  covers this: only the check-then-insert in `addSubcategory` keeps it.

Every operation preserves it. Contracts speak about the abstract view
`CategoryNames(st)` (a set of names) and `Pairs(st)` (a set of name
combinations). Java `String` arguments may be null, so they are
`Option<string>`.

Modules, one per source component:
- `Entities`: Category, Subcategory, `getCategoryName`, name-only `equals`,
  and `hashCode` with Java's 32-bit `int` wrap-around written out.
- `CategorizerModels`: the name-pair value.
- `Stores`: the tables, the invariant, insertion, cascade delete, row delete.
- `CategoryRepository` and `SubcategoryRepository`: the derived and JPQL
  queries.
- `DefaultsParser`: Guava's `Splitter.on(',').trimResults().omitEmptyStrings()`.
  "Whitespace" is Guava's `CharMatcher.whitespace()`, the Unicode White_Space
  set.
- `CategoryService`: the operations.
- `ServiceProperties`: properties that relate several calls.
- `Seqs` and `Wrappers`: small generic helpers.

The service's documentation and its code disagree in one place.
`findAllCategories` is documented as returning all categories, but it returns
`findAllWithChildren()`, whose query is an inner `join fetch`. The query as
written is modelled as `CategoryRepository.FindAllWithChildren`, and the
Findings section proves the discrepancy on a concrete store. The service
member `CategoryService.FindAllCategories` then uses the corrected query, so
it models the documented behaviour, not the code's (see Left out).

## Model

| member | source | states |
|---|---|---|
| Entities.Equals | persistence/src/main/java/com/khalichi/categorizer/persistence/entity/Subcategory.java:102-112 | `equals` is true for a Subcategory argument exactly when the names are equal. It is false for null and for any other class. |
| Entities.EqualsIsReflexive | persistence/src/main/java/com/khalichi/categorizer/persistence/entity/Subcategory.java:104-106 | A subcategory equals itself. |
| Entities.EqualsIsSymmetricAndTransitive | persistence/src/main/java/com/khalichi/categorizer/persistence/entity/Subcategory.java:102-112 | `equals` between Subcategory objects is symmetric and transitive. |
| Entities.EqualsIgnoresParent | persistence/src/main/java/com/khalichi/categorizer/persistence/entity/Subcategory.java:110-111 | Same-named subcategories under different parents are different rows, yet compare equal. |
| Entities.ToInt32 | persistence/src/main/java/com/khalichi/categorizer/persistence/entity/Subcategory.java:114-117 | Java `int` wrap-around: the result lies in the 32-bit range and is congruent to the argument modulo 2^32. |
| Entities.CodeUnits | persistence/src/main/java/com/khalichi/categorizer/persistence/entity/Subcategory.java:114-117 | The UTF-16 code units of one character: the character itself in the Basic Multilingual Plane, otherwise a high and a low surrogate that decode back to it. |
| Entities.Utf16 | persistence/src/main/java/com/khalichi/categorizer/persistence/entity/Subcategory.java:114-117 | The `char`s of a Java `String`: between one and two 16-bit units per character, and exactly the characters when all lie in the Basic Multilingual Plane. |
| Entities.StringHashCode | persistence/src/main/java/com/khalichi/categorizer/persistence/entity/Subcategory.java:114-117 | `String.hashCode` of the name is a 32-bit `int`. |
| Entities.HashCode | persistence/src/main/java/com/khalichi/categorizer/persistence/entity/Subcategory.java:114-117 | `Objects.hashCode(name)` is a 32-bit `int`. |
| Entities.EqualSubcategoriesHaveEqualHashCodes | persistence/src/main/java/com/khalichi/categorizer/persistence/entity/Subcategory.java:102-117 | The `hashCode` contract holds: subcategories that are `equals` have equal hash codes. |
| Entities.ToInt32OfCongruent | persistence/src/main/java/com/khalichi/categorizer/persistence/entity/Subcategory.java:114-117 | Values congruent modulo 2^32 wrap to the same `int`. |
| Entities.UnitsHashCodeIsPolynomialModulo | persistence/src/main/java/com/khalichi/categorizer/persistence/entity/Subcategory.java:114-117 | Wrapping after every `31 * h + c` step gives the exact hash polynomial, wrapped once. |
| Entities.StringHashCodeIsPolynomialModulo | persistence/src/main/java/com/khalichi/categorizer/persistence/entity/Subcategory.java:114-117 | `String.hashCode` is the hash polynomial over the string's UTF-16 units, wrapped to 32 bits. |
| Entities.SupplementaryCharacterHash | persistence/src/main/java/com/khalichi/categorizer/persistence/entity/Subcategory.java:114-117 | A character outside the Basic Multilingual Plane hashes as its surrogate pair: U+1F600 is 0xD83D, 0xDE00 and hashes to 1772899. |
| CategorizerModels.FromSubcategory | aggregator/src/main/java/com/khalichi/categorizer/aggregator/model/CategorizerModel.java:18-21 | The pair built from a Subcategory holds both names, and rebuilding a Subcategory from them gives back the original. |
| Stores.KeyIdentifiesRow | persistence/src/main/java/com/khalichi/categorizer/persistence/entity/Subcategory.java:34-42 | With ids left out of the model, a subcategory row is its name and its parent, so the (category name, subcategory name) combination determines it. |
| Stores.UniqueKeysDistinct | aggregator/src/main/java/com/khalichi/categorizer/aggregator/resource/CategoryService.java:43-53 | Unique combinations in the subcategory table is the same as pairwise distinct rows. |
| Stores.InsertCategory | persistence/src/main/java/com/khalichi/categorizer/persistence/entity/Category.java:33-36 | Inserting a category row with a new name adds exactly that name and keeps the store valid. |
| Stores.InsertSubcategory | persistence/src/main/java/com/khalichi/categorizer/persistence/entity/Subcategory.java:39-42 | Inserting a new combination under a stored parent adds exactly that pair and keeps the store valid. |
| Stores.ChildrenOf | persistence/src/main/java/com/khalichi/categorizer/persistence/entity/Category.java:52-54 | A category's subcategories are exactly the stored subcategories whose parent it is, each once in a valid store. |
| Stores.CascadeDelete | persistence/src/main/java/com/khalichi/categorizer/persistence/entity/Category.java:52 | Deleting a category also deletes every subcategory under it. No other category, and no other category's children, change, and validity is kept. |
| Stores.DeleteRow | aggregator/src/main/java/com/khalichi/categorizer/aggregator/resource/CategoryServiceImpl.java:156 | Deleting one subcategory row removes exactly its combination, one row in a valid store, and leaves the categories alone. |
| CategoryRepository.FindOneByName | persistence/src/main/java/com/khalichi/categorizer/persistence/dao/CategoryRepository.java:21-26 | A category is found exactly when the (non-null) name is stored, and it is the stored category of that name. |
| CategoryRepository.CountByName | persistence/src/main/java/com/khalichi/categorizer/persistence/dao/CategoryRepository.java:28-33 | The count is 0 exactly when the name is null or not stored, and never more than 1 in a valid store. |
| CategoryRepository.FindAllNames | persistence/src/main/java/com/khalichi/categorizer/persistence/dao/CategoryRepository.java:35-40 | One name per category row: exactly the stored names, each once in a valid store. |
| CategoryRepository.ViewOf | persistence/src/main/java/com/khalichi/categorizer/persistence/entity/Category.java:52-54 | A category with its collection populated holds exactly its stored children. |
| CategoryRepository.FindAllWithChildren | persistence/src/main/java/com/khalichi/categorizer/persistence/dao/CategoryRepository.java:42-47 | The query as written gives one populated category per joined row. Only stored categories with at least one child appear, all of those appear, and a valid store yields as many rows as subcategories. Each stored category's view occurs once per child it has. |
| CategoryRepository.ParentsStoredKeepsAll | persistence/src/main/java/com/khalichi/categorizer/persistence/dao/CategoryRepository.java:46 | When every parent is stored, the inner join loses no subcategory row. |
| CategoryRepository.FindAllCategories | aggregator/src/main/java/com/khalichi/categorizer/aggregator/resource/CategoryService.java:79-86 | Corrected query: every stored category appears exactly once, with its children populated. |
| CategoryRepository.ChildlessCategoryIsDropped | persistence/src/main/java/com/khalichi/categorizer/persistence/dao/CategoryRepository.java:46-47 | A stored category without subcategories is missing from the query as written, but present in the corrected one. |
| CategoryRepository.ChildlessCategoryExample | persistence/src/main/java/com/khalichi/categorizer/persistence/dao/CategoryRepository.java:46-47 | Concrete input: the valid store holding only PERSON gives an empty result as written, one category when corrected. |
| CategoryRepository.Group | persistence/src/main/java/com/khalichi/categorizer/persistence/dao/CategoryRepository.java:53 | The `group by` step: one row per category that has children, carrying its true child count (at least 1), with unique names. |
| CategoryRepository.InsertByCount | persistence/src/main/java/com/khalichi/categorizer/persistence/dao/CategoryRepository.java:53 | Inserting one row into rows sorted by descending count gives a permutation of the old rows plus the new one, still sorted and with unique names. |
| CategoryRepository.SortByCountDesc | persistence/src/main/java/com/khalichi/categorizer/persistence/dao/CategoryRepository.java:53 | `order by scc desc` returns a permutation of its input sorted by non-increasing count, keeping names unique. |
| CategoryRepository.FindCategoryAndCounts | persistence/src/main/java/com/khalichi/categorizer/persistence/dao/CategoryRepository.java:49-54 | Exactly the categories with children, each once with its number of subcategories (at least 1), largest first. In a valid store this satisfies the tie-order-independent reference `IsCategoryCounts`. |
| SubcategoryRepository.FindOneByNameAndCategory | persistence/src/main/java/com/khalichi/categorizer/persistence/dao/SubcategoryRepository.java:22-24 | A row is found exactly when both names are non-null and the combination is stored. The row found has that name and a parent of that name, so a same-named row under another category is never returned. |
| SubcategoryRepository.AtMostOneMatchingRow | persistence/src/main/java/com/khalichi/categorizer/persistence/dao/SubcategoryRepository.java:22-24 | In a valid store at most one row matches a (category, subcategory) lookup. |
| SubcategoryRepository.ModelIdentifiesStoredSubcategory | persistence/src/main/java/com/khalichi/categorizer/persistence/dao/SubcategoryRepository.java:22-24 | Looking up the name pair of a stored subcategory returns that very row. |
| SubcategoryRepository.FindAllNames | persistence/src/main/java/com/khalichi/categorizer/persistence/dao/SubcategoryRepository.java:26-27 | The path `category.name` is an implicit inner join: one row per subcategory whose parent is stored. Every such combination is listed and only stored ones are. In a valid store, that is every stored combination, each once. |
| DefaultsParser.Split | aggregator/src/main/java/com/khalichi/categorizer/aggregator/resource/CategoryServiceImpl.java:183 | `Splitter.on(',')` gives at least one piece, and no piece contains the separator. |
| DefaultsParser.JoinSplit | aggregator/src/main/java/com/khalichi/categorizer/aggregator/resource/CategoryServiceImpl.java:183 | Joining the pieces with the separator gives back the input. |
| DefaultsParser.SplitJoin | aggregator/src/main/java/com/khalichi/categorizer/aggregator/resource/CategoryServiceImpl.java:183 | Splitting a join of separator-free pieces gives back the pieces. |
| DefaultsParser.Trim | aggregator/src/main/java/com/khalichi/categorizer/aggregator/resource/CategoryServiceImpl.java:183 | `trimResults()` removes exactly the leading and trailing whitespace. The result is a contiguous slice that neither starts nor ends with whitespace. |
| DefaultsParser.TrimKeepsCharacters | aggregator/src/main/java/com/khalichi/categorizer/aggregator/resource/CategoryServiceImpl.java:183 | Trimming only removes characters: everything in the result was in the input. |
| DefaultsParser.TrimIdempotent | aggregator/src/main/java/com/khalichi/categorizer/aggregator/resource/CategoryServiceImpl.java:183 | Trimming twice is the same as trimming once. |
| DefaultsParser.ParseDefaults | aggregator/src/main/java/com/khalichi/categorizer/aggregator/resource/CategoryServiceImpl.java:183 | The tokens are exactly the non-empty trimmed comma-separated pieces. Each is non-empty, contains no comma, and has no surrounding whitespace, and there are never more tokens than pieces. |
| DefaultsParser.ParseEmpty | aggregator/src/main/java/com/khalichi/categorizer/aggregator/resource/CategoryServiceImpl.java:182-183 | The empty setting parses to no tokens, so the `isNullOrEmpty` guard changes nothing for it. |
| DefaultsParser.ParseJoin | aggregator/src/main/java/com/khalichi/categorizer/aggregator/resource/CategoryServiceImpl.java:183 | Parsing the comma-join of valid tokens, including none, gives back those tokens in order. |
| DefaultsParser.ParseExample | aggregator/src/main/java/com/khalichi/categorizer/aggregator/resource/CategoryServiceImpl.java:183 | Spaces after commas and empty entries are dropped: `"a, b,,"` parses to `a` and `b`. |
| CategoryService.AddCategory | aggregator/src/main/java/com/khalichi/categorizer/aggregator/resource/CategoryServiceImpl.java:54-66 | Ok exactly when the name is non-null, non-empty and new. Then the entity is a category of that name, exactly that name is added, and nothing else changes. A null/empty name is NotModified(NullOrEmptyName), an existing one NotModified(AlreadyExists), and both leave the store unchanged. Validity is kept. |
| CategoryService.AddSubcategory | aggregator/src/main/java/com/khalichi/categorizer/aggregator/resource/CategoryServiceImpl.java:71-89 | Ok exactly when the subcategory name is non-empty, the category is stored, and the combination is new. Then exactly that combination is added under the stored category and returned. Every other case is NotModified with its own reason and leaves the store unchanged. Validity is kept. |
| CategoryService.BulkStore | aggregator/src/main/java/com/khalichi/categorizer/aggregator/resource/CategoryServiceImpl.java:102-108 | The left fold of `addSubcategory` over the input never changes the categories, and it keeps the store valid. |
| CategoryService.BulkAccepted | aggregator/src/main/java/com/khalichi/categorizer/aggregator/resource/CategoryServiceImpl.java:101-108 | The accepted pairs are never more than the input pairs. |
| CategoryService.BulkAddEffect | aggregator/src/main/java/com/khalichi/categorizer/aggregator/resource/CategoryServiceImpl.java:94-110 | The fold adds exactly the accepted combinations. Each accepted pair comes from the input, names a stored category and a non-empty new subcategory, and no pair is accepted twice. Conversely, every input pair with a non-empty subcategory under a stored category is stored afterwards. |
| CategoryService.AcceptedEntryIsInputPair | aggregator/src/main/java/com/khalichi/categorizer/aggregator/resource/CategoryServiceImpl.java:103-106 | The pair reported for an accepted entry, rebuilt from the returned Subcategory, equals the input pair. |
| CategoryService.AddSubcategories | aggregator/src/main/java/com/khalichi/categorizer/aggregator/resource/CategoryServiceImpl.java:94-110 | A null or empty list is NotModified(EmptyList) and leaves the store unchanged. Otherwise the loop's store is the left fold, the response is always 200 with the accepted pairs in input order, and validity is kept. |
| CategoryService.DeleteCategory | aggregator/src/main/java/com/khalichi/categorizer/aggregator/resource/CategoryServiceImpl.java:139-146 | NoContent exactly when the name is non-null and stored. Then the category and every combination under it are gone, and other categories keep their children. Otherwise NotModified(NotFound) with the store unchanged. |
| CategoryService.DeleteSubcategory | aggregator/src/main/java/com/khalichi/categorizer/aggregator/resource/CategoryServiceImpl.java:151-158 | NoContent exactly when both names are non-null and the combination is stored. Then exactly that combination (one row) is removed and the categories stay. Otherwise NotModified(NotFound) with the store unchanged. |
| CategoryService.DeleteAllSubcategories | aggregator/src/main/java/com/khalichi/categorizer/aggregator/resource/CategoryServiceImpl.java:163-166 | Always NoContent. No combination is left, every category stays with no children, and validity is kept. |
| CategoryService.FindAllCategoryNames | aggregator/src/main/java/com/khalichi/categorizer/aggregator/resource/CategoryServiceImpl.java:114-116 | Exactly the stored category names, each once in a valid store. |
| CategoryService.FindAllCategories | aggregator/src/main/java/com/khalichi/categorizer/aggregator/resource/CategoryService.java:79-86 | Every stored category, and only those, with its children populated. |
| CategoryService.FindAllSubcategories | aggregator/src/main/java/com/khalichi/categorizer/aggregator/resource/CategoryServiceImpl.java:126-129 | Exactly the stored subcategory rows, with parents, each once in a valid store. |
| CategoryService.FindAllCategorySubcategoryNames | aggregator/src/main/java/com/khalichi/categorizer/aggregator/resource/CategoryServiceImpl.java:132-134 | Only stored combinations. In a valid store, exactly the stored combinations, each once. |
| CategoryService.Dump | aggregator/src/main/java/com/khalichi/categorizer/aggregator/resource/CategoryServiceImpl.java:170-175 | Always 200 with two rows, and the store unchanged. The first row has one name pair per subcategory row, and its pairs are exactly the stored combinations. The second row is the category-count list, largest first. |
| CategoryService.DefaultTokens | aggregator/src/main/java/com/khalichi/categorizer/aggregator/resource/CategoryServiceImpl.java:182-183 | A null setting gives no tokens, and any other setting gives exactly what the parser gives, the empty one included. Every token is non-empty, comma-free and has no surrounding whitespace. |
| CategoryService.AddCategories | aggregator/src/main/java/com/khalichi/categorizer/aggregator/resource/CategoryServiceImpl.java:184 | Adding names one after another gives exactly the old names plus the non-empty given names. Subcategories are untouched and validity is kept. |
| CategoryService.Initialize | aggregator/src/main/java/com/khalichi/categorizer/aggregator/resource/CategoryServiceImpl.java:181-186 | After start-up the category names are the old ones plus the parsed default tokens. Subcategories are untouched and validity is kept. |
| ServiceProperties.AddCategoryTwice | aggregator/src/test/java/com/khalichi/categorizer/aggregator/resource/CategoryServiceTest.java:69-72 | Adding a name a second time is NotModified(AlreadyExists) with the store unchanged, and the name is listed exactly once. |
| ServiceProperties.AddSubcategoryTwice | aggregator/src/test/java/com/khalichi/categorizer/aggregator/resource/CategoryServiceTest.java:96-106 | Adding a combination a second time is NotModified(NotUnique) with the store unchanged, and the combination is listed exactly once. |
| ServiceProperties.SameNameUnderAnotherCategory | aggregator/src/main/java/com/khalichi/categorizer/aggregator/resource/CategoryService.java:43-53 | Uniqueness is per category: a subcategory name stored under one category can still be added under another. |
| ServiceProperties.DeleteCategoryCascades | aggregator/src/test/java/com/khalichi/categorizer/aggregator/resource/CategoryServiceTest.java:135-141 | After deleting a category, its name is not found or counted, none of its subcategories can be looked up, and no listed combination names it. |
| ServiceProperties.AddedSubcategoryRecordsArguments | persistence/src/main/java/com/khalichi/categorizer/persistence/entity/Subcategory.java:62-66 | An added subcategory has the given name and the stored parent of the given name (so `getCategoryName` is the given category), and it is stored. |
| ServiceProperties.BulkAddSkipsDuplicate | aggregator/src/main/java/com/khalichi/categorizer/aggregator/resource/CategoryServiceImpl.java:102-108 | A bulk add of one new pair and one stored pair accepts only the new pair. |
| ServiceProperties.InitializeOrderIndependent | aggregator/src/main/java/com/khalichi/categorizer/aggregator/resource/CategoryServiceImpl.java:184 | Adding the default names in any order, with any repetition, gives the same set of category names. |
| ServiceProperties.DumpOfEmptyStore | aggregator/src/main/java/com/khalichi/categorizer/aggregator/resource/CategoryService.java:137-146 | Dumping an empty store gives 200 with two empty rows. |
| ServiceProperties.EqualsCoarserThanStoreIdentity | persistence/src/main/java/com/khalichi/categorizer/persistence/entity/Subcategory.java:102-112 | A valid store can hold two different subcategory rows that `equals` calls equal. |
| ServiceProperties.PersonExample | aggregator/src/test/java/com/khalichi/categorizer/aggregator/resource/CategoryServiceTest.java:93-106 | Under PERSON: "Joe King" is added and returned, re-adding it is NotModified, and deleting PERSON leaves no combinations. |

## Left out

- Message texts of the 304 responses are left out; each refusal carries a `Reason` instead. This includes the unformatted `%s` in `deleteCategory`'s message.
- Logging, and the JAX-RS `Response` construction done by `RESTUtils`, are left out.
- Generated ids, creation timestamps and `@Version` optimistic-locking tokens are left out. They carry no decision logic, and there is no clock or identity generator to model.
- JSON serialisation (`@JsonProperty`/`@JsonIgnore`) and the HTTP routes are left out. So are the Spring, CXF and Swagger wiring, the JSON parse-exception mapper and the reflection-based log injection: they are framework glue.
- Transactions, and the database as a concurrent system, are left out. Every operation is one atomic step on the store, so the check-then-insert race between concurrent requests is not represented.
- `initialize` dispatches its additions on a parallel stream. The model applies them sequentially in token order. `ServiceProperties.InitializeOrderIndependent` shows that the final set of names does not depend on the order.
- A null element inside the bulk-add list is not modelled (in Java the loop dereferences it and throws). Null names inside an element are modelled.
- Immutability of names and parents (`updatable = false`) holds by construction: no operation updates a row. The public setters on the entities are not called by the service and are not modelled.
- Entity identity inside one persistence context, and the duplicate instances Hibernate returns from a `join fetch`, are not modelled. A duplicated category is one `CategoryView` entry per joined row.
- Several guarantees are proved only for stores satisfying `Stores.Valid`: at most one match, distinct listings, exact counts, and a complete combination listing. Every operation preserves `Valid`, and the empty store satisfies it. Name uniqueness and stored parents are schema constraints. Combination uniqueness has no schema constraint: only `addSubcategory`'s check-then-insert keeps it, so a row written past the service could break it.
- CategoryRepository.FindCategoryAndCounts: the query leaves the order of equal counts open. The model keeps category-table order for ties, and its contract allows any tie order (`IsCategoryCounts`).
- Entities.StringHashCode: the contract states the 32-bit range only. The value is pinned down by `Entities.StringHashCodeIsPolynomialModulo`, which equates it with the polynomial over the UTF-16 units, wrapped to 32 bits.
- CategoryService.FindAllCategories: models the documented behaviour (every category once, with its children) through the corrected query. The code as written returns the inner-join result, which `CategoryRepository.FindAllWithChildren` models and the Findings row contrasts with the corrected one.
- Entities.HashCode: the contract states the 32-bit range only. The value itself, `31 + name.hashCode()` wrapped to 32 bits, is related to the hash polynomial by `Entities.StringHashCodeIsPolynomialModulo`.
- The integration test's fixture data file and pre-seeded database are not modelled. The test's assertions are restated as lemmas instead.

## Findings

| source | as written | input that shows it | evidently intended | confidence | as-written member | corrected member |
|---|---|---|---|---|---|---|
| persistence/src/main/java/com/khalichi/categorizer/persistence/dao/CategoryRepository.java:46-47 | `select c from Category c join fetch c.subcategories` is an inner join. A category without subcategories is not returned, and a category with n subcategories is returned n times. | A store holding only category PERSON, with no subcategories: the query returns an empty list. | "Finds all category objects": every category once, children populated (a `left join fetch` with `distinct`). This is what `findAllCategories` documents. | not executed; high | CategoryRepository.FindAllWithChildren | CategoryRepository.FindAllCategories |

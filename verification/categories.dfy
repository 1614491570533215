/** The category tool's data access: listing with filters and counts, reading
    one category with its counts, and the guard that refuses to delete a
    category still in use. Tables are sequences of rows; each query's failure
    is an input. */
module Categories {
  import opened Base
  import Formatters
  import Sorting

  datatype Category = Category(
    id: string,
    name: string,
    parentId: Option<string>,
    sortOrder: Option<int>,
    isActive: Option<bool>)

  datatype Product = Product(id: string, categoryId: Option<string>, deletedAt: Option<nat>)

  datatype Db = Db(categories: seq<Category>, products: seq<Product>)

  /** A category with the two counts the tool shows. */
  datatype CategoryWithCounts = CategoryWithCounts(category: Category, productCount: nat, subcategoryCount: nat)

  /** Which queries fail, and the error the database reports. The two count
      queries run once per category, so their failures are given per
      category id: the ids whose products count, or subcategories count,
      fails. */
  datatype Faults = Faults(
    queryFails: bool,
    productCountFails: set<string>,
    subcategoryCountFails: set<string>,
    deleteFails: bool,
    dbError: string)

  // ---------------------------------------------------------------------------
  // Counts

  predicate IsLiveProductOf(p: Product, id: string) {
    p.categoryId == Some(id) && p.deletedAt.None?
  }

  /** The products query's filter: `.eq('category_id', id).is('deleted_at', null)`. */
  function LiveOf(id: string): Product -> bool {
    p => IsLiveProductOf(p, id)
  }

  /** Products of category `id` that are not soft-deleted: the rows the
      products query selects, counted. */
  function LiveProducts(ps: seq<Product>, id: string): (n: nat)
    ensures n == |Filter(ps, LiveOf(id))|
    ensures n <= |ps|
    ensures n == 0 <==> forall i :: 0 <= i < |ps| ==> !IsLiveProductOf(ps[i], id)
    decreases |ps|
  {
    if |ps| == 0 then 0 else (if IsLiveProductOf(ps[0], id) then 1 else 0) + LiveProducts(ps[1..], id)
  }

  predicate IsChildOf(c: Category, id: string, activeOnly: bool) {
    c.parentId == Some(id) && (activeOnly ==> c.isActive == Some(true))
  }

  /** The subcategories query's filter: `.eq('parent_id', id)`, with
      `.eq('is_active', true)` when `activeOnly`. */
  function ChildrenOf(id: string, activeOnly: bool): Category -> bool {
    c => IsChildOf(c, id, activeOnly)
  }

  /** Categories whose parent is `id`, restricted to active ones when
      `activeOnly`: the rows the subcategories query selects, counted. */
  function Children(cs: seq<Category>, id: string, activeOnly: bool): (n: nat)
    ensures n == |Filter(cs, ChildrenOf(id, activeOnly))|
    ensures n <= |cs|
    ensures n == 0 <==> forall i :: 0 <= i < |cs| ==> !IsChildOf(cs[i], id, activeOnly)
    decreases |cs|
  {
    if |cs| == 0 then 0
    else (if IsChildOf(cs[0], id, activeOnly) then 1 else 0) + Children(cs[1..], id, activeOnly)
  }

  /** Active children are some of the children. */
  lemma {:induction false} ActiveChildrenAreFewer(cs: seq<Category>, id: string)
    ensures Children(cs, id, true) <= Children(cs, id, false)
    decreases |cs|
  {
    if |cs| > 0 {
      ActiveChildrenAreFewer(cs[1..], id);
    }
  }

  /** The counts attached to a category: the number of live products and of
      active children; a failed count shows as 0 (`count || 0`). */
  function WithCounts(db: Db, c: Category, faults: Faults): (r: CategoryWithCounts)
    ensures r.category == c
    ensures r.productCount
         == (if c.id in faults.productCountFails then 0 else |Filter(db.products, LiveOf(c.id))|)
    ensures r.subcategoryCount
         == (if c.id in faults.subcategoryCountFails then 0 else |Filter(db.categories, ChildrenOf(c.id, true))|)
  {
    CategoryWithCounts(
      c,
      if c.id in faults.productCountFails then 0 else LiveProducts(db.products, c.id),
      if c.id in faults.subcategoryCountFails then 0 else Children(db.categories, c.id, true))
  }

  // ---------------------------------------------------------------------------
  // Listing

  datatype ParentFilter = AnyParent | RootsOnly | ChildOf(parentId: string)

  /** `CategoryFilters`; an absent field filters nothing. */
  datatype Filters = Filters(search: Option<string>, isActive: Option<bool>, parent: ParentFilter)

  /** `needle` occurs in `hay` at offset `i`. */
  predicate OccursAt(needle: string, hay: string, i: int) {
    0 <= i <= |hay| - |needle| && hay[i..i + |needle|] == needle
  }

  predicate IsSubstring(needle: string, hay: string) {
    exists i :: 0 <= i <= |hay| && OccursAt(needle, hay, i)
  }

  /** `ilike('name', '%search%')` for ASCII text: a case-insensitive substring. */
  predicate NameContains(name: string, search: string) {
    IsSubstring(Formatters.Lower(search), Formatters.Lower(name))
  }

  predicate Matches(c: Category, f: Filters) {
    && (Truthy(f.search) ==> NameContains(c.name, f.search.value))
    && (f.isActive.Some? ==> c.isActive == f.isActive)
    && (match f.parent
        case AnyParent => true
        case RootsOnly => c.parentId.None?
        case ChildOf(p) => c.parentId == Some(p))
  }

  function Selected(cs: seq<Category>, f: Filters): (r: seq<Category>)
    ensures forall c :: c in r ==> c in cs && Matches(c, f)
    ensures forall c :: c in cs && Matches(c, f) ==> c in r
    ensures multiset(r) <= multiset(cs)
    decreases |cs|
  {
    if |cs| == 0 then []
    else
      assert cs == [cs[0]] + cs[1..];
      (if Matches(cs[0], f) then [cs[0]] else []) + Selected(cs[1..], f)
  }

  /** `order('sort_order').order('name')`: ascending sort order with nulls
      last, then the name order `le`. */
  predicate CategoryBefore(le: (string, string) -> bool, a: Category, b: Category) {
    match (a.sortOrder, b.sortOrder)
    case (Some(x), Some(y)) => x < y || (x == y && le(a.name, b.name))
    case (Some(_), None) => true
    case (None, Some(_)) => false
    case (None, None) => le(a.name, b.name)
  }

  function CategoryBeforeBy(le: (string, string) -> bool): (Category, Category) -> bool {
    (a: Category, b: Category) => CategoryBefore(le, a, b)
  }

  /** `listCategories`: the matching categories in order with their counts;
      a failed query gives no rows and the error. */
  function ListCategories(db: Db, filters: Filters, faults: Faults, le: (string, string) -> bool)
    : (r: (seq<CategoryWithCounts>, Option<string>))
    ensures faults.queryFails ==> r == ([], Some(faults.dbError))
    ensures !faults.queryFails ==> r.1.None?
    ensures forall k :: 0 <= k < |r.0| ==> r.0[k] == WithCounts(db, r.0[k].category, faults)
    ensures !faults.queryFails ==> multiset(CategoriesOf(r.0)) == multiset(Selected(db.categories, filters))
  {
    if faults.queryFails then ([], Some(faults.dbError))
    else (AddCounts(db, Sorting.SortBy(Selected(db.categories, filters), CategoryBeforeBy(le)), faults), None)
  }

  function CategoriesOf(rows: seq<CategoryWithCounts>): (r: seq<Category>)
    ensures |r| == |rows| && forall k :: 0 <= k < |r| ==> r[k] == rows[k].category
  {
    seq(|rows|, k requires 0 <= k < |rows| => rows[k].category)
  }

  /** Each category with its counts, in the same order. */
  function AddCounts(db: Db, cs: seq<Category>, faults: Faults): (r: seq<CategoryWithCounts>)
    ensures CategoriesOf(r) == cs
    ensures forall k :: 0 <= k < |r| ==> r[k] == WithCounts(db, cs[k], faults)
  {
    seq(|cs|, k requires 0 <= k < |cs| => WithCounts(db, cs[k], faults))
  }

  /** A total, transitive name order makes the category order total and transitive. */
  lemma CategoryOrder(le: (string, string) -> bool)
    requires Sorting.Total(le) && Sorting.Transitive(le)
    ensures Sorting.Total(CategoryBeforeBy(le)) && Sorting.Transitive(CategoryBeforeBy(le))
  {
    var lt := CategoryBeforeBy(le);
    forall a: Category, b: Category
      ensures lt(a, b) || lt(b, a)
    {
      assert le(a.name, b.name) || le(b.name, a.name);
    }
    forall a: Category, b: Category, c: Category | lt(a, b) && lt(b, c)
      ensures lt(a, c)
    {
      assert le(a.name, b.name) && le(b.name, c.name) ==> le(a.name, c.name);
    }
  }

  /** Every listed category matches the filters, every matching category is
      listed, and under a total order on names the list is ordered by sort
      order (nulls last) and then by name. */
  lemma ListedAreMatchingAndOrdered(db: Db, filters: Filters, faults: Faults, le: (string, string) -> bool)
    requires !faults.queryFails
    requires Sorting.Total(le) && Sorting.Transitive(le)
    ensures var rows := ListCategories(db, filters, faults, le).0;
            && (forall k :: 0 <= k < |rows| ==> Matches(rows[k].category, filters) && rows[k].category in db.categories)
            && (forall c :: c in db.categories && Matches(c, filters) ==> exists k :: 0 <= k < |rows| && rows[k].category == c)
            && (forall i, j :: 0 <= i < j < |rows| ==> CategoryBefore(le, rows[i].category, rows[j].category))
  {
    var sorted := Sorting.SortBy(Selected(db.categories, filters), CategoryBeforeBy(le));
    ListedRows(db, filters, faults, le);
    SortedSelection(db.categories, filters, le);
    RowsCarry(ListCategories(db, filters, faults, le).0, sorted, db.categories, filters, le);
  }

  /** What holds of the categories in order holds of the rows that carry them. */
  lemma RowsCarry(rows: seq<CategoryWithCounts>, sorted: seq<Category>, cs: seq<Category>, filters: Filters,
                  le: (string, string) -> bool)
    requires CategoriesOf(rows) == sorted
    requires forall k :: 0 <= k < |sorted| ==> Matches(sorted[k], filters) && sorted[k] in cs
    requires forall c :: c in cs && Matches(c, filters) ==> c in sorted
    requires forall i, j :: 0 <= i < j < |sorted| ==> CategoryBefore(le, sorted[i], sorted[j])
    ensures forall k :: 0 <= k < |rows| ==> Matches(rows[k].category, filters) && rows[k].category in cs
    ensures forall c :: c in cs && Matches(c, filters) ==> exists k :: 0 <= k < |rows| && rows[k].category == c
    ensures forall i, j :: 0 <= i < j < |rows| ==> CategoryBefore(le, rows[i].category, rows[j].category)
  {
    assert |rows| == |sorted| && forall k :: 0 <= k < |rows| ==> rows[k].category == sorted[k];
    forall c | c in cs && Matches(c, filters)
      ensures exists k :: 0 <= k < |rows| && rows[k].category == c
    {
      var k :| 0 <= k < |sorted| && sorted[k] == c;
      assert rows[k].category == c;
    }
  }

  /** The listed rows carry the sorted selection, in order. */
  lemma ListedRows(db: Db, filters: Filters, faults: Faults, le: (string, string) -> bool)
    requires !faults.queryFails
    ensures CategoriesOf(ListCategories(db, filters, faults, le).0)
         == Sorting.SortBy(Selected(db.categories, filters), CategoryBeforeBy(le))
  {
  }

  /** The selection, sorted: exactly the matching categories, in category order. */
  lemma SortedSelection(cs: seq<Category>, filters: Filters, le: (string, string) -> bool)
    requires Sorting.Total(le) && Sorting.Transitive(le)
    ensures var sorted := Sorting.SortBy(Selected(cs, filters), CategoryBeforeBy(le));
            && (forall k :: 0 <= k < |sorted| ==> Matches(sorted[k], filters) && sorted[k] in cs)
            && (forall c :: c in cs && Matches(c, filters) ==> c in sorted)
            && (forall i, j :: 0 <= i < j < |sorted| ==> CategoryBefore(le, sorted[i], sorted[j]))
  {
    var sel := Selected(cs, filters);
    var lt := CategoryBeforeBy(le);
    var sorted := Sorting.SortBy(sel, lt);
    CategoryOrder(le);
    Sorting.SortBySorted(sel, lt);
    forall k | 0 <= k < |sorted|
      ensures Matches(sorted[k], filters) && sorted[k] in cs
    {
      assert sorted[k] in multiset(sorted);
    }
    forall c | c in cs && Matches(c, filters)
      ensures c in sorted
    {
      assert c in multiset(sel);
      assert c in multiset(sorted);
    }
  }

  /** Roots only: with `parent_id: null` every listed category has no parent. */
  lemma RootsFilterGivesRoots(db: Db, search: Option<string>, isActive: Option<bool>, faults: Faults,
                              le: (string, string) -> bool)
    requires Sorting.Total(le) && Sorting.Transitive(le) && !faults.queryFails
    ensures var rows := ListCategories(db, Filters(search, isActive, RootsOnly), faults, le).0;
            forall k :: 0 <= k < |rows| ==> rows[k].category.parentId.None?
  {
    ListedAreMatchingAndOrdered(db, Filters(search, isActive, RootsOnly), faults, le);
  }

  // ---------------------------------------------------------------------------
  // One category

  function WithId(cs: seq<Category>, id: string): (r: seq<Category>)
    ensures forall c :: c in r ==> c in cs && c.id == id
    decreases |cs|
  {
    if |cs| == 0 then [] else (if cs[0].id == id then [cs[0]] else []) + WithId(cs[1..], id)
  }

  /** `getCategory`: `.single()` needs exactly one row with that id; anything
      else, like a failed query, is an error and no data. */
  function GetCategory(db: Db, id: string, faults: Faults): (r: Option<CategoryWithCounts>)
    ensures r.Some? <==> !faults.queryFails && |WithId(db.categories, id)| == 1
    ensures r.Some? ==> r.value.category.id == id && r.value.category in db.categories
                        && r.value == WithCounts(db, r.value.category, faults)
  {
    var found := WithId(db.categories, id);
    if faults.queryFails || |found| != 1 then None
    else
      assert found[0] in found;
      Some(WithCounts(db, found[0], faults))
  }

  // ---------------------------------------------------------------------------
  // Deletion

  datatype DeleteResult = Deleted | NotDeleted(error: string)

  const HasProducts := "Cannot delete category with products"
  const HasSubcategories := "Cannot delete category with subcategories"

  /** `deleteCategory`: refused while a live product uses the category, then
      while any category, active or not, has it as parent; otherwise the
      rows with that id are removed. A failed count reads as `null`, which
      lets the guard pass. */
  function DeleteCategory(db: Db, id: string, faults: Faults): (r: (Db, DeleteResult))
    ensures r.1.Deleted? ==> r.0.products == db.products
                             && forall c :: c in r.0.categories <==> c in db.categories && c.id != id
    ensures r.1.NotDeleted? ==> r.0 == db
    ensures id !in faults.productCountFails && LiveProducts(db.products, id) > 0 ==> r.1 == NotDeleted(HasProducts)
    ensures (id in faults.productCountFails || LiveProducts(db.products, id) == 0)
            && id !in faults.subcategoryCountFails && Children(db.categories, id, false) > 0
            ==> r.1 == NotDeleted(HasSubcategories)
    ensures r.1.Deleted? <==>
              (id in faults.productCountFails || LiveProducts(db.products, id) == 0)
              && (id in faults.subcategoryCountFails || Children(db.categories, id, false) == 0)
              && !faults.deleteFails
  {
    if id !in faults.productCountFails && LiveProducts(db.products, id) > 0 then (db, NotDeleted(HasProducts))
    else if id !in faults.subcategoryCountFails && Children(db.categories, id, false) > 0 then
      (db, NotDeleted(HasSubcategories))
    else if faults.deleteFails then (db, NotDeleted(faults.dbError))
    else (db.(categories := WithoutId(db.categories, id)), Deleted)
  }

  function WithoutId(cs: seq<Category>, id: string): (r: seq<Category>)
    ensures forall c :: c in r <==> c in cs && c.id != id
    decreases |cs|
  {
    if |cs| == 0 then [] else (if cs[0].id != id then [cs[0]] else []) + WithoutId(cs[1..], id)
  }

  /** With every query answering, a category is deleted exactly when no live
      product uses it and no category names it as parent. */
  lemma DeleteGuard(db: Db, id: string, faults: Faults)
    requires id !in faults.productCountFails && id !in faults.subcategoryCountFails && !faults.deleteFails
    ensures DeleteCategory(db, id, faults).1.Deleted? <==>
              (forall i :: 0 <= i < |db.products| ==> !IsLiveProductOf(db.products[i], id))
              && (forall i :: 0 <= i < |db.categories| ==> db.categories[i].parentId != Some(id))
  {
  }

  /** A soft-deleted product does not block deletion. */
  lemma SoftDeletedProductsDoNotBlock(db: Db, id: string, faults: Faults, p: Product)
    requires p.categoryId == Some(id) && p.deletedAt.Some?
    ensures DeleteCategory(db.(products := db.products + [p]), id, faults) .1
         == DeleteCategory(db, id, faults).1
  {
    LiveProductsAppend(db.products, p, id);
  }

  lemma {:induction false} LiveProductsAppend(ps: seq<Product>, p: Product, id: string)
    ensures LiveProducts(ps + [p], id) == LiveProducts(ps, id) + (if IsLiveProductOf(p, id) then 1 else 0)
    decreases |ps|
  {
    if |ps| == 0 {
      assert [p][1..] == [];
    } else {
      assert (ps + [p])[1..] == ps[1..] + [p];
      LiveProductsAppend(ps[1..], p, id);
    }
  }

  /** The guard is stricter than the count the tool shows: a category with
      only inactive children shows no subcategories yet cannot be deleted. */
  lemma InactiveChildBlocksDeletion()
    ensures var parent := Category("c1", "Robes", None, Some(1), Some(true));
            var child := Category("c2", "Archives", Some("c1"), None, Some(false));
            var db := Db([parent, child], []);
            var ok := Faults(false, {}, {}, false, "");
            && WithCounts(db, parent, ok).subcategoryCount == 0
            && DeleteCategory(db, "c1", ok).1 == NotDeleted(HasSubcategories)
  {
    var parent := Category("c1", "Robes", None, Some(1), Some(true));
    var child := Category("c2", "Archives", Some("c1"), None, Some(false));
    var cs := [parent, child];
    assert cs[1..] == [child];
    assert [child][1..] == [];
    assert Children(cs, "c1", true) == 0;
    assert Children(cs, "c1", false) == 1;
  }
}

/**
  The product repository: the query pipeline (search, sort, soft-delete filter,
  projection) over the products table, the defaults for a missing query, and the
  field-restricted update.
 */
module ProductRepository {
  import opened Wrappers

  datatype FlagBoolean = FALSE | TRUE

  /** A row of the products table; times are instants on one clock. */
  datatype Product = Product(
    id: int,
    name: string,
    description: string,
    price: real,
    createdAt: int,
    updatedAt: Option<int>,
    flagDel: FlagBoolean)

  datatype ListSortDirection = Ascending | Descending

  datatype ProductQueryParams = ProductQueryParams(
    pageNumber: int,
    pageSize: int,
    searchTerm: Option<string>,
    sortProperty: Option<string>,
    sortOrder: Option<ListSortDirection>,
    flagDel: Option<FlagBoolean>)

  /** `new ProductQueryParams()`: page 1 of 10, no search, no sort, no soft-delete filter. */
  const DefaultQueryParams: ProductQueryParams := ProductQueryParams(1, 10, None, None, None, None)

  /** String.Contains, as plain substring matching. */
  predicate Contains(s: string, t: string) {
    exists i | 0 <= i <= |s| - |t| :: OccursAt(s, t, i)
  }

  predicate OccursAt(s: string, t: string, i: int)
    requires 0 <= i <= |s| - |t|
  {
    s[i..i + |t|] == t
  }

  predicate MatchesSearch(p: Product, term: string) {
    Contains(p.name, term) || Contains(p.description, term)
  }

  /** The elements of `ps` that satisfy `keep`, in their order. */
  function Filter(ps: seq<Product>, keep: Product -> bool): (r: seq<Product>)
    ensures |r| <= |ps|
    ensures forall i | 0 <= i < |r| :: keep(r[i])
    ensures forall p :: p in r <==> p in ps && keep(p)
    ensures multiset(r) <= multiset(ps)
  {
    if ps == [] then []
    else
      var rest := Filter(ps[1..], keep);
      assert ps == [ps[0]] + ps[1..];
      if keep(ps[0]) then [ps[0]] + rest else rest
  }

  /** Filtering keeps the relative order of what it keeps. */
  lemma {:induction false} FilterKeepsOrder(ps: seq<Product>, keep: Product -> bool, key: Product -> int)
    requires SortedBy(ps, key)
    ensures SortedBy(Filter(ps, keep), key)
  {
    if ps != [] {
      var tail := ps[1..];
      SortedTail(ps, key);
      FilterKeepsOrder(tail, keep, key);
      var rest := Filter(tail, keep);
      if keep(ps[0]) {
        forall y | y in rest
          ensures key(ps[0]) <= key(y)
        {
          var j :| 0 <= j < |tail| && tail[j] == y;
          assert ps[j + 1] == y;
        }
        SortedCons(ps[0], rest, key);
      }
    }
  }

  lemma SortedTail(ps: seq<Product>, key: Product -> int)
    requires ps != [] && SortedBy(ps, key)
    ensures SortedBy(ps[1..], key)
  {
    var tail := ps[1..];
    forall i, j | 0 <= i < j < |tail|
      ensures key(tail[i]) <= key(tail[j])
    {
      assert tail[i] == ps[i + 1] && tail[j] == ps[j + 1];
    }
  }

  lemma SortedCons(x: Product, r: seq<Product>, key: Product -> int)
    requires SortedBy(r, key)
    requires forall y | y in r :: key(x) <= key(y)
    ensures SortedBy([x] + r, key)
  {
    var s := [x] + r;
    forall i, j | 0 <= i < j < |s|
      ensures key(s[i]) <= key(s[j])
    {
      assert s[j] == r[j - 1];
      if i > 0 {
        assert s[i] == r[i - 1];
      }
    }
  }

  predicate SortedBy(ps: seq<Product>, key: Product -> int) {
    forall i, j | 0 <= i < j < |ps| :: key(ps[i]) <= key(ps[j])
  }

  /** A bound below every element of `s` and below `x` is below every element of a permutation of `s` plus `x`. */
  lemma LowerBoundOfPermutation(r: seq<Product>, s: seq<Product>, x: Product, key: Product -> int, b: int)
    requires multiset(r) == multiset(s) + multiset{x}
    requires b <= key(x) && forall k | 0 <= k < |s| :: b <= key(s[k])
    ensures forall y | y in r :: b <= key(y)
  {
    forall y | y in r
      ensures b <= key(y)
    {
      assert y in multiset(r);
      if y != x {
        assert y in multiset(s);
        var k :| 0 <= k < |s| && s[k] == y;
      }
    }
  }

  /** Inserts `x` before the first element whose key is not smaller. */
  function Insert(x: Product, ps: seq<Product>, key: Product -> int): (r: seq<Product>)
    requires SortedBy(ps, key)
    ensures SortedBy(r, key)
    ensures multiset(r) == multiset(ps) + multiset{x}
  {
    if ps == [] || key(x) <= key(ps[0]) then
      SortedCons(x, ps, key);
      [x] + ps
    else
      var tail := ps[1..];
      SortedTail(ps, key);
      var rest := Insert(x, tail, key);
      assert ps == [ps[0]] + tail;
      assert forall k | 0 <= k < |tail| :: key(ps[0]) <= key(tail[k]) by {
        forall k | 0 <= k < |tail|
          ensures key(ps[0]) <= key(tail[k])
        {
          assert tail[k] == ps[k + 1];
        }
      }
      LowerBoundOfPermutation(rest, tail, x, key, key(ps[0]));
      SortedCons(ps[0], rest, key);
      [ps[0]] + rest
  }

  /** OrderBy on `key`: the same products, in non-decreasing key order. */
  function SortBy(ps: seq<Product>, key: Product -> int): (r: seq<Product>)
    ensures SortedBy(r, key)
    ensures multiset(r) == multiset(ps)
  {
    if ps == [] then []
    else
      assert ps == [ps[0]] + ps[1..];
      Insert(ps[0], SortBy(ps[1..], key), key)
  }

  /**
    The ordering step. `rank` is the chosen sort property's order, as an integer rank;
    resolving the property name to that order is not part of this model.
   */
  function Order(ps: seq<Product>, direction: ListSortDirection, rank: Product -> int): seq<Product> {
    if direction == Ascending then SortBy(ps, rank) else SortBy(ps, p => -rank(p))
  }

  function SearchStep(ps: seq<Product>, q: ProductQueryParams): seq<Product> {
    if q.searchTerm.None? || q.searchTerm.value == "" then ps
    else Filter(ps, p => MatchesSearch(p, q.searchTerm.value))
  }

  function SortStep(ps: seq<Product>, q: ProductQueryParams, rank: Product -> int): seq<Product> {
    if q.sortProperty.Some? && q.sortOrder.Some? then Order(ps, q.sortOrder.value, rank) else ps
  }

  /** The soft-delete filter of `q`, keeping everything when it has none. */
  function FlagFilter(q: ProductQueryParams): Product -> bool {
    (p: Product) => q.flagDel.None? || p.flagDel == q.flagDel.value
  }

  function FlagDelStep(ps: seq<Product>, q: ProductQueryParams): seq<Product> {
    if q.flagDel.None? then ps else Filter(ps, FlagFilter(q))
  }

  function Project(ps: seq<Product>, selector: Option<Product -> Product>): (r: seq<Product>)
    ensures |r| == |ps|
  {
    if selector.None? then ps else seq(|ps|, i requires 0 <= i < |ps| => selector.value(ps[i]))
  }

  /** QueryAndSelect: search, then sort, then the soft-delete filter, then the projection. */
  function QueryAndSelect(ps: seq<Product>, q: Option<ProductQueryParams>, rank: Product -> int,
                          selector: Option<Product -> Product>): seq<Product>
  {
    var filtered :=
      if q.None? then ps
      else FlagDelStep(SortStep(SearchStep(ps, q.value), q.value, rank), q.value);
    Project(filtered, selector)
  }

  /** Whether the query's filters keep `p`. */
  predicate Selected(p: Product, q: ProductQueryParams) {
    && (q.searchTerm.None? || q.searchTerm.value == "" || MatchesSearch(p, q.searchTerm.value))
    && (q.flagDel.None? || p.flagDel == q.flagDel.value)
  }

  /** `Selected` as a filter predicate. */
  function SelectedBy(q: ProductQueryParams): Product -> bool {
    (p: Product) => Selected(p, q)
  }

  /**
    Without a projection, the result holds exactly the input products the filters
    keep, each exactly as often as in the input.
   */
  lemma QueryAndSelectSelects(ps: seq<Product>, q: ProductQueryParams, rank: Product -> int)
    ensures var r := QueryAndSelect(ps, Some(q), rank, None);
      && (forall p :: p in r <==> p in ps && Selected(p, q))
      && multiset(r) == multiset(Filter(ps, SelectedBy(q)))
      && multiset(r) <= multiset(ps)
  {
    var r := QueryAndSelect(ps, Some(q), rank, None);
    var selected := Filter(ps, SelectedBy(q));
    forall p
      ensures multiset(r)[p] == multiset(selected)[p]
    {
      SelectedCount(ps, q, rank, p);
    }
    assert multiset(r) == multiset(selected);
    SameElements(r, selected);
  }

  /** Each product occurs in the result as often as the filters let it through from the input. */
  lemma SelectedCount(ps: seq<Product>, q: ProductQueryParams, rank: Product -> int, p: Product)
    ensures multiset(QueryAndSelect(ps, Some(q), rank, None))[p] == multiset(Filter(ps, SelectedBy(q)))[p]
  {
    var searched := SearchStep(ps, q);
    var sorted := SortStep(searched, q, rank);
    assert multiset(sorted)[p] == multiset(searched)[p];
    FilterCounts(ps, SelectedBy(q), p);
    if q.searchTerm.Some? && q.searchTerm.value != "" {
      FilterCounts(ps, x => MatchesSearch(x, q.searchTerm.value), p);
    }
    if q.flagDel.Some? {
      FilterCounts(sorted, FlagFilter(q), p);
    }
  }

  /** Filtering keeps every copy of a kept element and none of the others. */
  lemma {:induction false} FilterCounts(ps: seq<Product>, keep: Product -> bool, p: Product)
    ensures multiset(Filter(ps, keep))[p] == if keep(p) then multiset(ps)[p] else 0
  {
    if ps != [] {
      var rest := Filter(ps[1..], keep);
      FilterCounts(ps[1..], keep, p);
      assert Filter(ps, keep) == if keep(ps[0]) then [ps[0]] + rest else rest;
      assert ps == [ps[0]] + ps[1..];
      assert multiset(ps) == multiset{ps[0]} + multiset(ps[1..]);
    }
  }

  /** Two sequences with the same multiset have the same elements. */
  lemma SameElements(a: seq<Product>, b: seq<Product>)
    requires multiset(a) == multiset(b)
    ensures forall p :: p in a <==> p in b
  {
    forall p
      ensures p in a <==> p in b
    {
      assert p in a <==> p in multiset(a);
      assert p in b <==> p in multiset(b);
    }
  }

  /**
    With a sort requested the result is in that order, ascending or descending; the
    soft-delete filter after the sort does not disturb it.
   */
  lemma QueryAndSelectOrders(ps: seq<Product>, q: ProductQueryParams, rank: Product -> int)
    requires q.sortProperty.Some? && q.sortOrder.Some?
    ensures q.sortOrder == Some(Ascending) ==> SortedBy(QueryAndSelect(ps, Some(q), rank, None), rank)
    ensures q.sortOrder == Some(Descending) ==> SortedBy(QueryAndSelect(ps, Some(q), rank, None), p => -rank(p))
  {
    var sorted := SortStep(SearchStep(ps, q), q, rank);
    if q.sortOrder.value == Ascending {
      FilterKeepsOrder(sorted, FlagFilter(q), rank);
    } else {
      FilterKeepsOrder(sorted, FlagFilter(q), p => -rank(p));
    }
  }

  /** An empty search term and no filter flag select everything: the query only orders the input. */
  lemma UnfilteredQueryIsPermutation(ps: seq<Product>, q: ProductQueryParams, rank: Product -> int)
    requires q.searchTerm.None? || q.searchTerm.value == ""
    requires q.flagDel.None?
    ensures multiset(QueryAndSelect(ps, Some(q), rank, None)) == multiset(ps)
    ensures q.sortProperty.None? || q.sortOrder.None? ==> QueryAndSelect(ps, Some(q), rank, None) == ps
  {
  }

  /** A sort is applied only when both the property and the direction are given. */
  lemma SortNeedsPropertyAndOrder(ps: seq<Product>, q: ProductQueryParams, rank: Product -> int)
    requires q.sortProperty.None? || q.sortOrder.None?
    ensures QueryAndSelect(ps, Some(q), rank, None)
      == Filter(SearchStep(ps, q), FlagFilter(q))
  {
    var searched := SearchStep(ps, q);
    assert SortStep(searched, q, rank) == searched;
    assert FlagDelStep(searched, q) == Filter(searched, FlagFilter(q)) by {
      if q.flagDel.None? {
        FilterAll(searched, FlagFilter(q));
      }
    }
  }

  lemma {:induction false} FilterAll(ps: seq<Product>, keep: Product -> bool)
    requires forall p :: keep(p)
    ensures Filter(ps, keep) == ps
  {
    if ps != [] {
      FilterAll(ps[1..], keep);
      assert [ps[0]] + ps[1..] == ps;
    }
  }

  /** The default query and a missing one give the same result: the defaults filter and sort nothing. */
  lemma DefaultQueryIsNoQuery(ps: seq<Product>, rank: Product -> int, selector: Option<Product -> Product>)
    ensures QueryAndSelect(ps, Some(DefaultQueryParams), rank, selector) == QueryAndSelect(ps, None, rank, selector)
    ensures QueryAndSelect(ps, None, rank, None) == ps
  {
  }

  /** GetList: a missing query becomes the default one. */
  function GetList(ps: seq<Product>, q: Option<ProductQueryParams>, rank: Product -> int,
                   selector: Option<Product -> Product>): seq<Product>
  {
    QueryAndSelect(ps, Some(q.GetOr(DefaultQueryParams)), rank, selector)
  }

  /** GetListAsync: a missing query is passed on as it is. */
  function GetListAsync(ps: seq<Product>, q: Option<ProductQueryParams>, rank: Product -> int,
                        selector: Option<Product -> Product>): seq<Product>
  {
    QueryAndSelect(ps, q, rank, selector)
  }

  /** What GetPagedList hands to the pager: the query result and the page wanted. */
  datatype PageRequest = PageRequest(items: seq<Product>, pageNumber: int, pageSize: int)

  function GetPagedList(ps: seq<Product>, q: Option<ProductQueryParams>, rank: Product -> int,
                        selector: Option<Product -> Product>): PageRequest
  {
    var query := q.GetOr(DefaultQueryParams);
    PageRequest(QueryAndSelect(ps, Some(query), rank, selector), query.pageNumber, query.pageSize)
  }

  /** The three listings agree, and a missing query asks for page 1 of 10. */
  lemma ListingsAgree(ps: seq<Product>, q: Option<ProductQueryParams>, rank: Product -> int,
                      selector: Option<Product -> Product>)
    ensures GetList(ps, q, rank, selector) == GetListAsync(ps, q, rank, selector)
    ensures GetPagedList(ps, q, rank, selector).items == GetList(ps, q, rank, selector)
    ensures q.None? ==>
      GetPagedList(ps, q, rank, selector).pageNumber == 1 && GetPagedList(ps, q, rank, selector).pageSize == 10
  {
    if q.None? {
      DefaultQueryIsNoQuery(ps, rank, selector);
    }
  }

  // ---------------------------------------------------------------------------
  // Update

  datatype ProductField = Id | Name | Description | Price | CreatedAt | UpdatedAt | FlagDel

  /** A product instance the caller holds; Update changes it in place. */
  class ProductEntity {
    var value: Product

    constructor (value: Product)
      ensures this.value == value
    {
      this.value := value;
    }
  }

  /** The context's change tracker: which entities are attached and which of their fields are modified. */
  class ChangeTracker {
    var modified: map<ProductEntity, set<ProductField>>

    constructor ()
      ensures modified == map[]
    {
      modified := map[];
    }

    /** Attach: starts tracking `e` with no field modified. */
    method Attach(e: ProductEntity)
      modifies this
      ensures modified == old(modified)[e := {}]
    {
      modified := modified[e := {}];
    }

    method MarkModified(e: ProductEntity, f: ProductField)
      requires e in modified
      modifies this
      ensures modified == old(modified)[e := old(modified)[e] + {f}]
    {
      modified := modified[e := modified[e] + {f}];
    }

    /** The four `Property(...).IsModified = true` lines of Update, on an entity just attached. */
    method MarkUpdatedFields(e: ProductEntity)
      requires e in modified && modified[e] == {}
      modifies this
      ensures modified == old(modified)[e := UpdatedFields]
    {
      MarkModified(e, Name);
      assert modified[e] == {Name};
      MarkModified(e, Description);
      assert modified[e] == {Name, Description};
      MarkModified(e, Price);
      assert modified[e] == {Name, Description, Price};
      MarkModified(e, UpdatedAt);
      assert modified[e] == UpdatedFields;
    }
  }

  const UpdatedFields: set<ProductField> := {Name, Description, Price, UpdatedAt}

  /**
    Update: stamps UpdatedAt with `now`, attaches the entity and marks exactly Name,
    Description, Price and UpdatedAt as modified.
   */
  method Update(tracker: ChangeTracker, entity: ProductEntity, now: int) returns (r: ProductEntity)
    modifies tracker, entity
    ensures r == entity
    ensures entity.value == old(entity.value).(updatedAt := Some(now))
    ensures tracker.modified == old(tracker.modified)[entity := UpdatedFields]
    ensures CreatedAt !in tracker.modified[entity] && FlagDel !in tracker.modified[entity]
  {
    var stamped := entity.value.(updatedAt := Some(now));
    entity.value := stamped;
    tracker.Attach(entity);
    tracker.MarkUpdatedFields(entity);
    r := entity;
  }
}

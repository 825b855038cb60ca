/** The load step (ETL/etl_pipeline.py, `load_to_database` and its four
    loaders). The MySQL tables are maps held by a `Database` object:
    category name to id, company name to id, `product_id` to product row and
    `product_id` to metrics row. Each `INSERT ... ON DUPLICATE KEY UPDATE` is
    an insert-or-update keyed on the table's unique column. Which statements
    the server rejects is given as a parameter, `StoreFaults`. */
module Loader {

  import opened Wrappers
  import opened Transform

  /** A row of `products`, keyed by its `product_id`. */
  datatype ProductRow = ProductRow(
    name: string,
    categoryId: Option<nat>,
    companyId: Option<nat>,
    description: string,
    price: Option<nat>,
    url: string,
    updatedAt: nat)

  /** A row of `product_metrics`, keyed by its `product_id`. */
  datatype MetricsRow = MetricsRow(
    reviewsCount: nat,
    avgRating: Option<nat>,
    isFeatured: bool,
    snapshotDate: nat)

  /** The `category_map` and `company_map` handed to `_load_products`. */
  datatype Refs = Refs(categories: map<string, nat>, companies: map<string, nat>)

  /** The keys whose statement the server rejects with an `Error`, per table.
      A statement that fails is logged by its loader and skipped. */
  datatype StoreFaults = StoreFaults(
    categories: set<string>,
    companies: set<string>,
    products: set<string>,
    metrics: set<string>)

  /** A name table: distinct names have distinct ids, all below the next
      auto-increment value. */
  ghost predicate NameTableValid(ids: map<string, nat>, next: nat)
  {
    && (forall n :: n in ids ==> ids[n] < next)
    && (forall n, m :: n in ids && m in ids && n != m ==> ids[n] != ids[m])
  }

  /** `dict.get(key)`. */
  function Lookup(m: map<string, nat>, key: string): (id: Option<nat>)
    ensures id.Some? <==> key in m
    ensures id.Some? ==> id.value == m[key]
  {
    if key in m then Some(m[key]) else None
  }

  // ---------------------------------------------------------------------------
  // _load_categories / _load_companies
  // ---------------------------------------------------------------------------

  /** `{p.category for p in products if p.category}`. */
  function CategoryNames(batch: seq<Product>): (names: set<string>)
    ensures forall n :: n in names <==> n != [] && exists i :: 0 <= i < |batch| && batch[i].category == n
  {
    set i | 0 <= i < |batch| && batch[i].category != [] :: batch[i].category
  }

  /** `{p.company for p in products if p.company}`. */
  function CompanyNames(batch: seq<Product>): (names: set<string>)
    ensures forall n :: n in names <==> n != [] && exists i :: 0 <= i < |batch| && batch[i].company == n
  {
    set i | 0 <= i < |batch| && batch[i].company != [] :: batch[i].company
  }

  /** One insert-or-fetch on a name table: a stored name keeps its id and
      adds no row; a new name gets the next auto-increment id. */
  function InsertOrFetch(ids: map<string, nat>, next: nat, name: string): (r: (map<string, nat>, nat))
    ensures name in ids ==> r == (ids, next)
    ensures name !in ids ==> r == (ids[name := next], next + 1)
  {
    if name in ids then (ids, next) else (ids[name := next], next + 1)
  }

  /** The loop of `_load_categories` / `_load_companies` over the set of
      names, in whatever order the set yields them. A name whose statement
      fails is left out of the returned map. */
  method ResolveNames(ids: map<string, nat>, next: nat, names: set<string>, failing: set<string>)
    returns (ids': map<string, nat>, next': nat, idMap: map<string, nat>)
    requires NameTableValid(ids, next)
    ensures NameTableValid(ids', next')
    ensures idMap.Keys == names - failing
    ensures ids'.Keys == ids.Keys + (names - failing)
    ensures forall n :: n in ids ==> ids'[n] == ids[n]
    ensures forall n :: n in idMap ==> ids'[n] == idMap[n]
    ensures forall n :: n in ids' && n !in ids ==> next <= ids'[n] < next'
    ensures next <= next'
    ensures names - failing <= ids.Keys ==> ids' == ids && next' == next
  {
    ids', next', idMap := ids, next, map[];
    var remaining := names;
    assert names - remaining == {};
    while remaining != {}
      invariant remaining <= names
      invariant NameTableValid(ids', next')
      invariant Resolved(ids, next, names - remaining, failing, ids', next', idMap)
      decreases remaining
    {
      var name :| name in remaining;
      ghost var done := names - remaining;
      if name in failing {
        ResolveSkip(ids, next, done, failing, ids', next', idMap, name);
      } else {
        if name in ids' {
          ResolveFetch(ids, next, done, failing, ids', next', idMap, name);
        } else {
          ResolveInsert(ids, next, done, failing, ids', next', idMap, name);
        }
        InsertOrFetchValid(ids', next', name);
        var r := InsertOrFetch(ids', next', name);
        ids', next' := r.0, r.1;
        idMap := idMap[name := ids'[name]];
      }
      remaining := remaining - {name};
      assert names - remaining == done + {name};
    }
    assert names - remaining == names;
  }

  /** The invariant of that loop once the names in `done` are handled. */
  ghost predicate Resolved(ids: map<string, nat>, next: nat, done: set<string>, failing: set<string>,
                           ids': map<string, nat>, next': nat, idMap: map<string, nat>)
  {
    && idMap.Keys == done - failing
    && ids'.Keys == ids.Keys + (done - failing)
    && (forall n :: n in ids ==> ids'[n] == ids[n])
    && (forall n :: n in idMap ==> ids'[n] == idMap[n])
    && (forall n :: n in ids' && n !in ids ==> next <= ids'[n] < next')
    && next <= next'
    && ((forall n :: n in ids' ==> n in ids) ==> next' == next)
  }

  /** A name whose statement fails changes nothing. */
  lemma ResolveSkip(ids: map<string, nat>, next: nat, done: set<string>, failing: set<string>,
                    ids': map<string, nat>, next': nat, idMap: map<string, nat>, name: string)
    requires Resolved(ids, next, done, failing, ids', next', idMap)
    requires name in failing
    ensures Resolved(ids, next, done + {name}, failing, ids', next', idMap)
  {
    assert (done + {name}) - failing == done - failing;
  }

  /** A name already stored: its id is fetched and nothing is added. */
  lemma ResolveFetch(ids: map<string, nat>, next: nat, done: set<string>, failing: set<string>,
                     ids': map<string, nat>, next': nat, idMap: map<string, nat>, name: string)
    requires Resolved(ids, next, done, failing, ids', next', idMap)
    requires name !in failing && name in ids'
    ensures Resolved(ids, next, done + {name}, failing, ids', next', idMap[name := ids'[name]])
  {
    assert (done + {name}) - failing == (done - failing) + {name};
  }

  /** A new name: it gets the next id and the counter moves on. */
  lemma ResolveInsert(ids: map<string, nat>, next: nat, done: set<string>, failing: set<string>,
                      ids': map<string, nat>, next': nat, idMap: map<string, nat>, name: string)
    requires Resolved(ids, next, done, failing, ids', next', idMap)
    requires name !in failing && name !in ids'
    ensures Resolved(ids, next, done + {name}, failing, ids'[name := next'], next' + 1, idMap[name := next'])
  {
    assert (done + {name}) - failing == (done - failing) + {name};
    assert name !in ids;
  }

  /** An insert-or-fetch keeps names and ids distinct. */
  lemma InsertOrFetchValid(ids: map<string, nat>, next: nat, name: string)
    requires NameTableValid(ids, next)
    ensures NameTableValid(InsertOrFetch(ids, next, name).0, InsertOrFetch(ids, next, name).1)
  {
  }

  // ---------------------------------------------------------------------------
  // _load_products
  // ---------------------------------------------------------------------------

  /** The values bound by the products `INSERT`; on a duplicate key they
      overwrite every column, `updated_at` included. */
  function RowOf(p: Product, refs: Refs, now: nat): (row: ProductRow)
    ensures row.categoryId == Lookup(refs.categories, p.category)
    ensures row.companyId == Lookup(refs.companies, p.company)
    ensures row.updatedAt == now
  {
    ProductRow(p.name, Lookup(refs.categories, p.category), Lookup(refs.companies, p.company),
      p.description, p.price, p.url, now)
  }

  /** The products table after the upserts of `batch`, in order. */
  function UpsertProducts(table: map<string, ProductRow>, batch: seq<Product>, refs: Refs, now: nat,
                          failing: set<string>): (table': map<string, ProductRow>)
  {
    if batch == [] then table
    else
      var t := UpsertProducts(table, batch[..|batch| - 1], refs, now, failing);
      var p := batch[|batch| - 1];
      if p.productId in failing then t else t[p.productId := RowOf(p, refs, now)]
  }

  /** How many statements of a loader succeed: those whose key is not failing. */
  function Succeeded(batch: seq<Product>, failing: set<string>): (n: nat)
    ensures n <= |batch|
  {
    if batch == [] then 0
    else Succeeded(batch[..|batch| - 1], failing) + if batch[|batch| - 1].productId in failing then 0 else 1
  }

  // ---------------------------------------------------------------------------
  // _load_product_metrics
  // ---------------------------------------------------------------------------

  /** `avg_rating is not None and avg_rating >= 4.5 and reviews_count >= 100`,
      with the rating in hundredths. */
  predicate IsFeatured(reviewsCount: nat, avgRating: Option<nat>)
  {
    avgRating.Some? && avgRating.value >= 450 && reviewsCount >= 100
  }

  /** The metrics row written for `p`: a new row takes today's snapshot date,
      an existing one keeps its own. */
  function MetricsOf(p: Product, existing: Option<MetricsRow>, today: nat): (row: MetricsRow)
    ensures row.reviewsCount == p.reviewsCount && row.avgRating == p.avgRating
    ensures row.isFeatured == IsFeatured(p.reviewsCount, p.avgRating)
    ensures row.snapshotDate == if existing.Some? then existing.value.snapshotDate else today
  {
    var featured := IsFeatured(p.reviewsCount, p.avgRating);
    match existing
    case None => MetricsRow(p.reviewsCount, p.avgRating, featured, today)
    case Some(row) => row.(reviewsCount := p.reviewsCount, avgRating := p.avgRating, isFeatured := featured)
  }

  /** Whether the metrics statement for `id` succeeds: it is not failing and
      the foreign key to `products` resolves. */
  predicate MetricsAccepted(id: string, productIds: set<string>, failing: set<string>)
  {
    id !in failing && id in productIds
  }

  /** The metrics table after the upserts of `batch`, in order. */
  function UpsertMetrics(table: map<string, MetricsRow>, productIds: set<string>, batch: seq<Product>,
                         today: nat, failing: set<string>): (table': map<string, MetricsRow>)
  {
    if batch == [] then table
    else
      var t := UpsertMetrics(table, productIds, batch[..|batch| - 1], today, failing);
      var p := batch[|batch| - 1];
      if !MetricsAccepted(p.productId, productIds, failing) then t
      else t[p.productId := MetricsOf(p, if p.productId in t then Some(t[p.productId]) else None, today)]
  }

  /** How many metrics statements succeed. */
  function MetricsSucceeded(batch: seq<Product>, productIds: set<string>, failing: set<string>): (n: nat)
    ensures n <= |batch|
  {
    if batch == [] then 0
    else
      MetricsSucceeded(batch[..|batch| - 1], productIds, failing)
        + if MetricsAccepted(batch[|batch| - 1].productId, productIds, failing) then 1 else 0
  }

  // ---------------------------------------------------------------------------
  // load_to_database
  // ---------------------------------------------------------------------------

  /** Where the transaction's own calls fail, if they do. */
  datatype FailPoint = Never | AtStart | AtCommit

  /** What `mysql.connector.connect` gives: an `Error`, a connection that is
      not connected, or a live connection. */
  datatype Connection = ConnectError | NotConnected | Connected(failsAt: FailPoint)

  /** How `load_to_database` ends: committed, nothing done because the
      connection was not live, or an `Error` re-raised to the caller. */
  datatype LoadResult = Committed | Skipped | Raised

  /** The four tables of one database, with the auto-increment counters of
      the two name tables. */
  class Database {
    var categoryIds: map<string, nat>
    var nextCategoryId: nat
    var companyIds: map<string, nat>
    var nextCompanyId: nat
    var products: map<string, ProductRow>
    var metrics: map<string, MetricsRow>

    /** The constraints the schema enforces: unique names with distinct ids,
        product rows whose references resolve, and no metrics row without
        its product. One row per `product_id` holds because both tables are
        keyed by it. */
    ghost predicate Valid()
      reads this
    {
      && NameTableValid(categoryIds, nextCategoryId)
      && NameTableValid(companyIds, nextCompanyId)
      && (forall k :: k in products ==> References(products[k], categoryIds, companyIds))
      && metrics.Keys <= products.Keys
    }

    /** An empty database. */
    constructor ()
      ensures Valid()
      ensures categoryIds == map[] && companyIds == map[] && products == map[] && metrics == map[]
      ensures nextCategoryId == 1 && nextCompanyId == 1
    {
      categoryIds, nextCategoryId := map[], 1;
      companyIds, nextCompanyId := map[], 1;
      products, metrics := map[], map[];
    }

    /** `_load_categories`: resolves every distinct non-empty category of the batch. */
    method LoadCategories(batch: seq<Product>, failing: set<string>) returns (categoryMap: map<string, nat>)
      requires Valid()
      modifies this
      ensures Valid()
      ensures categoryMap.Keys == CategoryNames(batch) - failing
      ensures categoryIds.Keys == old(categoryIds).Keys + categoryMap.Keys
      ensures forall n :: n in old(categoryIds) ==> categoryIds[n] == old(categoryIds)[n]
      ensures forall n :: n in categoryMap ==> categoryIds[n] == categoryMap[n]
      ensures CategoryNames(batch) - failing <= old(categoryIds).Keys ==>
        categoryIds == old(categoryIds) && nextCategoryId == old(nextCategoryId)
      ensures nextCategoryId >= old(nextCategoryId)
      ensures companyIds == old(companyIds) && nextCompanyId == old(nextCompanyId)
      ensures products == old(products) && metrics == old(metrics)
    {
      categoryIds, nextCategoryId, categoryMap :=
        ResolveNames(categoryIds, nextCategoryId, CategoryNames(batch), failing);
      ReferencesGrow(products, old(categoryIds), categoryIds, companyIds, companyIds);
    }

    /** `_load_companies`: resolves every distinct non-empty company of the batch. */
    method LoadCompanies(batch: seq<Product>, failing: set<string>) returns (companyMap: map<string, nat>)
      requires Valid()
      modifies this
      ensures Valid()
      ensures companyMap.Keys == CompanyNames(batch) - failing
      ensures companyIds.Keys == old(companyIds).Keys + companyMap.Keys
      ensures forall n :: n in old(companyIds) ==> companyIds[n] == old(companyIds)[n]
      ensures forall n :: n in companyMap ==> companyIds[n] == companyMap[n]
      ensures CompanyNames(batch) - failing <= old(companyIds).Keys ==>
        companyIds == old(companyIds) && nextCompanyId == old(nextCompanyId)
      ensures nextCompanyId >= old(nextCompanyId)
      ensures categoryIds == old(categoryIds) && nextCategoryId == old(nextCategoryId)
      ensures products == old(products) && metrics == old(metrics)
    {
      companyIds, nextCompanyId, companyMap :=
        ResolveNames(companyIds, nextCompanyId, CompanyNames(batch), failing);
      ReferencesGrow(products, categoryIds, categoryIds, old(companyIds), companyIds);
    }

    /** `_load_products`: upserts every product in order; returns the
        `inserted_count` it logs. */
    method LoadProducts(batch: seq<Product>, refs: Refs, now: nat, failing: set<string>) returns (inserted: nat)
      requires Valid()
      requires RefsResolve(refs, categoryIds, companyIds)
      modifies this
      ensures Valid()
      ensures products == UpsertProducts(old(products), batch, refs, now, failing)
      ensures inserted == Succeeded(batch, failing)
      ensures categoryIds == old(categoryIds) && companyIds == old(companyIds)
      ensures nextCategoryId == old(nextCategoryId) && nextCompanyId == old(nextCompanyId)
      ensures metrics == old(metrics)
    {
      inserted := 0;
      var i := 0;
      while i < |batch|
        invariant 0 <= i <= |batch|
        invariant products == UpsertProducts(old(products), batch[..i], refs, now, failing)
        invariant inserted == Succeeded(batch[..i], failing)
        invariant categoryIds == old(categoryIds) && companyIds == old(companyIds)
        invariant nextCategoryId == old(nextCategoryId) && nextCompanyId == old(nextCompanyId)
        invariant metrics == old(metrics)
        invariant Valid()
      {
        var p := batch[i];
        assert batch[..i + 1][..i] == batch[..i];
        if p.productId !in failing {
          RowReferences(p, refs, now, categoryIds, companyIds);
          products := products[p.productId := RowOf(p, refs, now)];
          inserted := inserted + 1;
        }
        i := i + 1;
      }
      assert batch[..i] == batch;
    }

    /** `_load_product_metrics`: upserts the metrics of every product in
        order; returns the `inserted_count` it logs. */
    method LoadProductMetrics(batch: seq<Product>, today: nat, failing: set<string>) returns (inserted: nat)
      requires Valid()
      modifies this
      ensures Valid()
      ensures metrics == UpsertMetrics(old(metrics), products.Keys, batch, today, failing)
      ensures inserted == MetricsSucceeded(batch, products.Keys, failing)
      ensures categoryIds == old(categoryIds) && companyIds == old(companyIds)
      ensures nextCategoryId == old(nextCategoryId) && nextCompanyId == old(nextCompanyId)
      ensures products == old(products)
    {
      inserted := 0;
      var i := 0;
      while i < |batch|
        invariant 0 <= i <= |batch|
        invariant metrics == UpsertMetrics(old(metrics), products.Keys, batch[..i], today, failing)
        invariant inserted == MetricsSucceeded(batch[..i], products.Keys, failing)
        invariant categoryIds == old(categoryIds) && companyIds == old(companyIds)
        invariant nextCategoryId == old(nextCategoryId) && nextCompanyId == old(nextCompanyId)
        invariant products == old(products)
        invariant Valid()
      {
        var p := batch[i];
        assert batch[..i + 1][..i] == batch[..i];
        if MetricsAccepted(p.productId, products.Keys, failing) {
          var existing := if p.productId in metrics then Some(metrics[p.productId]) else None;
          metrics := metrics[p.productId := MetricsOf(p, existing, today)];
          inserted := inserted + 1;
        }
        i := i + 1;
      }
      assert batch[..i] == batch;
    }

    /** `load_to_database`: the four loaders inside one transaction. A
        failure of `start_transaction` or `commit` rolls every table back;
        the auto-increment counters are not rolled back, as with InnoDB. */
    method LoadToDatabase(batch: seq<Product>, connection: Connection, faults: StoreFaults, now: nat, today: nat)
      returns (result: LoadResult)
      requires Valid()
      modifies this
      ensures Valid()
      ensures result == Raised <==> connection.ConnectError? || (connection.Connected? && connection.failsAt != Never)
      ensures result == Skipped <==> connection.NotConnected?
      ensures result != Committed ==>
        categoryIds == old(categoryIds) && companyIds == old(companyIds)
        && products == old(products) && metrics == old(metrics)
      ensures result == Committed ==>
        && (forall n :: n in old(categoryIds) ==> n in categoryIds && categoryIds[n] == old(categoryIds)[n])
        && (forall n :: n in old(companyIds) ==> n in companyIds && companyIds[n] == old(companyIds)[n])
        && categoryIds.Keys == old(categoryIds).Keys + (CategoryNames(batch) - faults.categories)
        && companyIds.Keys == old(companyIds).Keys + (CompanyNames(batch) - faults.companies)
        && products == UpsertProducts(old(products), batch,
             BatchRefs(batch, faults, categoryIds, companyIds), now, faults.products)
        && metrics == UpsertMetrics(old(metrics), products.Keys, batch, today, faults.metrics)
    {
      match connection
      case ConnectError =>
        return Raised;
      case NotConnected =>
        return Skipped;
      case Connected(failsAt) =>
        if failsAt == AtStart {
          return Raised;
        }
        var savedCategories, savedCompanies := categoryIds, companyIds;
        var savedProducts, savedMetrics := products, metrics;
        var categoryMap := LoadCategories(batch, faults.categories);
        var companyMap := LoadCompanies(batch, faults.companies);
        var refs := Refs(categoryMap, companyMap);
        assert RefsResolve(refs, categoryIds, companyIds);
        BatchRefsLoaded(batch, faults, categoryMap, companyMap, categoryIds, companyIds);
        var _ := LoadProducts(batch, refs, now, faults.products);
        var _ := LoadProductMetrics(batch, today, faults.metrics);
        if failsAt == AtCommit {
          Rollback(savedCategories, savedCompanies, savedProducts, savedMetrics);
          return Raised;
        }
        return Committed;
    }

    /** `connection.rollback()`: restores the tables saved when the
        transaction began. */
    method Rollback(categories: map<string, nat>, companies: map<string, nat>,
                    productRows: map<string, ProductRow>, metricsRows: map<string, MetricsRow>)
      requires Valid()
      requires NameTableValid(categories, nextCategoryId) && NameTableValid(companies, nextCompanyId)
      requires forall k :: k in productRows ==> References(productRows[k], categories, companies)
      requires metricsRows.Keys <= productRows.Keys
      modifies this
      ensures Valid()
      ensures categoryIds == categories && companyIds == companies
      ensures products == productRows && metrics == metricsRows
      ensures nextCategoryId == old(nextCategoryId) && nextCompanyId == old(nextCompanyId)
    {
      categoryIds, companyIds := categories, companies;
      products, metrics := productRows, metricsRows;
    }
  }

  /** A product row's ids, when present, are ids of the name tables. */
  ghost predicate References(row: ProductRow, categories: map<string, nat>, companies: map<string, nat>)
  {
    && (row.categoryId.Some? ==> row.categoryId.value in categories.Values)
    && (row.companyId.Some? ==> row.companyId.value in companies.Values)
  }

  /** The maps handed to `_load_products` only hold ids of the name tables. */
  ghost predicate RefsResolve(refs: Refs, categories: map<string, nat>, companies: map<string, nat>)
  {
    && (forall n :: n in refs.categories ==> refs.categories[n] in categories.Values)
    && (forall n :: n in refs.companies ==> refs.companies[n] in companies.Values)
  }

  /** The maps `_load_categories` and `_load_companies` hand to
      `_load_products`: each name of the batch whose insert succeeded, with
      its id in the name table. */
  function BatchRefs(batch: seq<Product>, faults: StoreFaults,
                     categories: map<string, nat>, companies: map<string, nat>): Refs
  {
    Refs(map n | n in CategoryNames(batch) - faults.categories && n in categories :: categories[n],
         map n | n in CompanyNames(batch) - faults.companies && n in companies :: companies[n])
  }

  /** The loaders' return values are the batch's maps. */
  lemma BatchRefsLoaded(batch: seq<Product>, faults: StoreFaults,
                        categoryMap: map<string, nat>, companyMap: map<string, nat>,
                        categories: map<string, nat>, companies: map<string, nat>)
    requires categoryMap.Keys == CategoryNames(batch) - faults.categories
    requires companyMap.Keys == CompanyNames(batch) - faults.companies
    requires forall n :: n in categoryMap ==> n in categories && categories[n] == categoryMap[n]
    requires forall n :: n in companyMap ==> n in companies && companies[n] == companyMap[n]
    ensures Refs(categoryMap, companyMap) == BatchRefs(batch, faults, categories, companies)
  {
  }

  /** References stay resolved while the name tables keep their ids. */
  lemma ReferencesGrow(products: map<string, ProductRow>,
                       categories: map<string, nat>, categories': map<string, nat>,
                       companies: map<string, nat>, companies': map<string, nat>)
    requires forall k :: k in products ==> References(products[k], categories, companies)
    requires forall n :: n in categories ==> n in categories' && categories'[n] == categories[n]
    requires forall n :: n in companies ==> n in companies' && companies'[n] == companies[n]
    ensures forall k :: k in products ==> References(products[k], categories', companies')
  {
    forall k | k in products
      ensures References(products[k], categories', companies')
    {
      var row := products[k];
      if row.categoryId.Some? {
        var n :| n in categories && categories[n] == row.categoryId.value;
        assert categories'[n] == row.categoryId.value;
      }
      if row.companyId.Some? {
        var n :| n in companies && companies[n] == row.companyId.value;
        assert companies'[n] == row.companyId.value;
      }
    }
  }

  /** A row built from resolving maps refers to existing ids. */
  lemma RowReferences(p: Product, refs: Refs, now: nat, categories: map<string, nat>, companies: map<string, nat>)
    requires RefsResolve(refs, categories, companies)
    ensures References(RowOf(p, refs, now), categories, companies)
  {
  }
}

/** What the upserts of `_load_products` and `_load_product_metrics`
    guarantee, stated on the folds that the loader methods are proved
    against. */
module LoaderProperties {

  import opened Wrappers
  import opened Transform
  import opened Loader

  /** Some product of the batch has this `product_id`. */
  predicate HasId(batch: seq<Product>, id: string)
  {
    exists i :: 0 <= i < |batch| && batch[i].productId == id
  }

  /** Some statement of the batch writes the row of `id`. */
  predicate Written(batch: seq<Product>, id: string, failing: set<string>)
  {
    id !in failing && HasId(batch, id)
  }

  /** The position of the last product of the batch with this `product_id`. */
  function LastIndexOf(batch: seq<Product>, id: string): (j: nat)
    requires HasId(batch, id)
    ensures j < |batch| && batch[j].productId == id
    ensures forall i :: j < i < |batch| ==> batch[i].productId != id
  {
    if batch[|batch| - 1].productId == id then |batch| - 1
    else
      var init := batch[..|batch| - 1];
      assert HasId(init, id) by {
        var i :| 0 <= i < |batch| && batch[i].productId == id;
        assert init[i] == batch[i];
      }
      LastIndexOf(init, id)
  }

  // ---------------------------------------------------------------------------
  // products
  // ---------------------------------------------------------------------------

  /** The row of one `product_id` after the upserts: the last product of the
      batch with that id wins; an id the batch does not write keeps its row,
      or stays absent. */
  lemma {:induction false} UpsertProductsAt(table: map<string, ProductRow>, batch: seq<Product>, refs: Refs,
                                            now: nat, failing: set<string>, id: string)
    ensures var t := UpsertProducts(table, batch, refs, now, failing);
      && (id in t <==> id in table || Written(batch, id, failing))
      && (Written(batch, id, failing) ==> t[id] == RowOf(batch[LastIndexOf(batch, id)], refs, now))
      && (!Written(batch, id, failing) && id in table ==> t[id] == table[id])
  {
    if batch != [] {
      var init := batch[..|batch| - 1];
      var p := batch[|batch| - 1];
      UpsertProductsAt(table, init, refs, now, failing, id);
      WrittenSnoc(batch, id, failing);
      if Written(init, id, failing) && p.productId != id {
        LastIndexSnoc(batch, id);
      }
    }
  }

  /** Writing a batch again, later, leaves what writing it once at the later
      time leaves: no row is added the second time and only `updated_at`
      moves. With the same time it is idempotent. */
  lemma UpsertProductsTwice(table: map<string, ProductRow>, batch: seq<Product>, refs: Refs,
                            now: nat, later: nat, failing: set<string>)
    ensures var once := UpsertProducts(table, batch, refs, now, failing);
      UpsertProducts(once, batch, refs, later, failing) == UpsertProducts(table, batch, refs, later, failing)
  {
    var once := UpsertProducts(table, batch, refs, now, failing);
    var twice := UpsertProducts(once, batch, refs, later, failing);
    var direct := UpsertProducts(table, batch, refs, later, failing);
    forall id | true
      ensures (id in twice <==> id in direct) && (id in twice ==> twice[id] == direct[id])
    {
      UpsertProductsAt(table, batch, refs, now, failing, id);
      UpsertProductsAt(once, batch, refs, later, failing, id);
      UpsertProductsAt(table, batch, refs, later, failing, id);
    }
    MapsEqual(twice, direct);
  }

  /** The products table never loses a row, and gains exactly the written ids. */
  lemma UpsertProductsKeys(table: map<string, ProductRow>, batch: seq<Product>, refs: Refs,
                           now: nat, failing: set<string>)
    ensures UpsertProducts(table, batch, refs, now, failing).Keys
      == table.Keys + (set i | 0 <= i < |batch| && batch[i].productId !in failing :: batch[i].productId)
  {
    var t := UpsertProducts(table, batch, refs, now, failing);
    var written := set i | 0 <= i < |batch| && batch[i].productId !in failing :: batch[i].productId;
    forall id | true
      ensures id in t.Keys <==> id in table.Keys + written
    {
      UpsertProductsAt(table, batch, refs, now, failing, id);
      if Written(batch, id, failing) {
        var i :| 0 <= i < |batch| && batch[i].productId == id;
        assert id in written;
      }
    }
  }

  /** Without failures, every statement of `_load_products` is counted. */
  lemma {:induction false} SucceededWithoutFaults(batch: seq<Product>)
    ensures Succeeded(batch, {}) == |batch|
  {
    if batch != [] {
      SucceededWithoutFaults(batch[..|batch| - 1]);
    }
  }

  // ---------------------------------------------------------------------------
  // product_metrics
  // ---------------------------------------------------------------------------

  /** Some metrics statement of the batch for `id` is accepted. */
  predicate MetricsWritten(batch: seq<Product>, id: string, productIds: set<string>, failing: set<string>)
  {
    MetricsAccepted(id, productIds, failing) && HasId(batch, id)
  }

  /** The metrics row of one `product_id` after the upserts: counts, rating
      and the featured flag come from the last product of the batch with
      that id; the snapshot date is the stored one when there was a row,
      and today's otherwise. */
  lemma {:induction false} UpsertMetricsAt(table: map<string, MetricsRow>, productIds: set<string>,
                                           batch: seq<Product>, today: nat, failing: set<string>, id: string)
    ensures var t := UpsertMetrics(table, productIds, batch, today, failing);
      && (id in t <==> id in table || MetricsWritten(batch, id, productIds, failing))
      && (MetricsWritten(batch, id, productIds, failing) ==>
            var p := batch[LastIndexOf(batch, id)];
            && t[id].reviewsCount == p.reviewsCount
            && t[id].avgRating == p.avgRating
            && t[id].isFeatured == IsFeatured(p.reviewsCount, p.avgRating)
            && t[id].snapshotDate == if id in table then table[id].snapshotDate else today)
      && (!MetricsWritten(batch, id, productIds, failing) && id in table ==> t[id] == table[id])
  {
    if batch != [] {
      var init := batch[..|batch| - 1];
      var p := batch[|batch| - 1];
      UpsertMetricsAt(table, productIds, init, today, failing, id);
      MetricsWrittenSnoc(batch, id, productIds, failing);
      if MetricsWritten(init, id, productIds, failing) && p.productId != id {
        LastIndexSnoc(batch, id);
      }
    }
  }

  /** No metrics row without its product: the upserts only write ids that
      are in `products`. */
  lemma UpsertMetricsNoOrphans(table: map<string, MetricsRow>, productIds: set<string>,
                               batch: seq<Product>, today: nat, failing: set<string>)
    requires table.Keys <= productIds
    ensures UpsertMetrics(table, productIds, batch, today, failing).Keys <= productIds
  {
    var t := UpsertMetrics(table, productIds, batch, today, failing);
    forall id | id in t
      ensures id in productIds
    {
      UpsertMetricsAt(table, productIds, batch, today, failing, id);
    }
  }

  /** Loading the same metrics again, on any day, changes nothing: the
      counts are the same and the first snapshot date is kept. */
  lemma UpsertMetricsTwice(table: map<string, MetricsRow>, productIds: set<string>, batch: seq<Product>,
                           today: nat, later: nat, failing: set<string>)
    ensures var once := UpsertMetrics(table, productIds, batch, today, failing);
      UpsertMetrics(once, productIds, batch, later, failing) == once
  {
    var once := UpsertMetrics(table, productIds, batch, today, failing);
    var twice := UpsertMetrics(once, productIds, batch, later, failing);
    forall id | true
      ensures (id in twice <==> id in once) && (id in twice ==> twice[id] == once[id])
    {
      UpsertMetricsAt(table, productIds, batch, today, failing, id);
      UpsertMetricsAt(once, productIds, batch, later, failing, id);
    }
    MapsEqual(twice, once);
  }

  /** The derived flag on two cases: 4.7 stars with 150 reviews is
      featured, with 50 reviews it is not. */
  lemma FeaturedScenarios()
    ensures IsFeatured(150, Some(470))
    ensures !IsFeatured(50, Some(470))
  {
  }

  /** The thresholds are inclusive, and a missing rating is never featured. */
  lemma FeaturedBoundaries(reviewsCount: nat, avgRating: nat)
    ensures IsFeatured(reviewsCount, Some(avgRating)) <==> avgRating >= 450 && reviewsCount >= 100
    ensures !IsFeatured(reviewsCount, None)
  {
  }

  // ---------------------------------------------------------------------------
  // helpers
  // ---------------------------------------------------------------------------

  lemma WrittenSnoc(batch: seq<Product>, id: string, failing: set<string>)
    requires batch != []
    ensures Written(batch, id, failing) <==>
      Written(batch[..|batch| - 1], id, failing) || (id !in failing && batch[|batch| - 1].productId == id)
  {
    var init := batch[..|batch| - 1];
    if Written(batch, id, failing) && batch[|batch| - 1].productId != id {
      var i :| 0 <= i < |batch| && batch[i].productId == id;
      assert init[i] == batch[i];
    }
    if Written(init, id, failing) {
      var i :| 0 <= i < |init| && init[i].productId == id;
      assert batch[i] == init[i];
    }
  }

  lemma MetricsWrittenSnoc(batch: seq<Product>, id: string, productIds: set<string>, failing: set<string>)
    requires batch != []
    ensures MetricsWritten(batch, id, productIds, failing) <==>
      MetricsWritten(batch[..|batch| - 1], id, productIds, failing)
      || (MetricsAccepted(id, productIds, failing) && batch[|batch| - 1].productId == id)
  {
    var init := batch[..|batch| - 1];
    if MetricsWritten(batch, id, productIds, failing) && batch[|batch| - 1].productId != id {
      var i :| 0 <= i < |batch| && batch[i].productId == id;
      assert init[i] == batch[i];
    }
    if MetricsWritten(init, id, productIds, failing) {
      var i :| 0 <= i < |init| && init[i].productId == id;
      assert batch[i] == init[i];
    }
  }

  /** If the last product does not have the id, the last index is found in
      the rest of the batch. */
  lemma LastIndexSnoc(batch: seq<Product>, id: string)
    requires batch != [] && batch[|batch| - 1].productId != id
    requires exists i :: 0 <= i < |batch| - 1 && batch[i].productId == id
    ensures HasId(batch[..|batch| - 1], id)
    ensures LastIndexOf(batch, id) == LastIndexOf(batch[..|batch| - 1], id)
  {
    var init := batch[..|batch| - 1];
    var i :| 0 <= i < |batch| - 1 && batch[i].productId == id;
    assert init[i] == batch[i];
  }

  lemma MapsEqual<V>(a: map<string, V>, b: map<string, V>)
    requires forall k :: (k in a <==> k in b) && (k in a ==> a[k] == b[k])
    ensures a == b
  {
  }
}

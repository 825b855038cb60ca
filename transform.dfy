/** `transform_data` (ETL/etl_pipeline.py): every raw record becomes a
    `Product` through the field parsers, and only the products with a
    non-empty id, name and url are kept, in input order. */
module Transform {

  import opened Wrappers
  import opened Text
  import opened FieldParsers

  /** A scraped record: a dictionary whose values are a string or `None`.
      A key that is not in the map is a key the scraper never set. */
  type RawRecord = map<string, Option<string>>

  /** The `Product` dataclass; prices and ratings in hundredths. */
  datatype Product = Product(
    productId: string,
    name: string,
    category: string,
    company: string,
    description: string,
    price: Option<nat>,
    url: string,
    reviewsCount: nat,
    avgRating: Option<nat>)

  /** `raw.get(key, default)`: the default only when the key is absent;
      a key present with `None` stays `None`. */
  function Field(raw: RawRecord, key: string, default: string): (v: Option<string>)
    ensures key !in raw ==> v == Some(default)
    ensures key in raw ==> v == raw[key]
  {
    if key in raw then raw[key] else Some(default)
  }

  /** `raw.get(key)`: `None` when the key is absent. */
  function Get(raw: RawRecord, key: string): (v: Option<string>)
    ensures key !in raw ==> v.None?
    ensures key in raw ==> v == raw[key]
  {
    if key in raw then raw[key] else None
  }

  /** `_clean_text(raw.get(key, default))` for a default that is already
      clean, so that it is given back as it is when the key is absent. */
  function TextField(raw: RawRecord, key: string, default: string): (text: string)
    ensures key !in raw ==> text == default
    ensures key in raw ==> text == CleanText(raw[key])
  {
    if key in raw then CleanText(raw[key]) else default
  }

  /** An empty text or one without whitespace. */
  predicate IsWordOrEmpty(w: string)
  {
    forall i :: 0 <= i < |w| ==> !IsSpace(w[i])
  }

  /** The `Product(...)` built by the loop body for one raw record. */
  function TransformRecord(raw: RawRecord): (p: Product)
  {
    Product(
      productId := TextField(raw, "product_id", ""),
      name := TextField(raw, "name", "Unknown"),
      category := TextField(raw, "category", "Uncategorized"),
      company := TextField(raw, "company", "Unknown"),
      description := TextField(raw, "description", ""),
      price := ParsePrice(Get(raw, "price")),
      url := TextField(raw, "url", ""),
      reviewsCount := ParseReviewsCount(Get(raw, "reviews_count")),
      avgRating := ParseRating(Get(raw, "avg_rating")))
  }

  /** The required-fields test: `product_id and name and url`. */
  predicate IsValid(p: Product)
  {
    p.productId != [] && p.name != [] && p.url != []
  }

  /** What the loop has appended after reading `raws`, for a given record
      transform: the valid products in input order. The fold is stated for
      any transform, so that its properties do not depend on the parsers. */
  function Cleaned(transform: RawRecord -> Product, raws: seq<RawRecord>): (products: seq<Product>)
    ensures |products| <= |raws|
  {
    if raws == [] then []
    else
      var p := transform(raws[|raws| - 1]);
      Cleaned(transform, raws[..|raws| - 1]) + (if IsValid(p) then [p] else [])
  }

  /** The loop of `transform_data`. */
  method TransformData(raws: seq<RawRecord>) returns (products: seq<Product>)
    ensures products == Cleaned(TransformRecord, raws)
  {
    products := [];
    var i := 0;
    while i < |raws|
      invariant 0 <= i <= |raws|
      invariant products == Cleaned(TransformRecord, raws[..i])
    {
      var product := TransformRecord(raws[i]);
      CleanedStep(TransformRecord, raws, i);
      if IsValid(product) {
        products := products + [product];
      }
      i := i + 1;
    }
    assert raws[..i] == raws;
  }

  // ---------------------------------------------------------------------------
  // Properties
  // ---------------------------------------------------------------------------

  /** Transforming a concatenation transforms each part: the output keeps
      the input order. */
  lemma {:induction false} CleanedAppend(f: RawRecord -> Product, a: seq<RawRecord>, b: seq<RawRecord>)
    ensures Cleaned(f, a + b) == Cleaned(f, a) + Cleaned(f, b)
    decreases |b|
  {
    if b == [] {
      assert a + b == a;
    } else {
      var ab := a + b;
      assert ab[..|ab| - 1] == a + b[..|b| - 1];
      assert ab[|ab| - 1] == b[|b| - 1];
      CleanedAppend(f, a, b[..|b| - 1]);
    }
  }

  /** Reading one more record appends its product when that is valid. */
  lemma CleanedStep(f: RawRecord -> Product, raws: seq<RawRecord>, i: nat)
    requires i < |raws|
    ensures Cleaned(f, raws[..i + 1])
      == Cleaned(f, raws[..i]) + (if IsValid(f(raws[i])) then [f(raws[i])] else [])
  {
    assert raws[..i + 1][..i] == raws[..i];
  }

  /** One record gives its product when that is valid, and nothing otherwise. */
  lemma CleanedSingle(f: RawRecord -> Product, raw: RawRecord)
    ensures Cleaned(f, [raw]) == if IsValid(f(raw)) then [f(raw)] else []
  {
    assert [raw][..0] == [];
  }

  /** Every product in the output passes the required-fields test. */
  lemma {:induction false} CleanedAllValid(f: RawRecord -> Product, raws: seq<RawRecord>)
    ensures forall k :: 0 <= k < |Cleaned(f, raws)| ==> IsValid(Cleaned(f, raws)[k])
  {
    if raws != [] {
      CleanedAllValid(f, raws[..|raws| - 1]);
    }
  }

  /** A product is in the output exactly when it is the valid transform of
      some input record. */
  lemma {:induction false} CleanedMembers(f: RawRecord -> Product, raws: seq<RawRecord>, p: Product)
    ensures p in Cleaned(f, raws) <==>
      exists i :: 0 <= i < |raws| && f(raws[i]) == p && IsValid(p)
  {
    if raws != [] {
      var init := raws[..|raws| - 1];
      CleanedMembers(f, init, p);
      if p in Cleaned(f, init) {
        var i :| 0 <= i < |init| && f(init[i]) == p && IsValid(p);
        assert raws[i] == init[i];
      }
      if exists i :: 0 <= i < |raws| && f(raws[i]) == p && IsValid(p) {
        var i :| 0 <= i < |raws| && f(raws[i]) == p && IsValid(p);
        if i < |init| {
          assert init[i] == raws[i];
        }
      }
    }
  }

  /** When every record is valid, nothing is dropped and the order is kept. */
  lemma {:induction false} CleanedKeepsAllValid(f: RawRecord -> Product, raws: seq<RawRecord>)
    requires forall i :: 0 <= i < |raws| ==> IsValid(f(raws[i]))
    ensures |Cleaned(f, raws)| == |raws|
    ensures forall i :: 0 <= i < |raws| ==> Cleaned(f, raws)[i] == f(raws[i])
  {
    if raws != [] {
      var init := raws[..|raws| - 1];
      assert forall i :: 0 <= i < |init| ==> init[i] == raws[i];
      CleanedKeepsAllValid(f, init);
    }
  }

  /** A record without a `product_id` or `url` key is always dropped. */
  lemma MissingKeyDropped(raw: RawRecord)
    requires "product_id" !in raw || "url" !in raw
    ensures Cleaned(TransformRecord, [raw]) == []
  {
    CleanedSingle(TransformRecord, raw);
  }

  /** The defaults of the text fields apply only when the key is absent: a
      key that is present with `None` gives `''`. */
  lemma DefaultsOnlyWhenAbsent(raw: RawRecord)
    ensures "name" !in raw ==> TransformRecord(raw).name == "Unknown"
    ensures "category" !in raw ==> TransformRecord(raw).category == "Uncategorized"
    ensures "company" !in raw ==> TransformRecord(raw).company == "Unknown"
    ensures "name" in raw && raw["name"].None? ==> TransformRecord(raw).name == []
    ensures "category" in raw && raw["category"].None? ==> TransformRecord(raw).category == []
    ensures "company" in raw && raw["company"].None? ==> TransformRecord(raw).company == []
  {
  }

  /** The product built for any record: every text field is clean (the
      defaults are clean already) and a rating is at most 5.00. */
  lemma TransformRecordShape(raw: RawRecord)
    ensures var p := TransformRecord(raw);
      && IsClean(p.productId) && IsClean(p.name) && IsClean(p.category)
      && IsClean(p.company) && IsClean(p.description) && IsClean(p.url)
      && (p.avgRating.Some? ==> p.avgRating.value <= RatingLimit * 100)
  {
    DefaultsClean();
    TextFieldClean(raw, "product_id", "");
    TextFieldClean(raw, "name", "Unknown");
    TextFieldClean(raw, "category", "Uncategorized");
    TextFieldClean(raw, "company", "Unknown");
    TextFieldClean(raw, "description", "");
    TextFieldClean(raw, "url", "");
  }

  lemma TextFieldClean(raw: RawRecord, key: string, default: string)
    requires IsClean(default)
    ensures IsClean(TextField(raw, key, default))
  {
  }

  lemma DefaultsClean()
    ensures IsClean("") && IsClean("Unknown") && IsClean("Uncategorized")
  {
    WordIsClean("Unknown");
    WordIsClean("Uncategorized");
  }

  lemma WordIsClean(w: string)
    requires IsWordOrEmpty(w)
    ensures IsClean(w)
  {
  }

  /** A value that `_clean_text` does not reduce to `''`: present, and not
      all whitespace. */
  predicate HasText(v: Option<string>)
  {
    v.Some? && !AllSpaces(v.value)
  }

  /** Which records `transform_data` keeps, on the raw record: a
      `product_id` and a `url` with text, and a `name` that is either
      absent (it becomes `'Unknown'`) or has text. */
  lemma KeptExactlyWhen(raw: RawRecord)
    ensures IsValid(TransformRecord(raw)) <==>
      && "product_id" in raw && HasText(raw["product_id"])
      && ("name" !in raw || HasText(raw["name"]))
      && "url" in raw && HasText(raw["url"])
  {
    if "product_id" in raw {
      CleanTextEmpty(raw["product_id"]);
    }
    if "name" in raw {
      CleanTextEmpty(raw["name"]);
    }
    if "url" in raw {
      CleanTextEmpty(raw["url"]);
    }
  }

  /** Handing back a clean default as it is agrees with
      `_clean_text(raw.get(key, default))`. */
  lemma TextFieldIsCleanedGet(raw: RawRecord, key: string, default: string)
    requires IsWordOrEmpty(default)
    ensures TextField(raw, key, default) == CleanText(Field(raw, key, default))
  {
    if key !in raw {
      CleanWord(default);
    }
  }

  /** A word without whitespace is its own cleaning. */
  lemma CleanWord(w: string)
    requires IsWordOrEmpty(w)
    ensures CleanText(Some(w)) == w
  {
    if w != [] {
      assert TrimLeft(w) == w;
      assert TrimRight(w) == w;
      CollapseKeepsSingleSpaced(w);
    }
  }

  /** A record missing only its `name` key is kept, named `'Unknown'`; the
      same record whose `name` is `None` is dropped. */
  lemma MissingNameKept(raw: RawRecord)
    requires "name" !in raw
    requires "product_id" in raw && CleanText(raw["product_id"]) != []
    requires "url" in raw && CleanText(raw["url"]) != []
    ensures Cleaned(TransformRecord, [raw]) == [TransformRecord(raw)]
    ensures TransformRecord(raw).name == "Unknown"
    ensures Cleaned(TransformRecord, [raw["name" := None]]) == []
  {
    DefaultsOnlyWhenAbsent(raw);
    CleanedSingle(TransformRecord, raw);
    CleanedSingle(TransformRecord, raw["name" := None]);
  }

  /** A record whose `name` is present and empty fails the required-fields test. */
  lemma EmptyNameRejected(raw: RawRecord)
    requires "name" in raw && raw["name"] == Some([])
    ensures !IsValid(TransformRecord(raw))
  {
  }
}

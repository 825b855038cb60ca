/** `run_etl_pipeline` (ETL/etl_pipeline.py): extract, transform, load, with
    two early returns. Extraction is I/O and is not modelled: the raw
    records are an input. */
module Pipeline {

  import opened Wrappers
  import opened Transform
  import opened Loader

  /** How a run ends: one of the two early returns, a completed run with the
      number of products it reports, or an exception re-raised from the load. */
  datatype PipelineOutcome =
    | AbortedNoInput
    | AbortedNoValidRecords
    | Completed(processed: nat)
    | Failed

  /** The state machine of the orchestrator, on the counts it tests and on
      whether the load raised. */
  function Outcome(rawCount: nat, cleanedCount: nat, loadRaised: bool): (outcome: PipelineOutcome)
    ensures outcome == AbortedNoInput <==> rawCount == 0
    ensures outcome == AbortedNoValidRecords <==> rawCount > 0 && cleanedCount == 0
    ensures outcome == Failed <==> rawCount > 0 && cleanedCount > 0 && loadRaised
    ensures outcome.Completed? <==> rawCount > 0 && cleanedCount > 0 && !loadRaised
    ensures outcome.Completed? ==> outcome.processed == cleanedCount
  {
    if rawCount == 0 then AbortedNoInput
    else if cleanedCount == 0 then AbortedNoValidRecords
    else if loadRaised then Failed
    else Completed(cleanedCount)
  }

  /** One run of the pipeline against a database: a run that does not
      commit leaves every table as it was; a committed run leaves the tables
      the load promises for the cleaned records. */
  method RunEtlPipeline(raws: seq<RawRecord>, db: Database, connection: Connection, faults: StoreFaults,
                        now: nat, today: nat)
    returns (outcome: PipelineOutcome)
    requires db.Valid()
    modifies db
    ensures db.Valid()
    ensures outcome == Outcome(|raws|, |Cleaned(TransformRecord, raws)|, LoadRaises(connection))
    ensures !(outcome.Completed? && connection.Connected?) ==>
      db.categoryIds == old(db.categoryIds) && db.companyIds == old(db.companyIds)
      && db.products == old(db.products) && db.metrics == old(db.metrics)
    ensures outcome.Completed? && connection.Connected? ==>
      var batch := Cleaned(TransformRecord, raws);
      && (forall n :: n in old(db.categoryIds) ==> n in db.categoryIds && db.categoryIds[n] == old(db.categoryIds)[n])
      && (forall n :: n in old(db.companyIds) ==> n in db.companyIds && db.companyIds[n] == old(db.companyIds)[n])
      && db.categoryIds.Keys == old(db.categoryIds).Keys + (CategoryNames(batch) - faults.categories)
      && db.companyIds.Keys == old(db.companyIds).Keys + (CompanyNames(batch) - faults.companies)
      && db.products == UpsertProducts(old(db.products), batch,
           BatchRefs(batch, faults, db.categoryIds, db.companyIds), now, faults.products)
      && db.metrics == UpsertMetrics(old(db.metrics), db.products.Keys, batch, today, faults.metrics)
  {
    if |raws| == 0 {
      return AbortedNoInput;
    }
    var cleaned := TransformData(raws);
    if |cleaned| == 0 {
      return AbortedNoValidRecords;
    }
    var result := db.LoadToDatabase(cleaned, connection, faults, now, today);
    if result == Raised {
      return Failed;
    }
    return Completed(|cleaned|);
  }

  /** Whether `load_to_database` re-raises for this connection. */
  predicate LoadRaises(connection: Connection)
  {
    connection.ConnectError? || (connection.Connected? && connection.failsAt != Never)
  }

  /** A run that reaches the load and the database is not live still
      reports success, having written nothing. */
  lemma NotConnectedStillCompletes(rawCount: nat, cleanedCount: nat)
    requires rawCount > 0 && cleanedCount > 0
    ensures Outcome(rawCount, cleanedCount, LoadRaises(NotConnected)) == Completed(cleanedCount)
  {
  }

  /** Three records, the middle one with an empty name: exactly that one is
      dropped, and a run that loads reports two products. */
  lemma ThreeRecordScenario(first: RawRecord, middle: RawRecord, last: RawRecord)
    requires IsValid(TransformRecord(first)) && IsValid(TransformRecord(last))
    requires "name" in middle && middle["name"] == Some([])
    ensures Cleaned(TransformRecord, [first, middle, last]) == [TransformRecord(first), TransformRecord(last)]
    ensures Outcome(3, |Cleaned(TransformRecord, [first, middle, last])|, false) == Completed(2)
  {
    EmptyNameRejected(middle);
    DropsMiddle(TransformRecord, first, middle, last);
  }

  /** The fold on three records whose middle one is invalid. */
  lemma DropsMiddle(f: RawRecord -> Product, first: RawRecord, middle: RawRecord, last: RawRecord)
    requires IsValid(f(first)) && !IsValid(f(middle)) && IsValid(f(last))
    ensures Cleaned(f, [first, middle, last]) == [f(first), f(last)]
  {
    assert [first, middle, last] == [first] + [middle] + [last];
    CleanedAppend(f, [first] + [middle], [last]);
    CleanedAppend(f, [first], [middle]);
    CleanedSingle(f, first);
    CleanedSingle(f, middle);
    CleanedSingle(f, last);
  }
}

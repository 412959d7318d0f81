/**
 The stored value types of the ingestion layer and the rules their constructors enforce
 (src/cloudops_guard/ingestion/models.py). Instants are integers: microseconds since some epoch.
 */
module Models {
  import opened Wrappers

  /** A record's primary key: (tenant_id, ingestion_id). */
  datatype Key = Key(tenant: string, ingestion: string)

  datatype Status = Received | Retired | Deleted

  datatype Reason = CustomerRequested | RetentionExpired

  /** Every way an operation of this layer can refuse. */
  datatype Error =
    | TenantMismatch
    | FingerprintMismatch
    | IdMismatch
    | NotReceived
    | NotRetired
    | ClaimActive
    | InvalidArgument
    | InvalidCandidate      // a model constructor rejected the candidate (a ValueError)
    | ConstraintViolation   // a table constraint rejected the row (not a ValueError)
    | IngestionIdConflict
    | IdempotencyKeyConflict
    | MissingIndexTarget    // the fingerprint index names a record that is not there (a KeyError)

  datatype Result<+T> = Ok(value: T) | Err(error: Error)

  datatype Record = Record(
    tenant: string, ingestion: string, fingerprint: string, receivedAt: int,
    status: Status, reason: Option<Reason>, retiredAt: Option<int>, deletedAt: Option<int>)
  {
    function Id(): Key { Key(tenant, ingestion) }

    /** The field and model validators of IngestionRecord. */
    predicate Consistent() {
      && tenant != "" && ingestion != "" && fingerprint != ""
      && (match status
          case Received => reason.None? && retiredAt.None? && deletedAt.None?
          case Retired => reason.Some? && retiredAt.Some? && deletedAt.None?
          case Deleted => reason.Some? && retiredAt.Some? && deletedAt.Some?)
      && (retiredAt.Some? ==> receivedAt <= retiredAt.value)
      && (deletedAt.Some? && retiredAt.Some? ==> retiredAt.value <= deletedAt.value)
    }

    /** The candidate mark_retired builds from a received record. */
    function AsRetired(at: int, why: Reason): Record {
      this.(status := Retired, reason := Some(why), retiredAt := Some(at), deletedAt := None)
    }

    /** The candidate mark_purged and begin_purge build from a retired record. */
    function AsDeleted(at: int): Record {
      this.(status := Deleted, deletedAt := Some(at))
    }
  }

  /** An IngestionRecord instance: only records that pass validation can be constructed. */
  type StoredRecord = r: Record | r.Consistent()
    witness Record("t", "i", "f", 0, Received, None, None, None)

  datatype Tombstone = Tombstone(key: Key, reason: Reason, retiredAt: int, deletedAt: int)

  /** The tombstone a consistent deleted record leaves behind. */
  function TombstoneOf(r: Record): Tombstone
    requires r.status.Deleted? && r.Consistent()
  {
    Tombstone(r.Id(), r.reason.value, r.retiredAt.value, r.deletedAt.value)
  }

  datatype PurgeClaim = PurgeClaim(key: Key, generation: int, claimId: int)
}

/** Result types shared by every component, in place of the engine's error enum. */
module Outcomes {
  datatype Option<+T> = None | Some(value: T)

  datatype Error =
    | BTreeKeyExists
    | UniqueConstraintViolation(index: string, key: seq<int>)
    | DocumentNotFound
    | IdSpaceExhausted
    | IndexFieldMissing(path: string)
    | IndexFieldTypeMismatch(path: string)
    | EachIndexTooLarge
    | InvalidArgument
    | IndexNotFound(name: string)
    | IndexNotUnique(name: string)
    | IndexKindMismatch(name: string)
    | IndexKeyPathsMismatch(name: string)
    | CollectionNotFound
    | CollectionAlreadyExists
    | SchemaShapeChanged
    | SchemaDepthExceeded
    | UnsupportedSchemaFormat
    | ScanLimitExceeded
    | Corruption
    | Io
    | Busy
    | SortBufferExceeded(limit: nat)
    | SortKeyEncode
    | DistinctCountExceeded(limit: nat)
    | BackupDestinationExists
    | BackupNotSupportedForMemoryPager
    | BackupNotSupportedForEncryptedPager
  {
    /** The errors that reading a document's index fields can end in. */
    predicate FromExtraction() {
      InvalidArgument? || IndexFieldMissing? || IndexFieldTypeMismatch? || EachIndexTooLarge?
    }

    /** The errors that storing a schema can end in. */
    predicate FromSchema() {
      SchemaDepthExceeded? || UnsupportedSchemaFormat? || SchemaShapeChanged? || Corruption?
    }
  }

  datatype Result<+T> = Ok(value: T) | Err(error: Error) {
    predicate IsFailure() {
      Err?
    }

    function PropagateFailure<U>(): (r: Result<U>)
      requires Err?
    {
      Err(error)
    }

    function Extract(): T
      requires Ok?
    {
      value
    }
  }
}

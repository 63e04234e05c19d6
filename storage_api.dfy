/**
 * Result values of the disk page API (`GetRecordResult`, `PutRecordResult`) and the
 * exceptions the storage stack throws, modelled as values.
 */
module StorageApi {
  import opened Bytes

  /** Outcome of reading a record: its bytes (empty unless the record is live) and two flags. */
  datatype GetRecordResult = GetRecordResult(bytes: seq<byte>, isDeleted: bool, isOutOfRange: bool)
  {
    predicate IsOk() {
      !isDeleted && !isOutOfRange
    }
  }

  /** Outcome of putting a record: the id it was put under and two flags. */
  datatype PutRecordResult = PutRecordResult(recordId: int, isOutOfSpace: bool, isOutOfRange: bool)
  {
    predicate IsOk() {
      !isOutOfSpace && !isOutOfRange
    }
  }

  /** The exceptions that escape the storage stack. */
  datatype Failure =
    | IllegalArgument      // IllegalArgumentException
    | IllegalState         // IllegalStateException, e.g. "All pages are pinned"
    | NoSuchElement        // NoSuchElementException, e.g. `lastKey()` of an empty TreeMap
    | NullPointer          // a `!!` on a missing map entry
    | AssertionFailed      // a failing Kotlin `assert`
    | AccessMethodFailure  // AccessMethodException
    | CatalogFailure       // SystemCatalogException
    | NumberFormat         // NumberFormatException from `toInt()`
    | IndexOutOfBounds     // reading past the end of a byte buffer or a list
    | BufferUnderflow      // BufferUnderflowException from `ByteBuffer.getInt` on fewer than 4 bytes

  /** A computation that either returns a value or throws one of the exceptions above. */
  datatype Result<T> = Ok(value: T) | Err(error: Failure)
  {
    predicate IsOk() {
      Ok?
    }
  }

  datatype Option<T> = None | Some(value: T)
}

/**
 Shared vocabulary of the page downloader: byte payloads, HTTP responses as
 the fetch capability returns them, the exceptions the download modules
 raise, and a Result type that carries either a value or one of those
 exceptions.
 */
module Common {

  /** Raw bytes of a fetched page image. */
  type Bytes = seq<bv8>

  datatype Option<+T> = None | Some(value: T)

  /** Why a ValueError was raised. */
  datatype ValueReason =
    | InvalidTotalPage        // int() could not read the TotalPage parameter
    | MissingUrlOrTotalPage   // the Url parameter is empty or TotalPage is 0
    | NoImages                // the image directory holds no usable file

  /** The exceptions the download modules raise, as values. */
  datatype Error =
    | ValueError(reason: ValueReason)
    | RuntimeError(page: int)     // a page could not be fetched; carries its number
    | RetryError                  // the transport gave up retrying a retryable status
    | FileNotFoundError           // no file matched the glob pattern
    | IndexError                  // indexing the first image of an empty list

  datatype Result<+T> = Success(value: T) | Failure(error: Error)

  /** An HTTP response after the transport's own retries have run. */
  datatype Response = Response(status: int, content: Bytes) {
    /** requests' `Response.ok`: false exactly when `raise_for_status` would raise. */
    predicate Ok() {
      !(400 <= status < 600)
    }

    /**
     A status in the sessions' `status_forcelist`: with urllib3's default
     `raise_on_status`, once the retries run out `get` raises instead of
     returning the response.
     */
    predicate Retried() {
      status in {429, 500, 502, 503, 504}
    }
  }

  /** The network, as a deterministic map from URL to the response it yields. */
  type Fetcher = string -> Response
}

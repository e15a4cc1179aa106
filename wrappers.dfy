/** Optional values and the success/failure result that the crawler's
    fallible operations return (`anyhow::Result<()>` in the Rust code). */
module Wrappers {

  datatype Option<+T> = None | Some(value: T)

  /** The kinds of failure that abort a crawl. */
  datatype Error =
    | ParseError        // a frontier entry is not a valid URL
    | TransportError    // fetching a page failed
    | StoreUnavailable  // the external store refused a command

  /** `Result<()>`: success, or the error that stopped the operation. */
  datatype Status = Ok | Err(error: Error)
}

/**
 * Values shared by the panel and the background page: optional values,
 * HTTP response headers and the per-feature policy record.
 */
module Types {

  datatype Option<+T> = None | Some(value: T)

  /** One entry of `details.responseHeaders` in a webRequest event. */
  datatype Header = Header(name: string, value: string)

  /** The header name both hooks look for and emit. */
  const FP_HEADER: string := "Feature-Policy"

  /**
   * What the panel keeps per feature. Records read from the page carry
   * `allowed: Some(b)`; the override the panel inserts on a toggle has no
   * `allowed` property at all, hence the option.
   */
  datatype PolicyRecord = PolicyRecord(allowed: Option<bool>, allowList: seq<string>, customized: bool)

  /** The result of a blocking `onHeadersReceived` listener. */
  datatype HookResult =
    | NoChange                                  // the listener returned undefined
    | Rewritten(responseHeaders: seq<Header>)   // the listener returned {responseHeaders}
    | ThrewTypeError                            // the listener threw before returning
}

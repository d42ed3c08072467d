/** The error values the checker returns or dies with. */
module Errors {

  /** What `getPageContent` reports instead of a body. */
  datatype FetchError =
    | Transport              // http.Get failed (DNS, connection, timeout)
    | Status(code: int)      // a response whose status code is not 200

  datatype Error =
    | InvalidURL             // url.Parse rejected the normalised address
    | NotSecondLevel         // the host has more than one '.'
    | Network(cause: FetchError)
    | MarkerNotFound         // neither marker of a registered or a free domain occurs
    | ContentTooShort        // the fixed-offset slice runs past the end of the page
    | DateParse              // time.Parse rejected the reassembled date
}

/** Values shared by the crawl engine, the link extractor and the report. */
module Types {

  /** A URL is kept as the text it was found as; nothing normalises it. */
  type Url = string

  datatype Option<+T> = None | Some(value: T)

  /** The value `link_stat` holds for a URL: Python's `None` while the URL is
      claimed but not yet fetched, the `status` of a response, or the `repr`
      text of the exception the fetch raised. A response to a `data:`,
      `file:` or `ftp:` URL carries no status code, and its `status` is
      `None` (`Http(None)`). */
  datatype Status = Claimed | Http(code: Option<int>) | Failed(text: string)

  /** What one fetch of a URL produced: the text of the exception it raised,
      or the response's status code, if it has one, together with its
      decoded body. */
  datatype FetchOutcome = Raised(text: string) | Response(code: Option<int>, body: string)

  /** The status `check_url` leaves behind for a fetch outcome. */
  function Recorded(f: FetchOutcome): (s: Status)
    ensures s != Claimed
    ensures s.Http? <==> f.Response?
  {
    match f
    case Raised(text) => Failed(text)
    case Response(code, _) => Http(code)
  }
}

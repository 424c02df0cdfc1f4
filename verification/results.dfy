/** Failure-carrying values shared by every component.  Each `Error`
    constructor stands for one exception the Python tools raise. */
module Results {

  datatype Option<+T> = None | Some(value: T) {
    function GetOr(default: T): T {
      match this
      case Some(v) => v
      case None => default
    }
  }

  datatype Error =
    /** `ValueError` raised by `Link.__init__` for a URL outside the grammar. */
    | InvalidUrl(url: string)
    /** `IndexError` from `history[-1]` when a `t.co` link does not redirect. */
    | NoRedirect(url: string)
    /** `AttributeError`/`TypeError` when a scraped title is `None`: an
        `og:title` tag without `content`, a `<title>` without a single
        string, or an oEmbed reply without `title`. */
    | MissingTitle(url: string)
    /** `AttributeError` from `x.split` on a `citation_author` tag without
        `content`. */
    | MissingAuthor(url: string)
    /** `IndexError` from `x[0][0]` on an empty IACR author name. */
    | EmptyAuthorName
    /** `ValueError` raised by `reformat_links` for a negative line limit. */
    | NegativeLineLimit
    /** `AttributeError` from `.group` when a transcript block has no timestamp. */
    | NoTimestamp(block: string)
    /** `AttributeError` from `.group` when a transcript block has no `):` body. */
    | NoBody(block: string)
    /** `ValueError` from unpacking `url.split('/')[-2:]` into two names. */
    | TooFewSegments(link: string)

  datatype Result<+T> = Ok(value: T) | Fail(error: Error)
}

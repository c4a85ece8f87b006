/** The species-matching authority, seen only through the answer one call gives.
    The HTTP request, its timeout and the JSON decoding are outside the model: a
    call either fails (any exception in the source's `try` block) or yields the
    fields of the decoded reply that the cleaner reads. */
module Authority {
  import opened Records

  /** The reply fields the cleaner reads. A field the reply does not carry is
      `None`; `proxy` is the reply's flag with a missing flag read as false. */
  datatype Response = Response(
    matchType: Option<string>,
    confidence: Option<int>,
    order: Option<string>,
    family: Option<string>,
    genus: Option<string>,
    proxy: bool)

  /** One call to the authority: a failure (timeout, connection error, malformed
      reply) or a decoded reply. */
  datatype Lookup = Failed | Found(response: Response)

  /** The authority's value for one of the three ranks, by column label. */
  function RankOf(resp: Response, col: string): Option<string> {
    if col == ORDER then resp.order
    else if col == FAMILY then resp.family
    else if col == GENUS then resp.genus
    else None
  }
}

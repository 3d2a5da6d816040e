/** The quote entity stored in the favourites list. Every field is optional
    because the feed may omit any of them. */
module QuoteModel {
  import opened Wrappers

  datatype Quote = Quote(
    symbol: Option<string>,
    name: Option<string>,
    last: Option<string>,
    currency: Option<string>,
    readableLastChangePercent: Option<string>,
    variationColor: Option<string>,
    isFavourite: Option<bool>)

  /** The copy of `q` that `addQuote` appends: the same quote with its
      favourite flag set. */
  function Favourited(q: Quote): (r: Quote)
    ensures r.isFavourite == Some(true)
    ensures r.(isFavourite := q.isFavourite) == q
  {
    q.(isFavourite := Some(true))
  }
}

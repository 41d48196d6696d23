/**
  * The card data model shared by the popup (popup.js) and the library page
  * (options.js), and the persisted card list.
  */
module Cards {
  import opened Wrappers

  /**
    * The page metadata a card keeps as its `source`. Every field may be absent:
    * the popup starts from the empty object `{}` when no capture is waiting.
    */
  datatype Meta = Meta(
    title: Option<string>,
    site: Option<string>,
    author: Option<string>,
    datePublished: Option<string>,
    url: Option<string>)

  /** The empty object `{}`. */
  const NoMeta := Meta(None, None, None, None, None)

  /** A card's evidence: the captured text and the indices of its highlighted sentences. */
  datatype Evidence = Evidence(fullText: string, highlights: Option<seq<int>>)

  /**
    * A saved card. `createdAt` is the creation instant in milliseconds, the value
    * the library page obtains from the stored ISO timestamp with `new Date`.
    */
  datatype Card = Card(
    id: string,
    createdAt: int,
    claim: string,
    authorLine: string,
    mla: string,
    source: Meta,
    evidence: Evidence,
    impact: string,
    topicTags: seq<string>)

  /** The draft slot the capture writes for the popup: `{ text, meta }`, either part possibly absent. */
  datatype Payload = Payload(text: Option<string>, meta: Option<Meta>)

  /** The `cards` entry of the extension's local storage; a missing entry reads as `[]`. */
  class Store {
    var cards: seq<Card>

    constructor ()
      ensures cards == []
    {
      cards := [];
    }
  }
}

/** Value types shared by every stage of the crawl-merge-index pipeline. */
module Types {

  datatype Option<+T> = None | Some(value: T) {
    function GetOr(default: T): T {
      match this
      case Some(v) => v
      case None => default
    }
  }

  /** Why a request to the remote API failed. */
  datatype FetchError =
    | HttpStatus(code: int)   // raise_for_status on a non-2xx reply
    | Transport               // the client itself raised (connection error)

  datatype Result<+T> = Ok(value: T) | Err(error: FetchError)

  /** A point in time. The remote API reports times in one canonical UTC form
      whose string order is the time order, so an integer stands for it. */
  type Timestamp = int

  /** The `type` field of a document: "issue", "pr" or "discussion". */
  datatype Kind = Issue | PullRequest | Discussion

  /** One document of the corpus. `body` is present on freshly crawled
      documents and absent once the document has been slimmed; `excerpt` is
      the other way round. */
  datatype Doc = Doc(
    id: string,
    kind: Kind,
    number: int,
    title: string,
    url: string,
    labels: seq<string>,
    updatedAt: Timestamp,
    body: Option<string>,
    excerpt: Option<string>)

  /** How many items a crawl may return before it stops: `max_items` caps the
      output when it is truthy (present and non-zero). The check runs after an
      item is appended, so a negative cap stops after the first item. */
  function CapLimit(maxItems: Option<int>): (r: Option<nat>)
    ensures r.None? <==> (maxItems.None? || maxItems.value == 0)
    ensures r.Some? ==> r.value >= 1
    ensures r.Some? && maxItems.value > 0 ==> r.value == maxItems.value
  {
    if maxItems.Some? && maxItems.value != 0 then
      Some(if maxItems.value >= 1 then maxItems.value else 1)
    else None
  }

  /** The part of an item stream that a crawl with this cap returns. */
  function Capped<T>(stream: seq<T>, maxItems: Option<int>): (r: seq<T>)
    ensures r <= stream
    ensures CapLimit(maxItems).None? ==> r == stream
    ensures CapLimit(maxItems).Some? ==> |r| == if |stream| <= CapLimit(maxItems).value then |stream| else CapLimit(maxItems).value
  {
    match CapLimit(maxItems)
    case None => stream
    case Some(limit) => if |stream| <= limit then stream else stream[..limit]
  }

  /** The source's test `max_items and len(out) >= max_items`, made after
      each item is appended. */
  predicate CapHit(maxItems: Option<int>, count: nat)
  {
    maxItems.Some? && maxItems.value != 0 && count >= maxItems.value
  }

  /** The crawl holds fewer items than its cap allows (or has no cap). */
  predicate Below(maxItems: Option<int>, count: nat)
  {
    CapLimit(maxItems).None? || count < CapLimit(maxItems).value
  }

  /** Once at least one item is held, the source's test fires exactly when
      the crawl is no longer below its cap. */
  lemma CapHitIsLimit(maxItems: Option<int>, count: nat)
    requires count >= 1
    ensures CapHit(maxItems, count) <==> !Below(maxItems, count)
  {
  }

  /** A crawl that stopped at its cap holds exactly the capped stream. */
  lemma CappedAtLimit<T>(out: seq<T>, stream: seq<T>, maxItems: Option<int>)
    requires out <= stream && !Below(maxItems, |out|) && Below(maxItems, |out| - 1)
    ensures out == Capped(stream, maxItems)
  {
  }

  /** A crawl that ran to the end below its cap holds the whole stream. */
  lemma CappedBelowLimit<T>(stream: seq<T>, maxItems: Option<int>)
    requires Below(maxItems, |stream|)
    ensures stream == Capped(stream, maxItems)
  {
  }
}

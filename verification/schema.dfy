/**
 * The data exchanged with the Discogs API and kept in the ratings store.
 * JSON objects appear only with the keys the fetchers read.
 */
module Schema {
  import opened Wrappers
  import opened Nested

  /** A release of the user's collection: `id`, `instance_id`, `rating`, `basic_information.title` and `.artists[].name`. */
  datatype Release = Release(id: int, instanceId: int, rating: int, title: string, artists: seq<string>)

  /**
   * A parsed reply body: the folder's `count`, the `pagination.pages` of a
   * releases page and its `releases` list, each possibly absent.
   */
  datatype Body = Body(count: Option<int>, pages: Option<int>, releases: Option<seq<Release>>)

  /**
   * What one HTTP GET yields: a reply with its status code, its
   * `X-Discogs-Ratelimit-Remaining` header (if sent) and its body, or a
   * transport failure raised by the HTTP session.  `now` is the clock
   * reading, in whole seconds, taken when the response is examined (the
   * client reads it only if the reply is throttled).
   */
  datatype Response =
    | Reply(status: int, remaining: Option<int>, now: int, body: Body)
    | Broken(now: int)

  /** One stored rating; the legacy scripts also keep the release ids. */
  datatype RatingRecord = RatingRecord(rating: int, id: Option<int>, instanceId: Option<int>)

  /** The ratings store: `artist key -> album key -> record`. */
  type Store = Buckets<RatingRecord>

  /** The persisted document `{last_updated, ratings}`; either key may be missing when loaded. */
  datatype Doc = Doc(lastUpdated: Option<int>, ratings: Option<Store>)
}

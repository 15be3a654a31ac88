# discogs2music ratings sync, modelled in Dafny

discogs2music copies the star ratings of a Discogs collection into the
Music app (formerly iTunes). It works in two steps:

- **Fetch.** `Discogs.get_ratings` sizes the user's collection folder. It
  then reads every releases page and builds a ratings store. The store is
  a two-level map, normalised artist key → normalised album key → record.
  A key already present is never overwritten (first write wins). The prior
  saved store is the starting point.
- **Reconcile.** `Music.set_ratings_from_discogs` walks the local tracks.
  It looks each track up by artist and then album. It records the track as
  an artist miss, an album miss, updated or not updated. An updated track
  is written `rating × CONVERTION_RATIO` (20), in either the album-rating
  field or the song-rating field. At the end it prints summary counts.

The two legacy scripts, `discogs2itunes.py` and `discogs2itunes.rb`, do
the same job with small differences. All three implementations are
modelled side by side, selected by `Keys.Variant`:

| | package (`Current`) | Python script (`LegacyPy`) | Ruby script (`LegacyRb`) |
|---|---|---|---|
| key normalisation | `str.title()` | `parameterize(lower())` | `downcase.strip.parameterize` |
| collection sizing | folder `count`, ceiling of count/100 | `pagination.pages` of page 1 | `pagination.pages` of page 1 |
| pages requested | 1 … n | 0 … n−1 as written; 1 … n in the model (see Findings) | 1 … n |
| rate-limit retry | yes (429 or quota < 2) | no | no |
| prior store merged | yes | no | no |
| update policy | local value unset (`== 0`) or override | remote > local | remote > local, or override |
| miss statistics | count the keys | sum the counters | sum the counters |

Modules:

- `Wrappers`: `Option` and `Result`.
- `Text`: ASCII models of `strip`, `lower`, `title`, `parameterize` and the
  `(digits)` regular-expression substitution.
- `Keys`: the artist, album and track keys of each variant.
- `Nested`: two-level maps with `setdefault` (`||=` in Ruby) and counter
  increments, and the sums the statistics use.
- `Schema`: releases, reply bodies, HTTP responses and the ratings store.
- `Requests`: the retry loop of `Discogs.__request`.
- `Fetcher`: `get_ratings` and the legacy `get_discogs_ratings`.
- `Reconciler`: `set_ratings_from_discogs` and the legacy `update_itunes_ratings`.

The network is a finite sequence of responses. The clock reading, in whole
seconds, is carried on each response. A track's writes are returned as a
list of `Write` values instead of being sent to the player.

Points where the code's behaviour is easy to misread:

- The detail record's `from` is the track's album rating even in song
  mode. See `discogs2music/music.py:103`, `discogs2itunes.py:133` and `discogs2itunes.rb:159`.
- An artist miss is recorded once, with the value 1. It is not
  incremented on each track.
- The two legacy scripts do not merge a prior store.
- Normalisation is `str.title()` or a slug. It does not strip diacritics
  and it is not claimed to be idempotent.

## Model

| member | source | states |
|---|---|---|
| Text.Strip | discogs2music/discogs.py:129 | the result is the input with its whole leading and trailing whitespace runs cut off (empty when it is all whitespace), so it neither starts nor ends with whitespace |
| Text.StripAppendSpace | discogs2music/discogs.py:129 | one more whitespace character at the end does not change the stripped name |
| Text.RemoveGroupsPlain | discogs2music/discogs.py:129 | text containing no `(` passes through the `(digits)` substitution unchanged, and whatever follows it is substituted on its own |
| Text.RemoveGroupsGroup | discogs2music/discogs.py:129 | a `(digits)` group at the front is deleted; with the Ruby `$` anchor it is kept unless the text ends or a line break follows it |
| Text.RemoveGroupsSplice | discogs2itunes.rb:85 | a `(digits)` group after group-free text is deleted in place (Python everywhere, Ruby only at the end of the string or of a line); the text before it is kept and the text after it is substituted on its own |
| Text.JoinSnoc | discogs2music/discogs.py:128-130 | joining one more part appends the separator and then that part to the earlier join |
| Text.TitleCase | discogs2music/discogs.py:127-130 | same length; equal up to case; a letter is upper case exactly when it starts a run of letters; other characters are kept |
| Text.Parameterize | discogs2itunes.py:64-65 | the result is the input's maximal runs of letters, digits and underscores, lower-cased and joined by single dashes: every other run of characters between two words becomes one dash, and at either end nothing; so it is a slug (slug characters only, no capitals, no `--`, no dash at either end) whose word characters are the input's, in order, lower-cased |
| Text.WordRunsStrip | discogs2itunes.rb:84-85 | stripping whitespace keeps the word runs, so the Ruby `strip` before `parameterize` changes no key |
| Keys.Normalize | discogs2music/music.py:73-75 | package keys are title-cased and equal the input up to case; script keys are the word runs of the lower-cased input joined by single dashes, hence slugs whose letters, digits and underscores are the input's, in order, lower-cased (the Ruby `strip` changes none of this) |
| Keys.CleanName | discogs2itunes.py:65 | a cleaned name is never longer than the name; in the package and the Python script it has no whitespace at either end; a name without `(` is only stripped (Ruby: kept as it is) |
| Keys.CleanNameDropsDisambiguator | discogs2itunes.rb:85 | a name closed by ` (digits)` cleans to the bare name stripped in the package and the Python script; the Ruby script drops the group and keeps the blank before it |
| Keys.ArtistKey | discogs2music/discogs.py:128-130 | a release's artist key is title-cased in the package and a slug in the scripts |
| Keys.ArtistKeyAppend | discogs2itunes.py:65 | a further credited artist extends the joined names by `" - "` and its own cleaned name before the whole is normalised |
| Keys.DisambiguatedArtistKey | discogs2music/discogs.py:128-130 | a single artist `X (n)` gets the same artist key as a plain `X`, in all three variants |
| Keys.TitleKeysMatchIgnoringCase | discogs2music/music.py:73-78 | in the package, two names share a key exactly when they are equal up to ASCII case (both directions) |
| Keys.LegacyKeysIgnoreCase | discogs2itunes.rb:129-135 | in the scripts, names equal up to case share a key |
| Keys.SingleArtistKeyMatchesTrack | discogs2music/discogs.py:128-130 | a release with one plain artist name gets the key a track with that artist name gets, so the fetcher's and reconciler's key spaces meet |
| Nested.SetDefaultKey | discogs2music/music.py:83 | the key is added; an existing value is kept; a new key gets the default; other keys are unchanged |
| Nested.SetDefault | discogs2music/discogs.py:134-138 | a present pair keeps its value; an absent one gets the default; every other pair is unchanged; the pair set grows by exactly this pair |
| Nested.Bump | discogs2music/music.py:92-94 | the counter goes up by one from 0; every other pair is unchanged |
| Nested.InsertAllSpec | discogs2music/discogs.py:125-138 | after a series of `setdefault`s, a pair already present keeps its value and every other pair holds the value of the first entry naming it; the pair set is the union |
| Nested.InsertAllConcat | discogs2music/discogs.py:116-138 | inserting two batches in turn is inserting their concatenation, so page-by-page merging equals merging all releases at once |
| Nested.NestedTotalBump | discogs2itunes.py:122-124 | each counter increment adds exactly one to the nested sum |
| Nested.SumValues | discogs2music/music.py:127-129 | the loop's sum equals the order-independent total of the map's values |
| Nested.SumNested | discogs2itunes.py:154 | the loop's sum equals the total of the per-artist totals |
| Nested.CountPairs | discogs2music/music.py:130-134 | the sum of the inner maps' sizes equals the number of (artist, key) pairs |
| Requests.WaitSeconds | discogs2music/discogs.py:83-86 | the sleep is at least 2 seconds and at least what is left of the 61-second window, and it is one of the two |
| Requests.RequestSpec | discogs2music/discogs.py:62-89 | every sleep answers a throttled reply, with the wait measured from the previous back-off; the reply returned is the first unthrottled one; running out of responses or a transport failure is reported as such |
| Requests.AwaitReply | discogs2music/discogs.py:62-89 | the retry written as a loop gives the same attempt as the recursive definition |
| Requests.UnthrottledReplyIsTakenAtOnce | discogs2music/discogs.py:79-80 | a reply with quota of at least 2 and a status other than 429 is returned at once, with no sleep |
| Requests.MissingHeaderMeansStatusDecides | discogs2music/discogs.py:79-80 | with no quota header (60 assumed), a reply is throttled exactly when its status is 429 |
| Fetcher.Call | discogs2music/discogs.py:73-89 | the responses consumed are a prefix; the request is issued once and sent once per response used; a success is the body of the last response used; with throttling, every earlier response was throttled and the last was not; without throttling at most one response is used and nothing is slept; a failure is a transport error on the last response used, or the responses running out after only throttled ones |
| Fetcher.CallOutcome | discogs2music/discogs.py:73-89 | without throttling the call succeeds exactly when the next response is a reply; with it, the call runs out of responses exactly when every remaining response is throttled |
| Fetcher.CallSleeps | discogs2music/discogs.py:80-88 | a throttled call sleeps once per throttled response it passes over, each time `max(2, 61 − (now − last block))`, and leaves the last block time at the last throttled response |
| Fetcher.TotalPages | discogs2music/discogs.py:107-108 | the page count n satisfies (n−1)·100 < count ≤ n·100, i.e. it is the ceiling |
| Fetcher.PageCountIsCeiling | discogs2music/discogs.py:107-108 | a missing `count` gives no pages; a positive count gives the ceiling of count/100 |
| Fetcher.RequestedPages | discogs2music/discogs.py:116-118 | the pages requested are 1 … n in order: n of them (none when n ≤ 0), the i-th being i + 1, and a page is requested exactly when 1 ≤ page ≤ n |
| Fetcher.ZeroBasedPages | discogs2itunes.py:55-56 | the Python script's loop as written yields n page numbers, starting at 0 |
| Fetcher.TwoHundredFiftyReleasesTakeThreePages | discogs2music/discogs.py:107-118 | 250 releases are read as pages 1, 2 and 3 |
| Fetcher.OneBasedPagesCoverCollection | discogs2music/discogs.py:116-118 | every release position of a collection lies on a requested page, and every requested page holds at least one release |
| Fetcher.ZeroBasedPagesSkipLastPage | discogs2itunes.py:53-57 | the Python script requests page 0 and never requests page n |
| Fetcher.RecordOf | discogs2itunes.py:61-71 | the record carries the release's rating; it carries ids exactly in the scripts, and they are the release's `id` and `instance_id` |
| Fetcher.CallSettles | discogs2music/discogs.py:73-89 | a call settles on the first unthrottled response (the first response without throttling); it succeeds exactly when that response is a reply, and then returns its body and consumes the responses up to and including it |
| Fetcher.FetchPagesOutcome | discogs2music/discogs.py:116-124 | the page loop succeeds exactly when each page request, in turn, settles on a reply that has a `releases` list |
| Fetcher.FetchRatingsOutcome | discogs2music/discogs.py:104-124 | the fetch succeeds exactly when the sizing request settles on a reply (with `pagination.pages` in the scripts) and every page request it implies then settles on a reply with `releases` |
| Fetcher.FetchPages | discogs2music/discogs.py:116-138 | the releases requests are issued in page order; one list of releases is received per page; the store is the first-write-wins insertion of every release in order; the responses left over are exactly those after the ones consumed |
| Fetcher.ReadsFromIndexed | discogs2music/discogs.py:73-89 | reading replies means, by position: one answering reply per request, at strictly increasing positions, each carrying that page's `releases`; with throttling every answer is unthrottled and every response between answers is throttled; without it request i takes response i |
| Fetcher.FetchPagesReadsReplies | discogs2music/discogs.py:116-124 | every page list the loop returns is the `releases` of the reply that answered that page's request, in request order, and only throttled responses were passed over |
| Fetcher.FetchReadsReplies | discogs2music/discogs.py:104-124 | the page count comes from the sizing reply (ceiling of `count`/100, or the legacy `pagination.pages`), which is the first unthrottled response; the pages received are the `releases` of the replies that follow, in order |
| Fetcher.FetchRatings | discogs2music/discogs.py:91-139 | the requests are the sizing request followed by releases pages 1 … n; the returned `ratings` is the prior store with every received release inserted in order; `last_updated` is the clock read before the first request, in the package only |
| Fetcher.FetchIsFirstWriteWins | discogs2music/discogs.py:109-138 | every pair of the prior store survives with its record; every other pair holds the record of the first release that names it, searching the `releases` of the answering replies in the order they arrived |
| Fetcher.NoPriorStartsEmpty | discogs2music/discogs.py:109-112 | with no prior document, or one without `ratings`, the fetch starts from an empty store |
| Fetcher.MissingCountRequestsNoPage | discogs2music/discogs.py:107-117 | a folder reply without `count` requests no page and returns the prior ratings unchanged |
| Reconciler.Classify | discogs2music/music.py:78-124 | artist miss iff the artist key is absent; album miss iff the artist is present and the album absent; otherwise a detail (album rating → stored rating × 20); updated iff the variant's policy allows it; override updates every matched track; the package never replaces a set rating without override; the scripts without override only raise |
| Reconciler.Decide | discogs2itunes.py:104-111 | one decision per track, in order, with that track's keys and outcome |
| Reconciler.PoliciesDisagreeOnRatedAlbum | discogs2itunes.rb:168 | an album rated 40 with a 3-star remote rating is kept by the package, raised to 60 by the Ruby script, and raised by the package with override |
| Reconciler.ArtistMissBucket | discogs2music/music.py:83 | `artists.miss` holds exactly the distinct missing artists, each with the value 1 |
| Reconciler.AlbumMissPairs | discogs2music/music.py:90-91 | `albums.miss` holds exactly the distinct missed (artist, album) pairs |
| Reconciler.AlbumMissOnes | discogs2itunes.rb:145-146 | every `albums.miss` value is 1 |
| Reconciler.AlbumMissTotal | discogs2itunes.py:154 | the `albums.miss` values add up to the number of missed albums |
| Reconciler.SongMissPairs | discogs2music/music.py:92-94 | `songs.miss` holds exactly the distinct missed (artist, name) pairs |
| Reconciler.SongMissCounts | discogs2music/music.py:92-94 | each `songs.miss` counter is the number of album-miss tracks with that (artist, name) |
| Reconciler.SongMissTotal | discogs2itunes.py:157 | the `songs.miss` counters add up to the number of album-miss tracks |
| Reconciler.DetailIsFirstDecided | discogs2music/music.py:101-124 | a detail bucket holds exactly the (artist, unit) pairs of its tracks, each with the detail of the first track that produced it |
| Reconciler.WritesAreUpdates | discogs2music/music.py:104-118 | only updated tracks are written, once each and in track order, with the converted remote rating, into the field of the run's mode |
| Reconciler.EveryUpdateIsWritten | discogs2itunes.rb:160-172 | the written tracks are exactly the updated ones |
| Reconciler.WritesRespectPolicy | discogs2music/music.py:96-124 | every write goes to a track whose artist and album are in the store, carries stored rating × 20, and is allowed by the variant's policy when not overriding |
| Reconciler.MissCounts | discogs2itunes.rb:183-187 | after the pass, the miss sums and pair counts equal the numbers of distinct missing artists, missed albums, missed songs and album-miss tracks |
| Reconciler.DetailCounts | discogs2music/music.py:135-159 | after the pass, each detail bucket's pair count equals the number of distinct decided pairs |
| Reconciler.Summarize | discogs2music/music.py:125-159 | the artist count sums the values; the package counts the pairs of every other bucket; the scripts sum the two miss buckets' counters |
| Reconciler.Walk | discogs2music/music.py:71-124 | the loop with one branch per outcome builds exactly the folded buckets and writes |
| Reconciler.Reconcile | discogs2music/music.py:45-159 | the report is the whole pass; stats are absent exactly when the package runs without logging; otherwise each stat equals its reference count, with song misses counted by pair in the package and by track in the scripts |

## Left out

- Reading and writing tracks through AppleScript (`appscript`) is left out. The tracks are an input sequence and the writes an output sequence.
- The progress bars, log messages, the `print`/`puts` of the statistics and the `sleep(0.25)` between legacy pages are left out. They change no data.
- Loading and saving the data file (JSON, `marshal`, Ruby `Marshal`), the command line and the orchestration in `discogs2music.py`, `data.py`, `options.py` and `logger.py` are left out. They are outside the core.
- The `oauth/identity` request made by the `Discogs` constructor is left out. Its URL is taken as given.
- Discogs' handling of a `page=0` request is left out. The model records only that the request is made.
- Unicode case mapping, transliteration in `parameterize`, and non-ASCII whitespace are left out. `Text` works on ASCII only.
- `int()` and `to_i` conversions of JSON values, and malformed JSON, are left out. The ratings and ids are already integers.
- A store record without `rating` (a `KeyError` in the source) cannot occur, because `RatingRecord.rating` is mandatory.
- Requests.Request: the retry ends when the finite response sequence runs out (`OutOfResponses`). In the source each retry is a recursive call, so a long enough run of throttled replies (about a thousand in a row) ends in Python's `RecursionError` instead. The model sets no such depth limit.
- Reconciler.Reconcile: every track is decided against the album rating read from the player before the pass. The source reads `album_rating` again for each track (`discogs2music/music.py:76`, `discogs2itunes.py:108`, `discogs2itunes.rb:132`), so once one track's album-rating write lands, a later track of the same album sees the new value. The package then counts that later track `not_updated` (`discogs2music/music.py:112-124`), and the scripts compare the remote rating against the new value (`discogs2itunes.py:141`). In the model the later track is decided again against the old value and written a second time. Modelling this needs a player state that the writes change, which the model does not have.
- Fetcher.Call: the legacy scripts do not look at the HTTP status, so a reply is taken whatever its status.
- Fetcher.FetchRatings: the Python script's fetch uses the corrected 1 … n page numbering. `ZeroBasedPages` keeps the numbering as written (see Findings).
- Text.Strip: Python's `str.strip()` also removes the separators `\x1c`–`\x1f` and non-ASCII whitespace. Ruby's `strip` also removes NUL characters. `Text.IsSpace` covers space, tab, line feed, vertical tab, form feed and carriage return only.
- Requests.WaitSeconds: the clock is `time()`, a float, and the sleep may be fractional. The model reads the clock in whole seconds.

## Findings

| source | as written | input that shows it | evidently intended | confidence | as-written member | corrected member |
|---|---|---|---|---|---|---|
| discogs2itunes.py:55-56 | the page loop runs `page` over `range(total_pages)`, i.e. 0 … n−1 | a collection with `pagination.pages == 2`: pages 0 and 1 are requested and page 2 (releases 101–200) never is | pages 1 … n, as in the Ruby script and the package | not executed | Fetcher.ZeroBasedPagesSkipLastPage | Fetcher.OneBasedPagesCoverCollection |

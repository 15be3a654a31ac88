/**
 * `Discogs.get_ratings` and the legacy `get_discogs_ratings`: work out the
 * number of pages, request every releases page in order, and merge each
 * release's rating into the store under its normalised artist and album keys
 * with first-write-wins.
 */
module Fetcher {
  import opened Wrappers
  import opened Nested
  import opened Keys
  import opened Schema
  import opened Requests

  /** `API_LIMIT` / `api_limit`: releases per page (the `per_page` parameter). */
  const PageSize: int := 100

  /** A request, identified by its endpoint and `page` parameter (the token and `per_page` never change). */
  datatype Req =
    | Folder(page: int)    // `.../collection/folders/0`
    | Releases(page: int)  // `.../collection/folders/0/releases`

  /**
   * The network as seen by the fetcher: the responses still to come, the
   * last back-off time, the requests issued (once each), every HTTP send
   * (a retried request appears once per send) and the sleeps taken.
   */
  datatype Net = Net(pending: seq<Response>, lastBlock: int, issued: seq<Req>, sent: seq<Req>, waits: seq<int>)

  datatype FetchError =
    | TransportError         // the HTTP session raised
    | NoMoreResponses        // the finite response sequence ran out
    | MissingPagination      // a legacy first page without `pagination.pages`
    | MissingReleases(page: int)  // a releases page without `releases`

  /** One request's result, the network afterwards and how many responses it consumed. */
  datatype Called = Called(result: Result<Body, FetchError>, net: Net, used: nat)

  function Repeat(q: Req, n: nat): (r: seq<Req>)
    ensures |r| == n
    ensures forall i :: 0 <= i < n ==> r[i] == q
  {
    seq(n, _ => q)
  }

  /** Only the current package checks the rate limit; the scripts take every reply as it comes. */
  predicate Throttles(v: Variant) {
    v == Current
  }

  /**
   * Sends request `q`.  With `throttle` this is `__request`: retry while the
   * reply is throttled.  Without it one response is consumed, whatever its
   * status.
   */
  function Call(net: Net, q: Req, throttle: bool): (c: Called)
    ensures c.used <= |net.pending| && c.net.pending == net.pending[c.used..]
    ensures c.net.issued == net.issued + [q]
    ensures c.net.sent == net.sent + Repeat(q, c.used)
    ensures c.result.Success? ==>
      c.used >= 1 && net.pending[c.used - 1].Reply? && c.result.value == net.pending[c.used - 1].body
    ensures c.result.Success? ==> |c.net.waits| == |net.waits| + c.used - 1
    ensures throttle && c.result.Success? ==>
      !Throttled(net.pending[c.used - 1]) && forall j :: 0 <= j < c.used - 1 ==> Throttled(net.pending[j])
    ensures !throttle ==> c.used <= 1 && c.net.waits == net.waits && c.net.lastBlock == net.lastBlock
    // How a call fails: the transport raised on the last response used, or the responses ran out.
    ensures c.result.Failure? ==> c.result.error == TransportError || c.result.error == NoMoreResponses
    ensures c.result.Failure? && c.result.error == TransportError ==>
      c.used >= 1 && net.pending[c.used - 1].Broken?
    ensures c.result.Failure? && c.result.error == NoMoreResponses ==>
      c.used == |net.pending| && (throttle || |net.pending| == 0)
  {
    if throttle then
      var a := Request(net.pending, net.lastBlock);
      RequestSpec(net.pending, net.lastBlock);
      var net' := Net(net.pending[a.used..], a.lastBlock, net.issued + [q], net.sent + Repeat(q, a.used), net.waits + a.waits);
      match a.outcome
      case Answered(body) => Called(Success(body), net', a.used)
      case TransportFailed => Called(Failure(TransportError), net', a.used)
      case OutOfResponses => Called(Failure(NoMoreResponses), net', a.used)
    else if |net.pending| == 0 then
      Called(Failure(NoMoreResponses), net.(issued := net.issued + [q]), 0)
    else
      var net' := net.(pending := net.pending[1..], issued := net.issued + [q], sent := net.sent + [q]);
      match net.pending[0]
      case Broken(_) => Called(Failure(TransportError), net', 1)
      case Reply(_, _, _, body) => Called(Success(body), net', 1)
  }

  /**
   * Without throttling a call succeeds exactly when the next response is a
   * reply; with it, the responses run out exactly when every one left is
   * throttled.
   */
  lemma CallOutcome(net: Net, q: Req, throttle: bool)
    ensures var c := Call(net, q, throttle);
      && (!throttle ==> (c.result.Success? <==> |net.pending| > 0 && net.pending[0].Reply?))
      && (throttle ==>
            (c.result == Failure(NoMoreResponses) <==> forall j :: 0 <= j < |net.pending| ==> Throttled(net.pending[j])))
  {
    if throttle {
      CallSleeps(net, q);
    }
  }

  /**
   * What a throttled call sleeps: one wait per throttled response it
   * passes over, each timed from the previous back-off, and the back-off
   * time afterwards is that of the last throttled response.
   */
  lemma CallSleeps(net: Net, q: Req)
    ensures var c := Call(net, q, true);
      var k := if c.result.Failure? && c.result.error == NoMoreResponses then c.used else c.used - 1;
      && k >= 0
      && |c.net.waits| == |net.waits| + k
      && c.net.waits[..|net.waits|] == net.waits
      && (forall i :: 0 <= i < k ==>
            Throttled(net.pending[i]) &&
            c.net.waits[|net.waits| + i] == WaitSeconds(net.pending[i].now, if i == 0 then net.lastBlock else net.pending[i - 1].now))
      && c.net.lastBlock == if k == 0 then net.lastBlock else net.pending[k - 1].now
  {
    RequestSpec(net.pending, net.lastBlock);
  }

  /** `-(-count // API_LIMIT)`: Python floor division, the same as Dafny's for a positive divisor. */
  function TotalPages(count: int): (n: int)
    ensures (n - 1) * PageSize < count <= n * PageSize
  {
    -((-count) / PageSize)
  }

  /** `total` consecutive page numbers starting at `first`; none when `total` is not positive. */
  function PageNumbers(first: int, total: int): (r: seq<int>)
    ensures |r| == if total > 0 then total else 0
    ensures forall i :: 0 <= i < |r| ==> r[i] == first + i
  {
    seq(if total > 0 then total else 0, i => first + i)
  }

  /**
   * The pages every variant requests: 1 to `total`.  The Python script's
   * loop is written 0-based; `ZeroBasedPages` keeps that form apart and the
   * fetch uses the intended numbering.
   */
  function RequestedPages(total: int): (r: seq<int>)
    ensures |r| == if total > 0 then total else 0
    ensures forall i :: 0 <= i < |r| ==> r[i] == i + 1
    ensures forall p :: p in r <==> 1 <= p <= total
  {
    var r := PageNumbers(1, total);
    forall p | 1 <= p <= total ensures p in r {
      assert r[p - 1] == p;
    }
    r
  }

  /** The Python script's page loop as written: `range(total_pages)`, pages 0 to `total - 1`. */
  function ZeroBasedPages(total: int): (r: seq<int>)
    ensures |r| == if total > 0 then total else 0
    ensures forall i :: 0 <= i < |r| ==> r[i] == i
  {
    PageNumbers(0, total)
  }

  /** The request that sizes the collection: the folder itself, or the first releases page. */
  function SizingRequest(v: Variant): Req {
    if v == Current then Folder(1) else Releases(1)
  }

  function ReleaseRequests(pages: seq<int>): (r: seq<Req>)
    ensures |r| == |pages|
    ensures forall i :: 0 <= i < |pages| ==> r[i] == Releases(pages[i])
  {
    seq(|pages|, i requires 0 <= i < |pages| => Releases(pages[i]))
  }

  /** The record a release contributes: only the rating in the package, the ids as well in the scripts. */
  function RecordOf(v: Variant, rel: Release): (r: RatingRecord)
    ensures r.rating == rel.rating
    ensures r.id.Some? <==> v != Current
    ensures r.instanceId.Some? <==> v != Current
    ensures r.id.Some? ==> r.id.value == rel.id && r.instanceId == Some(rel.instanceId)
  {
    if v == Current then RatingRecord(rel.rating, None, None)
    else RatingRecord(rel.rating, Some(rel.id), Some(rel.instanceId))
  }

  function EntryOf(v: Variant, rel: Release): Entry<RatingRecord> {
    Entry(ArtistKey(v, rel.artists), Normalize(v, rel.title), RecordOf(v, rel))
  }

  function EntriesOf(v: Variant, rels: seq<Release>): (r: seq<Entry<RatingRecord>>)
    ensures |r| == |rels|
    ensures forall i :: 0 <= i < |rels| ==> r[i] == EntryOf(v, rels[i])
  {
    seq(|rels|, i requires 0 <= i < |rels| => EntryOf(v, rels[i]))
  }

  /** The entries of all pages, page after page. */
  function AllEntries(v: Variant, pages: seq<seq<Release>>): seq<Entry<RatingRecord>> {
    if |pages| == 0 then [] else EntriesOf(v, pages[0]) + AllEntries(v, pages[1..])
  }

  /** The store the fetch starts from: the prior document's `ratings`, or empty. */
  function BaseStore(v: Variant, prior: Option<Doc>): Store {
    if v == Current && prior.Some? && prior.value.ratings.Some? then prior.value.ratings.value
    else map[]
  }

  /** `answers` with `k` added to every position. */
  function Shift(answers: seq<nat>, k: nat): (r: seq<nat>)
    ensures |r| == |answers|
    ensures forall i :: 0 <= i < |answers| ==> r[i] == answers[i] + k
  {
    seq(|answers|, i requires 0 <= i < |answers| => answers[i] + k)
  }

  /** Answer positions of a reply at `k - 1` followed by `answers`, which count from position `k`. */
  function AnsweredAt(k: nat, answers: seq<nat>): (r: seq<nat>)
    requires k >= 1
    ensures |r| == |answers| + 1 && r[0] == k - 1 && r[1..] == Shift(answers, k)
  {
    [k - 1] + Shift(answers, k)
  }

  /**
   * Requests answered from position `from` of `pending` on: the first took
   * the responses up to its answer `answers[0]` (only throttled ones before
   * it with `throttle`, none without) and that answer is a reply whose
   * `releases` list is `bodies[0]`; the others follow just after it, and
   * `used` is where the last one stopped.
   */
  ghost predicate ReadsFrom(pending: seq<Response>, throttle: bool, from: nat, answers: seq<nat>,
                            bodies: seq<seq<Release>>, used: nat)
    decreases |answers|
  {
    if |answers| == 0 then |bodies| == 0 && used == from && used <= |pending|
    else
      && |bodies| > 0
      && from <= answers[0] < |pending|
      && pending[answers[0]].Reply?
      && pending[answers[0]].body.releases == Some(bodies[0])
      && (throttle ==> !Throttled(pending[answers[0]]) && forall j :: from <= j < answers[0] ==> Throttled(pending[j]))
      && (!throttle ==> answers[0] == from)
      && ReadsFrom(pending, throttle, answers[0] + 1, answers[1..], bodies[1..], used)
  }

  /**
   * The page requests were answered by the first `used` responses of
   * `pending`: `answers[i]` is the position of the reply that answered
   * request `i`, and `bodies[i]` is that reply's `releases` list.
   */
  ghost predicate ReadsReplies(pending: seq<Response>, throttle: bool, used: nat, answers: seq<nat>, bodies: seq<seq<Release>>) {
    ReadsFrom(pending, throttle, 0, answers, bodies, used)
  }

  /** Where the responses passed over before answer `i` start: at `from`, or just after the previous answer. */
  function GapStart(from: nat, answers: seq<nat>, i: nat): nat
    requires i < |answers|
  {
    if i == 0 then from else answers[i - 1] + 1
  }

  /**
   * The same reading by position: one answer per request, in increasing
   * positions, each a reply carrying that page's releases; with throttling
   * every answer is unthrottled and every response between two answers is
   * throttled (the retries of `__request`), without it request `i` takes
   * response `from + i`.
   */
  lemma {:induction false} ReadsFromIndexed(pending: seq<Response>, throttle: bool, from: nat, answers: seq<nat>,
                                            bodies: seq<seq<Release>>, used: nat)
    requires ReadsFrom(pending, throttle, from, answers, bodies, used)
    ensures |answers| == |bodies| && from <= used <= |pending|
    ensures used == if |answers| == 0 then from else answers[|answers| - 1] + 1
    ensures forall i :: 0 <= i < |answers| ==>
      from <= answers[i] < used && pending[answers[i]].Reply? && pending[answers[i]].body.releases == Some(bodies[i])
    ensures forall i, j :: 0 <= i < j < |answers| ==> answers[i] < answers[j]
    ensures throttle ==> forall i :: 0 <= i < |answers| ==> !Throttled(pending[answers[i]])
    ensures throttle ==> forall i, j :: 0 <= i < |answers| && GapStart(from, answers, i) <= j < answers[i] ==> Throttled(pending[j])
    ensures !throttle ==> forall i :: 0 <= i < |answers| ==> answers[i] == from + i
    decreases |answers|
  {
    if |answers| > 0 {
      var tail := answers[1..];
      ReadsFromIndexed(pending, throttle, answers[0] + 1, tail, bodies[1..], used);
      forall i | 0 < i < |answers| ensures answers[i] == tail[i - 1] && bodies[i] == bodies[1..][i - 1] {}
      forall i | 0 < i < |answers| ensures GapStart(from, answers, i) == GapStart(answers[0] + 1, tail, i - 1) {}
    }
  }

  /** Reading the same replies with `k` more responses in front moves every position by `k`. */
  lemma {:induction false} ReadsFromShift(pending: seq<Response>, throttle: bool, k: nat, from: nat, answers: seq<nat>,
                                          bodies: seq<seq<Release>>, used: nat)
    requires k <= |pending|
    requires ReadsFrom(pending[k..], throttle, from, answers, bodies, used)
    ensures ReadsFrom(pending, throttle, from + k, Shift(answers, k), bodies, used + k)
    decreases |answers|
  {
    var rest := pending[k..];
    if |answers| > 0 {
      var a := answers[0];
      assert rest[a] == pending[a + k];
      if throttle {
        forall j | from + k <= j < a + k ensures Throttled(pending[j]) {
          assert rest[j - k] == pending[j];
        }
      }
      ReadsFromShift(pending, throttle, k, a + 1, answers[1..], bodies[1..], used);
      assert Shift(answers, k)[1..] == Shift(answers[1..], k);
    }
  }

  /** A request answered at position `k - 1`, followed by requests answered after position `k`. */
  lemma ReadsRepliesCons(pending: seq<Response>, throttle: bool, k: nat, rels: seq<Release>,
                         used: nat, answers: seq<nat>, bodies: seq<seq<Release>>)
    requires 1 <= k <= |pending|
    requires pending[k - 1].Reply? && pending[k - 1].body.releases == Some(rels)
    requires throttle ==> !Throttled(pending[k - 1]) && forall j :: 0 <= j < k - 1 ==> Throttled(pending[j])
    requires !throttle ==> k == 1
    requires ReadsReplies(pending[k..], throttle, used, answers, bodies)
    ensures ReadsReplies(pending, throttle, k + used, AnsweredAt(k, answers), [rels] + bodies)
  {
    ReadsFromShift(pending, throttle, k, 0, answers, bodies, used);
    assert ([rels] + bodies)[1..] == bodies;
  }

  /**
   * The releases pages were read from the replies, page after page, and
   * the network afterwards holds the responses not consumed.
   */
  datatype Walked = Walked(store: Store, net: Net, received: seq<seq<Release>>, answers: seq<nat>, used: nat)

  lemma SuffixOfSuffix<T>(s: seq<T>, m: nat, n: nat)
    requires m + n <= |s|
    ensures s[m..][n..] == s[m + n..]
  {
  }

  /** The page loop: request each page of `pages` in turn and merge its releases. */
  function FetchPages(v: Variant, pages: seq<int>, store: Store, net: Net): (r: Result<Walked, FetchError>)
    ensures r.Success? ==> r.value.net.issued == net.issued + ReleaseRequests(pages)
    ensures r.Success? ==> |r.value.received| == |pages|
    ensures r.Success? ==> r.value.store == InsertAll(store, AllEntries(v, r.value.received))
    ensures r.Success? ==> r.value.used <= |net.pending| && r.value.net.pending == net.pending[r.value.used..]
    decreases |pages|
  {
    if |pages| == 0 then Success(Walked(store, net, [], [], 0))
    else
      var c := Call(net, Releases(pages[0]), Throttles(v));
      if c.result.Failure? then Failure(c.result.error)
      else if c.result.value.releases.None? then Failure(MissingReleases(pages[0]))
      else
        var rels := c.result.value.releases.value;
        var store' := InsertAll(store, EntriesOf(v, rels));
        var rest := FetchPages(v, pages[1..], store', c.net);
        if rest.Failure? then rest
        else
          var w := rest.value;
          WalkStep(v, store, rels, w.received);
          IssuedStep(net.issued, pages);
          SuffixOfSuffix(net.pending, c.used, w.used);
          Success(Walked(w.store, w.net, [rels] + w.received, AnsweredAt(c.used, w.answers), c.used + w.used))
  }

  lemma IssuedStep(issued: seq<Req>, pages: seq<int>)
    requires |pages| > 0
    ensures (issued + [Releases(pages[0])]) + ReleaseRequests(pages[1..]) == issued + ReleaseRequests(pages)
  {
    assert ReleaseRequests(pages) == [Releases(pages[0])] + ReleaseRequests(pages[1..]);
  }

  lemma WalkStep(v: Variant, store: Store, rels: seq<Release>, later: seq<seq<Release>>)
    ensures InsertAll(store, AllEntries(v, [rels] + later)) == InsertAll(InsertAll(store, EntriesOf(v, rels)), AllEntries(v, later))
  {
    assert ([rels] + later)[1..] == later;
    assert AllEntries(v, [rels] + later) == EntriesOf(v, rels) + AllEntries(v, later);
    InsertAllConcat(store, EntriesOf(v, rels), AllEntries(v, later));
  }

  /** One page of FetchPages: the call's answer in front of the replies the later pages read. */
  lemma FetchPagesStep(net: Net, q: Req, throttle: bool, c: Called, rels: seq<Release>, w: Walked, r: Walked)
    requires c == Call(net, q, throttle) && c.result.Success? && c.result.value.releases == Some(rels)
    requires ReadsReplies(c.net.pending, throttle, w.used, w.answers, w.received)
    requires r == Walked(w.store, w.net, [rels] + w.received, AnsweredAt(c.used, w.answers), c.used + w.used)
    ensures ReadsReplies(net.pending, throttle, r.used, r.answers, r.received)
  {
    ReadsRepliesCons(net.pending, throttle, c.used, rels, w.used, w.answers, w.received);
  }

  /** FetchPagesReadsReplies for a loop known to succeed, by induction on the pages. */
  lemma {:induction false} SucceededPagesReadReplies(v: Variant, pages: seq<int>, store: Store, net: Net)
    requires FetchPages(v, pages, store, net).Success?
    ensures var w := FetchPages(v, pages, store, net).value;
      ReadsReplies(net.pending, Throttles(v), w.used, w.answers, w.received)
    decreases |pages|
  {
    if |pages| > 0 {
      var c := Call(net, Releases(pages[0]), Throttles(v));
      var rels := c.result.value.releases.value;
      var store' := InsertAll(store, EntriesOf(v, rels));
      var w := FetchPages(v, pages[1..], store', c.net).value;
      var r := FetchPages(v, pages, store, net).value;
      assert r == Walked(w.store, w.net, [rels] + w.received, AnsweredAt(c.used, w.answers), c.used + w.used);
      SucceededPagesReadReplies(v, pages[1..], store', c.net);
      FetchPagesStep(net, Releases(pages[0]), Throttles(v), c, rels, w, r);
    }
  }

  /**
   * A finished fetch: the document returned, the page count used, the
   * position of the reply that sized the collection, and the releases of
   * each page with the positions (counted after the sizing reply) of the
   * replies they came from and the number of responses the pages consumed.
   */
  datatype Fetched = Fetched(doc: Doc, totalPages: int, sizing: nat, received: seq<seq<Release>>,
                             answers: seq<nat>, used: nat, net: Net)

  /**
   * The reply at `sizing` answered the sizing request (after throttled
   * retries in the package, as the very first response in the scripts), and
   * `total` is the page count it gives: the ceiling of `count / 100`, a
   * missing `count` read as 0, or the legacy `pagination.pages`.
   */
  ghost predicate SizedBy(v: Variant, pending: seq<Response>, sizing: nat, total: int) {
    && sizing < |pending|
    && pending[sizing].Reply?
    && (Throttles(v) ==> !Throttled(pending[sizing]) && forall j :: 0 <= j < sizing ==> Throttled(pending[j]))
    && (!Throttles(v) ==> sizing == 0)
    && (v != Current ==> pending[sizing].body.pages.Some?)
    && total == if v == Current then TotalPages(pending[sizing].body.count.GetOr(0)) else pending[sizing].body.pages.GetOr(0)
  }

  lemma SizingStep(v: Variant, net: Net)
    requires Call(net, SizingRequest(v), Throttles(v)).result.Success?
    requires v != Current ==> Call(net, SizingRequest(v), Throttles(v)).result.value.pages.Some?
    ensures var c := Call(net, SizingRequest(v), Throttles(v));
      var body := c.result.value;
      SizedBy(v, net.pending, c.used - 1, if v == Current then TotalPages(body.count.GetOr(0)) else body.pages.value)
  {
  }

  /**
   * The whole fetch.  `clock` is the time read before any request (the
   * package's `last_updated`); `prior` is the previously saved document,
   * which only the package merges into.
   */
  function FetchRatings(v: Variant, prior: Option<Doc>, clock: int, net: Net): (r: Result<Fetched, FetchError>)
    ensures r.Success? ==>
      var pages := RequestedPages(r.value.totalPages);
      && r.value.net.issued == net.issued + [SizingRequest(v)] + ReleaseRequests(pages)
      && |r.value.received| == |pages|
      && r.value.doc.ratings == Some(InsertAll(BaseStore(v, prior), AllEntries(v, r.value.received)))
    ensures r.Success? ==> r.value.doc.lastUpdated == if v == Current then Some(clock) else None
  {
    var first := Call(net, SizingRequest(v), Throttles(v));
    if first.result.Failure? then Failure(first.result.error)
    else
      var body := first.result.value;
      if v != Current && body.pages.None? then Failure(MissingPagination)
      else
        var total := if v == Current then TotalPages(body.count.GetOr(0)) else body.pages.value;
        var pages := RequestedPages(total);
        var walked := FetchPages(v, pages, BaseStore(v, prior), first.net);
        if walked.Failure? then Failure(walked.error)
        else
          var w := walked.value;
          Success(Fetched(Doc(if v == Current then Some(clock) else None, Some(w.store)), total, first.used - 1,
                          w.received, w.answers, w.used, w.net))
  }

  /** FetchReadsReplies for a fetch known to succeed. */
  lemma SucceededFetchReadsReplies(v: Variant, prior: Option<Doc>, clock: int, net: Net)
    requires FetchRatings(v, prior, clock, net).Success?
    ensures var f := FetchRatings(v, prior, clock, net).value;
      && SizedBy(v, net.pending, f.sizing, f.totalPages)
      && ReadsReplies(net.pending[f.sizing + 1..], Throttles(v), f.used, f.answers, f.received)
      && f.net.pending == net.pending[f.sizing + 1 + f.used..]
  {
    var first := Call(net, SizingRequest(v), Throttles(v));
    var body := first.result.value;
    var total := if v == Current then TotalPages(body.count.GetOr(0)) else body.pages.value;
    SizingStep(v, net);
    SucceededPagesReadReplies(v, RequestedPages(total), BaseStore(v, prior), first.net);
    var f := FetchRatings(v, prior, clock, net).value;
    assert f.sizing + 1 == first.used;
  }

  /**
   * Every page list FetchPages returns is the `releases` list of the reply
   * that answered its request, in request order, and only those responses
   * (and, with throttling, the throttled ones before each) were consumed.
   */
  lemma FetchPagesReadsReplies(v: Variant, pages: seq<int>, store: Store, net: Net)
    ensures var r := FetchPages(v, pages, store, net);
      r.Success? ==> ReadsReplies(net.pending, Throttles(v), r.value.used, r.value.answers, r.value.received)
  {
    if FetchPages(v, pages, store, net).Success? {
      SucceededPagesReadReplies(v, pages, store, net);
    }
  }

  /**
   * Where a successful fetch's page count and pages came from: the sizing
   * reply, then the replies that answered the page requests in order, with
   * only throttled responses (in the package) consumed in between.
   */
  lemma FetchReadsReplies(v: Variant, prior: Option<Doc>, clock: int, net: Net)
    ensures var r := FetchRatings(v, prior, clock, net);
      r.Success? ==>
        && SizedBy(v, net.pending, r.value.sizing, r.value.totalPages)
        && ReadsReplies(net.pending[r.value.sizing + 1..], Throttles(v), r.value.used, r.value.answers, r.value.received)
        && r.value.net.pending == net.pending[r.value.sizing + 1 + r.value.used..]
  {
    if FetchRatings(v, prior, clock, net).Success? {
      SucceededFetchReadsReplies(v, prior, clock, net);
    }
  }

  /**
   * The position of the response a call settles on: with throttling the
   * first one that is not throttled, without it the very next one.
   */
  function Settles(pending: seq<Response>, throttle: bool): (k: nat)
    ensures k <= |pending|
    ensures throttle ==> forall j :: 0 <= j < k ==> Throttled(pending[j])
    ensures throttle && k < |pending| ==> !Throttled(pending[k])
    ensures !throttle ==> k == 0
  {
    if throttle && |pending| > 0 && Throttled(pending[0]) then 1 + Settles(pending[1..], throttle) else 0
  }

  lemma SettlesAt(pending: seq<Response>, throttle: bool, k: nat)
    requires k <= |pending|
    requires throttle ==> (forall j :: 0 <= j < k ==> Throttled(pending[j])) && (k < |pending| ==> !Throttled(pending[k]))
    requires !throttle ==> k == 0
    ensures Settles(pending, throttle) == k
  {
  }

  /**
   * A call succeeds exactly when the response it settles on is a reply, and
   * it then consumes the responses up to and including that reply.
   */
  lemma CallSettles(net: Net, q: Req, throttle: bool)
    ensures var c := Call(net, q, throttle);
      var k := Settles(net.pending, throttle);
      && (c.result.Success? <==> k < |net.pending| && net.pending[k].Reply?)
      && (c.result.Success? ==> c.used == k + 1 && c.result.value == net.pending[k].body)
  {
    var c := Call(net, q, throttle);
    if throttle {
      CallSleeps(net, q);
      if c.result.Success? || c.result.error == TransportError {
        SettlesAt(net.pending, throttle, c.used - 1);
      } else {
        SettlesAt(net.pending, throttle, c.used);
      }
    }
  }

  /**
   * `n` calls in a row can each settle on a reply that carries a
   * `releases` list, starting from the front of `pending`.
   */
  ghost predicate PagesAnswerable(pending: seq<Response>, throttle: bool, n: nat)
    decreases n
  {
    n == 0 ||
      var k := Settles(pending, throttle);
      && k < |pending|
      && pending[k].Reply?
      && pending[k].body.releases.Some?
      && PagesAnswerable(pending[k + 1..], throttle, n - 1)
  }

  /**
   * The page loop succeeds exactly when each of its requests in turn
   * settles on a reply that has a `releases` list; otherwise it stops at
   * the first request whose call fails or whose reply lacks `releases`.
   */
  lemma FetchPagesOutcome(v: Variant, pages: seq<int>, store: Store, net: Net)
    ensures FetchPages(v, pages, store, net).Success? <==> PagesAnswerable(net.pending, Throttles(v), |pages|)
  {
    FetchPagesRuns(v, pages, store, net);
    RunsAnswerable(v, pages, net);
  }

  /** The page loop's success, with the store left out: it does not depend on it. */
  ghost predicate PagesRun(v: Variant, pages: seq<int>, net: Net)
    decreases |pages|
  {
    || |pages| == 0
    || var c := Call(net, Releases(pages[0]), Throttles(v));
       && c.result.Success?
       && c.result.value.releases.Some?
       && PagesRun(v, pages[1..], c.net)
  }

  lemma {:induction false} FetchPagesRuns(v: Variant, pages: seq<int>, store: Store, net: Net)
    ensures FetchPages(v, pages, store, net).Success? == PagesRun(v, pages, net)
    decreases |pages|
  {
    if |pages| > 0 {
      var c := Call(net, Releases(pages[0]), Throttles(v));
      PagesOutcomeStep(v, pages, store, net);
      if c.result.Success? && c.result.value.releases.Some? {
        FetchPagesRuns(v, pages[1..], InsertAll(store, EntriesOf(v, c.result.value.releases.value)), c.net);
      }
    }
  }

  lemma {:induction false} RunsAnswerable(v: Variant, pages: seq<int>, net: Net)
    ensures PagesRun(v, pages, net) == PagesAnswerable(net.pending, Throttles(v), |pages|)
    decreases |pages|
  {
    if |pages| > 0 {
      var c := Call(net, Releases(pages[0]), Throttles(v));
      if c.result.Success? && c.result.value.releases.Some? {
        assert |pages[1..]| == |pages| - 1;
        RunsAnswerable(v, pages[1..], c.net);
        AnsweredPage(net, pages[0], v, |pages|);
      } else {
        assert !PagesAnswerable(net.pending, Throttles(v), |pages|) by {
          if PagesAnswerable(net.pending, Throttles(v), |pages|) {
            AnswerablePage(net, pages[0], v, |pages|);
          }
        }
      }
    }
  }

  /** A successful page call leaves the remaining pages answerable exactly when all pages were. */
  lemma AnsweredPage(net: Net, page: int, v: Variant, n: nat)
    requires n > 0
    requires var c := Call(net, Releases(page), Throttles(v)); c.result.Success? && c.result.value.releases.Some?
    ensures var c := Call(net, Releases(page), Throttles(v));
      PagesAnswerable(net.pending, Throttles(v), n) == PagesAnswerable(c.net.pending, Throttles(v), n - 1)
  {
    CallSettles(net, Releases(page), Throttles(v));
    AnswerableStep(net.pending, Throttles(v), n);
  }

  /** If the pages are answerable, the first page call succeeds with `releases`. */
  lemma AnswerablePage(net: Net, page: int, v: Variant, n: nat)
    requires n > 0 && PagesAnswerable(net.pending, Throttles(v), n)
    ensures var c := Call(net, Releases(page), Throttles(v)); c.result.Success? && c.result.value.releases.Some?
  {
    CallSettles(net, Releases(page), Throttles(v));
    AnswerableStep(net.pending, Throttles(v), n);
  }

  lemma AnswerableStep(pending: seq<Response>, throttle: bool, n: nat)
    requires n > 0
    ensures PagesAnswerable(pending, throttle, n) <==>
      var k := Settles(pending, throttle);
      k < |pending| && pending[k].Reply? && pending[k].body.releases.Some? && PagesAnswerable(pending[k + 1..], throttle, n - 1)
  {
  }

  /** FetchPages succeeds exactly when its first call does, with `releases`, and so does the rest of the loop. */
  lemma PagesOutcomeStep(v: Variant, pages: seq<int>, store: Store, net: Net)
    requires |pages| > 0
    ensures var c := Call(net, Releases(pages[0]), Throttles(v));
      FetchPages(v, pages, store, net).Success? <==>
        && c.result.Success?
        && c.result.value.releases.Some?
        && FetchPages(v, pages[1..], InsertAll(store, EntriesOf(v, c.result.value.releases.value)), c.net).Success?
  {
  }

  /**
   * The whole fetch succeeds exactly when the sizing request settles on a
   * reply (which, in the scripts, has `pagination.pages`) and every page
   * request after it then settles on a reply with a `releases` list.
   */
  lemma FetchRatingsOutcome(v: Variant, prior: Option<Doc>, clock: int, net: Net)
    ensures FetchRatings(v, prior, clock, net).Success? <==>
      var k := Settles(net.pending, Throttles(v));
      && k < |net.pending|
      && net.pending[k].Reply?
      && (v != Current ==> net.pending[k].body.pages.Some?)
      && var body := net.pending[k].body;
         var total := if v == Current then TotalPages(body.count.GetOr(0)) else body.pages.GetOr(0);
         PagesAnswerable(net.pending[k + 1..], Throttles(v), if total > 0 then total else 0)
  {
    var first := Call(net, SizingRequest(v), Throttles(v));
    CallSettles(net, SizingRequest(v), Throttles(v));
    if first.result.Success? {
      var body := first.result.value;
      if v == Current || body.pages.Some? {
        var total := if v == Current then TotalPages(body.count.GetOr(0)) else body.pages.value;
        FetchPagesOutcome(v, RequestedPages(total), BaseStore(v, prior), first.net);
      }
    }
  }

  /** The page count is the ceiling of `count / 100`; a missing `count` counts as 0 and gives no pages. */
  lemma PageCountIsCeiling(count: Option<int>)
    ensures count.None? ==> |RequestedPages(TotalPages(count.GetOr(0)))| == 0
    ensures count.Some? && count.value > 0 ==>
      (TotalPages(count.value) - 1) * PageSize < count.value <= TotalPages(count.value) * PageSize
  {
  }

  /** A folder of 250 releases is read as exactly pages 1, 2 and 3. */
  lemma TwoHundredFiftyReleasesTakeThreePages()
    ensures RequestedPages(TotalPages(250)) == [1, 2, 3]
  {
  }

  /**
   * With pages numbered from 1, every release of a `count`-sized collection
   * lies on a requested page and every requested page holds a release.
   */
  lemma {:induction false} OneBasedPagesCoverCollection(count: int)
    ensures forall j :: 0 <= j < count ==> j / PageSize + 1 in RequestedPages(TotalPages(count))
    ensures forall p :: p in RequestedPages(TotalPages(count)) ==> (p - 1) * PageSize < count
  {
    var n := TotalPages(count);
    var pages := RequestedPages(n);
    forall j | 0 <= j < count ensures j / PageSize + 1 in pages {
      assert j / PageSize < n;
    }
    forall p | p in pages ensures (p - 1) * PageSize < count {
      assert (p - 1) * PageSize <= (n - 1) * PageSize;
    }
  }

  /** The Python script numbers pages from 0, so with `total >= 1` page `total` is never requested. */
  lemma {:induction false} ZeroBasedPagesSkipLastPage(total: int)
    requires total >= 1
    ensures total !in ZeroBasedPages(total)
    ensures 0 in ZeroBasedPages(total)
  {
    var pages := ZeroBasedPages(total);
    assert pages[0] == 0;
  }

  /**
   * Everything already in the prior store survives the fetch unchanged;
   * every other pair takes the record of the first release that names it,
   * searching the releases lists of the answering replies in the order
   * they arrived.
   */
  lemma {:induction false} FetchIsFirstWriteWins(prior: Option<Doc>, clock: int, net: Net, a: string, k: string)
    requires FetchRatings(Current, prior, clock, net).Success?
    ensures
      var f := FetchRatings(Current, prior, clock, net).value;
      var base := BaseStore(Current, prior);
      && Pairs(base) <= Pairs(f.doc.ratings.value)
      && Lookup(f.doc.ratings.value, a, k) ==
           (if (a, k) in Pairs(base) then Lookup(base, a, k) else FirstValue(AllEntries(Current, f.received), a, k))
      // and the releases searched are those of the unthrottled replies, in order
      && ReadsReplies(net.pending[f.sizing + 1..], true, f.used, f.answers, f.received)
  {
    var f := FetchRatings(Current, prior, clock, net).value;
    InsertAllSpec(BaseStore(Current, prior), AllEntries(Current, f.received));
    SucceededFetchReadsReplies(Current, prior, clock, net);
  }

  /** With no usable prior document the fetch starts from the empty store. */
  lemma NoPriorStartsEmpty(v: Variant, prior: Option<Doc>)
    requires prior.None? || prior.value.ratings.None?
    ensures BaseStore(v, prior) == map[]
  {
  }

  /**
   * A folder reply without `count` ends the fetch after the one sizing
   * request: no releases page is requested and the prior ratings are
   * returned as they were.
   */
  lemma {:induction false} MissingCountRequestsNoPage(prior: Option<Doc>, clock: int, net: Net)
    requires Call(net, Folder(1), true).result.Success?
    requires Call(net, Folder(1), true).result.value.count.None?
    ensures FetchRatings(Current, prior, clock, net).Success?
    ensures FetchRatings(Current, prior, clock, net).value.net.issued == net.issued + [Folder(1)]
    ensures FetchRatings(Current, prior, clock, net).value.doc.ratings == Some(BaseStore(Current, prior))
  {
    assert RequestedPages(TotalPages(0)) == [];
  }
}

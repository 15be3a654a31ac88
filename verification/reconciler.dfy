/**
 * `Music.set_ratings_from_discogs` and the legacy `update_itunes_ratings`:
 * one pass over the local tracks that looks each one up in the ratings store
 * by artist and then album, classifies it, decides whether to write the
 * converted rating, and records the outcome in nested result buckets from
 * which the summary counts are derived.
 */
module Reconciler {
  import opened Wrappers
  import opened Nested
  import opened Keys
  import opened Schema

  /** `CONVERTION_RATIO`: Discogs' 0..5 stars to the player's 0..100 scale. */
  const ConversionRatio: int := 20

  /** A local track as enumerated from the player's library. */
  datatype Track = Track(artist: string, album: string, name: string, albumRating: int, rating: int)

  /** Which rating field a run updates: the album rating (default) or the song rating. */
  datatype Mode = Albums | Songs

  /**
   * The two update policies found in the sources: update when the local
   * value is unset (the package), or when the remote value is higher (the
   * scripts); `override` forces the update under either.
   */
  datatype Policy = UnsetOnly | RemoteGreater

  datatype Field = AlbumRatingField | RatingField

  /** `track.album_rating.set(value)` or `track.rating.set(value)` on the track at position `track`. */
  datatype Write = Write(track: nat, field: Field, value: int)

  /** A `{from, to}` detail record. */
  datatype Detail = Detail(from: int, to: int)

  datatype Outcome = ArtistMiss | AlbumMiss | Updated(detail: Detail) | NotUpdated(detail: Detail)

  datatype Config = Config(variant: Variant, mode: Mode, override: bool)

  function PolicyOf(v: Variant): Policy {
    if v == Current then UnsetOnly else RemoteGreater
  }

  /** The Python script has no override switch. */
  function OverrideOf(cfg: Config): bool {
    cfg.override && cfg.variant != LegacyPy
  }

  function ShouldUpdate(p: Policy, current: int, remote: int, override: bool): bool {
    match p
    case UnsetOnly => current == 0 || override
    case RemoteGreater => remote > current || override
  }

  datatype TrackKeys = TrackKeys(artist: string, album: string, name: string)

  function KeysOf(v: Variant, t: Track): TrackKeys {
    TrackKeys(Normalize(v, t.artist), Normalize(v, t.album), Normalize(v, t.name))
  }

  /** The report key of a track: its album in album mode, its name in song mode. */
  function UnitKey(mode: Mode, k: TrackKeys): string {
    if mode == Songs then k.name else k.album
  }

  function TargetField(mode: Mode): Field {
    if mode == Songs then RatingField else AlbumRatingField
  }

  /** The local value the policy compares against. */
  function LocalRating(mode: Mode, t: Track): int {
    if mode == Songs then t.rating else t.albumRating
  }

  /**
   * The outcome of one track.  Matching is by artist and then album in both
   * modes.  The detail's `from` is the album rating even in song mode.
   */
  function Classify(store: Store, cfg: Config, k: TrackKeys, t: Track): (o: Outcome)
    ensures
      && (o.ArtistMiss? <==> k.artist !in store)
      && (o.AlbumMiss? <==> k.artist in store && k.album !in store[k.artist])
      && (o.Updated? || o.NotUpdated? <==> k.artist in store && k.album in store[k.artist])
      && ((o.Updated? || o.NotUpdated?) ==>
            o.detail == Detail(t.albumRating, store[k.artist][k.album].rating * ConversionRatio))
      && (o.Updated? <==>
            (o.Updated? || o.NotUpdated?) &&
            ShouldUpdate(PolicyOf(cfg.variant), LocalRating(cfg.mode, t), o.detail.to, OverrideOf(cfg)))
    // With override (package, Ruby script) every matched track is updated.
    ensures OverrideOf(cfg) ==> (o.Updated? <==> k.artist in store && k.album in store[k.artist])
    // The package never replaces a rating that is already set, unless overriding.
    ensures cfg.variant == Current && !cfg.override && LocalRating(cfg.mode, t) != 0 ==> !o.Updated?
    // Without override the scripts only ever raise a rating.
    ensures cfg.variant != Current && !OverrideOf(cfg) && o.Updated? ==> o.detail.to > LocalRating(cfg.mode, t)
  {
    if k.artist !in store then ArtistMiss
    else if k.album !in store[k.artist] then AlbumMiss
    else
      var remote := store[k.artist][k.album].rating * ConversionRatio;
      var d := Detail(t.albumRating, remote);
      if ShouldUpdate(PolicyOf(cfg.variant), LocalRating(cfg.mode, t), remote, OverrideOf(cfg)) then Updated(d)
      else NotUpdated(d)
  }

  /**
   * The two policies part ways on an album already rated 40 whose remote
   * rating is 3 stars: the package keeps it, the Ruby script raises it to 60,
   * and the package's override forces the write.
   */
  lemma PoliciesDisagreeOnRatedAlbum(k: TrackKeys, t: Track)
    requires t.albumRating == 40
    ensures
      var store := map[k.artist := map[k.album := RatingRecord(3, None, None)]];
      && Classify(store, Config(Current, Albums, false), k, t) == NotUpdated(Detail(40, 60))
      && Classify(store, Config(LegacyRb, Albums, false), k, t) == Updated(Detail(40, 60))
      && Classify(store, Config(Current, Albums, true), k, t) == Updated(Detail(40, 60))
  {
  }

  /** The `results` dictionary. */
  datatype Results = Results(
    artistMiss: map<string, int>,
    albumMiss: Buckets<int>,
    albumUpdated: Buckets<Detail>,
    albumNotUpdated: Buckets<Detail>,
    songMiss: Buckets<int>,
    songUpdated: Buckets<Detail>,
    songNotUpdated: Buckets<Detail>)

  const NoResults := Results(map[], map[], map[], map[], map[], map[], map[])

  datatype Report = Report(results: Results, writes: seq<Write>)

  /** A track's keys and outcome: everything the loop body records. */
  datatype Decision = Decision(keys: TrackKeys, outcome: Outcome)

  /** Classifies every track of the library, in order. */
  function Decide(store: Store, cfg: Config, tracks: seq<Track>): (ds: seq<Decision>)
    ensures |ds| == |tracks|
    ensures forall i :: 0 <= i < |tracks| ==>
      ds[i].keys == KeysOf(cfg.variant, tracks[i]) &&
      ds[i].outcome == Classify(store, cfg, KeysOf(cfg.variant, tracks[i]), tracks[i])
  {
    seq(|tracks|, i requires 0 <= i < |tracks| =>
      var k := KeysOf(cfg.variant, tracks[i]);
      Decision(k, Classify(store, cfg, k, tracks[i])))
  }

  /** Whether an outcome belongs in the updated (`updated`) or not-updated bucket. */
  predicate InBucket(o: Outcome, updated: bool) {
    if updated then o.Updated? else o.NotUpdated?
  }

  // ---------------------------------------------------------------------------
  // The pass, one bucket at a time.  Each branch of the loop body touches
  // its own buckets only, so every bucket is the fold of its own update
  // over the decisions; `Reconcile` below runs the single loop.
  // ---------------------------------------------------------------------------

  function ArtistMissUpTo(ds: seq<Decision>, n: nat): map<string, int>
    requires n <= |ds|
  {
    if n == 0 then map[]
    else
      var prev := ArtistMissUpTo(ds, n - 1);
      var d := ds[n - 1];
      if d.outcome.ArtistMiss? then SetDefaultKey(prev, d.keys.artist, 1) else prev
  }

  function AlbumMissUpTo(ds: seq<Decision>, n: nat): Buckets<int>
    requires n <= |ds|
  {
    if n == 0 then map[]
    else
      var prev := AlbumMissUpTo(ds, n - 1);
      var d := ds[n - 1];
      if d.outcome.AlbumMiss? then SetDefault(prev, d.keys.artist, d.keys.album, 1) else prev
  }

  function SongMissUpTo(ds: seq<Decision>, n: nat): Buckets<int>
    requires n <= |ds|
  {
    if n == 0 then map[]
    else
      var prev := SongMissUpTo(ds, n - 1);
      var d := ds[n - 1];
      if d.outcome.AlbumMiss? then Bump(prev, d.keys.artist, d.keys.name) else prev
  }

  /** The (not) updated bucket of `mode`. */
  function DetailUpTo(mode: Mode, ds: seq<Decision>, n: nat, updated: bool): Buckets<Detail>
    requires n <= |ds|
  {
    if n == 0 then map[]
    else
      var prev := DetailUpTo(mode, ds, n - 1, updated);
      var d := ds[n - 1];
      if InBucket(d.outcome, updated) then SetDefault(prev, d.keys.artist, UnitKey(mode, d.keys), d.outcome.detail)
      else prev
  }

  function WritesUpTo(mode: Mode, ds: seq<Decision>, n: nat): seq<Write>
    requires n <= |ds|
  {
    if n == 0 then []
    else
      var prev := WritesUpTo(mode, ds, n - 1);
      var d := ds[n - 1];
      if d.outcome.Updated? then prev + [Write(n - 1, TargetField(mode), d.outcome.detail.to)] else prev
  }

  /**
   * The buckets and writes after the first `n` tracks.  Only the detail
   * buckets of the run's mode are ever filled.
   */
  function Pass(mode: Mode, ds: seq<Decision>, n: nat): Report
    requires n <= |ds|
  {
    var songs := mode == Songs;
    Report(
      Results(
        ArtistMissUpTo(ds, n),
        AlbumMissUpTo(ds, n),
        if songs then map[] else DetailUpTo(mode, ds, n, true),
        if songs then map[] else DetailUpTo(mode, ds, n, false),
        SongMissUpTo(ds, n),
        if songs then DetailUpTo(mode, ds, n, true) else map[],
        if songs then DetailUpTo(mode, ds, n, false) else map[]),
      WritesUpTo(mode, ds, n))
  }

  /** The loop over every track of the library. */
  function Run(store: Store, cfg: Config, tracks: seq<Track>): Report {
    Pass(cfg.mode, Decide(store, cfg, tracks), |tracks|)
  }

  // ---------------------------------------------------------------------------
  // Reference definitions: what the buckets should hold, read off the
  // decisions for the first `n` tracks.
  // ---------------------------------------------------------------------------

  /** Distinct artists of the tracks whose artist is not in the store. */
  function MissingArtists(ds: seq<Decision>, n: nat): set<string>
    requires n <= |ds|
  {
    set i | 0 <= i < n && ds[i].outcome.ArtistMiss? :: ds[i].keys.artist
  }

  /** Positions of the tracks whose album is not in the store. */
  function AlbumMissTracks(ds: seq<Decision>, n: nat): set<nat>
    requires n <= |ds|
  {
    set i: nat | i < n && ds[i].outcome.AlbumMiss?
  }

  /** The number of album-miss tracks among the first `n`, counted one by one. */
  function AlbumMissCount(ds: seq<Decision>, n: nat): nat
    requires n <= |ds|
  {
    if n == 0 then 0 else AlbumMissCount(ds, n - 1) + (if ds[n - 1].outcome.AlbumMiss? then 1 else 0)
  }

  /** Distinct `(artist, album)` of the album misses. */
  function MissedAlbums(ds: seq<Decision>, n: nat): set<(string, string)>
    requires n <= |ds|
  {
    set i | 0 <= i < n && ds[i].outcome.AlbumMiss? :: (ds[i].keys.artist, ds[i].keys.album)
  }

  /** Distinct `(artist, name)` of the album misses. */
  function MissedSongs(ds: seq<Decision>, n: nat): set<(string, string)>
    requires n <= |ds|
  {
    set i | 0 <= i < n && ds[i].outcome.AlbumMiss? :: (ds[i].keys.artist, ds[i].keys.name)
  }

  /** Positions of the album-miss tracks whose artist key is `a` and name key `s`. */
  function MissesOf(ds: seq<Decision>, n: nat, a: string, s: string): set<nat>
    requires n <= |ds|
  {
    set i: nat | i < n && ds[i].outcome.AlbumMiss? && ds[i].keys.artist == a && ds[i].keys.name == s
  }

  /** Distinct `(artist, unit key)` of the tracks that were (not) updated. */
  function DecidedPairs(mode: Mode, ds: seq<Decision>, n: nat, updated: bool): set<(string, string)>
    requires n <= |ds|
  {
    set i | 0 <= i < n && InBucket(ds[i].outcome, updated) :: (ds[i].keys.artist, UnitKey(mode, ds[i].keys))
  }

  /** The detail records of the (not) updated tracks, in track order. */
  function DecidedEntries(mode: Mode, ds: seq<Decision>, n: nat, updated: bool): seq<Entry<Detail>>
    requires n <= |ds|
  {
    if n == 0 then []
    else
      var prev := DecidedEntries(mode, ds, n - 1, updated);
      var d := ds[n - 1];
      if InBucket(d.outcome, updated) then prev + [Entry(d.keys.artist, UnitKey(mode, d.keys), d.outcome.detail)]
      else prev
  }

  // ---------------------------------------------------------------------------
  // What the loop builds.  Each lemma walks the tracks one at a time,
  // keeping its property of the results so far.
  // ---------------------------------------------------------------------------

  /** An artist miss is recorded once per distinct artist, always with the value 1. */
  lemma {:induction false} ArtistMissBucket(ds: seq<Decision>, n: nat)
    requires n <= |ds|
    ensures
      var m := ArtistMissUpTo(ds, n);
      && m.Keys == MissingArtists(ds, n)
      && (forall a | a in m :: m[a] == 1)
  {
    var k := 0;
    while k < n
      invariant k <= n
      invariant ArtistMissUpTo(ds, k).Keys == MissingArtists(ds, k)
      invariant forall a | a in ArtistMissUpTo(ds, k) :: ArtistMissUpTo(ds, k)[a] == 1
    {
      if ds[k].outcome.ArtistMiss? {
        assert MissingArtists(ds, k + 1) == MissingArtists(ds, k) + {ds[k].keys.artist};
      } else {
        assert MissingArtists(ds, k + 1) == MissingArtists(ds, k);
      }
      k := k + 1;
    }
  }

  /** `albums.miss` holds exactly the missed `(artist, album)` pairs. */
  lemma {:induction false} AlbumMissPairs(ds: seq<Decision>, n: nat)
    requires n <= |ds|
    ensures Pairs(AlbumMissUpTo(ds, n)) == MissedAlbums(ds, n)
  {
    var k := 0;
    while k < n
      invariant k <= n
      invariant Pairs(AlbumMissUpTo(ds, k)) == MissedAlbums(ds, k)
    {
      if ds[k].outcome.AlbumMiss? {
        assert MissedAlbums(ds, k + 1) == MissedAlbums(ds, k) + {(ds[k].keys.artist, ds[k].keys.album)};
      } else {
        assert MissedAlbums(ds, k + 1) == MissedAlbums(ds, k);
      }
      k := k + 1;
    }
  }

  /** Every `albums.miss` value is 1. */
  lemma {:induction false} AlbumMissOnes(ds: seq<Decision>, n: nat)
    requires n <= |ds|
    ensures forall a, s :: Lookup(AlbumMissUpTo(ds, n), a, s) in {None, Some(1)}
  {
    var k := 0;
    while k < n
      invariant k <= n
      invariant forall a, s :: Lookup(AlbumMissUpTo(ds, k), a, s) in {None, Some(1)}
    {
      k := k + 1;
    }
  }

  /** The `albums.miss` values add up to the number of missed albums. */
  lemma {:induction false} AlbumMissTotal(ds: seq<Decision>, n: nat)
    requires n <= |ds|
    ensures NestedTotal(AlbumMissUpTo(ds, n)) == |Pairs(AlbumMissUpTo(ds, n))|
  {
    if n > 0 {
      AlbumMissTotal(ds, n - 1);
      AlbumMissStep(ds, n);
      var d := ds[n - 1];
      if d.outcome.AlbumMiss? {
        NestedTotalSetDefaultOne(AlbumMissUpTo(ds, n - 1), d.keys.artist, d.keys.album);
      }
    }
  }

  /** One more track: `artists.miss` changes only on an artist miss. */
  lemma ArtistMissStep(ds: seq<Decision>, n: nat)
    requires 0 < n <= |ds|
    ensures
      var d := ds[n - 1];
      ArtistMissUpTo(ds, n) ==
        if d.outcome.ArtistMiss? then SetDefaultKey(ArtistMissUpTo(ds, n - 1), d.keys.artist, 1)
        else ArtistMissUpTo(ds, n - 1)
  {
  }

  /** One more track: `albums.miss` changes only on an album miss. */
  lemma AlbumMissStep(ds: seq<Decision>, n: nat)
    requires 0 < n <= |ds|
    ensures
      var d := ds[n - 1];
      AlbumMissUpTo(ds, n) ==
        if d.outcome.AlbumMiss? then SetDefault(AlbumMissUpTo(ds, n - 1), d.keys.artist, d.keys.album, 1)
        else AlbumMissUpTo(ds, n - 1)
  {
  }

  /** `songs.miss` holds exactly the missed `(artist, name)` pairs. */
  lemma {:induction false} SongMissPairs(ds: seq<Decision>, n: nat)
    requires n <= |ds|
    ensures Pairs(SongMissUpTo(ds, n)) == MissedSongs(ds, n)
  {
    var k := 0;
    while k < n
      invariant k <= n
      invariant Pairs(SongMissUpTo(ds, k)) == MissedSongs(ds, k)
    {
      if ds[k].outcome.AlbumMiss? {
        assert MissedSongs(ds, k + 1) == MissedSongs(ds, k) + {(ds[k].keys.artist, ds[k].keys.name)};
      } else {
        assert MissedSongs(ds, k + 1) == MissedSongs(ds, k);
      }
      k := k + 1;
    }
  }

  lemma MissesStep(ds: seq<Decision>, k: nat, a: string, s: string)
    requires k < |ds|
    ensures
      var d := ds[k];
      MissesOf(ds, k + 1, a, s) ==
        MissesOf(ds, k, a, s) + (if d.outcome.AlbumMiss? && d.keys.artist == a && d.keys.name == s then {k} else {})
  {
  }

  /** Each `songs.miss` counter is the number of missed tracks with that `(artist, name)`. */
  lemma {:induction false} SongMissCounts(ds: seq<Decision>, n: nat)
    requires n <= |ds|
    ensures forall a, s :: Lookup(SongMissUpTo(ds, n), a, s).GetOr(0) == |MissesOf(ds, n, a, s)|
  {
    var k := 0;
    while k < n
      invariant k <= n
      invariant forall a, s :: Lookup(SongMissUpTo(ds, k), a, s).GetOr(0) == |MissesOf(ds, k, a, s)|
    {
      var next := k + 1;
      forall a, s ensures Lookup(SongMissUpTo(ds, next), a, s).GetOr(0) == |MissesOf(ds, next, a, s)| {
        MissesStep(ds, k, a, s);
        assert k !in MissesOf(ds, k, a, s);
      }
      k := k + 1;
    }
  }

  lemma AlbumMissTracksStep(ds: seq<Decision>, k: nat)
    requires k < |ds|
    ensures |AlbumMissTracks(ds, k + 1)| == |AlbumMissTracks(ds, k)| + (if ds[k].outcome.AlbumMiss? then 1 else 0)
  {
    var before := AlbumMissTracks(ds, k);
    var after := AlbumMissTracks(ds, k + 1);
    if ds[k].outcome.AlbumMiss? {
      assert after == before + {k};
      assert k !in before;
    } else {
      assert after == before;
    }
  }

  /** One more track: `songs.miss` changes only on an album miss. */
  lemma SongMissStep(ds: seq<Decision>, n: nat)
    requires 0 < n <= |ds|
    ensures
      var d := ds[n - 1];
      SongMissUpTo(ds, n) ==
        if d.outcome.AlbumMiss? then Bump(SongMissUpTo(ds, n - 1), d.keys.artist, d.keys.name)
        else SongMissUpTo(ds, n - 1)
  {
  }

  /** The `songs.miss` counters add up to the number of album-miss tracks. */
  lemma {:induction false} SongMissTotal(ds: seq<Decision>, n: nat)
    requires n <= |ds|
    ensures NestedTotal(SongMissUpTo(ds, n)) == |AlbumMissTracks(ds, n)|
  {
    SongMissCountTotal(ds, n);
    AlbumMissCountTracks(ds, n);
  }

  lemma {:induction false} SongMissCountTotal(ds: seq<Decision>, n: nat)
    requires n <= |ds|
    ensures NestedTotal(SongMissUpTo(ds, n)) == AlbumMissCount(ds, n)
  {
    if n > 0 {
      SongMissCountTotal(ds, n - 1);
      SongMissStep(ds, n);
      var d := ds[n - 1];
      NestedTotalMaybeBump(SongMissUpTo(ds, n - 1), SongMissUpTo(ds, n), d.keys.artist, d.keys.name, d.outcome.AlbumMiss?);
    }
  }

  lemma {:induction false} AlbumMissCountTracks(ds: seq<Decision>, n: nat)
    requires n <= |ds|
    ensures AlbumMissCount(ds, n) == |AlbumMissTracks(ds, n)|
  {
    if n > 0 {
      AlbumMissCountTracks(ds, n - 1);
      AlbumMissTracksStep(ds, n - 1);
    }
  }

  /**
   * Each detail bucket is the first-write-wins insertion of the (not)
   * updated tracks' details, in track order.
   */
  lemma {:induction false} DetailBuckets(mode: Mode, ds: seq<Decision>, n: nat, updated: bool)
    requires n <= |ds|
    ensures DetailUpTo(mode, ds, n, updated) == InsertAll(map[], DecidedEntries(mode, ds, n, updated))
  {
    var k := 0;
    while k < n
      invariant k <= n
      invariant DetailUpTo(mode, ds, k, updated) == InsertAll(map[], DecidedEntries(mode, ds, k, updated))
    {
      var next := k + 1;
      DetailStep(mode, ds, next, updated);
      var d := ds[k];
      if InBucket(d.outcome, updated) {
        var e := Entry(d.keys.artist, UnitKey(mode, d.keys), d.outcome.detail);
        InsertAllStep(DetailUpTo(mode, ds, k, updated), DecidedEntries(mode, ds, k, updated), e,
                      DetailUpTo(mode, ds, next, updated), DecidedEntries(mode, ds, next, updated));
      }
      k := next;
    }
  }

  /** One more track: the detail bucket and its entries change only for a track of that bucket. */
  lemma DetailStep(mode: Mode, ds: seq<Decision>, n: nat, updated: bool)
    requires 0 < n <= |ds|
    ensures
      var d := ds[n - 1];
      InBucket(d.outcome, updated) ==>
        var e := Entry(d.keys.artist, UnitKey(mode, d.keys), d.outcome.detail);
        && DetailUpTo(mode, ds, n, updated) == SetDefault(DetailUpTo(mode, ds, n - 1, updated), e.outer, e.inner, e.value)
        && DecidedEntries(mode, ds, n, updated) == DecidedEntries(mode, ds, n - 1, updated) + [e]
    ensures
      !InBucket(ds[n - 1].outcome, updated) ==>
        && DetailUpTo(mode, ds, n, updated) == DetailUpTo(mode, ds, n - 1, updated)
        && DecidedEntries(mode, ds, n, updated) == DecidedEntries(mode, ds, n - 1, updated)
  {
  }

  /** The keys of the detail entries are the decided pairs. */
  lemma {:induction false} DecidedEntriesPairs(mode: Mode, ds: seq<Decision>, n: nat, updated: bool)
    requires n <= |ds|
    ensures EntryPairs(DecidedEntries(mode, ds, n, updated)) == DecidedPairs(mode, ds, n, updated)
  {
    var k := 0;
    while k < n
      invariant k <= n
      invariant EntryPairs(DecidedEntries(mode, ds, k, updated)) == DecidedPairs(mode, ds, k, updated)
    {
      var es := DecidedEntries(mode, ds, k, updated);
      var d := ds[k];
      if InBucket(d.outcome, updated) {
        var e := Entry(d.keys.artist, UnitKey(mode, d.keys), d.outcome.detail);
        EntryPairsSnoc(es, e);
        assert DecidedPairs(mode, ds, k + 1, updated) == DecidedPairs(mode, ds, k, updated) + {(e.outer, e.inner)};
      } else {
        assert DecidedPairs(mode, ds, k + 1, updated) == DecidedPairs(mode, ds, k, updated);
      }
      k := k + 1;
    }
  }

  /**
   * The detail kept for a pair is the one of the FIRST track that produced
   * it, and the bucket's pairs are exactly the decided pairs.
   */
  lemma DetailIsFirstDecided(mode: Mode, ds: seq<Decision>, updated: bool, a: string, s: string)
    ensures
      var bucket := DetailUpTo(mode, ds, |ds|, updated);
      && Pairs(bucket) == DecidedPairs(mode, ds, |ds|, updated)
      && Lookup(bucket, a, s) == FirstValue(DecidedEntries(mode, ds, |ds|, updated), a, s)
  {
    DetailBuckets(mode, ds, |ds|, updated);
    InsertAllSpec(map[], DecidedEntries(mode, ds, |ds|, updated));
    DecidedEntriesPairs(mode, ds, |ds|, updated);
  }

  /** One more track: a write is appended only for an updated track. */
  lemma WritesStep(mode: Mode, ds: seq<Decision>, n: nat)
    requires 0 < n <= |ds|
    ensures
      var d := ds[n - 1];
      WritesUpTo(mode, ds, n) ==
        if d.outcome.Updated? then WritesUpTo(mode, ds, n - 1) + [Write(n - 1, TargetField(mode), d.outcome.detail.to)]
        else WritesUpTo(mode, ds, n - 1)
  {
  }

  /**
   * Only updated tracks are written, each once and in track order, with the
   * converted remote rating, into the field of the run's mode.
   */
  lemma {:induction false} WritesAreUpdates(mode: Mode, ds: seq<Decision>, n: nat)
    requires n <= |ds|
    ensures
      var ws := WritesUpTo(mode, ds, n);
      && (forall j | 0 <= j < |ws| ::
            && ws[j].track < n
            && ds[ws[j].track].outcome.Updated?
            && ws[j].field == TargetField(mode)
            && ws[j].value == ds[ws[j].track].outcome.detail.to)
      && (forall j1, j2 | 0 <= j1 < j2 < |ws| :: ws[j1].track < ws[j2].track)
  {
    if n > 0 {
      WritesAreUpdates(mode, ds, n - 1);
      WritesStep(mode, ds, n);
    }
  }

  /** Every updated track is written: the written tracks are exactly the updated ones. */
  lemma {:induction false} EveryUpdateIsWritten(mode: Mode, ds: seq<Decision>, n: nat)
    requires n <= |ds|
    ensures
      var ws := WritesUpTo(mode, ds, n);
      (set j | 0 <= j < |ws| :: ws[j].track) == (set i: nat | i < n && ds[i].outcome.Updated?)
  {
    if n > 0 {
      EveryUpdateIsWritten(mode, ds, n - 1);
      WritesStep(mode, ds, n);
      var ws := WritesUpTo(mode, ds, n - 1);
      var ws' := WritesUpTo(mode, ds, n);
      var before := set j | 0 <= j < |ws| :: ws[j].track;
      var after := set j | 0 <= j < |ws'| :: ws'[j].track;
      if ds[n - 1].outcome.Updated? {
        assert after == before + {n - 1} by {
          forall x | x in after ensures x in before + {n - 1} {
            var j :| 0 <= j < |ws'| && x == ws'[j].track;
            if j < |ws| { assert ws'[j] == ws[j]; }
          }
          forall x | x in before ensures x in after {
            var j :| 0 <= j < |ws| && x == ws[j].track;
            assert ws'[j] == ws[j];
          }
          assert ws'[|ws|].track == n - 1;
        }
        assert (set i: nat | i < n && ds[i].outcome.Updated?) ==
          (set i: nat | i < n - 1 && ds[i].outcome.Updated?) + {n - 1};
      } else {
        assert (set i: nat | i < n && ds[i].outcome.Updated?) ==
          (set i: nat | i < n - 1 && ds[i].outcome.Updated?);
      }
    }
  }

  /** What the miss buckets count after the whole pass. */
  lemma MissCounts(ds: seq<Decision>)
    ensures Total(ArtistMissUpTo(ds, |ds|)) == |MissingArtists(ds, |ds|)|
    ensures |Pairs(AlbumMissUpTo(ds, |ds|))| == |MissedAlbums(ds, |ds|)|
    ensures NestedTotal(AlbumMissUpTo(ds, |ds|)) == |MissedAlbums(ds, |ds|)|
    ensures |Pairs(SongMissUpTo(ds, |ds|))| == |MissedSongs(ds, |ds|)|
    ensures NestedTotal(SongMissUpTo(ds, |ds|)) == |AlbumMissTracks(ds, |ds|)|
  {
    var n := |ds|;
    ArtistMissBucket(ds, n);
    TotalOfOnes(ArtistMissUpTo(ds, n), ArtistMissUpTo(ds, n).Keys);
    AlbumMissPairs(ds, n);
    AlbumMissTotal(ds, n);
    SongMissPairs(ds, n);
    SongMissTotal(ds, n);
  }

  /** What the detail buckets count after the whole pass. */
  lemma DetailCounts(mode: Mode, ds: seq<Decision>)
    ensures |Pairs(DetailUpTo(mode, ds, |ds|, true))| == |DecidedPairs(mode, ds, |ds|, true)|
    ensures |Pairs(DetailUpTo(mode, ds, |ds|, false))| == |DecidedPairs(mode, ds, |ds|, false)|
  {
    DetailIsFirstDecided(mode, ds, true, "", "");
    DetailIsFirstDecided(mode, ds, false, "", "");
  }

  /**
   * A write the source may issue for track `t`: into the field of the run's
   * mode, with the track's converted remote rating, and allowed by the
   * variant's policy when not overriding.
   */
  predicate Admissible(store: Store, cfg: Config, t: Track, w: Write) {
    var k := KeysOf(cfg.variant, t);
    && w.field == TargetField(cfg.mode)
    && k.artist in store && k.album in store[k.artist]
    && w.value == store[k.artist][k.album].rating * ConversionRatio
    && (cfg.variant == Current && !cfg.override ==> LocalRating(cfg.mode, t) == 0)
    && (cfg.variant != Current && !OverrideOf(cfg) ==> w.value > LocalRating(cfg.mode, t))
  }

  /** The write the loop issues for an updated track is admissible for it. */
  lemma UpdateIsAdmissible(store: Store, cfg: Config, t: Track, i: nat)
    ensures
      var o := Classify(store, cfg, KeysOf(cfg.variant, t), t);
      o.Updated? ==> Admissible(store, cfg, t, Write(i, TargetField(cfg.mode), o.detail.to))
  {
  }

  /** A write that carries an updated track's rating into the mode's field is admissible. */
  lemma DecidedWriteIsAdmissible(store: Store, cfg: Config, tracks: seq<Track>, w: Write)
    requires w.track < |tracks|
    requires
      var o := Decide(store, cfg, tracks)[w.track].outcome;
      o.Updated? && w.field == TargetField(cfg.mode) && w.value == o.detail.to
    ensures Admissible(store, cfg, tracks[w.track], w)
  {
    UpdateIsAdmissible(store, cfg, tracks[w.track], w.track);
  }

  /** The `j`-th write of a pass goes to a track of the library and is admissible for it. */
  lemma WriteIsAdmissible(store: Store, cfg: Config, tracks: seq<Track>, j: nat)
    requires j < |WritesUpTo(cfg.mode, Decide(store, cfg, tracks), |tracks|)|
    ensures
      var ws := WritesUpTo(cfg.mode, Decide(store, cfg, tracks), |tracks|);
      ws[j].track < |tracks| && Admissible(store, cfg, tracks[ws[j].track], ws[j])
  {
    var ds := Decide(store, cfg, tracks);
    var ws := WritesUpTo(cfg.mode, ds, |tracks|);
    WritesAreUpdates(cfg.mode, ds, |tracks|);
    DecidedWriteIsAdmissible(store, cfg, tracks, ws[j]);
  }

  /** Every write of a whole pass goes to a track of the library and is admissible for it. */
  lemma WritesRespectPolicy(store: Store, cfg: Config, tracks: seq<Track>)
    ensures
      var ws := Run(store, cfg, tracks).writes;
      forall j | 0 <= j < |ws| :: ws[j].track < |tracks| && Admissible(store, cfg, tracks[ws[j].track], ws[j])
  {
    var ws := WritesUpTo(cfg.mode, Decide(store, cfg, tracks), |tracks|);
    assert Run(store, cfg, tracks).writes == ws;
    forall j | 0 <= j < |ws| ensures ws[j].track < |tracks| && Admissible(store, cfg, tracks[ws[j].track], ws[j]) {
      WriteIsAdmissible(store, cfg, tracks, j);
    }
  }

  // ---------------------------------------------------------------------------
  // Summary counts.
  // ---------------------------------------------------------------------------

  datatype Stats = Stats(
    artistsMiss: int,
    albumsMiss: int,
    albumsUpdated: int,
    albumsNotUpdated: int,
    songsMiss: int,
    songsUpdated: int,
    songsNotUpdated: int)

  /**
   * The stats block.  Every variant sums the artist-miss values; the package
   * counts the keys of every other bucket, while the scripts sum the counter
   * values of the two miss buckets.
   */
  method Summarize(v: Variant, res: Results) returns (s: Stats)
    ensures s.artistsMiss == Total(res.artistMiss)
    ensures s.albumsMiss == if v == Current then |Pairs(res.albumMiss)| else NestedTotal(res.albumMiss)
    ensures s.songsMiss == if v == Current then |Pairs(res.songMiss)| else NestedTotal(res.songMiss)
    ensures s.albumsUpdated == |Pairs(res.albumUpdated)|
    ensures s.albumsNotUpdated == |Pairs(res.albumNotUpdated)|
    ensures s.songsUpdated == |Pairs(res.songUpdated)|
    ensures s.songsNotUpdated == |Pairs(res.songNotUpdated)|
  {
    var artistsMiss := SumValues(res.artistMiss);
    var albumsMiss, songsMiss;
    if v == Current {
      albumsMiss := CountPairs(res.albumMiss);
      songsMiss := CountPairs(res.songMiss);
    } else {
      albumsMiss := SumNested(res.albumMiss);
      songsMiss := SumNested(res.songMiss);
    }
    var albumsUpdated := CountPairs(res.albumUpdated);
    var albumsNotUpdated := CountPairs(res.albumNotUpdated);
    var songsUpdated := CountPairs(res.songUpdated);
    var songsNotUpdated := CountPairs(res.songNotUpdated);
    s := Stats(artistsMiss, albumsMiss, albumsUpdated, albumsNotUpdated, songsMiss, songsUpdated, songsNotUpdated);
  }

  /**
   * The loop over the classified tracks, as the source runs it: one branch
   * per outcome, each touching its own buckets.
   */
  method Walk(mode: Mode, ds: seq<Decision>) returns (report: Report)
    ensures report == Pass(mode, ds, |ds|)
  {
    var songs := mode == Songs;
    var artistMiss: map<string, int> := map[];
    var albumMiss: Buckets<int> := map[];
    var songMiss: Buckets<int> := map[];
    var albumUpdated: Buckets<Detail> := map[];
    var albumNotUpdated: Buckets<Detail> := map[];
    var songUpdated: Buckets<Detail> := map[];
    var songNotUpdated: Buckets<Detail> := map[];
    var writes: seq<Write> := [];
    var i := 0;
    while i < |ds|
      invariant i <= |ds|
      invariant artistMiss == ArtistMissUpTo(ds, i)
      invariant albumMiss == AlbumMissUpTo(ds, i)
      invariant songMiss == SongMissUpTo(ds, i)
      invariant albumUpdated == if songs then map[] else DetailUpTo(mode, ds, i, true)
      invariant albumNotUpdated == if songs then map[] else DetailUpTo(mode, ds, i, false)
      invariant songUpdated == if songs then DetailUpTo(mode, ds, i, true) else map[]
      invariant songNotUpdated == if songs then DetailUpTo(mode, ds, i, false) else map[]
      invariant writes == WritesUpTo(mode, ds, i)
    {
      var keys := ds[i].keys;
      match ds[i].outcome {
        case ArtistMiss =>
          artistMiss := SetDefaultKey(artistMiss, keys.artist, 1);
        case AlbumMiss =>
          albumMiss := SetDefault(albumMiss, keys.artist, keys.album, 1);
          songMiss := Bump(songMiss, keys.artist, keys.name);
        case Updated(detail) =>
          if songs {
            songUpdated := SetDefault(songUpdated, keys.artist, keys.name, detail);
          } else {
            albumUpdated := SetDefault(albumUpdated, keys.artist, keys.album, detail);
          }
          writes := writes + [Write(i, TargetField(mode), detail.to)];
        case NotUpdated(detail) =>
          if songs {
            songNotUpdated := SetDefault(songNotUpdated, keys.artist, keys.name, detail);
          } else {
            albumNotUpdated := SetDefault(albumNotUpdated, keys.artist, keys.album, detail);
          }
      }
      i := i + 1;
    }
    report := Report(Results(artistMiss, albumMiss, albumUpdated, albumNotUpdated, songMiss, songUpdated, songNotUpdated), writes);
  }

  /**
   * The whole pass: the outcome buckets, the writes to perform and, when
   * stats are printed (always in the scripts; in the package only with a
   * logger above `NONE`), the summary counts.
   */
  method Reconcile(store: Store, cfg: Config, tracks: seq<Track>, logging: bool)
    returns (report: Report, stats: Option<Stats>)
    ensures report == Run(store, cfg, tracks)
    ensures stats.None? <==> cfg.variant == Current && !logging
    ensures stats.Some? ==>
      var ds := Decide(store, cfg, tracks);
      var n := |tracks|;
      var s := stats.value;
      && s.artistsMiss == |MissingArtists(ds, n)|
      && s.albumsMiss == |MissedAlbums(ds, n)|
      && s.songsMiss == (if cfg.variant == Current then |MissedSongs(ds, n)| else |AlbumMissTracks(ds, n)|)
      && s.albumsUpdated == (if cfg.mode == Albums then |DecidedPairs(cfg.mode, ds, n, true)| else 0)
      && s.albumsNotUpdated == (if cfg.mode == Albums then |DecidedPairs(cfg.mode, ds, n, false)| else 0)
      && s.songsUpdated == (if cfg.mode == Songs then |DecidedPairs(cfg.mode, ds, n, true)| else 0)
      && s.songsNotUpdated == (if cfg.mode == Songs then |DecidedPairs(cfg.mode, ds, n, false)| else 0)
  {
    var ds := Decide(store, cfg, tracks);
    report := Walk(cfg.mode, ds);
    if cfg.variant == Current && !logging {
      stats := None;
    } else {
      var s := Summarize(cfg.variant, report.results);
      MissCounts(ds);
      DetailCounts(cfg.mode, ds);
      var none: Buckets<Detail> := map[];
      assert Pairs(none) == {};
      stats := Some(s);
    }
  }
}

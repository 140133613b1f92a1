/** Freshness, tamper suppression, and the choice of the one active source. */
module Arbitration {
  import opened Wrappers
  import opened Seqs
  import opened Settings
  import opened SourceStates

  /** `isFresh(ts, ttlMs)` at time `now`: written at least once and at most
      `ttlMs` old. A timestamp of 0 means "never written". */
  predicate IsFresh(ts: int, now: int, ttlMs: int) {
    ts != 0 && now - ts <= ttlMs
  }

  const AllKeys: seq<SourceKey> := [Spotify, YtMusic, YouTube, Mpris, Other]

  /** `isTamperFresh(now)`: some trusted source has been written within the
      tamper TTL. Names in `TM_SOURCES` that are not keys of the store count
      for nothing. */
  predicate TamperFresh(store: Store, now: int, cfg: Config) {
    exists k :: k in AllKeys && KeyName(k) in cfg.tmSources && IsFresh(store.Get(k).ts, now, cfg.tmTtlMs)
  }

  /** Freshness only lapses: a record fresh at some time was fresh at every
      earlier time since it was written, and a record never written is never
      fresh. */
  lemma FreshnessLapses(ts: int, t1: int, t2: int, ttlMs: int)
    requires ts <= t1 <= t2
    ensures IsFresh(ts, t2, ttlMs) ==> IsFresh(ts, t1, ttlMs)
    ensures !IsFresh(0, t1, ttlMs)
  {
  }

  /** With the default settings, tamper suppression is on exactly while the
      YouTube Music or the YouTube record was written in the last 12 seconds. */
  lemma DefaultTamperSources(store: Store, now: int)
    ensures TamperFresh(store, now, DefaultConfig())
        <==> IsFresh(store.ytmusic.ts, now, 12000) || IsFresh(store.youtube.ts, now, 12000)
  {
    var cfg := DefaultConfig();
    if IsFresh(store.ytmusic.ts, now, 12000) {
      assert YtMusic in AllKeys && KeyName(YtMusic) in cfg.tmSources;
    } else if IsFresh(store.youtube.ts, now, 12000) {
      assert YouTube in AllKeys && KeyName(YouTube) in cfg.tmSources;
    }
  }

  /** The age `pickActive` computes for an entry: `now - ts`, or infinity
      (`None`) for an entry that was never written. */
  function Age(s: SourceState, now: int): Option<int> {
    if s.ts != 0 then Some(now - s.ts) else None
  }

  predicate IsStale(s: SourceState, now: int, staleMs: int) {
    Age(s, now).None? || Age(s, now).value > staleMs
  }

  /** `pickActive`'s notion of staleness is exactly the negation of `isFresh`. */
  lemma StaleIffNotFresh(s: SourceState, now: int, staleMs: int)
    ensures IsStale(s, now, staleMs) <==> !IsFresh(s.ts, now, staleMs)
  {
  }

  /** The index of the entry a stable descending sort on `ts` puts first: its
      `ts` is the largest, and every entry before it is strictly older. */
  function NewestIndex(list: seq<SourceState>): (i: nat)
    requires |list| > 0
    ensures i < |list|
    ensures forall j :: 0 <= j < |list| ==> list[j].ts <= list[i].ts
    ensures forall j :: 0 <= j < i ==> list[j].ts < list[i].ts
  {
    if |list| == 1 then 0
    else
      var k := NewestIndex(list[1..]);
      if list[k + 1].ts > list[0].ts then k + 1 else 0
  }

  datatype Reason = ReasonPlaying | ReasonPaused | ReasonNone

  /** `{active, stale, reason}` as returned by `pickActive`. */
  datatype Pick = Pick(active: Option<SourceState>, stale: bool, reason: Reason)

  /** The entries `pickActive` considers: all of them, minus the bridge's
      entry while tamper suppression is on. */
  function Candidates(store: Store, suppressMpris: bool): seq<SourceState> {
    Filter(store.Entries(), (s: SourceState) => !(suppressMpris && s.source == Mpris))
  }

  /** An entry arbitration may return: present, not suppressed, and fresh. */
  ghost predicate Eligible(store: Store, s: SourceState, now: int, cfg: Config) {
    && s in store.Entries()
    && !(TamperFresh(store, now, cfg) && s.source == Mpris)
    && IsFresh(s.ts, now, cfg.staleMs)
  }

  /** The eligible entries in key order: `pickActive`'s candidate list with
      the stale entries dropped. */
  function EligibleList(store: Store, now: int, cfg: Config): (l: seq<SourceState>)
    ensures forall s :: s in l <==> Eligible(store, s, now, cfg)
  {
    var list := Candidates(store, TamperFresh(store, now, cfg));
    Filter(list, (s: SourceState) => !IsStale(s, now, cfg.staleMs))
  }

  /** The choice `pickActive` makes among fresh entries: the newest playing
      one, else the newest one, else nothing. */
  function PickFrom(freshList: seq<SourceState>): (r: Pick)
    ensures r.active.None? <==> r.reason == ReasonNone
    ensures r.stale <==> r.reason == ReasonNone
    ensures r.active.Some? ==> r.active.value in freshList
    ensures r.reason == ReasonNone <==> |freshList| == 0
    ensures r.reason == ReasonPlaying <==> exists s :: s in freshList && s.playing
    ensures r.reason == ReasonPlaying ==>
      && r.active.value.playing
      && forall s :: s in freshList && s.playing ==> s.ts <= r.active.value.ts
    ensures r.reason == ReasonPaused ==>
      forall s :: s in freshList ==> s.ts <= r.active.value.ts
  {
    var playingFresh := Filter(freshList, (s: SourceState) => s.playing);
    if |playingFresh| > 0 then
      var i := NewestIndex(playingFresh);
      assert playingFresh[i] in playingFresh;
      Pick(Some(playingFresh[i]), false, ReasonPlaying)
    else if |freshList| > 0 then
      var i := NewestIndex(freshList);
      Pick(Some(freshList[i]), false, ReasonPaused)
    else
      Pick(None, true, ReasonNone)
  }

  /** `pickActive(now)`: total, and it returns the newest fresh playing entry,
      else the newest fresh entry, else nothing; never a stale entry, and never
      the bridge's entry while tamper suppression is on. */
  function PickActive(store: Store, now: int, cfg: Config): (r: Pick)
    ensures r.active.None? <==> r.reason == ReasonNone
    ensures r.stale <==> r.reason == ReasonNone
    ensures r.active.Some? ==> Eligible(store, r.active.value, now, cfg)
    ensures r.reason == ReasonNone <==> forall s :: !Eligible(store, s, now, cfg)
    ensures r.reason == ReasonPlaying <==> exists s :: Eligible(store, s, now, cfg) && s.playing
    ensures r.reason == ReasonPlaying ==>
      && r.active.value.playing
      && forall s :: Eligible(store, s, now, cfg) && s.playing ==> s.ts <= r.active.value.ts
    ensures r.reason == ReasonPaused ==>
      forall s :: Eligible(store, s, now, cfg) ==> s.ts <= r.active.value.ts
  {
    var l := EligibleList(store, now, cfg);
    var r := PickFrom(l);
    assert r.reason == ReasonNone <==> forall s :: !Eligible(store, s, now, cfg) by {
      if |l| > 0 {
        assert Eligible(store, l[0], now, cfg);
      }
    }
    r
  }

  /** Two fresh sources, one playing: the playing one wins even when the paused
      one is newer. */
  lemma PlayingBeatsNewerPaused(store: Store, now: int, cfg: Config, p: SourceState)
    requires Eligible(store, p, now, cfg) && p.playing
    requires forall s :: Eligible(store, s, now, cfg) && s.playing ==> s == p
    ensures PickActive(store, now, cfg).active == Some(p)
    ensures PickActive(store, now, cfg).reason == ReasonPlaying
  {
  }

  /** Among fresh playing sources the strictly newest one is active. */
  lemma NewestPlayingWins(store: Store, now: int, cfg: Config, p: SourceState)
    requires Eligible(store, p, now, cfg) && p.playing
    requires forall s :: Eligible(store, s, now, cfg) && s.playing && s != p ==> s.ts < p.ts
    ensures PickActive(store, now, cfg) == Pick(Some(p), false, ReasonPlaying)
  {
    var r := PickActive(store, now, cfg);
    assert r.reason == ReasonPlaying;
    assert p.ts <= r.active.value.ts;
  }

  /** The per-source listing of `GET /nowplaying`: every key, with the bridge's
      entry hidden while tamper suppression is on. */
  function Listing(store: Store, now: int, cfg: Config): (r: map<SourceKey, Option<SourceState>>)
    ensures r.Keys == {Spotify, YtMusic, YouTube, Mpris, Other}
    ensures r[Mpris].None? <==> TamperFresh(store, now, cfg)
    ensures forall k :: k in r && k != Mpris ==> r[k] == Some(store.Get(k))
    ensures r[Mpris].Some? ==> r[Mpris] == Some(store.Get(Mpris))
  {
    var hideMpris := TamperFresh(store, now, cfg);
    map[Spotify := Some(store.spotify), YtMusic := Some(store.ytmusic),
        YouTube := Some(store.youtube), Mpris := if hideMpris then None else Some(store.mpris),
        Other := Some(store.other)]
  }

  /** Every key of the store is listed. */
  lemma ListingHasEveryKey(store: Store, now: int, cfg: Config, k: SourceKey)
    ensures k in Listing(store, now, cfg)
  {
    match k
    case Spotify =>
    case YtMusic =>
    case YouTube =>
    case Mpris =>
    case Other =>
  }

  /** While a trusted source is fresh the bridge entry is neither chosen nor
      listed, however fresh it is itself. */
  lemma TamperHidesBridge(store: Store, now: int, cfg: Config)
    requires TamperFresh(store, now, cfg)
    ensures PickActive(store, now, cfg).active.Some? ==>
      PickActive(store, now, cfg).active.value.source != Mpris
    ensures Listing(store, now, cfg)[Mpris].None?
  {
  }
}

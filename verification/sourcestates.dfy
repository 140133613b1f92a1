/** The per-source state store and the sanitizer that merges an incoming
    partial report into the previous record of its source. */
module SourceStates {
  import opened Wrappers
  import opened Strings
  import opened JsValues

  /** The fixed set of source keys the server keeps a record for. */
  datatype SourceKey = Spotify | YtMusic | YouTube | Mpris | Other

  /** The property name each key has in the server's `states` object. */
  function KeyName(k: SourceKey): string {
    match k
    case Spotify => "spotify"
    case YtMusic => "ytmusic"
    case YouTube => "youtube"
    case Mpris => "mpris"
    case Other => "other"
  }

  /** The lower-case spellings a reporter may use for each key. Anything else,
      including "other" itself, falls through to `Other`. */
  function Aliases(k: SourceKey): set<string> {
    match k
    case Spotify => {"spotify"}
    case YtMusic => {"ytmusic", "youtube_music", "youtubemusic"}
    case YouTube => {"youtube", "yt"}
    case Mpris => {"mpris"}
    case Other => {}
  }

  /** The text `normSource` compares: `String(s || "").trim().toLowerCase()`. */
  function SourceText(s: JsValue): string {
    ToLower(Trim(if Truthy(s) then ToStr(s) else ""))
  }

  /** The key a normalised source name selects: the key it is an alias of,
      else `Other`. */
  function KeyOfText(v: string): (k: SourceKey)
    ensures k != Other ==> v in Aliases(k)
    ensures forall k' :: v in Aliases(k') ==> k == k'
  {
    if v == "" then Other
    else if v == "spotify" then Spotify
    else if v == "ytmusic" || v == "youtube_music" || v == "youtubemusic" then YtMusic
    else if v == "youtube" || v == "yt" then YouTube
    else if v == "mpris" then Mpris
    else Other
  }

  /** `normSource`. */
  function NormSource(s: JsValue): (k: SourceKey)
    ensures k != Other ==> SourceText(s) in Aliases(k)
    ensures forall k' :: SourceText(s) in Aliases(k') ==> k == k'
  {
    KeyOfText(SourceText(s))
  }

  /** A name with no upper-case letters and no surrounding white space reaches
      the key table unchanged. */
  lemma SourceTextOfPlainName(n: string)
    requires n != [] && !IsSpace(n[0]) && !IsSpace(n[|n| - 1])
    requires forall i :: 0 <= i < |n| ==> !('A' <= n[i] <= 'Z')
    ensures SourceText(Str(n)) == n
  {
    TrimUnpadded(n);
    assert ToLower(n) == n;
  }

  lemma KeyOfKeyName(k: SourceKey)
    ensures KeyOfText(KeyName(k)) == k
  {
  }

  /** A report whose source is a key's own name is filed under that key. */
  lemma NormSourceOfKeyName(k: SourceKey)
    ensures NormSource(Str(KeyName(k))) == k
  {
    SourceTextOfPlainName(KeyName(k));
    KeyOfKeyName(k);
  }

  /** The record kept per source; the fields starting with `_` in the source
      (`trackId`, `playerName`, `posBaseMs`, `posBaseTs`) are written only by
      the local-player bridge. */
  datatype SourceState = SourceState(
    source: SourceKey,
    title: Option<string>,
    artist: Option<string>,
    album: Option<string>,
    year: Option<int>,
    url: Option<string>,
    cover: Option<string>,
    playing: bool,
    positionMs: int,
    durationMs: int,
    ts: int,
    trackId: Option<string>,
    playerName: Option<string>,
    posBaseMs: int,
    posBaseTs: int)

  /** The position invariant of a record: both numbers are non-negative and the
      position lies inside a known duration. */
  predicate Valid(s: SourceState) {
    && 0 <= s.positionMs
    && 0 <= s.durationMs
    && (s.durationMs > 0 ==> s.positionMs <= s.durationMs)
  }

  /** `blankState`: a record that was never written. */
  function BlankState(source: SourceKey): (s: SourceState)
    ensures s.source == source && s.ts == 0 && !s.playing && Valid(s)
    ensures s.title.None? && s.artist.None? && s.album.None? && s.year.None?
  {
    SourceState(source, None, None, None, None, None, None, false, 0, 0, 0, None, None, 0, 0)
  }

  function Max(a: int, b: int): int {
    if a < b then b else a
  }

  function Min(a: int, b: int): int {
    if a < b then a else b
  }

  /** `clamp(n, lo, hi)` written as `Math.min(hi, Math.max(lo, n))`. */
  function Clamp(n: int, lo: int, hi: int): (r: int)
    ensures lo <= hi ==> lo <= r <= hi
    ensures lo <= n <= hi ==> r == n
    ensures lo <= hi && n < lo ==> r == lo
    ensures lo <= hi && hi < n ==> r == hi
    ensures hi < lo ==> r == hi
  {
    Min(hi, Max(lo, n))
  }

  /** How the sanitizer merges a text field: a null, undefined or blank input
      keeps the previous value, anything else replaces it, trimmed. */
  ghost predicate MergedText(input: JsValue, previous: Option<string>, result: Option<string>) {
    if IsNullish(input) || AllSpace(ToStr(input)) then result == previous
    else result == Some(Trim(ToStr(input)))
  }

  /** `cleanStr(input) ?? previous`. */
  function MergeText(input: JsValue, previous: Option<string>): (r: Option<string>)
    ensures MergedText(input, previous, r)
  {
    CleanStr(input).OrElse(previous)
  }

  /** `sanitizeIncoming(b, prev)` at time `now`: never fails, keeps the source,
      stamps the time, takes `playing` from the report, and keeps the position
      inside a known duration. */
  function Sanitize(b: map<string, JsValue>, prev: SourceState, now: int): (r: SourceState)
    ensures r.source == prev.source && r.ts == now
    ensures r.playing <==> Truthy(Field(b, "playing"))
    ensures r.durationMs > 0 ==> 0 <= r.positionMs <= r.durationMs
    ensures Valid(prev) ==> Valid(r)
    // the bridge-private fields are carried over untouched
    ensures r.trackId == prev.trackId && r.playerName == prev.playerName
    ensures r.posBaseMs == prev.posBaseMs && r.posBaseTs == prev.posBaseTs
  {
    var playing := Truthy(Field(b, "playing"));
    var positionMs :=
      if Field(b, "positionMs").Num? then Max(0, Field(b, "positionMs").n) else prev.positionMs;
    var durationMs :=
      if Field(b, "durationMs").Num? then Max(0, Field(b, "durationMs").n) else prev.durationMs;
    var pos2 := if durationMs > 0 then Clamp(positionMs, 0, durationMs) else positionMs;
    prev.(
      title := MergeText(Field(b, "title"), prev.title),
      artist := MergeText(Field(b, "artist"), prev.artist),
      album := MergeText(Field(b, "album"), prev.album),
      year := if ToNumber(Field(b, "year")).Some? then ToNumber(Field(b, "year")) else prev.year,
      url := MergeText(Field(b, "url"), prev.url),
      cover := MergeText(Field(b, "cover"), prev.cover),
      playing := playing,
      positionMs := pos2,
      durationMs := durationMs,
      ts := now)
  }

  /** Each text field: a null, undefined or blank input keeps the previous
      value, anything else replaces it, trimmed. */
  lemma SanitizeMergesText(b: map<string, JsValue>, prev: SourceState, now: int)
    ensures MergedText(Field(b, "title"), prev.title, Sanitize(b, prev, now).title)
    ensures MergedText(Field(b, "artist"), prev.artist, Sanitize(b, prev, now).artist)
    ensures MergedText(Field(b, "album"), prev.album, Sanitize(b, prev, now).album)
    ensures MergedText(Field(b, "url"), prev.url, Sanitize(b, prev, now).url)
    ensures MergedText(Field(b, "cover"), prev.cover, Sanitize(b, prev, now).cover)
  {
  }

  /** Numeric fields: a number is taken (negative ones as 0), anything else
      falls back to the previous value; a position outside a known duration
      is pinned to its nearer end; a year is whatever `Number(...)` makes
      of the input when that is finite. */
  lemma SanitizeNumbers(b: map<string, JsValue>, prev: SourceState, now: int)
    ensures var r := Sanitize(b, prev, now);
      && (Field(b, "durationMs").Num? ==> r.durationMs == Max(0, Field(b, "durationMs").n))
      && (!Field(b, "durationMs").Num? ==> r.durationMs == prev.durationMs)
      && (Field(b, "positionMs").Num? ==> r.positionMs >= 0)
      && (Field(b, "positionMs").Num? && 0 <= Field(b, "positionMs").n
          && (r.durationMs <= 0 || Field(b, "positionMs").n <= r.durationMs)
          ==> r.positionMs == Field(b, "positionMs").n)
      && (!Field(b, "positionMs").Num? && 0 <= prev.positionMs
          && (r.durationMs <= 0 || prev.positionMs <= r.durationMs)
          ==> r.positionMs == prev.positionMs)
      // out of range, a position is pinned to the nearer end of the track
      && (Field(b, "positionMs").Num? && Field(b, "positionMs").n < 0 ==> r.positionMs == 0)
      && (Field(b, "positionMs").Num? && 0 < r.durationMs < Field(b, "positionMs").n
          ==> r.positionMs == r.durationMs)
      && (!Field(b, "positionMs").Num? && prev.positionMs < 0 && r.durationMs > 0 ==> r.positionMs == 0)
      && (!Field(b, "positionMs").Num? && 0 < r.durationMs < prev.positionMs ==> r.positionMs == r.durationMs)
    ensures ToNumber(Field(b, "year")).None? ==> Sanitize(b, prev, now).year == prev.year
    ensures ToNumber(Field(b, "year")).Some? ==> Sanitize(b, prev, now).year == ToNumber(Field(b, "year"))
  {
  }

  /** A report with an explicit `null` year stores year 0: `Number(null)` is a
      finite 0, so unlike the text fields an empty year does not keep the old one. */
  lemma SanitizeNullYear(b: map<string, JsValue>, prev: SourceState, now: int)
    requires Field(b, "year") == Null
    ensures Sanitize(b, prev, now).year == Some(0)
  {
  }

  /** An empty report only refreshes the timestamp and clears `playing`. */
  lemma SanitizeEmptyReport(prev: SourceState, now: int)
    requires Valid(prev)
    ensures Sanitize(map[], prev, now) == prev.(playing := false, ts := now)
  {
  }

  /** The server's `states` object: one record per key, never deleted. */
  datatype Store = Store(
    spotify: SourceState,
    ytmusic: SourceState,
    youtube: SourceState,
    mpris: SourceState,
    other: SourceState)
  {
    function Get(k: SourceKey): SourceState {
      match k
      case Spotify => spotify
      case YtMusic => ytmusic
      case YouTube => youtube
      case Mpris => mpris
      case Other => other
    }

    /** Overwrites one key and leaves every other key as it was. */
    function Set(k: SourceKey, s: SourceState): (r: Store)
      ensures r.Get(k) == s
      ensures forall k' :: k' != k ==> r.Get(k') == Get(k')
    {
      match k
      case Spotify => this.(spotify := s)
      case YtMusic => this.(ytmusic := s)
      case YouTube => this.(youtube := s)
      case Mpris => this.(mpris := s)
      case Other => this.(other := s)
    }

    /** `Object.values(states)`, in the order the keys were created. */
    function Entries(): seq<SourceState> {
      [spotify, ytmusic, youtube, mpris, other]
    }

    /** Every record sits under its own key. */
    predicate Wf() {
      forall k :: Get(k).source == k
    }

    predicate AllValid() {
      forall k :: Valid(Get(k))
    }
  }

  /** Replacing a record by a valid one of the same source keeps the store's
      invariants. */
  lemma SetKeepsInvariants(store: Store, k: SourceKey, s: SourceState)
    requires s.source == store.Get(k).source
    ensures store.Wf() ==> store.Set(k, s).Wf()
    ensures store.AllValid() && Valid(s) ==> store.Set(k, s).AllValid()
  {
    var r := store.Set(k, s);
    if store.Wf() {
      forall k' ensures r.Get(k').source == k' {
        assert store.Get(k').source == k';
      }
    }
    if store.AllValid() && Valid(s) {
      forall k' ensures Valid(r.Get(k')) {
        assert Valid(store.Get(k'));
      }
    }
  }

  /** Every record of the store is one of its entries. */
  lemma GetInEntries(store: Store, k: SourceKey)
    ensures store.Get(k) in store.Entries()
  {
  }

  /** In a well-formed store every entry sits under the key it names. */
  lemma EntryUnderOwnKey(store: Store, s: SourceState)
    requires store.Wf() && s in store.Entries()
    ensures store.Get(s.source) == s
  {
    assert store.Get(Spotify).source == Spotify && store.Get(YtMusic).source == YtMusic;
    assert store.Get(YouTube).source == YouTube && store.Get(Mpris).source == Mpris;
    assert store.Get(Other).source == Other;
  }

  /** The store at start-up: a blank record for each key. */
  function InitialStore(): (s: Store)
    ensures s.Wf() && s.AllValid()
    ensures forall k :: s.Get(k).ts == 0
  {
    Store(BlankState(Spotify), BlankState(YtMusic), BlankState(YouTube),
          BlankState(Mpris), BlankState(Other))
  }

  /** Stores the sanitized merge of `body` under `k`: only that key's record
      changes, and the store's invariants are kept. */
  function Write(store: Store, k: SourceKey, body: map<string, JsValue>, now: int): (r: Store)
    ensures r.Get(k).ts == now && r.Get(k).source == store.Get(k).source
    ensures forall k' :: k' != k ==> r.Get(k') == store.Get(k')
    ensures store.Wf() ==> r.Wf()
    ensures store.AllValid() ==> r.AllValid()
  {
    store.Set(k, Sanitize(body, store.Get(k), now))
  }

  /** `POST /nowplaying`: the body's source names the key that is written. */
  function Report(store: Store, body: map<string, JsValue>, now: int): (r: Store)
    ensures var k := NormSource(Field(body, "source"));
      && r.Get(k).ts == now
      && r.Get(k) == Sanitize(body, store.Get(k), now)
      && forall k' :: k' != k ==> r.Get(k') == store.Get(k')
    ensures store.Wf() ==> r.Wf()
    ensures store.AllValid() ==> r.AllValid()
  {
    Write(store, NormSource(Field(body, "source")), body, now)
  }

  datatype Incoming = Incoming(body: map<string, JsValue>, now: int)

  function ReportAll(store: Store, reports: seq<Incoming>): Store
    decreases |reports|
  {
    if |reports| == 0 then store
    else ReportAll(Report(store, reports[0].body, reports[0].now), reports[1..])
  }

  /** However many reports arrive, every record keeps its position inside its
      duration and under its own key. */
  lemma {:induction false} ReportAllKeepsInvariants(store: Store, reports: seq<Incoming>)
    requires store.Wf() && store.AllValid()
    ensures ReportAll(store, reports).Wf() && ReportAll(store, reports).AllValid()
    decreases |reports|
  {
    if |reports| > 0 {
      ReportAllKeepsInvariants(Report(store, reports[0].body, reports[0].now), reports[1..]);
    }
  }
}

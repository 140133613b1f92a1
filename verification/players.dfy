/** The local-player bridge's view of the players on the bus, and the choice of
    the preferred player among them. */
module Players {
  import opened Wrappers
  import opened Strings
  import opened Seqs
  import opened Settings
  import opened Arbitration

  /** What the bridge remembers of one player, refreshed from its properties. */
  datatype PlayerSnapshot = PlayerSnapshot(
    name: string,
    playing: bool,
    title: Option<string>,
    artist: Option<string>,
    album: Option<string>,
    year: Option<int>,
    url: Option<string>,
    cover: Option<string>,
    durationMs: int,
    positionMs: int,
    trackId: Option<string>,
    ts: int,
    posBaseMs: int,
    posBaseTs: int)

  /** The players through which web playback of YouTube reaches the bus. */
  const BrowserNames: seq<string> := ["firefox", "chrome", "chromium", "brave", "vivaldi", "edge"]

  /** `String(hint || "").trim().toLowerCase()`. */
  function HintText(hint: Option<string>): string {
    ToLower(Trim(hint.GetOr("")))
  }

  /** `hintTerms(hint)`: the substrings a player name must contain to match. */
  function HintTerms(hint: Option<string>): seq<string> {
    var h := HintText(hint);
    if h == "" then []
    else if h == "spotify" then ["spotify"]
    else if h == "youtube" || h == "ytmusic" then BrowserNames
    else [h]
  }

  /** The position of the first non-empty term that occurs in `n`, or -1. */
  function FirstMatch(terms: seq<string>, n: string): (i: int)
    ensures -1 <= i < |terms|
    ensures i >= 0 ==> terms[i] != "" && Contains(n, terms[i])
    ensures forall j :: 0 <= j < |terms| && (i == -1 || j < i) ==>
      !(terms[j] != "" && Contains(n, terms[j]))
  {
    if |terms| == 0 then -1
    else if terms[0] != "" && Contains(n, terms[0]) then 0
    else
      var k := FirstMatch(terms[1..], n);
      if k == -1 then -1 else k + 1
  }

  /** `matchesHint(name, hint)`: some non-empty hint term occurs in the
      lower-cased name. */
  function MatchesHint(name: string, hint: Option<string>): (b: bool)
    ensures b <==> exists j :: 0 <= j < |HintTerms(hint)| && HintTerms(hint)[j] != ""
                                && Contains(ToLower(name), HintTerms(hint)[j])
  {
    var terms := HintTerms(hint);
    var i := FirstMatch(terms, ToLower(name));
    i != -1
  }

  /** A hint with a single term matches exactly the names containing it. */
  lemma MatchesSingleTerm(name: string, hint: Option<string>, t: string)
    requires HintTerms(hint) == [t]
    ensures MatchesHint(name, hint) <==> t != "" && Contains(ToLower(name), t)
  {
  }

  /** What each kind of hint selects: none for a blank hint, the Spotify
      client for "spotify", any web browser for "youtube" or "ytmusic" (web
      playback reaches the bus through the browser), and otherwise the players
      whose name contains the hint's own lower-cased text. */
  lemma HintSelects(name: string, hint: Option<string>)
    ensures HintText(hint) == "" ==> !MatchesHint(name, hint)
    ensures HintText(hint) == "spotify" ==> (MatchesHint(name, hint) <==> Contains(ToLower(name), "spotify"))
    ensures HintText(hint) == "youtube" || HintText(hint) == "ytmusic" ==>
      (MatchesHint(name, hint) <==> exists j :: 0 <= j < |BrowserNames| && Contains(ToLower(name), BrowserNames[j]))
    ensures HintText(hint) !in {"", "spotify", "youtube", "ytmusic"} ==>
      (MatchesHint(name, hint) <==> Contains(ToLower(name), HintText(hint)))
  {
    var h := HintText(hint);
    if h == "spotify" {
      MatchesSingleTerm(name, hint, "spotify");
    } else if h == "youtube" || h == "ytmusic" {
      BrowserNamesNonEmpty();
    } else if h != "" {
      MatchesSingleTerm(name, hint, h);
    }
  }

  lemma BrowserNamesNonEmpty()
    ensures forall j :: 0 <= j < |BrowserNames| ==> BrowserNames[j] != ""
  {
  }

  /** `preferRank(name)`: the index of the first preference entry the
      lower-cased name contains, or 999 when there is none. */
  function PreferRank(name: string, prefer: seq<string>): (r: int)
    ensures 0 <= r
    ensures r != 999 ==> r < |prefer| && prefer[r] != "" && Contains(ToLower(name), prefer[r])
    ensures forall j :: 0 <= j < |prefer| && j < r ==> !(prefer[j] != "" && Contains(ToLower(name), prefer[j]))
    ensures (forall j :: 0 <= j < |prefer| ==> !(prefer[j] != "" && Contains(ToLower(name), prefer[j])))
            ==> r == 999
  {
    if |prefer| == 0 then 999
    else
      var i := FirstMatch(prefer, ToLower(name));
      if i == -1 then 999 else i
  }

  /** The three sort keys of `chooseMprisPlayer`, compared in order: 0 for a
      hint match and 1 otherwise, the preference rank, and the timestamp. */
  datatype SortKey = SortKey(hint: int, rank: int, ts: int)

  function KeyOf(p: PlayerSnapshot, hint: Option<string>, prefer: seq<string>): SortKey {
    SortKey(if MatchesHint(p.name, hint) then 0 else 1, PreferRank(p.name, prefer), p.ts)
  }

  /** The comparator of the sort: `a` goes strictly before `b` when it matches
      the hint and `b` does not, else when it has the better (smaller) rank,
      else when it was refreshed more recently. */
  predicate Before(a: SortKey, b: SortKey) {
    a.hint < b.hint || (a.hint == b.hint && (a.rank < b.rank || (a.rank == b.rank && a.ts > b.ts)))
  }

  predicate Precedes(a: PlayerSnapshot, b: PlayerSnapshot, hint: Option<string>, prefer: seq<string>) {
    Before(KeyOf(a, hint, prefer), KeyOf(b, hint, prefer))
  }

  /** The index of the key a stable sort with `Before` puts first: nothing
      goes before it, and it goes strictly before every earlier key. */
  function FirstBestIndex(keys: seq<SortKey>): (i: nat)
    requires |keys| > 0
    ensures i < |keys|
    ensures forall j :: 0 <= j < |keys| ==> !Before(keys[j], keys[i])
    ensures forall j :: 0 <= j < i ==> Before(keys[i], keys[j])
  {
    if |keys| == 1 then 0
    else
      var k := FirstBestIndex(keys[1..]);
      if Before(keys[k + 1], keys[0]) then k + 1 else 0
  }

  /** The freshness window for players: three times the staleness TTL. */
  predicate Freshish(p: PlayerSnapshot, now: int, cfg: Config) {
    IsFresh(p.ts, now, cfg.staleMs * 3)
  }

  ghost predicate AnyFreshish(players: seq<PlayerSnapshot>, now: int, cfg: Config) {
    exists p :: p in players && Freshish(p, now, cfg)
  }

  /** The base set: the freshish players if there are any, else all of them. */
  ghost predicate InBase(players: seq<PlayerSnapshot>, p: PlayerSnapshot, now: int, cfg: Config) {
    p in players && (AnyFreshish(players, now, cfg) ==> Freshish(p, now, cfg))
  }

  /** The candidates: the playing members of the base set if there are any,
      else the whole base set. */
  ghost predicate IsCandidate(players: seq<PlayerSnapshot>, p: PlayerSnapshot, now: int, cfg: Config) {
    && InBase(players, p, now, cfg)
    && ((exists q :: InBase(players, q, now, cfg) && q.playing) ==> p.playing)
  }

  function CandidateList(players: seq<PlayerSnapshot>, now: int, cfg: Config): (c: seq<PlayerSnapshot>)
    ensures |players| > 0 ==> |c| > 0
    ensures forall p :: p in c <==> IsCandidate(players, p, now, cfg)
  {
    var freshish := Filter(players, (p: PlayerSnapshot) => Freshish(p, now, cfg));
    var base := if |freshish| > 0 then freshish else players;
    assert |freshish| > 0 <==> AnyFreshish(players, now, cfg) by {
      if |freshish| > 0 {
        assert freshish[0] in freshish;
      }
    }
    var playingList := Filter(base, (p: PlayerSnapshot) => p.playing);
    if |playingList| > 0 then
      assert playingList[0] in playingList;
      playingList
    else base
  }

  /** `chooseMprisPlayer(hint)`: no player exactly when there are no players;
      otherwise a candidate that no other candidate sorts before. */
  function ChoosePlayer(players: seq<PlayerSnapshot>, hint: Option<string>, now: int, cfg: Config)
    : (r: Option<PlayerSnapshot>)
    ensures r.None? <==> |players| == 0
    ensures r.Some? ==> r.value in players && IsCandidate(players, r.value, now, cfg)
    ensures r.Some? ==> forall p :: IsCandidate(players, p, now, cfg) ==> !Precedes(p, r.value, hint, cfg.prefer)
  {
    if |players| == 0 then None
    else
      var cand := CandidateList(players, now, cfg);
      var keys := seq(|cand|, j requires 0 <= j < |cand| => KeyOf(cand[j], hint, cfg.prefer));
      var i := FirstBestIndex(keys);
      assert cand[i] in cand;
      assert forall p :: p in cand ==> !Precedes(p, cand[i], hint, cfg.prefer) by {
        forall p | p in cand ensures !Precedes(p, cand[i], hint, cfg.prefer) {
          var j :| 0 <= j < |cand| && cand[j] == p;
          assert !Before(keys[j], keys[i]);
        }
      }
      Some(cand[i])
  }

  /** A candidate matching the hint beats every candidate that does not,
      whatever their ranks and timestamps. */
  lemma HintMatchWins(players: seq<PlayerSnapshot>, hint: Option<string>, now: int, cfg: Config, p: PlayerSnapshot)
    requires IsCandidate(players, p, now, cfg) && MatchesHint(p.name, hint)
    ensures ChoosePlayer(players, hint, now, cfg).Some?
    ensures MatchesHint(ChoosePlayer(players, hint, now, cfg).value.name, hint)
  {
    var r := ChoosePlayer(players, hint, now, cfg);
    assert r.Some?;
    assert !Precedes(p, r.value, hint, cfg.prefer);
  }

  /** If any player is freshish, the chosen player is freshish. */
  lemma ChoiceIsFreshish(players: seq<PlayerSnapshot>, hint: Option<string>, now: int, cfg: Config, p: PlayerSnapshot)
    requires p in players && Freshish(p, now, cfg)
    ensures Freshish(ChoosePlayer(players, hint, now, cfg).value, now, cfg)
  {
    var r := ChoosePlayer(players, hint, now, cfg);
    assert AnyFreshish(players, now, cfg);
    assert r.Some? && InBase(players, r.value, now, cfg);
  }

  /** If any player of the base set is playing, the chosen player is playing. */
  lemma ChoiceIsPlaying(players: seq<PlayerSnapshot>, hint: Option<string>, now: int, cfg: Config, p: PlayerSnapshot)
    requires InBase(players, p, now, cfg) && p.playing
    ensures ChoosePlayer(players, hint, now, cfg).value.playing
  {
    var c := ChoosePlayer(players, hint, now, cfg).value;
    assert IsCandidate(players, c, now, cfg);
  }

  /** Between candidates that agree on the hint, the better-ranked one wins;
      between candidates that agree on hint and rank, the newer one wins. */
  lemma RankThenRecency(players: seq<PlayerSnapshot>, hint: Option<string>, now: int, cfg: Config, p: PlayerSnapshot)
    requires IsCandidate(players, p, now, cfg)
    ensures var c := ChoosePlayer(players, hint, now, cfg).value;
      KeyOf(p, hint, cfg.prefer).hint == KeyOf(c, hint, cfg.prefer).hint ==>
        && PreferRank(c.name, cfg.prefer) <= PreferRank(p.name, cfg.prefer)
        && (PreferRank(c.name, cfg.prefer) == PreferRank(p.name, cfg.prefer) ==> p.ts <= c.ts)
  {
  }
}

/** Concrete runs of the model: the situations the server is meant to handle,
    worked through on actual values. */
module Scenarios {
  import opened Wrappers
  import opened Strings
  import opened JsValues
  import opened Settings
  import opened SourceStates
  import opened Arbitration
  import opened Players
  import opened Bridge
  import opened Commands

  /** Reports naming a source by its plain key name land under that key. */
  lemma PlainNamesSelectTheirKey()
    ensures NormSource(Str("spotify")) == Spotify
    ensures NormSource(Str("ytmusic")) == YtMusic
  {
    NormSourceOfKeyName(Spotify);
    NormSourceOfKeyName(YtMusic);
  }

  function SpotifyBody(): map<string, JsValue> {
    map["source" := Str("spotify"), "playing" := Bool(true), "positionMs" := Num(1000), "durationMs" := Num(200000)]
  }

  function YtMusicBody(): map<string, JsValue> {
    map["source" := Str("ytmusic"), "playing" := Bool(true)]
  }

  /** The record Spotify's first report produces. */
  lemma SpotifyRecord(t1: int)
    ensures var r := Sanitize(SpotifyBody(), BlankState(Spotify), t1);
      && r.ts == t1 && r.playing && r.source == Spotify && r.positionMs == 1000 && r.durationMs == 200000
  {
    var b := SpotifyBody();
    assert Field(b, "positionMs") == Num(1000) && Field(b, "durationMs") == Num(200000);
    assert Truthy(Field(b, "playing"));
    SanitizeNumbers(b, BlankState(Spotify), t1);
  }

  /** The first report lands under `spotify` with the reported position. */
  lemma SpotifyReportLands(t1: int)
    ensures var s1 := Report(InitialStore(), SpotifyBody(), t1);
      && s1.spotify.ts == t1 && s1.spotify.playing && s1.spotify.source == Spotify
      && s1.spotify.positionMs == 1000 && s1.spotify.durationMs == 200000
      && s1.ytmusic.ts == 0 && s1.youtube.ts == 0 && s1.mpris.ts == 0 && s1.other.ts == 0
  {
    var b := SpotifyBody();
    assert Field(b, "source") == Str(KeyName(Spotify));
    NormSourceOfKeyName(Spotify);
    var r := Sanitize(b, BlankState(Spotify), t1);
    assert Report(InitialStore(), b, t1) == InitialStore().(spotify := r);
    SpotifyRecord(t1);
  }

  /** The second report lands under `ytmusic` and leaves `spotify` alone. */
  lemma YtMusicReportLands(s1: Store, t2: int)
    requires s1.Wf()
    ensures var s2 := Report(s1, YtMusicBody(), t2);
      && s2.ytmusic.ts == t2 && s2.ytmusic.playing && s2.ytmusic.source == YtMusic
      && s2.spotify == s1.spotify && s2.youtube == s1.youtube && s2.mpris == s1.mpris && s2.other == s1.other
  {
    var b := YtMusicBody();
    assert Field(b, "source") == Str(KeyName(YtMusic));
    NormSourceOfKeyName(YtMusic);
    assert Truthy(Field(b, "playing"));
  }

  /** With only Spotify and YouTube Music ever written, both playing and
      fresh, the newer of the two is active. */
  lemma NewerOfTwoPlayingWins(s2: Store, now: int, cfg: Config)
    requires s2.ytmusic.source == YtMusic && s2.spotify.playing && s2.ytmusic.playing
    requires s2.spotify.ts < s2.ytmusic.ts && IsFresh(s2.ytmusic.ts, now, cfg.staleMs)
    requires s2.youtube.ts == 0 && s2.mpris.ts == 0 && s2.other.ts == 0
    ensures PickActive(s2, now, cfg) == Pick(Some(s2.ytmusic), false, ReasonPlaying)
  {
    assert s2.Entries() == [s2.spotify, s2.ytmusic, s2.youtube, s2.mpris, s2.other];
    assert Eligible(s2, s2.ytmusic, now, cfg);
    NewestPlayingWins(s2, now, cfg, s2.ytmusic);
  }

  /** Spotify reports playing at `t1`, YouTube Music reports playing shortly
      after: the newer playing source is active, and Spotify's record keeps
      the position it reported inside its duration. */
  lemma NewerPlayingSourceWins(t1: int, t2: int)
    requires 0 < t1 < t2 <= t1 + 15000
    ensures var s2 := Report(Report(InitialStore(), SpotifyBody(), t1), YtMusicBody(), t2);
      && s2.spotify.positionMs == 1000 && s2.spotify.durationMs == 200000 && s2.spotify.playing
      && PickActive(s2, t2, DefaultConfig()) == Pick(Some(s2.ytmusic), false, ReasonPlaying)
  {
    var s1 := Report(InitialStore(), SpotifyBody(), t1);
    SpotifyReportLands(t1);
    assert s1.Wf() by {
      assert s1.Get(Spotify).source == Spotify;
    }
    YtMusicReportLands(s1, t2);
    NewerOfTwoPlayingWins(Report(s1, YtMusicBody(), t2), t2, DefaultConfig());
  }

  function Player(name: string, playing: bool, ts: int): PlayerSnapshot {
    PlayerSnapshot(name, playing, None, None, None, None, None, None, 0, 0, None, ts, 0, ts)
  }

  /** A raise towards `mpv` looks for "mpv" in the player name. */
  lemma MpvHintTerms()
    ensures HintTerms(Some("mpv")) == ["mpv"]
  {
    TrimUnpadded("mpv");
    LowerOfLower("mpv");
  }

  lemma MpvHintMatches()
    ensures MatchesHint("mpv", Some("mpv"))
  {
    MpvHintTerms();
    MatchesSingleTerm("mpv", Some("mpv"), "mpv");
    LowerOfLower("mpv");
    ContainsItself("mpv");
  }

  /** A raise towards YouTube Music looks for a browser: the Edge and Brave
      players match it, `mpv` does not. */
  lemma YtMusicHintText()
    ensures HintText(Some("ytmusic")) == "ytmusic"
  {
    TrimUnpadded("ytmusic");
    LowerOfLower("ytmusic");
  }

  lemma EdgeMatchesYtMusicHint()
    ensures MatchesHint("edge", Some("ytmusic"))
  {
    assert HintText(Some("ytmusic")) == "ytmusic" by { YtMusicHintText(); }
    assert ToLower("edge") == "edge" by { LowerOfLower("edge"); }
    assert Contains("edge", BrowserNames[5]) by { ContainsItself("edge"); }
    HintSelects("edge", Some("ytmusic"));
  }

  lemma BraveMatchesYtMusicHint()
    ensures MatchesHint("brave", Some("ytmusic"))
  {
    assert HintText(Some("ytmusic")) == "ytmusic" by { YtMusicHintText(); }
    assert ToLower("brave") == "brave" by { LowerOfLower("brave"); }
    assert Contains("brave", BrowserNames[3]) by { ContainsItself("brave"); }
    HintSelects("brave", Some("ytmusic"));
  }

  lemma MpvMissesYtMusicHint()
    ensures !MatchesHint("mpv", Some("ytmusic"))
  {
    assert HintText(Some("ytmusic")) == "ytmusic" by { YtMusicHintText(); }
    assert ToLower("mpv") == "mpv" by { LowerOfLower("mpv"); }
    forall j | 0 <= j < |BrowserNames| ensures !Contains("mpv", BrowserNames[j]) {
      ShorterLacks("mpv", BrowserNames[j]);
    }
    HintSelects("mpv", Some("ytmusic"));
  }

  lemma VlcMissesMpvHint()
    ensures !MatchesHint("vlc", Some("mpv"))
  {
    MpvHintTerms();
    MatchesSingleTerm("vlc", Some("mpv"), "mpv");
    LowerOfLower("vlc");
    assert !IsPrefix("mpv", "vlc");
    ShorterLacks("vlc"[1..], "mpv");
  }

  /** A playing player refreshed within the window is always a candidate. */
  lemma PlayingFreshishIsCandidate(players: seq<PlayerSnapshot>, p: PlayerSnapshot, now: int, cfg: Config)
    requires p in players && p.playing && Freshish(p, now, cfg)
    ensures IsCandidate(players, p, now, cfg)
  {
  }

  /** A raise towards one player picks it even though another playing player
      was refreshed more recently. */
  lemma HintBeatsRecency(now: int)
    requires now > 10000
    ensures var players := [Player("mpv", true, now - 5000), Player("vlc", true, now - 1000)];
      ChoosePlayer(players, Some("mpv"), now, DefaultConfig()) == Some(players[0])
  {
    var players := [Player("mpv", true, now - 5000), Player("vlc", true, now - 1000)];
    MpvHintMatches();
    VlcMissesMpvHint();
    PlayingFreshishIsCandidate(players, players[0], now, DefaultConfig());
    HintMatchWins(players, Some("mpv"), now, DefaultConfig(), players[0]);
  }

  /** A playing snapshot based at 10000 ms, looked at 2500 ms later, is at
      12500 ms, or at the end of a shorter track. */
  lemma InterpolationExample(t: int)
    requires t != 0
    ensures ProjectPosition(PlayerSnapshot("p", true, None, None, None, None, None, None,
                                           200000, 10000, None, t, 10000, t), t + 2500) == 12500
    ensures ProjectPosition(PlayerSnapshot("p", true, None, None, None, None, None, None,
                                           11000, 10000, None, t, 10000, t), t + 2500) == 11000
  {
  }

  /** Three commands get ids 1, 2 and 3; a poller that has seen 2 receives the
      third, and one that has seen 3 receives nothing. */
  lemma ThreeCommands(t: int)
    ensures var b := map["action" := Str("toggle")];
      var c1 := Accept(InitialCommand(), b, t).value;
      var c2 := Accept(c1, b, t + 1).value;
      var c3 := Accept(c2, b, t + 2).value;
      && c1.id == 1 && c2.id == 2 && c3.id == 3
      && Poll(c3, Str("2")) == Some(c3)
      && Poll(c3, Str("3")) == None
  {
    var b := map["action" := Str("toggle")];
    TrimUnpadded("toggle");
    assert ActionText(Field(b, "action")) == "toggle";
    var c3 := Accept(Accept(Accept(InitialCommand(), b, t).value, b, t + 1).value, b, t + 2).value;
    assert IntToDecimal(2) == "2" && IntToDecimal(3) == "3";
    PollWithDecimal(c3, 2);
    PollWithDecimal(c3, 3);
  }

  /** While YouTube Music is fresh the bridge's record is passed over even when
      it is the only one playing: the paused trusted source is active. */
  lemma TamperBeatsPlayingBridge(t: int)
    requires t > 0
    ensures var s := InitialStore().Set(Mpris, BlankState(Mpris).(playing := true, ts := t))
                                   .Set(YtMusic, BlankState(YtMusic).(ts := t));
      var r := PickActive(s, t, DefaultConfig());
      r.reason == ReasonPaused && r.active == Some(s.ytmusic)
  {
    var cfg := DefaultConfig();
    var s := InitialStore().Set(Mpris, BlankState(Mpris).(playing := true, ts := t))
                           .Set(YtMusic, BlankState(YtMusic).(ts := t));
    assert KeyName(YtMusic) in cfg.tmSources;
    assert YtMusic in AllKeys;
    assert TamperFresh(s, t, cfg);
    assert Eligible(s, s.ytmusic, t, cfg);
    assert forall e :: Eligible(s, e, t, cfg) ==> e == s.ytmusic;
  }
}

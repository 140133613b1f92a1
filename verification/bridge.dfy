/** The local-player bridge: the snapshot table it keeps of the players on the
    bus, how a snapshot is refreshed, how the chosen player is copied into the
    store's `mpris` record, and what a control command does. Bus traffic is
    replaced by its results: property replies are inputs, and a command yields
    the call it would issue together with the state it leaves behind. */
module Bridge {
  import opened Wrappers
  import opened Strings
  import opened Seqs
  import opened JsValues
  import opened Settings
  import opened SourceStates
  import opened Metadata
  import opened Players

  /** The bridge's state minus the bus handles: whether the bus connection was
      made, and the player table in insertion order. */
  datatype BridgeState = BridgeState(ok: bool, players: seq<PlayerSnapshot>)

  /** No two snapshots share a name, as in a `Map` keyed by bus name. */
  predicate UniqueNames(players: seq<PlayerSnapshot>) {
    forall i, j :: 0 <= i < j < |players| ==> players[i].name != players[j].name
  }

  /** The position of the snapshot named `name`, or -1. */
  function IndexOfName(players: seq<PlayerSnapshot>, name: string): (i: int)
    ensures -1 <= i < |players|
    ensures i >= 0 ==> players[i].name == name
    ensures i == -1 <==> forall j :: 0 <= j < |players| ==> players[j].name != name
  {
    if |players| == 0 then -1
    else if players[|players| - 1].name == name then |players| - 1
    else IndexOfName(players[..|players| - 1], name)
  }

  /** `players.set(p.name, p)`: replaces the snapshot of the same name where it
      stands, or appends a new one. */
  function Upsert(players: seq<PlayerSnapshot>, p: PlayerSnapshot): (r: seq<PlayerSnapshot>)
    ensures p in r
    ensures forall q :: q in r ==> q == p || q in players
    ensures forall q :: q in players && q.name != p.name ==> q in r
    ensures UniqueNames(players) ==> UniqueNames(r)
    ensures |r| == |players| || |r| == |players| + 1
    // a new name goes last; a known one is replaced where it stands
    ensures (forall j :: 0 <= j < |players| ==> players[j].name != p.name) ==> r == players + [p]
    ensures UniqueNames(players) ==>
      forall j :: 0 <= j < |players| && players[j].name == p.name ==> r == players[j := p]
  {
    var i := IndexOfName(players, p.name);
    if i == -1 then
      players + [p]
    else
      var r := players[i := p];
      assert r[i] == p;
      assert forall q :: q in players && q.name != p.name ==> q in r by {
        forall q | q in players && q.name != p.name ensures q in r {
          var j :| 0 <= j < |players| && players[j] == q;
          assert r[j] == q;
        }
      }
      r
  }

  /** A filtered table keeps names unique. */
  lemma FilterKeepsNamesUnique(players: seq<PlayerSnapshot>, p: PlayerSnapshot -> bool)
    requires UniqueNames(players)
    ensures UniqueNames(Filter(players, p))
  {
    if |players| > 0 {
      FilterKeepsNamesUnique(players[1..], p);
      var rest := Filter(players[1..], p);
      assert forall q :: q in rest ==> q in players[1..];
      forall q | q in rest ensures q.name != players[0].name {
        var j :| 0 <= j < |players[1..]| && players[1..][j] == q;
        assert players[j + 1] == q;
      }
    }
  }

  /** A player that left the bus: its snapshot is dropped, and the others keep
      their order and their unique names, as `Map.delete` leaves them. */
  function Forget(players: seq<PlayerSnapshot>, name: string): (r: seq<PlayerSnapshot>)
    ensures forall q :: q in r <==> q in players && q.name != name
    ensures |r| <= |players|
    ensures UniqueNames(players) ==> UniqueNames(r)
  {
    var keep := (q: PlayerSnapshot) => q.name != name;
    if UniqueNames(players) then
      FilterKeepsNamesUnique(players, keep);
      Filter(players, keep)
    else
      Filter(players, keep)
  }

  /** Forgetting in a split table forgets in each part, keeping their order;
      a single snapshot stays exactly when it has another name. */
  lemma ForgetKeepsOrder(a: seq<PlayerSnapshot>, b: seq<PlayerSnapshot>, name: string, q: PlayerSnapshot)
    ensures Forget(a + b, name) == Forget(a, name) + Forget(b, name)
    ensures Forget([q], name) == if q.name != name then [q] else []
  {
    var keep := (q: PlayerSnapshot) => q.name != name;
    FilterAppend(a, b, keep);
    FilterSingle(q, keep);
  }

  /** After a rescan, only the players still on the bus keep their snapshots,
      in their order and with unique names. */
  function Prune(players: seq<PlayerSnapshot>, onBus: set<string>): (r: seq<PlayerSnapshot>)
    ensures forall q :: q in r <==> q in players && q.name in onBus
    ensures |r| <= |players|
    ensures UniqueNames(players) ==> UniqueNames(r)
  {
    var keep := (q: PlayerSnapshot) => q.name in onBus;
    if UniqueNames(players) then
      FilterKeepsNamesUnique(players, keep);
      Filter(players, keep)
    else
      Filter(players, keep)
  }

  /** Pruning a split table prunes each part, keeping their order; a single
      snapshot stays exactly when its name is still on the bus. */
  lemma PruneKeepsOrder(a: seq<PlayerSnapshot>, b: seq<PlayerSnapshot>, onBus: set<string>, q: PlayerSnapshot)
    ensures Prune(a + b, onBus) == Prune(a, onBus) + Prune(b, onBus)
    ensures Prune([q], onBus) == if q.name in onBus then [q] else []
  {
    var keep := (q: PlayerSnapshot) => q.name in onBus;
    FilterAppend(a, b, keep);
    FilterSingle(q, keep);
  }

  /** Whether a `PlaybackStatus` reply says the player is playing. */
  function IsPlayingStatus(status: JsValue): (b: bool)
    ensures b <==> CleanStr(VariantVal(status)).Some?
                   && ToLower(CleanStr(VariantVal(status)).value) == "playing"
  {
    ToLower(CleanStr(VariantVal(status)).GetOr("")) == "playing"
  }

  /** `variantVal(all.Metadata) || {}`: the metadata dictionary, empty when it
      is missing or not a dictionary. */
  function MetadataOf(all: map<string, JsValue>): (md: map<string, JsValue>)
    ensures VariantVal(Field(all, "Metadata")).Obj? ==> md == VariantVal(Field(all, "Metadata")).fields
    ensures !VariantVal(Field(all, "Metadata")).Obj? ==> md == map[]
  {
    var md := VariantVal(Field(all, "Metadata"));
    if md.Obj? then md.fields else map[]
  }

  /** The reported `Position` in whole milliseconds; 0 unless it is a
      positive number of microseconds. */
  function PositionMs(all: map<string, JsValue>): (ms: int)
    ensures ms >= 0
    ensures var us := AsNumber(VariantVal(Field(all, "Position")));
      us.Some? && us.value > 0 ==> ms * 1000 <= us.value < (ms + 1) * 1000
    ensures var us := AsNumber(VariantVal(Field(all, "Position")));
      !(us.Some? && us.value > 0) ==> ms == 0
  {
    LengthMs(AsNumber(VariantVal(Field(all, "Position"))))
  }

  /** The snapshot `refreshMprisPlayer(name)` stores for the property reply
      `all` received at time `now`: playing state from the status, the track
      from the metadata, and the reported position as the interpolation base. */
  function Snapshot(name: string, all: map<string, JsValue>, now: int): (p: PlayerSnapshot)
    ensures p.name == name && p.ts == now
    ensures p.positionMs == PositionMs(all) && p.durationMs >= 0
    ensures p.posBaseMs == p.positionMs && p.posBaseTs == now
    ensures p.playing <==> IsPlayingStatus(Field(all, "PlaybackStatus"))
    ensures var t := ParseMetadata(MetadataOf(all));
      && p.title == t.title && p.artist == t.artist && p.album == t.album && p.year == t.year
      && p.url == t.url && p.cover == t.cover && p.durationMs == t.durationMs && p.trackId == t.trackId
  {
    var t := ParseMetadata(MetadataOf(all));
    var positionMs := PositionMs(all);
    PlayerSnapshot(
      name, IsPlayingStatus(Field(all, "PlaybackStatus")),
      t.title, t.artist, t.album, t.year, t.url, t.cover, t.durationMs,
      positionMs, t.trackId, now, positionMs, now)
  }

  /** `Math.max(0, Math.floor(us / 1000))`. */
  function SeekedMs(us: int): (ms: int)
    ensures ms >= 0
    ensures us >= 0 ==> ms * 1000 <= us < (ms + 1) * 1000
    ensures us < 0 ==> ms == 0
  {
    Max(0, us / 1000)
  }

  /** The `Seeked` signal of player `name` carrying `us`: its snapshot jumps to
      the new position, which becomes the interpolation base. A player without
      a snapshot is ignored. */
  function OnSeeked(players: seq<PlayerSnapshot>, name: string, us: int, now: int): (r: seq<PlayerSnapshot>)
    ensures |r| == |players|
    ensures IndexOfName(players, name) == -1 ==> r == players
    ensures forall j :: 0 <= j < |players| && j != IndexOfName(players, name) ==> r[j] == players[j]
    ensures IndexOfName(players, name) != -1 ==>
      var q := r[IndexOfName(players, name)];
      && q == players[IndexOfName(players, name)].(positionMs := q.positionMs, posBaseMs := q.positionMs,
                                                   posBaseTs := now, ts := now)
      && q.positionMs == SeekedMs(us)
  {
    var i := IndexOfName(players, name);
    if i == -1 then players
    else
      var ms := SeekedMs(us);
      players[i := players[i].(positionMs := ms, posBaseMs := ms, posBaseTs := now, ts := now)]
  }

  /** The position `syncMprisToState` reports for a snapshot at time `now`:
      a playing snapshot with a base advances from the base by the time since
      it was taken; the result is kept inside the duration when there is one,
      and is never negative. */
  function ProjectPosition(p: PlayerSnapshot, now: int): (pos: int)
    ensures pos >= 0
    ensures p.durationMs > 0 ==> pos <= p.durationMs
    ensures var raw := if p.playing && p.posBaseTs != 0 then p.posBaseMs + (now - p.posBaseTs) else p.positionMs;
      0 <= raw && (p.durationMs <= 0 || raw <= p.durationMs) ==> pos == raw
    ensures var raw := if p.playing && p.posBaseTs != 0 then p.posBaseMs + (now - p.posBaseTs) else p.positionMs;
      raw < 0 ==> pos == 0
    ensures var raw := if p.playing && p.posBaseTs != 0 then p.posBaseMs + (now - p.posBaseTs) else p.positionMs;
      p.durationMs > 0 && raw > p.durationMs ==> pos == p.durationMs
  {
    var raw := if p.playing && p.posBaseTs != 0 then p.posBaseMs + (now - p.posBaseTs) else p.positionMs;
    if p.durationMs > 0 then Clamp(raw, 0, p.durationMs) else Max(0, raw)
  }

  /** While a player plays, the projected position never moves backwards. */
  lemma ProjectionAdvances(p: PlayerSnapshot, t1: int, t2: int)
    requires p.playing && t1 <= t2
    ensures ProjectPosition(p, t1) <= ProjectPosition(p, t2)
  {
  }

  /** A snapshot whose base was just taken (as every refresh, seek and sync
      leaves it) projects to its stored position at that moment. */
  lemma ProjectionAtBase(p: PlayerSnapshot, now: int)
    requires p.posBaseMs == p.positionMs && p.posBaseTs == now
    requires 0 <= p.positionMs && (p.durationMs <= 0 || p.positionMs <= p.durationMs)
    ensures ProjectPosition(p, now) == p.positionMs
  {
  }

  /** A paused player, or one without a base, stays where it was reported. */
  lemma ProjectionHoldsWhenPaused(p: PlayerSnapshot, t1: int, t2: int)
    requires !p.playing || p.posBaseTs == 0
    ensures ProjectPosition(p, t1) == ProjectPosition(p, t2)
  {
  }

  /** `x || null` for a text a snapshot holds. */
  function NonEmpty(s: string): (r: Option<string>)
    ensures r.Some? <==> s != ""
    ensures r.Some? ==> r.value == s
  {
    if s == "" then None else Some(s)
  }

  /** The store's `mpris` record after copying `chosen` into `prev` at `now`. */
  function MprisRecord(prev: SourceState, chosen: PlayerSnapshot, now: int): (s: SourceState)
    ensures s.source == prev.source && s.ts == now && s.posBaseTs == now
    ensures s.positionMs == ProjectPosition(chosen, now) && s.posBaseMs == s.positionMs
    ensures s.durationMs == Max(0, chosen.durationMs) && s.playing == chosen.playing
    ensures s.title == CleanStr(OfText(chosen.title)) && s.artist == CleanStr(OfText(chosen.artist))
    ensures s.album == CleanStr(OfText(chosen.album)) && s.url == CleanStr(OfText(chosen.url))
    ensures s.cover == CleanStr(OfText(chosen.cover))
    ensures s.year == Some(if chosen.year.Some? then chosen.year.value else 0)
    ensures s.trackId == chosen.trackId
    ensures s.playerName.Some? <==> chosen.name != []
    ensures s.playerName.Some? ==> s.playerName.value == chosen.name
    ensures Valid(s)
  {
    var pos := ProjectPosition(chosen, now);
    prev.(
      title := CleanStr(OfText(chosen.title)),
      artist := CleanStr(OfText(chosen.artist)),
      album := CleanStr(OfText(chosen.album)),
      year := Some(chosen.year.GetOr(0)),
      url := CleanStr(OfText(chosen.url)),
      cover := CleanStr(OfText(chosen.cover)),
      playing := chosen.playing,
      positionMs := pos,
      durationMs := Max(0, chosen.durationMs),
      ts := now,
      trackId := chosen.trackId,
      playerName := NonEmpty(chosen.name),
      posBaseMs := pos,
      posBaseTs := now)
  }

  /** `syncMprisToState()` at time `now`: the player chosen without a hint is
      copied into the `mpris` record; every other record stays as it was, and
      nothing changes when there is no player. */
  function Sync(store: Store, players: seq<PlayerSnapshot>, now: int, cfg: Config): (r: Store)
    ensures forall k :: k != Mpris ==> r.Get(k) == store.Get(k)
    ensures |players| == 0 ==> r == store
    ensures |players| > 0 ==> r.mpris == MprisRecord(store.mpris, ChoosePlayer(players, None, now, cfg).value, now)
  {
    var c := ChoosePlayer(players, None, now, cfg);
    if c.None? then store else CopyChosen(store, c.value, now)
  }

  /** The store with `chosen` copied into its `mpris` record. */
  function CopyChosen(store: Store, chosen: PlayerSnapshot, now: int): (r: Store)
    ensures forall k :: k != Mpris ==> r.Get(k) == store.Get(k)
    ensures r.mpris == MprisRecord(store.mpris, chosen, now)
  {
    store.Set(Mpris, MprisRecord(store.mpris, chosen, now))
  }

  /** A sync keeps every record under its own key and inside its duration. */
  lemma SyncKeepsInvariants(store: Store, players: seq<PlayerSnapshot>, now: int, cfg: Config)
    ensures store.Wf() ==> Sync(store, players, now, cfg).Wf()
    ensures store.AllValid() ==> Sync(store, players, now, cfg).AllValid()
  {
    var c := ChoosePlayer(players, None, now, cfg);
    if c.Some? {
      CopyKeepsInvariants(store, c.value, now);
    }
  }

  lemma CopyKeepsInvariants(store: Store, chosen: PlayerSnapshot, now: int)
    ensures store.Wf() ==> CopyChosen(store, chosen, now).Wf()
    ensures store.AllValid() ==> CopyChosen(store, chosen, now).AllValid()
  {
    var s := MprisRecord(store.mpris, chosen, now);
    assert s.source == store.mpris.source && Valid(s);
    SetMprisKeepsInvariants(store, s);
  }

  lemma SetMprisKeepsInvariants(store: Store, s: SourceState)
    requires s.source == store.mpris.source
    ensures store.Wf() ==> store.Set(Mpris, s).Wf()
    ensures store.AllValid() && Valid(s) ==> store.Set(Mpris, s).AllValid()
  {
    SetKeepsInvariants(store, Mpris, s);
  }

  /** The periodic tick: nothing changes before the bus is connected or while
      no player is known; otherwise only the `mpris` record changes, to the
      copy of the player chosen without a hint, and the store keeps every
      record under its own key and inside its duration. */
  function Tick(store: Store, b: BridgeState, now: int, cfg: Config): (r: Store)
    ensures !b.ok || |b.players| == 0 ==> r == store
    ensures forall k :: k != Mpris ==> r.Get(k) == store.Get(k)
    ensures b.ok && |b.players| > 0 ==>
      r.mpris == MprisRecord(store.mpris, ChoosePlayer(b.players, None, now, cfg).value, now)
    ensures store.Wf() ==> r.Wf()
    ensures store.AllValid() ==> r.AllValid()
    ensures b.ok ==> r == Sync(store, b.players, now, cfg)
  {
    if b.ok then
      SyncKeepsInvariants(store, b.players, now, cfg);
      Sync(store, b.players, now, cfg)
    else store
  }

  /** Text the bridge stored from the metadata comes through the copy unchanged,
      and a snapshot without a year stores year 0 (`Number(null)` is 0). */
  lemma SyncCopiesTrack(prev: SourceState, chosen: PlayerSnapshot, now: int)
    requires IsCleanText(chosen.title) && IsCleanText(chosen.artist) && IsCleanText(chosen.album)
    requires IsCleanText(chosen.url) && IsCleanText(chosen.cover)
    ensures var s := MprisRecord(prev, chosen, now);
      && s.title == chosen.title && s.artist == chosen.artist && s.album == chosen.album
      && s.url == chosen.url && s.cover == chosen.cover && s.trackId == chosen.trackId
    ensures chosen.year.None? ==> MprisRecord(prev, chosen, now).year == Some(0)
    ensures chosen.year.Some? ==> MprisRecord(prev, chosen, now).year == chosen.year
  {
    CleanOfCleanText(chosen.title);
    CleanOfCleanText(chosen.artist);
    CleanOfCleanText(chosen.album);
    CleanOfCleanText(chosen.url);
    CleanOfCleanText(chosen.cover);
  }

  /** The track a refresh read from a player's metadata reaches the store's
      `mpris` record as parsed: the copy loses none of it. */
  lemma RefreshedTrackReachesStore(prev: SourceState, name: string, all: map<string, JsValue>, t0: int, now: int)
    ensures var t := ParseMetadata(MetadataOf(all));
      var s := MprisRecord(prev, Snapshot(name, all, t0), now);
      && s.title == t.title && s.artist == t.artist && s.album == t.album
      && s.url == t.url && s.cover == t.cover && s.trackId == t.trackId
      && s.durationMs == t.durationMs
  {
    ParsedTextIsClean(MetadataOf(all));
    SyncCopiesTrack(prev, Snapshot(name, all, t0), now);
  }

  /** A call the bridge issues on the chosen player's bus interfaces. */
  datatype BusCall =
    | RaiseCall(player: string)
    | PlayPauseCall(player: string)
    | NextCall(player: string)
    | PreviousCall(player: string)
    | SetPositionCall(player: string, trackId: string, positionUs: int)
    | SeekCall(player: string, offsetUs: int)

  /** The outcome of `execMprisCommand`: whether it reports success, the call
      it issued, and the player table afterwards. */
  datatype ExecResult = ExecResult(executed: bool, call: Option<BusCall>, players: seq<PlayerSnapshot>)

  /** `Math.max(0, Math.floor(Number(value) || 0))`: the seek target in
      milliseconds, 0 for anything that is not a positive number. */
  function SeekTarget(value: JsValue): (ms: int)
    ensures ms >= 0
    ensures ToNumber(value).Some? && ToNumber(value).value > 0 ==> ms == ToNumber(value).value
    ensures !(ToNumber(value).Some? && ToNumber(value).value > 0) ==> ms == 0
  {
    Max(0, ToNumber(value).GetOr(0))
  }

  /** The hint a command gives the player choice: a raise names the source to
      bring forward; every other command has none. */
  function CommandHint(action: string, value: JsValue): (h: Option<string>)
    ensures action != "raise" ==> h.None?
    ensures action == "raise" ==> h == CleanStr(value)
    ensures h.Some? ==> h.value != [] && Trim(h.value) == h.value
  {
    if action == "raise" then CleanStr(value) else None
  }

  /** The call a seek issues: an absolute jump on the track when a track id is
      known (the chosen player's, else the last one stored), otherwise a
      relative seek from the stored position. */
  function SeekCallFor(chosen: PlayerSnapshot, store: Store, target: int): (c: BusCall)
    ensures c.player == chosen.name
    ensures c.SetPositionCall? <==> chosen.trackId.Some? || store.mpris.trackId.Some?
    ensures c.SetPositionCall? ==> c.positionUs == target * 1000
    ensures c.SeekCall? ==> Max(0, store.mpris.positionMs) * 1000 + c.offsetUs == target * 1000
  {
    match chosen.trackId.OrElse(store.mpris.trackId)
    case Some(id) => SetPositionCall(chosen.name, id, target * 1000)
    case None => SeekCall(chosen.name, (target - Max(0, store.mpris.positionMs)) * 1000)
  }

  /** The snapshot of `chosen` after a successful seek to `target` at `now`. */
  function Seeked(chosen: PlayerSnapshot, target: int, now: int): (q: PlayerSnapshot)
    ensures q.name == chosen.name && q.playing == chosen.playing && q.trackId == chosen.trackId
    ensures q.title == chosen.title && q.durationMs == chosen.durationMs
    ensures q.positionMs == target && q.posBaseMs == target && q.posBaseTs == now && q.ts == now
    ensures 0 <= target && (q.durationMs <= 0 || target <= q.durationMs) ==> ProjectPosition(q, now) == target
    // every other field, the track included, is left as it was
    ensures q == chosen.(positionMs := q.positionMs, posBaseMs := q.posBaseMs, posBaseTs := q.posBaseTs, ts := q.ts)
  {
    chosen.(positionMs := target, posBaseMs := target, posBaseTs := now, ts := now)
  }

  /** What `execMprisCommand` does once `chosen` is picked. */
  function Dispatch(chosen: PlayerSnapshot, players: seq<PlayerSnapshot>, store: Store, action: string,
                    value: JsValue, now: int, canRaise: JsValue, callOk: bool): (r: ExecResult)
    ensures r.executed ==> r.call.Some? && callOk
    ensures r.call.Some? ==> r.call.value.player == chosen.name
    ensures action !in {"raise", "toggle", "next", "prev", "seek"} ==> !r.executed && r.call.None?
    ensures r.players != players ==> action == "seek" && r.executed
    ensures r.players == players || r.players == Upsert(players, Seeked(chosen, SeekTarget(value), now))
    ensures action == "raise" && VariantVal(canRaise) == Bool(false) ==> !r.executed && r.call.None?
    ensures action == "raise" && VariantVal(canRaise) != Bool(false) ==>
      r.call == Some(RaiseCall(chosen.name)) && r.executed == callOk
    ensures action == "toggle" ==> r.call == Some(PlayPauseCall(chosen.name)) && r.executed == callOk
    ensures action == "next" ==> r.call == Some(NextCall(chosen.name)) && r.executed == callOk
    ensures action == "prev" ==> r.call == Some(PreviousCall(chosen.name)) && r.executed == callOk
    ensures action == "seek" ==> && r.call == Some(SeekCallFor(chosen, store, SeekTarget(value)))
                                 && r.executed == callOk
                                 && (callOk ==> r.players == Upsert(players, Seeked(chosen, SeekTarget(value), now)))
  {
    if action == "raise" then
      if VariantVal(canRaise) == Bool(false) then ExecResult(false, None, players)
      else ExecResult(callOk, Some(RaiseCall(chosen.name)), players)
    else if action == "toggle" then ExecResult(callOk, Some(PlayPauseCall(chosen.name)), players)
    else if action == "next" then ExecResult(callOk, Some(NextCall(chosen.name)), players)
    else if action == "prev" then ExecResult(callOk, Some(PreviousCall(chosen.name)), players)
    else if action == "seek" then
      var target := SeekTarget(value);
      var call := SeekCallFor(chosen, store, target);
      if callOk then ExecResult(true, Some(call), Upsert(players, Seeked(chosen, target, now)))
      else ExecResult(false, Some(call), players)
    else ExecResult(false, None, players)
  }

  /** `execMprisCommand(action, value)` at `now`. `canRaise` is the reply to the
      `CanRaise` query (undefined when it failed) and `callOk` whether the bus
      call succeeded. Nothing is done before the bus is connected or when
      there is no player; only a successful seek changes a snapshot. */
  function Exec(b: BridgeState, store: Store, action: string, value: JsValue, now: int, cfg: Config,
                canRaise: JsValue, callOk: bool): (r: ExecResult)
    ensures r.executed ==> b.ok && |b.players| > 0 && r.call.Some? && callOk
    ensures r.call.Some? ==> (&& ChoosePlayer(b.players, CommandHint(action, value), now, cfg).Some?
                              && r.call.value.player == ChoosePlayer(b.players, CommandHint(action, value), now, cfg).value.name)
    ensures action !in {"raise", "toggle", "next", "prev", "seek"} ==> !r.executed && r.call.None?
    ensures r.players != b.players ==> action == "seek" && r.executed
    ensures !b.ok || |b.players| == 0 ==> !r.executed && r.call.None? && r.players == b.players
    ensures b.ok && |b.players| > 0 ==>
      r == Dispatch(ChoosePlayer(b.players, CommandHint(action, value), now, cfg).value, b.players, store,
                    action, value, now, canRaise, callOk)
  {
    if !b.ok then ExecResult(false, None, b.players)
    else
      match ChoosePlayer(b.players, CommandHint(action, value), now, cfg)
      case None => ExecResult(false, None, b.players)
      case Some(chosen) => Dispatch(chosen, b.players, store, action, value, now, canRaise, callOk)
  }

  /** Commands keep the player table keyed by name. */
  lemma ExecKeepsNamesUnique(b: BridgeState, store: Store, action: string, value: JsValue, now: int,
                             cfg: Config, canRaise: JsValue, callOk: bool)
    requires UniqueNames(b.players)
    ensures UniqueNames(Exec(b, store, action, value, now, cfg, canRaise, callOk).players)
  {
  }

  /** A successful seek lands the chosen player on the target: its snapshot
      holds the target as position and base, so the next sync reports the
      target (inside the duration) before any time has passed. */
  lemma SeekUpdatesChosen(b: BridgeState, store: Store, value: JsValue, now: int, cfg: Config, canRaise: JsValue)
    requires b.ok && |b.players| > 0
    ensures var r := Exec(b, store, "seek", value, now, cfg, canRaise, true);
      var chosen := ChoosePlayer(b.players, None, now, cfg).value;
      var q := Seeked(chosen, SeekTarget(value), now);
      && r.executed
      && q in r.players
      && q.positionMs == SeekTarget(value) && q.posBaseTs == now && q.ts == now
      && (q.durationMs <= 0 || SeekTarget(value) <= q.durationMs ==> ProjectPosition(q, now) == SeekTarget(value))
  {
    assert CommandHint("seek", value) == None;
    SeekLands(ChoosePlayer(b.players, None, now, cfg).value, b.players, store, value, now, canRaise);
  }

  lemma SeekLands(chosen: PlayerSnapshot, players: seq<PlayerSnapshot>, store: Store, value: JsValue,
                  now: int, canRaise: JsValue)
    ensures var r := Dispatch(chosen, players, store, "seek", value, now, canRaise, true);
      var q := Seeked(chosen, SeekTarget(value), now);
      && r.executed && q in r.players
      && (q.durationMs <= 0 || SeekTarget(value) <= q.durationMs ==> ProjectPosition(q, now) == SeekTarget(value))
  {
    var q := Seeked(chosen, SeekTarget(value), now);
    if q.durationMs <= 0 || SeekTarget(value) <= q.durationMs {
      ProjectionAtBase(q, now);
    }
  }

  /** Once the bus is up and a player exists, every known command except a
      refused raise issues its call and reports success exactly when the call
      succeeds. */
  lemma CallOutcomeDecides(b: BridgeState, store: Store, action: string, value: JsValue, now: int,
                           cfg: Config, canRaise: JsValue, callOk: bool)
    requires b.ok && |b.players| > 0
    requires action in {"toggle", "next", "prev", "seek"} || (action == "raise" && VariantVal(canRaise) != Bool(false))
    ensures var r := Exec(b, store, action, value, now, cfg, canRaise, callOk);
      r.call.Some? && r.executed == callOk
  {
    var chosen := ChoosePlayer(b.players, CommandHint(action, value), now, cfg).value;
    DispatchCalls(chosen, b.players, store, action, value, now, canRaise, callOk);
  }

  lemma DispatchCalls(chosen: PlayerSnapshot, players: seq<PlayerSnapshot>, store: Store, action: string,
                      value: JsValue, now: int, canRaise: JsValue, callOk: bool)
    requires action in {"toggle", "next", "prev", "seek"} || (action == "raise" && VariantVal(canRaise) != Bool(false))
    ensures var r := Dispatch(chosen, players, store, action, value, now, canRaise, callOk);
      r.call.Some? && r.executed == callOk
  {
  }

  /** A failed bus call reports failure and leaves every snapshot as it was. */
  lemma FailedCallChangesNothing(b: BridgeState, store: Store, action: string, value: JsValue, now: int,
                                 cfg: Config, canRaise: JsValue)
    ensures var r := Exec(b, store, action, value, now, cfg, canRaise, false);
      !r.executed && r.players == b.players
  {
  }

  /** A player that says it cannot be raised is not raised. */
  lemma NoRaiseWhenRefused(b: BridgeState, store: Store, value: JsValue, now: int, cfg: Config, callOk: bool)
    ensures var r := Exec(b, store, "raise", value, now, cfg, Wrap(Bool(false)), callOk);
      !r.executed && r.call.None?
  {
    VariantValUnwrapsOnce(Bool(false));
  }
}

/** The request handlers that tie the pieces together: a submitted command is
    recorded and handed to the bridge unless tamper suppression is on, and the
    now-playing reply combines the arbitration with the per-source listing. */
module Server {
  import opened Wrappers
  import opened JsValues
  import opened Settings
  import opened SourceStates
  import opened Arbitration
  import opened Players
  import opened Bridge
  import opened Commands

  /** The outcome of `POST /command`: refused for a blank action, else the new
      record, whether the bridge carried it out, the bus call it issued and the
      bridge's player table afterwards. */
  datatype SubmitResult =
    | Refused
    | Submitted(cmd: Command, executed: bool, call: Option<BusCall>, players: seq<PlayerSnapshot>)

  /** `POST /command` with body `b` at `now`. */
  function Submit(store: Store, bridge: BridgeState, cmd: Command, b: map<string, JsValue>, now: int,
                  cfg: Config, canRaise: JsValue, callOk: bool): (r: SubmitResult)
    ensures r.Refused? <==> Accept(cmd, b, now).None?
    ensures r.Submitted? ==> r.cmd.id == cmd.id + 1 && r.cmd == Accept(cmd, b, now).value
    ensures r.Submitted? && TamperFresh(store, now, cfg) ==>
      !r.executed && r.call.None? && r.players == bridge.players
    ensures r.Submitted? && r.executed ==> bridge.ok && r.call.Some? && callOk
  {
    match Accept(cmd, b, now)
    case None => Refused
    case Some(next) =>
      if TamperFresh(store, now, cfg) then Submitted(next, false, None, bridge.players)
      else
        var action := next.action.value;
        var e := Exec(bridge, store, action, next.value, now, cfg, canRaise, callOk);
        Submitted(next, e.executed, e.call, e.players)
  }

  /** Without tamper suppression a submitted command is exactly what the
      bridge makes of its trimmed action and value. */
  lemma SubmitExecutesWhenTrusted(store: Store, bridge: BridgeState, cmd: Command, b: map<string, JsValue>,
                                  now: int, cfg: Config, canRaise: JsValue, callOk: bool)
    requires !TamperFresh(store, now, cfg)
    requires Accept(cmd, b, now).Some?
    ensures var r := Submit(store, bridge, cmd, b, now, cfg, canRaise, callOk);
      var next := Accept(cmd, b, now).value;
      var e := Exec(bridge, store, next.action.value, next.value, now, cfg, canRaise, callOk);
      r == Submitted(next, e.executed, e.call, e.players)
  {
  }

  /** The `GET /nowplaying` reply: the arbitration and the per-source listing. */
  datatype NowPlayingReply = NowPlayingReply(picked: Pick, states: map<SourceKey, Option<SourceState>>)

  /** `GET /nowplaying`: the arbitration's pick together with the listing of
      every source. The active record is always listed under its own key, and
      while a trusted source is fresh the bridge is neither active nor listed. */
  function NowPlaying(store: Store, now: int, cfg: Config): (r: NowPlayingReply)
    ensures r.picked == PickActive(store, now, cfg) && r.states == Listing(store, now, cfg)
    ensures store.Wf() && r.picked.active.Some? ==>
      var a := r.picked.active.value;
      a.source in r.states && r.states[a.source] == Some(a)
    ensures TamperFresh(store, now, cfg) ==>
      && r.states[Mpris].None?
      && (r.picked.active.Some? ==> r.picked.active.value.source != Mpris)
  {
    ActiveIsListed(store, now, cfg);
    if TamperFresh(store, now, cfg) then
      TamperHidesBridge(store, now, cfg);
      NowPlayingReply(PickActive(store, now, cfg), Listing(store, now, cfg))
    else
      NowPlayingReply(PickActive(store, now, cfg), Listing(store, now, cfg))
  }

  /** The active record of a reply is always also listed under its own key:
      the reply never shows as active something it hides. */
  lemma ActiveIsListed(store: Store, now: int, cfg: Config)
    ensures var p := PickActive(store, now, cfg);
      var l := Listing(store, now, cfg);
      store.Wf() && p.active.Some? ==>
        var a := p.active.value;
        a.source in l && l[a.source] == Some(a)
  {
    var p := PickActive(store, now, cfg);
    var l := Listing(store, now, cfg);
    if store.Wf() && p.active.Some? {
      var a := p.active.value;
      assert Eligible(store, a, now, cfg);
      EntryUnderOwnKey(store, a);
      ListingHasEveryKey(store, now, cfg, a.source);
      if a.source == Mpris {
        assert !TamperFresh(store, now, cfg);
        assert l[Mpris].Some?;
      }
      assert l[a.source] == Some(store.Get(a.source));
    }
  }
}

/** The single-slot command register behind `POST /command` and
    `GET /command`: the last accepted command, with an id that counts the
    commands accepted so far, and a poll that only hands out newer ones. */
module Commands {
  import opened Wrappers
  import opened Strings
  import opened JsValues

  /** The `cmd` record. `action` is null only before the first command. */
  datatype Command = Command(id: nat, action: Option<string>, value: JsValue, ts: int)

  /** The register at start-up: id 0 and nothing in it. */
  function InitialCommand(): (c: Command)
    ensures c.id == 0 && c.action.None? && c.value == Null && c.ts == 0
  {
    Command(0, None, Null, 0)
  }

  /** `String(b.action || "").trim()`. */
  function ActionText(v: JsValue): (a: string)
    ensures a == [] || (!IsSpace(a[0]) && !IsSpace(a[|a| - 1]))
    ensures !Truthy(v) ==> a == []
    ensures Truthy(v) ==> (a == [] <==> AllSpace(ToStr(v)))
    ensures Truthy(v) ==> a == Trim(ToStr(v))
  {
    Trim(if Truthy(v) then ToStr(v) else "")
  }

  /** `b.value ?? null`. */
  function ValueOf(v: JsValue): (r: JsValue)
    ensures !IsNullish(r)  || r == Null
    ensures !IsNullish(v) ==> r == v
  {
    if IsNullish(v) then Null else v
  }

  /** `POST /command` with body `b` at `now`: a blank action is refused (the
      400 reply, `None`); anything else replaces the record by one whose id is
      one more than the last. */
  function Accept(cmd: Command, b: map<string, JsValue>, now: int): (r: Option<Command>)
    ensures r.None? <==> ActionText(Field(b, "action")) == []
    ensures r.Some? ==> r.value.id == cmd.id + 1 && r.value.ts == now
    ensures r.Some? ==> r.value.action.Some? && r.value.action.value != []
                        && Trim(r.value.action.value) == r.value.action.value
    ensures r.Some? ==> r.value.value == ValueOf(Field(b, "value"))
    ensures r.Some? ==> r.value.action == Some(ActionText(Field(b, "action")))
  {
    var action := ActionText(Field(b, "action"));
    if action == [] then None
    else
      TrimUnpadded(action);
      Some(Command(cmd.id + 1, Some(action), ValueOf(Field(b, "value")), now))
  }

  /** `Number(req.query.since || 0)`; `None` is NaN. */
  function SinceOf(q: JsValue): Option<int> {
    if Truthy(q) then ToNumber(q) else Some(0)
  }

  /** `GET /command?since=q`: the record when its id is greater than `since`,
      else no content (`None`). A `since` that is not a number compares false
      and so hands out the record. */
  function Poll(cmd: Command, q: JsValue): (r: Option<Command>)
    ensures r.Some? ==> r.value == cmd
    ensures r.None? <==> SinceOf(q).Some? && cmd.id <= SinceOf(q).value
  {
    match SinceOf(q)
    case None => Some(cmd)
    case Some(since) => if cmd.id <= since then None else Some(cmd)
  }

  /** Polling with the decimal text of a number, as a query string carries it,
      returns the record exactly when its id is greater. */
  lemma PollWithDecimal(cmd: Command, n: int)
    ensures Poll(cmd, Str(IntToDecimal(n))).Some? <==> cmd.id > n
  {
    NumberOfDecimal(n);
    if n == 0 {
      assert IntToDecimal(0) == "0";
    }
  }

  /** A poller that remembers the id it last saw gets every later command once:
      the command just accepted is returned to a poller that saw the previous
      one, and not again once its own id has been seen. */
  lemma PollSeesEachCommandOnce(cmd: Command, b: map<string, JsValue>, now: int)
    requires Accept(cmd, b, now).Some?
    ensures Poll(Accept(cmd, b, now).value, Num(cmd.id)) == Accept(cmd, b, now)
    ensures Poll(Accept(cmd, b, now).value, Num(cmd.id + 1)).None?
  {
  }

  /** The request bodies a sequence of `POST /command` calls carry. */
  datatype Request = Request(body: map<string, JsValue>, now: int)

  predicate Acceptable(r: Request) {
    ActionText(Field(r.body, "action")) != []
  }

  /** How many of `reqs` carry an action. */
  function CountAcceptable(reqs: seq<Request>): (n: nat)
    ensures n <= |reqs|
  {
    if |reqs| == 0 then 0
    else CountAcceptable(reqs[..|reqs| - 1]) + (if Acceptable(reqs[|reqs| - 1]) then 1 else 0)
  }

  lemma CountStep(reqs: seq<Request>, i: nat)
    requires i < |reqs|
    ensures CountAcceptable(reqs[..i + 1]) == CountAcceptable(reqs[..i]) + (if Acceptable(reqs[i]) then 1 else 0)
  {
    assert reqs[..i + 1][..i] == reqs[..i];
  }

  /** The register after one request: the accepted command, or none. */
  function Handle(last: Command, r: Request): (next: Option<Command>)
    ensures next.Some? <==> Acceptable(r)
    ensures next.Some? ==> next.value.id == last.id + 1
  {
    Accept(last, r.body, r.now)
  }

  /** Handles `reqs` in order. Each accepted command gets the next id: the ids
      handed out are `cmd.id + 1, cmd.id + 2, ...` without gaps, one per
      request that carries an action, and the register ends at the last. */
  method AcceptAll(cmd: Command, reqs: seq<Request>) returns (last: Command, ids: seq<nat>)
    ensures |ids| == CountAcceptable(reqs)
    ensures forall j :: 0 <= j < |ids| ==> ids[j] == cmd.id + j + 1
    ensures last.id == cmd.id + |ids|
  {
    last := cmd;
    ids := [];
    var i := 0;
    while i < |reqs|
      invariant 0 <= i <= |reqs|
      invariant |ids| == CountAcceptable(reqs[..i])
      invariant forall j :: 0 <= j < |ids| ==> ids[j] == cmd.id + j + 1
      invariant last.id == cmd.id + |ids|
    {
      CountStep(reqs, i);
      var next := Handle(last, reqs[i]);
      if next.Some? {
        last := next.value;
        ids := ids + [last.id];
      }
      i := i + 1;
    }
    assert reqs[..|reqs|] == reqs;
  }
}

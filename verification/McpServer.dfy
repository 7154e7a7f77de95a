/** JSON-RPC dispatch of the MCP server (src-tauri/src/mcp/server.rs, src-tauri/src/mcp/auth.rs).
 *
 *  A request is handled in up to three steps, separated by the points where the handler waits:
 *  it arrives and is authorized, it passes the rate limiter and the scope check, and, when it
 *  runs a tool, the tool's body finishes. Steps of different requests interleave freely.
 */
module McpServer {
  import opened Wrappers
  import opened Windows
  import opened RateLimiting
  import Decimal

  datatype McpScope = DbList | DbRead | DbWrite | IdeRead | IdeWrite

  datatype Client = Client(id: string, name: string, scopes: seq<McpScope>, lastUsedAt: Option<string>)

  datatype McpError =
    | Disabled
    | AlreadyRunning(port: nat)
    | Transport(message: string)
    | AuthDenied(message: string)
    | NotAuthorized(message: string)
    | ToolNotFound(name: string)
    | InvalidArgs(message: string)
    | WriteRejected
    | ScopeInsufficient(required: McpScope, granted: seq<McpScope>)
    | RateLimited(limit: nat)
    | Io(message: string)
    | Internal(message: string)
  {
    /** The JSON-RPC error code, negated. */
    function RpcCode(): nat {
      match this
      case ToolNotFound(_) => 32601
      case InvalidArgs(_) => 32602
      case NotAuthorized(_) => 32001
      case AuthDenied(_) => 32001
      case ScopeInsufficient(_, _) => 32002
      case WriteRejected => 32003
      case RateLimited(_) => 32004
      case Disabled => 32005
      case AlreadyRunning(_) => 32005
      case _ => 32000
    }
  }

  datatype Params = Params(name: Option<string>, arguments: Option<string>, uri: Option<string>)

  datatype Request = Request(jsonrpc: string, verb: string, params: Option<Params>)

  datatype Value = ServerInfo | Pong | Tools(names: set<string>) | Resources | Contents(text: string) | Output(text: string)

  type Reply = Result<Value, McpError>

  /** What is fixed for the life of a server: the token hash and each tool's required scope. */
  datatype Config = Config(hash: string -> string, registry: map<string, McpScope>)

  /** How far a request has come. */
  datatype Stage =
    | Authorized(client: Client, verb: string, params: Params)
    | Running(client: Client, tool: string)

  /** What got past the limiter and the checks. */
  datatype Served =
    | Tool(call: nat, client: Client, tool: string, scope: McpScope, at: int)
    | Resource(call: nat, client: Client, at: int)

  datatype AuditEntry = AuditEntry(
    timestamp: string, clientId: string, clientName: string, tool: string, status: string, durationMs: nat)

  /** `issued` and `served` are a record of what happened; nothing is decided from them. Calls
   *  are numbered in order of arrival, and audit entries carry their call's number. */
  datatype State = State(
    clients: map<string, Client>,
    history: map<string, seq<int>>,
    clock: int,
    next: nat,
    stages: map<nat, Stage>,
    audit: seq<(nat, AuditEntry)>,
    issued: set<(string, seq<McpScope>)>,
    served: seq<Served>)
  {
    function Accepted(id: string): seq<int> {
      AcceptedIn(history, id)
    }
  }

  const INIT: State := State(map[], map[], 0, 0, map[], [], {}, [])

  // ---------------------------------------------------------------------------
  // Steps.
  // ---------------------------------------------------------------------------

  datatype Event =
    | Issue(token: string, id: string, name: string, scopes: seq<McpScope>)
    | Revoke(id: string)
    | Arrive(bearer: Option<string>, request: Request, lookupError: Option<string>, touched: Option<string>)
    | Admit(call: nat, now: int, contents: Result<string, McpError>)
    | Finish(call: nat, outcome: Result<string, McpError>, timestamp: string, durationMs: nat)

  predicate Enabled(s: State, e: Event) {
    match e
    case Admit(call, now, _) => call in s.stages && s.stages[call].Authorized? && s.clock <= now
    case Finish(call, _, _, _) => call in s.stages && s.stages[call].Running?
    case _ => true
  }

  function WithoutClient(clients: map<string, Client>, id: string): map<string, Client> {
    map h | h in clients && clients[h].id != id :: clients[h]
  }

  /** `authorize_request`: the client found by the token's hash. */
  function Authorize(cfg: Config, clients: map<string, Client>, bearer: Option<string>, lookupError: Option<string>)
    : Result<Client, McpError>
  {
    match bearer
    case None => Err(NotAuthorized("missing Authorization Bearer header"))
    case Some(token) =>
      if lookupError.Some? then Err(Internal(lookupError.value))
      else if cfg.hash(token) in clients then Ok(clients[cfg.hash(token)])
      else Err(NotAuthorized("token not recognized"))
  }

  /** `touch_last_used`, which may fail without consequence. */
  function Touch(clients: map<string, Client>, id: string, touched: Option<string>): map<string, Client> {
    if touched.None? then clients
    else map h | h in clients :: (if clients[h].id == id then clients[h].(lastUsedAt := touched) else clients[h])
  }

  function RequireScope(client: Client, required: McpScope): Result<(), McpError> {
    if required in client.scopes then Ok(()) else Err(ScopeInsufficient(required, client.scopes))
  }

  function Arrival(cfg: Config, s: State, bearer: Option<string>, request: Request,
                   lookupError: Option<string>, touched: Option<string>): (State, Option<Reply>)
  {
    var s := s.(next := s.next + 1);
    var call := s.next - 1;
    if request.jsonrpc != "2.0" then (s, Some(Err(InvalidArgs("unsupported jsonrpc version: " + request.jsonrpc))))
    else if request.verb == "initialize" then (s, Some(Ok(ServerInfo)))
    else if request.verb == "ping" then (s, Some(Ok(Pong)))
    else if request.verb == "tools/list" then (s, Some(Ok(Tools(cfg.registry.Keys))))
    else if request.verb == "resources/list" then (s, Some(Ok(Resources)))
    else if request.verb == "tools/call" || request.verb == "resources/read" then
      match Authorize(cfg, s.clients, bearer, lookupError)
      case Err(e) => (s, Some(Err(e)))
      case Ok(client) =>
        var params := if request.params.Some? then request.params.value else Params(None, None, None);
        (s.(clients := Touch(s.clients, client.id, touched),
            stages := s.stages[call := Authorized(client, request.verb, params)]), None)
    else (s, Some(Err(ToolNotFound("method `" + request.verb + "`"))))
  }

  /** Whether an admitted request may go on to run its tool. */
  function CheckTool(cfg: Config, client: Client, params: Params): Result<string, McpError> {
    if params.name.None? then Err(InvalidArgs("missing tool name"))
    else
      var tool := params.name.value;
      if tool !in cfg.registry then Err(ToolNotFound(tool))
      else match RequireScope(client, cfg.registry[tool])
           case Ok(_) => Ok(tool)
           case Err(e) => Err(e)
  }

  function CheckResource(client: Client, params: Params): Result<string, McpError> {
    match RequireScope(client, DbRead)
    case Err(e) => Err(e)
    case Ok(_) => if params.uri.None? then Err(InvalidArgs("missing field 'uri'")) else Ok(params.uri.value)
  }

  function Admission(cfg: Config, s: State, call: nat, now: int, contents: Result<string, McpError>)
    : (State, Option<Reply>)
    requires call in s.stages && s.stages[call].Authorized?
  {
    var Authorized(client, verb, params) := s.stages[call];
    var ok := Admits(s.Accepted(client.id), now);
    var s := s.(history := s.history[client.id := Record(s.Accepted(client.id), now)],
                clock := now,
                stages := s.stages - {call});
    if !ok then (s, Some(Err(RateLimited(RATE_LIMIT_PER_SEC))))
    else if verb == "tools/call" then
      match CheckTool(cfg, client, params)
      case Err(e) => (s, Some(Err(e)))
      case Ok(tool) =>
        (s.(stages := s.stages[call := Running(client, tool)],
            served := s.served + [Tool(call, client, tool, cfg.registry[tool], now)]), None)
    else
      match CheckResource(client, params)
      case Err(e) => (s, Some(Err(e)))
      case Ok(uri) =>
        (s.(served := s.served + [Resource(call, client, now)]),
         Some(match contents case Ok(text) => Ok(Contents(text)) case Err(e) => Err(e)))
  }

  function Status(outcome: Result<string, McpError>): string {
    match outcome
    case Ok(_) => "ok"
    case Err(e) => "err:-" + Decimal.Print(e.RpcCode())
  }

  function Finishing(s: State, call: nat, outcome: Result<string, McpError>, timestamp: string, durationMs: nat)
    : (State, Option<Reply>)
    requires call in s.stages && s.stages[call].Running?
  {
    var Running(client, tool) := s.stages[call];
    var entry := AuditEntry(timestamp, client.id, client.name, tool, Status(outcome), durationMs);
    (s.(stages := s.stages - {call}, audit := s.audit + [(call, entry)]),
     Some(match outcome case Ok(text) => Ok(Output(text)) case Err(e) => Err(e)))
  }

  function Step(cfg: Config, s: State, e: Event): (State, Option<Reply>)
    requires Enabled(s, e)
  {
    match e
    case Issue(token, id, name, scopes) =>
      if cfg.hash(token) in s.clients || (exists h :: h in s.clients && s.clients[h].id == id) then (s, None)
      else (s.(clients := s.clients[cfg.hash(token) := Client(id, name, scopes, None)],
               issued := s.issued + {(id, scopes)}), None)
    case Revoke(id) =>
      (s.(clients := WithoutClient(s.clients, id)),
       if exists h :: h in s.clients && s.clients[h].id == id then None else Some(Err(NotAuthorized(id))))
    case Arrive(bearer, request, lookupError, touched) => Arrival(cfg, s, bearer, request, lookupError, touched)
    case Admit(call, now, contents) => Admission(cfg, s, call, now, contents)
    case Finish(call, outcome, timestamp, durationMs) => Finishing(s, call, outcome, timestamp, durationMs)
  }

  /** A run: every event is enabled when it happens. */
  ghost predicate IsRun(cfg: Config, trace: seq<State>, events: seq<Event>) {
    && |trace| == |events| + 1
    && trace[0] == INIT
    && forall i :: 0 <= i < |events| ==> Enabled(trace[i], events[i]) && trace[i + 1] == Step(cfg, trace[i], events[i]).0
  }

  // ---------------------------------------------------------------------------
  // What every reachable state satisfies.
  // ---------------------------------------------------------------------------

  function RunningCalls(s: State): set<nat> {
    set call | call in s.stages && s.stages[call].Running?
  }

  function ToolRuns(served: seq<Served>): nat {
    if served == [] then 0
    else ToolRuns(served[..|served| - 1]) + (if served[|served| - 1].Tool? then 1 else 0)
  }

  /** How many requests of client `id` got through in the closed interval from `lo` to `hi`. */
  function ServedIn(served: seq<Served>, id: string, lo: int, hi: int): nat {
    if served == [] then 0
    else
      var last := served[|served| - 1];
      ServedIn(served[..|served| - 1], id, lo, hi)
      + (if last.client.id == id && lo <= last.at <= hi then 1 else 0)
  }

  ghost predicate Histories(history: map<string, seq<int>>, clock: int) {
    forall id :: id in history ==> History(history[id], clock)
  }

  ghost predicate RateInv(s: State) {
    && Histories(s.history, s.clock)
    && (forall id, lo, hi :: ServedIn(s.served, id, lo, hi) <= CountIn(s.Accepted(id), lo, hi))
  }

  predicate Grants(issued: set<(string, seq<McpScope>)>, client: Client) {
    (client.id, client.scopes) in issued
  }

  predicate ServedRightly(cfg: Config, issued: set<(string, seq<McpScope>)>, served: Served) {
    && Grants(issued, served.client)
    && (match served
        case Tool(_, client, tool, scope, _) =>
          tool in cfg.registry && scope == cfg.registry[tool] && scope in client.scopes
        case Resource(_, client, _) => DbRead in client.scopes)
  }

  ghost predicate ScopeInv(cfg: Config, s: State) {
    && (forall h :: h in s.clients ==> Grants(s.issued, s.clients[h]))
    && (forall call :: call in s.stages ==> Grants(s.issued, s.stages[call].client))
    && (forall i :: 0 <= i < |s.served| ==> ServedRightly(cfg, s.issued, s.served[i]))
  }

  /** The audit entry of a call names the client and the tool of that call's run. */
  predicate Records(served: Served, call: nat, entry: AuditEntry) {
    && served.Tool? && served.call == call && entry.tool == served.tool
    && entry.clientId == served.client.id && entry.clientName == served.client.name
  }

  predicate Recorded(served: seq<Served>, call: nat, entry: AuditEntry) {
    exists i :: 0 <= i < |served| && Records(served[i], call, entry)
  }

  ghost predicate AuditInv(s: State) {
    && (forall call :: call in s.stages ==> call < s.next)
    && (forall k :: 0 <= k < |s.audit| ==> s.audit[k].0 < s.next && s.audit[k].0 !in s.stages)
    && (forall j, k :: 0 <= j < k < |s.audit| ==> s.audit[j].0 != s.audit[k].0)
    && (forall k :: 0 <= k < |s.audit| ==> Recorded(s.served, s.audit[k].0, s.audit[k].1))
    && (forall call :: call in s.stages && s.stages[call].Running? ==> Ran(s.served, call, s.stages[call]))
    && ToolRuns(s.served) == |s.audit| + |RunningCalls(s)|
  }

  predicate IsRunOf(served: Served, call: nat, stage: Stage) {
    stage.Running? && served.Tool? && served.call == call && served.client == stage.client && served.tool == stage.tool
  }

  predicate Ran(served: seq<Served>, call: nat, stage: Stage) {
    exists i :: 0 <= i < |served| && IsRunOf(served[i], call, stage)
  }

  // ---------------------------------------------------------------------------
  // Rate.
  // ---------------------------------------------------------------------------

  lemma ServedSnoc(served: seq<Served>, last: Served, id: string, lo: int, hi: int)
    ensures ServedIn(served + [last], id, lo, hi)
         == ServedIn(served, id, lo, hi) + (if last.client.id == id && lo <= last.at <= hi then 1 else 0)
  {
    assert (served + [last])[..|served|] == served;
  }

  /** Only an admitted request gets through, and it does so at the admission's instant. */
  lemma AdmissionEffect(cfg: Config, s: State, call: nat, now: int, contents: Result<string, McpError>)
    requires call in s.stages && s.stages[call].Authorized?
    ensures var t := Admission(cfg, s, call, now, contents).0; var client := s.stages[call].client;
            && t.history == s.history[client.id := Record(s.Accepted(client.id), now)]
            && t.clock == now
            && (t.served == s.served
                || (Admits(s.Accepted(client.id), now)
                    && |t.served| == |s.served| + 1
                    && t.served == s.served + [t.served[|s.served|]]
                    && t.served[|s.served|].client == client && t.served[|s.served|].at == now))
  {
  }

  lemma HistoryAfter(history: map<string, seq<int>>, id: string, accepted: seq<int>, clock: int, now: int)
    requires Histories(history, clock) && clock <= now && History(accepted, now)
    ensures Histories(history[id := accepted], now)
  {
    forall other | other in history ensures History(history[other], now) {
      LaterClock(history[other], clock, now);
    }
  }

  lemma AdmissionKeepsRate(cfg: Config, s: State, call: nat, now: int, contents: Result<string, McpError>)
    requires RateInv(s) && call in s.stages && s.stages[call].Authorized? && s.clock <= now
    ensures RateInv(Admission(cfg, s, call, now, contents).0)
  {
    hide Admission, Admits, History;
    var t := Admission(cfg, s, call, now, contents).0;
    var client := s.stages[call].client;
    AdmissionEffect(cfg, s, call, now, contents);
    EmptyHistory(s.clock);
    RecordKeepsHistory(s.Accepted(client.id), s.clock, now);
    HistoryAfter(s.history, client.id, Record(s.Accepted(client.id), now), s.clock, now);
    hide Record, CountIn, ServedIn;
    forall id, lo, hi ensures ServedIn(t.served, id, lo, hi) <= CountIn(t.Accepted(id), lo, hi) {
      assert ServedIn(s.served, id, lo, hi) <= CountIn(s.Accepted(id), lo, hi);
      OneMoreServed(s, t, client, now, id, lo, hi);
    }
  }

  lemma OneMoreServed(s: State, t: State, client: Client, now: int, id: string, lo: int, hi: int)
    requires ServedIn(s.served, id, lo, hi) <= CountIn(s.Accepted(id), lo, hi)
    requires t.history == s.history[client.id := Record(s.Accepted(client.id), now)]
    requires t.served == s.served
             || (Admits(s.Accepted(client.id), now)
                 && |t.served| == |s.served| + 1
                 && t.served == s.served + [t.served[|s.served|]]
                 && t.served[|s.served|].client == client && t.served[|s.served|].at == now)
    ensures ServedIn(t.served, id, lo, hi) <= CountIn(t.Accepted(id), lo, hi)
  {
    hide Admits, CountIn, ServedIn;
    CountInSnoc(s.Accepted(client.id), now, lo, hi);
    if t.served != s.served {
      ServedSnoc(s.served, t.served[|s.served|], id, lo, hi);
    }
  }

  lemma EmptyHistory(clock: int)
    ensures History([], clock)
  {
  }

  lemma StepKeepsRate(cfg: Config, s: State, e: Event)
    requires RateInv(s) && Enabled(s, e)
    ensures RateInv(Step(cfg, s, e).0)
  {
    if e.Admit? {
      AdmissionKeepsRate(cfg, s, e.call, e.now, e.contents);
    } else {
      hide History, Authorize, Touch;
      var t := Step(cfg, s, e).0;
      assert t.history == s.history && t.served == s.served && t.clock == s.clock;
      assert forall id :: t.Accepted(id) == s.Accepted(id);
    }
  }

  // ---------------------------------------------------------------------------
  // Scope.
  // ---------------------------------------------------------------------------

  lemma AdmissionKeepsScope(cfg: Config, s: State, call: nat, now: int, contents: Result<string, McpError>)
    requires ScopeInv(cfg, s) && call in s.stages && s.stages[call].Authorized?
    ensures ScopeInv(cfg, Admission(cfg, s, call, now, contents).0)
  {
    hide Admits, Record;
  }

  lemma ArrivalKeepsScope(cfg: Config, s: State, bearer: Option<string>, request: Request,
                          lookupError: Option<string>, touched: Option<string>)
    requires ScopeInv(cfg, s)
    ensures ScopeInv(cfg, Arrival(cfg, s, bearer, request, lookupError, touched).0)
  {
    hide ServedRightly;
  }

  lemma IssueKeepsScope(cfg: Config, s: State, e: Event)
    requires ScopeInv(cfg, s) && Enabled(s, e) && e.Issue?
    ensures ScopeInv(cfg, Step(cfg, s, e).0)
  {
    var t := Step(cfg, s, e).0;
    assert s.issued <= t.issued;
    forall i | 0 <= i < |s.served| ensures ServedRightly(cfg, t.issued, s.served[i]) {
      assert ServedRightly(cfg, s.issued, s.served[i]);
    }
  }

  lemma StepKeepsScope(cfg: Config, s: State, e: Event)
    requires ScopeInv(cfg, s) && Enabled(s, e)
    ensures ScopeInv(cfg, Step(cfg, s, e).0)
  {
    hide Arrival, Admission, ServedRightly, Grants, Status;
    match e
    case Issue(_, _, _, _) => IssueKeepsScope(cfg, s, e);
    case Arrive(bearer, request, lookupError, touched) =>
      ArrivalKeepsScope(cfg, s, bearer, request, lookupError, touched);
    case Admit(call, now, contents) => AdmissionKeepsScope(cfg, s, call, now, contents);
    case _ =>
  }

  // ---------------------------------------------------------------------------
  // Audit.
  // ---------------------------------------------------------------------------

  lemma ToolRunsSnoc(served: seq<Served>, last: Served)
    ensures ToolRuns(served + [last]) == ToolRuns(served) + (if last.Tool? then 1 else 0)
  {
    assert (served + [last])[..|served|] == served;
  }

  /** What an admission does to the books: nothing, or one more resource read, or one more run. */
  lemma AdmissionBooks(cfg: Config, s: State, call: nat, now: int, contents: Result<string, McpError>)
    requires call in s.stages && s.stages[call].Authorized?
    ensures var t := Admission(cfg, s, call, now, contents).0; var client := s.stages[call].client;
            && t.next == s.next && t.audit == s.audit
            && ((t.stages == s.stages - {call} && t.served == s.served)
                || (t.stages == s.stages - {call} && t.served == s.served + [Resource(call, client, now)])
                || exists tool, scope ::
                     && t.stages == s.stages[call := Running(client, tool)]
                     && t.served == s.served + [Tool(call, client, tool, scope, now)])
  {
    hide Admits, Record, CheckResource;
    var Authorized(client, verb, params) := s.stages[call];
    match CheckTool(cfg, client, params) {
      case Ok(tool) =>
        assert (s.stages - {call})[call := Running(client, tool)] == s.stages[call := Running(client, tool)];
      case Err(_) =>
    }
  }

  lemma OneMoreRunning(s: State, t: State, call: nat)
    requires call in s.stages && s.stages[call].Authorized?
    requires call in t.stages && t.stages[call].Running? && t.stages == s.stages[call := t.stages[call]]
    ensures |RunningCalls(t)| == |RunningCalls(s)| + 1
  {
    assert RunningCalls(t) == RunningCalls(s) + {call};
  }

  lemma RunKeepsAudit(s: State, t: State, call: nat, last: Served)
    requires AuditInv(s) && call in s.stages && s.stages[call].Authorized?
    requires t.next == s.next && t.audit == s.audit && t.served == s.served + [last]
    requires call in t.stages && t.stages == s.stages[call := t.stages[call]] && IsRunOf(last, call, t.stages[call])
    ensures AuditInv(t)
  {
    ToolRunsSnoc(s.served, last);
    StillThere(s.served, [last]);
    assert IsRunOf(t.served[|s.served|], call, t.stages[call]);
    assert Ran(t.served, call, t.stages[call]);
    OneMoreRunning(s, t, call);
    hide Recorded, Ran, IsRunOf, ToolRuns, RunningCalls;
  }

  lemma NoRunKeepsAudit(s: State, t: State, call: nat, more: seq<Served>)
    requires AuditInv(s) && call in s.stages && s.stages[call].Authorized?
    requires t.next == s.next && t.audit == s.audit && t.stages == s.stages - {call}
    requires t.served == s.served + more && ToolRuns(t.served) == ToolRuns(s.served)
    ensures AuditInv(t)
  {
    StillThere(s.served, more);
    hide Recorded, Ran;
    assert RunningCalls(t) == RunningCalls(s);
  }

  lemma AdmissionKeepsAudit(cfg: Config, s: State, call: nat, now: int, contents: Result<string, McpError>)
    requires AuditInv(s) && call in s.stages && s.stages[call].Authorized?
    ensures AuditInv(Admission(cfg, s, call, now, contents).0)
  {
    AdmissionBooks(cfg, s, call, now, contents);
    var t := Admission(cfg, s, call, now, contents).0;
    hide Admission, AuditInv;
    if t.served == s.served {
      NoRunKeepsAudit(s, t, call, []);
    } else {
      var last := t.served[|s.served|];
      ToolRunsSnoc(s.served, last);
      if last.Tool? {
        RunKeepsAudit(s, t, call, last);
      } else {
        NoRunKeepsAudit(s, t, call, [last]);
      }
    }
  }

  /** Witnesses among the served requests survive when more are served. */
  lemma StillThere(served: seq<Served>, more: seq<Served>)
    ensures forall call, entry :: Recorded(served, call, entry) ==> Recorded(served + more, call, entry)
    ensures forall call, stage :: Ran(served, call, stage) ==> Ran(served + more, call, stage)
  {
    forall call, entry | Recorded(served, call, entry) ensures Recorded(served + more, call, entry) {
      var i :| 0 <= i < |served| && Records(served[i], call, entry);
      assert (served + more)[i] == served[i];
    }
    forall call, stage | Ran(served, call, stage) ensures Ran(served + more, call, stage) {
      var i :| 0 <= i < |served| && IsRunOf(served[i], call, stage);
      assert (served + more)[i] == served[i];
    }
  }

  lemma FinishingKeepsAudit(s: State, call: nat, outcome: Result<string, McpError>, timestamp: string, durationMs: nat)
    requires AuditInv(s) && call in s.stages && s.stages[call].Running?
    ensures AuditInv(Finishing(s, call, outcome, timestamp, durationMs).0)
  {
    hide Status;
    var t := Finishing(s, call, outcome, timestamp, durationMs).0;
    var n := |s.audit|;
    assert RunningCalls(t) == RunningCalls(s) - {call};
    var i :| 0 <= i < |s.served| && IsRunOf(s.served[i], call, s.stages[call]);
    assert Records(t.served[i], t.audit[n].0, t.audit[n].1);
  }

  lemma ArrivalKeepsAudit(cfg: Config, s: State, bearer: Option<string>, request: Request,
                          lookupError: Option<string>, touched: Option<string>)
    requires AuditInv(s)
    ensures AuditInv(Arrival(cfg, s, bearer, request, lookupError, touched).0)
  {
    hide Authorize, Touch;
    var t := Arrival(cfg, s, bearer, request, lookupError, touched).0;
    assert RunningCalls(t) == RunningCalls(s);
  }

  lemma StepKeepsAudit(cfg: Config, s: State, e: Event)
    requires AuditInv(s) && Enabled(s, e)
    ensures AuditInv(Step(cfg, s, e).0)
  {
    match e
    case Admit(call, now, contents) => AdmissionKeepsAudit(cfg, s, call, now, contents);
    case Finish(call, outcome, timestamp, durationMs) => FinishingKeepsAudit(s, call, outcome, timestamp, durationMs);
    case Arrive(bearer, request, lookupError, touched) =>
      ArrivalKeepsAudit(cfg, s, bearer, request, lookupError, touched);
    case _ =>
      var t := Step(cfg, s, e).0;
      assert RunningCalls(t) == RunningCalls(s);
  }

  // ---------------------------------------------------------------------------
  // The claims, over every run.
  // ---------------------------------------------------------------------------

  lemma {:induction false} RunKeepsInvariants(cfg: Config, trace: seq<State>, events: seq<Event>, n: nat)
    requires IsRun(cfg, trace, events) && n <= |events|
    ensures RateInv(trace[n]) && ScopeInv(cfg, trace[n]) && AuditInv(trace[n])
  {
    if n == 0 {
      assert RunningCalls(INIT) == {};
    } else {
      RunKeepsInvariants(cfg, trace, events, n - 1);
      hide RateInv, ScopeInv, AuditInv, Step;
      var s, e := trace[n - 1], events[n - 1];
      assert Enabled(s, e) && trace[n] == Step(cfg, s, e).0;
      StepKeepsRate(cfg, s, e);
      StepKeepsScope(cfg, s, e);
      StepKeepsAudit(cfg, s, e);
    }
  }

  /** In every run each client gets at most ten tool calls and resource reads through in any
   *  closed one-second interval (past the clock's first second). */
  lemma AtMostTenServedPerSecond(cfg: Config, trace: seq<State>, events: seq<Event>, id: string, lo: int)
    requires IsRun(cfg, trace, events) && lo >= RATE_WINDOW
    ensures ServedIn(trace[|events|].served, id, lo, lo + RATE_WINDOW) <= RATE_LIMIT_PER_SEC
  {
    RunKeepsInvariants(cfg, trace, events, |events|);
    var s := trace[|events|];
    assert History(s.Accepted(id), s.clock) by { EmptyHistory(s.clock); }
    AtMostTenPerSecond(s.Accepted(id), s.clock, lo);
    assert ServedIn(s.served, id, lo, lo + RATE_WINDOW) <= CountIn(s.Accepted(id), lo, lo + RATE_WINDOW);
  }

  /** A token just issued authorizes its client, with the scopes granted, and no other token's
   *  standing changes. */
  lemma IssuedTokenWorks(cfg: Config, s: State, token: string, id: string, name: string, scopes: seq<McpScope>,
                         bearer: string)
    requires cfg.hash(token) !in s.clients && forall h :: h in s.clients ==> s.clients[h].id != id
    ensures var t := Step(cfg, s, Issue(token, id, name, scopes)).0;
            && Authorize(cfg, t.clients, Some(token), None) == Ok(Client(id, name, scopes, None))
            && (cfg.hash(bearer) != cfg.hash(token) ==>
                  Authorize(cfg, t.clients, Some(bearer), None) == Authorize(cfg, s.clients, Some(bearer), None))
  {
  }

  /** After a client is revoked no token is its own any more, and every other client's still works.
   *  Revoking an unknown id changes nothing and is refused. */
  lemma RevokedTokenFails(cfg: Config, s: State, id: string, bearer: string)
    ensures var (t, reply) := Step(cfg, s, Revoke(id));
            && (reply == Some(Err(NotAuthorized(id))) <==> forall h :: h in s.clients ==> s.clients[h].id != id)
            && (reply.Some? ==> t == s)
    ensures var before := Authorize(cfg, s.clients, Some(bearer), None);
            Authorize(cfg, Step(cfg, s, Revoke(id)).0.clients, Some(bearer), None)
            == if before.Ok? && before.value.id == id then Err(NotAuthorized("token not recognized")) else before
  {
    if forall h :: h in s.clients ==> s.clients[h].id != id {
      assert WithoutClient(s.clients, id) == s.clients;
    }
  }

  /** A request gets past authorization exactly when it is a tool call or a resource read in the
   *  right protocol version whose token's hash is in the table; any other leaves no trace. */
  lemma AuthorizedExactlyIfKnown(cfg: Config, s: State, bearer: Option<string>, request: Request,
                                 lookupError: Option<string>, touched: Option<string>)
    requires s.next !in s.stages
    ensures var (t, reply) := Arrival(cfg, s, bearer, request, lookupError, touched);
            && t.audit == s.audit && t.served == s.served && t.history == s.history
            && (reply.None? <==> t.stages != s.stages)
            && (s.next in t.stages <==>
                  && request.jsonrpc == "2.0" && request.verb in {"tools/call", "resources/read"}
                  && bearer.Some? && lookupError.None? && cfg.hash(bearer.value) in s.clients)
            && (s.next in t.stages ==> t.stages[s.next].client == s.clients[cfg.hash(bearer.value)])
  {
  }

  /** Past authorization, a tool is run exactly when the limiter admits the request and it names
   *  a registered tool whose scope the client has; a resource is read exactly when the limiter
   *  admits the request, the client may read and a resource is named. */
  lemma ServedExactly(cfg: Config, s: State, call: nat, now: int, contents: Result<string, McpError>)
    requires call in s.stages && s.stages[call].Authorized?
    ensures var (t, reply) := Admission(cfg, s, call, now, contents);
            var Authorized(client, verb, params) := s.stages[call];
            && (reply.None? <==>
                  && Admits(s.Accepted(client.id), now) && verb == "tools/call" && params.name.Some?
                  && params.name.value in cfg.registry && cfg.registry[params.name.value] in client.scopes)
            && (reply.None? ==> t.stages == s.stages[call := Running(client, params.name.value)])
            && (reply.Some? ==> t.stages == s.stages - {call})
            && (reply.Some? && t.served != s.served <==>
                  && Admits(s.Accepted(client.id), now) && verb != "tools/call"
                  && DbRead in client.scopes && params.uri.Some?)
  {
    hide Admits, Record;
    assert |s.served + [Resource(call, s.stages[call].client, now)]| == |s.served| + 1;
    assert (s.stages - {call}).Keys == s.stages.Keys - {call};
  }

  /** The audit status tells success from failure, and one error code from another. */
  lemma StatusTells(a: Result<string, McpError>, b: Result<string, McpError>)
    ensures Status(a) == Status(b) <==> (a.Ok? && b.Ok?) || (a.Err? && b.Err? && a.error.RpcCode() == b.error.RpcCode())
  {
    hide Decimal.Print;
    assert "ok"[0] != "err:-"[0];
    if a.Err? {
      assert Status(a)[0] == 'e' && Status(a)[5..] == Decimal.Print(a.error.RpcCode());
    }
    if b.Err? {
      assert Status(b)[0] == 'e' && Status(b)[5..] == Decimal.Print(b.error.RpcCode());
    }
    if a.Err? && b.Err? && Status(a) == Status(b) {
      Decimal.PrintInjective(a.error.RpcCode(), b.error.RpcCode());
    }
  }

  /** The limiter alone decides who is turned away for rate; every other refusal has used a slot. */
  lemma RefusalsAtAdmission(cfg: Config, s: State, call: nat, now: int, contents: Result<string, McpError>)
    requires call in s.stages && s.stages[call].Authorized?
    ensures var (t, reply) := Admission(cfg, s, call, now, contents);
            var id := s.stages[call].client.id;
            && t.audit == s.audit
            && (reply == Some(Err(RateLimited(RATE_LIMIT_PER_SEC))) <== !Admits(s.Accepted(id), now))
            && (!Admits(s.Accepted(id), now) ==> t.served == s.served && t.Accepted(id) == s.Accepted(id))
            && (Admits(s.Accepted(id), now) ==> t.Accepted(id) == s.Accepted(id) + [now])
            && (forall other :: other != id ==> t.Accepted(other) == s.Accepted(other))
  {
  }
}

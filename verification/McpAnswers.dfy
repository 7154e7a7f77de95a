/** What the MCP server answers, and that it answers each request once
 *  (src-tauri/src/mcp/server.rs).
 */
module McpAnswers {
  import opened Wrappers
  import opened RateLimiting
  import opened McpServer
  import opened McpRuns
  import Decimal

  // ---------------------------------------------------------------------------
  // The end of a tool's run.
  // ---------------------------------------------------------------------------

  /** The answer and the log agree: success is logged as "ok", an error under its code. */
  predicate Tells(entry: AuditEntry, reply: Reply) {
    && (entry.status == "ok" <==> reply.Ok?)
    && (reply.Err? ==> entry.status == "err:-" + Decimal.Print(reply.error.RpcCode()))
  }

  /** A tool's success is answered with its text, a tool's error with that very error. */
  predicate Conveys(outcome: Result<string, McpError>, reply: Reply) {
    match outcome
    case Ok(text) => reply == Ok(Output(text))
    case Err(e) => reply == Err(e)
  }

  lemma FinishAnswers(s: State, call: nat, outcome: Result<string, McpError>, timestamp: string, durationMs: nat)
    requires call in s.stages && s.stages[call].Running?
    ensures var (t, reply) := Finishing(s, call, outcome, timestamp, durationMs);
            var Running(client, tool) := s.stages[call];
            && reply.Some? && Conveys(outcome, reply.value)
            && |t.audit| == |s.audit| + 1 && t.audit[..|s.audit|] == s.audit && t.audit[|s.audit|].0 == call
            && Tells(t.audit[|s.audit|].1, reply.value)
            && t.audit[|s.audit|].1 == AuditEntry(timestamp, client.id, client.name, tool, Status(outcome), durationMs)
  {
    hide Decimal.Print;
    if outcome.Err? {
      assert Status(outcome)[0] == 'e' && "ok"[0] == 'o';
    }
  }

  // ---------------------------------------------------------------------------
  // Admission.
  // ---------------------------------------------------------------------------

  /** Why an authorized request is refused. */
  predicate Refuses(cfg: Config, client: Client, verb: string, params: Params, room: bool, e: McpError) {
    if !room then e == RateLimited(RATE_LIMIT_PER_SEC) && e.RpcCode() == 32004
    else if verb == "tools/call" then
      if params.name.None? then e.InvalidArgs? && e.RpcCode() == 32602
      else if params.name.value !in cfg.registry then e == ToolNotFound(params.name.value) && e.RpcCode() == 32601
      else e == ScopeInsufficient(cfg.registry[params.name.value], client.scopes) && e.RpcCode() == 32002
    else if DbRead !in client.scopes then e == ScopeInsufficient(DbRead, client.scopes) && e.RpcCode() == 32002
    else e.InvalidArgs? && e.RpcCode() == 32602
  }

  /** A request that deserves it is served: a tool's run starts unanswered, a resource read is
   *  answered with the resource's contents or the error of reading it. Any other is refused, for
   *  the first reason there is. */
  lemma AdmissionAnswers(cfg: Config, s: State, call: nat, now: int, contents: Result<string, McpError>)
    requires call in s.stages && s.stages[call].Authorized?
    ensures var (t, reply) := Admission(cfg, s, call, now, contents);
            var Authorized(client, verb, params) := s.stages[call];
            var room := Admits(s.Accepted(client.id), now);
            if !(room && Deserves(cfg, client, verb, params)) then
              && t.served == s.served && t.stages == s.stages - {call}
              && reply.Some? && reply.value.Err? && Refuses(cfg, client, verb, params, room, reply.value.error)
            else if verb == "tools/call" then
              && reply == None && t.stages == s.stages[call := Running(client, params.name.value)]
              && t.served == s.served + [Tool(call, client, params.name.value, cfg.registry[params.name.value], now)]
            else
              && reply == Some(match contents case Ok(text) => Ok(Contents(text)) case Err(e) => Err(e))
              && t.served == s.served + [Resource(call, client, now)] && t.stages == s.stages - {call}
  {
    hide Admits, Record;
    var Authorized(client, verb, params) := s.stages[call];
    if params.name.Some? {
      assert (s.stages - {call})[call := Running(client, params.name.value)]
          == s.stages[call := Running(client, params.name.value)];
    }
  }

  // ---------------------------------------------------------------------------
  // Arrival.
  // ---------------------------------------------------------------------------

  const PUBLIC := {"initialize", "ping", "tools/list", "resources/list"}
  const PROTECTED := {"tools/call", "resources/read"}

  /** Why a request is refused on arrival, if it is. */
  predicate RefusedOnArrival(cfg: Config, s: State, bearer: Option<string>, request: Request,
                             lookupError: Option<string>, e: McpError)
  {
    if request.jsonrpc != "2.0" then e.InvalidArgs? && e.RpcCode() == 32602
    else if request.verb !in PUBLIC + PROTECTED then e.ToolNotFound? && e.RpcCode() == 32601
    else
      && request.verb in PROTECTED
      && if bearer.Some? && lookupError.Some? then e == Internal(lookupError.value) && e.RpcCode() == 32000
         else (bearer.Some? ==> cfg.hash(bearer.value) !in s.clients) && e.NotAuthorized? && e.RpcCode() == 32001
  }

  /** What a public verb asks for. */
  predicate Welcomes(cfg: Config, verb: string, v: Value) {
    && (verb == "initialize" ==> v == ServerInfo)
    && (verb == "ping" ==> v == Pong)
    && (verb == "tools/list" ==> v == Tools(cfg.registry.Keys))
    && (verb == "resources/list" ==> v == Resources)
  }

  /** On arrival a request is answered, and leaves nothing behind, unless it is a tool call or a
   *  resource read under a token in the table. The public verbs succeed; any other answer is a
   *  refusal that says why. */
  lemma ArrivalAnswers(cfg: Config, s: State, bearer: Option<string>, request: Request,
                       lookupError: Option<string>, touched: Option<string>)
    requires s.next !in s.stages
    ensures var (t, reply) := Arrival(cfg, s, bearer, request, lookupError, touched);
            && (reply.Some? ==>
                  && t == s.(next := s.next + 1)
                  && (reply.value.Ok? <==> request.jsonrpc == "2.0" && request.verb in PUBLIC)
                  && (reply.value.Ok? ==> Welcomes(cfg, request.verb, reply.value.value))
                  && (reply.value.Err? ==> RefusedOnArrival(cfg, s, bearer, request, lookupError, reply.value.error)))
            && (reply.None? ==>
                  && bearer.Some? && lookupError.None? && cfg.hash(bearer.value) in s.clients
                  && var params := if request.params.Some? then request.params.value else Params(None, None, None);
                     t.stages == s.stages[s.next := Authorized(s.clients[cfg.hash(bearer.value)], request.verb, params)])
  {
    hide Touch;
  }

  /** The time of use is all that authorizing a request changes in the table, and only for its own
   *  client. */
  lemma ArrivalTouches(cfg: Config, s: State, bearer: Option<string>, request: Request,
                       lookupError: Option<string>, touched: Option<string>, h: string)
    requires s.next !in s.stages && h in s.clients
    ensures var (t, reply) := Arrival(cfg, s, bearer, request, lookupError, touched);
            && t.clients.Keys == s.clients.Keys
            && t.clients[h] == s.clients[h].(lastUsedAt :=
                 if reply.None? && touched.Some? && t.stages[s.next].client.id == s.clients[h].id then touched
                 else s.clients[h].lastUsedAt)
  {
  }

  // ---------------------------------------------------------------------------
  // Codes.
  // ---------------------------------------------------------------------------

  /** Which errors a code stands for. Codes are negated; besides "method not found" and "invalid
   *  params" they lie in the range that section 5.1 of the JSON-RPC 2.0 specification leaves to
   *  servers. */
  lemma CodesTell(e: McpError)
    ensures e.RpcCode() == 32601 <==> e.ToolNotFound?
    ensures e.RpcCode() == 32602 <==> e.InvalidArgs?
    ensures e.RpcCode() == 32001 <==> e.NotAuthorized? || e.AuthDenied?
    ensures e.RpcCode() == 32002 <==> e.ScopeInsufficient?
    ensures e.RpcCode() == 32003 <==> e.WriteRejected?
    ensures e.RpcCode() == 32004 <==> e.RateLimited?
    ensures e.RpcCode() == 32005 <==> e.Disabled? || e.AlreadyRunning?
    ensures !e.ToolNotFound? && !e.InvalidArgs? ==> 32000 <= e.RpcCode() <= 32099
  {
  }

  // ---------------------------------------------------------------------------
  // Each request is answered once.
  // ---------------------------------------------------------------------------

  /** The request a step is about. */
  function CallOf(s: State, e: Event): Option<nat> {
    match e
    case Arrive(_, _, _, _) => Some(s.next)
    case Admit(call, _, _) => Some(call)
    case Finish(call, _, _, _) => Some(call)
    case _ => None
  }

  /** Event `i` answers request `call`. */
  predicate Answers(cfg: Config, trace: seq<State>, events: seq<Event>, i: int, call: nat)
    requires |trace| == |events| + 1
  {
    && 0 <= i < |events| && Enabled(trace[i], events[i])
    && CallOf(trace[i], events[i]) == Some(call) && Step(cfg, trace[i], events[i]).1.Some?
  }

  /** The request has yet to arrive or is under way. */
  predicate Open(s: State, call: nat) {
    call >= s.next || call in s.stages
  }

  lemma StepAnswers(cfg: Config, s: State, e: Event, call: nat)
    requires CallsInv(s) && Enabled(s, e)
    ensures var (t, reply) := Step(cfg, s, e);
            if CallOf(s, e) == Some(call) then Open(s, call) && (reply.Some? <==> !Open(t, call))
            else Open(t, call) <==> Open(s, call)
  {
    NextGrows(cfg, s, e);
    match e
    case Arrive(bearer, request, lookupError, touched) =>
      ArrivalAnswers(cfg, s, bearer, request, lookupError, touched);
      hide Arrival, CallsInv;
    case Admit(c, now, contents) =>
      AdmissionAnswers(cfg, s, c, now, contents);
      hide Admission, CallsInv, Admits, Deserves, Refuses;
    case Finish(c, outcome, timestamp, durationMs) =>
    case _ =>
  }

  /** The request was answered exactly when it has arrived and is no longer under way, and once. */
  ghost predicate AnsweredOnce(cfg: Config, trace: seq<State>, events: seq<Event>, n: nat, call: nat)
    requires |trace| == |events| + 1 && n <= |events|
  {
    && (Open(trace[n], call) <==> forall i :: 0 <= i < n ==> !Answers(cfg, trace, events, i, call))
    && forall i, j :: 0 <= i < j < n ==>
         !(Answers(cfg, trace, events, i, call) && Answers(cfg, trace, events, j, call))
  }

  lemma OnceMore(cfg: Config, trace: seq<State>, events: seq<Event>, m: nat, call: nat)
    requires |trace| == |events| + 1 && m < |events| && AnsweredOnce(cfg, trace, events, m, call)
    requires if Answers(cfg, trace, events, m, call) then Open(trace[m], call) && !Open(trace[m + 1], call)
             else Open(trace[m + 1], call) <==> Open(trace[m], call)
    ensures AnsweredOnce(cfg, trace, events, m + 1, call)
  {
    hide Open, Answers;
  }

  /** In every run that holds of every request. */
  lemma {:induction false} EachCallIsAnsweredOnce(cfg: Config, trace: seq<State>, events: seq<Event>, n: nat, call: nat)
    requires IsRun(cfg, trace, events) && n <= |events|
    ensures AnsweredOnce(cfg, trace, events, n, call)
  {
    if n > 0 {
      var s, e := trace[n - 1], events[n - 1];
      EachCallIsAnsweredOnce(cfg, trace, events, n - 1, call);
      RunKeepsCalls(cfg, trace, events, n - 1);
      assert Enabled(s, e) && trace[n] == Step(cfg, s, e).0;
      StepAnswers(cfg, s, e, call);
      assert Answers(cfg, trace, events, n - 1, call) <==> CallOf(s, e) == Some(call) && Step(cfg, s, e).1.Some?;
      hide *;
      OnceMore(cfg, trace, events, n - 1, call);
    }
  }

  // ---------------------------------------------------------------------------
  // Answers over whole runs.
  // ---------------------------------------------------------------------------

  /** In every run the end of a tool's body answers the request with what the body said, and the
   *  entry that it adds to the log tells the same of a run of that very call, client and tool. */
  lemma FinishIsTold(cfg: Config, trace: seq<State>, events: seq<Event>, n: nat)
    requires IsRun(cfg, trace, events) && n < |events| && events[n].Finish?
    ensures Enabled(trace[n], events[n])
    ensures var s, t, reply := trace[n], trace[n + 1], Step(cfg, trace[n], events[n]).1;
            && reply.Some? && Conveys(events[n].outcome, reply.value)
            && |t.audit| == |s.audit| + 1 && t.audit[|s.audit|].0 == events[n].call
            && Tells(t.audit[|s.audit|].1, reply.value)
            && Recorded(t.served, events[n].call, t.audit[|s.audit|].1)
  {
    var s, e := trace[n], events[n];
    assert Enabled(s, e) && trace[n + 1] == Step(cfg, s, e).0;
    FinishAnswers(s, e.call, e.outcome, e.timestamp, e.durationMs);
    RunKeepsInvariants(cfg, trace, events, n + 1);
    hide Finishing, Conveys, Tells, Recorded, IsRun, RateInv, ScopeInv, ToolRuns, RunningCalls, Ran, Status;
  }

  ghost predicate IsServed(s: State, call: nat) {
    exists k :: 0 <= k < |s.served| && s.served[k].call == call
  }

  /** In every run a protected request is answered with success only if it was served: after its
   *  arrival no step answers a request with success that the books of what was served lack. */
  lemma SuccessIsServed(cfg: Config, trace: seq<State>, events: seq<Event>, n: nat)
    requires IsRun(cfg, trace, events) && n < |events| && (events[n].Admit? || events[n].Finish?)
    ensures Enabled(trace[n], events[n])
    ensures var reply := Step(cfg, trace[n], events[n]).1;
            reply.Some? && reply.value.Ok? ==> IsServed(trace[n + 1], events[n].call)
  {
    var s, e := trace[n], events[n];
    assert Enabled(s, e) && trace[n + 1] == Step(cfg, s, e).0;
    if e.Admit? {
      AdmissionAnswers(cfg, s, e.call, e.now, e.contents);
      var t := trace[n + 1];
      hide Admission, Admits, Deserves, Refuses, IsRun;
      if t.served != s.served {
        assert t.served[|s.served|].call == e.call;
      }
    } else {
      RunKeepsInvariants(cfg, trace, events, n);
      RunningIsServed(s, e.call);
    }
  }

  lemma RunningIsServed(s: State, call: nat)
    requires AuditInv(s) && call in s.stages && s.stages[call].Running?
    ensures IsServed(s, call)
  {
    hide ToolRuns, RunningCalls, Recorded;
    assert Ran(s.served, call, s.stages[call]);
  }
}

/** One request handled from start to end (src-tauri/src/mcp/server.rs): the handler's own code,
 *  proved to take the steps of the `McpServer` protocol one after the other.
 */
module McpContext {
  import opened Wrappers
  import opened RateLimiting
  import opened McpServer
  import opened McpAnswers
  import McpRuns

  /** What the outside world answers while a request is handled. */
  datatype World = World(
    lookupError: Option<string>, touched: Option<string>, now: int,
    outcome: Result<string, McpError>, contents: Result<string, McpError>,
    timestamp: string, durationMs: nat)

  /** Arrival, admission and finishing, as far as the request gets. */
  ghost predicate Handled(cfg: Config, s: State, bearer: Option<string>, request: Request, world: World,
                          t: State, reply: Reply)
  {
    var call := s.next;
    var arrive := Event.Arrive(bearer, request, world.lookupError, world.touched);
    var admit := Event.Admit(call, world.now, world.contents);
    var finish := Event.Finish(call, world.outcome, world.timestamp, world.durationMs);
    var (s1, reply1) := Step(cfg, s, arrive);
    if reply1.Some? then t == s1 && reply == reply1.value
    else
      && Enabled(s1, admit)
      && var (s2, reply2) := Step(cfg, s1, admit);
         if reply2.Some? then t == s2 && reply == reply2.value
         else
           && Enabled(s2, finish)
           && var (s3, reply3) := Step(cfg, s2, finish);
              t == s3 && reply3 == Some(reply)
  }

  /** The client whose request it is, if it is one that must be authorized and is. */
  function Caller(cfg: Config, s: State, bearer: Option<string>, request: Request, world: World): Option<Client> {
    if request.jsonrpc == "2.0" && request.verb in PROTECTED
       && bearer.Some? && world.lookupError.None? && cfg.hash(bearer.value) in s.clients
    then Some(s.clients[cfg.hash(bearer.value)]) else None
  }

  function ParamsOf(request: Request): Params {
    if request.params.Some? then request.params.value else Params(None, None, None)
  }

  /** The request of an authorized client is answered with what the tool or the resource it names
   *  says, and a tool's run is logged as what it was answered; or it is refused for a reason. */
  ghost predicate Replied(cfg: Config, s: State, client: Client, request: Request, world: World, t: State, reply: Reply) {
    var params, room := ParamsOf(request), Admits(s.Accepted(client.id), world.now);
    && t.stages == s.stages
    && if !(room && McpRuns.Deserves(cfg, client, request.verb, params)) then
         && t.served == s.served && t.audit == s.audit
         && reply.Err? && Refuses(cfg, client, request.verb, params, room, reply.error)
       else if request.verb == "tools/call" then
         var tool := params.name.value;
         && t.served == s.served + [Tool(s.next, client, tool, cfg.registry[tool], world.now)]
         && Conveys(world.outcome, reply)
         && |t.audit| == |s.audit| + 1 && t.audit[..|s.audit|] == s.audit
         && var (call, entry) := t.audit[|s.audit|];
            && call == s.next && entry.clientId == client.id && entry.clientName == client.name && entry.tool == tool
            && Tells(entry, reply)
       else
         && t.served == s.served + [Resource(s.next, client, world.now)] && t.audit == s.audit
         && reply == match world.contents case Ok(text) => Ok(Contents(text)) case Err(e) => Err(e)
  }

  /** Any other request leaves nothing behind: it is a public one, or is refused for a reason. */
  ghost predicate Turned(cfg: Config, s: State, bearer: Option<string>, request: Request, world: World,
                         t: State, reply: Reply)
  {
    && t == s.(next := s.next + 1)
    && (reply.Ok? <==> request.jsonrpc == "2.0" && request.verb in PUBLIC)
    && (reply.Ok? ==> Welcomes(cfg, request.verb, reply.value))
    && (reply.Err? ==> RefusedOnArrival(cfg, s, bearer, request, world.lookupError, reply.error))
  }

  /** The steps of a request, taken one after the other, come to that. */
  lemma HandledMeans(cfg: Config, s: State, bearer: Option<string>, request: Request, world: World, t: State, reply: Reply)
    requires Handled(cfg, s, bearer, request, world, t, reply) && s.next !in s.stages
    ensures var caller := Caller(cfg, s, bearer, request, world);
            if caller.Some? then Replied(cfg, s, caller.value, request, world, t, reply)
            else Turned(cfg, s, bearer, request, world, t, reply)
  {
    var (s1, reply1) := Step(cfg, s, Event.Arrive(bearer, request, world.lookupError, world.touched));
    ArrivalAnswers(cfg, s, bearer, request, world.lookupError, world.touched);
    if reply1.None? {
      var client := s.clients[cfg.hash(bearer.value)];
      ArrivedMeans(cfg, s, bearer, request, world);
      AuthorizedExactlyIfKnown(cfg, s, bearer, request, world.lookupError, world.touched);
      hide Arrival, Refuses, Tells, Conveys, McpRuns.Deserves, Admits;
      AdmittedMeans(cfg, s, s1, client, request, world, t, reply);
    } else {
      AuthorizedExactlyIfKnown(cfg, s, bearer, request, world.lookupError, world.touched);
      hide Arrival, RefusedOnArrival;
      assert s.next !in s1.stages;
    }
  }

  lemma ArrivedMeans(cfg: Config, s: State, bearer: Option<string>, request: Request, world: World)
    ensures var (t, reply) := Arrival(cfg, s, bearer, request, world.lookupError, world.touched);
            t.history == s.history && t.served == s.served && t.audit == s.audit && t.next == s.next + 1
  {
    hide Touch;
  }

  lemma AdmittedMeans(cfg: Config, s: State, s1: State, client: Client, request: Request, world: World, t: State, reply: Reply)
    requires s.next !in s.stages
    requires s1.stages == s.stages[s.next := Authorized(client, request.verb, ParamsOf(request))]
    requires s1.history == s.history && s1.served == s.served && s1.audit == s.audit
    requires var admit := Event.Admit(s.next, world.now, world.contents);
             var finish := Event.Finish(s.next, world.outcome, world.timestamp, world.durationMs);
             && Enabled(s1, admit)
             && var (s2, reply2) := Step(cfg, s1, admit);
                if reply2.Some? then t == s2 && reply == reply2.value
                else Enabled(s2, finish) && t == Step(cfg, s2, finish).0 && Step(cfg, s2, finish).1 == Some(reply)
    ensures Replied(cfg, s, client, request, world, t, reply)
  {
    var (s2, reply2) := Step(cfg, s1, Event.Admit(s.next, world.now, world.contents));
    AdmissionAnswers(cfg, s1, s.next, world.now, world.contents);
    AdmissionBooks(cfg, s1, s.next, world.now, world.contents);
    assert s1.Accepted(client.id) == s.Accepted(client.id);
    assert s1.stages - {s.next} == s.stages;
    if reply2.None? {
      FinishAnswers(s2, s.next, world.outcome, world.timestamp, world.durationMs);
      FinishingCloses(s2, s.next, world);
      assert s2.stages - {s.next} == s.stages;
    }
    hide Admission, Finishing, Refuses, Tells, Conveys, McpRuns.Deserves, Admits;
  }

  lemma FinishingCloses(s: State, call: nat, world: World)
    requires call in s.stages && s.stages[call].Running?
    ensures var t := Finishing(s, call, world.outcome, world.timestamp, world.durationMs).0;
            t.stages == s.stages - {call} && t.served == s.served
  {
    hide Status;
  }

  class ServerContext {
    const cfg: Config
    var clients: map<string, Client>
    const auth: AuthState
    var audit: seq<AuditEntry>
    ghost var next: nat
    ghost var issued: set<(string, seq<McpScope>)>
    ghost var served: seq<Served>
    ghost var stages: map<nat, Stage>
    ghost var logged: seq<(nat, AuditEntry)>

    ghost predicate Valid()
      reads this, auth, auth.Repr
    {
      && auth.Valid()
      && |audit| == |logged| && forall i :: 0 <= i < |audit| ==> audit[i] == logged[i].1
    }

    /** The state of the protocol. */
    ghost function Abs(): State
      reads this, auth, auth.Repr
    {
      State(clients, auth.histories, auth.clock, next, stages, logged, issued, served)
    }

    constructor (cfg: Config)
      ensures Valid() && fresh(auth)
      ensures this.cfg == cfg && Abs() == INIT
    {
      this.cfg := cfg;
      clients := map[];
      auth := new AuthState(0);
      audit := [];
      next, issued, served, logged, stages := 0, {}, [], [], map[];
    }

    /** `authorize_request` */
    method AuthorizeRequest(bearer: Option<string>, world: World) returns (r: Result<Client, McpError>)
      modifies `clients
      ensures r == Authorize(cfg, old(clients), bearer, world.lookupError)
      ensures clients == if r.Ok? then Touch(old(clients), r.value.id, world.touched) else old(clients)
    {
      if bearer.None? {
        return Err(NotAuthorized("missing Authorization Bearer header"));
      }
      if world.lookupError.Some? {
        return Err(Internal(world.lookupError.value));
      }
      var hash := cfg.hash(bearer.value);
      if hash !in clients {
        return Err(NotAuthorized("token not recognized"));
      }
      r := Ok(clients[hash]);
      clients := Touch(clients, r.value.id, world.touched);
    }

    /** Up to the point where an authorized request waits for the limiter. */
    method Arrive(bearer: Option<string>, request: Request, world: World)
      returns (reply: Option<Reply>, client: Client, params: Params)
      requires Valid()
      modifies `clients, `next, `stages
      ensures Valid()
      ensures (Abs(), reply) == Arrival(cfg, old(Abs()), bearer, request, world.lookupError, world.touched)
      ensures reply.None? ==> stages == old(stages)[old(next) := Authorized(client, request.verb, params)]
    {
      hide Touch, Authorize, AuthState.Valid;
      next := next + 1;
      client, params := Client("", "", [], None), Params(None, None, None);
      if request.jsonrpc != "2.0" {
        reply := Some(Err(InvalidArgs("unsupported jsonrpc version: " + request.jsonrpc)));
      } else if request.verb == "initialize" {
        reply := Some(Ok(ServerInfo));
      } else if request.verb == "ping" {
        reply := Some(Ok(Pong));
      } else if request.verb == "tools/list" {
        reply := Some(Ok(Tools(cfg.registry.Keys)));
      } else if request.verb == "resources/list" {
        reply := Some(Ok(Resources));
      } else if request.verb == "tools/call" || request.verb == "resources/read" {
        var found := AuthorizeRequest(bearer, world);
        if found.Err? {
          reply := Some(Err(found.error));
        } else {
          reply, client := None, found.value;
          params := if request.params.Some? then request.params.value else params;
          stages := stages[next - 1 := Authorized(client, request.verb, params)];
        }
      } else {
        reply := Some(Err(ToolNotFound("method `" + request.verb + "`")));
      }
    }

    /** From the limiter to the start of the tool's body, or to the end of a resource read. */
    method Admit(ghost call: nat, client: Client, verb: string, params: Params, world: World)
      returns (reply: Option<Reply>, tool: string)
      requires Valid() && auth.clock <= world.now
      requires call in stages && stages[call] == Authorized(client, verb, params)
      modifies `stages, `served, auth, auth.Repr
      ensures Valid() && fresh(auth.Repr - old(auth.Repr))
      ensures (Abs(), reply) == Admission(cfg, old(Abs()), call, world.now, world.contents)
      ensures reply.None? ==> call in stages && stages[call] == Running(client, tool)
    {
      hide Admits, Record, AuthState.Valid, CheckTool, CheckResource;
      var ok := auth.CheckRate(client.id, world.now);
      stages := stages - {call};
      tool := "";
      if !ok {
        return Some(Err(RateLimited(RATE_LIMIT_PER_SEC))), tool;
      }
      if verb == "tools/call" {
        var checked := CheckTool(cfg, client, params);
        if checked.Err? {
          return Some(Err(checked.error)), tool;
        }
        reply, tool := None, checked.value;
        stages := stages[call := Running(client, tool)];
        assert tool in cfg.registry by { CheckedToolIsRegistered(cfg, client, params); }
        served := served + [Tool(call, client, tool, cfg.registry[tool], world.now)];
      } else {
        var checked := CheckResource(client, params);
        if checked.Err? {
          return Some(Err(checked.error)), tool;
        }
        served := served + [Resource(call, client, world.now)];
        reply := Some(if world.contents.Ok? then Ok(Contents(world.contents.value)) else Err(world.contents.error));
      }
    }

    /** The tool's body has an outcome: one audit entry, and the outcome is the reply. */
    method Finish(ghost call: nat, client: Client, tool: string, world: World) returns (reply: Reply)
      requires Valid()
      requires call in stages && stages[call] == Running(client, tool)
      modifies `stages, `audit, `logged
      ensures Valid()
      ensures (Abs(), Some(reply)) == Finishing(old(Abs()), call, world.outcome, world.timestamp, world.durationMs)
    {
      hide Status, AuthState.Valid;
      var entry := AuditEntry(world.timestamp, client.id, client.name, tool, Status(world.outcome), world.durationMs);
      audit := audit + [entry];
      logged := logged + [(call, entry)];
      stages := stages - {call};
      reply := if world.outcome.Ok? then Ok(Output(world.outcome.value)) else Err(world.outcome.error);
    }

    /** A request handled without interruption takes its steps one after the other. */
    method Dispatch(bearer: Option<string>, request: Request, world: World) returns (reply: Reply)
      requires Valid() && auth.clock <= world.now && next !in stages
      modifies this, auth, auth.Repr
      ensures Valid() && fresh(auth.Repr - old(auth.Repr))
      ensures Handled(cfg, old(Abs()), bearer, request, world, Abs(), reply)
      ensures var caller := Caller(cfg, old(Abs()), bearer, request, world);
              if caller.Some? then Replied(cfg, old(Abs()), caller.value, request, world, Abs(), reply)
              else Turned(cfg, old(Abs()), bearer, request, world, Abs(), reply)
    {
      hide Arrival, Admission, Finishing, AuthState.Valid;
      reply := Handle(bearer, request, world);
      HandledMeans(cfg, old(Abs()), bearer, request, world, Abs(), reply);
      hide Handled, Replied, Turned, Caller;
    }

    method Handle(bearer: Option<string>, request: Request, world: World) returns (reply: Reply)
      requires Valid() && auth.clock <= world.now && next !in stages
      modifies this, auth, auth.Repr
      ensures Valid() && fresh(auth.Repr - old(auth.Repr))
      ensures Handled(cfg, old(Abs()), bearer, request, world, Abs(), reply)
    {
      hide Arrival, Admission, Finishing, AuthState.Valid;
      ghost var call := next;
      var arrived, client, params := Arrive(bearer, request, world);
      if arrived.Some? {
        return arrived.value;
      }
      var admitted, tool := Admit(call, client, request.verb, params, world);
      if admitted.Some? {
        return admitted.value;
      }
      reply := Finish(call, client, tool, world);
    }
  }

  lemma CheckedToolIsRegistered(cfg: Config, client: Client, params: Params)
    requires CheckTool(cfg, client, params).Ok?
    ensures CheckTool(cfg, client, params).value in cfg.registry
  {
  }
}

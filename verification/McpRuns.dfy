/** Where what is served comes from, and what becomes of it, over every run of the MCP server
 *  (src-tauri/src/mcp/server.rs).
 */
module McpRuns {
  import opened Wrappers
  import opened RateLimiting
  import opened McpServer

  // ---------------------------------------------------------------------------
  // Arrival.
  // ---------------------------------------------------------------------------

  /** Event `i` is the arrival of request `call`, under a token that was `client`'s at the time. */
  predicate ArrivesAs(cfg: Config, trace: seq<State>, events: seq<Event>, i: int, call: nat, client: Client)
    requires |trace| == |events| + 1
  {
    && 0 <= i < |events| && events[i].Arrive? && trace[i].next == call
    && events[i].bearer.Some? && cfg.hash(events[i].bearer.value) in trace[i].clients
    && trace[i].clients[cfg.hash(events[i].bearer.value)] == client
  }

  /** Request `call` arrived before event `n` as a request of `client`, then in the table. */
  ghost predicate Arrived(cfg: Config, trace: seq<State>, events: seq<Event>, n: nat, call: nat, client: Client)
    requires |trace| == |events| + 1
  {
    exists i :: i < n && ArrivesAs(cfg, trace, events, i, call, client)
  }

  /** Everything under way or served has arrived. */
  ghost predicate AllArrived(cfg: Config, trace: seq<State>, events: seq<Event>, n: nat)
    requires |trace| == |events| + 1 && n <= |events|
  {
    && (forall call :: call in trace[n].stages ==> Arrived(cfg, trace, events, n, call, trace[n].stages[call].client))
    && (forall k :: 0 <= k < |trace[n].served| ==>
          Arrived(cfg, trace, events, n, trace[n].served[k].call, trace[n].served[k].client))
  }

  lemma ArrivedLater(cfg: Config, trace: seq<State>, events: seq<Event>, n: nat, call: nat, client: Client)
    requires |trace| == |events| + 1 && Arrived(cfg, trace, events, n, call, client)
    ensures Arrived(cfg, trace, events, n + 1, call, client)
  {
    var i :| i < n && ArrivesAs(cfg, trace, events, i, call, client);
  }

  /** A step brings a stage or a served request with it only from a stage there was, or, when a
   *  request arrives, from the table. */
  lemma StagesComeFrom(cfg: Config, s: State, e: Event, call: nat)
    requires Enabled(s, e) && call in Step(cfg, s, e).0.stages
    ensures var client := Step(cfg, s, e).0.stages[call].client;
            || (call in s.stages && s.stages[call].client == client)
            || (e.Arrive? && call == s.next && e.bearer.Some? && cfg.hash(e.bearer.value) in s.clients
                && client == s.clients[cfg.hash(e.bearer.value)])
  {
    hide Admits, Record, Status, WithoutClient, Touch;
  }

  lemma ServedComesFrom(cfg: Config, s: State, e: Event)
    requires Enabled(s, e)
    ensures var t := Step(cfg, s, e).0;
            || t.served == s.served
            || (|t.served| == |s.served| + 1 && t.served[..|s.served|] == s.served
                && t.served[|s.served|].call in s.stages
                && t.served[|s.served|].client == s.stages[t.served[|s.served|].call].client)
  {
    hide Admits, Record, Status, WithoutClient, Touch, Authorize;
  }

  lemma {:induction false} EverythingArrived(cfg: Config, trace: seq<State>, events: seq<Event>, n: nat)
    requires IsRun(cfg, trace, events) && n <= |events|
    ensures AllArrived(cfg, trace, events, n)
  {
    if n > 0 {
      EverythingArrived(cfg, trace, events, n - 1);
      assert Enabled(trace[n - 1], events[n - 1]) && trace[n] == Step(cfg, trace[n - 1], events[n - 1]).0;
      hide AllArrived, Step, Enabled, IsRun;
      StepArrives(cfg, trace, events, n);
    }
  }

  lemma StepArrives(cfg: Config, trace: seq<State>, events: seq<Event>, n: nat)
    requires |trace| == |events| + 1 && 0 < n <= |events| && Enabled(trace[n - 1], events[n - 1])
    requires trace[n] == Step(cfg, trace[n - 1], events[n - 1]).0
    requires AllArrived(cfg, trace, events, n - 1)
    ensures AllArrived(cfg, trace, events, n)
  {
    hide Step, Enabled, Arrived;
    forall call | call in trace[n].stages
      ensures Arrived(cfg, trace, events, n, call, trace[n].stages[call].client)
    {
      StagesComeFrom(cfg, trace[n - 1], events[n - 1], call);
      StageArrived(cfg, trace, events, n, call, trace[n].stages[call].client);
    }
    ServedArrived(cfg, trace, events, n);
  }

  lemma ServedArrived(cfg: Config, trace: seq<State>, events: seq<Event>, n: nat)
    requires |trace| == |events| + 1 && 0 < n <= |events| && Enabled(trace[n - 1], events[n - 1])
    requires trace[n] == Step(cfg, trace[n - 1], events[n - 1]).0
    requires AllArrived(cfg, trace, events, n - 1)
    ensures forall k :: 0 <= k < |trace[n].served| ==>
              Arrived(cfg, trace, events, n, trace[n].served[k].call, trace[n].served[k].client)
  {
    var s, t := trace[n - 1], trace[n];
    ServedComesFrom(cfg, s, events[n - 1]);
    hide Step, Enabled, Arrived;
    forall k | 0 <= k < |t.served| ensures Arrived(cfg, trace, events, n, t.served[k].call, t.served[k].client) {
      if k < |s.served| {
        assert t.served[k] == t.served[..|s.served|][k] == s.served[k];
      }
      ArrivedLater(cfg, trace, events, n - 1, t.served[k].call, t.served[k].client);
    }
  }

  lemma StageArrived(cfg: Config, trace: seq<State>, events: seq<Event>, n: nat, call: nat, client: Client)
    requires |trace| == |events| + 1 && 0 < n <= |events|
    requires var s, e := trace[n - 1], events[n - 1];
             || Arrived(cfg, trace, events, n - 1, call, client)
             || (e.Arrive? && call == s.next && e.bearer.Some? && cfg.hash(e.bearer.value) in s.clients
                 && client == s.clients[cfg.hash(e.bearer.value)])
    ensures Arrived(cfg, trace, events, n, call, client)
  {
    if Arrived(cfg, trace, events, n - 1, call, client) {
      ArrivedLater(cfg, trace, events, n - 1, call, client);
    } else {
      assert ArrivesAs(cfg, trace, events, n - 1, call, client);
    }
  }

  /** In every run every tool body was run, and every resource read, by a client that was in the
   *  table under its token's hash when its request arrived, and that had the scope the tool is
   *  registered with, or may read. */
  lemma EveryToolRunIsInScope(cfg: Config, trace: seq<State>, events: seq<Event>, k: nat)
    requires IsRun(cfg, trace, events) && k < |trace[|events|].served|
    ensures var served := trace[|events|].served[k];
            && ServedRightly(cfg, trace[|events|].issued, served)
            && Arrived(cfg, trace, events, |events|, served.call, served.client)
  {
    RunKeepsInvariants(cfg, trace, events, |events|);
    EverythingArrived(cfg, trace, events, |events|);
  }

  /** What a request must bring, besides room in its limiter, to be served. */
  predicate Deserves(cfg: Config, client: Client, verb: string, params: Params) {
    if verb == "tools/call" then
      params.name.Some? && params.name.value in cfg.registry && cfg.registry[params.name.value] in client.scopes
    else
      DbRead in client.scopes && params.uri.Some?
  }

  /** In every run an admission serves its request exactly when the limiter has room for the client
   *  and the request deserves it. It uses one slot of that client's exactly when there is room,
   *  served or refused, and none of any other client's. */
  lemma AdmissionIsExact(cfg: Config, trace: seq<State>, events: seq<Event>, n: nat)
    requires IsRun(cfg, trace, events) && n < |events| && events[n].Admit?
    ensures events[n].call in trace[n].stages && trace[n].stages[events[n].call].Authorized?
    ensures var s, t := trace[n], trace[n + 1]; var Authorized(client, verb, params) := s.stages[events[n].call];
            && (t.served != s.served <==>
                  Admits(s.Accepted(client.id), events[n].now) && Deserves(cfg, client, verb, params))
            && t.Accepted(client.id) == Record(s.Accepted(client.id), events[n].now)
            && (forall other :: other != client.id ==> t.Accepted(other) == s.Accepted(other))
            && t.audit == s.audit
  {
    var s, e := trace[n], events[n];
    assert Enabled(s, e) && trace[n + 1] == Step(cfg, s, e).0;
    ServedExactly(cfg, s, e.call, e.now, e.contents);
    RefusalsAtAdmission(cfg, s, e.call, e.now, e.contents);
    AdmissionBooks(cfg, s, e.call, e.now, e.contents);
    hide Admission, Admits, IsRun;
  }

  // ---------------------------------------------------------------------------
  // Revocation.
  // ---------------------------------------------------------------------------

  ghost predicate Known(s: State, id: string) {
    exists h :: h in s.clients && s.clients[h].id == id
  }

  lemma StaysUnknown(cfg: Config, s: State, e: Event, id: string)
    requires Enabled(s, e)
    requires e == Revoke(id) || (!Known(s, id) && (e.Issue? ==> e.id != id))
    ensures !Known(Step(cfg, s, e).0, id)
  {
    hide Admits, Record, Status, CheckTool, CheckResource;
    var t := Step(cfg, s, e).0;
    forall h | h in t.clients ensures t.clients[h].id != id {
      if h in s.clients {
        assert e != Revoke(id) ==> s.clients[h].id != id;
      }
    }
  }

  /** A revoked client is unknown until its id is issued again. */
  lemma {:induction false} UnknownAfterRevoke(cfg: Config, trace: seq<State>, events: seq<Event>, j: nat, i: nat,
                                              id: string)
    requires IsRun(cfg, trace, events) && j < i <= |events| && events[j] == Revoke(id)
    requires forall k :: j < k < i && events[k].Issue? ==> events[k].id != id
    ensures !Known(trace[i], id)
    decreases i
  {
    var s, e := trace[i - 1], events[i - 1];
    assert Enabled(s, e) && trace[i] == Step(cfg, s, e).0;
    if i > j + 1 {
      UnknownAfterRevoke(cfg, trace, events, j, i - 1, id);
    }
    hide *;
    StaysUnknown(cfg, s, e, id);
  }

  lemma {:induction false} CallsAscend(cfg: Config, trace: seq<State>, events: seq<Event>, i: nat, j: nat)
    requires IsRun(cfg, trace, events) && i <= j <= |events|
    ensures trace[i].next <= trace[j].next
    decreases j
  {
    if i < j {
      CallsAscend(cfg, trace, events, i, j - 1);
      NextGrows(cfg, trace[j - 1], events[j - 1]);
    }
  }

  lemma NextGrows(cfg: Config, s: State, e: Event)
    requires Enabled(s, e)
    ensures Step(cfg, s, e).0.next == if e.Arrive? then s.next + 1 else s.next
  {
    hide Admits, Record, Status, CheckTool, CheckResource, Authorize, Touch, WithoutClient;
  }

  /** Nothing is served to a client for a request that arrived after its revocation, unless its id
   *  was issued again: whatever is served to it was on its way before. */
  lemma RevokedIsNotServed(cfg: Config, trace: seq<State>, events: seq<Event>, j: nat, id: string, k: nat)
    requires IsRun(cfg, trace, events) && j < |events| && events[j] == Revoke(id)
    requires forall i :: j < i < |events| && events[i].Issue? ==> events[i].id != id
    requires k < |trace[|events|].served| && trace[|events|].served[k].client.id == id
    ensures trace[|events|].served[k].call < trace[j].next
  {
    var served := trace[|events|].served[k];
    EverythingArrived(cfg, trace, events, |events|);
    var i :| i < |events| && ArrivesAs(cfg, trace, events, i, served.call, served.client);
    if i > j {
      UnknownAfterRevoke(cfg, trace, events, j, i, id);
    } else {
      assert i != j;
      NextGrows(cfg, trace[i], events[i]);
      CallsAscend(cfg, trace, events, i + 1, j);
    }
  }

  // ---------------------------------------------------------------------------
  // The audit log.
  // ---------------------------------------------------------------------------

  ghost predicate HasEntry(audit: seq<(nat, AuditEntry)>, call: nat) {
    exists k :: 0 <= k < |audit| && audit[k].0 == call
  }

  /** Each served request has a call of its own, of which nothing is left under way but, for a
   *  tool, its run; a tool's call is running or has its entry. */
  ghost predicate CallsInv(s: State) {
    && (forall call :: call in s.stages ==> call < s.next)
    && (forall k :: 0 <= k < |s.served| ==> s.served[k].call < s.next)
    && (forall j, k :: 0 <= j < k < |s.served| ==> s.served[j].call != s.served[k].call)
    && (forall k :: 0 <= k < |s.served| && s.served[k].call in s.stages ==>
          s.served[k].Tool? && s.stages[s.served[k].call].Running?)
    && (forall k :: 0 <= k < |s.served| && s.served[k].Tool? ==>
          s.served[k].call in s.stages || HasEntry(s.audit, s.served[k].call))
  }

  lemma AdmissionKeepsCalls(cfg: Config, s: State, call: nat, now: int, contents: Result<string, McpError>)
    requires CallsInv(s) && call in s.stages && s.stages[call].Authorized?
    ensures CallsInv(Admission(cfg, s, call, now, contents).0)
  {
    AdmissionBooks(cfg, s, call, now, contents);
    hide Admission, HasEntry;
    var t := Admission(cfg, s, call, now, contents).0;
    assert forall k :: 0 <= k < |s.served| ==> s.served[k].call != call;
  }

  lemma FinishingKeepsCalls(s: State, call: nat, outcome: Result<string, McpError>, timestamp: string, durationMs: nat)
    requires CallsInv(s) && call in s.stages && s.stages[call].Running?
    ensures CallsInv(Finishing(s, call, outcome, timestamp, durationMs).0)
  {
    hide Status;
    var t := Finishing(s, call, outcome, timestamp, durationMs).0;
    assert t.audit[|s.audit|].0 == call;
    forall k | 0 <= k < |s.served| && s.served[k].Tool?
      ensures s.served[k].call in t.stages || HasEntry(t.audit, s.served[k].call)
    {
      if s.served[k].call != call && s.served[k].call !in s.stages {
        var j :| 0 <= j < |s.audit| && s.audit[j].0 == s.served[k].call;
        assert t.audit[j] == s.audit[j];
      }
    }
  }

  lemma ArrivalKeepsCalls(cfg: Config, s: State, e: Event)
    requires CallsInv(s) && e.Arrive?
    ensures CallsInv(Step(cfg, s, e).0)
  {
    hide Authorize, Touch, HasEntry;
  }

  lemma StepKeepsCalls(cfg: Config, s: State, e: Event)
    requires CallsInv(s) && Enabled(s, e)
    ensures CallsInv(Step(cfg, s, e).0)
  {
    hide Admission, Finishing, HasEntry, WithoutClient;
    match e
    case Admit(call, now, contents) => AdmissionKeepsCalls(cfg, s, call, now, contents);
    case Finish(call, outcome, timestamp, durationMs) => FinishingKeepsCalls(s, call, outcome, timestamp, durationMs);
    case Arrive(_, _, _, _) => ArrivalKeepsCalls(cfg, s, e);
    case _ =>
  }

  lemma {:induction false} RunKeepsCalls(cfg: Config, trace: seq<State>, events: seq<Event>, n: nat)
    requires IsRun(cfg, trace, events) && n <= |events|
    ensures CallsInv(trace[n])
  {
    if n > 0 {
      RunKeepsCalls(cfg, trace, events, n - 1);
      hide CallsInv, Step;
      StepKeepsCalls(cfg, trace[n - 1], events[n - 1]);
    }
  }

  /** Event `i` is the end of call `call`, and `entry` tells of it. */
  predicate EndsAs(events: seq<Event>, i: int, call: nat, entry: AuditEntry) {
    && 0 <= i < |events| && events[i].Finish? && events[i].call == call
    && entry.status == Status(events[i].outcome)
    && entry.timestamp == events[i].timestamp && entry.durationMs == events[i].durationMs
  }

  ghost predicate Ended(events: seq<Event>, n: nat, call: nat, entry: AuditEntry) {
    exists i :: i < n && EndsAs(events, i, call, entry)
  }

  lemma AuditComesFrom(cfg: Config, s: State, e: Event)
    requires Enabled(s, e)
    ensures var t := Step(cfg, s, e).0;
            if e.Finish? then
              && |t.audit| == |s.audit| + 1 && t.audit[..|s.audit|] == s.audit && t.audit[|s.audit|].0 == e.call
              && t.audit[|s.audit|].1.status == Status(e.outcome)
              && t.audit[|s.audit|].1.timestamp == e.timestamp && t.audit[|s.audit|].1.durationMs == e.durationMs
            else t.audit == s.audit
  {
    hide Status, Admits, Record, CheckTool, CheckResource, Authorize, Touch, WithoutClient;
  }

  lemma {:induction false} EntriesTellOutcomes(cfg: Config, trace: seq<State>, events: seq<Event>, n: nat)
    requires IsRun(cfg, trace, events) && n <= |events|
    ensures forall k :: 0 <= k < |trace[n].audit| ==> Ended(events, n, trace[n].audit[k].0, trace[n].audit[k].1)
  {
    if n > 0 {
      EntriesTellOutcomes(cfg, trace, events, n - 1);
      var s, e, t := trace[n - 1], events[n - 1], trace[n];
      AuditComesFrom(cfg, s, e);
      hide Step, Enabled, Status;
      forall k | 0 <= k < |t.audit| ensures Ended(events, n, t.audit[k].0, t.audit[k].1) {
        if k < |s.audit| {
          assert t.audit[k] == s.audit[k];
          var i :| i < n - 1 && EndsAs(events, i, t.audit[k].0, t.audit[k].1);
        } else {
          assert EndsAs(events, n - 1, t.audit[k].0, t.audit[k].1);
        }
      }
    }
  }

  /** In every run the audit log has exactly one entry for each tool run that has finished and
   *  nothing else. Tool runs have calls of their own. Each is either running or has an entry,
   *  never both; each entry is that of one such run, with its client and tool, and tells how,
   *  when and after how long the run ended. */
  lemma AuditIsExact(cfg: Config, trace: seq<State>, events: seq<Event>)
    requires IsRun(cfg, trace, events)
    ensures var s := trace[|events|];
            && |s.audit| == ToolRuns(s.served) - |RunningCalls(s)|
            && (forall j, k :: 0 <= j < k < |s.served| ==> s.served[j].call != s.served[k].call)
            && (forall k :: 0 <= k < |s.served| && s.served[k].Tool? ==>
                  (HasEntry(s.audit, s.served[k].call) <==> s.served[k].call !in s.stages))
            && (forall k :: 0 <= k < |s.served| && s.served[k].Tool? && s.served[k].call in s.stages ==>
                  s.stages[s.served[k].call].Running?)
            && (forall j, k :: 0 <= j < k < |s.audit| ==> s.audit[j].0 != s.audit[k].0)
            && (forall k :: 0 <= k < |s.audit| ==>
                  && s.audit[k].0 !in s.stages
                  && Recorded(s.served, s.audit[k].0, s.audit[k].1)
                  && Ended(events, |events|, s.audit[k].0, s.audit[k].1))
  {
    RunKeepsInvariants(cfg, trace, events, |events|);
    RunKeepsCalls(cfg, trace, events, |events|);
    EntriesTellOutcomes(cfg, trace, events, |events|);
    hide Recorded, Ended, IsRun, RateInv, ScopeInv, ToolRuns, RunningCalls, Ran;
  }
}

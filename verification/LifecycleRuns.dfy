/** Rows, keychain and pools agree over whole runs (src-tauri/src/connection/commands.rs). */
module LifecycleRuns {
  import opened Wrappers
  import opened Lifecycle
  import Text

  // ---------------------------------------------------------------------------
  // Agreement.
  // ---------------------------------------------------------------------------

  /** What the three stores hold for one connection. */
  datatype View = View(row: Option<Row>, secret: Option<string>, pool: Option<Pool>)

  function At(s: State, id: string): View {
    View(if id in s.rows then Some(s.rows[id]) else None,
         s.Secret(id),
         if id in s.pools then Some(s.pools[id]) else None)
  }

  /** A pool has a row and is what would be built for it now; a row claims a password exactly
   *  when the keychain has one; there are no stray secrets. */
  predicate Coherent(v: View) {
    && (v.pool.Some? ==> v.row.Some? && v.pool.value == BuildFor(v.row.value.endpoint, v.secret))
    && (v.row.Some? ==> (v.row.value.hasPassword <==> v.secret.Some?))
    && (v.secret.Some? ==> v.row.Some?)
  }

  ghost predicate NamesUnique(s: State) {
    forall a, b :: a in s.rows && b in s.rows && a != b ==> s.rows[a].name != s.rows[b].name
  }

  ghost predicate Agrees(s: State) {
    (forall id :: Coherent(At(s, id))) && NamesUnique(s)
  }

  // ---------------------------------------------------------------------------
  // Steps.
  // ---------------------------------------------------------------------------

  datatype Event =
    | Create(id: string, input: Input, password: Option<string>, storeFault: StoreFault, keychainFault: Option<string>)
    | Update(id: string, input: Input, change: UpdatePassword, keychainFault: Option<string>, storeFault: StoreFault)
    | Delete(id: string, keychainFault: Option<string>, deleteFault: Option<string>)
    | Connect(id: string, keychainFault: Option<string>, syncFault: bool, buildFault: Option<string>, probe: Probe)
    | Disconnect(id: string)
    | Configure(id: string, settings: string)
    | Forget(id: string)

  /** New rows get ids never used before; the rest is always possible. */
  predicate Enabled(s: State, e: Event) {
    e.Create? ==> e.id !in s.rows && e.id !in s.keychain && e.id !in s.pools
  }

  function Step(s: State, e: Event): State {
    match e
    case Create(id, input, password, storeFault, keychainFault) =>
      Created(s, id, input, password, storeFault, keychainFault).0
    case Update(id, input, change, keychainFault, storeFault) =>
      Updated(s, id, input, change, keychainFault, storeFault).0
    case Delete(id, keychainFault, deleteFault) => DeletedFrom(s, id, keychainFault, deleteFault).0
    case Connect(id, keychainFault, syncFault, buildFault, probe) =>
      Connected(s, id, keychainFault, syncFault, buildFault, probe).0
    case Disconnect(id) => s.(pools := s.pools - {id})
    case Configure(id, settings) =>
      if id in s.rows then s.(rows := s.rows[id := s.rows[id].(settings := settings)]) else s
    case Forget(id) => s.(keychain := s.keychain - {id})
  }

  /** The secret after an update has changed the keychain. */
  function Changed(secret: Option<string>, change: UpdatePassword): Option<string> {
    match change
    case Keep => secret
    case Set(value) => Some(value)
    case Clear => None
  }

  /** The operations that stop half way between their writes in a way that leaves the stores
   *  apart, and a backend that loses an entry. */
  predicate Tears(s: State, e: Event) {
    match e
    case Create(id, input, password, storeFault, keychainFault) =>
      && WriteRow(s.rows, id, input, true, storeFault).Ok? && PasswordPresent(password)
      && (storeFault.ReadBackFails? || keychainFault.Some?)
    case Update(id, input, change, keychainFault, storeFault) =>
      && id in s.rows && (change.Keep? || keychainFault.None?)
      && (if WriteRow(s.rows, id, input, s.rows[id].hasPassword, storeFault).Err? then
            match change
            case Keep => false
            case Set(value) => id !in s.keychain || (id in s.pools && s.keychain[id] != value)
            case Clear => id in s.keychain
          else
            && storeFault.ReadBackFails? && id in s.pools
            && s.pools[id] != BuildFor(input.endpoint, Changed(s.Secret(id), change)))
    case Delete(id, keychainFault, deleteFault) => keychainFault.None? && deleteFault.Some? && id in s.keychain
    case Forget(id) => id in s.keychain
    case _ => false
  }

  // ---------------------------------------------------------------------------
  // Proofs.
  // ---------------------------------------------------------------------------

  /** A step touches only what the stores hold for its own connection. */
  lemma StepIsLocal(s: State, e: Event, other: string)
    requires other != e.id
    ensures At(Step(s, e), other) == At(s, other)
  {
    hide Validate, NameTaken, BuildFor;
  }

  /** Names stay apart when one row changes to a name that no other row has. */
  lemma NamesAfterWrite(rows: map<string, Row>, t: State, id: string, row: Row)
    requires forall a, b :: a in rows && b in rows && a != b ==> rows[a].name != rows[b].name
    requires !NameTaken(rows, id, row.name) && t.rows == rows[id := row]
    ensures NamesUnique(t)
  {
  }

  lemma CreateKeepsNames(s: State, e: Event)
    requires NamesUnique(s) && e.Create?
    ensures NamesUnique(Step(s, e))
  {
    hide Validate;
    if Step(s, e).rows != s.rows {
      NamesAfterWrite(s.rows, Step(s, e), e.id, Step(s, e).rows[e.id]);
    }
  }

  lemma UpdateKeepsNames(s: State, e: Event)
    requires NamesUnique(s) && e.Update?
    ensures NamesUnique(Step(s, e))
  {
    hide Validate;
    if Step(s, e).rows != s.rows {
      NamesAfterWrite(s.rows, Step(s, e), e.id, Step(s, e).rows[e.id]);
    }
  }

  lemma StepKeepsNames(s: State, e: Event)
    requires NamesUnique(s)
    ensures NamesUnique(Step(s, e))
  {
    match e
    case Create(_, _, _, _, _) => CreateKeepsNames(s, e);
    case Update(_, _, _, _, _) => UpdateKeepsNames(s, e);
    case Connect(_, _, _, _, _) => hide BuildFor;
    case _ =>
  }

  lemma CreateCoheres(s: State, e: Event)
    requires Coherent(At(s, e.id)) && Enabled(s, e) && e.Create?
    ensures Coherent(At(Step(s, e), e.id)) <==> !Tears(s, e)
  {
    hide Validate, NameTaken, BuildFor;
  }

  lemma UpdateCoheres(s: State, e: Event)
    requires Coherent(At(s, e.id)) && e.Update?
    ensures Coherent(At(Step(s, e), e.id)) <==> !Tears(s, e)
  {
    hide Validate, NameTaken;
  }

  lemma OtherCoheres(s: State, e: Event)
    requires Coherent(At(s, e.id)) && !e.Create? && !e.Update?
    ensures Coherent(At(Step(s, e), e.id)) <==> !Tears(s, e)
  {
    hide BuildFor, WriteRow;
  }

  /** A step keeps the three stores in agreement exactly when it does not tear them apart. */
  lemma StepAgreesExactly(s: State, e: Event)
    requires Agrees(s) && Enabled(s, e)
    ensures Agrees(Step(s, e)) <==> !Tears(s, e)
  {
    hide Coherent, At, Tears, Step, NamesUnique;
    StepKeepsNames(s, e);
    match e {
      case Create(_, _, _, _, _) => CreateCoheres(s, e);
      case Update(_, _, _, _, _) => UpdateCoheres(s, e);
      case _ => OtherCoheres(s, e);
    }
    forall id | id != e.id ensures Coherent(At(Step(s, e), id)) {
      StepIsLocal(s, e, id);
      assert Coherent(At(s, id));
    }
  }

  ghost predicate IsRun(trace: seq<State>, events: seq<Event>) {
    && |trace| == |events| + 1 && trace[0] == State(map[], map[], map[])
    && forall i :: 0 <= i < |events| ==> Enabled(trace[i], events[i]) && trace[i + 1] == Step(trace[i], events[i])
  }

  /** In every run without a torn operation, each pool is what its row and secret call for,
   *  every pool has a row, and a row claims a password exactly when there is one. */
  lemma {:induction false} RunAgrees(trace: seq<State>, events: seq<Event>, n: nat)
    requires IsRun(trace, events) && n <= |events|
    requires forall i :: 0 <= i < n ==> !Tears(trace[i], events[i])
    ensures Agrees(trace[n])
  {
    if n > 0 {
      RunAgrees(trace, events, n - 1);
      hide Agrees, Tears, Step;
      StepAgreesExactly(trace[n - 1], events[n - 1]);
    }
  }

  // ---------------------------------------------------------------------------
  // Rows.
  // ---------------------------------------------------------------------------

  predicate RowValid(row: Row) {
    && !Text.Blank(row.name) && |row.name| <= 80
    && !Text.Blank(row.endpoint.host) && !Text.Blank(row.endpoint.database) && !Text.Blank(row.endpoint.username)
  }

  ghost predicate RowsValid(s: State) {
    forall id :: id in s.rows ==> RowValid(s.rows[id])
  }

  lemma StepKeepsRowsValid(s: State, e: Event)
    requires RowsValid(s)
    ensures RowsValid(Step(s, e))
  {
    hide NameTaken, BuildFor, Text.Blank;
  }

  /** Whatever fails and whatever gets torn, no run makes two rows share a name or lets in a row
   *  with a blank field or a name of more than 80 characters. */
  lemma {:induction false} RunKeepsRows(trace: seq<State>, events: seq<Event>, n: nat)
    requires IsRun(trace, events) && n <= |events|
    ensures NamesUnique(trace[n]) && RowsValid(trace[n])
  {
    if n > 0 {
      RunKeepsRows(trace, events, n - 1);
      hide NamesUnique, RowsValid, Step;
      StepKeepsNames(trace[n - 1], events[n - 1]);
      StepKeepsRowsValid(trace[n - 1], events[n - 1]);
    }
  }

  // ---------------------------------------------------------------------------
  // Repair.
  // ---------------------------------------------------------------------------

  /** A backend that lost an entry: the next connect fails, says why, and corrects the row. It
   *  restores agreement exactly when no pool is registered: a pool that was built with the lost
   *  password stays. */
  lemma ConnectRepairsExactly(s: State, id: string, buildFault: Option<string>, probe: Probe)
    requires Agrees(s) && id in s.rows && id in s.keychain
    ensures var lost := Step(s, Forget(id)); var (t, r) := Connected(lost, id, None, false, buildFault, probe);
            && !Agrees(lost) && r == Err(PasswordMissing(s.rows[id].name))
            && id in t.rows && !t.rows[id].hasPassword
            && (Agrees(t) <==> id !in s.pools)
  {
    var lost := Step(s, Forget(id));
    StepAgreesExactly(s, Forget(id));
    assert Coherent(At(s, id));
    var t := Connected(lost, id, None, false, buildFault, probe).0;
    assert NamesUnique(t) by {
      StepKeepsNames(s, Forget(id));
      StepKeepsNames(lost, Connect(id, None, false, buildFault, probe));
    }
    hide NamesUnique;
    assert Coherent(At(t, id)) <==> id !in s.pools;
    forall other | other != id ensures Coherent(At(t, other)) {
      assert Coherent(At(s, other)) && At(t, other) == At(s, other);
    }
  }

  /** After an update that changes what the pool depends on, no stale pool is left; after one
   *  that does not, the pool is left alone. */
  lemma UpdateEvictsExactly(s: State, id: string, input: Input, change: UpdatePassword)
    requires Agrees(s) && id in s.pools
    requires Updated(s, id, input, change, None, NoFault).1.Ok?
    ensures var t := Updated(s, id, input, change, None, NoFault).0;
            id in t.pools <==> s.rows[id].endpoint == input.endpoint && change.Keep?
  {
    hide WriteRow, BuildFor;
  }

  /** A pool is determined by what it was built from, but for the two modes that the driver and
   *  the verifier treat alike: any other change of endpoint or password calls for a new pool. */
  lemma BuildForExact(a: Endpoint, b: Endpoint, p: Option<string>, q: Option<string>)
    ensures BuildFor(a, p) == BuildFor(b, q) <==>
            p == q && (a == b || (a.sslMode in {Allow, Prefer} && b.sslMode in {Allow, Prefer}
                                  && b == a.(sslMode := b.sslMode)))
  {
  }

  lemma VerifiedOnlyIfRequired(mode: SslMode)
    ensures Flavor(mode) == NoTls <==> PgMode(mode) == PgDisable
    ensures Flavor(mode) in {CheckCa, CheckFull} ==> PgMode(mode) == PgRequire
  {
  }

  /** In every run without a torn operation, a registered pool leaves out TLS exactly when its row
   *  disables it, in which case the driver does not negotiate it either; it verifies the server
   *  exactly when the row asks for that, and then insists on TLS. */
  lemma PoolsAreAsStrictAsRows(trace: seq<State>, events: seq<Event>, n: nat, id: string)
    requires IsRun(trace, events) && n <= |events| && id in trace[n].pools
    requires forall i :: 0 <= i < n ==> !Tears(trace[i], events[i])
    ensures var s := trace[n];
            && id in s.rows
            && (s.pools[id].flavor == NoTls <==> s.rows[id].endpoint.sslMode == Disable)
            && (s.pools[id].flavor == NoTls <==> s.pools[id].pgMode == PgDisable)
            && (s.pools[id].flavor in {CheckCa, CheckFull} <==> s.rows[id].endpoint.sslMode in {VerifyCa, VerifyFull})
            && (s.pools[id].flavor in {CheckCa, CheckFull} ==> s.pools[id].pgMode == PgRequire)
  {
    RunAgrees(trace, events, n);
    assert Coherent(At(trace[n], id));
    VerifiedOnlyIfRequired(trace[n].rows[id].endpoint.sslMode);
    hide PgMode, NamesUnique, Step, Tears, IsRun;
  }
}

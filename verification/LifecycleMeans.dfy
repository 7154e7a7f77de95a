/** What the answers of the connection operations mean for row, secret and pool, one operation at a
 *  time and over whole runs (src-tauri/src/connection/commands.rs, store.rs, pool.rs).
 */
module LifecycleMeans {
  import opened Wrappers
  import opened Lifecycle
  import opened LifecycleRuns
  import Text
  import CopyName

  // ---------------------------------------------------------------------------
  // The store.
  // ---------------------------------------------------------------------------

  function RowOf(input: Input, hasPassword: bool): Row {
    Row(input.name, input.endpoint, hasPassword, input.settings)
  }

  /** A row is written exactly when its fields are filled in, its name is at most 80 characters
   *  long and no other row's, and the store works; then it holds what was given. */
  lemma WriteRowExactly(rows: map<string, Row>, id: string, input: Input, hasPassword: bool, fault: StoreFault)
    ensures var r := WriteRow(rows, id, input, hasPassword, fault);
            && (r.Ok? <==> RowValid(RowOf(input, hasPassword)) && !NameTaken(rows, id, input.name) && !fault.WriteFails?)
            && (r.Ok? ==> r.value == rows[id := RowOf(input, hasPassword)])
            && (r.Err? ==>
                  if !RowValid(RowOf(input, hasPassword)) then r.error.InvalidInput?
                  else if NameTaken(rows, id, input.name) then r.error == DuplicateName(input.name)
                  else r.error == Storage(fault.message))
  {
    hide NameTaken, Text.Blank;
  }

  /** The row can be written. */
  predicate Writable(s: State, id: string, input: Input, fault: StoreFault) {
    RowValid(RowOf(input, false)) && !NameTaken(s.rows, id, input.name) && !fault.WriteFails?
  }

  lemma WritableMeans(s: State, id: string, input: Input, hasPassword: bool, fault: StoreFault)
    ensures WriteRow(s.rows, id, input, hasPassword, fault).Ok? <==> Writable(s, id, input, fault)
    ensures Writable(s, id, input, fault) ==>
              WriteRow(s.rows, id, input, hasPassword, fault).value == s.rows[id := RowOf(input, hasPassword)]
    ensures !Writable(s, id, input, fault) ==> !WriteRow(s.rows, id, input, hasPassword, fault).error.NotFound?
  {
    WriteRowExactly(s.rows, id, input, hasPassword, fault);
    hide NameTaken, Text.Blank, WriteRow;
  }

  /** Why the store refused or failed: a blank or overlong field, a name that is taken, or itself. */
  predicate IsStoreError(s: State, id: string, input: Input, fault: StoreFault, e: Error) {
    if !RowValid(RowOf(input, false)) then e.InvalidInput?
    else if NameTaken(s.rows, id, input.name) then e == DuplicateName(input.name)
    else !fault.NoFault? && e == Storage(fault.message)
  }

  /** Each failure of a creation and of an update is reported as what it is. */
  lemma FailuresAreTold(s: State, id: string, input: Input, password: Option<string>, change: UpdatePassword,
                        storeFault: StoreFault, keychainFault: Option<string>)
    ensures var r := Created(s, id, input, password, storeFault, keychainFault).1;
            r.Err? ==> if Writable(s, id, input, storeFault) && storeFault.NoFault?
                       then keychainFault.Some? && r.error == Keychain(keychainFault.value)
                       else IsStoreError(s, id, input, storeFault, r.error)
    ensures var r := Updated(s, id, input, change, keychainFault, storeFault).1;
            r.Err? ==> if id !in s.rows then r.error == NotFound(id)
                       else if !Begins(s, id, change, keychainFault) then r.error == Keychain(keychainFault.value)
                       else IsStoreError(s, id, input, storeFault, r.error)
  {
    WriteRowExactly(s.rows, id, input, PasswordPresent(password), storeFault);
    if id in s.rows {
      WriteRowExactly(s.rows, id, input, if change.Keep? then s.rows[id].hasPassword else change.Set?, storeFault);
    }
    hide WriteRow, NameTaken, Text.Blank;
  }

  /** A password that was given, unless it is empty. */
  function Given(password: Option<string>): Option<string> {
    if password == Some("") then None else password
  }

  // ---------------------------------------------------------------------------
  // One operation.
  // ---------------------------------------------------------------------------

  /** Of the three stores only what they hold for `id` may differ. */
  ghost predicate OthersKept(s: State, t: State, id: string) {
    forall other :: other != id ==> At(t, other) == At(s, other)
  }

  /** A creation succeeds exactly when the row can be written and read back and the keychain takes
   *  the password, if one is given. Then the row holds what was given, the keychain the given
   *  password under the row's id, and there is no pool it did not have. A creation that fails
   *  leaves no secret and no pool, and a row only when the read-back or the keychain failed. */
  lemma CreateMeans(s: State, id: string, input: Input, password: Option<string>,
                    storeFault: StoreFault, keychainFault: Option<string>)
    requires Enabled(s, Create(id, input, password, storeFault, keychainFault))
    ensures var (t, r) := Created(s, id, input, password, storeFault, keychainFault);
            var row := RowOf(input, Given(password).Some?);
            && (r.Ok? <==> Writable(s, id, input, storeFault) && storeFault.NoFault?
                           && (Given(password).Some? ==> keychainFault.None?))
            && (r.Ok? ==> r.value == row && At(t, id) == View(Some(row), Given(password), None))
            && (r.Err? ==> At(t, id) == View(if Writable(s, id, input, storeFault) then Some(row) else None, None, None))
            && OthersKept(s, t, id)
  {
    assert Given(password).Some? <==> PasswordPresent(password);
    WritableMeans(s, id, input, PasswordPresent(password), storeFault);
    hide Writable, WriteRow, PasswordPresent;
    forall other | other != id ensures At(Created(s, id, input, password, storeFault, keychainFault).0, other) == At(s, other) {
    }
  }

  /** The update gets as far as the row. */
  predicate Begins(s: State, id: string, change: UpdatePassword, keychainFault: Option<string>) {
    id in s.rows && (change.Keep? || keychainFault.None?)
  }

  /** An update succeeds exactly when there is a row, the keychain takes the change, if there is
   *  one, and the row can be written and read back. */
  lemma UpdateSucceedsExactly(s: State, id: string, input: Input, change: UpdatePassword,
                              keychainFault: Option<string>, storeFault: StoreFault)
    ensures var r := Updated(s, id, input, change, keychainFault, storeFault).1;
            && (r.Ok? <==> Begins(s, id, change, keychainFault) && Writable(s, id, input, storeFault) && storeFault.NoFault?)
            && (r.Err? && r.error.NotFound? <==> id !in s.rows)
            && (r.Err? && r.error.Keychain? <==> id in s.rows && !Begins(s, id, change, keychainFault))
  {
    if id in s.rows {
      WritableMeans(s, id, input, if change.Keep? then s.rows[id].hasPassword else change.Set?, storeFault);
    }
    hide Writable, WriteRow;
  }

  /** After a success the row holds what was given, the secret is as asked, and the pool is gone
   *  exactly when endpoint or password were to change. An update that fails has changed the
   *  secret as asked all the same, if the row was there and the keychain worked; the row only
   *  when the read-back failed; and it keeps the pool. */
  lemma UpdateMeans(s: State, id: string, input: Input, change: UpdatePassword,
                    keychainFault: Option<string>, storeFault: StoreFault)
    ensures var (t, r) := Updated(s, id, input, change, keychainFault, storeFault);
            && (Begins(s, id, change, keychainFault) ==>
                  var row := RowOf(input, if change.Keep? then s.rows[id].hasPassword else change.Set?);
                  && (r.Ok? ==> r.value == row)
                  && At(t, id).row == Some(if Writable(s, id, input, storeFault) then row else s.rows[id])
                  && At(t, id).secret == Changed(s.Secret(id), change)
                  && At(t, id).pool == (if r.Ok? && (s.rows[id].endpoint != input.endpoint || !change.Keep?) then None
                                        else At(s, id).pool))
            && (!Begins(s, id, change, keychainFault) ==> t == s)
            && OthersKept(s, t, id)
  {
    if Begins(s, id, change, keychainFault) {
      UpdateChanges(s, id, input, change, keychainFault, storeFault);
    }
    forall other | other != id ensures At(Updated(s, id, input, change, keychainFault, storeFault).0, other) == At(s, other) {
      StepIsLocal(s, Update(id, input, change, keychainFault, storeFault), other);
    }
    hide Writable, WriteRow;
  }

  lemma UpdateChanges(s: State, id: string, input: Input, change: UpdatePassword,
                      keychainFault: Option<string>, storeFault: StoreFault)
    requires Begins(s, id, change, keychainFault)
    ensures var (t, r) := Updated(s, id, input, change, keychainFault, storeFault);
            var row := RowOf(input, if change.Keep? then s.rows[id].hasPassword else change.Set?);
            && (r.Ok? ==> r.value == row)
            && At(t, id).row == Some(if Writable(s, id, input, storeFault) then row else s.rows[id])
            && At(t, id).secret == Changed(s.Secret(id), change)
            && At(t, id).pool == (if r.Ok? && (s.rows[id].endpoint != input.endpoint || !change.Keep?) then None
                                  else At(s, id).pool)
  {
    WritableMeans(s, id, input, if change.Keep? then s.rows[id].hasPassword else change.Set?, storeFault);
    hide Writable, WriteRow;
  }

  /** A deletion succeeds exactly when there is a row and both stores work; then nothing is left
   *  of the connection. One that fails at the keychain changes nothing; one that fails later has
   *  removed secret and pool and keeps the row, so that it can be repeated. */
  lemma DeleteMeans(s: State, id: string, keychainFault: Option<string>, deleteFault: Option<string>)
    ensures var (t, r) := DeletedFrom(s, id, keychainFault, deleteFault);
            && (r.Ok? <==> id in s.rows && keychainFault.None? && deleteFault.None?)
            && (r == Err(NotFound(id)) <==> id !in s.rows && keychainFault.None? && deleteFault.None?)
            && (keychainFault.Some? ==> t == s)
            && (keychainFault.None? ==> At(t, id) == View(if r.Ok? then None else At(s, id).row, None, None))
            && OthersKept(s, t, id)
  {
  }

  /** A pool connects to the row's own server and database as the row's own user, with that
   *  password, and no more loosely than the row's mode allows. */
  predicate ConnectsTo(pool: Pool, row: Row, password: Option<string>) {
    var e := row.endpoint;
    && pool.host == e.host && pool.port == e.port && pool.database == e.database && pool.username == e.username
    && pool.password == password
    && (pool.pgMode == PgDisable <==> e.sslMode == Disable)
    && (pool.pgMode == PgPrefer <==> e.sslMode in {Allow, Prefer})
    && (pool.flavor == NoTls <==> e.sslMode == Disable)
    && (pool.flavor == CheckCa <==> e.sslMode == VerifyCa)
    && (pool.flavor == CheckFull <==> e.sslMode == VerifyFull)
  }

  /** A connect succeeds exactly when there is a row, the keychain answers, and has the password
   *  if the row claims one, the pool can be built and the server answers the probe. Then the pool
   *  is one to the row's server with the keychain's password. A connect that fails leaves pools
   *  and secrets, and of the rows at most corrects a wrong claim. A missing password is reported
   *  as such exactly when the row claims one that is gone, or the server asks for one there
   *  never was. */
  lemma ConnectMeans(s: State, id: string, keychainFault: Option<string>, syncFault: bool,
                     buildFault: Option<string>, probe: Probe)
    ensures var (t, r) := Connected(s, id, keychainFault, syncFault, buildFault, probe);
            var lost := id in s.rows && keychainFault.None? && s.rows[id].hasPassword && id !in s.keychain;
            && (r.Ok? <==> id in s.rows && keychainFault.None? && !lost && buildFault.None? && probe == Answers)
            && (r == Err(NotFound(id)) <==> id !in s.rows)
            && (r.Err? && r.error.PasswordMissing? <==>
                  lost || (id in s.rows && keychainFault.None? && id !in s.keychain && buildFault.None?
                           && probe.DemandsPassword?))
            && (r.Err? && r.error.PasswordMissing? ==> r.error.name == s.rows[id].name)
            && t.keychain == s.keychain
            && t.rows == (if lost && !syncFault then s.rows[id := s.rows[id].(hasPassword := false)] else s.rows)
            && (if r.Ok? then id in t.pools && ConnectsTo(t.pools[id], s.rows[id], s.Secret(id)) else t.pools == s.pools)
            && OthersKept(s, t, id)
  {
  }

  /** Each failure of a deletion and of a connect is reported as what it is. */
  lemma LaterFailuresAreTold(s: State, id: string, keychainFault: Option<string>, deleteFault: Option<string>,
                             syncFault: bool, buildFault: Option<string>, probe: Probe)
    ensures var r := DeletedFrom(s, id, keychainFault, deleteFault).1;
            r.Err? ==> if keychainFault.Some? then r.error == Keychain(keychainFault.value)
                       else if deleteFault.Some? then r.error == Storage(deleteFault.value)
                       else r.error == NotFound(id)
    ensures var r := Connected(s, id, keychainFault, syncFault, buildFault, probe).1;
            r.Err? && !r.error.PasswordMissing? ==>
              if id !in s.rows then r.error == NotFound(id)
              else if keychainFault.Some? then r.error == Keychain(keychainFault.value)
              else if buildFault.Some? then r.error == Postgres(buildFault.value)
              else if probe == TimesOut then r.error.Io?
              else r.error == Postgres(probe.message)
  {
  }

  /** An update that is refused because of its name may have changed the password. */
  lemma RefusedUpdateChangesPassword(s: State, id: string, other: string, password: string)
    requires id in s.rows && other in s.rows && other != id && RowValid(s.rows[other])
    requires s.Secret(id) != Some(password)
    ensures var input := Input(s.rows[other].name, s.rows[other].endpoint, "");
            var (t, r) := Updated(s, id, input, Set(password), None, NoFault);
            r == Err(DuplicateName(s.rows[other].name)) && t.Secret(id) == Some(password) != s.Secret(id)
            && t.rows == s.rows
  {
    var input := Input(s.rows[other].name, s.rows[other].endpoint, "");
    WriteRowExactly(s.rows, id, input, true, NoFault);
    assert NameTaken(s.rows, id, input.name);
    hide WriteRow, NameTaken, Text.Blank;
  }

  // ---------------------------------------------------------------------------
  // Whole runs.
  // ---------------------------------------------------------------------------

  predicate Succeeds(s: State, e: Event) {
    match e
    case Create(id, input, password, storeFault, keychainFault) =>
      Created(s, id, input, password, storeFault, keychainFault).1.Ok?
    case Update(id, input, change, keychainFault, storeFault) =>
      Updated(s, id, input, change, keychainFault, storeFault).1.Ok?
    case Delete(id, keychainFault, deleteFault) => DeletedFrom(s, id, keychainFault, deleteFault).1.Ok?
    case Connect(id, keychainFault, syncFault, buildFault, probe) =>
      Connected(s, id, keychainFault, syncFault, buildFault, probe).1.Ok?
    case _ => true
  }

  /** What a step asks of the secret of `id` and gets: a creation that succeeds, an update or a
   *  deletion that reaches the keychain, or a backend that forgets. */
  function Gives(s: State, e: Event, id: string): UpdatePassword {
    if e.id != id then Keep
    else
      match e
      case Create(_, _, password, _, _) =>
        if Succeeds(s, e) && Given(password).Some? then Set(password.value) else Keep
      case Update(_, _, change, keychainFault, _) => if id in s.rows && keychainFault.None? then change else Keep
      case Delete(_, keychainFault, _) => if keychainFault.None? then Clear else Keep
      case Forget(_) => Clear
      case _ => Keep
  }

  lemma StepGives(s: State, e: Event, id: string)
    requires Enabled(s, e)
    ensures Step(s, e).Secret(id) == Changed(s.Secret(id), Gives(s, e, id))
  {
    if e.id != id {
      StepIsLocal(s, e, id);
      assert At(Step(s, e), id).secret == At(s, id).secret;
    } else {
      match e
      case Create(_, input, password, storeFault, keychainFault) => CreateMeans(s, id, input, password, storeFault, keychainFault);
      case Update(_, input, change, keychainFault, storeFault) => UpdateMeans(s, id, input, change, keychainFault, storeFault);
      case Delete(_, keychainFault, deleteFault) => DeleteMeans(s, id, keychainFault, deleteFault);
      case Connect(_, keychainFault, syncFault, buildFault, probe) => ConnectMeans(s, id, keychainFault, syncFault, buildFault, probe);
      case _ =>
    }
  }

  /** In every run, whatever fails or gets torn, the secret of an id is the one last given. */
  lemma {:induction false} SecretIsLastGiven(trace: seq<State>, events: seq<Event>, j: nat, n: nat, id: string)
    requires IsRun(trace, events) && j < n <= |events| && !Gives(trace[j], events[j], id).Keep?
    requires forall k :: j < k < n ==> Gives(trace[k], events[k], id).Keep?
    ensures trace[n].Secret(id) == Changed(None, Gives(trace[j], events[j], id))
    decreases n
  {
    hide Gives, Step, Enabled;
    StepGives(trace[n - 1], events[n - 1], id);
    if j < n - 1 {
      SecretIsLastGiven(trace, events, j, n - 1, id);
    }
  }

  /** One that was never given is not there. */
  lemma {:induction false} NoSecretUnlessGiven(trace: seq<State>, events: seq<Event>, n: nat, id: string)
    requires IsRun(trace, events) && n <= |events|
    requires forall k :: 0 <= k < n ==> Gives(trace[k], events[k], id).Keep?
    ensures trace[n].Secret(id) == None
  {
    if n > 0 {
      hide Gives, Step, Enabled;
      StepGives(trace[n - 1], events[n - 1], id);
      NoSecretUnlessGiven(trace, events, n - 1, id);
    }
  }

  /** The step writes the row of `id` with this input. */
  predicate Writes(s: State, e: Event, id: string, input: Input) {
    e.id == id
    && match e
       case Create(_, i, _, storeFault, _) => i == input && Writable(s, id, input, storeFault)
       case Update(_, i, change, keychainFault, storeFault) =>
         && i == input && id in s.rows && (change.Keep? || keychainFault.None?) && Writable(s, id, input, storeFault)
       case _ => false
  }

  /** The row has the name and the endpoint of the input. */
  predicate Shows(s: State, id: string, input: Input) {
    id in s.rows && s.rows[id].name == input.name && s.rows[id].endpoint == input.endpoint
  }

  /** Step `j` wrote this input, and no step since then another. */
  ghost predicate LastWrote(trace: seq<State>, events: seq<Event>, j: int, n: nat, id: string, input: Input)
    requires |trace| == |events| + 1 && n <= |events|
  {
    && 0 <= j < n && Writes(trace[j], events[j], id, input)
    && forall k, other :: j < k < n ==> !Writes(trace[k], events[k], id, other)
  }

  lemma StepWrites(s: State, e: Event, id: string)
    requires Enabled(s, e) && id in Step(s, e).rows
    ensures (exists input :: Writes(s, e, id, input) && Shows(Step(s, e), id, input))
         || ((forall input :: !Writes(s, e, id, input)) && id in s.rows
             && Step(s, e).rows[id].name == s.rows[id].name && Step(s, e).rows[id].endpoint == s.rows[id].endpoint)
  {
    if e.id != id {
      StepIsLocal(s, e, id);
      assert At(Step(s, e), id).row == At(s, id).row;
    } else {
      match e
      case Create(_, input, password, storeFault, keychainFault) =>
        CreateMeans(s, id, input, password, storeFault, keychainFault);
        CreateWrites(s, e);
      case Update(_, input, change, keychainFault, storeFault) =>
        UpdateMeans(s, id, input, change, keychainFault, storeFault);
        UpdateWrites(s, e);
      case Delete(_, keychainFault, deleteFault) => DeleteMeans(s, id, keychainFault, deleteFault);
      case Connect(_, keychainFault, syncFault, buildFault, probe) => ConnectMeans(s, id, keychainFault, syncFault, buildFault, probe);
      case _ =>
    }
  }

  lemma CreateWrites(s: State, e: Event)
    requires Enabled(s, e) && e.Create? && e.id in Step(s, e).rows
    ensures Writes(s, e, e.id, e.input) && Shows(Step(s, e), e.id, e.input)
  {
    CreateMeans(s, e.id, e.input, e.password, e.storeFault, e.keychainFault);
    hide Writable, Created;
    assert At(Step(s, e), e.id).row.Some?;
  }

  lemma UpdateWrites(s: State, e: Event)
    requires e.Update? && e.id in Step(s, e).rows
    ensures if Writes(s, e, e.id, e.input) then Shows(Step(s, e), e.id, e.input)
            else e.id in s.rows && Step(s, e).rows[e.id] == s.rows[e.id]
    ensures forall input :: Writes(s, e, e.id, input) ==> input == e.input
  {
    UpdateMeans(s, e.id, e.input, e.change, e.keychainFault, e.storeFault);
    hide Writable, Updated;
    assert At(Step(s, e), e.id).row.Some?;
  }

  /** In every run, whatever fails, a row has the name and the endpoint that were written last. */
  lemma {:induction false} RowIsLastWritten(trace: seq<State>, events: seq<Event>, n: nat, id: string)
    requires IsRun(trace, events) && n <= |events| && id in trace[n].rows
    ensures exists j, input :: LastWrote(trace, events, j, n, id, input) && Shows(trace[n], id, input)
  {
    var s, e := trace[n - 1], events[n - 1];
    StepWrites(s, e, id);
    hide Step, Enabled, Writes;
    if input :| Writes(s, e, id, input) && Shows(Step(s, e), id, input) {
      assert LastWrote(trace, events, n - 1, n, id, input);
    } else {
      RowIsLastWritten(trace, events, n - 1, id);
      var j, input :| LastWrote(trace, events, j, n - 1, id, input) && Shows(trace[n - 1], id, input);
      assert LastWrote(trace, events, j, n, id, input);
    }
  }

  /** The step registers a pool for `id`. */
  predicate Registers(s: State, e: Event, id: string) {
    e.Connect? && e.id == id && Succeeds(s, e)
  }

  /** The step gives up the pool of `id`: a disconnect, a deletion that reaches the pools, or an
   *  update of endpoint or password that succeeds. */
  predicate Drops(s: State, e: Event, id: string) {
    e.id == id
    && match e
       case Update(_, input, change, _, _) =>
         Succeeds(s, e) && id in s.rows && (s.rows[id].endpoint != input.endpoint || !change.Keep?)
       case Delete(_, keychainFault, _) => keychainFault.None?
       case Disconnect(_) => true
       case _ => false
  }

  lemma StepPools(s: State, e: Event, id: string)
    requires Enabled(s, e)
    ensures var pool := At(Step(s, e), id).pool;
            if Registers(s, e, id) then id in s.rows && pool.Some? && ConnectsTo(pool.value, s.rows[id], s.Secret(id))
            else if Drops(s, e, id) then pool.None?
            else pool == At(s, id).pool
  {
    if e.id != id {
      StepIsLocal(s, e, id);
    } else {
      match e
      case Create(_, input, password, storeFault, keychainFault) => CreateMeans(s, id, input, password, storeFault, keychainFault);
      case Update(_, input, change, keychainFault, storeFault) => UpdateMeans(s, id, input, change, keychainFault, storeFault);
      case Delete(_, keychainFault, deleteFault) => DeleteMeans(s, id, keychainFault, deleteFault);
      case Connect(_, keychainFault, syncFault, buildFault, probe) => ConnectMeans(s, id, keychainFault, syncFault, buildFault, probe);
      case _ =>
    }
  }

  /** Step `j` registered a pool, and no step since then another or gave it up. */
  ghost predicate LastRegistered(trace: seq<State>, events: seq<Event>, j: int, n: nat, id: string)
    requires |trace| == |events| + 1 && n <= |events|
  {
    && 0 <= j < n && Registers(trace[j], events[j], id)
    && forall k :: j < k < n ==> !Registers(trace[k], events[k], id) && !Drops(trace[k], events[k], id)
  }

  /** There is a pool exactly when a connect succeeded and nothing has given it up since, and it
   *  is one to the server of the row, and with the password, that there were at the last such
   *  connect. */
  ghost predicate PoolFits(trace: seq<State>, events: seq<Event>, n: nat, id: string)
    requires |trace| == |events| + 1 && n <= |events|
  {
    && (id in trace[n].pools <==> exists j :: LastRegistered(trace, events, j, n, id))
    && forall j :: LastRegistered(trace, events, j, n, id) ==>
         id in trace[n].pools && id in trace[j].rows
         && ConnectsTo(trace[n].pools[id], trace[j].rows[id], trace[j].Secret(id))
  }

  /** In every run, whatever fails, that is so. */
  lemma {:induction false} PoolIsLastRegistered(trace: seq<State>, events: seq<Event>, n: nat, id: string)
    requires IsRun(trace, events) && n <= |events|
    ensures PoolFits(trace, events, n, id)
  {
    if n > 0 {
      PoolIsLastRegistered(trace, events, n - 1, id);
      StepPools(trace[n - 1], events[n - 1], id);
      hide Step, Enabled, Registers, Drops, ConnectsTo, PoolFits;
      if Registers(trace[n - 1], events[n - 1], id) {
        PoolIsNew(trace, events, n - 1, id);
      } else if Drops(trace[n - 1], events[n - 1], id) {
        PoolIsGone(trace, events, n - 1, id);
      } else {
        PoolStays(trace, events, n - 1, id);
      }
    }
  }

  lemma PoolIsNew(trace: seq<State>, events: seq<Event>, m: nat, id: string)
    requires |trace| == |events| + 1 && m < |events| && Registers(trace[m], events[m], id)
    requires id in trace[m].rows && At(trace[m + 1], id).pool.Some?
    requires ConnectsTo(At(trace[m + 1], id).pool.value, trace[m].rows[id], trace[m].Secret(id))
    ensures PoolFits(trace, events, m + 1, id)
  {
    hide Registers, Drops, ConnectsTo;
    var n := m + 1;
    assert LastRegistered(trace, events, m, n, id);
    assert forall j :: LastRegistered(trace, events, j, n, id) ==> j == m;
  }

  lemma PoolIsGone(trace: seq<State>, events: seq<Event>, m: nat, id: string)
    requires |trace| == |events| + 1 && m < |events|
    requires !Registers(trace[m], events[m], id) && Drops(trace[m], events[m], id)
    requires At(trace[m + 1], id).pool.None?
    ensures PoolFits(trace, events, m + 1, id)
  {
    hide Registers, Drops, ConnectsTo;
    var n := m + 1;
    assert forall j :: !LastRegistered(trace, events, j, n, id);
  }

  lemma PoolStays(trace: seq<State>, events: seq<Event>, m: nat, id: string)
    requires |trace| == |events| + 1 && m < |events| && PoolFits(trace, events, m, id)
    requires !Registers(trace[m], events[m], id) && !Drops(trace[m], events[m], id)
    requires At(trace[m + 1], id).pool == At(trace[m], id).pool
    ensures PoolFits(trace, events, m + 1, id)
  {
    hide Registers, Drops, ConnectsTo;
    var n := m + 1;
    forall j ensures LastRegistered(trace, events, j, n, id) <==> LastRegistered(trace, events, j, m, id) {
    }
    hide LastRegistered;
    assert id in trace[n].pools <==> id in trace[m].pools;
    assert id in trace[m].pools ==> trace[n].pools[id] == trace[m].pools[id];
  }
}

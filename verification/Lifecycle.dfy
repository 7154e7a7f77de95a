/** Rows, secrets and pools of saved connections (src-tauri/src/connection/commands.rs, pool.rs,
 *  store.rs). The keychain is a reliable map whose calls may fail; a failed call changes nothing.
 */
module Lifecycle {
  import opened Wrappers
  import Text
  import CopyName

  // ---------------------------------------------------------------------------
  // Data.
  // ---------------------------------------------------------------------------

  datatype SslMode = Disable | Allow | Prefer | Require | VerifyCa | VerifyFull

  datatype PgSslMode = PgDisable | PgPrefer | PgRequire

  datatype TlsFlavor = NoTls | AcceptAny | CheckCa | CheckFull

  function PgMode(mode: SslMode): PgSslMode {
    match mode
    case Disable => PgDisable
    case Allow => PgPrefer
    case Prefer => PgPrefer
    case _ => PgRequire
  }

  function Flavor(mode: SslMode): TlsFlavor {
    match mode
    case Disable => NoTls
    case VerifyCa => CheckCa
    case VerifyFull => CheckFull
    case _ => AcceptAny
  }

  /** What a pool needs to know of its server. */
  datatype Endpoint = Endpoint(host: string, port: nat, database: string, username: string, sslMode: SslMode)

  /** `settings` stands for the columns that no pool depends on. */
  datatype Row = Row(name: string, endpoint: Endpoint, hasPassword: bool, settings: string)

  datatype Pool = Pool(host: string, port: nat, database: string, username: string,
                       password: Option<string>, pgMode: PgSslMode, flavor: TlsFlavor)

  function BuildFor(endpoint: Endpoint, password: Option<string>): Pool {
    Pool(endpoint.host, endpoint.port, endpoint.database, endpoint.username, password,
         PgMode(endpoint.sslMode), Flavor(endpoint.sslMode))
  }

  datatype Error =
    | NotFound(id: string)
    | DuplicateName(name: string)
    | InvalidInput(message: string)
    | Storage(message: string)
    | Keychain(message: string)
    | PasswordMissing(name: string)
    | Postgres(message: string)
    | Io(message: string)

  datatype UpdatePassword = Keep | Set(value: string) | Clear

  datatype Input = Input(name: string, endpoint: Endpoint, settings: string)

  datatype State = State(rows: map<string, Row>, keychain: map<string, string>, pools: map<string, Pool>)
  {
    function Secret(id: string): Option<string> {
      if id in keychain then Some(keychain[id]) else None
    }
  }

  /** How the probe of a freshly built pool ends. */
  datatype Probe = Answers | DemandsPassword(message: string) | Refuses(message: string) | TimesOut

  // ---------------------------------------------------------------------------
  // The store.
  // ---------------------------------------------------------------------------

  function Validate(input: Input): Option<Error> {
    if Text.Blank(input.name) then Some(InvalidInput("name is required"))
    else if |input.name| > 80 then Some(InvalidInput("name exceeds 80 characters"))
    else if Text.Blank(input.endpoint.host) then Some(InvalidInput("host is required"))
    else if Text.Blank(input.endpoint.database) then Some(InvalidInput("database is required"))
    else if Text.Blank(input.endpoint.username) then Some(InvalidInput("username is required"))
    else None
  }

  predicate NameTaken(rows: map<string, Row>, id: string, name: string) {
    exists other :: other in rows && other != id && rows[other].name == name
  }

  /** The store writes a row and then reads it back; either may fail, the write without effect. */
  datatype StoreFault = NoFault | WriteFails(message: string) | ReadBackFails(message: string)

  /** Whether `INSERT` or `UPDATE` of row `id` goes through. */
  function WriteRow(rows: map<string, Row>, id: string, input: Input, hasPassword: bool, fault: StoreFault)
    : Result<map<string, Row>, Error>
  {
    if Validate(input).Some? then Err(Validate(input).value)
    else if NameTaken(rows, id, input.name) then Err(DuplicateName(input.name))
    else if fault.WriteFails? then Err(Storage(fault.message))
    else Ok(rows[id := Row(input.name, input.endpoint, hasPassword, input.settings)])
  }

  // ---------------------------------------------------------------------------
  // The operations.
  // ---------------------------------------------------------------------------

  function PasswordPresent(password: Option<string>): bool {
    password.Some? && password.value != ""
  }

  function Created(s: State, id: string, input: Input, password: Option<string>,
                   storeFault: StoreFault, keychainFault: Option<string>): (State, Result<Row, Error>)
  {
    match WriteRow(s.rows, id, input, PasswordPresent(password), storeFault)
    case Err(e) => (s, Err(e))
    case Ok(rows) =>
      var s := s.(rows := rows);
      if storeFault.ReadBackFails? then (s, Err(Storage(storeFault.message)))
      else if !PasswordPresent(password) then (s, Ok(rows[id]))
      else if keychainFault.Some? then (s, Err(Keychain(keychainFault.value)))
      else (s.(keychain := s.keychain[id := password.value]), Ok(rows[id]))
  }

  predicate PoolInvalidating(row: Row, input: Input, password: UpdatePassword) {
    row.endpoint != input.endpoint || !password.Keep?
  }

  function Updated(s: State, id: string, input: Input, password: UpdatePassword,
                   keychainFault: Option<string>, storeFault: StoreFault): (State, Result<Row, Error>)
  {
    if id !in s.rows then (s, Err(NotFound(id))) else
    var row := s.rows[id];
    var hasPassword := if password.Keep? then row.hasPassword else password.Set?;
    if !password.Keep? && keychainFault.Some? then (s, Err(Keychain(keychainFault.value))) else
    var s := s.(keychain := match password
                            case Keep => s.keychain
                            case Set(value) => s.keychain[id := value]
                            case Clear => s.keychain - {id});
    match WriteRow(s.rows, id, input, hasPassword, storeFault)
    case Err(e) => (s, Err(e))
    case Ok(rows) =>
      if storeFault.ReadBackFails? then (s.(rows := rows), Err(Storage(storeFault.message))) else
      (s.(rows := rows, pools := if PoolInvalidating(row, input, password) then s.pools - {id} else s.pools),
       Ok(rows[id]))
  }

  function DeletedFrom(s: State, id: string, keychainFault: Option<string>, storeFault: Option<string>)
    : (State, Result<(), Error>)
  {
    if keychainFault.Some? then (s, Err(Keychain(keychainFault.value))) else
    var s := s.(keychain := s.keychain - {id}, pools := s.pools - {id});
    if storeFault.Some? then (s, Err(Storage(storeFault.value)))
    else if id !in s.rows then (s, Err(NotFound(id)))
    else (s.(rows := s.rows - {id}), Ok(()))
  }

  function Connected(s: State, id: string, keychainFault: Option<string>, syncFault: bool,
                     buildFault: Option<string>, probe: Probe): (State, Result<(), Error>)
  {
    if id !in s.rows then (s, Err(NotFound(id)))
    else if keychainFault.Some? then (s, Err(Keychain(keychainFault.value))) else
    var row, password := s.rows[id], s.Secret(id);
    if row.hasPassword && password.None? then
      (if syncFault then s else s.(rows := s.rows[id := row.(hasPassword := false)]), Err(PasswordMissing(row.name)))
    else if buildFault.Some? then (s, Err(Postgres(buildFault.value)))
    else
      match probe
      case Answers => (s.(pools := s.pools[id := BuildFor(row.endpoint, password)]), Ok(()))
      case DemandsPassword(message) => (s, Err(if password.None? then PasswordMissing(row.name) else Postgres(message)))
      case Refuses(message) => (s, Err(Postgres(message)))
      case TimesOut => (s, Err(Io("connect timeout")))
  }

  // ---------------------------------------------------------------------------
  // The application's state.
  // ---------------------------------------------------------------------------

  class AppState {
    var rows: map<string, Row>
    var keychain: map<string, string>
    var pools: map<string, Pool>

    ghost function Abs(): State
      reads this
    {
      State(rows, keychain, pools)
    }

    constructor ()
      ensures Abs() == State(map[], map[], map[])
    {
      rows, keychain, pools := map[], map[], map[];
    }

    method CreateConnection(id: string, input: Input, password: Option<string>,
                            storeFault: StoreFault, keychainFault: Option<string>) returns (r: Result<Row, Error>)
      modifies this
      ensures (Abs(), r) == Created(old(Abs()), id, input, password, storeFault, keychainFault)
    {
      hide Validate, NameTaken;
      var present := PasswordPresent(password);
      var written := WriteRow(rows, id, input, present, storeFault);
      if written.Err? {
        return Err(written.error);
      }
      rows := written.value;
      if storeFault.ReadBackFails? {
        return Err(Storage(storeFault.message));
      }
      if present {
        if keychainFault.Some? {
          return Err(Keychain(keychainFault.value));
        }
        keychain := keychain[id := password.value];
      }
      return Ok(rows[id]);
    }

    method UpdateConnection(id: string, input: Input, password: UpdatePassword,
                            keychainFault: Option<string>, storeFault: StoreFault) returns (r: Result<Row, Error>)
      modifies this
      ensures (Abs(), r) == Updated(old(Abs()), id, input, password, keychainFault, storeFault)
    {
      hide Validate, NameTaken;
      if id !in rows {
        return Err(NotFound(id));
      }
      var existing := rows[id];
      var hasPassword := match password case Keep => existing.hasPassword case Set(_) => true case Clear => false;
      var invalidating := PoolInvalidating(existing, input, password);
      if !password.Keep? && keychainFault.Some? {
        return Err(Keychain(keychainFault.value));
      }
      match password {
        case Set(value) => keychain := keychain[id := value];
        case Clear => keychain := keychain - {id};
        case Keep =>
      }
      var written := WriteRow(rows, id, input, hasPassword, storeFault);
      if written.Err? {
        return Err(written.error);
      }
      rows := written.value;
      if storeFault.ReadBackFails? {
        return Err(Storage(storeFault.message));
      }
      if invalidating {
        pools := pools - {id};
      }
      return Ok(rows[id]);
    }

    method DeleteConnection(id: string, keychainFault: Option<string>, storeFault: Option<string>)
      returns (r: Result<(), Error>)
      modifies this
      ensures (Abs(), r) == DeletedFrom(old(Abs()), id, keychainFault, storeFault)
    {
      if keychainFault.Some? {
        return Err(Keychain(keychainFault.value));
      }
      keychain := keychain - {id};
      pools := pools - {id};
      if storeFault.Some? {
        return Err(Storage(storeFault.value));
      }
      if id !in rows {
        return Err(NotFound(id));
      }
      rows := rows - {id};
      return Ok(());
    }

    method ConnectionConnect(id: string, keychainFault: Option<string>, syncFault: bool,
                             buildFault: Option<string>, probe: Probe) returns (r: Result<(), Error>)
      modifies this
      ensures (Abs(), r) == Connected(old(Abs()), id, keychainFault, syncFault, buildFault, probe)
    {
      if id !in rows {
        return Err(NotFound(id));
      }
      if keychainFault.Some? {
        return Err(Keychain(keychainFault.value));
      }
      var row := rows[id];
      var password := if id in keychain then Some(keychain[id]) else None;
      if row.hasPassword && password.None? {
        if !syncFault {
          rows := rows[id := row.(hasPassword := false)];
        }
        return Err(PasswordMissing(row.name));
      }
      if buildFault.Some? {
        return Err(Postgres(buildFault.value));
      }
      match probe {
        case Answers =>
          pools := pools[id := BuildFor(row.endpoint, password)];
          return Ok(());
        case DemandsPassword(message) =>
          return Err(if password.None? then PasswordMissing(row.name) else Postgres(message));
        case Refuses(message) => return Err(Postgres(message));
        case TimesOut => return Err(Io("connect timeout"));
      }
    }

    method ConnectionDisconnect(id: string)
      modifies `pools
      ensures pools == old(pools) - {id}
    {
      pools := pools - {id};
    }

    /** Copies the row and the secret under a free name; the copy is an ordinary creation. */
    method DuplicateConnection(id: string, newId: string, readFault: Option<string>,
                               storeFault: StoreFault, keychainFault: Option<string>)
      returns (r: Result<Row, Error>)
      requires newId !in rows
      modifies this
      ensures id !in old(rows) || readFault.Some? ==> r.Err? && Abs() == old(Abs())
      ensures id in old(rows) && readFault.None? ==>
                var names := Names(old(rows));
                || (r == Err(DuplicateName(old(rows)[id].name + " copy")) && Abs() == old(Abs())
                    && forall k :: 1 <= k <= CopyName.LAST_COPY ==> CopyName.Candidate(old(rows)[id].name, k) in names)
                || exists k :: CopyName.FirstFree(names, old(rows)[id].name, k)
                     && (Abs(), r) == Created(old(Abs()), newId,
                                              Copy(old(rows)[id], CopyName.Candidate(old(rows)[id].name, k)),
                                              old(Abs()).Secret(id), storeFault, keychainFault)
      ensures r.Ok? ==>
                && id in old(rows) && rows == old(rows)[newId := r.value] && pools == old(pools)
                && r.value == old(rows)[id].(name := r.value.name, hasPassword := r.value.hasPassword)
                && r.value.hasPassword == (id in old(keychain) && old(keychain)[id] != "")
                && keychain == if r.value.hasPassword then old(keychain)[newId := old(keychain)[id]] else old(keychain)
    {
      if id !in rows {
        return Err(NotFound(id));
      }
      if readFault.Some? {
        return Err(Keychain(readFault.value));
      }
      var source := rows[id];
      var password := if id in keychain then Some(keychain[id]) else None;
      var name := CopyName.UniqueCopyName(Names(rows), source.name);
      if name.Err? {
        r := Err(DuplicateName(name.error));
      } else {
        ghost var k :| CopyName.FirstFree(Names(rows), source.name, k) && name.value == CopyName.Candidate(source.name, k);
        CopyMeans(Abs(), id, newId, name.value, storeFault, keychainFault);
        hide Created, CopyName.FirstFree, CopyName.Candidate, Names;
        r := CreateConnection(newId, Copy(source, name.value), password, storeFault, keychainFault);
      }
    }
  }

  /** A copy that succeeds differs from its source in the name only, and has its password, if that
   *  is not empty. */
  lemma CopyMeans(s: State, id: string, newId: string, name: string, storeFault: StoreFault,
                  keychainFault: Option<string>)
    requires id in s.rows
    ensures var (t, r) := Created(s, newId, Copy(s.rows[id], name), s.Secret(id), storeFault, keychainFault);
            r.Ok? ==>
              && t.rows == s.rows[newId := r.value] && t.pools == s.pools
              && r.value == s.rows[id].(name := name, hasPassword := r.value.hasPassword)
              && r.value.hasPassword == (id in s.keychain && s.keychain[id] != "")
              && t.keychain == if r.value.hasPassword then s.keychain[newId := s.keychain[id]] else s.keychain
  {
    hide Validate, NameTaken;
  }

  function Names(rows: map<string, Row>): set<string> {
    set id | id in rows :: rows[id].name
  }

  function Copy(row: Row, name: string): Input {
    Input(name, row.endpoint, row.settings)
  }
}

/** Running the selected migrations (src-tauri/src/migrations/commands.rs, executor.rs). */
module MigrationRun {
  import opened Wrappers
  import opened Decimal
  import opened Discovery
  import opened ApplyMigrations
  import DiscoveryOrder

  /** What the target database does with one migration. `SqlFails` is an error that undid
   *  everything; `EffectLost` is an error after the SQL took effect all the same: the connection
   *  broke after the commit, or a script without a transaction stopped half way. `InsertFails`
   *  and `InsertLost` are the same two for the ledger entry. */
  datatype Attempt =
    | TableFails | NotUtf8 | LedgerReadFails | SqlFails | EffectLost | InsertFails | InsertLost | Works

  datatype ApplyResult = ApplyResult(applied: seq<string>, failed: Option<string>)

  /** The ledger, and the versions whose SQL took effect. */
  datatype Db = Db(ledger: Ledger, executed: seq<string>)

  datatype Outcome = Aborted | Failed | Done

  /** `executor::apply` on a single clean migration. */
  function Execute(disk: Disk, tracking: bool, db: Db, m: Migration, attempt: Attempt): (Db, Outcome) {
    if tracking && attempt == TableFails then (db, Aborted)
    else
      match disk.read(m.upPath)
      case Err(_) => (db, Failed)
      case Ok(bytes) =>
        if attempt == NotUtf8 then (db, Failed)
        else if tracking && (attempt == LedgerReadFails || m.version in db.ledger) then (db, Failed)
        else if attempt == SqlFails then (db, Failed)
        else
          var ran := db.(executed := db.executed + [m.version]);
          if attempt == EffectLost then (ran, Failed)
          else if !tracking then (ran, Done)
          else if attempt == InsertFails then (ran, Failed)
          else
            (ran.(ledger := db.ledger[m.version := disk.sha(bytes)]), if attempt == InsertLost then Failed else Done)
  }

  /** The database after the first `k` of the selected migrations worked. */
  function After(disk: Disk, tracking: bool, db: Db, selected: seq<Migration>, k: nat): Db
    requires k <= |selected|
  {
    if k == 0 then db
    else
      var before := After(disk, tracking, db, selected, k - 1);
      var m := selected[k - 1];
      Db(if !tracking then before.ledger
         else match disk.read(m.upPath)
              case Ok(bytes) => before.ledger[m.version := disk.sha(bytes)]
              case Err(_) => before.ledger,
         before.executed + [m.version])
  }

  /** Each of the first `k` attempts got its migration done. */
  ghost predicate AllDone(disk: Disk, tracking: bool, db: Db, selected: seq<Migration>, attempts: string -> Attempt,
                          k: nat)
  {
    && k <= |selected|
    && forall i :: 0 <= i < k ==> DoneAt(disk, tracking, db, selected, attempts, i)
  }

  /** After the migrations before it, number `i` is attempted and gets done. */
  predicate DoneAt(disk: Disk, tracking: bool, db: Db, selected: seq<Migration>, attempts: string -> Attempt, i: nat)
    requires i < |selected|
  {
    Execute(disk, tracking, After(disk, tracking, db, selected, i), selected[i], attempts(selected[i].version)).1 == Done
  }

  /** How the run may end: the first `k` migrations got done, and then either there were no more,
   *  or number `k` failed, or was cut short; nothing after number `k` was touched. */
  ghost predicate EndsAt(disk: Disk, tracking: bool, db: Db, selected: seq<Migration>, attempts: string -> Attempt,
                         k: nat, end: Db, r: Result<ApplyResult, ()>)
  {
    && AllDone(disk, tracking, db, selected, attempts, k)
    && var worked := After(disk, tracking, db, selected, k);
       if k == |selected| then end == worked && r == Ok(ApplyResult(Versions(selected), None))
       else
         var (next, outcome) := Execute(disk, tracking, worked, selected[k], attempts(selected[k].version));
         && outcome != Done && end == next
         && r == (if outcome == Aborted then Err(())
                  else Ok(ApplyResult(Versions(selected[..k]), Some(selected[k].version))))
  }

  class Database {
    var ledger: Ledger
    ghost var executed: seq<string>

    ghost function Abs(): Db
      reads this
    {
      Db(ledger, executed)
    }

    constructor ()
      ensures Abs() == Db(map[], [])
    {
      ledger := map[];
      executed := [];
    }

    method ExecuteOne(disk: Disk, tracking: bool, m: Migration, attempt: Attempt) returns (outcome: Outcome)
      modifies this
      ensures (Abs(), outcome) == Execute(disk, tracking, old(Abs()), m, attempt)
    {
      if tracking && attempt == TableFails {
        return Aborted;
      }
      var read := disk.read(m.upPath);
      if read.Err? || attempt == NotUtf8 {
        return Failed;
      }
      if tracking && (attempt == LedgerReadFails || m.version in ledger) {
        return Failed;
      }
      if attempt == SqlFails {
        return Failed;
      }
      executed := executed + [m.version];
      if attempt == EffectLost {
        return Failed;
      }
      if tracking {
        if attempt == InsertFails {
          return Failed;
        }
        ledger := ledger[m.version := disk.sha(read.value)];
        if attempt == InsertLost {
          return Failed;
        }
      }
      return Done;
    }

    /** The loop of `migrations_apply`. */
    method Apply(disk: Disk, tracking: bool, selected: seq<Migration>, attempts: string -> Attempt)
      returns (r: Result<ApplyResult, ()>, ghost k: nat)
      modifies this
      ensures EndsAt(disk, tracking, old(Abs()), selected, attempts, k, Abs(), r)
    {
      var applied := [];
      var i := 0;
      assert AllDone(disk, tracking, Abs(), selected, attempts, 0) && After(disk, tracking, Abs(), selected, 0) == Abs();
      hide Execute, After, AllDone;
      while i < |selected|
        invariant i <= |selected|
        invariant Abs() == After(disk, tracking, old(Abs()), selected, i)
        invariant applied == Versions(selected[..i])
        invariant AllDone(disk, tracking, old(Abs()), selected, attempts, i)
      {
        var outcome := ExecuteOne(disk, tracking, selected[i], attempts(selected[i].version));
        match outcome {
          case Aborted => return Err(()), i;
          case Failed => return Ok(ApplyResult(applied, Some(selected[i].version))), i;
          case Done =>
            DoneIsAfter(disk, tracking, old(Abs()), selected, attempts, i);
            applied := applied + [selected[i].version];
            assert selected[..i + 1] == selected[..i] + [selected[i]];
            i := i + 1;
        }
      }
      assert selected[..i] == selected;
      return Ok(ApplyResult(applied, None)), i;
    }
  }

  lemma DoneIsAfter(disk: Disk, tracking: bool, db: Db, selected: seq<Migration>, attempts: string -> Attempt, k: nat)
    requires k < |selected| && AllDone(disk, tracking, db, selected, attempts, k)
    requires DoneAt(disk, tracking, db, selected, attempts, k)
    ensures AllDone(disk, tracking, db, selected, attempts, k + 1)
    ensures Execute(disk, tracking, After(disk, tracking, db, selected, k), selected[k], attempts(selected[k].version)).0
         == After(disk, tracking, db, selected, k + 1)
  {
  }

  // ---------------------------------------------------------------------------
  // Stopping at the first failure.
  // ---------------------------------------------------------------------------

  lemma {:induction false} AfterExecuted(disk: Disk, tracking: bool, db: Db, selected: seq<Migration>, k: nat)
    requires k <= |selected|
    ensures After(disk, tracking, db, selected, k).executed == db.executed + Versions(selected[..k])
    ensures !tracking ==> After(disk, tracking, db, selected, k).ledger == db.ledger
  {
    if k > 0 {
      AfterExecuted(disk, tracking, db, selected, k - 1);
      assert Versions(selected[..k]) == Versions(selected[..k - 1]) + [selected[k - 1].version];
    } else {
      assert db.executed + Versions(selected[..0]) == db.executed;
    }
  }

  /** The migrations applied are those before the first attempt that does not get its migration
   *  done, and the SQL that took effect is theirs, with at most that one's own after it. Applied
   *  list and failed version are reported, whatever failed, but for one thing: without the ledger
   *  table, which a run with tracking needs, the run is cut short. */
  lemma ApplyStopsAtFirstFailure(disk: Disk, tracking: bool, db: Db, selected: seq<Migration>,
                                 attempts: string -> Attempt, k: nat, end: Db, r: Result<ApplyResult, ()>)
    requires EndsAt(disk, tracking, db, selected, attempts, k, end, r)
    ensures k <= |selected| && forall i :: 0 <= i < k ==> DoneAt(disk, tracking, db, selected, attempts, i)
    ensures k < |selected| ==> !DoneAt(disk, tracking, db, selected, attempts, k)
    ensures r.Ok? ==> r.value.applied == Versions(selected[..k])
    ensures r.Ok? ==> r.value.failed == if k < |selected| then Some(selected[k].version) else None
    ensures r.Err? <==> k < |selected| && tracking && attempts(selected[k].version) == TableFails
    ensures end.executed == db.executed + Versions(selected[..k])
         || (k < |selected| && end.executed == db.executed + Versions(selected[..k + 1]))
  {
    AfterExecuted(disk, tracking, db, selected, k);
    if k == |selected| {
      assert selected[..k] == selected;
    } else {
      assert Versions(selected[..k + 1]) == Versions(selected[..k]) + [selected[k].version];
      assert db.executed + (Versions(selected[..k]) + [selected[k].version])
          == db.executed + Versions(selected[..k]) + [selected[k].version];
    }
  }

  lemma NoEarlierEnd(disk: Disk, tracking: bool, db: Db, selected: seq<Migration>, attempts: string -> Attempt,
                     k: nat, end: Db, r: Result<ApplyResult, ()>, k': nat)
    requires EndsAt(disk, tracking, db, selected, attempts, k, end, r)
    requires AllDone(disk, tracking, db, selected, attempts, k')
    ensures k' <= k
  {
    assert k < |selected| ==> !DoneAt(disk, tracking, db, selected, attempts, k);
    hide After, Execute, DoneAt;
  }

  /** Where the run stops, what it leaves and what it reports are determined. */
  lemma EndIsDetermined(disk: Disk, tracking: bool, db: Db, selected: seq<Migration>, attempts: string -> Attempt,
                        k: nat, end: Db, r: Result<ApplyResult, ()>, k': nat, end': Db, r': Result<ApplyResult, ()>)
    requires EndsAt(disk, tracking, db, selected, attempts, k, end, r)
    requires EndsAt(disk, tracking, db, selected, attempts, k', end', r')
    ensures k == k' && end == end' && r == r'
  {
    NoEarlierEnd(disk, tracking, db, selected, attempts, k, end, r, k');
    NoEarlierEnd(disk, tracking, db, selected, attempts, k', end', r', k);
    hide After, Execute, AllDone;
  }

  /** What an attempt that gets its migration done found and leaves. */
  lemma DoneMeans(disk: Disk, tracking: bool, db: Db, m: Migration, attempt: Attempt)
    ensures Execute(disk, tracking, db, m, attempt).1 == Done <==>
            && disk.read(m.upPath).Ok? && (tracking ==> m.version !in db.ledger)
            && (attempt == Works || (!tracking && attempt !in {NotUtf8, SqlFails, EffectLost}))
  {
  }

  /** What an attempt leaves, by what went wrong. The SQL takes effect exactly when the file can be
   *  read as text, with tracking table and ledger can be reached and lack the version, and the
   *  database does not reject it. The ledger gains the version, with the checksum of the file as
   *  it was read, exactly when moreover tracking is on and the entry gets through, answered or
   *  not. Only a missing ledger table cuts the run short. */
  lemma AttemptMeans(disk: Disk, tracking: bool, db: Db, m: Migration, attempt: Attempt)
    ensures var (t, outcome) := Execute(disk, tracking, db, m, attempt);
            var ran := && disk.read(m.upPath).Ok? && attempt !in {NotUtf8, SqlFails}
                       && (tracking ==> attempt !in {TableFails, LedgerReadFails} && m.version !in db.ledger);
            var entered := ran && tracking && attempt in {InsertLost, Works};
            && t.executed == (if ran then db.executed + [m.version] else db.executed)
            && t.ledger == (if entered then db.ledger[m.version := disk.sha(disk.read(m.upPath).value)] else db.ledger)
            && (outcome == Aborted <==> tracking && attempt == TableFails)
            && (outcome == Done ==> ran && (tracking ==> entered))
  {
  }
}

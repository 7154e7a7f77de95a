/** What a run of migrations leaves for the next one (src-tauri/src/migrations/commands.rs,
 *  executor.rs, tracking.rs).
 */
module MigrationResume {
  import opened Wrappers
  import opened Decimal
  import opened Discovery
  import opened ApplyMigrations
  import opened MigrationRun
  import DiscoveryOrder

  // ---------------------------------------------------------------------------
  // The ledger after a run.
  // ---------------------------------------------------------------------------

  /** The migration was not in the ledger before, and is now, with the checksum of its up file. */
  predicate Entered(disk: Disk, before: Ledger, after: Ledger, m: Migration) {
    && m.version !in before && disk.read(m.upPath).Ok?
    && m.version in after && after[m.version] == disk.sha(disk.read(m.upPath).value)
  }

  /** The ledger has gained exactly these migrations. */
  ghost predicate Gained(disk: Disk, before: Ledger, after: Ledger, done: seq<Migration>) {
    && (forall v :: v in after <==> v in before || v in Versions(done))
    && (forall v :: v in before && v in after ==> after[v] == before[v])
    && (forall i :: 0 <= i < |done| ==> Entered(disk, before, after, done[i]))
  }

  lemma GainedSnoc(disk: Disk, before: Ledger, after: Ledger, done: seq<Migration>, m: Migration)
    requires Gained(disk, before, after, done) && m.version !in after && disk.read(m.upPath).Ok?
    ensures Gained(disk, before, after[m.version := disk.sha(disk.read(m.upPath).value)], done + [m])
  {
    var now := after[m.version := disk.sha(disk.read(m.upPath).value)];
    VersionsSnoc(done, m);
    hide Versions;
    forall i | 0 <= i < |done + [m]| ensures Entered(disk, before, now, (done + [m])[i]) {
      if i < |done| {
        assert (done + [m])[i] == done[i] && Entered(disk, before, after, done[i]);
      }
    }
  }

  lemma NothingGained(disk: Disk, ledger: Ledger)
    ensures Gained(disk, ledger, ledger, [])
  {
  }

  /** With tracking, the ledger has gained exactly the versions that got done. */
  lemma {:induction false} LedgerAfter(disk: Disk, db: Db, selected: seq<Migration>, attempts: string -> Attempt, k: nat)
    requires AllDone(disk, true, db, selected, attempts, k)
    ensures Gained(disk, db.ledger, After(disk, true, db, selected, k).ledger, selected[..k])
  {
    if k > 0 {
      var m, before := selected[k - 1], After(disk, true, db, selected, k - 1);
      LedgerAfter(disk, db, selected, attempts, k - 1);
      assert DoneAt(disk, true, db, selected, attempts, k - 1);
      DoneMeans(disk, true, before, m, attempts(m.version));
      assert After(disk, true, db, selected, k).ledger == before.ledger[m.version := disk.sha(disk.read(m.upPath).value)];
      assert selected[..k] == selected[..k - 1] + [m];
      hide *;
      GainedSnoc(disk, db.ledger, before.ledger, selected[..k - 1], m);
    } else {
      NothingGained(disk, db.ledger);
    }
  }

  lemma VersionsSnoc(ms: seq<Migration>, m: Migration)
    ensures Versions(ms + [m]) == Versions(ms) + [m.version]
  {
  }

  /** A migration that did not get done is not in the ledger afterwards, unless it was entered
   *  and the answer was lost. */
  lemma NotDoneNotEntered(disk: Disk, tracking: bool, db: Db, m: Migration, attempt: Attempt)
    requires Execute(disk, tracking, db, m, attempt).1 != Done
    ensures Execute(disk, tracking, db, m, attempt).0.ledger
         == if tracking && attempt == InsertLost && disk.read(m.upPath).Ok? && m.version !in db.ledger
            then db.ledger[m.version := disk.sha(disk.read(m.upPath).value)]
            else db.ledger
  {
  }

  /** How many migrations the run entered in the ledger: those that got done, and one more when
   *  only the answer to its entry was lost. */
  function EnteredCount(disk: Disk, db: Db, selected: seq<Migration>, attempts: string -> Attempt, k: nat): (next: nat)
    requires k <= |selected|
    ensures k <= next <= |selected|
  {
    if k < |selected| && attempts(selected[k].version) == InsertLost && disk.read(selected[k].upPath).Ok?
       && selected[k].version !in After(disk, true, db, selected, k).ledger
    then k + 1 else k
  }

  /** The ledger of a run with tracking holds what it held and what was entered. */
  lemma LedgerAtEnd(disk: Disk, db: Db, selected: seq<Migration>, attempts: string -> Attempt,
                    k: nat, end: Db, r: Result<ApplyResult, ()>)
    requires EndsAt(disk, true, db, selected, attempts, k, end, r)
    ensures k <= |selected|
    ensures Gained(disk, db.ledger, end.ledger, selected[..EnteredCount(disk, db, selected, attempts, k)])
  {
    LedgerAfter(disk, db, selected, attempts, k);
    if k < |selected| {
      LedgerAtStop(disk, db, selected, attempts, k);
    }
    hide Execute, AllDone, Gained, EnteredCount;
    assert selected[..|selected|] == selected;
  }

  lemma LedgerAtStop(disk: Disk, db: Db, selected: seq<Migration>, attempts: string -> Attempt, k: nat)
    requires k < |selected| && !DoneAt(disk, true, db, selected, attempts, k)
    requires Gained(disk, db.ledger, After(disk, true, db, selected, k).ledger, selected[..k])
    ensures var worked, m := After(disk, true, db, selected, k), selected[k];
            Gained(disk, db.ledger, Execute(disk, true, worked, m, attempts(m.version)).0.ledger,
                   selected[..EnteredCount(disk, db, selected, attempts, k)])
  {
    hide After, Execute, Gained;
    var m, worked := selected[k], After(disk, true, db, selected, k);
    var next := EnteredCount(disk, db, selected, attempts, k);
    var ledger := Execute(disk, true, worked, m, attempts(m.version)).0.ledger;
    NotDoneNotEntered(disk, true, worked, m, attempts(m.version));
    assert next == k ==> ledger == worked.ledger;
    assert next != k ==> next == k + 1 && m.version !in worked.ledger && disk.read(m.upPath).Ok?
                         && ledger == worked.ledger[m.version := disk.sha(disk.read(m.upPath).value)];
    hide *;
    if next != k {
      GainedSnoc(disk, db.ledger, worked.ledger, selected[..k], m);
      assert selected[..k + 1] == selected[..k] + [m];
    }
  }

  // ---------------------------------------------------------------------------
  // What is left to apply.
  // ---------------------------------------------------------------------------

  /** The migrations whose version is not listed. */
  function Minus(ms: seq<Migration>, vs: seq<string>): seq<Migration> {
    if ms == [] then []
    else if ms[0].version in vs then Minus(ms[1..], vs)
    else [ms[0]] + Minus(ms[1..], vs)
  }

  lemma {:induction false} UnappliedMinus(files: seq<Migration>, before: Ledger, after: Ledger, vs: seq<string>)
    requires forall v :: v in after <==> v in before || v in vs
    ensures Unapplied(files, after) == Minus(Unapplied(files, before), vs)
  {
    if files != [] {
      UnappliedMinus(files[1..], before, after, vs);
      var rest := Unapplied(files[1..], before);
      assert ([files[0]] + rest)[1..] == rest;
    }
  }

  /** After a run in any mode, a later AllPending selects what was pending before, less what the
   *  run entered in the ledger. */
  lemma PendingAfterRun(disk: Disk, files: seq<Migration>, db: Db, selected: seq<Migration>,
                        attempts: string -> Attempt, k: nat, end: Db, r: Result<ApplyResult, ()>)
    requires SortedVersions(files) && EndsAt(disk, true, db, selected, attempts, k, end, r)
    ensures k <= |selected|
    ensures SelectForApply(Joined(files, end.ledger), AllPending)
         == Ok(Minus(PendingOf(Joined(files, db.ledger)), Versions(selected[..EnteredCount(disk, db, selected, attempts, k)])))
  {
    LedgerAtEnd(disk, db, selected, attempts, k, end, r);
    JoinedUnique(files, end.ledger);
    AllPendingSelected(Joined(files, end.ledger));
    JoinedPending(files, db.ledger);
    JoinedPending(files, end.ledger);
    hide Joined, PendingOf, SelectForApply, Unapplied, EndsAt, EnteredCount;
    UnappliedMinus(files, db.ledger, end.ledger, Versions(selected[..EnteredCount(disk, db, selected, attempts, k)]));
  }

  lemma {:induction false} MinusNone(ms: seq<Migration>, vs: seq<string>)
    requires forall m :: m in ms ==> m.version !in vs
    ensures Minus(ms, vs) == ms
  {
    if ms != [] {
      assert ms[0] in ms && forall m :: m in ms[1..] ==> m in ms;
      MinusNone(ms[1..], vs);
    }
  }

  lemma {:induction false} MinusConcat(a: seq<Migration>, b: seq<Migration>, vs: seq<string>)
    ensures Minus(a + b, vs) == Minus(a, vs) + Minus(b, vs)
  {
    if a == [] {
      assert a + b == b;
    } else {
      assert (a + b)[1..] == a[1..] + b;
      MinusConcat(a[1..], b, vs);
    }
  }

  lemma {:induction false} MinusAll(ms: seq<Migration>, vs: seq<string>)
    requires forall m :: m in ms ==> m.version in vs
    ensures Minus(ms, vs) == []
  {
    if ms != [] {
      assert ms[0] in ms && forall m :: m in ms[1..] ==> m in ms;
      MinusAll(ms[1..], vs);
    }
  }

  /** The versions of a slice are those of its members and of no other migration. */
  lemma SliceVersions(p: seq<Migration>, lo: nat, hi: nat, i: nat)
    requires UniqueVersions(p) && lo <= hi <= |p| && i < |p|
    ensures p[i].version in Versions(p[lo..hi]) <==> lo <= i < hi
  {
    var vs := Versions(p[lo..hi]);
    forall j | 0 <= j < |vs| ensures vs[j] == p[i].version <==> lo + j == i {
      assert vs[j] == p[lo + j].version;
    }
    if lo <= i < hi {
      assert vs[i - lo] == p[i].version;
    }
  }

  lemma SliceParts(p: seq<Migration>, lo: nat, hi: nat)
    requires UniqueVersions(p) && lo <= hi <= |p|
    ensures forall m :: m in p[..lo] ==> m.version !in Versions(p[lo..hi])
    ensures forall m :: m in p[lo..hi] ==> m.version in Versions(p[lo..hi])
    ensures forall m :: m in p[hi..] ==> m.version !in Versions(p[lo..hi])
  {
    forall i | 0 <= i < |p| ensures p[i].version in Versions(p[lo..hi]) <==> lo <= i < hi {
      SliceVersions(p, lo, hi, i);
    }
    hide UniqueVersions, Versions;
  }

  lemma MinusParts(a: seq<Migration>, b: seq<Migration>, c: seq<Migration>, vs: seq<string>)
    requires forall m :: m in a ==> m.version !in vs
    requires forall m :: m in b ==> m.version in vs
    requires forall m :: m in c ==> m.version !in vs
    ensures Minus(a + (b + c), vs) == a + c
  {
    hide Minus;
    MinusConcat(a, b + c, vs);
    MinusConcat(b, c, vs);
    MinusNone(a, vs);
    MinusNone(c, vs);
    MinusAll(b, vs);
    assert [] + c == c;
  }

  lemma InThree(p: seq<Migration>, lo: nat, hi: nat)
    requires lo <= hi <= |p|
    ensures p == p[..lo] + (p[lo..hi] + p[hi..])
  {
  }

  /** A slice taken out. */
  lemma MinusSlice(p: seq<Migration>, lo: nat, hi: nat)
    requires UniqueVersions(p) && lo <= hi <= |p|
    ensures Minus(p, Versions(p[lo..hi])) == p[..lo] + p[hi..]
  {
    hide *;
    SliceParts(p, lo, hi);
    InThree(p, lo, hi);
    MinusParts(p[..lo], p[lo..hi], p[hi..], Versions(p[lo..hi]));
  }

  lemma PendingUnique(files: seq<Migration>, ledger: Ledger)
    requires SortedVersions(files)
    ensures UniqueVersions(Joined(files, ledger)) && UniqueVersions(PendingOf(Joined(files, ledger)))
  {
    JoinedUnique(files, ledger);
    PendingIsSub(Joined(files, ledger));
  }

  /** A run over a contiguous slice of the pending migrations leaves the ones before the slice
   *  and those from the one it stopped at. */
  lemma SliceResumes(disk: Disk, files: seq<Migration>, db: Db, p: seq<Migration>, lo: nat, hi: nat,
                     selected: seq<Migration>, attempts: string -> Attempt, k: nat, end: Db, r: Result<ApplyResult, ()>)
    requires SortedVersions(files) && p == PendingOf(Joined(files, db.ledger))
    requires lo <= hi <= |p| && selected == p[lo..hi]
    requires EndsAt(disk, true, db, selected, attempts, k, end, r)
    ensures k <= |selected|
    ensures SelectForApply(Joined(files, end.ledger), AllPending)
         == Ok(p[..lo] + p[lo + EnteredCount(disk, db, selected, attempts, k)..])
  {
    hide *;
    PendingAfterRun(disk, files, db, selected, attempts, k, end, r);
    PendingUnique(files, db.ledger);
    var next := EnteredCount(disk, db, selected, attempts, k);
    assert selected[..next] == p[lo..lo + next];
    MinusSlice(p, lo, lo + next);
  }

  /** With tracking on and the files unchanged, applying all pending migrations a second time
   *  selects exactly what the first run did not enter in the ledger: it resumes at the migration
   *  that failed or was cut short, or after it when only the answer to its entry was lost. */
  lemma ApplyResumes(disk: Disk, files: seq<Migration>, db: Db, selected: seq<Migration>, attempts: string -> Attempt,
                     k: nat, end: Db, r: Result<ApplyResult, ()>)
    requires SortedVersions(files) && SelectForApply(Joined(files, db.ledger), AllPending) == Ok(selected)
    requires EndsAt(disk, true, db, selected, attempts, k, end, r)
    ensures k <= |selected|
    ensures SelectForApply(Joined(files, end.ledger), AllPending)
         == Ok(selected[EnteredCount(disk, db, selected, attempts, k)..])
  {
    hide *;
    PendingUnique(files, db.ledger);
    AllPendingSelected(Joined(files, db.ledger));
    assert selected[0..|selected|] == selected;
    SliceResumes(disk, files, db, selected, 0, |selected|, selected, attempts, k, end, r);
    var next := EnteredCount(disk, db, selected, attempts, k);
    assert selected[..0] + selected[0 + next..] == selected[next..];
  }

  /** After a Range run, all pending migrations are those before the range, and those from the one
   *  at which the run stopped. */
  lemma RangeResumes(disk: Disk, files: seq<Migration>, db: Db, from: string, to: string, selected: seq<Migration>,
                     attempts: string -> Attempt, k: nat, end: Db, r: Result<ApplyResult, ()>) returns (f: nat, t: nat)
    requires SortedVersions(files) && SelectForApply(Joined(files, db.ledger), Range(from, to)) == Ok(selected)
    requires EndsAt(disk, true, db, selected, attempts, k, end, r)
    ensures var p := PendingOf(Joined(files, db.ledger));
            && k <= |selected| && IsSlice(p, from, to, f, t) && t < |p| && selected == p[f..t + 1]
            && SelectForApply(Joined(files, end.ledger), AllPending)
               == Ok(p[..f] + p[f + EnteredCount(disk, db, selected, attempts, k)..])
  {
    f, t := RangeBounds(files, db.ledger, from, to, selected);
    hide *;
    SliceResumes(disk, files, db, PendingOf(Joined(files, db.ledger)), f, t + 1, selected, attempts, k, end, r);
  }

  lemma RangeBounds(files: seq<Migration>, ledger: Ledger, from: string, to: string, selected: seq<Migration>)
    returns (f: nat, t: nat)
    requires SortedVersions(files) && SelectForApply(Joined(files, ledger), Range(from, to)) == Ok(selected)
    ensures var p := PendingOf(Joined(files, ledger));
            IsSlice(p, from, to, f, t) && f <= t < |p| && selected == p[f..t + 1]
  {
    PendingUnique(files, ledger);
    RangeSelected(Joined(files, ledger), from, to);
    hide Joined, PendingOf, SelectForApply, SortedVersions, UniqueVersions;
    f, t :| IsSlice(PendingOf(Joined(files, ledger)), from, to, f, t)
            && selected == PendingOf(Joined(files, ledger))[f..t + 1];
  }

  // ---------------------------------------------------------------------------
  // What is shown as applied.
  // ---------------------------------------------------------------------------

  /** The clean files can be read and were read when they were discovered. */
  ghost predicate Fresh(disk: Disk, files: seq<Migration>) {
    forall m :: m in files ==> FreshFile(disk, m)
  }

  predicate FreshFile(disk: Disk, m: Migration) {
    && m.status == Pending
    && (m.parseError.None? ==>
          disk.read(m.upPath).Ok? && m.diskChecksum == disk.sha(disk.read(m.upPath).value))
  }

  lemma LeftoversAreInLedger(files: seq<Migration>, ledger: Ledger, m: Migration)
    requires m in Leftovers(files, ledger)
    ensures m.version in ledger
  {
    var keys := ledger.Keys - (set x | x in files :: x.version);
    InOrderHolds(keys);
    var i :| 0 <= i < |Leftovers(files, ledger)| && Leftovers(files, ledger)[i] == m;
    assert InOrder(keys)[i] in keys;
  }

  /** A listed migration that is not in the ledger is one of the files. */
  lemma NotInLedgerIsFile(files: seq<Migration>, ledger: Ledger, m: Migration)
    requires SortedVersions(files) && m in Joined(files, ledger) && m.version !in ledger
    ensures m in files
  {
    JoinedMembers(files, ledger);
    if m in Leftovers(files, ledger) {
      LeftoversAreInLedger(files, ledger, m);
    } else {
      var i :| 0 <= i < |files| && AllReconciled(files, ledger)[i] == m;
      assert m == Reconciled(files[i], ledger);
    }
  }

  lemma SelectedByVersion(ms: seq<Migration>, vs: seq<string>)
    ensures forall m :: m in WithVersionIn(ms, vs) ==> m in ms && m.version in vs
  {
  }

  /** Whatever the mode, what is selected is listed. */
  lemma SelectedIsListed(merged: seq<Migration>, mode: Mode)
    requires SelectForApply(merged, mode).Ok?
    ensures forall m :: m in SelectForApply(merged, mode).value ==> m in merged
  {
    var pending := Versions(PendingOf(merged));
    SelectedByVersion(merged, pending);
    if mode.Range? {
      var f, t := Position(pending, mode.from).value, Position(pending, mode.to).value;
      SelectedByVersion(merged, pending[f..t + 1]);
    }
    hide WithVersionIn, PendingOf;
  }

  lemma SelectedIsSound(merged: seq<Migration>, mode: Mode)
    requires UniqueVersions(merged) && SelectForApply(merged, mode).Ok?
    ensures forall m :: m in SelectForApply(merged, mode).value ==> m.parseError.None?
  {
    match mode
    case Single(version) =>
    case Range(from, to) =>
      PendingIsSub(merged);
      RangeSelected(merged, from, to);
      SliceIsClean(merged, from, to, SelectForApply(merged, mode).value);
    case AllPending =>
      PendingIsSub(merged);
      AllPendingSelected(merged);
  }

  lemma SliceIsClean(merged: seq<Migration>, from: string, to: string, selected: seq<Migration>)
    requires exists f, t :: IsSlice(PendingOf(merged), from, to, f, t) && selected == PendingOf(merged)[f..t + 1]
    ensures forall m :: m in selected ==> Clean(m)
  {
    var p := PendingOf(merged);
    var f, t :| IsSlice(p, from, to, f, t) && selected == p[f..t + 1];
    PendingIsSub(merged);
    hide PendingOf, Clean;
    assert forall m :: m in p[f..t + 1] ==> m in p;
  }

  /** With tracking on and the files unchanged, whatever the mode, each migration of the applied
   *  list is shown as applied the next time: the checksum taken at discovery is the one entered
   *  by the run. */
  lemma AppliedIsShownApplied(disk: Disk, files: seq<Migration>, db: Db, mode: Mode, selected: seq<Migration>,
                              attempts: string -> Attempt, k: nat, end: Db, r: Result<ApplyResult, ()>, i: nat)
    requires SortedVersions(files) && Fresh(disk, files)
    requires SelectForApply(Joined(files, db.ledger), mode) == Ok(selected)
    requires EndsAt(disk, true, db, selected, attempts, k, end, r) && i < k
    ensures i < |selected|
    ensures exists x :: x in Joined(files, end.ledger) && x.status == Applied && x.version == selected[i].version
  {
    JoinedUnique(files, db.ledger);
    SelectedIsListed(Joined(files, db.ledger), mode);
    SelectedIsSound(Joined(files, db.ledger), mode);
    LedgerAtEnd(disk, db, selected, attempts, k, end, r);
    hide EndsAt, SelectForApply, Joined, SortedVersions;
    var next := EnteredCount(disk, db, selected, attempts, k);
    assert selected[i] in selected && selected[..next][i] == selected[i];
    assert Entered(disk, db.ledger, end.ledger, selected[i]);
    NotInLedgerIsFile(files, db.ledger, selected[i]);
    assert FreshFile(disk, selected[i]);
    JoinedStatus(files, end.ledger, selected[i]);
  }

  // ---------------------------------------------------------------------------
  // Without tracking.
  // ---------------------------------------------------------------------------

  /** What the commands list: the files, joined with the ledger when tracking is on. */
  ghost function Listed(files: seq<Migration>, tracking: bool, db: Db): seq<Migration> {
    if tracking then Joined(files, db.ledger) else files
  }

  /** Without tracking nothing is remembered: after any run of all pending migrations, a second
   *  one selects them all again, and if it gets through it has run the SQL of every one of them
   *  again, those that the first run applied too. */
  lemma UntrackedRerunsEverything(disk: Disk, files: seq<Migration>, db: Db, selected: seq<Migration>,
                                  first: string -> Attempt, k: nat, end: Db, r: Result<ApplyResult, ()>,
                                  second: string -> Attempt, k': nat, end': Db, r': Result<ApplyResult, ()>)
    requires SortedVersions(files) && SelectForApply(Listed(files, false, db), AllPending) == Ok(selected)
    requires EndsAt(disk, false, db, selected, first, k, end, r)
    requires EndsAt(disk, false, end, selected, second, k', end', r')
    ensures SelectForApply(Listed(files, false, end), AllPending) == Ok(selected)
    ensures r.Ok? && r'.Ok? && end.ledger == end'.ledger == db.ledger
    ensures r'.value.failed.None? ==>
              && r'.value.applied == Versions(selected)
              && end'.executed == end.executed + Versions(selected)
              && |db.executed| + k <= |end.executed| && k <= |selected|
              && end.executed[..|db.executed| + k] == db.executed + Versions(selected[..k])
  {
    UntrackedLedger(disk, db, selected, first, k, end, r);
    UntrackedLedger(disk, end, selected, second, k', end', r');
    ApplyStopsAtFirstFailure(disk, false, db, selected, first, k, end, r);
    ApplyStopsAtFirstFailure(disk, false, end, selected, second, k', end', r');
    hide EndsAt, SelectForApply;
    assert selected[..|selected|] == selected;
    PrefixExecuted(db.executed, selected, k, end.executed);
  }

  lemma PrefixExecuted(before: seq<string>, selected: seq<Migration>, k: nat, after: seq<string>)
    requires k <= |selected|
    requires after == before + Versions(selected[..k])
             || (k < |selected| && after == before + Versions(selected[..k + 1]))
    ensures |before| + k <= |after| && after[..|before| + k] == before + Versions(selected[..k])
  {
    if k < |selected| {
      assert selected[..k + 1] == selected[..k] + [selected[k]];
      VersionsSnoc(selected[..k], selected[k]);
    }
  }

  lemma UntrackedLedger(disk: Disk, db: Db, selected: seq<Migration>, attempts: string -> Attempt,
                        k: nat, end: Db, r: Result<ApplyResult, ()>)
    requires EndsAt(disk, false, db, selected, attempts, k, end, r)
    ensures end.ledger == db.ledger && r.Ok?
  {
    AfterExecuted(disk, false, db, selected, k);
    if k < |selected| {
      NotDoneNotEntered(disk, false, After(disk, false, db, selected, k), selected[k], attempts(selected[k].version));
    }
  }

  // ---------------------------------------------------------------------------
  // Running once.
  // ---------------------------------------------------------------------------

  /** No version's SQL took effect twice, and each that did is in the ledger. */
  ghost predicate Once(db: Db) {
    && (forall i, j :: 0 <= i < j < |db.executed| ==> db.executed[i] != db.executed[j])
    && (forall i :: 0 <= i < |db.executed| ==> db.executed[i] in db.ledger)
  }

  /** The SQL took effect and its ledger entry was not written. */
  predicate Forgets(disk: Disk, db: Db, m: Migration, attempt: Attempt) {
    attempt in {InsertFails, EffectLost} && disk.read(m.upPath).Ok? && m.version !in db.ledger
  }

  lemma ExecuteKeepsOnceExactly(disk: Disk, db: Db, m: Migration, attempt: Attempt)
    requires Once(db)
    ensures Once(Execute(disk, true, db, m, attempt).0) <==> !Forgets(disk, db, m, attempt)
  {
    var t := Execute(disk, true, db, m, attempt).0;
    if t.executed != db.executed {
      assert t.executed[|db.executed|] == m.version;
    }
  }

  lemma {:induction false} AfterKeepsOnce(disk: Disk, db: Db, selected: seq<Migration>, attempts: string -> Attempt, k: nat)
    requires Once(db) && AllDone(disk, true, db, selected, attempts, k)
    ensures Once(After(disk, true, db, selected, k))
  {
    if k > 0 {
      var before, m := After(disk, true, db, selected, k - 1), selected[k - 1];
      AfterKeepsOnce(disk, db, selected, attempts, k - 1);
      assert DoneAt(disk, true, db, selected, attempts, k - 1);
      DoneIsAfter(disk, true, db, selected, attempts, k - 1);
      DoneMeans(disk, true, before, m, attempts(m.version));
      ExecuteKeepsOnceExactly(disk, before, m, attempts(m.version));
    }
  }

  /** With tracking on, a run of any selection keeps versions from being run twice exactly when
   *  it does not end in a migration whose SQL took effect and whose ledger entry was not written. */
  lemma ApplyKeepsOnceExactly(disk: Disk, db: Db, selected: seq<Migration>, attempts: string -> Attempt,
                              k: nat, end: Db, r: Result<ApplyResult, ()>)
    requires Once(db) && EndsAt(disk, true, db, selected, attempts, k, end, r)
    ensures k <= |selected|
    ensures Once(end) <==>
            !(k < |selected|
              && Forgets(disk, After(disk, true, db, selected, k), selected[k], attempts(selected[k].version)))
  {
    AfterKeepsOnce(disk, db, selected, attempts, k);
    if k < |selected| {
      var worked := After(disk, true, db, selected, k);
      hide Once, Execute, AllDone;
      ExecuteKeepsOnceExactly(disk, worked, selected[k], attempts(selected[k].version));
    }
  }

  /** After SQL that took effect without a ledger entry, the next attempt runs it again. */
  lemma ForgottenRunsTwice(disk: Disk, db: Db, m: Migration, attempt: Attempt)
    requires Forgets(disk, db, m, attempt)
    ensures var again := Execute(disk, true, Execute(disk, true, db, m, attempt).0, m, Works);
            again.1 == Done && again.0.executed == db.executed + [m.version, m.version]
  {
    assert (db.executed + [m.version]) + [m.version] == db.executed + [m.version, m.version];
  }

  // ---------------------------------------------------------------------------
  // From the directory to the next run.
  // ---------------------------------------------------------------------------

  /** What `discover` returns is what the runs need: sorted, and clean entries were read. */
  lemma DiscoveredIsReady(disk: Disk, listing: seq<DirEntry>)
    requires Discovered(disk, listing).Ok?
    ensures SortedVersions(Discovered(disk, listing).value) && Fresh(disk, Discovered(disk, listing).value)
  {
    DiscoveryOrder.DiscoverSorted(disk, listing);
    DiscoveryOrder.DiscoverDescribesFiles(disk, listing);
    hide Discovered, DiscoveryOrder.HasKind, DiscoveryOrder.HasName, DiscoveryOrder.Clashes, DiscoveryOrder.HasVersion;
    var out := Discovered(disk, listing).value;
    forall m | m in out ensures FreshFile(disk, m) {
      var i :| 0 <= i < |out| && out[i] == m;
      assert DiscoveryOrder.FlaggedRightly(listing, m);
    }
  }

  /** Discovering, joining, selecting in any mode and applying, and then listing the same
   *  directory again: the applied migrations are shown as applied, and all that is pending is
   *  what was pending before, less what the run entered in the ledger. */
  lemma DirectoryRunResumes(disk: Disk, listing: seq<DirEntry>, db: Db, mode: Mode, selected: seq<Migration>,
                            attempts: string -> Attempt, k: nat, end: Db, r: Result<ApplyResult, ()>)
    requires Discovered(disk, listing).Ok?
    requires SelectForApply(Joined(Discovered(disk, listing).value, db.ledger), mode) == Ok(selected)
    requires EndsAt(disk, true, db, selected, attempts, k, end, r)
    ensures k <= |selected|
    ensures var files := Discovered(disk, listing).value;
            && SelectForApply(Joined(files, end.ledger), AllPending)
               == Ok(Minus(PendingOf(Joined(files, db.ledger)),
                           Versions(selected[..EnteredCount(disk, db, selected, attempts, k)])))
            && forall i :: 0 <= i < k ==>
                 exists x :: x in Joined(files, end.ledger) && x.status == Applied && x.version == selected[i].version
  {
    DiscoveredIsReady(disk, listing);
    var files := Discovered(disk, listing).value;
    hide Discovered, EndsAt, SelectForApply, Joined, SortedVersions, Fresh, EnteredCount, Minus;
    PendingAfterRun(disk, files, db, selected, attempts, k, end, r);
    forall i | 0 <= i < k
      ensures exists x :: x in Joined(files, end.ledger) && x.status == Applied && x.version == selected[i].version
    {
      AppliedIsShownApplied(disk, files, db, mode, selected, attempts, k, end, r, i);
    }
  }
}

/** Entries marked installed and lines in the crontab, over whole runs. */
module SchedulerRuns {
  import opened Wrappers
  import opened Text
  import opened Crontab
  import opened CrontabMarkers
  import opened Scheduler
  import CronExpression

  // ---------------------------------------------------------------------------
  // Soundness.
  // ---------------------------------------------------------------------------

  ghost predicate UniqueIds(schedules: seq<Entry>) {
    forall i, j :: 0 <= i < j < |schedules| ==> schedules[i].id != schedules[j].id
  }

  /** An installed entry has exactly one line in the crontab, its own. */
  ghost predicate EntrySound(e: Entry, crontab: string) {
    IsId(e.id) && '#' !in e.cron && (e.installed ==> HasLine(crontab, e.id))
  }

  ghost predicate Sound(s: State) {
    UniqueIds(s.schedules) && forall i :: 0 <= i < |s.schedules| ==> EntrySound(s.schedules[i], s.crontab)
  }

  // ---------------------------------------------------------------------------
  // Steps.
  // ---------------------------------------------------------------------------

  datatype Event =
    | Upsert(id: string, title: string, cron: string, backup: string, now: string, faults: Faults)
    | Remove(id: string, faults: Faults)
    | Install(id: string, faults: Faults)
    | Uninstall(id: string, faults: Faults)

  function Step(s: State, e: Event): State {
    match e
    case Upsert(id, title, cron, backup, now, faults) => Upserted(s, id, title, cron, backup, now, faults).0
    case Remove(id, faults) => Removed(s, id, faults).0
    case Install(id, faults) => Installed(s, id, faults).0
    case Uninstall(id, faults) => Uninstalled(s, id, faults).0
  }

  /** Some other installed schedule's id begins with this one, or this one with it. */
  predicate Overlaps(schedules: seq<Entry>, id: string) {
    exists i :: 0 <= i < |schedules| && schedules[i].installed && schedules[i].id != id
                && (id <= schedules[i].id || schedules[i].id <= id)
  }

  /** The id of some other installed schedule begins with this one. */
  predicate Shadows(schedules: seq<Entry>, id: string) {
    exists i :: 0 <= i < |schedules| && schedules[i].installed && schedules[i].id != id && id <= schedules[i].id
  }

  predicate Marks(schedules: seq<Entry>, id: string) {
    exists i :: 0 <= i < |schedules| && schedules[i].installed && schedules[i].id == id
  }

  /** The crontab is rewritten although another schedule's line is at stake, or it is rewritten
   *  and the schedule file then is not. */
  predicate Breaks(s: State, e: Event) {
    match e
    case Upsert(_, _, _, _, _, _) => false
    case Remove(_, _) => false
    case Install(id, faults) =>
      && faults.readSchedules.None? && Position(s.schedules, id) < |s.schedules|
      && faults.readCrontab.None? && faults.writeCrontab.None?
      && Overlaps(s.schedules, id)
    case Uninstall(id, faults) =>
      && faults.readCrontab.None? && faults.writeCrontab.None?
      && (Shadows(s.schedules, id)
          || (Marks(s.schedules, id) && (faults.readSchedules.Some? || faults.writeSchedules.Some?)))
  }

  // ---------------------------------------------------------------------------
  // Upsert and remove.
  // ---------------------------------------------------------------------------

  lemma UpsertIsSound(s: State, e: Event)
    requires Sound(s) && IsId(e.id) && e.Upsert?
    ensures Sound(Step(s, e))
  {
    hide IsId, HasLine, CronExpression.ValidateCron;
    if CronExpression.ValidateCron(e.cron).Ok? {
      CronExpression.AcceptedIsHashFree(e.cron);
      var k := Position(s.schedules, e.id);
      if k < |s.schedules| {
        assert EntrySound(s.schedules[k], s.crontab);
      }
    }
  }

  lemma {:induction false} WithoutKeeps(schedules: seq<Entry>, id: string)
    ensures forall x :: x in Without(schedules, id) ==> x in schedules && x.id != id
    ensures UniqueIds(schedules) ==> UniqueIds(Without(schedules, id))
  {
    if schedules != [] {
      WithoutKeeps(schedules[1..], id);
      assert schedules == [schedules[0]] + schedules[1..];
      var rest := Without(schedules[1..], id);
      if UniqueIds(schedules) {
        forall i | 0 <= i < |rest| ensures rest[i].id != schedules[0].id {
          assert rest[i] in schedules[1..];
        }
      }
    }
  }

  lemma RemoveIsSound(s: State, e: Event)
    requires Sound(s) && e.Remove?
    ensures Sound(Step(s, e))
  {
    hide EntrySound;
    WithoutKeeps(s.schedules, e.id);
    var rest := Without(s.schedules, e.id);
    forall i | 0 <= i < |rest| ensures EntrySound(rest[i], s.crontab) {
      assert rest[i] in s.schedules;
    }
  }

  // ---------------------------------------------------------------------------
  // Install and uninstall.
  // ---------------------------------------------------------------------------

  /** Rewriting the crontab for entry `k` leaves the other entries sound exactly when no installed
   *  id overlaps with its id. */
  lemma InstallRewrite(s: State, k: nat)
    requires Sound(s) && k < |s.schedules|
    ensures var t := Composed(s.crontab, s.schedules[k].id, s.schedules[k].cron);
            && HasLine(t, s.schedules[k].id)
            && ((forall i :: 0 <= i < |s.schedules| && i != k ==> EntrySound(s.schedules[i], t))
                <==> !Overlaps(s.schedules, s.schedules[k].id))
  {
    var added := s.schedules[k];
    var t := Composed(s.crontab, added.id, added.cron);
    hide IsId, HasLine, Composed;
    assert EntrySound(added, s.crontab);
    ComposeGives(s.crontab, added.id, added.cron);
    forall i | 0 <= i < |s.schedules| && i != k
      ensures var x := s.schedules[i];
              x.id != added.id
              && (EntrySound(x, t) <==> !(x.installed && (added.id <= x.id || x.id <= added.id)))
    {
      InstallSparesEntry(s.schedules[i], added, s.crontab);
    }
  }

  lemma InstallSparesEntry(x: Entry, added: Entry, crontab: string)
    requires EntrySound(x, crontab) && EntrySound(added, crontab) && x.id != added.id
    ensures EntrySound(x, Composed(crontab, added.id, added.cron))
            <==> !(x.installed && (added.id <= x.id || x.id <= added.id))
  {
    hide IsId, HasLine, Composed;
    if x.installed {
      ComposeSparesExactly(crontab, added.id, added.cron, x.id);
    }
  }

  lemma InstallIsSoundExactly(s: State, e: Event)
    requires Sound(s) && e.Install?
    ensures Sound(Step(s, e)) <==> !Breaks(s, e)
  {
    var k := Position(s.schedules, e.id);
    hide Position, Composed, HasLine, IsId, Overlaps;
    if k < |s.schedules| {
      InstallRewrite(s, k);
      var t := Step(s, e);
      assert EntrySound(s.schedules[k], s.crontab);
      if t.crontab != s.crontab || e.faults.writeCrontab.None? {
        OneFlagChanged(s, t, k);
      }
    }
  }

  /** Only the flag of entry `k` may differ. */
  lemma OneFlagChanged(s: State, t: State, k: nat)
    requires Sound(s) && k < |s.schedules|
    requires t.schedules == s.schedules || t.schedules == s.schedules[k := s.schedules[k].(installed := true)]
             || t.schedules == s.schedules[k := s.schedules[k].(installed := false)]
    ensures Sound(t) <==> EntrySound(t.schedules[k], t.crontab)
                          && forall i :: 0 <= i < |s.schedules| && i != k ==> EntrySound(s.schedules[i], t.crontab)
  {
    hide EntrySound;
    assert forall i :: 0 <= i < |t.schedules| ==> t.schedules[i].id == s.schedules[i].id;
    assert forall i :: 0 <= i < |t.schedules| && i != k ==> t.schedules[i] == s.schedules[i];
  }

  /** Stripping leaves the other entries sound exactly when no installed id begins with this one. */
  lemma UninstallRewrite(s: State, id: string)
    requires Sound(s) && IsId(id)
    ensures var t := Stripped(s.crontab, id);
            && ((forall i :: 0 <= i < |s.schedules| && s.schedules[i].id != id ==> EntrySound(s.schedules[i], t))
                <==> !Shadows(s.schedules, id))
            && forall i :: 0 <= i < |s.schedules| && s.schedules[i].id == id ==>
                 (EntrySound(s.schedules[i], t) <==> !s.schedules[i].installed)
  {
    var t := Stripped(s.crontab, id);
    hide HasLine, Stripped;
    forall i | 0 <= i < |s.schedules|
      ensures var x := s.schedules[i]; EntrySound(x, t) <==> !(x.installed && id <= x.id)
    {
      var x := s.schedules[i];
      assert EntrySound(x, s.crontab);
      if x.installed {
        StripTakesExactly(s.crontab, id, x.id);
      }
    }
  }

  lemma UninstallOfEntry(s: State, t: State, k: nat)
    requires Sound(s) && k < |s.schedules|
    requires t.schedules == s.schedules || t.schedules == s.schedules[k := s.schedules[k].(installed := false)]
    requires t.crontab == Stripped(s.crontab, s.schedules[k].id)
    ensures Sound(t) <==> !Shadows(s.schedules, s.schedules[k].id) && !t.schedules[k].installed
  {
    var id := s.schedules[k].id;
    hide Stripped, HasLine, IsId;
    assert EntrySound(s.schedules[k], s.crontab);
    UninstallRewrite(s, id);
    OneFlagChanged(s, t, k);
    assert EntrySound(t.schedules[k], t.crontab) <==> !t.schedules[k].installed;
    hide Shadows, EntrySound;
    assert forall i :: 0 <= i < |s.schedules| ==> (s.schedules[i].id != id <==> i != k);
  }

  lemma UninstallOfStranger(s: State, id: string)
    requires Sound(s) && IsId(id) && forall i :: 0 <= i < |s.schedules| ==> s.schedules[i].id != id
    ensures Sound(s.(crontab := Stripped(s.crontab, id))) <==> !Shadows(s.schedules, id)
  {
    hide Stripped, EntrySound, IsId, Shadows;
    UninstallRewrite(s, id);
  }

  lemma UninstallIsSoundExactly(s: State, e: Event)
    requires Sound(s) && IsId(e.id) && e.Uninstall?
    ensures Sound(Step(s, e)) <==> !Breaks(s, e)
  {
    var k := Position(s.schedules, e.id);
    hide Position, Stripped, EntrySound, IsId, Shadows;
    if k < |s.schedules| {
      assert Marks(s.schedules, e.id) <==> s.schedules[k].installed;
      if e.faults.readCrontab.None? && (Stripped(s.crontab, e.id) == s.crontab || e.faults.writeCrontab.None?) {
        UninstallOfEntry(s, Step(s, e), k);
      }
      if Stripped(s.crontab, e.id) == s.crontab {
        UninstallOfEntry(s, s, k);
      }
    } else {
      assert !Marks(s.schedules, e.id);
      UninstallOfStranger(s, e.id);
    }
  }

  // ---------------------------------------------------------------------------
  // Runs.
  // ---------------------------------------------------------------------------

  /** A step keeps ids unique and one line for every installed entry exactly when it is not one
   *  of the breaking ones. */
  lemma StepIsSoundExactly(s: State, e: Event)
    requires Sound(s) && IsId(e.id)
    ensures Sound(Step(s, e)) <==> !Breaks(s, e)
  {
    match e
    case Upsert(_, _, _, _, _, _) => UpsertIsSound(s, e);
    case Remove(_, _) => RemoveIsSound(s, e);
    case Install(_, _) => InstallIsSoundExactly(s, e);
    case Uninstall(_, _) => UninstallIsSoundExactly(s, e);
  }

  ghost predicate IsRun(trace: seq<State>, events: seq<Event>) {
    && |trace| == |events| + 1 && trace[0].schedules == []
    && forall i :: 0 <= i < |events| ==> IsId(events[i].id) && trace[i + 1] == Step(trace[i], events[i])
  }

  /** From no schedules and any crontab, a run without a breaking step stays sound. */
  lemma {:induction false} RunIsSound(trace: seq<State>, events: seq<Event>, n: nat)
    requires IsRun(trace, events) && n <= |events|
    requires forall i :: 0 <= i < n ==> !Breaks(trace[i], events[i])
    ensures Sound(trace[n])
  {
    if n > 0 {
      RunIsSound(trace, events, n - 1);
      hide Sound, Breaks, Step, IsId;
      StepIsSoundExactly(trace[n - 1], events[n - 1]);
    }
  }

  ghost predicate PrefixFree(ids: set<string>) {
    forall a, b :: a in ids && b in ids && a <= b ==> a == b
  }

  ghost predicate Uses(s: State, ids: set<string>) {
    forall i :: 0 <= i < |s.schedules| ==> s.schedules[i].id in ids
  }

  lemma StepUses(s: State, e: Event, ids: set<string>)
    requires Uses(s, ids) && e.id in ids
    ensures Uses(Step(s, e), ids)
  {
    hide CronExpression.ValidateCron, Composed, Stripped;
    WithoutKeeps(s.schedules, e.id);
    if e.Remove? {
      var rest := Without(s.schedules, e.id);
      assert forall i :: 0 <= i < |rest| ==> rest[i] in s.schedules;
    }
  }

  /** With ids none of which begins another, and a schedule file that can be read and written,
   *  no step breaks anything: every installed entry has its one line, and ids stay unique. */
  lemma {:induction false} PrefixFreeRunIsSound(trace: seq<State>, events: seq<Event>, ids: set<string>, n: nat)
    requires IsRun(trace, events) && n <= |events| && PrefixFree(ids)
    requires forall i :: 0 <= i < |events| ==>
               && events[i].id in ids
               && events[i].faults.readSchedules.None? && events[i].faults.writeSchedules.None?
    ensures Sound(trace[n]) && Uses(trace[n], ids)
  {
    if n > 0 {
      PrefixFreeRunIsSound(trace, events, ids, n - 1);
      var s, e := trace[n - 1], events[n - 1];
      StepUses(s, e, ids);
      NothingBreaks(s, e, ids);
      hide Sound, Breaks, Step, IsId, Uses;
      StepIsSoundExactly(s, e);
    }
  }

  lemma NothingBreaks(s: State, e: Event, ids: set<string>)
    requires Uses(s, ids) && e.id in ids && PrefixFree(ids)
    requires e.faults.readSchedules.None? && e.faults.writeSchedules.None?
    ensures !Breaks(s, e)
  {
    assert !Overlaps(s.schedules, e.id) && !Shadows(s.schedules, e.id);
  }
}

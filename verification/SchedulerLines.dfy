/** Which expression the crontab runs a schedule with (src-tauri/src/backup/installer.rs and
 *  src-tauri/src/backup/schedule.rs). Changing a schedule does not touch the crontab, so the line
 *  of an installed entry has the expression the entry had when it was last installed.
 */
module SchedulerLines {
  import opened Wrappers
  import opened Text
  import opened Crontab
  import opened CrontabMarkers
  import opened Scheduler
  import opened SchedulerRuns
  import CronExpression

  /** The one line of schedule `id` runs this expression (its last line, if it has several). */
  predicate LineRuns(crontab: string, id: string, cron: string) {
    Marked(Lines(crontab), id) == [CronLine(id, LastPiece(cron))]
  }

  /** The step rewrites the crontab for the entry it installs. */
  predicate Rewrites(s: State, e: Event) {
    && e.Install? && e.faults.readSchedules.None? && Position(s.schedules, e.id) < |s.schedules|
    && e.faults.readCrontab.None? && e.faults.writeCrontab.None?
  }

  function Relined(s: State, e: Event, lined: map<string, string>): map<string, string> {
    if Rewrites(s, e) then lined[e.id := s.schedules[Position(s.schedules, e.id)].cron] else lined
  }

  /** Each id's expression at the last rewrite of the crontab for it. */
  function Lined(trace: seq<State>, events: seq<Event>, n: nat): map<string, string>
    requires |trace| == |events| + 1 && n <= |events|
  {
    if n == 0 then map[] else Relined(trace[n - 1], events[n - 1], Lined(trace, events, n - 1))
  }

  predicate EntryRuns(e: Entry, crontab: string, lined: map<string, string>) {
    e.installed ==> e.id in lined && LineRuns(crontab, e.id, lined[e.id])
  }

  /** Every installed entry's line runs what was recorded for it. */
  ghost predicate AsLined(s: State, lined: map<string, string>) {
    forall i :: 0 <= i < |s.schedules| ==> EntryRuns(s.schedules[i], s.crontab, lined)
  }

  // ---------------------------------------------------------------------------
  // Steps.
  // ---------------------------------------------------------------------------

  lemma UpsertRuns(s: State, e: Event, lined: map<string, string>)
    requires AsLined(s, lined) && e.Upsert?
    ensures AsLined(Step(s, e), lined)
  {
    hide CronExpression.ValidateCron, LineRuns;
    var k := Position(s.schedules, e.id);
    assert k < |s.schedules| ==> EntryRuns(s.schedules[k], s.crontab, lined);
  }

  lemma RemoveRuns(s: State, e: Event, lined: map<string, string>)
    requires AsLined(s, lined) && e.Remove?
    ensures AsLined(Step(s, e), lined)
  {
    hide EntryRuns;
    WithoutKeeps(s.schedules, e.id);
    var rest := Without(s.schedules, e.id);
    forall i | 0 <= i < |rest| ensures EntryRuns(rest[i], s.crontab, lined) {
      assert rest[i] in s.schedules;
    }
  }

  lemma ComposeRuns(crontab: string, id: string, cron: string)
    requires IsId(id) && '#' !in cron
    ensures LineRuns(Composed(crontab, id, cron), id, cron)
  {
    var last := MarkedAfterCompose(crontab, id, cron, id);
    StripRemovesMarked(crontab, id);
    hide Lines, Stripped, Composed, CronLine, Marked;
    assert [] + [CronLine(id, last)] == [CronLine(id, last)];
  }

  lemma ComposeSparesLine(crontab: string, added: string, cron: string, id: string)
    requires IsId(id) && IsId(added) && '#' !in cron && HasLine(crontab, id) && !(added <= id) && !(id <= added)
    ensures Marked(Lines(Composed(crontab, added, cron)), id) == Marked(Lines(crontab), id)
  {
    var last := MarkedAfterCompose(crontab, added, cron, id);
    StripTakesExactly(crontab, added, id);
  }

  lemma InstallSparesRun(x: Entry, added: Entry, crontab: string, lined: map<string, string>)
    requires EntrySound(x, crontab) && EntrySound(added, crontab) && EntryRuns(x, crontab, lined)
    requires x.id != added.id && !(x.installed && (added.id <= x.id || x.id <= added.id))
    ensures EntryRuns(x, Composed(crontab, added.id, added.cron), lined[added.id := added.cron])
  {
    hide IsId, HasLine, Composed, Marked, Lines;
    if x.installed {
      ComposeSparesLine(crontab, added.id, added.cron, x.id);
    }
  }

  /** An install that rewrites the crontab changes nothing else but one flag, if that. */
  lemma InstallChanges(s: State, e: Event)
    requires Rewrites(s, e)
    ensures var k, t := Position(s.schedules, e.id), Step(s, e); var added := s.schedules[k];
            && added.id == e.id && t.crontab == Composed(s.crontab, added.id, added.cron)
            && (t.schedules == s.schedules || t.schedules == s.schedules[k := added.(installed := true)])
  {
    hide Composed;
  }

  lemma OthersRun(s: State, k: nat, crontab: string, now: map<string, string>, lined: map<string, string>)
    requires Sound(s) && AsLined(s, lined) && k < |s.schedules| && !Overlaps(s.schedules, s.schedules[k].id)
    requires crontab == Composed(s.crontab, s.schedules[k].id, s.schedules[k].cron)
    requires now == lined[s.schedules[k].id := s.schedules[k].cron]
    ensures forall i :: 0 <= i < |s.schedules| && i != k ==> EntryRuns(s.schedules[i], crontab, now)
  {
    assert EntrySound(s.schedules[k], s.crontab);
    hide EntryRuns, EntrySound, Composed;
    forall i | 0 <= i < |s.schedules| && i != k ensures EntryRuns(s.schedules[i], crontab, now) {
      assert EntrySound(s.schedules[i], s.crontab) && EntryRuns(s.schedules[i], s.crontab, lined);
      InstallSparesRun(s.schedules[i], s.schedules[k], s.crontab, lined);
    }
  }

  lemma InstallAllowed(s: State, e: Event, lined: map<string, string>)
    requires Sound(s) && Rewrites(s, e) && !Breaks(s, e)
    ensures var k := Position(s.schedules, e.id); var added := s.schedules[k];
            && IsId(added.id) && '#' !in added.cron && !Overlaps(s.schedules, added.id)
            && Relined(s, e, lined) == lined[added.id := added.cron]
  {
    assert EntrySound(s.schedules[Position(s.schedules, e.id)], s.crontab);
    hide IsId, HasLine, Overlaps;
  }

  lemma EntriesRun(before: seq<Entry>, after: seq<Entry>, k: nat, crontab: string, lined: map<string, string>)
    requires k < |before| && (after == before || after == before[k := before[k].(installed := true)])
    requires before[k].id in lined && LineRuns(crontab, before[k].id, lined[before[k].id])
    requires forall i :: 0 <= i < |before| && i != k ==> EntryRuns(before[i], crontab, lined)
    ensures forall i :: 0 <= i < |after| ==> EntryRuns(after[i], crontab, lined)
  {
    hide LineRuns;
  }

  lemma InstallRuns(s: State, e: Event, lined: map<string, string>)
    requires Sound(s) && AsLined(s, lined) && Rewrites(s, e) && !Breaks(s, e)
    ensures AsLined(Step(s, e), Relined(s, e, lined))
  {
    var k := Position(s.schedules, e.id);
    assert k < |s.schedules|;
    hide Sound, Step, Relined, Rewrites, Breaks, Position, Composed, IsId, LineRuns, Overlaps, EntryRuns;
    InstallAllowed(s, e, lined);
    InstallChanges(s, e);
    var added, t, now := s.schedules[k], Step(s, e), Relined(s, e, lined);
    ComposeRuns(s.crontab, added.id, added.cron);
    OthersRun(s, k, t.crontab, now, lined);
    EntriesRun(s.schedules, t.schedules, k, t.crontab, now);
  }

  lemma UninstallRuns(s: State, e: Event, lined: map<string, string>)
    requires Sound(s) && AsLined(s, lined) && e.Uninstall? && IsId(e.id) && !Breaks(s, e)
    ensures AsLined(Step(s, e), lined)
  {
    var t := Step(s, e);
    hide IsId, HasLine, Stripped, Marked, Lines, Position;
    if t.crontab != s.crontab {
      forall i | 0 <= i < |t.schedules| ensures EntryRuns(t.schedules[i], t.crontab, lined) {
        var x := s.schedules[i];
        assert EntrySound(x, s.crontab) && EntryRuns(x, s.crontab, lined);
        if t.schedules[i].installed {
          assert x.installed && x.id != e.id;
          assert !(e.id <= x.id);
          StripTakesExactly(s.crontab, e.id, x.id);
        }
      }
    }
  }

  lemma StepRuns(s: State, e: Event, lined: map<string, string>)
    requires Sound(s) && AsLined(s, lined) && IsId(e.id) && !Breaks(s, e)
    ensures AsLined(Step(s, e), Relined(s, e, lined))
  {
    hide AsLined, Sound, IsId, Breaks, Composed;
    match e
    case Upsert(_, _, _, _, _, _) => UpsertRuns(s, e, lined);
    case Remove(_, _) => RemoveRuns(s, e, lined);
    case Install(_, _) => if Rewrites(s, e) { InstallRuns(s, e, lined); }
    case Uninstall(_, _) => UninstallRuns(s, e, lined);
  }

  // ---------------------------------------------------------------------------
  // Runs.
  // ---------------------------------------------------------------------------

  lemma {:induction false} RunLines(trace: seq<State>, events: seq<Event>, n: nat)
    requires IsRun(trace, events) && n <= |events|
    requires forall i :: 0 <= i < n ==> !Breaks(trace[i], events[i])
    ensures AsLined(trace[n], Lined(trace, events, n))
  {
    if n > 0 {
      RunLines(trace, events, n - 1);
      RunIsSound(trace, events, n - 1);
      hide AsLined, Sound, Breaks, Step, IsId, Relined;
      StepRuns(trace[n - 1], events[n - 1], Lined(trace, events, n - 1));
    }
  }

  lemma CronLineInjective(id: string, a: string, b: string)
    ensures CronLine(id, a) == CronLine(id, b) <==> a == b
  {
    hide Command;
    assert CronLine(id, a)[..|CronLine(id, a)| - |Command(id)|] == a;
    assert CronLine(id, b)[..|CronLine(id, b)| - |Command(id)|] == b;
  }

  /** In every run without a breaking step, an installed entry's line runs the expression the
   *  entry had when the crontab was last rewritten for it, and so the entry's present one
   *  exactly when that is still the same (in its last line, if it has several). */
  lemma LineIsCurrentExactly(trace: seq<State>, events: seq<Event>, n: nat, i: nat)
    requires IsRun(trace, events) && n <= |events|
    requires forall j :: 0 <= j < n ==> !Breaks(trace[j], events[j])
    requires i < |trace[n].schedules| && trace[n].schedules[i].installed
    ensures var e, lined := trace[n].schedules[i], Lined(trace, events, n);
            && e.id in lined && LineRuns(trace[n].crontab, e.id, lined[e.id])
            && (LineRuns(trace[n].crontab, e.id, e.cron) <==> LastPiece(lined[e.id]) == LastPiece(e.cron))
  {
    RunLines(trace, events, n);
    var e, lined := trace[n].schedules[i], Lined(trace, events, n);
    assert EntryRuns(e, trace[n].crontab, lined);
    hide Marked, Lines, CronLine, LastPiece;
    CronLineInjective(e.id, LastPiece(lined[e.id]), LastPiece(e.cron));
  }

  /** Only an upsert of its own id changes an entry's expression. */
  lemma OnlyUpsertChangesCron(s: State, e: Event, i: nat, j: nat)
    requires Sound(s) && i < |s.schedules| && j < |Step(s, e).schedules|
    requires s.schedules[i].id == Step(s, e).schedules[j].id
    requires e.Upsert? ==> e.id != s.schedules[i].id
    ensures s.schedules[i].cron == Step(s, e).schedules[j].cron
  {
    hide CronExpression.ValidateCron, EntrySound, Composed, Stripped;
    if e.Remove? {
      WithoutKeeps(s.schedules, e.id);
      assert Step(s, e).schedules[j] in Step(s, e).schedules;
      assert Step(s, e).schedules[j] in s.schedules;
    }
  }
}

/** What the answers of the schedule operations mean, and that only checked expressions are stored
 *  or reach the crontab, whatever fails (src-tauri/src/backup/schedule.rs and
 *  src-tauri/src/backup/installer.rs).
 */
module SchedulerMeans {
  import opened Wrappers
  import opened Text
  import opened Crontab
  import opened CrontabMarkers
  import opened Scheduler
  import opened SchedulerRuns
  import opened SchedulerLines
  import CrontabLaws
  import CronExpression
  import SchedulerLaws
  import SchedulerOrphans

  ghost predicate HasEntry(s: State, id: string) {
    exists i :: 0 <= i < |s.schedules| && s.schedules[i].id == id
  }

  // ---------------------------------------------------------------------------
  // Answers.
  // ---------------------------------------------------------------------------

  /** An upsert succeeds exactly when the expression has five well-formed fields and the schedule
   *  file can be read and written. A malformed expression is refused as such before any file is
   *  looked at. Refused or failed, nothing changes; the crontab never does. */
  lemma UpsertSucceedsExactly(s: State, id: string, title: string, cron: string, backup: string, now: string,
                              faults: Faults)
    ensures var (t, r) := Upserted(s, id, title, cron, backup, now, faults);
            && (r.Ok? <==> CronExpression.IsCron(cron) && faults.readSchedules.None? && faults.writeSchedules.None?)
            && (!CronExpression.IsCron(cron) ==> r.Err? && r.error.Schedule?)
            && (r.Err? ==> t == s)
            && t.crontab == s.crontab
  {
    CronExpression.AcceptedExactly(cron);
    hide CronExpression.ValidateCron, CronExpression.IsCron;
  }

  /** A remove succeeds exactly when the file can be read and, if there is something to remove,
   *  written; then no entry has the id, and every other entry is still there. */
  lemma RemoveSucceedsExactly(s: State, id: string, faults: Faults)
    ensures var (t, r) := Removed(s, id, faults);
            && (r.Ok? <==> faults.readSchedules.None? && (HasEntry(s, id) ==> faults.writeSchedules.None?))
            && (r.Err? ==> t == s)
            && (r.Ok? ==> forall x :: x in t.schedules <==> x in s.schedules && x.id != id)
            && t.crontab == s.crontab
  {
    SchedulerLaws.WithoutAbsent(s.schedules, id);
    WithoutKeeps(s.schedules, id);
    forall x | x in s.schedules && x.id != id ensures x in Without(s.schedules, id) {
      SchedulerOrphans.WithoutHas(s.schedules, id, x);
    }
    EntryAt(s, id);
    hide Without;
    if !HasEntry(s, id) {
      assert forall x :: x in s.schedules ==> x.id != id;
    }
  }

  lemma EntryAt(s: State, id: string)
    ensures HasEntry(s, id) <==> Position(s.schedules, id) < |s.schedules|
  {
  }

  /** An install succeeds exactly when there is such an entry and nothing fails. Then the crontab
   *  is rewritten for the entry's expression and the entry is marked, and nothing else changes.
   *  Otherwise no entry changes, and the crontab only when the last write is what failed. */
  lemma InstallSucceedsExactly(s: State, id: string, faults: Faults)
    ensures var (t, r) := Installed(s, id, faults); var k := Position(s.schedules, id);
            && (r.Ok? <==> HasEntry(s, id) && faults == Faults(None, None, None, None))
            && (r.Ok? ==> && s.schedules[k].id == id
                          && t.schedules == s.schedules[k := s.schedules[k].(installed := true)]
                          && t.crontab == Composed(s.crontab, id, s.schedules[k].cron))
            && (r.Err? ==> t.schedules == s.schedules)
            && (r.Err? && t.crontab != s.crontab ==>
                  HasEntry(s, id) && faults == Faults(None, faults.writeSchedules, None, None)
                  && r == Err(faults.writeSchedules.value) && t.crontab == Composed(s.crontab, id, s.schedules[k].cron))
  {
    EntryAt(s, id);
    hide Composed, Position;
  }

  /** An uninstall succeeds exactly when crontab and schedule file can be read, and written where
   *  there is something to change; a crontab without the schedule's lines is not written. Then
   *  no line of the schedule is left and its entry, if there is one, is not marked. */
  lemma UninstallSucceedsExactly(s: State, id: string, faults: Faults)
    requires IsId(id)
    ensures var (t, r) := Uninstalled(s, id, faults); var k := Position(s.schedules, id);
            && (r.Ok? <==>
                  && faults.readCrontab.None? && (Stripped(s.crontab, id) != s.crontab ==> faults.writeCrontab.None?)
                  && faults.readSchedules.None? && (HasEntry(s, id) ==> faults.writeSchedules.None?))
            && (r.Ok? ==> t.crontab == Stripped(s.crontab, id) && Marked(Lines(t.crontab), id) == [])
            && (r.Ok? ==> t.schedules == if HasEntry(s, id) then s.schedules[k := s.schedules[k].(installed := false)]
                                         else s.schedules)
            && (r.Err? ==> t.schedules == s.schedules && t.crontab in {s.crontab, Stripped(s.crontab, id)})
  {
    EntryAt(s, id);
    StripRemovesMarked(s.crontab, id);
    hide Stripped, Position, Marked, Lines;
  }

  lemma DumpText()
    ensures DumpCommand() == " pg_dump --version > /dev/null 2>&1 "
  {
  }

  lemma TagText()
    ensures Tag() == "# ide99-backup:"
  {
  }

  lemma LineOfParts(id: string, cron: string)
    ensures CronLine(id, cron) == cron + DumpCommand() + Tag() + id + Trailer()
  {
    hide DumpCommand, Tag, Trailer;
    Regroup(cron, DumpCommand() + (Tag() + id), Trailer());
    Regroup(cron, DumpCommand(), Tag() + id);
    Regroup(cron + DumpCommand(), Tag(), id);
  }

  /** The line that is written: expression, command and marker, and a remark. */
  lemma CronLineText(id: string, cron: string)
    ensures CronLine(id, cron) == cron + " pg_dump --version > /dev/null 2>&1 " + "# ide99-backup:" + id + Trailer()
  {
    hide *;
    LineOfParts(id, cron);
    DumpText();
    TagText();
  }

  // ---------------------------------------------------------------------------
  // Only checked expressions, over every run.
  // ---------------------------------------------------------------------------

  ghost predicate AllAccepted(s: State) {
    forall i :: 0 <= i < |s.schedules| ==> CronExpression.IsCron(s.schedules[i].cron)
  }

  lemma StepKeepsAccepted(s: State, e: Event)
    requires AllAccepted(s)
    ensures AllAccepted(Step(s, e))
  {
    hide CronExpression.IsCron, CronExpression.ValidateCron, Composed, Stripped;
    match e
    case Upsert(_, _, cron, _, _, _) => CronExpression.AcceptedExactly(cron);
    case Remove(id, _) =>
      WithoutKeeps(s.schedules, id);
      var rest := Without(s.schedules, id);
      forall i | 0 <= i < |rest| ensures CronExpression.IsCron(rest[i].cron) {
        assert rest[i] in s.schedules;
      }
    case _ =>
  }

  /** In every run, whatever breaks or fails, every stored entry has a well-formed expression. */
  lemma {:induction false} RunIsAccepted(trace: seq<State>, events: seq<Event>, n: nat)
    requires IsRun(trace, events) && n <= |events|
    ensures AllAccepted(trace[n])
  {
    if n > 0 {
      RunIsAccepted(trace, events, n - 1);
      hide AllAccepted, Step, IsId;
      StepKeepsAccepted(trace[n - 1], events[n - 1]);
    }
  }

  /** The line is one that an install writes for some well-formed expression. */
  ghost predicate IsWritten(line: string) {
    exists id, cron :: IsId(id) && CronExpression.IsCron(cron) && line == CronLine(id, LastPiece(cron))
  }

  ghost predicate TagsAreWritten(crontab: string) {
    forall line :: line in Lines(crontab) && Contains(line, Tag()) ==> IsWritten(line)
  }

  lemma CronIsHashFree(cron: string)
    requires CronExpression.IsCron(cron)
    ensures '#' !in cron
  {
    CronExpression.AcceptedExactly(cron);
    CronExpression.AcceptedIsHashFree(cron);
  }

  lemma StripKeepsWritten(crontab: string, removed: string)
    requires TagsAreWritten(crontab)
    ensures TagsAreWritten(Stripped(crontab, removed))
  {
    hide Lines, Stripped, Contains, CronLine, LastPiece, IsId, CronExpression.IsCron, Tag;
    forall line | line in Lines(Stripped(crontab, removed)) && Contains(line, Tag()) ensures IsWritten(line) {
      var x := SchedulerOrphans.StrippedMember(crontab, removed, line);
      CrontabLaws.ChopKeepsUnmarked(x, Tag());
      assert IsWritten(x);
      var id, cron :| IsId(id) && CronExpression.IsCron(cron) && x == CronLine(id, LastPiece(cron));
      CronIsHashFree(cron);
      CronLineKeepsCr(id, LastPiece(cron));
    }
  }

  lemma ComposeKeepsWritten(crontab: string, id: string, cron: string)
    requires TagsAreWritten(crontab) && IsId(id) && CronExpression.IsCron(cron)
    ensures TagsAreWritten(Composed(crontab, id, cron))
  {
    hide Lines, Stripped, Composed, Contains, CronLine, LastPiece, IsId, CronExpression.IsCron, Tag;
    StripKeepsWritten(crontab, id);
    CronIsHashFree(cron);
    forall line | line in Lines(Composed(crontab, id, cron)) && Contains(line, Tag()) ensures IsWritten(line) {
      SchedulerOrphans.ComposedMember(crontab, id, cron, line);
    }
  }

  /** A step leaves the crontab, strips it, or rewrites it for a stored entry. */
  lemma CrontabComesFrom(s: State, e: Event)
    ensures var t, k := Step(s, e).crontab, Position(s.schedules, e.id);
            || t == s.crontab
            || (e.Uninstall? && t == Stripped(s.crontab, e.id))
            || (e.Install? && k < |s.schedules| && t == Composed(s.crontab, e.id, s.schedules[k].cron))
  {
    hide Composed, Stripped, CronExpression.ValidateCron, Without;
  }

  lemma StepKeepsWritten(s: State, e: Event)
    requires AllAccepted(s) && TagsAreWritten(s.crontab) && IsId(e.id)
    ensures TagsAreWritten(Step(s, e).crontab)
  {
    CrontabComesFrom(s, e);
    var t, k := Step(s, e).crontab, Position(s.schedules, e.id);
    if e.Uninstall? {
      StripKeepsWritten(s.crontab, e.id);
    } else if e.Install? && k < |s.schedules| {
      assert CronExpression.IsCron(s.schedules[k].cron);
      hide *;
      ComposeKeepsWritten(s.crontab, e.id, s.schedules[k].cron);
    }
  }

  /** In every run from a crontab without the application's tag, whatever breaks or fails, each
   *  tagged line of the crontab is one that was written for a well-formed expression. */
  lemma {:induction false} RunWritesAccepted(trace: seq<State>, events: seq<Event>, n: nat)
    requires IsRun(trace, events) && n <= |events|
    requires forall line :: line in Lines(trace[0].crontab) ==> !Contains(line, Tag())
    ensures TagsAreWritten(trace[n].crontab)
  {
    if n > 0 {
      RunWritesAccepted(trace, events, n - 1);
      RunIsAccepted(trace, events, n - 1);
      hide Step, TagsAreWritten, AllAccepted, IsId, Lines, Contains, Tag;
      StepKeepsWritten(trace[n - 1], events[n - 1]);
    }
  }
}

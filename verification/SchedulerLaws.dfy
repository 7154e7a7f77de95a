/** What the schedule operations mean to their callers, and which undo which. */
module SchedulerLaws {
  import opened Wrappers
  import opened Text
  import opened Crontab
  import opened CrontabLaws
  import opened Scheduler
  import CronExpression

  const FAULTLESS := Faults(None, None, None, None)

  lemma {:induction false} PositionOfConcat(a: seq<Entry>, b: seq<Entry>, id: string)
    requires Position(a, id) == |a|
    ensures Position(a + b, id) == |a| + Position(b, id)
  {
    if a == [] {
      assert a + b == b;
    } else {
      assert (a + b)[1..] == a[1..] + b;
      PositionOfConcat(a[1..], b, id);
    }
  }

  lemma {:induction false} WithoutOfConcat(a: seq<Entry>, b: seq<Entry>, id: string)
    ensures Without(a + b, id) == Without(a, id) + Without(b, id)
  {
    if a == [] {
      assert a + b == b;
    } else {
      assert (a + b)[1..] == a[1..] + b;
      WithoutOfConcat(a[1..], b, id);
    }
  }

  lemma {:induction false} WithoutAbsent(schedules: seq<Entry>, id: string)
    ensures |Without(schedules, id)| == |schedules| <==> Position(schedules, id) == |schedules|
    ensures Position(schedules, id) == |schedules| ==> Without(schedules, id) == schedules
    ensures |Without(schedules, id)| <= |schedules|
  {
    if schedules != [] {
      WithoutAbsent(schedules[1..], id);
    }
  }

  lemma {:induction false} WithoutOfUpdate(schedules: seq<Entry>, k: nat, entry: Entry)
    requires k < |schedules| && schedules[k].id == entry.id
    ensures Without(schedules[k := entry], entry.id) == Without(schedules, entry.id)
  {
    if k == 0 {
      assert schedules[k := entry][1..] == schedules[1..];
    } else {
      assert schedules[k := entry][1..] == schedules[1..][k - 1 := entry];
      WithoutOfUpdate(schedules[1..], k - 1, entry);
    }
  }

  lemma WithoutOfAdded(schedules: seq<Entry>, entry: Entry)
    ensures Without(schedules + [entry], entry.id) == Without(schedules, entry.id)
  {
    WithoutOfConcat(schedules, [entry], entry.id);
    assert Without([entry], entry.id) == [];
    assert Without(schedules, entry.id) + [] == Without(schedules, entry.id);
  }

  /** A successful upsert reads back: the entry with that id is the one returned, with the fields
   *  given and the flag it had, off when it is new; the others are as before. */
  lemma UpsertReadsBack(s: State, id: string, title: string, cron: string, backup: string, now: string)
    requires CronExpression.ValidateCron(cron).Ok?
    ensures var (t, r) := Upserted(s, id, title, cron, backup, now, FAULTLESS);
            var k, j := Position(s.schedules, id), Position(t.schedules, id);
            && r.Ok? && j == k < |t.schedules| && t.schedules[j] == r.value
            && r.value.id == id && r.value.title == title && r.value.cron == cron && r.value.backup == backup
            && r.value.installed == (k < |s.schedules| && s.schedules[k].installed)
            && r.value.createdAt == (if k < |s.schedules| then s.schedules[k].createdAt else now)
            && Without(t.schedules, id) == Without(s.schedules, id) && t.crontab == s.crontab
  {
    hide CronExpression.ValidateCron;
    var (t, r) := Upserted(s, id, title, cron, backup, now, FAULTLESS);
    var k := Position(s.schedules, id);
    if k < |s.schedules| {
      WithoutOfUpdate(s.schedules, k, r.value);
      PositionOfUpdate(s.schedules, k, r.value);
    } else {
      WithoutOfAdded(s.schedules, r.value);
      PositionOfConcat(s.schedules, [r.value], id);
    }
  }

  lemma {:induction false} PositionOfUpdate(schedules: seq<Entry>, k: nat, entry: Entry)
    requires k == Position(schedules, entry.id) < |schedules|
    ensures Position(schedules[k := entry], entry.id) == k
  {
    if k > 0 {
      assert schedules[k := entry][1..] == schedules[1..][k - 1 := entry];
      PositionOfUpdate(schedules[1..], k - 1, entry);
    }
  }

  /** Removing after an upsert leaves what removing without it leaves. */
  lemma RemoveUndoesUpsert(s: State, id: string, title: string, cron: string, backup: string, now: string)
    requires CronExpression.ValidateCron(cron).Ok?
    ensures var t := Upserted(s, id, title, cron, backup, now, FAULTLESS).0;
            Removed(t, id, FAULTLESS).0 == s.(schedules := Without(s.schedules, id)) == Removed(s, id, FAULTLESS).0
  {
    hide CronExpression.ValidateCron, Upserted;
    var t := Upserted(s, id, title, cron, backup, now, FAULTLESS).0;
    UpsertReadsBack(s, id, title, cron, backup, now);
    WithoutAbsent(t.schedules, id);
    WithoutAbsent(s.schedules, id);
  }

  /** An entry that is not installed, installed and uninstalled again: the schedule file is as
   *  it was, and so are the crontab's other non-empty lines; none of the schedule's is left. */
  lemma UninstallUndoesInstall(s: State, id: string)
    requires var k := Position(s.schedules, id);
             && k < |s.schedules| && !s.schedules[k].installed
             && '\n' !in id && '\n' !in s.schedules[k].cron
    requires CrFree(Unmarked(Lines(s.crontab), id))
    ensures var t := Installed(s, id, FAULTLESS).0; var u := Uninstalled(t, id, FAULTLESS).0;
            && |t.schedules| == |s.schedules|
            && Marked(Lines(t.crontab), id) == [CronLine(id, s.schedules[Position(s.schedules, id)].cron)]
            && t.schedules[Position(s.schedules, id)].installed && u.schedules == s.schedules
            && OtherLines(u.crontab, id) == OtherLines(t.crontab, id) == OtherLines(s.crontab, id)
            && Unmarked(Lines(u.crontab), id) == Lines(u.crontab)
  {
    var k := Position(s.schedules, id);
    var entry := s.schedules[k];
    hide Composed, Stripped, Lines, Unmarked, Marked, OtherLines, CronLine, CrFree;
    ComposeKeepsOthers(s.crontab, id, entry.cron);
    StripKeepsOthers(Composed(s.crontab, id, entry.cron), id);
    var t := Installed(s, id, FAULTLESS).0;
    PositionOfUpdate(s.schedules, k, entry.(installed := true));
    assert t.schedules[k := t.schedules[k].(installed := false)] == s.schedules;
  }
}

/** The other direction between schedule file and crontab: whether every line that carries the
 *  application's marker belongs to an entry marked installed (src-tauri/src/backup/installer.rs
 *  and src-tauri/src/backup/schedule.rs).
 */
module SchedulerOrphans {
  import opened Wrappers
  import opened Text
  import opened Crontab
  import opened CrontabMarkers
  import opened Scheduler
  import opened SchedulerRuns
  import opened SchedulerLines
  import CrontabLaws
  import SchedulerLaws
  import CronExpression

  /** The line is the one line of an entry marked installed. */
  predicate Owns(e: Entry, crontab: string, line: string) {
    e.installed && Marked(Lines(crontab), e.id) == [line]
  }

  ghost predicate Owned(s: State, line: string) {
    exists e :: e in s.schedules && Owns(e, s.crontab, line)
  }

  /** No line with the application's marker is an orphan. */
  ghost predicate AllOwned(s: State) {
    forall line :: line in Lines(s.crontab) && Contains(line, Tag()) ==> Owned(s, line)
  }

  /** The steps that leave a line without an entry marked installed: removing a schedule that is
   *  installed, and installing one that is not when the flag cannot be written. */
  predicate Orphans(s: State, e: Event) {
    match e
    case Upsert(_, _, _, _, _, _) => false
    case Remove(id, faults) =>
      faults.readSchedules.None? && faults.writeSchedules.None? && Marks(s.schedules, id)
    case Install(id, faults) => Rewrites(s, e) && faults.writeSchedules.Some? && !Marks(s.schedules, id)
    case Uninstall(_, _) => false
  }

  // ---------------------------------------------------------------------------
  // Owners.
  // ---------------------------------------------------------------------------

  /** What is known of an owned line. */
  lemma OwnerOf(s: State, e: Entry, line: string) returns (cron: string)
    requires Sound(s) && e in s.schedules && Owns(e, s.crontab, line)
    ensures IsId(e.id) && HasLine(s.crontab, e.id) && '#' !in cron && line == CronLine(e.id, cron)
    ensures line in Lines(s.crontab)
  {
    var i :| 0 <= i < |s.schedules| && s.schedules[i] == e;
    assert EntrySound(e, s.crontab);
    cron :| '#' !in cron && Marked(Lines(s.crontab), e.id) == [CronLine(e.id, cron)];
    SelectedAreLines(Lines(s.crontab), MarkerFor(e.id), true);
    hide Lines, IsId, CronLine, Select;
    assert line in Marked(Lines(s.crontab), e.id);
  }

  /** A line of one schedule is no other's. */
  lemma LineTellsId(a: string, p: string, b: string, q: string)
    requires IsId(a) && IsId(b) && '#' !in p && '#' !in q && CronLine(a, p) == CronLine(b, q)
    ensures a == b
  {
    CrontabLaws.LineHoldsMarker(a, p);
    CrontabLaws.LineHoldsMarker(b, q);
    MarkerIsPrefix(p, a, b);
    MarkerIsPrefix(q, b, a);
    hide CronLine, MarkerFor, Contains, IsId;
  }

  lemma LineHoldsTag(id: string, cron: string)
    ensures Contains(CronLine(id, cron), Tag())
  {
    hide Tag, Trailer, DumpCommand;
    assert OccursAt(CronLine(id, cron), Tag(), |cron| + |DumpCommand()|);
  }

  // ---------------------------------------------------------------------------
  // Upsert and remove.
  // ---------------------------------------------------------------------------

  lemma UpsertOwns(s: State, e: Event)
    requires AllOwned(s) && e.Upsert?
    ensures AllOwned(Step(s, e))
  {
    var t := Step(s, e);
    hide CronExpression.ValidateCron, Marked, Lines, Contains;
    forall line | line in Lines(t.crontab) && Contains(line, Tag()) ensures Owned(t, line) {
      assert Owned(s, line);
      var x :| x in s.schedules && Owns(x, s.crontab, line);
      UpsertKeepsOwner(s, e, x, line);
    }
  }

  lemma UpsertKeepsOwner(s: State, e: Event, x: Entry, line: string)
    requires e.Upsert? && x in s.schedules && Owns(x, s.crontab, line)
    ensures Owned(Step(s, e), line)
  {
    var i :| 0 <= i < |s.schedules| && s.schedules[i] == x;
    var t := Step(s, e);
    hide CronExpression.ValidateCron, Marked, Lines;
    assert i < |t.schedules| && Owns(t.schedules[i], t.crontab, line);
    assert t.schedules[i] in t.schedules;
  }

  lemma {:induction false} WithoutHas(schedules: seq<Entry>, id: string, x: Entry)
    requires x in schedules && x.id != id
    ensures x in Without(schedules, id)
  {
    if schedules[0] != x {
      assert x in schedules[1..];
      WithoutHas(schedules[1..], id, x);
    }
  }

  lemma RemoveKeepsOwners(s: State, e: Event)
    requires AllOwned(s) && e.Remove? && !Orphans(s, e)
    ensures AllOwned(Step(s, e))
  {
    var t := Step(s, e);
    hide Marked, Lines, Contains;
    forall line | line in Lines(t.crontab) && Contains(line, Tag()) ensures Owned(t, line) {
      assert Owned(s, line);
      var x :| x in s.schedules && Owns(x, s.crontab, line);
      if t.schedules != s.schedules {
        var i :| 0 <= i < |s.schedules| && s.schedules[i] == x;
        WithoutHas(s.schedules, e.id, x);
      }
      assert x in t.schedules && Owns(x, t.crontab, line);
    }
  }

  lemma InstalledOwns(s: State, x: Entry) returns (line: string)
    requires Sound(s) && x in s.schedules && x.installed
    ensures Owns(x, s.crontab, line) && line in Lines(s.crontab) && Contains(line, Tag())
  {
    var i :| 0 <= i < |s.schedules| && s.schedules[i] == x;
    assert EntrySound(x, s.crontab);
    var cron :| '#' !in cron && Marked(Lines(s.crontab), x.id) == [CronLine(x.id, cron)];
    line := CronLine(x.id, cron);
    hide EntrySound, Sound, Marked, Lines, Contains, CronLine, IsId, Tag;
    LineHoldsTag(x.id, cron);
    var _ := OwnerOf(s, x, line);
  }

  lemma OneOwner(s: State, x: Entry, y: Entry, line: string)
    requires Sound(s) && x in s.schedules && y in s.schedules
    requires Owns(x, s.crontab, line) && Owns(y, s.crontab, line)
    ensures x.id == y.id
  {
    var p := OwnerOf(s, x, line);
    var q := OwnerOf(s, y, line);
    hide *;
    LineTellsId(x.id, p, y.id, q);
  }

  lemma RemoveChanges(s: State, e: Event)
    requires e.Remove? && Orphans(s, e)
    ensures Step(s, e) == s.(schedules := Without(s.schedules, e.id))
    ensures forall y :: y in Step(s, e).schedules ==> y in s.schedules && y.id != e.id
  {
    SchedulerLaws.WithoutAbsent(s.schedules, e.id);
    WithoutKeeps(s.schedules, e.id);
    hide Without;
  }

  lemma RemoveOrphans(s: State, e: Event)
    requires Sound(s) && e.Remove? && Orphans(s, e)
    ensures !AllOwned(Step(s, e))
  {
    var t := Step(s, e);
    var i :| 0 <= i < |s.schedules| && s.schedules[i].installed && s.schedules[i].id == e.id;
    var x := s.schedules[i];
    RemoveChanges(s, e);
    hide Step, Without, Sound, Owns, Orphans, Contains, Lines, Tag;
    var line := InstalledOwns(s, x);
    forall y | y in t.schedules ensures !Owns(y, t.crontab, line) {
      if Owns(y, s.crontab, line) {
        OneOwner(s, x, y, line);
      }
    }
    assert !Owned(t, line);
  }

  // ---------------------------------------------------------------------------
  // Uninstall.
  // ---------------------------------------------------------------------------

  lemma ChoppedMember(lines: seq<string>, line: string) returns (x: string)
    requires line in ChopAll(lines)
    ensures x in lines && line == ChopCr(x)
  {
    var i :| 0 <= i < |ChopAll(lines)| && ChopAll(lines)[i] == line;
    x := lines[i];
  }

  /** A line left by a strip is one there was, less a carriage return, without the marker. */
  lemma StrippedMember(crontab: string, removed: string, line: string) returns (x: string)
    requires line in Lines(Stripped(crontab, removed))
    ensures x in Lines(crontab) && line == ChopCr(x) && !Contains(x, MarkerFor(removed))
  {
    LinesAfterStrip(crontab, removed);
    SelectedAreLines(Lines(crontab), MarkerFor(removed), false);
    var kept := Unmarked(Lines(crontab), removed);
    hide Lines, Stripped, Contains, MarkerFor, Select;
    x := ChoppedMember(DropFinalEmpty(kept), line);
    assert x in kept;
  }

  /** An owned line that a strip leaves belongs to an entry whose id does not begin with the
   *  removed one, and is still that entry's. */
  lemma OwnerAfterStrip(s: State, removed: string, line: string) returns (x: Entry)
    requires Sound(s) && AllOwned(s) && IsId(removed)
    requires line in Lines(Stripped(s.crontab, removed)) && Contains(line, Tag())
    ensures x in s.schedules && Owns(x, s.crontab, line) && !(removed <= x.id)
    ensures IsId(x.id) && HasLine(s.crontab, x.id)
  {
    var y := StrippedMember(s.crontab, removed, line);
    CrontabLaws.ChopKeepsUnmarked(y, Tag());
    assert Owned(s, y);
    x :| x in s.schedules && Owns(x, s.crontab, y);
    var cron := OwnerOf(s, x, y);
    CronLineKeepsCr(x.id, cron);
    MarkerIsPrefix(cron, x.id, removed);
    hide *;
  }

  lemma UninstallOwnsLines(s: State, e: Event)
    requires Sound(s) && AllOwned(s) && IsId(e.id) && e.Uninstall?
    ensures AllOwned(Step(s, e))
  {
    var t := Step(s, e);
    UninstallChanges(s, e);
    if t != s {
      hide Marked, Lines, Contains, Stripped, Step, Sound, Tag, IsId, HasLine;
      forall line | line in Lines(t.crontab) && Contains(line, Tag()) ensures Owned(t, line) {
        var x := OwnerAfterStrip(s, e.id, line);
        StripTakesExactly(s.crontab, e.id, x.id);
        assert x in t.schedules && Owns(x, t.crontab, line);
      }
    }
  }

  lemma UninstallChanges(s: State, e: Event)
    requires e.Uninstall?
    ensures var t := Step(s, e);
            || t == s
            || (t.crontab == Stripped(s.crontab, e.id)
                && forall x :: x in s.schedules && x.id != e.id ==> x in t.schedules)
  {
    var t, k := Step(s, e), Position(s.schedules, e.id);
    hide Stripped;
    forall x | x in s.schedules && x.id != e.id ensures x in t.schedules {
      var i :| 0 <= i < |s.schedules| && s.schedules[i] == x;
      assert t.schedules[i] == x;
    }
  }

  // ---------------------------------------------------------------------------
  // Install.
  // ---------------------------------------------------------------------------

  /** A line of a rewritten crontab that has the marker is one that the strip left, or the new one. */
  lemma ComposedMember(crontab: string, added: string, cron: string, line: string)
    requires IsId(added) && '#' !in cron && line in Lines(Composed(crontab, added, cron)) && Contains(line, Tag())
    ensures line in Lines(Stripped(crontab, added)) || line == CronLine(added, LastPiece(cron))
  {
    LinesAfterCompose(crontab, added, cron);
    var front, last := EntryLines(added, cron);
    hide Lines, Composed, Stripped, CronLine, LastPiece, IsId;
    if line in front {
      var i :| 0 <= i < |front| && front[i] == line;
      NotContains(line, Tag());
    }
  }

  lemma NewLineIsThere(crontab: string, added: string, cron: string)
    requires IsId(added) && '#' !in cron
    ensures CronLine(added, LastPiece(cron)) in Lines(Composed(crontab, added, cron))
  {
    LinesAfterCompose(crontab, added, cron);
    var front, last := EntryLines(added, cron);
    hide Lines, Composed, Stripped, CronLine, LastPiece, IsId;
    assert (front + [CronLine(added, last)])[|front|] == CronLine(added, last);
  }

  lemma InstallKeepsOthers(s: State, t: State, k: nat, line: string)
    requires Sound(s) && AllOwned(s) && k < |s.schedules| && !Overlaps(s.schedules, s.schedules[k].id)
    requires t.crontab == Composed(s.crontab, s.schedules[k].id, s.schedules[k].cron)
    requires forall x :: x in s.schedules && x.id != s.schedules[k].id ==> x in t.schedules
    requires line in Lines(Stripped(s.crontab, s.schedules[k].id)) && Contains(line, Tag())
    ensures Owned(t, line)
  {
    var added := s.schedules[k];
    assert EntrySound(added, s.crontab);
    var x := OwnerAfterStrip(s, added.id, line);
    var i :| 0 <= i < |s.schedules| && s.schedules[i] == x;
    assert !(x.id <= added.id);
    hide Marked, Lines, Contains, Composed, Stripped, Sound, IsId, HasLine, Overlaps;
    ComposeSparesLine(s.crontab, added.id, added.cron, x.id);
    assert x in t.schedules && Owns(x, t.crontab, line);
  }

  lemma InstallOwnsExactly(s: State, e: Event)
    requires Sound(s) && AllOwned(s) && Rewrites(s, e) && !Breaks(s, e)
    ensures AllOwned(Step(s, e)) <==> !Orphans(s, e)
  {
    var k := Position(s.schedules, e.id);
    var added, t := s.schedules[k], Step(s, e);
    var line := CronLine(added.id, LastPiece(added.cron));
    InstallAllowed(s, e, map[]);
    InstallChanges(s, e);
    InstallFlag(s, e);
    NewLineIsThere(s.crontab, added.id, added.cron);
    ComposeRuns(s.crontab, added.id, added.cron);
    LineHoldsTag(added.id, LastPiece(added.cron));
    hide Marked, Lines, Contains, Composed, Stripped, CronLine, LastPiece, Step, Breaks, Sound, IsId, Rewrites;
    if t.schedules[k].installed {
      assert t.schedules[k] in t.schedules && Owns(t.schedules[k], t.crontab, line);
      forall other | other in Lines(t.crontab) && Contains(other, Tag()) ensures Owned(t, other) {
        ComposedMember(s.crontab, added.id, added.cron, other);
        if other != line {
          InstallKeepsOthers(s, t, k, other);
        }
      }
    } else {
      NewLineUnowned(s, t, k, line);
    }
  }

  lemma InstallFlag(s: State, e: Event)
    requires Sound(s) && Rewrites(s, e)
    ensures var k, t := Position(s.schedules, e.id), Step(s, e);
            && |t.schedules| == |s.schedules|
            && (t.schedules[k].installed <==> !Orphans(s, e))
            && (forall x :: x in s.schedules && x.id != s.schedules[k].id ==> x in t.schedules)
            && (forall i :: 0 <= i < |s.schedules| && i != k ==> t.schedules[i] == s.schedules[i])
  {
    var k, t := Position(s.schedules, e.id), Step(s, e);
    hide Composed, EntrySound;
    assert Marks(s.schedules, e.id) <==> s.schedules[k].installed;
    forall x | x in s.schedules && x.id != s.schedules[k].id ensures x in t.schedules {
      var i :| 0 <= i < |s.schedules| && s.schedules[i] == x;
      assert t.schedules[i] == x;
    }
  }

  lemma NewLineUnowned(s: State, t: State, k: nat, line: string)
    requires Sound(s) && k < |s.schedules| == |t.schedules| && !Overlaps(s.schedules, s.schedules[k].id)
    requires !t.schedules[k].installed
    requires forall i :: 0 <= i < |s.schedules| && i != k ==> t.schedules[i] == s.schedules[i]
    requires line == CronLine(s.schedules[k].id, LastPiece(s.schedules[k].cron))
    ensures !Owned(t, line)
  {
    var added := s.schedules[k];
    assert EntrySound(added, s.crontab);
    forall x | x in t.schedules ensures !Owns(x, t.crontab, line) {
      var i :| 0 <= i < |t.schedules| && t.schedules[i] == x;
      if x.installed {
        assert x == s.schedules[i] && EntrySound(x, s.crontab) && x.id != added.id;
        assert !(x.id <= added.id);
        MarkerIsPrefix(LastPiece(added.cron), added.id, x.id);
        hide MarkerFor, Contains, CronLine, LastPiece, IsId, HasLine;
        SelectedAreLines(Lines(t.crontab), MarkerFor(x.id), true);
        assert line in [line];
      }
    }
  }

  // ---------------------------------------------------------------------------
  // Steps.
  // ---------------------------------------------------------------------------

  /** Where every marked line has its entry and every installed entry its line, a step that keeps
   *  the latter keeps the former exactly when it leaves no orphan. */
  lemma StepOwnsExactly(s: State, e: Event)
    requires Sound(s) && AllOwned(s) && IsId(e.id) && !Breaks(s, e)
    ensures AllOwned(Step(s, e)) <==> !Orphans(s, e)
  {
    hide Sound, AllOwned, IsId, Breaks, Composed;
    match e
    case Upsert(_, _, _, _, _, _) => UpsertOwns(s, e);
    case Remove(_, _) => if Orphans(s, e) { RemoveOrphans(s, e); } else { RemoveKeepsOwners(s, e); }
    case Install(_, _) => if Rewrites(s, e) { InstallOwnsExactly(s, e); }
    case Uninstall(_, _) => UninstallOwnsLines(s, e);
  }

  /** From no schedules and a crontab without the application's marker, a run of steps that
   *  neither break nor orphan keeps schedule file and crontab in step both ways. */
  lemma {:induction false} RunOwns(trace: seq<State>, events: seq<Event>, n: nat)
    requires IsRun(trace, events) && n <= |events|
    requires forall line :: line in Lines(trace[0].crontab) ==> !Contains(line, Tag())
    requires forall i :: 0 <= i < n ==> !Breaks(trace[i], events[i]) && !Orphans(trace[i], events[i])
    ensures Sound(trace[n]) && AllOwned(trace[n])
  {
    RunIsSound(trace, events, n);
    if n > 0 {
      RunOwns(trace, events, n - 1);
      hide Sound, AllOwned, Breaks, Orphans, Step, IsId;
      StepOwnsExactly(trace[n - 1], events[n - 1]);
    }
  }
}

/** Schedule file and crontab together (src-tauri/src/backup/schedule.rs and
 *  src-tauri/src/backup/installer.rs). A crontab that does not exist reads as the empty text, a
 *  schedule file that does not exist as no entries; a failed write leaves what was there.
 */
module Scheduler {
  import opened Wrappers
  import opened Text
  import opened Crontab
  import CronExpression

  /** `backup` stands for the frozen options, which nothing here looks at. */
  datatype Entry = Entry(id: string, title: string, cron: string, backup: string, createdAt: string, installed: bool)

  datatype Error = Io(message: string) | Schedule(message: string)

  datatype State = State(schedules: seq<Entry>, crontab: string)

  /** What goes wrong, if anything, when a file is read or written. */
  datatype Faults = Faults(readSchedules: Option<Error>, writeSchedules: Option<Error>,
                           readCrontab: Option<Error>, writeCrontab: Option<Error>)

  /** `iter().position(|e| e.id == id)` */
  function Position(schedules: seq<Entry>, id: string): (k: nat)
    ensures k <= |schedules|
    ensures forall i :: 0 <= i < k ==> schedules[i].id != id
    ensures k < |schedules| ==> schedules[k].id == id
  {
    if schedules == [] || schedules[0].id == id then 0 else 1 + Position(schedules[1..], id)
  }

  /** `retain(|e| e.id != id)` */
  function Without(schedules: seq<Entry>, id: string): seq<Entry> {
    if schedules == [] then []
    else if schedules[0].id == id then Without(schedules[1..], id)
    else [schedules[0]] + Without(schedules[1..], id)
  }

  // ---------------------------------------------------------------------------
  // The operations on values.
  // ---------------------------------------------------------------------------

  function Upserted(s: State, id: string, title: string, cron: string, backup: string, now: string, faults: Faults)
    : (State, Result<Entry, Error>)
  {
    var checked := CronExpression.ValidateCron(cron);
    if checked.Err? then (s, Err(Schedule(checked.error)))
    else if faults.readSchedules.Some? then (s, Err(faults.readSchedules.value))
    else
      var k := Position(s.schedules, id);
      var entry := if k < |s.schedules| then s.schedules[k].(title := title, cron := cron, backup := backup)
                   else Entry(id, title, cron, backup, now, false);
      var all := if k < |s.schedules| then s.schedules[k := entry] else s.schedules + [entry];
      if faults.writeSchedules.Some? then (s, Err(faults.writeSchedules.value))
      else (s.(schedules := all), Ok(entry))
  }

  function Removed(s: State, id: string, faults: Faults): (State, Result<(), Error>) {
    if faults.readSchedules.Some? then (s, Err(faults.readSchedules.value))
    else
      var all := Without(s.schedules, id);
      if |all| == |s.schedules| then (s, Ok(()))
      else if faults.writeSchedules.Some? then (s, Err(faults.writeSchedules.value))
      else (s.(schedules := all), Ok(()))
  }

  function Installed(s: State, id: string, faults: Faults): (State, Result<(), Error>) {
    if faults.readSchedules.Some? then (s, Err(faults.readSchedules.value))
    else
      var k := Position(s.schedules, id);
      if k == |s.schedules| then (s, Err(Schedule("schedule " + id + " not found")))
      else if faults.readCrontab.Some? then (s, Err(faults.readCrontab.value))
      else if faults.writeCrontab.Some? then (s, Err(faults.writeCrontab.value))
      else
        var s := s.(crontab := Composed(s.crontab, id, s.schedules[k].cron));
        if faults.writeSchedules.Some? then (s, Err(faults.writeSchedules.value))
        else (s.(schedules := s.schedules[k := s.schedules[k].(installed := true)]), Ok(()))
  }

  function Uninstalled(s: State, id: string, faults: Faults): (State, Result<(), Error>) {
    if faults.readCrontab.Some? then (s, Err(faults.readCrontab.value))
    else
      var stripped := Stripped(s.crontab, id);
      if stripped != s.crontab && faults.writeCrontab.Some? then (s, Err(faults.writeCrontab.value))
      else
        var s := s.(crontab := stripped);
        if faults.readSchedules.Some? then (s, Err(faults.readSchedules.value))
        else
          var k := Position(s.schedules, id);
          if k == |s.schedules| then (s, Ok(()))
          else if faults.writeSchedules.Some? then (s, Err(faults.writeSchedules.value))
          else (s.(schedules := s.schedules[k := s.schedules[k].(installed := false)]), Ok(()))
  }

  // ---------------------------------------------------------------------------
  // The files.
  // ---------------------------------------------------------------------------

  class Files {
    var schedules: seq<Entry>
    var crontab: string

    ghost function Abs(): State
      reads this
    {
      State(schedules, crontab)
    }

    constructor (crontab: string)
      ensures Abs() == State([], crontab)
    {
      this.schedules, this.crontab := [], crontab;
    }

    method ReadAll(faults: Faults) returns (r: Result<seq<Entry>, Error>)
      ensures r == if faults.readSchedules.Some? then Err(faults.readSchedules.value) else Ok(schedules)
    {
      r := if faults.readSchedules.Some? then Err(faults.readSchedules.value) else Ok(schedules);
    }

    method WriteAll(entries: seq<Entry>, faults: Faults) returns (r: Result<(), Error>)
      modifies `schedules
      ensures r == if faults.writeSchedules.Some? then Err(faults.writeSchedules.value) else Ok(())
      ensures schedules == if r.Ok? then entries else old(schedules)
    {
      if faults.writeSchedules.Some? {
        return Err(faults.writeSchedules.value);
      }
      schedules := entries;
      return Ok(());
    }

    method WriteCrontab(content: string, faults: Faults) returns (r: Result<(), Error>)
      modifies `crontab
      ensures r == if faults.writeCrontab.Some? then Err(faults.writeCrontab.value) else Ok(())
      ensures crontab == if r.Ok? then content else old(crontab)
    {
      if faults.writeCrontab.Some? {
        return Err(faults.writeCrontab.value);
      }
      crontab := content;
      return Ok(());
    }

    method Upsert(id: string, title: string, cron: string, backup: string, now: string, faults: Faults)
      returns (r: Result<Entry, Error>)
      modifies this
      ensures (Abs(), r) == Upserted(old(Abs()), id, title, cron, backup, now, faults)
    {
      hide CronExpression.ValidateCron, Position;
      var checked := CronExpression.ValidateCron(cron);
      if checked.Err? {
        return Err(Schedule(checked.error));
      }
      var read := ReadAll(faults);
      if read.Err? {
        return Err(read.error);
      }
      var all := read.value;
      var k := Position(all, id);
      var entry;
      if k < |all| {
        entry := all[k].(title := title, cron := cron, backup := backup);
        all := all[k := entry];
      } else {
        entry := Entry(id, title, cron, backup, now, false);
        all := all + [entry];
      }
      var written := WriteAll(all, faults);
      return if written.Err? then Err(written.error) else Ok(entry);
    }

    method Remove(id: string, faults: Faults) returns (r: Result<(), Error>)
      modifies this
      ensures (Abs(), r) == Removed(old(Abs()), id, faults)
    {
      hide Without;
      var read := ReadAll(faults);
      if read.Err? {
        return Err(read.error);
      }
      var all := Without(read.value, id);
      if |all| == |read.value| {
        return Ok(());
      }
      r := WriteAll(all, faults);
    }

    method Install(id: string, faults: Faults) returns (r: Result<(), Error>)
      modifies this
      ensures (Abs(), r) == Installed(old(Abs()), id, faults)
    {
      hide Composed, Position;
      var read := ReadAll(faults);
      if read.Err? {
        return Err(read.error);
      }
      var all := read.value;
      var k := Position(all, id);
      if k == |all| {
        return Err(Schedule("schedule " + id + " not found"));
      }
      if faults.readCrontab.Some? {
        return Err(faults.readCrontab.value);
      }
      var content := ComposeCrontab(crontab, id, all[k].cron);
      r := WriteCrontab(content, faults);
      if r.Ok? {
        all := all[k := all[k].(installed := true)];
        r := WriteAll(all, faults);
      }
    }

    method Uninstall(id: string, faults: Faults) returns (r: Result<(), Error>)
      modifies this
      ensures (Abs(), r) == Uninstalled(old(Abs()), id, faults)
    {
      hide Stripped, Position;
      if faults.readCrontab.Some? {
        return Err(faults.readCrontab.value);
      }
      var stripped := StripMarkerLines(crontab, id);
      if stripped != crontab {
        r := WriteCrontab(stripped, faults);
        if r.Err? {
          return;
        }
      }
      var read := ReadAll(faults);
      if read.Err? {
        return Err(read.error);
      }
      var all := read.value;
      var k := Position(all, id);
      if k == |all| {
        return Ok(());
      }
      all := all[k := all[k].(installed := false)];
      r := WriteAll(all, faults);
    }
  }
}

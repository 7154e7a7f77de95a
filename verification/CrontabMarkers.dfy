/** Which lines of a crontab belong to which schedule. */
module CrontabMarkers {
  import opened Text
  import opened Crontab

  /** Letters, digits and '-'. */
  predicate IsIdChar(c: char) {
    'a' <= c <= 'z' || 'A' <= c <= 'Z' || '0' <= c <= '9' || c == '-'
  }

  predicate IsId(id: string) {
    forall i :: 0 <= i < |id| ==> IsIdChar(id[i])
  }

  // ---------------------------------------------------------------------------
  // Where a marker occurs.
  // ---------------------------------------------------------------------------

  /** The two '#' of a schedule's line: the marker's and the trailer's. */
  lemma HashPositions(before: string, id: string, i: nat)
    requires '#' !in before && IsId(id)
    ensures var line := before + (Tag() + id + Trailer());
            i < |line| && line[i] == '#' <==> i == |before| || i == |before| + |Tag()| + |id| + 4
  {
    hide Tag, Trailer;
    var line := before + (Tag() + id + Trailer());
    if i < |before| {
      assert line[i] == before[i];
    } else if i < |before| + |Tag()| {
      assert line[i] == Tag()[i - |before|];
      assert i > |before| ==> Tag()[i - |before|] == Tag()[1..][i - |before| - 1];
    } else if i < |before| + |Tag()| + |id| {
      assert line[i] == id[i - |before| - |Tag()|];
    } else if i < |line| {
      assert line[i] == Trailer()[i - |before| - |Tag()| - |id|];
    }
  }

  lemma OccurrenceIsPrefix(before: string, id: string, other: string)
    requires IsId(id) && IsId(other)
    ensures OccursAt(before + (Tag() + id + Trailer()), Tag() + other, |before|) <==> other <= id
  {
    hide Tag, Trailer;
    if OccursAt(before + (Tag() + id + Trailer()), Tag() + other, |before|) {
      PrefixOfOccurrence(before, id, other);
    }
    if other <= id {
      var line, marker := before + (Tag() + id + Trailer()), Tag() + other;
      assert line[|before|..|before| + |marker|] == marker;
    }
  }

  lemma PrefixOfOccurrence(before: string, id: string, other: string)
    requires IsId(id) && IsId(other)
    requires OccursAt(before + (Tag() + id + Trailer()), Tag() + other, |before|)
    ensures other <= id
  {
    hide Tag, Trailer;
    var line, marker := before + (Tag() + id + Trailer()), Tag() + other;
    assert line[|before| + |Tag()| + |id|] == Trailer()[0];
    forall k | 0 <= k < |other| ensures other[k] == line[|before| + |Tag()| + k] {
      OccurrenceMatches(line, marker, |before|, |Tag()| + k);
    }
  }

  lemma NoOccurrenceInTrailer(before: string, id: string, other: string)
    ensures !OccursAt(before + (Tag() + id + Trailer()), Tag() + other, |before| + |Tag()| + |id| + 4)
  {
    hide Tag, Trailer;
    var line := before + (Tag() + id + Trailer());
    var marker := Tag() + other;
    var i := |before| + |Tag()| + |id| + 4;
    assert line[i + 2] == Trailer()[6];
    if OccursAt(line, marker, i) {
      OccurrenceMatches(line, marker, i, 2);
    }
  }

  /** A schedule's line holds the marker of exactly those ids that its own id begins with. */
  lemma MarkerIsPrefix(cron: string, id: string, other: string)
    requires '#' !in cron && IsId(id) && IsId(other)
    ensures Contains(CronLine(id, cron), MarkerFor(other)) <==> other <= id
  {
    hide Tag, Trailer, DumpCommand;
    var before := cron + DumpCommand();
    var line := before + (Tag() + id + Trailer());
    assert CronLine(id, cron) == line;
    OccurrenceIsPrefix(before, id, other);
    NoOccurrenceInTrailer(before, id, other);
    if Contains(line, MarkerFor(other)) {
      var i :| 0 <= i <= |line| && OccursAt(line, MarkerFor(other), i);
      OccurrenceMatches(line, MarkerFor(other), i, 0);
      HashPositions(before, id, i);
    }
  }

  // ---------------------------------------------------------------------------
  // What a rewrite does to the lines of one schedule.
  // ---------------------------------------------------------------------------

  lemma DropKeepsMarked(lines: seq<string>, marker: string)
    requires marker != ""
    ensures Select(DropFinalEmpty(lines), marker, true) == Select(lines, marker, true)
  {
    if lines != [] && lines[|lines| - 1] == "" {
      assert lines == lines[..|lines| - 1] + [""];
      SelectSnoc(lines[..|lines| - 1], "", marker, true);
      NotContains("", marker);
    }
  }

  lemma MarkerCharacters(id: string)
    requires IsId(id)
    ensures MarkerFor(id) != "" && MarkerFor(id)[0] == '#' && '\r' !in MarkerFor(id) && '\n' !in MarkerFor(id)
  {
    hide Tag;
  }

  /** Removing the lines of one id leaves of another id's lines those without the first's marker. */
  lemma MarkedAfterStrip(existing: string, removed: string, id: string)
    requires IsId(id)
    ensures Marked(Lines(Stripped(existing, removed)), id)
         == ChopAll(Select(Marked(Lines(existing), id), MarkerFor(removed), false))
  {
    var kept := Unmarked(Lines(existing), removed);
    MarkerCharacters(id);
    LinesAfterStrip(existing, removed);
    hide Lines, Stripped, MarkerFor, Select;
    SelectOfChopped(DropFinalEmpty(kept), MarkerFor(id), true);
    DropKeepsMarked(kept, MarkerFor(id));
    SelectsCommute(Lines(existing), MarkerFor(removed), false, MarkerFor(id), true);
  }

  /** After a strip no line is left of the schedule. */
  lemma StripRemovesMarked(existing: string, id: string)
    requires IsId(id)
    ensures Marked(Lines(Stripped(existing, id)), id) == []
  {
    var lines := Lines(existing);
    MarkedAfterStrip(existing, id, id);
    SelectedAreLines(lines, MarkerFor(id), true);
    SelectNone(Marked(lines, id), MarkerFor(id), false);
  }

  /** What follows the last line feed. */
  function LastPiece(cron: string): (last: string)
    ensures '\n' !in cron ==> last == cron
    ensures '#' !in cron ==> '#' !in last
    decreases |cron|
  {
    var k := Find(cron, '\n');
    if k == |cron| then cron
    else
      assert cron == cron[..k] + [cron[k]] + cron[k + 1..];
      LastPiece(cron[k + 1..])
  }

  /** The lines before it. */
  function FrontLines(cron: string): (front: seq<string>)
    ensures front == [] <==> '\n' !in cron
    decreases |cron|
  {
    var k := Find(cron, '\n');
    if k == |cron| then
      assert cron[..k] == cron;
      []
    else [ChopCr(cron[..k])] + FrontLines(cron[k + 1..])
  }

  lemma {:induction false} FrontIsHashFree(cron: string)
    requires '#' !in cron
    ensures forall i :: 0 <= i < |FrontLines(cron)| ==> '#' !in FrontLines(cron)[i]
    decreases |cron|
  {
    var k := Find(cron, '\n');
    if k < |cron| {
      FrontIsHashFree(cron[k + 1..]);
      ChopKeepsHashFree(cron[..k]);
      hide ChopCr, Find;
    }
  }

  lemma ChopKeepsHashFree(line: string)
    requires '#' !in line
    ensures '#' !in ChopCr(line)
  {
  }

  lemma {:induction false} LinesOfEntry(id: string, cron: string)
    requires IsId(id)
    ensures Lines(CronLine(id, cron) + "\n") == FrontLines(cron) + [CronLine(id, LastPiece(cron))]
    decreases |cron|
  {
    var k := Find(cron, '\n');
    if k == |cron| {
      assert cron[..k] == cron;
      EntryOfOneLine(id, cron);
    } else {
      var first, rest := cron[..k], cron[k + 1..];
      assert cron == first + "\n" + rest;
      assert FrontLines(cron) == [ChopCr(first)] + FrontLines(rest) && LastPiece(cron) == LastPiece(rest);
      hide *;
      EntryOfMoreLines(id, first, rest);
      LinesOfEntry(id, rest);
      Regroup([ChopCr(first)], FrontLines(rest), [CronLine(id, LastPiece(rest))]);
    }
  }

  /** The text of an entry is some lines without '#' and then one line of the schedule, even when
   *  the cron expression holds line feeds. */
  lemma EntryLines(id: string, cron: string) returns (front: seq<string>, last: string)
    requires IsId(id) && '#' !in cron
    ensures last == LastPiece(cron)
    ensures Lines(CronLine(id, cron) + "\n") == front + [CronLine(id, last)]
    ensures '#' !in last && forall i :: 0 <= i < |front| ==> '#' !in front[i]
    ensures front == [] <==> '\n' !in cron
  {
    front, last := FrontLines(cron), LastPiece(cron);
    LinesOfEntry(id, cron);
    FrontIsHashFree(cron);
    hide *;
  }

  lemma EntryOfMoreLines(id: string, first: string, rest: string)
    requires '\n' !in first
    ensures Lines(CronLine(id, first + "\n" + rest) + "\n") == [ChopCr(first)] + Lines(CronLine(id, rest) + "\n")
  {
    hide Command, Lines, ChopCr;
    SplitEntry(first, rest, Command(id));
    LinesOfCons(first, CronLine(id, rest) + "\n");
  }

  lemma EntryOfOneLine(id: string, cron: string)
    requires IsId(id) && '\n' !in cron
    ensures Lines(CronLine(id, cron) + "\n") == [] + [CronLine(id, cron)]
  {
    CronLineCharacters(id, cron, '\n');
    CronLineKeepsCr(id, cron);
    hide CronLine;
    LinesOfCons(CronLine(id, cron), "");
    assert CronLine(id, cron) + "\n" + "" == CronLine(id, cron) + "\n";
    LinesOfNothing();
  }

  lemma LinesOfNothing()
    ensures Lines("") == []
  {
  }

  lemma SplitEntry(first: string, rest: string, command: string)
    ensures first + "\n" + rest + command + "\n" == first + "\n" + (rest + command + "\n")
  {
  }

  /** An entry adds one line to each schedule whose id its own id begins with, and no other. */
  lemma MarkedAfterCompose(existing: string, added: string, cron: string, id: string) returns (last: string)
    requires IsId(id) && IsId(added) && '#' !in cron
    ensures '#' !in last && last == LastPiece(cron)
    ensures Marked(Lines(Composed(existing, added, cron)), id)
         == Marked(Lines(Stripped(existing, added)), id) + if id <= added then [CronLine(added, last)] else []
  {
    var front;
    front, last := EntryLines(added, cron);
    LinesAfterCompose(existing, added, cron);
    MarkerIsPrefix(last, added, id);
    MarkerCharacters(id);
    forall i | 0 <= i < |front| ensures !Contains(front[i], MarkerFor(id)) {
      NotContains(front[i], MarkerFor(id));
    }
    hide Lines, Stripped, Composed, CronLine, MarkerFor, Contains, IsId;
    SelectConcat(Lines(Stripped(existing, added)), front + [CronLine(added, last)], MarkerFor(id), true);
    SelectSnoc(front, CronLine(added, last), MarkerFor(id), true);
    SelectNone(front, MarkerFor(id), true);
  }

  // ---------------------------------------------------------------------------
  // One line for a schedule.
  // ---------------------------------------------------------------------------

  /** Exactly one line holds the marker, and it is a line of this very schedule. */
  ghost predicate HasLine(crontab: string, id: string) {
    exists cron :: '#' !in cron && Marked(Lines(crontab), id) == [CronLine(id, cron)]
  }

  lemma SelectOne(line: string, marker: string)
    ensures Select([line], marker, false) == if Contains(line, marker) then [] else [line]
  {
    assert [line][1..] == [];
  }

  lemma LineAfterStrip(crontab: string, removed: string, id: string, cron: string)
    requires IsId(id) && IsId(removed) && '#' !in cron && Marked(Lines(crontab), id) == [CronLine(id, cron)]
    ensures Marked(Lines(Stripped(crontab, removed)), id) == if removed <= id then [] else [CronLine(id, cron)]
  {
    MarkedAfterStrip(crontab, removed, id);
    MarkerIsPrefix(cron, id, removed);
    CronLineKeepsCr(id, cron);
    SelectOne(CronLine(id, cron), MarkerFor(removed));
    hide Lines, Stripped, CronLine, MarkerFor, Contains, IsId, Marked, Select;
  }

  /** Removing an id takes away the line of every id that begins with it, and no other. */
  lemma StripTakesExactly(crontab: string, removed: string, id: string)
    requires HasLine(crontab, id) && IsId(id) && IsId(removed)
    ensures Marked(Lines(Stripped(crontab, removed)), id)
         == if removed <= id then [] else Marked(Lines(crontab), id)
    ensures HasLine(Stripped(crontab, removed), id) <==> !(removed <= id)
  {
    var cron :| '#' !in cron && Marked(Lines(crontab), id) == [CronLine(id, cron)];
    hide Lines, Stripped, CronLine, Marked, IsId;
    LineAfterStrip(crontab, removed, id, cron);
  }

  /** An install gives its id one line. */
  lemma ComposeGives(crontab: string, id: string, cron: string)
    requires IsId(id) && '#' !in cron
    ensures HasLine(Composed(crontab, id, cron), id)
  {
    var last := MarkedAfterCompose(crontab, id, cron, id);
    StripRemovesMarked(crontab, id);
    hide Lines, Stripped, Composed, CronLine, Marked;
    assert [] + [CronLine(id, last)] == [CronLine(id, last)];
  }

  /** It leaves another id its one line exactly when neither id begins with the other. */
  lemma ComposeSparesExactly(crontab: string, added: string, cron: string, id: string)
    requires IsId(id) && IsId(added) && '#' !in cron && id != added && HasLine(crontab, id)
    ensures HasLine(Composed(crontab, added, cron), id) <==> !(added <= id) && !(id <= added)
  {
    var last := MarkedAfterCompose(crontab, added, cron, id);
    StripTakesExactly(crontab, added, id);
    hide Lines, Stripped, Composed, CronLine, Marked;
    var own :| '#' !in own && Marked(Lines(crontab), id) == [CronLine(id, own)];
    if id <= added {
      assert !(added <= id);
      assert |Marked(Lines(Composed(crontab, added, cron)), id)| == 2;
    } else if added <= id {
      assert Marked(Lines(Composed(crontab, added, cron)), id) == [];
    } else {
      assert Marked(Lines(Composed(crontab, added, cron)), id) == [CronLine(id, own)];
    }
  }
}

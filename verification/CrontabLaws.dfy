/** What installing and uninstalling leave of the user's own lines. */
module CrontabLaws {
  import opened Text
  import opened Crontab
  import opened CrontabMarkers
  import CronExpression

  function NonEmpty(lines: seq<string>): seq<string> {
    if lines == [] then []
    else if lines[0] == "" then NonEmpty(lines[1..])
    else [lines[0]] + NonEmpty(lines[1..])
  }

  /** The lines that are not the schedule's, blank ones aside. */
  function OtherLines(crontab: string, id: string): seq<string> {
    NonEmpty(Unmarked(Lines(crontab), id))
  }

  lemma {:induction false} NonEmptySnoc(lines: seq<string>, line: string)
    ensures NonEmpty(lines + [line]) == if line == "" then NonEmpty(lines) else NonEmpty(lines) + [line]
  {
    if lines == [] {
      assert lines + [line] == [line];
    } else {
      assert (lines + [line])[1..] == lines[1..] + [line];
      NonEmptySnoc(lines[1..], line);
    }
  }

  lemma NonEmptyOfDrop(lines: seq<string>)
    ensures NonEmpty(DropFinalEmpty(lines)) == NonEmpty(lines)
  {
    if lines != [] {
      assert lines == lines[..|lines| - 1] + [lines[|lines| - 1]];
      NonEmptySnoc(lines[..|lines| - 1], lines[|lines| - 1]);
    }
  }

  /** A schedule's line holds its marker, whatever the cron expression. */
  lemma LineHoldsMarker(id: string, cron: string)
    ensures Contains(CronLine(id, cron), MarkerFor(id))
  {
    hide Tag, Trailer, DumpCommand;
    var at := |cron| + |DumpCommand()|;
    assert OccursAt(CronLine(id, cron), MarkerFor(id), at);
  }

  /** Lines kept once are kept again. */
  lemma KeptAreUnmarked(lines: seq<string>, id: string)
    ensures Unmarked(DropFinalEmpty(Unmarked(lines, id)), id) == DropFinalEmpty(Unmarked(lines, id))
  {
    var kept := Unmarked(lines, id);
    SelectedAreLines(lines, MarkerFor(id), false);
    assert forall line :: line in DropFinalEmpty(kept) ==> line in kept;
    SelectEvery(DropFinalEmpty(kept), MarkerFor(id), false);
  }

  /** Uninstalling keeps the other lines and none of the schedule's. */
  lemma StripKeepsOthers(crontab: string, id: string)
    requires CrFree(Unmarked(Lines(crontab), id))
    ensures OtherLines(Stripped(crontab, id), id) == OtherLines(crontab, id)
    ensures CrFree(Unmarked(Lines(Stripped(crontab, id)), id))
    ensures Unmarked(Lines(Stripped(crontab, id)), id) == Lines(Stripped(crontab, id))
  {
    hide Stripped, NonEmpty, MarkerFor, ChopCr, Select;
    StripKeepsLinesExactly(crontab, id);
    KeptAreUnmarked(Lines(crontab), id);
    NonEmptyOfDrop(Unmarked(Lines(crontab), id));
    CrFreeWithoutFinal(Unmarked(Lines(crontab), id));
  }

  /** Installing, first or again, keeps the other lines and leaves one line of the schedule's. */
  lemma ComposeKeepsOthers(crontab: string, id: string, cron: string)
    requires CrFree(Unmarked(Lines(crontab), id)) && '\n' !in id && '\n' !in cron
    ensures OtherLines(Composed(crontab, id, cron), id) == OtherLines(crontab, id)
    ensures CrFree(Unmarked(Lines(Composed(crontab, id, cron)), id))
    ensures Marked(Lines(Composed(crontab, id, cron)), id) == [CronLine(id, cron)]
  {
    var stripped, line := Lines(Stripped(crontab, id)), CronLine(id, cron);
    ComposeAddsOneLineExactly(crontab, id, cron);
    StripKeepsOthers(crontab, id);
    LineHoldsMarker(id, cron);
    SelectSnoc(stripped, line, MarkerFor(id), false);
    SelectSnoc(stripped, line, MarkerFor(id), true);
    SelectAll(stripped, MarkerFor(id), false);
    SelectNone(stripped, MarkerFor(id), true);
  }

  /** Reinstalling changes no other line, and an uninstall then takes back what was added. */
  lemma RewritesKeepOthers(crontab: string, id: string, first: string, second: string)
    requires CrFree(Unmarked(Lines(crontab), id)) && '\n' !in id && '\n' !in first && '\n' !in second
    ensures var again := Composed(Composed(crontab, id, first), id, second);
            && OtherLines(again, id) == OtherLines(Stripped(again, id), id) == OtherLines(crontab, id)
            && Marked(Lines(again), id) == [CronLine(id, second)]
            && Unmarked(Lines(Stripped(again, id)), id) == Lines(Stripped(again, id))
  {
    var once := Composed(crontab, id, first);
    hide Composed, Stripped, OtherLines, CrFree, Unmarked, Marked, CronLine;
    ComposeKeepsOthers(crontab, id, first);
    ComposeKeepsOthers(once, id, second);
    StripKeepsOthers(Composed(once, id, second), id);
  }

  /** With a valid cron expression an install adds nothing but the one line exactly when the
   *  expression holds no line feed; otherwise an uninstall leaves the rest behind. */
  lemma InstallAddsOnlyItsLine(crontab: string, id: string, cron: string)
    requires IsId(id) && '#' !in cron
    ensures Unmarked(Lines(Composed(crontab, id, cron)), id) == Lines(Stripped(crontab, id)) <==> '\n' !in cron
  {
    var front, last := EntryLines(id, cron);
    var stripped, line := Lines(Stripped(crontab, id)), CronLine(id, last);
    LinesAfterCompose(crontab, id, cron);
    StripRemovesMarked(crontab, id);
    LineHoldsMarker(id, last);
    MarkerCharacters(id);
    forall i | 0 <= i < |front| ensures !Contains(front[i], MarkerFor(id)) {
      NotContains(front[i], MarkerFor(id));
    }
    hide Lines, Stripped, Composed, CronLine, MarkerFor, Contains, IsId;
    SelectedAreLines(stripped, MarkerFor(id), true);
    SelectEvery(stripped, MarkerFor(id), false);
    SelectEvery(front, MarkerFor(id), false);
    SelectConcat(stripped, front + [line], MarkerFor(id), false);
    SelectSnoc(front, line, MarkerFor(id), false);
    assert Unmarked(Lines(Composed(crontab, id, cron)), id) == stripped + front;
  }

  /** Any accepted expression stays accepted with a line feed for one of its separators, and
   *  installing that one adds more than the schedule's own line. */
  lemma LineFeedIsAcceptedAndLeavesJunk(crontab: string, id: string, expr: string, i: nat)
    requires IsId(id) && CronExpression.ValidateCron(expr).Ok? && i < |expr| && IsWhitespace(expr[i])
    ensures var broken := expr[i := '\n'];
            && CronExpression.ValidateCron(broken).Ok?
            && Unmarked(Lines(Composed(crontab, id, broken)), id) != Lines(Stripped(crontab, id))
  {
    var broken := expr[i := '\n'];
    CronExpression.SeparatorsDoNotMatter(expr, i, '\n');
    hide CronExpression.ValidateCron, Unmarked, Lines, Composed, Stripped;
    CronExpression.AcceptedIsHashFree(broken);
    InstallAddsOnlyItsLine(crontab, id, broken);
    assert broken[i] == '\n';
  }

  lemma {:induction false} TerminateInjective(a: seq<string>, b: seq<string>)
    requires LineFeedFree(a) && LineFeedFree(b) && Terminate(a) == Terminate(b)
    ensures a == b
  {
    if a == [] || b == [] {
      if a != [] { TerminateEnds(a); }
      if b != [] { TerminateEnds(b); }
    } else {
      SplitFirst(a);
      SplitFirst(b);
      hide Terminate;
      TerminateInjective(a[1..], b[1..]);
      assert a == [a[0]] + a[1..] && b == [b[0]] + b[1..];
    }
  }

  /** The first line and the rest can be told from the text. */
  lemma SplitFirst(lines: seq<string>)
    requires lines != [] && '\n' !in lines[0]
    ensures var text := Terminate(lines); var k := Find(text, '\n');
            k < |text| && lines[0] == text[..k] && Terminate(lines[1..]) == text[k + 1..]
  {
    var text, k := Terminate(lines), |lines[0]|;
    assert text == lines[0] + "\n" + Terminate(lines[1..]);
    assert text[..k] == lines[0] && text[k] == '\n';
    FindUnique(text, '\n', k);
  }

  /** Chopping makes no line hold a marker it did not hold. */
  lemma ChopKeepsUnmarked(line: string, marker: string)
    requires Contains(ChopCr(line), marker)
    ensures Contains(line, marker)
  {
    var i :| 0 <= i <= |ChopCr(line)| && OccursAt(ChopCr(line), marker, i);
    assert line[i..i + |marker|] == ChopCr(line)[i..i + |marker|];
    assert OccursAt(line, marker, i);
  }

  lemma ChoppedAreUnmarked(lines: seq<string>, id: string)
    ensures var kept := DropFinalEmpty(Unmarked(lines, id));
            Unmarked(ChopAll(kept), id) == ChopAll(kept)
  {
    var all, marker := Unmarked(lines, id), MarkerFor(id);
    var kept := DropFinalEmpty(all);
    SelectedAreLines(lines, marker, false);
    forall line | line in ChopAll(kept) ensures !Contains(line, marker) {
      var i :| 0 <= i < |kept| && line == ChopCr(kept[i]);
      assert kept[i] == all[i] && all[i] in all;
      if Contains(line, marker) {
        ChopKeepsUnmarked(kept[i], marker);
      }
    }
    hide MarkerFor, Contains;
    SelectEvery(ChopAll(kept), marker, false);
  }

  /** What stripping twice leaves, for every text. */
  lemma StrippedTwice(crontab: string, id: string)
    ensures Stripped(Stripped(crontab, id), id)
         == Terminate(DropFinalEmpty(ChopAll(DropFinalEmpty(Unmarked(Lines(crontab), id)))))
  {
    LinesAfterStrip(crontab, id);
    ChoppedAreUnmarked(Lines(crontab), id);
    hide Lines, Unmarked;
  }

  lemma ChoppedSame(kept: seq<string>)
    ensures DropFinalEmpty(ChopAll(kept)) == kept <==> CrFree(kept) && (kept == [] || kept[|kept| - 1] != "")
  {
    ChopNothing(kept);
    hide ChopCr, CrFree;
    if kept != [] && DropFinalEmpty(ChopAll(kept)) == kept {
      assert |DropFinalEmpty(ChopAll(kept))| == |ChopAll(kept)|;
    }
  }

  lemma ChoppedLineFeedFree(kept: seq<string>)
    requires LineFeedFree(kept)
    ensures LineFeedFree(DropFinalEmpty(ChopAll(kept)))
  {
  }

  /** Stripping twice is stripping once exactly when the first strip leaves no empty line at the
   *  end and no line that ends in a carriage return: each rewrite takes away one such empty line
   *  and one carriage return of every line. */
  lemma StripTwiceExactly(crontab: string, id: string)
    ensures var kept := DropFinalEmpty(Unmarked(Lines(crontab), id));
            Stripped(Stripped(crontab, id), id) == Stripped(crontab, id)
            <==> CrFree(kept) && (kept == [] || kept[|kept| - 1] != "")
  {
    var kept := DropFinalEmpty(Unmarked(Lines(crontab), id));
    var again := DropFinalEmpty(ChopAll(kept));
    StrippedTwice(crontab, id);
    KeptAreLineFeedFree(crontab, id);
    ChoppedLineFeedFree(kept);
    ChoppedSame(kept);
    assert Stripped(crontab, id) == Terminate(kept);
    hide Lines, Unmarked, CrFree, Stripped, DropFinalEmpty, ChopAll, Terminate;
    if Terminate(again) == Terminate(kept) {
      TerminateInjective(again, kept);
    }
  }
}

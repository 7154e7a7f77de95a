/** The user's crontab as the installer rewrites it (src-tauri/src/backup/installer.rs, and
 *  cron_line in src-tauri/src/backup/schedule.rs).
 */
module Crontab {
  import opened Text

  // ---------------------------------------------------------------------------
  // The lines of a schedule.
  // ---------------------------------------------------------------------------

  predicate OneLine(s: string) {
    '\n' !in s && '\r' !in s
  }

  /** Neither ends a line nor begins a marker. */
  predicate Harmless(s: string) {
    OneLine(s) && '#' !in s
  }

  function Glue(a: string, b: string): (s: string)
    requires Harmless(a) && Harmless(b)
    ensures Harmless(s) && a <= s && s == a + b
  {
    a + b
  }

  function TagName(): (s: string)
    ensures Harmless(s) && s != "" && s[0] == 'i'
  {
    "ide99-backup:"
  }

  function Tag(): (s: string)
    ensures |s| > 2 && s[0] == '#' && s[2] == 'i' && OneLine(s)
    ensures '#' !in s[1..]
  {
    hide TagName;
    assert ("# " + TagName())[1..] == " " + TagName();
    "# " + TagName()
  }

  function DumpCommand(): (s: string)
    ensures Harmless(s)
  {
    Glue(Glue(" pg_dump --version", " > /dev/null"), " 2>&1 ")
  }

  function Rendered(): (s: string)
    ensures Harmless(s)
  {
    Glue(" rendered by", " installer")
  }

  function Full(): (s: string)
    ensures Harmless(s)
  {
    hide Rendered;
    Glue(" full command", Rendered())
  }

  function Placeholder(): (s: string)
    ensures Harmless(s) && |s| > 1 && s[1] == 'p'
  {
    hide Full;
    Glue(" placeholder;", Full())
  }

  function Trailer(): (s: string)
    ensures |s| > 6 && OneLine(s) && s[0] == ' ' && s[6] == 'p'
    ensures forall k :: 0 <= k < |s| ==> (s[k] == '#' <==> k == 4)
  {
    hide Placeholder;
    "    #" + Placeholder()
  }

  function MarkerFor(id: string): string {
    Tag() + id
  }

  /** What follows the cron expression. */
  function Command(id: string): string {
    DumpCommand() + MarkerFor(id) + Trailer()
  }

  function CronLine(id: string, cron: string): string {
    cron + Command(id)
  }

  // ---------------------------------------------------------------------------
  // The lines of a crontab.
  // ---------------------------------------------------------------------------

  /** The lines that hold `marker`, or those that do not, in order. */
  function Select(lines: seq<string>, marker: string, holding: bool): seq<string> {
    if lines == [] then []
    else
      var rest := Select(lines[1..], marker, holding);
      if Contains(lines[0], marker) == holding then [lines[0]] + rest else rest
  }

  function Unmarked(lines: seq<string>, id: string): seq<string> {
    Select(lines, MarkerFor(id), false)
  }

  function Marked(lines: seq<string>, id: string): seq<string> {
    Select(lines, MarkerFor(id), true)
  }

  function DropFinalEmpty(lines: seq<string>): seq<string> {
    if lines != [] && lines[|lines| - 1] == "" then lines[..|lines| - 1] else lines
  }

  /** The crontab without the lines of schedule `id`. */
  function Stripped(existing: string, id: string): string {
    Terminate(DropFinalEmpty(Unmarked(Lines(existing), id)))
  }

  /** Joins what is kept and ends it with a line feed; the text is that of the kept lines, each
   *  terminated, less one final empty line. */
  method StripMarkerLines(existing: string, id: string) returns (joined: string)
    ensures joined == Stripped(existing, id)
  {
    var marker := MarkerFor(id);
    var lines := Lines(existing);
    var out := [];
    for i := 0 to |lines|
      invariant out == Unmarked(lines[..i], id)
    {
      SelectSnoc(lines[..i], lines[i], marker, false);
      assert lines[..i] + [lines[i]] == lines[..i + 1];
      if !Contains(lines[i], marker) {
        out := out + [lines[i]];
      }
    }
    assert lines[..|lines|] == lines;
    joined := Join(out);
    if joined != "" && joined[|joined| - 1] != '\n' {
      joined := joined + "\n";
    }
    KeptAreLineFeedFree(existing, id);
    JoinNormalized(out);
  }

  /** The crontab with the one line of schedule `id` at its end. */
  function Composed(existing: string, id: string, cron: string): string {
    Stripped(existing, id) + CronLine(id, cron) + "\n"
  }

  method ComposeCrontab(existing: string, id: string, cron: string) returns (content: string)
    ensures content == Composed(existing, id, cron)
  {
    content := StripMarkerLines(existing, id);
    content := content + CronLine(id, cron);
    hide CronLine;
    CronLineEnds(id, cron);
    JoinEnds(Stripped(existing, id), CronLine(id, cron));
    if content == "" || content[|content| - 1] != '\n' {
      content := content + "\n";
    }
  }

  /** A schedule's line ends neither in a line feed nor in a carriage return. */
  lemma CronLineEnds(id: string, cron: string)
    ensures var line := CronLine(id, cron); line != "" && line[|line| - 1] != '\n' && line[|line| - 1] != '\r'
  {
    hide Tag, DumpCommand, Trailer;
    JoinEnds(DumpCommand() + MarkerFor(id), Trailer());
    JoinEnds(cron, Command(id));
  }

  lemma JoinEnds(a: string, b: string)
    requires b != ""
    ensures a + b != "" && (a + b)[|a + b| - 1] == b[|b| - 1]
  {
  }

  // ---------------------------------------------------------------------------
  // Selecting.
  // ---------------------------------------------------------------------------

  lemma {:induction false} SelectConcat(a: seq<string>, b: seq<string>, marker: string, holding: bool)
    ensures Select(a + b, marker, holding) == Select(a, marker, holding) + Select(b, marker, holding)
  {
    if a == [] {
      assert a + b == b;
    } else {
      assert (a + b)[1..] == a[1..] + b;
      SelectConcat(a[1..], b, marker, holding);
    }
  }

  lemma SelectSnoc(lines: seq<string>, line: string, marker: string, holding: bool)
    ensures Select(lines + [line], marker, holding)
         == if Contains(line, marker) == holding then Select(lines, marker, holding) + [line]
            else Select(lines, marker, holding)
  {
    SelectConcat(lines, [line], marker, holding);
    assert Select([line], marker, holding) == if Contains(line, marker) == holding then [line] else [];
  }

  lemma {:induction false} SelectedAreLines(lines: seq<string>, marker: string, holding: bool)
    ensures forall line :: line in Select(lines, marker, holding) <==>
                           line in lines && Contains(line, marker) == holding
  {
    if lines != [] {
      SelectedAreLines(lines[1..], marker, holding);
      assert lines == [lines[0]] + lines[1..];
    }
  }

  /** Selecting what is selected already. */
  lemma {:induction false} SelectAll(lines: seq<string>, marker: string, holding: bool)
    ensures Select(lines, marker, holding) == lines <==>
            forall line :: line in lines ==> Contains(line, marker) == holding
  {
    SelectedAreLines(lines, marker, holding);
    if forall line :: line in lines ==> Contains(line, marker) == holding {
      SelectEvery(lines, marker, holding);
    }
  }

  lemma {:induction false} SelectEvery(lines: seq<string>, marker: string, holding: bool)
    requires forall line :: line in lines ==> Contains(line, marker) == holding
    ensures Select(lines, marker, holding) == lines
  {
    if lines != [] {
      SelectEvery(lines[1..], marker, holding);
    }
  }

  lemma {:induction false} SelectNone(lines: seq<string>, marker: string, holding: bool)
    requires forall line :: line in lines ==> Contains(line, marker) != holding
    ensures Select(lines, marker, holding) == []
  {
    if lines != [] {
      SelectNone(lines[1..], marker, holding);
    }
  }

  /** Two selections may be made in either order. */
  lemma {:induction false} SelectsCommute(lines: seq<string>, a: string, x: bool, b: string, y: bool)
    ensures Select(Select(lines, a, x), b, y) == Select(Select(lines, b, y), a, x)
  {
    if lines != [] {
      SelectsCommute(lines[1..], a, x, b, y);
      var p, q := Select(lines[1..], a, x), Select(lines[1..], b, y);
      assert ([lines[0]] + p)[1..] == p && ([lines[0]] + q)[1..] == q;
    }
  }

  lemma {:induction false} SelectOfChopped(lines: seq<string>, marker: string, holding: bool)
    requires marker != "" && '\r' !in marker
    ensures Select(ChopAll(lines), marker, holding) == ChopAll(Select(lines, marker, holding))
  {
    if lines != [] {
      SelectOfChopped(lines[1..], marker, holding);
      ContainsOfChop(lines[0], marker);
      ChopAllCons(lines);
      var rest := Select(lines[1..], marker, holding);
      assert ([lines[0]] + rest)[1..] == rest;
    }
  }

  // ---------------------------------------------------------------------------
  // Normal form.
  // ---------------------------------------------------------------------------

  lemma JoinNormalized(lines: seq<string>)
    requires LineFeedFree(lines)
    ensures var joined := Join(lines);
            (if joined != "" && joined[|joined| - 1] != '\n' then joined + "\n" else joined)
            == Terminate(DropFinalEmpty(lines))
  {
    if lines != [] {
      var init, last := lines[..|lines| - 1], lines[|lines| - 1];
      JoinIsTerminate(lines);
      assert init + [last] == lines;
      hide Join, Terminate;
      if last == "" {
        if init != [] {
          TerminateEnds(init);
        }
        assert Terminate(init) + last == Terminate(init);
      } else {
        TerminateSnoc(init, last);
        JoinEnds(Terminate(init), last);
      }
    }
  }

  // ---------------------------------------------------------------------------
  // The lines after a rewrite.
  // ---------------------------------------------------------------------------

  /** No line ends in a carriage return of its own. */
  predicate CrFree(lines: seq<string>) {
    forall i :: 0 <= i < |lines| ==> ChopCr(lines[i]) == lines[i]
  }

  lemma ChopNothing(lines: seq<string>)
    ensures ChopAll(lines) == lines <==> CrFree(lines)
  {
    if ChopAll(lines) == lines {
      assert forall i :: 0 <= i < |lines| ==> ChopAll(lines)[i] == ChopCr(lines[i]);
    }
  }

  lemma KeptAreLineFeedFree(existing: string, id: string)
    ensures LineFeedFree(Unmarked(Lines(existing), id))
    ensures LineFeedFree(DropFinalEmpty(Unmarked(Lines(existing), id)))
  {
    hide MarkerFor;
    LinesAreLineFeedFree(existing);
    SelectedAreLines(Lines(existing), MarkerFor(id), false);
    var kept := Unmarked(Lines(existing), id);
    assert forall i :: 0 <= i < |kept| ==> kept[i] in kept;
  }

  /** What is read back after a strip, for every text. */
  lemma LinesAfterStrip(existing: string, id: string)
    ensures Lines(Stripped(existing, id)) == ChopAll(DropFinalEmpty(Unmarked(Lines(existing), id)))
  {
    var kept := Unmarked(Lines(existing), id);
    KeptAreLineFeedFree(existing, id);
    LinesOfTerminate(DropFinalEmpty(kept), "");
    assert Terminate(DropFinalEmpty(kept)) + "" == Terminate(DropFinalEmpty(kept));
  }

  /** A strip leaves exactly the unmarked lines, in order and less one final empty line, just
   *  when none of them ends in a carriage return. */
  lemma StripKeepsLinesExactly(existing: string, id: string)
    ensures Lines(Stripped(existing, id)) == DropFinalEmpty(Unmarked(Lines(existing), id))
            <==> CrFree(Unmarked(Lines(existing), id))
  {
    var kept := Unmarked(Lines(existing), id);
    LinesAfterStrip(existing, id);
    hide Unmarked, Lines, Stripped;
    ChopNothing(DropFinalEmpty(kept));
    CrFreeWithoutFinal(kept);
  }

  lemma CrFreeWithoutFinal(lines: seq<string>)
    ensures CrFree(DropFinalEmpty(lines)) <==> CrFree(lines)
  {
    if lines != [] {
      assert lines == lines[..|lines| - 1] + [lines[|lines| - 1]];
    }
  }

  /** A rewrite reads back as the stripped lines and then the lines of the new entry. */
  lemma LinesAfterCompose(existing: string, id: string, cron: string)
    ensures Lines(Composed(existing, id, cron)) == Lines(Stripped(existing, id)) + Lines(CronLine(id, cron) + "\n")
  {
    var kept := DropFinalEmpty(Unmarked(Lines(existing), id));
    KeptAreLineFeedFree(existing, id);
    hide CronLine, Unmarked, MarkerFor;
    LinesOfTerminate(kept, CronLine(id, cron) + "\n");
    LinesAfterStrip(existing, id);
    Regroup(Terminate(kept), CronLine(id, cron), "\n");
  }

  /** The new entry is one line, the last, exactly when it holds no line feed. */
  lemma ComposeAddsOneLineExactly(existing: string, id: string, cron: string)
    ensures Lines(Composed(existing, id, cron)) == Lines(Stripped(existing, id)) + [CronLine(id, cron)]
            <==> '\n' !in id && '\n' !in cron
  {
    var line := CronLine(id, cron);
    LinesAfterCompose(existing, id, cron);
    CronLineCharacters(id, cron, '\n');
    CronLineKeepsCr(id, cron);
    hide CronLine, Composed, Stripped;
    var stripped := Lines(Stripped(existing, id));
    if '\n' !in line {
      LinesOfCons(line, "");
      assert line + "\n" + "" == line + "\n";
    } else {
      hide Lines;
      LinesAreLineFeedFree(Composed(existing, id, cron));
      assert (stripped + [line])[|stripped|] == line;
    }
  }

  lemma CronLineCharacters(id: string, cron: string, c: char)
    requires c == '\n' || c == '\r'
    ensures c in CronLine(id, cron) <==> c in cron || c in id
  {
    hide Tag, DumpCommand, Trailer;
  }

  lemma CronLineKeepsCr(id: string, cron: string)
    ensures ChopCr(CronLine(id, cron)) == CronLine(id, cron)
  {
    hide CronLine;
    CronLineEnds(id, cron);
  }
}

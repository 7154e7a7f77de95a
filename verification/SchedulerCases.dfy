/** The conditions of the crontab results are met in practice: one small case of each failure. */
module SchedulerCases {
  import opened Wrappers
  import opened Text
  import opened Crontab
  import opened CrontabMarkers
  import opened Scheduler
  import opened SchedulerRuns
  import opened SchedulerLines
  import CrontabLaws
  import CronExpression
  import Decimal

  // ---------------------------------------------------------------------------
  // Stripping twice.
  // ---------------------------------------------------------------------------

  lemma OnlyUnmarked(lines: seq<string>, id: string)
    requires forall line :: line in lines ==> '#' !in line
    ensures Unmarked(lines, id) == lines
  {
    assert MarkerFor(id)[0] == '#' by { hide Tag; }
    forall line | line in lines ensures !Contains(line, MarkerFor(id)) {
      NotContains(line, MarkerFor(id));
    }
    hide MarkerFor, Contains;
    SelectEvery(lines, MarkerFor(id), false);
  }

  lemma LinesOf(lines: seq<string>)
    requires LineFeedFree(lines)
    ensures Lines(Terminate(lines)) == ChopAll(lines)
  {
    LinesOfTerminate(lines, "");
    assert Terminate(lines) + "" == Terminate(lines) && Lines("") == [];
    assert ChopAll(lines) + [] == ChopAll(lines);
  }

  /** Two empty lines at the end change again the second time. */
  lemma StripTwiceDiffers(id: string)
    ensures Stripped(Stripped(Terminate(["a", "", ""]), id), id) != Stripped(Terminate(["a", "", ""]), id)
  {
    var blank := ["a", "", ""];
    LinesOf(blank);
    assert ChopAll(blank) == blank;
    OnlyUnmarked(blank, id);
    assert DropFinalEmpty(blank) == ["a", ""];
    hide Lines, Terminate, ChopAll, Unmarked;
    CrontabLaws.StripTwiceExactly(Terminate(blank), id);
  }

  /** So does a line with two carriage returns. */
  lemma StripTwiceDiffersOnCarriageReturns(id: string)
    ensures Stripped(Stripped(Terminate(["a\r\r"]), id), id) != Stripped(Terminate(["a\r\r"]), id)
  {
    var carriage := ["a\r\r"];
    LinesOf(carriage);
    assert "a\r\r"[..2] == "a\r" && ChopAll(carriage) == ["a\r"];
    OnlyUnmarked(["a\r"], id);
    assert DropFinalEmpty(["a\r"]) == ["a\r"];
    assert ChopCr("a\r") == "a" by { assert "a\r"[..1] == "a"; }
    hide Lines, Terminate, ChopAll, Unmarked;
    CrontabLaws.StripTwiceExactly(Terminate(carriage), id);
  }

  // ---------------------------------------------------------------------------
  // Ids that begin with one another.
  // ---------------------------------------------------------------------------

  /** With "ab" installed, uninstalling "a" takes the line of "ab". */
  lemma PrefixTakesLine(crontab: string, cron: string)
    requires '#' !in cron
    ensures var installed := Composed(crontab, "ab", cron);
            HasLine(installed, "ab") && !HasLine(Stripped(installed, "a"), "ab")
  {
    assert IsId("ab") && IsId("a") && "a" <= "ab";
    hide *;
    ComposeGives(crontab, "ab", cron);
    StripTakesExactly(Composed(crontab, "ab", cron), "a", "ab");
  }

  // ---------------------------------------------------------------------------
  // A changed expression.
  // ---------------------------------------------------------------------------

  const FAULTLESS := Faults(None, None, None, None)

  /** Saving a schedule, installing it and saving it with another expression: the crontab goes on
   *  with the first one. */
  lemma StaleAfterUpsert(crontab: string, id: string, first: string, second: string)
    returns (trace: seq<State>, events: seq<Event>)
    requires IsId(id) && '\n' !in first && '\n' !in second && first != second
    requires CronExpression.ValidateCron(first).Ok? && CronExpression.ValidateCron(second).Ok?
    ensures IsRun(trace, events) && |events| == 3 && trace[0].crontab == crontab
    ensures forall j :: 0 <= j < 3 ==> !Breaks(trace[j], events[j])
    ensures |trace[3].schedules| == 1 && trace[3].schedules[0].installed
    ensures trace[3].schedules[0].id == id && trace[3].schedules[0].cron == second
    ensures LineRuns(trace[3].crontab, id, first) && !LineRuns(trace[3].crontab, id, second)
  {
    var save := Upsert(id, "", first, "", "", FAULTLESS);
    var install := Install(id, FAULTLESS);
    var change := Upsert(id, "", second, "", "", FAULTLESS);
    var entry := Entry(id, "", first, "", "", false);
    var composed := Composed(crontab, id, first);
    var s0, s1 := State([], crontab), State([entry], crontab);
    var s2 := State([entry.(installed := true)], composed);
    var s3 := State([entry.(installed := true, cron := second)], composed);
    hide CronExpression.ValidateCron, Composed, IsId, LastPiece, LineRuns;
    assert [] + [entry] == [entry];
    assert Step(s0, save) == s1;
    assert Step(s1, install) == s2;
    assert Step(s2, change) == s3;
    trace, events := [s0, s1, s2, s3], [save, install, change];
    assert !Overlaps(s1.schedules, id);
    LinedAtEnd(trace, events, s1, install, id, first);
    LineIsCurrentExactly(trace, events, 3, 0);
  }

  lemma LinedAtEnd(trace: seq<State>, events: seq<Event>, s1: State, install: Event, id: string, first: string)
    requires |trace| == 4 && |events| == 3 && events[0].Upsert? && events[2].Upsert?
    requires trace[1] == s1 && events[1] == install && Rewrites(s1, install) && install.id == id
    requires s1.schedules[Position(s1.schedules, id)].cron == first
    ensures Lined(trace, events, 3) == map[id := first]
  {
    hide Rewrites;
    assert Lined(trace, events, 0) == map[];
    assert Lined(trace, events, 1) == map[] by { assert !Rewrites(trace[0], events[0]) by { NeverRewrites(trace[0], events[0]); } }
    assert Lined(trace, events, 2) == map[id := first];
    NeverRewrites(trace[2], events[2]);
  }

  lemma NeverRewrites(s: State, e: Event)
    requires e.Upsert?
    ensures !Rewrites(s, e)
  {
  }

  // ---------------------------------------------------------------------------
  // Two expressions for it.
  // ---------------------------------------------------------------------------

  lemma FirstWord(c: char, rest: string)
    requires !IsWhitespace(c)
    ensures SplitWhitespace([c, ' '] + rest) == [[c]] + SplitWhitespace(rest)
  {
    var s := [c, ' '] + rest;
    assert s[1..] == " " + rest && (" " + rest)[1..] == rest;
    assert WordEnd(s) == 1 by { assert WordEnd(s[1..]) == 0; }
    assert s[..1] == [c] && SplitWhitespace(s[1..]) == SplitWhitespace(rest);
  }

  lemma LastWord(c: char)
    requires !IsWhitespace(c)
    ensures SplitWhitespace([c]) == [[c]]
  {
    assert [c][1..] == "" && WordEnd([c]) == 1 && [c][..1] == [c];
    assert SplitWhitespace("") == [];
  }

  lemma DigitIsField(c: char, lo: nat, hi: nat)
    requires '0' <= c <= '9' && lo == 0 && hi >= 9
    ensures CronExpression.ValidateField([c], lo, hi).Ok?
  {
    FindUnique([c], ',', 1);
    FindUnique([c], '-', 1);
    assert CronExpression.Split([c], ',') == [[c]];
    assert [c][..0] == [] && Decimal.Value([c]) == c as int - '0' as int;
    assert CronExpression.ParseU32([c]) == Some(Decimal.Value([c]));
    hide CronExpression.ParseU32, Decimal.Value, Find;
    assert CronExpression.ValidateToken([c], lo, hi).Ok?;
    assert [[c]][1..] == [] && CronExpression.ValidateTokens([], lo, hi).Ok?;
    assert CronExpression.ValidateTokens([[c]], lo, hi).Ok?;
  }

  /** The expression for every hour at minute `c`: "c * * * *". */
  function Hourly(c: char): string {
    [c, ' '] + (['*', ' '] + (['*', ' '] + (['*', ' '] + "*")))
  }

  lemma HourlyWords(c: char)
    requires !IsWhitespace(c)
    ensures SplitWhitespace(Hourly(c)) == [[c]] + ([['*']] + ([['*']] + ([['*']] + [['*']])))
  {
    LastWord('*');
    FirstWord('*', "*");
    FirstWord('*', ['*', ' '] + "*");
    FirstWord('*', ['*', ' '] + (['*', ' '] + "*"));
    FirstWord(c, ['*', ' '] + (['*', ' '] + (['*', ' '] + "*")));
    hide SplitWhitespace, IsWhitespace;
  }

  lemma HourlyIsAccepted(c: char)
    requires '0' <= c <= '9'
    ensures CronExpression.ValidateCron(Hourly(c)).Ok?
  {
    HourlyWords(c);
    var fields := [[c]] + ([['*']] + ([['*']] + ([['*']] + [['*']])));
    HourlyFields(c, fields);
    hide SplitWhitespace, CronExpression.ValidateFields, Decimal.Print, Hourly;
  }

  lemma HourlyFields(c: char, fields: seq<string>)
    requires '0' <= c <= '9' && |fields| == 5 && fields[0] == [c]
    requires forall i :: 1 <= i < 5 ==> fields[i] == ['*']
    ensures CronExpression.ValidateFields(fields, 0).Ok?
  {
    DigitIsField(c, 0, 59);
    hide CronExpression.ValidateTokens, CronExpression.Split, Decimal.Print;
    assert CronExpression.ValidateFields(fields, 5).Ok?;
    assert CronExpression.ValidateFields(fields, 4).Ok?;
    assert CronExpression.ValidateFields(fields, 3).Ok?;
    assert CronExpression.ValidateFields(fields, 2).Ok?;
    assert CronExpression.ValidateFields(fields, 1).Ok?;
  }

  lemma HourlyIsOneLine(c: char)
    requires '0' <= c <= '9'
    ensures |Hourly(c)| > 0 && Hourly(c)[0] == c && '\n' !in Hourly(c)
  {
  }

  lemma LetterIsId()
    ensures IsId("a")
  {
  }

  /** Moved from minute 0 to minute 5, an installed schedule still runs at minute 0. */
  lemma MovedScheduleStays() returns (trace: seq<State>, events: seq<Event>)
    ensures IsRun(trace, events) && |events| == 3
    ensures |trace[3].schedules| == 1 && trace[3].schedules[0].installed
    ensures trace[3].schedules[0].cron == Hourly('5')
    ensures LineRuns(trace[3].crontab, "a", Hourly('0'))
    ensures !LineRuns(trace[3].crontab, "a", trace[3].schedules[0].cron)
  {
    hide *;
    HourlyIsAccepted('0');
    HourlyIsAccepted('5');
    HourlyIsOneLine('0');
    HourlyIsOneLine('5');
    assert Hourly('0') != Hourly('5') by { assert Hourly('0')[0] != Hourly('5')[0]; }
    LetterIsId();
    trace, events := StaleAfterUpsert("", "a", Hourly('0'), Hourly('5'));
  }
}

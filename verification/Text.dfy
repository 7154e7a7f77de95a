/** Characters, words and lines, as Rust's `str` sees them. */
module Text {

  // ---------------------------------------------------------------------------
  // White space.
  // ---------------------------------------------------------------------------

  /** The Unicode property White_Space. */
  predicate IsWhitespace(c: char) {
    || '\U{9}' <= c <= '\U{D}' || c == ' ' || c == '\U{85}' || c == '\U{A0}' || c == '\U{1680}'
    || '\U{2000}' <= c <= '\U{200A}' || c == '\U{2028}' || c == '\U{2029}' || c == '\U{202F}'
    || c == '\U{205F}' || c == '\U{3000}'
  }

  /** `s.trim().is_empty()` */
  predicate Blank(s: string) {
    forall i :: 0 <= i < |s| ==> IsWhitespace(s[i])
  }

  /** The length of the word that `s` begins with. */
  function WordEnd(s: string): (k: nat)
    ensures k <= |s|
    ensures forall i :: 0 <= i < k ==> !IsWhitespace(s[i])
    ensures k < |s| ==> IsWhitespace(s[k])
  {
    if s == "" || IsWhitespace(s[0]) then 0 else 1 + WordEnd(s[1..])
  }

  /** `split_whitespace` */
  function SplitWhitespace(s: string): seq<string>
    decreases |s|
  {
    if s == "" then []
    else if IsWhitespace(s[0]) then SplitWhitespace(s[1..])
    else [s[..WordEnd(s)]] + SplitWhitespace(s[WordEnd(s)..])
  }

  /** Every character that is not white space is in one of the words. */
  lemma {:induction false} SplitWhitespaceCovers(s: string, c: char)
    requires c in s && !IsWhitespace(c)
    ensures exists k :: 0 <= k < |SplitWhitespace(s)| && c in SplitWhitespace(s)[k]
    decreases |s|
  {
    hide WordEnd;
    if IsWhitespace(s[0]) {
      SplitWhitespaceCovers(s[1..], c);
      assert SplitWhitespace(s) == SplitWhitespace(s[1..]);
    } else if c in s[..WordEnd(s)] {
      assert c in SplitWhitespace(s)[0];
    } else {
      var rest := s[WordEnd(s)..];
      InRest(s, WordEnd(s), c);
      SplitWhitespaceCovers(rest, c);
      var k :| 0 <= k < |SplitWhitespace(rest)| && c in SplitWhitespace(rest)[k];
      assert SplitWhitespace(s)[k + 1] == SplitWhitespace(rest)[k];
    }
  }

  /** The words with the gaps around them. */
  function Spaced(gaps: seq<string>, words: seq<string>): string
    requires |gaps| == |words| + 1
  {
    if words == [] then gaps[0] else gaps[0] + words[0] + Spaced(gaps[1..], words[1..])
  }

  predicate IsWord(word: string) {
    word != "" && forall i :: 0 <= i < |word| ==> !IsWhitespace(word[i])
  }

  /** Gaps are white space, and only the first and the last may be empty. */
  predicate AreGaps(gaps: seq<string>) {
    && (forall i :: 0 <= i < |gaps| ==> Blank(gaps[i]))
    && (forall i :: 0 < i < |gaps| - 1 ==> gaps[i] != "")
  }

  /** `s` is these words, with white space around them and between any two. */
  ghost predicate Spells(s: string, words: seq<string>) {
    && (forall i :: 0 <= i < |words| ==> IsWord(words[i]))
    && exists gaps :: |gaps| == |words| + 1 && AreGaps(gaps) && s == Spaced(gaps, words)
  }

  lemma {:induction false} BlankIsSkipped(gap: string, rest: string)
    requires Blank(gap)
    ensures SplitWhitespace(gap + rest) == SplitWhitespace(rest)
  {
    if gap == "" {
      assert gap + rest == rest;
    } else {
      assert (gap + rest)[1..] == gap[1..] + rest;
      BlankIsSkipped(gap[1..], rest);
    }
  }

  lemma {:induction false} WordEndsAt(word: string, rest: string)
    requires IsWord(word) && (rest == "" || IsWhitespace(rest[0]))
    ensures WordEnd(word + rest) == |word|
  {
    if |word| == 1 {
      assert (word + rest)[1..] == rest;
    } else {
      assert (word + rest)[1..] == word[1..] + rest;
      WordEndsAt(word[1..], rest);
    }
  }

  lemma WordIsSplitOff(word: string, rest: string)
    requires IsWord(word) && (rest == "" || IsWhitespace(rest[0]))
    ensures SplitWhitespace(word + rest) == [word] + SplitWhitespace(rest)
  {
    WordEndsAt(word, rest);
    assert (word + rest)[0] == word[0];
    assert (word + rest)[..|word|] == word && (word + rest)[|word|..] == rest;
  }

  /** What follows a word begins with white space, if there is anything. */
  lemma GapFollows(gaps: seq<string>, words: seq<string>)
    requires |gaps| == |words| + 1 && AreGaps(gaps) && (words != [] ==> gaps[0] != "")
    ensures var rest := Spaced(gaps, words); rest == "" || IsWhitespace(rest[0])
  {
  }

  lemma {:induction false} SplitOfSpaced(gaps: seq<string>, words: seq<string>)
    requires |gaps| == |words| + 1 && AreGaps(gaps)
    requires forall i :: 0 <= i < |words| ==> IsWord(words[i])
    ensures SplitWhitespace(Spaced(gaps, words)) == words
    decreases |words|
  {
    if words == [] {
      BlankIsSkipped(gaps[0], "");
      assert gaps[0] + "" == gaps[0];
    } else {
      var rest := Spaced(gaps[1..], words[1..]);
      GapFollows(gaps[1..], words[1..]);
      SplitOfSpaced(gaps[1..], words[1..]);
      BlankIsSkipped(gaps[0], words[0] + rest);
      WordIsSplitOff(words[0], rest);
      assert gaps[0] + words[0] + rest == gaps[0] + (words[0] + rest);
    }
  }

  lemma WidenFirst(c: char, rest: string, gaps: seq<string>, words: seq<string>)
    requires |gaps| == |words| + 1 && AreGaps(gaps) && rest == Spaced(gaps, words) && IsWhitespace(c)
    ensures var wider := gaps[0 := [c] + gaps[0]];
            AreGaps(wider) && Spaced(wider, words) == [c] + rest
  {
    hide IsWhitespace;
    assert gaps[0 := [c] + gaps[0]][1..] == gaps[1..];
  }

  lemma {:induction false} SplitIsSpaced(s: string) returns (gaps: seq<string>)
    ensures var words := SplitWhitespace(s);
            && (forall i :: 0 <= i < |words| ==> IsWord(words[i]))
            && |gaps| == |words| + 1 && AreGaps(gaps) && s == Spaced(gaps, words)
    ensures s != "" && IsWhitespace(s[0]) ==> gaps[0] != ""
    decreases |s|
  {
    var words := SplitWhitespace(s);
    if s == "" {
      gaps := [""];
    } else if IsWhitespace(s[0]) {
      var others := SplitIsSpaced(s[1..]);
      gaps := others[0 := [s[0]] + others[0]];
      WidenFirst(s[0], s[1..], others, words);
    } else {
      var k := WordEnd(s);
      assert IsWord(s[..k]) && words == [s[..k]] + SplitWhitespace(s[k..]);
      assert s == s[..k] + s[k..];
      var others := SplitIsSpaced(s[k..]);
      assert SplitWhitespace("") == [];
      hide SplitWhitespace, WordEnd, Spaced, AreGaps;
      gaps := [""] + others;
      PrependWord(s[..k], s[k..], others, SplitWhitespace(s[k..]));
    }
  }

  lemma PrependWord(word: string, rest: string, gaps: seq<string>, words: seq<string>)
    requires |gaps| == |words| + 1 && AreGaps(gaps) && rest == Spaced(gaps, words)
    requires words != [] ==> gaps[0] != ""
    ensures AreGaps([""] + gaps) && Spaced([""] + gaps, [word] + words) == word + rest
  {
    assert ([""] + gaps)[1..] == gaps && ([word] + words)[1..] == words;
    assert "" + word + rest == word + rest;
    assert Blank("");
    hide Blank;
  }

  /** Splitting at white space gives these words exactly when the text spells them. */
  lemma SplitWhitespaceExactly(s: string, words: seq<string>)
    ensures SplitWhitespace(s) == words <==> Spells(s, words)
  {
    var gaps := SplitIsSpaced(s);
    assert Spells(s, SplitWhitespace(s));
    if Spells(s, words) {
      var others :| |others| == |words| + 1 && AreGaps(others) && s == Spaced(others, words);
      SplitOfSpaced(others, words);
    }
  }

  lemma InRest(s: string, k: nat, c: char)
    requires k <= |s| && c in s && c !in s[..k]
    ensures c in s[k..]
  {
    assert s == s[..k] + s[k..];
  }

  // ---------------------------------------------------------------------------
  // Lines.
  // ---------------------------------------------------------------------------

  /** The position of the first `c`, or the length of `s`. */
  function Find(s: string, c: char): (k: nat)
    ensures k <= |s|
    ensures c !in s[..k]
    ensures k < |s| ==> s[k] == c
  {
    if s == "" || s[0] == c then 0
    else
      var k := 1 + Find(s[1..], c);
      assert s[..k] == [s[0]] + s[1..][..k - 1];
      k
  }

  lemma {:induction false} FindUnique(s: string, c: char, k: nat)
    requires k <= |s| && c !in s[..k] && (k < |s| ==> s[k] == c)
    ensures Find(s, c) == k
  {
    if s != "" && s[0] != c {
      assert forall i :: 0 < i < k ==> s[i] == s[..k][i];
      assert s[..k][0] == s[0];
      FindUnique(s[1..], c, k - 1);
    }
  }

  function ChopCr(line: string): string {
    if line != "" && line[|line| - 1] == '\r' then line[..|line| - 1] else line
  }

  /** `str::lines`: a carriage return goes only when a line feed follows it. */
  function Lines(s: string): seq<string>
    decreases |s|
  {
    if s == "" then []
    else
      var k := Find(s, '\n');
      if k == |s| then [s] else [ChopCr(s[..k])] + Lines(s[k + 1..])
  }

  /** Every line followed by a line feed. */
  function Terminate(lines: seq<string>): string {
    if lines == [] then "" else lines[0] + "\n" + Terminate(lines[1..])
  }

  /** `lines.join("\n")` */
  function Join(lines: seq<string>): string {
    if lines == [] then ""
    else if |lines| == 1 then lines[0]
    else lines[0] + "\n" + Join(lines[1..])
  }

  function ChopAll(lines: seq<string>): (r: seq<string>)
    ensures |r| == |lines|
    ensures forall i :: 0 <= i < |r| ==> r[i] == ChopCr(lines[i])
  {
    if lines == [] then [] else [ChopCr(lines[0])] + ChopAll(lines[1..])
  }

  /** No line feed inside a line. */
  predicate LineFeedFree(lines: seq<string>) {
    forall i :: 0 <= i < |lines| ==> '\n' !in lines[i]
  }

  lemma {:induction false} LinesAreLineFeedFree(s: string)
    ensures LineFeedFree(Lines(s))
    decreases |s|
  {
    if s != "" {
      var k := Find(s, '\n');
      if k < |s| {
        LinesAreLineFeedFree(s[k + 1..]);
      } else {
        assert s[..k] == s;
      }
    }
  }

  /** Reading one line that a line feed ends. */
  lemma LinesOfCons(line: string, rest: string)
    requires '\n' !in line
    ensures Lines(line + "\n" + rest) == [ChopCr(line)] + Lines(rest)
  {
    var s := line + "\n" + rest;
    assert s[..|line|] == line && s[|line|] == '\n' && s[|line| + 1..] == rest;
    FindUnique(s, '\n', |line|);
  }

  /** Terminated lines read back in order, each less a final carriage return; what follows them
   *  is read on its own. */
  lemma {:induction false} LinesOfTerminate(lines: seq<string>, rest: string)
    requires LineFeedFree(lines)
    ensures Lines(Terminate(lines) + rest) == ChopAll(lines) + Lines(rest)
  {
    hide Lines, ChopAll;
    if lines == [] {
      assert Terminate(lines) + rest == rest;
      assert ChopAll(lines) + Lines(rest) == Lines(rest);
    } else {
      LinesOfTerminate(lines[1..], rest);
      LinesOfFirst(lines, rest);
      ChopAllCons(lines);
      Regroup([ChopCr(lines[0])], ChopAll(lines[1..]), Lines(rest));
    }
  }

  lemma {:induction false} IntoLines(s: string) returns (lines: seq<string>, rest: string)
    ensures LineFeedFree(lines) && '\n' !in rest && s == Terminate(lines) + rest
    decreases |s|
  {
    var k := Find(s, '\n');
    if k == |s| {
      lines, rest := [], s;
      assert s[..k] == s;
    } else {
      var others;
      assert s == s[..k] + "\n" + s[k + 1..];
      others, rest := IntoLines(s[k + 1..]);
      lines := [s[..k]] + others;
      hide Find;
      assert lines[1..] == others;
      Regroup(s[..k] + "\n", Terminate(others), rest);
    }
  }

  lemma LinesOfRest(rest: string)
    requires '\n' !in rest
    ensures Lines(rest) == if rest == "" then [] else [rest]
  {
    assert rest[..|rest|] == rest;
    FindUnique(rest, '\n', |rest|);
  }

  /** Every text is terminated lines and then a text without a line feed, and it reads back as
   *  those lines, each less a final carriage return, and that text, unless it is empty. */
  lemma LinesExactly(s: string) returns (lines: seq<string>, rest: string)
    ensures LineFeedFree(lines) && '\n' !in rest && s == Terminate(lines) + rest
    ensures Lines(s) == ChopAll(lines) + if rest == "" then [] else [rest]
  {
    lines, rest := IntoLines(s);
    LinesOfTerminate(lines, rest);
    LinesOfRest(rest);
  }

  lemma LinesOfFirst(lines: seq<string>, rest: string)
    requires lines != [] && '\n' !in lines[0]
    ensures Lines(Terminate(lines) + rest) == [ChopCr(lines[0])] + Lines(Terminate(lines[1..]) + rest)
  {
    hide Lines, ChopCr;
    Regroup(lines[0] + "\n", Terminate(lines[1..]), rest);
    LinesOfCons(lines[0], Terminate(lines[1..]) + rest);
  }

  lemma Regroup<T>(a: seq<T>, b: seq<T>, c: seq<T>)
    ensures (a + b) + c == a + (b + c)
  {
  }

  lemma ChopAllCons(lines: seq<string>)
    requires lines != []
    ensures ChopAll(lines) == [ChopCr(lines[0])] + ChopAll(lines[1..])
  {
  }

  lemma {:induction false} TerminateSnoc(lines: seq<string>, line: string)
    ensures Terminate(lines + [line]) == Terminate(lines) + line + "\n"
  {
    if lines == [] {
      assert lines + [line] == [line];
    } else {
      TerminateSnoc(lines[1..], line);
      assert (lines + [line])[1..] == lines[1..] + [line];
    }
  }

  /** Joining is terminating all but the last line. */
  lemma {:induction false} JoinIsTerminate(lines: seq<string>)
    requires lines != []
    ensures Join(lines) == Terminate(lines[..|lines| - 1]) + lines[|lines| - 1]
  {
    var init := lines[..|lines| - 1];
    if |lines| > 1 {
      JoinIsTerminate(lines[1..]);
      assert lines[1..][..|lines| - 2] == init[1..];
      assert Terminate(init) == lines[0] + "\n" + Terminate(init[1..]);
    }
  }

  lemma {:induction false} TerminateEnds(lines: seq<string>)
    requires lines != []
    ensures Terminate(lines) != "" && Terminate(lines)[|Terminate(lines)| - 1] == '\n'
  {
    var last := lines[|lines| - 1];
    TerminateSnoc(lines[..|lines| - 1], last);
    assert lines[..|lines| - 1] + [last] == lines;
  }

  // ---------------------------------------------------------------------------
  // Substrings.
  // ---------------------------------------------------------------------------

  predicate OccursAt(s: string, sub: string, i: nat) {
    i + |sub| <= |s| && s[i..i + |sub|] == sub
  }

  /** `s.contains(sub)` */
  predicate Contains(s: string, sub: string) {
    exists i :: 0 <= i <= |s| && OccursAt(s, sub, i)
  }

  /** Dropping a final carriage return does not change which texts without one a line contains. */
  lemma ContainsOfChop(line: string, sub: string)
    requires sub != "" && '\r' !in sub
    ensures Contains(ChopCr(line), sub) <==> Contains(line, sub)
  {
    var chopped := ChopCr(line);
    if Contains(line, sub) {
      var i :| 0 <= i <= |line| && OccursAt(line, sub, i);
      assert line[i + |sub| - 1] == line[i..i + |sub|][|sub| - 1] == sub[|sub| - 1];
      assert i + |sub| <= |chopped|;
      assert chopped[i..i + |sub|] == line[i..i + |sub|];
      assert OccursAt(chopped, sub, i);
    }
    if Contains(chopped, sub) {
      var i :| 0 <= i <= |chopped| && OccursAt(chopped, sub, i);
      assert chopped[i..i + |sub|] == line[i..i + |sub|];
      assert OccursAt(line, sub, i);
    }
  }

  lemma OccurrenceMatches(s: string, sub: string, i: nat, k: nat)
    requires OccursAt(s, sub, i) && k < |sub|
    ensures i + k < |s| && s[i + k] == sub[k]
  {
    assert s[i + k] == s[i..i + |sub|][k];
  }

  /** A text that lacks the first character of `sub` does not contain `sub`. */
  lemma NotContains(s: string, sub: string)
    requires sub != "" && sub[0] !in s
    ensures !Contains(s, sub)
  {
    if Contains(s, sub) {
      var i :| 0 <= i <= |s| && OccursAt(s, sub, i);
      OccurrenceMatches(s, sub, i, 0);
    }
  }
}

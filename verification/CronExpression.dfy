/** Checking a cron expression (validate_cron and validate_field in src-tauri/src/backup/schedule.rs). */
module CronExpression {
  import opened Wrappers
  import opened Decimal
  import opened Text

  const U32_MAX: nat := 0xFFFF_FFFF

  function Digits(s: string): string {
    if s != "" && s[0] == '+' then s[1..] else s
  }

  /** `s.parse::<u32>()`: digits, with an optional plus sign. */
  function ParseU32(s: string): Option<nat> {
    if Digits(s) != "" && AllDigits(Digits(s)) && Value(Digits(s)) <= U32_MAX then Some(Value(Digits(s))) else None
  }

  /** `s.split(c)` */
  function Split(s: string, c: char): (r: seq<string>)
    ensures r != []
    decreases |s|
  {
    var k := Find(s, c);
    if k == |s| then [s] else [s[..k]] + Split(s[k + 1..], c)
  }

  /** The pieces with `c` between them. */
  function JoinedBy(pieces: seq<string>, c: char): string
    requires pieces != []
  {
    if |pieces| == 1 then pieces[0] else pieces[0] + [c] + JoinedBy(pieces[1..], c)
  }

  lemma {:induction false} SplitOfJoined(pieces: seq<string>, c: char)
    requires pieces != [] && forall i :: 0 <= i < |pieces| ==> c !in pieces[i]
    ensures Split(JoinedBy(pieces, c), c) == pieces
    decreases |pieces|
  {
    var s := JoinedBy(pieces, c);
    FindUnique(s, c, |pieces[0]|) by {
      assert s[..|pieces[0]|] == pieces[0];
    }
    assert s[..|pieces[0]|] == pieces[0];
    if |pieces| > 1 {
      assert s[|pieces[0]| + 1..] == JoinedBy(pieces[1..], c);
      SplitOfJoined(pieces[1..], c);
    }
  }

  lemma {:induction false} JoinedOfSplit(s: string, c: char)
    ensures JoinedBy(Split(s, c), c) == s
    ensures forall i :: 0 <= i < |Split(s, c)| ==> c !in Split(s, c)[i]
    decreases |s|
  {
    var k := Find(s, c);
    assert s[..|s|] == s;
    hide Find;
    if k < |s| {
      JoinedOfSplit(s[k + 1..], c);
      assert Split(s, c)[1..] == Split(s[k + 1..], c);
      assert s == s[..k] + [c] + s[k + 1..];
    }
  }

  /** Splitting gives these pieces exactly when none holds the separator and they make up the
   *  text with the separator between them: empty pieces count, the last one too. */
  lemma SplitExactly(s: string, c: char, pieces: seq<string>)
    requires pieces != []
    ensures Split(s, c) == pieces <==> JoinedBy(pieces, c) == s && forall i :: 0 <= i < |pieces| ==> c !in pieces[i]
  {
    JoinedOfSplit(s, c);
    if JoinedBy(pieces, c) == s && forall i :: 0 <= i < |pieces| ==> c !in pieces[i] {
      SplitOfJoined(pieces, c);
    }
  }

  predicate IsSpelling(s: string, sign: string, zeros: nat, n: nat) {
    (sign == "" || sign == "+") && s == sign + Zeros(zeros) + Print(n)
  }

  lemma ParsedIsSpelled(s: string, n: nat)
    requires ParseU32(s) == Some(n)
    ensures exists sign, zeros: nat :: IsSpelling(s, sign, zeros, n)
  {
    var digits := Digits(s);
    var zeros := DigitsOfValue(digits);
    var sign := s[..|s| - |digits|];
    assert sign == "" || sign == "+";
    hide *;
    assert s == sign + digits;
    SpellingOfParts(s, sign, digits, zeros, n);
  }

  lemma SpellingOfParts(s: string, sign: string, digits: string, zeros: nat, n: nat)
    requires (sign == "" || sign == "+") && s == sign + digits && digits == Zeros(zeros) + Print(n)
    ensures IsSpelling(s, sign, zeros, n)
  {
    hide Print;
    assert s == sign + Zeros(zeros) + Print(n);
  }

  lemma SpelledIsParsed(s: string, sign: string, zeros: nat, n: nat)
    requires n <= U32_MAX && IsSpelling(s, sign, zeros, n)
    ensures ParseU32(s) == Some(n)
  {
    hide Value, Print;
    var digits := Zeros(zeros) + Print(n);
    assert s == sign + digits && digits[0] != '+';
    assert Digits(s) == digits;
    ValueOfLeadingZeros(zeros, Print(n));
    ValueOfPrint(n);
  }

  /** A text is read as the number `n` exactly when it is the print of `n`, after any number of
   *  zeros and perhaps a plus sign, and `n` fits. */
  lemma NumberExactly(s: string, n: nat)
    ensures ParseU32(s) == Some(n) <==> n <= U32_MAX && exists sign, zeros: nat :: IsSpelling(s, sign, zeros, n)
  {
    ParsedFits(s);
    hide ParseU32, IsSpelling;
    if ParseU32(s) == Some(n) {
      ParsedIsSpelled(s, n);
    }
    if n <= U32_MAX && exists sign, zeros: nat :: IsSpelling(s, sign, zeros, n) {
      var sign, zeros: nat :| IsSpelling(s, sign, zeros, n);
      SpelledIsParsed(s, sign, zeros, n);
    }
  }

  // ---------------------------------------------------------------------------
  // The checks.
  // ---------------------------------------------------------------------------

  function Bounds(lo: nat, hi: nat): string {
    "[" + Print(lo) + "," + Print(hi) + "]"
  }

  function ValidateToken(token: string, lo: nat, hi: nat): Result<(), string> {
    if "*/" <= token then
      var step := ParseU32(token[2..]);
      if step.None? then Err("invalid step '" + token[2..] + "'")
      else if step.value == 0 then Err("step cannot be 0")
      else Ok(())
    else if Find(token, '-') < |token| then
      var at := Find(token, '-');
      var l, h := ParseU32(token[..at]), ParseU32(token[at + 1..]);
      if l.None? then Err("invalid range start '" + token[..at] + "'")
      else if h.None? then Err("invalid range end '" + token[at + 1..] + "'")
      else if !(lo <= l.value <= hi) || !(lo <= h.value <= hi) || l.value > h.value then
        Err("range " + token + " outside " + Bounds(lo, hi))
      else Ok(())
    else
      var v := ParseU32(token);
      if v.None? then Err("invalid number '" + token + "'")
      else if !(lo <= v.value <= hi) then Err("value " + Print(v.value) + " outside " + Bounds(lo, hi))
      else Ok(())
  }

  function ValidateTokens(tokens: seq<string>, lo: nat, hi: nat): Result<(), string> {
    if tokens == [] then Ok(())
    else
      var first := ValidateToken(tokens[0], lo, hi);
      if first.Err? then first else ValidateTokens(tokens[1..], lo, hi)
  }

  function ValidateField(raw: string, lo: nat, hi: nat): Result<(), string> {
    if raw == "*" then Ok(()) else ValidateTokens(Split(raw, ','), lo, hi)
  }

  /** Minute, hour, day, month and day of the week. */
  const RANGES: seq<(nat, nat)> := [(0, 59), (0, 23), (1, 31), (1, 12), (0, 7)]

  function ValidateFields(fields: seq<string>, idx: nat): Result<(), string>
    requires |fields| == |RANGES| && idx <= |RANGES|
    decreases |RANGES| - idx
  {
    if idx == |RANGES| then Ok(())
    else
      var r := ValidateField(fields[idx], RANGES[idx].0, RANGES[idx].1);
      if r.Err? then Err("field " + Print(idx) + ": " + r.error) else ValidateFields(fields, idx + 1)
  }

  function ValidateCron(expr: string): Result<(), string> {
    var fields := SplitWhitespace(expr);
    if |fields| != |RANGES| then Err("cron expression must have 5 fields, got " + Print(|fields|))
    else ValidateFields(fields, 0)
  }

  // ---------------------------------------------------------------------------
  // What is accepted.
  // ---------------------------------------------------------------------------

  ghost predicate IsNumber(s: string, lo: nat, hi: nat) {
    ParseU32(s).Some? && lo <= ParseU32(s).value <= hi
  }

  ghost predicate IsStep(token: string) {
    exists n :: IsNumber(n, 1, U32_MAX) && token == "*/" + n
  }

  ghost predicate IsRange(token: string, lo: nat, hi: nat) {
    exists a, b :: IsNumber(a, lo, hi) && IsNumber(b, lo, hi) && ParseU32(a).value <= ParseU32(b).value
                   && token == a + "-" + b
  }

  ghost predicate IsToken(token: string, lo: nat, hi: nat) {
    IsStep(token) || IsRange(token, lo, hi) || IsNumber(token, lo, hi)
  }

  ghost predicate IsField(raw: string, lo: nat, hi: nat) {
    raw == "*" || forall i :: 0 <= i < |Split(raw, ',')| ==> IsToken(Split(raw, ',')[i], lo, hi)
  }

  /** A number is digits after at most one plus sign. */
  lemma NumberCharacters(s: string)
    requires ParseU32(s).Some?
    ensures s != "" && forall i :: 0 <= i < |s| ==> IsDigit(s[i]) || s[i] == '+'
  {
    hide Value;
    assert forall i :: 0 < i < |s| && s[0] == '+' ==> s[i] == Digits(s)[i - 1];
  }

  lemma RangeParts(a: string, b: string)
    requires ParseU32(a).Some?
    ensures Find(a + "-" + b, '-') == |a| && !("*/" <= a + "-" + b)
    ensures (a + "-" + b)[..|a|] == a && (a + "-" + b)[|a| + 1..] == b
  {
    hide ParseU32;
    NumberCharacters(a);
    assert (a + "-" + b)[..|a|] == a;
    FindUnique(a + "-" + b, '-', |a|);
    assert (a + "-" + b)[0] == a[0];
  }

  /** A token is accepted exactly when it is a step, a range in order, or a number in bounds. */
  lemma TokenExact(token: string, lo: nat, hi: nat)
    ensures ValidateToken(token, lo, hi).Ok? <==> IsToken(token, lo, hi)
  {
    hide ParseU32, Bounds, Print;
    if ValidateToken(token, lo, hi).Ok? {
      AcceptedIsToken(token, lo, hi);
    }
    if IsToken(token, lo, hi) {
      TokenIsAccepted(token, lo, hi);
    }
  }

  lemma TokenIsAccepted(token: string, lo: nat, hi: nat)
    requires IsToken(token, lo, hi)
    ensures ValidateToken(token, lo, hi).Ok?
  {
    hide ParseU32, Bounds, Print;
    if IsStep(token) {
      var n :| IsNumber(n, 1, U32_MAX) && token == "*/" + n;
      assert token[2..] == n;
    } else if IsRange(token, lo, hi) {
      var a, b :| IsNumber(a, lo, hi) && IsNumber(b, lo, hi) && ParseU32(a).value <= ParseU32(b).value
                  && token == a + "-" + b;
      RangeParts(a, b);
    } else {
      NumberCharacters(token);
      assert token[..|token|] == token;
      FindUnique(token, '-', |token|);
    }
  }

  lemma AcceptedIsToken(token: string, lo: nat, hi: nat)
    requires ValidateToken(token, lo, hi).Ok?
    ensures IsToken(token, lo, hi)
  {
    hide ParseU32, Bounds, Print;
    if "*/" <= token {
      ParsedFits(token[2..]);
      assert token == "*/" + token[2..];
      assert IsStep(token);
    } else if Find(token, '-') < |token| {
      var at := Find(token, '-');
      assert token == token[..at] + "-" + token[at + 1..];
      assert IsRange(token, lo, hi);
    }
  }

  lemma ParsedFits(s: string)
    ensures ParseU32(s).Some? ==> ParseU32(s).value <= U32_MAX
  {
  }

  lemma {:induction false} TokensExact(tokens: seq<string>, lo: nat, hi: nat)
    ensures ValidateTokens(tokens, lo, hi).Ok? <==> forall i :: 0 <= i < |tokens| ==> IsToken(tokens[i], lo, hi)
  {
    if tokens != [] {
      hide ValidateToken, IsToken;
      TokenExact(tokens[0], lo, hi);
      TokensExact(tokens[1..], lo, hi);
      assert forall i :: 0 < i < |tokens| ==> tokens[i] == tokens[1..][i - 1];
    }
  }

  lemma {:induction false} FieldsExact(fields: seq<string>, idx: nat)
    requires |fields| == |RANGES| && idx <= |RANGES|
    ensures ValidateFields(fields, idx).Ok? <==>
            forall k :: idx <= k < |RANGES| ==> IsField(fields[k], RANGES[k].0, RANGES[k].1)
    decreases |RANGES| - idx
  {
    hide ValidateTokens, IsToken, Print;
    if idx < |RANGES| {
      TokensExact(Split(fields[idx], ','), RANGES[idx].0, RANGES[idx].1);
      FieldsExact(fields, idx + 1);
    }
  }

  /** Five words, each a well-formed field within its range. */
  ghost predicate IsCron(expr: string) {
    var fields := SplitWhitespace(expr);
    |fields| == |RANGES| && forall k :: 0 <= k < |RANGES| ==> IsField(fields[k], RANGES[k].0, RANGES[k].1)
  }

  lemma AcceptedExactly(expr: string)
    ensures ValidateCron(expr).Ok? <==> IsCron(expr)
  {
    var fields := SplitWhitespace(expr);
    hide ValidateFields, IsField, Print;
    if |fields| == |RANGES| {
      FieldsExact(fields, 0);
    }
  }

  lemma {:induction false} FirstBadField(fields: seq<string>, idx: nat) returns (k: nat)
    requires |fields| == |RANGES| && idx <= |RANGES| && ValidateFields(fields, idx).Err?
    ensures idx <= k < |RANGES| && !IsField(fields[k], RANGES[k].0, RANGES[k].1)
    ensures forall j :: idx <= j < k ==> IsField(fields[j], RANGES[j].0, RANGES[j].1)
    ensures "field " + Print(k) + ": " <= ValidateFields(fields, idx).error
    decreases |RANGES| - idx
  {
    hide ValidateTokens, IsToken, Print;
    TokensExact(Split(fields[idx], ','), RANGES[idx].0, RANGES[idx].1);
    if ValidateField(fields[idx], RANGES[idx].0, RANGES[idx].1).Err? {
      k := idx;
    } else {
      k := FirstBadField(fields, idx + 1);
    }
  }

  /** A refusal names the first field that is not well-formed, when there are five. */
  lemma RefusalNamesField(expr: string) returns (k: nat)
    requires ValidateCron(expr).Err? && |SplitWhitespace(expr)| == |RANGES|
    ensures k < |RANGES|
    ensures var fields := SplitWhitespace(expr);
            && !IsField(fields[k], RANGES[k].0, RANGES[k].1)
            && (forall j :: 0 <= j < k ==> IsField(fields[j], RANGES[j].0, RANGES[j].1))
            && "field " + Print(k) + ": " <= ValidateCron(expr).error
  {
    k := FirstBadField(SplitWhitespace(expr), 0);
  }

  predicate InField(k: nat, n: nat) {
    match k
    case 0 => n <= 59
    case 1 => n <= 23
    case 2 => 1 <= n <= 31
    case 3 => 1 <= n <= 12
    case 4 => n <= 7
    case _ => false
  }

  lemma PlainNumberIsToken(n: nat, lo: nat, hi: nat)
    requires hi <= U32_MAX
    ensures IsToken(Print(n), lo, hi) <==> lo <= n <= hi
  {
    var s := Print(n);
    ValueOfPrint(n);
    assert IsDigit(s[0]) && Digits(s) == s;
    assert !IsStep(s);
    assert '-' !in s;
    forall a, b ensures s != a + "-" + b {
      assert (a + "-" + b)[|a|] == '-';
    }
    hide Print, Value;
    assert !IsRange(s, lo, hi);
  }

  /** A plain number is accepted for minute, hour, day, month and day of the week exactly when it
   *  is one, Sunday being 0 or 7. */
  lemma PlainNumberExactly(k: nat, n: nat)
    requires k < |RANGES|
    ensures IsField(Print(n), RANGES[k].0, RANGES[k].1) <==> InField(k, n)
  {
    var s := Print(n);
    SplitExactly(s, ',', [s]);
    forall i | 0 <= i < |s| ensures s[i] != ',' {
      assert IsDigit(s[i]) && !IsDigit(',');
    }
    assert s != "*" by { assert IsDigit(s[0]) && !IsDigit('*'); }
    PlainNumberIsToken(n, RANGES[k].0, RANGES[k].1);
    hide Print, IsToken, Split;
    assert Split(s, ',') == [s];
  }

  // ---------------------------------------------------------------------------
  // The characters of an accepted expression.
  // ---------------------------------------------------------------------------

  predicate IsCronChar(c: char) {
    IsDigit(c) || c == '*' || c == '/' || c == '-' || c == ',' || c == '+'
  }

  lemma TokenCharacters(token: string, lo: nat, hi: nat)
    requires IsToken(token, lo, hi)
    ensures forall c :: c in token ==> IsCronChar(c)
  {
    hide ParseU32;
    if IsStep(token) {
      var n :| IsNumber(n, 1, U32_MAX) && token == "*/" + n;
      NumberCharacters(n);
    } else if IsRange(token, lo, hi) {
      var a, b :| IsNumber(a, lo, hi) && IsNumber(b, lo, hi) && ParseU32(a).value <= ParseU32(b).value
                  && token == a + "-" + b;
      NumberCharacters(a);
      NumberCharacters(b);
    } else {
      NumberCharacters(token);
    }
  }

  lemma {:induction false} SplitCovers(s: string, sep: char, c: char)
    requires c in s && c != sep
    ensures exists i :: 0 <= i < |Split(s, sep)| && c in Split(s, sep)[i]
    decreases |s|
  {
    hide Find;
    var k := Find(s, sep);
    if k == |s| {
      assert c in Split(s, sep)[0];
    } else if c in s[..k] {
      assert c in Split(s, sep)[0];
    } else {
      var rest := s[k + 1..];
      InRest(s, k, c);
      assert s[k..] == [sep] + rest;
      SplitCovers(rest, sep, c);
      var i :| 0 <= i < |Split(rest, sep)| && c in Split(rest, sep)[i];
      assert Split(s, sep)[i + 1] == Split(rest, sep)[i];
    }
  }

  lemma FieldCharacters(raw: string, lo: nat, hi: nat, c: char)
    requires IsField(raw, lo, hi) && c in raw
    ensures IsCronChar(c)
  {
    hide IsToken;
    if raw != "*" && c != ',' {
      SplitCovers(raw, ',', c);
      var i :| 0 <= i < |Split(raw, ',')| && c in Split(raw, ',')[i];
      TokenCharacters(Split(raw, ',')[i], lo, hi);
    }
  }

  /** Besides white space, an accepted expression holds digits and "*", "/", "-", "," and "+". */
  lemma AcceptedCharacters(expr: string, c: char)
    requires ValidateCron(expr).Ok? && c in expr
    ensures IsWhitespace(c) || IsCronChar(c)
  {
    hide IsField, ValidateFields, Print;
    AcceptedExactly(expr);
    if !IsWhitespace(c) {
      SplitWhitespaceCovers(expr, c);
      var k :| 0 <= k < |SplitWhitespace(expr)| && c in SplitWhitespace(expr)[k];
      FieldCharacters(SplitWhitespace(expr)[k], RANGES[k].0, RANGES[k].1, c);
    }
  }

  lemma AcceptedIsHashFree(expr: string)
    requires ValidateCron(expr).Ok?
    ensures '#' !in expr
  {
    hide ValidateCron;
    if '#' in expr {
      AcceptedCharacters(expr, '#');
    }
  }

  // ---------------------------------------------------------------------------
  // Separators.
  // ---------------------------------------------------------------------------

  lemma {:induction false} WordEndIgnoresSeparator(s: string, i: nat, c: char)
    requires i < |s| && IsWhitespace(s[i]) && IsWhitespace(c)
    ensures WordEnd(s[i := c]) == WordEnd(s) <= i
  {
    if i > 0 && !IsWhitespace(s[0]) {
      assert s[i := c][1..] == s[1..][i - 1 := c];
      WordEndIgnoresSeparator(s[1..], i - 1, c);
    }
  }

  lemma {:induction false} WordsIgnoreSeparator(s: string, i: nat, c: char)
    requires i < |s| && IsWhitespace(s[i]) && IsWhitespace(c)
    ensures SplitWhitespace(s[i := c]) == SplitWhitespace(s)
    decreases |s|
  {
    hide IsWhitespace;
    var t := s[i := c];
    if i == 0 {
      assert t[1..] == s[1..];
    } else if IsWhitespace(s[0]) {
      assert t[1..] == s[1..][i - 1 := c];
      WordsIgnoreSeparator(s[1..], i - 1, c);
    } else {
      WordEndIgnoresSeparator(s, i, c);
      var k := WordEnd(s);
      assert t[..k] == s[..k] && t[k..] == s[k..][i - k := c];
      WordsIgnoreSeparator(s[k..], i - k, c);
    }
  }

  /** Any white space separates fields, line feeds too. */
  lemma SeparatorsDoNotMatter(expr: string, i: nat, c: char)
    requires i < |expr| && IsWhitespace(expr[i]) && IsWhitespace(c)
    ensures ValidateCron(expr[i := c]) == ValidateCron(expr)
  {
    WordsIgnoreSeparator(expr, i, c);
  }
}

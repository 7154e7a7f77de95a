/** Well-formed UTF-8 (section 4 of RFC 3629) and the lossy decoding of byte strings. */
module Utf8 {
  type Byte = bv8
  type Bytes = seq<Byte>

  /** `(b & 0xC0) == 0x80`: a byte that continues a character. */
  predicate IsContinuation(b: Byte) {
    b & 0xC0 == 0x80
  }

  /** How many bytes at the front of `s` could belong to one character: for a well-formed
   *  character all of them, otherwise its longest well-formed beginning (0 when the first
   *  byte cannot start a character). `full` is the length the first byte announces. */
  function Announced(b: Byte): (full: nat)
    ensures full <= 4
  {
    if b <= 0x7F then 1
    else if 0xC2 <= b <= 0xDF then 2
    else if 0xE0 <= b <= 0xEF then 3
    else if 0xF0 <= b <= 0xF4 then 4
    else 0
  }

  /** The second byte is restricted further by some first bytes. */
  predicate SecondAllowed(first: Byte, second: Byte) {
    if first == 0xE0 then 0xA0 <= second <= 0xBF
    else if first == 0xED then 0x80 <= second <= 0x9F
    else if first == 0xF0 then 0x90 <= second <= 0xBF
    else if first == 0xF4 then 0x80 <= second <= 0x8F
    else 0x80 <= second <= 0xBF
  }

  function Matched(s: Bytes): (k: nat)
    requires s != []
    ensures k <= |s| && k <= Announced(s[0])
  {
    var full := Announced(s[0]);
    if full <= 1 then full
    else if |s| < 2 || !SecondAllowed(s[0], s[1]) then 1
    else if full == 2 || |s| < 3 || !IsContinuation(s[2]) then 2
    else if full == 3 || |s| < 4 || !IsContinuation(s[3]) then 3
    else 4
  }

  /** Length of the well-formed character at the front of `s`, or 0. */
  function CharLength(s: Bytes): (n: nat)
    requires s != []
    ensures n <= |s| && n <= 4
  {
    if Announced(s[0]) > 0 && Matched(s) == Announced(s[0]) then Matched(s) else 0
  }

  predicate WellFormed(s: Bytes)
    decreases |s|
  {
    s == [] || (CharLength(s) > 0 && WellFormed(s[CharLength(s)..]))
  }

  const REPLACEMENT: Bytes := [0xEF, 0xBF, 0xBD]

  /** `String::from_utf8_lossy`: each longest ill-formed beginning becomes U+FFFD. */
  function Lossy(s: Bytes): Bytes
    decreases |s|
  {
    if s == [] then []
    else if CharLength(s) > 0 then s[..CharLength(s)] + Lossy(s[CharLength(s)..])
    else REPLACEMENT + Lossy(s[if Matched(s) == 0 then 1 else Matched(s)..])
  }

  /** The continuation bytes at the front of `s` are dropped. */
  function DropContinuations(s: Bytes): Bytes {
    if s != [] && IsContinuation(s[0]) then DropContinuations(s[1..]) else s
  }

  // ---------------------------------------------------------------------------
  // Proofs.
  // ---------------------------------------------------------------------------

  lemma SecondIsContinuation(first: Byte, second: Byte)
    requires SecondAllowed(first, second)
    ensures IsContinuation(second)
  {
  }

  lemma StartIsNotContinuation(b: Byte)
    requires Announced(b) > 0
    ensures !IsContinuation(b)
  {
  }

  /** Only the first byte of a character is not a continuation byte. */
  lemma CharBytes(s: Bytes, i: nat)
    requires s != [] && i < CharLength(s)
    ensures IsContinuation(s[i]) <==> i > 0
  {
    StartIsNotContinuation(s[0]);
    if i == 1 { SecondIsContinuation(s[0], s[1]); }
  }

  /** Whether a character is at the front does not depend on what follows it. */
  lemma CharLengthOfConcat(s: Bytes, t: Bytes)
    requires s != [] && CharLength(s) > 0
    ensures CharLength(s + t) == CharLength(s)
  {
  }

  lemma {:induction false} WellFormedConcat(s: Bytes, t: Bytes)
    requires WellFormed(s) && WellFormed(t)
    ensures WellFormed(s + t)
    decreases |s|
  {
    if s == [] {
      assert s + t == t;
    } else {
      var n := CharLength(s);
      CharLengthOfConcat(s, t);
      assert (s + t)[n..] == s[n..] + t;
      WellFormedConcat(s[n..], t);
    }
  }

  /** Lossy decoding always yields well-formed text, and changes nothing exactly when the
   *  bytes were well-formed already. */
  lemma LossyExact(s: Bytes)
    ensures WellFormed(Lossy(s))
    ensures Lossy(s) == s <==> WellFormed(s)
  {
    LossyWellFormed(s);
    if WellFormed(s) { LossyIdentity(s); }
  }

  lemma {:induction false} LossyIdentity(s: Bytes)
    requires WellFormed(s)
    ensures Lossy(s) == s
    decreases |s|
  {
    if s != [] { LossyIdentity(s[CharLength(s)..]); }
  }

  lemma {:induction false} LossyWellFormed(s: Bytes)
    ensures WellFormed(Lossy(s))
    decreases |s|
  {
    if s != [] {
      if CharLength(s) > 0 {
        var head := s[..CharLength(s)];
        assert CharLength(head) == |head|;
        LossyWellFormed(s[CharLength(s)..]);
        CharLengthOfConcat(head, Lossy(s[CharLength(s)..]));
        assert Lossy(s)[|head|..] == Lossy(s[CharLength(s)..]);
      } else {
        var rest := s[if Matched(s) == 0 then 1 else Matched(s)..];
        LossyWellFormed(rest);
        assert WellFormed(REPLACEMENT) by { assert REPLACEMENT[3..] == []; }
        WellFormedConcat(REPLACEMENT, Lossy(rest));
      }
    }
  }

  // ---------------------------------------------------------------------------
  // What is replaced.
  // ---------------------------------------------------------------------------

  /** One whole character. */
  predicate IsChar(c: Bytes) {
    c != [] && CharLength(c) == |c|
  }

  /** The code point that `c` spells, its bytes read as section 3 of RFC 3629 lays them out. */
  function CodePoint(c: Bytes): bv32
    requires 1 <= |c| <= 4
  {
    if |c| == 1 then c[0] as bv32
    else if |c| == 2 then (Low(c[0], 0x1F) << 6) | Low(c[1], 0x3F)
    else if |c| == 3 then (Low(c[0], 0x0F) << 12) | (Low(c[1], 0x3F) << 6) | Low(c[2], 0x3F)
    else (Low(c[0], 0x07) << 18) | (Low(c[1], 0x3F) << 12) | (Low(c[2], 0x3F) << 6) | Low(c[3], 0x3F)
  }

  function Low(b: Byte, mask: Byte): bv32 {
    (b & mask) as bv32
  }

  /** The first byte announces this many bytes, and the others continue. */
  predicate LaidOut(c: Bytes) {
    && 1 <= |c| <= 4
    && (if |c| == 1 then c[0] & 0x80 == 0
        else if |c| == 2 then c[0] & 0xE0 == 0xC0
        else if |c| == 3 then c[0] & 0xF0 == 0xE0
        else c[0] & 0xF8 == 0xF0)
    && forall i :: 1 <= i < |c| ==> IsContinuation(c[i])
  }

  /** Not a surrogate, not beyond U+10FFFF, and not spelled with more bytes than it takes. */
  predicate FitsLength(n: bv32, length: nat) {
    && (length == 2 ==> 0x80 <= n)
    && (length == 3 ==> 0x800 <= n && !(0xD800 <= n <= 0xDFFF))
    && (length == 4 ==> 0x1_0000 <= n <= 0x10_FFFF)
  }

  /** The characters are exactly the spellings of the code points. */
  lemma CharExactly(c: Bytes)
    ensures IsChar(c) <==> LaidOut(c) && FitsLength(CodePoint(c), |c|)
  {
    hide Low;
    if |c| == 1 {
      OneByte(c[0]);
      assert c == [c[0]];
    } else if |c| == 2 {
      TwoBytes(c[0], c[1]);
      assert c == [c[0], c[1]];
      hide IsChar;
    } else if |c| == 3 {
      ThreeBytes(c[0], c[1], c[2]);
      assert c == [c[0], c[1], c[2]];
      hide IsChar;
    } else if |c| == 4 {
      FourBytes(c[0], c[1], c[2], c[3]);
      assert c == [c[0], c[1], c[2], c[3]];
      hide IsChar;
    }
  }

  lemma OneByte(a: Byte)
    ensures IsChar([a]) <==> a & 0x80 == 0
  {
  }

  lemma TwoBytes(a: Byte, b: Byte)
    ensures IsChar([a, b]) <==>
            a & 0xE0 == 0xC0 && IsContinuation(b) && 0x80 <= (Low(a, 0x1F) << 6) | Low(b, 0x3F)
  {
  }

  lemma ThreeBytes(a: Byte, b: Byte, c: Byte)
    ensures var n := (Low(a, 0x0F) << 12) | (Low(b, 0x3F) << 6) | Low(c, 0x3F);
            IsChar([a, b, c]) <==>
              && a & 0xF0 == 0xE0 && IsContinuation(b) && IsContinuation(c)
              && 0x800 <= n && !(0xD800 <= n <= 0xDFFF)
  {
  }

  lemma FourBytes(a: Byte, b: Byte, c: Byte, d: Byte)
    ensures var n := (Low(a, 0x07) << 18) | (Low(b, 0x3F) << 12) | (Low(c, 0x3F) << 6) | Low(d, 0x3F);
            IsChar([a, b, c, d]) <==>
              && a & 0xF8 == 0xF0 && IsContinuation(b) && IsContinuation(c) && IsContinuation(d)
              && 0x1_0000 <= n <= 0x10_FFFF
  {
  }

  /** A second byte that the first one allows. */
  function Second(first: Byte): (second: Byte)
    ensures SecondAllowed(first, second)
  {
    if first == 0xE0 then 0xA0 else if first == 0xF0 then 0x90 else 0x80
  }

  /** A character that begins with the first `k` bytes of `s`. */
  function Completed(s: Bytes, k: nat): Bytes
    requires 1 <= k <= |s|
  {
    var full := Announced(s[0]);
    s[..k] + if k >= full then [] else if k == 1 then ([Second(s[0])] + [0x80, 0x80])[..full - 1] else [0x80, 0x80][..full - k]
  }

  lemma CompletedIsChar(s: Bytes, k: nat)
    requires 1 <= k <= |s| && k <= Matched(s)
    ensures IsChar(Completed(s, k)) && s[..k] <= Completed(s, k)
  {
  }

  lemma BeginningIsMatched(s: Bytes, k: nat, c: Bytes)
    requires 1 <= k <= |s| && IsChar(c) && s[..k] <= c
    ensures k <= Matched(s)
  {
    assert forall i :: 0 <= i < k ==> s[i] == c[i];
  }

  /** The bytes matched are the longest beginning that some character has, too. */
  lemma MatchedExactly(s: Bytes, k: nat)
    requires 1 <= k <= |s|
    ensures k <= Matched(s) <==> exists c :: IsChar(c) && s[..k] <= c
  {
    hide Matched, IsChar, Completed;
    if k <= Matched(s) {
      CompletedIsChar(s, k);
    }
    if c :| IsChar(c) && s[..k] <= c {
      BeginningIsMatched(s, k, c);
    }
  }

  /** `k` bytes at the front that are no character: the longest beginning of one, or one byte that
   *  begins none. */
  ghost predicate IllFormedFront(s: Bytes, k: nat) {
    && 1 <= k <= |s|
    && (k > 1 ==> exists c :: IsChar(c) && s[..k] < c)
    && (k < |s| ==> forall c :: IsChar(c) ==> !(s[..k + 1] <= c))
    && forall c :: IsChar(c) ==> !(c <= s)
  }

  /** Decoding keeps well-formed text up to the first ill-formed bytes, puts one replacement
   *  character for those, and goes on behind them. */
  lemma {:induction false} LossyReplaces(a: Bytes, b: Bytes, k: nat)
    requires WellFormed(a) && IllFormedFront(b, k)
    ensures Lossy(a + b) == a + REPLACEMENT + Lossy(b[k..])
    decreases |a|
  {
    assert k <= |b|;
    hide Lossy, WellFormed, CharLength, IllFormedFront;
    if a == [] {
      assert a + b == b && a + REPLACEMENT == REPLACEMENT;
      LossyOfFront(b, k);
    } else {
      var n := LossyOfChar(a, b);
      LossyReplaces(a[n..], b, k);
      Reassociate(a[..n], a[n..], REPLACEMENT, Lossy(b[k..]));
      assert a == a[..n] + a[n..];
    }
  }

  lemma Reassociate(a: Bytes, b: Bytes, c: Bytes, d: Bytes)
    ensures a + (b + c + d) == a + b + c + d
  {
  }

  lemma LossyOfFront(b: Bytes, k: nat)
    requires IllFormedFront(b, k)
    ensures Lossy(b) == REPLACEMENT + Lossy(b[k..])
  {
    FrontIsMatched(b, k);
    hide CharLength, Matched, IllFormedFront;
  }

  lemma LossyOfChar(a: Bytes, b: Bytes) returns (n: nat)
    requires a != [] && WellFormed(a)
    ensures 1 <= n <= |a| && WellFormed(a[n..]) && Lossy(a + b) == a[..n] + Lossy(a[n..] + b)
  {
    n := CharLength(a);
    CharLengthOfConcat(a, b);
    hide CharLength;
    assert (a + b)[..n] == a[..n] && (a + b)[n..] == a[n..] + b;
  }

  lemma FrontIsMatched(s: Bytes, k: nat)
    requires IllFormedFront(s, k)
    ensures CharLength(s) == 0 && k == if Matched(s) == 0 then 1 else Matched(s)
  {
    if CharLength(s) > 0 {
      CharInFront(s);
    }
    MatchedExactly(s, k);
    if k < |s| {
      MatchedExactly(s, k + 1);
    }
  }

  lemma CharInFront(s: Bytes)
    requires s != [] && CharLength(s) > 0
    ensures IsChar(s[..CharLength(s)]) && s[..CharLength(s)] <= s
  {
  }

  /** A suffix of well-formed text is cut inside one character at most: dropping at most three
   *  continuation bytes leaves well-formed text. */
  lemma {:induction false} SuffixOfWellFormed(s: Bytes, cut: nat)
    requires WellFormed(s) && cut <= |s|
    ensures WellFormed(DropContinuations(s[cut..]))
    ensures |DropContinuations(s[cut..])| >= |s| - cut - 3
    decreases |s|
  {
    if s != [] {
      var n := CharLength(s);
      if cut == 0 {
        CharBytes(s, 0);
        assert s[0..] == s;
      } else if cut >= n {
        assert s[cut..] == s[n..][cut - n..];
        SuffixOfWellFormed(s[n..], cut - n);
      } else {
        DropRestOfChar(s, cut);
        assert s[n..] == s[n..][0..];
        SuffixOfWellFormed(s[n..], 0);
        NoLeadingContinuation(s[n..]);
      }
    }
  }

  lemma NoLeadingContinuation(s: Bytes)
    requires WellFormed(s)
    ensures DropContinuations(s) == s
  {
    if s != [] { CharBytes(s, 0); }
  }

  lemma {:induction false} DropRestOfChar(s: Bytes, cut: nat)
    requires WellFormed(s) && s != [] && 0 < cut <= CharLength(s)
    ensures DropContinuations(s[cut..]) == s[CharLength(s)..]
    decreases CharLength(s) - cut
  {
    var n := CharLength(s);
    if cut == n {
      NoLeadingContinuation(s[n..]);
    } else {
      CharBytes(s, cut);
      assert s[cut..][1..] == s[cut + 1..];
      DropRestOfChar(s, cut + 1);
    }
  }
}

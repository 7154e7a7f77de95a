/** The URL-safe base64 encoder for bearer tokens (src-tauri/src/mcp/auth.rs), against the
 *  decoder of section 5 of RFC 4648 without padding.
 */
module Base64Url {
  import opened Wrappers

  type Bytes = seq<bv8>

  function Alphabet(): string {
    "ABCDEFGHIJKLMNOPQRSTUVWXYZabcdefghijklmnopqrstuvwxyz0123456789-_"
  }

  /** The character for the six low bits of `n`. */
  function Sextet(n: bv32): char {
    Alphabet()[(n & 0x3F) as int]
  }

  function Pack1(a: bv8): bv32 { (a as bv32) << 16 }
  function Pack2(a: bv8, b: bv8): bv32 { ((a as bv32) << 16) | ((b as bv32) << 8) }
  function Pack3(a: bv8, b: bv8, c: bv8): bv32 { ((a as bv32) << 16) | ((b as bv32) << 8) | (c as bv32) }

  function Two(n: bv32): string { [Sextet(n >> 18), Sextet(n >> 12)] }
  function Three(n: bv32): string { [Sextet(n >> 18), Sextet(n >> 12), Sextet(n >> 6)] }
  function Four(n: bv32): string { [Sextet(n >> 18), Sextet(n >> 12), Sextet(n >> 6), Sextet(n)] }

  /** Groups of three bytes become four characters; one or two bytes left over become two or three. */
  function Encoding(input: Bytes): string {
    if input == [] then ""
    else if |input| == 1 then Two(Pack1(input[0]))
    else if |input| == 2 then Three(Pack2(input[0], input[1]))
    else Four(Pack3(input[0], input[1], input[2])) + Encoding(input[3..])
  }

  method Encode(input: Bytes) returns (out: string)
    ensures out == Encoding(input)
  {
    hide *;
    out := "";
    var i := 0;
    assert input[0..] == input && "" + Encoding(input) == Encoding(input);
    while i + 3 <= |input|
      invariant i <= |input|
      invariant out + Encoding(input[i..]) == Encoding(input)
    {
      ghost var before := out;
      out := PushFour(out, Pack3(input[i], input[i + 1], input[i + 2]));
      EncodingOfGroup(input, i);
      Associative(before, Four(Pack3(input[i], input[i + 1], input[i + 2])), Encoding(input[i + 3..]));
      i := i + 3;
    }
    EncodingOfRest(input[i..]);
    var rem := |input| - i;
    if rem == 1 {
      out := PushTwo(out, Pack1(input[i]));
    } else if rem == 2 {
      out := PushThree(out, Pack2(input[i], input[i + 1]));
    }
  }

  method PushTwo(text: string, n: bv32) returns (out: string)
    ensures out == text + Two(n)
  {
    var c0, c1 := Sextet(n >> 18), Sextet(n >> 12);
    assert Two(n) == [c0, c1];
    hide *;
    out := text + [c0];
    out := out + [c1];
  }

  method PushThree(text: string, n: bv32) returns (out: string)
    ensures out == text + Three(n)
  {
    var c0, c1, c2 := Sextet(n >> 18), Sextet(n >> 12), Sextet(n >> 6);
    assert Three(n) == [c0, c1, c2];
    hide *;
    out := text + [c0];
    out := out + [c1];
    out := out + [c2];
  }

  method PushFour(text: string, n: bv32) returns (out: string)
    ensures out == text + Four(n)
  {
    var c0, c1, c2, c3 := Sextet(n >> 18), Sextet(n >> 12), Sextet(n >> 6), Sextet(n);
    assert Four(n) == [c0, c1, c2, c3];
    hide *;
    out := text + [c0];
    out := out + [c1];
    out := out + [c2];
    out := out + [c3];
  }

  lemma Associative(a: string, b: string, c: string)
    ensures (a + b) + c == a + (b + c)
  {
  }

  lemma EncodingOfGroup(input: Bytes, i: nat)
    requires i + 3 <= |input|
    ensures Encoding(input[i..]) == Four(Pack3(input[i], input[i + 1], input[i + 2])) + Encoding(input[i + 3..])
  {
    hide Four, Pack3;
    assert input[i..][3..] == input[i + 3..];
  }

  lemma EncodingOfRest(rest: Bytes)
    requires |rest| < 3
    ensures rest == [] ==> Encoding(rest) == ""
    ensures |rest| == 1 ==> Encoding(rest) == Two(Pack1(rest[0]))
    ensures |rest| == 2 ==> Encoding(rest) == Three(Pack2(rest[0], rest[1]))
  {
    hide Two, Three, Pack1, Pack2;
  }

  // ---------------------------------------------------------------------------
  // The decoder.
  // ---------------------------------------------------------------------------

  /** Table 2 of RFC 4648. */
  function ValueOf(c: char): Option<int> {
    if 'A' <= c <= 'Z' then Some(c as int - 'A' as int)
    else if 'a' <= c <= 'z' then Some(c as int - 'a' as int + 26)
    else if '0' <= c <= '9' then Some(c as int - '0' as int + 52)
    else if c == '-' then Some(62)
    else if c == '_' then Some(63)
    else None
  }

  predicate InAlphabet(text: string) {
    forall i :: 0 <= i < |text| ==> ValueOf(text[i]).Some?
  }

  function Value(c: char): bv32
    requires ValueOf(c).Some?
  {
    ValueOf(c).value as bv32
  }

  function Values(text: string): (values: seq<bv32>)
    requires InAlphabet(text)
    ensures |values| == |text| && forall i :: 0 <= i < |text| ==> values[i] == Value(text[i])
  {
    seq(|text|, i requires 0 <= i < |text| => Value(text[i]))
  }

  function Join(a: bv32, b: bv32, c: bv32, d: bv32): bv32 {
    (a << 18) | (b << 12) | (c << 6) | d
  }

  function ByteAt(n: bv32, shift: nat): bv8
    requires shift <= 16
  {
    ((n >> shift) & 0xFF) as bv8
  }

  /** Four values give three bytes; the last two or three give one or two, and the bits left
   *  over must be zero. */
  function Unpack(values: seq<bv32>): Option<Bytes> {
    if values == [] then Some([])
    else if |values| == 1 then None
    else if |values| == 2 then
      var n := Join(values[0], values[1], 0, 0);
      if n & 0xFFFF == 0 then Some([ByteAt(n, 16)]) else None
    else if |values| == 3 then
      var n := Join(values[0], values[1], values[2], 0);
      if n & 0xFF == 0 then Some([ByteAt(n, 16), ByteAt(n, 8)]) else None
    else
      var n := Join(values[0], values[1], values[2], values[3]);
      match Unpack(values[4..])
      case Some(rest) => Some([ByteAt(n, 16), ByteAt(n, 8), ByteAt(n, 0)] + rest)
      case None => None
  }

  function Decode(text: string): Option<Bytes> {
    if InAlphabet(text) then Unpack(Values(text)) else None
  }

  // ---------------------------------------------------------------------------
  // Proofs.
  // ---------------------------------------------------------------------------

  lemma AlphabetParts()
    ensures Alphabet() == "ABCDEFGHIJKLMNOPQRSTUVWXYZ" + "abcdefghijklmnopqrstuvwxyz" + "0123456789" + "-_"
  {
  }

  lemma UpperAt(k: nat)
    requires k < 26
    ensures "ABCDEFGHIJKLMNOPQRSTUVWXYZ"[k] as int == 'A' as int + k
  {
  }

  lemma LowerAt(k: nat)
    requires k < 26
    ensures "abcdefghijklmnopqrstuvwxyz"[k] as int == 'a' as int + k
  {
  }

  lemma DigitAt(k: nat)
    requires k < 10
    ensures "0123456789"[k] as int == '0' as int + k
  {
  }

  /** The encoder's table and the RFC's agree. */
  lemma TableAgrees(k: nat)
    requires k < 64
    ensures ValueOf(Alphabet()[k]) == Some(k)
  {
    AlphabetParts();
    if k < 26 { UpperAt(k); }
    else if k < 52 { LowerAt(k - 26); }
    else if k < 62 { DigitAt(k - 52); }
  }

  lemma SextetRoundTrip(n: bv32)
    ensures ValueOf(Sextet(n)).Some? && Value(Sextet(n)) == n & 0x3F
  {
    hide ValueOf, Alphabet;
    IndexBound(n);
    IndexRoundTrip(n & 0x3F);
    TableAgrees((n & 0x3F) as int);
  }

  lemma IndexRoundTrip(x: bv32)
    ensures (x as int) as bv32 == x
  {
  }

  lemma IndexBound(n: bv32)
    ensures (n & 0x3F) as int < 64
  {
  }

  lemma Rejoin(n: bv32)
    requires n <= 0xFF_FFFF
    ensures Join((n >> 18) & 0x3F, (n >> 12) & 0x3F, (n >> 6) & 0x3F, n & 0x3F) == n
  {
  }

  lemma FourCorrect(n: bv32)
    requires n <= 0xFF_FFFF
    ensures InAlphabet(Four(n))
    ensures Join(Value(Four(n)[0]), Value(Four(n)[1]), Value(Four(n)[2]), Value(Four(n)[3])) == n
  {
    hide Sextet, Join, Value, ValueOf;
    Rejoin(n);
    SextetRoundTrip(n >> 18);
    SextetRoundTrip(n >> 12);
    SextetRoundTrip(n >> 6);
    SextetRoundTrip(n);
  }

  lemma ThreeCorrect(n: bv32)
    requires n <= 0xFF_FFFF && n & 0x3F == 0
    ensures InAlphabet(Three(n))
    ensures Join(Value(Three(n)[0]), Value(Three(n)[1]), Value(Three(n)[2]), 0) == n
  {
    FourCorrect(n);
    hide Sextet, Join, Value, ValueOf;
    SextetRoundTrip(n);
    assert Three(n) == Four(n)[..3];
  }

  lemma TwoCorrect(n: bv32)
    requires n <= 0xFF_FFFF && n & 0x3F == 0 && (n >> 6) & 0x3F == 0
    ensures InAlphabet(Two(n))
    ensures Join(Value(Two(n)[0]), Value(Two(n)[1]), 0, 0) == n
  {
    ThreeCorrect(n);
    hide Sextet, Join, Value, ValueOf;
    SextetRoundTrip(n >> 6);
    assert Two(n) == Three(n)[..2];
  }

  lemma Unpack3(a: bv8, b: bv8, c: bv8)
    ensures var n := Pack3(a, b, c);
            n <= 0xFF_FFFF && ByteAt(n, 16) == a && ByteAt(n, 8) == b && ByteAt(n, 0) == c
  {
  }

  lemma Unpack2(a: bv8, b: bv8)
    ensures var n := Pack2(a, b);
            n <= 0xFF_FFFF && n & 0xFF == 0 && n & 0x3F == 0 && ByteAt(n, 16) == a && ByteAt(n, 8) == b
  {
  }

  lemma Unpack1(a: bv8)
    ensures var n := Pack1(a);
            n <= 0xFF_FFFF && n & 0xFFFF == 0 && n & 0x3F == 0 && (n >> 6) & 0x3F == 0 && ByteAt(n, 16) == a
  {
  }

  /** Decoding undoes encoding, for every byte sequence. */
  lemma {:induction false} DecodeOfEncoding(input: Bytes)
    ensures Decode(Encoding(input)) == Some(input)
    decreases |input|
  {
    if input == [] {
      DecodeNone();
    } else {
      hide *;
      if |input| == 1 {
        DecodeOne(input);
      } else if |input| == 2 {
        DecodeTwo(input);
      } else {
        DecodeOfEncoding(input[3..]);
        DecodeThree(input);
      }
    }
  }

  lemma DecodeNone()
    ensures Decode(Encoding([])) == Some([])
  {
    assert Values("") == [];
  }

  lemma DecodeOne(input: Bytes)
    requires |input| == 1
    ensures Decode(Encoding(input)) == Some(input)
  {
    hide *;
    var n := Pack1(input[0]);
    EncodingOfRest(input);
    Unpack1(input[0]);
    TwoCorrect(n);
    GroupLengths(n);
    UnpackPair(Two(n));
    assert input == [input[0]];
  }

  lemma DecodeTwo(input: Bytes)
    requires |input| == 2
    ensures Decode(Encoding(input)) == Some(input)
  {
    hide *;
    var n := Pack2(input[0], input[1]);
    EncodingOfRest(input);
    Unpack2(input[0], input[1]);
    ThreeCorrect(n);
    GroupLengths(n);
    UnpackTriple(Three(n));
    assert input == [input[0], input[1]];
  }

  lemma DecodeThree(input: Bytes)
    requires |input| >= 3
    requires Decode(Encoding(input[3..])) == Some(input[3..])
    ensures Decode(Encoding(input)) == Some(input)
  {
    hide *;
    var n := Pack3(input[0], input[1], input[2]);
    Unpack3(input[0], input[1], input[2]);
    FourCorrect(n);
    GroupLengths(n);
    assert input[0..] == input;
    EncodingOfGroup(input, 0);
    UnpackGroup(Four(n), Encoding(input[3..]), input[3..]);
    assert [input[0], input[1], input[2]] + input[3..] == input;
  }

  lemma GroupLengths(n: bv32)
    ensures |Two(n)| == 2 && |Three(n)| == 3 && |Four(n)| == 4
  {
  }

  lemma UnpackPair(text: string)
    requires |text| == 2 && InAlphabet(text)
    requires Join(Value(text[0]), Value(text[1]), 0, 0) & 0xFFFF == 0
    ensures Decode(text) == Some([ByteAt(Join(Value(text[0]), Value(text[1]), 0, 0), 16)])
  {
    hide Join, ByteAt, Value, ValueOf;
  }

  lemma UnpackTriple(text: string)
    requires |text| == 3 && InAlphabet(text)
    requires Join(Value(text[0]), Value(text[1]), Value(text[2]), 0) & 0xFF == 0
    ensures var n := Join(Value(text[0]), Value(text[1]), Value(text[2]), 0);
            Decode(text) == Some([ByteAt(n, 16), ByteAt(n, 8)])
  {
    hide Join, ByteAt, Value, ValueOf;
  }

  lemma UnpackGroup(head: string, tail: string, rest: Bytes)
    requires |head| == 4 && InAlphabet(head) && Decode(tail) == Some(rest)
    ensures var n := Join(Value(head[0]), Value(head[1]), Value(head[2]), Value(head[3]));
            Decode(head + tail) == Some([ByteAt(n, 16), ByteAt(n, 8), ByteAt(n, 0)] + rest)
  {
    hide Join, ByteAt, Value, ValueOf;
    assert Values(head + tail)[4..] == Values(tail);
  }

  lemma EncodingInjective(a: Bytes, b: Bytes)
    requires Encoding(a) == Encoding(b)
    ensures a == b
  {
    DecodeOfEncoding(a);
    DecodeOfEncoding(b);
  }

  /** Length and alphabet of the encoding. */
  lemma {:induction false} EncodingShape(input: Bytes)
    ensures |Encoding(input)| == 4 * (|input| / 3) + (if |input| % 3 == 0 then 0 else |input| % 3 + 1)
    ensures forall i :: 0 <= i < |Encoding(input)| ==> ValueOf(Encoding(input)[i]).Some?
  {
    hide Sextet, Pack1, Pack2, Pack3, ValueOf;
    forall n: bv32 ensures ValueOf(Sextet(n)).Some? { SextetRoundTrip(n); }
    if |input| >= 3 {
      EncodingShape(input[3..]);
    }
  }
}

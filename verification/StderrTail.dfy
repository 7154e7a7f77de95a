/** The tail of a child process's stderr (src-tauri/src/backup/runner.rs). */
module StderrTail {
  import opened Utf8

  const NEWLINE: Byte := 0x0A
  const STDERR_TAIL_LIMIT: nat := 4096

  /** The last `cap` bytes. A buffer of capacity 0 never reaches its capacity again after the
   *  first byte, so it keeps everything. */
  function Window(cap: nat, stream: Bytes): Bytes {
    if cap == 0 || |stream| <= cap then stream else stream[|stream| - cap..]
  }

  /** What the buffer holds, as one expression over everything ever pushed. */
  function Tail(cap: nat, stream: Bytes): Bytes {
    DropContinuations(Window(cap, stream))
  }

  /** Every line, each ended by a newline. */
  function Stream(lines: seq<Bytes>): Bytes {
    if lines == [] then [] else Stream(lines[..|lines| - 1]) + lines[|lines| - 1] + [NEWLINE]
  }

  // ---------------------------------------------------------------------------
  // The buffer.
  // ---------------------------------------------------------------------------

  class TailBuffer {
    const cap: nat
    var buf: Bytes
    ghost var stream: Bytes

    /** Between pushes the buffer is exactly the tail of the stream. */
    ghost predicate Valid()
      reads this
    {
      buf == Tail(cap, stream)
    }

    constructor (cap: nat)
      ensures Valid() && this.cap == cap && stream == []
    {
      this.cap := cap;
      buf := [];
      stream := [];
    }

    method PushLine(line: Bytes)
      requires Valid()
      modifies this
      ensures Valid()
      ensures stream == old(stream) + line + [NEWLINE]
    {
      hide Lags, Window, IsContinuation;
      TailLags(Window(cap, stream));
      var i := 0;
      while i < |line|
        invariant i <= |line|
        invariant stream == old(stream) + line[..i]
        invariant Lags(buf, Window(cap, stream))
      {
        ByteLags(cap, buf, stream, line[i]);
        if |buf| == cap && buf != [] {
          buf := buf[1..];
        }
        buf := buf + [line[i]];
        stream := stream + [line[i]];
        assert line[..i + 1] == line[..i] + [line[i]];
        i := i + 1;
      }
      assert line[..i] == line;
      ByteLags(cap, buf, stream, NEWLINE);
      if |buf| == cap && buf != [] {
        buf := buf[1..];
      }
      buf := buf + [NEWLINE];
      stream := stream + [NEWLINE];
      LagsDropsAlike(buf, Window(cap, stream));
      while buf != [] && IsContinuation(buf[0])
        invariant stream == old(stream) + line + [NEWLINE]
        invariant DropContinuations(buf) == Tail(cap, stream)
        decreases |buf|
      {
        buf := buf[1..];
      }
    }

    method IntoString() returns (text: Bytes)
      requires Valid()
      ensures text == Lossy(Tail(cap, stream))
    {
      text := Lossy(buf);
    }
  }

  /** The line loop of `process_stderr_stream`: the text of the final event. */
  method ProcessStderrStream(lines: seq<Bytes>) returns (text: Bytes)
    ensures text == Lossy(Tail(STDERR_TAIL_LIMIT, Stream(lines)))
  {
    var tail := new TailBuffer(STDERR_TAIL_LIMIT);
    for i := 0 to |lines|
      invariant tail.Valid() && tail.cap == STDERR_TAIL_LIMIT && fresh(tail)
      invariant tail.stream == Stream(lines[..i])
    {
      tail.PushLine(lines[i]);
      assert lines[..i + 1][..i] == lines[..i];
    }
    assert lines[..|lines|] == lines;
    text := tail.IntoString();
  }

  // ---------------------------------------------------------------------------
  // While a line is being pushed the buffer may lack continuation bytes that an
  // earlier trim removed, and nothing else.
  // ---------------------------------------------------------------------------

  ghost predicate Lags(buf: Bytes, window: Bytes) {
    && |buf| <= |window|
    && window[|window| - |buf|..] == buf
    && forall i :: 0 <= i < |window| - |buf| ==> IsContinuation(window[i])
  }

  lemma {:induction false} TailLags(window: Bytes)
    ensures Lags(DropContinuations(window), window)
  {
    if window != [] && IsContinuation(window[0]) {
      TailLags(window[1..]);
    }
  }

  lemma {:induction false} LagsDropsAlike(buf: Bytes, window: Bytes)
    requires Lags(buf, window)
    ensures DropContinuations(buf) == DropContinuations(window)
    decreases |window|
  {
    if |buf| < |window| {
      assert IsContinuation(window[0]);
      assert window[1..][|window| - 1 - |buf|..] == buf;
      LagsDropsAlike(buf, window[1..]);
    }
  }

  lemma LagsAppend(buf: Bytes, window: Bytes, b: Byte)
    requires Lags(buf, window)
    ensures Lags(buf + [b], window + [b])
  {
    assert (window + [b])[|window| - |buf|..] == window[|window| - |buf|..] + [b];
  }

  lemma LagsEvict(buf: Bytes, window: Bytes)
    requires Lags(buf, window) && window != []
    ensures Lags(if |buf| == |window| then buf[1..] else buf, window[1..])
  {
  }

  lemma WindowSlides(cap: nat, stream: Bytes, b: Byte)
    ensures var window := Window(cap, stream);
            Window(cap, stream + [b]) == (if cap == 0 || |stream| < cap then window else window[1..]) + [b]
  {
  }

  /** Evicting at capacity and appending moves the buffer and the window in step. */
  lemma ByteLags(cap: nat, buf: Bytes, stream: Bytes, b: Byte)
    requires Lags(buf, Window(cap, stream))
    ensures Lags((if |buf| == cap && buf != [] then buf[1..] else buf) + [b], Window(cap, stream + [b]))
  {
    var window := Window(cap, stream);
    WindowSlides(cap, stream, b);
    if cap == 0 || |stream| < cap {
      LagsAppend(buf, window, b);
    } else {
      LagsEvict(buf, window);
      hide Lags;
      LagsAppend(if |buf| == cap then buf[1..] else buf, window[1..], b);
    }
  }

  // ---------------------------------------------------------------------------
  // Well-formed lines.
  // ---------------------------------------------------------------------------

  lemma {:induction false} StreamWellFormed(lines: seq<Bytes>)
    requires forall i :: 0 <= i < |lines| ==> WellFormed(lines[i])
    ensures WellFormed(Stream(lines))
  {
    if lines != [] {
      var init, last := lines[..|lines| - 1], lines[|lines| - 1];
      StreamWellFormed(init);
      WellFormedConcat(Stream(init), last);
      assert WellFormed([NEWLINE]) by { assert CharLength([NEWLINE]) == 1; }
      WellFormedConcat(Stream(init) + last, [NEWLINE]);
    }
  }

  /** No character is ever cut: the tail of well-formed lines is well-formed, the lossy decode
   *  is the identity on it, and at most three bytes of the window are given up. */
  lemma TailOfWellFormedLines(cap: nat, lines: seq<Bytes>)
    requires cap > 0
    requires forall i :: 0 <= i < |lines| ==> WellFormed(lines[i])
    ensures var tail := Tail(cap, Stream(lines));
            && WellFormed(tail)
            && Lossy(tail) == tail
            && |tail| <= cap
            && |tail| >= (if |Stream(lines)| < cap then |Stream(lines)| else cap) - 3
  {
    var stream := Stream(lines);
    StreamWellFormed(lines);
    var cut := if |stream| <= cap then 0 else |stream| - cap;
    assert stream[cut..] == Window(cap, stream);
    SuffixOfWellFormed(stream, cut);
    LossyExact(Tail(cap, stream));
    TailLags(Window(cap, stream));
  }

  /** Bytes that are not well-formed keep the same one-line description, and the decoded text
   *  is well-formed all the same. */
  lemma TailOfAnyStream(cap: nat, stream: Bytes)
    ensures WellFormed(Lossy(Tail(cap, stream)))
    ensures cap > 0 ==> |Tail(cap, stream)| <= cap
  {
    LossyExact(Tail(cap, stream));
    TailLags(Window(cap, stream));
  }
}

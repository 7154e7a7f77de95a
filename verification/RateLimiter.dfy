/** The sliding-window rate limiter of the MCP server (src-tauri/src/mcp/auth.rs).
 *
 *  Instants are integers (nanoseconds since the clock's origin). The limiter keeps a pruned
 *  deque; its specification speaks of everything it ever accepted.
 */
module RateLimiting {
  import opened Windows

  const RATE_LIMIT_PER_SEC: nat := 10
  const RATE_WINDOW: int := 1_000_000_000

  /** The decision taken with the full history at hand. Before one window has elapsed since the
   *  clock's origin the cutoff cannot be computed and every request passes. */
  predicate Admits(accepted: seq<int>, now: int) {
    now < RATE_WINDOW || CountIn(accepted, now - RATE_WINDOW, now) < RATE_LIMIT_PER_SEC
  }

  function Record(accepted: seq<int>, now: int): seq<int> {
    if Admits(accepted, now) then accepted + [now] else accepted
  }

  /** What every history a limiter can have looks like. */
  ghost predicate History(accepted: seq<int>, clock: int) {
    && Sorted(accepted)
    && (forall i :: 0 <= i < |accepted| ==> accepted[i] <= clock)
    && Spaced(accepted, RATE_LIMIT_PER_SEC, RATE_WINDOW, RATE_WINDOW)
  }

  class RateLimiter {
    var hits: seq<int>
    ghost var accepted: seq<int>
    ghost var pruned: nat
    ghost var clock: int
    ghost const token: string

    ghost predicate Valid()
      reads this
    {
      && History(accepted, clock)
      && pruned <= |accepted|
      && hits == accepted[pruned..]
      && (forall i :: 0 <= i < pruned ==> accepted[i] < clock - RATE_WINDOW)
      && (accepted == [] || accepted[0] >= RATE_WINDOW ==> |hits| <= RATE_LIMIT_PER_SEC)
    }

    constructor (ghost clock: int, ghost token: string)
      ensures Valid() && accepted == [] && this.clock == clock && this.token == token
    {
      this.token := token;
      hits := [];
      accepted, pruned, this.clock := [], 0, clock;
    }

    /** The pruning loop. */
    method Prune(cutoff: int)
      requires Valid() && cutoff == clock - RATE_WINDOW
      modifies `hits, `pruned
      ensures Valid()
      ensures hits == [] || hits[0] >= cutoff
    {
      hide History;
      while hits != [] && hits[0] < cutoff
        invariant Valid()
        decreases |hits|
      {
        hits := hits[1..];
        pruned := pruned + 1;
      }
    }

    /** `hits.push_back(now)` */
    method Accept(now: int)
      requires pruned <= |accepted| && hits == accepted[pruned..]
      modifies `hits, `accepted
      ensures hits == old(hits) + [now] && accepted == old(accepted) + [now]
      ensures hits == accepted[pruned..]
    {
      hits := hits + [now];
      accepted := accepted + [now];
    }

    /** The pruned deque decides as the full history would. */
    method CheckAndRecord(now: int) returns (ok: bool)
      requires Valid() && clock <= now
      modifies this
      ensures Valid() && clock == now
      ensures ok == Admits(old(accepted), now)
      ensures accepted == Record(old(accepted), now)
    {
      RecordKeepsHistory(accepted, clock, now);
      LaterClock(accepted, clock, now);
      hide History, CountIn;
      clock := now;
      if now < RATE_WINDOW {
        FirstIsEarliest(accepted, now);
        Accept(now);
        return true;
      }
      Prune(now - RATE_WINDOW);
      PrunedCount(accepted, pruned, now);
      if |hits| >= RATE_LIMIT_PER_SEC {
        return false;
      }
      Accept(now);
      return true;
    }
  }

  lemma LaterClock(accepted: seq<int>, clock: int, now: int)
    requires History(accepted, clock) && clock <= now
    ensures History(accepted, now)
  {
  }

  lemma FirstIsEarliest(accepted: seq<int>, now: int)
    requires History(accepted, now)
    ensures accepted != [] ==> accepted[0] <= now
  {
  }

  /** Once the deque's front is recent enough, its length is the count over the full history. */
  lemma PrunedCount(accepted: seq<int>, pruned: nat, now: int)
    requires History(accepted, now) && pruned <= |accepted|
    requires forall i :: 0 <= i < pruned ==> accepted[i] < now - RATE_WINDOW
    requires pruned < |accepted| ==> accepted[pruned] >= now - RATE_WINDOW
    ensures CountIn(accepted, now - RATE_WINDOW, now) == |accepted| - pruned
  {
    CountInSuffix(accepted, pruned, now - RATE_WINDOW, now);
    CountInAll(accepted[pruned..], now - RATE_WINDOW, now);
  }

  /** An admitted request comes more than a window after the tenth-last accepted one. */
  lemma AdmittedAfterGap(accepted: seq<int>, now: int)
    requires History(accepted, now) && now >= RATE_WINDOW
    requires Admits(accepted, now) && |accepted| >= RATE_LIMIT_PER_SEC
    ensures now - accepted[|accepted| - RATE_LIMIT_PER_SEC] > RATE_WINDOW
  {
    var i := |accepted| - RATE_LIMIT_PER_SEC;
    assert accepted[..i] + accepted[i..] == accepted;
    if accepted[i] >= now - RATE_WINDOW {
      CountInAll(accepted[i..], now - RATE_WINDOW, now);
      CountOfConcat(accepted[..i], accepted[i..], now - RATE_WINDOW, now);
    }
  }

  /** With a clock that does not run backwards, deciding and recording keeps the spacing. */
  lemma RecordKeepsHistory(accepted: seq<int>, clock: int, now: int)
    requires History(accepted, clock) && clock <= now
    ensures History(Record(accepted, now), now)
  {
    if Admits(accepted, now) && now >= RATE_WINDOW && |accepted| >= RATE_LIMIT_PER_SEC {
      AdmittedAfterGap(accepted, now);
    }
    hide Admits;
    assert History(accepted, now);
  }

  /** The history after `n` requests at one instant. */
  function Burst(accepted: seq<int>, now: int, n: nat): seq<int> {
    if n == 0 then accepted else Record(Burst(accepted, now, n - 1), now)
  }

  lemma CountAfterQuiet(accepted: seq<int>, now: int, m: nat)
    requires forall i :: 0 <= i < |accepted| ==> accepted[i] < now - RATE_WINDOW
    ensures CountIn(accepted + seq(m, _ => now), now - RATE_WINDOW, now) == m
  {
    var all := accepted + seq(m, _ => now);
    CountInSuffix(all, |accepted|, now - RATE_WINDOW, now);
    assert all[|accepted|..] == seq(m, _ => now);
    CountInAll(seq(m, _ => now), now - RATE_WINDOW, now);
  }

  /** A token that was quiet for more than a second gets exactly ten requests through at once. */
  lemma {:induction false} TenAtOnce(accepted: seq<int>, now: int, n: nat)
    requires now >= RATE_WINDOW && forall i :: 0 <= i < |accepted| ==> accepted[i] < now - RATE_WINDOW
    ensures Burst(accepted, now, n) == accepted + seq(if n < RATE_LIMIT_PER_SEC then n else RATE_LIMIT_PER_SEC, _ => now)
  {
    hide CountIn;
    if n > 0 {
      TenAtOnce(accepted, now, n - 1);
      var m := if n - 1 < RATE_LIMIT_PER_SEC then n - 1 else RATE_LIMIT_PER_SEC;
      CountAfterQuiet(accepted, now, m);
      assert accepted + seq(m, _ => now) + [now] == accepted + seq(m + 1, _ => now);
    }
  }

  /** In the clock's first second nothing is refused. */
  lemma {:induction false} FirstSecondIsFree(accepted: seq<int>, now: int, n: nat)
    requires now < RATE_WINDOW
    ensures Burst(accepted, now, n) == accepted + seq(n, _ => now)
  {
    hide CountIn;
    if n > 0 {
      FirstSecondIsFree(accepted, now, n - 1);
      assert accepted + seq(n - 1, _ => now) + [now] == accepted + seq(n, _ => now);
    }
  }

  lemma {:induction false} CountOfConcat(a: seq<int>, b: seq<int>, lo: int, hi: int)
    ensures CountIn(a + b, lo, hi) == CountIn(a, lo, hi) + CountIn(b, lo, hi)
  {
    if b == [] {
      assert a + b == a;
    } else {
      var m := |b| - 1;
      assert (a + b)[..|a| + m] == a + b[..m];
      CountOfConcat(a, b[..m], lo, hi);
    }
  }

  /** No closed one-second interval past the first window holds more than ten accepted requests. */
  lemma AtMostTenPerSecond(accepted: seq<int>, clock: int, lo: int)
    requires History(accepted, clock) && lo >= RATE_WINDOW
    ensures CountIn(accepted, lo, lo + RATE_WINDOW) <= RATE_LIMIT_PER_SEC
  {
    SpacedBoundsCount(accepted, RATE_LIMIT_PER_SEC, RATE_WINDOW, RATE_WINDOW, lo, lo + RATE_WINDOW);
  }

  // ---------------------------------------------------------------------------
  // One limiter for each token.
  // ---------------------------------------------------------------------------

  class AuthState {
    var limiters: map<string, RateLimiter>
    /** Everything ever accepted, for each token seen. */
    ghost var histories: map<string, seq<int>>
    ghost var clock: int

    ghost var Repr: set<RateLimiter>

    ghost predicate Valid()
      reads this, Repr
    {
      && limiters.Keys == histories.Keys
      && (forall token :: token in limiters ==> limiters[token] in Repr && limiters[token].token == token)
      && (forall token :: token in limiters ==> Keeps(limiters[token], histories[token], clock))
    }

    static ghost predicate Keeps(limiter: RateLimiter, accepted: seq<int>, clock: int)
      reads limiter
    {
      limiter.Valid() && limiter.clock <= clock && limiter.accepted == accepted
    }

    static lemma KeepsLater(limiter: RateLimiter, accepted: seq<int>, clock: int, now: int)
      requires Keeps(limiter, accepted, clock) && clock <= now
      ensures Keeps(limiter, accepted, now)
    {
    }

    constructor (ghost clock: int)
      ensures Valid() && Repr == {} && limiters == map[] && histories == map[] && this.clock == clock
    {
      limiters, histories, Repr := map[], map[], {};
      this.clock := clock;
    }

    /** `entry(token).or_default()` */
    method EntryOrDefault(token: string) returns (limiter: RateLimiter)
      requires Valid()
      modifies this
      ensures Valid() && clock == old(clock) && fresh(Repr - old(Repr))
      ensures token in limiters && limiter == limiters[token]
      ensures token in old(histories) ==> histories == old(histories)
      ensures token !in old(histories) ==> histories == old(histories)[token := []]
    {
      hide RateLimiter.Valid;
      if token !in limiters {
        limiter := new RateLimiter(clock, token);
        assert Keeps(limiter, [], clock);
        hide Keeps;
        limiters := limiters[token := limiter];
        histories := histories[token := []];
        Repr := Repr + {limiter};
      } else {
        limiter := limiters[token];
      }
    }

    method CheckEntry(token: string, now: int) returns (ok: bool)
      requires Valid() && clock <= now && token in limiters
      modifies this, limiters[token]
      ensures Valid() && clock == now && Repr == old(Repr)
      ensures ok == Admits(old(histories)[token], now)
      ensures histories == old(histories)[token := Record(old(histories)[token], now)]
    {
      hide History, Admits, Record, RateLimiter.Valid;
      var limiter := limiters[token];
      ok := limiter.CheckAndRecord(now);
      forall other | other in limiters && other != token
        ensures Keeps(limiters[other], histories[other], now)
      {
        KeepsLater(limiters[other], histories[other], clock, now);
      }
      hide Keeps;
      histories := histories[token := limiter.accepted];
      clock := now;
    }

    /** Tokens do not affect each other. */
    method CheckRate(token: string, now: int) returns (ok: bool)
      requires Valid() && clock <= now
      modifies this, Repr
      ensures Valid() && clock == now && fresh(Repr - old(Repr))
      ensures ok == Admits(AcceptedIn(old(histories), token), now)
      ensures histories == old(histories)[token := Record(AcceptedIn(old(histories), token), now)]
    {
      hide Admits, Record, Keeps;
      ghost var before := histories;
      var limiter := EntryOrDefault(token);
      SecondUpdateWins(before, token, [], Record(histories[token], now));
      ok := CheckEntry(token, now);
    }
  }

  lemma SecondUpdateWins(m: map<string, seq<int>>, key: string, first: seq<int>, second: seq<int>)
    ensures m[key := first][key := second] == m[key := second]
  {
  }

  function AcceptedIn(histories: map<string, seq<int>>, token: string): seq<int> {
    if token in histories then histories[token] else []
  }
}

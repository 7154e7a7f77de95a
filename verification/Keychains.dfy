/** The keychain decorators (src-tauri/src/connection/keychain.rs).
 *
 *  A decorator's inner keychain is represented by its answers: whatever the backend says to a
 *  call is an argument of the call here, so a claim about every argument is a claim about every
 *  backend, however unreliable.
 */
module Keychains {
  import opened Wrappers

  datatype KeychainError = KeychainError(message: string)

  type Done = Result<(), KeychainError>
  type Found = Result<Option<string>, KeychainError>

  /** A call, with the backend's answer to it. */
  datatype Call =
    | Store(id: string, password: string, stored: Done)
    | Get(id: string, found: Found)
    | Delete(id: string, deleted: Done)

  /** The decorator's own answer. */
  datatype Answer = Stored(r: Done) | Got(found: Found) | Deleted(d: Done)

  // ---------------------------------------------------------------------------
  // MemoryKeychain.
  // ---------------------------------------------------------------------------

  function Lookup(entries: map<string, string>, id: string): Option<string> {
    if id in entries then Some(entries[id]) else None
  }

  class MemoryKeychain {
    var inner: map<string, string>

    constructor ()
      ensures inner == map[]
    {
      inner := map[];
    }

    method Store(id: string, password: string) returns (r: Done)
      modifies this
      ensures r == Ok(()) && inner == old(inner)[id := password]
    {
      inner := inner[id := password];
      r := Ok(());
    }

    method Get(id: string) returns (r: Found)
      ensures r == Ok(Lookup(inner, id))
    {
      r := Ok(if id in inner then Some(inner[id]) else None);
    }

    method Delete(id: string) returns (r: Done)
      modifies this
      ensures r == Ok(()) && inner == old(inner) - {id}
    {
      inner := inner - {id};
      r := Ok(());
    }
  }

  // ---------------------------------------------------------------------------
  // CachingKeychain.
  // ---------------------------------------------------------------------------

  function Cached(cache: map<string, string>, call: Call): (map<string, string>, Answer) {
    match call
    case Store(id, password, stored) =>
      if stored.Err? then (cache, Stored(stored)) else (cache[id := password], Stored(stored))
    case Get(id, found) =>
      if id in cache then (cache, Got(Ok(Some(cache[id]))))
      else if found.Ok? && found.value.Some? then (cache[id := found.value.value], Got(found))
      else (cache, Got(found))
    case Delete(id, deleted) => (cache - {id}, Deleted(deleted))
  }

  class CachingKeychain {
    var cache: map<string, string>

    constructor ()
      ensures cache == map[]
    {
      cache := map[];
    }

    method Store(id: string, password: string, stored: Done) returns (r: Done)
      modifies this
      ensures (cache, Stored(r)) == Cached(old(cache), Call.Store(id, password, stored))
    {
      if stored.Err? {
        return stored;
      }
      cache := cache[id := password];
      return stored;
    }

    /** `asked` says whether the backend was consulted at all. */
    method Get(id: string, found: Found) returns (r: Found, asked: bool)
      modifies this
      ensures (cache, Got(r)) == Cached(old(cache), Call.Get(id, found))
      ensures asked == (id !in old(cache))
    {
      if id in cache {
        return Ok(Some(cache[id])), false;
      }
      if found.Ok? && found.value.Some? {
        cache := cache[id := found.value.value];
      }
      return found, true;
    }

    method Delete(id: string, deleted: Done) returns (r: Done)
      modifies this
      ensures (cache, Deleted(r)) == Cached(old(cache), Call.Delete(id, deleted))
    {
      cache := cache - {id};
      r := deleted;
    }
  }

  /** The cache after each of a run of calls, starting empty. */
  function CacheAfter(calls: seq<Call>, n: nat): map<string, string>
    requires n <= |calls|
  {
    if n == 0 then map[] else Cached(CacheAfter(calls, n - 1), calls[n - 1]).0
  }

  function AnswerTo(calls: seq<Call>, n: nat): Answer
    requires n < |calls|
  {
    Cached(CacheAfter(calls, n), calls[n]).1
  }

  /** Call `n` made `password` known for `id`: a store that succeeded, or a get that found it. */
  predicate Learns(calls: seq<Call>, n: nat, id: string, password: string)
    requires n < |calls|
  {
    match calls[n]
    case Store(i, p, stored) => i == id && p == password && stored.Ok?
    case Get(i, _) => i == id && AnswerTo(calls, n) == Got(Ok(Some(password)))
    case Delete(_, _) => false
  }

  /** Call `n` may change what is known for `id`: a store that succeeded, or any delete. */
  predicate Resets(calls: seq<Call>, n: nat, id: string)
    requires n < |calls|
  {
    match calls[n]
    case Store(i, _, stored) => i == id && stored.Ok?
    case Get(_, _) => false
    case Delete(i, _) => i == id
  }

  lemma {:induction false} RemembersUntilReset(calls: seq<Call>, n: nat, m: nat, id: string, password: string)
    requires n < m <= |calls| && Learns(calls, n, id, password)
    requires forall k :: n < k < m ==> !Resets(calls, k, id)
    ensures id in CacheAfter(calls, m) && CacheAfter(calls, m)[id] == password
    decreases m
  {
    if n + 1 < m {
      RemembersUntilReset(calls, n, m - 1, id, password);
      assert !Resets(calls, m - 1, id);
    }
  }

  /** Over any backend: once a password is known, every get of it answers with it, whatever the
   *  backend would say, until the next successful store or any delete of that id. */
  lemma GetsAreStable(calls: seq<Call>, n: nat, m: nat, id: string, password: string)
    requires n < m < |calls| && Learns(calls, n, id, password)
    requires forall k :: n < k < m ==> !Resets(calls, k, id)
    requires calls[m].Get? && calls[m].id == id
    ensures AnswerTo(calls, m) == Got(Ok(Some(password)))
  {
    RemembersUntilReset(calls, n, m, id, password);
  }

  /** A call before `n` made `password` known for `id`, and none since has changed that. */
  ghost predicate Known(calls: seq<Call>, n: nat, id: string, password: string)
    requires n <= |calls|
  {
    exists k :: 0 <= k < n && Learns(calls, k, id, password) && forall j :: k < j < n ==> !Resets(calls, j, id)
  }

  lemma {:induction false} CacheIsKnown(calls: seq<Call>, n: nat, id: string, password: string)
    requires n <= |calls|
    ensures (id in CacheAfter(calls, n) && CacheAfter(calls, n)[id] == password) <==> Known(calls, n, id, password)
  {
    if id in CacheAfter(calls, n) && CacheAfter(calls, n)[id] == password {
      CachedIsKnown(calls, n, id, password);
    }
    if Known(calls, n, id, password) {
      var k :| 0 <= k < n && Learns(calls, k, id, password) && forall j :: k < j < n ==> !Resets(calls, j, id);
      RemembersUntilReset(calls, k, n, id, password);
    }
  }

  lemma {:induction false} CachedIsKnown(calls: seq<Call>, n: nat, id: string, password: string)
    requires n <= |calls| && id in CacheAfter(calls, n) && CacheAfter(calls, n)[id] == password
    ensures Known(calls, n, id, password)
  {
    if id in CacheAfter(calls, n - 1) && CacheAfter(calls, n - 1)[id] == password && !Resets(calls, n - 1, id) {
      CachedIsKnown(calls, n - 1, id, password);
      var k :| 0 <= k < n - 1 && Learns(calls, k, id, password) && forall j :: k < j < n - 1 ==> !Resets(calls, j, id);
      assert forall j :: k < j < n ==> !Resets(calls, j, id);
    } else {
      assert Learns(calls, n - 1, id, password);
    }
  }

  /** Over any backend, every answer of every run: stores and deletes are answered by the backend,
   *  refusals too; a get is answered with what is known, and by the backend when nothing is. */
  lemma AnswersExactly(calls: seq<Call>, n: nat)
    requires n < |calls|
    ensures match calls[n]
            case Store(_, _, stored) => AnswerTo(calls, n) == Stored(stored)
            case Delete(_, deleted) => AnswerTo(calls, n) == Deleted(deleted)
            case Get(id, found) =>
              && (forall password :: Known(calls, n, id, password) ==> AnswerTo(calls, n) == Got(Ok(Some(password))))
              && ((forall password :: !Known(calls, n, id, password)) ==> AnswerTo(calls, n) == Got(found))
  {
    hide Known, CacheAfter;
    if calls[n].Get? {
      var id, cache := calls[n].id, CacheAfter(calls, n);
      forall password ensures (id in cache && cache[id] == password) <==> Known(calls, n, id, password) {
        CacheIsKnown(calls, n, id, password);
      }
      assert id in cache ==> Known(calls, n, id, cache[id]);
    }
  }

  /** After a delete, even one that failed, the next get is answered by the backend. */
  lemma DeleteForgets(calls: seq<Call>, n: nat, m: nat)
    requires n < m < |calls| && calls[n].Delete? && calls[m].Get? && calls[m].id == calls[n].id
    requires forall k :: n < k < m ==> calls[k].id != calls[n].id
    ensures AnswerTo(calls, m) == Got(calls[m].found)
  {
    ForgottenUntilAsked(calls, n, m);
  }

  lemma {:induction false} ForgottenUntilAsked(calls: seq<Call>, n: nat, m: nat)
    requires n < m <= |calls| && calls[n].Delete?
    requires forall k :: n < k < m ==> calls[k].id != calls[n].id
    ensures calls[n].id !in CacheAfter(calls, m)
    decreases m
  {
    if n + 1 < m {
      ForgottenUntilAsked(calls, n, m - 1);
      assert calls[m - 1].id != calls[n].id;
    }
  }

  // ---------------------------------------------------------------------------
  // Over a reliable backend the cache cannot be noticed.
  // ---------------------------------------------------------------------------

  /** The backend is a map that does what it is told, whatever it holds when the decorator is
   *  built: entries that an earlier process stored among them. */
  function MapAfter(init: map<string, string>, calls: seq<Call>, n: nat): map<string, string>
    requires n <= |calls|
  {
    if n == 0 then init
    else
      var before := MapAfter(init, calls, n - 1);
      match calls[n - 1]
      case Store(id, password, _) => before[id := password]
      case Get(_, _) => before
      case Delete(id, _) => before - {id}
  }

  function MapAnswer(entries: map<string, string>, call: Call): Answer {
    match call
    case Store(_, _, _) => Stored(Ok(()))
    case Get(id, _) => Got(Ok(Lookup(entries, id)))
    case Delete(_, _) => Deleted(Ok(()))
  }

  /** Every call's backend answer is the map's. */
  predicate AnsweredByMap(init: map<string, string>, calls: seq<Call>) {
    forall n :: 0 <= n < |calls| ==> RawAnswer(calls[n]) == MapAnswer(MapAfter(init, calls, n), calls[n])
  }

  function RawAnswer(call: Call): Answer {
    match call
    case Store(_, _, stored) => Stored(stored)
    case Get(_, found) => Got(found)
    case Delete(_, deleted) => Deleted(deleted)
  }

  lemma {:induction false} CacheWithinMap(init: map<string, string>, calls: seq<Call>, n: nat)
    requires AnsweredByMap(init, calls) && n <= |calls|
    ensures forall id :: id in CacheAfter(calls, n) ==>
              id in MapAfter(init, calls, n) && MapAfter(init, calls, n)[id] == CacheAfter(calls, n)[id]
  {
    if n > 0 {
      CacheWithinMap(init, calls, n - 1);
      assert RawAnswer(calls[n - 1]) == MapAnswer(MapAfter(init, calls, n - 1), calls[n - 1]);
    }
  }

  /** Over a reliable map, whatever it held to begin with, every answer of every run is the map's
   *  own. */
  lemma CachingIsTransparent(init: map<string, string>, calls: seq<Call>, n: nat)
    requires AnsweredByMap(init, calls) && n < |calls|
    ensures AnswerTo(calls, n) == MapAnswer(MapAfter(init, calls, n), calls[n])
  {
    CacheWithinMap(init, calls, n);
    assert RawAnswer(calls[n]) == MapAnswer(MapAfter(init, calls, n), calls[n]);
  }

  // ---------------------------------------------------------------------------
  // LayeredKeychain.
  // ---------------------------------------------------------------------------

  function LayeredStore(primary: Done, secondary: Done): Done {
    if primary.Ok? || secondary.Ok? then Ok(()) else primary
  }

  function LayeredGet(primary: Found, secondary: Found): Found {
    match primary
    case Ok(Some(p)) => Ok(Some(p))
    case Ok(None) => secondary
    case Err(e) => if secondary.Ok? && secondary.value.Some? then secondary else Err(e)
  }

  /** Two maps, of which each write may fail and then changes nothing. */
  datatype Layers = Layers(primary: map<string, string>, secondary: map<string, string>)

  function Written(entries: map<string, string>, id: string, password: string, ok: Done): map<string, string> {
    if ok.Ok? then entries[id := password] else entries
  }

  function Erased(entries: map<string, string>, id: string, ok: Done): map<string, string> {
    if ok.Ok? then entries - {id} else entries
  }

  /** What a layer answers to a read that may fail. */
  function Answered(entries: map<string, string>, id: string, ok: Done): Found {
    if ok.Ok? then Ok(Lookup(entries, id)) else Err(ok.error)
  }

  /** A get, where reading either layer may fail. */
  function Read(layers: Layers, id: string, p: Done, s: Done): Found {
    LayeredGet(Answered(layers.primary, id, p), Answered(layers.secondary, id, s))
  }

  /** A store is reported as done unless both layers fail. A later get then finds the password
   *  exactly when the layer that decides has it: the primary, if it can be read and has an entry,
   *  and otherwise the secondary, if it can be read. */
  lemma LayeredReadAfterStore(layers: Layers, id: string, password: string, p: Done, s: Done, readP: Done, readS: Done)
    requires LayeredStore(p, s).Ok?
    ensures var after := Layers(Written(layers.primary, id, password, p), Written(layers.secondary, id, password, s));
            Read(after, id, readP, readS) == Ok(Some(password)) <==>
              if readP.Ok? && (p.Ok? || id in layers.primary) then p.Ok? || layers.primary[id] == password
              else readS.Ok? && (s.Ok? || (id in layers.secondary && layers.secondary[id] == password))
  {
  }

  /** A delete reports what the secondary says. Reported as done, a later get finds nothing exactly
   *  when both layers can be read, and the primary's delete worked too or there was nothing in
   *  the primary. */
  lemma LayeredReadAfterDelete(layers: Layers, id: string, p: Done, s: Done, readP: Done, readS: Done)
    requires s.Ok?
    ensures var after := Layers(Erased(layers.primary, id, p), Erased(layers.secondary, id, s));
            Read(after, id, readP, readS) == Ok(None) <==> readP.Ok? && readS.Ok? && (p.Ok? || id !in layers.primary)
  {
  }

  /** Errors: a store fails when both layers do, with the primary's error. A get fails when the
   *  secondary is asked and has no password to give, unless both simply have none; a primary that
   *  failed then has the word. */
  lemma LayeredErrors(p: Done, s: Done, primary: Found, secondary: Found)
    ensures LayeredStore(p, s).Err? <==> p.Err? && s.Err?
    ensures LayeredStore(p, s).Err? ==> LayeredStore(p, s).error == p.error
    ensures LayeredGet(primary, secondary).Err? <==>
            (primary.Err? && !(secondary.Ok? && secondary.value.Some?))
            || (primary == Ok(None) && secondary.Err?)
    ensures LayeredGet(primary, secondary).Err? ==>
              LayeredGet(primary, secondary).error == if primary.Err? then primary.error else secondary.error
  {
  }

  /** Both fail for real: a primary that holds a password and refuses writes goes on answering
   *  with it after a store and after a delete that were reported as done. */
  lemma StalePasswordIsRead(id: string, stale: string, password: string, refusal: KeychainError)
    requires stale != password
    ensures var layers, no, yes := Layers(map[id := stale], map[]), Err(refusal), Ok(());
            && LayeredStore(no, yes) == Ok(())
            && Read(Layers(Written(layers.primary, id, password, no), Written(layers.secondary, id, password, yes)),
                    id, yes, yes) == Ok(Some(stale))
            && Read(Layers(Erased(layers.primary, id, no), Erased(layers.secondary, id, yes)), id, yes, yes)
               == Ok(Some(stale))
  {
  }

  class LayeredKeychain {
    var primary: map<string, string>
    var secondary: map<string, string>

    /** Writes go to both layers, whatever the first one says. */
    method Store(id: string, password: string, p: Done, s: Done) returns (r: Done)
      modifies this
      ensures primary == Written(old(primary), id, password, p)
      ensures secondary == Written(old(secondary), id, password, s)
      ensures r == LayeredStore(p, s)
    {
      if p.Ok? { primary := primary[id := password]; }
      if s.Ok? { secondary := secondary[id := password]; }
      if p.Ok? { return Ok(()); }
      if s.Ok? { return Ok(()); }
      return p;
    }

    /** The secondary is consulted when the primary has no entry or fails. */
    method Get(id: string, p: Done, s: Done) returns (r: Found)
      ensures r == LayeredGet(Answered(primary, id, p), Answered(secondary, id, s))
    {
      r := Answered(primary, id, p);
      if r.Ok? && r.value.Some? {
        return;
      }
      var fallback := Answered(secondary, id, s);
      if r.Ok? || (fallback.Ok? && fallback.value.Some?) {
        r := fallback;
      }
    }

    method Delete(id: string, p: Done, s: Done) returns (r: Done)
      modifies this
      ensures primary == Erased(old(primary), id, p)
      ensures secondary == Erased(old(secondary), id, s)
      ensures r == s
    {
      if p.Ok? { primary := primary - {id}; }
      if s.Ok? { secondary := secondary - {id}; }
      r := s;
    }
  }
}

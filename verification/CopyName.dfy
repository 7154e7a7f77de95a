/** Naming a duplicated connection (src-tauri/src/connection/commands.rs). */
module CopyName {
  import opened Wrappers
  import opened Decimal

  const LAST_COPY: nat := 999

  /** "X copy", "X copy 2", "X copy 3" and so on. */
  function Candidate(source: string, k: nat): string
    requires k >= 1
  {
    if k == 1 then source + " copy" else source + " copy" + " " + Print(k)
  }

  /** Candidate `k` is free and every earlier one is taken. */
  ghost predicate FirstFree(existing: set<string>, source: string, k: nat) {
    1 <= k <= LAST_COPY && Candidate(source, k) !in existing
    && forall j :: 1 <= j < k ==> Candidate(source, j) in existing
  }

  /** The first free name of the sequence; refused exactly when all 999 are taken, which takes
   *  999 existing names. */
  method UniqueCopyName(existing: set<string>, source: string) returns (r: Result<string, string>)
    ensures r.Ok? ==> exists k :: FirstFree(existing, source, k) && r.value == Candidate(source, k)
    ensures r.Err? <==> forall k :: 1 <= k <= LAST_COPY ==> Candidate(source, k) in existing
    ensures r.Err? ==> r.error == source + " copy"
    ensures |existing| < LAST_COPY ==> r.Ok?
  {
    var base := source + " copy";
    if base !in existing {
      assert FirstFree(existing, source, 1);
      return Ok(base);
    }
    for n := 2 to LAST_COPY + 1
      invariant forall j :: 1 <= j < n ==> Candidate(source, j) in existing
    {
      var candidate := base + " " + Print(n);
      if candidate !in existing {
        assert candidate == Candidate(source, n);
        assert FirstFree(existing, source, n);
        return Ok(candidate);
      }
    }
    AllTaken(existing, source, LAST_COPY);
    return Err(base);
  }

  lemma CandidatesDiffer(source: string, j: nat, k: nat)
    requires 1 <= j < k
    ensures Candidate(source, j) != Candidate(source, k)
  {
    var base := source + " copy";
    var prefix := base + " ";
    if j == 1 {
      assert |Candidate(source, k)| > |base|;
    } else if Candidate(source, j) == Candidate(source, k) {
      assert Candidate(source, j)[|prefix|..] == Print(j);
      assert Candidate(source, k)[|prefix|..] == Print(k);
      PrintInjective(j, k);
    }
  }

  function FirstCandidates(source: string, n: nat): set<string> {
    if n == 0 then {} else FirstCandidates(source, n - 1) + {Candidate(source, n)}
  }

  lemma {:induction false} FirstCandidatesCount(source: string, n: nat)
    ensures |FirstCandidates(source, n)| == n
    ensures forall name :: name in FirstCandidates(source, n) ==> exists k :: 1 <= k <= n && name == Candidate(source, k)
  {
    hide Candidate;
    if n > 0 {
      FirstCandidatesCount(source, n - 1);
      if Candidate(source, n) in FirstCandidates(source, n - 1) {
        var k :| 1 <= k <= n - 1 && Candidate(source, n) == Candidate(source, k);
        CandidatesDiffer(source, k, n);
      }
    }
  }

  /** Pigeonhole: `n` taken candidates are `n` different names. */
  lemma AllTaken(existing: set<string>, source: string, n: nat)
    requires forall k :: 1 <= k <= n ==> Candidate(source, k) in existing
    ensures |existing| >= n
  {
    FirstCandidatesCount(source, n);
    assert FirstCandidates(source, n) <= existing;
    SubsetSize(FirstCandidates(source, n), existing);
  }

  lemma {:induction false} SubsetSize(a: set<string>, b: set<string>)
    requires a <= b
    ensures |a| <= |b|
  {
    if a != {} {
      var x :| x in a;
      SubsetSize(a - {x}, b - {x});
    }
  }

  /** The sequence's first free name is unique. */
  lemma FirstFreeUnique(existing: set<string>, source: string, j: nat, k: nat)
    requires FirstFree(existing, source, j) && FirstFree(existing, source, k)
    ensures j == k
  {
  }
}

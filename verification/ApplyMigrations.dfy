/** Choosing and applying migrations (src-tauri/src/migrations/commands.rs, with the ledger join
 *  of tracking.rs and the per-migration part of executor.rs).
 */
module ApplyMigrations {
  import opened Wrappers
  import opened Decimal
  import opened Discovery

  datatype Mode = Single(version: string) | Range(from: string, to: string) | AllPending

  datatype Error =
    | NotFound(version: string)
    | HasParseError(version: string, error: ParseError)
    | RangeNonContiguous(from: string, to: string)
    | Postgres(message: string)

  // ---------------------------------------------------------------------------
  // Selection.
  // ---------------------------------------------------------------------------

  predicate Clean(m: Migration) {
    m.status == Pending && m.parseError.None?
  }

  /** The pending migrations without a parse error, in order. */
  function PendingOf(ms: seq<Migration>): seq<Migration> {
    if ms == [] then []
    else if Clean(ms[0]) then [ms[0]] + PendingOf(ms[1..])
    else PendingOf(ms[1..])
  }

  function Versions(ms: seq<Migration>): (vs: seq<string>)
    ensures |vs| == |ms| && forall i :: 0 <= i < |ms| ==> vs[i] == ms[i].version
  {
    seq(|ms|, i requires 0 <= i < |ms| => ms[i].version)
  }

  function Position(vs: seq<string>, v: string): (r: Option<nat>)
    ensures r.None? <==> v !in vs
    ensures r.Some? ==> r.value < |vs| && vs[r.value] == v && v !in vs[..r.value]
  {
    if vs == [] then None
    else if vs[0] == v then Some(0)
    else match Position(vs[1..], v)
         case None => None
         case Some(i) => assert vs[..i + 1] == [vs[0]] + vs[1..][..i]; Some(i + 1)
  }

  predicate IsContiguousRange(pending: seq<string>, from: string, to: string) {
    match (Position(pending, from), Position(pending, to))
    case (Some(f), Some(t)) => f <= t
    case _ => false
  }

  /** The migrations whose version is listed. */
  function WithVersionIn(ms: seq<Migration>, vs: seq<string>): seq<Migration> {
    if ms == [] then []
    else if ms[0].version in vs then [ms[0]] + WithVersionIn(ms[1..], vs)
    else WithVersionIn(ms[1..], vs)
  }

  function SelectForApply(merged: seq<Migration>, mode: Mode): Result<seq<Migration>, Error> {
    var pending := Versions(PendingOf(merged));
    match mode
    case Single(version) =>
      (match Position(Versions(merged), version)
       case None => Err(NotFound(version))
       case Some(i) =>
         var m := merged[i];
         if m.parseError.Some? then Err(HasParseError(m.version, m.parseError.value)) else Ok([m]))
    case Range(from, to) =>
      if !IsContiguousRange(pending, from, to) then Err(RangeNonContiguous(from, to))
      else
        var f, t := Position(pending, from).value, Position(pending, to).value;
        Ok(WithVersionIn(merged, pending[f..t + 1]))
    case AllPending => Ok(WithVersionIn(merged, pending))
  }

  ghost predicate UniqueVersions(ms: seq<Migration>) {
    forall i, j :: 0 <= i < j < |ms| ==> ms[i].version != ms[j].version
  }

  lemma {:induction false} PendingIsSub(ms: seq<Migration>)
    ensures forall m :: m in PendingOf(ms) <==> m in ms && Clean(m)
    ensures UniqueVersions(ms) ==> UniqueVersions(PendingOf(ms))
  {
    if ms != [] {
      PendingIsSub(ms[1..]);
      assert ms == [ms[0]] + ms[1..];
      if UniqueVersions(ms) && Clean(ms[0]) {
        forall m | m in PendingOf(ms[1..]) ensures m.version != ms[0].version {
          var k :| 0 <= k < |ms[1..]| && ms[1..][k] == m;
          assert ms[k + 1] == m;
        }
      }
    }
  }

  /** Filtering by the versions of a slice of the pending migrations gives that very slice. */
  lemma {:induction false} SliceSelected(ms: seq<Migration>, lo: nat, hi: nat)
    requires UniqueVersions(ms) && lo <= hi <= |PendingOf(ms)|
    ensures WithVersionIn(ms, Versions(PendingOf(ms)[lo..hi])) == PendingOf(ms)[lo..hi]
  {
    if ms != [] {
      var p, rest := PendingOf(ms), ms[1..];
      var q := PendingOf(rest);
      PendingIsSub(rest);
      HeadIsNew(ms);
      if !Clean(ms[0]) {
        SliceSelected(rest, lo, hi);
        NotAmong(ms[0].version, q[lo..hi], rest);
      } else if lo == 0 && hi > 0 {
        SliceSelected(rest, 0, hi - 1);
        assert p == [ms[0]] + q;
        FirstSelected(ms, q[0..hi - 1]);
        assert p[lo..hi] == [ms[0]] + q[0..hi - 1];
      } else if hi > 0 {
        SliceSelected(rest, lo - 1, hi - 1);
        NotAmong(ms[0].version, q[lo - 1..hi - 1], rest);
        assert p == [ms[0]] + q;
        assert p[lo..hi] == q[lo - 1..hi - 1];
      } else {
        SliceSelected(rest, 0, 0);
        assert p[lo..hi] == q[0..0] == [];
      }
    }
  }

  lemma VersionsCons(m: Migration, ms: seq<Migration>)
    ensures Versions([m] + ms) == [m.version] + Versions(ms)
  {
  }

  /** The first migration is selected along with what its successors select. */
  lemma FirstSelected(ms: seq<Migration>, slice: seq<Migration>)
    requires UniqueVersions(ms) && ms != [] && WithVersionIn(ms[1..], Versions(slice)) == slice
    ensures WithVersionIn(ms, Versions([ms[0]] + slice)) == [ms[0]] + slice
  {
    HeadIsNew(ms);
    VersionsCons(ms[0], slice);
    hide Versions, UniqueVersions;
    var vs := [ms[0].version] + Versions(slice);
    SameWithin(ms[1..], vs, Versions(slice), ms[0].version);
    assert vs[0] == ms[0].version;
  }

  lemma HeadIsNew(ms: seq<Migration>)
    requires UniqueVersions(ms) && ms != []
    ensures UniqueVersions(ms[1..])
    ensures forall m :: m in ms[1..] ==> m.version != ms[0].version
  {
    forall m | m in ms[1..] ensures m.version != ms[0].version {
      var k :| 0 <= k < |ms[1..]| && ms[1..][k] == m;
      assert ms[k + 1] == m;
    }
  }

  lemma NotAmong(version: string, slice: seq<Migration>, ms: seq<Migration>)
    requires forall m :: m in ms ==> m.version != version
    requires forall m :: m in slice ==> m in ms
    ensures version !in Versions(slice)
  {
  }

  /** A listed version that no migration has makes no difference. */
  lemma {:induction false} SameWithin(ms: seq<Migration>, vs: seq<string>, ws: seq<string>, extra: string)
    requires vs == [extra] + ws && forall m :: m in ms ==> m.version != extra
    ensures WithVersionIn(ms, vs) == WithVersionIn(ms, ws)
  {
    if ms != [] {
      assert ms[0] in ms;
      assert forall m :: m in ms[1..] ==> m in ms;
      SameWithin(ms[1..], vs, ws, extra);
    }
  }

  /** AllPending selects exactly the clean pending migrations, in order. */
  lemma AllPendingSelected(merged: seq<Migration>)
    requires UniqueVersions(merged)
    ensures SelectForApply(merged, AllPending) == Ok(PendingOf(merged))
  {
    var p := PendingOf(merged);
    assert p[0..|p|] == p;
    SliceSelected(merged, 0, |p|);
  }

  /** Single selects exactly the migration of that version, whatever its status, unless it has a
   *  parse error. */
  lemma SingleSelected(merged: seq<Migration>, version: string, m: Migration)
    requires UniqueVersions(merged)
    ensures SelectForApply(merged, Single(version)) == Ok([m]) <==>
            m in merged && m.version == version && m.parseError.None?
    ensures SelectForApply(merged, Single(version)) == Err(NotFound(version)) <==>
            forall x :: x in merged ==> x.version != version
  {
    PositionIs(merged, version);
    var vs := Versions(merged);
    hide PendingOf, UniqueVersions;
    if version in vs {
      var i := Position(vs, version).value;
      assert merged[i] in merged && merged[i].version == version;
    } else {
      assert forall i :: 0 <= i < |merged| ==> vs[i] == merged[i].version;
    }
  }

  /** `p[f..=t]` is the slice that runs from version `from` to version `to`. */
  predicate IsSlice(p: seq<Migration>, from: string, to: string, f: int, t: int) {
    0 <= f <= t < |p| && p[f].version == from && p[t].version == to
  }

  lemma PositionIs(p: seq<Migration>, v: string)
    requires UniqueVersions(p)
    ensures forall i :: 0 <= i < |p| && p[i].version == v ==> Position(Versions(p), v) == Some(i)
  {
    forall i | 0 <= i < |p| && p[i].version == v ensures Position(Versions(p), v) == Some(i) {
      assert Versions(p)[i] == v;
    }
  }

  /** Range selects exactly the contiguous slice between its ends, and is refused exactly when
   *  there is none. */
  lemma RangeSelected(merged: seq<Migration>, from: string, to: string)
    requires UniqueVersions(merged)
    ensures var p := PendingOf(merged);
            match SelectForApply(merged, Range(from, to))
            case Ok(selected) => exists f, t :: IsSlice(p, from, to, f, t) && selected == p[f..t + 1]
            case Err(e) => e == RangeNonContiguous(from, to) && forall f, t :: !IsSlice(p, from, to, f, t)
  {
    var p := PendingOf(merged);
    PendingIsSub(merged);
    PositionIs(p, from);
    PositionIs(p, to);
    hide Position, WithVersionIn, PendingOf, UniqueVersions, Clean;
    var vs := Versions(p);
    if IsContiguousRange(vs, from, to) {
      var f, t := Position(vs, from).value, Position(vs, to).value;
      SliceSelected(merged, f, t + 1);
      VersionsOfSlice(p, f, t + 1);
      assert IsSlice(p, from, to, f, t);
    }
  }

  lemma VersionsOfSlice(p: seq<Migration>, lo: nat, hi: nat)
    requires lo <= hi <= |p|
    ensures Versions(p)[lo..hi] == Versions(p[lo..hi])
  {
  }

  // ---------------------------------------------------------------------------
  // The ledger.
  // ---------------------------------------------------------------------------

  /** Versions with the checksum they were applied with. */
  type Ledger = map<string, string>

  function Reconciled(m: Migration, ledger: Ledger): Migration {
    if m.version !in ledger then m
    else
      var checksum := ledger[m.version];
      m.(appliedChecksum := Some(checksum),
         status := if m.parseError.Some? then m.status
                   else if m.diskChecksum == checksum then Applied
                   else Dirty)
  }

  function AllReconciled(ms: seq<Migration>, ledger: Ledger): (rs: seq<Migration>)
    ensures |rs| == |ms| && forall i :: 0 <= i < |ms| ==> rs[i] == Reconciled(ms[i], ledger)
  {
    seq(|ms|, i requires 0 <= i < |ms| => Reconciled(ms[i], ledger))
  }

  function Missing(version: string, ledger: Ledger): Migration
    requires version in ledger
  {
    Migration(version, "", "", None, Applied, "", Some(ledger[version]), Some(FileMissing))
  }

  /** Ledger rows without a file, in version order. */
  ghost function Leftovers(ms: seq<Migration>, ledger: Ledger): seq<Migration> {
    var keys := ledger.Keys - (set m | m in ms :: m.version);
    InOrderHolds(keys);
    seq(|InOrder(keys)|, i requires 0 <= i < |InOrder(keys)| =>
      assert InOrder(keys)[i] in keys; Missing(InOrder(keys)[i], ledger))
  }

  /** Stable sorting by version. */
  function Insert(ms: seq<Migration>, m: Migration): seq<Migration> {
    if ms == [] || !Less(m.version, ms[|ms| - 1].version) then ms + [m]
    else Insert(ms[..|ms| - 1], m) + [ms[|ms| - 1]]
  }

  function SortByVersion(ms: seq<Migration>): seq<Migration> {
    if ms == [] then [] else Insert(SortByVersion(ms[..|ms| - 1]), ms[|ms| - 1])
  }

  /** `join_with_ledger` */
  ghost function Joined(disk: seq<Migration>, ledger: Ledger): seq<Migration> {
    SortByVersion(AllReconciled(disk, ledger) + Leftovers(disk, ledger))
  }

  ghost predicate SortedVersions(ms: seq<Migration>) {
    forall i, j :: 0 <= i < j < |ms| ==> Less(ms[i].version, ms[j].version)
  }

  lemma SortedAreUnique(ms: seq<Migration>)
    requires SortedVersions(ms)
    ensures UniqueVersions(ms)
  {
    forall i, j | 0 <= i < j < |ms| ensures ms[i].version != ms[j].version {
      LessTotal(ms[i].version, ms[j].version);
    }
  }

  lemma {:induction false} PendingOfConcat(a: seq<Migration>, b: seq<Migration>)
    ensures PendingOf(a + b) == PendingOf(a) + PendingOf(b)
  {
    if a == [] {
      assert a + b == b;
    } else {
      assert (a + b)[1..] == a[1..] + b;
      PendingOfConcat(a[1..], b);
    }
  }

  lemma {:induction false} InsertKeepsPending(ms: seq<Migration>, m: Migration)
    requires !Clean(m)
    ensures PendingOf(Insert(ms, m)) == PendingOf(ms)
  {
    PendingOfConcat(ms, [m]);
    assert [m][1..] == [];
    if ms != [] && Less(m.version, ms[|ms| - 1].version) {
      var init, last := ms[..|ms| - 1], ms[|ms| - 1];
      InsertKeepsPending(init, m);
      PendingOfConcat(init, [last]);
      PendingOfConcat(Insert(init, m), [last]);
      assert ms == init + [last];
    }
  }

  lemma {:induction false} SortOfSorted(ms: seq<Migration>)
    requires SortedVersions(ms)
    ensures SortByVersion(ms) == ms
  {
    if ms != [] {
      var init, last := ms[..|ms| - 1], ms[|ms| - 1];
      SortOfSorted(init);
      if init != [] {
        LessTotal(init[|init| - 1].version, last.version);
        assert init[|init| - 1] == ms[|ms| - 2];
      }
    }
  }

  lemma {:induction false} SortKeepsPending(ms: seq<Migration>, more: seq<Migration>)
    requires SortedVersions(ms) && forall m :: m in more ==> !Clean(m)
    ensures PendingOf(SortByVersion(ms + more)) == PendingOf(ms)
  {
    if more == [] {
      assert ms + more == ms;
      SortOfSorted(ms);
    } else {
      var init, last := more[..|more| - 1], more[|more| - 1];
      SortKeepsPending(ms, init);
      assert (ms + more)[..|ms + more| - 1] == ms + init;
      InsertKeepsPending(SortByVersion(ms + init), last);
    }
  }

  lemma UniqueSnoc(ms: seq<Migration>, m: Migration)
    ensures UniqueVersions(ms + [m]) <==> UniqueVersions(ms) && forall x :: x in ms ==> x.version != m.version
  {
    if UniqueVersions(ms + [m]) {
      assert forall i :: 0 <= i < |ms| ==> (ms + [m])[i] == ms[i];
      assert (ms + [m])[|ms|] == m;
    }
  }

  lemma {:induction false} InsertKeepsUnique(ms: seq<Migration>, m: Migration)
    requires UniqueVersions(ms) && forall x :: x in ms ==> x.version != m.version
    ensures UniqueVersions(Insert(ms, m))
    ensures forall x :: x in Insert(ms, m) <==> x in ms || x == m
  {
    hide UniqueVersions, Less;
    if ms != [] && Less(m.version, ms[|ms| - 1].version) {
      var init, last := ms[..|ms| - 1], ms[|ms| - 1];
      assert ms == init + [last];
      UniqueSnoc(init, last);
      InsertKeepsUnique(init, m);
      UniqueSnoc(Insert(init, m), last);
    } else {
      UniqueSnoc(ms, m);
    }
  }

  lemma {:induction false} SortKeepsUnique(ms: seq<Migration>)
    requires UniqueVersions(ms)
    ensures UniqueVersions(SortByVersion(ms))
    ensures forall x :: x in SortByVersion(ms) <==> x in ms
  {
    hide UniqueVersions, Insert;
    if ms != [] {
      var init, last := ms[..|ms| - 1], ms[|ms| - 1];
      assert ms == init + [last];
      UniqueSnoc(init, last);
      SortKeepsUnique(init);
      InsertKeepsUnique(SortByVersion(init), last);
    } else {
      assert SortByVersion(ms) == ms;
    }
  }

  /** Joining keeps versions unique. */
  lemma JoinedUnique(disk: seq<Migration>, ledger: Ledger)
    requires SortedVersions(disk)
    ensures UniqueVersions(Joined(disk, ledger))
  {
    AllUnique(disk, ledger);
    SortKeepsUnique(AllReconciled(disk, ledger) + Leftovers(disk, ledger));
  }

  lemma AllUnique(disk: seq<Migration>, ledger: Ledger)
    requires SortedVersions(disk)
    ensures UniqueVersions(AllReconciled(disk, ledger) + Leftovers(disk, ledger))
  {
    var keys := ledger.Keys - (set m | m in disk :: m.version);
    var all: seq<Migration> := AllReconciled(disk, ledger) + Leftovers(disk, ledger);
    InOrderHolds(keys);
    SortedAreUnique(disk);
    forall i, j | 0 <= i < j < |all| ensures all[i].version != all[j].version {
      if j >= |disk| {
        var v := InOrder(keys)[j - |disk|];
        assert all[j].version == v && v in keys;
        if i < |disk| {
          assert disk[i] in disk && all[i].version == disk[i].version;
        } else {
          LessTotal(InOrder(keys)[i - |disk|], v);
        }
      }
    }
  }

  /** The clean files that the ledger does not have. */
  function Unapplied(disk: seq<Migration>, ledger: Ledger): seq<Migration> {
    if disk == [] then []
    else if Clean(disk[0]) && disk[0].version !in ledger then [disk[0]] + Unapplied(disk[1..], ledger)
    else Unapplied(disk[1..], ledger)
  }

  lemma {:induction false} ReconciledPending(disk: seq<Migration>, ledger: Ledger)
    ensures PendingOf(AllReconciled(disk, ledger)) == Unapplied(disk, ledger)
  {
    if disk != [] {
      ReconciledPending(disk[1..], ledger);
      assert AllReconciled(disk, ledger)[1..] == AllReconciled(disk[1..], ledger);
    }
  }

  /** What is pending after the join is what is on disk, clean and not in the ledger. */
  lemma JoinedPending(disk: seq<Migration>, ledger: Ledger)
    requires SortedVersions(disk)
    ensures PendingOf(Joined(disk, ledger)) == Unapplied(disk, ledger)
  {
    assert SortedVersions(AllReconciled(disk, ledger)) by { hide Less; }
    SortKeepsPending(AllReconciled(disk, ledger), Leftovers(disk, ledger));
    ReconciledPending(disk, ledger);
  }

  /** After the join an entry of a file is applied, dirty or pending as the ledger says. */
  lemma JoinedStatus(disk: seq<Migration>, ledger: Ledger, m: Migration)
    requires SortedVersions(disk) && m in disk && m.status == Pending && m.parseError.None?
    ensures var status := if m.version !in ledger then Pending
                          else if ledger[m.version] == m.diskChecksum then Applied
                          else Dirty;
            exists x :: x in Joined(disk, ledger) && x.version == m.version && x.status == status && x.parseError.None?
  {
    var i :| 0 <= i < |disk| && disk[i] == m;
    var all := AllReconciled(disk, ledger) + Leftovers(disk, ledger);
    assert all[i] == Reconciled(m, ledger);
    JoinedMembers(disk, ledger);
  }

  lemma JoinedMembers(disk: seq<Migration>, ledger: Ledger)
    requires SortedVersions(disk)
    ensures forall x :: x in Joined(disk, ledger) <==> x in AllReconciled(disk, ledger) + Leftovers(disk, ledger)
  {
    AllUnique(disk, ledger);
    SortKeepsUnique(AllReconciled(disk, ledger) + Leftovers(disk, ledger));
  }

  // ---------------------------------------------------------------------------
  // The joined list.
  // ---------------------------------------------------------------------------

  lemma SortedSnoc(ms: seq<Migration>, m: Migration)
    requires SortedVersions(ms) && forall x :: x in ms ==> Less(x.version, m.version)
    ensures SortedVersions(ms + [m])
  {
    hide Less;
    assert forall i :: 0 <= i < |ms| ==> ms[i] in ms;
  }

  lemma {:induction false} InsertKeepsSorted(ms: seq<Migration>, m: Migration)
    requires SortedVersions(ms) && forall x :: x in ms ==> x.version != m.version
    ensures SortedVersions(Insert(ms, m))
    ensures forall x :: x in Insert(ms, m) <==> x in ms || x == m
  {
    hide Less;
    if ms != [] {
      var init, last := ms[..|ms| - 1], ms[|ms| - 1];
      assert ms == init + [last] && last in ms;
      LessTotal(m.version, last.version);
      assert forall x :: x in init ==> Less(x.version, last.version);
      if Less(m.version, last.version) {
        InsertKeepsSorted(init, m);
        SortedSnoc(Insert(init, m), last);
      } else {
        forall x | x in ms ensures Less(x.version, m.version) {
          if x != last { LessTransitive(x.version, last.version, m.version); }
        }
        SortedSnoc(ms, m);
      }
    }
  }

  lemma {:induction false} SortIsSorted(ms: seq<Migration>)
    requires UniqueVersions(ms)
    ensures SortedVersions(SortByVersion(ms))
    ensures forall x :: x in SortByVersion(ms) <==> x in ms
  {
    assert SortedVersions([]);
    hide UniqueVersions, SortedVersions, Insert;
    if ms != [] {
      var init, last := ms[..|ms| - 1], ms[|ms| - 1];
      assert ms == init + [last];
      UniqueSnoc(init, last);
      SortIsSorted(init);
      InsertKeepsSorted(SortByVersion(init), last);
    } else {
      assert SortByVersion(ms) == ms == [];
    }
  }

  /** The entry of a file: the file's, with what the ledger knows of its version. An entry with a
   *  parse error keeps its status. */
  predicate FromFile(x: Migration, m: Migration, ledger: Ledger) {
    && x == m.(status := x.status, appliedChecksum := x.appliedChecksum)
    && (m.version !in ledger ==> x == m)
    && (m.version in ledger ==>
          && x.appliedChecksum == Some(ledger[m.version])
          && (m.parseError.Some? ==> x.status == m.status)
          && (m.parseError.None? ==> x.status == if m.diskChecksum == ledger[m.version] then Applied else Dirty))
  }

  /** The entry of a ledger row without a file. */
  predicate FromLedger(x: Migration, ledger: Ledger) {
    && x.version in ledger && x.appliedChecksum == Some(ledger[x.version])
    && x.status == Applied && x.parseError == Some(FileMissing)
    && x.upPath == "" && x.downPath == None && x.diskChecksum == ""
  }

  ghost predicate HasVersionOf(ms: seq<Migration>, version: string) {
    exists m :: m in ms && m.version == version
  }

  /** The joined list is in version order, with one entry for each version on disk or in the
   *  ledger and no other: a file's entry where there is a file, and otherwise the ledger's. */
  lemma JoinedExactly(disk: seq<Migration>, ledger: Ledger)
    requires SortedVersions(disk)
    ensures var out := Joined(disk, ledger);
            && SortedVersions(out)
            && (forall x :: x in out ==>
                  || (exists m :: m in disk && FromFile(x, m, ledger))
                  || (!HasVersionOf(disk, x.version) && FromLedger(x, ledger)))
            && (forall version :: HasVersionOf(out, version) <==> HasVersionOf(disk, version) || version in ledger)
  {
    var files, rest := AllReconciled(disk, ledger), Leftovers(disk, ledger);
    AllUnique(disk, ledger);
    SortIsSorted(files + rest);
    LeftoversExactly(disk, ledger);
    var out := Joined(disk, ledger);
    hide SortByVersion, Leftovers, SortedVersions, UniqueVersions, FromLedger, Joined;
    FilesExactly(disk, ledger);
    hide AllReconciled, FromFile, HasVersionOf;
    forall version ensures HasVersionOf(out, version) <==> HasVersionOf(disk, version) || version in ledger {
      VersionsJoined(disk, ledger, out, version);
    }
  }

  lemma FilesExactly(disk: seq<Migration>, ledger: Ledger)
    ensures forall x :: x in AllReconciled(disk, ledger) ==> exists m :: m in disk && FromFile(x, m, ledger)
  {
    var files := AllReconciled(disk, ledger);
    forall x | x in files ensures exists m :: m in disk && FromFile(x, m, ledger) {
      var i :| 0 <= i < |files| && files[i] == x;
      assert disk[i] in disk && FromFile(x, disk[i], ledger);
    }
  }

  lemma LeftoversExactly(disk: seq<Migration>, ledger: Ledger)
    ensures forall x :: x in Leftovers(disk, ledger) ==> !HasVersionOf(disk, x.version) && FromLedger(x, ledger)
    ensures forall version :: version in ledger && !HasVersionOf(disk, version) ==>
              HasVersionOf(Leftovers(disk, ledger), version)
  {
    var keys := ledger.Keys - (set m | m in disk :: m.version);
    InOrderHolds(keys);
    hide InOrder;
    var rest := Leftovers(disk, ledger);
    forall version | version in ledger && !HasVersionOf(disk, version) ensures HasVersionOf(rest, version) {
      assert version in keys;
      var i :| 0 <= i < |InOrder(keys)| && InOrder(keys)[i] == version;
      assert rest[i] in rest && rest[i].version == version;
    }
  }

  lemma VersionsJoined(disk: seq<Migration>, ledger: Ledger, out: seq<Migration>, version: string)
    requires forall x :: x in out <==> x in AllReconciled(disk, ledger) + Leftovers(disk, ledger)
    ensures HasVersionOf(out, version) <==> HasVersionOf(disk, version) || version in ledger
  {
    LeftoversExactly(disk, ledger);
    var files, rest := AllReconciled(disk, ledger), Leftovers(disk, ledger);
    hide Leftovers;
    forall x | x in files ensures HasVersionOf(disk, x.version) {
      var i :| 0 <= i < |files| && files[i] == x;
      assert disk[i] in disk;
    }
    if HasVersionOf(disk, version) {
      var m :| m in disk && m.version == version;
      var i :| 0 <= i < |disk| && disk[i] == m;
      assert files[i] in files && files[i] in out;
    } else if version in ledger {
      var x :| x in rest && x.version == version;
      assert x in out;
    }
  }
}

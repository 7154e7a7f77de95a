/** What `discover` promises: one entry per version, sorted, and no dependence on the order in
 *  which the directory is listed (src-tauri/src/migrations/discovery.rs).
 */
module DiscoveryOrder {
  import opened Wrappers
  import opened Decimal
  import opened Discovery

  // ---------------------------------------------------------------------------
  // Facts about a listing that do not mention its order.
  // ---------------------------------------------------------------------------

  /** The groups of a migration file's name, if the entry is one. */
  ghost function Parts(e: DirEntry): (c: Option<Captures>)
    ensures c.Some? ==> e.Entry? && e.isFile && e.name.Some?
  {
    if exists c :: IsMigrationFile(e, c) then
      var c :| IsMigrationFile(e, c);
      Some(c)
    else None
  }

  lemma PartsAreCaptures(e: DirEntry)
    ensures CapturesOf(e) == Parts(e)
  {
    hide CapturesOf, IsMigrationFile;
    if exists c :: IsMigrationFile(e, c) {
      CapturesExactly(e, Parts(e).value);
    } else if CapturesOf(e).Some? {
      CapturesExactly(e, CapturesOf(e).value);
    }
  }

  ghost predicate IsOf(e: DirEntry, version: string) {
    Parts(e).Some? && Parts(e).value.version == version
  }

  ghost predicate HasVersion(listing: seq<DirEntry>, version: string) {
    exists e :: e in listing && IsOf(e, version)
  }

  ghost predicate HasName(listing: seq<DirEntry>, version: string, name: string) {
    exists e :: e in listing && IsOf(e, version) && Parts(e).value.name == name
  }

  ghost predicate HasKind(listing: seq<DirEntry>, version: string, up: bool) {
    exists e :: e in listing && IsOf(e, version) && Parts(e).value.up == up
  }

  /** Two files of one version disagree on the name. */
  ghost predicate Clashes(listing: seq<DirEntry>, version: string) {
    exists a, b :: HasName(listing, version, a) && HasName(listing, version, b) && a != b
  }

  ghost predicate SameEntries(a: seq<DirEntry>, b: seq<DirEntry>) {
    forall e :: e in a <==> e in b
  }

  ghost predicate Distinct(names: seq<string>) {
    forall i, j :: 0 <= i < j < |names| ==> names[i] != names[j]
  }

  ghost predicate IsKind(e: DirEntry, version: string, up: bool) {
    IsOf(e, version) && Parts(e).value.up == up
  }

  ghost predicate NamesFit(listing: seq<DirEntry>, version: string, names: seq<string>) {
    Distinct(names) && forall name :: name in names <==> HasName(listing, version, name)
  }

  /** A path is that of a file of the right version and kind, under one of the version's names. */
  ghost predicate PathFits(dir: string, listing: seq<DirEntry>, version: string, up: bool, path: string) {
    exists name :: HasName(listing, version, name) && path == PathOf(dir, version + "_" + name + Suffix(up))
  }

  ghost predicate KindFits(dir: string, listing: seq<DirEntry>, version: string, up: bool, path: Option<string>) {
    && (path.Some? <==> HasKind(listing, version, up))
    && (path.Some? ==> PathFits(dir, listing, version, up, path.value))
  }

  ghost predicate PairFits(dir: string, listing: seq<DirEntry>, version: string, pair: Pair) {
    && NamesFit(listing, version, pair.names)
    && KindFits(dir, listing, version, true, pair.upPath)
    && KindFits(dir, listing, version, false, pair.downPath)
  }

  lemma EntryFile(e: DirEntry, version: string)
    requires IsOf(e, version)
    ensures var c := Parts(e).value; e.name.value == version + "_" + c.name + Suffix(c.up)
  {
    assert IsMigrationFile(e, Parts(e).value);
  }

  lemma NameSnoc(listing: seq<DirEntry>, e: DirEntry, version: string, name: string)
    ensures HasName(listing + [e], version, name)
       <==> HasName(listing, version, name) || (IsOf(e, version) && Parts(e).value.name == name)
  {
    hide Parts;
    assert forall x :: x in listing + [e] <==> x in listing || x == e;
  }

  lemma KindSnoc(listing: seq<DirEntry>, e: DirEntry, version: string, up: bool)
    ensures HasKind(listing + [e], version, up) <==> HasKind(listing, version, up) || IsKind(e, version, up)
  {
    hide Parts;
    assert forall x :: x in listing + [e] <==> x in listing || x == e;
  }

  lemma VersionSnoc(listing: seq<DirEntry>, e: DirEntry, version: string)
    ensures HasVersion(listing + [e], version) <==> HasVersion(listing, version) || IsOf(e, version)
  {
    hide Parts;
    assert forall x :: x in listing + [e] <==> x in listing || x == e;
  }

  lemma NamesSnoc(listing: seq<DirEntry>, e: DirEntry, version: string, names: seq<string>)
    requires NamesFit(listing, version, names)
    ensures IsOf(e, version) ==>
              NamesFit(listing + [e], version,
                       if Parts(e).value.name in names then names else names + [Parts(e).value.name])
    ensures !IsOf(e, version) ==> NamesFit(listing + [e], version, names)
  {
    hide Parts, HasName;
    forall name { NameSnoc(listing, e, version, name); }
  }

  lemma KindStays(dir: string, listing: seq<DirEntry>, e: DirEntry, version: string, up: bool, path: Option<string>)
    requires KindFits(dir, listing, version, up, path) && !IsKind(e, version, up)
    ensures KindFits(dir, listing + [e], version, up, path)
  {
    hide Parts, HasName, HasKind, Suffix, IsKind;
    KindSnoc(listing, e, version, up);
    if path.Some? {
      var name :| HasName(listing, version, name) && path.value == PathOf(dir, version + "_" + name + Suffix(up));
      NameSnoc(listing, e, version, name);
    }
  }

  lemma KindSet(dir: string, listing: seq<DirEntry>, e: DirEntry, version: string)
    requires IsOf(e, version)
    ensures KindFits(dir, listing + [e], version, Parts(e).value.up, Some(PathOf(dir, e.name.value)))
  {
    hide Parts, HasName, HasKind, Suffix;
    EntryFile(e, version);
    KindSnoc(listing, e, version, Parts(e).value.up);
    NameSnoc(listing, e, version, Parts(e).value.name);
  }

  lemma EnteredFits(dir: string, listing: seq<DirEntry>, e: DirEntry, version: string, slot: Pair)
    requires IsOf(e, version) && PairFits(dir, listing, version, slot)
    ensures PairFits(dir, listing + [e], version, Entered(slot, Parts(e).value, PathOf(dir, e.name.value)))
  {
    hide Parts, NamesFit, KindFits;
    NamesSnoc(listing, e, version, slot.names);
    KindSet(dir, listing, e, version);
    if Parts(e).value.up {
      KindStays(dir, listing, e, version, false, slot.downPath);
    } else {
      KindStays(dir, listing, e, version, true, slot.upPath);
    }
  }

  lemma {:induction false} GroupedFits(dir: string, listing: seq<DirEntry>, version: string)
    ensures version in Grouped(dir, listing) <==> HasVersion(listing, version)
    ensures version in Grouped(dir, listing) ==> PairFits(dir, listing, version, Grouped(dir, listing)[version])
  {
    if listing != [] {
      var init, e := listing[..|listing| - 1], listing[|listing| - 1];
      assert listing == init + [e];
      GroupedFits(dir, init, version);
      VersionSnoc(init, e, version);
      PartsAreCaptures(e);
      hide CapturesOf, Parts, PairFits;
      var groups := Grouped(dir, init);
      if IsOf(e, version) {
        var slot := if version in groups then groups[version] else Pair(None, None, []);
        if version !in groups { NothingFits(dir, init, version); }
        EnteredFits(dir, init, e, version, slot);
      } else if version in groups {
        OtherFits(dir, init, e, version, groups[version]);
        assert Grouped(dir, listing)[version] == groups[version];
      }
    }
  }

  lemma NothingFits(dir: string, listing: seq<DirEntry>, version: string)
    requires !HasVersion(listing, version)
    ensures PairFits(dir, listing, version, Pair(None, None, []))
  {
    hide Parts, PathFits;
  }

  lemma OtherFits(dir: string, listing: seq<DirEntry>, e: DirEntry, version: string, pair: Pair)
    requires !IsOf(e, version) && PairFits(dir, listing, version, pair)
    ensures PairFits(dir, listing + [e], version, pair)
  {
    hide Parts, NamesFit, KindFits;
    NamesSnoc(listing, e, version, pair.names);
    KindStays(dir, listing, e, version, true, pair.upPath);
    KindStays(dir, listing, e, version, false, pair.downPath);
  }

  // ---------------------------------------------------------------------------
  // Entries.
  // ---------------------------------------------------------------------------

  /** What does not depend on the listing's order: everything, unless the version is a duplicate. */
  predicate Alike(a: Migration, b: Migration) {
    && a.version == b.version && a.parseError == b.parseError && a.status == b.status
    && (a.parseError != Some(DuplicateVersion) ==> a == b)
  }

  lemma SlotNotEmpty(dir: string, listing: seq<DirEntry>, version: string, pair: Pair)
    requires HasVersion(listing, version) && PairFits(dir, listing, version, pair)
    ensures |pair.names| >= 1
    ensures pair.upPath.Some? || pair.downPath.Some?
  {
    hide Parts, PathFits;
    var e :| e in listing && IsOf(e, version);
    assert HasName(listing, version, Parts(e).value.name);
    assert HasKind(listing, version, Parts(e).value.up);
  }

  lemma NamesClash(listing: seq<DirEntry>, version: string, names: seq<string>)
    requires NamesFit(listing, version, names)
    ensures |names| > 1 <==> Clashes(listing, version)
  {
    hide HasName;
    if |names| > 1 {
      assert names[0] in names && names[1] in names;
    }
    if Clashes(listing, version) {
      var a, b :| HasName(listing, version, a) && HasName(listing, version, b) && a != b;
      assert a in names && b in names;
    }
  }

  /** Every version present yields an entry, flagged by the listing's order-free facts. */
  lemma DescribedFlag(disk: Disk, listing: seq<DirEntry>, version: string, pair: Pair)
    requires HasVersion(listing, version) && PairFits(disk.dir, listing, version, pair)
    ensures Described(disk, version, pair).Ok? ==>
              && Described(disk, version, pair).value.Some?
              && Described(disk, version, pair).value.value.version == version
              && Described(disk, version, pair).value.value.status == Pending
              && Described(disk, version, pair).value.value.parseError
                 == if Clashes(listing, version) then Some(DuplicateVersion)
                    else if HasKind(listing, version, true) then None
                    else Some(OrphanRollback)
  {
    SlotNotEmpty(disk.dir, listing, version, pair);
    NamesClash(listing, version, pair.names);
    hide Clashes, HasKind, HasVersion, NamesFit, PathFits;
  }

  lemma SameFacts(a: seq<DirEntry>, b: seq<DirEntry>, version: string)
    requires SameEntries(a, b)
    ensures HasVersion(a, version) <==> HasVersion(b, version)
    ensures forall name :: HasName(a, version, name) <==> HasName(b, version, name)
    ensures forall up :: HasKind(a, version, up) <==> HasKind(b, version, up)
    ensures Clashes(a, version) <==> Clashes(b, version)
  {
    hide Parts, IsOf;
  }

  /** Where the version is not a duplicate, its group is determined. */
  lemma GroupDetermined(dir: string, a: seq<DirEntry>, b: seq<DirEntry>, version: string, p: Pair, q: Pair)
    requires SameEntries(a, b) && HasVersion(a, version) && !Clashes(a, version)
    requires PairFits(dir, a, version, p) && PairFits(dir, b, version, q)
    ensures p == q
  {
    SlotNotEmpty(dir, a, version, p);
    hide HasVersion, Clashes, SameEntries, KindFits, NamesFit;
    SameFacts(a, b, version);
    SlotNotEmpty(dir, b, version, q);
    NamesClash(a, version, p.names);
    NamesClash(b, version, q.names);
    NamesDetermined(a, b, version, p.names, q.names);
    assert p.names == [p.names[0]];
    PathDetermined(dir, a, b, version, p.names[0], true, p.upPath, q.upPath);
    PathDetermined(dir, a, b, version, p.names[0], false, p.downPath, q.downPath);
  }

  lemma NamesDetermined(a: seq<DirEntry>, b: seq<DirEntry>, version: string, p: seq<string>, q: seq<string>)
    requires NamesFit(a, version, p) && NamesFit(b, version, q) && |p| == |q| == 1
    requires forall name :: HasName(a, version, name) <==> HasName(b, version, name)
    ensures p == q
  {
    hide HasName;
    assert p[0] in p && p[0] in q;
  }

  lemma PathDetermined(dir: string, a: seq<DirEntry>, b: seq<DirEntry>, version: string, name: string, up: bool,
                       p: Option<string>, q: Option<string>)
    requires KindFits(dir, a, version, up, p) && KindFits(dir, b, version, up, q)
    requires HasKind(a, version, up) <==> HasKind(b, version, up)
    requires NamesFit(a, version, [name]) && NamesFit(b, version, [name])
    ensures p == q
  {
    hide HasKind, HasName, Suffix;
    if p.Some? {
      var m :| HasName(a, version, m) && p.value == PathOf(dir, version + "_" + m + Suffix(up));
      var n :| HasName(b, version, n) && q.value == PathOf(dir, version + "_" + n + Suffix(up));
      assert m in [name] && n in [name];
    }
  }

  lemma DescribedAlike(disk: Disk, a: seq<DirEntry>, b: seq<DirEntry>, version: string, p: Pair, q: Pair)
    requires SameEntries(a, b) && HasVersion(a, version)
    requires PairFits(disk.dir, a, version, p) && PairFits(disk.dir, b, version, q)
    ensures match (Described(disk, version, p), Described(disk, version, q))
            case (Ok(Some(m)), Ok(Some(n))) => Alike(m, n)
            case (Err(x), Err(y)) => x == y
            case _ => false
  {
    SameFacts(a, b, version);
    DescribedFlag(disk, a, version, p);
    DescribedFlag(disk, b, version, q);
    if Clashes(a, version) {
      NamesClash(a, version, p.names);
      NamesClash(b, version, q.names);
      hide PairFits, HasVersion, Clashes;
    } else {
      GroupDetermined(disk.dir, a, b, version, p, q);
      hide PairFits, HasVersion, Clashes;
    }
  }

  // ---------------------------------------------------------------------------
  // The claims.
  // ---------------------------------------------------------------------------

  /** The entry of `version` as the listing's order-free facts require it. */
  ghost predicate FlaggedRightly(listing: seq<DirEntry>, m: Migration) {
    && m.status == Pending
    && m.parseError == (if Clashes(listing, m.version) then Some(DuplicateVersion)
                        else if HasKind(listing, m.version, true) then None
                        else Some(OrphanRollback))
  }

  /** The first version's entry and then the others'. */
  lemma AllDescribedCons(disk: Disk, versions: seq<string>, groups: map<string, Pair>)
    requires versions != [] && forall i :: 0 <= i < |versions| ==> versions[i] in groups
    requires AllDescribed(disk, versions, groups).Ok?
    ensures Described(disk, versions[0], groups[versions[0]]).Ok?
    ensures AllDescribed(disk, versions[1..], groups).Ok?
    ensures Described(disk, versions[0], groups[versions[0]]).value.Some? ==>
              AllDescribed(disk, versions, groups).value
              == [Described(disk, versions[0], groups[versions[0]]).value.value]
                 + AllDescribed(disk, versions[1..], groups).value
  {
    hide Described;
  }

  lemma {:induction false} AllDescribedInOrder(disk: Disk, listing: seq<DirEntry>, versions: seq<string>)
    requires forall i :: 0 <= i < |versions| ==> versions[i] in Grouped(disk.dir, listing)
    ensures var out := AllDescribed(disk, versions, Grouped(disk.dir, listing));
            out.Ok? ==>
              && |out.value| == |versions|
              && forall i :: 0 <= i < |versions| ==>
                   out.value[i].version == versions[i] && FlaggedRightly(listing, out.value[i])
  {
    if versions != [] && AllDescribed(disk, versions, Grouped(disk.dir, listing)).Ok? {
      GroupedFits(disk.dir, listing, versions[0]);
      DescribedFlag(disk, listing, versions[0], Grouped(disk.dir, listing)[versions[0]]);
      AllDescribedInOrder(disk, listing, versions[1..]);
      AllDescribedCons(disk, versions, Grouped(disk.dir, listing));
      hide Described, AllDescribed, Clashes, HasKind, HasVersion, PairFits, Grouped;
    }
  }

  /** One entry for each version present and no other, strictly increasing as text, each flagged
   *  as a duplicate, as an orphan, or not at all, as the files demand. */
  lemma DiscoverSorted(disk: Disk, listing: seq<DirEntry>)
    requires Discovered(disk, listing).Ok?
    ensures var out := Discovered(disk, listing).value;
            && (forall i, j :: 0 <= i < j < |out| ==> Less(out[i].version, out[j].version))
            && (forall i :: 0 <= i < |out| ==> HasVersion(listing, out[i].version) && FlaggedRightly(listing, out[i]))
            && (forall version :: HasVersion(listing, version) ==> exists i :: 0 <= i < |out| && out[i].version == version)
  {
    var groups := Grouped(disk.dir, listing);
    var versions := InOrder(groups.Keys);
    InOrderHolds(groups.Keys);
    AllDescribedInOrder(disk, listing, versions);
    forall version { GroupedFits(disk.dir, listing, version); }
    hide Grouped, AllDescribed, FlaggedRightly, HasVersion, PairFits, Less, InOrder;
    var out := Discovered(disk, listing).value;
    forall i | 0 <= i < |out| ensures HasVersion(listing, out[i].version) {
      assert versions[i] in groups;
    }
    forall version | HasVersion(listing, version) ensures exists i :: 0 <= i < |out| && out[i].version == version {
      assert version in versions;
      var i :| 0 <= i < |versions| && versions[i] == version;
      assert out[i].version == version;
    }
  }

  // ---------------------------------------------------------------------------
  // What an entry says of its files.
  // ---------------------------------------------------------------------------

  function FileOf(dir: string, version: string, name: string, up: bool): string {
    PathOf(dir, version + "_" + name + Suffix(up))
  }

  /** The name is that of the version's files, the paths are theirs, and the checksum is that of
   *  the up file as it is now. */
  ghost predicate DescribesFiles(disk: Disk, listing: seq<DirEntry>, m: Migration) {
    && HasName(listing, m.version, m.name)
    && m.downPath == (if HasKind(listing, m.version, false) then Some(FileOf(disk.dir, m.version, m.name, false)) else None)
    && (HasKind(listing, m.version, true) ==>
          && m.upPath == FileOf(disk.dir, m.version, m.name, true)
          && disk.read(m.upPath).Ok? && m.diskChecksum == disk.sha(disk.read(m.upPath).value))
  }

  lemma OnlyName(listing: seq<DirEntry>, version: string, names: seq<string>)
    requires NamesFit(listing, version, names) && |names| == 1
    ensures HasName(listing, version, names[0])
    ensures forall name :: HasName(listing, version, name) ==> name == names[0]
  {
    hide HasName;
    assert names[0] in names;
  }

  lemma PathIsFile(dir: string, listing: seq<DirEntry>, version: string, name: string, up: bool, path: Option<string>)
    requires KindFits(dir, listing, version, up, path)
    requires forall other :: HasName(listing, version, other) ==> other == name
    ensures path == if HasKind(listing, version, up) then Some(FileOf(dir, version, name, up)) else None
  {
    hide HasName, HasKind, PathOf, Suffix;
  }

  lemma DescribedContents(disk: Disk, listing: seq<DirEntry>, version: string, pair: Pair)
    requires HasVersion(listing, version) && PairFits(disk.dir, listing, version, pair)
    requires !Clashes(listing, version) && Described(disk, version, pair).Ok?
    ensures Described(disk, version, pair).value.Some?
    ensures DescribesFiles(disk, listing, Described(disk, version, pair).value.value)
  {
    SlotNotEmpty(disk.dir, listing, version, pair);
    NamesClash(listing, version, pair.names);
    OnlyName(listing, version, pair.names);
    hide Clashes, HasKind, HasVersion, NamesFit, KindFits, HasName, FileOf;
    PathIsFile(disk.dir, listing, version, pair.names[0], true, pair.upPath);
    PathIsFile(disk.dir, listing, version, pair.names[0], false, pair.downPath);
  }

  lemma {:induction false} AllDescribedContents(disk: Disk, listing: seq<DirEntry>, versions: seq<string>)
    requires forall i :: 0 <= i < |versions| ==> versions[i] in Grouped(disk.dir, listing)
    requires AllDescribed(disk, versions, Grouped(disk.dir, listing)).Ok?
    ensures forall m :: m in AllDescribed(disk, versions, Grouped(disk.dir, listing)).value ==>
              m.parseError == Some(DuplicateVersion) || DescribesFiles(disk, listing, m)
  {
    if versions != [] {
      var version := versions[0];
      var pair := Grouped(disk.dir, listing)[version];
      AllDescribedContents(disk, listing, versions[1..]);
      GroupedFits(disk.dir, listing, version);
      DescribedFlag(disk, listing, version, pair);
      if !Clashes(listing, version) {
        DescribedContents(disk, listing, version, pair);
      }
      hide Described, Clashes, HasVersion, PairFits, Grouped, DescribesFiles;
    }
  }

  /** Every entry that is not a duplicate names its version's files, with the checksum of the up
   *  file if there is one. */
  lemma DiscoverDescribesFiles(disk: Disk, listing: seq<DirEntry>)
    requires Discovered(disk, listing).Ok?
    ensures forall m :: m in Discovered(disk, listing).value ==>
              m.parseError == Some(DuplicateVersion) || DescribesFiles(disk, listing, m)
  {
    var groups := Grouped(disk.dir, listing);
    InOrderHolds(groups.Keys);
    AllDescribedContents(disk, listing, InOrder(groups.Keys));
    hide Grouped, AllDescribed, DescribesFiles, InOrder;
  }

  lemma {:induction false} AllDescribedAlike(disk: Disk, a: seq<DirEntry>, b: seq<DirEntry>, versions: seq<string>)
    requires SameEntries(a, b)
    requires forall i :: 0 <= i < |versions| ==>
               versions[i] in Grouped(disk.dir, a) && versions[i] in Grouped(disk.dir, b)
    ensures AlikeResults(AllDescribed(disk, versions, Grouped(disk.dir, a)),
                         AllDescribed(disk, versions, Grouped(disk.dir, b)))
  {
    hide Described, Alike, HasVersion, PairFits, Grouped, SameEntries;
    if versions != [] {
      var version := versions[0];
      GroupedFits(disk.dir, a, version);
      GroupedFits(disk.dir, b, version);
      DescribedAlike(disk, a, b, version, Grouped(disk.dir, a)[version], Grouped(disk.dir, b)[version]);
      AllDescribedAlike(disk, a, b, versions[1..]);
    }
  }

  predicate AlikeResults(p: Result<seq<Migration>, string>, q: Result<seq<Migration>, string>) {
    match (p, q)
    case (Ok(ms), Ok(ns)) => |ms| == |ns| && forall i :: 0 <= i < |ms| ==> Alike(ms[i], ns[i])
    case (Err(x), Err(y)) => x == y
    case _ => false
  }

  lemma {:induction false} FirstErrorExact(listing: seq<DirEntry>)
    ensures FirstError(listing).Some? <==> exists e :: e in listing && e.Unreadable?
  {
    if listing != [] { FirstErrorExact(listing[1..]); }
  }

  /** Two listings of the same directory, whatever their order: the same versions with the same
   *  flags, the same entries where the version is not a duplicate, and the same failure if a
   *  migration file cannot be read. An entry that cannot be listed fails both. */
  lemma DiscoverIgnoresOrder(disk: Disk, a: seq<DirEntry>, b: seq<DirEntry>)
    requires SameEntries(a, b)
    ensures if exists e :: e in a && e.Unreadable? then Discovered(disk, a).Err? && Discovered(disk, b).Err?
            else AlikeResults(Discovered(disk, a), Discovered(disk, b))
  {
    FirstErrorExact(a);
    FirstErrorExact(b);
    var p, q := Grouped(disk.dir, a), Grouped(disk.dir, b);
    forall version ensures version in p <==> version in q {
      GroupedFits(disk.dir, a, version);
      GroupedFits(disk.dir, b, version);
      SameFacts(a, b, version);
    }
    assert p.Keys == q.Keys;
    InOrderHolds(p.Keys);
    hide Grouped, HasVersion, PairFits, Alike;
    AllDescribedAlike(disk, a, b, InOrder(p.Keys));
  }
}

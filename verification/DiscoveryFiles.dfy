/** What `discover` says of the directory's files by their names, and when it fails
 *  (src-tauri/src/migrations/discovery.rs).
 */
module DiscoveryFiles {
  import opened Wrappers
  import opened Decimal
  import opened Discovery
  import opened DiscoveryOrder

  // ---------------------------------------------------------------------------
  // The files of a directory.
  // ---------------------------------------------------------------------------

  /** The directory lists the regular file "version_name.up.sql", or "version_name.down.sql". */
  predicate HasFile(listing: seq<DirEntry>, version: string, name: string, up: bool) {
    IsVersion(version) && IsName(name) && Entry(Some(version + "_" + name + Suffix(up)), true) in listing
  }

  lemma PartsExactly(e: DirEntry, c: Captures)
    ensures Parts(e) == Some(c) <==> IsMigrationFile(e, c)
  {
    PartsAreCaptures(e);
    CapturesExactly(e, c);
  }

  /** An entry with these groups is the file that they name. */
  lemma FileOfParts(e: DirEntry, c: Captures)
    ensures Parts(e) == Some(c) <==>
            IsVersion(c.version) && IsName(c.name) && e == Entry(Some(c.version + "_" + c.name + Suffix(c.up)), true)
  {
    PartsExactly(e, c);
    hide Parts, IsName, Suffix, IsVersion;
  }

  lemma FileIsListed(listing: seq<DirEntry>, version: string, name: string, up: bool)
    ensures HasFile(listing, version, name, up) <==>
            exists e :: e in listing && Parts(e) == Some(Captures(version, name, up))
  {
    var file := Entry(Some(version + "_" + name + Suffix(up)), true);
    FileOfParts(file, Captures(version, name, up));
    forall e | e in listing && Parts(e) == Some(Captures(version, name, up)) ensures HasFile(listing, version, name, up) {
      FileOfParts(e, Captures(version, name, up));
    }
    hide Parts, IsName, Suffix, IsVersion;
  }

  /** The facts the entries are flagged by, in terms of files. */
  lemma FactsAreFiles(listing: seq<DirEntry>, version: string)
    ensures forall name :: HasName(listing, version, name) <==>
              HasFile(listing, version, name, true) || HasFile(listing, version, name, false)
    ensures forall up :: HasKind(listing, version, up) <==> exists name :: HasFile(listing, version, name, up)
    ensures HasVersion(listing, version) <==> exists name, up :: HasFile(listing, version, name, up)
  {
    forall name, up { FileIsListed(listing, version, name, up); }
    hide Parts, HasFile;
    forall e | e in listing && IsOf(e, version)
      ensures HasFile(listing, version, Parts(e).value.name, Parts(e).value.up)
    {
      assert Parts(e) == Some(Captures(version, Parts(e).value.name, Parts(e).value.up));
    }
  }

  // ---------------------------------------------------------------------------
  // Every file has its entry.
  // ---------------------------------------------------------------------------

  /** Each migration file of a directory is found: its version has an entry, which is flagged a
   *  duplicate exactly when a file of the version has another name, and otherwise an orphan
   *  exactly when there is no up file. An entry not flagged a duplicate has the file's name and
   *  path. */
  lemma EachFileHasItsEntry(disk: Disk, listing: seq<DirEntry>, version: string, name: string, up: bool)
    returns (m: Migration)
    requires Discovered(disk, listing).Ok? && HasFile(listing, version, name, up)
    ensures m in Discovered(disk, listing).value && m.version == version
    ensures m.parseError == Some(DuplicateVersion) <==>
            exists other, kind :: other != name && HasFile(listing, version, other, kind)
    ensures m.parseError != Some(DuplicateVersion) ==>
              && m.name == name
              && (if up then m.upPath == FileOf(disk.dir, version, name, true) && m.parseError == None
                  else m.downPath == Some(FileOf(disk.dir, version, name, false)))
              && (m.parseError == Some(OrphanRollback) <==> !HasFile(listing, version, name, true))
  {
    FactsAreFiles(listing, version);
    m := EntryOfVersion(disk, listing, version);
    assert HasName(listing, version, name);
    ClashIsOther(listing, version, name);
    hide Discovered, HasFile, HasName, HasKind, HasVersion, FileOf, Clashes;
  }

  lemma EntryOfVersion(disk: Disk, listing: seq<DirEntry>, version: string) returns (m: Migration)
    requires Discovered(disk, listing).Ok? && HasVersion(listing, version)
    ensures m in Discovered(disk, listing).value && m.version == version && FlaggedRightly(listing, m)
    ensures m.parseError == Some(DuplicateVersion) || DescribesFiles(disk, listing, m)
  {
    DiscoverSorted(disk, listing);
    DiscoverDescribesFiles(disk, listing);
    hide *;
    var out := Discovered(disk, listing).value;
    var i :| 0 <= i < |out| && out[i].version == version;
    m := out[i];
  }

  lemma ClashIsOther(listing: seq<DirEntry>, version: string, name: string)
    requires HasName(listing, version, name)
    ensures Clashes(listing, version) <==> exists other, kind :: other != name && HasFile(listing, version, other, kind)
  {
    FactsAreFiles(listing, version);
    hide HasName, HasFile;
    if Clashes(listing, version) {
      var a, b :| HasName(listing, version, a) && HasName(listing, version, b) && a != b;
      var other := if a == name then b else a;
      assert HasName(listing, version, other);
      assert HasFile(listing, version, other, true) || HasFile(listing, version, other, false);
    }
    if other, kind :| other != name && HasFile(listing, version, other, kind) {
      assert HasName(listing, version, other);
    }
  }

  // ---------------------------------------------------------------------------
  // Paths.
  // ---------------------------------------------------------------------------

  /** Entry `k` is the last file listed of its version and kind. */
  ghost predicate IsLast(listing: seq<DirEntry>, version: string, up: bool, k: int) {
    && 0 <= k < |listing| && IsKind(listing[k], version, up)
    && forall j :: k < j < |listing| ==> !IsKind(listing[j], version, up)
  }

  ghost predicate LastListed(dir: string, listing: seq<DirEntry>, version: string, up: bool, path: Option<string>) {
    match path
    case None => forall k :: 0 <= k < |listing| ==> !IsKind(listing[k], version, up)
    case Some(p) => exists k :: IsLast(listing, version, up, k) && p == PathOf(dir, listing[k].name.value)
  }

  lemma LastStays(dir: string, listing: seq<DirEntry>, e: DirEntry, version: string, up: bool, path: Option<string>)
    requires LastListed(dir, listing, version, up, path) && !IsKind(e, version, up)
    ensures LastListed(dir, listing + [e], version, up, path)
  {
    if path.Some? {
      var k :| IsLast(listing, version, up, k) && path.value == PathOf(dir, listing[k].name.value);
      hide IsKind, PathOf;
      assert IsLast(listing + [e], version, up, k);
    }
  }

  lemma LastIsNew(dir: string, listing: seq<DirEntry>, e: DirEntry, version: string, up: bool)
    requires IsKind(e, version, up)
    ensures LastListed(dir, listing + [e], version, up, Some(PathOf(dir, e.name.value)))
  {
    hide IsKind, PathOf;
    assert (listing + [e])[|listing|] == e;
    assert IsLast(listing + [e], version, up, |listing|);
  }

  lemma NoneListed(dir: string, listing: seq<DirEntry>, version: string, up: bool)
    requires !HasVersion(listing, version)
    ensures LastListed(dir, listing, version, up, None)
  {
    hide Parts;
  }

  lemma LastSnoc(dir: string, listing: seq<DirEntry>, e: DirEntry, version: string, up: bool,
                 before: Option<string>, after: Option<string>)
    requires LastListed(dir, listing, version, up, before)
    requires after == if IsKind(e, version, up) then Some(PathOf(dir, e.name.value)) else before
    ensures LastListed(dir, listing + [e], version, up, after)
  {
    hide PathOf, LastListed, Parts;
    if IsKind(e, version, up) {
      LastIsNew(dir, listing, e, version, up);
    } else {
      LastStays(dir, listing, e, version, up, before);
    }
  }

  /** One more entry of the directory sets the path of its own version and kind. */
  lemma AddedPaths(dir: string, groups: map<string, Pair>, e: DirEntry, version: string)
    requires version in Added(dir, groups, e)
    ensures var slot := if version in groups then groups[version] else Pair(None, None, []);
            var added := Added(dir, groups, e)[version];
            && added.upPath == (if IsKind(e, version, true) then Some(PathOf(dir, e.name.value)) else slot.upPath)
            && added.downPath == (if IsKind(e, version, false) then Some(PathOf(dir, e.name.value)) else slot.downPath)
  {
    PartsAreCaptures(e);
    hide Parts, CapturesOf, PathOf;
  }

  lemma {:induction false} GroupedByLast(dir: string, listing: seq<DirEntry>, version: string)
    requires version in Grouped(dir, listing)
    ensures LastListed(dir, listing, version, true, Grouped(dir, listing)[version].upPath)
    ensures LastListed(dir, listing, version, false, Grouped(dir, listing)[version].downPath)
  {
    var init, e := listing[..|listing| - 1], listing[|listing| - 1];
    var groups := Grouped(dir, init);
    assert listing == init + [e] && Grouped(dir, listing) == Added(dir, groups, e);
    hide *;
    GroupedFits(dir, init, version);
    var slot := Pair(None, None, []);
    if version in groups {
      slot := groups[version];
      GroupedByLast(dir, init, version);
    } else {
      NoneListed(dir, init, version, true);
      NoneListed(dir, init, version, false);
    }
    AddedPaths(dir, groups, e, version);
    LastSnoc(dir, init, e, version, true, slot.upPath, Added(dir, groups, e)[version].upPath);
    LastSnoc(dir, init, e, version, false, slot.downPath, Added(dir, groups, e)[version].downPath);
  }

  lemma {:induction false} AllAreDescribed(disk: Disk, versions: seq<string>, groups: map<string, Pair>)
    requires forall i :: 0 <= i < |versions| ==> versions[i] in groups
    requires AllDescribed(disk, versions, groups).Ok?
    ensures forall m :: m in AllDescribed(disk, versions, groups).value ==>
              m.version in groups && Described(disk, m.version, groups[m.version]) == Ok(Some(m))
  {
    if versions != [] {
      AllAreDescribed(disk, versions[1..], groups);
    }
  }

  /** Each entry is what its version's group describes. */
  lemma EntryIsDescribed(disk: Disk, listing: seq<DirEntry>, m: Migration)
    requires Discovered(disk, listing).Ok? && m in Discovered(disk, listing).value
    ensures m.version in Grouped(disk.dir, listing)
    ensures Described(disk, m.version, Grouped(disk.dir, listing)[m.version]) == Ok(Some(m))
  {
    var groups := Grouped(disk.dir, listing);
    InOrderHolds(groups.Keys);
    AllAreDescribed(disk, InOrder(groups.Keys), groups);
    hide Grouped, AllDescribed, Described, InOrder;
  }

  function ChecksumOf(disk: Disk, path: string): string {
    if path != "" && disk.read(path).Ok? then disk.sha(disk.read(path).value) else ""
  }

  lemma DescribedPaths(disk: Disk, version: string, pair: Pair)
    requires Described(disk, version, pair).Ok? && Described(disk, version, pair).value.Some?
    requires pair.upPath != Some("")
    ensures var m := Described(disk, version, pair).value.value;
            && pair.upPath == (if m.upPath == "" then None else Some(m.upPath))
            && m.downPath == pair.downPath && m.diskChecksum == ChecksumOf(disk, m.upPath) && m.appliedChecksum == None
  {
  }

  /** Every entry, duplicate or not, has the path of the last up file and of the last down file of
   *  its version that the directory lists, and the checksum of that up file, empty where there is
   *  none or it cannot be read. */
  lemma PathsAreLastListed(disk: Disk, listing: seq<DirEntry>, m: Migration)
    requires Discovered(disk, listing).Ok? && m in Discovered(disk, listing).value
    ensures LastListed(disk.dir, listing, m.version, true, if m.upPath == "" then None else Some(m.upPath))
    ensures LastListed(disk.dir, listing, m.version, false, m.downPath)
    ensures m.diskChecksum == ChecksumOf(disk, m.upPath) && m.appliedChecksum == None
  {
    EntryIsDescribed(disk, listing, m);
    var pair := Grouped(disk.dir, listing)[m.version];
    GroupedByLast(disk.dir, listing, m.version);
    assert pair.upPath != Some("") by {
      hide IsLast;
    }
    hide Grouped, Discovered, LastListed, Described;
    DescribedPaths(disk, m.version, pair);
  }

  // ---------------------------------------------------------------------------
  // Failure.
  // ---------------------------------------------------------------------------

  /** The version has one name, an up file, and that file cannot be read. */
  ghost predicate UpFileFails(disk: Disk, listing: seq<DirEntry>, version: string, message: string) {
    && !Clashes(listing, version)
    && exists name :: HasFile(listing, version, name, true)
                      && disk.read(FileOf(disk.dir, version, name, true)) == Err(message)
  }

  /** Entry `k` is the first that could not be read. */
  predicate IsFirstError(listing: seq<DirEntry>, k: int) {
    0 <= k < |listing| && listing[k].Unreadable? && forall j :: 0 <= j < k ==> !listing[j].Unreadable?
  }

  lemma {:induction false} FirstErrorExactly(listing: seq<DirEntry>)
    ensures FirstError(listing).None? <==> forall k :: 0 <= k < |listing| ==> !listing[k].Unreadable?
    ensures FirstError(listing).Some? ==>
              exists k :: IsFirstError(listing, k) && FirstError(listing).value == listing[k].message
  {
    if listing != [] {
      if listing[0].Unreadable? {
        assert IsFirstError(listing, 0);
      } else {
        FirstErrorExactly(listing[1..]);
        assert forall k :: 0 < k < |listing| ==> listing[k] == listing[1..][k - 1];
        if FirstError(listing[1..]).Some? {
          var k :| IsFirstError(listing[1..], k) && FirstError(listing[1..]).value == listing[1..][k].message;
          assert IsFirstError(listing, k + 1);
        }
      }
    }
  }

  lemma DescribedFailsExactly(disk: Disk, listing: seq<DirEntry>, version: string, pair: Pair, message: string)
    requires HasVersion(listing, version) && PairFits(disk.dir, listing, version, pair)
    ensures Described(disk, version, pair) == Err(message) <==> UpFileFails(disk, listing, version, message)
  {
    SlotNotEmpty(disk.dir, listing, version, pair);
    NamesClash(listing, version, pair.names);
    FactsAreFiles(listing, version);
    if |pair.names| == 1 {
      OnlyName(listing, version, pair.names);
      hide Clashes, HasKind, HasVersion, NamesFit, KindFits, HasName, FileOf, HasFile;
      PathIsFile(disk.dir, listing, version, pair.names[0], true, pair.upPath);
    }
  }

  lemma {:induction false} AllDescribedFails(disk: Disk, versions: seq<string>, groups: map<string, Pair>)
    requires forall i :: 0 <= i < |versions| ==> versions[i] in groups
    ensures AllDescribed(disk, versions, groups).Ok? <==>
            forall i :: 0 <= i < |versions| ==> Described(disk, versions[i], groups[versions[i]]).Ok?
    ensures AllDescribed(disk, versions, groups).Err? ==>
              exists i :: 0 <= i < |versions|
                && Described(disk, versions[i], groups[versions[i]]) == Err(AllDescribed(disk, versions, groups).error)
                && forall j :: 0 <= j < i ==> Described(disk, versions[j], groups[versions[j]]).Ok?
  {
    hide Described;
    if versions != [] {
      AllDescribedFails(disk, versions[1..], groups);
      assert forall i :: 0 < i < |versions| ==> versions[i] == versions[1..][i - 1];
      if AllDescribed(disk, versions, groups).Err? && Described(disk, versions[0], groups[versions[0]]).Ok? {
        var i :| 0 <= i < |versions| - 1
          && Described(disk, versions[1..][i], groups[versions[1..][i]]) == Err(AllDescribed(disk, versions[1..], groups).error)
          && forall j :: 0 <= j < i ==> Described(disk, versions[1..][j], groups[versions[1..][j]]).Ok?;
        assert versions[i + 1] == versions[1..][i];
      }
    }
  }

  /** The up file of this version fails, and that of no earlier version does. */
  ghost predicate FailsFirst(disk: Disk, listing: seq<DirEntry>, version: string, message: string) {
    && UpFileFails(disk, listing, version, message)
    && forall other, reason :: UpFileFails(disk, listing, other, reason) ==> other == version || Less(version, other)
  }

  /** The result is an error exactly when an entry of the directory cannot be read or the one up
   *  file of some version cannot. It is the error of the first such entry, or else that of the
   *  first such version in text order. */
  lemma DiscoverFailsExactly(disk: Disk, listing: seq<DirEntry>)
    ensures Discovered(disk, listing).Err? <==>
            || (exists k :: IsFirstError(listing, k))
            || (exists version, message :: UpFileFails(disk, listing, version, message))
    ensures Discovered(disk, listing).Err? ==>
              || (exists k :: IsFirstError(listing, k) && Discovered(disk, listing).error == listing[k].message)
              || ((forall k :: !IsFirstError(listing, k))
                  && exists version :: FailsFirst(disk, listing, version, Discovered(disk, listing).error))
  {
    FirstErrorExactly(listing);
    assert FirstError(listing).Some? ==> Discovered(disk, listing) == Err(FirstError(listing).value);
    hide Discovered, FirstError, UpFileFails, FailsFirst;
    if FirstError(listing).None? {
      GroupsFailExactly(disk, listing);
    }
  }

  lemma GroupFailsExactly(disk: Disk, listing: seq<DirEntry>, version: string)
    ensures forall message :: UpFileFails(disk, listing, version, message) <==>
              version in Grouped(disk.dir, listing)
              && Described(disk, version, Grouped(disk.dir, listing)[version]) == Err(message)
  {
    GroupedFits(disk.dir, listing, version);
    FactsAreFiles(listing, version);
    hide Grouped, Described, PairFits, HasVersion, HasName, HasKind, HasFile, Clashes;
    if version in Grouped(disk.dir, listing) {
      forall message {
        DescribedFailsExactly(disk, listing, version, Grouped(disk.dir, listing)[version], message);
      }
    }
  }

  lemma Listed(keys: set<string>, key: string) returns (j: nat)
    requires key in keys
    ensures j < |InOrder(keys)| && InOrder(keys)[j] == key
  {
    InOrderHolds(keys);
    hide InOrder;
    var versions := InOrder(keys);
    assert key in versions;
    j :| 0 <= j < |versions| && versions[j] == key;
  }

  /** The least failing version comes first. */
  lemma FirstFails(disk: Disk, listing: seq<DirEntry>, i: nat, message: string)
    requires var groups := Grouped(disk.dir, listing); var versions := InOrder(groups.Keys);
             && i < |versions| && (forall j :: 0 <= j < |versions| ==> versions[j] in groups)
             && Described(disk, versions[i], groups[versions[i]]) == Err(message)
             && forall j :: 0 <= j < i ==> Described(disk, versions[j], groups[versions[j]]).Ok?
    ensures FailsFirst(disk, listing, InOrder(Grouped(disk.dir, listing).Keys)[i], message)
  {
    var groups := Grouped(disk.dir, listing);
    var versions := InOrder(groups.Keys);
    InOrderHolds(groups.Keys);
    GroupFailsExactly(disk, listing, versions[i]);
    hide Grouped, Described, InOrder, UpFileFails, Less;
    forall other, reason | UpFileFails(disk, listing, other, reason) ensures other == versions[i] || Less(versions[i], other) {
      GroupFailsExactly(disk, listing, other);
      var j := Listed(groups.Keys, other);
      assert j >= i;
    }
  }

  lemma GroupsFailExactly(disk: Disk, listing: seq<DirEntry>)
    requires FirstError(listing).None?
    ensures var out := Discovered(disk, listing);
            && (out.Err? <==> exists version, message :: UpFileFails(disk, listing, version, message))
            && (out.Err? ==> exists version :: FailsFirst(disk, listing, version, out.error))
  {
    var groups := Grouped(disk.dir, listing);
    var versions := InOrder(groups.Keys);
    InOrderHolds(groups.Keys);
    AllDescribedFails(disk, versions, groups);
    var out := Discovered(disk, listing);
    assert out == AllDescribed(disk, versions, groups);
    hide Discovered, Grouped, AllDescribed, Described, InOrder, UpFileFails, Less;
    if out.Err? {
      var i :| 0 <= i < |versions| && Described(disk, versions[i], groups[versions[i]]) == Err(out.error)
        && forall j :: 0 <= j < i ==> Described(disk, versions[j], groups[versions[j]]).Ok?;
      FirstFails(disk, listing, i, out.error);
    } else {
      forall version, message ensures !UpFileFails(disk, listing, version, message) {
        if UpFileFails(disk, listing, version, message) {
          GroupFailsExactly(disk, listing, version);
          var j := Listed(groups.Keys, version);
          assert false;
        }
      }
    }
  }
}

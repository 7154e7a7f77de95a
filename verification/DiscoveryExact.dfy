/** Two things `discover` is said to do that it does only under a condition: showing a name that
 *  does not depend on the listing, and listing migrations in numeric order
 *  (src-tauri/src/migrations/discovery.rs).
 */
module DiscoveryExact {
  import opened Wrappers
  import opened Decimal
  import opened Discovery
  import opened DiscoveryOrder

  // ---------------------------------------------------------------------------
  // The name of an entry.
  // ---------------------------------------------------------------------------

  /** File `k` of the listing is the first of its version. */
  ghost predicate IsFirst(listing: seq<DirEntry>, version: string, k: int) {
    0 <= k < |listing| && IsOf(listing[k], version) && forall j :: 0 <= j < k ==> !IsOf(listing[j], version)
  }

  /** The entry has the name of the first file of its version. */
  ghost predicate NamedByFirst(listing: seq<DirEntry>, version: string, name: string) {
    exists k :: IsFirst(listing, version, k) && name == Parts(listing[k]).value.name
  }

  lemma FirstStays(listing: seq<DirEntry>, e: DirEntry, version: string, name: string)
    requires NamedByFirst(listing, version, name)
    ensures NamedByFirst(listing + [e], version, name)
  {
    var k :| IsFirst(listing, version, k) && name == Parts(listing[k]).value.name;
    hide Parts;
    assert IsFirst(listing + [e], version, k);
  }

  lemma FirstFound(listing: seq<DirEntry>, e: DirEntry, version: string)
    requires !HasVersion(listing, version) && IsOf(e, version)
    ensures NamedByFirst(listing + [e], version, Parts(e).value.name)
  {
    assert (listing + [e])[|listing|] == e;
    assert IsFirst(listing + [e], version, |listing|);
  }

  /** One more file leaves the first name of a slot, or opens a slot under its own name. */
  lemma FirstNameStays(dir: string, groups: map<string, Pair>, e: DirEntry, version: string)
    requires version in Added(dir, groups, e)
    requires version in groups ==> groups[version].names != []
    ensures var names := Added(dir, groups, e)[version].names;
            && names != []
            && (if version in groups then names[0] == groups[version].names[0]
                else IsOf(e, version) && names[0] == Parts(e).value.name)
  {
    PartsAreCaptures(e);
    hide Parts, CapturesOf, PathOf;
  }

  lemma {:induction false} GroupedByFirst(dir: string, listing: seq<DirEntry>, version: string)
    requires version in Grouped(dir, listing)
    ensures var names := Grouped(dir, listing)[version].names;
            names != [] && NamedByFirst(listing, version, names[0])
  {
    var init, e := listing[..|listing| - 1], listing[|listing| - 1];
    var groups := Grouped(dir, init);
    assert listing == init + [e] && Grouped(dir, listing) == Added(dir, groups, e);
    hide *;
    GroupedFits(dir, init, version);
    if version in groups {
      GroupedByFirst(dir, init, version);
      FirstNameStays(dir, groups, e, version);
      FirstStays(init, e, version, groups[version].names[0]);
    } else {
      FirstNameStays(dir, groups, e, version);
      FirstFound(init, e, version);
    }
  }

  lemma {:induction false} AllNamedByFirst(disk: Disk, listing: seq<DirEntry>, versions: seq<string>)
    requires forall i :: 0 <= i < |versions| ==> versions[i] in Grouped(disk.dir, listing)
    requires AllDescribed(disk, versions, Grouped(disk.dir, listing)).Ok?
    ensures forall m :: m in AllDescribed(disk, versions, Grouped(disk.dir, listing)).value ==>
              NamedByFirst(listing, m.version, m.name)
  {
    if versions != [] {
      GroupedByFirst(disk.dir, listing, versions[0]);
      AllNamedByFirst(disk, listing, versions[1..]);
      hide Grouped, NamedByFirst;
    }
  }

  /** Every entry, duplicate or not, shows the name of the first file of its version that the
   *  directory happens to list. */
  lemma NameIsFirstListed(disk: Disk, listing: seq<DirEntry>)
    requires Discovered(disk, listing).Ok?
    ensures forall m :: m in Discovered(disk, listing).value ==> NamedByFirst(listing, m.version, m.name)
  {
    var groups := Grouped(disk.dir, listing);
    InOrderHolds(groups.Keys);
    AllNamedByFirst(disk, listing, InOrder(groups.Keys));
    hide Grouped, AllDescribed, NamedByFirst, InOrder;
  }

  /** The name shown for `version`. */
  ghost predicate Shows(disk: Disk, listing: seq<DirEntry>, version: string, name: string) {
    && Discovered(disk, listing).Ok?
    && exists m :: m in Discovered(disk, listing).value && m.version == version && m.name == name
  }

  /** Every way to list the same directory shows one name for `version`. */
  ghost predicate NameIsStable(disk: Disk, listing: seq<DirEntry>, version: string) {
    forall a, b, name, other ::
      multiset(a) == multiset(b) == multiset(listing) && Shows(disk, a, version, name) && Shows(disk, b, version, other)
      ==> name == other
  }

  lemma FirstUnique(listing: seq<DirEntry>, version: string, name: string, other: string)
    requires NamedByFirst(listing, version, name) && NamedByFirst(listing, version, other)
    ensures name == other
  {
    var k :| IsFirst(listing, version, k) && name == Parts(listing[k]).value.name;
    var j :| IsFirst(listing, version, j) && other == Parts(listing[j]).value.name;
    hide Parts, IsOf;
  }

  lemma ShownIsFirst(disk: Disk, listing: seq<DirEntry>, version: string, name: string)
    requires Shows(disk, listing, version, name)
    ensures NamedByFirst(listing, version, name) && HasName(listing, version, name)
  {
    hide Discovered;
    NameIsFirstListed(disk, listing);
    var k :| IsFirst(listing, version, k) && name == Parts(listing[k]).value.name;
    assert listing[k] in listing;
  }

  lemma Reordered(a: seq<DirEntry>, b: seq<DirEntry>)
    requires multiset(a) == multiset(b)
    ensures SameEntries(a, b)
  {
    forall e ensures e in a <==> e in b {
      assert e in a <==> e in multiset(a);
      assert e in b <==> e in multiset(b);
    }
  }

  /** The listing with file `k` first. */
  function Fronted(listing: seq<DirEntry>, k: nat): seq<DirEntry>
    requires k < |listing|
  {
    [listing[k]] + listing[..k] + listing[k + 1..]
  }

  lemma FrontedIsReordered(listing: seq<DirEntry>, k: nat)
    requires k < |listing|
    ensures multiset(Fronted(listing, k)) == multiset(listing)
  {
    assert listing == listing[..k] + [listing[k]] + listing[k + 1..];
  }

  /** Listing a file first makes its name the one shown. */
  lemma FrontedShows(disk: Disk, listing: seq<DirEntry>, version: string, name: string) returns (a: seq<DirEntry>)
    requires Discovered(disk, listing).Ok? && HasName(listing, version, name)
    ensures multiset(a) == multiset(listing) && Shows(disk, a, version, name)
  {
    var e :| e in listing && IsOf(e, version) && Parts(e).value.name == name;
    var k :| 0 <= k < |listing| && listing[k] == e;
    a := Fronted(listing, k);
    FrontedIsReordered(listing, k);
    Reordered(a, listing);
    assert a[0] == e;
    assert IsFirst(a, version, 0);
    assert NamedByFirst(a, version, name);
    assert HasVersion(a, version);
    hide Parts, IsOf, Fronted, HasVersion, NamedByFirst;
    ListingsSucceedTogether(disk, listing, a);
    SomethingIsShown(disk, a, version, name);
  }

  lemma ListingsSucceedTogether(disk: Disk, a: seq<DirEntry>, b: seq<DirEntry>)
    requires SameEntries(a, b) && Discovered(disk, a).Ok?
    ensures Discovered(disk, b).Ok?
  {
    DiscoverIgnoresOrder(disk, a, b);
    hide Discovered, SameEntries;
  }

  lemma SomethingIsShown(disk: Disk, listing: seq<DirEntry>, version: string, name: string)
    requires Discovered(disk, listing).Ok? && HasVersion(listing, version) && NamedByFirst(listing, version, name)
    ensures Shows(disk, listing, version, name)
  {
    DiscoverSorted(disk, listing);
    NameIsFirstListed(disk, listing);
    hide Discovered, HasVersion, FlaggedRightly, NamedByFirst, Less;
    var out := Discovered(disk, listing).value;
    var i :| 0 <= i < |out| && out[i].version == version;
    assert out[i] in out;
    FirstUnique(listing, version, out[i].name, name);
  }

  /** The name shown for a version is independent of the order of the listing exactly when its
   *  files agree on the name. */
  lemma NameIsStableExactly(disk: Disk, listing: seq<DirEntry>, version: string)
    requires Discovered(disk, listing).Ok?
    ensures NameIsStable(disk, listing, version) <==> !Clashes(listing, version)
  {
    hide Discovered, HasName, NamedByFirst, Shows;
    if Clashes(listing, version) {
      var name, other :| HasName(listing, version, name) && HasName(listing, version, other) && name != other;
      var a := FrontedShows(disk, listing, version, name);
      var b := FrontedShows(disk, listing, version, other);
      assert !NameIsStable(disk, listing, version);
    } else {
      forall a, b, name, other |
        multiset(a) == multiset(b) == multiset(listing) && Shows(disk, a, version, name) && Shows(disk, b, version, other)
        ensures name == other
      {
        ShownIsFirst(disk, a, version, name);
        ShownIsFirst(disk, b, version, other);
        Reordered(a, listing);
        Reordered(b, listing);
        SameFacts(a, listing, version);
        SameFacts(b, listing, version);
      }
    }
  }

  // ---------------------------------------------------------------------------
  // Text order and numeric order.
  // ---------------------------------------------------------------------------

  lemma VersionsAreDigits(disk: Disk, listing: seq<DirEntry>, i: nat)
    requires Discovered(disk, listing).Ok? && i < |Discovered(disk, listing).value|
    ensures IsVersion(Discovered(disk, listing).value[i].version)
  {
    DiscoverSorted(disk, listing);
    hide Discovered, FlaggedRightly, Less;
    var version := Discovered(disk, listing).value[i].version;
    var e :| e in listing && IsOf(e, version);
  }

  predicate NumberBefore(v: string, w: string) {
    IsVersion(v) && IsVersion(w) && Value(v) < Value(w)
  }

  /** Two entries in the order listed are in numeric order exactly when the earlier has fewer
   *  significant digits, or as many and the smaller ones. */
  lemma EntryOrderExactly(disk: Disk, listing: seq<DirEntry>, i: nat, j: nat)
    requires Discovered(disk, listing).Ok? && i < j < |Discovered(disk, listing).value|
    ensures var v, w := Discovered(disk, listing).value[i].version, Discovered(disk, listing).value[j].version;
            && HasVersion(listing, v) && HasVersion(listing, w) && Less(v, w)
            && (NumberBefore(v, w) <==> NumericallyLess(v, w))
  {
    DiscoverSorted(disk, listing);
    VersionsAreDigits(disk, listing, i);
    VersionsAreDigits(disk, listing, j);
    hide Discovered, FlaggedRightly, HasVersion, Less, NumericallyLess;
    NumericallyLessExact(Discovered(disk, listing).value[i].version, Discovered(disk, listing).value[j].version);
  }

  /** One width suffices. */
  lemma DiscoverNumericOrder(disk: Disk, listing: seq<DirEntry>, i: nat, j: nat)
    requires Discovered(disk, listing).Ok? && i < j < |Discovered(disk, listing).value|
    requires |Discovered(disk, listing).value[i].version| == |Discovered(disk, listing).value[j].version|
    ensures NumberBefore(Discovered(disk, listing).value[i].version, Discovered(disk, listing).value[j].version)
  {
    EntryOrderExactly(disk, listing, i, j);
    VersionsAreDigits(disk, listing, i);
    VersionsAreDigits(disk, listing, j);
    hide Discovered, HasVersion, NumericallyLess, Less;
    LessIsNumeric(Discovered(disk, listing).value[i].version, Discovered(disk, listing).value[j].version);
  }

  /** Padded with zeros to four digits and no further, as migrations are numbered by hand. */
  predicate Canonical(version: string) {
    IsVersion(version) && (|version| == 4 || version[0] != '0')
  }

  /** For canonical versions the widths decide. */
  lemma CanonicalOrder(v: string, w: string)
    requires Canonical(v) && Canonical(w) && Less(v, w)
    ensures NumericallyLess(v, w) <==> |v| <= |w|
  {
    NumericallyLessExact(v, w);
    hide Value, NumericallyLess;
    if |v| < |w| {
      WiderIsLarger(v, w);
    } else if |w| < |v| {
      WiderIsLarger(w, v);
    } else {
      LessIsNumeric(v, w);
    }
  }

  ghost predicate InNumericOrder(out: seq<Migration>) {
    forall i, j :: 0 <= i < j < |out| ==> NumberBefore(out[i].version, out[j].version)
  }

  /** Two versions of the directory sort as text the other way round than as numbers. */
  ghost predicate Disagree(listing: seq<DirEntry>) {
    exists v, w :: HasVersion(listing, v) && HasVersion(listing, w) && Less(v, w) && !NumericallyLess(v, w)
  }

  lemma VersionListed(disk: Disk, listing: seq<DirEntry>, version: string) returns (i: nat)
    requires Discovered(disk, listing).Ok? && HasVersion(listing, version)
    ensures i < |Discovered(disk, listing).value| && Discovered(disk, listing).value[i].version == version
  {
    DiscoverSorted(disk, listing);
    hide *;
    i :| 0 <= i < |Discovered(disk, listing).value| && Discovered(disk, listing).value[i].version == version;
  }

  lemma ListedInOrder(disk: Disk, listing: seq<DirEntry>, i: nat, j: nat)
    requires Discovered(disk, listing).Ok?
    requires i < |Discovered(disk, listing).value| && j < |Discovered(disk, listing).value|
    requires Less(Discovered(disk, listing).value[i].version, Discovered(disk, listing).value[j].version)
    ensures i < j
  {
    DiscoverSorted(disk, listing);
    LessTotal(Discovered(disk, listing).value[i].version, Discovered(disk, listing).value[j].version);
    hide *;
  }

  lemma PairListed(disk: Disk, listing: seq<DirEntry>, v: string, w: string) returns (i: nat, j: nat)
    requires Discovered(disk, listing).Ok? && HasVersion(listing, v) && HasVersion(listing, w) && Less(v, w)
    ensures i < j < |Discovered(disk, listing).value|
    ensures Discovered(disk, listing).value[i].version == v && Discovered(disk, listing).value[j].version == w
  {
    hide *;
    i := VersionListed(disk, listing, v);
    j := VersionListed(disk, listing, w);
    ListedInOrder(disk, listing, i, j);
  }

  /** A directory is listed in numeric order exactly when its versions' text order and the order
   *  by significant digits agree. */
  lemma NumericOrderExactly(disk: Disk, listing: seq<DirEntry>)
    requires Discovered(disk, listing).Ok?
    ensures InNumericOrder(Discovered(disk, listing).value) <==> !Disagree(listing)
  {
    hide Discovered, HasVersion, Less, NumberBefore, NumericallyLess;
    var out := Discovered(disk, listing).value;
    if Disagree(listing) {
      var v, w :| HasVersion(listing, v) && HasVersion(listing, w) && Less(v, w) && !NumericallyLess(v, w);
      var i, j := PairListed(disk, listing, v, w);
      EntryOrderExactly(disk, listing, i, j);
    } else {
      forall i, j | 0 <= i < j < |out| ensures NumberBefore(out[i].version, out[j].version) {
        EntryOrderExactly(disk, listing, i, j);
      }
    }
  }

  /** No version of the directory sorts before a narrower one. */
  ghost predicate WidthsAscend(listing: seq<DirEntry>) {
    forall v, w :: HasVersion(listing, v) && HasVersion(listing, w) && Less(v, w) ==> |v| <= |w|
  }

  ghost predicate AllCanonical(listing: seq<DirEntry>) {
    forall version :: HasVersion(listing, version) ==> Canonical(version)
  }

  lemma WidthsDecide(listing: seq<DirEntry>)
    requires AllCanonical(listing)
    ensures Disagree(listing) <==> !WidthsAscend(listing)
  {
    hide HasVersion, Less, Canonical, NumericallyLess;
    if Disagree(listing) {
      var v, w :| HasVersion(listing, v) && HasVersion(listing, w) && Less(v, w) && !NumericallyLess(v, w);
      CanonicalOrder(v, w);
    }
    if !WidthsAscend(listing) {
      var v, w :| HasVersion(listing, v) && HasVersion(listing, w) && Less(v, w) && |v| > |w|;
      CanonicalOrder(v, w);
    }
  }

  /** For canonical versions: exactly when none sorts before a narrower one, as 10000 does
   *  before 9999. */
  lemma CanonicalOrderExactly(disk: Disk, listing: seq<DirEntry>)
    requires Discovered(disk, listing).Ok? && AllCanonical(listing)
    ensures InNumericOrder(Discovered(disk, listing).value) <==> WidthsAscend(listing)
  {
    hide *;
    NumericOrderExactly(disk, listing);
    WidthsDecide(listing);
  }

  lemma TextOrderIsNotNumeric()
    ensures Less("10000", "9999") && NumberBefore("9999", "10000")
  {
    assert "10000"[0] < "9999"[0];
    hide Value;
    WiderIsLarger("9999", "10000");
  }

  /** The comment's example: any directory that has both lists 10000 before 9999. */
  lemma TenThousandPrecedes9999(disk: Disk, listing: seq<DirEntry>)
    requires Discovered(disk, listing).Ok? && HasVersion(listing, "9999") && HasVersion(listing, "10000")
    ensures var out := Discovered(disk, listing).value;
            exists i, j :: 0 <= i < j < |out| && out[i].version == "10000" && out[j].version == "9999"
  {
    TextOrderIsNotNumeric();
    hide *;
    var i, j := PairListed(disk, listing, "10000", "9999");
  }
}

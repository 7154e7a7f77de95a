/** Finding migration files in a directory (src-tauri/src/migrations/discovery.rs). */
module Discovery {
  import opened Wrappers
  import opened Decimal

  type Bytes = seq<bv8>

  datatype Status = Pending | Applied | Dirty

  datatype ParseError = DuplicateVersion | OrphanRollback | FileMissing

  datatype Migration = Migration(
    version: string, name: string, upPath: string, downPath: Option<string>, status: Status,
    diskChecksum: string, appliedChecksum: Option<string>, parseError: Option<ParseError>)

  /** What `read_dir` yields: an entry whose name is text or not, a file or not, or an error. */
  datatype DirEntry = Entry(name: Option<string>, isFile: bool) | Unreadable(message: string)

  /** The directory, the contents of files, and the checksum function. */
  datatype Disk = Disk(dir: string, read: string -> Result<Bytes, string>, sha: Bytes -> string)

  // ---------------------------------------------------------------------------
  // File names: ^([0-9]{4,})_([a-z0-9_]+)\.(up|down)\.sql$
  // ---------------------------------------------------------------------------

  datatype Captures = Captures(version: string, name: string, up: bool)

  predicate IsVersion(s: string) {
    |s| >= 4 && AllDigits(s)
  }

  predicate IsName(s: string) {
    |s| >= 1 && forall i :: 0 <= i < |s| ==> 'a' <= s[i] <= 'z' || IsDigit(s[i]) || s[i] == '_'
  }

  function Suffix(up: bool): string {
    if up then ".up.sql" else ".down.sql"
  }

  /** The texts the regular expression matches, with their groups. */
  predicate Matches(file: string, c: Captures) {
    IsVersion(c.version) && IsName(c.name) && file == c.version + "_" + c.name + Suffix(c.up)
  }

  predicate EndsWith(s: string, suffix: string) {
    |s| >= |suffix| && s[|s| - |suffix|..] == suffix
  }

  function FirstUnderscore(s: string): (i: nat)
    ensures i <= |s| && (i < |s| ==> s[i] == '_') && forall k :: 0 <= k < i ==> s[k] != '_'
  {
    if s == "" || s[0] == '_' then 0 else 1 + FirstUnderscore(s[1..])
  }

  function SplitSuffix(rest: string): Option<(string, bool)> {
    if EndsWith(rest, Suffix(true)) then Some((rest[..|rest| - |Suffix(true)|], true))
    else if EndsWith(rest, Suffix(false)) then Some((rest[..|rest| - |Suffix(false)|], false))
    else None
  }

  function ParseName(file: string): Option<Captures> {
    var i := FirstUnderscore(file);
    if i == |file| then None else
    match SplitSuffix(file[i + 1..])
    case None => None
    case Some((name, up)) =>
      if IsVersion(file[..i]) && IsName(name) then Some(Captures(file[..i], name, up)) else None
  }

  lemma DigitsHaveNoUnderscore(version: string, rest: string)
    requires AllDigits(version)
    ensures FirstUnderscore(version + "_" + rest) == |version|
  {
    var s := version + "_" + rest;
    var i := FirstUnderscore(s);
    assert s[|version|] == '_';
    assert forall k :: 0 <= k < |version| ==> s[k] == version[k];
  }

  lemma SplitSuffixExact(rest: string, name: string, up: bool)
    ensures SplitSuffix(rest) == Some((name, up)) <==> rest == name + Suffix(up)
  {
    if rest == name + Suffix(up) {
      assert rest[..|name|] == name;
      if !up { SuffixesDiffer(name); }
    }
  }

  lemma SuffixesDiffer(name: string)
    ensures EndsWith(name + Suffix(false), Suffix(false)) && !EndsWith(name + Suffix(false), Suffix(true))
  {
    var rest := name + Suffix(false);
    assert rest[|rest| - 7..][0] == rest[|rest| - 7] == Suffix(false)[2];
    assert Suffix(true)[0] == '.' && Suffix(false)[2] == 'o';
  }

  lemma Regroup(version: string, name: string, suffix: string)
    ensures version + "_" + name + suffix == version + "_" + (name + suffix)
  {
  }

  lemma ParseMatching(file: string, c: Captures)
    requires Matches(file, c)
    ensures ParseName(file) == Some(c)
  {
    hide SplitSuffix, Suffix, IsName;
    var rest := c.name + Suffix(c.up);
    Regroup(c.version, c.name, Suffix(c.up));
    DigitsHaveNoUnderscore(c.version, rest);
    assert file[..|c.version|] == c.version;
    assert file[|c.version| + 1..] == rest;
    SplitSuffixExact(rest, c.name, c.up);
  }

  lemma MatchParsed(file: string)
    requires ParseName(file).Some?
    ensures Matches(file, ParseName(file).value)
  {
    hide SplitSuffix, Suffix, IsName, IsVersion;
    var c := ParseName(file).value;
    var rest := file[FirstUnderscore(file) + 1..];
    assert c.version + "_" + rest == file;
    SplitSuffixExact(rest, c.name, c.up);
    Regroup(c.version, c.name, Suffix(c.up));
  }

  /** The groups are unique: parsing finds the captures exactly when the expression matches. */
  lemma ParseNameExact(file: string, c: Captures)
    ensures ParseName(file) == Some(c) <==> Matches(file, c)
  {
    hide ParseName, Matches;
    if Matches(file, c) { ParseMatching(file, c); }
    if ParseName(file).Some? { MatchParsed(file); }
  }

  // ---------------------------------------------------------------------------
  // Grouping by version.
  // ---------------------------------------------------------------------------

  datatype Pair = Pair(upPath: Option<string>, downPath: Option<string>, names: seq<string>)

  function PathOf(dir: string, file: string): string {
    dir + "/" + file
  }

  function CapturesOf(e: DirEntry): Option<Captures> {
    if e.Entry? && e.isFile && e.name.Some? then ParseName(e.name.value) else None
  }

  /** A regular file whose name the expression matches, with these groups. */
  predicate IsMigrationFile(e: DirEntry, c: Captures) {
    e.Entry? && e.isFile && e.name.Some? && Matches(e.name.value, c)
  }

  /** An entry is taken up, under these groups, exactly when it is such a file. */
  lemma CapturesExactly(e: DirEntry, c: Captures)
    ensures CapturesOf(e) == Some(c) <==> IsMigrationFile(e, c)
  {
    hide ParseName, Matches;
    if e.Entry? && e.name.Some? { ParseNameExact(e.name.value, c); }
  }

  /** One more file in a version's slot; a later file of the same kind replaces an earlier one. */
  function Entered(slot: Pair, c: Captures, path: string): Pair {
    var slot := if c.name in slot.names then slot else slot.(names := slot.names + [c.name]);
    if c.up then slot.(upPath := Some(path)) else slot.(downPath := Some(path))
  }

  function Added(dir: string, groups: map<string, Pair>, e: DirEntry): map<string, Pair> {
    match CapturesOf(e)
    case None => groups
    case Some(c) =>
      var slot := if c.version in groups then groups[c.version] else Pair(None, None, []);
      groups[c.version := Entered(slot, c, PathOf(dir, e.name.value))]
  }

  function Grouped(dir: string, listing: seq<DirEntry>): map<string, Pair> {
    if listing == [] then map[]
    else Added(dir, Grouped(dir, listing[..|listing| - 1]), listing[|listing| - 1])
  }

  function FirstError(listing: seq<DirEntry>): Option<string> {
    if listing == [] then None
    else if listing[0].Unreadable? then Some(listing[0].message)
    else FirstError(listing[1..])
  }

  // ---------------------------------------------------------------------------
  // Describing the groups, in the order of their versions.
  // ---------------------------------------------------------------------------

  predicate IsLeast(keys: set<string>, least: string) {
    least in keys && forall key :: key in keys ==> key == least || Less(least, key)
  }

  lemma LeastExists(keys: set<string>)
    requires keys != {}
    ensures exists least :: IsLeast(keys, least)
  {
    var key :| key in keys;
    var rest := keys - {key};
    if rest == {} {
      assert keys == {key};
      assert IsLeast(keys, key);
    } else {
      LeastExists(rest);
      var least :| IsLeast(rest, least);
      LessTotal(key, least);
      if Less(key, least) {
        forall other | other in keys ensures other == key || Less(key, other) {
          if other != key && other != least { LessTransitive(key, least, other); }
        }
        assert IsLeast(keys, key);
      } else {
        assert IsLeast(keys, least);
      }
    }
  }

  lemma LeastUnique(keys: set<string>, a: string, b: string)
    requires IsLeast(keys, a) && IsLeast(keys, b)
    ensures a == b
  {
    LessTotal(a, b);
  }

  ghost function Least(keys: set<string>): (least: string)
    requires keys != {}
    ensures IsLeast(keys, least)
  {
    LeastExists(keys);
    var least :| IsLeast(keys, least);
    least
  }

  /** The keys of an ordered map, in the order it is iterated. */
  ghost function InOrder(keys: set<string>): seq<string> {
    if keys == {} then [] else [Least(keys)] + InOrder(keys - {Least(keys)})
  }

  /** The entry of one version; an unreadable up file of a sound version is an error. */
  function Described(disk: Disk, version: string, pair: Pair): Result<Option<Migration>, string> {
    var name := if pair.names == [] then "" else pair.names[0];
    if |pair.names| > 1 then
      var upPath := if pair.upPath.Some? then pair.upPath.value else "";
      var checksum := if upPath == "" then ""
                      else match disk.read(upPath) case Ok(bytes) => disk.sha(bytes) case Err(_) => "";
      Ok(Some(Migration(version, name, upPath, pair.downPath, Pending, checksum, None, Some(DuplicateVersion))))
    else if pair.upPath.Some? then
      match disk.read(pair.upPath.value)
      case Ok(bytes) =>
        Ok(Some(Migration(version, name, pair.upPath.value, pair.downPath, Pending, disk.sha(bytes), None, None)))
      case Err(e) => Err(e)
    else if pair.downPath.Some? then
      Ok(Some(Migration(version, name, "", pair.downPath, Pending, "", None, Some(OrphanRollback))))
    else Ok(None)
  }

  ghost function AllDescribed(disk: Disk, versions: seq<string>, groups: map<string, Pair>): Result<seq<Migration>, string>
    requires forall i :: 0 <= i < |versions| ==> versions[i] in groups
  {
    if versions == [] then Ok([])
    else
      match Described(disk, versions[0], groups[versions[0]])
      case Err(e) => Err(e)
      case Ok(entry) =>
        match AllDescribed(disk, versions[1..], groups)
        case Err(e) => Err(e)
        case Ok(rest) => Ok(if entry.Some? then [entry.value] + rest else rest)
  }

  lemma {:induction false} InOrderHolds(keys: set<string>)
    ensures forall i :: 0 <= i < |InOrder(keys)| ==> InOrder(keys)[i] in keys
    ensures forall key :: key in keys ==> key in InOrder(keys)
    ensures forall i, j :: 0 <= i < j < |InOrder(keys)| ==> Less(InOrder(keys)[i], InOrder(keys)[j])
  {
    if keys != {} {
      var rest := keys - {Least(keys)};
      InOrderHolds(rest);
      forall i, j | 0 <= i < j < |InOrder(keys)| ensures Less(InOrder(keys)[i], InOrder(keys)[j]) {
        assert InOrder(keys)[j] == InOrder(rest)[j - 1];
      }
    }
  }

  ghost function Discovered(disk: Disk, listing: seq<DirEntry>): Result<seq<Migration>, string> {
    if FirstError(listing).Some? then Err(FirstError(listing).value)
    else
      var groups := Grouped(disk.dir, listing);
      InOrderHolds(groups.Keys);
      AllDescribed(disk, InOrder(groups.Keys), groups)
  }

  // ---------------------------------------------------------------------------
  // The code.
  // ---------------------------------------------------------------------------

  function Prefixed(found: seq<Migration>, rest: Result<seq<Migration>, string>): Result<seq<Migration>, string> {
    match rest
    case Ok(more) => Ok(found + more)
    case Err(e) => Err(e)
  }

  lemma NothingPrefixed(r: Result<seq<Migration>, string>)
    ensures Prefixed([], r) == r
  {
    if r.Ok? { assert [] + r.value == r.value; }
  }

  lemma NextDescribed(disk: Disk, versions: seq<string>, groups: map<string, Pair>, found: seq<Migration>)
    requires versions != [] && forall i :: 0 <= i < |versions| ==> versions[i] in groups
    ensures Prefixed(found, AllDescribed(disk, versions, groups))
         == match Described(disk, versions[0], groups[versions[0]])
            case Err(e) => Err(e)
            case Ok(entry) => Prefixed(if entry.Some? then found + [entry.value] else found,
                                       AllDescribed(disk, versions[1..], groups))
  {
    hide Described;
    match Described(disk, versions[0], groups[versions[0]]) {
      case Err(_) =>
      case Ok(entry) =>
        match AllDescribed(disk, versions[1..], groups) {
          case Err(_) =>
          case Ok(rest) => if entry.Some? { assert found + ([entry.value] + rest) == found + [entry.value] + rest; }
        }
    }
  }

  method Discover(disk: Disk, listing: seq<DirEntry>) returns (out: Result<seq<Migration>, string>)
    ensures out == Discovered(disk, listing)
  {
    hide Described, Added, AllDescribed, Prefixed;
    var byVersion: map<string, Pair> := map[];
    assert listing[0..] == listing;
    for i := 0 to |listing|
      invariant byVersion == Grouped(disk.dir, listing[..i])
      invariant FirstError(listing) == FirstError(listing[i..])
    {
      assert listing[..i + 1][..i] == listing[..i];
      assert listing[i..][1..] == listing[i + 1..];
      if listing[i].Unreadable? {
        return Err(listing[i].message);
      }
      byVersion := Added(disk.dir, byVersion, listing[i]);
    }
    assert listing[..|listing|] == listing;
    assert FirstError(listing[|listing|..]).None?;
    InOrderHolds(byVersion.Keys);
    NothingPrefixed(AllDescribed(disk, InOrder(byVersion.Keys), byVersion));
    out := DescribeInOrder(disk, byVersion);
  }

  /** The second loop of `discover`: the ordered map's entries one after the other. */
  method DescribeInOrder(disk: Disk, byVersion: map<string, Pair>) returns (out: Result<seq<Migration>, string>)
    requires forall i :: 0 <= i < |InOrder(byVersion.Keys)| ==> InOrder(byVersion.Keys)[i] in byVersion
    ensures out == AllDescribed(disk, InOrder(byVersion.Keys), byVersion)
  {
    hide Described, Less;
    NothingPrefixed(AllDescribed(disk, InOrder(byVersion.Keys), byVersion));
    var found: seq<Migration> := [];
    var remaining := byVersion.Keys;
    while remaining != {}
      invariant remaining <= byVersion.Keys
      invariant forall i :: 0 <= i < |InOrder(remaining)| ==> InOrder(remaining)[i] in byVersion
      invariant AllDescribed(disk, InOrder(byVersion.Keys), byVersion)
             == Prefixed(found, AllDescribed(disk, InOrder(remaining), byVersion))
      decreases |remaining|
    {
      LeastExists(remaining);
      var version :| version in remaining && IsLeast(remaining, version);
      LeastUnique(remaining, version, Least(remaining));
      assert InOrder(remaining)[1..] == InOrder(remaining - {version});
      assert forall i :: 0 <= i < |InOrder(remaining - {version})| ==>
               InOrder(remaining - {version})[i] == InOrder(remaining)[i + 1];
      assert InOrder(remaining)[0] == version;
      NextDescribed(disk, InOrder(remaining), byVersion, found);
      hide AllDescribed, IsLeast, Prefixed;
      match Described(disk, version, byVersion[version]) {
        case Err(e) => return Err(e);
        case Ok(entry) =>
          if entry.Some? {
            found := found + [entry.value];
          }
      }
      remaining := remaining - {version};
    }
    assert Prefixed(found, AllDescribed(disk, InOrder({}), byVersion)) == Ok(found + []) && found + [] == found;
    out := Ok(found);
  }
}

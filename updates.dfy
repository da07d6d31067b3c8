/**
 * The selection rules of the self-updater: version strings and their order,
 * the update-available decision, which backup archives are kept, and which
 * entries of a downloaded release are installed. File-system effects are
 * left to the caller; these functions decide what they act on.
 */
module Updates {
  import opened Base
  import opened PyInt
  import opened Sorting
  import Config

  // ---------------------------------------------------------------- versions

  /** `s.lstrip(c)`: every leading `c` removed. */
  function LStrip(s: string, c: char): (r: string)
    ensures |r| <= |s| && r == s[|s| - |r|..]
    ensures forall k :: 0 <= k < |s| - |r| ==> s[k] == c
    ensures |r| > 0 ==> r[0] != c
  {
    if |s| > 0 && s[0] == c then LStrip(s[1..], c) else s
  }

  /** `int(x)` of every piece. */
  function ReadParts(parts: seq<string>): (r: seq<Option<int>>)
    ensures |r| == |parts|
    ensures forall k :: 0 <= k < |parts| ==> r[k] == ParseInt(parts[k])
  {
    seq(|parts|, k requires 0 <= k < |parts| => ParseInt(parts[k]))
  }

  /**
   * `VersionManager.parse_version`: leading 'v's dropped, the rest split on
   * '.', every piece read with `int()`; any unreadable piece gives (0, 0, 0).
   */
  function ParseVersion(version: string): (r: seq<int>)
    ensures var parts := Split(LStrip(version, 'v'), '.');
      (forall k :: 0 <= k < |parts| ==> ParseInt(parts[k]).Some?) ==>
        |r| == |parts| && forall k :: 0 <= k < |parts| ==> Some(r[k]) == ParseInt(parts[k])
    ensures var parts := Split(LStrip(version, 'v'), '.');
      (exists k :: 0 <= k < |parts| && ParseInt(parts[k]).None?) ==> r == [0, 0, 0]
  {
    var parts := Split(LStrip(version, 'v'), '.');
    var all := AllSome(ReadParts(parts));
    ReadAllParts(parts);
    if all.Some? then all.value
    else [0, 0, 0]
  }

  /** Reading every piece succeeds exactly when each piece is an integer, and then gives each one's value. */
  lemma ReadAllParts(parts: seq<string>)
    ensures AllSome(ReadParts(parts)).Some? <==> forall k :: 0 <= k < |parts| ==> ParseInt(parts[k]).Some?
    ensures AllSome(ReadParts(parts)).Some? ==>
              var values := AllSome(ReadParts(parts)).value;
              |values| == |parts| && forall k :: 0 <= k < |parts| ==> Some(values[k]) == ParseInt(parts[k])
  {
    var results := ReadParts(parts);
    assert forall k :: 0 <= k < |parts| ==> results[k] == ParseInt(parts[k]);
  }

  /** Python's `<` on tuples of integers: the first difference decides, a proper prefix is smaller. */
  predicate TupleLess(a: seq<int>, b: seq<int>) {
    if a == [] then b != []
    else if b == [] then false
    else if a[0] != b[0] then a[0] < b[0]
    else TupleLess(a[1..], b[1..])
  }

  lemma {:induction false} TupleLessIrreflexive(a: seq<int>)
    ensures !TupleLess(a, a)
    decreases |a|
  {
    if a != [] { TupleLessIrreflexive(a[1..]); }
  }

  /** Tuple order is total: of two different tuples exactly one is smaller. */
  lemma {:induction false} TupleLessTrichotomy(a: seq<int>, b: seq<int>)
    ensures a == b || TupleLess(a, b) || TupleLess(b, a)
    ensures !(TupleLess(a, b) && TupleLess(b, a))
    decreases |a|
  {
    if a != [] && b != [] && a[0] == b[0] {
      TupleLessTrichotomy(a[1..], b[1..]);
      if a[1..] == b[1..] {
        assert a == [a[0]] + a[1..] && b == [b[0]] + b[1..];
      }
    }
  }

  lemma {:induction false} TupleLessTransitive(a: seq<int>, b: seq<int>, c: seq<int>)
    requires TupleLess(a, b) && TupleLess(b, c)
    ensures TupleLess(a, c)
    decreases |a|
  {
    if a != [] && a[0] == b[0] && b[0] == c[0] {
      TupleLessTransitive(a[1..], b[1..], c[1..]);
    }
  }

  /** A proper prefix is an older version. */
  lemma {:induction false} PrefixIsLess(a: seq<int>, b: seq<int>)
    requires |a| < |b| && a == b[..|a|]
    ensures TupleLess(a, b)
    decreases |a|
  {
    if a != [] {
      assert a[1..] == b[1..][..|a| - 1];
      PrefixIsLess(a[1..], b[1..]);
    }
  }

  /** `VersionManager.compare_versions`: -1 older, 0 same, 1 newer. */
  function CompareVersions(current: string, latest: string): (r: int)
    ensures r == -1 <==> TupleLess(ParseVersion(current), ParseVersion(latest))
    ensures r == 1 <==> TupleLess(ParseVersion(latest), ParseVersion(current))
    ensures r == 0 <==> ParseVersion(current) == ParseVersion(latest)
  {
    var c := ParseVersion(current);
    var l := ParseVersion(latest);
    TupleLessTrichotomy(c, l);
    TupleLessIrreflexive(c);
    if TupleLess(c, l) then -1 else if TupleLess(l, c) then 1 else 0
  }

  /** Comparing is antisymmetric, and a version is the same as itself. */
  lemma CompareAntisymmetric(a: string, b: string)
    ensures CompareVersions(a, b) == -CompareVersions(b, a)
    ensures CompareVersions(a, a) == 0
  {
  }

  /** Comparing is transitive. */
  lemma CompareTransitive(a: string, b: string, c: string)
    requires CompareVersions(a, b) == -1 && CompareVersions(b, c) == -1
    ensures CompareVersions(a, c) == -1
  {
    TupleLessTransitive(ParseVersion(a), ParseVersion(b), ParseVersion(c));
  }

  /** `VersionManager.is_update_available`. */
  predicate IsUpdateAvailable(current: string, latest: string) {
    CompareVersions(current, latest) == -1
  }

  /** An update is offered exactly when the latest version is the newer one, never for the same version. */
  lemma UpdateAvailableOrder(current: string, latest: string)
    ensures IsUpdateAvailable(current, latest) <==> TupleLess(ParseVersion(current), ParseVersion(latest))
    ensures IsUpdateAvailable(current, latest) ==> !IsUpdateAvailable(latest, current)
    ensures !IsUpdateAvailable(current, current)
  {
  }

  /** `str(x)` of every part. */
  function Pieces(xs: seq<nat>): (r: seq<string>)
    ensures |r| == |xs|
    ensures forall k :: 0 <= k < |xs| ==> r[k] == NatToString(xs[k])
  {
    if xs == [] then [] else [NatToString(xs[0])] + Pieces(xs[1..])
  }

  /** `".".join(str(x) for x in xs)`: how a release names its version. */
  function VersionText(xs: seq<nat>): string {
    Join(Pieces(xs), '.')
  }

  lemma ParseNatText(n: nat)
    ensures ParseInt(NatToString(n)) == Some(n as int)
  {
    ParseIntOfIntToString(n);
    assert IntToString(n) == NatToString(n);
  }

  lemma ParsePieces(xs: seq<nat>)
    ensures AllSome(ReadParts(Pieces(xs))) == Some(xs)
  {
    var parts := Pieces(xs);
    var results := ReadParts(parts);
    forall k | 0 <= k < |xs| ensures results[k] == Some(xs[k] as int) {
      assert parts[k] == NatToString(xs[k]);
      ParseNatText(xs[k]);
    }
    AllSomeOf(results, xs);
  }

  /** Reading back a written version gives its parts again. */
  lemma ParseVersionText(xs: seq<nat>)
    requires |xs| >= 1
    ensures ParseVersion(VersionText(xs)) == xs
  {
    var parts := Pieces(xs);
    var text := VersionText(xs);
    assert parts[0] == NatToString(xs[0]);
    assert text[0] == parts[0][0];
    assert LStrip(text, 'v') == text;
    forall k | 0 <= k < |parts| ensures '.' !in parts[k] {
      assert forall i :: 0 <= i < |parts[k]| ==> '0' <= parts[k][i] <= '9';
    }
    SplitJoin(parts, '.');
    ParsePieces(xs);
  }

  /** A version that extends another by more parts is the newer one. */
  lemma LongerVersionIsNewer(xs: seq<nat>, ys: seq<nat>)
    requires 1 <= |xs| < |ys| && xs == ys[..|xs|]
    ensures CompareVersions(VersionText(xs), VersionText(ys)) == -1
    ensures IsUpdateAvailable(VersionText(xs), VersionText(ys))
  {
    ParseVersionText(xs);
    ParseVersionText(ys);
    PrefixIsLess(xs, ys);
  }

  lemma VersionTextOneZero()
    ensures VersionText([1, 0]) == "1.0"
    ensures VersionText([1, 0, 0]) == "1.0.0"
  {
    assert NatToString(1) == "1" && NatToString(0) == "0";
    assert Pieces([1, 0]) == ["1", "0"];
    assert Pieces([1, 0, 0]) == ["1", "0", "0"];
  }

  /** "1.0" is older than "1.0.0": the shorter tuple is the smaller one. */
  lemma ShorterVersionIsOlder()
    ensures IsUpdateAvailable("1.0", "1.0.0")
  {
    VersionTextOneZero();
    LongerVersionIsNewer([1, 0], [1, 0, 0]);
  }

  /** An unreadable piece makes the version (0, 0, 0), whatever the other pieces say. */
  lemma UnreadableVersion(version: string)
    requires exists k :: 0 <= k < |Split(LStrip(version, 'v'), '.')| && ParseInt(Split(LStrip(version, 'v'), '.')[k]).None?
    ensures ParseVersion(version) == [0, 0, 0]
    ensures ParseVersion(version) == ParseVersion(VersionText([0, 0, 0]))
  {
    ParseVersionText([0, 0, 0]);
  }

  // ---------------------------------------------------------------- backups

  /** A directory entry with its modification time (`st_mtime`, here an integer count). */
  datatype FileEntry = FileEntry(name: string, mtime: int)

  const BACKUP_PREFIX: string := "xharvester_backup_"
  const BACKUP_SUFFIX: string := ".zip"

  /** The glob `xharvester_backup_*.zip`. */
  predicate IsBackupName(name: string) {
    |name| >= |BACKUP_PREFIX| + |BACKUP_SUFFIX| && StartsWith(name, BACKUP_PREFIX) && EndsWith(name, BACKUP_SUFFIX)
  }

  /** The entries the glob matches, in directory order. */
  function Backups(entries: seq<FileEntry>): (r: seq<FileEntry>)
    ensures forall e :: e in r <==> e in entries && IsBackupName(e.name)
    ensures |r| <= |entries|
  {
    if entries == [] then []
    else Backups(entries[..|entries| - 1])
         + (if IsBackupName(entries[|entries| - 1].name) then [entries[|entries| - 1]] else [])
  }

  function MTime(e: FileEntry): int { e.mtime }

  /** `sorted(backups, key=mtime, reverse=True)`: newest first. */
  function NewestFirst(entries: seq<FileEntry>): seq<FileEntry> {
    SortDesc(Backups(entries), MTime)
  }

  /** `cleanup_old_backups`: the `BACKUP_COUNT` newest backups stay. */
  function KeptBackups(entries: seq<FileEntry>): (r: seq<FileEntry>)
    ensures |r| == if |Backups(entries)| < Config.BACKUP_COUNT then |Backups(entries)| else Config.BACKUP_COUNT
  {
    Take(NewestFirst(entries), Config.BACKUP_COUNT)
  }

  /** `cleanup_old_backups`: the older backups are unlinked. */
  function DeletedBackups(entries: seq<FileEntry>): (r: seq<FileEntry>)
    ensures |r| == if |Backups(entries)| <= Config.BACKUP_COUNT then 0 else |Backups(entries)| - Config.BACKUP_COUNT
  {
    Drop(NewestFirst(entries), Config.BACKUP_COUNT)
  }

  /** No deleted backup is newer than a kept one. */
  lemma CleanupKeepsNewest(entries: seq<FileEntry>)
    ensures forall k, d :: k in KeptBackups(entries) && d in DeletedBackups(entries) ==> k.mtime >= d.mtime
  {
    SortedSplitDominates(Backups(entries), MTime, Config.BACKUP_COUNT);
  }

  /** Kept and deleted together are exactly the backups found, each once. */
  lemma CleanupPartitionsBackups(entries: seq<FileEntry>)
    ensures multiset(KeptBackups(entries)) + multiset(DeletedBackups(entries)) == multiset(Backups(entries))
  {
    SortedSplitPartition(Backups(entries), MTime, Config.BACKUP_COUNT);
  }

  /** Only entries the backup glob matches are ever deleted. */
  lemma CleanupDeletesOnlyBackups(entries: seq<FileEntry>)
    ensures forall d :: d in DeletedBackups(entries) ==> d in entries && IsBackupName(d.name)
  {
    var deleted := DeletedBackups(entries);
    var backups := Backups(entries);
    CleanupPartitionsBackups(entries);
    forall d | d in deleted ensures d in backups {
      assert d in multiset(deleted);
      assert d in multiset(backups);
    }
  }

  // ---------------------------------------------------------------- install

  datatype EntryKind = File | Dir | Other

  datatype SourceEntry = SourceEntry(name: string, kind: EntryKind)

  /** What `_install_update` does with one entry of the release. */
  datatype InstallAction = Skip | CopyFile | ReplaceDir | CopyDir

  const EXCLUDE_DIRS: set<string> := {".git", "__pycache__", "venv", "backups", "logs"}
  const EXCLUDE_FILE_SUFFIXES: seq<string> := [".pyc", ".pyo", ".pyd"]

  /** `any(name.endswith(ext.lstrip('*')) for ext in exclude_files)`. */
  predicate ExcludedFile(name: string) {
    exists k :: 0 <= k < |EXCLUDE_FILE_SUFFIXES| && EndsWith(name, EXCLUDE_FILE_SUFFIXES[k])
  }

  /**
   * The rule for one entry: excluded names are skipped whatever their kind,
   * files are copied unless compiled Python, directories are replaced when
   * already present (never `logs` or `backups`) and copied otherwise.
   */
  function InstallActionFor(e: SourceEntry, destExists: bool): (a: InstallAction)
    ensures e.name in EXCLUDE_DIRS ==> a == Skip
    ensures e.kind == File && e.name !in EXCLUDE_DIRS ==> (a == CopyFile <==> !ExcludedFile(e.name))
    ensures a == ReplaceDir ==> e.kind == Dir && destExists && e.name != "logs" && e.name != "backups"
    ensures e.kind == Other ==> a == Skip
  {
    if e.name in EXCLUDE_DIRS then Skip
    else match e.kind
      case File => if ExcludedFile(e.name) then Skip else CopyFile
      case Dir =>
        if destExists && e.name !in {"logs", "backups"} then ReplaceDir
        else if !destExists then CopyDir
        else Skip
      case Other => Skip
  }

  /** `_install_update` over the release's entries, given which names already exist in the installation. */
  function InstallPlan(entries: seq<SourceEntry>, existing: set<string>): (plan: seq<InstallAction>)
    ensures |plan| == |entries|
    ensures forall k :: 0 <= k < |entries| ==> plan[k] == InstallActionFor(entries[k], entries[k].name in existing)
  {
    seq(|entries|, k requires 0 <= k < |entries| => InstallActionFor(entries[k], entries[k].name in existing))
  }

  /**
   * An entry is installed (copied or replaced) exactly when its name is not
   * excluded and it is a directory or a file that is not compiled Python.
   */
  lemma InstalledEntries(e: SourceEntry, destExists: bool)
    ensures InstallActionFor(e, destExists) != Skip <==>
              e.name !in EXCLUDE_DIRS && (e.kind == Dir || (e.kind == File && !ExcludedFile(e.name)))
  {
  }
}

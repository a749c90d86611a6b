/** Which `.rs` files of a package are scanned, and as what: the crate-root
    files of its build targets (`src/lib.rs`, `src/main.rs`, `build.rs`, ...)
    and every other `.rs` file found under the package root. */
module Classifier {
  import opened Wrappers
  import opened Strings
  import opened Paths
  import opened Seqs

  /** An abort of the audit (`expect`, `panic!`), with its message. */
  datatype Panic = Panic(msg: string)

  /** cargo's build target kinds (the crate types of a library are carried
      along and play no part here). */
  datatype TargetKind =
    | Lib(crateTypes: seq<string>)
    | Bin
    | Test
    | Bench
    | ExampleLib(exampleCrateTypes: seq<string>)
    | ExampleBin
    | CustomBuild

  /** The kinds whose entry file is scanned like any other file. */
  predicate IsAuxiliary(kind: TargetKind) {
    kind.Test? || kind.Bench? || kind.ExampleLib? || kind.ExampleBin?
  }

  /** A source file to scan, tagged with the role it plays in its package. */
  datatype RsFile =
    | LibRoot(Path)
    | BinRoot(Path)
    | CustomBuildRoot(Path)
    | Other(Path)
  {
    /** The path of the file, whatever its role. */
    function AsPathBuf(): Path {
      match this
      case LibRoot(pb) => pb
      case BinRoot(pb) => pb
      case CustomBuildRoot(pb) => pb
      case Other(pb) => pb
    }
  }

  /** The role a target's entry file plays: the tag depends on the kind
      alone, every kind has exactly one, and the path is carried unchanged. */
  function IntoRsCodeFile(kind: TargetKind, path: Path): (f: RsFile)
    ensures f.AsPathBuf() == path
    ensures f.LibRoot? <==> kind.Lib?
    ensures f.BinRoot? <==> kind.Bin?
    ensures f.CustomBuildRoot? <==> kind.CustomBuild?
    ensures f.Other? <==> IsAuxiliary(kind)
  {
    match kind
    case Lib(_) => LibRoot(path)
    case Bin => BinRoot(path)
    case Test => Other(path)
    case Bench => Other(path)
    case ExampleLib(_) => Other(path)
    case ExampleBin => Other(path)
    case CustomBuild => CustomBuildRoot(path)
  }

  /** A build target: its kind and the path of its entry file, if its
      source is a file at all. */
  datatype Target = Target(kind: TargetKind, srcPath: Option<Path>)

  type PackageId = string

  datatype Package = Package(id: PackageId, root: Path, targets: seq<Target>)

  // ---------------------------------------------------------------------
  // The files under the package root.

  /** An item of the walk that does not abort it. */
  predicate WalkOk(w: WalkEntry, canon: Path -> Option<Path>) {
    w.Entry? && (IsFileWithExt(w.entry, "rs") ==> canon(w.entry.path).Some?)
  }

  /** An item of the walk that is a `.rs` file with canonical path `p`. */
  predicate RsEntryAt(w: WalkEntry, canon: Path -> Option<Path>, p: Path) {
    w.Entry? && IsFileWithExt(w.entry, "rs") && canon(w.entry.path) == Some(p)
  }

  /** The canonical paths of the `.rs` files among the walked items, in
      walk order; an I/O error of the walk or a path that cannot be made
      canonical aborts. */
  function RsFilesIn(entries: seq<WalkEntry>, canon: Path -> Option<Path>): (r: Result<seq<Path>, Panic>)
    ensures r.Success? <==> forall i :: 0 <= i < |entries| ==> WalkOk(entries[i], canon)
    ensures r.Success? ==> forall p :: p in r.value <==>
      exists i :: 0 <= i < |entries| && RsEntryAt(entries[i], canon, p)
    decreases |entries|
  {
    if entries == [] then Success([])
    else
      var rest := RsFilesIn(entries[1..], canon);
      assert forall i :: 1 <= i < |entries| ==> entries[i] == entries[1..][i - 1];
      match entries[0]
      case WalkError => Failure(Panic("walkdir error."))
      case Entry(e) =>
        if !IsFileWithExt(e, "rs") then rest
        else
          match canon(e.path)
          case None => Failure(Panic("Error converting to canonical path"))
          case Some(c) =>
            match rest
            case Failure(err) => Failure(err)
            case Success(files) => Success([c] + files)
  }

  /** `find_rs_files_in_dir`: the walk from `dir`. */
  function FindRsFilesInDir(fs: Fs, dir: Path): Result<seq<Path>, Panic> {
    RsFilesIn(fs.walk(dir), fs.canonicalize)
  }

  // ---------------------------------------------------------------------
  // The build targets.

  /** A target that takes part: its source is a file that exists. */
  predicate Kept(fs: Fs, t: Target) {
    t.srcPath.Some? && fs.pathExists(t.srcPath.value)
  }

  /** The targets that take part, in order, each with its canonical path. */
  function Declared(fs: Fs, targets: seq<Target>): Result<seq<(Path, Target)>, Panic>
    decreases |targets|
  {
    if targets == [] then Success([])
    else
      match Declared(fs, targets[..|targets| - 1])
      case Failure(e) => Failure(e)
      case Success(pairs) =>
        var t := Last(targets);
        if !Kept(fs, t) then Success(pairs)
        else
          match fs.canonicalize(t.srcPath.value)
          case None => Failure(Panic("canonicalize for build target path failed."))
          case Some(c) => Success(pairs + [(c, t)])
  }

  /** The canonical paths that carry at least one target. */
  function PathsOf(pairs: seq<(Path, Target)>): set<Path> {
    set i | 0 <= i < |pairs| :: pairs[i].0
  }

  /** The targets at canonical path `c`, in declaration order. */
  function TargetsAt(pairs: seq<(Path, Target)>, c: Path): seq<Target>
    decreases |pairs|
  {
    if pairs == [] then []
    else TargetsAt(pairs[..|pairs| - 1], c) + (if Last(pairs).0 == c then [Last(pairs).1] else [])
  }

  /** One record per target, in declaration order. */
  function Records(pairs: seq<(Path, Target)>): (r: seq<RsFile>)
    ensures |r| == |pairs|
  {
    seq(|pairs|, i requires 0 <= i < |pairs| => IntoRsCodeFile(pairs[i].1.kind, pairs[i].0))
  }

  /** The records of the targets whose path is in `ks`. */
  function RecordsIn(pairs: seq<(Path, Target)>, ks: set<Path>): multiset<RsFile>
    decreases |pairs|
  {
    if pairs == [] then multiset{}
    else
      var x := Last(pairs);
      RecordsIn(pairs[..|pairs| - 1], ks)
        + (if x.0 in ks then multiset{IntoRsCodeFile(x.1.kind, x.0)} else multiset{})
  }

  /** The records a list of targets at `c` gives. */
  function RecordsAt(ts: seq<Target>, c: Path): (r: seq<RsFile>)
    ensures |r| == |ts|
  {
    seq(|ts|, i requires 0 <= i < |ts| => IntoRsCodeFile(ts[i].kind, c))
  }

  /** The walked files that are no target's entry file, tagged `Other`. */
  function Others(files: seq<Path>, keys: set<Path>): seq<RsFile>
    decreases |files|
  {
    if files == [] then []
    else Others(files[..|files| - 1], keys) + (if Last(files) in keys then [] else [Other(Last(files))])
  }

  /** What the records of a package are, up to the order of the target
      records: the other files in walk order, then one record per target. */
  predicate Classified(out: seq<RsFile>, pairs: seq<(Path, Target)>, files: seq<Path>) {
    var others := Others(files, PathsOf(pairs));
    |others| <= |out| && out[..|others|] == others
    && multiset(out[|others|..]) == multiset(Records(pairs))
  }

  /** A reference order of the records of a package: targets in
      declaration order. Errors are those of the targets first, then those
      of the walk. */
  function Expected(pack: Package, fs: Fs): Result<seq<RsFile>, Panic> {
    match Declared(fs, pack.targets)
    case Failure(e) => Failure(e)
    case Success(pairs) =>
      match FindRsFilesInDir(fs, pack.root)
      case Failure(e) => Failure(e)
      case Success(files) => Success(Others(files, PathsOf(pairs)) + Records(pairs))
  }

  lemma PathsOfSnoc(pairs: seq<(Path, Target)>, x: (Path, Target))
    ensures PathsOf(pairs + [x]) == PathsOf(pairs) + {x.0}
  {
    var ps := pairs + [x];
    assert ps[|pairs|].0 == x.0;
    forall c | c in PathsOf(pairs) ensures c in PathsOf(ps) {
      var i :| 0 <= i < |pairs| && pairs[i].0 == c;
      assert ps[i] == pairs[i];
    }
  }

  lemma TargetsAtSnoc(pairs: seq<(Path, Target)>, x: (Path, Target), c: Path)
    ensures TargetsAt(pairs + [x], c) == TargetsAt(pairs, c) + (if x.0 == c then [x.1] else [])
  {
    assert (pairs + [x])[..|pairs|] == pairs;
  }

  lemma {:induction false} TargetsAtMissing(pairs: seq<(Path, Target)>, c: Path)
    requires c !in PathsOf(pairs)
    ensures TargetsAt(pairs, c) == []
    decreases |pairs|
  {
    if pairs != [] {
      var init := pairs[..|pairs| - 1];
      assert pairs == init + [Last(pairs)];
      PathsOfSnoc(init, Last(pairs));
      TargetsAtMissing(init, c);
    }
  }

  /** The map `canon_targets` holds after the targets in `pairs`. */
  function Grouped(pairs: seq<(Path, Target)>): map<Path, seq<Target>> {
    map c | c in PathsOf(pairs) :: TargetsAt(pairs, c)
  }

  /** Adding a target to `canon_targets` the way `entry(..).or_insert_with(..).push(..)` does. */
  lemma GroupedSnoc(pairs: seq<(Path, Target)>, x: (Path, Target))
    ensures Grouped(pairs + [x]) ==
      Grouped(pairs)[x.0 := (if x.0 in Grouped(pairs) then Grouped(pairs)[x.0] else []) + [x.1]]
  {
    PathsOfSnoc(pairs, x);
    if x.0 !in PathsOf(pairs) { TargetsAtMissing(pairs, x.0); }
    forall c | c in PathsOf(pairs + [x]) ensures Grouped(pairs + [x])[c] ==
      Grouped(pairs)[x.0 := (if x.0 in Grouped(pairs) then Grouped(pairs)[x.0] else []) + [x.1]][c]
    {
      TargetsAtSnoc(pairs, x, c);
    }
  }

  lemma OthersSnoc(files: seq<Path>, keys: set<Path>, p: Path)
    ensures Others(files + [p], keys) == Others(files, keys) + (if p in keys then [] else [Other(p)])
  {
    assert (files + [p])[..|files|] == files;
  }

  lemma RecordsAtAppend(a: seq<Target>, b: seq<Target>, c: Path)
    ensures RecordsAt(a + b, c) == RecordsAt(a, c) + RecordsAt(b, c)
  {
  }

  /** Emitting the targets of one more path adds their records. */
  lemma {:induction false} RecordsInAdd(pairs: seq<(Path, Target)>, ks: set<Path>, k: Path)
    requires k !in ks
    ensures RecordsIn(pairs, ks + {k}) == RecordsIn(pairs, ks) + multiset(RecordsAt(TargetsAt(pairs, k), k))
    decreases |pairs|
  {
    if pairs != [] {
      var init, x := pairs[..|pairs| - 1], Last(pairs);
      RecordsInAdd(init, ks, k);
      RecordsAtAppend(TargetsAt(init, k), if x.0 == k then [x.1] else [], k);
    }
  }

  lemma {:induction false} RecordsInAll(pairs: seq<(Path, Target)>, ks: set<Path>)
    requires PathsOf(pairs) <= ks
    ensures RecordsIn(pairs, ks) == multiset(Records(pairs))
    decreases |pairs|
  {
    if pairs != [] {
      var init, x := pairs[..|pairs| - 1], Last(pairs);
      assert pairs == init + [x];
      PathsOfSnoc(init, x);
      RecordsInAll(init, ks);
      assert Records(pairs) == Records(init) + [IntoRsCodeFile(x.1.kind, x.0)];
    }
  }

  lemma {:induction false} RecordsInNone(pairs: seq<(Path, Target)>)
    ensures RecordsIn(pairs, {}) == multiset{}
    decreases |pairs|
  {
    if pairs != [] { RecordsInNone(pairs[..|pairs| - 1]); }
  }

  /** The first loop of `find_rs_files_in_package`: the kept targets
      grouped by canonical path into `canon_targets`. */
  method GroupTargets(targets: seq<Target>, fs: Fs) returns (r: Result<map<Path, seq<Target>>, Panic>)
    ensures r.Success? <==> Declared(fs, targets).Success?
    ensures r.Failure? ==> r.error == Declared(fs, targets).error
    ensures r.Success? ==> r.value == Grouped(Declared(fs, targets).value)
  {
    var canonTargets: map<Path, seq<Target>> := map[];
    ghost var pairs: seq<(Path, Target)> := [];
    var i := 0;
    while i < |targets|
      invariant 0 <= i <= |targets|
      invariant Declared(fs, targets[..i]) == Success(pairs)
      invariant canonTargets == Grouped(pairs)
    {
      var t := targets[i];
      assert targets[..i + 1][..i] == targets[..i];
      assert Last(targets[..i + 1]) == t;
      if t.srcPath.Some? && fs.pathExists(t.srcPath.value) {
        var canon := fs.canonicalize(t.srcPath.value);
        if canon.None? {
          DeclaredFailurePersists(fs, targets, i + 1);
          return Failure(Panic("canonicalize for build target path failed."));
        }
        var c := canon.value;
        GroupedSnoc(pairs, (c, t));
        var prior := if c in canonTargets then canonTargets[c] else [];
        canonTargets := canonTargets[c := prior + [t]];
        pairs := pairs + [(c, t)];
      }
      i := i + 1;
    }
    assert targets[..i] == targets;
    r := Success(canonTargets);
  }

  /** The second loop: the walked files that are no key, as `Other`, in walk order. */
  method OtherFiles(files: seq<Path>, canonTargets: map<Path, seq<Target>>) returns (out: seq<RsFile>)
    ensures out == Others(files, canonTargets.Keys)
  {
    out := [];
    var n := 0;
    while n < |files|
      invariant 0 <= n <= |files|
      invariant out == Others(files[..n], canonTargets.Keys)
    {
      assert files[..n + 1] == files[..n] + [files[n]];
      OthersSnoc(files[..n], canonTargets.Keys, files[n]);
      if files[n] !in canonTargets {
        out := out + [Other(files[n])];
      }
      n := n + 1;
    }
    assert files[..n] == files;
  }

  /** The inner loop over the targets at one canonical path. */
  method KeyRecords(v: seq<Target>, k: Path) returns (out: seq<RsFile>)
    ensures out == RecordsAt(v, k)
  {
    out := [];
    var m := 0;
    while m < |v|
      invariant 0 <= m <= |v|
      invariant out == RecordsAt(v[..m], k)
    {
      assert v[..m + 1] == v[..m] + [v[m]];
      RecordsAtAppend(v[..m], [v[m]], k);
      out := out + [IntoRsCodeFile(v[m].kind, k)];
      m := m + 1;
    }
    assert v[..m] == v;
  }

  /** The third loop: key by key, in the map's own order, one record per
      target at that key. */
  method TargetFiles(canonTargets: map<Path, seq<Target>>, ghost pairs: seq<(Path, Target)>) returns (out: seq<RsFile>)
    requires canonTargets == Grouped(pairs)
    ensures multiset(out) == multiset(Records(pairs))
  {
    out := [];
    var remaining := canonTargets.Keys;
    RecordsInNone(pairs);
    assert remaining == PathsOf(pairs);
    assert PathsOf(pairs) - remaining == {};
    while remaining != {}
      invariant remaining <= PathsOf(pairs)
      invariant multiset(out) == RecordsIn(pairs, PathsOf(pairs) - remaining)
      decreases remaining
    {
      var k :| k in remaining;
      var recs := KeyRecords(canonTargets[k], k);
      RecordsInAdd(pairs, PathsOf(pairs) - remaining, k);
      assert PathsOf(pairs) - (remaining - {k}) == (PathsOf(pairs) - remaining) + {k};
      out := out + recs;
      remaining := remaining - {k};
    }
    assert PathsOf(pairs) - remaining == PathsOf(pairs);
    RecordsInAll(pairs, PathsOf(pairs));
  }

  /** `find_rs_files_in_package`. The targets are grouped by canonical path
      in a map; the walked files that are not keys of the map come out first,
      as `Other`, in walk order; then, key by key in the map's own order,
      one record per target at that key. */
  method FindRsFilesInPackage(pack: Package, fs: Fs) returns (r: Result<seq<RsFile>, Panic>)
    ensures r.Success? <==> Expected(pack, fs).Success?
    ensures r.Failure? ==> r == Expected(pack, fs)
    ensures r.Success? ==>
      Classified(r.value, Declared(fs, pack.targets).value, FindRsFilesInDir(fs, pack.root).value)
  {
    var grouped := GroupTargets(pack.targets, fs);
    if grouped.Failure? {
      return Failure(grouped.error);
    }
    var canonTargets := grouped.value;
    ghost var pairs := Declared(fs, pack.targets).value;
    var found := FindRsFilesInDir(fs, pack.root);
    if found.Failure? {
      return Failure(found.error);
    }
    var others := OtherFiles(found.value, canonTargets);
    var records := TargetFiles(canonTargets, pairs);
    assert canonTargets.Keys == PathsOf(pairs);
    var out := others + records;
    assert out[..|others|] == others && out[|others|..] == records;
    r := Success(out);
  }

  lemma {:induction false} DeclaredFailurePersists(fs: Fs, targets: seq<Target>, j: nat)
    requires j <= |targets| && Declared(fs, targets[..j]).Failure?
    ensures Declared(fs, targets) == Declared(fs, targets[..j])
    decreases |targets| - j
  {
    if j < |targets| {
      assert targets[..j + 1][..j] == targets[..j];
      DeclaredFailurePersists(fs, targets, j + 1);
    } else {
      assert targets[..j] == targets;
    }
  }

  /** Tags every record of a package with the package's id. */
  function Tag(id: PackageId, files: seq<RsFile>): seq<(PackageId, RsFile)> {
    MapSeq((f: RsFile) => (id, f), files)
  }

  /** The records of a run of packages, one package after another;
      the first package that aborts aborts the whole. */
  function AllExpected(packs: seq<Package>, fs: Fs): Result<seq<(PackageId, RsFile)>, Panic>
    decreases |packs|
  {
    if packs == [] then Success([])
    else
      match AllExpected(packs[..|packs| - 1], fs)
      case Failure(e) => Failure(e)
      case Success(recs) =>
        match Expected(Last(packs), fs)
        case Failure(e) => Failure(e)
        case Success(files) => Success(recs + Tag(Last(packs).id, files))
  }

  lemma ClassifiedExpected(out: seq<RsFile>, pack: Package, fs: Fs)
    requires Declared(fs, pack.targets).Success? && FindRsFilesInDir(fs, pack.root).Success?
    requires Classified(out, Declared(fs, pack.targets).value, FindRsFilesInDir(fs, pack.root).value)
    ensures Expected(pack, fs).Success? && multiset(out) == multiset(Expected(pack, fs).value)
  {
    var pairs := Declared(fs, pack.targets).value;
    var others := Others(FindRsFilesInDir(fs, pack.root).value, PathsOf(pairs));
    assert out == out[..|others|] + out[|others|..];
  }

  lemma {:induction false} AllExpectedFailurePersists(packs: seq<Package>, fs: Fs, j: nat)
    requires j <= |packs| && AllExpected(packs[..j], fs).Failure?
    ensures AllExpected(packs, fs) == AllExpected(packs[..j], fs)
    decreases |packs| - j
  {
    if j < |packs| {
      assert packs[..j + 1][..j] == packs[..j];
      AllExpectedFailurePersists(packs, fs, j + 1);
    } else {
      assert packs[..j] == packs;
    }
  }

  /** `find_rs_files_in_packages`: every package's records, tagged with
      its id, one package after another. */
  method FindRsFilesInPackages(packs: seq<Package>, fs: Fs) returns (r: Result<seq<(PackageId, RsFile)>, Panic>)
    ensures r.Success? <==> AllExpected(packs, fs).Success?
    ensures r.Failure? ==> r == AllExpected(packs, fs)
    ensures r.Success? ==> multiset(r.value) == multiset(AllExpected(packs, fs).value)
  {
    var out: seq<(PackageId, RsFile)> := [];
    var i := 0;
    while i < |packs|
      invariant 0 <= i <= |packs|
      invariant AllExpected(packs[..i], fs).Success?
      invariant multiset(out) == multiset(AllExpected(packs[..i], fs).value)
    {
      var pack := packs[i];
      assert packs[..i + 1][..i] == packs[..i];
      assert Last(packs[..i + 1]) == pack;
      var files := FindRsFilesInPackage(pack, fs);
      if files.Failure? {
        AllExpectedFailurePersists(packs, fs, i + 1);
        return Failure(files.error);
      }
      ClassifiedExpected(files.value, pack, fs);
      MapPerm((f: RsFile) => (pack.id, f), files.value, Expected(pack, fs).value);
      out := out + Tag(pack.id, files.value);
      i := i + 1;
    }
    assert packs[..i] == packs;
    r := Success(out);
  }

  // ---------------------------------------------------------------------
  // What the classification promises.

  /** The targets that take part are the kept ones: a target without a
      source file, or whose file does not exist, gives nothing; the others
      either all have a canonical path or the package aborts. */
  lemma {:induction false} DeclaredMeaning(fs: Fs, targets: seq<Target>)
    ensures Declared(fs, targets).Success? <==>
      forall i :: 0 <= i < |targets| && Kept(fs, targets[i]) ==> fs.canonicalize(targets[i].srcPath.value).Some?
    ensures Declared(fs, targets).Success? ==> forall c, t :: (c, t) in Declared(fs, targets).value <==>
      t in targets && Kept(fs, t) && fs.canonicalize(t.srcPath.value) == Some(c)
    decreases |targets|
  {
    if targets != [] {
      var init := targets[..|targets| - 1];
      DeclaredMeaning(fs, init);
      assert targets == init + [Last(targets)];
      assert forall i :: 0 <= i < |init| ==> init[i] == targets[i];
    }
  }

  lemma {:induction false} RecordPathsAreKeys(pairs: seq<(Path, Target)>, f: RsFile)
    requires f in multiset(Records(pairs))
    ensures f.AsPathBuf() in PathsOf(pairs)
  {
    var i :| 0 <= i < |pairs| && Records(pairs)[i] == f;
  }

  lemma {:induction false} OthersCount(files: seq<Path>, keys: set<Path>, p: Path)
    requires p !in keys
    ensures multiset(Others(files, keys))[Other(p)] == multiset(files)[p]
    decreases |files|
  {
    if files != [] {
      var init := files[..|files| - 1];
      assert files == init + [Last(files)];
      OthersCount(init, keys, p);
    }
  }

  lemma {:induction false} OthersPaths(files: seq<Path>, keys: set<Path>, f: RsFile)
    requires f in multiset(Others(files, keys))
    ensures f.Other? && f.AsPathBuf() !in keys
    decreases |files|
  {
    if files != [] {
      var init := files[..|files| - 1];
      if f in multiset(Others(init, keys)) { OthersPaths(init, keys, f); }
    }
  }

  lemma ClassifiedSplit(out: seq<RsFile>, pairs: seq<(Path, Target)>, files: seq<Path>)
    requires Classified(out, pairs, files)
    ensures multiset(out) == multiset(Others(files, PathsOf(pairs))) + multiset(Records(pairs))
  {
    var n := |Others(files, PathsOf(pairs))|;
    assert out == out[..n] + out[n..];
  }

  /** A walked file that is no target's entry file comes out as `Other`
      exactly as often as the walk yields it. */
  lemma WalkedFileIsOther(out: seq<RsFile>, pairs: seq<(Path, Target)>, files: seq<Path>, p: Path)
    requires Classified(out, pairs, files) && p !in PathsOf(pairs)
    ensures multiset(out)[Other(p)] == multiset(files)[p]
  {
    ClassifiedSplit(out, pairs, files);
    OthersCount(files, PathsOf(pairs), p);
    if Other(p) in multiset(Records(pairs)) {
      RecordPathsAreKeys(pairs, Other(p));
    }
  }

  /** At a target's path the records are exactly one per target, with no
      merging of equal ones: the walk adds nothing there. */
  lemma TargetPathRecords(out: seq<RsFile>, pairs: seq<(Path, Target)>, files: seq<Path>, f: RsFile)
    requires Classified(out, pairs, files) && f.AsPathBuf() in PathsOf(pairs)
    ensures multiset(out)[f] == multiset(Records(pairs))[f]
  {
    ClassifiedSplit(out, pairs, files);
    if f in multiset(Others(files, PathsOf(pairs))) {
      OthersPaths(files, PathsOf(pairs), f);
    }
  }

  /** A library and a binary with the same entry file give both a
      `LibRoot` and a `BinRoot` record for it. */
  lemma LibAndBinAtOnePath(out: seq<RsFile>, pairs: seq<(Path, Target)>, files: seq<Path>,
                           c: Path, lib: Target, bin: Target)
    requires Classified(out, pairs, files)
    requires (c, lib) in pairs && lib.kind.Lib? && (c, bin) in pairs && bin.kind == Bin
    ensures LibRoot(c) in out && BinRoot(c) in out
  {
    var i :| 0 <= i < |pairs| && pairs[i] == (c, lib);
    var j :| 0 <= j < |pairs| && pairs[j] == (c, bin);
    assert Records(pairs)[i] == LibRoot(c);
    assert Records(pairs)[j] == BinRoot(c);
    assert c in PathsOf(pairs);
    TargetPathRecords(out, pairs, files, LibRoot(c));
    TargetPathRecords(out, pairs, files, BinRoot(c));
  }
}

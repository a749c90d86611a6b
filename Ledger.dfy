/** The path-to-count ledger: `resolve_rs_file_deps` lists every `.rs` file
    the build used with a count of 0, `find_unsafe_in_packages` counts how
    often each listed file is scanned, and `real_main` warns about the files
    still at 0. */
module Ledger {
  import opened Wrappers
  import opened Strings
  import opened Paths
  import opened Seqs
  import opened DepInfo
  import opened Classifier

  datatype RsResolveError =
    | Walkdir
    /** A `.d` file that cannot be read. */
    | DepParse(depFile: Path)
    /** A `.d` file with a trailing backslash: `parse_rustc_dep_info` panics. */
    | DepInfoPanic(depFile: Path)
    /** An input of a `.d` file, joined to the workspace root, with no canonical form. */
    | Io(input: Path)

  /** Every path of `ks` with a count of 0. */
  function Zeros(ks: set<Path>): (m: map<Path, nat>)
    ensures m.Keys == ks && forall k :: k in m ==> m[k] == 0
  {
    map k | k in ks :: 0
  }

  /** The inputs of all entries, in order. */
  function Inputs(es: seq<DepEntry>): seq<string>
    decreases |es|
  {
    if es == [] then [] else es[0].inputs + Inputs(es[1..])
  }

  /** The inputs listed in a `.d` file. */
  function DepFileInputs(fs: Fs, depFile: Path): Result<seq<string>, RsResolveError> {
    match fs.read(depFile)
    case None => Failure(DepParse(depFile))
    case Some(contents) =>
      match DepInfo.DepInfo(contents)
      case Failure(_) => Failure(DepInfoPanic(depFile))
      case Success(es) => Success(Inputs(es))
  }

  /** The canonical forms of the inputs joined to the workspace root; the
      first one without a canonical form is an error. */
  function CanonInputs(fs: Fs, wsRoot: Path, inputs: seq<string>): Result<set<Path>, RsResolveError>
    decreases |inputs|
  {
    if inputs == [] then Success({})
    else
      match CanonInputs(fs, wsRoot, inputs[..|inputs| - 1])
      case Failure(e) => Failure(e)
      case Success(ps) =>
        var pb := JoinPath(wsRoot, Last(inputs));
        match fs.canonicalize(pb)
        case None => Failure(Io(pb))
        case Some(p) => Success(ps + {p})
  }

  /** The canonical inputs of one item of the walk of an out-dir: none
      for anything but a `.d` file. */
  function EntryDeps(fs: Fs, wsRoot: Path, w: WalkEntry): Result<set<Path>, RsResolveError> {
    match w
    case WalkError => Failure(Walkdir)
    case Entry(e) =>
      if !IsFileWithExt(e, "d") then Success({})
      else
        match DepFileInputs(fs, e.path)
        case Failure(err) => Failure(err)
        case Success(inputs) => CanonInputs(fs, wsRoot, inputs)
  }

  /** The canonical inputs of all `.d` files of a walk, the first error aborting. */
  function WalkDeps(fs: Fs, wsRoot: Path, entries: seq<WalkEntry>): Result<set<Path>, RsResolveError>
    decreases |entries|
  {
    if entries == [] then Success({})
    else
      match WalkDeps(fs, wsRoot, entries[..|entries| - 1])
      case Failure(e) => Failure(e)
      case Success(ps) =>
        match EntryDeps(fs, wsRoot, Last(entries))
        case Failure(e) => Failure(e)
        case Success(qs) => Success(ps + qs)
  }

  function DirDeps(fs: Fs, wsRoot: Path, dir: Path): Result<set<Path>, RsResolveError> {
    WalkDeps(fs, wsRoot, fs.walk(dir))
  }

  /** The canonical inputs of the `.d` files under all of `dirs`. */
  function DepsOfDirs(fs: Fs, wsRoot: Path, dirs: set<Path>): set<Path> {
    set d, p | d in dirs && DirDeps(fs, wsRoot, d).Success? && p in DirDeps(fs, wsRoot, d).value :: p
  }

  lemma {:induction false} CanonInputsFailurePersists(fs: Fs, wsRoot: Path, inputs: seq<string>, k: nat)
    requires k <= |inputs| && CanonInputs(fs, wsRoot, inputs[..k]).Failure?
    ensures CanonInputs(fs, wsRoot, inputs) == CanonInputs(fs, wsRoot, inputs[..k])
    decreases |inputs| - k
  {
    if k < |inputs| {
      assert inputs[..k + 1][..k] == inputs[..k];
      CanonInputsFailurePersists(fs, wsRoot, inputs, k + 1);
    } else {
      assert inputs[..k] == inputs;
    }
  }

  lemma {:induction false} WalkDepsFailurePersists(fs: Fs, wsRoot: Path, entries: seq<WalkEntry>, k: nat)
    requires k <= |entries| && WalkDeps(fs, wsRoot, entries[..k]).Failure?
    ensures WalkDeps(fs, wsRoot, entries) == WalkDeps(fs, wsRoot, entries[..k])
    decreases |entries| - k
  {
    if k < |entries| {
      assert entries[..k + 1][..k] == entries[..k];
      WalkDepsFailurePersists(fs, wsRoot, entries, k + 1);
    } else {
      assert entries[..k] == entries;
    }
  }

  lemma InputsAppend(es: seq<DepEntry>, e: DepEntry)
    ensures Inputs(es + [e]) == Inputs(es) + e.inputs
    decreases |es|
  {
    if es == [] {
      assert [e][1..] == [];
      assert e.inputs + [] == e.inputs;
    } else {
      assert (es + [e])[1..] == es[1..] + [e];
      InputsAppend(es[1..], e);
    }
  }

  /** The parse of one `.d` file, read from the filesystem. */
  method ReadDepFile(fs: Fs, depFile: Path) returns (r: Result<seq<string>, RsResolveError>)
    ensures r == DepFileInputs(fs, depFile)
  {
    var contents := fs.read(depFile);
    if contents.None? {
      return Failure(DepParse(depFile));
    }
    var deps := ParseRustcDepInfo(contents.value);
    if deps.Failure? {
      return Failure(DepInfoPanic(depFile));
    }
    var inputs: seq<string> := [];
    var i := 0;
    while i < |deps.value|
      invariant 0 <= i <= |deps.value|
      invariant inputs == Inputs(deps.value[..i])
    {
      assert deps.value[..i + 1] == deps.value[..i] + [deps.value[i]];
      InputsAppend(deps.value[..i], deps.value[i]);
      inputs := inputs + deps.value[i].inputs;
      i := i + 1;
    }
    assert deps.value[..i] == deps.value;
    r := Success(inputs);
  }

  lemma CanonInputsStep(fs: Fs, wsRoot: Path, inputs: seq<string>, i: nat, ps: set<Path>)
    requires i < |inputs| && CanonInputs(fs, wsRoot, inputs[..i]) == Success(ps)
    ensures CanonInputs(fs, wsRoot, inputs[..i + 1]) ==
      match fs.canonicalize(JoinPath(wsRoot, inputs[i]))
      case None => Failure(Io(JoinPath(wsRoot, inputs[i])))
      case Some(p) => Success(ps + {p})
  {
    assert inputs[..i + 1][..i] == inputs[..i];
    assert Last(inputs[..i + 1]) == inputs[i];
  }

  lemma ZerosAdd(hm: map<Path, nat>, ps: set<Path>, p: Path)
    ensures (hm + Zeros(ps))[p := 0] == hm + Zeros(ps + {p})
  {
    var l, r := (hm + Zeros(ps))[p := 0], hm + Zeros(ps + {p});
    assert l.Keys == r.Keys;
    forall k | k in l ensures l[k] == r[k] {
    }
  }

  /** The innermost loop: `hm.insert(p?, 0)` for every canonical input. */
  method InsertInputs(hm: map<Path, nat>, fs: Fs, wsRoot: Path, inputs: seq<string>)
    returns (r: Result<map<Path, nat>, RsResolveError>)
    ensures r.Success? <==> CanonInputs(fs, wsRoot, inputs).Success?
    ensures r.Failure? ==> r.error == CanonInputs(fs, wsRoot, inputs).error
    ensures r.Success? ==> r.value == hm + Zeros(CanonInputs(fs, wsRoot, inputs).value)
  {
    var m := hm;
    ghost var ps: set<Path> := {};
    var i := 0;
    while i < |inputs|
      invariant 0 <= i <= |inputs|
      invariant CanonInputs(fs, wsRoot, inputs[..i]) == Success(ps)
      invariant m == hm + Zeros(ps)
    {
      CanonInputsStep(fs, wsRoot, inputs, i, ps);
      var pb := JoinPath(wsRoot, inputs[i]);
      var p := fs.canonicalize(pb);
      if p.None? {
        CanonInputsFailurePersists(fs, wsRoot, inputs, i + 1);
        return Failure(Io(pb));
      }
      ZerosAdd(hm, ps, p.value);
      m := m[p.value := 0];
      ps := ps + {p.value};
      i := i + 1;
    }
    assert inputs[..i] == inputs;
    r := Success(m);
  }

  lemma ZerosMerge(hm: map<Path, nat>, ps: set<Path>, qs: set<Path>)
    ensures hm + Zeros(ps) + Zeros(qs) == hm + Zeros(ps + qs)
  {
    var l, r := hm + Zeros(ps) + Zeros(qs), hm + Zeros(ps + qs);
    assert l.Keys == r.Keys;
    forall k | k in l ensures l[k] == r[k] {
    }
  }

  lemma WalkDepsStep(fs: Fs, wsRoot: Path, entries: seq<WalkEntry>, i: nat, ps: set<Path>)
    requires i < |entries| && WalkDeps(fs, wsRoot, entries[..i]) == Success(ps)
    ensures WalkDeps(fs, wsRoot, entries[..i + 1]) ==
      match EntryDeps(fs, wsRoot, entries[i])
      case Failure(e) => Failure(e)
      case Success(qs) => Success(ps + qs)
  {
    assert entries[..i + 1][..i] == entries[..i];
    assert Last(entries[..i + 1]) == entries[i];
  }

  /** The body of the loop over the walk of one out-dir: one item. */
  method InsertEntryDeps(m: map<Path, nat>, fs: Fs, wsRoot: Path, ent: WalkEntry)
    returns (r: Result<map<Path, nat>, RsResolveError>)
    ensures r.Success? <==> EntryDeps(fs, wsRoot, ent).Success?
    ensures r.Failure? ==> r.error == EntryDeps(fs, wsRoot, ent).error
    ensures r.Success? ==> r.value == m + Zeros(EntryDeps(fs, wsRoot, ent).value)
  {
    if ent.WalkError? {
      return Failure(Walkdir);
    }
    if !IsFileWithExt(ent.entry, "d") {
      assert m + Zeros({}) == m;
      return Success(m);
    }
    var deps := ReadDepFile(fs, ent.entry.path);
    if deps.Failure? {
      return Failure(deps.error);
    }
    r := InsertInputs(m, fs, wsRoot, deps.value);
  }

  /** The loop over the walk of one out-dir. */
  method InsertDirDeps(hm: map<Path, nat>, fs: Fs, wsRoot: Path, dir: Path)
    returns (r: Result<map<Path, nat>, RsResolveError>)
    ensures r.Success? <==> DirDeps(fs, wsRoot, dir).Success?
    ensures r.Failure? ==> r.error == DirDeps(fs, wsRoot, dir).error
    ensures r.Success? ==> r.value == hm + Zeros(DirDeps(fs, wsRoot, dir).value)
  {
    var entries := fs.walk(dir);
    var m := hm;
    ghost var ps: set<Path> := {};
    var i := 0;
    while i < |entries|
      invariant 0 <= i <= |entries|
      invariant WalkDeps(fs, wsRoot, entries[..i]) == Success(ps)
      invariant m == hm + Zeros(ps)
    {
      WalkDepsStep(fs, wsRoot, entries, i, ps);
      var next := InsertEntryDeps(m, fs, wsRoot, entries[i]);
      if next.Failure? {
        WalkDepsFailurePersists(fs, wsRoot, entries, i + 1);
        return Failure(next.error);
      }
      ghost var qs := EntryDeps(fs, wsRoot, entries[i]).value;
      ZerosMerge(hm, ps, qs);
      m := next.value;
      ps := ps + qs;
      i := i + 1;
    }
    assert entries[..i] == entries;
    r := Success(m);
  }

  lemma DepsOfDirsAdd(fs: Fs, wsRoot: Path, done: set<Path>, d: Path)
    requires DirDeps(fs, wsRoot, d).Success?
    ensures DepsOfDirs(fs, wsRoot, done + {d}) == DepsOfDirs(fs, wsRoot, done) + DirDeps(fs, wsRoot, d).value
  {
  }

  lemma OutDirStep(fs: Fs, wsRoot: Path, done: set<Path>, d: Path, deps: set<Path>,
                   hm: map<Path, nat>, next: map<Path, nat>)
    requires DirDeps(fs, wsRoot, d).Success? && deps == DepsOfDirs(fs, wsRoot, done) && hm == Zeros(deps)
    requires next == hm + Zeros(DirDeps(fs, wsRoot, d).value)
    ensures next == Zeros(DepsOfDirs(fs, wsRoot, done + {d}))
  {
    DepsOfDirsAdd(fs, wsRoot, done, d);
    ZerosUnion(deps, DirDeps(fs, wsRoot, d).value);
  }

  lemma ZerosUnion(ps: set<Path>, qs: set<Path>)
    ensures Zeros(ps) + Zeros(qs) == Zeros(ps + qs)
  {
    var l, r := Zeros(ps) + Zeros(qs), Zeros(ps + qs);
    assert l.Keys == r.Keys;
    forall k | k in l ensures l[k] == r[k] {
    }
  }

  lemma ZerosInsert(ks: set<Path>, k: Path)
    ensures Zeros(ks)[k := 0] == Zeros(ks + {k})
  {
  }

  /** The loop over the out-dirs, in the set's own order. */
  method InsertOutDirs(outDirs: set<Path>, wsRoot: Path, fs: Fs)
    returns (r: Result<map<Path, nat>, RsResolveError>)
    ensures r.Success? <==> forall d :: d in outDirs ==> DirDeps(fs, wsRoot, d).Success?
    ensures r.Failure? ==> exists d :: d in outDirs && DirDeps(fs, wsRoot, d) == Failure(r.error)
    ensures r.Success? ==> r.value == Zeros(DepsOfDirs(fs, wsRoot, outDirs))
  {
    var hm: map<Path, nat> := map[];
    var dirs := outDirs;
    ghost var done: set<Path> := {};
    ghost var deps: set<Path> := {};
    while dirs != {}
      invariant dirs <= outDirs && done == outDirs - dirs
      invariant forall d :: d in done ==> DirDeps(fs, wsRoot, d).Success?
      invariant deps == DepsOfDirs(fs, wsRoot, done) && hm == Zeros(deps)
      decreases dirs
    {
      var outDir :| outDir in dirs;
      var next := InsertDirDeps(hm, fs, wsRoot, outDir);
      if next.Failure? {
        return Failure(next.error);
      }
      OutDirStep(fs, wsRoot, done, outDir, deps, hm, next.value);
      hm := next.value;
      dirs := dirs - {outDir};
      done := done + {outDir};
      deps := DepsOfDirs(fs, wsRoot, done);
    }
    assert done == outDirs;
    r := Success(hm);
  }

  /** The loop that adds every recorded `.rs` argument at 0. */
  method InsertRsFiles(hm: map<Path, nat>, ghost ks: set<Path>, rsFiles: set<Path>)
    returns (r: map<Path, nat>)
    requires hm == Zeros(ks)
    ensures r == Zeros(ks + rsFiles)
  {
    r := hm;
    var rest := rsFiles;
    ghost var inserted: set<Path> := {};
    while rest != {}
      invariant rest <= rsFiles && inserted == rsFiles - rest
      invariant r == Zeros(ks + inserted)
      decreases rest
    {
      var pb :| pb in rest;
      ZerosInsert(ks + inserted, pb);
      r := r[pb := 0];
      rest := rest - {pb};
      inserted := inserted + {pb};
    }
  }

  /** The map merge of `resolve_rs_file_deps`, from the out-dirs and the
      `.rs` arguments the executor recorded: every canonical input of every
      `.d` file under an out-dir and every recorded argument, each at 0.
      The out-dirs are visited in the set's own order, so when several
      fail, the error is that of one of them. */
  method ResolveRsFileDeps(rsFiles: set<Path>, outDirs: set<Path>, wsRoot: Path, fs: Fs)
    returns (r: Result<map<Path, nat>, RsResolveError>)
    ensures r.Success? <==> forall d :: d in outDirs ==> DirDeps(fs, wsRoot, d).Success?
    ensures r.Failure? ==> exists d :: d in outDirs && DirDeps(fs, wsRoot, d) == Failure(r.error)
    ensures r.Success? ==> r.value == Zeros(DepsOfDirs(fs, wsRoot, outDirs) + rsFiles)
  {
    var merged := InsertOutDirs(outDirs, wsRoot, fs);
    if merged.Failure? {
      return Failure(merged.error);
    }
    ghost var deps := DepsOfDirs(fs, wsRoot, outDirs);
    var hm := InsertRsFiles(merged.value, deps, rsFiles);
    r := Success(hm);
  }

  /** What the out-dir walk collects: exactly the canonical forms of the
      inputs, joined to the workspace root, of the `.d` files walked. */
  lemma {:induction false} CanonInputsMeaning(fs: Fs, wsRoot: Path, inputs: seq<string>)
    ensures CanonInputs(fs, wsRoot, inputs).Success? <==>
      forall i :: 0 <= i < |inputs| ==> fs.canonicalize(JoinPath(wsRoot, inputs[i])).Some?
    ensures CanonInputs(fs, wsRoot, inputs).Success? ==> forall p :: p in CanonInputs(fs, wsRoot, inputs).value <==>
      exists i :: 0 <= i < |inputs| && fs.canonicalize(JoinPath(wsRoot, inputs[i])) == Some(p)
    decreases |inputs|
  {
    if inputs != [] {
      var init := inputs[..|inputs| - 1];
      CanonInputsMeaning(fs, wsRoot, init);
      assert inputs == init + [Last(inputs)];
      assert forall i :: 0 <= i < |init| ==> init[i] == inputs[i];
    }
  }

  // ---------------------------------------------------------------------
  // Counting the scans.

  /** The path of every scanned record, in scan order. */
  function ScannedPaths(records: seq<(PackageId, RsFile)>): seq<Path> {
    MapSeq((rec: (PackageId, RsFile)) => rec.1.AsPathBuf(), records)
  }

  /** How often `k` is scanned. */
  function TimesScanned(records: seq<(PackageId, RsFile)>, k: Path): nat {
    multiset(ScannedPaths(records))[k]
  }

  /** A record whose file the Rust parser cannot parse. */
  predicate Unparsable(records: seq<(PackageId, RsFile)>, parses: Path -> bool) {
    exists i :: 0 <= i < |records| && !parses(records[i].1.AsPathBuf())
  }

  lemma TimesScannedSnoc(records: seq<(PackageId, RsFile)>, i: nat, k: Path)
    requires i < |records|
    ensures TimesScanned(records[..i + 1], k) ==
      TimesScanned(records[..i], k) + (if records[i].1.AsPathBuf() == k then 1 else 0)
  {
    assert records[..i + 1] == records[..i] + [records[i]];
    MapSeqAppend((rec: (PackageId, RsFile)) => rec.1.AsPathBuf(), records[..i], [records[i]]);
  }

  /** Every count is the initial one plus the scans of `done`. */
  predicate Counted(used: map<Path, nat>, m: map<Path, nat>, done: seq<(PackageId, RsFile)>) {
    m.Keys == used.Keys && forall k :: k in used ==> m[k] == used[k] + TimesScanned(done, k)
  }

  /** Every file of `done` was scanned without error. */
  predicate AllParse(done: seq<(PackageId, RsFile)>, parses: Path -> bool) {
    forall j :: 0 <= j < |done| ==> parses(done[j].1.AsPathBuf())
  }

  /** The count update for one record keeps every count equal to the
      initial one plus the scans so far. */
  lemma CountStep(used: map<Path, nat>, m: map<Path, nat>, records: seq<(PackageId, RsFile)>, i: nat)
    requires i < |records| && Counted(used, m, records[..i])
    ensures var p := records[i].1.AsPathBuf();
      Counted(used, if p in m then m[p := m[p] + 1] else m, records[..i + 1])
  {
    forall k | k in used ensures TimesScanned(records[..i + 1], k) ==
      TimesScanned(records[..i], k) + (if records[i].1.AsPathBuf() == k then 1 else 0)
    {
      TimesScannedSnoc(records, i, k);
    }
  }

  lemma ParseStep(records: seq<(PackageId, RsFile)>, i: nat, parses: Path -> bool)
    requires i < |records| && AllParse(records[..i], parses)
    ensures parses(records[i].1.AsPathBuf()) ==> AllParse(records[..i + 1], parses)
    ensures !parses(records[i].1.AsPathBuf()) ==> Unparsable(records, parses)
  {
    PrefixSnoc(records, i);
  }

  /** The loop of `find_unsafe_in_packages` over the records of all
      packages: each record adds 1 to the count of its path if that path is
      a key, and the file is scanned (`parses` says whether the scan
      succeeds); a failed scan aborts unless partial results are allowed. */
  method FindUnsafeInPackages(used: map<Path, nat>, records: seq<(PackageId, RsFile)>,
                              parses: Path -> bool, allowPartial: bool)
    returns (r: Result<map<Path, nat>, Panic>)
    ensures r.Failure? <==> !allowPartial && Unparsable(records, parses)
    ensures r.Success? ==> r.value.Keys == used.Keys
    ensures r.Success? ==> forall k :: k in used ==> r.value[k] == used[k] + TimesScanned(records, k)
  {
    var rsFilesUsed := used;
    var i := 0;
    assert records[..0] == [];
    while i < |records|
      invariant 0 <= i <= |records|
      invariant Counted(used, rsFilesUsed, records[..i])
      invariant allowPartial || AllParse(records[..i], parses)
    {
      var p := records[i].1.AsPathBuf();
      CountStep(used, rsFilesUsed, records, i);
      if !allowPartial {
        ParseStep(records, i, parses);
      }
      if p in rsFilesUsed {
        rsFilesUsed := rsFilesUsed[p := rsFilesUsed[p] + 1];
      }
      if !parses(p) && !allowPartial {
        return Failure(Panic("Failed to parse file: " + p));
      }
      i := i + 1;
    }
    assert records[..i] == records;
    r := Success(rsFilesUsed);
  }

  /** The paths still at 0, about which `real_main` warns. */
  function NeverScanned(m: map<Path, nat>): set<Path> {
    set k | k in m && m[k] == 0
  }

  /** How often `k` is scanned is fixed by the packages, whatever order
      the records come in. */
  lemma TimesScannedPerm(a: seq<(PackageId, RsFile)>, b: seq<(PackageId, RsFile)>, k: Path)
    requires multiset(a) == multiset(b)
    ensures TimesScanned(a, k) == TimesScanned(b, k)
  {
    MapPerm((rec: (PackageId, RsFile)) => rec.1.AsPathBuf(), a, b);
  }

  lemma TimesScannedPositive(records: seq<(PackageId, RsFile)>, k: Path)
    ensures TimesScanned(records, k) > 0 <==> exists i :: 0 <= i < |records| && records[i].1.AsPathBuf() == k
  {
    var ps := ScannedPaths(records);
    if TimesScanned(records, k) > 0 {
      assert k in ps;
      var i :| 0 <= i < |ps| && ps[i] == k;
      assert records[i].1.AsPathBuf() == k;
    }
    if i :| 0 <= i < |records| && records[i].1.AsPathBuf() == k {
      assert ps[i] == k;
    }
  }

  datatype AuditError =
    | ResolveFailed(resolve: RsResolveError)
    | Aborted(panic: Panic)

  /** What `real_main` does once the build has been intercepted: resolve
      the ledger (`unwrap`, so an error aborts), scan every package with
      partial results allowed, and warn about the files never scanned. */
  method RealMain(rsFiles: set<Path>, outDirs: set<Path>, wsRoot: Path, fs: Fs,
                  packs: seq<Package>, parses: Path -> bool)
    returns (r: Result<set<Path>, AuditError>)
    ensures r.Success? ==>
      (forall d :: d in outDirs ==> DirDeps(fs, wsRoot, d).Success?)
      && AllExpected(packs, fs).Success?
      && r.value == set k | k in DepsOfDirs(fs, wsRoot, outDirs) + rsFiles
                          && TimesScanned(AllExpected(packs, fs).value, k) == 0
    ensures r.Failure? ==>
      (exists d :: d in outDirs && DirDeps(fs, wsRoot, d).Failure?)
      || AllExpected(packs, fs).Failure?
  {
    var resolved := ResolveRsFileDeps(rsFiles, outDirs, wsRoot, fs);
    if resolved.Failure? {
      return Failure(ResolveFailed(resolved.error));
    }
    var records := FindRsFilesInPackages(packs, fs);
    if records.Failure? {
      return Failure(Aborted(records.error));
    }
    var scanned := FindUnsafeInPackages(resolved.value, records.value, parses, true);
    NeverScannedOf(scanned.value, resolved.value, records.value, AllExpected(packs, fs).value);
    r := Success(NeverScanned(scanned.value));
  }

  /** Counts started at 0 and raised by one ordering of the records are at
      0 exactly for the paths no record in any ordering has. */
  lemma NeverScannedOf(m: map<Path, nat>, used: map<Path, nat>,
                       a: seq<(PackageId, RsFile)>, b: seq<(PackageId, RsFile)>)
    requires m.Keys == used.Keys && forall k :: k in used ==> used[k] == 0
    requires forall k :: k in used ==> m[k] == used[k] + TimesScanned(a, k)
    requires multiset(a) == multiset(b)
    ensures NeverScanned(m) == set k | k in used && TimesScanned(b, k) == 0
  {
    forall k | k in used
      ensures TimesScanned(a, k) == TimesScanned(b, k)
    {
      TimesScannedPerm(a, b, k);
    }
  }

  /** A file the build used is reported exactly when no package has a
      record at its path. */
  lemma ReportedIffUnscanned(used: map<Path, nat>, records: seq<(PackageId, RsFile)>, m: map<Path, nat>, k: Path)
    requires forall j :: j in used ==> used[j] == 0
    requires m.Keys == used.Keys && forall j :: j in used ==> m[j] == used[j] + TimesScanned(records, j)
    ensures k in NeverScanned(m) <==>
      k in used && forall i :: 0 <= i < |records| ==> records[i].1.AsPathBuf() != k
  {
    TimesScannedPositive(records, k);
  }
}

# siderophile: the audit's bookkeeping and the call-graph matcher, in Dafny

siderophile audits a Rust crate for `unsafe` code:

1. It runs `cargo check` with a custom executor that intercepts every rustc invocation. The executor records the `.rs` files named on the command line and the `--out-dir` each invocation writes.
2. It reads the dependency-listing `.d` files rustc writes there.
3. It builds a ledger mapping every source file the build used to a scan count of 0.
4. It classifies the `.rs` files of every package by the role they play: library root, binary root, build script, or other.
5. It scans them, counting every scan of a listed file, and warns about the listed files never scanned.

A Python helper then matches the functions reported unsafe against the node labels of a call graph. It compares the two after cutting fully qualified trait paths (`<T as failure::as_fail::AsFail>::as_fail`) down to the trait's own name (`<T as AsFail>::as_fail`).

The modules:

- `Strings`, `Paths`, `Seqs`: the library behaviour the code relies on.
  - Leftmost substring search (Rust `str::find`, Python `str.split`), split and join, Rust `split_whitespace`, `lines`, and ASCII `to_lowercase`.
  - Unix `Path::join`, `file_name` and `extension`.
  - The filesystem as a parameter `Fs`: existence, `canonicalize`, a `walkdir` walk, and reading a file.
- `DepInfo`: the `.d` line parser with its backslash-continuation rule, and the writer's side it inverts.
- `Features`, `Interceptor`, `Classifier`, `Ledger`: the `--features` splitting, the executor's recording, the target-kind classifier, and the path-to-count ledger.
- `TraitPaths`, `TraitPathExamples`: the Python simplifier, its asserted examples, and the label matching.

The loops of the source are `method`s, each proved against a function of its inputs. `CustomExecutor` and its inner context are classes whose sets the executor updates.

## Model

| member | source | states |
|---|---|---|
| Strings.Find | src/trawl_source/mod.rs:321 | the result is an occurrence of the separator with none before it, and it is `None` exactly when the string does not contain the separator |
| Strings.Split | script/find_unsafe_nodes.py:10 | there is at least one piece, and no piece contains the separator |
| Strings.SplitAtChar | src/trawl_source/mod.rs:562 | cutting at a one-character separator works occurrence by occurrence: cutting `a`, the separator, `b` gives the pieces of `a` followed by the pieces of `b` |
| Strings.JoinSplit | script/find_unsafe_nodes.py:29 | joining the pieces of a split with the same separator gives the string back |
| Strings.SplitJoin | script/find_unsafe_nodes.py:33 | splitting a join gives the pieces back when every piece but the last ends at the separator and the last holds none |
| Strings.SplitWhitespace | src/trawl_source/mod.rs:324 | every word is non-empty and holds no Unicode whitespace |
| Strings.SplitWhitespaceAt | src/trawl_source/mod.rs:324 | a whitespace character separates words: the words of `a`, a whitespace character, and `b` are the words of `a` followed by the words of `b`, whatever runs of whitespace `a` and `b` start or end with |
| Strings.SplitWhitespaceWord | src/trawl_source/mod.rs:324 | a non-empty text without whitespace is one word; with SplitWhitespaceAt this fixes the words of every text |
| Strings.SplitWhitespaceJoin | src/trawl_source/mod.rs:324 | non-empty words without whitespace, joined by single spaces, split back into the same words |
| Strings.LinesPieces | src/trawl_source/mod.rs:320 | every line is the piece between line feeds at the same place, or that piece less one final carriage return; only an empty last piece, the text after a final line feed, gives no line |
| Strings.LinesJoin | src/trawl_source/mod.rs:320 | without carriage returns, the lines joined by line feeds, plus the final line feed if the text has one, give the text back |
| Strings.ToLower | src/trawl_source/mod.rs:430 | the length is unchanged, no ASCII capital is left, every capital becomes the small letter at the same place in the alphabet, and every other character is kept |
| Strings.ToLowerIdempotent | src/trawl_source/mod.rs:430 | lower-casing twice is lower-casing once |
| Paths.JoinPath | src/trawl_source/mod.rs:433 | an absolute argument replaces the base; otherwise the result is the base, then a `/` exactly when the base is non-empty and does not end in `/`, then the argument |
| Paths.ExtensionIff | src/trawl_source/mod.rs:68-72 | the extension is `ext` exactly when the file name is a non-empty stem, a dot, and a dot-free `ext` |
| Paths.IsFileWithExt | src/trawl_source/mod.rs:64-77 | true exactly for a regular file whose name is a non-empty stem, a dot, and `ext`; non-files, links and extensionless names give false |
| Classifier.IntoRsCodeFile | src/trawl_source/mod.rs:158-168 | the path is carried unchanged (through `AsPathBuf`, 99-106); `LibRoot` iff `Lib`, `BinRoot` iff `Bin`, `CustomBuildRoot` iff `CustomBuild`, and `Other` iff test, bench or example |
| Classifier.RsFilesIn | src/trawl_source/mod.rs:109-123 | the walk succeeds exactly when it has no I/O error and every `.rs` file it yields has a canonical form; the paths returned are exactly those canonical forms |
| Classifier.DeclaredMeaning | src/trawl_source/mod.rs:128-143 | targets without a source file, or whose file does not exist, are skipped; the rest all canonicalize or the package aborts; the pairs kept are exactly each such target with its canonical path |
| Classifier.GroupedSnoc | src/trawl_source/mod.rs:141-142 | `entry(..).or_insert_with(..).push(..)` appends the target to the list at its canonical path, creating the list when absent |
| Classifier.GroupTargets | src/trawl_source/mod.rs:127-143 | the loop aborts exactly when a kept target cannot be made canonical; otherwise the map groups the kept targets by canonical path, in declaration order |
| Classifier.OtherFiles | src/trawl_source/mod.rs:144-149 | the walked files that are no key of the map, each tagged `Other`, in walk order |
| Classifier.KeyRecords | src/trawl_source/mod.rs:151-153 | one record per target at the key, in the list's order, each of the role its kind gives |
| Classifier.TargetFiles | src/trawl_source/mod.rs:150-154 | whatever the map's iteration order, the records are a permutation of one record per kept target |
| Classifier.FindRsFilesInPackage | src/trawl_source/mod.rs:125-156 | the package aborts exactly when the reference does, with its error (target errors before walk errors); otherwise the other files come first in walk order, then a permutation of one record per target |
| Classifier.ClassifiedExpected | src/trawl_source/mod.rs:125-156 | a package's records are a permutation of the reference order: the other files, then the targets in declaration order |
| Classifier.WalkedFileIsOther | src/trawl_source/mod.rs:145-149 | a walked file at no target's path comes out as `Other` exactly as often as the walk yields it |
| Classifier.TargetPathRecords | src/trawl_source/mod.rs:150-154 | at a target's path the records are exactly one per target there, with no de-duplication; the walk adds nothing there |
| Classifier.LibAndBinAtOnePath | src/trawl_source/mod.rs:150-154 | a library and a binary with the same entry file give both a `LibRoot` and a `BinRoot` record for it |
| Classifier.FindRsFilesInPackages | src/trawl_source/mod.rs:170-178 | every package's records, tagged with its id, package after package, as a permutation of the reference; the first package that aborts aborts the whole |
| Interceptor.Position | src/trawl_source/mod.rs:405-408 | the index of the first argument equal to the key, or `None` exactly when no argument is |
| Interceptor.OutDirArg | src/trawl_source/mod.rs:404-412 | `OutDirKeyMissing` iff no argument is `--out-dir`; `OutDirValueMissing` iff the first one is the last argument; otherwise the argument right after the first `--out-dir` |
| Interceptor.IsRsArgIff | src/trawl_source/mod.rs:430-431 | an argument counts as a `.rs` file iff it ends in a dot, `r` or `R`, and `s` or `S` |
| Interceptor.RecordedMeaning | src/trawl_source/mod.rs:428-438 | the recording fails exactly when some `.rs` argument, joined to the working directory, has no canonical form, and the failure names that joined path; every recorded path is such a canonical form, and all of them are recorded when none fails |
| Interceptor.InnerContext.constructor | src/trawl_source/mod.rs:343-351 | both recorded sets start empty |
| Interceptor.CustomExecutor.constructor | src/trawl_source/mod.rs:268-271 | the executor keeps the working directory it is given and shares the given inner context, so what `Exec` records is seen through the caller's handle |
| Interceptor.CustomExecutor.Exec | src/trawl_source/mod.rs:394-443 | no out-dir: the out-dir error and no change; otherwise the `.rs` arguments are recorded up to the first that cannot be made canonical (an `Io` error naming its joined path, out-dir not recorded); when none fails, the out-dir is recorded and the result is that of running rustc; the working directory is the invocation's, else the executor's |
| DepInfo.Continue | src/trawl_source/mod.rs:328-335 | a finished file name never ends in a backslash, and the next unread token index lies between the start and the end |
| DepInfo.ContinueCases | src/trawl_source/mod.rs:328-335 | the continuation fails only when the file and every remaining token end in a backslash; when it succeeds, the last token it took does not end in one |
| DepInfo.TrailingBackslashFails | src/trawl_source/mod.rs:334 | a line's tokens fail to rejoin exactly when the last token ends in a backslash: a failure, never a silent truncation |
| DepInfo.RejoinTokens | src/trawl_source/mod.rs:325-337 | the two nested token loops compute the reference rejoining of the line's tokens |
| DepInfo.ParseLineMeaning | src/trawl_source/mod.rs:320-324 | a line without `": "` gives no entry; a line whose last token ends in a backslash fails; any other line gives the entry whose target is exactly the text before its first `": "` and whose inputs are the rest split on whitespace and rejoined |
| DepInfo.ParseDepInfoLine | src/trawl_source/mod.rs:321-337 | one pass of the line loop: no `": "`, no entry; otherwise the target before the first `": "` and the rejoined tokens after it, or the trailing-backslash error, as the reference parse of the line |
| DepInfo.ParseRustcDepInfo | src/trawl_source/mod.rs:317-341 | the loop over the lines computes the reference parse of the contents |
| DepInfo.ParseLinesMeaning | src/trawl_source/mod.rs:319-340 | one entry per line with a `": "`, in order, each the entry that line stands for; the parse fails exactly when some line is malformed |
| DepInfo.DepInfoMeaning | src/trawl_source/mod.rs:317-341 | the same for the contents of a whole `.d` file, cut into lines as `str::lines` does |
| DepInfo.ContinuationExample | src/trawl_source/mod.rs:326-337 | `out/obj: a\ b.rs c.rs` gives the target `out/obj` and the inputs `a b.rs` and `c.rs` |
| DepInfo.ParseDepLine | src/trawl_source/mod.rs:317-341 | a line written the way rustc writes one (spaces in names escaped with a backslash) reads back as its product and its inputs |
| Features.NonEmpty | src/trawl_source/mod.rs:563 | the empty piece never survives, and every other piece survives exactly as often as it occurs in the input |
| Features.NonEmptyAppend | src/trawl_source/mod.rs:563 | dropping empty pieces works piece by piece, so the order of the survivors is the input's |
| Features.CommaPiecesJoin | src/trawl_source/mod.rs:562-563 | cutting every word at its commas and dropping empty pieces gives the non-empty pieces of the words joined by commas and cut once |
| Features.SplitFeatures | src/trawl_source/mod.rs:559-564 | every feature is non-empty and holds neither a comma nor whitespace |
| Features.CommaListRoundTrip | src/trawl_source/mod.rs:559-564 | a comma-separated list of feature names reads back as those names |
| Features.SpaceListRoundTrip | src/trawl_source/mod.rs:559-564 | a space-separated list of feature names reads back as those names |
| Ledger.ReadDepFile | src/trawl_source/mod.rs:293-297 | the inputs of all entries of a `.d` file, in order; a file that cannot be read or that is malformed is an error naming it |
| Ledger.CanonInputsMeaning | src/trawl_source/mod.rs:295-303 | the inputs succeed exactly when every one, joined to the workspace root, has a canonical form, and they give exactly those canonical forms |
| Ledger.InsertInputs | src/trawl_source/mod.rs:301-303 | the loop fails exactly when some joined input has no canonical form, with that error; otherwise its canonical inputs are added at 0 |
| Ledger.InsertEntryDeps | src/trawl_source/mod.rs:289-303 | a walk error fails; an item that is not a `.d` file changes nothing; a `.d` file's canonical inputs are added at 0 |
| Ledger.InsertDirDeps | src/trawl_source/mod.rs:288-304 | the walk of one out-dir fails exactly when its reference does, with its error; otherwise the canonical inputs of all its `.d` files are added at 0 |
| Ledger.InsertOutDirs | src/trawl_source/mod.rs:282-305 | succeeds exactly when every out-dir does, and otherwise fails with the error of some failing out-dir; the map holds exactly the inputs of all `.d` files under all out-dirs, at 0 |
| Ledger.InsertRsFiles | src/trawl_source/mod.rs:306-309 | every recorded `.rs` argument is added at 0 |
| Ledger.ResolveRsFileDeps | src/trawl_source/mod.rs:282-310 | the keys are exactly the union of all dep-file inputs (canonical, joined to the workspace root) and all recorded `.rs` arguments, and every value is 0; it fails exactly when some out-dir fails |
| Ledger.CountStep | src/trawl_source/mod.rs:223 | one record adds 1 to the count of its path when that path is a key, and nothing else |
| Ledger.FindUnsafeInPackages | src/trawl_source/mod.rs:206-245 | the keys never change, and every count is its initial value plus the number of records scanned at its path; a failed scan aborts exactly when partial results are not allowed |
| Ledger.TimesScannedPerm | src/trawl_source/mod.rs:214-215 | how often a path is scanned does not depend on the order of the records |
| Ledger.ReportedIffUnscanned | src/trawl_source/mod.rs:621-632 | with all counts starting at 0, a file is warned about exactly when it is in the ledger and no record has its path |
| Ledger.RealMain | src/trawl_source/mod.rs:601-632 | when resolving and classifying succeed, the warned files are exactly the ledger's paths that no package's record has; otherwise resolving or classifying failed |
| TraitPaths.SimplifyFqnTraitPaths | script/find_unsafe_nodes.py:8-33 | the loop over the ` as ` segments computes the reference simplification |
| TraitPaths.NoAsUnchanged | script/find_unsafe_nodes.py:10-12 | a path without ` as ` comes back unchanged, and a path with one splits into two or more segments |
| TraitPaths.SimplifiedSegments | script/find_unsafe_nodes.py:14-33 | the result splits on ` as ` into the input's segments in order: even ones unchanged, odd ones rewritten |
| TraitPaths.LastComponent | script/find_unsafe_nodes.py:26 | the base name holds no `::`; it is the whole text exactly when the text has no `::`, and otherwise the text ends in `::` and the base name |
| TraitPaths.SimplifySegmentMeaning | script/find_unsafe_nodes.py:24-30 | in an odd segment, the text before its first `>` becomes its last `::` component, and everything from that `>` on is kept; with no `>`, the whole segment becomes its last component |
| TraitPaths.SegmentSuffix | script/find_unsafe_nodes.py:24-30 | rewriting only drops a leading part of a segment |
| TraitPaths.SegmentIdempotent | script/find_unsafe_nodes.py:24-30 | rewriting a segment twice is rewriting it once |
| TraitPaths.Idempotent | script/find_unsafe_nodes.py:8-33 | simplifying an already simplified path leaves it unchanged |
| TraitPaths.SimplifyPlain | script/find_unsafe_nodes.py:8-33 | a type ending at ` as `, a trait path of plain module names, then `>` and the rest: the trait path becomes its last module name |
| TraitPathExamples.ExampleGenericTrait | script/find_unsafe_nodes.py:37-40 | `<&mut std::collections::hash::table::RawTable<K,V> as std::collections::hash::table::Put<K,V>>::borrow_table_mut` becomes `<&mut std::collections::hash::table::RawTable<K,V> as Put<K,V>>::borrow_table_mut` |
| TraitPathExamples.ExampleDeref | script/find_unsafe_nodes.py:41-44 | `<futures::lock::TryLock<T> as core::ops::deref::Deref>::deref` becomes `<futures::lock::TryLock<T> as Deref>::deref` |
| TraitPathExamples.ExampleLeadingColons | script/find_unsafe_nodes.py:45-48 | a leading `::`, as in `::protobuf::Message`, reduces to `Message` |
| TraitPathExamples.ExampleAsFail | script/find_unsafe_nodes.py:49-52 | `<T as failure::as_fail::AsFail>::as_fail` becomes `<T as AsFail>::as_fail` |
| TraitPaths.KeyedLastWins | script/find_unsafe_nodes.py:61-73 | values stored one after another under their keys: a key is present exactly when some value has it, and it holds the last such value |
| TraitPaths.LastWins | script/find_unsafe_nodes.py:61-73 | a simplified path is a key exactly when some label simplifies to it, and it maps to the last such label |
| TraitPaths.BuildLabelMap | script/find_unsafe_nodes.py:61-73 | the loop builds the label map, last write winning |
| TraitPaths.SimplifyLines | script/find_unsafe_nodes.py:76-79 | the set of the simplified output lines |
| TraitPaths.PrintMatches | script/find_unsafe_nodes.py:86-87 | the stored label of every match is printed, each exactly once, and nothing else is printed |
| TraitPaths.MatchLabels | script/find_unsafe_nodes.py:61-87 | the printed lines are exactly the stored labels of the keys in the intersection, one line per key, with no repeats |
| TraitPaths.PrintedMeaning | script/find_unsafe_nodes.py:61-87 | a label is printed exactly when it simplifies like some output line and no later label simplifies the same way |

## Left out

- The cargo API is not modelled: `clean`, `compile_with_exec`, `resolve_ws`, the workspace, `get_many`, `force_rebuild`, and `cmd.exec()`. Whether rustc succeeds is a boolean parameter of `Exec`. The packages, targets and working directories are inputs.
- The filesystem is abstract. `canonicalize`, `exists`, `paths::read` and the `walkdir` traversal are the fields of `Fs`. The order and contents of a walk are whatever that field gives.
- The `Arc<Mutex<..>>` around the executor's context, the lock and its poisoning error, and `try_unwrap`/`into_inner` are not modelled. The recording is a sequential update of two sets.
- `ast_walker::find_unsafe_in_file` is not modelled. Whether a file parses is a predicate parameter, and the unsafe items it writes to the output file are not modelled. `crate_name`, `include_tests`, the output file, and the `warn!`/`info!` logging are also out.
- The argument structs, `structopt`, `config.configure`, and the non-feature fields of `build_compile_options` (jobs, build plan, the feature flags) are not modelled. `src/main.rs` is not part of this model.
- In the Python script, the regex that extracts node labels from the graph file is not modelled; the labels are an input. Reading the two files, `splitlines`, and the unit-test call before `main` are also out. The output lines are an input.
- MatchLabels: the printed order is the set's iteration order, which Python does not fix. The contract states which lines are printed and that none repeats, not their order.
- FindUnsafeInPackages: the counts are unbounded naturals; the overflow of the source's `u32` is not modelled.
- Interceptor.IsRsArgIff: `to_lowercase` is modelled on ASCII only. `to_string_lossy` is the identity, because arguments are strings here. Neither changes which arguments end in `.rs`.
- The error payloads (`io::Error`, the `to_string` of cargo errors, the command line in the out-dir errors) are left out. Each error keeps only its variant and the path it names.
- DepInfo.ParseRustcDepInfo: a trailing backslash makes the source's `expect` panic. It is modelled as the error `TrailingBackslash`. In the ledger that error is `DepInfoPanic`, kept apart from the `DepParse` error of a file that cannot be read.
- Classifier.FindRsFilesInPackages: the source chains the packages lazily, so one package's files are scanned before the next package is classified. The model classifies all packages first. Only the order of the side effects differs. `real_main` allows partial results, so no scan aborts.
- A failed canonicalization in `find_rs_files_in_dir` and a `walkdir` error are likewise panics (`expect`), modelled as `Panic` results with the source's messages.
- TraitPathExamples: the example strings are written as concatenations of pieces. The strings are the same as in the script's assertions.

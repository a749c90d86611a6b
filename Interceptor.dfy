/** The executor that cargo hands every rustc invocation of the audit build:
    it records the `.rs` files named on the command line and the
    `--out-dir` the invocation writes its `.d` files to. */
module Interceptor {
  import opened Wrappers
  import opened Strings
  import opened Paths

  datatype CustomExecutorError =
    | OutDirKeyMissing
    | OutDirValueMissing
    | Io(path: Path)
    | ProcessFailed

  const OutDirKey: string := "--out-dir"

  /** Index of the first argument equal to `x`. */
  function Position(args: seq<string>, x: string): (r: Option<nat>)
    ensures r.None? <==> x !in args
    ensures r.Some? ==> r.value < |args| && args[r.value] == x
    ensures r.Some? ==> forall j :: 0 <= j < r.value ==> args[j] != x
    decreases |args|
  {
    if args == [] then None
    else if args[0] == x then Some(0)
    else
      match Position(args[1..], x)
      case None => None
      case Some(i) => Some(i + 1)
  }

  /** The out-dir of an invocation: the argument after the first `--out-dir`. */
  function OutDirArg(args: seq<string>): (r: Result<Path, CustomExecutorError>)
    ensures r == Failure(OutDirKeyMissing) <==> OutDirKey !in args
    ensures r == Failure(OutDirValueMissing) <==> OutDirKey in args && Position(args, OutDirKey).value == |args| - 1
    ensures r.Success? ==> exists i :: (0 <= i < |args| - 1 && args[i] == OutDirKey
      && (forall j :: 0 <= j < i ==> args[j] != OutDirKey) && r.value == args[i + 1])
  {
    match Position(args, OutDirKey)
    case None => Failure(OutDirKeyMissing)
    case Some(i) => if i + 1 < |args| then Success(args[i + 1]) else Failure(OutDirValueMissing)
  }

  /** An argument names a Rust source file: lower-cased, it ends in `.rs`. */
  predicate IsRsArg(a: string) {
    EndsWith(ToLower(a), ".rs")
  }

  /** What the lower-casing means for the suffix test: `.rs`, `.RS`, `.Rs`
      and `.rS` all count, and nothing else does. */
  lemma IsRsArgIff(a: string)
    ensures IsRsArg(a) <==> (|a| >= 3 && a[|a| - 3] == '.'
      && (a[|a| - 2] == 'r' || a[|a| - 2] == 'R') && (a[|a| - 1] == 's' || a[|a| - 1] == 'S'))
  {
    var l := ToLower(a);
    if |a| >= 3 {
      assert l[|l| - 3..] == [l[|a| - 3], l[|a| - 2], l[|a| - 1]];
    }
  }

  /** The state of the `.rs` recording loop: the canonical paths recorded
      so far and, once one could not be made canonical, its joined path. */
  datatype Recording = Recording(paths: set<Path>, failed: Option<Path>)

  /** The recording over `args`, in order, stopping at the first `.rs`
      argument whose path (joined to `cwd`) has no canonical form. */
  function Recorded(fs: Fs, cwd: Path, args: seq<string>): Recording
    decreases |args|
  {
    if args == [] then Recording({}, None)
    else
      var prev := Recorded(fs, cwd, args[..|args| - 1]);
      var a := Last(args);
      if prev.failed.Some? || !IsRsArg(a) then prev
      else
        var raw := JoinPath(cwd, a);
        match fs.canonicalize(raw)
        case None => Recording(prev.paths, Some(raw))
        case Some(p) => Recording(prev.paths + {p}, None)
  }

  /** The invocation's own working directory, or else the executor's. */
  function InvocationCwd(cmdCwd: Option<Path>, cwd: Path): Path {
    match cmdCwd
    case Some(c) => c
    case None => cwd
  }

  /** `CustomExecutorInnerContext`: what the executor has recorded so far. */
  class InnerContext {
    var rsFileArgs: set<Path>
    var outDirArgs: set<Path>

    constructor ()
      ensures rsFileArgs == {} && outDirArgs == {}
    {
      rsFileArgs := {};
      outDirArgs := {};
    }
  }

  class CustomExecutor {
    const cwd: Path
    const innerCtx: InnerContext

    constructor (cwd: Path, innerCtx: InnerContext)
      ensures this.cwd == cwd && this.innerCtx == innerCtx
    {
      this.cwd := cwd;
      this.innerCtx := innerCtx;
    }

    /** `exec` for one rustc invocation with arguments `args`: no out-dir,
        no change; otherwise every `.rs` argument, joined to the working
        directory and made canonical, is recorded until one cannot be made
        canonical, and only when all could be is the out-dir recorded and
        rustc run (`rustcOk` is whether that run succeeds). */
    method Exec(args: seq<string>, cmdCwd: Option<Path>, fs: Fs, rustcOk: bool)
      returns (r: Result<(), CustomExecutorError>)
      modifies innerCtx
      ensures OutDirArg(args).Failure? ==>
        r == Failure(OutDirArg(args).error) && unchanged(innerCtx)
      ensures OutDirArg(args).Success? ==>
        var rec := Recorded(fs, InvocationCwd(cmdCwd, cwd), args);
        innerCtx.rsFileArgs == old(innerCtx.rsFileArgs) + rec.paths
        && (rec.failed.Some? ==>
              r == Failure(Io(rec.failed.value)) && innerCtx.outDirArgs == old(innerCtx.outDirArgs))
        && (rec.failed.None? ==>
              innerCtx.outDirArgs == old(innerCtx.outDirArgs) + {OutDirArg(args).value}
              && r == (if rustcOk then Success(()) else Failure(ProcessFailed)))
    {
      var outDirKeyIdx := Position(args, OutDirKey);
      if outDirKeyIdx.None? {
        return Failure(OutDirKeyMissing);
      }
      if outDirKeyIdx.value + 1 >= |args| {
        return Failure(OutDirValueMissing);
      }
      var outDir := args[outDirKeyIdx.value + 1];
      var dir := InvocationCwd(cmdCwd, cwd);
      var i := 0;
      while i < |args|
        invariant 0 <= i <= |args|
        invariant Recorded(fs, dir, args[..i]).failed.None?
        invariant innerCtx.rsFileArgs == old(innerCtx.rsFileArgs) + Recorded(fs, dir, args[..i]).paths
        invariant innerCtx.outDirArgs == old(innerCtx.outDirArgs)
      {
        RecordedStep(fs, dir, args, i);
        if IsRsArg(args[i]) {
          var rawPath := JoinPath(dir, args[i]);
          var p := fs.canonicalize(rawPath);
          if p.None? {
            RecordedFailurePersists(fs, dir, args, i + 1);
            return Failure(Io(rawPath));
          }
          innerCtx.rsFileArgs := innerCtx.rsFileArgs + {p.value};
        }
        i := i + 1;
      }
      assert args[..i] == args;
      innerCtx.outDirArgs := innerCtx.outDirArgs + {outDir};
      if !rustcOk {
        return Failure(ProcessFailed);
      }
      r := Success(());
    }
  }

  /** One more argument of the recording loop. */
  lemma RecordedStep(fs: Fs, cwd: Path, args: seq<string>, i: nat)
    requires i < |args|
    ensures var prev := Recorded(fs, cwd, args[..i]);
      Recorded(fs, cwd, args[..i + 1])
      == if prev.failed.Some? || !IsRsArg(args[i]) then prev
         else match fs.canonicalize(JoinPath(cwd, args[i]))
              case None => Recording(prev.paths, Some(JoinPath(cwd, args[i])))
              case Some(p) => Recording(prev.paths + {p}, None)
  {
    PrefixSnoc(args, i);
  }

  lemma {:induction false} RecordedFailurePersists(fs: Fs, cwd: Path, args: seq<string>, k: nat)
    requires k <= |args| && Recorded(fs, cwd, args[..k]).failed.Some?
    ensures Recorded(fs, cwd, args) == Recorded(fs, cwd, args[..k])
    decreases |args| - k
  {
    if k < |args| {
      RecordedStep(fs, cwd, args, k);
      RecordedFailurePersists(fs, cwd, args, k + 1);
    } else {
      assert args[..k] == args;
    }
  }

  /** What is recorded: only canonical forms of `.rs` arguments joined to
      the working directory; and when none fails, all of them. The
      recording fails exactly when some `.rs` argument has no canonical form. */
  lemma {:induction false} RecordedMeaning(fs: Fs, cwd: Path, args: seq<string>)
    ensures Recorded(fs, cwd, args).failed.None? <==>
      forall i :: 0 <= i < |args| && IsRsArg(args[i]) ==> fs.canonicalize(JoinPath(cwd, args[i])).Some?
    ensures forall p :: p in Recorded(fs, cwd, args).paths ==>
      exists i :: 0 <= i < |args| && IsRsArg(args[i]) && fs.canonicalize(JoinPath(cwd, args[i])) == Some(p)
    ensures Recorded(fs, cwd, args).failed.None? ==>
      forall i :: 0 <= i < |args| && IsRsArg(args[i]) ==>
        fs.canonicalize(JoinPath(cwd, args[i])).value in Recorded(fs, cwd, args).paths
    ensures Recorded(fs, cwd, args).failed.Some? ==>
      exists i :: 0 <= i < |args| && IsRsArg(args[i]) && Recorded(fs, cwd, args).failed.value == JoinPath(cwd, args[i])
        && fs.canonicalize(JoinPath(cwd, args[i])).None?
    decreases |args|
  {
    if args != [] {
      var init := args[..|args| - 1];
      RecordedMeaning(fs, cwd, init);
      assert args == init + [Last(args)];
      assert forall i :: 0 <= i < |init| ==> init[i] == args[i];
    }
  }
}

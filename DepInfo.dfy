/** `parse_rustc_dep_info`: reading the dependency-listing (`.d`) files that
    rustc writes, one `product: input input ...` line per product, with a
    space inside a file name written as a backslash and a space. */
module DepInfo {
  import opened Wrappers
  import opened Strings

  /** One parsed line: the product and the input files it was built from. */
  datatype DepEntry = DepEntry(target: string, inputs: seq<string>)

  /** A token ends in a backslash and no token follows it
      ("malformed dep-info format, trailing \"). */
  datatype DepError = TrailingBackslash

  predicate EndsInBackslash(s: string) {
    s != [] && s[|s| - 1] == '\\'
  }

  /** The inner loop of the parser: while `file` ends in a backslash, that
      backslash becomes a space and the next token, `tokens[j]`, is appended.
      Gives the finished file name and the index of the first unread token. */
  function Continue(file: string, tokens: seq<string>, j: nat): (r: Result<(string, nat), DepError>)
    requires j <= |tokens|
    ensures r.Success? ==> j <= r.value.1 <= |tokens| && !EndsInBackslash(r.value.0)
    decreases |tokens| - j
  {
    if !EndsInBackslash(file) then Success((file, j))
    else if j == |tokens| then Failure(TrailingBackslash)
    else Continue(file[..|file| - 1] + " " + tokens[j], tokens, j + 1)
  }

  function Prepend(files: seq<string>, r: Result<seq<string>, DepError>): Result<seq<string>, DepError> {
    match r
    case Failure(e) => Failure(e)
    case Success(rest) => Success(files + rest)
  }

  /** The outer loop from token `j` on: every token starts a file name,
      which `Continue` finishes. */
  function RejoinFrom(tokens: seq<string>, j: nat): Result<seq<string>, DepError>
    requires j <= |tokens|
    decreases |tokens| - j
  {
    if j == |tokens| then Success([])
    else
      match Continue(tokens[j], tokens, j + 1)
      case Failure(e) => Failure(e)
      case Success((file, k)) => Prepend([file], RejoinFrom(tokens, k))
  }

  /** The file names a line's tokens stand for. */
  function Rejoin(tokens: seq<string>): Result<seq<string>, DepError> {
    RejoinFrom(tokens, 0)
  }

  /** The entry of one line: `None` for a line without `": "`; otherwise the
      text before the first `": "` and the file names after it. */
  function ParseLine(line: string): Option<Result<DepEntry, DepError>> {
    match Find(line, ": ")
    case None => None
    case Some(pos) =>
      match Rejoin(SplitWhitespace(line[pos + 2..]))
      case Failure(e) => Some(Failure(e))
      case Success(files) => Some(Success(DepEntry(line[..pos], files)))
  }

  /** The lines in order, stopping at the first malformed one. */
  function ParseLines(ls: seq<string>): Result<seq<DepEntry>, DepError>
    decreases |ls|
  {
    if ls == [] then Success([])
    else
      match ParseLines(ls[..|ls| - 1])
      case Failure(e) => Failure(e)
      case Success(es) =>
        match ParseLine(Last(ls))
        case None => Success(es)
        case Some(Failure(e)) => Failure(e)
        case Some(Success(entry)) => Success(es + [entry])
  }

  /** What `parse_rustc_dep_info` returns for a file's contents. */
  function DepInfo(contents: string): Result<seq<DepEntry>, DepError> {
    ParseLines(Lines(contents))
  }

  lemma PrependNothing(r: Result<seq<string>, DepError>)
    ensures Prepend([], r) == r
  {
    if r.Success? { assert [] + r.value == r.value; }
  }

  lemma PrependTwice(a: seq<string>, b: seq<string>, r: Result<seq<string>, DepError>)
    ensures Prepend(a, Prepend(b, r)) == Prepend(a + b, r)
  {
    if r.Success? { assert a + (b + r.value) == (a + b) + r.value; }
  }

  /** A malformed line makes the whole file malformed. */
  lemma {:induction false} ParseLinesFailurePersists(ls: seq<string>, k: nat)
    requires k <= |ls| && ParseLines(ls[..k]).Failure?
    ensures ParseLines(ls) == ParseLines(ls[..k])
    decreases |ls| - k
  {
    if k < |ls| {
      assert ls[..k + 1][..k] == ls[..k];
      ParseLinesFailurePersists(ls, k + 1);
    } else {
      assert ls[..k] == ls;
    }
  }

  lemma ParseLinesStep(ls: seq<string>, i: nat, ret: seq<DepEntry>)
    requires i < |ls| && ParseLines(ls[..i]) == Success(ret)
    ensures ParseLines(ls[..i + 1]) ==
      match ParseLine(ls[i])
      case None => Success(ret)
      case Some(Failure(e)) => Failure(e)
      case Some(Success(entry)) => Success(ret + [entry])
  {
    assert ls[..i + 1][..i] == ls[..i];
    assert Last(ls[..i + 1]) == ls[i];
  }

  /** The token loops of `parse_rustc_dep_info` for one line: each token
      starts a file name, continued while it ends in a backslash. */
  method RejoinTokens(deps: seq<string>) returns (r: Result<seq<string>, DepError>)
    ensures r == Rejoin(deps)
  {
    var files: seq<string> := [];
    var j := 0;
    PrependNothing(Rejoin(deps));
    while j < |deps|
      invariant 0 <= j <= |deps|
      invariant Rejoin(deps) == Prepend(files, RejoinFrom(deps, j))
    {
      var start := j;
      var file := deps[j];
      j := j + 1;
      while EndsInBackslash(file)
        invariant start < j <= |deps|
        invariant Continue(deps[start], deps, start + 1) == Continue(file, deps, j)
        decreases |deps| - j
      {
        if j == |deps| {
          return Failure(TrailingBackslash);
        }
        file := file[..|file| - 1] + " " + deps[j];
        j := j + 1;
      }
      PrependTwice(files, [file], RejoinFrom(deps, j));
      files := files + [file];
    }
    assert files + [] == files;
    r := Success(files);
  }

  /** The body of `parse_rustc_dep_info`'s line loop: a line without
      `": "` is skipped, any other is cut at its first `": "`. */
  method ParseDepInfoLine(line: string) returns (r: Option<Result<DepEntry, DepError>>)
    ensures r == ParseLine(line)
  {
    var found := Find(line, ": ");
    if found.None? {
      return None;
    }
    var pos := found.value;
    var files := RejoinTokens(SplitWhitespace(line[pos + 2..]));
    if files.Failure? {
      return Some(Failure(files.error));
    }
    r := Some(Success(DepEntry(line[..pos], files.value)));
  }

  /** `parse_rustc_dep_info` on the file's contents (reading the file is the
      caller's business): every line with a `": "` becomes an entry. */
  method ParseRustcDepInfo(contents: string) returns (r: Result<seq<DepEntry>, DepError>)
    ensures r == DepInfo(contents)
  {
    var lines := Lines(contents);
    var ret: seq<DepEntry> := [];
    var i := 0;
    while i < |lines|
      invariant 0 <= i <= |lines|
      invariant ParseLines(lines[..i]) == Success(ret)
    {
      ParseLinesStep(lines, i, ret);
      var parsed := ParseDepInfoLine(lines[i]);
      if parsed.Some? {
        if parsed.value.Failure? {
          ParseLinesFailurePersists(lines, i + 1);
          return Failure(parsed.value.error);
        }
        ret := ret + [parsed.value.value];
      }
      i := i + 1;
    }
    assert lines[..i] == lines;
    r := Success(ret);
  }

  // ---------------------------------------------------------------------
  // What the parser promises.

  predicate NonEmptyTokens(ts: seq<string>) {
    forall m :: 0 <= m < |ts| ==> ts[m] != ""
  }

  /** Continuing a file consumes tokens up to the first one that does not end
      in a backslash: it fails only when every token from `j` on ends in one,
      and the last token it appended does not. */
  lemma {:induction false} ContinueCases(file: string, ts: seq<string>, j: nat)
    requires j <= |ts| && file != "" && NonEmptyTokens(ts)
    ensures Continue(file, ts, j).Failure? ==>
      EndsInBackslash(file) && forall m :: j <= m < |ts| ==> EndsInBackslash(ts[m])
    ensures Continue(file, ts, j).Success? ==>
      var k := Continue(file, ts, j).value.1;
      (k == j ==> !EndsInBackslash(file)) && (k > j ==> !EndsInBackslash(ts[k - 1]))
    decreases |ts| - j
  {
    if EndsInBackslash(file) && j < |ts| {
      var next := file[..|file| - 1] + " " + ts[j];
      assert next[|next| - 1] == ts[j][|ts[j]| - 1];
      ContinueCases(next, ts, j + 1);
    }
  }

  /** A line's tokens fail to rejoin exactly when the last one ends in a
      backslash: the continuation it asks for has no token to take. */
  lemma {:induction false} RejoinFromFails(ts: seq<string>, j: nat)
    requires j <= |ts| && NonEmptyTokens(ts)
    ensures RejoinFrom(ts, j).Failure? <==> j < |ts| && EndsInBackslash(Last(ts))
    decreases |ts| - j
  {
    if j < |ts| {
      ContinueCases(ts[j], ts, j + 1);
      match Continue(ts[j], ts, j + 1)
      case Failure(_) =>
      case Success((file, k)) =>
        RejoinFromFails(ts, k);
    }
  }

  lemma TrailingBackslashFails(ts: seq<string>)
    requires NonEmptyTokens(ts)
    ensures Rejoin(ts).Failure? <==> ts != [] && EndsInBackslash(Last(ts))
  {
    RejoinFromFails(ts, 0);
  }

  /** A line is malformed when it has a `": "` and the last token after the
      first one ends in a backslash. */
  predicate Malformed(line: string) {
    match Find(line, ": ")
    case None => false
    case Some(pos) =>
      var ts := SplitWhitespace(line[pos + 2..]);
      ts != [] && EndsInBackslash(Last(ts))
  }

  /** `e` is the entry a line stands for: the line starts with `e.target`
      and `": "`, that is the first `": "` in it, and the rest of the line
      rejoins to `e.inputs`. */
  predicate EntryOf(line: string, e: DepEntry) {
    var n := |e.target| + 2;
    n <= |line| && line[..n] == e.target + ": "
    && EndsAtSeparator(e.target, ": ")
    && Rejoin(SplitWhitespace(line[n..])) == Success(e.inputs)
  }

  /** One line: no `": "`, no entry; a malformed line, a failure; any other
      line, the entry whose target is the text before its first `": "`. */
  lemma ParseLineMeaning(line: string)
    ensures ParseLine(line).None? <==> !Contains(line, ": ")
    ensures (ParseLine(line).Some? && ParseLine(line).value.Failure?) <==> Malformed(line)
    ensures ParseLine(line).Some? && ParseLine(line).value.Success? ==>
      EntryOf(line, ParseLine(line).value.value)
  {
    if Find(line, ": ").Some? {
      var pos := Find(line, ": ").value;
      TrailingBackslashFails(SplitWhitespace(line[pos + 2..]));
      TargetEnds(line, pos);
    }
  }

  /** The text before the first `": "` holds no `": "` that ends before it. */
  lemma TargetEnds(line: string, pos: nat)
    requires Find(line, ": ") == Some(pos)
    ensures pos + 2 <= |line| && line[..pos + 2] == line[..pos] + ": "
    ensures EndsAtSeparator(line[..pos], ": ")
  {
    FindFirst(line, ": ", pos);
    FirstEnds(line, ": ", pos);
  }

  /** The lines that carry a `": "`, in order. */
  function WithSeparator(ls: seq<string>): seq<string>
    decreases |ls|
  {
    if ls == [] then []
    else WithSeparator(ls[..|ls| - 1]) + (if Contains(Last(ls), ": ") then [Last(ls)] else [])
  }

  /** A listing parses to one entry per line with a `": "`, in order, each
      the entry that line stands for; it fails exactly when some line is
      malformed. */
  lemma ParseLinesMeaning(ls: seq<string>)
    ensures ParseLines(ls).Success? ==>
      var es := ParseLines(ls).value;
      |es| == |WithSeparator(ls)|
      && forall k :: 0 <= k < |es| ==> EntryOf(WithSeparator(ls)[k], es[k])
    ensures ParseLines(ls).Failure? <==> exists k :: 0 <= k < |ls| && Malformed(ls[k])
  {
    ParseLinesEntries(ls);
    ParseLinesFails(ls);
  }

  lemma {:induction false} ParseLinesEntries(ls: seq<string>)
    ensures ParseLines(ls).Success? ==>
      var es := ParseLines(ls).value;
      |es| == |WithSeparator(ls)|
      && forall k :: 0 <= k < |es| ==> EntryOf(WithSeparator(ls)[k], es[k])
    decreases |ls|
  {
    if ls != [] {
      ParseLinesEntries(ls[..|ls| - 1]);
      ParseLineMeaning(Last(ls));
    }
  }

  lemma {:induction false} ParseLinesFails(ls: seq<string>)
    ensures ParseLines(ls).Failure? <==> exists k :: 0 <= k < |ls| && Malformed(ls[k])
    decreases |ls|
  {
    if ls != [] {
      ParseLinesFails(ls[..|ls| - 1]);
      LineFails(Last(ls));
      ParseLinesSnoc(ls);
      SomeSnoc(Malformed, ls, ls[..|ls| - 1]);
    }
  }

  /** The lines fail when the lines before the last do or the last does. */
  lemma ParseLinesSnoc(ls: seq<string>)
    requires ls != []
    ensures ParseLines(ls).Failure? <==>
      ParseLines(ls[..|ls| - 1]).Failure? || (ParseLine(Last(ls)).Some? && ParseLine(Last(ls)).value.Failure?)
  {
  }

  /** Some element satisfies `P` when one before the last does or the last does. */
  lemma SomeSnoc<T>(P: T -> bool, s: seq<T>, init: seq<T>)
    requires s != [] && init == s[..|s| - 1]
    ensures (exists k :: 0 <= k < |s| && P(s[k])) <==>
      (exists k :: 0 <= k < |init| && P(init[k])) || P(Last(s))
  {
    if (exists k :: 0 <= k < |s| && P(s[k])) && !P(Last(s)) {
      var k :| 0 <= k < |s| && P(s[k]);
      assert k < |init| && init[k] == s[k];
    }
    if k :| 0 <= k < |init| && P(init[k]) {
      assert s[k] == init[k];
    }
  }

  lemma LineFails(line: string)
    ensures (ParseLine(line).Some? && ParseLine(line).value.Failure?) <==> Malformed(line)
  {
    ParseLineMeaning(line);
  }

  /** `parse_rustc_dep_info`'s contract on a whole file. */
  lemma DepInfoMeaning(contents: string)
    ensures DepInfo(contents).Success? ==>
      var es := DepInfo(contents).value;
      var ls := WithSeparator(Lines(contents));
      |es| == |ls| && forall k :: 0 <= k < |es| ==> EntryOf(ls[k], es[k])
    ensures DepInfo(contents).Failure? <==>
      exists k :: 0 <= k < |Lines(contents)| && Malformed(Lines(contents)[k])
  {
    ParseLinesMeaning(Lines(contents));
  }

  /** The continuation rule on the line `out/obj: a\\ b.rs c.rs`: the escaped
      space is restored and the line names two inputs. */
  lemma ContinuationExample(line: string)
    requires line == "out/obj: a\\ b.rs c.rs"
    ensures ParseLine(line) == Some(Success(DepEntry("out/obj", ["a b.rs", "c.rs"])))
  {
    var target, w1, w2, w3 := "out/obj", "a\\", "b.rs", "c.rs";
    var rest := w1 + " " + (w2 + " " + w3);
    ExampleLine(line, target, rest);
    ExampleWords(w1, w2, w3);
    ExampleRejoin();
    ParseLineOf(line, |target|, ["a b.rs", "c.rs"]);
  }

  /** A line whose target holds no colon is cut right after the target. */
  lemma CutAfterTarget(target: string, rest: string)
    requires ':' !in target
    ensures Find(target + ": " + rest, ": ") == Some(|target|)
    ensures (target + ": " + rest)[|target| + 2..] == rest && (target + ": " + rest)[..|target|] == target
  {
    var line := (target + ": ") + rest;
    FirstCharAbsent(target, ": ");
    FirstAtPrefix(target + ": ", rest, ": ", |target|);
    FindIs(line, ": ", |target|);
    assert line[|target| + 2..] == rest && line[..|target|] == target;
  }

  /** The example line cut at its one `": "`. */
  lemma ExampleLine(line: string, target: string, rest: string)
    requires line == "out/obj: a\\ b.rs c.rs"
    requires target == "out/obj" && rest == "a\\" + " " + ("b.rs" + " " + "c.rs")
    ensures Find(line, ": ") == Some(|target|)
    ensures line[|target| + 2..] == rest && line[..|target|] == target
  {
    assert line == target + ": " + rest;
    assert ':' !in target;
    CutAfterTarget(target, rest);
  }

  lemma ExampleWords(w1: string, w2: string, w3: string)
    requires w1 == "a\\" && w2 == "b.rs" && w3 == "c.rs"
    ensures SplitWhitespace(w1 + " " + (w2 + " " + w3)) == [w1, w2, w3]
  {
    assert NoWhitespace(w1) && NoWhitespace(w2) && NoWhitespace(w3);
    ThreeWords(w1, w2, w3);
  }

  lemma ParseLineOf(line: string, pos: nat, files: seq<string>)
    requires Find(line, ": ") == Some(pos)
    requires Rejoin(SplitWhitespace(line[pos + 2..])) == Success(files)
    ensures ParseLine(line) == Some(Success(DepEntry(line[..pos], files)))
  {
  }

  lemma ThreeWords(w1: string, w2: string, w3: string)
    requires w1 != "" && w2 != "" && w3 != ""
    requires NoWhitespace(w1) && NoWhitespace(w2) && NoWhitespace(w3)
    ensures SplitWhitespace(w1 + " " + (w2 + " " + w3)) == [w1, w2, w3]
  {
    SplitWhitespaceWord(w3);
    SplitWhitespaceCons(w2, w3);
    SplitWhitespaceCons(w1, w2 + " " + w3);
  }

  lemma ExampleRejoin()
    ensures Rejoin(["a\\", "b.rs", "c.rs"]) == Success(["a b.rs", "c.rs"])
  {
    var ts := ["a\\", "b.rs", "c.rs"];
    assert RejoinFrom(ts, 3) == Success([]);
    assert !EndsInBackslash(ts[2]);
    assert Continue(ts[2], ts, 3) == Success(("c.rs", 3));
    assert RejoinFrom(ts, 2) == Prepend(["c.rs"], RejoinFrom(ts, 3));
    assert ["c.rs"] + [] == ["c.rs"];
    assert "a\\"[..1] + " " + "b.rs" == "a b.rs";
    assert !EndsInBackslash("a b.rs");
    assert Continue("a b.rs", ts, 2) == Success(("a b.rs", 2));
    assert Continue(ts[0], ts, 1) == Success(("a b.rs", 2));
    assert RejoinFrom(ts, 0) == Prepend(["a b.rs"], RejoinFrom(ts, 2));
    assert ["a b.rs"] + ["c.rs"] == ["a b.rs", "c.rs"];
    assert Rejoin(ts) == RejoinFrom(ts, 0);
  }

  // ---------------------------------------------------------------------
  // The writer's side: rustc writes a space inside a file name as a
  // backslash and a space, and the parser undoes that.

  /** A file name rustc can write so that it reads back: not empty, no
      whitespace but plain spaces, and not ending in a space or a backslash. */
  predicate Escapable(f: string) {
    f != [] && f[|f| - 1] != ' ' && f[|f| - 1] != '\\'
    && forall k :: 0 <= k < |f| ==> f[k] == ' ' || !IsWhitespace(f[k])
  }

  /** Every space of `f` written as a backslash and a space. */
  function Escape(f: string): string {
    Join(Split(f, " "), "\\ ")
  }

  /** A `.d` line: the product, `": "`, and the escaped inputs separated by spaces. */
  function DepLine(target: string, files: seq<string>): string {
    target + ": " + Join(seq(|files|, k requires 0 <= k < |files| => Escape(files[k])), " ")
  }

  /** Every piece but the last with a backslash appended: the tokens one
      escaped file name falls into. */
  function Backslashed(ps: seq<string>): (ts: seq<string>)
    ensures |ts| == |ps|
    decreases |ps|
  {
    if |ps| <= 1 then ps else [ps[0] + "\\"] + Backslashed(ps[1..])
  }

  function Tokens(f: string): seq<string> {
    Backslashed(Split(f, " "))
  }

  /** The tokens of a run of file names, one after another. */
  function AllTokens(files: seq<string>): seq<string>
    decreases |files|
  {
    if files == [] then [] else Tokens(files[0]) + AllTokens(files[1..])
  }

  lemma {:induction false} JoinBackslashed(ps: seq<string>)
    ensures Join(ps, "\\ ") == Join(Backslashed(ps), " ")
    decreases |ps|
  {
    if |ps| >= 2 {
      JoinBackslashed(ps[1..]);
      JoinCons(ps[0] + "\\", Backslashed(ps[1..]), " ");
    }
  }

  lemma {:induction false} JoinEscaped(files: seq<string>)
    ensures Join(seq(|files|, k requires 0 <= k < |files| => Escape(files[k])), " ")
      == Join(AllTokens(files), " ")
    decreases |files|
  {
    var es := seq(|files|, k requires 0 <= k < |files| => Escape(files[k]));
    if |files| >= 1 {
      var ps := Split(files[0], " ");
      JoinBackslashed(ps);
      var rest := files[1..];
      var es' := seq(|rest|, k requires 0 <= k < |rest| => Escape(rest[k]));
      assert es[1..] == es';
      JoinEscaped(rest);
      if |rest| == 0 {
        assert es == [Escape(files[0])];
        assert AllTokens(rest) == [];
        assert AllTokens(files) == Tokens(files[0]) + [];
        assert Tokens(files[0]) + [] == Tokens(files[0]);
      } else {
        assert AllTokens(rest) == Tokens(rest[0]) + AllTokens(rest[1..]);
        JoinAppend(Tokens(files[0]), AllTokens(rest), " ");
        JoinCons(es[0], es', " ");
        assert es == [es[0]] + es';
      }
    }
  }

  /** A slice holding two runs holds each of them. */
  lemma SliceSplit<T>(s: seq<T>, j: nat, a: seq<T>, b: seq<T>)
    requires j + |a| + |b| <= |s| && s[j..j + |a| + |b|] == a + b
    ensures s[j..j + |a|] == a && s[j + |a|..j + |a| + |b|] == b
  {
    assert s[j..j + |a|] == (a + b)[..|a|];
    assert s[j + |a|..j + |a| + |b|] == (a + b)[|a|..];
  }

  lemma BackslashedCons(ps: seq<string>)
    requires |ps| >= 2
    ensures Backslashed(ps) == [ps[0] + "\\"] + Backslashed(ps[1..])
  {
  }

  /** A name ending in a backslash takes the next token, after a space. */
  lemma ContinueOnce(acc: string, ts: seq<string>, j: nat)
    requires j < |ts|
    ensures Continue(acc + "\\", ts, j) == Continue(acc + " " + ts[j], ts, j + 1)
  {
    assert (acc + "\\")[..|acc|] == acc;
    assert EndsInBackslash(acc + "\\");
  }

  /** The tokens of a name of two or more pieces: its first piece with a
      backslash, then the tokens of the other pieces. */
  lemma BackslashedSlices(ps: seq<string>, ts: seq<string>, j: nat)
    requires |ps| >= 2 && j + |ps| <= |ts| && ts[j..j + |ps|] == Backslashed(ps)
    ensures ts[j] == ps[0] + "\\" && ts[j + 1..j + 1 + |ps[1..]|] == Backslashed(ps[1..])
  {
    BackslashedCons(ps);
    SliceSplit(ts, j, [ps[0] + "\\"], Backslashed(ps[1..]));
    assert ts[j] == ts[j..j + 1][0];
  }

  /** A name ending in a backslash followed by a token without one ends
      after that token. */
  lemma ContinueLast(acc: string, t: string, ts: seq<string>, j: nat)
    requires j < |ts| && ts[j] == t && t != [] && !EndsInBackslash(t)
    ensures Continue(acc + "\\", ts, j) == Success((acc + " " + t, j + 1))
  {
    ContinueOnce(acc, ts, j);
    var next := acc + " " + t;
    assert next[|next| - 1] == t[|t| - 1];
  }

  /** A backslashed token continues through the tokens of the rest of the
      same name and stops after its last piece. */
  lemma {:induction false} ContinueBackslashed(acc: string, ps: seq<string>, ts: seq<string>, j: nat)
    requires |ps| >= 1 && Last(ps) != [] && !EndsInBackslash(Last(ps))
    requires j + |ps| <= |ts| && ts[j..j + |ps|] == Backslashed(ps)
    ensures Continue(acc + "\\", ts, j) == Success((acc + " " + Join(ps, " "), j + |ps|))
    decreases |ps|
  {
    if |ps| == 1 {
      assert ts[j] == ts[j..j + 1][0];
      ContinueLast(acc, ps[0], ts, j);
      assert Join(ps, " ") == ps[0];
    } else {
      ContinueOnce(acc, ts, j);
      var rest := ps[1..];
      BackslashedSlices(ps, ts, j);
      var acc' := acc + " " + ps[0];
      assert acc + " " + ts[j] == acc' + "\\";
      ContinueBackslashed(acc', rest, ts, j + 1);
      assert ps == [ps[0]] + rest;
      JoinCons(ps[0], rest, " ");
      Regroup(acc, " ", ps[0], Join(rest, " "));
      assert acc + " " + Join(ps, " ") == acc' + " " + Join(rest, " ");
      assert j + |ps| == j + 1 + |rest|;
    }
  }

  /** The tokens of one escaped name rejoin to the name. */
  lemma RejoinOne(ps: seq<string>, ts: seq<string>, j: nat)
    requires |ps| >= 1 && Last(ps) != [] && !EndsInBackslash(Last(ps))
    requires j + |ps| <= |ts| && ts[j..j + |ps|] == Backslashed(ps)
    ensures RejoinFrom(ts, j) == Prepend([Join(ps, " ")], RejoinFrom(ts, j + |ps|))
  {
    assert ts[j] == Backslashed(ps)[0];
    if |ps| >= 2 {
      BackslashedCons(ps);
      SliceSplit(ts, j, [ps[0] + "\\"], Backslashed(ps[1..]));
      ContinueBackslashed(ps[0], ps[1..], ts, j + 1);
      JoinCons(ps[0], ps[1..], " ");
      assert ps == [ps[0]] + ps[1..];
    }
  }

  /** The pieces of an escapable name between its spaces: the last one is
      not empty and does not end in a backslash, and none holds whitespace. */
  lemma EscapablePieces(f: string)
    requires Escapable(f)
    ensures Last(Split(f, " ")) != [] && !EndsInBackslash(Last(Split(f, " ")))
    ensures forall k :: 0 <= k < |Split(f, " ")| ==> NoWhitespace(Split(f, " ")[k])
  {
    var ps := Split(f, " ");
    SplitLast(f, " ");
    if |ps| >= 2 {
      var t := " " + Last(ps);
      assert f[|f| - |t|..] == t;
      assert f[|f| - 1] == t[|t| - 1];
    }
    forall k, m | 0 <= k < |ps| && 0 <= m < |ps[k]| ensures !IsWhitespace(ps[k][m]) {
      NoCharOfNoContains(ps[k], ' ');
      SplitChars(f, " ", k, ps[k][m]);
    }
  }

  /** The tokens of an escapable name are non-empty words. */
  lemma {:induction false} BackslashedWords(ps: seq<string>)
    requires |ps| >= 1 && Last(ps) != []
    requires forall k :: 0 <= k < |ps| ==> NoWhitespace(ps[k])
    ensures forall k :: 0 <= k < |ps| ==> Backslashed(ps)[k] != [] && NoWhitespace(Backslashed(ps)[k])
    decreases |ps|
  {
    if |ps| >= 2 {
      BackslashedWords(ps[1..]);
      var w := ps[0] + "\\";
      assert forall m :: 0 <= m < |w| ==> w[m] == '\\' || w[m] == ps[0][m];
    }
  }

  lemma {:induction false} AllTokensWords(files: seq<string>)
    requires forall k :: 0 <= k < |files| ==> Escapable(files[k])
    ensures forall m :: 0 <= m < |AllTokens(files)| ==>
      AllTokens(files)[m] != [] && NoWhitespace(AllTokens(files)[m])
    decreases |files|
  {
    if files != [] {
      EscapablePieces(files[0]);
      BackslashedWords(Split(files[0], " "));
      AllTokensWords(files[1..]);
    }
  }

  /** Where the tokens of the first name end and those of the others begin. */
  lemma AllTokensSlices(files: seq<string>, ts: seq<string>, j: nat)
    requires files != [] && j <= |ts| && ts[j..] == AllTokens(files)
    ensures j + |Split(files[0], " ")| <= |ts|
    ensures ts[j..j + |Split(files[0], " ")|] == Tokens(files[0])
    ensures ts[j + |Split(files[0], " ")|..] == AllTokens(files[1..])
  {
    var tok, more := Tokens(files[0]), AllTokens(files[1..]);
    assert AllTokens(files) == tok + more;
    assert |tok| == |Split(files[0], " ")|;
    SuffixSplit(ts, j, tok, more);
  }

  /** A suffix holding two runs holds each of them. */
  lemma SuffixSplit<T>(s: seq<T>, j: nat, a: seq<T>, b: seq<T>)
    requires j <= |s| && s[j..] == a + b
    ensures j + |a| <= |s| && s[j..j + |a|] == a && s[j + |a|..] == b
  {
    assert s[j..j + |a|] == (a + b)[..|a|];
    assert s[j + |a|..] == (a + b)[|a|..];
  }

  /** The tokens of escapable names, from index `j` on, rejoin to the names. */
  lemma {:induction false} RejoinAll(files: seq<string>, ts: seq<string>, j: nat)
    requires forall k :: 0 <= k < |files| ==> Escapable(files[k])
    requires j <= |ts| && ts[j..] == AllTokens(files)
    ensures RejoinFrom(ts, j) == Success(files)
    decreases |files|
  {
    if files != [] {
      var ps := Split(files[0], " ");
      AllTokensSlices(files, ts, j);
      EscapablePieces(files[0]);
      RejoinOne(ps, ts, j);
      RejoinAll(files[1..], ts, j + |ps|);
      JoinSplit(files[0], " ");
      assert [files[0]] + files[1..] == files;
    }
  }

  /** Reading back a line rustc wrote gives its product and its inputs, as
      long as the product holds no `": "` of its own before the one that
      ends it and every input is escapable. */
  lemma ParseDepLine(target: string, files: seq<string>)
    requires EndsAtSeparator(target, ": ")
    requires forall k :: 0 <= k < |files| ==> Escapable(files[k])
    ensures ParseLine(DepLine(target, files)) == Some(Success(DepEntry(target, files)))
  {
    var line := DepLine(target, files);
    var body := Join(AllTokens(files), " ");
    JoinEscaped(files);
    assert line == (target + ": ") + body;
    FirstAtPrefix(target + ": ", body, ": ", |target|);
    FindIs(line, ": ", |target|);
    assert line[|target| + 2..] == body;
    assert line[..|target|] == target;
    AllTokensWords(files);
    SplitWhitespaceJoin(AllTokens(files));
    RejoinAll(files, AllTokens(files), 0);
  }
}

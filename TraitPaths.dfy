/** The helper script that matches the functions the audit reports against
    the node labels of a call graph. Trait paths written out in full, as in
    `<T as failure::as_fail::AsFail>::as_fail`, are cut down to the trait's
    own name, `<T as AsFail>::as_fail`, on both sides before comparing. */
module TraitPaths {
  import opened Strings

  const AsSep: string := " as "

  /** One segment that follows an ` as `: the trait path before its first
      `>` is cut down to its last `::`-separated component, and the `>` and
      everything after it are put back. */
  function SimplifySegment(seg: string): string {
    var pieces := Split(seg, ">");
    Join([Last(Split(pieces[0], "::"))] + pieces[1..], ">")
  }

  /** Segment `i` of the ` as ` split, rewritten: the even ones stand before
      an ` as ` and are kept as they are. */
  function Rewrite(i: nat, seg: string): string {
    if i % 2 == 0 then seg else SimplifySegment(seg)
  }

  function SimplifiedParts(parts: seq<string>): seq<string> {
    seq(|parts|, i requires 0 <= i < |parts| => Rewrite(i, parts[i]))
  }

  /** `simplify_fqn_trait_paths` as a value. */
  function Simplified(path: string): string {
    var parts := Split(path, AsSep);
    if |parts| == 1 then path else Join(SimplifiedParts(parts), AsSep)
  }

  /** `simplify_fqn_trait_paths`: the loop over the ` as ` segments. */
  method SimplifyFqnTraitPaths(path: string) returns (r: string)
    ensures r == Simplified(path)
  {
    var parts := Split(path, AsSep);
    if |parts| == 1 {
      return path;
    }
    var newParts: seq<string> := [];
    for i := 0 to |parts|
      invariant newParts == SimplifiedParts(parts)[..i]
    {
      assert SimplifiedParts(parts)[..i + 1] == SimplifiedParts(parts)[..i] + [Rewrite(i, parts[i])];
      if i % 2 == 0 {
        newParts := newParts + [parts[i]];
        continue;
      }
      var pieces := Split(parts[i], ">");
      var basename := Last(Split(pieces[0], "::"));
      var newAfterAs := Join([basename] + pieces[1..], ">");
      newParts := newParts + [newAfterAs];
    }
    assert SimplifiedParts(parts)[..|parts|] == SimplifiedParts(parts);
    r := Join(newParts, AsSep);
  }

  /** A path without ` as ` comes back unchanged; one with it is cut into
      at least two segments. */
  lemma NoAsUnchanged(path: string)
    ensures !Contains(path, AsSep) ==> Simplified(path) == path
    ensures Contains(path, AsSep) <==> |Split(path, AsSep)| >= 2
  {
    if !Contains(path, AsSep) {
      SplitNone(path, AsSep);
    } else {
      var i := Find(path, AsSep).value;
      SplitFound(path, AsSep, i);
    }
  }

  /** The last `::`-separated component of `x`: it holds no `::`, it is `x`
      itself exactly when `x` has no `::`, and otherwise `x` ends in `::`
      followed by it. */
  lemma LastComponent(x: string)
    ensures !Contains(Last(Split(x, "::")), "::")
    ensures Last(Split(x, "::")) == x <==> !Contains(x, "::")
    ensures Contains(x, "::") ==> EndsWith(x, "::" + Last(Split(x, "::")))
    ensures EndsWith(x, Last(Split(x, "::")))
  {
    var b := Last(Split(x, "::"));
    SplitLast(x, "::");
    if Contains(x, "::") {
      var i := Find(x, "::").value;
      SplitFound(x, "::", i);
      assert EndsWith(("::" + b)[..2] + b, b);
      EndsWithTrans(x, "::" + b, b);
    } else {
      SplitNone(x, "::");
      assert x[|x| - |x|..] == x;
    }
  }

  /** What a segment becomes: with no `>` in it, its last `::` component;
      otherwise the last `::` component of the text before the first `>`,
      followed by everything from that `>` on. */
  lemma SimplifySegmentMeaning(seg: string)
    ensures Find(seg, ">").None? ==> SimplifySegment(seg) == Last(Split(seg, "::"))
    ensures Find(seg, ">").Some? ==>
      SimplifySegment(seg) == Last(Split(seg[..Find(seg, ">").value], "::")) + seg[Find(seg, ">").value..]
  {
    ReplaceFirstPiece(seg, ">", Last(Split(Split(seg, ">")[0], "::")));
    if Find(seg, ">").None? {
      SplitNone(seg, ">");
    }
  }

  /** The rewriting only drops a leading part of a segment. */
  lemma SegmentSuffix(seg: string)
    ensures EndsWith(seg, SimplifySegment(seg))
  {
    SimplifySegmentMeaning(seg);
    match Find(seg, ">")
    case None =>
      LastComponent(seg);
    case Some(i) =>
      var head, tail := seg[..i], seg[i..];
      LastComponent(head);
      EndsWithConcat(head, Last(Split(head, "::")), tail);
      TakeDrop(seg, i);
  }

  /** The ` as ` segments of the result are those of the input, the even
      ones unchanged and the odd ones rewritten, in the same order. */
  lemma SimplifiedSegments(path: string)
    ensures Split(Simplified(path), AsSep) == SimplifiedParts(Split(path, AsSep))
  {
    var parts := Split(path, AsSep);
    var ts := SimplifiedParts(parts);
    if |parts| == 1 {
      assert ts == [path] by {
        SplitLast(path, AsSep);
      }
      SplitLast(path, AsSep);
      SplitNone(path, AsSep);
    } else {
      forall k | 0 <= k < |ts| ensures EndsWith(parts[k], ts[k]) {
        if k % 2 == 1 {
          SegmentSuffix(parts[k]);
        } else {
          assert parts[k][|parts[k]| - |parts[k]|..] == parts[k];
        }
      }
      forall k | 0 <= k < |ts| - 1 ensures EndsAtSeparator(ts[k], AsSep) {
        SplitPartsEndAtSeparator(path, AsSep, k);
        SuffixEndsAtSeparator(parts[k], ts[k], AsSep);
      }
      NoContainsSuffix(parts[|ts| - 1], ts[|ts| - 1], AsSep);
      SplitJoin(ts, AsSep);
    }
  }

  /** The name a segment is cut down to has no `>` and no `::`. */
  lemma BaseNameFree(seg: string)
    ensures '>' !in Last(Split(Split(seg, ">")[0], "::"))
    ensures !Contains(Last(Split(Split(seg, ">")[0], "::")), "::")
  {
    var head := Split(seg, ">")[0];
    var bs := Split(head, "::");
    NoCharOfNoContains(head, '>');
    if '>' in Last(bs) {
      SplitChars(head, "::", |bs| - 1, '>');
    }
    LastComponent(head);
  }

  /** A bare name is its own rewriting. */
  lemma SimplifyBare(b: string)
    requires '>' !in b && !Contains(b, "::")
    ensures SimplifySegment(b) == b
  {
    NoContainsOfNoChar(b, '>');
    SimplifySegmentMeaning(b);
    SplitNone(b, "::");
  }

  /** A bare name followed by `>` and anything is its own rewriting. */
  lemma SimplifyAfterBare(b: string, t: string)
    requires '>' !in b && !Contains(b, "::") && t != [] && t[0] == '>'
    ensures SimplifySegment(b + t) == b + t
  {
    FirstCharAbsent(b, ">");
    assert b + t == (b + ">") + t[1..];
    FirstAtPrefix(b + ">", t[1..], ">", |b|);
    FindIs(b + t, ">", |b|);
    SimplifySegmentMeaning(b + t);
    assert (b + t)[..|b|] == b && (b + t)[|b|..] == t;
    SplitNone(b, "::");
  }

  /** Rewriting a segment twice is rewriting it once. */
  lemma SegmentIdempotent(seg: string)
    ensures SimplifySegment(SimplifySegment(seg)) == SimplifySegment(seg)
  {
    var b := Last(Split(Split(seg, ">")[0], "::"));
    SimplifySegmentMeaning(seg);
    BaseNameFree(seg);
    if Find(seg, ">").None? {
      SimplifyBare(b);
    } else {
      var i := Find(seg, ">").value;
      assert seg[i] == '>';
      SimplifyAfterBare(b, seg[i..]);
    }
  }

  /** Simplifying is idempotent: a path already simplified is left alone,
      so graph labels and reported paths meet on the same form. */
  lemma Idempotent(path: string)
    ensures Simplified(Simplified(path)) == Simplified(path)
  {
    var parts := Split(path, AsSep);
    var out := Simplified(path);
    SimplifiedSegments(path);
    if |parts| != 1 {
      var ts := SimplifiedParts(parts);
      forall i | 0 <= i < |ts| ensures Rewrite(i, ts[i]) == ts[i] {
        if i % 2 == 1 {
          SegmentIdempotent(parts[i]);
        }
      }
      assert SimplifiedParts(ts) == ts;
    }
  }

  /** A trait path of plain module names separated by `::`, then `>` and
      more text without `>`: the trait path becomes the last name. */
  lemma SegmentPlain(mods: seq<string>, rest: seq<string>)
    requires |mods| >= 1 && forall k :: 0 <= k < |mods| ==> ':' !in mods[k] && '>' !in mods[k]
    requires forall k :: 0 <= k < |rest| ==> '>' !in rest[k]
    ensures SimplifySegment(Join([Join(mods, "::")] + rest, ">")) == Join([Last(mods)] + rest, ">")
  {
    var pieces := [Join(mods, "::")] + rest;
    JoinNoChar(mods, "::", '>');
    SplitPlain(pieces, ">");
    SplitPlain(mods, "::");
    assert pieces[1..] == rest;
  }

  /** One ` as ` between a type ending at the separator and such a
      segment free of spaces. */
  lemma SimplifyPlain(lhs: string, mods: seq<string>, rest: seq<string>)
    requires EndsAtSeparator(lhs, AsSep)
    requires |mods| >= 1 && forall k :: 0 <= k < |mods| ==> ':' !in mods[k] && '>' !in mods[k] && ' ' !in mods[k]
    requires forall k :: 0 <= k < |rest| ==> '>' !in rest[k] && ' ' !in rest[k]
    ensures Simplified(lhs + AsSep + Join([Join(mods, "::")] + rest, ">"))
         == lhs + AsSep + Join([Last(mods)] + rest, ">")
  {
    var pieces := [Join(mods, "::")] + rest;
    var seg := Join(pieces, ">");
    JoinNoChar(mods, "::", ' ');
    JoinNoChar(pieces, ">", ' ');
    SegmentPlain(mods, rest);
    PairSimplified(lhs, seg);
  }

  /** A path with exactly one ` as `: the segment after it is rewritten. */
  lemma PairSimplified(lhs: string, seg: string)
    requires EndsAtSeparator(lhs, AsSep) && ' ' !in seg
    ensures Simplified(lhs + AsSep + seg) == lhs + AsSep + SimplifySegment(seg)
  {
    var path := lhs + AsSep + seg;
    var parts := [lhs, seg];
    FirstCharAbsent(seg, AsSep);
    JoinCons(lhs, [seg], AsSep);
    assert Join(parts, AsSep) == path;
    SplitJoin(parts, AsSep);
    assert Split(path, AsSep) == parts;
    var out := SimplifySegment(seg);
    var ts := SimplifiedParts(parts);
    assert ts[0] == lhs && ts[1] == out && |ts| == 2;
    assert ts == [lhs, out];
    JoinCons(lhs, [out], AsSep);
    assert Join(ts, AsSep) == lhs + AsSep + out;
  }

  /** Values stored one after another under their keys: a later value
      overwrites an earlier one with the same key. */
  function KeyedLast<K(==), V>(key: V -> K, vs: seq<V>): map<K, V>
    decreases |vs|
  {
    if vs == [] then map[]
    else
      var v := Last(vs);
      KeyedLast(key, vs[..|vs| - 1])[key(v) := v]
  }

  /** `vs[j]` is the last value with key `k`. */
  predicate LastAt<K(==), V>(key: V -> K, vs: seq<V>, k: K, j: nat)
    requires j < |vs|
  {
    key(vs[j]) == k && forall j' :: j < j' < |vs| ==> key(vs[j']) != k
  }

  /** Last write wins: `k` is a key exactly when some value has it, and it
      holds the last such value. */
  lemma {:induction false} KeyedLastWins<K, V>(key: V -> K, vs: seq<V>, k: K)
    ensures k in KeyedLast(key, vs) <==> exists j :: 0 <= j < |vs| && key(vs[j]) == k
    ensures k in KeyedLast(key, vs) ==> exists j :: 0 <= j < |vs| && LastAt(key, vs, k, j) && KeyedLast(key, vs)[k] == vs[j]
    decreases |vs|
  {
    if vs != [] {
      var n := |vs| - 1;
      var init := vs[..n];
      KeyedLastWins(key, init, k);
      assert forall j :: 0 <= j < n ==> init[j] == vs[j];
      if key(vs[n]) == k {
        assert LastAt(key, vs, k, n);
      } else if k in KeyedLast(key, init) {
        var j :| 0 <= j < n && LastAt(key, init, k, j) && KeyedLast(key, init)[k] == init[j];
        assert LastAt(key, vs, k, j);
      }
    }
  }

  /** The dict `main` fills from the graph's node labels, in order: each
      simplified label maps to the label it was last seen for. */
  function LabelMap(labels: seq<string>): map<string, string> {
    KeyedLast(Simplified, labels)
  }

  /** The simplified lines of the audit's output, as a set. */
  function SimplifiedLines(lines: seq<string>): set<string> {
    set i | 0 <= i < |lines| :: Simplified(lines[i])
  }

  /** The simplified paths found on both sides. */
  function Matches(labels: seq<string>, lines: seq<string>): set<string> {
    SimplifiedLines(lines) * LabelMap(labels).Keys
  }

  predicate Distinct<T(==)>(s: seq<T>) {
    forall i, j :: 0 <= i < j < |s| ==> s[i] != s[j]
  }

  /** Last write wins for the labels: a simplified path is a key exactly
      when some label simplifies to it, and it maps to the last such label. */
  lemma LastWins(labels: seq<string>, k: string)
    ensures k in LabelMap(labels) <==> exists j :: 0 <= j < |labels| && Simplified(labels[j]) == k
    ensures k in LabelMap(labels) ==> exists j :: (0 <= j < |labels| && LabelMap(labels)[k] == labels[j]
      && Simplified(labels[j]) == k && forall j' :: j < j' < |labels| ==> Simplified(labels[j']) != k)
  {
    KeyedLastWins(Simplified, labels, k);
  }

  /** A label is printed exactly when its simplification is among the
      simplified output lines and no later label simplifies the same way. */
  lemma PrintedMeaning(labels: seq<string>, lines: seq<string>, p: string)
    ensures (exists k :: k in Matches(labels, lines) && LabelMap(labels)[k] == p) <==>
      exists j, l :: (0 <= j < |labels| && 0 <= l < |lines| && labels[j] == p
        && Simplified(labels[j]) == Simplified(lines[l])
        && forall j' :: j < j' < |labels| ==> Simplified(labels[j']) != Simplified(labels[j]))
  {
    if k :| k in Matches(labels, lines) && LabelMap(labels)[k] == p {
      LastWins(labels, k);
      var l :| 0 <= l < |lines| && Simplified(lines[l]) == k;
      var j :| (0 <= j < |labels| && LabelMap(labels)[k] == labels[j]
        && Simplified(labels[j]) == k && forall j' :: j < j' < |labels| ==> Simplified(labels[j']) != k);
      assert labels[j] == p && Simplified(labels[j]) == Simplified(lines[l]);
    }
    if j, l :| (0 <= j < |labels| && 0 <= l < |lines| && labels[j] == p
        && Simplified(labels[j]) == Simplified(lines[l])
        && forall j' :: j < j' < |labels| ==> Simplified(labels[j']) != Simplified(labels[j])) {
      var k := Simplified(labels[j]);
      LastWins(labels, k);
      var j0 :| (0 <= j0 < |labels| && LabelMap(labels)[k] == labels[j0]
        && Simplified(labels[j0]) == k && forall j' :: j0 < j' < |labels| ==> Simplified(labels[j']) != k);
      assert j0 == j;
      assert k in Matches(labels, lines);
    }
  }

  /** The first loop of `main`: each label stored under its simplified form. */
  method BuildLabelMap(labels: seq<string>) returns (dict: map<string, string>)
    ensures dict == LabelMap(labels)
  {
    dict := map[];
    for i := 0 to |labels|
      invariant dict == LabelMap(labels[..i])
    {
      assert labels[..i + 1][..i] == labels[..i];
      var simplifiedLabel := SimplifyFqnTraitPaths(labels[i]);
      dict := dict[simplifiedLabel := labels[i]];
    }
    assert labels[..|labels|] == labels;
  }

  /** The second loop of `main`: the set of simplified audit lines. */
  method SimplifyLines(lines: seq<string>) returns (simplified: set<string>)
    ensures simplified == SimplifiedLines(lines)
  {
    simplified := {};
    for i := 0 to |lines|
      invariant simplified == SimplifiedLines(lines[..i])
    {
      var s := SimplifyFqnTraitPaths(lines[i]);
      assert forall j :: 0 <= j < i ==> lines[..i + 1][j] == lines[..i][j];
      simplified := simplified + {s};
    }
    assert lines[..|lines|] == lines;
  }

  /** `printed` holds the stored label of every key in `done`, each once;
      a stored label simplifies to its key. */
  ghost predicate PrintedFor(dict: map<string, string>, done: set<string>, printed: seq<string>)
    requires done <= dict.Keys
  {
    (forall p :: p in printed <==> exists k :: k in done && dict[k] == p)
    && (forall i :: 0 <= i < |printed| ==> Simplified(printed[i]) in done)
    && Distinct(printed) && |printed| == |done|
  }

  lemma PrintStep(dict: map<string, string>, done: set<string>, printed: seq<string>, m: string)
    requires done <= dict.Keys && m in dict && m !in done
    requires forall k :: k in dict ==> Simplified(dict[k]) == k
    requires PrintedFor(dict, done, printed)
    ensures PrintedFor(dict, done + {m}, printed + [dict[m]])
  {
    var fqn := dict[m];
    assert Simplified(fqn) == m;
    var next := printed + [fqn];
    forall i | 0 <= i < |next| ensures Simplified(next[i]) in done + {m} {
      if i < |printed| { assert next[i] == printed[i]; }
    }
    assert fqn !in printed;
  }

  /** The last loop of `main`: the stored label of every match, each once.
      A stored label simplifies to its key, so distinct matches give
      distinct labels. */
  method PrintMatches(dict: map<string, string>, matches: set<string>) returns (printed: seq<string>)
    requires matches <= dict.Keys
    requires forall k :: k in dict ==> Simplified(dict[k]) == k
    ensures forall p :: p in printed <==> exists k :: k in matches && dict[k] == p
    ensures Distinct(printed) && |printed| == |matches|
  {
    var rest := matches;
    ghost var done: set<string> := {};
    printed := [];
    while rest != {}
      invariant rest <= matches && done == matches - rest
      invariant PrintedFor(dict, done, printed)
      decreases rest
    {
      var m :| m in rest;
      PrintStep(dict, done, printed, m);
      printed := printed + [dict[m]];
      rest := rest - {m};
      done := done + {m};
    }
  }

  /** The matching in `main`, from the labels the regex extracted from the
      graph file and the lines of the audit's output: one printed line per
      match, the stored full label of that match. */
  method MatchLabels(labels: seq<string>, lines: seq<string>) returns (printed: seq<string>)
    ensures forall p :: p in printed <==> exists k :: k in Matches(labels, lines) && LabelMap(labels)[k] == p
    ensures Distinct(printed) && |printed| == |Matches(labels, lines)|
  {
    var simplifiedLabelsToFqn := BuildLabelMap(labels);
    var siderophileLines := SimplifyLines(lines);
    forall k | k in simplifiedLabelsToFqn ensures Simplified(simplifiedLabelsToFqn[k]) == k {
      LastWins(labels, k);
    }
    printed := PrintMatches(simplifiedLabelsToFqn, siderophileLines * simplifiedLabelsToFqn.Keys);
  }
}

/** String primitives shared by the Rust and the Python code: the leftmost
    substring search behind Rust's `str::find` and Python's `str.split`,
    splitting and joining on a separator, Rust's `split_whitespace`,
    `lines` and the ASCII part of `to_lowercase`. */
module Strings {
  import opened Wrappers

  /** `sep` occurs in `s` starting at index `i`. */
  predicate OccursAt(s: string, sep: string, i: nat) {
    i + |sep| <= |s| && s[i..i + |sep|] == sep
  }

  /** `s` contains `sep` somewhere. */
  predicate Contains(s: string, sep: string) {
    exists i: nat | i <= |s| :: OccursAt(s, sep, i)
  }

  lemma OccursAtTail(s: string, sep: string, j: nat)
    requires |s| > 0
    ensures OccursAt(s[1..], sep, j) <==> OccursAt(s, sep, j + 1)
  {
    if j + 1 + |sep| <= |s| {
      assert s[1..][j..j + |sep|] == s[j + 1..j + 1 + |sep|];
    }
  }

  /** Index of the leftmost occurrence of `sep` in `s`. */
  function Find(s: string, sep: string): (r: Option<nat>)
    ensures r.Some? ==> OccursAt(s, sep, r.value)
    ensures r.Some? ==> forall j: nat :: j < r.value ==> !OccursAt(s, sep, j)
    ensures r.None? <==> !Contains(s, sep)
    decreases |s|
  {
    if |s| < |sep| then None
    else if s[..|sep|] == sep then Some(0)
    else
      match Find(s[1..], sep)
      case None =>
        assert forall i: nat :: !OccursAt(s, sep, i) by {
          forall i: nat ensures !OccursAt(s, sep, i) {
            if i > 0 { OccursAtTail(s, sep, i - 1); }
          }
        }
        None
      case Some(j) =>
        OccursAtTail(s, sep, j);
        assert forall i: nat :: i < j + 1 ==> !OccursAt(s, sep, i) by {
          forall i: nat | i < j + 1 ensures !OccursAt(s, sep, i) {
            if i > 0 { OccursAtTail(s, sep, i - 1); }
          }
        }
        Some(j + 1)
  }

  /** `i` is the leftmost occurrence of `sep` in `s`. */
  predicate FirstAt(s: string, sep: string, i: nat) {
    OccursAt(s, sep, i) && forall j: nat :: j < i ==> !OccursAt(s, sep, j)
  }

  /** The characterisation of `Find` determines its value. */
  lemma FindIs(s: string, sep: string, i: nat)
    requires FirstAt(s, sep, i)
    ensures Find(s, sep) == Some(i)
  {
    assert Contains(s, sep);
  }

  lemma FindFirst(s: string, sep: string, i: nat)
    requires Find(s, sep) == Some(i)
    ensures FirstAt(s, sep, i)
  {
  }

  lemma OccursInPrefix(a: string, b: string, sep: string, j: nat)
    requires j + |sep| <= |a|
    ensures OccursAt(a + b, sep, j) <==> OccursAt(a, sep, j)
  {
    assert (a + b)[j..j + |sep|] == a[j..j + |sep|];
  }

  lemma FirstAtPrefix(a: string, b: string, sep: string, i: nat)
    requires i + |sep| <= |a|
    ensures FirstAt(a + b, sep, i) <==> FirstAt(a, sep, i)
  {
    OccursInPrefix(a, b, sep, i);
    forall j: nat | j < i ensures OccursAt(a + b, sep, j) <==> OccursAt(a, sep, j) {
      OccursInPrefix(a, b, sep, j);
    }
  }

  /** A leftmost occurrence inside a prefix stays leftmost when text is appended. */
  lemma FindExtend(a: string, b: string, sep: string, i: nat)
    requires Find(a, sep) == Some(i)
    ensures Find(a + b, sep) == Some(i)
  {
    FindFirst(a, sep, i);
    FirstAtPrefix(a, b, sep, i);
    FindIs(a + b, sep, i);
  }

  /** A leftmost occurrence that lies inside a prefix is leftmost in that prefix. */
  lemma FindRestrict(a: string, b: string, sep: string, i: nat)
    requires Find(a + b, sep) == Some(i)
    requires i + |sep| <= |a|
    ensures Find(a, sep) == Some(i)
  {
    FindFirst(a + b, sep, i);
    FirstAtPrefix(a, b, sep, i);
    FindIs(a, sep, i);
  }

  lemma OccursInSuffix(a: string, b: string, sep: string, j: nat)
    ensures OccursAt(a + b, sep, |a| + j) <==> OccursAt(b, sep, j)
  {
    if j + |sep| <= |b| {
      assert (a + b)[|a| + j..|a| + j + |sep|] == b[j..j + |sep|];
    }
  }

  /** A string is its text before an occurrence, the separator, and the rest. */
  lemma Decompose(s: string, sep: string, i: nat)
    requires OccursAt(s, sep, i)
    ensures s == s[..i] + sep + s[i + |sep|..]
  {
  }

  /** Nothing before the leftmost occurrence contains the separator. */
  lemma BeforeFirstHasNone(s: string, sep: string, i: nat)
    requires sep != "" && FirstAt(s, sep, i)
    ensures !Contains(s[..i], sep)
  {
    assert s == s[..i] + s[i..];
    forall j: nat | j <= i ensures !OccursAt(s[..i], sep, j) {
      if j + |sep| <= i { OccursInPrefix(s[..i], s[i..], sep, j); }
    }
  }

  /** Python's `s.split(sep)` for a non-empty separator: the pieces between
      the leftmost non-overlapping occurrences of `sep`. */
  function Split(s: string, sep: string): (parts: seq<string>)
    requires sep != ""
    ensures |parts| >= 1
    ensures forall k :: 0 <= k < |parts| ==> !Contains(parts[k], sep)
    decreases |s|
  {
    match Find(s, sep)
    case None => [s]
    case Some(i) =>
      FindFirst(s, sep, i);
      BeforeFirstHasNone(s, sep, i);
      [s[..i]] + Split(s[i + |sep|..], sep)
  }

  lemma SplitNone(s: string, sep: string)
    requires sep != "" && !Contains(s, sep)
    ensures Split(s, sep) == [s]
  {
  }

  lemma SplitFound(s: string, sep: string, i: nat)
    requires sep != "" && Find(s, sep) == Some(i)
    ensures Split(s, sep) == [s[..i]] + Split(s[i + |sep|..], sep)
  {
  }

  lemma SplitSome(s: string, sep: string, i: nat)
    requires sep != "" && FirstAt(s, sep, i)
    ensures Split(s, sep) == [s[..i]] + Split(s[i + |sep|..], sep)
  {
    FindIs(s, sep, i);
    SplitFound(s, sep, i);
  }

  /** `sep.join(parts)`. */
  function Join(parts: seq<string>, sep: string): string
    decreases |parts|
  {
    if |parts| == 0 then ""
    else if |parts| == 1 then parts[0]
    else parts[0] + sep + Join(parts[1..], sep)
  }

  lemma JoinCons(x: string, ys: seq<string>, sep: string)
    requires |ys| >= 1
    ensures Join([x] + ys, sep) == x + sep + Join(ys, sep)
  {
    assert ([x] + ys)[1..] == ys;
  }

  function Last<T>(s: seq<T>): T
    requires |s| > 0
  {
    s[|s| - 1]
  }

  /** Joining the pieces of a split restores the string. */
  lemma {:induction false} JoinSplit(s: string, sep: string)
    requires sep != ""
    ensures Join(Split(s, sep), sep) == s
    decreases |s|
  {
    if Find(s, sep).None? {
      SplitNone(s, sep);
    } else {
      var i := Find(s, sep).value;
      FindFirst(s, sep, i);
      var rest := s[i + |sep|..];
      SplitSome(s, sep, i);
      JoinSplit(rest, sep);
      JoinCons(s[..i], Split(rest, sep), sep);
      Decompose(s, sep, i);
    }
  }

  /** In `t + sep` the first occurrence of `sep` is the appended one: `t` can
      stand before a separator in a split. */
  predicate EndsAtSeparator(t: string, sep: string) {
    FirstAt(t + sep, sep, |t|)
  }

  /** The text before the leftmost occurrence ends at the separator. */
  lemma FirstEnds(s: string, sep: string, i: nat)
    requires FirstAt(s, sep, i)
    ensures i + |sep| <= |s| && s[..i + |sep|] == s[..i] + sep
    ensures EndsAtSeparator(s[..i], sep)
  {
    var t, rest := s[..i], s[i + |sep|..];
    assert s[..i + |sep|] == t + sep;
    assert s == (t + sep) + rest;
    FirstAtPrefix(t + sep, rest, sep, i);
  }

  /** Every piece of a split but the last ends at its separator. */
  lemma {:induction false} SplitPartsEndAtSeparator(s: string, sep: string, k: nat)
    requires sep != "" && k + 1 < |Split(s, sep)|
    ensures EndsAtSeparator(Split(s, sep)[k], sep)
    decreases |s|
  {
    if Find(s, sep).None? {
      SplitNone(s, sep);
    } else {
      var i := Find(s, sep).value;
      FindFirst(s, sep, i);
      var rest := s[i + |sep|..];
      SplitSome(s, sep, i);
      if k == 0 {
        Decompose(s, sep, i);
        assert s == (s[..i] + sep) + rest;
        FirstAtPrefix(s[..i] + sep, rest, sep, i);
      } else {
        SplitPartsEndAtSeparator(rest, sep, k - 1);
      }
    }
  }

  /** A suffix of a piece that ends at its separator also does. */
  lemma SuffixEndsAtSeparator(t: string, u: string, sep: string)
    requires EndsAtSeparator(t, sep)
    requires |u| <= |t| && u == t[|t| - |u|..]
    ensures EndsAtSeparator(u, sep)
  {
    var x := t[..|t| - |u|];
    assert t + sep == x + (u + sep);
    OccursInSuffix(x, u + sep, sep, |u|);
    forall j: nat | j < |u| ensures !OccursAt(u + sep, sep, j) {
      OccursInSuffix(x, u + sep, sep, j);
    }
  }

  /** A piece with no separator of its own ends at the separator when that
      separator is a single character. */
  lemma SingleSeparatorEnds(t: string, c: char)
    requires !Contains(t, [c])
    ensures EndsAtSeparator(t, [c])
  {
    OccursInSuffix(t, [c], [c], 0);
    forall j: nat | j < |t| ensures !OccursAt(t + [c], [c], j) {
      OccursInPrefix(t, [c], [c], j);
    }
  }

  /** Splitting a join gives the pieces back, when every piece but the last
      ends at the separator and the last holds none. */
  lemma {:induction false} SplitJoin(ts: seq<string>, sep: string)
    requires sep != "" && |ts| >= 1
    requires forall k :: 0 <= k < |ts| - 1 ==> EndsAtSeparator(ts[k], sep)
    requires !Contains(ts[|ts| - 1], sep)
    ensures Split(Join(ts, sep), sep) == ts
    decreases |ts|
  {
    if |ts| == 1 {
      SplitNone(ts[0], sep);
    } else {
      var x, j := ts[0], Join(ts[1..], sep);
      SplitJoinStep(x, j, sep);
      SplitJoin(ts[1..], sep);
      assert ts == [x] + ts[1..];
    }
  }

  lemma SplitJoinStep(x: string, j: string, sep: string)
    requires sep != "" && EndsAtSeparator(x, sep)
    ensures Split(x + sep + j, sep) == [x] + Split(j, sep)
  {
    var s := x + sep + j;
    assert s == (x + sep) + j;
    FirstAtPrefix(x + sep, j, sep, |x|);
    SplitSome(s, sep, |x|);
    assert s[..|x|] == x;
    assert s[|x| + |sep|..] == j;
  }

  /** Putting `b` in place of the first piece of a split and joining again
      replaces the text before the first separator by `b`. */
  lemma ReplaceFirstPiece(s: string, sep: string, b: string)
    requires sep != ""
    ensures Find(s, sep).None? ==> Join([b] + Split(s, sep)[1..], sep) == b
    ensures Find(s, sep).Some? ==> Split(s, sep)[0] == s[..Find(s, sep).value]
    ensures Find(s, sep).Some? ==> Join([b] + Split(s, sep)[1..], sep) == b + s[Find(s, sep).value..]
  {
    if Find(s, sep).None? {
      SplitNone(s, sep);
      assert [b] + Split(s, sep)[1..] == [b];
    } else {
      ReplaceFound(s, sep, b, Find(s, sep).value);
    }
  }

  lemma ReplaceFound(s: string, sep: string, b: string, i: nat)
    requires sep != "" && Find(s, sep) == Some(i)
    ensures Split(s, sep)[0] == s[..i]
    ensures Join([b] + Split(s, sep)[1..], sep) == b + s[i..]
  {
    var rest := s[i + |sep|..];
    var tail := Split(rest, sep);
    SplitFound(s, sep, i);
    assert Split(s, sep)[1..] == tail;
    JoinCons(b, tail, sep);
    JoinSplit(rest, sep);
    AfterOccurrence(s, sep, i);
    Assoc(b, sep, rest);
  }

  /** From an occurrence on, a string is the separator and what follows it. */
  lemma AfterOccurrence(s: string, sep: string, i: nat)
    requires OccursAt(s, sep, i)
    ensures s[i..] == sep + s[i + |sep|..]
  {
    assert s[i..] == s[i..i + |sep|] + s[i + |sep|..];
  }

  lemma Assoc<T>(a: seq<T>, b: seq<T>, c: seq<T>)
    ensures a + b + c == a + (b + c)
  {
  }

  lemma Regroup<T>(a: seq<T>, sep: seq<T>, x: seq<T>, rest: seq<T>)
    ensures a + sep + x + sep + rest == a + sep + (x + sep + rest)
  {
  }

  /** Joining two non-empty runs of pieces puts one separator between them. */
  lemma {:induction false} JoinAppend(a: seq<string>, b: seq<string>, sep: string)
    requires |a| >= 1 && |b| >= 1
    ensures Join(a + b, sep) == Join(a, sep) + sep + Join(b, sep)
    decreases |a|
  {
    if |a| == 1 {
      JoinCons(a[0], b, sep);
      assert a + b == [a[0]] + b;
    } else {
      JoinAppend(a[1..], b, sep);
      assert (a + b)[1..] == a[1..] + b;
    }
  }

  lemma NoCharOfNoContains(s: string, c: char)
    requires !Contains(s, [c])
    ensures c !in s
  {
    forall i | 0 <= i < |s| ensures s[i] != c {
      assert s[i..i + 1] == [s[i]];
      assert !OccursAt(s, [c], i);
    }
  }

  lemma EndsWithAppend(x: string, y: string, t: string)
    requires EndsWith(y, t)
    ensures EndsWith(x + y, t)
  {
    assert (x + y)[|x + y| - |t|..] == y[|y| - |t|..];
  }

  lemma NoContainsOfNoChar(s: string, c: char)
    requires c !in s
    ensures !Contains(s, [c])
  {
    forall i: nat | i <= |s| ensures !OccursAt(s, [c], i) {
      if i < |s| { assert s[i..i + 1][0] == s[i]; }
    }
  }

  /** A piece in which the separator's first character does not occur holds
      no separator and ends at one. */
  lemma FirstCharAbsent(t: string, sep: string)
    requires sep != "" && sep[0] !in t
    ensures !Contains(t, sep) && EndsAtSeparator(t, sep)
  {
    OccursInSuffix(t, sep, sep, 0);
    forall j: nat | j < |t| ensures !OccursAt(t + sep, sep, j) && !OccursAt(t, sep, j) {
      assert (t + sep)[j] == t[j];
      if j + |sep| <= |t + sep| { assert (t + sep)[j..j + |sep|][0] == t[j]; }
      if j + |sep| <= |t| { assert t[j..j + |sep|][0] == t[j]; }
    }
    forall j: nat | |t| <= j <= |t| ensures !OccursAt(t, sep, j) {
    }
  }

  /** Pieces free of the separator's first character split back out of their join. */
  lemma SplitPlain(ts: seq<string>, sep: string)
    requires sep != "" && |ts| >= 1
    requires forall k :: 0 <= k < |ts| ==> sep[0] !in ts[k]
    ensures Split(Join(ts, sep), sep) == ts
  {
    forall k | 0 <= k < |ts| ensures !Contains(ts[k], sep) && EndsAtSeparator(ts[k], sep) {
      FirstCharAbsent(ts[k], sep);
    }
    SplitJoin(ts, sep);
  }

  /** With a one-character separator, a string cut at any occurrence of it
      splits into the pieces of the two sides. */
  lemma {:induction false} SplitAtChar(a: string, c: char, b: string)
    ensures Split(a + [c] + b, [c]) == Split(a, [c]) + Split(b, [c])
    decreases |a|
  {
    if Find(a, [c]).None? {
      SplitAtFirstChar(a, c, b);
    } else {
      var i := Find(a, [c]).value;
      SplitBeforeChar(a, c, b, i);
      SplitAtChar(a[i + 1..], c, b);
      Assoc([a[..i]], Split(a[i + 1..], [c]), Split(b, [c]));
    }
  }

  /** The character after a piece free of it is the first separator. */
  lemma SplitAtFirstChar(a: string, c: char, b: string)
    requires Find(a, [c]).None?
    ensures Split(a, [c]) == [a]
    ensures Split(a + [c] + b, [c]) == [a] + Split(b, [c])
  {
    SplitNone(a, [c]);
    NoCharOfNoContains(a, c);
    FirstCharAbsent(a, [c]);
    SplitJoinStep(a, b, [c]);
  }

  /** An occurrence inside `a` is the first separator of `a + [c] + b` too. */
  lemma SplitBeforeChar(a: string, c: char, b: string, i: nat)
    requires Find(a, [c]) == Some(i)
    ensures Split(a, [c]) == [a[..i]] + Split(a[i + 1..], [c])
    ensures Split(a + [c] + b, [c]) == [a[..i]] + Split(a[i + 1..] + [c] + b, [c])
  {
    var m := [c] + b;
    CutInside(a, m, i);
    Assoc(a, [c], b);
    Assoc(a[i + 1..], [c], b);
    FindExtend(a, m, [c], i);
    SplitFound(a + m, [c], i);
    SplitFound(a, [c], i);
  }

  lemma CutInside<T>(a: seq<T>, m: seq<T>, i: nat)
    requires i < |a|
    ensures (a + m)[..i] == a[..i] && (a + m)[i + 1..] == a[i + 1..] + m
  {
  }

  /** The last piece of a split is what follows the last separator. */
  lemma {:induction false} SplitLast(s: string, sep: string)
    requires sep != ""
    ensures |Split(s, sep)| == 1 ==> Split(s, sep) == [s]
    ensures |Split(s, sep)| >= 2 ==> EndsWith(s, sep + Last(Split(s, sep)))
    decreases |s|
  {
    if Find(s, sep).None? {
      SplitNone(s, sep);
    } else {
      var i := Find(s, sep).value;
      var rest := s[i + |sep|..];
      SplitFound(s, sep, i);
      SplitLast(rest, sep);
      var ps := Split(rest, sep);
      LastCons(s[..i], ps);
      if |ps| == 1 {
        AfterOccurrence(s, sep, i);
        TakeDrop(s, i);
        EndsWithSelf(sep + rest);
        EndsWithAppend(s[..i], s[i..], sep + rest);
      } else {
        TakeDrop(s, i + |sep|);
        EndsWithAppend(s[..i + |sep|], rest, sep + Last(ps));
      }
    }
  }

  lemma LastCons<T>(x: T, s: seq<T>)
    requires s != []
    ensures Last([x] + s) == Last(s)
  {
  }

  lemma PrefixSnoc<T>(s: seq<T>, k: nat)
    requires k < |s|
    ensures s[..k + 1][..k] == s[..k] && Last(s[..k + 1]) == s[k]
  {
  }

  lemma TakeDrop<T>(s: seq<T>, k: nat)
    requires k <= |s|
    ensures s[..k] + s[k..] == s
  {
  }

  lemma EndsWithSelf(s: string)
    ensures EndsWith(s, s)
  {
    assert s[|s| - |s|..] == s;
  }

  /** Every character of a piece of a split is a character of the string. */
  lemma {:induction false} SplitChars(s: string, sep: string, k: nat, c: char)
    requires sep != "" && k < |Split(s, sep)| && c in Split(s, sep)[k]
    ensures c in s
    decreases |s|
  {
    if Find(s, sep).None? {
      SplitNone(s, sep);
    } else {
      var i := Find(s, sep).value;
      FindFirst(s, sep, i);
      var rest := s[i + |sep|..];
      SplitSome(s, sep, i);
      Decompose(s, sep, i);
      if k == 0 {
        assert c in s[..i];
      } else {
        SplitChars(rest, sep, k - 1, c);
      }
    }
  }

  /** A character absent from every piece and from the separator is absent from the join. */
  lemma {:induction false} JoinNoChar(ts: seq<string>, sep: string, c: char)
    requires c !in sep && forall k :: 0 <= k < |ts| ==> c !in ts[k]
    ensures c !in Join(ts, sep)
    decreases |ts|
  {
    if |ts| > 1 {
      JoinNoChar(ts[1..], sep, c);
    }
  }

  /** A suffix of a string free of `sep` is free of it too. */
  lemma NoContainsSuffix(t: string, u: string, sep: string)
    requires !Contains(t, sep) && EndsWith(t, u)
    ensures !Contains(u, sep)
  {
    var x := t[..|t| - |u|];
    assert t == x + u;
    forall j: nat | j <= |u| ensures !OccursAt(u, sep, j) {
      OccursInSuffix(x, u, sep, j);
    }
  }

  lemma EndsWithTrans(a: string, b: string, c: string)
    requires EndsWith(a, b) && EndsWith(b, c)
    ensures EndsWith(a, c)
  {
    assert a[|a| - |c|..] == b[|b| - |c|..];
  }

  lemma EndsWithConcat(a: string, b: string, c: string)
    requires EndsWith(a, b)
    ensures EndsWith(a + c, b + c)
  {
    assert (a + c)[|a + c| - |b + c|..] == a[|a| - |b|..] + c;
  }

  /** `a + [sep[0]] + b` ends at `sep` when the separator's first character
      occurs nowhere else and the character after it is not the separator's
      second. */
  lemma LoneFirstCharEnds(a: string, b: string, sep: string)
    requires |sep| >= 2 && sep[0] !in a && sep[0] !in b && b != [] && b[0] != sep[1]
    ensures EndsAtSeparator(a + [sep[0]] + b, sep)
  {
    var t := a + [sep[0]] + b;
    OccursInSuffix(t, sep, sep, 0);
    forall j: nat | j < |t| ensures !OccursAt(t + sep, sep, j) {
      assert (t + sep)[j..j + |sep|][0] == (t + sep)[j];
      assert (t + sep)[j..j + |sep|][1] == (t + sep)[j + 1];
      if j < |a| {
        assert (t + sep)[j] == a[j];
      } else if j == |a| {
        assert (t + sep)[j + 1] == b[0];
      } else {
        assert (t + sep)[j] == b[j - |a| - 1];
      }
    }
  }

  predicate EndsWith(s: string, suffix: string) {
    |suffix| <= |s| && s[|s| - |suffix|..] == suffix
  }

  /** Unicode White_Space, the set Rust's `char::is_whitespace` accepts. */
  predicate IsWhitespace(c: char) {
    c == '\t' || c == '\n' || c == '\U{000B}' || c == '\U{000C}' || c == '\r' || c == ' '
    || c == '\U{0085}' || c == '\U{00A0}' || c == '\U{1680}'
    || ('\U{2000}' <= c <= '\U{200A}')
    || c == '\U{2028}' || c == '\U{2029}' || c == '\U{202F}' || c == '\U{205F}' || c == '\U{3000}'
  }

  predicate NoWhitespace(w: string) {
    forall k :: 0 <= k < |w| ==> !IsWhitespace(w[k])
  }

  /** Length of the leading run of non-whitespace characters of `s`. */
  function WordLength(s: string): (n: nat)
    ensures n <= |s|
    ensures NoWhitespace(s[..n])
    ensures n < |s| ==> IsWhitespace(s[n])
  {
    if s == [] || IsWhitespace(s[0]) then 0
    else
      var n := 1 + WordLength(s[1..]);
      assert s[..n] == [s[0]] + s[1..][..n - 1];
      n
  }

  /** Rust's `str::split_whitespace`: the maximal non-empty runs of
      non-whitespace characters, in order. */
  function SplitWhitespace(s: string): (words: seq<string>)
    ensures forall k :: 0 <= k < |words| ==> words[k] != "" && NoWhitespace(words[k])
    decreases |s|
  {
    if s == [] then []
    else if IsWhitespace(s[0]) then SplitWhitespace(s[1..])
    else
      var n := WordLength(s);
      [s[..n]] + SplitWhitespace(s[n..])
  }

  lemma {:induction false} WordLengthOfWord(w: string, rest: string)
    requires NoWhitespace(w)
    requires rest == [] || IsWhitespace(rest[0])
    ensures WordLength(w + rest) == |w|
    decreases |w|
  {
    if w != [] {
      assert (w + rest)[1..] == w[1..] + rest;
      WordLengthOfWord(w[1..], rest);
    }
  }

  /** A word followed by a blank is split off as the first word. */
  lemma SplitWhitespaceCons(w: string, rest: string)
    requires w != "" && NoWhitespace(w)
    ensures SplitWhitespace(w + " " + rest) == [w] + SplitWhitespace(rest)
  {
    var s := w + " " + rest;
    WordLengthOfWord(w, " " + rest);
    assert s == w + (" " + rest);
    assert s[..|w|] == w;
    assert s[|w|..] == " " + rest;
    assert (" " + rest)[1..] == rest;
  }

  lemma SplitWhitespaceWord(w: string)
    requires w != "" && NoWhitespace(w)
    ensures SplitWhitespace(w) == [w]
  {
    WordLengthOfWord(w, []);
    assert w + [] == w;
  }

  /** Words joined with single blanks split back into the same words. */
  lemma {:induction false} SplitWhitespaceJoin(words: seq<string>)
    requires forall k :: 0 <= k < |words| ==> words[k] != "" && NoWhitespace(words[k])
    ensures SplitWhitespace(Join(words, " ")) == words
    decreases |words|
  {
    if |words| == 0 {
    } else if |words| == 1 {
      SplitWhitespaceWord(words[0]);
    } else {
      SplitWhitespaceJoin(words[1..]);
      SplitWhitespaceCons(words[0], Join(words[1..], " "));
    }
  }

  /** The leading word is unchanged by what follows a whitespace character
      or the end of the word. */
  lemma {:induction false} WordLengthExtend(a: string, t: string)
    requires WordLength(a) < |a| || t == [] || IsWhitespace(t[0])
    ensures WordLength(a + t) == WordLength(a)
    decreases |a|
  {
    if a != [] && !IsWhitespace(a[0]) {
      assert (a + t)[1..] == a[1..] + t;
      WordLengthExtend(a[1..], t);
    }
  }

  /** A whitespace character separates words: splitting at it splits the
      two sides on their own. With SplitWhitespaceWord this fixes the words of
      every string, whatever runs of whitespace lie between, before or after them. */
  lemma {:induction false} SplitWhitespaceAt(a: string, c: char, b: string)
    requires IsWhitespace(c)
    ensures SplitWhitespace(a + [c] + b) == SplitWhitespace(a) + SplitWhitespace(b)
    decreases |a|
  {
    var s := a + [c] + b;
    if a == [] {
      assert s == [c] + b && s[1..] == b;
    } else if IsWhitespace(a[0]) {
      assert s[1..] == a[1..] + [c] + b;
      SplitWhitespaceAt(a[1..], c, b);
    } else {
      var n := WordLength(a);
      WordFirst(a, [c] + b);
      Assoc(a, [c], b);
      Assoc(a[n..], [c], b);
      SplitWhitespaceAt(a[n..], c, b);
    }
  }

  /** A leading word that ends inside `a`, or where `a` does, is split off
      both from `a` and from `a + t`. */
  lemma WordFirst(a: string, t: string)
    requires a != [] && !IsWhitespace(a[0])
    requires WordLength(a) < |a| || t == [] || IsWhitespace(t[0])
    ensures var n := WordLength(a);
      SplitWhitespace(a) == [a[..n]] + SplitWhitespace(a[n..])
      && SplitWhitespace(a + t) == [a[..n]] + SplitWhitespace(a[n..] + t)
  {
    WordLengthExtend(a, t);
    CutPrefix(a, t, WordLength(a));
    SplitWhitespaceFirst(a);
    SplitWhitespaceFirst(a + t);
  }

  lemma CutPrefix<T>(a: seq<T>, t: seq<T>, n: nat)
    requires 0 < |a| && n <= |a|
    ensures (a + t)[0] == a[0] && (a + t)[..n] == a[..n] && (a + t)[n..] == a[n..] + t
  {
  }

  lemma SplitWhitespaceFirst(u: string)
    requires u != [] && !IsWhitespace(u[0])
    ensures SplitWhitespace(u) == [u[..WordLength(u)]] + SplitWhitespace(u[WordLength(u)..])
  {
  }

  /** Drops one trailing carriage return. */
  function StripCr(l: string): string {
    if l != [] && l[|l| - 1] == '\r' then l[..|l| - 1] else l
  }

  /** Rust's `str::split_terminator('\n')`: the pieces between line feeds,
      less an empty last piece. */
  function SplitTerminator(s: string): (ts: seq<string>)
    ensures forall k :: 0 <= k < |ts| ==> '\n' !in ts[k]
  {
    var pieces := Split(s, "\n");
    var kept := if Last(pieces) == "" then pieces[..|pieces| - 1] else pieces;
    assert forall k :: 0 <= k < |kept| ==> '\n' !in kept[k] by {
      forall k | 0 <= k < |kept| ensures '\n' !in kept[k] {
        NoCharOfNoContains(kept[k], '\n');
      }
    }
    kept
  }

  /** Rust's `str::lines` as the standard library shipped it:
      `split_terminator('\n')` with one trailing `'\r'` dropped from every line. */
  function Lines(s: string): (ls: seq<string>)
    ensures forall k :: 0 <= k < |ls| ==> '\n' !in ls[k]
  {
    var ts := SplitTerminator(s);
    seq(|ts|, k requires 0 <= k < |ts| => StripCr(ts[k]))
  }

  /** Every line is the piece of `s` between line feeds at the same place,
      or that piece less one final carriage return; only an empty last piece
      (the text after a final line feed) gives no line. */
  lemma LinesPieces(s: string)
    ensures var ps := Split(s, "\n");
      |Lines(s)| == (if Last(ps) == "" then |ps| - 1 else |ps|)
      && forall k :: 0 <= k < |Lines(s)| ==> Lines(s)[k] == ps[k] || Lines(s)[k] + "\r" == ps[k]
  {
    var ps, ts := Split(s, "\n"), SplitTerminator(s);
    forall k | 0 <= k < |Lines(s)| ensures Lines(s)[k] == ps[k] || Lines(s)[k] + "\r" == ps[k] {
      var l := ts[k];
      assert l == ps[k] && Lines(s)[k] == StripCr(l);
      if l != [] && l[|l| - 1] == '\r' {
        assert l == l[..|l| - 1] + "\r";
      }
    }
  }

  /** Without carriage returns, joining the lines with line feeds and putting
      back a final line feed gives the text back. */
  lemma LinesJoin(s: string)
    requires '\r' !in s
    ensures Join(Lines(s), "\n") + (if s != [] && Last(s) == '\n' then "\n" else "") == s
  {
    LinesNoCr(s);
    TerminatorJoin(s);
  }

  /** Without carriage returns, no line loses a character. */
  lemma LinesNoCr(s: string)
    requires '\r' !in s
    ensures Lines(s) == SplitTerminator(s)
  {
    var ps, ts := Split(s, "\n"), SplitTerminator(s);
    forall k | 0 <= k < |ts| ensures StripCr(ts[k]) == ts[k] {
      assert ts[k] == ps[k];
      if '\r' in ps[k] { SplitChars(s, "\n", k, '\r'); }
    }
  }

  /** The pieces of `split_terminator`, joined with line feeds, and the final
      line feed, if there is one, give the text back. */
  lemma TerminatorJoin(s: string)
    ensures Join(SplitTerminator(s), "\n") + (if s != [] && Last(s) == '\n' then "\n" else "") == s
  {
    var ps := Split(s, "\n");
    JoinSplit(s, "\n");
    if Last(ps) != "" {
      LastPieceEnds(s, ps);
      assert SplitTerminator(s) == ps;
    } else {
      EmptyLastPiece(s, ps);
    }
  }

  /** A text whose last piece is not empty does not end in a line feed. */
  lemma LastPieceEnds(s: string, ps: seq<string>)
    requires ps == Split(s, "\n") && Last(ps) != ""
    ensures s != [] && Last(s) != '\n'
  {
    var t := Last(ps);
    SplitLast(s, "\n");
    assert EndsWith(s, t) by {
      if |ps| >= 2 {
        EndsWithSelf(t);
        EndsWithAppend("\n", t, t);
        EndsWithTrans(s, "\n" + t, t);
      }
    }
    NoCharOfNoContains(t, '\n');
    assert s[|s| - 1] == t[|t| - 1];
  }

  /** A text whose last piece is empty is empty or ends in a line feed, and
      is the other pieces joined, then that line feed. */
  lemma EmptyLastPiece(s: string, ps: seq<string>)
    requires ps == Split(s, "\n") && Last(ps) == "" && Join(ps, "\n") == s
    ensures s == Join(ps[..|ps| - 1], "\n") + (if s != [] && Last(s) == '\n' then "\n" else "")
  {
    var kept := ps[..|ps| - 1];
    if |ps| >= 2 {
      assert ps == kept + [""];
      JoinAppend(kept, [""], "\n");
      assert s == Join(kept, "\n") + "\n";
    } else {
      SplitLast(s, "\n");
    }
  }

  function ToLowerChar(c: char): char {
    if 'A' <= c <= 'Z' then (c as int - 'A' as int + 'a' as int) as char else c
  }

  /** Lower-casing of the ASCII letters: no capital is left, every capital
      becomes the small letter at its place in the alphabet, and every other
      character is kept. */
  function ToLower(s: string): (r: string)
    ensures |r| == |s|
    ensures forall k :: 0 <= k < |r| ==> !('A' <= r[k] <= 'Z')
    ensures forall k :: 0 <= k < |s| && 'A' <= s[k] <= 'Z' ==>
      'a' <= r[k] <= 'z' && r[k] as int - 'a' as int == s[k] as int - 'A' as int
    ensures forall k :: 0 <= k < |s| && !('A' <= s[k] <= 'Z') ==> r[k] == s[k]
  {
    seq(|s|, k requires 0 <= k < |s| => ToLowerChar(s[k]))
  }

  /** Lower-casing twice is lower-casing once. */
  lemma ToLowerIdempotent(s: string)
    ensures ToLower(ToLower(s)) == ToLower(s)
  {
  }
}

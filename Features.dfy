/** The `--features` option as `build_compile_options` reads it: the value is
    split on whitespace, every word on commas, and the empty pieces dropped. */
module Features {
  import opened Wrappers
  import opened Strings

  /** A feature name as it comes out: not empty, no comma, no whitespace. */
  predicate FeatureName(f: string) {
    f != "" && ',' !in f && NoWhitespace(f)
  }

  /** The non-empty pieces, in order: the empty piece never survives, and
      every other piece survives exactly as often as it occurs. */
  function NonEmpty(ps: seq<string>): (r: seq<string>)
    ensures forall k :: 0 <= k < |r| ==> r[k] != "" && r[k] in ps
    ensures "" !in r
    ensures forall x :: x != "" ==> multiset(r)[x] == multiset(ps)[x]
    decreases |ps|
  {
    if ps == [] then []
    else
      assert ps == [ps[0]] + ps[1..];
      (if ps[0] == "" then [] else [ps[0]]) + NonEmpty(ps[1..])
  }

  /** Dropping the empty pieces keeps the order: it works piece by piece. */
  lemma {:induction false} NonEmptyAppend(a: seq<string>, b: seq<string>)
    ensures NonEmpty(a + b) == NonEmpty(a) + NonEmpty(b)
    decreases |a|
  {
    if a != [] {
      assert (a + b)[0] == a[0] && (a + b)[1..] == a[1..] + b;
      NonEmptyAppend(a[1..], b);
    } else {
      assert a + b == b;
    }
  }

  /** The comma-separated pieces of every word, in order. */
  function CommaPieces(words: seq<string>): (r: seq<string>)
    ensures forall k :: 0 <= k < |r| ==> r[k] != "" && !Contains(r[k], ",")
    decreases |words|
  {
    if words == [] then []
    else NonEmpty(Split(words[0], ",")) + CommaPieces(words[1..])
  }

  /** Cutting every word at its commas is cutting the words joined by commas
      once: the word boundaries act as commas. */
  lemma {:induction false} CommaPiecesJoin(words: seq<string>)
    ensures CommaPieces(words) == NonEmpty(Split(Join(words, ","), ","))
    decreases |words|
  {
    if words == [] {
      SplitNone("", ",");
      assert NonEmpty([""]) == [] + NonEmpty([]);
    } else if |words| == 1 {
      CommaPiecesSingle(words[0]);
    } else {
      var w, rest := words[0], words[1..];
      CommaPiecesJoin(rest);
      SplitAtChar(w, ',', Join(rest, ","));
      NonEmptyAppend(Split(w, ","), Split(Join(rest, ","), ","));
    }
  }

  /** The features the audit build is configured with. */
  function SplitFeatures(features: Option<string>): (fs: seq<string>)
    ensures forall k :: 0 <= k < |fs| ==> FeatureName(fs[k])
  {
    match features
    case None => []
    case Some(s) =>
      var words := SplitWhitespace(s);
      CommaPiecesOfWords(words);
      CommaPieces(words)
  }

  lemma {:induction false} CommaPiecesOfWords(words: seq<string>)
    requires forall k :: 0 <= k < |words| ==> NoWhitespace(words[k])
    ensures forall k :: 0 <= k < |CommaPieces(words)| ==> FeatureName(CommaPieces(words)[k])
    decreases |words|
  {
    if words != [] {
      CommaPiecesOfWords(words[1..]);
      var ps := Split(words[0], ",");
      var kept := NonEmpty(ps);
      forall k | 0 <= k < |kept| ensures FeatureName(kept[k]) {
        var i :| 0 <= i < |ps| && ps[i] == kept[k];
        NoCharOfNoContains(kept[k], ',');
        forall m | 0 <= m < |kept[k]| ensures !IsWhitespace(kept[k][m]) {
          SplitChars(words[0], ",", i, kept[k][m]);
        }
      }
    }
  }

  lemma {:induction false} NonEmptyOfNonEmpty(ps: seq<string>)
    requires forall k :: 0 <= k < |ps| ==> ps[k] != ""
    ensures NonEmpty(ps) == ps
    decreases |ps|
  {
    if ps != [] {
      NonEmptyOfNonEmpty(ps[1..]);
    }
  }

  lemma {:induction false} JoinNoWhitespace(fs: seq<string>, sep: string)
    requires NoWhitespace(sep)
    requires forall k :: 0 <= k < |fs| ==> NoWhitespace(fs[k])
    ensures NoWhitespace(Join(fs, sep))
    decreases |fs|
  {
    if |fs| >= 2 {
      JoinNoWhitespace(fs[1..], sep);
      var j := Join(fs[1..], sep);
      var s := fs[0] + sep + j;
      forall m | 0 <= m < |s| ensures !IsWhitespace(s[m]) {
        if m < |fs[0]| {
          assert s[m] == fs[0][m];
        } else if m < |fs[0]| + |sep| {
          assert s[m] == sep[m - |fs[0]|];
        } else {
          assert s[m] == j[m - |fs[0]| - |sep|];
        }
      }
    }
  }

  /** A comma-separated list of feature names reads back as those names. */
  lemma CommaListRoundTrip(fs: seq<string>)
    requires forall k :: 0 <= k < |fs| ==> FeatureName(fs[k])
    ensures SplitFeatures(Some(Join(fs, ","))) == fs
  {
    if fs != [] {
      var s := Join(fs, ",");
      OneWord(fs);
      CommaPiecesSingle(s);
      assert SplitFeatures(Some(s)) == NonEmpty(Split(s, ","));
      CommaPieceNames(fs);
      NonEmptyOfNonEmpty(fs);
    }
  }

  lemma OneWord(fs: seq<string>)
    requires fs != [] && forall k :: 0 <= k < |fs| ==> FeatureName(fs[k])
    ensures SplitWhitespace(Join(fs, ",")) == [Join(fs, ",")]
  {
    assert NoWhitespace(",");
    JoinNoWhitespace(fs, ",");
    JoinLength(fs, ",");
    SplitWhitespaceWord(Join(fs, ","));
  }

  lemma CommaPieceNames(fs: seq<string>)
    requires fs != [] && forall k :: 0 <= k < |fs| ==> FeatureName(fs[k])
    ensures Split(Join(fs, ","), ",") == fs
  {
    assert forall k :: 0 <= k < |fs| ==> ","[0] !in fs[k];
    SplitPlain(fs, ",");
  }

  lemma CommaPiecesSingle(w: string)
    ensures CommaPieces([w]) == NonEmpty(Split(w, ","))
  {
    assert [w][1..] == [];
    assert NonEmpty(Split(w, ",")) + [] == NonEmpty(Split(w, ","));
  }

  lemma {:induction false} JoinLength(fs: seq<string>, sep: string)
    requires |fs| >= 1 && fs[0] != ""
    ensures Join(fs, sep) != ""
  {
    if |fs| >= 2 {
      assert |Join(fs, sep)| >= |fs[0]|;
    }
  }

  /** A space-separated list of feature names reads back as those names. */
  lemma {:induction false} SpaceListRoundTrip(fs: seq<string>)
    requires forall k :: 0 <= k < |fs| ==> FeatureName(fs[k])
    ensures SplitFeatures(Some(Join(fs, " "))) == fs
  {
    SplitWhitespaceJoin(fs);
    CommaPiecesOfNames(fs);
  }

  lemma {:induction false} CommaPiecesOfNames(fs: seq<string>)
    requires forall k :: 0 <= k < |fs| ==> FeatureName(fs[k])
    ensures CommaPieces(fs) == fs
    decreases |fs|
  {
    if fs != [] {
      NoContainsOfNoChar(fs[0], ',');
      SplitNone(fs[0], ",");
      assert NonEmpty([fs[0]]) == [fs[0]] + NonEmpty([]);
      CommaPiecesOfNames(fs[1..]);
      assert fs == [fs[0]] + fs[1..];
    }
  }
}

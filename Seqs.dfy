/** Mapping a function over a sequence, and why it respects permutations. */
module Seqs {

  function MapSeq<A, B>(f: A -> B, s: seq<A>): seq<B> {
    seq(|s|, i requires 0 <= i < |s| => f(s[i]))
  }

  lemma MapSeqAppend<A, B>(f: A -> B, a: seq<A>, b: seq<A>)
    ensures MapSeq(f, a + b) == MapSeq(f, a) + MapSeq(f, b)
  {
  }

  /** Removing the element at `i` removes one occurrence of it. */
  lemma RemoveAt<A>(s: seq<A>, i: nat)
    requires i < |s|
    ensures multiset(s[..i] + s[i + 1..]) == multiset(s) - multiset{s[i]}
  {
    assert s == s[..i] + [s[i]] + s[i + 1..];
  }

  /** The images of a sequence are the image of its element at `i` and the
      images of the rest. */
  lemma MapRemoveAt<A, B>(f: A -> B, s: seq<A>, i: nat)
    requires i < |s|
    ensures multiset(MapSeq(f, s)) == multiset{f(s[i])} + multiset(MapSeq(f, s[..i] + s[i + 1..]))
  {
    var front, back := MapSeq(f, s[..i]), MapSeq(f, s[i + 1..]);
    assert MapSeq(f, s) == front + [f(s[i])] + back;
    MapSeqAppend(f, s[..i], s[i + 1..]);
  }

  /** The images of a non-empty sequence are the image of its first element
      and the images of the rest. */
  lemma MapFirst<A, B>(f: A -> B, s: seq<A>)
    requires s != []
    ensures multiset(MapSeq(f, s)) == multiset{f(s[0])} + multiset(MapSeq(f, s[1..]))
  {
    assert MapSeq(f, s) == [f(s[0])] + MapSeq(f, s[1..]);
  }

  /** Two orderings of the same elements map to two orderings of the same images. */
  lemma {:induction false} MapPerm<A, B>(f: A -> B, a: seq<A>, b: seq<A>)
    requires multiset(a) == multiset(b)
    ensures multiset(MapSeq(f, a)) == multiset(MapSeq(f, b))
    decreases |a|
  {
    if a == [] {
      assert |multiset(b)| == 0;
    } else {
      assert a[0] in multiset(b);
      var i :| 0 <= i < |b| && b[i] == a[0];
      RemoveAt(b, i);
      assert multiset(a[1..]) == multiset(a) - multiset{a[0]} by {
        assert a == [a[0]] + a[1..];
      }
      MapPerm(f, a[1..], b[..i] + b[i + 1..]);
      MapFirst(f, a);
      MapRemoveAt(f, b, i);
    }
  }
}

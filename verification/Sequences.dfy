/** Facts about sequences that the proofs name where the verifier needs them. */
module Sequences {
  lemma Assoc<T>(a: seq<T>, b: seq<T>, c: seq<T>)
    ensures a + (b + c) == a + b + c
  {
  }

  lemma DropFromFirst<T>(a: seq<T>, b: seq<T>, n: nat)
    requires n <= |a|
    ensures (a + b)[n..] == a[n..] + b
  {
  }

  lemma TakeFirst<T>(a: seq<T>, b: seq<T>)
    ensures (a + b)[..|a|] == a
  {
  }

  /** Cutting a concatenation within its first part. */
  lemma CutWithinFirst<T>(head: seq<T>, after: seq<T>, first: seq<T>, second: seq<T>)
    requires head + after == first + second && |head| <= |first|
    ensures head == first[..|head|] && after == first[|head|..] + second
  {
    var whole := head + after;
    assert head == whole[..|head|] && after == whole[|head|..];
    assert whole[..|head|] == first[..|head|];
    DropFromFirst(first, second, |head|);
  }

  lemma SliceOfSlice<T>(s: seq<T>, a: nat, b: nat, c: nat, d: nat)
    requires c <= d && a + d <= b <= |s|
    ensures s[a..b][c..d] == s[a + c..a + d]
  {
    var x, y := s[a..b][c..d], s[a + c..a + d];
    assert |x| == |y| && forall i | 0 <= i < |x| :: x[i] == y[i];
  }

  lemma DropTwice<T>(s: seq<T>, a: nat, n: nat)
    requires a + n <= |s|
    ensures s[a..][n..] == s[a + n..]
  {
  }

  lemma PrefixGrows<T>(x: seq<T>, whole: seq<T>)
    requires x <= whole && |x| < |whole|
    ensures x + [whole[|x|]] <= whole
  {
  }

  /** Bytes that move from the front of one queue to the end of another. */
  lemma MoveOver<T>(left: seq<T>, got: seq<T>, contents: seq<T>)
    requires got <= contents
    ensures left + got + contents[|got|..] == left + contents
  {
  }

  function Flatten<T>(xs: seq<seq<T>>): seq<T> {
    if xs == [] then [] else Flatten(xs[..|xs| - 1]) + xs[|xs| - 1]
  }

  lemma FlattenAppends<T>(xs: seq<seq<T>>, x: seq<T>)
    ensures Flatten(xs + [x]) == Flatten(xs) + x
  {
    assert (xs + [x])[..|xs|] == xs;
  }

  lemma {:induction false} FlattenFirst<T>(xs: seq<seq<T>>)
    requires xs != []
    ensures Flatten(xs) == xs[0] + Flatten(xs[1..])
  {
    var last := |xs| - 1;
    if last > 0 {
      FlattenFirst(xs[..last]);
      assert xs[1..][..last - 1] == xs[..last][1..];
      Assoc(xs[0], Flatten(xs[1..][..last - 1]), xs[last]);
    }
  }

  lemma FlattenFirstThen<T>(xs: seq<seq<T>>, tail: seq<T>)
    requires xs != []
    ensures Flatten(xs) + tail == xs[0] + (Flatten(xs[1..]) + tail)
    ensures |Flatten(xs)| == |xs[0]| + |Flatten(xs[1..])|
  {
    FlattenFirst(xs);
    Assoc(xs[0], Flatten(xs[1..]), tail);
  }
}

/**
 * The order in which a media segment writes its boxes, and what that
 * order weighs: the styp box, then for every fragment the sidx boxes
 * placed before it and the fragment's own boxes (section 8.16 of
 * ISO/IEC 14496-12).
 *
 * A fragment is written as its children in order and weighs the sum of
 * their sizes; that is how the fragment collaborator is taken to behave.
 */
module Traversal {
  import opened Types

  /** What is written before the first fragment's bucket: the styp box, if any. */
  function StypPart(styp: Option<Box>): seq<Box>
  {
    if styp.Some? then [styp.value] else []
  }

  /** Size of a fragment: the sizes of its children added up. */
  function FragmentSize(f: Fragment): nat
  {
    SumSizes(f.children)
  }

  /**
   * Boxes written for the fragments, in stream order: for fragment i the
   * sidx boxes of bucket i, then the fragment.  Buckets past the last
   * fragment take no part.
   */
  function Body(buckets: seq<seq<Box>>, frags: seq<Fragment>): seq<Box>
    requires |buckets| >= |frags|
  {
    if frags == [] then []
    else Body(buckets, frags[..|frags| - 1]) + buckets[|frags| - 1] + frags[|frags| - 1].children
  }

  /** Every box a segment writes, in the order it writes them. */
  function Order(styp: Option<Box>, buckets: seq<seq<Box>>, frags: seq<Fragment>): seq<Box>
    requires |buckets| >= |frags|
  {
    StypPart(styp) + Body(buckets, frags)
  }

  /** Total size of the fragments and of the sidx boxes before each of them. */
  function BodySize(buckets: seq<seq<Box>>, frags: seq<Fragment>): nat
    requires |buckets| >= |frags|
  {
    if frags == [] then 0
    else BodySize(buckets, frags[..|frags| - 1]) + SumSizes(buckets[|frags| - 1]) + FragmentSize(frags[|frags| - 1])
  }

  /** Size of a segment as mp4/mediasegment.go adds it up, without uint64 wrap-around. */
  function SegmentSize(styp: Option<Box>, buckets: seq<seq<Box>>, frags: seq<Fragment>): nat
    requires |buckets| >= |frags|
  {
    (if styp.Some? then styp.value.size as int else 0) + BodySize(buckets, frags)
  }

  /** Boxes written before the bucket of fragment i: the styp box and fragments 0..i-1. */
  function Before(styp: Option<Box>, buckets: seq<seq<Box>>, frags: seq<Fragment>, i: nat): seq<Box>
    requires |buckets| >= |frags| && i <= |frags|
  {
    StypPart(styp) + Body(buckets, frags[..i])
  }

  /** Position in Order at which fragment i's own boxes start. */
  function FragStart(styp: Option<Box>, buckets: seq<seq<Box>>, frags: seq<Fragment>, i: nat): nat
    requires |buckets| >= |frags| && i < |frags|
  {
    |Before(styp, buckets, frags, i)| + |buckets[i]|
  }

  /**
   * Index of the first box whose encoding fails, or the length of the
   * sequence when none does: where a writer that stops at the first error
   * stops.
   */
  function FirstFailure(boxes: seq<Box>, fails: Box -> bool): (k: nat)
    ensures k <= |boxes|
    ensures forall j :: 0 <= j < k ==> !fails(boxes[j])
    ensures k < |boxes| ==> fails(boxes[k])
  {
    if boxes == [] then 0
    else if fails(boxes[0]) then 0
    else 1 + FirstFailure(boxes[1..], fails)
  }

  /** One more fragment adds its bucket and its boxes at the end. */
  lemma BodyStep(buckets: seq<seq<Box>>, frags: seq<Fragment>, i: nat)
    requires |buckets| >= |frags| && i < |frags|
    ensures Body(buckets, frags[..i + 1]) == Body(buckets, frags[..i]) + buckets[i] + frags[i].children
  {
    assert frags[..i + 1][..i] == frags[..i];
  }

  /** One more fragment adds the sizes of its bucket and of itself. */
  lemma SizeStep(styp: Option<Box>, buckets: seq<seq<Box>>, frags: seq<Fragment>, i: nat)
    requires |buckets| >= |frags| && i < |frags|
    ensures SegmentSize(styp, buckets, frags[..i + 1])
            == SegmentSize(styp, buckets, frags[..i]) + SumSizes(buckets[i]) + FragmentSize(frags[i])
  {
    assert frags[..i + 1][..i] == frags[..i];
  }

  /** The boxes of the first i fragments are written before those of the rest. */
  lemma {:induction false} BodyPrefix(buckets: seq<seq<Box>>, frags: seq<Fragment>, i: nat)
    requires |buckets| >= |frags| && i <= |frags|
    ensures Body(buckets, frags[..i]) <= Body(buckets, frags)
    decreases |frags| - i
  {
    if i < |frags| {
      BodyPrefix(buckets, frags, i + 1);
      BodyStep(buckets, frags, i);
    } else {
      assert frags[..i] == frags;
    }
  }

  lemma PrefixConcat(a: seq<Box>, x: seq<Box>, y: seq<Box>)
    requires x <= y
    ensures a + x <= a + y
  {
    assert a + y == (a + x) + y[|x|..];
  }

  lemma PrefixDrop(x: seq<Box>, y: seq<Box>, z: seq<Box>)
    requires x + y <= z
    ensures x <= z
  {
    assert z[..|x|] == (x + y)[..|x|];
  }

  /** Fragment i adds its bucket and its boxes to what is written before it. */
  lemma BeforeStep(styp: Option<Box>, buckets: seq<seq<Box>>, frags: seq<Fragment>, i: nat)
    requires |buckets| >= |frags| && i < |frags|
    ensures Before(styp, buckets, frags, i + 1)
            == Before(styp, buckets, frags, i) + buckets[i] + frags[i].children
    ensures Before(styp, buckets, frags, i + 1)
            == Before(styp, buckets, frags, i) + (buckets[i] + frags[i].children)
  {
    BodyStep(buckets, frags, i);
    var sp, b := StypPart(styp), Body(buckets, frags[..i]);
    assert sp + (b + buckets[i] + frags[i].children) == sp + b + buckets[i] + frags[i].children;
    assert sp + b + buckets[i] + frags[i].children == sp + b + (buckets[i] + frags[i].children);
  }

  /** What is written before fragment i is a prefix of Order. */
  lemma BeforeInOrder(styp: Option<Box>, buckets: seq<seq<Box>>, frags: seq<Fragment>, i: nat)
    requires |buckets| >= |frags| && i <= |frags|
    ensures Before(styp, buckets, frags, i) <= Order(styp, buckets, frags)
  {
    BodyPrefix(buckets, frags, i);
    PrefixConcat(StypPart(styp), Body(buckets, frags[..i]), Body(buckets, frags));
  }

  /** Everything written before the end of the fragments is Order itself. */
  lemma BeforeAll(styp: Option<Box>, buckets: seq<seq<Box>>, frags: seq<Fragment>)
    requires |buckets| >= |frags|
    ensures Before(styp, buckets, frags, |frags|) == Order(styp, buckets, frags)
  {
    assert frags[..|frags|] == frags;
  }

  /** Fragment i's bucket and boxes sit in Order right after those of fragments 0..i-1. */
  lemma FragmentInOrder(styp: Option<Box>, buckets: seq<seq<Box>>, frags: seq<Fragment>, i: nat)
    requires |buckets| >= |frags| && i < |frags|
    ensures Before(styp, buckets, frags, i) + buckets[i] + frags[i].children <= Order(styp, buckets, frags)
    ensures FragStart(styp, buckets, frags, i) + |frags[i].children| == |Before(styp, buckets, frags, i + 1)|
  {
    BeforeInOrder(styp, buckets, frags, i + 1);
    BeforeStep(styp, buckets, frags, i);
  }

  /** Less is written before an earlier fragment. */
  lemma BeforeGrows(styp: Option<Box>, buckets: seq<seq<Box>>, frags: seq<Fragment>, a: nat, b: nat)
    requires |buckets| >= |frags| && a <= b <= |frags|
    ensures |Before(styp, buckets, frags, a)| <= |Before(styp, buckets, frags, b)|
  {
    BodyPrefix(buckets, frags[..b], a);
    assert frags[..b][..a] == frags[..a];
  }

  /** The first failure is at n when every box before n passes and box n fails. */
  lemma FailureAt(boxes: seq<Box>, n: nat, fails: Box -> bool)
    requires n < |boxes| && fails(boxes[n])
    requires forall m :: 0 <= m < n ==> !fails(boxes[m])
    ensures FirstFailure(boxes, fails) == n
  {
  }

  /**
   * Where fragment j sits relative to fragment i: an earlier one ends
   * before i's bucket, a later one starts after i's boxes.
   */
  lemma FragStartBounds(styp: Option<Box>, buckets: seq<seq<Box>>, frags: seq<Fragment>, i: nat)
    requires |buckets| >= |frags| && i < |frags|
    ensures FragStart(styp, buckets, frags, i) + |frags[i].children| == |Before(styp, buckets, frags, i + 1)|
    ensures forall j :: 0 <= j < i ==>
      FragStart(styp, buckets, frags, j) + |frags[j].children| <= |Before(styp, buckets, frags, i)|
    ensures forall j :: i < j < |frags| ==>
      |Before(styp, buckets, frags, i + 1)| <= FragStart(styp, buckets, frags, j)
  {
    BeforeStep(styp, buckets, frags, i);
    forall j | 0 <= j < i
      ensures FragStart(styp, buckets, frags, j) + |frags[j].children| <= |Before(styp, buckets, frags, i)|
    {
      BeforeStep(styp, buckets, frags, j);
      BeforeGrows(styp, buckets, frags, j + 1, i);
    }
    forall j | i < j < |frags|
      ensures |Before(styp, buckets, frags, i + 1)| <= FragStart(styp, buckets, frags, j)
    {
      BeforeGrows(styp, buckets, frags, i + 1, j);
    }
  }

  /** Where the first failure of order lies when it starts with w + rest, w passes and rest fails. */
  lemma StopWithin(order: seq<Box>, w: seq<Box>, rest: seq<Box>, fails: Box -> bool)
    requires w + rest <= order
    requires forall m :: 0 <= m < |w| ==> !fails(w[m])
    requires FirstFailure(rest, fails) < |rest|
    ensures var k := FirstFailure(order, fails); var kr := FirstFailure(rest, fails);
      && k == |w| + kr && k < |order| && order[..k] == w + rest[..kr] && order[k] == rest[kr]
  {
    PrefixSplit(w + rest, order);
    StopConcat(w, rest, order[|w + rest|..], fails);
  }

  lemma PrefixSplit(p: seq<Box>, order: seq<Box>)
    requires p <= order
    ensures order == p + order[|p|..]
  {
  }

  /** StopWithin for a sequence given as w + rest + tail. */
  lemma StopConcat(w: seq<Box>, rest: seq<Box>, tail: seq<Box>, fails: Box -> bool)
    requires forall m :: 0 <= m < |w| ==> !fails(w[m])
    requires FirstFailure(rest, fails) < |rest|
    ensures var s := w + rest + tail; var k := FirstFailure(s, fails); var kr := FirstFailure(rest, fails);
      && k == |w| + kr && k < |s| && s[..k] == w + rest[..kr] && s[k] == rest[kr]
  {
    var kr := FirstFailure(rest, fails);
    var x := rest + tail;
    assert w + rest + tail == w + x;
    FirstFailureConcat(w, x, fails);
    FirstFailureConcat(rest, tail, fails);
    assert (w + x)[..|w| + kr] == w + x[..kr];
    assert x[..kr] == rest[..kr];
  }

  /** The first failure of a + b: inside a if a fails, else after a. */
  lemma {:induction false} FirstFailureConcat(a: seq<Box>, b: seq<Box>, fails: Box -> bool)
    ensures FirstFailure(a + b, fails)
         == if FirstFailure(a, fails) < |a| then FirstFailure(a, fails) else |a| + FirstFailure(b, fails)
    decreases |a|
  {
    if a == [] {
      assert a + b == b;
    } else {
      assert (a + b)[1..] == a[1..] + b;
      if !fails(a[0]) {
        FirstFailureConcat(a[1..], b, fails);
      }
    }
  }

  /** A failing styp box stops the writer before anything is written. */
  lemma StypFails(styp: Option<Box>, buckets: seq<seq<Box>>, frags: seq<Fragment>, fails: Box -> bool)
    requires |buckets| >= |frags| && styp.Some? && fails(styp.value)
    ensures var order := Order(styp, buckets, frags);
      && FirstFailure(order, fails) == 0 && order != [] && order[0] == styp.value
      && forall j :: 0 <= j < |frags| ==> !(FragStart(styp, buckets, frags, j) <= 0)
  {
  }

  /** A stop inside the children of fragment i: exactly fragments 0..i have been started. */
  lemma StartedThrough(styp: Option<Box>, buckets: seq<seq<Box>>, frags: seq<Fragment>, i: nat, k: nat)
    requires |buckets| >= |frags| && i < |frags|
    requires FragStart(styp, buckets, frags, i) <= k < |Before(styp, buckets, frags, i + 1)|
    ensures forall j :: 0 <= j < |frags| ==> (FragStart(styp, buckets, frags, j) <= k <==> j <= i)
  {
    FragStartBounds(styp, buckets, frags, i);
  }

  /** A stop inside the sidx bucket of fragment i: exactly fragments 0..i-1 have been started. */
  lemma StartedBefore(styp: Option<Box>, buckets: seq<seq<Box>>, frags: seq<Fragment>, i: nat, k: nat)
    requires |buckets| >= |frags| && i < |frags|
    requires |Before(styp, buckets, frags, i)| <= k < FragStart(styp, buckets, frags, i)
    ensures forall j :: 0 <= j < |frags| ==> (FragStart(styp, buckets, frags, j) <= k <==> j < i)
  {
    FragStartBounds(styp, buckets, frags, i);
  }

  /**
   * The sidx boxes of bucket i, written after the w boxes before them,
   * stop at their first failure; only the fragments before i were reached.
   */
  lemma BucketFails(styp: Option<Box>, buckets: seq<seq<Box>>, frags: seq<Fragment>, i: nat, w: seq<Box>, fails: Box -> bool)
    requires |buckets| >= |frags| && i < |frags| && w == Before(styp, buckets, frags, i)
    requires forall m :: 0 <= m < |w| ==> !fails(w[m])
    requires FirstFailure(buckets[i], fails) < |buckets[i]|
    ensures var order := Order(styp, buckets, frags); var k := FirstFailure(order, fails);
      var b := buckets[i]; var kb := FirstFailure(b, fails);
      && k == |w| + kb && k < |order| && order[..k] == w + b[..kb] && order[k] == b[kb]
      && |Before(styp, buckets, frags, i)| <= k < FragStart(styp, buckets, frags, i)
  {
    var order := Order(styp, buckets, frags);
    FragmentInOrder(styp, buckets, frags, i);
    PrefixDrop(w + buckets[i], frags[i].children, order);
    StopWithin(order, w, buckets[i], fails);
  }

  /**
   * The children of fragment i, written after the w boxes before its
   * bucket and the bucket, stop at their first failure; fragments 0..i
   * were reached.
   */
  lemma ChildStop(styp: Option<Box>, buckets: seq<seq<Box>>, frags: seq<Fragment>, i: nat, w: seq<Box>, fails: Box -> bool)
    requires |buckets| >= |frags| && i < |frags| && w == Before(styp, buckets, frags, i) + buckets[i]
    requires forall m :: 0 <= m < |w| ==> !fails(w[m])
    requires FirstFailure(frags[i].children, fails) < |frags[i].children|
    ensures var order := Order(styp, buckets, frags); var k := FirstFailure(order, fails);
      var c := frags[i].children; var kc := FirstFailure(c, fails);
      && k == |w| + kc && k < |order| && order[..k] == w + c[..kc] && order[k] == c[kc]
      && FragStart(styp, buckets, frags, i) <= k < |Before(styp, buckets, frags, i + 1)|
  {
    var order := Order(styp, buckets, frags);
    FragmentInOrder(styp, buckets, frags, i);
    StopWithin(order, w, frags[i].children, fails);
  }

  /** When no box fails the writer writes all of Order and reaches every fragment. */
  lemma AllWritten(styp: Option<Box>, buckets: seq<seq<Box>>, frags: seq<Fragment>, fails: Box -> bool)
    requires |buckets| >= |frags|
    requires var order := Order(styp, buckets, frags); forall m :: 0 <= m < |order| ==> !fails(order[m])
    ensures var order := Order(styp, buckets, frags);
      && FirstFailure(order, fails) == |order|
      && forall j :: 0 <= j < |frags| ==> FragStart(styp, buckets, frags, j) <= |order|
  {
    forall j | 0 <= j < |frags| ensures FragStart(styp, buckets, frags, j) <= |Order(styp, buckets, frags)| {
      FragmentInOrder(styp, buckets, frags, j);
      BeforeInOrder(styp, buckets, frags, j + 1);
    }
  }

  /** Writing a bucket and a fragment after q without error leaves all of it without error. */
  lemma PassThroughTwo(q: seq<Box>, b: seq<Box>, c: seq<Box>, fails: Box -> bool)
    requires forall m :: 0 <= m < |q| ==> !fails(q[m])
    requires FirstFailure(b, fails) == |b| && FirstFailure(c, fails) == |c|
    ensures forall m :: 0 <= m < |q + (b + c)| ==> !fails((q + (b + c))[m])
  {
    PassThrough(b, c, fails);
    assert forall m :: 0 <= m < |b + c| ==> !fails((b + c)[m]);
  }

  /** Writing rest after q without error leaves q + rest without error. */
  lemma PassThrough(q: seq<Box>, rest: seq<Box>, fails: Box -> bool)
    requires forall m :: 0 <= m < |q| ==> !fails(q[m])
    requires FirstFailure(rest, fails) == |rest|
    ensures forall m :: 0 <= m < |q + rest| ==> !fails((q + rest)[m])
  {
  }

  /**
   * The bytes a full encoding writes are exactly the segment's size: the
   * sizes of the boxes in Order add up to SegmentSize.
   */
  lemma {:induction false} EncodedLengthIsSize(styp: Option<Box>, buckets: seq<seq<Box>>, frags: seq<Fragment>)
    requires |buckets| >= |frags|
    ensures SumSizes(Order(styp, buckets, frags)) == SegmentSize(styp, buckets, frags)
  {
    BodyLengthIsSize(buckets, frags);
    SumSizesAppend(StypPart(styp), Body(buckets, frags));
    if styp.Some? {
      assert StypPart(styp)[..0] == [];
    }
  }

  lemma {:induction false} BodyLengthIsSize(buckets: seq<seq<Box>>, frags: seq<Fragment>)
    requires |buckets| >= |frags|
    ensures SumSizes(Body(buckets, frags)) == BodySize(buckets, frags)
    decreases |frags|
  {
    if frags != [] {
      var n := |frags| - 1;
      BodyLengthIsSize(buckets, frags[..n]);
      SumSizesAppend(Body(buckets, frags[..n]) + buckets[n], frags[n].children);
      SumSizesAppend(Body(buckets, frags[..n]), buckets[n]);
    }
  }

  /** Order and size read only the buckets of existing fragments. */
  lemma {:induction false} BodyIgnoresLaterBuckets(b1: seq<seq<Box>>, b2: seq<seq<Box>>, frags: seq<Fragment>)
    requires |b1| >= |frags| && |b2| >= |frags|
    requires b1[..|frags|] == b2[..|frags|]
    ensures Body(b1, frags) == Body(b2, frags)
    ensures BodySize(b1, frags) == BodySize(b2, frags)
    decreases |frags|
  {
    if frags != [] {
      var n := |frags| - 1;
      assert b1[..n] == b1[..|frags|][..n];
      assert b2[..n] == b2[..|frags|][..n];
      assert b1[n] == b1[..|frags|][n];
      assert b2[n] == b2[..|frags|][n];
      BodyIgnoresLaterBuckets(b1, b2, frags[..n]);
    }
  }

  /**
   * Sidx boxes in the trailing bucket (those added after the last
   * fragment) are neither written nor counted in the size.
   */
  lemma TrailingBucketIgnored(styp: Option<Box>, buckets: seq<seq<Box>>, frags: seq<Fragment>, trailing: seq<Box>)
    requires |buckets| == |frags|
    ensures Order(styp, buckets + [trailing], frags) == Order(styp, buckets, frags)
    ensures SegmentSize(styp, buckets + [trailing], frags) == SegmentSize(styp, buckets, frags)
  {
    assert (buckets + [trailing])[..|frags|] == buckets[..|frags|];
    BodyIgnoresLaterBuckets(buckets + [trailing], buckets, frags);
  }

  /** An empty segment without styp writes nothing and has size 0. */
  lemma EmptySegment(buckets: seq<seq<Box>>)
    ensures Order(None, buckets, []) == [] && SegmentSize(None, buckets, []) == 0
  {
  }
}

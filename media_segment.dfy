/**
 * The MediaSegment of mp4/mediasegment.go: an optional styp box, the sidx
 * boxes grouped by the fragment they precede, the fragments, and the
 * encoding option handed on to the fragments when the segment is written.
 */
module MediaSegments {
  import opened Types
  import opened Traversal
  import opened Refragment

  /** All sidx boxes of a segment, bucket after bucket. */
  function Flatten(buckets: seq<seq<Box>>): seq<Box>
  {
    if buckets == [] then [] else Flatten(buckets[..|buckets| - 1]) + buckets[|buckets| - 1]
  }

  /** The first box of a sequence, if there is one. */
  function FirstOf(boxes: seq<Box>): Option<Box>
  {
    if boxes == [] then None else Some(boxes[0])
  }

  lemma FlattenSnoc(buckets: seq<seq<Box>>, bucket: seq<Box>)
    ensures Flatten(buckets + [bucket]) == Flatten(buckets) + bucket
  {
    assert (buckets + [bucket])[..|buckets|] == buckets;
  }

  lemma FlattenPushLast(buckets: seq<seq<Box>>, b: Box)
    requires buckets != []
    ensures Flatten(buckets[|buckets| - 1 := buckets[|buckets| - 1] + [b]]) == Flatten(buckets) + [b]
  {
    var n := |buckets| - 1;
    var after := buckets[n := buckets[n] + [b]];
    assert after[..n] == buckets[..n];
  }

  lemma FirstOfSnoc(boxes: seq<Box>, more: seq<Box>)
    requires boxes != []
    ensures FirstOf(boxes + more) == FirstOf(boxes)
  {
  }

  /** Before any fragment, the segment's sidx boxes are those of bucket 0. */
  lemma {:induction false} FlattenStartsWithFirstBucket(buckets: seq<seq<Box>>)
    requires buckets != []
    ensures buckets[0] <= Flatten(buckets)
    decreases |buckets|
  {
    if |buckets| > 1 {
      var n := |buckets| - 1;
      FlattenStartsWithFirstBucket(buckets[..n]);
    } else {
      assert buckets[..0] == [];
    }
  }

  /** The fragments with the first n of them stamped with encoding option opt. */
  function Stamp(frags: seq<Fragment>, opt: EncOptimize, n: nat): (r: seq<Fragment>)
    ensures |r| == |frags| && (n == 0 ==> r == frags)
    ensures forall j :: 0 <= j < |r| ==> r[j].(encOptimize := frags[j].encOptimize) == frags[j]
    ensures forall j :: 0 <= j < |r| && j < n ==> r[j].encOptimize == opt
  {
    seq(|frags|, j requires 0 <= j < |frags| => if j < n then frags[j].(encOptimize := opt) else frags[j])
  }

  lemma StampNext(frags: seq<Fragment>, opt: EncOptimize, i: nat)
    requires i < |frags|
    ensures Stamp(frags, opt, i)[i := frags[i].(encOptimize := opt)] == Stamp(frags, opt, i + 1)
  {
  }

  /** The first n fragments are stamped exactly when the writer reached the first n fragments. */
  lemma StampReached(styp: Option<Box>, buckets: seq<seq<Box>>, frags: seq<Fragment>, opt: EncOptimize, n: nat, k: nat)
    requires |buckets| >= |frags|
    requires forall j :: 0 <= j < |frags| ==> (FragStart(styp, buckets, frags, j) <= k <==> j < n)
    ensures forall j :: 0 <= j < |frags| ==>
      Stamp(frags, opt, n)[j] == if FragStart(styp, buckets, frags, j) <= k then frags[j].(encOptimize := opt) else frags[j]
  {
  }

  /** Fragment.Encode: its children written in order, up to the first that fails. */
  method EncodeBoxes(boxes: seq<Box>, fails: Box -> bool) returns (written: seq<Box>, failed: Option<Box>)
    ensures var k := FirstFailure(boxes, fails);
      && written == boxes[..k]
      && (failed.None? <==> k == |boxes|)
      && (failed.Some? ==> failed.value == boxes[k])
  {
    written := [];
    var i := 0;
    while i < |boxes|
      invariant 0 <= i <= |boxes|
      invariant written == boxes[..i]
      invariant forall m :: 0 <= m < i ==> !fails(boxes[m])
    {
      if fails(boxes[i]) {
        FailureAt(boxes, i, fails);
        return written, Some(boxes[i]);
      }
      written := written + [boxes[i]];
      i := i + 1;
    }
    assert boxes[..i] == boxes;
    failed := None;
  }

  /**
   * The body of the inner loop of Fragmentify for sample s of an input
   * fragment: open an output fragment when cumDur is 0, add s to the last
   * output fragment, and advance cumDur.
   */
  method AddSampleStep(out0: seq<Fragment>, cumDur0: uint32, seqNum: uint32, trackId: uint32, s: Sample,
                       duration: uint32, c: Collaborators)
    returns (r: Result<Acc>)
    requires cumDur0 != 0 ==> out0 != []
    ensures r == Step(Acc(out0, cumDur0), seqNum, trackId, s, duration, c)
  {
    var out, cumDur := out0, cumDur0;
    if cumDur == 0 {
      if c.createFails(seqNum, trackId) {
        return Err(CreateFailed);
      }
      out := out + [NewFragment(seqNum, trackId)];
    }
    if c.addFails(out[|out| - 1], s, trackId) {
      return Err(AddFailed);
    }
    out := out[|out| - 1 := AddSample(out[|out| - 1], s)];
    cumDur := AddU32(cumDur, s.dur);
    if cumDur >= duration {
      cumDur := 0;
    }
    r := Ok(Acc(out, cumDur));
  }

  /**
   * The inner loop of Fragmentify over the full samples of one input
   * fragment, from output fragments out and accumulator cumDur.
   */
  method CutSamples(inFrag: Fragment, out0: seq<Fragment>, cumDur0: uint32, duration: uint32, c: Collaborators)
    returns (r: Result<Acc>)
    requires cumDur0 != 0 ==> out0 != []
    ensures r == RunSamples(Acc(out0, cumDur0), inFrag, inFrag.samples, duration, c)
  {
    var out, cumDur := out0, cumDur0;
    var samples := inFrag.samples;
    var j := 0;
    assert samples[..0] == [];
    while j < |samples|
      invariant 0 <= j <= |samples|
      invariant RunSamples(Acc(out0, cumDur0), inFrag, samples[..j], duration, c) == Ok(Acc(out, cumDur))
      invariant cumDur != 0 ==> out != []
    {
      RunSamplesNext(Acc(out0, cumDur0), inFrag, samples, j, duration, c, Acc(out, cumDur));
      var step := AddSampleStep(out, cumDur, inFrag.seqNum, inFrag.trackId, samples[j], duration, c);
      if step.Err? {
        RunSamplesStops(Acc(out0, cumDur0), inFrag, samples, j + 1, duration, c);
        return step;
      }
      out, cumDur := step.value.out, step.value.cumDur;
      j := j + 1;
    }
    assert samples[..j] == samples;
    r := Ok(Acc(out, cumDur));
  }

  /**
   * What the traversal of Encode promises: it writes the boxes of Order up
   * to the first that fails, reports that box, and has stamped exactly the
   * fragments it reached.
   */
  ghost predicate EncodeOutcome(styp: Option<Box>, buckets: seq<seq<Box>>, frags: seq<Fragment>, opt: EncOptimize,
                                fails: Box -> bool, written: seq<Box>, err: Option<Error>, stamped: seq<Fragment>)
    requires |buckets| >= |frags|
  {
    var order := Order(styp, buckets, frags);
    var k := FirstFailure(order, fails);
    && written == order[..k]
    && (k == |order| ==> err == None)
    && (k < |order| ==> err == Some(EncodeFailed(order[k])))
    && |stamped| == |frags|
    && forall j :: 0 <= j < |frags| ==>
         stamped[j] == if FragStart(styp, buckets, frags, j) <= k then frags[j].(encOptimize := opt) else frags[j]
  }

  /** A sidx box of bucket i fails: fragments 0..i-1 are stamped. */
  lemma BucketOutcome(styp: Option<Box>, buckets: seq<seq<Box>>, frags: seq<Fragment>, opt: EncOptimize,
                      i: nat, written: seq<Box>, fails: Box -> bool)
    requires |buckets| >= |frags| && i < |frags| && written == Before(styp, buckets, frags, i)
    requires forall m :: 0 <= m < |written| ==> !fails(written[m])
    requires FirstFailure(buckets[i], fails) < |buckets[i]|
    ensures var b := buckets[i]; var kb := FirstFailure(b, fails);
      EncodeOutcome(styp, buckets, frags, opt, fails, written + b[..kb], Some(EncodeFailed(b[kb])), Stamp(frags, opt, i))
  {
    var k := FirstFailure(Order(styp, buckets, frags), fails);
    BucketFails(styp, buckets, frags, i, written, fails);
    StartedBefore(styp, buckets, frags, i, k);
    StampReached(styp, buckets, frags, opt, i, k);
  }

  /** A box of fragment i fails after its sidx boxes passed: fragments 0..i are stamped. */
  lemma ChildOutcome(styp: Option<Box>, buckets: seq<seq<Box>>, frags: seq<Fragment>, opt: EncOptimize,
                     i: nat, written: seq<Box>, fails: Box -> bool)
    requires |buckets| >= |frags| && i < |frags| && written == Before(styp, buckets, frags, i)
    requires forall m :: 0 <= m < |written| ==> !fails(written[m])
    requires FirstFailure(buckets[i], fails) == |buckets[i]|
    requires FirstFailure(frags[i].children, fails) < |frags[i].children|
    ensures var b := buckets[i]; var c := frags[i].children; var kc := FirstFailure(c, fails);
      EncodeOutcome(styp, buckets, frags, opt, fails, written + (b + c[..kc]), Some(EncodeFailed(c[kc])), Stamp(frags, opt, i + 1))
  {
    var b, c := buckets[i], frags[i].children;
    PassThrough(written, b, fails);
    var k := FirstFailure(Order(styp, buckets, frags), fails);
    ChildStop(styp, buckets, frags, i, written + b, fails);
    ConcatAssoc(written, b, c[..FirstFailure(c, fails)]);
    StartedThrough(styp, buckets, frags, i, k);
    StampReached(styp, buckets, frags, opt, i + 1, k);
  }

  /** Nothing fails: all of Order is written and every fragment is stamped. */
  lemma AllOutcome(styp: Option<Box>, buckets: seq<seq<Box>>, frags: seq<Fragment>, opt: EncOptimize,
                   written: seq<Box>, fails: Box -> bool)
    requires |buckets| >= |frags| && written == Before(styp, buckets, frags, |frags|)
    requires forall m :: 0 <= m < |written| ==> !fails(written[m])
    ensures EncodeOutcome(styp, buckets, frags, opt, fails, written, None, Stamp(frags, opt, |frags|))
  {
    BeforeAll(styp, buckets, frags);
    AllWritten(styp, buckets, frags, fails);
    StampReached(styp, buckets, frags, opt, |frags|, |Order(styp, buckets, frags)|);
  }

  /** A failing styp box: nothing is written and nothing stamped. */
  lemma StypOutcome(styp: Option<Box>, buckets: seq<seq<Box>>, frags: seq<Fragment>, opt: EncOptimize, fails: Box -> bool)
    requires |buckets| >= |frags| && styp.Some? && fails(styp.value)
    ensures EncodeOutcome(styp, buckets, frags, opt, fails, [], Some(EncodeFailed(styp.value)), Stamp(frags, opt, 0))
  {
    StypFails(styp, buckets, frags, fails);
    StampReached(styp, buckets, frags, opt, 0, 0);
  }

  /**
   * The traversal of Encode over values: the styp box, then for every
   * fragment its sidx boxes, the stamp of the fragment with opt, and the
   * fragment's boxes, up to the first box that fails.  stamped is the
   * fragment list as the traversal leaves it.
   */
  method WriteSegment(styp: Option<Box>, buckets: seq<seq<Box>>, frags: seq<Fragment>, opt: EncOptimize, fails: Box -> bool)
    returns (written: seq<Box>, err: Option<Error>, stamped: seq<Fragment>)
    requires |buckets| >= |frags|
    ensures EncodeOutcome(styp, buckets, frags, opt, fails, written, err, stamped)
  {
    stamped := frags;
    written := [];
    if styp.Some? {
      if fails(styp.value) {
        StypOutcome(styp, buckets, frags, opt, fails);
        return written, Some(EncodeFailed(styp.value)), stamped;
      }
      written := [styp.value];
    }
    assert frags[..0] == [];
    var i := 0;
    while i < |frags|
      invariant 0 <= i <= |frags|
      invariant written == Before(styp, buckets, frags, i)
      invariant forall m :: 0 <= m < |written| ==> !fails(written[m])
      invariant stamped == Stamp(frags, opt, i)
    {
      assert stamped[i] == frags[i];
      var w, failed;
      w, failed, stamped := WriteFragment(buckets[i], stamped, i, opt, fails);
      StampNext(frags, opt, i);
      if failed.Some? {
        if FirstFailure(buckets[i], fails) < |buckets[i]| {
          BucketOutcome(styp, buckets, frags, opt, i, written, fails);
        } else {
          ChildOutcome(styp, buckets, frags, opt, i, written, fails);
        }
        written := written + w;
        return written, Some(EncodeFailed(failed.value)), stamped;
      }
      ghost var c := frags[i].children;
      assert w == buckets[i] + c by {
        assert c[..|c|] == c;
      }
      PassThroughTwo(written, buckets[i], c, fails);
      BeforeStep(styp, buckets, frags, i);
      written := written + w;
      i := i + 1;
    }
    AllOutcome(styp, buckets, frags, opt, written, fails);
    err := None;
  }

  /**
   * One pass of Encode's loop for fragment i: its sidx boxes, then the
   * stamp, then the fragment's boxes.  A failing sidx box leaves the
   * fragment unstamped.
   */
  method WriteFragment(bucket: seq<Box>, frags: seq<Fragment>, i: nat, opt: EncOptimize, fails: Box -> bool)
    returns (w: seq<Box>, failed: Option<Box>, stamped: seq<Fragment>)
    requires i < |frags|
    ensures var kb := FirstFailure(bucket, fails);
      kb < |bucket| ==> w == bucket[..kb] && failed == Some(bucket[kb]) && stamped == frags
    ensures var c := frags[i].children; var kc := FirstFailure(c, fails);
      FirstFailure(bucket, fails) == |bucket| ==>
        && stamped == frags[i := frags[i].(encOptimize := opt)]
        && w == bucket + c[..kc]
        && (kc < |c| ==> failed == Some(c[kc]))
        && (kc == |c| ==> failed == None)
  {
    stamped := frags;
    var sw, serr := EncodeBoxes(bucket, fails);
    if serr.Some? {
      return sw, serr, stamped;
    }
    stamped := stamped[i := stamped[i].(encOptimize := opt)];
    var fw, ferr := EncodeBoxes(stamped[i].children, fails);
    w := sw + fw;
    failed := ferr;
  }

  class MediaSegment {
    var styp: Option<Box>
    /** The first sidx box ever added. */
    var sidx: Option<Box>
    /** sidxsByFrag[i]: the sidx boxes written just before fragment i. */
    var sidxsByFrag: seq<seq<Box>>
    var fragments: seq<Fragment>
    var encOptimize: EncOptimize

    /**
     * The bookkeeping a segment built by its own operations keeps: one
     * bucket per fragment plus at most one trailing bucket, which is only
     * there once a sidx box went into it, and sidx is the first sidx box.
     */
    ghost predicate Valid()
      reads this
    {
      && |fragments| <= |sidxsByFrag| <= |fragments| + 1
      && (|sidxsByFrag| == |fragments| + 1 ==> sidxsByFrag[|fragments|] != [])
      && sidx == FirstOf(Flatten(sidxsByFrag))
    }

    /** NewMediaSegment: an empty segment with the CMAF styp box that CreateStyp builds. */
    constructor (cmafStyp: Box)
      ensures styp == Some(cmafStyp) && sidx == None && sidxsByFrag == [] && fragments == []
      ensures encOptimize == OptimizeNone
      ensures Valid()
    {
      styp := Some(cmafStyp);
      sidx := None;
      sidxsByFrag := [];
      fragments := [];
      encOptimize := OptimizeNone;
    }

    /** NewMediaSegmentWithStyp: an empty segment with the given styp box (Go's nil is None). */
    constructor WithStyp(s: Option<Box>)
      ensures styp == s && sidx == None && sidxsByFrag == [] && fragments == []
      ensures encOptimize == OptimizeNone
      ensures Valid()
    {
      styp := s;
      sidx := None;
      sidxsByFrag := [];
      fragments := [];
      encOptimize := OptimizeNone;
    }

    /** NewMediaSegmentWithoutStyp: an empty segment with no styp box. */
    constructor WithoutStyp()
      ensures styp == None && sidx == None && sidxsByFrag == [] && fragments == []
      ensures encOptimize == OptimizeNone
      ensures Valid()
    {
      styp := None;
      sidx := None;
      sidxsByFrag := [];
      fragments := [];
      encOptimize := OptimizeNone;
    }

    /**
     * AddSidx: the box goes at the end of the bucket of the fragment still
     * to come, which is created when missing; the first sidx box ever added
     * is kept in sidx.  No bucket of an existing fragment changes.
     */
    method AddSidx(b: Box)
      requires |sidxsByFrag| >= |fragments|
      modifies this
      ensures styp == old(styp) && fragments == old(fragments) && encOptimize == old(encOptimize)
      ensures sidx == if old(sidx).None? then Some(b) else old(sidx)
      ensures |old(sidxsByFrag)| == |fragments| ==> sidxsByFrag == old(sidxsByFrag) + [[b]]
      ensures |old(sidxsByFrag)| > |fragments| ==>
        sidxsByFrag == old(sidxsByFrag)[|fragments| := old(sidxsByFrag)[|fragments|] + [b]]
      ensures |sidxsByFrag| > |fragments| && sidxsByFrag[..|fragments|] == old(sidxsByFrag)[..|fragments|]
      ensures old(Valid()) ==> Valid() && Flatten(sidxsByFrag) == Flatten(old(sidxsByFrag)) + [b]
    {
      if sidx.None? {
        sidx := Some(b);
      }
      if |sidxsByFrag| == |fragments| {
        sidxsByFrag := sidxsByFrag + [[]];
      }
      var n := |fragments|;
      assert [] + [b] == [b];
      sidxsByFrag := sidxsByFrag[n := sidxsByFrag[n] + [b]];
      assert sidxsByFrag[..n] == old(sidxsByFrag)[..n];
      if old(Valid()) {
        if |old(sidxsByFrag)| == n {
          assert sidxsByFrag == old(sidxsByFrag) + [[b]];
          FlattenSnoc(old(sidxsByFrag), [b]);
        } else {
          FlattenPushLast(old(sidxsByFrag), b);
        }
        if Flatten(old(sidxsByFrag)) != [] {
          FirstOfSnoc(Flatten(old(sidxsByFrag)), [b]);
        }
      }
    }

    /**
     * AddFragment: the fragment goes at the end, and a bucket is added for
     * it when no sidx box came before it.
     */
    method AddFragment(f: Fragment)
      modifies this
      ensures fragments == old(fragments) + [f]
      ensures |old(sidxsByFrag)| < |fragments| ==> sidxsByFrag == old(sidxsByFrag) + [[]]
      ensures |old(sidxsByFrag)| >= |fragments| ==> sidxsByFrag == old(sidxsByFrag)
      ensures styp == old(styp) && sidx == old(sidx) && encOptimize == old(encOptimize)
      ensures LastFragment() == Some(f)
      ensures old(Valid()) ==> Valid() && |sidxsByFrag| == |fragments|
    {
      fragments := fragments + [f];
      if |sidxsByFrag| < |fragments| {
        sidxsByFrag := sidxsByFrag + [[]];
        FlattenSnoc(old(sidxsByFrag), []);
        assert old(sidxsByFrag) + [] == old(sidxsByFrag);
      }
    }

    /** LastFragment: the fragment added last, or None (Go's nil) when there is none. */
    function LastFragment(): (r: Option<Fragment>)
      reads this
      ensures r.None? <==> fragments == []
      ensures r.Some? ==> fragments == fragments[..|fragments| - 1] + [r.value]
    {
      if |fragments| == 0 then None else Some(fragments[|fragments| - 1])
    }

    /**
     * Size: the styp box, and for every fragment its sidx boxes and its own
     * size, added up in uint64.  Sidx boxes after the last fragment are not
     * counted.
     */
    method Size() returns (size: uint64)
      requires |sidxsByFrag| >= |fragments|
      ensures size as int == SegmentSize(styp, sidxsByFrag, fragments) % TWO_TO_64
    {
      size := 0;
      if styp.Some? {
        size := AddU64(size, styp.value.size);
      }
      var i := 0;
      while i < |fragments|
        invariant 0 <= i <= |fragments|
        invariant size as int == SegmentSize(styp, sidxsByFrag, fragments[..i]) % TWO_TO_64
      {
        var bucket := sidxsByFrag[i];
        ghost var before := SegmentSize(styp, sidxsByFrag, fragments[..i]);
        var j := 0;
        while j < |bucket|
          invariant 0 <= j <= |bucket|
          invariant size as int == (before + SumSizes(bucket[..j])) % TWO_TO_64
        {
          AddU64Box(size, before + SumSizes(bucket[..j]), bucket[j].size);
          SumSizesPrefix(bucket, j);
          size := AddU64(size, bucket[j].size);
          j := j + 1;
        }
        assert bucket[..j] == bucket;
        var fsize := (FragmentSize(fragments[i]) % TWO_TO_64) as uint64;
        AddU64Step(size, before + SumSizes(bucket), FragmentSize(fragments[i]));
        size := AddU64(size, fsize);
        SizeStep(styp, sidxsByFrag, fragments, i);
        i := i + 1;
      }
      assert fragments[..i] == fragments;
    }

    /**
     * Encode and EncodeSW: the styp box, then for every fragment its sidx
     * boxes and the fragment, each fragment stamped with the segment's
     * encOptimize just before it is written; the first error stops
     * everything.  written is what reached the writer.
     */
    method Encode(fails: Box -> bool) returns (written: seq<Box>, err: Option<Error>)
      requires |sidxsByFrag| >= |fragments|
      modifies this
      ensures styp == old(styp) && sidx == old(sidx) && sidxsByFrag == old(sidxsByFrag)
      ensures encOptimize == old(encOptimize) && |fragments| == |old(fragments)|
      ensures var order := Order(styp, sidxsByFrag, old(fragments)); var k := FirstFailure(order, fails);
        && written == order[..k]
        && (k == |order| ==> err == None)
        && (k < |order| ==> err == Some(EncodeFailed(order[k])))
      ensures var k := FirstFailure(Order(styp, sidxsByFrag, old(fragments)), fails);
        forall j :: 0 <= j < |fragments| ==>
          fragments[j] == if FragStart(styp, sidxsByFrag, old(fragments), j) <= k
                          then old(fragments)[j].(encOptimize := encOptimize)
                          else old(fragments)[j]
    {
      var stamped;
      written, err, stamped := WriteSegment(styp, sidxsByFrag, fragments, encOptimize, fails);
      fragments := stamped;
    }

    /**
     * CommonSampleDuration: the common sample duration of the fragments,
     * as fragmentDur (Fragment.CommonSampleDuration) resolves it for each
     * of them with the trex defaults.  All fragments must agree; the first
     * one that errs or disagrees decides the error; no fragments give 0.
     */
    method CommonSampleDuration(trex: Option<Trex>, fragmentDur: (Fragment, Trex) -> Option<uint32>)
      returns (r: Result<uint32>)
      ensures trex.None? ==> r == Err(TrexNotSet)
      ensures trex.Some? && fragments == [] ==> r == Ok(0)
      ensures trex.Some? && fragments != [] ==>
        var d0 := fragmentDur(fragments[0], trex.value);
        (r.Ok? <==> d0.Some? && forall i :: 0 <= i < |fragments| ==> fragmentDur(fragments[i], trex.value) == d0)
        && (r.Ok? ==> r.value == d0.value)
      ensures trex.Some? && r.Err? ==>
        var d0 := fragmentDur(fragments[0], trex.value);
        exists k :: 0 <= k < |fragments|
          && (forall i :: 0 <= i < k ==> fragmentDur(fragments[i], trex.value) == d0 && d0.Some?)
          && (fragmentDur(fragments[k], trex.value).None? ==> r == Err(FragmentDurationFailed))
          && (fragmentDur(fragments[k], trex.value).Some? ==>
                k > 0 && fragmentDur(fragments[k], trex.value) != d0 && r == Err(DifferentDuration(k + 1)))
    {
      if trex.None? {
        return Err(TrexNotSet);
      }
      var t := trex.value;
      var commonDur: uint32 := 0;
      var i := 0;
      while i < |fragments|
        invariant 0 <= i <= |fragments|
        invariant i == 0 ==> commonDur == 0
        invariant i > 0 ==> fragmentDur(fragments[0], t) == Some(commonDur)
        invariant forall m :: 0 <= m < i ==> fragmentDur(fragments[m], t) == Some(commonDur)
      {
        var cDur := fragmentDur(fragments[i], t);
        if cDur.None? {
          return Err(FragmentDurationFailed);
        }
        if i == 0 {
          commonDur := cDur.value;
        } else if commonDur != cDur.value {
          return Err(DifferentDuration(i + 1));
        }
        i := i + 1;
      }
      return Ok(commonDur);
    }

    /**
     * Fragmentify: the segment's samples cut into new fragments of at
     * least the target duration each, as Refragment.Fragmentify defines.
     */
    method Fragmentify(trex: Option<Trex>, duration: uint32, c: Collaborators)
      returns (r: Result<seq<Fragment>>)
      ensures r == Refragment.Fragmentify(fragments, trex, duration, c)
      ensures r.Ok? ==> AllSamples(r.value) == AllSamples(fragments)
      ensures r.Ok? ==> forall k :: 0 <= k < |r.value| ==> r.value[k].samples != []
    {
      var inFragments := fragments;
      var out: seq<Fragment> := [];
      var cumDur: uint32 := 0;
      var i := 0;
      while i < |inFragments|
        invariant 0 <= i <= |inFragments|
        invariant Run(inFragments[..i], trex, duration, c) == Ok(Acc(out, cumDur))
      {
        var inFrag := inFragments[i];
        RunNext(inFragments, i, trex, duration, c);
        if c.extractFails(inFrag, trex) {
          FragmentifyFails(inFragments, i + 1, trex, duration, c);
          return Err(ExtractFailed);
        }
        var res := CutSamples(inFrag, out, cumDur, duration, c);
        if res.Err? {
          FragmentifyFails(inFragments, i + 1, trex, duration, c);
          return Err(res.error);
        }
        out, cumDur := res.value.out, res.value.cumDur;
        i := i + 1;
      }
      FragmentifyDone(inFragments, trex, duration, c, Acc(out, cumDur));
      r := Ok(out);
      FragmentifyConservesSamples(fragments, trex, duration, c);
      FragmentifyLowerBound(fragments, trex, duration, c);
    }

    /**
     * FirstBox: the styp box, else the first sidx box of bucket 0, else the
     * first child of fragment 0, else the error "no boxes in segment".
     */
    function FirstBox(): (r: Result<Box>)
      reads this
      ensures r.Err? ==> r.error == NoBoxes
      ensures r.Err? <==>
        && styp.None?
        && (|sidxsByFrag| == 0 || sidxsByFrag[0] == [])
        && (|fragments| == 0 || fragments[0].children == [])
    {
      if styp.Some? then Ok(styp.value)
      else if |sidxsByFrag| > 0 && |sidxsByFrag[0]| > 0 then Ok(sidxsByFrag[0][0])
      else if |fragments| > 0 && |fragments[0].children| > 0 then Ok(fragments[0].children[0])
      else Err(NoBoxes)
    }
  }

  /**
   * When the segment has a styp box or a fragment, the box FirstBox finds
   * is the first one Encode writes.
   */
  lemma FirstBoxIsFirstWritten(s: MediaSegment)
    requires |s.sidxsByFrag| >= |s.fragments|
    requires s.styp.Some? || s.fragments != []
    requires s.FirstBox().Ok?
    ensures Order(s.styp, s.sidxsByFrag, s.fragments) != []
    ensures s.FirstBox().value == Order(s.styp, s.sidxsByFrag, s.fragments)[0]
  {
    if s.styp.None? {
      FragmentInOrder(s.styp, s.sidxsByFrag, s.fragments, 0);
      assert s.fragments[..0] == [];
    }
  }

  /**
   * With no styp box and sidx boxes before the first fragment, the first
   * box is the segment's first sidx box.
   */
  lemma FirstBoxIsSegmentSidx(s: MediaSegment)
    requires s.Valid() && s.styp.None?
    requires s.sidxsByFrag != [] && s.sidxsByFrag[0] != []
    ensures s.sidx.Some? && s.FirstBox() == Ok(s.sidx.value)
  {
    FlattenStartsWithFirstBucket(s.sidxsByFrag);
  }
}

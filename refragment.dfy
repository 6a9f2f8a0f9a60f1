/**
 * Re-fragmentation of a media segment (Fragmentify in mp4/mediasegment.go).
 *
 * One duration accumulator runs over the full samples of all input
 * fragments in order.  Whenever it is 0 a new output fragment is opened
 * with the sequence number and track id of the input fragment being
 * consumed; every sample is added to the open output fragment, its
 * duration is added to the accumulator with uint32 wrap-around, and the
 * accumulator goes back to 0 once it reaches the target duration.
 */
module Refragment {
  import opened Types

  /**
   * The collaborators Fragmentify calls, reduced to whether they fail.
   * On success GetFullSamples yields the fragment's samples, CreateFragment
   * an empty fragment with the given sequence number and track id, and
   * AddFullSampleToTrack appends the sample to the fragment.
   */
  datatype Collaborators = Collaborators(
    extractFails: (Fragment, Option<Trex>) -> bool,  // inFrag.GetFullSamples(trex) errs
    createFails: (uint32, uint32) -> bool,           // CreateFragment(seqNum, trackID) errs
    addFails: (Fragment, Sample, uint32) -> bool)    // of.AddFullSampleToTrack(s, trackID) errs

  /** Loop state: the output fragments so far, the last one open, and cumDur. */
  datatype Acc = Acc(out: seq<Fragment>, cumDur: uint32)

  /** The fragment CreateFragment returns. */
  function NewFragment(seqNum: uint32, trackId: uint32): Fragment
  {
    Fragment(seqNum, trackId, [], [], OptimizeNone)
  }

  /** The fragment after AddFullSampleToTrack. */
  function AddSample(f: Fragment, s: Sample): Fragment
  {
    f.(samples := f.samples + [s])
  }

  /** cumDur after a sample of duration d: added modulo 2^32, reset once it reaches the target. */
  function Advance(cumDur: uint32, d: uint32, duration: uint32): uint32
  {
    var c := AddU32(cumDur, d);
    if c >= duration then 0 else c
  }

  /** One pass of the inner loop body, for sample s of the input fragment (seqNum, trackId). */
  function Step(st: Acc, seqNum: uint32, trackId: uint32, s: Sample, duration: uint32, c: Collaborators): (r: Result<Acc>)
    requires st.cumDur != 0 ==> st.out != []
    ensures r.Ok? ==> r.value.out != []
  {
    if st.cumDur == 0 && c.createFails(seqNum, trackId) then Err(CreateFailed)
    else
      var out := if st.cumDur == 0 then st.out + [NewFragment(seqNum, trackId)] else st.out;
      var last := out[|out| - 1];
      if c.addFails(last, s, trackId) then Err(AddFailed)
      else Ok(Acc(out[|out| - 1 := AddSample(last, s)], Advance(st.cumDur, s.dur, duration)))
  }

  /** The inner loop over the samples ss of input fragment f. */
  function RunSamples(st: Acc, f: Fragment, ss: seq<Sample>, duration: uint32, c: Collaborators): (r: Result<Acc>)
    requires st.cumDur != 0 ==> st.out != []
    ensures r.Ok? ==> (r.value.cumDur != 0 ==> r.value.out != [])
  {
    if ss == [] then Ok(st)
    else
      match RunSamples(st, f, ss[..|ss| - 1], duration, c)
      case Err(e) => Err(e)
      case Ok(mid) => Step(mid, f.seqNum, f.trackId, ss[|ss| - 1], duration, c)
  }

  /** The outer loop over the input fragments. */
  function Run(frags: seq<Fragment>, trex: Option<Trex>, duration: uint32, c: Collaborators): (r: Result<Acc>)
    ensures r.Ok? ==> (r.value.cumDur != 0 ==> r.value.out != [])
  {
    if frags == [] then Ok(Acc([], 0))
    else
      match Run(frags[..|frags| - 1], trex, duration, c)
      case Err(e) => Err(e)
      case Ok(st) =>
        var f := frags[|frags| - 1];
        if c.extractFails(f, trex) then Err(ExtractFailed)
        else RunSamples(st, f, f.samples, duration, c)
  }

  /** The result of Fragmentify: the output fragments, or the first error. */
  function Fragmentify(frags: seq<Fragment>, trex: Option<Trex>, duration: uint32, c: Collaborators): Result<seq<Fragment>>
  {
    match Run(frags, trex, duration, c)
    case Err(e) => Err(e)
    case Ok(st) => Ok(st.out)
  }

  // ---------------------------------------------------------------------
  // Reference view: the input as one stream of samples, each tagged with
  // the sequence number and track id of the fragment it comes from.

  datatype Tagged = Tagged(seqNum: uint32, trackId: uint32, sample: Sample)

  /** The samples of one input fragment, tagged with its sequence number and track id. */
  function TagAll(seqNum: uint32, trackId: uint32, ss: seq<Sample>): (r: seq<Tagged>)
    ensures Untag(r) == ss
    ensures forall i :: 0 <= i < |r| ==> r[i].seqNum == seqNum && r[i].trackId == trackId
  {
    var r := seq(|ss|, i requires 0 <= i < |ss| => Tagged(seqNum, trackId, ss[i]));
    assert Untag(r) == ss;
    r
  }

  /** All input samples in stream order, tagged with their fragment's header. */
  function Flat(frags: seq<Fragment>): seq<Tagged>
  {
    if frags == [] then []
    else
      var f := frags[|frags| - 1];
      Flat(frags[..|frags| - 1]) + TagAll(f.seqNum, f.trackId, f.samples)
  }

  /** The samples of a tagged stream, without their tags. */
  function Untag(p: seq<Tagged>): seq<Sample>
  {
    seq(|p|, i requires 0 <= i < |p| => p[i].sample)
  }

  /** cumDur after the samples of p, computed on its own. */
  function AccAfter(p: seq<Tagged>, duration: uint32): uint32
  {
    if p == [] then 0 else Advance(AccAfter(p[..|p| - 1], duration), p[|p| - 1].sample.dur, duration)
  }

  /** cumDur before the sample at position x of p. */
  function AccAt(p: seq<Tagged>, x: nat, duration: uint32): uint32
    requires x <= |p|
  {
    AccAfter(p[..x], duration)
  }

  /** Position in the sample stream of the first sample of output fragment k. */
  function Start(out: seq<Fragment>, k: nat): nat
    requires k <= |out|
  {
    |AllSamples(out[..k])|
  }

  /**
   * An output fragment that has been closed: it reached the target
   * duration, or it is one sample of duration 0 (after which cumDur is
   * still 0, so the next sample opens a new fragment).
   */
  ghost predicate Complete(f: Fragment, duration: uint32)
  {
    SumDur(f.samples) >= duration as int || (|f.samples| == 1 && f.samples[0].dur == 0)
  }

  /** The open (last) output fragment is complete when cumDur is 0, else cumDur is its duration modulo 2^32. */
  ghost predicate LastOpen(st: Acc, duration: uint32)
  {
    st.out != [] ==>
      var last := st.out[|st.out| - 1];
      (st.cumDur == 0 ==> Complete(last, duration)) &&
      (st.cumDur != 0 ==> st.cumDur as int == SumDur(last.samples) % TWO_TO_32)
  }

  /** Every output fragment carries the header of the input fragment of its first sample. */
  ghost predicate Heads(out: seq<Fragment>, p: seq<Tagged>)
  {
    forall k :: 0 <= k < |out| ==>
      Start(out, k) < |p| && p[Start(out, k)].seqNum == out[k].seqNum && p[Start(out, k)].trackId == out[k].trackId
  }

  /** Output fragments begin exactly where cumDur is 0. */
  ghost predicate Boundaries(out: seq<Fragment>, p: seq<Tagged>, duration: uint32)
  {
    forall k :: 0 <= k < |out| ==> BoundaryAt(out, p, k, duration)
  }

  /** Output fragment k lies within p, cumDur is 0 at its first sample and at none of its others. */
  ghost predicate BoundaryAt(out: seq<Fragment>, p: seq<Tagged>, k: nat, duration: uint32)
    requires k < |out|
  {
    && Start(out, k) + |out[k].samples| <= |p|
    && AccAt(p, Start(out, k), duration) == 0
    && forall x :: Start(out, k) < x < Start(out, k) + |out[k].samples| ==> AccAt(p, x, duration) != 0
  }

  /** What holds of the loop state after the samples p have been consumed. */
  ghost predicate Inv(st: Acc, p: seq<Tagged>, duration: uint32)
  {
    && AllSamples(st.out) == Untag(p)
    && (st.out == [] <==> p == [])
    && st.cumDur == AccAfter(p, duration)
    && (forall k :: 0 <= k < |st.out| ==> st.out[k].samples != [])
    && (forall k :: 0 <= k < |st.out| - 1 ==> Complete(st.out[k], duration))
    && LastOpen(st, duration)
    && Heads(st.out, p)
    && Boundaries(st.out, p, duration)
  }

  // ---------------------------------------------------------------------
  // Helper facts about the sequences involved.

  lemma {:induction false} AllSamplesPrefix(out: seq<Fragment>, k: nat)
    requires k <= |out|
    ensures AllSamples(out[..k]) <= AllSamples(out)
    decreases |out| - k
  {
    if k < |out| {
      AllSamplesPrefix(out, k + 1);
      assert out[..k + 1][..k] == out[..k];
    } else {
      assert out[..k] == out;
    }
  }

  lemma StartNext(out: seq<Fragment>, k: nat)
    requires k < |out|
    ensures Start(out, k) + |out[k].samples| == Start(out, k + 1) <= |AllSamples(out)|
  {
    assert out[..k + 1][..k] == out[..k];
    AllSamplesPrefix(out, k + 1);
  }

  lemma SumDurSnoc(ss: seq<Sample>, s: Sample)
    ensures SumDur(ss + [s]) == SumDur(ss) + s.dur as int
  {
    assert (ss + [s])[..|ss|] == ss;
  }

  lemma ModSum(cum: uint32, t: nat, d: uint32)
    requires cum as int == t % TWO_TO_32
    ensures AddU32(cum, d) as int == (t + d as int) % TWO_TO_32
  {
    var q := t / TWO_TO_32;
    assert t == q * TWO_TO_32 + cum as int;
    assert t + d as int == q * TWO_TO_32 + (cum as int + d as int);
  }

  lemma AccAfterSnoc(p: seq<Tagged>, t: Tagged, duration: uint32)
    ensures AccAfter(p + [t], duration) == Advance(AccAfter(p, duration), t.sample.dur, duration)
  {
    assert (p + [t])[..|p|] == p;
  }

  lemma AccAtPrefix(p: seq<Tagged>, t: Tagged, x: nat, duration: uint32)
    requires x <= |p|
    ensures AccAt(p + [t], x, duration) == AccAt(p, x, duration)
  {
    assert (p + [t])[..x] == p[..x];
  }

  lemma AccAtEnd(p: seq<Tagged>, duration: uint32)
    ensures AccAt(p, |p|, duration) == AccAfter(p, duration)
  {
    assert p[..|p|] == p;
  }

  lemma TagAllSnoc(seqNum: uint32, trackId: uint32, ss: seq<Sample>, p: seq<Tagged>)
    requires ss != []
    ensures p + TagAll(seqNum, trackId, ss)
         == (p + TagAll(seqNum, trackId, ss[..|ss| - 1])) + [Tagged(seqNum, trackId, ss[|ss| - 1])]
  {
    var n := |ss| - 1;
    assert TagAll(seqNum, trackId, ss) == TagAll(seqNum, trackId, ss[..n]) + [Tagged(seqNum, trackId, ss[n])];
  }

  lemma UntagSnoc(p: seq<Tagged>, t: Tagged)
    ensures Untag(p + [t]) == Untag(p) + [t.sample]
  {
  }

  // ---------------------------------------------------------------------
  // The invariant is kept by each step.

  /** Opening a fragment for t keeps the headers of the fragments before it and gives it t's header. */
  lemma OpenHeads(out: seq<Fragment>, p: seq<Tagged>, t: Tagged)
    requires Heads(out, p) && |AllSamples(out)| == |p|
    ensures Heads(out + [Fragment(t.seqNum, t.trackId, [t.sample], [], OptimizeNone)], p + [t])
  {
    var out' := out + [Fragment(t.seqNum, t.trackId, [t.sample], [], OptimizeNone)];
    forall k | 0 <= k < |out'|
      ensures Start(out', k) < |p + [t]| && (p + [t])[Start(out', k)].seqNum == out'[k].seqNum
      ensures (p + [t])[Start(out', k)].trackId == out'[k].trackId
    {
      assert out'[..k] == out[..k];
      if k == |out| {
        assert out[..k] == out;
      } else {
        assert Start(out', k) == Start(out, k);
      }
    }
  }

  /** Opening a fragment for t keeps the boundary facts of an earlier fragment k. */
  lemma OpenBoundaryBefore(out: seq<Fragment>, p: seq<Tagged>, t: Tagged, duration: uint32, k: nat)
    requires k < |out| && BoundaryAt(out, p, k, duration)
    ensures BoundaryAt(out + [Fragment(t.seqNum, t.trackId, [t.sample], [], OptimizeNone)], p + [t], k, duration)
  {
    var out' := out + [Fragment(t.seqNum, t.trackId, [t.sample], [], OptimizeNone)];
    assert out'[..k] == out[..k];
    assert out'[k] == out[k];
    AccAtPrefix(p, t, Start(out, k), duration);
    forall x | Start(out', k) < x < Start(out', k) + |out'[k].samples|
      ensures AccAt(p + [t], x, duration) != 0
    {
      AccAtPrefix(p, t, x, duration);
    }
  }

  /** Opening a fragment for t where cumDur is 0 keeps the boundaries. */
  lemma OpenBoundaries(out: seq<Fragment>, p: seq<Tagged>, t: Tagged, duration: uint32)
    requires Boundaries(out, p, duration) && |AllSamples(out)| == |p| && AccAfter(p, duration) == 0
    ensures Boundaries(out + [Fragment(t.seqNum, t.trackId, [t.sample], [], OptimizeNone)], p + [t], duration)
  {
    var out' := out + [Fragment(t.seqNum, t.trackId, [t.sample], [], OptimizeNone)];
    forall k | 0 <= k < |out'|
      ensures BoundaryAt(out', p + [t], k, duration)
    {
      if k < |out| {
        OpenBoundaryBefore(out, p, t, duration, k);
      } else {
        assert out'[..k] == out;
        AccAtPrefix(p, t, |p|, duration);
        AccAtEnd(p, duration);
      }
    }
  }

  /** What a step with cumDur == 0 returns when it succeeds. */
  lemma StepOpenValue(st: Acc, t: Tagged, duration: uint32, c: Collaborators)
    requires st.cumDur == 0
    requires Step(st, t.seqNum, t.trackId, t.sample, duration, c).Ok?
    ensures Step(st, t.seqNum, t.trackId, t.sample, duration, c).value
         == Acc(st.out + [Fragment(t.seqNum, t.trackId, [t.sample], [], OptimizeNone)], Advance(0, t.sample.dur, duration))
  {
    var f1 := Fragment(t.seqNum, t.trackId, [t.sample], [], OptimizeNone);
    assert AddSample(NewFragment(t.seqNum, t.trackId), t.sample) == f1 by {
      assert [] + [t.sample] == [t.sample];
    }
    assert (st.out + [NewFragment(t.seqNum, t.trackId)])[|st.out| := f1] == st.out + [f1];
  }

  /** After opening a fragment for t, every fragment but the new one is complete, and the new one is tracked. */
  lemma OpenClosed(out: seq<Fragment>, t: Tagged, duration: uint32)
    requires forall k :: 0 <= k < |out| ==> Complete(out[k], duration)
    ensures var out' := out + [Fragment(t.seqNum, t.trackId, [t.sample], [], OptimizeNone)];
      && (forall k :: 0 <= k < |out'| - 1 ==> Complete(out'[k], duration))
      && LastOpen(Acc(out', Advance(0, t.sample.dur, duration)), duration)
  {
    var out' := out + [Fragment(t.seqNum, t.trackId, [t.sample], [], OptimizeNone)];
    forall k | 0 <= k < |out'| - 1 ensures Complete(out'[k], duration) {
      assert out'[k] == out[k];
    }
    assert [t.sample][..0] == [];
    assert SumDur([t.sample]) == t.sample.dur as int;
  }

  lemma ClosedBeforeOpen(st: Acc, duration: uint32)
    requires LastOpen(st, duration) && st.cumDur == 0
    requires forall k :: 0 <= k < |st.out| - 1 ==> Complete(st.out[k], duration)
    ensures forall k :: 0 <= k < |st.out| ==> Complete(st.out[k], duration)
  {
  }

  /** A step with cumDur == 0 opens a new output fragment holding s. */
  lemma StepOpens(st: Acc, p: seq<Tagged>, t: Tagged, duration: uint32, c: Collaborators)
    requires Inv(st, p, duration) && st.cumDur == 0
    requires Step(st, t.seqNum, t.trackId, t.sample, duration, c).Ok?
    ensures Inv(Step(st, t.seqNum, t.trackId, t.sample, duration, c).value, p + [t], duration)
  {
    StepOpenValue(st, t, duration, c);
    var f1 := Fragment(t.seqNum, t.trackId, [t.sample], [], OptimizeNone);
    assert AllSamples(st.out + [f1]) == AllSamples(st.out) + [t.sample] by {
      assert (st.out + [f1])[..|st.out|] == st.out;
    }
    UntagSnoc(p, t);
    AccAfterSnoc(p, t, duration);
    ClosedBeforeOpen(st, duration);
    OpenClosed(st.out, t, duration);
    OpenHeads(st.out, p, t);
    OpenBoundaries(st.out, p, t, duration);
  }

  /** Adding s to the last output fragment adds s at the end of the sample stream. */
  lemma ExtendAllSamples(out: seq<Fragment>, s: Sample)
    requires out != []
    ensures AllSamples(out[|out| - 1 := AddSample(out[|out| - 1], s)]) == AllSamples(out) + [s]
  {
    var n := |out|;
    var out' := out[n - 1 := AddSample(out[n - 1], s)];
    assert out'[..n - 1] == out[..n - 1];
  }

  /** Adding s to the last output fragment moves no fragment's start. */
  lemma ExtendStart(out: seq<Fragment>, s: Sample, k: nat)
    requires k < |out|
    ensures Start(out[|out| - 1 := AddSample(out[|out| - 1], s)], k) == Start(out, k)
  {
    var n := |out|;
    var out' := out[n - 1 := AddSample(out[n - 1], s)];
    assert out'[..k] == out[..k];
  }

  /** The open fragment's bookkeeping after s is added to it while cumDur != 0. */
  lemma ExtendLast(cum: uint32, last: Fragment, s: Sample, duration: uint32)
    requires cum != 0 && cum as int == SumDur(last.samples) % TWO_TO_32
    ensures var c' := Advance(cum, s.dur, duration); var last' := AddSample(last, s);
      (c' == 0 ==> Complete(last', duration)) &&
      (c' != 0 ==> c' as int == SumDur(last'.samples) % TWO_TO_32)
  {
    SumDurSnoc(last.samples, s);
    ModSum(cum, SumDur(last.samples), s.dur);
  }

  /** Adding t's sample to the last fragment keeps every header. */
  lemma ExtendHeads(out: seq<Fragment>, p: seq<Tagged>, t: Tagged)
    requires out != [] && Heads(out, p)
    ensures Heads(out[|out| - 1 := AddSample(out[|out| - 1], t.sample)], p + [t])
  {
    var out' := out[|out| - 1 := AddSample(out[|out| - 1], t.sample)];
    forall k | 0 <= k < |out'|
      ensures Start(out', k) < |p + [t]| && (p + [t])[Start(out', k)].seqNum == out'[k].seqNum
      ensures (p + [t])[Start(out', k)].trackId == out'[k].trackId
    {
      ExtendStart(out, t.sample, k);
    }
  }

  /** Adding t's sample to the last fragment keeps the boundary facts of an earlier fragment k. */
  lemma ExtendBoundaryBefore(out: seq<Fragment>, p: seq<Tagged>, t: Tagged, duration: uint32, k: nat)
    requires k < |out| - 1 && BoundaryAt(out, p, k, duration)
    ensures BoundaryAt(out[|out| - 1 := AddSample(out[|out| - 1], t.sample)], p + [t], k, duration)
  {
    var out' := out[|out| - 1 := AddSample(out[|out| - 1], t.sample)];
    assert out'[k] == out[k];
    ExtendStart(out, t.sample, k);
    AccAtPrefix(p, t, Start(out, k), duration);
    forall x | Start(out', k) < x < Start(out', k) + |out'[k].samples|
      ensures AccAt(p + [t], x, duration) != 0
    {
      AccAtPrefix(p, t, x, duration);
    }
  }

  /** Adding t's sample to the last fragment while cumDur != 0 keeps its boundary facts. */
  lemma ExtendBoundaryLast(out: seq<Fragment>, p: seq<Tagged>, t: Tagged, duration: uint32)
    requires out != [] && |AllSamples(out)| == |p| && AccAfter(p, duration) != 0
    requires BoundaryAt(out, p, |out| - 1, duration)
    ensures BoundaryAt(out[|out| - 1 := AddSample(out[|out| - 1], t.sample)], p + [t], |out| - 1, duration)
  {
    var n := |out|;
    var out' := out[n - 1 := AddSample(out[n - 1], t.sample)];
    var s0 := Start(out, n - 1);
    ExtendStart(out, t.sample, n - 1);
    StartNext(out, n - 1);
    assert out[..n] == out;
    assert s0 + |out[n - 1].samples| == |p|;
    assert |out'[n - 1].samples| == |out[n - 1].samples| + 1;
    AccAtPrefix(p, t, s0, duration);
    forall x | s0 < x < s0 + |out'[n - 1].samples|
      ensures AccAt(p + [t], x, duration) != 0
    {
      AccAtPrefix(p, t, x, duration);
      if x == |p| {
        AccAtEnd(p, duration);
      }
    }
  }

  /** Adding t's sample to the last fragment while cumDur != 0 keeps the boundaries. */
  lemma ExtendBoundaries(out: seq<Fragment>, p: seq<Tagged>, t: Tagged, duration: uint32)
    requires out != [] && Boundaries(out, p, duration) && |AllSamples(out)| == |p|
    requires AccAfter(p, duration) != 0
    ensures Boundaries(out[|out| - 1 := AddSample(out[|out| - 1], t.sample)], p + [t], duration)
  {
    var n := |out|;
    var out' := out[n - 1 := AddSample(out[n - 1], t.sample)];
    forall k | 0 <= k < |out'|
      ensures BoundaryAt(out', p + [t], k, duration)
    {
      if k < n - 1 {
        ExtendBoundaryBefore(out, p, t, duration, k);
      } else {
        ExtendBoundaryLast(out, p, t, duration);
      }
    }
  }

  /** What a step with cumDur != 0 returns when it succeeds. */
  lemma StepExtendValue(st: Acc, t: Tagged, duration: uint32, c: Collaborators)
    requires st.cumDur != 0 && st.out != []
    requires Step(st, t.seqNum, t.trackId, t.sample, duration, c).Ok?
    ensures Step(st, t.seqNum, t.trackId, t.sample, duration, c).value
         == Acc(st.out[|st.out| - 1 := AddSample(st.out[|st.out| - 1], t.sample)], Advance(st.cumDur, t.sample.dur, duration))
  {
  }

  lemma ExtendClosed(out: seq<Fragment>, s: Sample, duration: uint32)
    requires out != []
    requires forall k :: 0 <= k < |out| - 1 ==> Complete(out[k], duration)
    ensures var out' := out[|out| - 1 := AddSample(out[|out| - 1], s)];
      forall k :: 0 <= k < |out'| - 1 ==> Complete(out'[k], duration)
  {
    var out' := out[|out| - 1 := AddSample(out[|out| - 1], s)];
    forall k | 0 <= k < |out'| - 1 ensures Complete(out'[k], duration) {
      assert out'[k] == out[k];
    }
  }

  /** A step with cumDur != 0 adds s to the open output fragment. */
  lemma StepExtends(st: Acc, p: seq<Tagged>, t: Tagged, duration: uint32, c: Collaborators)
    requires Inv(st, p, duration) && st.cumDur != 0
    requires Step(st, t.seqNum, t.trackId, t.sample, duration, c).Ok?
    ensures Inv(Step(st, t.seqNum, t.trackId, t.sample, duration, c).value, p + [t], duration)
  {
    StepExtendValue(st, t, duration, c);
    var last := st.out[|st.out| - 1];
    UntagSnoc(p, t);
    ExtendAllSamples(st.out, t.sample);
    AccAfterSnoc(p, t, duration);
    ExtendLast(st.cumDur, last, t.sample, duration);
    ExtendClosed(st.out, t.sample, duration);
    ExtendHeads(st.out, p, t);
    ExtendBoundaries(st.out, p, t, duration);
  }

  lemma StepInv(st: Acc, p: seq<Tagged>, t: Tagged, duration: uint32, c: Collaborators)
    requires Inv(st, p, duration)
    requires Step(st, t.seqNum, t.trackId, t.sample, duration, c).Ok?
    ensures Inv(Step(st, t.seqNum, t.trackId, t.sample, duration, c).value, p + [t], duration)
  {
    if st.cumDur == 0 {
      StepOpens(st, p, t, duration, c);
    } else {
      StepExtends(st, p, t, duration, c);
    }
  }

  lemma {:induction false} RunSamplesInv(st: Acc, f: Fragment, ss: seq<Sample>, p: seq<Tagged>, duration: uint32, c: Collaborators)
    requires Inv(st, p, duration)
    requires RunSamples(st, f, ss, duration, c).Ok?
    ensures Inv(RunSamples(st, f, ss, duration, c).value, p + TagAll(f.seqNum, f.trackId, ss), duration)
    decreases |ss|
  {
    if ss == [] {
      assert p + TagAll(f.seqNum, f.trackId, ss) == p;
    } else {
      var n := |ss| - 1;
      RunSamplesInv(st, f, ss[..n], p, duration, c);
      var mid := RunSamples(st, f, ss[..n], duration, c).value;
      var t := Tagged(f.seqNum, f.trackId, ss[n]);
      StepInv(mid, p + TagAll(f.seqNum, f.trackId, ss[..n]), t, duration, c);
      TagAllSnoc(f.seqNum, f.trackId, ss, p);
    }
  }

  lemma {:induction false} RunInv(frags: seq<Fragment>, trex: Option<Trex>, duration: uint32, c: Collaborators)
    requires Run(frags, trex, duration, c).Ok?
    ensures Inv(Run(frags, trex, duration, c).value, Flat(frags), duration)
    decreases |frags|
  {
    if frags != [] {
      var n := |frags| - 1;
      RunInv(frags[..n], trex, duration, c);
      var st := Run(frags[..n], trex, duration, c).value;
      RunSamplesInv(st, frags[n], frags[n].samples, Flat(frags[..n]), duration, c);
    }
  }

  lemma {:induction false} UntagFlat(frags: seq<Fragment>)
    ensures Untag(Flat(frags)) == AllSamples(frags)
    decreases |frags|
  {
    if frags != [] {
      var n := |frags| - 1;
      UntagFlat(frags[..n]);
      var f := frags[n];
      assert Untag(Flat(frags)) == Untag(Flat(frags[..n])) + f.samples;
    }
  }

  /** With target 0 the accumulator is reset after every sample. */
  lemma AccAtZeroTarget(p: seq<Tagged>, x: nat)
    requires x <= |p|
    ensures AccAt(p, x, 0) == 0
  {
  }

  // ---------------------------------------------------------------------
  // What Fragmentify promises.

  /** The output fragments hold all input samples, in the same order. */
  lemma FragmentifyConservesSamples(frags: seq<Fragment>, trex: Option<Trex>, duration: uint32, c: Collaborators)
    requires Fragmentify(frags, trex, duration, c).Ok?
    ensures AllSamples(Fragmentify(frags, trex, duration, c).value) == AllSamples(frags)
  {
    RunInv(frags, trex, duration, c);
    UntagFlat(frags);
  }

  /**
   * Every output fragment is non-empty, and every one but the last reaches
   * the target duration or is a single sample of duration 0.  No bound on
   * the durations is needed: when cumDur wraps round, the true total is
   * already at least 2^32.
   */
  lemma FragmentifyLowerBound(frags: seq<Fragment>, trex: Option<Trex>, duration: uint32, c: Collaborators)
    requires Fragmentify(frags, trex, duration, c).Ok?
    ensures var out := Fragmentify(frags, trex, duration, c).value;
      forall k :: 0 <= k < |out| ==>
        && out[k].samples != []
        && (k < |out| - 1 ==> SumDur(out[k].samples) >= duration as int || (|out[k].samples| == 1 && out[k].samples[0].dur == 0))
  {
    RunInv(frags, trex, duration, c);
  }

  /**
   * An output fragment starts exactly at the samples before which cumDur
   * is 0, and takes the sequence number and track id of the input fragment
   * its first sample comes from.
   */
  lemma FragmentifyBoundaries(frags: seq<Fragment>, trex: Option<Trex>, duration: uint32, c: Collaborators)
    requires Fragmentify(frags, trex, duration, c).Ok?
    ensures var out := Fragmentify(frags, trex, duration, c).value; var p := Flat(frags);
      forall k :: 0 <= k < |out| ==>
        && Start(out, k) < |p|
        && p[Start(out, k)].seqNum == out[k].seqNum
        && p[Start(out, k)].trackId == out[k].trackId
        && AccAt(p, Start(out, k), duration) == 0
        && Start(out, k) + |out[k].samples| <= |p|
        && forall x :: Start(out, k) < x < Start(out, k) + |out[k].samples| ==> AccAt(p, x, duration) != 0
  {
    var st := Run(frags, trex, duration, c).value;
    var p := Flat(frags);
    RunInv(frags, trex, duration, c);
    assert Heads(st.out, p) && Boundaries(st.out, p, duration);
    forall k | 0 <= k < |st.out|
      ensures Start(st.out, k) < |p| && p[Start(st.out, k)].seqNum == st.out[k].seqNum
      ensures p[Start(st.out, k)].trackId == st.out[k].trackId
      ensures BoundaryAt(st.out, p, k, duration)
    {
    }
  }

  /** With target duration 0 every sample gets a fragment of its own. */
  lemma FragmentifyZeroTarget(frags: seq<Fragment>, trex: Option<Trex>, c: Collaborators)
    requires Fragmentify(frags, trex, 0, c).Ok?
    ensures var out := Fragmentify(frags, trex, 0, c).value;
      |out| == |AllSamples(frags)| && forall k :: 0 <= k < |out| ==> |out[k].samples| == 1
  {
    var out := Fragmentify(frags, trex, 0, c).value;
    var p := Flat(frags);
    RunInv(frags, trex, 0, c);
    UntagFlat(frags);
    forall k | 0 <= k < |out| ensures |out[k].samples| == 1 {
      var x := Start(out, k) + 1;
      assert BoundaryAt(out, p, k, 0);
      if |out[k].samples| > 1 {
        AccAtZeroTarget(p, x);
        assert false;
      }
    }
    OneSampleEach(out);
  }

  lemma {:induction false} OneSampleEach(out: seq<Fragment>)
    requires forall k :: 0 <= k < |out| ==> |out[k].samples| == 1
    ensures |AllSamples(out)| == |out|
    decreases |out|
  {
    if out != [] {
      OneSampleEach(out[..|out| - 1]);
    }
  }

  /** When no collaborator fails, Fragmentify succeeds. */
  ghost predicate NeverFails(c: Collaborators)
  {
    && (forall f, t :: !c.extractFails(f, t))
    && (forall seqNum, trackId :: !c.createFails(seqNum, trackId))
    && (forall f, s, trackId :: !c.addFails(f, s, trackId))
  }

  lemma {:induction false} RunSamplesSucceeds(st: Acc, f: Fragment, ss: seq<Sample>, duration: uint32, c: Collaborators)
    requires st.cumDur != 0 ==> st.out != []
    requires NeverFails(c)
    ensures RunSamples(st, f, ss, duration, c).Ok?
    decreases |ss|
  {
    if ss != [] {
      RunSamplesSucceeds(st, f, ss[..|ss| - 1], duration, c);
    }
  }

  lemma {:induction false} FragmentifySucceeds(frags: seq<Fragment>, trex: Option<Trex>, duration: uint32, c: Collaborators)
    requires NeverFails(c)
    ensures Fragmentify(frags, trex, duration, c).Ok?
    decreases |frags|
  {
    if frags != [] {
      var n := |frags| - 1;
      FragmentifySucceeds(frags[..n], trex, duration, c);
      var st := Run(frags[..n], trex, duration, c).value;
      RunSamplesSucceeds(st, frags[n], frags[n].samples, duration, c);
    }
  }

  // ---------------------------------------------------------------------
  // An error stops the loops: it is the result of the whole run.

  /** One more sample of ss: the step from the state after the first j samples. */
  lemma RunSamplesNext(st: Acc, f: Fragment, ss: seq<Sample>, j: nat, duration: uint32, c: Collaborators, mid: Acc)
    requires st.cumDur != 0 ==> st.out != []
    requires j < |ss| && RunSamples(st, f, ss[..j], duration, c) == Ok(mid)
    ensures mid.cumDur != 0 ==> mid.out != []
    ensures RunSamples(st, f, ss[..j + 1], duration, c) == Step(mid, f.seqNum, f.trackId, ss[j], duration, c)
  {
    assert ss[..j + 1][..j] == ss[..j];
  }

  lemma {:induction false} RunSamplesStops(st: Acc, f: Fragment, ss: seq<Sample>, j: nat, duration: uint32, c: Collaborators)
    requires st.cumDur != 0 ==> st.out != []
    requires j <= |ss| && RunSamples(st, f, ss[..j], duration, c).Err?
    ensures RunSamples(st, f, ss, duration, c) == RunSamples(st, f, ss[..j], duration, c)
    decreases |ss| - j
  {
    if j < |ss| {
      assert ss[..j + 1][..j] == ss[..j];
      RunSamplesStops(st, f, ss, j + 1, duration, c);
    } else {
      assert ss[..j] == ss;
    }
  }

  lemma {:induction false} RunStops(frags: seq<Fragment>, i: nat, trex: Option<Trex>, duration: uint32, c: Collaborators)
    requires i <= |frags| && Run(frags[..i], trex, duration, c).Err?
    ensures Run(frags, trex, duration, c) == Run(frags[..i], trex, duration, c)
    decreases |frags| - i
  {
    if i < |frags| {
      assert frags[..i + 1][..i] == frags[..i];
      RunStops(frags, i + 1, trex, duration, c);
    } else {
      assert frags[..i] == frags;
    }
  }

  /** One more input fragment: GetFullSamples, then the inner loop over its samples. */
  lemma RunNext(frags: seq<Fragment>, i: nat, trex: Option<Trex>, duration: uint32, c: Collaborators)
    requires i < |frags| && Run(frags[..i], trex, duration, c).Ok?
    ensures var st := Run(frags[..i], trex, duration, c).value;
      Run(frags[..i + 1], trex, duration, c)
      == if c.extractFails(frags[i], trex) then Err(ExtractFailed)
         else RunSamples(st, frags[i], frags[i].samples, duration, c)
  {
    assert frags[..i + 1][..i] == frags[..i];
  }

  /** An error after the first i input fragments is the result of Fragmentify. */
  lemma FragmentifyFails(frags: seq<Fragment>, i: nat, trex: Option<Trex>, duration: uint32, c: Collaborators)
    requires i <= |frags| && Run(frags[..i], trex, duration, c).Err?
    ensures Fragmentify(frags, trex, duration, c) == Err(Run(frags[..i], trex, duration, c).error)
  {
    RunStops(frags, i, trex, duration, c);
    assert frags[..|frags|] == frags;
  }

  /** After the last input fragment the output fragments are the result. */
  lemma FragmentifyDone(frags: seq<Fragment>, trex: Option<Trex>, duration: uint32, c: Collaborators, st: Acc)
    requires Run(frags[..|frags|], trex, duration, c) == Ok(st)
    ensures Fragmentify(frags, trex, duration, c) == Ok(st.out)
  {
    assert frags[..|frags|] == frags;
  }
}

# MediaSegment of mp4ff, modelled in Dafny

This project models the `MediaSegment` aggregator of the Go library mp4ff
(`mp4/mediasegment.go`). A media segment in the ISO Base Media File Format
(section 8.16 of ISO/IEC 14496-12) holds three things:

- an optional `styp` box;
- `sidx` boxes, grouped by the fragment they come before;
- an ordered list of `moof`+`mdat` fragments.

The model covers:

- the bookkeeping that keeps the sidx buckets in step with the fragments;
- the two traversals: `Size`, and `Encode`/`EncodeSW`;
- the re-fragmentation `Fragmentify`;
- the lookups `LastFragment`, `CommonSampleDuration` and `FirstBox`.

Files:

- `types.dfy` (module `Types`): fixed-width integers with Go's wrap-around, boxes, samples, fragments and the error cases.
- `traversal.dfy` (module `Traversal`): the box order a segment writes (`Order`), its size (`SegmentSize`), and where a writer that stops at the first error stops (`FirstFailure`, `FragStart`).
- `refragment.dfy` (module `Refragment`): `Fragmentify` as a function over values (`Run`, `RunSamples`, `Step`). It comes with an invariant proved over the stream of tagged input samples.
- `media_segment.dfy` (module `MediaSegments`): the `MediaSegment` class.
  - Its fields are `styp`, `sidx`, `sidxsByFrag`, `fragments` and `encOptimize`.
  - Its methods follow the Go code statement by statement and are proved against the functions above.

## Collaborators

A `Box` is an identity and a `uint64` size. A `Fragment` holds:

- its sequence number and track id;
- the full samples it yields;
- its child boxes;
- its encoding option.

Code outside `mp4/mediasegment.go` becomes parameters:

- **Encoding a box.** A predicate `fails: Box -> bool`. The writer becomes the sequence of boxes written.
- **A fragment.** It is encoded as its children in order, and its size is the sum of their sizes.
- **`GetFullSamples`, `CreateFragment` and `AddFullSampleToTrack`.** A `Collaborators` value says whether each call fails. On success they yield, respectively:
  - the fragment's samples;
  - an empty fragment with the given sequence number and track id;
  - the fragment with the sample appended.
- **`Fragment.CommonSampleDuration`.** A function to `Option<uint32>`.
- **`CreateStyp`.** Not modelled. The `NewMediaSegment` constructor takes the CMAF styp box it builds as a parameter.

What this abstraction cannot express:

- `fails` looks at the box only. A writer whose failure depends on how much it has already written cannot be expressed when the same box value appears twice. A full `SliceWriter` under `EncodeSW` is such a writer.
- A fragment's encoding and size do not depend on its `encOptimize`. So the stamp Go applies just before `f.Encode` (mp4/mediasegment.go:107, 131) is recorded in the new state, but it changes neither the boxes written nor `EncodedLengthIsSize`.
- `GetFullSamples(trex)` yields the fragment's `samples` whatever trex is passed. The trex only reaches the failure oracle `extractFails`.

## Model

| member | source | states |
|---|---|---|
| MediaSegments.MediaSegment.constructor | mp4/mediasegment.go:24-30 | NewMediaSegment: the CMAF styp box, no sidx, no buckets, no fragments, OptimizeNone; the bookkeeping invariant holds |
| MediaSegments.MediaSegment.WithStyp | mp4/mediasegment.go:33-39 | NewMediaSegmentWithStyp: the given (possibly absent) styp and otherwise empty; invariant holds |
| MediaSegments.MediaSegment.WithoutStyp | mp4/mediasegment.go:42-48 | NewMediaSegmentWithoutStyp: no styp and otherwise empty; invariant holds |
| MediaSegments.MediaSegment.AddSidx | mp4/mediasegment.go:51-59 | sidx is set only when absent, so it stays the first sidx ever added; the box is appended to bucket number \|fragments\|, which is created when missing; fragments, styp, encOptimize and every earlier bucket are unchanged; the invariant (\|fragments\| <= \|buckets\| <= \|fragments\|+1, sidx is the first of all sidx boxes) is preserved and the flattened sidx list grows by exactly the new box |
| MediaSegments.MediaSegment.AddFragment | mp4/mediasegment.go:62-67 | the fragment is appended; an empty bucket is added exactly when buckets were fewer than fragments, otherwise the buckets are unchanged; afterwards LastFragment returns the new fragment; the invariant is preserved with one bucket per fragment |
| MediaSegments.MediaSegment.LastFragment | mp4/mediasegment.go:70-75 | None exactly when there are no fragments; otherwise the fragment list is its prefix followed by the result |
| MediaSegments.MediaSegment.Size | mp4/mediasegment.go:78-90 | the uint64 accumulator equals, modulo 2^64, the styp size plus, for each fragment, the sizes of its bucket and the fragment's size |
| Traversal.EncodedLengthIsSize | mp4/mediasegment.go:78-114 | the sizes of the boxes Encode writes on success add up exactly to the size Size computes (before wrap-around) |
| Traversal.TrailingBucketIgnored | mp4/mediasegment.go:83-88 | a trailing bucket after the last fragment changes neither the box order nor the size |
| Traversal.BodyIgnoresLaterBuckets | mp4/mediasegment.go:83-88 | order and size read only the buckets of existing fragments |
| Traversal.EmptySegment | mp4/mediasegment.go:78-90 | a segment without styp and without fragments writes nothing and has size 0 |
| Traversal.FirstFailure | mp4/mediasegment.go:94-111 | the index where a writer stopping at the first error stops: every earlier box succeeds and the box there fails, or it is the length when none fails |
| MediaSegments.EncodeBoxes | mp4/mediasegment.go:101-106 | writing boxes in order up to the first failure: what is written is the prefix before it, and the failing box is reported exactly when there is one |
| MediaSegments.WriteFragment | mp4/mediasegment.go:101-111 | one fragment's turn: a failing sidx box leaves the fragment unstamped; otherwise the fragment is stamped, its boxes follow its bucket, and the first failing child (if any) is reported |
| MediaSegments.WriteSegment | mp4/mediasegment.go:93-114 | the written boxes are Order (styp, bucket 0, fragment 0, bucket 1, ...) up to the first failing box and nothing after; the error is that box, or none when all succeed; a fragment is stamped with encOptimize exactly when the writer reached its own boxes |
| MediaSegments.MediaSegment.Encode | mp4/mediasegment.go:93-138 | Encode and EncodeSW: writes Order up to the first failure and returns that failure; styp, sidx and buckets unchanged; each fragment whose boxes were reached carries the segment's encOptimize and the others are unchanged |
| MediaSegments.MediaSegment.Fragmentify | mp4/mediasegment.go:164-200 | the loop computes Refragment.Fragmentify; on success the output samples are the input samples in order, and every output fragment is non-empty |
| MediaSegments.CutSamples | mp4/mediasegment.go:178-197 | the inner loop over one input fragment's samples equals RunSamples, including its early error returns |
| MediaSegments.AddSampleStep | mp4/mediasegment.go:179-196 | one sample: open a fragment when cumDur is 0 (CreateFragment error stops), add the sample (AddFullSampleToTrack error stops), advance cumDur with uint32 wrap and reset it at the target |
| Refragment.FragmentifyConservesSamples | mp4/mediasegment.go:171-199 | concatenating the output fragments' samples gives all input samples, in the same order |
| Refragment.FragmentifyLowerBound | mp4/mediasegment.go:178-196 | every output fragment is non-empty, and every one but the last reaches the target duration or is one sample of duration 0; this holds without any no-overflow hypothesis |
| Refragment.FragmentifyBoundaries | mp4/mediasegment.go:179-186 | an output fragment starts exactly at the samples before which the accumulator is 0, is not interrupted while it is non-zero, and takes the sequence number and track id of the input fragment its first sample comes from |
| Refragment.FragmentifyZeroTarget | mp4/mediasegment.go:192-196 | with target 0 there is one output fragment per sample |
| Refragment.FragmentifySucceeds | mp4/mediasegment.go:171-199 | when no collaborator fails, Fragmentify succeeds |
| Refragment.FragmentifyFails | mp4/mediasegment.go:174-191 | an error while consuming an input fragment is the result of the whole call (no fragments are returned) |
| MediaSegments.MediaSegment.CommonSampleDuration | mp4/mediasegment.go:203-220 | no trex: error; no fragments: 0; otherwise success exactly when fragment 0 resolves and every fragment agrees with it, returning that value; on error, the first fragment that fails or disagrees decides it, a disagreement naming its 1-based number |
| MediaSegments.MediaSegment.FirstBox | mp4/mediasegment.go:223-236 | fails exactly when there is no styp, bucket 0 is missing or empty, and fragment 0 is missing or has no children; the error is "no boxes" |
| MediaSegments.FirstBoxIsFirstWritten | mp4/mediasegment.go:223-236 | with a styp box or a fragment, the box FirstBox returns is the first box Encode writes |
| MediaSegments.FirstBoxIsSegmentSidx | mp4/mediasegment.go:223-228 | without styp and with sidx boxes before the first fragment, FirstBox returns the segment's first sidx box |

## Left out

- `Info` (mp4/mediasegment.go:141-161) is left out. It formats the box tree as text and walks the same order as `Encode`, which is modelled.
- Byte serialisation of the styp, sidx and fragment boxes, and the `io.Writer` / `bits.SliceWriter` plumbing, are left out.
  - `Encode` models `EncodeSW` as well, because both make the same traversal.
  - A failing box is recorded as not written, although it may have written part of its bytes.
- MediaSegments.MediaSegment.Encode: Go sets `f.EncOptimize` through a pointer shared with the caller.
  - The model stamps a copy of the fragment list and stores it back into `fragments`.
  - Aliasing of that fragment with other holders of the pointer is not modelled.
- MediaSegments.MediaSegment.Size, MediaSegments.MediaSegment.Encode and MediaSegments.MediaSegment.AddSidx require at least one sidx bucket per fragment.
  - Go indexes `SidxsByFrag[i]` and panics when a caller has made the bucket list shorter by hand.
  - The segment's own constructors and operations never do that.
- Go's error values are not modelled; the model returns an `Error` case per kind.
  - That covers the wrapped message of `CommonSampleDuration` and the texts "trex not set" and "no boxes in segment".
  - The collaborator's own error is reduced to `ExtractFailed`, `CreateFailed`, `AddFailed` or `FragmentDurationFailed`.
- The internals of `GetFullSamples`, `CreateFragment`, `AddFullSampleToTrack`, `Fragment.CommonSampleDuration`, `Fragment.Size`, `Fragment.Encode` and `CreateStyp` are not part of this model.
  - The first four are parameters with the results stated under "Collaborators".
  - `Fragment.Size` and `Fragment.Encode` are fixed as the sum of the children's sizes and the children in order.
  - The styp box `CreateStyp` returns is a parameter of the `NewMediaSegment` constructor.
- MediaSegments.MediaSegment.Fragmentify: the fragments the model creates have no child boxes.
  - It also does not record the track a sample is added under. Go passes the current input fragment's track id to `AddFullSampleToTrack`.
  - In the model that track id only reaches the failure oracle.
- The unused `timescale` parameter of `Fragmentify` and the `StartPos` field are left out. Neither affects behaviour.
- Sample payloads are a single opaque number; only the duration matters.
- MediaSegments.MediaSegment.CommonSampleDuration: the Go doc comment promises a non-zero duration, but the code returns 0 for a segment without fragments, and also when the fragments agree on 0. The model follows the code.
- MediaSegments.MediaSegment.FirstBox follows the code. It looks only at bucket 0 and fragment 0.
  - With no fragments, it returns a sidx box of the trailing bucket.
  - `Encode` does not write that box (see Traversal.TrailingBucketIgnored).
  - It fails when there is no styp, bucket 0 is empty and fragment 0 has no children, even if later buckets or fragments have boxes that `Encode` writes. This happens, for example, after `WithoutStyp()`, `AddFragment(f0)` with no children, `AddSidx(b)` and `AddFragment(f1)` with children `[c]`: `FirstBox` reports no boxes, while `Order` is `[b, c]`.
  - The doc comment at mp4/mediasegment.go:222 says the error means that no boxes were found.
  - So `FirstBoxIsFirstWritten` requires that `FirstBox` succeeds.

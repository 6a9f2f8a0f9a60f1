/**
 * Values shared by the media segment model: fixed-width integers, the
 * boxes a segment is made of, samples, fragments and the error cases.
 */
module Types {

  const TWO_TO_32: int := 0x1_0000_0000
  const TWO_TO_64: int := 0x1_0000_0000_0000_0000

  /** Go's uint32 (sample durations, sequence numbers, track ids). */
  newtype uint32 = x: int | 0 <= x < 0x1_0000_0000

  /** Go's uint64 (box sizes). */
  newtype uint64 = x: int | 0 <= x < 0x1_0000_0000_0000_0000

  /** uint32 addition as Go performs it: modulo 2^32. */
  function AddU32(a: uint32, b: uint32): (r: uint32)
    ensures a as int + b as int < TWO_TO_32 ==> r as int == a as int + b as int
    ensures a as int + b as int >= TWO_TO_32 ==> r as int == a as int + b as int - TWO_TO_32
  {
    ((a as int + b as int) % TWO_TO_32) as uint32
  }

  /** uint64 addition as Go performs it: modulo 2^64. */
  function AddU64(a: uint64, b: uint64): (r: uint64)
    ensures a as int + b as int < TWO_TO_64 ==> r as int == a as int + b as int
    ensures a as int + b as int >= TWO_TO_64 ==> r as int == a as int + b as int - TWO_TO_64
  {
    ((a as int + b as int) % TWO_TO_64) as uint64
  }

  datatype Option<T> = None | Some(value: T)

  /** Every error the segment operations can return. */
  datatype Error =
    | TrexNotSet                    // CommonSampleDuration without a trex box
    | FragmentDurationFailed        // a fragment could not resolve its common duration
    | DifferentDuration(fragmentNumber: nat)  // 1-based number of the disagreeing fragment
    | NoBoxes                       // FirstBox on a segment with nothing in it
    | ExtractFailed                 // GetFullSamples failed
    | CreateFailed                  // CreateFragment failed
    | AddFailed                     // AddFullSampleToTrack failed
    | EncodeFailed(box: Box)        // the encoding of this box failed

  datatype Result<T> = Ok(value: T) | Err(error: Error)

  /** Identity of a box; stands for its type and contents. */
  type BoxId = nat

  /** A box as this core sees it: something with an identity and a size in bytes. */
  datatype Box = Box(id: BoxId, size: uint64)

  /**
   * A fully resolved sample. Only the duration matters here; `payload`
   * stands for the size, flags, composition offset and data.
   */
  datatype Sample = Sample(dur: uint32, payload: nat)

  /** The encoding option a segment passes on to its fragments (a bit set in Go). */
  type EncOptimize = uint32

  const OptimizeNone: EncOptimize := 0

  /**
   * A moof+mdat fragment: the sequence number of its mfhd, the track id of
   * its tfhd, the full samples it yields, its child boxes in stream order
   * and its encoding option.
   */
  datatype Fragment = Fragment(
    seqNum: uint32,
    trackId: uint32,
    samples: seq<Sample>,
    children: seq<Box>,
    encOptimize: EncOptimize)

  /** The track defaults box (trex) that sample resolution needs. */
  datatype Trex = Trex(trackId: uint32, defaultSampleDuration: uint32)

  /** Sum of the sizes of a sequence of boxes, as an unbounded integer. */
  function SumSizes(boxes: seq<Box>): nat
  {
    if boxes == [] then 0 else SumSizes(boxes[..|boxes| - 1]) + boxes[|boxes| - 1].size as int
  }

  lemma {:induction false} SumSizesAppend(a: seq<Box>, b: seq<Box>)
    ensures SumSizes(a + b) == SumSizes(a) + SumSizes(b)
    decreases |b|
  {
    if b != [] {
      assert (a + b)[..|a + b| - 1] == a + b[..|b| - 1];
      SumSizesAppend(a, b[..|b| - 1]);
    } else {
      assert a + b == a;
    }
  }

  /** Sum of the durations of a sequence of samples, as an unbounded integer. */
  function SumDur(samples: seq<Sample>): nat
  {
    if samples == [] then 0 else SumDur(samples[..|samples| - 1]) + samples[|samples| - 1].dur as int
  }

  /** The samples of a sequence of fragments, concatenated in order. */
  function AllSamples(frags: seq<Fragment>): seq<Sample>
  {
    if frags == [] then [] else AllSamples(frags[..|frags| - 1]) + frags[|frags| - 1].samples
  }

  lemma ConcatAssoc<T>(a: seq<T>, b: seq<T>, c: seq<T>)
    ensures a + (b + c) == a + b + c
  {
  }

  /** Adding up modulo 2^64 step by step gives the exact sum modulo 2^64. */
  lemma ModAdd64(a: nat, b: nat)
    ensures (a % TWO_TO_64 + b % TWO_TO_64) % TWO_TO_64 == (a + b) % TWO_TO_64
  {
    var qa, qb := a / TWO_TO_64, b / TWO_TO_64;
    assert a == qa * TWO_TO_64 + a % TWO_TO_64;
    assert b == qb * TWO_TO_64 + b % TWO_TO_64;
    assert a + b == (qa + qb) * TWO_TO_64 + (a % TWO_TO_64 + b % TWO_TO_64);
  }

  /** One more uint64 addition keeps the running sum equal to the exact sum modulo 2^64. */
  lemma AddU64Step(size: uint64, total: nat, x: nat)
    requires size as int == total % TWO_TO_64
    ensures AddU64(size, (x % TWO_TO_64) as uint64) as int == (total + x) % TWO_TO_64
  {
    ModAdd64(total, x);
  }

  lemma AddU64Box(size: uint64, total: nat, x: uint64)
    requires size as int == total % TWO_TO_64
    ensures AddU64(size, x) as int == (total + x as int) % TWO_TO_64
  {
    AddU64Step(size, total, x as int);
    assert (x as int % TWO_TO_64) as uint64 == x;
  }

  lemma SumSizesPrefix(boxes: seq<Box>, j: nat)
    requires j < |boxes|
    ensures SumSizes(boxes[..j + 1]) == SumSizes(boxes[..j]) + boxes[j].size as int
  {
    assert boxes[..j + 1][..j] == boxes[..j];
  }
}

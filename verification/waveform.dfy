/** Waveform synthesis for the DAC playback buffer (DDR3.make_flat_voltage,
    make_ramp, make_step and the segment layout of make_chirp).

    Every waveform is sized to `SampleSize`, the length of the circular DDR
    buffer: a shorter or longer pattern makes the DAC output glitch where the
    buffer wraps around. Only the integer structure is modelled; the
    floating-point parts (sine values, frequency snapping, the rounding that
    snaps a pattern length to a divisor of the buffer) are inputs. */
module Waveform {
  import opened Results
  import opened Words
  import Bits

  /** DDR address at which the playback buffer wraps around. */
  const Port1Index: nat := 0x3_7f_ff_f8

  /** Number of samples in the circular playback buffer. */
  const SampleSize: nat := (Port1Index + 8) / 4

  datatype WaveError =
    | ZeroStep            // np.arange with a zero step
    | EmptyPattern        // the base cycle is empty: `SAMPLE_SIZE // 0`
    | NegativeLength      // np.ones with a negative length
    | AmplitudeTooLarge   // amplitude > offset: the source returns -1
    | SineOverflow(segment: nat)   // a chirp segment's sine samples leave the uint16 range: the source returns -1
    | SegmentOverflow(segment: nat) // a chirp segment cannot be assigned to its slice of the buffer

  /** A half-open index range `[start, end)` of the buffer. */
  datatype Segment = Segment(start: nat, end: nat)

  /** `len(np.arange(start, stop, step))` for integer arguments. */
  function ArangeLength(start: int, stop: int, step: int): nat
    requires step != 0
  {
    var span := if step > 0 then stop - start else start - stop;
    var stride := if step > 0 then step else -step;
    if span <= 0 then 0 else (span + stride - 1) / stride
  }

  /** `np.arange(start, stop, step)` for integer arguments. */
  function Arange(start: int, stop: int, step: int): (r: seq<int>)
    requires step != 0
    ensures |r| == ArangeLength(start, stop, step)
    ensures forall k :: 0 <= k < |r| ==> r[k] == start + k * step
  {
    seq(ArangeLength(start, stop, step), k => start + k * step)
  }

  /** The values of `np.arange` are exactly the points of the progression that
      lie before `stop`, in the direction of `step`. */
  lemma ArangeLengthMeaning(start: int, stop: int, step: int, k: nat)
    requires step != 0
    ensures k < ArangeLength(start, stop, step) <==>
            (if step > 0 then start + k * step < stop else start + k * step > stop)
  {
    var span := if step > 0 then stop - start else start - stop;
    var stride := if step > 0 then step else -step;
    assert k * stride == (if step > 0 then k * step else -(k * step));
    if span > 0 {
      Bits.FloorDivBound(k + 1, span + stride - 1, stride);
      assert (k + 1) * stride == k * stride + stride;
    } else {
      assert k * stride >= 0;
    }
  }

  /** Snapping the stop value to `start + length * step`, as make_ramp does,
      gives a progression of exactly `length` values. */
  lemma ArangeSnapped(start: int, length: nat, step: int)
    requires step != 0
    ensures ArangeLength(start, start + length * step, step) == length
  {
    var stride := if step > 0 then step else -step;
    var span := length * stride;
    assert (if step > 0 then (start + length * step) - start else start - (start + length * step)) == span;
    if length > 0 {
      assert span > 0;
      Bits.DivModUnique(span + stride - 1, stride, length, stride - 1);
    }
  }

  /** `np.tile(base, t)`: `t` copies of `base` back to back. */
  function Repeat<T>(base: seq<T>, t: nat): seq<T>
  {
    if t == 0 then [] else Repeat(base, t - 1) + base
  }

  lemma {:induction false} RepeatIndex<T>(base: seq<T>, t: nat)
    requires |base| > 0
    ensures |Repeat(base, t)| == t * |base|
    ensures forall i :: 0 <= i < t * |base| ==> Repeat(base, t)[i] == base[i % |base|]
  {
    if t > 0 {
      RepeatIndex(base, t - 1);
      var prev := Repeat(base, t - 1);
      var n := |base|;
      assert (t - 1) * n + n == t * n;
      forall i | 0 <= i < t * n
        ensures Repeat(base, t)[i] == base[i % n]
      {
        if i >= (t - 1) * n {
          Bits.DivModUnique(i, n, t - 1, i - (t - 1) * n);
        }
      }
    }
  }

  /** The tiling of make_ramp and make_step: as many whole copies of `base` as
      fit in `n`, then the prefix of `base` that fills the rest
      (`np.hstack((np.tile(base, n // len), base[0:n % len]))`). */
  function Tile<T>(base: seq<T>, n: nat): (r: seq<T>)
    requires |base| > 0
    ensures |r| == n
    ensures forall i :: 0 <= i < n ==> r[i] == base[i % |base|]
  {
    var whole := n / |base|;
    var extras := n % |base|;
    RepeatIndex(base, whole);
    var r := Repeat(base, whole) + base[..extras];
    assert whole * |base| + extras == n;
    assert forall i :: whole * |base| <= i < n ==> r[i] == base[i % |base|] by {
      forall i | whole * |base| <= i < n
        ensures r[i] == base[i % |base|]
      {
        Bits.DivModUnique(i, |base|, whole, i - whole * |base|);
      }
    }
    r
  }

  /** DDR3.make_flat_voltage: a buffer holding one code everywhere. */
  function MakeFlatVoltage(amplitude: Word16): (r: seq<Word16>)
    ensures |r| == SampleSize
    ensures forall i :: 0 <= i < |r| ==> r[i] == amplitude
  {
    seq(SampleSize, _ => amplitude)
  }

  /** The length of one ramp cycle: the snapped length when `actualLength` is
      set (its float computation is an input), else the length of
      `np.arange(start, stop, step)`. */
  function RampPeriod(start: int, stop: int, step: int, actualLength: bool, snappedLength: nat): nat
    requires step != 0
  {
    if actualLength then snappedLength else ArangeLength(start, stop, step)
  }

  /** DDR3.make_ramp. `snappedLength` stands for
      `int(SAMPLE_SIZE / np.round(SAMPLE_SIZE / len_ramp_seq))`. */
  function MakeRamp(start: int, stop: int, step: int, actualLength: bool, snappedLength: nat)
    : (r: Result<seq<Word16>, WaveError>)
    ensures step == 0 <==> r == Err(ZeroStep)
    ensures r.Ok? <==>
      step != 0 && RampPeriod(start, stop, step, actualLength, snappedLength) > 0
      && (actualLength ==> ArangeLength(start, stop, step) > 0)
    ensures r.Ok? ==> |r.value| == SampleSize
    ensures r.Ok? ==>
      var period := RampPeriod(start, stop, step, actualLength, snappedLength);
      forall i :: 0 <= i < SampleSize ==> r.value[i] == ToUint16(start + (i % period) * step)
  {
    if step == 0 then Err(ZeroStep)
    else
      var rampSeq := Arange(start, stop, step);
      if actualLength && |rampSeq| == 0 then Err(EmptyPattern)
      else
        var base := if actualLength then Arange(start, start + snappedLength * step, step) else rampSeq;
        ArangeSnapped(start, snappedLength, step);
        if |base| == 0 then Err(EmptyPattern)
        else
          var tiled := Tile(base, SampleSize);
          Ok(seq(SampleSize, i requires 0 <= i < SampleSize => ToUint16(tiled[i])))
  }

  /** One cycle of make_step: `lFirst` low codes then `lEnd` high codes. */
  function StepCycle(low: Word16, high: Word16, lFirst: nat, lEnd: nat): (c: seq<Word16>)
    ensures |c| == lFirst + lEnd
    ensures forall i :: 0 <= i < lFirst ==> c[i] == low
    ensures forall i :: lFirst <= i < |c| ==> c[i] == high
  {
    seq(lFirst, _ => low) + seq(lEnd, _ => high)
  }

  /** DDR3.make_step. `lFirst` and `lEnd` stand for the float expressions
      `int(length/100*duty)` and `int(length/100*(100-duty))`. */
  function MakeStep(low: Word16, high: Word16, lFirst: int, lEnd: int): (r: Result<seq<Word16>, WaveError>)
    ensures lFirst < 0 || lEnd < 0 <==> r == Err(NegativeLength)
    ensures r.Ok? <==> lFirst >= 0 && lEnd >= 0 && lFirst + lEnd > 0
    ensures r.Ok? ==> |r.value| == SampleSize
    ensures r.Ok? ==> forall i :: 0 <= i < SampleSize ==>
      r.value[i] == (if i % (lFirst + lEnd) < lFirst then low else high)
  {
    if lFirst < 0 || lEnd < 0 then Err(NegativeLength)
    else if lFirst + lEnd == 0 then Err(EmptyPattern)
    else Ok(Tile(StepCycle(low, high, lFirst, lEnd), SampleSize))
  }

  /** A step wave with no low part is the flat voltage of its high code. */
  lemma StepWithoutLowIsFlat(low: Word16, high: Word16, lEnd: nat)
    requires lEnd > 0
    ensures MakeStep(low, high, 0, lEnd) == Ok(MakeFlatVoltage(high))
  {
    var r := MakeStep(low, high, 0, lEnd);
    assert r.value == MakeFlatVoltage(high);
  }

  /** Both tiled waveforms are periodic: sample `i + period` repeats sample `i`,
      also across the wrap-around point of the buffer when the period divides
      its length. */
  lemma StepPeriodic(low: Word16, high: Word16, lFirst: nat, lEnd: nat, i: nat)
    requires lFirst + lEnd > 0 && i + lFirst + lEnd < SampleSize
    ensures MakeStep(low, high, lFirst, lEnd).value[i] == MakeStep(low, high, lFirst, lEnd).value[i + lFirst + lEnd]
  {
    var p := lFirst + lEnd;
    Bits.DivModUnique(i + p, p, i / p + 1, i % p);
  }

  function Min(a: int, b: int): int
  {
    if a <= b then a else b
  }

  function Max0(x: int): nat
  {
    if x < 0 then 0 else x
  }

  /** Where segment `k` of a chirp starts, when every earlier segment fit. */
  function ChirpStart(frequencies: seq<real>, requested: seq<int>, k: nat): nat
    requires k <= |frequencies| && k <= |requested|
    decreases k, 0
  {
    if k == 0 then 0
    else ChirpStart(frequencies, requested, k - 1) + ChirpLength(frequencies, requested, k - 1)
  }

  /** The number of samples segment `k` of a chirp occupies. A segment whose
      frequency equals the last frequency fills the rest of the buffer; any
      other takes its requested length (`int(period/frequency/UPDATE_PERIOD)`,
      an input here). A non-positive length gives an empty segment, as
      `np.arange(0, negative, step)` is empty. */
  function ChirpLength(frequencies: seq<real>, requested: seq<int>, k: nat): nat
    requires k < |frequencies| && k < |requested|
    decreases k, 1
  {
    if frequencies[k] != frequencies[|frequencies| - 1] then Max0(requested[k])
    else Max0(SampleSize - ChirpStart(frequencies, requested, k))
  }

  /** Segment `k` can be assigned to `ddr_seq[idx_left:idx_left + n]`. The
      slice is cut short at the end of the buffer, and numpy only accepts
      the assignment when the lengths agree or the segment has a single
      sample, which it broadcasts (to nothing, if the slice is empty). */
  predicate ChirpFits(frequencies: seq<real>, requested: seq<int>, k: nat)
    requires k < |frequencies| && k < |requested|
  {
    var n := ChirpLength(frequencies, requested, k);
    n <= 1 || ChirpStart(frequencies, requested, k) + n <= SampleSize
  }

  /** Segment `k` passes the uint16 check: it has no samples, or its sine
      samples stay within `[0, 2^16 - 1]`. Whether they do depends on the
      floating-point sine values, so `leavesRange(k)` is an input. */
  predicate ChirpInRange(frequencies: seq<real>, requested: seq<int>, leavesRange: nat -> bool, k: nat)
    requires k < |frequencies| && k < |requested|
  {
    ChirpLength(frequencies, requested, k) == 0 || !leavesRange(k)
  }

  /** Segment `k` is laid out without error. */
  predicate ChirpOk(frequencies: seq<real>, requested: seq<int>, leavesRange: nat -> bool, k: nat)
    requires k < |frequencies| && k < |requested|
  {
    ChirpInRange(frequencies, requested, leavesRange, k) && ChirpFits(frequencies, requested, k)
  }

  /** Segment `k` is the first one the loop rejects. */
  predicate FirstFailure(frequencies: seq<real>, requested: seq<int>, leavesRange: nat -> bool, k: nat)
  {
    && k < |frequencies| && k < |requested|
    && !ChirpOk(frequencies, requested, leavesRange, k)
    && forall j :: 0 <= j < k ==> ChirpOk(frequencies, requested, leavesRange, j)
  }

  /** Consecutive segments that start at 0, each beginning where the previous
      one ended. */
  predicate Chained(segments: seq<Segment>)
  {
    && (|segments| > 0 ==> segments[0].start == 0)
    && (forall k :: 0 <= k < |segments| ==> segments[k].start <= segments[k].end)
    && (forall k :: 0 <= k < |segments| - 1 ==> segments[k].end == segments[k + 1].start)
  }

  /** DDR3.make_chirp, the integer layout: the `[start, end)` range of every
      segment. The loop runs over `zip(frequencies, requested)`, so it stops
      at the shorter list (a length mismatch is only printed). Each segment
      is checked for uint16 overflow, then assigned to its slice. */
  method MakeChirp(amplitude: int, offset: int, frequencies: seq<real>, requested: seq<int>,
                   leavesRange: nat -> bool)
    returns (r: Result<seq<Segment>, WaveError>)
    ensures amplitude > offset <==> r == Err(AmplitudeTooLarge)
    ensures r.Ok? <==> (amplitude <= offset &&
      forall k :: 0 <= k < Min(|frequencies|, |requested|) ==> ChirpOk(frequencies, requested, leavesRange, k))
    ensures r.Err? && amplitude <= offset ==>
      (r.error.SineOverflow? || r.error.SegmentOverflow?) &&
      FirstFailure(frequencies, requested, leavesRange, r.error.segment)
    ensures r.Err? && r.error.SineOverflow? ==>
      r.error.segment < Min(|frequencies|, |requested|) &&
      !ChirpInRange(frequencies, requested, leavesRange, r.error.segment)
    ensures r.Err? && r.error.SegmentOverflow? ==>
      r.error.segment < Min(|frequencies|, |requested|) &&
      ChirpInRange(frequencies, requested, leavesRange, r.error.segment) &&
      !ChirpFits(frequencies, requested, r.error.segment)
    ensures r.Ok? ==> |r.value| == Min(|frequencies|, |requested|) && Laid(frequencies, requested, leavesRange, r.value)
  {
    if amplitude > offset {
      return Err(AmplitudeTooLarge);
    }
    var count := Min(|frequencies|, |requested|);
    var idxLeft: nat := 0;
    var indices: seq<Segment> := [];
    var k := 0;
    while k < count
      invariant 0 <= k <= count
      invariant |indices| == k
      invariant idxLeft == ChirpStart(frequencies, requested, k)
      invariant k > 0 ==> indices[k - 1].end == idxLeft
      invariant Laid(frequencies, requested, leavesRange, indices)
    {
      var chirpLength: int;
      if frequencies[k] != frequencies[|frequencies| - 1] {
        chirpLength := requested[k];
      } else {
        chirpLength := SampleSize - idxLeft;
      }
      var n := Max0(chirpLength);
      assert n == ChirpLength(frequencies, requested, k);
      if n > 0 && leavesRange(k) {
        assert !ChirpInRange(frequencies, requested, leavesRange, k);
        assert !ChirpOk(frequencies, requested, leavesRange, k);
        return Err(SineOverflow(k));
      }
      if n > 1 && idxLeft + n > SampleSize {
        assert !ChirpFits(frequencies, requested, k);
        assert !ChirpOk(frequencies, requested, leavesRange, k);
        return Err(SegmentOverflow(k));
      }
      var segment := Segment(idxLeft, idxLeft + n);
      LaidAppend(frequencies, requested, leavesRange, indices, segment);
      indices := indices + [segment];
      idxLeft := idxLeft + n;
      k := k + 1;
    }
    r := Ok(indices);
  }

  /** The segments laid out so far: chained, each passing both checks, each
      starting where the earlier ones end and of its computed length, each whose frequency is the last one ending the
      buffer when it starts inside it, and any that crosses the end of the
      buffer a single broadcast sample there. */
  predicate Laid(frequencies: seq<real>, requested: seq<int>, leavesRange: nat -> bool, indices: seq<Segment>)
    requires |indices| <= |frequencies| && |indices| <= |requested|
  {
    && Chained(indices)
    && (forall j :: 0 <= j < |indices| ==> ChirpOk(frequencies, requested, leavesRange, j))
    && (forall j :: 0 <= j < |indices| ==> indices[j].start == ChirpStart(frequencies, requested, j))
    && (forall j :: 0 <= j < |indices| ==>
          indices[j].end - indices[j].start == ChirpLength(frequencies, requested, j))
    && (forall j :: 0 <= j < |indices| ==>
          (frequencies[j] == frequencies[|frequencies| - 1] && indices[j].start <= SampleSize ==>
           indices[j].end == SampleSize))
    && (forall j :: 0 <= j < |indices| && indices[j].start <= SampleSize < indices[j].end ==>
          indices[j] == Segment(SampleSize, SampleSize + 1))
  }

  /** One iteration of `MakeChirp`: a segment that passes both checks, placed
      where the previous one ended, extends the layout. */
  lemma LaidAppend(frequencies: seq<real>, requested: seq<int>, leavesRange: nat -> bool,
                   indices: seq<Segment>, segment: Segment)
    requires |indices| < |frequencies| && |indices| < |requested|
    requires Laid(frequencies, requested, leavesRange, indices)
    requires segment.start == ChirpStart(frequencies, requested, |indices|)
    requires |indices| > 0 ==> indices[|indices| - 1].end == segment.start
    requires segment.end - segment.start == ChirpLength(frequencies, requested, |indices|)
    requires ChirpOk(frequencies, requested, leavesRange, |indices|)
    ensures Laid(frequencies, requested, leavesRange, indices + [segment])
    ensures segment.end == ChirpStart(frequencies, requested, |indices| + 1)
  {
    var k := |indices|;
    var next := indices + [segment];
    assert ChirpStart(frequencies, requested, k + 1) == segment.end;
    ChainedAppend(indices, segment);
    SegmentPlaced(frequencies, requested, leavesRange, k, segment);
    forall j | 0 <= j < k + 1
      ensures ChirpOk(frequencies, requested, leavesRange, j)
      ensures next[j].start == ChirpStart(frequencies, requested, j)
      ensures next[j].end - next[j].start == ChirpLength(frequencies, requested, j)
      ensures frequencies[j] == frequencies[|frequencies| - 1] && next[j].start <= SampleSize ==>
        next[j].end == SampleSize
      ensures next[j].start <= SampleSize < next[j].end ==> next[j] == Segment(SampleSize, SampleSize + 1)
    {
      if j < k {
        assert next[j] == indices[j];
      } else {
        assert next[j] == segment;
      }
    }
  }

  /** A segment that passes both checks, placed at its start with its length:
      with the last frequency it ends the buffer when it starts inside it, and
      when it crosses the end it is the single broadcast sample there. */
  lemma SegmentPlaced(frequencies: seq<real>, requested: seq<int>, leavesRange: nat -> bool,
                      k: nat, segment: Segment)
    requires k < |frequencies| && k < |requested|
    requires segment.start == ChirpStart(frequencies, requested, k)
    requires segment.end - segment.start == ChirpLength(frequencies, requested, k)
    requires ChirpOk(frequencies, requested, leavesRange, k)
    ensures frequencies[k] == frequencies[|frequencies| - 1] && segment.start <= SampleSize ==>
      segment.end == SampleSize
    ensures segment.start <= SampleSize < segment.end ==> segment == Segment(SampleSize, SampleSize + 1)
  {
  }

  /** The last segment of a complete chirp fills the buffer to its end, or,
      when earlier segments already ran past the end, is empty. */
  lemma LastSegmentEnds(frequencies: seq<real>, requested: seq<int>, leavesRange: nat -> bool,
                        indices: seq<Segment>)
    requires 0 < |frequencies| <= |requested| && |indices| == |frequencies|
    requires Laid(frequencies, requested, leavesRange, indices)
    ensures var last := indices[|indices| - 1];
      last.end == SampleSize || SampleSize < last.start == last.end
  {
    var j := |indices| - 1;
    assert indices[j].start == ChirpStart(frequencies, requested, j);
    assert indices[j].end - indices[j].start == ChirpLength(frequencies, requested, j);
  }

  lemma ChainedAppend(segments: seq<Segment>, segment: Segment)
    requires Chained(segments) && segment.start <= segment.end
    requires |segments| == 0 ==> segment.start == 0
    requires |segments| > 0 ==> segments[|segments| - 1].end == segment.start
    ensures Chained(segments + [segment])
  {
  }

  /** A one-sample segment that starts at the end of the buffer passes:
      numpy broadcasts it into the empty slice, and the next segment starts
      past the buffer. With three distinct frequencies and lengths
      `[SAMPLE_SIZE, 1, 0]`, the second segment is `[SAMPLE_SIZE, SAMPLE_SIZE + 1)`. */
  lemma OneSamplePastEnd()
    ensures ChirpStart([1.0, 2.0, 3.0], [SampleSize, 1, 0], 1) == SampleSize
    ensures ChirpLength([1.0, 2.0, 3.0], [SampleSize, 1, 0], 1) == 1
    ensures ChirpFits([1.0, 2.0, 3.0], [SampleSize, 1, 0], 1)
    ensures ChirpStart([1.0, 2.0, 3.0], [SampleSize, 1, 0], 2) == SampleSize + 1
  {
  }

  /** Chained segments partition `[0, end)` of the last one: every index in
      that range lies in exactly one segment. */
  lemma {:induction false} ChainedPartition(segments: seq<Segment>, i: nat)
    requires Chained(segments) && |segments| > 0 && i < segments[|segments| - 1].end
    ensures exists k :: 0 <= k < |segments| && segments[k].start <= i < segments[k].end
    ensures forall k, k' ::
      (0 <= k < |segments| && 0 <= k' < |segments| &&
       segments[k].start <= i < segments[k].end && segments[k'].start <= i < segments[k'].end) ==> k == k'
  {
    var n := |segments|;
    if n == 1 {
    } else {
      var init := segments[..n - 1];
      assert Chained(init);
      if i < init[n - 2].end {
        ChainedPartition(init, i);
        var k :| 0 <= k < n - 1 && init[k].start <= i < init[k].end;
        assert segments[k] == init[k];
      } else {
        assert segments[n - 1].start <= i < segments[n - 1].end;
      }
      forall k, k' | 0 <= k < k' < n && segments[k].start <= i < segments[k].end
        ensures !(segments[k'].start <= i < segments[k'].end)
      {
        ChainedOrdered(segments, k, k');
      }
    }
  }

  /** In chained segments a later segment starts no earlier than an earlier one ends. */
  lemma {:induction false} ChainedOrdered(segments: seq<Segment>, k: nat, k': nat)
    requires Chained(segments) && k < k' < |segments|
    ensures segments[k].end <= segments[k'].start
  {
    if k' > k + 1 {
      ChainedOrdered(segments, k, k' - 1);
    }
  }
}

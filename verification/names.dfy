/** The second decode stage (DDR3.data_to_names): the eight deswizzled
    channels of a TIMESTAMPS capture are split into named records (fast ADC,
    timestamps, DAC, ADS8686 samples and sequence counters) and checked for
    damage: four constant read-check words and a uniform timestamp step. */
module DataNames {
  import opened Results
  import opened Words
  import Bits
  import opened StreamDecode

  /** The named records, in the order DDR3.data_to_names returns them. */
  datatype Names = Names(
    adc: seq<seq<Word16>>,
    timestamp: seq<nat>,
    dac: seq<seq<Word16>>,
    adsA: seq<int>,
    adsB: seq<int>,
    adsSeqCount: seq<seq<nat>>,
    error: bool)

  /** The bitfile version the decoding follows: the one given, else the
      FPGA's, else 1. */
  function EffectiveVersion(given: Option<int>, fpga: Option<int>): (v: int)
    ensures given.Some? ==> v == given.value
    ensures given.None? && fpga.Some? ==> v == fpga.value
    ensures given.None? && fpga.None? ==> v == 1
  {
    match given
    case Some(g) => g
    case None => if fpga.Some? then fpga.value else 1
  }

  /** A 48-bit timestamp from its three 16-bit fields. */
  function Timestamp(lsb: Word16, mid: Word16, msb: Word16): nat
  {
    lsb + Bits.Shl(mid, 16) + Bits.Shl(msb, 32)
  }

  /** The three fields are recovered from the timestamp, which fits in 48 bits. */
  lemma TimestampFields(lsb: Word16, mid: Word16, msb: Word16)
    ensures Timestamp(lsb, mid, msb) < Bits.Pow2(48)
    ensures Timestamp(lsb, mid, msb) % Bits.Pow2(16) == lsb
    ensures Bits.Shr(Timestamp(lsb, mid, msb), 16) % Bits.Pow2(16) == mid
    ensures Bits.Shr(Timestamp(lsb, mid, msb), 32) == msb
  {
    Bits.Pow2Values();
    var t := Timestamp(lsb, mid, msb);
    var upper := mid + msb * 0x1_0000;
    assert t == 0x1_0000 * upper + lsb;
    Bits.DivModUnique(t, 0x1_0000, upper, lsb);
    Bits.DivModUnique(upper, 0x1_0000, msb, mid);
    Bits.DivModUnique(t, 0x1_0000_0000, msb, lsb + mid * 0x1_0000);
    Bits.ShrIsDiv(t, 16);
    Bits.ShrIsDiv(t, 32);
  }

  /** The step between consecutive timestamps, `np.diff` on `uint64`. */
  function Step(ts: seq<nat>, i: nat): nat
    requires i + 1 < |ts|
  {
    (ts[i + 1] - ts[i]) % Bits.Pow2(64)
  }

  /** Every step equals the first one (trivially so with fewer than two steps). */
  predicate SameStep(ts: seq<nat>)
  {
    forall i :: 0 <= i && i + 1 < |ts| ==> Step(ts, i) == Step(ts, 0)
  }

  /** `np.size(np.unique(np.diff(ts))) > 1`, computed by comparing each step
      with the first, from step `i` on. */
  function MultipleIntervals(ts: seq<nat>, i: nat): (b: bool)
    requires 1 <= i
    ensures !b <==> forall i' :: i <= i' && i' + 1 < |ts| ==> Step(ts, i') == Step(ts, 0)
    decreases |ts| - i
  {
    if i + 1 >= |ts| then false
    else Step(ts, i) != Step(ts, 0) || MultipleIntervals(ts, i + 1)
  }

  /** Comparing every step with the first is the same as `SameStep`. */
  lemma IntervalsAgainstFirst(ts: seq<nat>)
    ensures !MultipleIntervals(ts, 1) <==> SameStep(ts)
  {
  }

  /** A timestamp run has one distinct interval exactly when some two steps
      differ is false: the check reports any pair of unequal steps. */
  lemma MultipleIntervalsMeaning(ts: seq<nat>)
    ensures MultipleIntervals(ts, 1) <==> exists i, i' :: 0 <= i && i + 1 < |ts| && 0 <= i' && i' + 1 < |ts| && Step(ts, i) != Step(ts, i')
  {
    if MultipleIntervals(ts, 1) {
      var i' :| 1 <= i' && i' + 1 < |ts| && Step(ts, i') != Step(ts, 0);
      assert Step(ts, 0) != Step(ts, i');
    }
  }

  /** The four read-check words: their offsets in the ten-word frame of
      channel 7, their masks and their expected values. */
  function CheckOffset(i: nat): nat
    requires i < 4
  {
    [3, 4, 8, 9][i]
  }

  function CheckMask(i: nat): nat
    requires i < 4
  {
    [0xffff, 0xffe0, 0xffff, 0xffe0][i]
  }

  function CheckValue(i: nat): nat
    requires i < 4
  {
    [0xaa55, Bits.Shl(0x28b, 5), 0x77bb, Bits.Shl(0x28c, 5)][i]
  }

  /** Read-check stream `i` holds its constant in every word, under its mask. */
  predicate CheckHolds(chan7: seq<Word16>, i: nat)
    requires i < 4
  {
    var words := Slice(chan7, CheckOffset(i), 10);
    forall j :: 0 <= j < |words| ==> Bits.And(words[j], CheckMask(i)) == CheckValue(i)
  }

  predicate AllChecksHold(chan7: seq<Word16>)
  {
    forall i :: 0 <= i < 4 ==> CheckHolds(chan7, i)
  }

  /** The channel a timestamp's low field and ADS8686 channel B come from,
      which moved at bitfile version 2. */
  function LsbSlice(channels: seq<seq<Word16>>, version: int): seq<Word16>
    requires |channels| == 8
  {
    if version < 2 then Slice(channels[6], 0, 5) else Slice(channels[7], 1, 5)
  }

  function AdsBSlice(channels: seq<seq<Word16>>, version: int): seq<Word16>
    requires |channels| == 8
  {
    if version < 2 then Slice(channels[7], 1, 5) else Slice(channels[6], 0, 5)
  }

  /** Number of timestamps: one less than the number of high fields, none
      when there are none. */
  function TimestampCount(n: nat): nat
  {
    var t := SliceLength(n, 2, 5);
    if t == 0 then 0 else t - 1
  }

  /** The timestamps of a capture whose channels 6 and 7 have `n` samples. */
  function TimestampSeries(channels: seq<seq<Word16>>, version: int): (ts: seq<nat>)
    requires |channels| == 8 && |channels[6]| == |channels[7]|
    ensures |ts| == TimestampCount(|channels[7]|)
    ensures forall k :: 0 <= k < |ts| ==>
      var base := 5 * k;
      base + 2 < |channels[7]| &&
      ts[k] == Timestamp(
        if version < 2 then channels[6][base] else channels[7][base + 1],
        channels[6][base + 1],
        channels[7][base + 2])
  {
    var n := |channels[7]|;
    var lsb := LsbSlice(channels, version);
    var mid := Slice(channels[6], 1, 5);
    var msb := Slice(channels[7], 2, 5);
    var count := TimestampCount(n);
    var ts := seq(count, k requires 0 <= k < count =>
      FieldsPresent(n, k);
      Timestamp(lsb[k], mid[k], msb[k]));
    assert forall k :: 0 <= k < count ==>
      5 * k + 2 < n &&
      ts[k] == Timestamp(
        if version < 2 then channels[6][5 * k] else channels[7][5 * k + 1],
        channels[6][5 * k + 1],
        channels[7][5 * k + 2]) by {
      forall k | 0 <= k < count
        ensures 5 * k + 2 < n
        ensures ts[k] == Timestamp(
          if version < 2 then channels[6][5 * k] else channels[7][5 * k + 1],
          channels[6][5 * k + 1],
          channels[7][5 * k + 2])
      {
        FieldsAt(channels, version, k);
      }
    }
    ts
  }

  /** The three fields of timestamp `k`, at offsets `5k`, `5k + 1` and `5k + 2`. */
  lemma FieldsAt(channels: seq<seq<Word16>>, version: int, k: nat)
    requires |channels| == 8 && |channels[6]| == |channels[7]| && k < TimestampCount(|channels[7]|)
    ensures 5 * k + 2 < |channels[7]|
    ensures k < |LsbSlice(channels, version)| && k < |Slice(channels[6], 1, 5)| && k < |Slice(channels[7], 2, 5)|
    ensures LsbSlice(channels, version)[k] == if version < 2 then channels[6][5 * k] else channels[7][5 * k + 1]
    ensures Slice(channels[6], 1, 5)[k] == channels[6][5 * k + 1]
    ensures Slice(channels[7], 2, 5)[k] == channels[7][5 * k + 2]
  {
    FieldsPresent(|channels[7]|, k);
  }

  /** Timestamp `k` has its three fields: every slice it reads is long enough. */
  lemma FieldsPresent(n: nat, k: nat)
    requires k < TimestampCount(n)
    ensures k < SliceLength(n, 0, 5) && k < SliceLength(n, 1, 5) && k < SliceLength(n, 2, 5)
  {
    SliceIndex(n, 2, 5, k);
    SliceIndex(n, 2, 5, k + 1);
    SliceIndex(n, 0, 5, k);
    SliceIndex(n, 1, 5, k);
  }

  /** The ADS8686 sequence counter carried in the low five bits of read-check
      word `2c + 1`, `chan7[off::10] & 0x1f`. */
  function SequenceCount(chan7: seq<Word16>, c: nat): (counts: seq<nat>)
    requires c < 2
    ensures |counts| == SliceLength(|chan7|, CheckOffset(2 * c + 1), 10)
    ensures forall j :: 0 <= j < |counts| ==>
      CheckOffset(2 * c + 1) + 10 * j < |chan7| &&
      counts[j] < 0x20 && counts[j] == chan7[CheckOffset(2 * c + 1) + 10 * j] % 0x20
  {
    var words := Slice(chan7, CheckOffset(2 * c + 1), 10);
    var counts := seq(|words|, j requires 0 <= j < |words| => Bits.And(words[j], 0x1f));
    assert forall j :: 0 <= j < |counts| ==> counts[j] == words[j] % 0x20 by {
      forall j | 0 <= j < |counts|
        ensures counts[j] == words[j] % 0x20
      {
        Bits.Pow2Values();
        Bits.AndLowMask(words[j], 5);
      }
    }
    counts
  }

  /** `custom_signed_to_int(words, 16)` applied elementwise. */
  function Signed(words: seq<Word16>): (v: seq<int>)
    ensures |v| == |words|
    ensures forall j :: 0 <= j < |v| ==> -0x8000 <= v[j] < 0x8000 && FromSigned16(v[j]) == words[j]
  {
    seq(|words|, j requires 0 <= j < |words| => ToSigned16(words[j]))
  }

  /** The named records of a TIMESTAMPS capture decoded as bitfile `version`. */
  function NamesOf(channels: seq<seq<Word16>>, version: int): (r: Names)
    requires |channels| == 8 && |channels[6]| == |channels[7]|
    ensures r.adc == channels[..4]
    ensures r.timestamp == TimestampSeries(channels, version)
    ensures r.error <==> !AllChecksHold(channels[7]) || !SameStep(r.timestamp)
    ensures |r.dac| == 7
    ensures r.adsSeqCount == [SequenceCount(channels[7], 0), SequenceCount(channels[7], 1)]
    ensures r.adsA == Signed(Slice(channels[7], 0, 5))
    ensures r.adsB == Signed(AdsBSlice(channels, version))
  {
    var ts := TimestampSeries(channels, version);
    var chan7 := channels[7];
    var dac := [
      Slice(channels[4], 0, 2), Slice(channels[4], 1, 2),
      Slice(channels[5], 0, 2), Slice(channels[5], 1, 2),
      Slice(channels[6], 2, 5), Slice(channels[6], 3, 5), Slice(channels[6], 4, 5)];
    var multiple := MultipleIntervals(ts, 1);
    IntervalsAgainstFirst(ts);
    Names(channels[..4], ts, dac, Signed(Slice(chan7, 0, 5)), Signed(AdsBSlice(channels, version)),
      [SequenceCount(chan7, 0), SequenceCount(chan7, 1)], !AllChecksHold(chan7) || multiple)
  }

  /** DDR3.data_to_names. The ADC_NO_TIMESTAMPS layout yields nothing (the
      source returns None there); the TIMESTAMPS layout yields the named
      records of the effective bitfile version. */
  function DataToNames(dialect: Dialect, channels: seq<seq<Word16>>, given: Option<int>, fpga: Option<int>)
    : (r: Option<Names>)
    requires dialect == Timestamps ==> |channels| == 8 && |channels[6]| == |channels[7]|
    ensures r.Some? <==> dialect == Timestamps
    ensures r.Some? ==> r.value == NamesOf(channels, EffectiveVersion(given, fpga))
  {
    match dialect
    case AdcNoTimestamps => None
    case Timestamps => Some(NamesOf(channels, EffectiveVersion(given, fpga)))
  }

  /** The five low bits of the second and fourth read-check words carry the
      ADS8686 sequence counter: the check ignores them, and the counter
      recovers them. */
  lemma SequenceCounterIgnored(i: nat, count: nat)
    requires i == 1 || i == 3
    requires count < 0x20
    ensures Bits.And(CheckValue(i) + count, CheckMask(i)) == CheckValue(i)
    ensures Bits.And(CheckValue(i) + count, 0x1f) == count
  {
    Bits.Pow2Values();
    var w := CheckValue(i) + count;
    assert w < Bits.Pow2(16);
    assert CheckMask(i) == Bits.HighMask(16, 5);
    assert Bits.LowMask(5) == 0x1f;
    Bits.AndLowMask(w, 5);
    Bits.DivModUnique(w, 0x20, CheckValue(i) / 0x20, count);
    Bits.SplitLowHigh(w, 16, 5);
  }

  /** Timestamps that start at `t0` and advance by `step` each sample, with no
      wrap-around, have a single interval. */
  lemma {:induction false} CountingTimestampsSameStep(ts: seq<nat>, t0: nat, step: nat)
    requires forall k :: 0 <= k < |ts| ==> ts[k] == t0 + k * step
    requires step < Bits.Pow2(64)
    ensures SameStep(ts)
  {
    forall i | 0 <= i && i + 1 < |ts|
      ensures Step(ts, i) == Step(ts, 0)
    {
      assert ts[i + 1] - ts[i] == step;
      assert ts[1] - ts[0] == step;
      Bits.DivModUnique(step, Bits.Pow2(64), 0, step);
    }
  }

  /** A TIMESTAMPS capture of whole groups satisfies the requirement of
      `DataToNames`: channels 6 and 7 have the same length. */
  lemma WholeGroupsName(d: seq<Byte>)
    requires |d| % GroupSize(Timestamps) == 0
    ensures Unswizzle(Timestamps, d).Ok?
    ensures var channels := Unswizzle(Timestamps, d).value;
      |channels| == 8 && |channels[6]| == |channels[7]|
  {
    WholeGroupsDecode(Timestamps, d);
  }
}

/** The first decode stage (DDR3.deswizzle): 16-bit samples are rebuilt from
    low/high byte pairs of the raw capture stream and the swizzled streams are
    renamed to ADC channel numbers through a fixed permutation.

    Two layouts exist. ADC_NO_TIMESTAMPS (the first FPGA design): four streams,
    a group of 8 bytes per sample, permutation [2, 3, 0, 1], samples converted
    to signed. TIMESTAMPS: eight streams, a group of 16 bytes per sample,
    permutation [6, 7, 5, 4, 2, 3, 0, 1], samples left unsigned. */
module StreamDecode {
  import opened Results
  import opened Words
  import Bits

  datatype Dialect = AdcNoTimestamps | Timestamps

  /** Number of streams in a group. */
  function ChannelCount(dialect: Dialect): nat
  {
    match dialect
    case AdcNoTimestamps => 4
    case Timestamps => 8
  }

  /** Bytes per group: two per stream. */
  function GroupSize(dialect: Dialect): (g: nat)
    ensures g == 2 * ChannelCount(dialect)
  {
    match dialect
    case AdcNoTimestamps => 8
    case Timestamps => 16
  }

  /** The swizzled stream that output channel `k` is taken from. */
  function Source(dialect: Dialect, k: nat): (s: nat)
    requires k < ChannelCount(dialect)
    ensures s < ChannelCount(dialect)
  {
    match dialect
    case AdcNoTimestamps => [2, 3, 0, 1][k]
    case Timestamps => [6, 7, 5, 4, 2, 3, 0, 1][k]
  }

  /** The output channel that swizzled stream `s` ends up in. */
  function Target(dialect: Dialect, s: nat): (k: nat)
    requires s < ChannelCount(dialect)
    ensures k < ChannelCount(dialect)
  {
    match dialect
    case AdcNoTimestamps => [2, 3, 0, 1][s]
    case Timestamps => [6, 7, 4, 5, 3, 2, 0, 1][s]
  }

  /** `Source` and `Target` are inverse, so each permutation table is a bijection. */
  lemma SourceTargetInverse(dialect: Dialect, k: nat)
    requires k < ChannelCount(dialect)
    ensures Target(dialect, Source(dialect, k)) == k
    ensures Source(dialect, Target(dialect, k)) == k
  {
  }

  /** `len(d[start::step])` for a sequence of length `n`. */
  function SliceLength(n: nat, start: nat, step: nat): nat
    requires step > 0
  {
    if start >= n then 0 else (n - start + step - 1) / step
  }

  /** Index `j` of `d[start::step]` exists exactly when `start + step * j` is in range. */
  lemma SliceIndex(n: nat, start: nat, step: nat, j: nat)
    requires step > 0
    ensures j < SliceLength(n, start, step) <==> start + step * j < n
  {
    if start < n {
      Bits.FloorDivBound(j + 1, n - start + step - 1, step);
      assert (j + 1) * step == step * j + step;
    }
  }

  /** numpy's `s[start::step]`. */
  function Slice<T>(s: seq<T>, start: nat, step: nat): (r: seq<T>)
    requires step > 0
    ensures |r| == SliceLength(|s|, start, step)
    ensures forall j :: 0 <= j < |r| ==> start + step * j < |s| && r[j] == s[start + step * j]
  {
    var n := SliceLength(|s|, start, step);
    var r := seq(n, j requires 0 <= j < n => SliceIndex(|s|, start, step, j); s[start + step * j]);
    assert forall j :: 0 <= j < n ==> start + step * j < |s| && r[j] == s[start + step * j] by {
      forall j | 0 <= j < n
        ensures start + step * j < |s| && r[j] == s[start + step * j]
      {
        SliceIndex(|s|, start, step, j);
      }
    }
    r
  }

  /** Slices of a whole number of groups have one element per group. */
  lemma SliceOfWholeGroups(n: nat, start: nat, step: nat)
    requires step > 0 && start < step && n % step == 0
    ensures SliceLength(n, start, step) == n / step
  {
    if start < n {
      var q := n / step;
      assert n == step * q;
      Bits.DivModUnique(n - start + step - 1, step, q, step - 1 - start);
    } else {
      assert n == 0;
    }
  }

  /** custom_signed_to_int(x, 16), taken to be the two's-complement reading. */
  function ToSigned16(w: Word16): (v: int)
    ensures -0x8000 <= v < 0x8000
    ensures (v - w) % 0x1_0000 == 0
  {
    if w >= 0x8000 then w - 0x1_0000 else w
  }

  /** Undoes `ToSigned16`. */
  function FromSigned16(v: int): Word16
  {
    v % 0x1_0000
  }

  lemma SignedRoundTrip(w: Word16)
    ensures FromSigned16(ToSigned16(w)) == w
  {
  }

  datatype DecodeError = BroadcastMismatch(stream: nat)

  /** Adding `d[2s::g] + (d[2s+1::g] << 8)` follows numpy broadcasting: the
      two slices must have the same length, or one of them a single element,
      which is then repeated. */
  predicate Broadcasts(n: nat, dialect: Dialect, s: nat)
  {
    var lo := SliceLength(n, 2 * s, GroupSize(dialect));
    var hi := SliceLength(n, 2 * s + 1, GroupSize(dialect));
    lo == hi || lo == 1 || hi == 1
  }

  /** Number of samples in swizzled stream `s`: the broadcast length of the
      two slices, the other one when a slice has a single element. */
  function StreamLength(n: nat, dialect: Dialect, s: nat): nat
  {
    var lo := SliceLength(n, 2 * s, GroupSize(dialect));
    var hi := SliceLength(n, 2 * s + 1, GroupSize(dialect));
    if lo == 1 then hi else lo
  }

  /** The index a broadcast operand of length `len` reads for element `j`:
      a single element stands for every position. */
  function Operand(len: nat, j: nat): nat
  {
    if len == 1 then 0 else j
  }

  /** The first stream, from `s` on, whose addition numpy rejects. */
  function FirstMismatch(n: nat, dialect: Dialect, s: nat): (m: Option<nat>)
    requires s <= ChannelCount(dialect)
    ensures m.None? <==> forall t :: s <= t < ChannelCount(dialect) ==> Broadcasts(n, dialect, t)
    ensures m.Some? ==> (s <= m.value < ChannelCount(dialect) && !Broadcasts(n, dialect, m.value))
    decreases ChannelCount(dialect) - s
  {
    if s == ChannelCount(dialect) then None
    else if !Broadcasts(n, dialect, s) then Some(s)
    else FirstMismatch(n, dialect, s + 1)
  }

  /** The byte offset of the low byte of sample `j` of swizzled stream `s`. */
  function Offset(dialect: Dialect, s: nat, j: nat): nat
  {
    GroupSize(dialect) * j + 2 * s
  }

  /** Where sample `j` of stream `s` takes its high byte: the byte after its
      low byte, or, past the end of a one-element high slice that numpy
      repeats, `d[2s + 1]`. */
  function HighOffset(n: nat, dialect: Dialect, s: nat, j: nat): nat
  {
    if Offset(dialect, s, j) + 1 < n then Offset(dialect, s, j) + 1 else 2 * s + 1
  }

  /** Swizzled stream `s`, `d[2s::g] + (d[2s+1::g] << 8)`: sample `j` joins the
      two bytes at `Offset(dialect, s, j)`. When the block stops one byte
      into a group, the high slice is one element short; if that leaves it a
      single element, numpy repeats it, and the last sample takes its high
      byte from `d[2s + 1]`. */
  function Stream(d: seq<Byte>, dialect: Dialect, s: nat): (w: seq<Word16>)
    requires s < ChannelCount(dialect) && Broadcasts(|d|, dialect, s)
    ensures |w| == StreamLength(|d|, dialect, s)
    ensures forall j :: 0 <= j < |w| ==>
      Offset(dialect, s, j) < |d| && HighOffset(|d|, dialect, s, j) < |d| &&
      w[j] == Join(d[Offset(dialect, s, j)], d[HighOffset(|d|, dialect, s, j)])
  {
    var n := StreamLength(|d|, dialect, s);
    var w := seq(n, j requires 0 <= j < n => StreamSample(d, dialect, s, j));
    assert forall j :: 0 <= j < n ==>
      Offset(dialect, s, j) < |d| && HighOffset(|d|, dialect, s, j) < |d| &&
      w[j] == Join(d[Offset(dialect, s, j)], d[HighOffset(|d|, dialect, s, j)]) by {
      forall j | 0 <= j < n
        ensures Offset(dialect, s, j) < |d| && HighOffset(|d|, dialect, s, j) < |d|
        ensures w[j] == Join(d[Offset(dialect, s, j)], d[HighOffset(|d|, dialect, s, j)])
      {
        StreamSampleAt(d, dialect, s, j);
      }
    }
    w
  }

  /** Sample `j` of the sum of the low slice and the shifted high slice, each
      read as a broadcast operand. */
  function StreamSample(d: seq<Byte>, dialect: Dialect, s: nat, j: nat): Word16
    requires s < ChannelCount(dialect) && Broadcasts(|d|, dialect, s)
    requires j < StreamLength(|d|, dialect, s)
  {
    var g := GroupSize(dialect);
    var low, high := Slice(d, 2 * s, g), Slice(d, 2 * s + 1, g);
    Join(low[Operand(|low|, j)], high[Operand(|high|, j)])
  }

  /** The bytes sample `j` joins are those at `Offset` and `HighOffset`. */
  lemma StreamSampleAt(d: seq<Byte>, dialect: Dialect, s: nat, j: nat)
    requires s < ChannelCount(dialect) && Broadcasts(|d|, dialect, s)
    requires j < StreamLength(|d|, dialect, s)
    ensures Offset(dialect, s, j) < |d| && HighOffset(|d|, dialect, s, j) < |d|
    ensures StreamSample(d, dialect, s, j) == Join(d[Offset(dialect, s, j)], d[HighOffset(|d|, dialect, s, j)])
  {
    var g := GroupSize(dialect);
    var low, high := Slice(d, 2 * s, g), Slice(d, 2 * s + 1, g);
    var at := Offset(dialect, s, j);
    SliceIndex(|d|, 2 * s, g, j);
    SliceIndex(|d|, 2 * s + 1, g, j);
    SliceIndex(|d|, 2 * s, g, 0);
    SliceIndex(|d|, 2 * s + 1, g, 0);
    if |low| == 1 {
      assert |high| <= 1;
      assert j == 0;
    }
    if at + 1 < |d| {
      assert j < |high|;
      assert Operand(|low|, j) == j && Operand(|high|, j) == j;
      assert low[j] == d[at] && high[j] == d[at + 1];
    } else {
      assert |high| == 1;
      assert Operand(|low|, j) == j;
      assert low[j] == d[at] && high[0] == d[2 * s + 1];
    }
  }

  /** The unsigned channel words of DDR3.deswizzle, before any sign conversion:
      output channel `k` is swizzled stream `Source(dialect, k)`. */
  function Unswizzle(dialect: Dialect, d: seq<Byte>): (r: Result<seq<seq<Word16>>, DecodeError>)
    ensures r.Ok? <==> forall s :: 0 <= s < ChannelCount(dialect) ==> Broadcasts(|d|, dialect, s)
    ensures r.Err? ==> r.error.stream < ChannelCount(dialect) && !Broadcasts(|d|, dialect, r.error.stream)
    ensures r.Ok? ==> |r.value| == ChannelCount(dialect)
    ensures r.Ok? ==> forall k :: 0 <= k < ChannelCount(dialect) ==>
      r.value[k] == Stream(d, dialect, Source(dialect, k))
  {
    match FirstMismatch(|d|, dialect, 0)
    case Some(s) => Err(BroadcastMismatch(s))
    case None =>
      Ok(seq(ChannelCount(dialect), k requires 0 <= k < ChannelCount(dialect) =>
        Stream(d, dialect, Source(dialect, k))))
  }

  /** DDR3.deswizzle. In the ADC_NO_TIMESTAMPS layout the samples are made
      signed when `convertTwos` is set; the TIMESTAMPS layout ignores it. */
  function Deswizzle(dialect: Dialect, d: seq<Byte>, convertTwos: bool): (r: Result<seq<seq<int>>, DecodeError>)
    ensures r.Ok? <==> Unswizzle(dialect, d).Ok?
    ensures r.Ok? ==> |r.value| == ChannelCount(dialect)
    ensures r.Ok? ==> forall k :: 0 <= k < ChannelCount(dialect) ==>
      |r.value[k]| == |Unswizzle(dialect, d).value[k]| &&
      forall j :: 0 <= j < |r.value[k]| ==>
        var w := Unswizzle(dialect, d).value[k][j];
        r.value[k][j] == if dialect == AdcNoTimestamps && convertTwos then ToSigned16(w) else w
  {
    match Unswizzle(dialect, d)
    case Err(e) => Err(e)
    case Ok(words) =>
      if dialect == AdcNoTimestamps && convertTwos then
        Ok(seq(|words|, k requires 0 <= k < |words| =>
          seq(|words[k]|, j requires 0 <= j < |words[k]| => ToSigned16(words[k][j]))))
      else
        Ok(seq(|words|, k requires 0 <= k < |words| => seq(|words[k]|, j requires 0 <= j < |words[k]| => words[k][j] as int)))
  }

  /** A raw block of whole groups always decodes, every channel holding one
      sample per group. */
  lemma WholeGroupsDecode(dialect: Dialect, d: seq<Byte>)
    requires |d| % GroupSize(dialect) == 0
    ensures Unswizzle(dialect, d).Ok?
    ensures forall k :: 0 <= k < ChannelCount(dialect) ==>
      |Unswizzle(dialect, d).value[k]| == |d| / GroupSize(dialect)
  {
    forall s | 0 <= s < ChannelCount(dialect)
      ensures Broadcasts(|d|, dialect, s)
      ensures StreamLength(|d|, dialect, s) == |d| / GroupSize(dialect)
    {
      SliceOfWholeGroups(|d|, 2 * s, GroupSize(dialect));
      SliceOfWholeGroups(|d|, 2 * s + 1, GroupSize(dialect));
    }
  }

  /** A block that stops one byte into a group still decodes: numpy repeats
      the single high byte of the first stream, so that stream has two
      samples and the second joins `d[g]` with `d[1]`. */
  lemma OneByteTailBroadcasts(dialect: Dialect, d: seq<Byte>)
    requires |d| == GroupSize(dialect) + 1
    ensures Unswizzle(dialect, d).Ok?
    ensures |Stream(d, dialect, 0)| == 2
    ensures Stream(d, dialect, 0)[1] == Join(d[GroupSize(dialect)], d[1])
  {
    var g := GroupSize(dialect);
    forall s | 0 <= s < ChannelCount(dialect)
      ensures Broadcasts(|d|, dialect, s)
    {
      TailSliceLengths(g, s);
    }
    TailSliceLengths(g, 0);
    TailFirstStream(dialect, d);
  }

  lemma TailFirstStream(dialect: Dialect, d: seq<Byte>)
    requires |d| == GroupSize(dialect) + 1 && Broadcasts(|d|, dialect, 0)
    requires StreamLength(|d|, dialect, 0) == 2
    ensures Stream(d, dialect, 0)[1] == Join(d[GroupSize(dialect)], d[1])
  {
    var w := Stream(d, dialect, 0);
    assert Offset(dialect, 0, 1) == GroupSize(dialect);
    assert 1 < |w| && |d| <= Offset(dialect, 0, 1) + 1;
  }

  /** Slice lengths of a block of one group and one byte. */
  lemma TailSliceLengths(g: nat, s: nat)
    requires g >= 2 && g % 2 == 0 && 2 * s < g
    ensures SliceLength(g + 1, 2 * s + 1, g) == 1
    ensures SliceLength(g + 1, 2 * s, g) == if s == 0 then 2 else 1
  {
    Bits.DivModUnique(g + 1 + g - 1 - (2 * s + 1), g, 1, g - 1 - 2 * s);
    if s == 0 {
      Bits.DivModUnique(g + 1 + g - 1, g, 2, 0);
    } else {
      Bits.DivModUnique(g + 1 + g - 1 - 2 * s, g, 1, g - 2 * s);
    }
  }

  /** Two whole groups and one byte do not decode: the first stream's slices
      have three and two elements, which numpy cannot add. */
  lemma LongerTailMismatch(dialect: Dialect, d: seq<Byte>)
    requires |d| == 2 * GroupSize(dialect) + 1
    ensures Unswizzle(dialect, d) == Err(BroadcastMismatch(0))
  {
    var g := GroupSize(dialect);
    Bits.DivModUnique(2 * g + 1 + g - 1, g, 3, 0);
    Bits.DivModUnique(2 * g + 1 + g - 1 - 1, g, 2, g - 1);
    assert !Broadcasts(|d|, dialect, 0);
  }

  /** Channels of equal length `m`, one per channel of the layout. */
  predicate WellFormed(dialect: Dialect, channels: seq<seq<Word16>>, m: nat)
  {
    |channels| == ChannelCount(dialect) && forall k :: 0 <= k < |channels| ==> |channels[k]| == m
  }

  /** The inverse of `Unswizzle`: re-interleaves channels into a raw block. */
  function Reswizzle(dialect: Dialect, channels: seq<seq<Word16>>, m: nat): (d: seq<Byte>)
    requires WellFormed(dialect, channels, m)
    ensures |d| == GroupSize(dialect) * m
  {
    seq(GroupSize(dialect) * m, p requires 0 <= p < GroupSize(dialect) * m =>
      ReswizzleByte(dialect, channels, m, p))
  }

  /** Byte `p` of the re-interleaved block: in group `p / g`, the low or high
      byte of the sample of the channel that stream `(p % g) / 2` feeds. */
  function ReswizzleByte(dialect: Dialect, channels: seq<seq<Word16>>, m: nat, p: nat): Byte
    requires WellFormed(dialect, channels, m) && p < GroupSize(dialect) * m
  {
    var g := GroupSize(dialect);
    var j, r := p / g, p % g;
    assert j < m by { Bits.FloorDivBound(m, p, g); }
    ByteOf(channels[Target(dialect, r / 2)][j], r % 2)
  }

  /** Re-interleaving then deswizzling gives back the channels. */
  lemma UnswizzleReswizzle(dialect: Dialect, channels: seq<seq<Word16>>, m: nat)
    requires WellFormed(dialect, channels, m)
    ensures Unswizzle(dialect, Reswizzle(dialect, channels, m)) == Ok(channels)
  {
    var g := GroupSize(dialect);
    var d := Reswizzle(dialect, channels, m);
    assert |d| % g == 0 && |d| / g == m by {
      Bits.DivModUnique(|d|, g, m, 0);
    }
    WholeGroupsDecode(dialect, d);
    var r := Unswizzle(dialect, d).value;
    forall k | 0 <= k < ChannelCount(dialect)
      ensures r[k] == channels[k]
    {
      assert |r[k]| == m;
      forall j | 0 <= j < m
        ensures r[k][j] == channels[k][j]
      {
        ReswizzleSample(dialect, channels, m, k, j);
      }
    }
    assert r == channels;
  }

  /** Sample `j` of channel `k`, read back from the re-interleaved block. */
  lemma ReswizzleSample(dialect: Dialect, channels: seq<seq<Word16>>, m: nat, k: nat, j: nat)
    requires WellFormed(dialect, channels, m) && k < ChannelCount(dialect) && j < m
    requires Broadcasts(|Reswizzle(dialect, channels, m)|, dialect, Source(dialect, k))
    requires j < StreamLength(|Reswizzle(dialect, channels, m)|, dialect, Source(dialect, k))
    ensures Stream(Reswizzle(dialect, channels, m), dialect, Source(dialect, k))[j] == channels[k][j]
  {
    var d := Reswizzle(dialect, channels, m);
    ReswizzleAt(dialect, channels, m, k, j);
    StreamPair(d, dialect, Source(dialect, k), j);
    SplitJoin(channels[k][j]);
  }

  /** Sample `j` of stream `s`, when its high byte is the one after its low byte. */
  lemma StreamPair(d: seq<Byte>, dialect: Dialect, s: nat, j: nat)
    requires s < ChannelCount(dialect) && Broadcasts(|d|, dialect, s)
    requires j < |Stream(d, dialect, s)| && Offset(dialect, s, j) + 1 < |d|
    ensures Stream(d, dialect, s)[j] == Join(d[Offset(dialect, s, j)], d[Offset(dialect, s, j) + 1])
  {
    assert HighOffset(|d|, dialect, s, j) == Offset(dialect, s, j) + 1;
  }

  /** Where `Reswizzle` puts sample `j` of channel `k`: its two bytes sit at the
      offset that `Unswizzle` reads channel `k` from. */
  lemma ReswizzleAt(dialect: Dialect, channels: seq<seq<Word16>>, m: nat, k: nat, j: nat)
    requires WellFormed(dialect, channels, m) && k < ChannelCount(dialect) && j < m
    ensures var d, at := Reswizzle(dialect, channels, m), Offset(dialect, Source(dialect, k), j);
      at + 1 < |d| && d[at] == channels[k][j] % 0x100 && d[at + 1] == channels[k][j] / 0x100
  {
    var g := GroupSize(dialect);
    var s := Source(dialect, k);
    var at := Offset(dialect, s, j);
    SourceTargetInverse(dialect, k);
    assert at + 1 < g * m by { Bits.MulMonotone(g, j + 1, m); }
    Bits.DivModUnique(at, g, j, 2 * s);
    Bits.DivModUnique(at + 1, g, j, 2 * s + 1);
  }

  /** Byte `p` of a block lies in group `p / g`, stream `(p % g) / 2`, as
      its low or high byte. */
  lemma BytePosition(p: nat, g: nat)
    requires g > 0 && g % 2 == 0
    ensures p == g * (p / g) + 2 * ((p % g) / 2) + (p % g) % 2
  {
  }

  /** When the channel that stream `s` feeds is that stream, re-interleaving
      puts both bytes of its sample `j` back where the stream read them from. */
  lemma ReswizzleStreamBytes(dialect: Dialect, d: seq<Byte>, channels: seq<seq<Word16>>, m: nat,
                             j: nat, s: nat)
    requires WellFormed(dialect, channels, m) && j < m && s < ChannelCount(dialect)
    requires |d| == GroupSize(dialect) * m && Broadcasts(|d|, dialect, s)
    requires channels[Target(dialect, s)] == Stream(d, dialect, s)
    ensures var at, back := Offset(dialect, s, j), Reswizzle(dialect, channels, m);
      at + 1 < |d| && back[at] == d[at] && back[at + 1] == d[at + 1]
  {
    var k := Target(dialect, s);
    SourceTargetInverse(dialect, s);
    var at := Offset(dialect, s, j);
    ReswizzleAt(dialect, channels, m, k, j);
    StreamPair(d, dialect, s, j);
  }

  /** Every byte of a whole-group block comes back after re-interleaving the
      streams it was read into. */
  lemma ReswizzleByteBack(dialect: Dialect, d: seq<Byte>, channels: seq<seq<Word16>>, m: nat, p: nat)
    requires WellFormed(dialect, channels, m) && |d| == GroupSize(dialect) * m && p < |d|
    requires forall s :: 0 <= s < ChannelCount(dialect) ==> Broadcasts(|d|, dialect, s)
    requires forall k :: 0 <= k < ChannelCount(dialect) ==> channels[k] == Stream(d, dialect, Source(dialect, k))
    ensures p < |Reswizzle(dialect, channels, m)| && Reswizzle(dialect, channels, m)[p] == d[p]
  {
    var g := GroupSize(dialect);
    var j, r := p / g, p % g;
    assert j < m by { Bits.FloorDivBound(m, p, g); }
    var s, b := r / 2, r % 2;
    var at := Offset(dialect, s, j);
    assert p == at + b by { BytePosition(p, g); }
    SourceTargetInverse(dialect, s);
    assert channels[Target(dialect, s)] == Stream(d, dialect, s);
    ReswizzleStreamBytes(dialect, d, channels, m, j, s);
    if b == 0 {
      assert p == at;
    } else {
      assert p == at + 1;
    }
  }

  /** Deswizzling a block of whole groups then re-interleaving gives back the block. */
  lemma ReswizzleUnswizzle(dialect: Dialect, d: seq<Byte>)
    requires |d| % GroupSize(dialect) == 0
    ensures Unswizzle(dialect, d).Ok?
    ensures WellFormed(dialect, Unswizzle(dialect, d).value, |d| / GroupSize(dialect))
    ensures Reswizzle(dialect, Unswizzle(dialect, d).value, |d| / GroupSize(dialect)) == d
  {
    var g := GroupSize(dialect);
    var m := |d| / g;
    WholeGroupsDecode(dialect, d);
    var channels := Unswizzle(dialect, d).value;
    var back := Reswizzle(dialect, channels, m);
    assert g * m == |d|;
    forall p | 0 <= p < |d|
      ensures back[p] == d[p]
    {
      ReswizzleByteBack(dialect, d, channels, m, p);
    }
  }

}

/** DAC frame striping (DDR3.write_channels): the eight channel buffers are
    interleaved into one stream of 16-bit words, one word per channel in every
    group of eight, with the pairs of the 32-bit pipe swapped. */
module Striping {
  import opened Results
  import opened Words
  import Bits

  const NumChannels: nat := 8

  /** The word offset of channel `i` inside each group of eight:
      `7 - i - 1` for even `i`, `7 - i + 1` for odd `i`. */
  function SlotOf(i: nat): (slot: nat)
    requires i < NumChannels
    ensures slot < NumChannels
  {
    if i % 2 == 0 then 7 - i - 1 else 7 - i + 1
  }

  /** The slot map undoes itself, so it is a permutation of 0..7. */
  lemma SlotOfInvolution(i: nat)
    requires i < NumChannels
    ensures SlotOf(SlotOf(i)) == i
  {
  }

  lemma SlotsDistinct(i: nat, i': nat)
    requires i < NumChannels && i' < NumChannels && i != i'
    ensures SlotOf(i) != SlotOf(i')
  {
    SlotOfInvolution(i);
    SlotOfInvolution(i');
  }

  datatype StripeError = ChannelLengthMismatch(channel: nat)

  /** `data[slot::8] = channel` succeeds when the channel has one sample per
      group or a single sample that numpy broadcasts to every group. */
  predicate Fits(channel: seq<Word16>, groups: nat)
  {
    |channel| == groups || |channel| == 1
  }

  /** Sample `j` as numpy's assignment sees it, broadcasting a one-sample channel. */
  function SampleAt(channel: seq<Word16>, j: nat): Word16
    requires |channel| == 1 || j < |channel|
  {
    if |channel| == 1 then channel[0] else channel[j]
  }

  /** The first channel, from `i` on, whose assignment numpy would reject. */
  function FirstMismatch(channels: seq<seq<Word16>>, groups: nat, i: nat): (m: Option<nat>)
    requires |channels| == NumChannels && i <= NumChannels
    ensures m.None? <==> forall c :: i <= c < NumChannels ==> Fits(channels[c], groups)
    ensures m.Some? ==> (i <= m.value < NumChannels && !Fits(channels[m.value], groups)
      && forall c :: i <= c < m.value ==> Fits(channels[c], groups))
    decreases NumChannels - i
  {
    if i == NumChannels then None
    else if !Fits(channels[i], groups) then Some(i)
    else FirstMismatch(channels, groups, i + 1)
  }

  /** The striped word stream of DDR3.write_channels. Its length is eight
      times the length of channel 0. */
  function Stripe(channels: seq<seq<Word16>>): (r: Result<seq<Word16>, StripeError>)
    requires |channels| == NumChannels
    ensures r.Ok? <==> forall c :: 0 <= c < NumChannels ==> Fits(channels[c], |channels[0]|)
    ensures r.Err? ==> r.error.channel < NumChannels && !Fits(channels[r.error.channel], |channels[0]|)
    ensures r.Ok? ==> |r.value| == NumChannels * |channels[0]|
    ensures r.Ok? ==> forall i, j :: 0 <= i < NumChannels && 0 <= j < |channels[0]| ==>
      r.value[Position(i, j)] == SampleAt(channels[i], j)
  {
    var groups := |channels[0]|;
    match FirstMismatch(channels, groups, 0)
    case Some(c) => Err(ChannelLengthMismatch(c))
    case None =>
      var words := seq(NumChannels * groups, k requires 0 <= k < NumChannels * groups =>
        SlotOfInvolution(k % NumChannels);
        GroupBound(k, groups);
        SampleAt(channels[SlotOf(k % NumChannels)], k / NumChannels));
      assert forall i, j :: 0 <= i < NumChannels && 0 <= j < groups ==>
        words[Position(i, j)] == SampleAt(channels[i], j) by {
        forall i, j | 0 <= i < NumChannels && 0 <= j < groups
          ensures words[Position(i, j)] == SampleAt(channels[i], j)
        {
          WordPosition(i, j, groups);
          SlotOfInvolution(i);
        }
      }
      Ok(words)
  }

  lemma GroupBound(k: nat, groups: nat)
    requires k < NumChannels * groups
    ensures k / NumChannels < groups
  {
  }

  /** The frame position of sample `j` of channel `i`. */
  function Position(i: nat, j: nat): nat
    requires i < NumChannels
  {
    NumChannels * j + SlotOf(i)
  }

  /** Sample `j` of channel `i` lies in group `j` at slot `SlotOf(i)`. */
  lemma WordPosition(i: nat, j: nat, groups: nat)
    requires i < NumChannels && j < groups
    ensures Position(i, j) < NumChannels * groups
    ensures Position(i, j) % NumChannels == SlotOf(i)
    ensures Position(i, j) / NumChannels == j
  {
    Bits.DivModUnique(Position(i, j), NumChannels, j, SlotOf(i));
  }

  /** Every word of the frame is written exactly once: each position belongs to
      one channel and one group, and no two (channel, group) pairs share one. */
  lemma StripeCoversOnce(k: nat, groups: nat)
    requires k < NumChannels * groups
    ensures var i, j := SlotOf(k % NumChannels), k / NumChannels;
      j < groups && Position(i, j) == k
    ensures forall i, j, i', j' ::
      (0 <= i < NumChannels && 0 <= i' < NumChannels && 0 <= j < groups && 0 <= j' < groups &&
       Position(i, j) == k && Position(i', j') == k) ==> i == i' && j == j'
  {
    SlotOfInvolution(k % NumChannels);
    forall i, j, i', j' |
      0 <= i < NumChannels && 0 <= i' < NumChannels && 0 <= j < groups && 0 <= j' < groups &&
      Position(i, j) == k && Position(i', j') == k
      ensures i == i' && j == j'
    {
      WordPosition(i, j, groups);
      WordPosition(i', j', groups);
      SlotOfInvolution(i);
      SlotOfInvolution(i');
    }
  }

  /** Reads channel buffers back out of a striped word stream. */
  function Unstripe(words: seq<Word16>): (channels: seq<seq<Word16>>)
    requires |words| % NumChannels == 0
    ensures |channels| == NumChannels
    ensures forall i :: 0 <= i < NumChannels ==> |channels[i]| == |words| / NumChannels
  {
    var groups := |words| / NumChannels;
    seq(NumChannels, i requires 0 <= i < NumChannels =>
      seq(groups, j requires 0 <= j < groups =>
        WordPosition(i, j, groups);
        words[Position(i, j)]))
  }

  /** Striping equal-length channels and reading them back gives the channels. */
  lemma UnstripeStripe(channels: seq<seq<Word16>>)
    requires |channels| == NumChannels
    requires forall c :: 0 <= c < NumChannels ==> |channels[c]| == |channels[0]|
    ensures Stripe(channels).Ok?
    ensures Unstripe(Stripe(channels).value) == channels
  {
    assert forall c :: 0 <= c < NumChannels ==> Fits(channels[c], |channels[0]|);
    var words := Stripe(channels).value;
    var back := Unstripe(words);
    forall i | 0 <= i < NumChannels
      ensures back[i] == channels[i]
    {
      UnstripeChannel(channels, words, i);
    }
  }

  /** Channel `i` read back from the striped stream of equal-length channels. */
  lemma UnstripeChannel(channels: seq<seq<Word16>>, words: seq<Word16>, i: nat)
    requires |channels| == NumChannels && i < NumChannels
    requires forall c :: 0 <= c < NumChannels ==> |channels[c]| == |channels[0]|
    requires Stripe(channels) == Ok(words)
    ensures |words| % NumChannels == 0
    ensures Unstripe(words)[i] == channels[i]
  {
    var groups := |channels[0]|;
    assert |words| == NumChannels * groups;
    assert |words| / NumChannels == groups;
    var back := Unstripe(words)[i];
    forall j | 0 <= j < groups
      ensures back[j] == channels[i][j]
    {
      UnstripeAt(words, i, j);
      assert |channels[i]| == groups;
      SampleAtOwn(channels[i], j);
      assert back[j] == words[Position(i, j)] == SampleAt(channels[i], j);
    }
  }

  /** A channel with a sample at `j` is not broadcast there. */
  lemma SampleAtOwn(channel: seq<Word16>, j: nat)
    requires j < |channel|
    ensures SampleAt(channel, j) == channel[j]
  {
  }

  /** Sample `j` of channel `i` read back from a word stream. */
  lemma UnstripeAt(words: seq<Word16>, i: nat, j: nat)
    requires |words| % NumChannels == 0 && i < NumChannels && j < |words| / NumChannels
    ensures Position(i, j) < |words|
    ensures Unstripe(words)[i][j] == words[Position(i, j)]
  {
    WordPosition(i, j, |words| / NumChannels);
  }

  /** Reading channels out of a word stream and striping them again gives the stream. */
  lemma StripeUnstripe(words: seq<Word16>)
    requires |words| % NumChannels == 0
    ensures Stripe(Unstripe(words)) == Ok(words)
  {
    var channels := Unstripe(words);
    var groups := |words| / NumChannels;
    assert NumChannels * groups == |words|;
    assert |channels[0]| == groups;
    var r := Stripe(channels);
    assert r.Ok?;
    forall k | 0 <= k < |words|
      ensures r.value[k] == words[k]
    {
      var i := SlotOf(k % NumChannels);
      var j := k / NumChannels;
      StripeCoversOnce(k, groups);
      assert r.value[Position(i, j)] == SampleAt(channels[i], j);
      assert channels[i][j] == words[Position(i, j)];
    }
    assert r.value == words;
  }

  /** The byte frame DDR3.write_channels hands to write_buf. */
  function Frame(channels: seq<seq<Word16>>): (r: Result<seq<Byte>, StripeError>)
    requires |channels| == NumChannels
    ensures r.Ok? <==> Stripe(channels).Ok?
    ensures r.Ok? ==> |r.value| == 2 * NumChannels * |channels[0]|
    ensures r.Ok? ==> FromBytes(r.value) == Stripe(channels).value
  {
    match Stripe(channels)
    case Err(e) => Err(e)
    case Ok(words) =>
      WordsRoundTrip(words);
      Ok(ToBytes(words))
  }
}

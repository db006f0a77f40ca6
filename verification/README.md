# pyripherals DDR3 and PIT drivers in Dafny

This project models the integer and bit-level core of two pyripherals
drivers for an Opal Kelly FPGA board.

The **DDR3** driver does five jobs:
- It builds waveforms for the circular DAC playback buffer.
- It stripes eight DAC channels into one 16-bit word stream.
- It sequences the enable and FIFO-reset bits of the DDR interface.
- It validates ADC block reads.
- It decodes the captured byte stream into channels and named records, and grows the stored dataset chunk by chunk.

The **PIT** driver talks to a programmable interval timer over a Wishbone bridge:
- Each register access is a 32-bit command word written to a wire, followed by a masked deassert of the handshake bits.
- Writes to a field of CTRL first read CTRL back.
- `set_period` chooses a power-of-two prescaler so the count fits the 16-bit MOD register.

## Modules

| file | module | what it holds |
|---|---|---|
| results.dfy | `Results` | `Result` and `Option` |
| words.dfy | `Words` | bytes, 16-bit words, `uint16` wrap-around, little-endian byte round trips |
| bits.dfy | `Bits` | Python's `&`, `|`, `^`, `<<`, `>>` on unbounded naturals, with per-bit lemmas |
| waveform.dfy | `Waveform` | `SAMPLE_SIZE`, `np.arange`/`np.tile`, flat, ramp and step waves, chirp segment layout |
| striping.dfy | `Striping` | the slot map of `write_channels`, the striped frame and its inverse |
| deswizzle.dfy | `StreamDecode` | numpy slicing, the two byte layouts of `deswizzle`, broadcasting errors, the inverse interleave |
| names.dfy | `DataNames` | `data_to_names`: timestamps, read checks, sequence counters, the error flag |
| control.dfy | `DdrControl` | control bits as a state, driver operations as event traces |
| capture.dfy | `Capture` | `read_adc_block` checks and `save_data` growth |
| pit.dfy | `Pit` | Wishbone command words, wire semantics, `set_period`, reset, `create_chips` |

Inputs that the source takes from floats, the transport or the FPGA become parameters:
- the snapped ramp and step lengths;
- the chirp's per-segment lengths;
- the PIT tick count;
- the bytes a block read returns;
- the value of the Wishbone output wire.

## Model

| member | source | states |
|---|---|---|
| Words.ToUint16 | python/src/pyripherals/peripherals/DDR3.py:306 | `astype(np.uint16)` keeps the value modulo 2^16 |
| Words.ToBytes | python/src/pyripherals/peripherals/DDR3.py:362 | `bytearray` of a `uint16` array has two bytes per word, low byte first, and they join back to the word |
| Words.WordsRoundTrip | python/src/pyripherals/peripherals/DDR3.py:362 | reading the bytes of a word array back as little-endian words gives the array |
| Words.BytesRoundTrip | python/src/pyripherals/peripherals/DDR3.py:362 | an even-length byte buffer read as words and written back gives the buffer |
| Words.ToBytesAt | python/src/pyripherals/peripherals/DDR3.py:362 | byte `2k+i` of the written buffer is the low (`i = 0`) or high (`i = 1`) byte of word `k` |
| Words.ByteRoundTrip | python/src/pyripherals/peripherals/DDR3.py:362 | each byte of an even-length buffer survives the word round trip at its own position |
| Waveform.Arange | python/src/pyripherals/peripherals/DDR3.py:295 | `np.arange` yields the arithmetic progression from `start` by `step` |
| Waveform.ArangeLengthMeaning | python/src/pyripherals/peripherals/DDR3.py:295-296 | element `k` exists exactly when `start + k*step` lies before `stop` in the step's direction |
| Waveform.ArangeSnapped | python/src/pyripherals/peripherals/DDR3.py:297-301 | snapping `stop` to `start + length*step` gives exactly `length` ramp values |
| Waveform.Tile | python/src/pyripherals/peripherals/DDR3.py:302-305 | whole tiles plus a prefix give exactly `n` values, value `i` being `base[i mod len(base)]` |
| Waveform.MakeFlatVoltage | python/src/pyripherals/peripherals/DDR3.py:101-121 | a buffer of `SAMPLE_SIZE` copies of the code |
| Waveform.MakeRamp | python/src/pyripherals/peripherals/DDR3.py:273-307 | fails exactly for a zero step or an empty cycle; otherwise `SAMPLE_SIZE` values, value `i` being `start + (i mod period)*step` wrapped to 16 bits |
| Waveform.MakeStep | python/src/pyripherals/peripherals/DDR3.py:310-346 | a negative part fails, an empty cycle fails; otherwise `SAMPLE_SIZE` values, low for the first `l_first` of each cycle and high for the rest |
| Waveform.StepWithoutLowIsFlat | python/src/pyripherals/peripherals/DDR3.py:338-346 | a step with no low part equals the flat voltage of its high code |
| Waveform.StepPeriodic | python/src/pyripherals/peripherals/DDR3.py:338-346 | a step wave repeats after one cycle |
| Waveform.MakeChirp | python/src/pyripherals/peripherals/DDR3.py:232-269 | rejects `amplitude > offset` before anything else; succeeds exactly when every segment has in-range sine samples and fits its slice (a one-sample segment always fits, by broadcasting); otherwise names the first failing segment, as `SineOverflow` when its samples leave the uint16 range and as `SegmentOverflow` when they are in range but the slice is shorter; on success the ranges start at 0 and chain, each of its computed length |
| Waveform.LaidAppend | python/src/pyripherals/peripherals/DDR3.py:243-268 | one loop iteration that passes both checks extends the layout, and the next segment starts where this one ends |
| Waveform.SegmentPlaced | python/src/pyripherals/peripherals/DDR3.py:248-268 | an accepted segment with the last frequency that starts inside the buffer ends at `SAMPLE_SIZE`; an accepted segment crossing the end is the single sample at `SAMPLE_SIZE` |
| Waveform.LastSegmentEnds | python/src/pyripherals/peripherals/DDR3.py:248-268 | the last segment of a complete chirp ends at `SAMPLE_SIZE`, or is empty and lies past it |
| Waveform.OneSamplePastEnd | python/src/pyripherals/peripherals/DDR3.py:264-268 | a one-sample segment that starts at `SAMPLE_SIZE` is accepted and the next segment starts at `SAMPLE_SIZE + 1` |
| Waveform.ChainedPartition | python/src/pyripherals/peripherals/DDR3.py:243-268 | the returned ranges cover every index up to the last end exactly once |
| Waveform.ChainedOrdered | python/src/pyripherals/peripherals/DDR3.py:266-268 | a later segment starts no earlier than an earlier one ends |
| Striping.SlotOfInvolution | python/src/pyripherals/peripherals/DDR3.py:355-359 | the slot map `6-i` / `8-i` undoes itself, so it permutes 0..7 |
| Striping.SlotsDistinct | python/src/pyripherals/peripherals/DDR3.py:355-359 | two channels never share a slot |
| Striping.Stripe | python/src/pyripherals/peripherals/DDR3.py:351-359 | fails exactly when some channel cannot be assigned to its slice; otherwise 8 words per group, channel `i` sample `j` at group `j` slot `SlotOf(i)` |
| Striping.StripeCoversOnce | python/src/pyripherals/peripherals/DDR3.py:351-359 | every word of the frame belongs to exactly one channel and group |
| Striping.UnstripeStripe | python/src/pyripherals/peripherals/DDR3.py:351-359 | striping equal-length channels and reading them back returns the channels |
| Striping.StripeUnstripe | python/src/pyripherals/peripherals/DDR3.py:351-359 | un-striping a frame and striping it again returns the frame |
| Striping.Frame | python/src/pyripherals/peripherals/DDR3.py:351-362 | the byte frame handed to `write_buf` reads back as the striped words |
| StreamDecode.SourceTargetInverse | python/src/pyripherals/peripherals/DDR3.py:655-679 | both channel permutations are bijections |
| StreamDecode.SliceIndex | python/src/pyripherals/peripherals/DDR3.py:652-668 | `d[start::step]` has an element `j` exactly when `start + step*j` is in range |
| StreamDecode.Slice | python/src/pyripherals/peripherals/DDR3.py:652-668 | element `j` of the slice is `d[start + step*j]` |
| StreamDecode.ToSigned16 | python/src/pyripherals/peripherals/DDR3.py:660-662 | the signed reading lies in [-32768, 32768) and agrees with the word modulo 2^16 |
| StreamDecode.SignedRoundTrip | python/src/pyripherals/peripherals/DDR3.py:660-662 | the signed reading loses nothing |
| StreamDecode.Stream | python/src/pyripherals/peripherals/DDR3.py:650-668 | the stream has the length of numpy's broadcast of its low and high slices; sample `j` joins the low byte at `g*j + 2s` with the high byte after it, or with the single high byte `d[2s+1]` when the high slice has one element |
| StreamDecode.StreamSampleAt | python/src/pyripherals/peripherals/DDR3.py:652-653 | a sample of the sum of the two slices joins the bytes at the low offset and at the (possibly broadcast) high offset |
| StreamDecode.Unswizzle | python/src/pyripherals/peripherals/DDR3.py:650-679 | fails exactly when numpy cannot add some stream's low and high slices (their lengths differ and neither is 1), naming such a stream; output channel `k` is stream `[2,3,0,1][k]` or `[6,7,5,4,2,3,0,1][k]` |
| StreamDecode.OneByteTailBroadcasts | python/src/pyripherals/peripherals/DDR3.py:650-668 | a block one byte longer than a group decodes; its first stream has two samples, the second joining `d[g]` with the broadcast `d[1]` |
| StreamDecode.LongerTailMismatch | python/src/pyripherals/peripherals/DDR3.py:650-668 | a block of two groups and one byte fails at stream 0, whose slices have three and two elements |
| StreamDecode.Deswizzle | python/src/pyripherals/peripherals/DDR3.py:629-681 | fails exactly when `Unswizzle` does; signed conversion only in the legacy layout with `convert_twos`; otherwise the unsigned words |
| StreamDecode.WholeGroupsDecode | python/src/pyripherals/peripherals/DDR3.py:650-679 | a block of whole groups always decodes, one sample per channel per group |
| StreamDecode.UnswizzleReswizzle | python/src/pyripherals/peripherals/DDR3.py:650-679 | interleaving channels and deswizzling returns them |
| StreamDecode.ReswizzleUnswizzle | python/src/pyripherals/peripherals/DDR3.py:650-679 | every byte of a whole-group block is read exactly once: deswizzling and re-interleaving returns the block |
| DataNames.EffectiveVersion | python/src/pyripherals/peripherals/DDR3.py:722-728 | the given bitfile version, else the FPGA's, else 1 |
| DataNames.TimestampFields | python/src/pyripherals/peripherals/DDR3.py:750-754 | a timestamp fits in 48 bits and its three 16-bit fields are recovered from it |
| DataNames.TimestampSeries | python/src/pyripherals/peripherals/DDR3.py:746-754 | one timestamp fewer than high fields; each combines its low field (channel 6 or 7 by version), middle and high fields |
| DataNames.MultipleIntervals | python/src/pyripherals/peripherals/DDR3.py:793-794 | reports more than one interval exactly when some step differs from the first |
| DataNames.MultipleIntervalsMeaning | python/src/pyripherals/peripherals/DDR3.py:793-796 | reports more than one interval exactly when two steps differ |
| DataNames.SequenceCount | python/src/pyripherals/peripherals/DDR3.py:762-764 | each sequence count is the low five bits of its read-check word |
| DataNames.NamesOf | python/src/pyripherals/peripherals/DDR3.py:739-798 | the ADC channels are channels 0-3; the error flag is set exactly when a masked read check fails or the timestamp steps are not all equal |
| DataNames.DataToNames | python/src/pyripherals/peripherals/DDR3.py:683-798 | records only for the TIMESTAMPS layout, decoded with the effective version; the ADC_NO_TIMESTAMPS layout, with its four channels, gives no records |
| DataNames.SequenceCounterIgnored | python/src/pyripherals/peripherals/DDR3.py:762-786 | the sequence counter bits under mask 0xffe0 do not disturb the check, and `& 0x1f` recovers them |
| DataNames.CountingTimestampsSameStep | python/src/pyripherals/peripherals/DDR3.py:793-796 | evenly spaced timestamps never raise the interval error |
| DataNames.WholeGroupsName | python/src/pyripherals/peripherals/DDR3.py:746-754 | a whole-group TIMESTAMPS capture gives channels 6 and 7 the same length |
| DdrControl.RunAppend | python/src/pyripherals/peripherals/DDR3.py:453-535 | playing two event runs in turn equals playing them together |
| DdrControl.UntouchedFlag | python/src/pyripherals/peripherals/DDR3.py:453-535 | a bit no event writes keeps its value in every state |
| DdrControl.LastWrite | python/src/pyripherals/peripherals/DDR3.py:453-535 | the last event writing a bit decides its final value |
| DdrControl.ResetFifo | python/src/pyripherals/peripherals/DDR3.py:537-558 | 'ALL' pulses the four resets in order, a known name pulses its own, any other name writes nothing |
| DdrControl.ResetFifoLeavesClear | python/src/pyripherals/peripherals/DDR3.py:537-558 | a FIFO reset leaves the enables alone and the pulsed reset bits clear |
| DdrControl.DebugBit | python/src/pyripherals/peripherals/DDR3.py:78-98 | the constructor's final step clears ADC_DEBUG and `set_adc_debug` sets it; nothing else changes |
| DdrControl.DebugThenInit | python/src/pyripherals/peripherals/DDR3.py:78-98 | setting the debug bit and then constructing the driver leaves the bit clear, as constructing alone does |
| DdrControl.AdcSingleSets | python/src/pyripherals/peripherals/DDR3.py:560-568 | `adc_single` sets ADC_ADDR_SET and changes nothing else; the address-reset trigger holds no state |
| DdrControl.WriteFinish | python/src/pyripherals/peripherals/DDR3.py:490-501 | one write asserts ADC writing, DAC playback and ADC transfer together |
| DdrControl.WriteChannels | python/src/pyripherals/peripherals/DDR3.py:348-362 | fails exactly when striping fails; otherwise writes the striped frame through `write_buf` |
| DdrControl.WriteBufExclusive | python/src/pyripherals/peripherals/DDR3.py:364-402 | DAC writing and DAC playback are never on together; ADC writing is untouched; the buffer goes out with DAC writing on and playback off |
| DdrControl.WriteBufFinal | python/src/pyripherals/peripherals/DDR3.py:398-402 | DAC writing ends off; with `set_ddr_read` playback and ADC transfer end on |
| DdrControl.WriteSetupFinal | python/src/pyripherals/peripherals/DDR3.py:925-936 | playback, ADC writing and transfer end off, all FIFO resets clear, ADC pacing follows its argument, then the UI reset |
| DdrControl.RepeatSetupFinal | python/src/pyripherals/peripherals/DDR3.py:938-951 | repeat_setup ends with the three enables on and every FIFO reset clear |
| DdrControl.RepeatSetupSingleWrite | python/src/pyripherals/peripherals/DDR3.py:938-951 | the three enables come on only in the final simultaneous write |
| DdrControl.SessionPlaysBack | python/src/pyripherals/peripherals/DDR3.py:925-955 | setup, buffer write and finish leave playback, ADC writing and transfer on and DAC writing off |
| Capture.BufferLength | python/src/pyripherals/peripherals/DDR3.py:596-600 | the read buffer is the given size, else eight bytes per buffer sample |
| Capture.ReadAdcBlock | python/src/pyripherals/peripherals/DDR3.py:602-622 | -1 exactly when the block size is not a multiple of 16, -2 exactly when it exceeds 16384, -11 exactly for an unknown source |
| Capture.ConfiguredBlockAccepted | python/src/pyripherals/peripherals/DDR3.py:602-622 | the driver's own block size only fails on an unknown source |
| Capture.MultiplesOf16Accepted | python/src/pyripherals/peripherals/DDR3.py:602-622 | every multiple of 16 up to 16384 passes both size checks, so the result fails exactly for an unknown source |
| Capture.NonPowerOfTwoAccepted | python/src/pyripherals/peripherals/DDR3.py:602-609 | block sizes 48 and 0 pass the checks, though the docstring asks for powers of two |
| Capture.ChunkSize | python/src/pyripherals/peripherals/DDR3.py:838 | a chunk is one reading per channel for every 16 bytes read |
| Capture.BlockColumnsMeaning | python/src/pyripherals/peripherals/DDR3.py:865-878 | reading `c` of column `j` is the word the TIMESTAMPS layout puts there |
| Capture.BlockAt | python/src/pyripherals/peripherals/DDR3.py:864-887 | block read `r` fills columns `r*chunk` to `(r+1)*chunk` |
| Capture.SaveData | python/src/pyripherals/peripherals/DDR3.py:838-888 | a version mismatch on append leaves the dataset as stored; the legacy layout fails after the first chunk; an empty chunk with a block to read fails on a dataset that already holds columns, since `data_set[:, -0:]` selects all of them; otherwise the stored columns are kept and the new ones appended and returned |
| Capture.NewColumnsLayout | python/src/pyripherals/peripherals/DDR3.py:851-888 | the dataset grows by `chunk*max(1, num_repeats)` columns, block by block |
| Pit.WireAfterBit | python/src/pyripherals/peripherals/PIT.py:111-120 | a masked wire write changes exactly the masked bits |
| Pit.CommandBit | python/src/pyripherals/peripherals/PIT.py:104-109 | the command word's bits are those of the address field, the data and the control bits |
| Pit.WbRead | python/src/pyripherals/peripherals/PIT.py:122-146 | the result is below `2^width`; its bit `j` is wire bit `low + j` for `j < width` |
| Pit.WbReadHandshake | python/src/pyripherals/peripherals/PIT.py:125-144 | the read command has WE low and CYCLE, STROBE and RESET high; the deassert clears only CYCLE and STROBE |
| Pit.WbWriteHandshake | python/src/pyripherals/peripherals/PIT.py:104-120 | the write command has WE, CYCLE, STROBE and RESET high; the deassert clears exactly WE, CYCLE and STROBE and keeps every other bit |
| Pit.FieldWriteKeepsNeighbours | python/src/pyripherals/peripherals/PIT.py:93-102 | data that fits the field lands in the field; every other CTRL bit keeps the read-back value |
| Pit.WideDataSpills | python/src/pyripherals/peripherals/PIT.py:95-102 | data wider than the field but within 16 bits sets bits outside the field, whatever CTRL held |
| Pit.CommandCarriesData | python/src/pyripherals/peripherals/PIT.py:109-112 | with address and control bits above bit 15, the low 16 bits of the command are the write data |
| Pit.ResetTouchesOnlyReset | python/src/pyripherals/peripherals/PIT.py:151-164 | `reset` drives RESET low and `reset_clear` drives it high; no other wire bit changes |
| Pit.PrescalerUnique | python/src/pyripherals/peripherals/PIT.py:174-179 | each tick count has exactly one smallest sufficient prescaler |
| Pit.ChoosePrescaler | python/src/pyripherals/peripherals/PIT.py:174-179 | the prescaler is the smallest `p` with `ticks <= 65535*2^p`, and 0 below 65535 |
| Pit.SetPeriod | python/src/pyripherals/peripherals/PIT.py:166-195 | MOD is `ticks/2^p` and at most 65535; a prescaler above 15 is flagged but still written; writes go CNT_EN=0, MOD, PRE_SCALR, CNT_EN=1 |
| Pit.PeriodAccuracy | python/src/pyripherals/peripherals/PIT.py:174-179 | the programmed period falls short of the ticks by less than one prescaler step; with a prescaler MOD stays in the upper half of its range |
| Pit.PrescalerLimit | python/src/pyripherals/peripherals/PIT.py:180-181 | the prescaler stays within 15 exactly for counts up to `65535*2^15` |
| Pit.StopStartEnable | python/src/pyripherals/peripherals/PIT.py:191-195 | stop writes 0 and start writes 1 to CNT_EN, keeping the other bits of the shared register |
| Pit.CreateChips | python/src/pyripherals/peripherals/PIT.py:41-89 | refuses a count that is not a positive int; otherwise one chip per index, in order |

## Left out

- Transport calls (`WriteToBlockPipeIn`, `ReadFromBlockPipeOut`, `set_wire`, `read_wire`, triggers). They appear as events or as input values. Their returned counts and the write speed are not modelled.
- `Pit.WireAfter`: the FPGA wire semantics `(old & ~mask) | (value & mask)` on 32 bits are assumed. The FPGA interface is not part of this model.
- `time.time`/`time.sleep` timing, all `print` diagnostics and `print_fifo_status`.
- `fifo_status`: its meaning rests on `gen_mask`, which is not part of this model.
- h5py file handling, the file-mode choice and `os` calls. `save_data` works on an abstract dataset (a column sequence plus a version tag).
- `Capture.ReadAdcBlock`: takes the block size as a parameter. The driver always passes `BLOCK_SIZE` (2048), and `Capture.ConfiguredBlockAccepted` states that call.
- `Capture.SaveData`: the FPGA's bitfile version is an int. The case where the FPGA reports no version is not modelled.
- `Capture.SaveData`: the `repeat == 0` branch of the loop is dead code. The model keeps the loop's effect and not the branch.
- Floating point:
  - `closest_frequency`, `make_sine_wave` and the sine values of `make_chirp` are not modelled.
  - The snapped lengths of `make_ramp`/`make_step` are inputs.
  - So are the chirp segment lengths.
  - So is the PIT tick count `T * 200e6`, as a natural number.
- `Waveform.MakeStep`: `l_first` and `l_end` are inputs. Their float expressions `int(length/100*duty)` are not modelled.
- `Waveform.MakeFlatVoltage`: the amplitude is taken as a 16-bit code. The float-to-`uint16` cast of an arbitrary amplitude is not modelled.
- `Pit.ChoosePrescaler`: computes the exact smallest prescaler. Float rounding in `ceil(log2(cnt/65535))` is not modelled.
- Negative periods in `set_period` are not modelled.
- `Words.ToBytes`: writes words little-endian. `bytearray` of a `uint16` array uses the host's native byte order, so big-endian hosts are not modelled.
- `Capture.BufferLength`: takes numpy's default integer as 8 bytes. Where it is 4 bytes (Windows with NumPy 1.x) the buffer is half as long; that case is not modelled.
- `Waveform.MakeStep`: `low` and `high` are taken as 16-bit codes. The float-to-`uint16` cast of `np.ones(l)*low` and `np.ones(l)*high` for other values is not modelled.
- `Waveform.MakeChirp`: whether a segment's sine samples leave `[0, 2^16 - 1]` is the input `leavesRange`, since it depends on floating-point sines. `len(t)` of the float `np.arange` is taken to be the chirp length.
- `Capture.SaveData`: `blk_multiples` is a natural number. Negative multiples are not modelled.
- `custom_signed_to_int` is taken to be 16-bit two's complement. `utils` is not part of this model.
- `DataNames.DataToNames`: for the TIMESTAMPS layout, requires eight channels with channels 6 and 7 of the same length. `DataNames.WholeGroupsName` shows that every whole-group capture meets this.
- `DataNames.NamesOf`: the DAC observer streams are stated only by their count. The model computes their contents, but no contract states them.
- `Endpoint.advance_endpoints` and the register table (`Register.get_chip_registers`) are not part of this model. Register layouts and endpoint bit positions are parameters.
- `Pit.CreateChips`: each chip records only its position and configuration; the endpoint advance is not modelled.
- `wb_reset`: a single trigger with no state of its own.
- `read_adc`, `set_index`, `reset_mig_interface` and `clear_adc_read`-style helpers outside the sequences above.
  - They are single bit writes or transport calls.
  - The set/clear helpers appear as `SetBit`/`ClearBit` events.

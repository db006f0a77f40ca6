/** DDR3 control sequencing: the enable bits of the DDR interface and the
    order in which the driver asserts and clears them around a DAC buffer
    write, a capture restart and a FIFO reset.

    Each driver operation is a trace of register events; `Run` plays a trace
    against the set of asserted bits. */
module DdrControl {
  import opened Results
  import opened Words
  import Striping

  /** The single-bit enables of the DDR interface. */
  datatype Flag =
    | DacWrite       // DAC_WRITE_ENABLE: host data into the DAC buffer
    | DacRead        // DAC_READ_ENABLE: DAC buffer out to the DACs
    | AdcWrite       // ADC_WRITE_ENABLE: ADC data into the DDR
    | AdcTransfer    // ADC_TRANSFER_ENABLE: DDR ADC data out to the host pipe
    | AdcsConnected  // USE_ADC_READY: the ADCs pace the DDR writes
    | AdcDebug       // ADC_DEBUG: counter and DAC data in place of ADC data
    | AdcAddrSet     // ADC_ADDR_SET

  /** The four FIFOs with a reset bit, FIFO_<name>_RST. */
  datatype Fifo = DacIn | DacReadFifo | AdcIn | AdcTransferFifo

  datatype Event =
    | SetBit(flag: Flag)
    | ClearBit(flag: Flag)
    | SetFifoReset(fifo: Fifo)
    | ClearFifoReset(fifo: Fifo)
    | UiReset                          // trigger UI_RESET
    | AdcAddrReset                     // trigger ADC_ADDR_RESET
    | SetSimultaneous(flags: set<Flag>) // one masked write setting several bits
    | BlockPipeIn(data: seq<Byte>)     // bulk write of a buffer to BLOCK_PIPE_IN

  /** The asserted enables and the asserted FIFO reset bits. */
  datatype State = State(flags: set<Flag>, resets: set<Fifo>)

  function Step(s: State, e: Event): State
  {
    match e
    case SetBit(f) => s.(flags := s.flags + {f})
    case ClearBit(f) => s.(flags := s.flags - {f})
    case SetFifoReset(q) => s.(resets := s.resets + {q})
    case ClearFifoReset(q) => s.(resets := s.resets - {q})
    case SetSimultaneous(fs) => s.(flags := s.flags + fs)
    case _ => s
  }

  /** The state after playing `events` from `s`. */
  function Run(s: State, events: seq<Event>): State
    decreases |events|
  {
    if events == [] then s else Run(Step(s, events[0]), events[1..])
  }

  /** The states reached after each event of `events`, in order. */
  function Trace(s: State, events: seq<Event>): (t: seq<State>)
    ensures |t| == |events|
    decreases |events|
  {
    if events == [] then [] else [Step(s, events[0])] + Trace(Step(s, events[0]), events[1..])
  }

  lemma {:induction false} RunAppend(s: State, a: seq<Event>, b: seq<Event>)
    ensures Run(s, a + b) == Run(Run(s, a), b)
    decreases |a|
  {
    if a != [] {
      assert (a + b)[0] == a[0];
      assert (a + b)[1..] == a[1..] + b;
      RunAppend(Step(s, a[0]), a[1..], b);
    } else {
      assert a + b == b;
    }
  }

  lemma {:induction false} TraceAppend(s: State, a: seq<Event>, b: seq<Event>)
    ensures Trace(s, a + b) == Trace(s, a) + Trace(Run(s, a), b)
    decreases |a|
  {
    if a != [] {
      assert (a + b)[0] == a[0];
      assert (a + b)[1..] == a[1..] + b;
      TraceAppend(Step(s, a[0]), a[1..], b);
    } else {
      assert a + b == b;
    }
  }

  /** The last state of a non-empty trace is the state `Run` reaches. */
  lemma {:induction false} TraceEndsAtRun(s: State, events: seq<Event>)
    requires events != []
    ensures Trace(s, events)[|events| - 1] == Run(s, events)
    decreases |events|
  {
    if |events| > 1 {
      TraceEndsAtRun(Step(s, events[0]), events[1..]);
    }
  }

  /** Whether an event can change flag `f`. */
  predicate Touches(e: Event, f: Flag)
  {
    match e
    case SetBit(g) => g == f
    case ClearBit(g) => g == f
    case SetSimultaneous(fs) => f in fs
    case _ => false
  }

  /** A flag no event of the trace touches keeps its value in every state of it. */
  lemma {:induction false} UntouchedFlag(s: State, events: seq<Event>, f: Flag)
    requires forall i :: 0 <= i < |events| ==> !Touches(events[i], f)
    ensures forall i :: 0 <= i < |events| ==> (f in Trace(s, events)[i].flags <==> f in s.flags)
    ensures f in Run(s, events).flags <==> f in s.flags
    decreases |events|
  {
    if events != [] {
      UntouchedFlag(Step(s, events[0]), events[1..], f);
    }
  }

  /** The FIFO a reset name selects, among 'DAC_IN', 'DAC_READ', 'ADC_IN' and 'ADC_TRANSFER'. */
  function FifoNamed(name: string): Option<Fifo>
  {
    if name == "DAC_IN" then Some(DacIn)
    else if name == "DAC_READ" then Some(DacReadFifo)
    else if name == "ADC_IN" then Some(AdcIn)
    else if name == "ADC_TRANSFER" then Some(AdcTransferFifo)
    else None
  }

  /** Asserting then clearing one FIFO reset bit. */
  function Pulse(q: Fifo): seq<Event>
  {
    [SetFifoReset(q), ClearFifoReset(q)]
  }

  /** DDR3.reset_fifo: 'ALL' pulses the four resets in order, a known name
      pulses its own reset, and any other name writes nothing. */
  function ResetFifo(name: string): (events: seq<Event>)
    ensures name != "ALL" && FifoNamed(name).None? ==> events == []
    ensures name == "ALL" ==> (|events| == 8 &&
      forall i :: 0 <= i < 4 ==> (events[2 * i] == SetFifoReset(FifoOrder(i)) &&
        events[2 * i + 1] == ClearFifoReset(FifoOrder(i))))
    ensures name != "ALL" && FifoNamed(name).Some? ==>
      events == [SetFifoReset(FifoNamed(name).value), ClearFifoReset(FifoNamed(name).value)]
  {
    if name == "ALL" then
      Pulse(DacIn) + Pulse(DacReadFifo) + Pulse(AdcIn) + Pulse(AdcTransferFifo)
    else
      match FifoNamed(name)
      case None => []
      case Some(q) => Pulse(q)
  }

  /** The order of `fifo_reset_names`. */
  function FifoOrder(i: nat): Fifo
    requires i < 4
  {
    [DacIn, DacReadFifo, AdcIn, AdcTransferFifo][i]
  }

  /** One event played alone. */
  lemma RunSingle(s: State, e: Event)
    ensures Run(s, [e]) == Step(s, e)
    ensures Trace(s, [e]) == [Step(s, e)]
  {
    assert [e][1..] == [];
  }

  /** Whether an event asserts flag `f`. */
  predicate Sets(e: Event, f: Flag)
  {
    match e
    case SetBit(g) => g == f
    case SetSimultaneous(fs) => f in fs
    case _ => false
  }

  /** The last event that touches a flag decides its final value. */
  lemma {:induction false} LastWrite(s: State, events: seq<Event>, f: Flag, i: nat)
    requires i < |events| && Touches(events[i], f)
    requires forall j :: i < j < |events| ==> !Touches(events[j], f)
    ensures f in Run(s, events).flags <==> Sets(events[i], f)
    decreases |events|
  {
    var rest := events[1..];
    assert forall j :: 0 <= j < |rest| ==> rest[j] == events[j + 1];
    if i == 0 {
      UntouchedFlag(Step(s, events[0]), rest, f);
    } else {
      LastWrite(Step(s, events[0]), rest, f, i - 1);
    }
  }

  lemma PulseClears(s: State, q: Fifo)
    ensures Run(s, Pulse(q)) == s.(resets := s.resets - {q})
  {
    RunAppend(s, [SetFifoReset(q)], [ClearFifoReset(q)]);
    RunSingle(s, SetFifoReset(q));
    RunSingle(Step(s, SetFifoReset(q)), ClearFifoReset(q));
    assert Pulse(q) == [SetFifoReset(q)] + [ClearFifoReset(q)];
  }

  /** A FIFO reset leaves every enable as it was and every reset bit it
      pulsed clear; the other reset bits keep their value. */
  lemma ResetFifoLeavesClear(s: State, name: string)
    ensures Run(s, ResetFifo(name)).flags == s.flags
    ensures name == "ALL" ==> Run(s, ResetFifo(name)).resets == {}
    ensures name != "ALL" && FifoNamed(name).Some? ==>
      Run(s, ResetFifo(name)).resets == s.resets - {FifoNamed(name).value}
    ensures name != "ALL" && FifoNamed(name).None? ==> Run(s, ResetFifo(name)) == s
  {
    if name == "ALL" {
      var a, b, c, d := Pulse(DacIn), Pulse(DacReadFifo), Pulse(AdcIn), Pulse(AdcTransferFifo);
      RunAppend(s, a + b + c, d);
      RunAppend(s, a + b, c);
      RunAppend(s, a, b);
      PulseClears(s, DacIn);
      PulseClears(Run(s, a), DacReadFifo);
      PulseClears(Run(s, a + b), AdcIn);
      PulseClears(Run(s, a + b + c), AdcTransferFifo);
      var r := Run(s, ResetFifo(name)).resets;
      assert r == s.resets - {DacIn, DacReadFifo, AdcIn, AdcTransferFifo};
      assert forall q: Fifo :: q !in r by {
        forall q: Fifo ensures q !in r {
          assert q in {DacIn, DacReadFifo, AdcIn, AdcTransferFifo} by {
            match q
            case DacIn => case DacReadFifo => case AdcIn => case AdcTransferFifo =>
          }
        }
      }
    } else if FifoNamed(name).Some? {
      PulseClears(s, FifoNamed(name).value);
    }
  }

  /** The set of `set_adc_dac_simultaneous`. */
  const PlaybackFlags: set<Flag> := {AdcWrite, DacRead, AdcTransfer}

  /** DDR3.write_finish (through set_adc_dac_simultaneous): one write
      asserting ADC writing, DAC playback and ADC transfer together. */
  function WriteFinish(): (events: seq<Event>)
    ensures |events| == 1 && events[0].SetSimultaneous? && events[0].flags == PlaybackFlags
  {
    [SetSimultaneous(PlaybackFlags)]
  }

  /** DDR3.write_setup. */
  function WriteSetup(dataDrivenClock: bool): seq<Event>
  {
    [if dataDrivenClock then SetBit(AdcsConnected) else ClearBit(AdcsConnected),
     ClearBit(DacRead), ClearBit(AdcWrite), ClearBit(AdcTransfer)]
    + ResetFifo("ALL") + [UiReset]
  }

  /** DDR3.write_buf: the bulk write of `buf` framed by the enable changes.
      The count the transport returns is not part of the trace. */
  function WriteBuf(buf: seq<Byte>, setDdrRead: bool): seq<Event>
  {
    [ClearBit(DacRead)] + ResetFifo("DAC_IN") + [SetBit(DacWrite), BlockPipeIn(buf), ClearBit(DacWrite)]
    + (if setDdrRead then [SetBit(DacRead), SetBit(AdcTransfer)] else [])
  }

  /** DDR3.repeat_setup. */
  function RepeatSetup(): seq<Event>
  {
    RepeatPrefix() + WriteFinish()
  }

  /** DDR3.write_channels: stripes the channel buffers and writes the frame. */
  function WriteChannels(channels: seq<seq<Word16>>, setDdrRead: bool): (r: Result<seq<Event>, Striping.StripeError>)
    requires |channels| == Striping.NumChannels
    ensures r.Ok? <==> Striping.Stripe(channels).Ok?
    ensures r.Ok? ==> exists i :: 0 <= i < |r.value| && r.value[i] == BlockPipeIn(Striping.Frame(channels).value)
    ensures r.Ok? ==> r.value == WriteBuf(Striping.Frame(channels).value, setDdrRead)
  {
    match Striping.Frame(channels)
    case Err(e) => Err(e)
    case Ok(frame) =>
      var events := WriteBuf(frame, setDdrRead);
      assert events[4] == BlockPipeIn(frame);
      Ok(events)
  }

  /** DDR3.__init__, which calls clear_adc_debug. */
  function Init(): seq<Event>
  {
    [ClearBit(AdcDebug)]
  }

  /** DDR3.set_adc_debug. */
  function SetAdcDebug(): seq<Event>
  {
    [SetBit(AdcDebug)]
  }

  /** DDR3.adc_single: sets ADC_ADDR_SET, then fires the ADC_ADDR_RESET trigger. */
  function AdcSingle(): seq<Event>
  {
    [SetBit(AdcAddrSet), AdcAddrReset]
  }

  /** Constructing the driver clears the ADC debug bit and set_adc_debug sets
      it; neither touches any other bit. */
  lemma DebugBit(s: State)
    ensures Run(s, Init()) == State(s.flags - {AdcDebug}, s.resets)
    ensures Run(s, SetAdcDebug()) == State(s.flags + {AdcDebug}, s.resets)
  {
    RunSingle(s, ClearBit(AdcDebug));
    RunSingle(s, SetBit(AdcDebug));
  }

  /** adc_single leaves ADC_ADDR_SET set; the address-reset trigger changes
      no bit. */
  lemma AdcSingleSets(s: State)
    ensures Run(s, AdcSingle()) == State(s.flags + {AdcAddrSet}, s.resets)
  {
    var s1 := Step(s, SetBit(AdcAddrSet));
    assert Run(s, AdcSingle()) == Run(s1, [AdcAddrReset]);
    RunSingle(s1, AdcAddrReset);
  }

  /** Setting the debug bit and constructing the driver again undo each
      other: the debug bit is off, as after construction alone. */
  lemma DebugThenInit(s: State)
    ensures Run(Run(s, SetAdcDebug()), Init()) == Run(s, Init())
    ensures AdcDebug !in Run(Run(s, SetAdcDebug()), Init()).flags
  {
    DebugBit(s);
    var s1 := Run(s, SetAdcDebug());
    DebugBit(s1);
    AddThenRemove(s.flags, AdcDebug);
  }

  lemma AddThenRemove(fs: set<Flag>, f: Flag)
    ensures (fs + {f}) - {f} == fs - {f}
  {
  }

  predicate Exclusive(s: State)
  {
    !(DacWrite in s.flags && DacRead in s.flags)
  }

  /** Where write_buf's events sit: the DAC_IN reset pulse, then the bulk
      write between asserting and clearing DAC writing, then the optional
      restart of playback and transfer. */
  function BufHead(): seq<Event>
  {
    [ClearBit(DacRead)] + Pulse(DacIn)
  }

  function BufBody(buf: seq<Byte>): seq<Event>
  {
    [SetBit(DacWrite), BlockPipeIn(buf), ClearBit(DacWrite)]
  }

  function BufTail(setDdrRead: bool): seq<Event>
  {
    if setDdrRead then [SetBit(DacRead), SetBit(AdcTransfer)] else []
  }

  lemma WriteBufParts(buf: seq<Byte>, setDdrRead: bool)
    ensures WriteBuf(buf, setDdrRead) == BufHead() + BufBody(buf) + BufTail(setDdrRead)
  {
  }

  /** During and after write_buf, DAC writing and DAC playback are never on
      together, whatever the starting state; ADC writing is never touched;
      the buffer goes out while DAC writing is on and DAC playback is off. */
  lemma WriteBufExclusive(s: State, buf: seq<Byte>, setDdrRead: bool)
    ensures forall i :: 0 <= i < |WriteBuf(buf, setDdrRead)| ==> Exclusive(Trace(s, WriteBuf(buf, setDdrRead))[i])
    ensures forall i :: 0 <= i < |WriteBuf(buf, setDdrRead)| ==>
      (AdcWrite in Trace(s, WriteBuf(buf, setDdrRead))[i].flags <==> AdcWrite in s.flags)
    ensures var t := Trace(s, WriteBuf(buf, setDdrRead));
      WriteBuf(buf, setDdrRead)[4] == BlockPipeIn(buf) && DacWrite in t[4].flags && DacRead !in t[4].flags
  {
    WriteBufNeverBoth(s, buf, setDdrRead);
    var events := WriteBuf(buf, setDdrRead);
    assert forall i :: 0 <= i < |events| ==> !Touches(events[i], AdcWrite);
    UntouchedFlag(s, events, AdcWrite);
  }

  /** The states write_buf passes through, phase by phase: the head clears DAC
      playback, the body brackets the bulk write with DAC writing, the tail
      may restart playback. */
  lemma {:induction false} WriteBufNeverBoth(s: State, buf: seq<Byte>, setDdrRead: bool)
    ensures forall i :: 0 <= i < |WriteBuf(buf, setDdrRead)| ==> Exclusive(Trace(s, WriteBuf(buf, setDdrRead))[i])
    ensures var t := Trace(s, WriteBuf(buf, setDdrRead));
      WriteBuf(buf, setDdrRead)[4] == BlockPipeIn(buf) && DacWrite in t[4].flags && DacRead !in t[4].flags
  {
    var head, body, tail := BufHead(), BufBody(buf), BufTail(setDdrRead);
    var events := WriteBuf(buf, setDdrRead);
    WriteBufParts(buf, setDdrRead);
    TraceAppend(s, head + body, tail);
    TraceAppend(s, head, body);
    RunAppend(s, head, body);
    var s1 := s.(flags := s.flags - {DacRead});
    assert head == [ClearBit(DacRead), SetFifoReset(DacIn), ClearFifoReset(DacIn)];
    TraceOfThree(s, ClearBit(DacRead), SetFifoReset(DacIn), ClearFifoReset(DacIn));
    var th := Trace(s, head);
    assert forall i :: 0 <= i < 3 ==> th[i].flags == s1.flags;
    var m := Run(s, head);
    assert m.flags == s1.flags;
    TraceOfThree(m, SetBit(DacWrite), BlockPipeIn(buf), ClearBit(DacWrite));
    var tb := Trace(m, body);
    assert tb[0].flags == s1.flags + {DacWrite} && tb[1].flags == s1.flags + {DacWrite};
    assert tb[2].flags == s1.flags - {DacWrite};
    var n := Run(m, body);
    assert n.flags == s1.flags - {DacWrite};
    var tt := Trace(n, tail);
    if setDdrRead {
      TraceOfTwo(n, SetBit(DacRead), SetBit(AdcTransfer));
    }
    assert forall i :: 0 <= i < |tt| ==> DacWrite !in tt[i].flags;
    var t := Trace(s, events);
    assert t == th + tb + tt;
    forall i | 0 <= i < |events|
      ensures Exclusive(t[i])
    {
      if i < 3 {
        assert t[i] == th[i];
      } else if i < 6 {
        assert t[i] == tb[i - 3];
      } else {
        assert t[i] == tt[i - 6];
      }
    }
    assert t[4] == tb[1];
  }

  /** The trace of one event followed by more. */
  lemma TraceSingle(s: State, e: Event, rest: seq<Event>)
    ensures Trace(s, [e] + rest) == [Step(s, e)] + Trace(Step(s, e), rest)
  {
    assert ([e] + rest)[0] == e;
    assert ([e] + rest)[1..] == rest;
  }

  /** The states of a two-event trace. */
  lemma TraceOfTwo(s: State, e1: Event, e2: Event)
    ensures Trace(s, [e1, e2]) == [Step(s, e1), Step(Step(s, e1), e2)]
  {
    assert [e1, e2] == [e1] + [e2];
    TraceSingle(s, e1, [e2]);
    RunSingle(Step(s, e1), e2);
  }

  /** The states of a three-event trace, and where it ends. */
  lemma TraceOfThree(s: State, e1: Event, e2: Event, e3: Event)
    ensures Trace(s, [e1, e2, e3]) == [Step(s, e1), Step(Step(s, e1), e2), Step(Step(Step(s, e1), e2), e3)]
    ensures Run(s, [e1, e2, e3]) == Step(Step(Step(s, e1), e2), e3)
  {
    assert [e1, e2, e3] == [e1] + [e2, e3];
    TraceSingle(s, e1, [e2, e3]);
    TraceOfTwo(Step(s, e1), e2, e3);
    RunAppend(s, [e1], [e2, e3]);
    RunSingle(s, e1);
    assert [e2, e3] == [e2] + [e3];
    RunAppend(Step(s, e1), [e2], [e3]);
    RunSingle(Step(s, e1), e2);
    RunSingle(Step(Step(s, e1), e2), e3);
  }

  /** write_buf leaves DAC writing off; with `setDdrRead` it leaves DAC
      playback and ADC transfer on, without it DAC playback off and ADC
      transfer as it was. ADC writing keeps its value. */
  lemma WriteBufFinal(s: State, buf: seq<Byte>, setDdrRead: bool)
    ensures var f := Run(s, WriteBuf(buf, setDdrRead)).flags;
      DacWrite !in f && (DacRead in f <==> setDdrRead) &&
      (setDdrRead ==> AdcTransfer in f) && (!setDdrRead ==> (AdcTransfer in f <==> AdcTransfer in s.flags)) &&
      (AdcWrite in f <==> AdcWrite in s.flags)
  {
    var events := WriteBuf(buf, setDdrRead);
    WriteBufParts(buf, setDdrRead);
    LastWrite(s, events, DacWrite, 5);
    if setDdrRead {
      LastWrite(s, events, DacRead, 6);
      LastWrite(s, events, AdcTransfer, 7);
    } else {
      LastWrite(s, events, DacRead, 0);
      assert forall i :: 0 <= i < |events| ==> !Touches(events[i], AdcTransfer);
      UntouchedFlag(s, events, AdcTransfer);
    }
    assert forall i :: 0 <= i < |events| ==> !Touches(events[i], AdcWrite);
    UntouchedFlag(s, events, AdcWrite);
  }

  /** write_setup leaves DAC playback, ADC writing and ADC transfer off and
      every FIFO reset bit clear, and ends with the UI reset trigger; the
      ADC-paced bit follows `dataDrivenClock` and DAC writing keeps its value. */
  lemma WriteSetupFinal(s: State, dataDrivenClock: bool)
    ensures var events := WriteSetup(dataDrivenClock);
      var f := Run(s, events);
      DacRead !in f.flags && AdcWrite !in f.flags && AdcTransfer !in f.flags && f.resets == {} &&
      (AdcsConnected in f.flags <==> dataDrivenClock) &&
      (DacWrite in f.flags <==> DacWrite in s.flags) &&
      events[|events| - 1] == UiReset
  {
    var a := [if dataDrivenClock then SetBit(AdcsConnected) else ClearBit(AdcsConnected),
              ClearBit(DacRead), ClearBit(AdcWrite), ClearBit(AdcTransfer)];
    var events := WriteSetup(dataDrivenClock);
    assert events == a + ResetFifo("ALL") + [UiReset];
    RunAppend(s, a + ResetFifo("ALL"), [UiReset]);
    RunAppend(s, a, ResetFifo("ALL"));
    RunSingle(Run(s, a + ResetFifo("ALL")), UiReset);
    ResetFifoLeavesClear(Run(s, a), "ALL");
    LastWrite(s, a, AdcsConnected, 0);
    LastWrite(s, a, DacRead, 1);
    LastWrite(s, a, AdcWrite, 2);
    LastWrite(s, a, AdcTransfer, 3);
    assert forall i :: 0 <= i < |a| ==> !Touches(a[i], DacWrite);
    UntouchedFlag(s, a, DacWrite);
  }

  /** The events of repeat_setup before its final write. */
  function RepeatPrefix(): seq<Event>
  {
    [ClearBit(AdcTransfer), ClearBit(AdcWrite), ClearBit(DacRead)] + ResetFifo("ALL") + [UiReset]
  }

  /** Before the final write, repeat_setup has turned the three enables off
      and cleared every FIFO reset bit; every other enable keeps its value. */
  lemma RepeatPrefixRun(s: State)
    ensures Run(s, RepeatPrefix()) == State(s.flags - {AdcTransfer, AdcWrite, DacRead}, {})
  {
    var a := [ClearBit(AdcTransfer), ClearBit(AdcWrite), ClearBit(DacRead)];
    var all := ResetFifo("ALL");
    assert RepeatPrefix() == (a + all) + [UiReset];
    ClearThree(s, AdcTransfer, AdcWrite, DacRead);
    var s1 := Run(s, a);
    ResetAllClears(s1);
    RunAppend(s, a, all);
    RunAppend(s, a + all, [UiReset]);
    UiResetKeeps(Run(s1, all));
  }

  /** reset_fifo('ALL') clears every FIFO reset bit and no enable. */
  lemma ResetAllClears(s: State)
    ensures Run(s, ResetFifo("ALL")) == State(s.flags, {})
  {
    ResetFifoLeavesClear(s, "ALL");
  }

  /** Triggering UI_RESET changes no enable and no FIFO reset bit. */
  lemma UiResetKeeps(s: State)
    ensures Run(s, [UiReset]) == s
  {
    RunSingle(s, UiReset);
  }

  /** Three clears in a row take exactly those flags out. */
  lemma ClearThree(s: State, f1: Flag, f2: Flag, f3: Flag)
    ensures Run(s, [ClearBit(f1), ClearBit(f2), ClearBit(f3)]) ==
      s.(flags := s.flags - {f1, f2, f3})
  {
    var e := [ClearBit(f1), ClearBit(f2), ClearBit(f3)];
    assert e == [ClearBit(f1)] + [ClearBit(f2)] + [ClearBit(f3)];
    RunAppend(s, [ClearBit(f1)] + [ClearBit(f2)], [ClearBit(f3)]);
    RunAppend(s, [ClearBit(f1)], [ClearBit(f2)]);
    RunSingle(s, ClearBit(f1));
    RunSingle(Step(s, ClearBit(f1)), ClearBit(f2));
    RunSingle(Step(Step(s, ClearBit(f1)), ClearBit(f2)), ClearBit(f3));
  }

  /** repeat_setup ends with ADC writing, DAC playback and ADC transfer all on
      and every FIFO reset bit clear; DAC writing keeps its value. */
  lemma RepeatSetupFinal(s: State)
    ensures var f := Run(s, RepeatSetup());
      PlaybackFlags <= f.flags && f.resets == {} &&
      (DacWrite in f.flags <==> DacWrite in s.flags)
  {
    RepeatPrefixRun(s);
    RunAppend(s, RepeatPrefix(), WriteFinish());
    SimultaneousSets(Run(s, RepeatPrefix()), PlaybackFlags);
    var f := Run(s, RepeatSetup());
    assert f == State(s.flags - {AdcTransfer, AdcWrite, DacRead} + PlaybackFlags, {});
  }

  /** One simultaneous write adds its flags and nothing else. */
  lemma SimultaneousSets(s: State, fs: set<Flag>)
    ensures Run(s, [SetSimultaneous(fs)]) == s.(flags := s.flags + fs)
  {
    RunSingle(s, SetSimultaneous(fs));
  }

  /** The three enables come back on together: repeat_setup's only
      simultaneous write is its last event, and no earlier event asserts any
      of them. */
  lemma RepeatSetupSingleWrite()
    ensures var events := RepeatSetup();
      events[|events| - 1] == SetSimultaneous(PlaybackFlags) &&
      forall i, f :: 0 <= i < |events| - 1 && f in PlaybackFlags ==> !Sets(events[i], f)
  {
    var prefix := RepeatPrefix();
    assert forall i :: 0 <= i < |prefix| ==> RepeatSetup()[i] == prefix[i];
  }

  /** The expected session: write_setup, a buffer write that starts playback,
      then write_finish. At the end the DAC buffer is no longer being written
      and playback, ADC writing and ADC transfer are all on. */
  lemma SessionPlaysBack(s: State, dataDrivenClock: bool, buf: seq<Byte>)
    ensures var f := Run(s, WriteSetup(dataDrivenClock) + WriteBuf(buf, true) + WriteFinish()).flags;
      DacWrite !in f && PlaybackFlags <= f && (AdcsConnected in f <==> dataDrivenClock)
  {
    var a, b, c := WriteSetup(dataDrivenClock), WriteBuf(buf, true), WriteFinish();
    RunAppend(s, a + b, c);
    RunAppend(s, a, b);
    RunSingle(Run(s, a + b), SetSimultaneous(PlaybackFlags));
    WriteSetupFinal(s, dataDrivenClock);
    WriteBufFinal(Run(s, a), buf, true);
    WriteBufParts(buf, true);
    assert forall i :: 0 <= i < |b| ==> !Touches(b[i], AdcsConnected);
    UntouchedFlag(Run(s, a), b, AdcsConnected);
  }
}

/**
 * The STM32 RailCom driver object: per-channel UARTs, the array of packet
 * handles, the allocator, the feedback queue and the occupancy sample sink,
 * updated in place by the phase methods. Each method is proved to compute
 * the matching phase function of module RailcomModel, where the
 * properties of the phases are proved.
 */
module RailcomDriver {
  import opened Wrappers
  import opened RailcomModel

  /** The occupancy measurement mode of the channel hardware. */
  datatype Measurement = MeasurementOff | MeasurementOn(activeHigh: bool)

  class Stm32RailcomDriver {
    /** The number of detector channels. */
    const channelCount: nat
    /** One UART per channel. */
    var uarts: seq<Uart>
    /** The packet handle of each channel; None is a null handle. */
    const returnedPackets: array<Option<Packet>>
    /** The packets the allocator can still hand out. */
    var freeSlots: nat
    /** The feedback queue, in commit order. */
    var committed: seq<Packet>
    /** How many times the consumer's interrupt was set pending. */
    var pending: nat
    /** The feedback key in force, stamped on every packet allocated. */
    var feedbackKey: nat
    /** The occupancy samples handed to the sample sink, oldest first. */
    var samples: seq<bv32>
    var measurement: Measurement

    ghost predicate Valid()
      reads this, returnedPackets
    {
      && returnedPackets.Length == channelCount == |uarts|
      && WellFormed(State())
    }

    /** The decoder state this object holds. */
    function State(): DecoderState
      reads this, returnedPackets
    {
      DecoderState(uarts, returnedPackets[..], freeSlots, committed, pending)
    }

    /** A driver with idle receivers, no packet held, and an empty queue. */
    constructor (channelCount: nat, freeSlots: nat, feedbackKey: nat)
      ensures Valid()
      ensures State() == DecoderState(seq(channelCount, i => Uart([], DirectionNone, false)),
                                      seq(channelCount, i => None), freeSlots, [], 0)
      ensures this.feedbackKey == feedbackKey && samples == [] && measurement == MeasurementOff
    {
      this.channelCount := channelCount;
      uarts := seq(channelCount, i => Uart([], DirectionNone, false));
      returnedPackets := new Option<Packet>[channelCount](i => None);
      this.freeSlots := freeSlots;
      committed := [];
      pending := 0;
      this.feedbackKey := feedbackKey;
      samples := [];
      measurement := MeasurementOff;
    }

    /** `alloc_new_packet`: a fresh packet for the channel with the current key, or None when the allocator is full. */
    method AllocNewPacket(channel: nat) returns (p: Option<Packet>)
      modifies this`freeSlots
      ensures (p, freeSlots) == Alloc(channel, feedbackKey, old(freeSlots))
    {
      if freeSlots == 0 {
        p := None;
      } else {
        p := Some(Packet(channel, feedbackKey, [], []));
        freeSlots := freeSlots - 1;
      }
    }

    /** The drain loop of middle_cutout and end_cutout on channel i. */
    method DrainChannel(w: Window, i: nat)
      requires Valid() && i < channelCount
      modifies this`uarts, this`freeSlots, returnedPackets
      ensures Valid()
      ensures Lane(uarts[i], returnedPackets[i], freeSlots)
           == Drain(w, i, feedbackKey, old(Lane(uarts[i], returnedPackets[i], freeSlots)))
      ensures uarts == old(uarts)[i := uarts[i]]
      ensures returnedPackets[..] == old(returnedPackets[..])[i := returnedPackets[i]]
    {
      ghost var start := Lane(uarts[i], returnedPackets[i], freeSlots);
      while uarts[i].rx != []
        invariant Valid()
        invariant uarts == old(uarts)[i := uarts[i]]
        invariant returnedPackets[..] == old(returnedPackets[..])[i := returnedPackets[i]]
        invariant Drain(w, i, feedbackKey, Lane(uarts[i], returnedPackets[i], freeSlots)) == Drain(w, i, feedbackKey, start)
        decreases |uarts[i].rx|
      {
        var stop := DrainStep(w, i);
        if stop {
          break;
        }
      }
    }

    /**
     * One iteration of the drain loop: allocate a packet if the channel has
     * none, stop if that fails, read a byte, and on FE reset the receiver and
     * drop the byte, otherwise append it to the packet.
     */
    method DrainStep(w: Window, i: nat) returns (stop: bool)
      requires Valid() && i < channelCount && uarts[i].rx != []
      modifies this`uarts, this`freeSlots, returnedPackets
      ensures Valid()
      ensures uarts == old(uarts)[i := uarts[i]]
      ensures returnedPackets[..] == old(returnedPackets[..])[i := returnedPackets[i]]
      ensures Drain(w, i, feedbackKey, Lane(uarts[i], returnedPackets[i], freeSlots))
           == Drain(w, i, feedbackKey, old(Lane(uarts[i], returnedPackets[i], freeSlots)))
      ensures stop ==> (Drain(w, i, feedbackKey, Lane(uarts[i], returnedPackets[i], freeSlots))
                        == Lane(uarts[i], returnedPackets[i], freeSlots))
      ensures !stop ==> |uarts[i].rx| < old(|uarts[i].rx|)
    {
      stop := false;
      if returnedPackets[i].None? {
        var p := AllocNewPacket(i);
        returnedPackets[i] := p;
      }
      if returnedPackets[i].None? {
        stop := true;
        return;
      }
      var (u, data) := ReadData(uarts[i]);
      uarts := uarts[i := u];
      if u.fe {
        uarts := uarts[i := ResetReceiver(w, u)];
        return;
      }
      returnedPackets[i] := Some(Append(w, returnedPackets[i].value, data));
    }

    /** `start_cutout`. */
    method StartCutout(hwNeedsCh1: bool)
      requires Valid()
      modifies this, returnedPackets
      ensures Valid()
      ensures State() == Start(old(State()), ListensInWindow1(hwNeedsCh1, old(feedbackKey)))
      ensures feedbackKey == old(feedbackKey) && samples == old(samples)
      ensures measurement == MeasurementOn(false)
    {
      ghost var s0 := State();
      measurement := MeasurementOn(false);
      var needCh1Cutout := hwNeedsCh1 || feedbackKey < LISTEN_KEY_LIMIT;
      for i := 0 to channelCount
        invariant returnedPackets.Length == channelCount == |uarts|
        invariant freeSlots == s0.freeSlots && committed == s0.committed && pending == s0.pending
        invariant feedbackKey == old(feedbackKey) && samples == old(samples) && measurement == MeasurementOn(false)
        invariant forall k :: 0 <= k < i ==> uarts[k] == StartChannel(s0.uarts[k], needCh1Cutout) && returnedPackets[k] == None
        invariant forall k :: i <= k < channelCount ==> uarts[k] == s0.uarts[k] && returnedPackets[k] == s0.packets[k]
      {
        StartChannelAt(i, needCh1Cutout);
      }
      assert State() == Start(s0, needCh1Cutout);
    }

    /** One pass of the channel loop of start_cutout: listen if asked, flush the receiver, null the handle. */
    method StartChannelAt(i: nat, listen: bool)
      requires returnedPackets.Length == channelCount == |uarts| && i < channelCount
      modifies this`uarts, returnedPackets
      ensures uarts == old(uarts)[i := StartChannel(old(uarts[i]), listen)]
      ensures returnedPackets[..] == old(returnedPackets[..])[i := None]
    {
      if listen {
        uarts := uarts[i := uarts[i].(direction := DirectionRx)];
      }
      ghost var u0 := uarts;
      while uarts[i].rx != []
        modifies this`uarts
        invariant i < |uarts| == |u0|
        invariant uarts == u0[i := uarts[i]]
        invariant Flush(uarts[i]) == StartChannel(old(uarts[i]), listen)
        decreases |uarts[i].rx|
      {
        var (u, data) := ReadData(uarts[i]);
        uarts := uarts[i := u];
      }
      returnedPackets[i] := None;
    }

    /** `middle_cutout`. */
    method MiddleCutout()
      requires Valid()
      modifies this, returnedPackets
      ensures Valid()
      ensures State() == Middle(old(State()), old(feedbackKey))
      ensures feedbackKey == old(feedbackKey) && samples == old(samples) && measurement == old(measurement)
    {
      ghost var s0 := State();
      for i := 0 to channelCount
        invariant Valid()
        invariant State() == Sweep(Window1, s0, feedbackKey, i)
        invariant feedbackKey == old(feedbackKey) && samples == old(samples) && measurement == old(measurement)
      {
        var _ := SweepOneChannel(Window1, i);
        SweepChannels(Window1, s0, feedbackKey, i + 1);
      }
    }

    /** `end_cutout`. */
    method EndCutout()
      requires Valid()
      modifies this, returnedPackets
      ensures Valid()
      ensures State() == End(old(State()), old(feedbackKey))
      ensures feedbackKey == old(feedbackKey) && samples == old(samples) && measurement == MeasurementOff
    {
      ghost var s0 := State();
      measurement := MeasurementOff;
      var havePackets := false;
      for i := 0 to channelCount
        invariant Valid()
        invariant State() == Sweep(Window2, s0, feedbackKey, i)
        invariant havePackets <==> |committed| != |s0.committed|
        invariant feedbackKey == old(feedbackKey) && samples == old(samples) && measurement == MeasurementOff
      {
        SweepAppends(s0, feedbackKey, i);
        var committedOne := SweepOneChannel(Window2, i);
        havePackets := havePackets || committedOne;
        SweepChannels(Window2, s0, feedbackKey, i + 1);
      }
      if !havePackets {
        CommitEmptyRecord();
      }
    }

    /** One pass of the channel loop of middle_cutout or end_cutout: drain channel i, then finish it. */
    method SweepOneChannel(w: Window, i: nat) returns (committedOne: bool)
      requires Valid() && i < channelCount
      modifies this`uarts, this`freeSlots, this`committed, this`pending, returnedPackets
      ensures Valid()
      ensures State() == SweepChannel(w, old(State()), feedbackKey, i)
      ensures committedOne <==> |committed| != |old(committed)|
    {
      ghost var q := State();
      DrainChannel(w, i);
      ghost var l := Lane(uarts[i], returnedPackets[i], freeSlots);
      assert State() == q.(uarts := q.uarts[i := l.uart], packets := q.packets[i := l.packet], freeSlots := l.freeSlots);
      committedOne := FinishChannel(w, i);
      AfterDrainOfDrained(w, q, i, l);
    }

    /**
     * The end of a channel's pass: in window 1 its receiver is restarted
     * in RX (disabled, set to RX, enabled), which discards a buffered byte
     * and clears the framing-error flag; in window 2 it is switched off and
     * the packet it holds, if any, is committed.
     */
    method FinishChannel(w: Window, i: nat) returns (committedOne: bool)
      requires Valid() && i < channelCount
      modifies this`uarts, this`committed, this`pending, returnedPackets
      ensures Valid()
      ensures State() == AfterDrain(w, old(State()), i, old(Lane(uarts[i], returnedPackets[i], freeSlots)))
      ensures committedOne <==> |committed| != |old(committed)|
    {
      committedOne := false;
      if w == Window1 {
        uarts := uarts[i := uarts[i].(rx := [], direction := DirectionRx, fe := false)];
      } else {
        uarts := uarts[i := uarts[i].(direction := DirectionNone)];
        if returnedPackets[i].Some? {
          committedOne := true;
          committed := committed + [returnedPackets[i].value];
          returnedPackets[i] := None;
          pending := pending + 1;
        }
      }
    }

    /** `no_cutout`. */
    method NoCutout()
      requires Valid()
      modifies this
      ensures Valid()
      ensures State() == RailcomModel.NoCutout(old(State()), old(feedbackKey))
      ensures feedbackKey == old(feedbackKey) && samples == old(samples) && measurement == old(measurement)
    {
      CommitEmptyRecord();
    }

    /** The empty channel-0 record of end_cutout and no_cutout, committed only if allocated. */
    method CommitEmptyRecord()
      requires Valid()
      modifies this
      ensures Valid()
      ensures State() == CommitEmpty(old(State()), old(feedbackKey))
      ensures feedbackKey == old(feedbackKey) && samples == old(samples) && measurement == old(measurement)
    {
      var p := AllocNewPacket(0);
      if p.Some? {
        committed := committed + [p.value];
        pending := pending + 1;
      }
    }

    /**
     * `feedback_sample`: measure occupancy in active-high mode and hand the
     * sample, which the hardware reads while measuring, to the sample sink.
     */
    method FeedbackSample(sample: bv32)
      requires Valid()
      modifies this`measurement, this`samples
      ensures Valid()
      ensures samples == old(samples) + [sample]
      ensures measurement == MeasurementOff
    {
      measurement := MeasurementOn(true);
      samples := samples + [sample];
      measurement := MeasurementOff;
    }
  }
}

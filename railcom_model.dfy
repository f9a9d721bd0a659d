/**
 * The RailCom cutout decoder of the STM32 driver, as functions over the
 * decoder's state.
 *
 * During a RailCom cutout (NMRA S-9.3.2) the command station stops driving
 * the track and decoders answer at 250 kbaud in two windows, channel 1 and
 * channel 2. The driver is called four ways: `start_cutout` when the cutout
 * begins, `middle_cutout` between the two windows, `end_cutout` when it
 * closes, and `no_cutout` instead of the last two when there is no cutout.
 * In each window it drains the bytes each UART has already buffered, stores
 * them in one feedback packet per channel (allocated on the first byte), and
 * at the end commits the packets to the feedback queue.
 *
 * This module states each phase as a function; module RailcomDriver has the
 * loops that compute them. The per-channel drain loop is `Drain`, stated
 * step by step as the source runs it, and `DrainInClosedForm` proves what it
 * amounts to.
 */
module RailcomModel {
  import opened Wrappers

  /** A byte as the UART delivers it: the data and whether it arrived with a framing error. */
  datatype RxByte = RxByte(data: bv8, framingError: bool)

  /** The UART transfer direction: receiver off, or receiving. */
  datatype Direction = DirectionNone | DirectionRx

  /**
   * One channel's UART as the decoder sees it: the bytes received and not
   * yet read (the RXNE flag is set exactly when `rx` is not empty), the
   * transfer direction and the framing-error flag FE. FE is sticky: reading
   * a byte that arrived with a framing error raises it, and only clearing
   * the flag or disabling the USART lowers it.
   */
  datatype Uart = Uart(rx: seq<RxByte>, direction: Direction, fe: bool)

  /**
   * A feedback packet: the channel and feedback key it was allocated for,
   * and the payload bytes of window 1 and window 2.
   */
  datatype Packet = Packet(channel: nat, key: nat, ch1: seq<bv8>, ch2: seq<bv8>)

  /** The two windows of a cutout. */
  datatype Window = Window1 | Window2

  /**
   * The decoder's state: per channel a UART and a packet handle (None is the
   * null pointer), the number of packets the allocator can still hand out,
   * the packets committed to the feedback queue in commit order, and the
   * number of times the consumer's interrupt was set pending.
   */
  datatype DecoderState = DecoderState(
    uarts: seq<Uart>,
    packets: seq<Option<Packet>>,
    freeSlots: nat,
    committed: seq<Packet>,
    pending: nat)

  /** One UART per channel, and a live packet is held by the channel it was allocated for. */
  ghost predicate WellFormed(s: DecoderState)
  {
    && |s.uarts| == |s.packets|
    && forall i :: 0 <= i < |s.packets| && s.packets[i].Some? ==> s.packets[i].value.channel == i
  }

  // ---------------------------------------------------------------------
  // Hardware and allocator primitives
  // ---------------------------------------------------------------------

  /** Reading the receive data register: the oldest byte leaves the buffer and a framing error on it raises FE. */
  function ReadData(u: Uart): (Uart, bv8)
    requires u.rx != []
  {
    (u.(rx := u.rx[1..], fe := u.fe || u.rx[0].framingError), u.rx[0].data)
  }

  predicate AnyFramingError(rx: seq<RxByte>)
  {
    exists k :: 0 <= k < |rx| && rx[k].framingError
  }

  lemma AnyFramingErrorCons(rx: seq<RxByte>)
    requires rx != []
    ensures AnyFramingError(rx) <==> rx[0].framingError || AnyFramingError(rx[1..])
  {
    if AnyFramingError(rx) && !rx[0].framingError {
      var k :| 0 <= k < |rx| && rx[k].framingError;
      assert rx[1..][k - 1].framingError;
    }
    if AnyFramingError(rx[1..]) {
      var k :| 0 <= k < |rx[1..]| && rx[1..][k].framingError;
      assert rx[k + 1].framingError;
    }
  }

  /**
   * The allocator: a packet for `channel`, stamped with the current feedback
   * key and with empty payloads, if a slot is free; None otherwise.
   */
  function Alloc(channel: nat, key: nat, freeSlots: nat): (Option<Packet>, nat)
  {
    if freeSlots == 0 then (None, 0) else (Some(Packet(channel, key, [], [])), freeSlots - 1)
  }

  /** `add_ch1_data` or `add_ch2_data`, depending on the window. */
  function Append(w: Window, p: Packet, b: bv8): Packet
  {
    if w == Window1 then p.(ch1 := p.ch1 + [b]) else p.(ch2 := p.ch2 + [b])
  }

  /** Appending several bytes to the window's payload. */
  function AppendAll(w: Window, p: Packet, bs: seq<bv8>): Packet
  {
    if w == Window1 then p.(ch1 := p.ch1 + bs) else p.(ch2 := p.ch2 + bs)
  }

  // ---------------------------------------------------------------------
  // start_cutout
  // ---------------------------------------------------------------------

  /** The feedback key below which every cutout listens in window 1. */
  const LISTEN_KEY_LIMIT: nat := 11000

  /** Whether start_cutout switches the receivers on: the hardware asks for it, or the key is below 11000. */
  predicate ListensInWindow1(hwNeedsCh1: bool, feedbackKey: nat)
  {
    hwNeedsCh1 || feedbackKey < LISTEN_KEY_LIMIT
  }

  /** The flush loop of start_cutout: read and discard while RXNE is set. */
  function Flush(u: Uart): Uart
    decreases |u.rx|
  {
    if u.rx == [] then u else Flush(ReadData(u).0)
  }

  /** Flushing empties the buffer and leaves FE raised if any discarded byte had a framing error. */
  lemma {:induction false} FlushEmptiesBuffer(u: Uart)
    ensures Flush(u) == u.(rx := [], fe := u.fe || AnyFramingError(u.rx))
    decreases |u.rx|
  {
    if u.rx != [] {
      FlushEmptiesBuffer(ReadData(u).0);
      AnyFramingErrorCons(u.rx);
    }
  }

  /** start_cutout on one channel: possibly switch to RX, then flush. */
  function StartChannel(u: Uart, listen: bool): Uart
  {
    Flush(if listen then u.(direction := DirectionRx) else u)
  }

  /** start_cutout: every channel started, every packet handle nulled. */
  function Start(s: DecoderState, listen: bool): DecoderState
    requires |s.uarts| == |s.packets|
  {
    s.(uarts := seq(|s.uarts|, i requires 0 <= i < |s.uarts| => StartChannel(s.uarts[i], listen)),
       packets := seq(|s.packets|, i => None))
  }

  /**
   * After start_cutout every buffer is empty and every handle is null; a
   * channel is receiving when listening was asked for, and otherwise keeps
   * its direction; nothing is allocated or committed.
   */
  lemma StartClearsChannels(s: DecoderState, listen: bool)
    requires WellFormed(s)
    ensures var r := Start(s, listen);
      && WellFormed(r)
      && |r.uarts| == |s.uarts|
      && (forall i :: 0 <= i < |r.uarts| ==> r.uarts[i].rx == [] && r.packets[i] == None)
      && (forall i :: 0 <= i < |r.uarts| ==>
            r.uarts[i].direction == (if listen then DirectionRx else s.uarts[i].direction))
      && (forall i :: 0 <= i < |r.uarts| ==>
            r.uarts[i].fe == (s.uarts[i].fe || AnyFramingError(s.uarts[i].rx)))
      && r.freeSlots == s.freeSlots && r.committed == s.committed && r.pending == s.pending
  {
    forall i | 0 <= i < |s.uarts|
      ensures StartChannel(s.uarts[i], listen) ==
              s.uarts[i].(rx := [], fe := s.uarts[i].fe || AnyFramingError(s.uarts[i].rx),
                          direction := if listen then DirectionRx else s.uarts[i].direction)
    {
      FlushEmptiesBuffer(if listen then s.uarts[i].(direction := DirectionRx) else s.uarts[i]);
    }
  }

  // ---------------------------------------------------------------------
  // The drain loop of middle_cutout and end_cutout
  // ---------------------------------------------------------------------

  /** One channel's part of a drain: its UART, its packet handle, and the allocator's free slots. */
  datatype Lane = Lane(uart: Uart, packet: Option<Packet>, freeSlots: nat)

  /**
   * What the drain loop does on a framing error: in window 1 it switches
   * the receiver off and clears FE; in window 2 it only clears FE.
   */
  function ResetReceiver(w: Window, u: Uart): Uart
  {
    if w == Window1 then u.(direction := DirectionNone, fe := false) else u.(fe := false)
  }

  /**
   * The drain loop, one iteration at a time: while RXNE is set, allocate a
   * packet if the channel has none, stop if that fails, read a byte, and on
   * FE reset the receiver and drop the byte, otherwise append it.
   */
  function Drain(w: Window, channel: nat, key: nat, l: Lane): Lane
    decreases |l.uart.rx|
  {
    if l.uart.rx == [] then l
    else
      var (p, free) := if l.packet.None? then Alloc(channel, key, l.freeSlots) else (l.packet, l.freeSlots);
      if p.None? then l.(packet := p, freeSlots := free)
      else
        var (u, b) := ReadData(l.uart);
        if u.fe then Drain(w, channel, key, Lane(ResetReceiver(w, u), p, free))
        else Drain(w, channel, key, Lane(u, Some(Append(w, p.value, b)), free))
  }

  /** The data of the bytes that arrived without framing error, in arrival order. */
  function ValidData(rx: seq<RxByte>): seq<bv8>
    decreases |rx|
  {
    if rx == [] then []
    else (if rx[0].framingError then [] else [rx[0].data]) + ValidData(rx[1..])
  }

  /**
   * The bytes a drain appends: those that arrived without framing error,
   * except that an FE flag already raised when the drain begins also drops
   * the first byte read.
   */
  function Kept(u: Uart): seq<bv8>
  {
    if u.rx == [] then [] else if u.fe then ValidData(u.rx[1..]) else ValidData(u.rx)
  }

  /**
   * The UART after a drain that read everything: buffer empty, FE clear, and
   * in window 1 the receiver off if some byte was treated as a framing error.
   */
  function Drained(w: Window, u: Uart): Uart
  {
    if u.rx == [] then u
    else u.(rx := [], fe := false,
            direction := if w == Window1 && (u.fe || AnyFramingError(u.rx)) then DirectionNone else u.direction)
  }

  /**
   * The drain loop in closed form. With no bytes, or with no packet and no
   * free slot, nothing happens: the buffered bytes stay. Otherwise a packet
   * is allocated first if needed (one slot fewer) and every buffered byte is
   * read, the valid ones appended.
   */
  function DrainResult(w: Window, channel: nat, key: nat, l: Lane): Lane
  {
    if l.uart.rx == [] || (l.packet.None? && l.freeSlots == 0) then l
    else
      var base := if l.packet.Some? then l.packet.value else Packet(channel, key, [], []);
      Lane(Drained(w, l.uart), Some(AppendAll(w, base, Kept(l.uart))),
           if l.packet.Some? then l.freeSlots else l.freeSlots - 1)
  }

  lemma ValidDataOfSingle(rx: seq<RxByte>)
    requires |rx| == 1
    ensures ValidData(rx) == (if rx[0].framingError then [] else [rx[0].data])
  {
    assert rx[1..] == [];
  }

  /** Reading a byte with a framing error and resetting the receiver changes neither what is kept nor how the UART ends. */
  lemma DrainErrorStep(w: Window, u: Uart)
    requires u.rx != [] && ReadData(u).0.fe
    ensures Kept(ResetReceiver(w, ReadData(u).0)) == Kept(u)
    ensures Drained(w, ResetReceiver(w, ReadData(u).0)) == Drained(w, u)
  {
    AnyFramingErrorCons(u.rx);
    if u.rx[1..] == [] {
      assert ValidData(u.rx[1..]) == [];
    }
  }

  /** Reading a clean byte while FE is low keeps it in front of the rest. */
  lemma DrainCleanStep(w: Window, u: Uart, p: Packet)
    requires u.rx != [] && !ReadData(u).0.fe
    ensures Drained(w, ReadData(u).0) == Drained(w, u)
    ensures AppendAll(w, Append(w, p, u.rx[0].data), Kept(ReadData(u).0)) == AppendAll(w, p, Kept(u))
  {
    AnyFramingErrorCons(u.rx);
    var u1 := ReadData(u).0;
    if u.rx[1..] == [] {
      assert ValidData(u.rx[1..]) == [];
    }
    assert Kept(u1) == ValidData(u.rx[1..]);
    assert Kept(u) == [u.rx[0].data] + Kept(u1);
    assert p.ch1 + [u.rx[0].data] + Kept(u1) == p.ch1 + Kept(u);
    assert p.ch2 + [u.rx[0].data] + Kept(u1) == p.ch2 + Kept(u);
  }

  /** A drain with a live packet reads everything and appends exactly the kept bytes. */
  lemma {:induction false} DrainLive(w: Window, channel: nat, key: nat, u: Uart, p: Packet, free: nat)
    ensures Drain(w, channel, key, Lane(u, Some(p), free))
         == Lane(Drained(w, u), Some(AppendAll(w, p, Kept(u))), free)
    decreases |u.rx|
  {
    if u.rx == [] {
      assert p.ch1 + [] == p.ch1 && p.ch2 + [] == p.ch2;
    } else {
      var u1 := ReadData(u).0;
      if u1.fe {
        DrainLive(w, channel, key, ResetReceiver(w, u1), p, free);
        DrainErrorStep(w, u);
      } else {
        DrainLive(w, channel, key, u1, Append(w, p, u.rx[0].data), free);
        DrainCleanStep(w, u, p);
      }
    }
  }

  /** The step-by-step drain loop computes the closed form. */
  lemma DrainInClosedForm(w: Window, channel: nat, key: nat, l: Lane)
    ensures Drain(w, channel, key, l) == DrainResult(w, channel, key, l)
  {
    if l.uart.rx != [] && !(l.packet.None? && l.freeSlots == 0) {
      if l.packet.None? {
        var newPacket := Packet(channel, key, [], []);
        assert Drain(w, channel, key, l) == Drain(w, channel, key, Lane(l.uart, Some(newPacket), l.freeSlots - 1));
        DrainLive(w, channel, key, l.uart, newPacket, l.freeSlots - 1);
      } else {
        DrainLive(w, channel, key, l.uart, l.packet.value, l.freeSlots);
      }
    }
  }

  /** Bytes that all arrived with a framing error contribute no data. */
  lemma {:induction false} ValidDataAllErrored(rx: seq<RxByte>)
    requires forall k :: 0 <= k < |rx| ==> rx[k].framingError
    ensures ValidData(rx) == []
    decreases |rx|
  {
    if rx != [] {
      ValidDataAllErrored(rx[1..]);
    }
  }

  /**
   * Allocation comes before the read and the error check: a channel whose
   * buffered bytes all arrived with framing errors still ends the drain
   * holding a packet, with an empty payload.
   */
  lemma ErroredBytesStillAllocate(w: Window, channel: nat, key: nat, u: Uart, free: nat)
    requires u.rx != [] && free > 0
    requires forall k :: 0 <= k < |u.rx| ==> u.rx[k].framingError
    ensures Drain(w, channel, key, Lane(u, None, free)).packet == Some(Packet(channel, key, [], []))
    ensures Drain(w, channel, key, Lane(u, None, free)).freeSlots == free - 1
  {
    DrainInClosedForm(w, channel, key, Lane(u, None, free));
    ValidDataAllErrored(u.rx);
    ValidDataAllErrored(u.rx[1..]);
  }

  /** When the allocator refuses, the drain stops before reading: every buffered byte stays. */
  lemma RefusedAllocationKeepsBytes(w: Window, channel: nat, key: nat, u: Uart)
    ensures Drain(w, channel, key, Lane(u, None, 0)) == Lane(u, None, 0)
  {
    DrainInClosedForm(w, channel, key, Lane(u, None, 0));
  }

  /**
   * A framing error left over from the start_cutout flush is still raised
   * when window 1 is drained: the first byte read is taken as errored and
   * dropped, and the receiver is switched off.
   */
  lemma StaleFramingErrorDropsFirstByte(key: nat)
    ensures var u := Uart([RxByte(0xA5, false), RxByte(0x5A, false)], DirectionRx, true);
      Drain(Window1, 0, key, Lane(u, None, 1))
        == Lane(Uart([], DirectionNone, false), Some(Packet(0, key, [0x5A], [])), 0)
  {
    var u := Uart([RxByte(0xA5, false), RxByte(0x5A, false)], DirectionRx, true);
    DrainInClosedForm(Window1, 0, key, Lane(u, None, 1));
    ValidDataOfSingle(u.rx[1..]);
    assert Kept(u) == [0x5A];
    assert Drained(Window1, u) == Uart([], DirectionNone, false);
    assert [] + Kept(u) == [0x5A];
  }

  // ---------------------------------------------------------------------
  // middle_cutout and end_cutout: a sweep over the channels
  // ---------------------------------------------------------------------

  /**
   * The receiver restart that ends window 1: the USART is disabled, set to
   * RX and enabled again. Disabling it resets its status flags, so a byte
   * still buffered is discarded and the framing-error flag is cleared.
   */
  function Restarted(u: Uart): Uart
  {
    u.(rx := [], direction := DirectionRx, fe := false)
  }

  /**
   * What middle_cutout or end_cutout does to channel i once its drain has
   * produced `l`: in window 1 keep the packet and restart the receiver in
   * RX; in window 2 switch the receiver off and commit the packet, if there
   * is one, raising the consumer's interrupt.
   */
  function AfterDrain(w: Window, s: DecoderState, i: nat, l: Lane): DecoderState
    requires i < |s.uarts| == |s.packets|
  {
    if w == Window1 then
      s.(uarts := s.uarts[i := Restarted(l.uart)],
         packets := s.packets[i := l.packet],
         freeSlots := l.freeSlots)
    else if l.packet.Some? then
      s.(uarts := s.uarts[i := l.uart.(direction := DirectionNone)],
         packets := s.packets[i := None],
         freeSlots := l.freeSlots,
         committed := s.committed + [l.packet.value],
         pending := s.pending + 1)
    else
      s.(uarts := s.uarts[i := l.uart.(direction := DirectionNone)],
         packets := s.packets[i := None],
         freeSlots := l.freeSlots)
  }

  /** Finishing a channel overwrites what its drain changed: finishing the drained state is finishing the state before. */
  lemma AfterDrainOfDrained(w: Window, s: DecoderState, i: nat, l: Lane)
    requires i < |s.uarts| == |s.packets|
    ensures AfterDrain(w, s.(uarts := s.uarts[i := l.uart], packets := s.packets[i := l.packet], freeSlots := l.freeSlots), i, l)
         == AfterDrain(w, s, i, l)
  {
  }

  /** One channel of middle_cutout or end_cutout: drain it, then finish it. */
  function SweepChannel(w: Window, s: DecoderState, key: nat, i: nat): DecoderState
    requires i < |s.uarts| == |s.packets|
  {
    AfterDrain(w, s, i, Drain(w, i, key, Lane(s.uarts[i], s.packets[i], s.freeSlots)))
  }

  /** The channel loop of middle_cutout or end_cutout, over channels 0 .. n-1. */
  function Sweep(w: Window, s: DecoderState, key: nat, n: nat): (r: DecoderState)
    requires n <= |s.uarts| == |s.packets|
    ensures |r.uarts| == |s.uarts| && |r.packets| == |s.packets|
    decreases n
  {
    if n == 0 then s else SweepChannel(w, Sweep(w, s, key, n - 1), key, n - 1)
  }

  /** middle_cutout. */
  function Middle(s: DecoderState, key: nat): DecoderState
    requires |s.uarts| == |s.packets|
  {
    Sweep(Window1, s, key, |s.uarts|)
  }

  /** The empty record of end_cutout and no_cutout: allocated on channel 0, committed only if the allocation succeeds. */
  function CommitEmpty(s: DecoderState, key: nat): DecoderState
  {
    var (p, free) := Alloc(0, key, s.freeSlots);
    if p.Some? then s.(freeSlots := free, committed := s.committed + [p.value], pending := s.pending + 1)
    else s
  }

  /** end_cutout: the window-2 sweep, then an empty record if no channel committed one. */
  function End(s: DecoderState, key: nat): DecoderState
    requires |s.uarts| == |s.packets|
  {
    var e := Sweep(Window2, s, key, |s.uarts|);
    var havePackets := |e.committed| != |s.committed|;
    if havePackets then e else CommitEmpty(e, key)
  }

  /** no_cutout. */
  function NoCutout(s: DecoderState, key: nat): DecoderState
  {
    CommitEmpty(s, key)
  }

  /** What the drain of channel i amounts to within a sweep of `s`. */
  function ChannelLane(w: Window, s: DecoderState, key: nat, i: nat): Lane
    requires i < |s.uarts| == |s.packets|
  {
    DrainResult(w, i, key, Lane(s.uarts[i], s.packets[i], Sweep(w, s, key, i).freeSlots))
  }

  /** A drain keeps a live packet on the channel it was allocated for. */
  lemma DrainResultChannel(w: Window, i: nat, key: nat, l: Lane)
    requires l.packet.Some? ==> l.packet.value.channel == i
    ensures var r := DrainResult(w, i, key, l);
      && (r.packet.Some? ==> r.packet.value.channel == i)
      && (l.packet.Some? ==> r.packet.Some?)
      && r.freeSlots <= l.freeSlots
      && (r.freeSlots < l.freeSlots ==> r.packet.Some?)
      && (r.uart.rx == [] || (r == l && l.packet.None? && l.freeSlots == 0))
      && (l.uart.rx != [] && r.packet.None? ==> l.freeSlots == 0)
  {
  }

  /**
   * `r` is `s` with channels 0 .. n-1 swept: they hold what their drain
   * left, with the direction the window sets and in window 2 no handle;
   * the others are untouched.
   */
  ghost predicate SweptUpTo(w: Window, s: DecoderState, key: nat, n: nat, r: DecoderState)
    requires n <= |s.uarts| == |s.packets|
  {
    && WellFormed(r)
    && |r.uarts| == |s.uarts|
    && (forall i :: n <= i < |s.uarts| ==> r.uarts[i] == s.uarts[i] && r.packets[i] == s.packets[i])
    && (forall i :: 0 <= i < n ==>
          r.uarts[i] == if w == Window1 then Restarted(ChannelLane(w, s, key, i).uart)
                        else ChannelLane(w, s, key, i).uart.(direction := DirectionNone))
    && (forall i :: 0 <= i < n ==>
          r.packets[i] == (if w == Window1 then ChannelLane(w, s, key, i).packet else None))
  }

  /** Finishing channel n with its drained lane extends the swept prefix by one. */
  lemma SweptStep(w: Window, s: DecoderState, key: nat, n: nat, q: DecoderState, l: Lane)
    requires n < |s.uarts| == |s.packets| && SweptUpTo(w, s, key, n, q)
    requires l == ChannelLane(w, s, key, n)
    requires l.packet.Some? ==> l.packet.value.channel == n
    ensures SweptUpTo(w, s, key, n + 1, AfterDrain(w, q, n, l))
  {
  }

  /** A sweep treats each channel on its own. */
  lemma {:induction false} SweepChannels(w: Window, s: DecoderState, key: nat, n: nat)
    requires WellFormed(s) && n <= |s.uarts|
    ensures SweptUpTo(w, s, key, n, Sweep(w, s, key, n))
    decreases n
  {
    if n > 0 {
      SweepChannels(w, s, key, n - 1);
      SweepStep(w, s, key, n);
      var q := Sweep(w, s, key, n - 1);
      DrainResultChannel(w, n - 1, key, Lane(s.uarts[n - 1], s.packets[n - 1], q.freeSlots));
      SweptStep(w, s, key, n - 1, q, ChannelLane(w, s, key, n - 1));
    }
  }

  /** A sweep over channels 0 .. n-1 leaves the later channels as they were. */
  lemma {:induction false} SweepUntouched(w: Window, s: DecoderState, key: nat, n: nat, i: nat)
    requires n <= i < |s.uarts| == |s.packets|
    ensures Sweep(w, s, key, n).uarts[i] == s.uarts[i] && Sweep(w, s, key, n).packets[i] == s.packets[i]
    decreases n
  {
    if n > 0 {
      SweepUntouched(w, s, key, n - 1, i);
    }
  }

  /** The sweep's last step, with the drain in closed form. */
  lemma SweepStep(w: Window, s: DecoderState, key: nat, n: nat)
    requires 0 < n <= |s.uarts| == |s.packets|
    ensures Sweep(w, s, key, n) == AfterDrain(w, Sweep(w, s, key, n - 1), n - 1, ChannelLane(w, s, key, n - 1))
  {
    var q := Sweep(w, s, key, n - 1);
    SweepUntouched(w, s, key, n - 1, n - 1);
    DrainInClosedForm(w, n - 1, key, Lane(q.uarts[n - 1], q.packets[n - 1], q.freeSlots));
  }

  /**
   * A sweep never frees a slot, and uses one only for a channel whose drain
   * leaves a packet.
   */
  lemma {:induction false} SweepFreeSlots(w: Window, s: DecoderState, key: nat, n: nat)
    requires WellFormed(s) && n <= |s.uarts|
    ensures Sweep(w, s, key, n).freeSlots <= s.freeSlots
    ensures Sweep(w, s, key, n).freeSlots < s.freeSlots ==>
              exists i :: 0 <= i < n && ChannelLane(w, s, key, i).packet.Some?
    decreases n
  {
    if n > 0 {
      SweepFreeSlots(w, s, key, n - 1);
      SweepStep(w, s, key, n);
      var q := Sweep(w, s, key, n - 1);
      DrainResultChannel(w, n - 1, key, Lane(s.uarts[n - 1], s.packets[n - 1], q.freeSlots));
    }
  }

  /** The window-2 sweep only appends to the queue, raising the interrupt once per commit. */
  lemma {:induction false} SweepAppends(s: DecoderState, key: nat, n: nat)
    requires n <= |s.uarts| == |s.packets|
    ensures var r := Sweep(Window2, s, key, n);
      && |s.committed| <= |r.committed|
      && r.committed[..|s.committed|] == s.committed
      && r.pending == s.pending + (|r.committed| - |s.committed|)
    decreases n
  {
    if n > 0 {
      SweepAppends(s, key, n - 1);
      SweepStep(Window2, s, key, n);
      var q := Sweep(Window2, s, key, n - 1);
      var r := Sweep(Window2, s, key, n);
      if ChannelLane(Window2, s, key, n - 1).packet.Some? {
        assert r.committed[..|s.committed|] == q.committed[..|s.committed|];
      }
    }
  }

  /**
   * The entries of `c` past the queue of `s` are packets that the drains
   * of channels below n left in window 2, in increasing channel order.
   */
  ghost predicate SourcedFrom(s: DecoderState, key: nat, n: nat, c: seq<Packet>)
    requires n <= |s.uarts| == |s.packets|
  {
    && |s.committed| <= |c|
    && (forall j :: |s.committed| <= j < |c| ==>
          c[j].channel < n && ChannelLane(Window2, s, key, c[j].channel).packet == Some(c[j]))
    && (forall j, k :: |s.committed| <= j < k < |c| ==> c[j].channel < c[k].channel)
  }

  lemma SourcedWiden(s: DecoderState, key: nat, n: nat, c: seq<Packet>)
    requires n < |s.uarts| == |s.packets| && SourcedFrom(s, key, n, c)
    ensures SourcedFrom(s, key, n + 1, c)
  {
  }

  lemma SourcedAppend(s: DecoderState, key: nat, n: nat, c: seq<Packet>, p: Packet)
    requires n < |s.uarts| == |s.packets| && SourcedFrom(s, key, n, c)
    requires p.channel == n && ChannelLane(Window2, s, key, n).packet == Some(p)
    ensures SourcedFrom(s, key, n + 1, c + [p])
  {
    var c' := c + [p];
    assert forall j :: 0 <= j < |c| ==> c'[j] == c[j];
  }

  /**
   * Each packet the window-2 sweep commits is the one a channel's drain
   * left, and they come in increasing channel order.
   */
  lemma {:induction false} SweepCommitSources(s: DecoderState, key: nat, n: nat)
    requires WellFormed(s) && n <= |s.uarts|
    ensures SourcedFrom(s, key, n, Sweep(Window2, s, key, n).committed)
    decreases n
  {
    if n > 0 {
      SweepCommitSources(s, key, n - 1);
      SweepStep(Window2, s, key, n);
      var q := Sweep(Window2, s, key, n - 1);
      var l := ChannelLane(Window2, s, key, n - 1);
      DrainResultChannel(Window2, n - 1, key, Lane(s.uarts[n - 1], s.packets[n - 1], q.freeSlots));
      if l.packet.Some? {
        SourcedAppend(s, key, n - 1, q.committed, l.packet.value);
      } else {
        SourcedWiden(s, key, n - 1, q.committed);
      }
    }
  }

  /** Every packet a channel's drain leaves in window 2 is committed. */
  lemma {:induction false} SweepCommitsAll(s: DecoderState, key: nat, n: nat)
    requires n <= |s.uarts| == |s.packets|
    ensures var r := Sweep(Window2, s, key, n);
      && |s.committed| <= |r.committed|
      && forall i :: 0 <= i < n && ChannelLane(Window2, s, key, i).packet.Some? ==>
           ChannelLane(Window2, s, key, i).packet.value in r.committed[|s.committed|..]
    decreases n
  {
    if n > 0 {
      SweepCommitsAll(s, key, n - 1);
      SweepStep(Window2, s, key, n);
      var q := Sweep(Window2, s, key, n - 1);
      var l := ChannelLane(Window2, s, key, n - 1);
      var r := Sweep(Window2, s, key, n);
      if l.packet.Some? {
        assert r.committed[|s.committed|..] == q.committed[|s.committed|..] + [l.packet.value];
      }
    }
  }

  /** Later channels of a sweep see no more free slots than earlier ones. */
  lemma {:induction false} SweepFreeMonotone(w: Window, s: DecoderState, key: nat, i: nat, n: nat)
    requires WellFormed(s) && i <= n <= |s.uarts|
    ensures Sweep(w, s, key, n).freeSlots <= Sweep(w, s, key, i).freeSlots
    decreases n
  {
    if i < n {
      SweepFreeMonotone(w, s, key, i, n - 1);
      SweepStep(w, s, key, n);
      var q := Sweep(w, s, key, n - 1);
      DrainResultChannel(w, n - 1, key, Lane(s.uarts[n - 1], s.packets[n - 1], q.freeSlots));
    }
  }

  /** The window-1 sweep commits nothing. */
  lemma {:induction false} MiddleKeepsQueue(s: DecoderState, key: nat, n: nat)
    requires n <= |s.uarts| == |s.packets|
    ensures Sweep(Window1, s, key, n).committed == s.committed
    ensures Sweep(Window1, s, key, n).pending == s.pending
    decreases n
  {
    if n > 0 {
      MiddleKeepsQueue(s, key, n - 1);
      SweepStep(Window1, s, key, n);
    }
  }

  // ---------------------------------------------------------------------
  // Properties of the phases
  // ---------------------------------------------------------------------

  /** The data bytes `bs` each arrived, without framing error, among `arrived`. */
  ghost predicate CleanIn(bs: seq<bv8>, arrived: seq<RxByte>)
  {
    forall b :: b in bs ==> RxByte(b, false) in arrived
  }

  lemma {:induction false} ValidDataClean(rx: seq<RxByte>)
    ensures CleanIn(ValidData(rx), rx)
    decreases |rx|
  {
    if rx != [] {
      ValidDataClean(rx[1..]);
      forall b | b in ValidData(rx)
        ensures RxByte(b, false) in rx
      {
        if !(b in ValidData(rx[1..])) {
          assert rx[0] == RxByte(b, false);
        }
      }
    }
  }

  /** A drain never appends a byte that arrived with a framing error, nor one that did not arrive. */
  lemma KeptClean(u: Uart)
    ensures CleanIn(Kept(u), u.rx)
  {
    if u.rx != [] {
      ValidDataClean(u.rx);
      ValidDataClean(u.rx[1..]);
      forall b | b in Kept(u)
        ensures RxByte(b, false) in u.rx
      {
        if u.fe {
          assert RxByte(b, false) in u.rx[1..];
        }
      }
    }
  }

  /**
   * middle_cutout after start_cutout (no handles held): every receiver ends
   * in RX; a channel that holds a packet holds a fresh one for this key
   * carrying exactly its kept window-1 bytes, and has read all its bytes;
   * a channel that still has bytes buffered was left alone because the
   * allocator was out of slots; nothing is committed.
   */
  lemma MiddleOutcome(s: DecoderState, key: nat)
    requires WellFormed(s)
    requires forall i :: 0 <= i < |s.packets| ==> s.packets[i] == None
    ensures var r := Middle(s, key);
      && WellFormed(r)
      && |r.uarts| == |s.uarts|
      && r.committed == s.committed && r.pending == s.pending
      && r.freeSlots <= s.freeSlots
      && (r.freeSlots < s.freeSlots ==> exists i :: 0 <= i < |r.packets| && r.packets[i].Some?)
      && (forall i :: 0 <= i < |r.uarts| ==> r.uarts[i] == Uart([], DirectionRx, false))
      && (forall i :: 0 <= i < |r.uarts| && r.packets[i].Some? ==>
            r.packets[i].value == Packet(i, key, Kept(s.uarts[i]), []))
      && (forall i :: 0 <= i < |r.uarts| && r.packets[i].None? && s.uarts[i].rx != [] ==> r.freeSlots == 0)
  {
    var n := |s.uarts|;
    var r := Middle(s, key);
    SweepChannels(Window1, s, key, n);
    SweepFreeSlots(Window1, s, key, n);
    MiddleKeepsQueue(s, key, n);
    forall i | 0 <= i < n
      ensures r.packets[i].Some? ==> r.packets[i].value == Packet(i, key, Kept(s.uarts[i]), [])
      ensures r.packets[i].None? && s.uarts[i].rx != [] ==> r.freeSlots == 0
    {
      var q := Sweep(Window1, s, key, i);
      DrainResultChannel(Window1, i, key, Lane(s.uarts[i], s.packets[i], q.freeSlots));
      SweepFreeMonotone(Window1, s, key, i, n);
    }
  }

  /**
   * end_cutout: every receiver ends switched off and no handle is held; the
   * queue only grows, one interrupt per commit; something is committed
   * exactly when a channel held a packet or the allocator had a free slot;
   * and the empty record on channel 0 is committed only when no channel
   * committed one.
   */
  lemma EndOutcome(s: DecoderState, key: nat)
    requires WellFormed(s)
    ensures var r := End(s, key);
      && WellFormed(r)
      && |r.uarts| == |s.uarts|
      && (forall i :: 0 <= i < |r.uarts| ==> r.uarts[i].direction == DirectionNone && r.packets[i] == None)
      && |s.committed| <= |r.committed|
      && r.committed[..|s.committed|] == s.committed
      && r.pending == s.pending + (|r.committed| - |s.committed|)
      && (|r.committed| > |s.committed| <==>
            s.freeSlots > 0 || exists i :: 0 <= i < |s.packets| && s.packets[i].Some?)
    ensures var r := End(s, key); var e := Sweep(Window2, s, key, |s.uarts|);
      && (|e.committed| > |s.committed| ==> r == e)
      && (|e.committed| == |s.committed| && s.freeSlots > 0 ==>
            r.committed == s.committed + [Packet(0, key, [], [])] && r.pending == s.pending + 1)
      && (|e.committed| == |s.committed| && s.freeSlots == 0 ==>
            r.committed == s.committed && r.pending == s.pending)
  {
    var n := |s.uarts|;
    var e := Sweep(Window2, s, key, n);
    SweepChannels(Window2, s, key, n);
    SweepAppends(s, key, n);
    SweepFreeSlots(Window2, s, key, n);
    SweepCommitSources(s, key, n);
    SweepCommitsAll(s, key, n);
    var r := End(s, key);
    if exists i :: 0 <= i < n && s.packets[i].Some? {
      var i :| 0 <= i < n && s.packets[i].Some?;
      DrainResultChannel(Window2, i, key, Lane(s.uarts[i], s.packets[i], Sweep(Window2, s, key, i).freeSlots));
      assert ChannelLane(Window2, s, key, i).packet.value in e.committed[|s.committed|..];
    } else if |e.committed| > |s.committed| {
      var c := e.committed[|s.committed|].channel;
      DrainResultChannel(Window2, c, key, Lane(s.uarts[c], s.packets[c], Sweep(Window2, s, key, c).freeSlots));
      SweepFreeMonotone(Window2, s, key, 0, c);
    }
    if |e.committed| == |s.committed| {
      assert e.freeSlots == s.freeSlots;
      assert e.committed == s.committed;
      if s.freeSlots > 0 {
        assert r.committed == e.committed + [Packet(0, key, [], [])];
      }
    }
  }

  /** no_cutout commits one empty record on channel 0 if the allocator has a slot, and otherwise does nothing. */
  lemma NoCutoutOutcome(s: DecoderState, key: nat)
    ensures var r := NoCutout(s, key);
      && r.uarts == s.uarts && r.packets == s.packets
      && (s.freeSlots > 0 ==>
            r.committed == s.committed + [Packet(0, key, [], [])] && r.pending == s.pending + 1
            && r.freeSlots == s.freeSlots - 1)
      && (s.freeSlots == 0 ==> r == s)
  {
  }

  // ---------------------------------------------------------------------
  // A whole cutout
  // ---------------------------------------------------------------------

  /**
   * The bytes the decoders on the track send during one window, as the
   * receivers take them: a channel whose receiver is in RX buffers them, a
   * switched-off one loses them.
   */
  function Arrive(s: DecoderState, bytes: seq<seq<RxByte>>): DecoderState
    requires |bytes| == |s.uarts|
  {
    s.(uarts := seq(|s.uarts|, i requires 0 <= i < |s.uarts| =>
         if s.uarts[i].direction == DirectionRx then s.uarts[i].(rx := s.uarts[i].rx + bytes[i]) else s.uarts[i]))
  }

  /** A cutout: start, window 1, middle, window 2, end. */
  function Cutout(s: DecoderState, hwNeedsCh1: bool, key: nat, window1: seq<seq<RxByte>>, window2: seq<seq<RxByte>>): DecoderState
    requires |s.uarts| == |s.packets| == |window1| == |window2|
  {
    var started := Start(s, ListensInWindow1(hwNeedsCh1, key));
    End(Arrive(Middle(Arrive(started, window1), key), window2), key)
  }

  /**
   * After start_cutout and window 1, the window-2 sweep commits only packets
   * stamped with the key whose window-1 payload arrived cleanly in window 1
   * and whose window-2 payload arrived cleanly in window 2 on their own
   * channel. Bytes a channel could not store in window 1 (no free slot) are
   * discarded by the receiver restart and never reach a packet.
   */
  lemma WindowTwoPayloads(s: DecoderState, key: nat, window1: seq<seq<RxByte>>, window2: seq<seq<RxByte>>)
    requires WellFormed(s) && |window1| == |window2| == |s.uarts|
    requires forall i :: 0 <= i < |s.packets| ==> s.packets[i] == None
    requires forall i :: 0 <= i < |s.uarts| ==> s.uarts[i].rx == [] || s.uarts[i].rx == window1[i]
    ensures var m := Arrive(Middle(s, key), window2);
      var e := Sweep(Window2, m, key, |s.uarts|);
      && |s.committed| <= |e.committed|
      && forall j :: |s.committed| <= j < |e.committed| ==>
           && e.committed[j].key == key
           && e.committed[j].channel < |s.uarts|
           && CleanIn(e.committed[j].ch1, window1[e.committed[j].channel])
           && CleanIn(e.committed[j].ch2, window2[e.committed[j].channel])
  {
    var n := |s.uarts|;
    var mid := Middle(s, key);
    MiddleOutcome(s, key);
    var m := Arrive(mid, window2);
    assert WellFormed(m);
    var e := Sweep(Window2, m, key, n);
    SweepCommitSources(m, key, n);
    forall j | |s.committed| <= j < |e.committed|
      ensures e.committed[j].key == key
      ensures CleanIn(e.committed[j].ch1, window1[e.committed[j].channel])
      ensures CleanIn(e.committed[j].ch2, window2[e.committed[j].channel])
    {
      var c := e.committed[j].channel;
      var g := Sweep(Window2, m, key, c).freeSlots;
      SweepFreeMonotone(Window2, m, key, 0, c);
      var u := m.uarts[c];
      DrainResultChannel(Window2, c, key, Lane(u, m.packets[c], g));
      KeptClean(u);
      KeptClean(s.uarts[c]);
      assert u.rx == mid.uarts[c].rx + window2[c] == window2[c];
    }
  }

  /**
   * A framing error left by the start_cutout flush does not reach window 2:
   * when window 1 brings nothing, the receiver restart at the end of
   * middle_cutout clears the flag, and both window-2 bytes are kept.
   */
  lemma RestartClearsStaleFramingError(key: nat)
    ensures var s := DecoderState([Uart([RxByte(0xFF, true)], DirectionRx, false)], [None], 1, [], 0);
      Cutout(s, true, key, [[]], [[RxByte(0x55, false), RxByte(0xAA, false)]]).committed
        == [Packet(0, key, [], [0x55, 0xAA])]
  {
    var s := DecoderState([Uart([RxByte(0xFF, true)], DirectionRx, false)], [None], 1, [], 0);
    var w2 := [RxByte(0x55, false), RxByte(0xAA, false)];
    FlushEmptiesBuffer(s.uarts[0]);
    var a := Arrive(Start(s, true), [[]]);
    assert a.uarts[0] == Uart([], DirectionRx, true);
    var mid := Middle(a, key);
    DrainInClosedForm(Window1, 0, key, Lane(a.uarts[0], None, 1));
    assert mid == a.(uarts := [Uart([], DirectionRx, false)]);
    var m := Arrive(mid, [w2]);
    assert m.uarts[0] == Uart(w2, DirectionRx, false);
    DrainInClosedForm(Window2, 0, key, Lane(m.uarts[0], None, 1));
    ValidDataOfSingle(w2[1..]);
    assert ValidData(w2) == [0x55] + ValidData(w2[1..]);
    assert Kept(m.uarts[0]) == [0x55, 0xAA];
    var e := Sweep(Window2, m, key, 1);
    assert e == SweepChannel(Window2, m, key, 0);
    assert AppendAll(Window2, Packet(0, key, [], []), [0x55, 0xAA]) == Packet(0, key, [], [0x55, 0xAA]);
    assert e.committed == [Packet(0, key, [], [0x55, 0xAA])];
    assert Cutout(s, true, key, [[]], [w2]) == End(m, key);
  }

  /**
   * A whole cutout: afterwards every receiver is off and no handle is held;
   * the queue only grows, one interrupt per commit; a free slot at the start
   * guarantees at least one record; and every record committed is stamped
   * with the cutout's key and carries only bytes that arrived without
   * framing error on its own channel, the window-1 payload from window 1
   * and the window-2 payload from window 2.
   */
  lemma CutoutOutcome(s: DecoderState, hwNeedsCh1: bool, key: nat, window1: seq<seq<RxByte>>, window2: seq<seq<RxByte>>)
    requires WellFormed(s) && 0 < |s.uarts| && |window1| == |window2| == |s.uarts|
    ensures var r := Cutout(s, hwNeedsCh1, key, window1, window2);
      && WellFormed(r)
      && |r.uarts| == |s.uarts|
      && (forall i :: 0 <= i < |r.uarts| ==> r.uarts[i].direction == DirectionNone && r.packets[i] == None)
      && |s.committed| <= |r.committed|
      && r.committed[..|s.committed|] == s.committed
      && r.pending == s.pending + (|r.committed| - |s.committed|)
      && (s.freeSlots > 0 ==> |r.committed| > |s.committed|)
      && forall j :: |s.committed| <= j < |r.committed| ==>
           && r.committed[j].key == key
           && r.committed[j].channel < |s.uarts|
           && CleanIn(r.committed[j].ch1, window1[r.committed[j].channel])
           && CleanIn(r.committed[j].ch2, window2[r.committed[j].channel])
  {
    var n := |s.uarts|;
    var listen := ListensInWindow1(hwNeedsCh1, key);
    var started := Start(s, listen);
    StartClearsChannels(s, listen);
    var a := Arrive(started, window1);
    assert WellFormed(a);
    var mid := Middle(a, key);
    MiddleOutcome(a, key);
    var m := Arrive(mid, window2);
    assert WellFormed(m);
    EndOutcome(m, key);
    var r := End(m, key);
    if s.freeSlots > 0 && mid.freeSlots < a.freeSlots {
      var i :| 0 <= i < n && mid.packets[i].Some?;
      assert m.packets[i].Some?;
    }
    WindowTwoPayloads(a, key, window1, window2);
    SweepAppends(m, key, n);
    var e := Sweep(Window2, m, key, n);
    forall j | |s.committed| <= j < |r.committed|
      ensures r.committed[j].key == key && r.committed[j].channel < n
      ensures CleanIn(r.committed[j].ch1, window1[r.committed[j].channel])
      ensures CleanIn(r.committed[j].ch2, window2[r.committed[j].channel])
    {
      if j >= |e.committed| {
        assert r.committed[j] == Packet(0, key, [], []);
      } else {
        assert r.committed[j] == e.committed[j];
      }
    }
  }
}

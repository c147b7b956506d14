/** The interrupt-driven JTAG UART driver: its state structure, its ISR, its timer callback
    and the routines a thread calls, on one CPU. Interrupts() stands wherever interrupts are
    enabled, so each routine is proved for every interleaving with the ISR, the timer and the
    host. The ghost log ties the code to UartProtocol. */
module JtagUart {
  import opened Ring
  import opened UartProtocol

  const DEFAULT_TIMEOUT: nat := 10

  /** The control register as read: interrupts pending, host activity, room in the FIFO. */
  datatype Control = Control(ri: bool, wi: bool, ac: bool, wspace: nat)

  /** The data register as read: a byte, whether it is one, and how many more wait. */
  datatype DataWord = DataWord(byte: Byte, rvalid: bool, ravail: nat)

  datatype WriteResult = Wrote(n: nat) | WriteWouldBlock | WriteIoError | WriteSpinning(sofar: nat)
  {
    function Consumed(): nat
    {
      match this
      case Wrote(n) => n
      case WriteSpinning(n) => n
      case _ => 0
    }
  }

  datatype ReadResult = Got(n: nat) | ReadWouldBlock | ReadIoError | ReadSpinning
  {
    function Produced(): nat { if Got? then n else 0 }
  }

  /** What the interrupts have left when a thread goes on: the queues, enables and host counter,
      and how many bytes have been sent so far. */
  datatype Moment = Moment(link: Link, sent: nat)

  // What a thread that waits has seen, a moment for each burst of interrupts.

  /** At some moment from `from` on, the host counted as absent. */
  ghost predicate TimedOutSince(ms: seq<Moment>, from: nat, timeout: nat)
  {
    exists k | from <= k < |ms| :: ms[k].link.hostInactive >= timeout
  }

  /** At some moment from `from` on, the host had just been active. */
  ghost predicate HeardSince(ms: seq<Moment>, from: nat)
  {
    exists k | from <= k < |ms| :: ms[k].link.hostInactive == 0
  }

  /** What a thread waits for: the transmit ring to hold less than `queued` bytes, received
      bytes, or the transmit ring to empty. */
  datatype Aim = Room(queued: nat) | Data | Empty

  predicate Unmet(aim: Aim, link: Link)
  {
    match aim
    case Room(queued) => |link.tx| == queued
    case Data => link.rx == []
    case Empty => link.tx != []
  }

  /** Poll number k of a wait that began at moment `from` found nothing: the aim was not met when
      it looked at the ring, and the host was there when it looked for that. */
  predicate Fruitless(aim: Aim, ms: seq<Moment>, from: nat, k: nat, timeout: nat)
  {
    && from + 2 * k + 1 < |ms|
    && Unmet(aim, ms[from + 2 * k].link)
    && ms[from + 2 * k + 1].link.hostInactive < timeout
  }

  /** The first n polls found nothing. */
  ghost predicate AllFruitless(aim: Aim, ms: seq<Moment>, from: nat, n: int, timeout: nat)
  {
    forall k :: 0 <= k < n ==> Fruitless(aim, ms, from, k, timeout)
  }

  lemma StillFruitless(aim: Aim, ms: seq<Moment>, ms': seq<Moment>, from: nat, n: int, timeout: nat)
    requires ms <= ms' && AllFruitless(aim, ms, from, n, timeout)
    ensures AllFruitless(aim, ms', from, n, timeout)
  {
    forall k | 0 <= k < n
      ensures Fruitless(aim, ms', from, k, timeout)
    {
      assert Fruitless(aim, ms, from, k, timeout);
    }
  }

  /** One poll more, fruitless or not. */
  lemma AnotherPoll(aim: Aim, ms: seq<Moment>, ms': seq<Moment>, from: nat, n: nat, timeout: nat)
    requires ms <= ms' && |ms| == from + 2 * n && AllFruitless(aim, ms, from, n, timeout)
    ensures AllFruitless(aim, ms', from, n, timeout)
    ensures Fruitless(aim, ms', |ms|, 0, timeout) ==> AllFruitless(aim, ms', from, n + 1, timeout)
  {
    StillFruitless(aim, ms, ms', from, n, timeout);
  }

  lemma LastPoll(aim: Aim, ms: seq<Moment>, from: nat, more: nat, timeout: nat)
    requires |ms| == from + more && more % 2 == 0 && AllFruitless(aim, ms, from, more / 2, timeout)
    ensures more > 0 ==> Fruitless(aim, ms, |ms| - 2, 0, timeout)
  {
    if more > 0 {
      assert Fruitless(aim, ms, from, more / 2 - 1, timeout);
    }
  }

  /** From moment `from` on, each burst of interrupts sends a byte or leaves none queued. */
  ghost predicate Draining(ms: seq<Moment>, from: nat)
  {
    forall k | from < k < |ms| :: ms[k - 1].sent < ms[k].sent || ms[k].link.tx == []
  }

  lemma HeardStays(ms: seq<Moment>, ms': seq<Moment>, from: nat, from': nat)
    requires ms <= ms' && from <= from'
    ensures HeardSince(ms, from) || HeardSince(ms', from') ==> HeardSince(ms', from)
  {
    if HeardSince(ms, from) {
      var k :| from <= k < |ms| && ms[k].link.hostInactive == 0;
      assert ms'[k] == ms[k];
    }
  }

  lemma DrainingPart(ms: seq<Moment>, ms': seq<Moment>, from: nat, from': nat)
    requires ms <= ms' && from <= from'
    ensures Draining(ms', from) ==> Draining(ms, from) && Draining(ms', from')
  {
  }

  datatype Wait = OutOfPolls | HostInactive | Retry | NoWait

  datatype CloseResult = Closed | CloseWouldBlock | CloseSpinning

  datatype Request = SetTimeout(value: int) | GetConnected | OtherRequest
  datatype IoctlResult = Done | Connected(yes: bool) | NotTty

  function Min(a: int, b: int): int { if a <= b then a else b }

  /** The device: two FIFOs shared with the host, and the enable bits. */
  class Hardware {
    const eager: bool             // raises RI and WI as soon as it may
    var re: bool
    var we: bool
    var ac: bool
    var rxFifo: seq<Byte>
    var space: nat                // room left in the transmit FIFO
    ghost var output: seq<Byte>   // every byte the transmit FIFO accepted
    ghost var arrived: seq<Byte>  // every byte the host sent

    constructor (eager: bool)
      ensures this.eager == eager
      ensures !re && !we && rxFifo == [] && output == [] && arrived == []
    {
      this.eager := eager;
      re, we, ac, rxFifo, space, output, arrived := false, false, false, [], 64, [], [];
    }

    /** Whatever the host does between two accesses: send bytes, drain bytes, be active. */
    method Host()
      modifies this`rxFifo, this`arrived, this`space, this`ac
      ensures old(rxFifo) <= rxFifo && arrived == old(arrived) + rxFifo[|old(rxFifo)|..]
      ensures space >= old(space) && (old(ac) ==> ac)
    {
      var more: seq<Byte> := *;
      var drained :| drained >= 0;
      var active: bool := *;
      rxFifo, arrived, space, ac := rxFifo + more, arrived + more, space + drained, ac || active;
    }

    /** RI needs RE and a waiting byte, WI needs WE and room; within that the thresholds
        at which the device raises them are its own affair, unless it is eager. */
    method ReadControl() returns (c: Control)
      ensures c.ri ==> re && rxFifo != []
      ensures c.wi ==> we && space > 0
      ensures c.ac == ac && c.wspace == space
      ensures eager ==> (c.ri <==> re && rxFifo != []) && (c.wi <==> we && space > 0)
    {
      var readReady: bool := *;
      var writeReady: bool := *;
      c := Control(re && rxFifo != [] && (eager || readReady), we && space > 0 && (eager || writeReady), ac, space);
    }

    method WriteControl(newRe: bool, newWe: bool, clearAc: bool)
      modifies this`re, this`we, this`ac
      ensures re == newRe && we == newWe && ac == (old(ac) && !clearAc)
    {
      re, we, ac := newRe, newWe, ac && !clearAc;
    }

    method ReadData() returns (d: DataWord)
      modifies this`rxFifo
      ensures if old(rxFifo) == [] then d == DataWord(0, false, 0) && rxFifo == []
              else d == DataWord(old(rxFifo)[0], true, |rxFifo|) && rxFifo == old(rxFifo)[1..]
    {
      if rxFifo == [] {
        d := DataWord(0, false, 0);
      } else {
        d := DataWord(rxFifo[0], true, |rxFifo| - 1);
        rxFifo := rxFifo[1..];
      }
    }

    /** A byte written to a full FIFO is dropped. */
    method WriteData(b: Byte)
      modifies this`space, this`output
      ensures if old(space) > 0 then output == old(output) + [b] && space == old(space) - 1
              else output == old(output) && space == 0
    {
      if space > 0 {
        output, space := output + [b], space - 1;
      }
    }
  }

  class Driver {
    const hw: Hardware
    const rxBuf: array<Byte>
    const txBuf: array<Byte>
    var timeout: nat
    var hostInactive: nat
    var irqRe: bool   // the two enable bits of irq_enable
    var irqWe: bool
    var rxIn: nat
    var rxOut: nat
    var txIn: nat
    var txOut: nat
    ghost var log: seq<Event>
    ghost var moments: seq<Moment>     // one for each burst of interrupts

    ghost predicate Indices()
      reads this
    {
      && rxBuf.Length == BUF_LEN && txBuf.Length == BUF_LEN && rxBuf != txBuf
      && rxIn < BUF_LEN && rxOut < BUF_LEN && txIn < BUF_LEN && txOut < BUF_LEN
    }

    /** The queues of the run so far. */
    ghost function Rx(): seq<Byte>
      requires Legal(log)
      reads this`log
    {
      After(log).rx
    }

    ghost function Tx(): seq<Byte>
      requires Legal(log)
      reads this`log
    {
      After(log).tx
    }

    /** The driver's state is what its log of events leads to: the rings hold the two queues,
        the shadow word mirrors the device, and the device has seen exactly the bytes the log
        says. */
    ghost predicate Valid()
      reads this, hw, rxBuf, txBuf
    {
      && Indices()
      && Legal(log)
      && Contents(rxBuf[..], rxOut, rxIn) == Rx()
      && Contents(txBuf[..], txOut, txIn) == Tx()
      && After(log).readEnabled == irqRe == hw.re
      && After(log).writeEnabled == irqWe == hw.we
      && After(log).hostInactive == hostInactive
      && hw.output == Sent(log)
      && hw.arrived == Taken(log) + hw.rxFifo
      && timeout >= 2
    }

    /** No thread is between a publish and the enable update that follows it. */
    ghost predicate Quiet()
      requires Legal(log)
      reads this
    {
      !After(log).kickPending && !After(log).reopenPending
    }

    /** What a thread can rely on across interrupts: its own indices and announcements stay,
        the receive ring only grows at its end and the transmit ring only shrinks. */
    twostate predicate Interrupted()
      requires old(Valid()) && Valid()
      reads this, hw, rxBuf, txBuf
    {
      && txIn == old(txIn) && rxOut == old(rxOut) && timeout == old(timeout)
      && old(moments) <= moments
      && old(Rx()) <= Rx()
      && |Tx()| <= |old(Tx())|
      && Accepted(log) == Accepted(old(log)) && Delivered(log) == Delivered(old(log))
      && After(log).kickPending == After(old(log)).kickPending
      && After(log).reopenPending == After(old(log)).reopenPending
    }

    /** What Valid means for the bytes and the interrupt enables, whenever interrupts are on:
        both directions conserve every byte in order, and no wake-up is lost. */
    lemma Guarantees()
      requires Valid()
      ensures hw.output + Contents(txBuf[..], txOut, txIn) == Accepted(log)
      ensures Delivered(log) + Contents(rxBuf[..], rxOut, rxIn) + hw.rxFifo == hw.arrived
      ensures txOut != txIn && !After(log).kickPending ==> hw.we && irqWe
      ensures !hw.re && !After(log).reopenPending ==> Count(rxOut, rxIn) == CAPACITY
      ensures hostInactive == Min(SilentTimeouts(log), INT_MAX - 2)
    {
      hide Count, Live, Legal, After, Accepted, Sent, Taken, Delivered, Contents, SilentTimeouts;
      TransmitConserved(log);
      ReceiveConserved(log);
      NoLostWakeup(log);
      IndexTests(txOut, txIn);
      HostInactivity(log);
    }

    /** altera_avalon_jtag_uart_init; a failed alarm registration disables the timeout. */
    constructor Init(device: Hardware, alarmStarted: bool)
      requires device.output == [] && device.rxFifo == device.arrived
      modifies device
      ensures Valid() && Quiet() && hw == device && fresh(rxBuf) && fresh(txBuf)
      ensures log == [] && moments == [] && timeout == if alarmStarted then DEFAULT_TIMEOUT else INT_MAX
    {
      hw := device;
      rxBuf, txBuf := new Byte[BUF_LEN](_ => 0), new Byte[BUF_LEN](_ => 0);
      rxIn, rxOut, txIn, txOut := 0, 0, 0, 0;
      irqRe, irqWe := true, false;
      hostInactive := 0;
      timeout := if alarmStarted then DEFAULT_TIMEOUT else INT_MAX;
      log, moments := [], [];
      new;
      hw.WriteControl(irqRe, irqWe, false);
    }

    // ----- interrupt level -----

    /** Read the data register and, if it held a byte, store it; the ring must have room. */
    method TakeByte() returns (data: DataWord)
      requires Valid() && |Rx()| < CAPACITY
      modifies this`rxIn, this`log, hw`rxFifo, rxBuf
      ensures Valid() && Interrupted() && Tx() == old(Tx())
      ensures data.rvalid == (old(hw.rxFifo) != [])
      ensures if data.rvalid then Rx() == old(Rx()) + [data.byte] else Rx() == old(Rx()) && data.ravail == 0
    {
      hide Count, Live, Legal, After, Accepted, Sent, Taken, Delivered, Contents;
      data := hw.ReadData();
      if data.rvalid {
        IndexTests(rxOut, rxIn);
        Extend(log, Take(data.byte));
        DeadStore(rxBuf[..], rxOut, rxIn, rxIn, data.byte);
        PublishAppends(rxBuf[..][rxIn := data.byte], rxOut, rxIn, 1);
        rxBuf[rxIn] := data.byte;
        rxIn := Advance(rxIn, 1);
        log := log + [Take(data.byte)];
      }
    }

    /** The receive half of the ISR: empty the FIFO into the ring as far as there is room. */
    method Receive() returns (ravail: nat)
      requires Valid() && hw.re && hw.rxFifo != []
      modifies this`rxIn, this`log, hw`rxFifo, hw`arrived, hw`space, hw`ac, rxBuf
      ensures Valid() && Interrupted()
      ensures Tx() == old(Tx()) && hw.space >= old(hw.space)
      ensures ravail != 0 ==> |Rx()| == CAPACITY
      ensures |Rx()| == |old(Rx())| ==> ravail != 0
    {
      hide Contents, Count, Live, Legal, After, Accepted, Sent, Taken, Delivered;
      ravail := 1;
      while true
        invariant Valid() && Interrupted()
        invariant Tx() == old(Tx()) && hw.space >= old(hw.space)
        invariant |Rx()| == |old(Rx())| ==> ravail != 0 && hw.rxFifo != []
        decreases CAPACITY - |Rx()|
      {
        IndexTests(rxOut, rxIn);
        var next := Advance(rxIn, 1);
        if next == rxOut {
          break;
        }
        hw.Host();
        var data := TakeByte();
        ravail := data.ravail;
        if !data.rvalid {
          break;
        }
      }
    }

    /** Move the oldest queued byte to a device with room for it. */
    method SendByte()
      requires Valid() && hw.space > 0 && Tx() != []
      modifies this`txOut, this`log, hw`space, hw`output
      ensures Valid() && Interrupted()
      ensures hw.space == old(hw.space) - 1 && Rx() == old(Rx()) && |Tx()| == |old(Tx())| - 1
    {
      hide Contents, Count, Live, Legal, After, Accepted, Sent, Taken, Delivered;
      ConsumeDrops(txBuf[..], txOut, txIn, 1);
      Extend(log, Send(txBuf[txOut]));
      log := log + [Send(txBuf[txOut])];
      hw.WriteData(txBuf[txOut]);
      txOut := Advance(txOut, 1);
    }

    /** The transmit half of the ISR: move at most `space` bytes to the device. */
    method Transmit(wspace: nat) returns (space: nat)
      requires Valid() && hw.space >= wspace > 0
      modifies this`txOut, this`log, hw`rxFifo, hw`arrived, hw`space, hw`ac, hw`output
      ensures Valid() && Interrupted()
      ensures Rx() == old(Rx())
      ensures space > 0 ==> Tx() == []
      ensures if old(Tx()) == [] then space > 0 else |Tx()| < |old(Tx())|
    {
      hide Contents, Count, Live, Legal, After, Accepted, Sent, Taken, Delivered;
      space := wspace;
      while space > 0 && txOut != txIn
        invariant Valid() && Interrupted()
        invariant Rx() == old(Rx()) && hw.space >= space
        invariant space < wspace ==> |Tx()| < |old(Tx())|
      {
        IndexTests(txOut, txIn);
        hw.Host();
        SendByte();
        space := space - 1;
      }
      IndexTests(txOut, txIn);
    }

    method StopReceiving()
      requires Valid() && |Rx()| == CAPACITY
      modifies this`irqRe, this`log, hw`re, hw`we, hw`ac
      ensures Valid() && Interrupted()
      ensures !irqRe && Tx() == old(Tx()) && Rx() == old(Rx())
    {
      hide Contents, Count, Live, Legal, After, Accepted, Sent, Taken, Delivered;
      Extend(log, DisableRead);
      log := log + [DisableRead];
      irqRe := false;
      hw.WriteControl(irqRe, irqWe, false);
    }

    method StopTransmitting()
      requires Valid() && Tx() == []
      modifies this`irqWe, this`log, hw`re, hw`we, hw`ac
      ensures Valid() && Interrupted()
      ensures !irqWe && Tx() == old(Tx()) && Rx() == old(Rx())
    {
      hide Contents, Count, Live, Legal, After, Accepted, Sent, Taken, Delivered;
      Extend(log, DisableWrite);
      log := log + [DisableWrite];
      irqWe := false;
      hw.WriteControl(irqRe, irqWe, false);
    }

    /** What the ISR can still do: ring cells to fill, bytes to send, enables to clear. */
    ghost function IsrWork(): nat
      requires Legal(log) && |Rx()| <= CAPACITY
      reads this
    {
      CAPACITY - |Rx()| + |Tx()| + (if irqRe then 1 else 0) + (if irqWe then 1 else 0)
    }

    /** The ISR's answer to RI: if data is left over, the ring is full and RE goes off. */
    method ServeReceive()
      requires Valid() && hw.re && hw.rxFifo != []
      modifies this`rxIn, this`irqRe, this`log, hw`rxFifo, hw`arrived, hw`space, hw`ac, hw`re, hw`we, rxBuf
      ensures Valid() && Interrupted() && IsrWork() < old(IsrWork())
      ensures Tx() == old(Tx()) && hw.space >= old(hw.space) && hw.we == old(hw.we)
    {
      hide Contents, Count, Live, Legal, After, Accepted, Sent, Taken, Delivered;
      var ravail := Receive();
      if ravail != 0 {
        StopReceiving();
      }
    }

    /** The ISR's answer to WI: if room is left over, the ring is empty and WE goes off. */
    method ServeTransmit(wspace: nat)
      requires Valid() && hw.we && hw.space >= wspace > 0
      modifies this`txOut, this`irqWe, this`log, hw
      ensures Valid() && Interrupted() && IsrWork() < old(IsrWork())
    {
      hide Contents, Count, Live, Legal, After, Accepted, Sent, Taken, Delivered;
      var space := Transmit(wspace);
      if space > 0 {
        StopTransmitting();
      }
    }

    /** altera_avalon_jtag_uart_irq. It ends whatever the host does meanwhile, and leaves no
        byte waiting in an eager device whose receive side is on, and no room in one whose
        transmit side is. Since no wake-up is lost, bytes then wait only for a full receive
        ring, and queued output only for room in the device. */
    method Irq()
      requires Valid()
      modifies this`rxIn, this`txOut, this`irqRe, this`irqWe, this`log, hw, rxBuf
      ensures Valid() && Interrupted()
      ensures hw.eager ==> (hw.rxFifo == [] || !hw.re) && (hw.space == 0 || !hw.we)
      ensures hw.eager && Quiet() ==> (hw.rxFifo == [] || |Rx()| == CAPACITY) && (hw.space == 0 || Tx() == [])
    {
      hide Contents, Count, Live, Legal, After, Accepted, Sent, Taken, Delivered;
      while true
        invariant Valid() && Interrupted()
        decreases IsrWork()
      {
        hw.Host();
        var control := hw.ReadControl();
        if !control.ri && !control.wi {
          NoLostWakeup(log);
          break;
        }
        if control.ri {
          ServeReceive();
        }
        if control.wi {
          ServeTransmit(control.wspace);
        }
      }
    }

    /** altera_avalon_jtag_uart_timeout, run once a second by the alarm service. */
    method TimeoutCallback()
      requires Valid()
      modifies this`hostInactive, this`log, hw`ac, hw`re, hw`we
      ensures Valid() && Interrupted()
      ensures log == old(log) + [Timeout(old(hw.ac))] && !hw.ac
    {
      hide Contents, Count, Live, Legal, After, Accepted, Sent, Taken, Delivered;
      var control := hw.ReadControl();
      Extend(log, Timeout(control.ac));
      log := log + [Timeout(control.ac)];
      if control.ac {
        hw.WriteControl(irqRe, irqWe, true);
        hostInactive := 0;
      } else if hostInactive < INT_MAX - 2 {
        hostInactive := hostInactive + 1;
      }
    }

    /** Any finite burst of host activity, UART interrupts and timer callbacks. */
    method Interrupts()
      requires Valid()
      modifies this`rxIn, this`txOut, this`irqRe, this`irqWe, this`hostInactive, this`log, this`moments, hw, rxBuf
      ensures Valid() && Interrupted()
      ensures moments == old(moments) + [Moment(After(log), |Sent(log)|)]
    {
      hide Contents, Count, Live, Legal, After, Accepted, Sent, Taken, Delivered;
      var burst :| burst >= 0;
      while burst > 0
        invariant Valid() && Interrupted() && moments == old(moments)
      {
        hw.Host();
        if * {
          Irq();
        } else {
          TimeoutCallback();
        }
        burst := burst - 1;
      }
      moments := moments + [Moment(After(log), |Sent(log)|)];
    }

    // ----- thread level -----

    /** memcpy into the free chunk at tx_in, a byte at a time, with interrupts on;
        `seenOut` is the consumer index the chunk was computed from. */
    method CopyIn(data: seq<Byte>, n: nat, ghost seenOut: nat)
      requires Valid() && n <= |data|
      requires seenOut < BUF_LEN && Count(txOut, txIn) <= Count(seenOut, txIn)
      requires n <= WriteChunk(txIn, seenOut)
      modifies this`rxIn, this`txOut, this`irqRe, this`irqWe, this`hostInactive,
        this`log, this`moments, hw, rxBuf, txBuf
      ensures Valid() && Interrupted()
      ensures txIn + n <= BUF_LEN && n <= CAPACITY - |Tx()|
      ensures txBuf[txIn..txIn + n] == data[..n]
    {
      hide Count, Live, Legal, After, Accepted, Sent, Taken, Delivered, Contents, WriteChunk;
      WriteChunkExact(txIn, seenOut);
      Interrupts();
      var k := 0;
      while k < n
        invariant k <= n && Valid() && Interrupted()
        invariant Count(txOut, txIn) <= Count(seenOut, txIn)
        invariant txBuf[txIn..txIn + k] == data[..k]
      {
        StaleSnapshotSafe(seenOut, txOut, txIn, txIn + k);
        DeadStore(txBuf[..], txOut, txIn, txIn + k, data[k]);
        txBuf[txIn + k] := data[k];
        k := k + 1;
        Interrupts();
      }
    }

    /** `sp->tx_in = ...`: hand the copied bytes to the ISR. */
    method PublishTx(ghost bytes: seq<Byte>, n: nat)
      requires Valid() && n == |bytes| && txIn + n <= BUF_LEN && n <= CAPACITY - |Tx()|
      requires txBuf[txIn..txIn + n] == bytes
      modifies this`txIn, this`log
      ensures Valid()
      ensures Tx() == old(Tx()) + bytes
      ensures Accepted(log) == Accepted(old(log)) + bytes && Delivered(log) == Delivered(old(log))
      ensures After(log).kickPending && After(log).reopenPending == After(old(log)).reopenPending
    {
      hide Count, Live, Legal, After, Accepted, Sent, Taken, Delivered, Contents;
      Extend(log, Accept(bytes));
      PublishAppends(txBuf[..], txOut, txIn, n);
      txIn := Advance(txIn, n);
      log := log + [Accept(bytes)];
    }

    /** Set WE with interrupts disabled. */
    method KickTransmitter()
      requires Valid()
      modifies this`irqWe, this`log, hw`re, hw`we, hw`ac
      ensures Valid() && irqWe && Rx() == old(Rx()) && Tx() == old(Tx())
      ensures Accepted(log) == Accepted(old(log)) && Delivered(log) == Delivered(old(log))
      ensures !After(log).kickPending && After(log).reopenPending == After(old(log)).reopenPending
    {
      hide Count, Live, Legal, After, Accepted, Sent, Taken, Delivered, Contents;
      Extend(log, EnableWrite);
      log := log + [EnableWrite];
      irqWe := true;
      hw.WriteControl(irqRe, irqWe, false);
    }

    /** At the last moment the ring was full, and `out` was the consumer's index. */
    ghost predicate JustFull(out: nat)
      requires Legal(log)
      reads this
    {
      out == txOut && |Tx()| == CAPACITY && moments != [] && moments[|moments| - 1] == Moment(After(log), |Sent(log)|)
    }

    /** One turn of the copy loop: snapshot the indices, copy a chunk of the data, publish. */
    method FillChunk(data: seq<Byte>) returns (n: nat, out: nat)
      requires Valid() && data != []
      modifies this`rxIn, this`txIn, this`txOut, this`irqRe, this`irqWe, this`hostInactive,
        this`log, this`moments, hw, rxBuf, txBuf
      ensures Valid() && n <= |data|
      ensures old(moments) <= moments && |moments| > |old(moments)|
      ensures old(Rx()) <= Rx() && |Tx()| <= |old(Tx())| + n
      ensures Accepted(log) == Accepted(old(log)) + data[..n]
      ensures Delivered(log) == Delivered(old(log))
      ensures After(log).reopenPending == After(old(log)).reopenPending
      ensures n == 0 ==> |old(Tx())| == CAPACITY && JustFull(out)
    {
      hide Count, Live, Legal, After, Accepted, Sent, Taken, Delivered, Contents, WriteChunk;
      Interrupts();
      out := txOut;
      WriteChunkExact(txIn, out);
      n := WriteChunk(txIn, out);
      if n > |data| {
        n := |data|;
      }
      if n > 0 {
        CopyIn(data, n, out);
        PublishTx(data[..n], n);
      } else {
        assert data[..0] == [];
        TransmitConserved(old(log));
      }
    }

    lemma JoinSlices(data: seq<Byte>, a: nat, b: nat, n: nat)
      requires a <= b && b + n <= |data|
      ensures data[a..b] + data[b..][..n] == data[a..b + n]
    {
    }

    /** The copy loop of the write routine: fill the ring with data[from..] as far as it goes. */
    method FillRing(data: seq<Byte>, from: nat, lastOut: nat) returns (pos: nat, out: nat)
      requires Valid() && from <= |data|
      modifies this`rxIn, this`txIn, this`txOut, this`irqRe, this`irqWe, this`hostInactive,
        this`log, this`moments, hw, rxBuf, txBuf
      ensures Valid() && from <= pos <= |data|
      ensures old(moments) <= moments && (pos < |data| ==> JustFull(out) && |moments| > |old(moments)|)
      ensures old(Rx()) <= Rx() && |Tx()| <= |old(Tx())| + (pos - from)
      ensures Accepted(log) == Accepted(old(log)) + data[from..pos]
      ensures Delivered(log) == Delivered(old(log))
      ensures After(log).reopenPending == After(old(log)).reopenPending
      ensures pos - from >= Min(|data| - from, CAPACITY - |old(Tx())|)
    {
      hide Count, Live, Legal, After, Accepted, Sent, Taken, Delivered, Contents;
      pos, out := from, lastOut;
      assert data[from..from] == [];
      while pos < |data|
        invariant Valid() && from <= pos <= |data|
        invariant old(moments) <= moments
        invariant old(Rx()) <= Rx() && |Tx()| <= |old(Tx())| + (pos - from)
        invariant Accepted(log) == Accepted(old(log)) + data[from..pos]
        invariant Delivered(log) == Delivered(old(log))
        invariant After(log).reopenPending == After(old(log)).reopenPending
        decreases |data| - pos
      {
        var n;
        n, out := FillChunk(data[pos..]);
        if n == 0 {
          break;
        }
        JoinSlices(data, from, pos, n);
        pos := pos + n;
      }
    }

    /** A burst of interrupts after a moment of a full ring: if it sends a byte, there is room. */
    method LetDrain(out: nat)
      requires Valid() && JustFull(out)
      modifies this`rxIn, this`txOut, this`irqRe, this`irqWe, this`hostInactive, this`log, this`moments, hw, rxBuf
      ensures Valid() && Interrupted() && |moments| == |old(moments)| + 1
      ensures out < BUF_LEN && Count(out, txIn) == CAPACITY && Count(txOut, txIn) == |Tx()|
      ensures Draining(moments, |old(moments)| - 1) ==> |Tx()| < CAPACITY
    {
      hide Live, Legal, After, Accepted, Sent, Taken, Delivered, Contents;
      TransmitConserved(log);
      Interrupts();
      TransmitConserved(log);
      ghost var k := |moments| - 1;
      assert moments[k - 1] == old(moments)[k - 1];
      assert Draining(moments, k - 1) ==> moments[k - 1].sent < moments[k].sent || moments[k].link.tx == [];
    }

    /** Fill the ring, then set WE to make the ISR transmit. */
    method WriteRound(data: seq<Byte>, from: nat, lastOut: nat) returns (pos: nat, out: nat)
      requires Valid() && from <= |data|
      modifies this`rxIn, this`txIn, this`txOut, this`irqRe, this`irqWe, this`hostInactive,
        this`log, this`moments, hw, rxBuf, txBuf
      ensures Valid() && from <= pos <= |data|
      ensures old(moments) <= moments && old(Rx()) <= Rx()
      ensures Accepted(log) == Accepted(old(log)) + data[from..pos]
      ensures Delivered(log) == Delivered(old(log))
      ensures !After(log).kickPending && After(log).reopenPending == After(old(log)).reopenPending
      ensures pos - from >= Min(|data| - from, CAPACITY - |old(Tx())|)
      ensures pos < |data| ==> out < BUF_LEN && Count(out, txIn) == CAPACITY
      ensures pos < |data| && Draining(moments, |old(moments)|) ==> |Tx()| < CAPACITY
    {
      hide Count, Live, Legal, After, Accepted, Sent, Taken, Delivered, Contents, WriteChunk, Draining;
      pos, out := FillRing(data, from, lastOut);
      ghost var full := |moments|;
      if pos < |data| {
        LetDrain(out);
      } else {
        Interrupts();
      }
      ghost var seen := moments;
      KickTransmitter();
      Interrupts();
      if pos < |data| {
        DrainingPart(seen, moments, |old(moments)|, |old(moments)|);
        DrainingPart(seen, seen, |old(moments)|, full - 1);
      }
    }

    /** Poll until the ISR has moved tx_out on or the host has timed out, then look at the host.
        A wait goes on only as long as its polls find nothing. */
    method AwaitRoom(out: nat, patience: nat) returns (wait: Wait, polls: nat)
      requires Valid() && out < BUF_LEN && Count(txOut, txIn) <= Count(out, txIn)
      modifies this`rxIn, this`txOut, this`irqRe, this`irqWe, this`hostInactive, this`log, this`moments, hw, rxBuf
      ensures Valid() && Interrupted() && wait != NoWait
      ensures if wait == OutOfPolls then polls == 0 else polls < patience
      ensures var failed := patience - polls - if wait == OutOfPolls then 0 else 1;
              AllFruitless(Room(Count(out, txIn)), moments, |old(moments)|, failed, timeout)
      ensures wait == OutOfPolls ==> |moments| == |old(moments)| + 2 * patience
      ensures wait != OutOfPolls ==>
                |Tx()| < Count(out, txIn) || TimedOutSince(moments, |old(moments)|, timeout)
      ensures wait == HostInactive ==> hostInactive > 0
      ensures wait == Retry ==> HeardSince(moments, |old(moments)|)
      ensures patience > 0 && old(Count(txOut, txIn)) < Count(out, txIn) ==> wait != OutOfPolls && polls == patience - 1
    {
      hide Count, Live, Legal, After, Accepted, Sent, Taken, Delivered, Contents;
      polls := patience;
      var woken := false;
      while !woken
        invariant Valid() && Interrupted() && polls <= patience
        invariant woken ==> polls < patience
        invariant !woken ==> |moments| == |old(moments)| + 2 * (patience - polls)
        invariant AllFruitless(Room(Count(out, txIn)), moments, |old(moments)|,
                               patience - polls - if woken then 1 else 0, timeout)
        invariant woken ==> |Tx()| < Count(out, txIn) || TimedOutSince(moments, |old(moments)|, timeout)
        invariant old(Count(txOut, txIn)) < Count(out, txIn) ==> polls == patience - if woken then 1 else 0
        decreases polls, !woken
      {
        if polls == 0 {
          return OutOfPolls, 0;
        }
        ghost var seen := moments;
        woken := PollRoom(out);
        AnotherPoll(Room(Count(out, txIn)), seen, moments, |old(moments)|, patience - polls, timeout);
        polls := polls - 1;
      }
      ghost var seen := moments;
      Interrupts();
      StillFruitless(Room(Count(out, txIn)), seen, moments, |old(moments)|, patience - polls - 1, timeout);
      assert moments[|moments| - 1].link.hostInactive == hostInactive;
      wait := if hostInactive > 0 then HostInactive else Retry;
    }

    /** One poll: has tx_out moved, and if not, has the host timed out? */
    method PollRoom(out: nat) returns (woken: bool)
      requires Valid() && out < BUF_LEN && Count(txOut, txIn) <= Count(out, txIn)
      modifies this`rxIn, this`txOut, this`irqRe, this`irqWe, this`hostInactive, this`log, this`moments, hw, rxBuf
      ensures Valid() && Interrupted()
      ensures woken ==> |Tx()| < Count(out, txIn) || TimedOutSince(moments, |old(moments)|, timeout)
      ensures !woken ==> |moments| == |old(moments)| + 2
      ensures !woken ==> Fruitless(Room(Count(out, txIn)), moments, |old(moments)|, 0, timeout)
      ensures old(Count(txOut, txIn)) < Count(out, txIn) ==> woken
    {
      hide Count, Live, Legal, After, Accepted, Sent, Taken, Delivered, Contents;
      Interrupts();
      CountDiffers(out, txOut, txIn);
      woken := out != txOut;
      if !woken {
        Interrupts();
        woken := hostInactive >= timeout;
        assert moments[|moments| - 1].link.hostInactive == hostInactive;
      }
    }

    /** altera_avalon_jtag_uart_write. A blocking call may poll for ever; `patience` bounds the
        polls, and WriteSpinning is a call still polling when they run out. Its last poll found
        nothing, unless its last wait ended with the host active; and a call whose bytes keep
        being sent does not spin. */
    method Write(data: seq<Byte>, nonblock: bool, patience: nat) returns (r: WriteResult)
      requires Valid() && !After(log).kickPending
      modifies this`rxIn, this`txIn, this`txOut, this`irqRe, this`irqWe, this`hostInactive,
        this`log, this`moments, hw, rxBuf, txBuf
      ensures Valid()
      ensures r.Consumed() <= |data|
      ensures Accepted(log) == Accepted(old(log)) + data[..r.Consumed()]
      ensures Delivered(log) == Delivered(old(log)) && old(Rx()) <= Rx()
      ensures !After(log).kickPending && After(log).reopenPending == After(old(log)).reopenPending
      ensures r.Consumed() >= Min(|data|, CAPACITY - |old(Tx())|)
      ensures r.Wrote? ==> r.n > 0
      ensures r.WriteWouldBlock? ==> nonblock
      ensures r.WriteIoError? ==> !nonblock && (data == [] || hostInactive > 0)
      ensures r.WriteSpinning? ==> !nonblock && r.sofar < |data|
      ensures r.Wrote? && !nonblock && r.n < |data| ==> hostInactive > 0
      ensures r.WriteSpinning? && patience > 0 ==>
                || (|moments| >= 2 && Fruitless(Room(CAPACITY), moments, |moments| - 2, 0, timeout))
                || HeardSince(moments, |old(moments)|)
      ensures Draining(moments, |old(moments)|) && patience >= |data| ==> !r.WriteSpinning?
    {
      hide Count, Live, Legal, After, Accepted, Sent, Taken, Delivered, Contents, WriteChunk, Draining,
        HeardSince, Fruitless;
      var pos: nat, out: nat, polls: nat := 0, 0, patience;
      assert data[..0] == [];
      while true
        invariant Valid() && pos <= |data| && polls <= patience
        invariant old(moments) <= moments && old(Rx()) <= Rx()
        invariant Accepted(log) == Accepted(old(log)) + data[..pos]
        invariant Delivered(log) == Delivered(old(log))
        invariant After(log).reopenPending == After(old(log)).reopenPending
        invariant (pos == 0 && Tx() == old(Tx())) || pos >= Min(|data|, CAPACITY - |old(Tx())|)
        invariant polls < patience ==> HeardSince(moments, |old(moments)|)
        invariant Draining(moments, |old(moments)|) ==>
                    patience - polls <= pos || (patience - polls <= pos + 1 && |Tx()| < CAPACITY)
        decreases polls
      {
        ghost var start, before := pos, moments;
        var wait;
        pos, out, wait, polls := WriteTurn(data, pos, out, nonblock, polls);
        assert data[..start] + data[start..pos] == data[..pos];
        DrainingPart(before, moments, |old(moments)|, |before|);
        HeardStays(before, moments, |old(moments)|, |before|);
        if wait == OutOfPolls {
          return WriteSpinning(pos);
        }
        if wait != Retry {
          break;
        }
      }
      if pos > 0 {
        r := Wrote(pos);
      } else if nonblock {
        r := WriteWouldBlock;
      } else {
        r := WriteIoError;
      }
    }

    /** The wait of the write routine, which has just seen the ring full. */
    method WaitForRoom(out: nat, patience: nat) returns (wait: Wait, polls: nat)
      requires Valid() && out < BUF_LEN && Count(out, txIn) == CAPACITY
      modifies this`rxIn, this`txOut, this`irqRe, this`irqWe, this`hostInactive, this`log, this`moments, hw, rxBuf
      ensures Valid() && Interrupted() && wait != NoWait && polls <= patience
      ensures wait != OutOfPolls ==> polls < patience
      ensures wait == OutOfPolls && patience > 0 ==>
                |moments| >= 2 && Fruitless(Room(CAPACITY), moments, |moments| - 2, 0, timeout)
      ensures wait == HostInactive ==> hostInactive > 0
      ensures wait == Retry ==> HeardSince(moments, |old(moments)|)
      ensures patience > 0 && |old(Tx())| < CAPACITY ==> wait != OutOfPolls && polls == patience - 1
    {
      hide Live, Legal, After, Accepted, Sent, Taken, Delivered, Contents, Fruitless, AllFruitless, HeardSince;
      FullCount(out);
      wait, polls := AwaitRoom(out, patience);
      if wait == OutOfPolls {
        LastPoll(Room(CAPACITY), moments, |old(moments)|, 2 * patience, timeout);
      }
    }

    /** One turn of the outer loop: fill the ring and, if bytes are left and the call may block,
        wait for room. */
    method WriteTurn(data: seq<Byte>, from: nat, lastOut: nat, nonblock: bool, patience: nat)
      returns (pos: nat, out: nat, wait: Wait, polls: nat)
      requires Valid() && from <= |data|
      modifies this`rxIn, this`txIn, this`txOut, this`irqRe, this`irqWe, this`hostInactive,
        this`log, this`moments, hw, rxBuf, txBuf
      ensures Valid() && from <= pos <= |data|
      ensures old(moments) <= moments && old(Rx()) <= Rx()
      ensures Accepted(log) == Accepted(old(log)) + data[from..pos]
      ensures Delivered(log) == Delivered(old(log))
      ensures !After(log).kickPending && After(log).reopenPending == After(old(log)).reopenPending
      ensures pos - from >= Min(|data| - from, CAPACITY - |old(Tx())|)
      ensures wait == NoWait <==> pos == |data| || nonblock
      ensures if wait == Retry || wait == HostInactive then polls < patience else polls <= patience
      ensures wait == OutOfPolls && patience > 0 ==>
                |moments| >= 2 && Fruitless(Room(CAPACITY), moments, |moments| - 2, 0, timeout)
      ensures wait == HostInactive ==> hostInactive > 0
      ensures wait == Retry ==> HeardSince(moments, |old(moments)|)
      ensures wait != NoWait && patience > 0 && Draining(moments, |old(moments)|) ==>
                wait != OutOfPolls && polls == patience - 1 && |Tx()| < CAPACITY
    {
      hide Count, Live, Legal, After, Accepted, Sent, Taken, Delivered, Contents, Draining, HeardSince, Fruitless;
      wait, polls := NoWait, patience;
      pos, out := WriteRound(data, from, lastOut);
      if pos < |data| && !nonblock {
        ghost var seen := moments;
        wait, polls := WaitForRoom(out, polls);
        DrainingPart(seen, moments, |old(moments)|, |old(moments)|);
        HeardStays(seen, moments, |old(moments)|, |seen|);
      }
    }

    lemma FullCount(out: nat)
      requires Valid() && out < BUF_LEN && Count(out, txIn) == CAPACITY
      ensures Count(txOut, txIn) <= Count(out, txIn) && Count(txOut, txIn) == |Tx()|
    {
    }

    /** memcpy out of the stored chunk at rx_out, a byte at a time, with interrupts on;
        `seenIn` is the producer index the chunk was computed from. */
    method CopyOut(buffer: array<Byte>, at: nat, n: nat, ghost seenIn: nat)
      requires Valid() && buffer != rxBuf && buffer != txBuf && at + n <= buffer.Length
      requires seenIn < BUF_LEN && Count(rxOut, seenIn) <= |Rx()|
      requires n <= ReadChunk(seenIn, rxOut)
      modifies this`rxIn, this`txOut, this`irqRe, this`irqWe, this`hostInactive,
        this`log, this`moments, hw, rxBuf, buffer
      ensures Valid() && Interrupted()
      ensures rxOut + n <= BUF_LEN && n <= |Rx()|
      ensures buffer[at..at + n] == Rx()[..n]
      ensures buffer[..at] == old(buffer[..at]) && buffer[at + n..] == old(buffer[at + n..])
    {
      hide Live, Legal, After, Accepted, Sent, Taken, Delivered, Contents, Count, ReadChunk;
      ReadChunkExact(seenIn, rxOut);
      Interrupts();
      var k := 0;
      while k < n
        invariant k <= n && Valid() && Interrupted()
        invariant buffer[at..at + k] == Rx()[..k]
        invariant buffer[..at] == old(buffer[..at]) && buffer[at + n..] == old(buffer[at + n..])
      {
        ContentsAt(rxBuf[..], rxOut, rxIn, rxOut + k);
        buffer[at + k] := rxBuf[rxOut + k];
        k := k + 1;
        Interrupts();
      }
    }

    /** `sp->rx_out = ...`: give the copied cells back to the ISR. */
    method PublishRx(n: nat)
      requires Valid() && rxOut + n <= BUF_LEN && n <= |Rx()|
      modifies this`rxOut, this`log
      ensures Valid()
      ensures Rx() == old(Rx())[n..] && Tx() == old(Tx())
      ensures Delivered(log) == Delivered(old(log)) + old(Rx())[..n] && Accepted(log) == Accepted(old(log))
      ensures After(log).reopenPending && After(log).kickPending == After(old(log)).kickPending
    {
      hide Count, Live, Legal, After, Accepted, Sent, Taken, Delivered, Contents;
      ghost var bytes := Rx()[..n];
      Extend(log, Deliver(bytes));
      ConsumeDrops(rxBuf[..], rxOut, rxIn, n);
      rxOut := Advance(rxOut, n);
      log := log + [Deliver(bytes)];
    }

    /** Set RE with interrupts disabled. */
    method ReopenReceiver()
      requires Valid()
      modifies this`irqRe, this`log, hw`re, hw`we, hw`ac
      ensures Valid() && irqRe && Rx() == old(Rx()) && Tx() == old(Tx())
      ensures Accepted(log) == Accepted(old(log)) && Delivered(log) == Delivered(old(log))
      ensures !After(log).reopenPending && After(log).kickPending == After(old(log)).kickPending
    {
      hide Count, Live, Legal, After, Accepted, Sent, Taken, Delivered, Contents;
      Extend(log, EnableRead);
      log := log + [EnableRead];
      irqRe := true;
      hw.WriteControl(irqRe, irqWe, false);
    }

    /** One turn of the copy loop: snapshot the indices, copy a chunk to buffer[at..], publish. */
    method DrainChunk(buffer: array<Byte>, at: nat, space: nat) returns (n: nat, seenIn: nat)
      requires Valid() && buffer != rxBuf && buffer != txBuf && at < space <= buffer.Length
      modifies this`rxIn, this`rxOut, this`txOut, this`irqRe, this`irqWe, this`hostInactive,
        this`log, this`moments, hw, rxBuf, buffer
      ensures Valid() && at + n <= space && seenIn < BUF_LEN
      ensures old(moments) <= moments
      ensures |Tx()| <= |old(Tx())| && |Rx()| + n >= |old(Rx())|
      ensures Delivered(log) == Delivered(old(log)) + buffer[at..at + n]
      ensures Accepted(log) == Accepted(old(log))
      ensures buffer[..at] == old(buffer[..at]) && buffer[at + n..] == old(buffer[at + n..])
      ensures After(log).kickPending == After(old(log)).kickPending
      ensures n == 0 ==> After(log).reopenPending == After(old(log)).reopenPending
      ensures n == 0 ==> seenIn == rxOut && old(Rx()) == [] && rxOut == old(rxOut)
    {
      hide Count, Live, Legal, After, Accepted, Sent, Taken, Delivered, Contents, ReadChunk;
      Interrupts();
      seenIn := rxIn;
      ReadChunkExact(seenIn, rxOut);
      IndexTests(rxOut, seenIn);
      n := ReadChunk(seenIn, rxOut);
      if n > space - at {
        n := space - at;
      }
      if n > 0 {
        CopyOut(buffer, at, n, seenIn);
        PublishRx(n);
      } else {
        assert buffer[at..at] == [];
      }
    }

    /** The copy loop of the read routine: move what is there, at most `space` bytes. */
    method DrainRing(buffer: array<Byte>, space: nat) returns (got: nat, seenIn: nat)
      requires Valid() && buffer != rxBuf && buffer != txBuf && 0 < space <= buffer.Length
      modifies this`rxIn, this`rxOut, this`txOut, this`irqRe, this`irqWe, this`hostInactive,
        this`log, this`moments, hw, rxBuf, buffer
      ensures Valid() && got <= space && seenIn < BUF_LEN
      ensures old(moments) <= moments
      ensures |Tx()| <= |old(Tx())| && txIn == old(txIn) && timeout == old(timeout)
      ensures Delivered(log) == Delivered(old(log)) + buffer[..got]
      ensures Accepted(log) == Accepted(old(log))
      ensures buffer[got..] == old(buffer[..])[got..]
      ensures After(log).kickPending == After(old(log)).kickPending
      ensures got == 0 ==> After(log).reopenPending == After(old(log)).reopenPending && seenIn == rxOut
      ensures got >= Min(space, |old(Rx())|)
    {
      hide Count, Live, Legal, After, Accepted, Sent, Taken, Delivered, Contents;
      got := 0;
      assert buffer[..0] == [];
      while true
        invariant Valid() && got < space
        invariant old(moments) <= moments
        invariant |Tx()| <= |old(Tx())| && txIn == old(txIn) && timeout == old(timeout)
        invariant Delivered(log) == Delivered(old(log)) + buffer[..got]
        invariant Accepted(log) == Accepted(old(log))
        invariant buffer[got..] == old(buffer[..])[got..]
        invariant After(log).kickPending == After(old(log)).kickPending
        invariant got == 0 ==> After(log).reopenPending == After(old(log)).reopenPending
        invariant got + |Rx()| >= |old(Rx())|
        decreases space - got
      {
        var n;
        n, seenIn := DrainChunk(buffer, got, space);
        if n == 0 {
          break;
        }
        assert buffer[..got + n] == buffer[..got] + buffer[got..got + n];
        got := got + n;
        if got == space {
          break;
        }
      }
    }

    /** Poll until the ISR has moved rx_in on or the host has timed out. A wait goes on only as
        long as its polls find nothing. */
    method AwaitData(seenIn: nat, patience: nat) returns (woken: bool, polls: nat)
      requires Valid() && seenIn == rxOut
      modifies this`rxIn, this`txOut, this`irqRe, this`irqWe, this`hostInactive, this`log, this`moments, hw, rxBuf
      ensures Valid() && Interrupted()
      ensures if woken then polls < patience else polls == 0
      ensures AllFruitless(Data, moments, |old(moments)|, patience - polls - (if woken then 1 else 0), timeout)
      ensures !woken ==> |moments| == |old(moments)| + 2 * patience
      ensures woken ==> Rx() != [] || TimedOutSince(moments, |old(moments)|, timeout)
      ensures patience > 0 && old(Rx()) != [] ==> woken && polls == patience - 1
    {
      hide Count, Live, Legal, After, Accepted, Sent, Taken, Delivered, Contents;
      polls, woken := patience, false;
      while polls > 0 && !woken
        invariant Valid() && Interrupted() && polls <= patience
        invariant woken ==> polls < patience
        invariant !woken ==> |moments| == |old(moments)| + 2 * (patience - polls)
        invariant AllFruitless(Data, moments, |old(moments)|, patience - polls - (if woken then 1 else 0), timeout)
        invariant woken ==> Rx() != [] || TimedOutSince(moments, |old(moments)|, timeout)
        invariant old(Rx()) != [] ==> polls == patience - if woken then 1 else 0
        decreases polls
      {
        ghost var seen := moments;
        woken := PollData(seenIn);
        AnotherPoll(Data, seen, moments, |old(moments)|, patience - polls, timeout);
        polls := polls - 1;
      }
    }

    /** One poll: has rx_in moved, and if not, has the host timed out? */
    method PollData(seenIn: nat) returns (woken: bool)
      requires Valid() && seenIn == rxOut
      modifies this`rxIn, this`txOut, this`irqRe, this`irqWe, this`hostInactive, this`log, this`moments, hw, rxBuf
      ensures Valid() && Interrupted()
      ensures woken ==> Rx() != [] || TimedOutSince(moments, |old(moments)|, timeout)
      ensures !woken ==> |moments| == |old(moments)| + 2
      ensures !woken ==> Fruitless(Data, moments, |old(moments)|, 0, timeout)
      ensures old(Rx()) != [] ==> woken
    {
      hide Count, Live, Legal, After, Accepted, Sent, Taken, Delivered, Contents;
      Interrupts();
      IndexTests(rxOut, rxIn);
      woken := seenIn != rxIn;
      if !woken {
        Interrupts();
        woken := hostInactive >= timeout;
        assert moments[|moments| - 1].link.hostInactive == hostInactive;
      }
    }

    /** altera_avalon_jtag_uart_read; `patience` bounds the polls of a blocking call. A call still
        polling when they run out has found nothing in any of them. */
    method Read(buffer: array<Byte>, space: nat, nonblock: bool, patience: nat) returns (r: ReadResult)
      requires Valid() && !After(log).reopenPending
      requires buffer != rxBuf && buffer != txBuf && space <= buffer.Length
      modifies this`rxIn, this`rxOut, this`txOut, this`irqRe, this`irqWe, this`hostInactive,
        this`log, this`moments, hw, rxBuf, buffer
      ensures Valid()
      ensures r.Produced() <= space
      ensures Delivered(log) == Delivered(old(log)) + buffer[..r.Produced()]
      ensures buffer[r.Produced()..] == old(buffer[..])[r.Produced()..]
      ensures Accepted(log) == Accepted(old(log)) && |Tx()| <= |old(Tx())|
      ensures !After(log).reopenPending && After(log).kickPending == After(old(log)).kickPending
      ensures r.Produced() >= Min(space, |old(Rx())|)
      ensures r.Got? ==> r.n > 0
      ensures r.ReadWouldBlock? ==> nonblock
      ensures r.ReadIoError? ==>
                !nonblock && (space == 0 || (Rx() == [] && TimedOutSince(moments, |old(moments)|, timeout)))
      ensures r.ReadSpinning? ==> !nonblock && |moments| >= |old(moments)| + 2 * patience
      ensures r.ReadSpinning? ==> AllFruitless(Data, moments, |moments| - 2 * patience, patience, timeout)
    {
      hide Count, Live, Legal, After, Accepted, Sent, Taken, Delivered, Contents, ReadChunk;
      var got: nat, polls: nat := 0, patience;
      assert buffer[..0] == [];
      while space > 0
        invariant Valid() && got == 0 && old(moments) <= moments && timeout == old(timeout)
        invariant buffer[..] == old(buffer[..])
        invariant Delivered(log) == Delivered(old(log)) && Accepted(log) == Accepted(old(log))
        invariant |Tx()| <= |old(Tx())|
        invariant !After(log).reopenPending && After(log).kickPending == After(old(log)).kickPending
        invariant polls < patience ==> |old(Rx())| == 0 && Rx() != []
        invariant polls == patience ==> Rx() == old(Rx())
        decreases polls
      {
        var seenIn;
        got, seenIn := DrainRing(buffer, space);
        if got > 0 || nonblock {
          break;
        }
        var woken;
        woken, polls := AwaitData(seenIn, polls);
        if !woken {
          return ReadSpinning;
        }
        Interrupts();
        IndexTests(rxOut, rxIn);
        if seenIn == rxIn {
          break;
        }
      }
      if got > 0 {
        Interrupts();
        ReopenReceiver();
        Interrupts();
        r := Got(got);
      } else if nonblock {
        r := ReadWouldBlock;
      } else {
        r := ReadIoError;
      }
    }

    /** altera_avalon_jtag_uart_close: wait for the transmit ring to empty or the host to time
        out; a wait goes on only as long as it finds neither. */
    method Close(nonblock: bool, patience: nat) returns (r: CloseResult)
      requires Valid()
      modifies this`rxIn, this`txOut, this`irqRe, this`irqWe, this`hostInactive, this`log, this`moments, hw, rxBuf
      ensures Valid() && Interrupted()
      ensures r == Closed ==> Tx() == [] || hostInactive >= timeout
      ensures r == CloseWouldBlock ==>
                nonblock && old(Tx()) != [] && Fruitless(Empty, moments, |old(moments)|, 0, timeout)
      ensures r == CloseSpinning ==> !nonblock && |moments| == |old(moments)| + 2 * (patience + 1)
      ensures r == CloseSpinning ==> AllFruitless(Empty, moments, |old(moments)|, patience + 1, timeout)
    {
      hide Count, Live, Legal, After, Accepted, Sent, Taken, Delivered, Contents;
      var polls: nat := patience;
      while true
        invariant Valid() && Interrupted() && polls <= patience
        invariant |moments| == |old(moments)| + 2 * (patience - polls)
        invariant AllFruitless(Empty, moments, |old(moments)|, patience - polls, timeout)
        decreases polls
      {
        ghost var seen := moments;
        Interrupts();
        IndexTests(txOut, txIn);
        if txOut == txIn {
          return Closed;
        }
        Interrupts();
        if hostInactive >= timeout {
          return Closed;
        }
        AnotherPoll(Empty, seen, moments, |old(moments)|, patience - polls, timeout);
        assert AllFruitless(Empty, moments, |old(moments)|, patience - polls + 1, timeout);
        assert Fruitless(Empty, moments, |old(moments)|, 0, timeout);
        if nonblock {
          return CloseWouldBlock;
        }
        if polls == 0 {
          return CloseSpinning;
        }
        polls := polls - 1;
      }
    }

    /** altera_avalon_jtag_uart_ioctl. */
    method Ioctl(req: Request) returns (r: IoctlResult)
      requires Valid()
      modifies this`timeout
      ensures Valid() && log == old(log)
      ensures r == NotTty <==> req == OtherRequest || old(timeout) == INT_MAX
      ensures r == NotTty || !req.SetTimeout? ==> timeout == old(timeout)
      ensures r == Done ==> req.SetTimeout? && timeout == (if 2 <= req.value < INT_MAX then req.value else INT_MAX - 1)
      ensures r.Connected? ==> req == GetConnected
      ensures r.Connected? ==> (r.yes <==> Min(SilentTimeouts(log), INT_MAX - 2) < timeout)
      ensures old(timeout) == INT_MAX - 1 && r.Connected? ==> r.yes
    {
      hide Count, Live, Legal, After, Accepted, Sent, Taken, Delivered, Contents;
      HostInactivity(log);
      r := NotTty;
      match req
      case SetTimeout(value) =>
        if timeout != INT_MAX {
          timeout := if value >= 2 && value < INT_MAX then value else INT_MAX - 1;
          r := Done;
        }
      case GetConnected =>
        if timeout != INT_MAX {
          r := Connected(hostInactive < timeout);
        }
      case OtherRequest =>
    }
  }
}

/** The JTAG UART driver seen as two byte queues, two interrupt enables and a host timer.
    Every change the driver makes to its shared state is one event; the lemmas speak about
    every legal log of events, that is, about every run and every interleaving. */
module UartProtocol {
  import opened Ring

  const INT_MAX: nat := 0x7FFF_FFFF

  datatype Event =
    | Accept(bytes: seq<Byte>)   // write publishes tx_in
    | EnableWrite                // write sets WE
    | Send(b: Byte)              // ISR moves a byte to the data register
    | DisableWrite               // ISR clears WE
    | Take(b: Byte)              // ISR moves a byte from the data register
    | DisableRead                // ISR clears RE
    | Deliver(bytes: seq<Byte>)  // read publishes rx_out
    | EnableRead                 // read sets RE
    | Timeout(activity: bool)    // one-second timer callback

  datatype Link = Link(
    tx: seq<Byte>, rx: seq<Byte>,
    writeEnabled: bool, readEnabled: bool,
    kickPending: bool,           // accepted bytes whose WE update is still to come
    reopenPending: bool,         // delivered bytes whose RE update is still to come
    hostInactive: nat)

  /** After altera_avalon_jtag_uart_init: rings empty, RE set, host assumed present. */
  const INITIAL: Link := Link([], [], false, true, false, false, 0)

  /** The discipline the driver code has to obey; the class in module JtagUart is proved to. */
  predicate Enabled(s: Link, e: Event)
  {
    match e
    case Accept(bytes) => |s.tx| + |bytes| <= CAPACITY
    case EnableWrite => true
    case Send(b) => s.tx != [] && s.tx[0] == b
    case DisableWrite => s.tx == []
    case Take(_) => |s.rx| < CAPACITY
    case DisableRead => |s.rx| == CAPACITY
    case Deliver(bytes) => bytes <= s.rx
    case EnableRead => true
    case Timeout(_) => true
  }

  function Step(s: Link, e: Event): Link
    requires Enabled(s, e)
  {
    match e
    case Accept(bytes) => s.(tx := s.tx + bytes, kickPending := true)
    case EnableWrite => s.(writeEnabled := true, kickPending := false)
    case Send(b) => s.(tx := s.tx[1..])
    case DisableWrite => s.(writeEnabled := false)
    case Take(b) => s.(rx := s.rx + [b])
    case DisableRead => s.(readEnabled := false)
    case Deliver(bytes) => s.(rx := s.rx[|bytes|..], reopenPending := true)
    case EnableRead => s.(readEnabled := true, reopenPending := false)
    case Timeout(activity) =>
      s.(hostInactive := if activity then 0
                         else if s.hostInactive < INT_MAX - 2 then s.hostInactive + 1
                         else s.hostInactive)
  }

  predicate Legal(log: seq<Event>)
    decreases |log|, 0
  {
    log == [] || (Legal(log[..|log| - 1]) && Enabled(After(log[..|log| - 1]), log[|log| - 1]))
  }

  function After(log: seq<Event>): Link
    requires Legal(log)
    decreases |log|, 1
  {
    if log == [] then INITIAL else Step(After(log[..|log| - 1]), log[|log| - 1])
  }

  // What a run did, read off its log alone.

  function Accepted(log: seq<Event>): seq<Byte>
  {
    if log == [] then [] else
    var before, e := Accepted(log[..|log| - 1]), log[|log| - 1];
    if e.Accept? then before + e.bytes else before
  }

  function Sent(log: seq<Event>): seq<Byte>
  {
    if log == [] then [] else
    var before, e := Sent(log[..|log| - 1]), log[|log| - 1];
    if e.Send? then before + [e.b] else before
  }

  function Taken(log: seq<Event>): seq<Byte>
  {
    if log == [] then [] else
    var before, e := Taken(log[..|log| - 1]), log[|log| - 1];
    if e.Take? then before + [e.b] else before
  }

  function Delivered(log: seq<Event>): seq<Byte>
  {
    if log == [] then [] else
    var before, e := Delivered(log[..|log| - 1]), log[|log| - 1];
    if e.Deliver? then before + e.bytes else before
  }

  /** Timer callbacks since one last saw host activity (or since reset). */
  function SilentTimeouts(log: seq<Event>): nat
  {
    if log == [] then 0 else
    match log[|log| - 1]
    case Timeout(activity) => if activity then 0 else SilentTimeouts(log[..|log| - 1]) + 1
    case _ => SilentTimeouts(log[..|log| - 1])
  }

  /** How one more event extends a log. */
  lemma Extend(log: seq<Event>, e: Event)
    requires Legal(log) && Enabled(After(log), e)
    ensures Legal(log + [e]) && After(log + [e]) == Step(After(log), e)
    ensures Accepted(log + [e]) == if e.Accept? then Accepted(log) + e.bytes else Accepted(log)
    ensures Sent(log + [e]) == if e.Send? then Sent(log) + [e.b] else Sent(log)
    ensures Taken(log + [e]) == if e.Take? then Taken(log) + [e.b] else Taken(log)
    ensures Delivered(log + [e]) == if e.Deliver? then Delivered(log) + e.bytes else Delivered(log)
  {
    assert (log + [e])[..|log|] == log;
  }

  /** Transmit conservation: nothing accepted is lost, duplicated or reordered. */
  lemma {:induction false} TransmitConserved(log: seq<Event>)
    requires Legal(log)
    ensures Sent(log) + After(log).tx == Accepted(log)
    ensures |After(log).tx| <= CAPACITY
  {
    if log != [] {
      var before, e := log[..|log| - 1], log[|log| - 1];
      TransmitConserved(before);
      var s := After(before);
      match e
      case Accept(bytes) => assert Sent(before) + (s.tx + bytes) == (Sent(before) + s.tx) + bytes;
      case Send(b) => assert (Sent(before) + [b]) + s.tx[1..] == Sent(before) + s.tx;
      case _ =>
    }
  }

  /** Receive conservation: what reads returned, then the ring, is what came off the FIFO. */
  lemma {:induction false} ReceiveConserved(log: seq<Event>)
    requires Legal(log)
    ensures Delivered(log) + After(log).rx == Taken(log)
    ensures |After(log).rx| <= CAPACITY
  {
    if log != [] {
      var before, e := log[..|log| - 1], log[|log| - 1];
      ReceiveConserved(before);
      var s := After(before);
      match e
      case Take(b) => assert Delivered(before) + (s.rx + [b]) == (Delivered(before) + s.rx) + [b];
      case Deliver(bytes) =>
        assert (Delivered(before) + bytes) + s.rx[|bytes|..] == Delivered(before) + s.rx;
      case _ =>
    }
  }

  /** No lost wake-up: queued output keeps WE set and a cleared RE means a full ring,
      save between a publish and the enable update that follows it. */
  lemma {:induction false} NoLostWakeup(log: seq<Event>)
    requires Legal(log)
    ensures var s := After(log);
            && (s.tx != [] ==> s.writeEnabled || s.kickPending)
            && (!s.readEnabled ==> |s.rx| == CAPACITY || s.reopenPending)
  {
    if log != [] {
      NoLostWakeup(log[..|log| - 1]);
    }
  }

  /** Host accounting: the counter is the number of silent timer callbacks, saturating two
      below INT_MAX, so a timeout of INT_MAX - 1 or INT_MAX is never reached. */
  lemma {:induction false} HostInactivity(log: seq<Event>)
    requires Legal(log)
    ensures var silent := SilentTimeouts(log);
            After(log).hostInactive == if silent <= INT_MAX - 2 then silent else INT_MAX - 2
    ensures After(log).hostInactive < INT_MAX - 1
  {
    if log != [] {
      HostInactivity(log[..|log| - 1]);
    }
  }
}

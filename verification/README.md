# Verified model of the Frogger board support package and raster hardware

A Dafny model of the stateful parts of a Nios II hardware abstraction layer and of the
SystemVerilog of a Frogger game, with proofs of what they keep over every run.

| files | what they model |
|---|---|
| `Ring.dfy`, `UartProtocol.dfy`, `JtagUart.dfy` | the interrupt-driven JTAG UART driver: two rings shared without locks between threads and an ISR |
| `AlarmSpec.dfy`, `AlarmRuns.dfy`, `AlarmWalk.dfy`, `AlarmEnds.dfy`, `Alarms.dfy` | the alarm service: a wrapping 32-bit tick counter, a rollover flag, and callbacks that edit the list being walked |
| `FdSpec.dfy`, `FdTable.dfy` | the file descriptor table with exclusive device locks |
| `Car.dfy`, `CarRow.dfy`, `Vga.dfy` | the cars, their collision test, and the VGA raster |
| `TimeOfDay.dfy`, `IntFormat.dfy`, `Arith.dfy`, `Heap.dfy` | time of day, integer printing and their arithmetic, the two bump allocators |

`dafny verify dfyconfig.toml` checks everything.

## How the parts fit

**UART.** `UartProtocol` is the driver as two byte queues, two enables and a host counter; each
change to the shared state is an event, and its lemmas are inductions over every legal log of
events. `JtagUart.Driver` is the driver code: the C fields, the two arrays, the ISR's loops, the
copy loops. `Interrupts()` runs any finite burst of ISRs, timer callbacks and host activity and is
called wherever interrupts are enabled, between any two bytes of a copy as well; only the two
enable updates run without it. Its precondition is `Valid()`, so `Valid()` holds in every state an
interrupt can see. `Valid()` says that the state is what the ghost log leads to, so the driver is
proved to perform legal events only and the protocol lemmas apply to it. Each burst also leaves a
`Moment`, what a thread finds when it goes on; the waiting loops say of every poll what it found.

**Alarms.** `AlarmSpec` gives one timer, one visit, one tick as functions on values, and an
independent description of which callbacks a tick should run. `Alarms` proves the pointer code
equal to it. `AlarmRuns` compares the 32-bit service with the same service on a clock that never
wraps, over whole runs. `AlarmWalk` is the loop turn by turn, for callbacks that may also stop the
successor the loop has saved, and `AlarmEnds` proves which ticks end and what those leave.

**Descriptors.** `FdTable` runs the scans and flag updates on the array; each method equals a
function of `FdSpec`, whose invariant is kept by every call and so by every run.

**Cars and raster.** The clocked registers are proved to follow a place on a cycle of 145 and a
count of pixel clocks; spacing, overlap and frame contents are then proved about those.

## Where the code and its comments differ

The model follows the code.

- `alt_fd_lock` is documented to grant a lock if no other descriptor is on the device. Its scan
  stops below the high-water mark and can miss one: `FdSpec.LockGrantedToShared`,
  `FdSpec.LockGrantExact`.
- It is also documented that closing the holder releases the lock. Descriptors 0 to 2 are never
  freed, so a redirected one keeps its lock for ever: `FdSpec.CloseUnlocks`,
  `FdSpec.LockOutlivesClose`.
- The vertical sync comment names lines 490 and 491; the pulse covers lines 489 and 490, one
  clock late: `Vga.VerticalPulse`.
- `alt_alarm_start` with an interval of 2^32 - 1 fires on the next tick unless the counter is at
  its maximum: `AlarmSpec.StartExact`.
- A write of no bytes returns an error, -EWOULDBLOCK or -EIO: `JtagUart.Driver.Write`.
- `settimeofday` multiplies in 32 bits where `gettimeofday` uses 64, so the time set is not always
  the time returned: `TimeOfDay.TimeSetIsLost`, and `TimeOfDay.ReadBack` and
  `TimeOfDay.SetThenGet` for the exact condition.
- With a tick rate that neither divides 10^6 nor exceeds it, `gettimeofday` runs backwards once a
  second: `TimeOfDay.RunsBackwards`, `TimeOfDay.NeverBackwardsExact`.
- `fcntl` sets flags on a closed descriptor; they do no harm, and a failed open clears them:
  `FdSpec.FailedOpenClears`, `FdSpec.FailedOpenRestores`.
- A car partly off the left edge never collides: `Car.CoversWithoutCollision`,
  `Car.CollisionExact`.
- The profiler's allocator does not notice that `sbrk` refused it: `Heap.RefusedSlab`,
  `Heap.Allocator.McountAllocate`.
- A callback that stops the alarm after its own and leaves it off the list makes `alt_tick` stand
  on that alarm, linked to itself: `AlarmWalk.TurnStrays`. It stays there for ever exactly if that
  alarm is not due or its own callback does not put it back: `AlarmWalk.EndlessExact`. A tick ends
  if and only if that never happens in it: `AlarmEnds.TickEndsExact`. `AlarmWalk.NeverEnds` and
  `AlarmWalk.EndsAfterAll` are a run of each kind, `AlarmEnds.CaughtAgain` one that gets away from
  the first such alarm and not from the second. With intervals near 2^32 - 1 a tick can be endless
  without ever leaving the list: `AlarmEnds.NeverCaughtNeverEnds`.
- Starting an alarm that is on the list already breaks the list: `Alarms.Insert`.

## Model

| member | source | states |
|---|---|---|
| UartProtocol.TransmitConserved | nios_system/software/final_frogger_bsp/drivers/src/altera_avalon_jtag_uart_write.c:100-214 | In every run, the bytes written to the data register followed by the transmit queue are, in order, the bytes the write calls accepted. |
| UartProtocol.ReceiveConserved | nios_system/software/final_frogger_bsp/drivers/src/altera_avalon_jtag_uart_read.c:115-179 | In every run, the bytes the read calls returned followed by the receive queue are, in order, the bytes taken from the device. |
| UartProtocol.NoLostWakeup | nios_system/software/final_frogger_bsp/drivers/src/altera_avalon_jtag_uart_init.c:156-194 | In every run, queued output means WE is set, and a cleared RE means a full receive ring, except between a publish and the enable update after it. |
| UartProtocol.HostInactivity | nios_system/software/final_frogger_bsp/drivers/src/altera_avalon_jtag_uart_init.c:210-224 | The inactivity counter is the number of timer callbacks since one saw activity, saturating at INT_MAX - 2; a timeout of INT_MAX - 1 or more is never reached. |
| JtagUart.Driver.Guarantees | nios_system/software/final_frogger_bsp/drivers/inc/altera_avalon_jtag_uart.h:90-118 | The same four facts in the driver's own fields, arrays and device registers, wherever an interrupt can arrive. |
| JtagUart.Driver.Init | nios_system/software/final_frogger_bsp/drivers/src/altera_avalon_jtag_uart_init.c:66-100 | Both rings empty, RE set at the device and in the shadow word, timeout 10 s or disabled if the alarm cannot be started. |
| JtagUart.Driver.Irq | nios_system/software/final_frogger_bsp/drivers/src/altera_avalon_jtag_uart_init.c:110-197 | The ISR ends whatever the host does meanwhile and keeps every invariant and the thread's view; on a device that raises its interrupts at once it leaves no byte waiting while RE is set and no room while WE is set, and with no thread between a publish and its enable update, bytes waiting only for a full ring and output only for room. |
| JtagUart.Driver.Receive | nios_system/software/final_frogger_bsp/drivers/src/altera_avalon_jtag_uart_init.c:130-154 | The receive loop never overwrites a stored byte, and data left over means a full ring. |
| JtagUart.Driver.TakeByte | nios_system/software/final_frogger_bsp/drivers/src/altera_avalon_jtag_uart_init.c:144-150 | A valid word is appended to the receive queue; an invalid one reports nothing left over. |
| JtagUart.Driver.ServeReceive | nios_system/software/final_frogger_bsp/drivers/src/altera_avalon_jtag_uart_init.c:125-167 | Each answer to RI makes progress: a ring cell is filled or RE is cleared. |
| JtagUart.Driver.Transmit | nios_system/software/final_frogger_bsp/drivers/src/altera_avalon_jtag_uart_init.c:169-184 | Never more bytes than the device has room for, in queue order; room left over means an empty ring. |
| JtagUart.Driver.ServeTransmit | nios_system/software/final_frogger_bsp/drivers/src/altera_avalon_jtag_uart_init.c:169-195 | Each answer to WI makes progress: a byte is sent or WE is cleared, and WE is cleared only over an empty ring. |
| JtagUart.Driver.TimeoutCallback | nios_system/software/final_frogger_bsp/drivers/src/altera_avalon_jtag_uart_init.c:203-225 | Activity clears the bit at the device and the counter, silence counts; the enables stay. |
| JtagUart.Driver.Interrupts | nios_system/software/final_frogger_bsp/drivers/src/altera_avalon_jtag_uart_init.c:110-225 | What a thread may rely on across any burst of ISRs, timer callbacks and host activity. |
| JtagUart.Driver.CopyIn | nios_system/software/final_frogger_bsp/drivers/src/altera_avalon_jtag_uart_write.c:122-124 | The copy into the ring touches no stored byte although interrupts move tx_out between any two of its bytes. |
| JtagUart.Driver.PublishTx | nios_system/software/final_frogger_bsp/drivers/src/altera_avalon_jtag_uart_write.c:126 | Publishing appends exactly the copied bytes. |
| JtagUart.Driver.FillRing | nios_system/software/final_frogger_bsp/drivers/src/altera_avalon_jtag_uart_write.c:102-127 | Takes at least what fitted on entry; the accepted bytes are the next ones of the data. |
| JtagUart.Driver.KickTransmitter | nios_system/software/final_frogger_bsp/drivers/src/altera_avalon_jtag_uart_write.c:136-139 | Sets WE at the device and in the shadow word together. |
| JtagUart.Driver.AwaitRoom | nios_system/software/final_frogger_bsp/drivers/src/altera_avalon_jtag_uart_write.c:183-188 | The wait goes on only as long as each poll finds the ring as full as it was seen and the host present; it ends at once if a byte has been sent meanwhile, and after it the call gives up only if the host is inactive and retries only if it is active. |
| JtagUart.Driver.AwaitData | nios_system/software/final_frogger_bsp/drivers/src/altera_avalon_jtag_uart_read.c:173-178 | The wait goes on only as long as each poll finds the ring empty and the host present; it ends at once if bytes are there. |
| JtagUart.Driver.Write | nios_system/software/final_frogger_bsp/drivers/src/altera_avalon_jtag_uart_write.c:83-215 | A positive result n means exactly data[..n] entered, an error that nothing did; a non-blocking call takes all that fitted, a blocking one stops short only with the host inactive; an empty write is an error. A call still polling found nothing in its last poll, or its last wait ended with the host active; if every burst of interrupts sends a byte, no call with as many polls as bytes is still polling. |
| JtagUart.Driver.CopyOut | nios_system/software/final_frogger_bsp/drivers/src/altera_avalon_jtag_uart_read.c:136-138 | The copy out of the ring reads the oldest stored bytes although interrupts append between any two of its bytes. |
| JtagUart.Driver.PublishRx | nios_system/software/final_frogger_bsp/drivers/src/altera_avalon_jtag_uart_read.c:140 | Publishing removes exactly the copied bytes. |
| JtagUart.Driver.DrainRing | nios_system/software/final_frogger_bsp/drivers/src/altera_avalon_jtag_uart_read.c:120-142 | Returns at least what was there on entry, up to the space; the rest of the buffer is untouched. |
| JtagUart.Driver.ReopenReceiver | nios_system/software/final_frogger_bsp/drivers/src/altera_avalon_jtag_uart_read.c:191-194 | Sets RE at the device and in the shadow word together. |
| JtagUart.Driver.Read | nios_system/software/final_frogger_bsp/drivers/src/altera_avalon_jtag_uart_read.c:100-203 | A positive result n means buffer[..n] holds exactly the next received bytes and RE has been set again; an error means none were taken, and a blocking error that the ring was empty and the host had timed out; a call still polling found the ring empty and the host present in every poll. |
| JtagUart.Driver.Close | nios_system/software/final_frogger_bsp/drivers/src/altera_avalon_jtag_uart_init.c:241-254 | Returns success only over an empty transmit ring or a timed-out host, refuses only if non-blocking and output was pending with the host present; a call still waiting found output and the host in every turn. |
| JtagUart.Driver.Ioctl | nios_system/software/final_frogger_bsp/drivers/src/altera_avalon_jtag_uart_ioctl.c:52-84 | The timeout set, and the connected answer: true exactly if the silent timer callbacks number less than the timeout; a timeout of INT_MAX - 1 always says connected. |
| Ring.WriteChunkExact | nios_system/software/final_frogger_bsp/drivers/src/altera_avalon_jtag_uart_write.c:105-120 | The writer's chunk is one contiguous run of free cells, as long as one copy can be, empty exactly if the ring is full; no publish makes a full ring look empty. |
| Ring.ReadChunkExact | nios_system/software/final_frogger_bsp/drivers/src/altera_avalon_jtag_uart_read.c:122-134 | The reader's chunk is one contiguous run of stored cells, as long as one copy can be, empty exactly if the ring is empty. |
| Ring.StaleSnapshotSafe | nios_system/software/final_frogger_bsp/drivers/src/altera_avalon_jtag_uart_write.c:105-107 | A cell free under an old consumer index is free under any later one. |
| Ring.PublishAppends | nios_system/software/final_frogger_bsp/drivers/src/altera_avalon_jtag_uart_write.c:122-126 | Advancing the producer appends the freshly copied bytes to the contents. |
| Ring.ConsumeDrops | nios_system/software/final_frogger_bsp/drivers/src/altera_avalon_jtag_uart_read.c:136-140 | Advancing the consumer removes exactly the oldest bytes from the contents. |
| Ring.IndexTests | nios_system/software/final_frogger_bsp/drivers/src/altera_avalon_jtag_uart_init.c:137-139 | The two index comparisons of the driver are its fullness and emptiness tests. |
| Ring.ContentsAt | nios_system/software/final_frogger_bsp/drivers/src/altera_avalon_jtag_uart_read.c:136-138 | The cells that count as stored are exactly those the contents are read from, each at its distance from the consumer. |
| AlarmRuns.StartedThenCalled | nios_system/software/final_frogger_bsp/HAL/src/alt_alarm_start.c:80-96 | On the 32-bit counter, an alarm started for n < 2^32 - 1 ticks is called on tick n + 1 after its start and on none before, whatever threads and callbacks do to other alarms meanwhile. |
| AlarmRuns.CalledExactlyAt | nios_system/software/final_frogger_bsp/HAL/src/alt_tick.c:96-139 | The same from any deadline within 2^32 ticks; after answering r > 0 the next deadline is exactly r ticks later, after answering 0 the alarm is off the list, across any number of counter wraps. |
| AlarmRuns.ClockRefined | nios_system/software/final_frogger_bsp/HAL/src/alt_tick.c:96-141 | Every run of starts, stops and ticks, callbacks starting and stopping alarms included, calls the same callbacks on the same ticks as a service on an unbounded clock. |
| AlarmRuns.DueExactlyAtDeadline | nios_system/software/final_frogger_bsp/HAL/src/alt_tick.c:109-115 | After any run, a listed alarm is due on the coming tick exactly if that is its true deadline, and no deadline has passed. |
| AlarmSpec.StartExact | nios_system/software/final_frogger_bsp/HAL/src/alt_alarm_start.c:80-96 | For every 32-bit interval: due nticks + 1 ticks later exactly if nticks is not 2^32 - 1 or the counter is at its maximum; otherwise on the next tick. |
| AlarmSpec.TickExact | nios_system/software/final_frogger_bsp/HAL/src/alt_tick.c:109-116 | One tick of a wrapped time and rollover flag against the true deadline. |
| AlarmSpec.RearmRepresents | nios_system/software/final_frogger_bsp/HAL/src/alt_tick.c:127-137 | The re-arm arithmetic is the true deadline plus the callback's answer. |
| AlarmSpec.TickCallsExact | nios_system/software/final_frogger_bsp/HAL/src/alt_tick.c:100-141 | One tick calls the alarms due by their settings when it began, once each and in list order, passing over just those an earlier callback stopped; alarms started meanwhile wait. |
| AlarmSpec.WalkLeaves | nios_system/software/final_frogger_bsp/HAL/src/alt_tick.c:117-141 | A tick leaves the list it found, edited in order by what the callbacks did and less those that answered 0. |
| AlarmSpec.WalkWellFormed | nios_system/software/final_frogger_bsp/HAL/src/alt_tick.c:100-141 | No tick puts an alarm on the list twice. |
| AlarmWalk.TurnStrays | nios_system/software/final_frogger_bsp/HAL/src/alt_tick.c:102-140 | A turn of the loop goes on to an alarm that is off the list exactly if its callback stops the saved successor and does not start it again last. |
| AlarmWalk.StrayTurn | nios_system/software/final_frogger_bsp/HAL/src/alt_tick.c:102-140 | A turn taken on an alarm off the list stands on it again, and finds it back on the list exactly if it is due and its callback starts it for good. |
| AlarmWalk.StrayForever | nios_system/software/final_frogger_bsp/HAL/src/alt_tick.c:102-140 | However many turns follow and whatever the callback answers in each, the loop stays on an alarm off the list that is not due or never started by its callback. |
| AlarmWalk.EndlessExact | nios_system/software/final_frogger_bsp/HAL/src/alt_tick.c:102-140 | The loop stays for ever on an alarm off the list that it stands on, if and only if that alarm is not due or its callback, doing the same every time, does not start it for good. |
| AlarmWalk.PermittedEnds | nios_system/software/final_frogger_bsp/HAL/src/alt_tick.c:102-140 | If no callback stops the saved successor, the loop is at the head after at most one turn per alarm on the list, in the state AlarmSpec.Walk gives. |
| AlarmWalk.PermittedTickEnds | nios_system/software/final_frogger_bsp/HAL/src/alt_tick.c:87-141 | Every tick in which no callback stops the saved successor ends. |
| AlarmWalk.NeverEnds | nios_system/software/final_frogger_bsp/HAL/src/alt_tick.c:102-140 | Two alarms due on the first tick: the first stops the second, and the tick never ends. |
| AlarmWalk.TwoReached | nios_system/software/final_frogger_bsp/HAL/src/alt_alarm_start.c:64-101 | The state of that run is reached from reset by two calls of alt_alarm_start. |
| AlarmWalk.EndsAfterAll | nios_system/software/final_frogger_bsp/HAL/src/alt_tick.c:102-140 | The same run ends if the second alarm's callback starts it again. |
| AlarmEnds.TickEndsExact | nios_system/software/final_frogger_bsp/HAL/src/alt_tick.c:87-141 | From an up-to-date state and with timely replies, a tick gets back to the head by lawful turns if and only if its loop is never caught: it never stands on an alarm off the list that is not due or that its callback does not put back. |
| AlarmEnds.TurnShrinks | nios_system/software/final_frogger_bsp/HAL/src/alt_tick.c:102-140 | Why: each turn of a loop that is not caught leaves fewer alarms to be called, or as many and a shorter way to the head. |
| AlarmEnds.PermittedFindsHead | nios_system/software/final_frogger_bsp/HAL/src/alt_tick.c:102-140 | If no callback stops the saved successor, the loop is never caught. |
| AlarmEnds.EndedTickUpToDate | nios_system/software/final_frogger_bsp/HAL/src/alt_tick.c:87-141 | A tick that ends, even past stopped successors, has missed no due alarm: every alarm it leaves on the list has its deadline still to come, so the next tick starts up to date. |
| AlarmEnds.RunUpToDate | nios_system/software/final_frogger_bsp/HAL/src/alt_tick.c:87-141 | Every run of timely starts, stops and ticks leaves the service up to date. |
| AlarmEnds.CaughtOnce | nios_system/software/final_frogger_bsp/HAL/src/alt_tick.c:102-140 | Four due alarms: after the first callback the loop stands on the second alarm, off the list, which is due and puts itself back. |
| AlarmEnds.CaughtAgain | nios_system/software/final_frogger_bsp/HAL/src/alt_tick.c:102-140 | That tick, though lawful and timely, never ends: the loop is caught on the fourth alarm. |
| AlarmEnds.CastReached | nios_system/software/final_frogger_bsp/HAL/src/alt_alarm_start.c:64-101 | It is the first tick after four calls of alt_alarm_start. |
| AlarmEnds.NeverCaughtNeverEnds | nios_system/software/final_frogger_bsp/HAL/src/alt_tick.c:127-137 | Two alarms that stop and restart each other for 2^32 - 1 ticks: every turn is lawful and on the list, and the tick never ends. |
| AlarmEnds.FlipReached | nios_system/software/final_frogger_bsp/HAL/src/alt_alarm_start.c:64-101 | It is the first tick after two calls of alt_alarm_start. |
| Alarms.Insert | nios_system/software/final_frogger_bsp/HAL/inc/sys/alt_llist.h:90-98 | Prepends to the abstract list and keeps the cycle; an entry that is on the list already breaks it for every possible list. |
| Alarms.Remove | nios_system/software/final_frogger_bsp/HAL/inc/sys/alt_llist.h:105-117 | Deletes from the abstract list, leaves the entry linked to itself, and changes nothing if it already was. |
| Alarms.AlarmService.AlarmStart | nios_system/software/final_frogger_bsp/HAL/src/alt_alarm_start.c:64-112 | The three results and the new list, deadline and rollover flag. |
| Alarms.AlarmService.AlarmStop | nios_system/software/final_frogger_bsp/HAL/src/alt_tick.c:66-73 | The alarm is off the list; every other alarm is as before. |
| Alarms.AlarmService.VisitAlarm | nios_system/software/final_frogger_bsp/HAL/src/alt_tick.c:100-141 | One turn of the loop over the heap list is AlarmWalk.Turn, whatever the callback does to the list, the saved successor included. |
| Alarms.AlarmService.AltTick | nios_system/software/final_frogger_bsp/HAL/src/alt_tick.c:87-148 | Every tick that ends, stopped successors included: the heap list and the calls are those of the turns it takes; if no callback stops the saved successor, they are exactly AlarmSpec.Tick and AlarmSpec.TickCalls. |
| Alarms.AlarmService.AltTickFor | nios_system/software/final_frogger_bsp/HAL/src/alt_tick.c:87-141 | Ticks that do not end as well: after any number of turns the heap list, the loop's place and the calls made are those of AlarmWalk.Turns. |
| FdSpec.LocksExclusive | nios_system/software/final_frogger_bsp/HAL/src/alt_fd_lock.c:54-75 | After any run of open, close, ioctl, fcntl and redirect: at most one holder of a device's lock, and any other descriptor on a locked device is the only one and above the holder. |
| FdSpec.StepKeeps | nios_system/software/final_frogger_bsp/HAL/src/alt_open.c:64-171 | Every call keeps the table invariant: standard descriptors in use, others in use at or below the high-water mark, lock and device marks only on open devices, and the lock discipline. |
| FdSpec.LockedDeviceNeverGrows | nios_system/software/final_frogger_bsp/HAL/src/alt_open.c:72-91 | While a descriptor holds a device's lock, the set of descriptors on that device only shrinks, over any run. |
| FdSpec.LockRefusesOpen | nios_system/software/final_frogger_bsp/HAL/src/alt_open.c:79-87 | An open is refused with EACCES exactly while some descriptor holds the device's lock. |
| FdSpec.LockGrantExact | nios_system/software/final_frogger_bsp/HAL/src/alt_fd_lock.c:61-69 | A lock request answers 0 and makes the descriptor the holder, or EACCES and changes nothing; a sole descriptor always gets the lock, and only sole ones do unless the only other descriptor on the device stands at the high-water mark, a condition on the table before the call. |
| FdSpec.LockGrantedToShared | nios_system/software/final_frogger_bsp/HAL/src/alt_fd_lock.c:43-45 | The documented grant condition fails of the code: open a device twice, and the first descriptor gets the lock. |
| FdSpec.LockUndone | nios_system/software/final_frogger_bsp/HAL/src/alt_fd_unlock.c:52-56 | An unlock request undoes a granted lock request, bit for bit. |
| FdSpec.UnlockFrees | nios_system/software/final_frogger_bsp/HAL/src/alt_ioctl.c:127-139 | The holder's unlock request answers 0, frees the device for everybody and changes nothing but the lock bit. |
| FdSpec.UnlockOfOthers | nios_system/software/final_frogger_bsp/HAL/src/alt_ioctl.c:127-139 | An unlock request on a descriptor without the lock answers 0 and changes nothing. |
| FdSpec.IoctlPasses | nios_system/software/final_frogger_bsp/HAL/src/alt_ioctl.c:141-166 | Other requests, and all on descriptors that are no device's, leave the table alone and answer what the driver does, ENOTTY without one. |
| FdSpec.BadArguments | nios_system/software/final_frogger_bsp/HAL/src/alt_fcntl.c:66-101 | A negative descriptor is EBADFD, an unknown fcntl command EINVAL, without effect. |
| FdSpec.CloseUnlocks | nios_system/software/final_frogger_bsp/HAL/src/alt_close.c:64-101 | Closing the holder frees the device for everybody, exactly if the holder is not one of descriptors 0 to 2. |
| FdSpec.CloseExact | nios_system/software/final_frogger_bsp/HAL/src/alt_close.c:64-101 | Close answers 0 or the driver's error, and frees the descriptor either way and nothing else; descriptors 0 to 2 stay as they are. |
| FdSpec.LockOutlivesClose | nios_system/software/final_frogger_bsp/HAL/src/alt_release_fd.c:44-51 | Redirect a standard descriptor to a device, lock it, close it: the device stays locked and every open of it fails. |
| FdSpec.OpenedExact | nios_system/software/final_frogger_bsp/HAL/src/alt_get_fd.c:77-89 | A successful open returns the lowest free descriptor, never a standard one, changes that slot only and stores there the device, the caller's flags without the two reserved bits, and the device mark exactly for a device, which is locked by nobody. |
| FdSpec.OpenAnswers | nios_system/software/final_frogger_bsp/HAL/src/alt_open.c:105-171 | Which answer an open gives: ENODEV, EMFILE, EACCES, the driver's error or a descriptor, each from the table before the call. |
| FdSpec.FailedOpenRestores | nios_system/software/final_frogger_bsp/HAL/src/alt_open.c:161-166 | A failed open leaves every slot as it was, exactly if the name is unknown, the table is full or fcntl has left no flags on the lowest free slot; the high-water mark may stay higher. |
| FdSpec.FailedOpenClears | nios_system/software/final_frogger_bsp/HAL/src/alt_fcntl.c:66-101 | From reset, fcntl on a closed descriptor and then an open that the driver refuses: the flags are cleared. |
| FdSpec.OpenThenClose | nios_system/software/final_frogger_bsp/HAL/src/alt_close.c:64-101 | Close undoes open. |
| FdSpec.RedirectExact | nios_system/software/final_frogger_bsp/HAL/src/alt_io_redirect.c:58-72 | A redirected descriptor gets the opened device with its flags and mark, unlocked, and the slot is given back; if the open fails it stays as it was. |
| FdSpec.FcntlExact | nios_system/software/final_frogger_bsp/HAL/src/alt_fcntl.c:66-101 | F_SETFL sets the two settable flags and nothing else: every lock, device mark and device stays. |
| FdSpec.GetflExact | nios_system/software/final_frogger_bsp/HAL/src/alt_fcntl.c:84-85 | F_GETFL answers the lower thirty flag bits and changes nothing. |
| FdSpec.OpenThenGetfl | nios_system/software/final_frogger_bsp/HAL/src/alt_fcntl.c:84-85 | After an open, F_GETFL answers the flags given to it. |
| FdSpec.SetflThenGetfl | nios_system/software/final_frogger_bsp/HAL/src/alt_fcntl.c:86-92 | After F_SETFL, F_GETFL answers the two settable flags as set and the others as before. |
| FdTable.FdList.constructor | nios_system/software/final_frogger_bsp/HAL/src/alt_dev.c:118-149 | The initial table and high-water mark. |
| FdTable.FdList.AltGetFd | nios_system/software/final_frogger_bsp/HAL/src/alt_get_fd.c:54-101 | The scan takes the lowest free slot and raises the high-water mark. |
| FdTable.FdList.AltReleaseFd | nios_system/software/final_frogger_bsp/HAL/src/alt_release_fd.c:44-51 | Frees slots above 2 only. |
| FdTable.FdList.AltFileLocked | nios_system/software/final_frogger_bsp/HAL/src/alt_open.c:64-92 | Marks the descriptor a device's and finds another holder of its lock, high-water slot included. |
| FdTable.FdList.AltOpen | nios_system/software/final_frogger_bsp/HAL/src/alt_open.c:105-171 | Each failure path and the success path as FdSpec.Open has them. |
| FdTable.FdList.AltClose | nios_system/software/final_frogger_bsp/HAL/src/alt_close.c:64-101 | Frees the slot whatever the driver answers. |
| FdTable.FdList.AltFdLock | nios_system/software/final_frogger_bsp/HAL/src/alt_fd_lock.c:54-75 | The scan below the high-water mark, then the lock bit. |
| FdTable.FdList.AltFdUnlock | nios_system/software/final_frogger_bsp/HAL/src/alt_fd_unlock.c:52-56 | Clears the lock bit only. |
| FdTable.FdList.AltIoctl | nios_system/software/final_frogger_bsp/HAL/src/alt_ioctl.c:106-168 | Lock requests are served centrally for devices only, everything else by the driver. |
| FdTable.FdList.AltFcntl | nios_system/software/final_frogger_bsp/HAL/src/alt_fcntl.c:66-101 | Reads and sets flags, on closed descriptors too. |
| FdTable.FdList.AltOpenFd | nios_system/software/final_frogger_bsp/HAL/src/alt_io_redirect.c:58-72 | As FdSpec.Redirect. |
| FdTable.FdList.AltIoRedirect | nios_system/software/final_frogger_bsp/HAL/src/alt_io_redirect.c:85-94 | The three redirections in their order. |
| Car.CarRegisters.Clock | car.sv:37-79 | The 11-bit registers with their edge wraps are one place forward or back on a cycle of 145, on every move frame and in either direction. |
| Car.MoveExact | car.sv:50-78 | A move is 5 columns in the direction asked for, or the jump from 640 to -80 or back, and a wait follows it. |
| Car.NeighbourEncodes | car.sv:54-67 | A step of 5 in 11 bits, or the jump at either edge, is one place round the cycle. |
| Car.CollisionExact | car.sv:101-116 | The four-corner test is true exactly if the car is wholly right of the left edge and the frog's inset box meets the car's; a car reaching in from the left never collides. |
| Car.CoversWithoutCollision | car.sv:101-116 | One move left of its start, a car covers a frog at the left edge of its row and reports no collision. |
| CarRow.SpacingForever | car_row.sv:35-53 | Cars of a row stay in lockstep and keep all cyclic distances for ever, whatever direction, speed and game state do. |
| CarRow.RowNeverOverlaps | car_row.sv:29-53 | A row whose gap fits the screen never shows two cars over each other. |
| CarRow.NeverOverlapExact | car.sv:50-78 | Two cars of a reset row never overlap in any run exactly if each is at least 16 places ahead of the other. |
| CarRow.StartPlaces | car_row.sv:41-45 | The cars start ready to move, one pitch apart and on the grid. |
| CarRow.WaitExact | car.sv:69-90 | A waiting car keeps its place and is ready to move after exactly the frames its count needs to meet the speed. |
| CarRow.MovesOnce | car.sv:47-90 | At speed s a car moves one place and is ready for the next move s + 2 frames later and not before. |
| CarRow.Pace | car.sv:47-90 | At constant speed s a car going right is n places on after n times s + 2 frames. |
| CarRow.ParkedWhenOver | car.sv:84-90 | While the game is won or lost a waiting car stays where it is, for any number of frames. |
| CarRow.LongPause | car.sv:69-90 | A pause that takes the 11-bit count one past the speed keeps the car standing for 2048 frames after the game goes on. |
| CarRow.RowCollisionExact | car_row.sv:55-58 | The row signal is true exactly if an active car wholly right of the left edge has its box meet the frog's; told of more than four cars it leaves out the fourth. |
| Vga.Controller.PixelClock | VGA_controller.sv:61-109 | t pixel clocks after reset the counters are t mod 800 and t / 800 mod 525, hs is low exactly in columns 656 to 751, and vs exactly from the second clock of line 489 to the first of line 491. |
| Vga.Controller.Clk | VGA_controller.sv:52-58 | Every second edge of the 50 MHz clock is a pixel clock. |
| Vga.Controller.Blank | VGA_controller.sv:113-121 | The display window is columns below 640 of lines below 480. |
| Vga.FrameExact | VGA_controller.sv:61-119 | Any 420000 consecutive pixel clocks after the first hold 307200 display clocks, 50400 with hs low and 1600 with vs low. |
| Vga.VerticalPulse | VGA_controller.sv:98-109 | The vertical pulse runs from the second clock of line 489 to the first of line 491. |
| TimeOfDay.SetThenGet | nios_system/software/final_frogger_bsp/HAL/src/alt_gettod.c:91-112 | With a tick rate dividing 10^6, the time returned k ticks after a set is normalised and is the time set plus exactly k ticks, exactly if it fits 32-bit fields and the 32-bit product at the set loses a multiple of 15625 * 2^32, or the clamp hides the loss from a read of time zero on the same tick; otherwise, while it fits, it is off by that loss, cut off at zero. |
| TimeOfDay.TimeRunsOut | nios_system/software/final_frogger_bsp/HAL/src/alt_gettod.c:109-112 | One tick past the last second that a 32-bit field can hold, the normalisation loop wraps the seconds. |
| TimeOfDay.NeverBackwardsExact | nios_system/software/final_frogger_bsp/HAL/src/alt_gettod.c:91-93 | For any reset time, reads at later ticks never show an earlier time, exactly if the tick rate divides 10^6 or exceeds it. |
| TimeOfDay.RunsBackwards | nios_system/software/final_frogger_bsp/HAL/src/alt_gettod.c:91-93 | At three ticks a second, tick 3 reads 1.999999 s and tick 4 reads 1.333332 s. |
| TimeOfDay.ReadBack | nios_system/software/final_frogger_bsp/HAL/src/alt_settod.c:82-84 | The time returned on the tick of the set is the time set, for any tick rate and 32-bit time, under the same exact condition. |
| TimeOfDay.TimeSetIsLost | nios_system/software/final_frogger_bsp/HAL/src/alt_settod.c:82-84 | At a tick rate of 1000 and tick 4294968, setting 1000 s reads back 1000.967296 s; and an input where the clamp hides the loss. |
| TimeOfDay.CutHarmless | nios_system/software/final_frogger_bsp/HAL/src/alt_settod.c:83-84 | When a product cut to 32 bits keeps its remainder modulo a million. |
| TimeOfDay.Clock.SetTimeOfDay | nios_system/software/final_frogger_bsp/HAL/src/alt_settod.c:72-96 | The time set is what a read on the same tick returns, exactly if the product's loss is harmless or hidden by the clamp; without a system clock nothing changes. |
| TimeOfDay.Clock.GetTimeOfDay | nios_system/software/final_frogger_bsp/HAL/src/alt_gettod.c:71-124 | The loops end, keep the total as far as 32-bit seconds hold it, and normalise it; the clamp is taken exactly if the microseconds and the total are negative; the result is TimeOfDay.Reading, the time the set-and-read results speak of. |
| IntFormat.PrintedReadsBack | nios_system/software/final_frogger_bsp/HAL/src/alt_log_printf.c:238-296 | For every 32-bit value, base, flag and width the printed text reads back as the signed or unsigned number, is exactly as long as width or digits and sign ask, and its digits have no leading zero. |
| IntFormat.PrintedShape | nios_system/software/final_frogger_bsp/HAL/src/alt_log_printf.c:257-296 | The text is blanks, sign and digits, or with the zero flag sign, zeros and digits; the digits are of the base, in the letter case asked for. |
| IntFormat.PaddingExact | nios_system/software/final_frogger_bsp/HAL/src/alt_log_printf.c:257-279 | The zero flag leaves no blank in the text, without it a fill begins with one; %x prints no capital digit and %X no small one; there is a minus sign exactly before a negative number. |
| IntFormat.Port.PrintInteger | nios_system/software/final_frogger_bsp/HAL/src/alt_log_printf.c:206-297 | The conversion prints exactly that text. |
| IntFormat.Port.CountDigits | nios_system/software/final_frogger_bsp/HAL/src/alt_log_printf.c:247-255 | Counts the digits and finds the largest place value; the 32-bit product never wraps. |
| IntFormat.Port.PutLead | nios_system/software/final_frogger_bsp/HAL/src/alt_log_printf.c:257-279 | Sign and zeros, or blanks and sign. |
| IntFormat.Port.PutDigits | nios_system/software/final_frogger_bsp/HAL/src/alt_log_printf.c:281-296 | One digit per place value, from the largest down. |
| IntFormat.Port.RepChar | nios_system/software/final_frogger_bsp/HAL/src/alt_log_printf.c:106-110 | As many characters as asked, none for a negative count. |
| IntFormat.Port.PrintHex | nios_system/software/final_frogger_bsp/HAL/src/alt_printf.c:82-111 | alt_printf's %x prints the same text as the unpadded %x above. |
| Heap.Allocator.Sbrk | nios_system/software/final_frogger_bsp/HAL/src/alt_sbrk.c:68-136 | Grants exactly if the aligned end and the increment stay below the limit; all granted blocks are word aligned, in the region and pairwise apart. |
| Heap.Allocator.McountAllocate | nios_system/software/final_frogger_bsp/HAL/src/alt_gmon.c:133-148 | Pieces are word aligned, inside their slab and pairwise apart, in any interleaving with sbrk; the allocator stays sound exactly if the slab has room or sbrk grants a new one. |
| Heap.RefusedSlab | nios_system/software/final_frogger_bsp/HAL/src/alt_gmon.c:133-148 | With a heap too small for a slab the first allocation returns the failure value as an address. |
| Heap.Allocator.PiecesApartFromBlocks | nios_system/software/final_frogger_bsp/HAL/src/alt_gmon.c:126-132 | No piece overlaps a block that sbrk gave to anybody else. |

## Left out

- JtagUart.Driver.Write: a blocking call may poll for ever; it is modelled by its finite prefixes, `patience` polls long, and says so with `WriteSpinning`. Read and Close likewise.
- JtagUart.Driver.Irq: the ISR runs to completion without nested interrupts, and the receive count of the data register is not limited to 16 bits.
- JtagUart.Driver.Interrupts: one thread at a time runs driver code, as in a system without an operating system; the semaphores and event flags of the uC/OS-II build are not modelled.
- Alarms.AlarmService.AlarmStart: the alarm must be off the list, which the code does not check; `Alarms.Insert` shows that inserting a linked entry again breaks the cycle, and no run goes on from there.
- Alarms.AlarmService.AltTick: a callback's list operations and answer are an input, given per alarm; the tick rate is set, as the clock driver that calls it has done; ticks that never end are covered by `AltTickFor`, by their finite prefixes.
- AlarmRuns.ClockRefined: intervals started are below 2^32 - 1, and a callback that restarts its own alarm and also answers r asks for less than 2^32 ticks in all; `AlarmSpec.StartExact` covers the remaining interval; the ticks of these runs do not stop the saved successor.
- AlarmEnds.TickEndsExact: intervals as in `AlarmRuns.ClockRefined`, and each callback does the same every time it is called in a tick.
- Alarms.Alarm: the list head is an alarm whose time is never used, in place of the C cast between a list entry and the alarm that starts with it.
- FdSpec.Open: name lookup and the drivers' open, close and ioctl routines are inputs; they do not change the table. A device and a filesystem are never the same entry.
- FdSpec.Permitted: close and ioctl are called with negative or open descriptors below 32; the C code does not check the rest.
- FdSpec.FCNTL_FLAGS_MASK: O_NONBLOCK and O_APPEND have their newlib values; fcntl.h is not part of this model.
- Car.CarRegisters.constructor: starts off the grid of multiples of 5 up to 640, which gaps above 133 would give, are not modelled.
- TimeOfDay.Clock: time zones, and times before 1970 in `SetThenGet`; time fields are 32 bits and wrap, which C leaves undefined where the code adds signed numbers.
- IntFormat.Port: parsing of format strings, %c and %s.
- Heap.Allocator.Sbrk: negative increments, the optional byte limit and the stack check; the heap limit lies below 2^31.
- The profiler's call graph lists and its histogram.
- The small UART driver, the FIFO reset on a full FIFO, and the log hooks.
- USB, colour mapping, sprites, game logic, lily pads and the frog.
- Cache, interrupt entry, exception and C library stubs.

# Wirefilter in Dafny

Wirefilter emulates a network link. A handler thread takes packets from both sides; each may be
lost, duplicated, refused by a full buffer, or delayed, and leaves through a timed priority queue.
The parameters of the link come from the current node of a Markov chain that can be changed and
resized while packets flow. This project models that program and proves what it keeps, over every
run where the property is about runs. Nothing was executed.

`dafny verify dfyconfig.toml` checks the whole project.

## Modules

| file | what it holds |
|---|---|
| `Packets.dfy` | packets, directions, 32-bit unsigned arithmetic |
| `Queue.dfy` | the sentinel heap of `includes/wf_queue.c`, in place on an array, with FIFO keys and byte counters |
| `Delivery.dfy` | the packet handler as a state machine: one step per offered copy, timer firing, released copy and mode change |
| `DeliveryRuns.dfy` | theorems about every run of that machine |
| `Overtaking.dfy` | the exact condition for FIFO order under a 32-bit counter |
| `ShortQueues.dfy` | why queues that fit the source meet it, and how negative delays break it |
| `Rates.dfy` | the virtual finish times of the bandwidth and speed handlers |
| `SpeedGate.dfy` | the gate that stops reading right-to-left packets |
| `GilbertLoss.dfy` | the two-state loss chain and its limit |
| `WireValues.dfy` | values, variations and what the handlers compute from them |
| `Markov.dfy` | the flat adjacency array, in place, and sampling along its rows |
| `HandOff.dfy` | the two-thread hand-off of right-to-left frames |
| `Connections.dfy` | the parallel arrays of management connections and their poll slots |
| `WireParser.dfy` | the parser of values, and a printer it inverts |
| `Handlers.dfy` | what the handlers of `handlePacket` compute, as functions of the node in force |
| `LinkRuns.dfy` | whole runs with their nodes and draws: bandwidth, delay, MTU and buffer size as seen by what leaves |
| `PacketRuns.dfy` | whole runs packet by packet, with the MTU, loss and duplication checks |
| `EventLoop.dfy` | `handlePacket`, its handlers and the queue-timer branch as methods on the heap of `Queue.dfy` |

`EventLoop.Wirefilter` carries a ghost run of `LinkRuns.dfy`, and with it a run of the machine of
`Delivery.dfy`. Every method extends that run by the turns it takes and keeps the object equal to its
last state, so each theorem about runs is a theorem about the object; `SentInOrder`,
`CountersStayWithinSizes` and `FieldsFinishLines` spell some of them out. `HandlePacket` is one step of
the runs of `PacketRuns.dfy`. In the same way the methods of `Markov.MarkovChain` are steps of the runs
of `Markov.EveryRunIsSound`.

What the handlers compute is stated a second time from the cells of the node (`CellValue` of
`WireValues.dfy`, the `..FromCell` lemmas of `Handlers.dfy`), in terms of value, variation and draw only.

## Choices

- Delays, weights and probabilities are exact reals. Timestamps are natural numbers of nanoseconds,
  and a `double` assigned to one is truncated as C does it. A requested time before 0 is 0.
- Clock readings, `drand48` results and Gaussian samples are arguments. Clock readings within a run
  do not decrease. A Gaussian sample is an arbitrary real.
- `counter` and `byte_size` wrap at 2^32. Times are unbounded, and so is the size of the queue: the
  source indexes its heap with `int k` (`includes/wf_queue.c:105`), so the model is about queues of
  fewer than 2^31 packets.
- A copy overtakes another when the counter falls back to 0 while a FIFO copy waits under the same
  time. `OrderSafeExactlyWithoutOvertaking` shows that FIFO order fails exactly then, and
  `OvertakingNeedsCrowd` that this takes about 2^32 waiting copies or a negative delay.
- `fifoness` is a `char`, so the argument of `fifo` is cut to 8 bits; `char` is taken to be signed.
- The growth test `size >= max_size` (`includes/wf_queue.c:97`) lets a node land one slot past the
  allocation. The array of the model has one spare slot, so that this write has a meaning;
  `OverrunExactly` and `AllocationHoldsExactlyBelowChunk` say when it happens.
- `return DROP` in the two rate handlers (`libvdeplug_wirefilter.c:564`, `libvdeplug_wirefilter.c:589`)
  is kept as what it is there: a delay of -1 ms.
- `NS_TO_MS` is integer division, and the nanoseconds charged are rounded down, so the plain
  throughput bound fails at rates where a byte does not take a whole number of nanoseconds; the bound
  with 1 ns per packet always holds.
- A zero divisor in the loss handler gives an infinity, whose sign is that of the zero, or NaN in C;
  `BelowQuotient` says how the comparison then comes out.
- The manual's probability of entering the faulty state (`man/libvdeplug_wirefilter.1.md:46`) is not
  the code's (`libvdeplug_wirefilter.c:510`). The model follows the code; `ManualFormulaMisses`
  says how rarely the manual's would do.
- `setedge` does not check its indices. The model demands only that the cell lies in the array, and
  shows which calls unbalance a row. `markov-setnode` stores any node, and the contract says when the
  chain is still valid. `markov-numnodes` takes a positive number.
- `receive_lock` is a binary semaphore. There is a single receiver, a write to the pipe is atomic,
  and frames have 2 to `VDE_ETHBUFSIZE` bytes, as the reading side grants.
- `accept` returns a descriptor that is not open. A connection whose greeting fails is not recorded.
- Strings have no NUL inside, and a NUL written into one cuts it short. `%lf` reads unsigned decimal
  integers, `%d` optionally negative ones. Where the source looks at the character before an empty
  string, the model finds nothing there.
- The queue-timer branch may be entered at any time between packets, also when its timer has been
  set again since poll looked at it.
- A duplication loop that never ends (`dup` of 100) is excluded: the draws handed to
  `DuplicatesHandler` contain one that does not duplicate.

## Model

| member | source | states |
|---|---|---|
| Queue.CompareNode | includes/wf_queue.c:61-70 | The result is negative exactly when the first key is smaller in the order by time, then counter; positive exactly when the second is; so zero for equal keys only. |
| Queue.FifoKeyGrows | includes/wf_queue.c:77-94 | In FIFO mode a new node sorts strictly after the last FIFO node if and only if the 32-bit counter does not wrap, and it becomes the node that later ones are compared with. |
| Queue.OtherKeyStands | includes/wf_queue.c:92-94 | Outside FIFO mode a node gets the requested time and the counter as it stands, moves neither field, and under the greatest FIFO time does not sort before the last FIFO node. |
| Queue.OverrunExactly | includes/wf_queue.c:97-105 | The slot written by the next insertion lies past the allocation if and only if the queue is allocated and holds max_size - 1 packets. |
| Queue.AllocationHoldsExactlyBelowChunk | includes/wf_queue.c:96-121 | Over every run of enqueue and dequeue calls on a fresh queue, all writes stay inside the allocation if and only if 100 packets are never queued at once. |
| Queue.RootIsHead | includes/wf_queue.c:116 | In a heap-ordered array slot 1 holds a least node of everything queued. |
| Queue.BytesIn | includes/wf_queue.c:102 | Adding a packet's length to the wrapped counter of its direction gives the wrapped sum with it; the other direction's sum is unchanged. |
| Queue.BytesOut | includes/wf_queue.c:120 | Subtracting a queued packet's length from the wrapped counter of its direction gives the wrapped sum without it; the other direction's sum is unchanged. |
| Queue.DelayQueue.constructor | includes/wf_queue.c:12-25 | A new queue is valid and empty, unallocated, with zero FIFO fields. |
| Queue.DelayQueue.SetFifo | includes/wf_management.c:203-207 | Only the mode changes: FIFO fields, heap and byte counters stay as they are. |
| Queue.DelayQueue.Resize | includes/wf_queue.c:33-53 | The queued nodes, heap order and the sentinel survive the move to a larger array. |
| Queue.DelayQueue.Enqueue | includes/wf_queue.c:72-111 | The queue gains exactly the node with the key the FIFO fields prescribe, keeping heap order, sentinel and byte counters; the FIFO fields advance; the highest slot written lies inside the source's allocation exactly when the growth test does not overrun. |
| Queue.DelayQueue.AssignKey | includes/wf_queue.c:76-90 | The stored time, and both FIFO fields afterwards, in all three cases: not FIFO, new maximum, behind the maximum. |
| Queue.DelayQueue.CountIn | includes/wf_queue.c:102 | Both byte counters stay the 32-bit sums over the queued packets. |
| Queue.DelayQueue.SiftUp | includes/wf_queue.c:104-110 | The upward loop ends at the sentinel without testing the index, restores heap order and adds exactly the new node. |
| Queue.DelayQueue.Dequeue | includes/wf_queue.c:113-144 | NULL for an empty queue; otherwise the packet of a least node, and the queue loses that node and no other, keeping heap order, sentinel and byte counters. |
| Queue.DelayQueue.CountOut | includes/wf_queue.c:120 | Both byte counters stay the 32-bit sums over what remains. |
| Queue.DelayQueue.RemoveRoot | includes/wf_queue.c:118-141 | One slot fewer, heap order restored, and the queued nodes lose exactly the root. |
| Queue.DelayQueue.SiftDown | includes/wf_queue.c:124-140 | The downward loop terminates with a free slot at which the last node is in order with its parent and both children; nothing else is lost. |
| Queue.DelayQueue.LesserChild | includes/wf_queue.c:128-131 | The chosen child is a child within the heap and not after any other child, also when there is only one. |
| Queue.DelayQueue.NextQueueTime | includes/wf_queue.c:146-148 | The time of a least node of the queue. |
| Delivery.HeadTime | includes/wf_queue.c:146-148 | A time that no waiting node is stored below and that some waiting node is stored under. |
| Delivery.RequestedTimeIsExact | libvdeplug_wirefilter.c:451 | The time a copy is stored under is the clock reading plus its delay, rounded down by less than 1 ns, fractions of a millisecond included. |
| Delivery.AcceptedLeavesOrWaits | libvdeplug_wirefilter.c:450-456 | A copy that is not refused leaves at once, unqueued and at its clock reading, if and only if its delay is not positive and FIFO mode does not hold it behind others; otherwise it waits and the timer is armed for the earliest copy. |
| Delivery.RefusedExactlyBeyondLimit | libvdeplug_wirefilter.c:551-553 | A copy is refused if and only if it has a limit that the bytes queued in its direction, modulo 2^32, and its own exceed; then nothing changes. |
| Delivery.ConservedStep | libvdeplug_wirefilter.c:362-370 | Every step keeps: accepted copies are numbered in order, and as a multiset are exactly those waiting plus those sent. |
| Delivery.OnTimeStep | libvdeplug_wirefilter.c:366-370 | Every step keeps: no copy is stored under, or has left before, the time it asked for. |
| Delivery.TimerStep | libvdeplug_wirefilter.c:363-375 | Every step keeps: the queue timer is off when nothing waits, and otherwise armed at the maximum of the head time and 1 ns after arming. |
| Delivery.KeysGrowStep | includes/wf_queue.c:77-94 | A step keeps the keys of waiting FIFO copies strictly increasing in the order of arrival if and only if it does not wrap the counter while a FIFO copy waits under the greatest time given out. |
| Delivery.LeavesInOrderStep | libvdeplug_wirefilter.c:450-456 | While those keys increase, every step keeps: the FIFO copies sent, then those waiting, are the FIFO copies accepted, in order; so the bypass of an empty queue is harmless. |
| Delivery.StoredAtPeakStep | includes/wf_queue.c:77-90 | Every step keeps: a FIFO copy is stored under the running maximum of the FIFO requests up to it, any other copy under its own request. |
| DeliveryRuns.EveryRun | libvdeplug_wirefilter.c:362-376 | Conservation, release no earlier than requested, timer state and stored times hold in every reachable state. |
| DeliveryRuns.EveryRunInOrder | libvdeplug_wirefilter.c:431-458 | In every run without overtaking, waiting FIFO keys increase and FIFO copies leave in order, at every state. |
| DeliveryRuns.FifoRefinesList | libvdeplug_wirefilter.c:362-376 | With FIFO on throughout and no overtaking, heap, counters and bypass refine a list queue: sent copies followed by the heap in key order are the accepted copies, over both directions, and only the oldest can leave next. |
| DeliveryRuns.TogglingKeepsFifoOrder | includes/wf_management.c:203-207 | With the mode changed any number of times, in every run without overtaking, any two copies accepted while FIFO was on leave in the order of acceptance. |
| DeliveryRuns.EachCopyOnce | libvdeplug_wirefilter.c:442-456 | At every moment each accepted copy is in the heap exactly once or sent exactly once, never both. |
| DeliveryRuns.StoredUnderRunningMaximum | includes/wf_queue.c:77-90 | The stored time of the n-th queued FIFO copy is at least every FIFO request up to it, and equals one of them. |
| DeliveryRuns.NothingLeavesEarly | libvdeplug_wirefilter.c:366-370 | In every run, in either mode, no copy leaves before the time asked for. |
| DeliveryRuns.QueuedLeaveAfterStoredTime | libvdeplug_wirefilter.c:367 | Every copy that went through the queue has left strictly after the time it was stored under. |
| DeliveryRuns.NoLostWakeup | includes/wf_queue.c:151-157 | Between branches of the event loop the timer is armed if and only if something waits, for the maximum of the head time and arming time + 1 ns. |
| DeliveryRuns.DrainReleasesWhatIsDue | libvdeplug_wirefilter.c:363-375 | A complete drain leaves exactly the copies not due at its last clock reading, in their order; if that reading lies strictly after the head time, at least one is released. |
| DeliveryRuns.BufferNeverOverfull | libvdeplug_wirefilter.c:547-557 | If every copy is checked against a computed size of at most the limit, and the limit is below 2^32, neither direction ever has more bytes queued. |
| DeliveryRuns.LimitHoldsExactlyBelowCounterRange | libvdeplug_wirefilter.c:551-553 | That bound holds in all runs if and only if the limit is below 2^32; above, the wrapped counter admits copies for ever. |
| DeliveryRuns.FloodBeatsLimit | libvdeplug_wirefilter.c:551-553 | For any limit of 2^32 or more a run that queues more bytes than it, with one packet of a kilobyte for each kilobyte of the limit, and one more. |
| Overtaking.OrderKept | libvdeplug_wirefilter.c:362-376 | From a state in order, no continuation without new packets breaks the FIFO order. |
| Overtaking.LetPass | libvdeplug_wirefilter.c:366-370 | Of two waiting nodes the one that does not sort later can be released while the other still waits. |
| Overtaking.OvertakingBreaksOrder | includes/wf_queue.c:84-89 | After any step that wraps the counter past a waiting FIFO copy, the queue timer alone can send the newer copy first. |
| Overtaking.OrderSafeExactlyWithoutOvertaking | includes/wf_queue.c:77-94 | For every run, mode changes included: FIFO order is safe at every moment of it if and only if no step wraps the counter while a FIFO copy waits under the greatest time. |
| Overtaking.ShortRunsNeverOvertake | includes/wf_queue.c:88 | Runs of fewer than 2^32 steps meet that condition, whatever the delays. |
| ShortQueues.CounterCoveredStep | includes/wf_queue.c:77-90 | Every step keeps: until the clock passes the greatest time given out, the counter is at most the number of FIFO copies waiting under that time. |
| ShortQueues.OvertakingNeedsCrowd | includes/wf_queue.c:84-89 | In every run, a step that wraps the counter past a waiting FIFO copy finds at least 2^32 - 1 copies waiting, or asks for a negative delay. |
| ShortQueues.ShortQueuesNeverOvertake | includes/wf_queue.c:77-94 | So runs of any length without negative delays, in which fewer than 2^32 - 1 copies ever wait at once, meet the condition. |
| ShortQueues.ShortQueueRefinesList | libvdeplug_wirefilter.c:362-376 | In those runs, with FIFO on throughout: sent copies followed by the heap in key order are the accepted copies, and only the oldest can leave next. |
| ShortQueues.ShortQueueKeepsFifoOrder | includes/wf_management.c:203-207 | In those runs, whatever the mode changes: FIFO copies leave in the order of acceptance. |
| ShortQueues.NegativeDelaysBreakFifo | libvdeplug_wirefilter.c:584-589 | With the -1 ms of `return DROP` the counter can wrap in a queue that never holds more than three: a run of the machine at whose end a FIFO copy has overtaken an earlier one. It needs 2^32 such copies before the clock is 1 ms past the time they are stored under. |
| Rates.Charge | libvdeplug_wirefilter.c:578 | The nanoseconds booked for a packet are its transmission time rounded down, losing less than 1 ns. |
| Rates.TransmissionIsLengthOverRate | libvdeplug_wirefilter.c:566-578 | Transmission time times rate is the length, exactly in the delay; the charge is that time rounded down by less than 1 ns. |
| Rates.DelayIsTransmissionAndWait | libvdeplug_wirefilter.c:564-594 | The delay of the speed handler is the transmission time; that of the bandwidth handler has the whole milliseconds until the line is free besides; a rate that is not positive gives -1 ms and books nothing. |
| Rates.BookingIsTransmission | libvdeplug_wirefilter.c:569-598 | Both handlers book the transmission time, rounded down by less than 1 ns, from the later of the clock reading and the end of what is booked. |
| Rates.FinishIsMaximum | libvdeplug_wirefilter.c:559-582 | After packets at any rates the finish time is the maximum, over all k that are charged, of the arrival time of k plus the charges from k on: a single server in order of arrival. |
| Rates.FinishTimesSpread | libvdeplug_wirefilter.c:569-578 | Between two finish times lies all the work that arrived in between. |
| Rates.FinishTimesGrow | libvdeplug_wirefilter.c:569-578 | Finish times never decrease, so the packets finishing in a window are consecutive. |
| Rates.BytesFitWork | libvdeplug_wirefilter.c:566-578 | The bytes of any run of packets fit in their booked time plus 1 ns per packet. |
| Rates.ThroughputBound | libvdeplug_wirefilter.c:559-582 | At a constant rate, packets that finish within a window carry at most rate times window plus one packet, but for 1 ns per further packet. |
| Rates.KeepsRateExactlyWithoutFractions | libvdeplug_wirefilter.c:566-578 | Without the 1 ns per packet the bound holds for all arrivals and windows if and only if one byte takes a whole number of nanoseconds. |
| Rates.FractionsBeatRate | libvdeplug_wirefilter.c:578 | For any other rate, a train of one-byte packets and a window that exceed it. |
| Rates.DelayMeetsFinish | libvdeplug_wirefilter.c:569-577 | The time a packet is asked to leave at lies less than 1 ms below and less than 1 ns above its finish time, after any number of packets, so the truncation does not add up. |
| SpeedGate.ChargedBooksWork | libvdeplug_wirefilter.c:584-602 | Copies that pass from a moment on move speed_next at least their total charge past it, if there is any charge, and never back. |
| SpeedGate.EveryRun | libvdeplug_wirefilter.c:332-359 | In every run: reading is off if and only if the speed timer is armed, which is never before speed_next; and consecutive reads lie at least the first one's charges apart. |
| SpeedGate.ReadingOffExactlyWhileArmed | libvdeplug_wirefilter.c:336-342 | Reading is off if and only if the timer is armed, and a readable packet is read if and only if speed_next does not lie ahead, at the clock reading of the check. |
| SpeedGate.ArmedForSpeedNext | libvdeplug_wirefilter.c:336-339 | While armed, the timer is set for speed_next and no later, but for the time from the reading that found the line busy to the arming. |
| SpeedGate.ReadAtSpeedNext | libvdeplug_wirefilter.c:336-383 | Handled without delay, a side that stays readable is read exactly at speed_next. |
| SpeedGate.SpeedNextIsFinish | libvdeplug_wirefilter.c:595-598 | In every run speed_next is the finish time of a single server for all copies read so far, at whatever speeds. |
| SpeedGate.OneWakeupIsEnough | libvdeplug_wirefilter.c:379-383 | After a firing the first readable packet is read, not held back again. |
| SpeedGate.SenderIsHeldBack | libvdeplug_wirefilter.c:332-359 | Reads i and j of any run lie apart by at least what all copies from i up to j were charged. |
| SpeedGate.SenderKeepsSpeed | libvdeplug_wirefilter.c:332-359 | While the computed speed is constant, the bytes of all copies made from packet i up to packet j fit in the time between the two reads at that speed, but for 1 ns per copy. |
| GilbertLoss.DropInterval | libvdeplug_wirefilter.c:508-521 | The draws that drop a packet form one interval whose length is the state's transition probability, and a packet is dropped exactly in the faulty state. |
| GilbertLoss.FullLossEnters | libvdeplug_wirefilter.c:510 | A loss of 100 always enters the faulty state; beyond 100 the divisor is negative, and it is never entered. |
| GilbertLoss.EmptyBurst | libvdeplug_wirefilter.c:510-515 | For an ordinary loss a negative burst length never changes the status, and a burst length of 0 changes it at every packet. |
| GilbertLoss.NegativeZero | libvdeplug_wirefilter.c:510 | A divisor that is a negative zero does not let the faulty state be entered. |
| GilbertLoss.ChainClosedForm | libvdeplug_wirefilter.c:508-519 | After t packets the faulty probability is the fixpoint plus (1 - p - r)^t times the initial displacement. |
| GilbertLoss.LossRateDistance | libvdeplug_wirefilter.c:508-519 | The distance of the loss rate to the fixpoint shrinks by exactly abs(1 - p - r)^t, with p and r clamped to probabilities. |
| GilbertLoss.ConvergesExactlyWhenPromised | man/libvdeplug_wirefilter.1.md:42-46 | The loss rate converges to `loss` from every start if and only if loss is 0, or lostburst >= 1 and loss <= lostburst (1 - loss), except for loss 50 % with lostburst 1. |
| GilbertLoss.PromiseKept | libvdeplug_wirefilter.c:508-519 | Under that condition, for every start and error bound a number of packets after which the bound is kept for ever. |
| GilbertLoss.PromiseBroken | libvdeplug_wirefilter.c:508-519 | Otherwise a start from which the loss rate stays a fixed distance away for ever. |
| GilbertLoss.ManualFormulaMisses | man/libvdeplug_wirefilter.1.md:45-46 | With the manual's probability of entering the faulty state, `loss` is stationary if and only if loss (lostburst + 1) = 1, so not in general. |
| WireValues.UniformStaysInRange | includes/wf_markov.c:319-345 | With a uniform variation or none, the computed value lies between the minimum and the maximum the handlers test. |
| WireValues.UniformIsLinear | includes/wf_markov.c:343-345 | Draws map linearly onto the range from minimum to maximum. |
| WireValues.UniformReachesRange | includes/wf_markov.c:343-345 | Every value from the minimum up to, but not including, the maximum comes from some draw. |
| WireValues.GaussianScale | includes/wf_markov.c:346-354 | With a normal variation, minimum and maximum lie three standard deviations from the value. |
| WireValues.ComputedFromCell | includes/wf_markov.c:322-358 | Computed, greatest and least value in terms of the cell: value + plus * x with x uniform in [-1, 1) or normal with deviation 1/3, also where plus is 0. |
| Markov.Determined | includes/wf_markov.c:32-38 | The weights between different nodes and the row sums of 100 determine the whole matrix. |
| Markov.ResizedIsUnique | includes/wf_markov.c:101-116 | The specification of a resize leaves no freedom: at most one matrix satisfies it. |
| Markov.NewNodesAreIsolated | man/libvdeplug_wirefilter.1.md:104 | A new node has a loopback of 100 and no other edge in or out. |
| Markov.ShrinkFoldsIntoLoopback | man/libvdeplug_wirefilter.1.md:104 | Shrinking adds exactly the weights of edges to deleted nodes to the loopback. |
| Markov.GrowThenShrinkIsIdentity | includes/wf_markov.c:121-159 | Growing and shrinking back gives the same matrix, cell by cell. |
| Markov.ShrinksCompose | includes/wf_markov.c:121-159 | Two successive shrinks are one shrink to the smaller size. |
| Markov.SetEdgeStaysInMatrixExactly | includes/wf_markov.c:52-54 | `setedge` writes inside the matrix if and only if the start node is in range and the cell lies in the matrix. |
| Markov.SetEdgeBalancesExactlyInRange | includes/wf_markov.c:52-54 | After `setedge` all rows add up to 100 if and only if the end node is in range or the stray write changes nothing. |
| Markov.SetEdgeSetsWeight | includes/wf_markov.c:52-54 | An edge in range to another node gets its weight and the loopback what is left of 100; no other weight changes, and setting a loopback changes nothing. |
| Markov.PickHasWeight | includes/wf_markov.c:167-177 | On a row adding up to 100 the loop always breaks, and never at another node without an edge. |
| Markov.DrawsFormIntervals | includes/wf_markov.c:163-177 | On non-negative weights the draws that pick a node are exactly the interval between its rotated cumulative weights, as long as its weight. |
| Markov.DrawsAreShares | includes/wf_markov.c:164-177 | The drand48 results that lead from a node to another form an interval as long as the weight of the edge over 100. |
| Markov.PickIsUnique | includes/wf_markov.c:167-177 | Every draw picks at most one node. |
| Markov.StepStaysInside | includes/wf_markov.c:163-177 | A set of first nodes without edges to the others is never left. |
| Markov.NewNodesAreUnreachable | man/libvdeplug_wirefilter.1.md:104 | After a grow, no sequence of steps from an old node enters a new one. |
| Markov.EveryRunIsSound | includes/wf_markov.c:44-195 | Over every run of in-range setedge, resize, set-node and step commands all rows add up to 100 and the current node exists. |
| Markov.LoopbackIsTheRest | includes/wf_markov.c:32-38 | A loopback is 100 minus the other edges, so it is non-negative if and only if they do not exceed 100. |
| Markov.MarkovChain.constructor | includes/wf_markov.c:14-22 | A new chain is balanced, has at least one node, only loopbacks of 100 and zero values; it is valid if and only if the start node, stored unchecked, is in range. |
| Markov.MarkovChain.RebalanceNode | includes/wf_markov.c:32-38 | The row of the node adds up to 100 and no other cell changes. |
| Markov.MarkovChain.SetEdge | includes/wf_markov.c:52-54 | One cell, the one the source computes, gets the weight; then only the loopback of the start node changes, to balance its row. A valid chain stays valid if and only if the end node is in range or nothing changed; in range it is a step of the runs of commands. |
| Markov.MarkovChain.EdgeIndex | includes/wf_markov.c:36 | The rotated index is inside the matrix and differs from the loopback's. |
| Markov.MarkovChain.CopyRow | includes/wf_markov.c:103-114 | The copied row has the surviving weights at the new stride, adds up to 100, and no other row changes. |
| Markov.MarkovChain.CopyAdjacency | includes/wf_markov.c:101-116 | The new map is the resized chain, uniquely determined by its specification. |
| Markov.MarkovChain.Resize | includes/wf_markov.c:121-159 | Matrix resized, surviving nodes keep their values, new ones are zero, a deleted current node becomes node 0; the same size changes nothing. A valid chain stays valid, by a step of the runs of commands. |
| Markov.MarkovChain.SetCurrentNode | includes/wf_management.c:215-219 | Any node is stored; the chain stays valid if and only if it is in range, and then takes a step of the runs of commands. |
| Markov.MarkovChain.ChangeState | includes/wf_markov.c:163-195 | The next node is the one the draw picks along the row of the current node; the chain stays valid, by a step of the runs of commands. |
| Markov.MarkovChain.DrawEdge | includes/wf_markov.c:167-177 | The loop returns the first node, counting round from the start, whose cumulative weight reaches the draw, or the last. |
| HandOff.OneSlotStep | libvdeplug_wirefilter.c:475-484 | Every step of either thread keeps lock and pipe a one-slot channel: at most one frame, and whoever touches it holds the lock. |
| HandOff.EveryInterleaving | libvdeplug_wirefilter.c:206-211 | This holds in every state of every interleaving. |
| HandOff.FramesArriveWholeAndInOrder | libvdeplug_wirefilter.c:206-214 | Frames received are a prefix of frames handed over, at most one behind, boundaries intact; a non-empty pipe holds exactly the missing frame and implies the lock. |
| HandOff.TracedStep | libvdeplug_wirefilter.c:475-484 | Every step keeps: what was handed over, then the frame the handler still holds, is what `sendPacket` was called with, until a write fails. |
| HandOff.ReceivedIsPrefixOfAsked | libvdeplug_wirefilter.c:206-214 | In every interleaving the frames received are the first frames `sendPacket` was called with, byte for byte; while no write has failed, all of them are received, under way, or still held. |
| HandOff.NothingJoinsAFrame | libvdeplug_wirefilter.c:480-482 | When the handler writes, the pipe is empty and everything before has been received. |
| HandOff.StuckExactlyAfterFailedWrite | libvdeplug_wirefilter.c:480-483 | While the handler wants to send, one of the threads can move if and only if no write has failed. |
| HandOff.FailedWriteEndsTheChannel | libvdeplug_wirefilter.c:482-483 | After a failed write nothing is handed over or received any more. |
| Connections.SurvivorsAreTheConnected | libvdeplug_wirefilter.c:411-422 | A session survives a pass if and only if it is one whose connection did not hang up. |
| Connections.ShiftedWatches | libvdeplug_wirefilter.c:415-417 | Shifting the poll slots down keeps slots and connections in step, and the hang-up flags with their slots. |
| Connections.Management.constructor | libvdeplug_wirefilter.c:296-307 | No connections; every slot watches nothing. |
| Connections.Management.Accept | libvdeplug_wirefilter.c:394-401 | A session with debug level 0 is appended if accepted, greeted and not full; slots still match connections if and only if none was recorded for descriptor 0. |
| Connections.Management.CloseConnection | includes/wf_management.c:90-104 | Both parallel arrays lose exactly the entry of the connection. |
| Connections.Management.Remove | libvdeplug_wirefilter.c:412-420 | Arrays, debug levels, poll slots and flags all lose the same entry. |
| Connections.Management.ShiftSlots | libvdeplug_wirefilter.c:415-417 | The slots behind move down by one and the last used one is cleared. |
| Connections.Management.Visit | libvdeplug_wirefilter.c:411-421 | One turn of the loop with its `i--` looks at each session exactly once. |
| Connections.Management.HangUpPass | libvdeplug_wirefilter.c:410-422 | Whatever subset hangs up at once, exactly the others keep their session, debug level and slot, in order. |
| WireParser.ParsePrinted | includes/wf_markov.c:198-255 | Parsing any printed value, with optional variation, multiplier (on the value only), algorithm and node, negative or not, and any blanks around it, recovers all fields. |
| WireParser.MultipliersArePowers | includes/wf_markov.c:236-248 | The multipliers are 1024, 1024^2 and 1024^3, in either case of the letter. |
| WireParser.ManualExample | man/libvdeplug_wirefilter.1.md:102 | The manual's example: 100, more or less 10, normal, for node 4. |
| WireParser.KiloExample | includes/wf_markov.c:235-252 | 64k is 65536. |
| WireParser.NoNumberFails | includes/wf_markov.c:251 | A value that does not start with a number does not parse, whatever follows. |
| WireParser.UnopenedBracketFails | includes/wf_markov.c:211-214 | A value that ends in a closing bracket without an opening one does not parse. |
| WireParser.EffectOfPrinted | includes/wf_markov.c:280-292 | A direction in front of a printed value is read back in any capitalisation, and overridden when the option is bidirectional. |
| WireParser.CellsAfter | includes/wf_markov.c:267-316 | Every (node, tag, direction) cell holds what the last word reaching it wrote before the first out-of-range node, and all others are as before. |
| WireParser.WordsOfJoined | includes/wf_markov.c:275-315 | Words separated by a space and any further blanks, with blanks in front and behind, are read back as the same words. |
| WireParser.ParseWireValueString | includes/wf_markov.c:198-255 | The in-place parser, cutting from the end, computes the specified parse or fails exactly where that fails. |
| WireParser.TrimLoop | includes/wf_markov.c:208 | Trailing blanks are cut, but never the first character. |
| WireParser.CutNodeLoop | includes/wf_markov.c:211-219 | The backward search finds the last opening bracket or fails. |
| WireParser.CutAlgorithmStep | includes/wf_markov.c:222-233 | One trailing letter selects the distribution and is cut. |
| WireParser.UpdatedCells | includes/wf_markov.c:257-309 | A word writes the cells of its node, tag and direction or directions; every other cell, of other nodes, tags and directions, keeps its value. |
| WireParser.ApplyWord | includes/wf_markov.c:302-309 | A word in range writes its one or two cells and nothing else; out of range it writes nothing. |
| WireParser.SetWireValue | includes/wf_markov.c:267-316 | The loop equals a left fold of single-word updates that stops at the first out-of-range node. |
| Handlers.AcceptedCopiesArePrefix | libvdeplug_wirefilter.c:436-442 | The accepted copies of a packet are a prefix of its 1 + duplicates copies, ended only by the first refused one. |
| Handlers.SizedNodesCheck | libvdeplug_wirefilter.c:547-557 | On a node with a positive size of uniform or no variation, handling a packet adds only offers checked against at most the largest value + plus. |
| Handlers.MtuIsStrictest | libvdeplug_wirefilter.c:490-497 | With a variation of the MTU, a packet is dropped if and only if it is longer than some MTU the variation allows. |
| Handlers.DelayStaysInRange | libvdeplug_wirefilter.c:604-616 | The added delay is never negative, at least the least configured one, and at most the greatest one unless it is 0. |
| Handlers.SpeedFromCell | libvdeplug_wirefilter.c:584-602 | The speed handler sees the rate its cell gives for the draw; with no speed set it books nothing and adds nothing. |
| Handlers.BandwidthFromCell | libvdeplug_wirefilter.c:559-582 | The bandwidth handler sees the rate its cell gives for the draw, not its maximum; with no bandwidth set it books nothing and adds nothing. |
| Handlers.DelayFromCell | libvdeplug_wirefilter.c:604-616 | The added delay is what the cell gives for the draw, if the cell is set and that is positive, and otherwise 0. |
| Handlers.DelaysAreSummed | libvdeplug_wirefilter.c:444-446 | The delay is the sum of the three; each rate handler changes only its own field, and only for the direction of the packet. |
| Handlers.RefusedFromCell | libvdeplug_wirefilter.c:547-557 | A copy is refused if and only if its cell is set and the bytes queued, modulo 2^32, and its own exceed what the cell gives for the draw. |
| Handlers.CopyArmsTimer | libvdeplug_wirefilter.c:450-456 | A copy that waits arms the timer at its last clock reading for the earliest copy; one that does not leaves timer and queue alone and goes out at its clock reading. |
| Handlers.TooLongFromCell | libvdeplug_wirefilter.c:490-497 | A packet is too long if and only if the least value of its cell is positive and the packet is longer. |
| Handlers.PlainLossInterval | libvdeplug_wirefilter.c:523-530 | Without bursts and with a constant loss, the draws that lose a packet are the interval from 0 to loss / 100 within [0, 1), and the burst status is reset unless the loss is total. |
| Handlers.LossFromCells | libvdeplug_wirefilter.c:499-533 | Verdict and status in all cases in terms of the cells: total loss by the least value, plain loss by what the cell gives for the draw, and otherwise a step of the two-state chain with loss / 100. |
| Handlers.BurstLossInterval | libvdeplug_wirefilter.c:503-521 | With bursts and a constant loss below 100, the draws that lose a packet are those of the two-state chain. |
| Handlers.DuplicatesFromCell | libvdeplug_wirefilter.c:539 | A draw duplicates if and only if it lies below what the cell gives, over 100. |
| Handlers.DuplicatesAreCounted | libvdeplug_wirefilter.c:535-545 | A packet is duplicated n times if and only if n draws in a row duplicate and the next does not; never if nothing is set. |
| Handlers.SendTimesExactly | libvdeplug_wirefilter.c:432-436 | A packet neither too long nor lost is sent 1 + duplicates times, any other not at all. |
| Handlers.StatusIsKept | libvdeplug_wirefilter.c:432-433 | The loss status of a direction changes only with its own packets, and not with those that are too long. |
| LinkRuns.StepsLead | libvdeplug_wirefilter.c:431-458 | Runs with nodes, randomness and clock readings are runs of the machine, so all its theorems apply to them. |
| LinkRuns.DeparturesAreBooked | libvdeplug_wirefilter.c:366-370 | Every copy that has left is an accepted copy of its direction with its length, and left no sooner than it asked to. |
| LinkRuns.FieldsAreFinishTimes | libvdeplug_wirefilter.c:559-602 | Over every run, whatever the rates and their variation, bandwidth_next and speed_next of a direction are the finish times of single servers for its accepted copies, each at the rate its cell gives for its draw. |
| LinkRuns.BookingLiesAhead | libvdeplug_wirefilter.c:451 | A copy asks for the time that lies its whole delay after its clock reading, to the nanosecond. |
| LinkRuns.CopiesAskForFinish | libvdeplug_wirefilter.c:569-577 | In every run, at any rates, a copy with a bandwidth asks to leave no more than 1 ms before the line has finished it, whatever speed and delay add. |
| LinkRuns.CopiesAskForNoMore | libvdeplug_wirefilter.c:569-577 | With only a bandwidth set, it asks for no later time than that either, but for what passed between the readings of handler and queue. |
| LinkRuns.CopiesAskForDelay | libvdeplug_wirefilter.c:604-616 | With only a constant delay set, fractional or not, every copy asks for exactly that long after its clock reading, to the nanosecond. |
| LinkRuns.NothingBeatsTheLine | libvdeplug_wirefilter.c:362-376 | So no copy leaves more than 1 ms before the line, a single server in order of arrival, has finished it; at any rates, in either mode, after any number of packets. |
| LinkRuns.DepartedBytesFit | libvdeplug_wirefilter.c:362-376 | At a constant bandwidth, throughput of what has left: copies after one unfinished at the start of a window, up to one that has left by its end, carry at most the bytes of the window and 1 ms, but for 1 ns per copy. |
| LinkRuns.LeavesNoSoonerThanDelay | libvdeplug_wirefilter.c:604-616 | While at least a number of milliseconds of delay is configured, no copy leaves before that time has passed since it was queued. |
| LinkRuns.NothingLongerLeaves | libvdeplug_wirefilter.c:490-497 | While every node in force limits the MTU of a direction, no longer packet of it leaves. |
| LinkRuns.SizedLinkNeverOverfull | libvdeplug_wirefilter.c:547-557 | While every node in force has a positive size of uniform or no variation, no direction ever has more bytes queued than the largest value + plus, node changes and duplicates included. |
| PacketRuns.TransparentLinkIsAWire | libvdeplug_wirefilter.c:431-458 | Over every run, a link on which nothing is configured sends every packet exactly once, in order, with its length and direction, at its own clock reading; whatever the draws, timers and mode changes. |
| PacketRuns.TotalLossPassesNothing | libvdeplug_wirefilter.c:501 | Over every run, while every node in force has a loss of at least 100, nothing is queued and nothing leaves. |
| EventLoop.Wirefilter.constructor | includes/wf_queue.c:12-25 | The object starts at the initial state of the machine. |
| EventLoop.Wirefilter.SetFifo | includes/wf_management.c:203-207 | FIFO is on exactly for arguments that a signed char stores as 1, such as 1 and 257; the run gains that step. |
| EventLoop.Wirefilter.SentInOrder | libvdeplug_wirefilter.c:431-458 | With FIFO on throughout and no overtaking, the i-th packet the object has sent is copy i, and the queue holds the following copies in key order. |
| EventLoop.Wirefilter.ShortQueueSentInOrder | libvdeplug_wirefilter.c:431-458 | The same for runs of any length without negative delays while fewer than 2^32 - 1 copies wait. |
| EventLoop.Wirefilter.CountersStayBounded | libvdeplug_wirefilter.c:551 | The byte counters of the object are exact and within any limit below 2^32 that every copy was checked against. |
| EventLoop.Wirefilter.CountersStayWithinSizes | libvdeplug_wirefilter.c:547-557 | While every node in force limits the buffer, the byte counters of the object are exact and at most the largest value + plus. |
| EventLoop.Wirefilter.FieldsFinishLines | libvdeplug_wirefilter.c:559-602 | The rate fields of the object are the finish times of single servers for the accepted copies of their direction. |
| EventLoop.Wirefilter.SetQueueTimer | includes/wf_queue.c:152-157 | The timer is armed for the head time, or 1 ns after the clock reading if that has passed. |
| EventLoop.Wirefilter.BufferSizeHandler | libvdeplug_wirefilter.c:547-557 | A copy is refused if and only if there is a limit and queued bytes plus its length exceed the computed size. |
| EventLoop.Wirefilter.SpeedHandler | libvdeplug_wirefilter.c:584-602 | New speed_next and delay as in the rate theorems; a computed rate that is not positive gives -1 ms and charges nothing. |
| EventLoop.Wirefilter.BandwidthHandler | libvdeplug_wirefilter.c:559-582 | New bandwidth_next and delay as in the rate theorems; a computed rate that is not positive gives -1 ms and charges nothing. |
| EventLoop.Wirefilter.LossHandler | libvdeplug_wirefilter.c:499-533 | Verdict and new burst status in every branch: total loss, Gilbert model, plain loss. |
| EventLoop.Wirefilter.BurstyLossHandler | libvdeplug_wirefilter.c:508-521 | The Gilbert branch is one step of the chain of the loss theorems. |
| EventLoop.Wirefilter.DuplicatesHandler | libvdeplug_wirefilter.c:535-545 | The number of draws that duplicate before the first that does not. |
| EventLoop.Wirefilter.SendPacket | libvdeplug_wirefilter.c:462-487 | The packet is appended to what has been sent. |
| EventLoop.Wirefilter.EnqueueCopy | libvdeplug_wirefilter.c:451-452 | The queue gains the node of the copy and the timer is armed for the new head. |
| EventLoop.Wirefilter.Route | libvdeplug_wirefilter.c:450-456 | Queued if delayed, or if FIFO and the queue is not empty; otherwise sent at once: the accepting step of the machine. |
| EventLoop.Wirefilter.HandleCopy | libvdeplug_wirefilter.c:438-456 | One turn of the copy loop is one step of the machine, refusal included. |
| EventLoop.Wirefilter.HandleCopies | libvdeplug_wirefilter.c:438-457 | The loop offers the copies in turn up to the first refused one; the run gains exactly those offers, with their node and draws. |
| EventLoop.Wirefilter.HandlePacket | libvdeplug_wirefilter.c:431-458 | Nothing for a packet dropped by MTU or loss; otherwise the offers of 1 + duplicates copies; queue, rate fields and loss status afterwards are those of one packet of the runs of packets. |
| EventLoop.Wirefilter.HeadIsDue | libvdeplug_wirefilter.c:367 | The loop test is whether the least stored time lies strictly before the clock reading. |
| EventLoop.Wirefilter.ReleaseHead | libvdeplug_wirefilter.c:368-369 | One turn of the drain loop is one release step of the machine. |
| EventLoop.Wirefilter.QueueTimerFires | libvdeplug_wirefilter.c:362-376 | The branch is a firing, releases only, and a re-arming; what stays is exactly what is not due at the last clock reading, and something leaves if the head was due then. |

## Left out

- Queue.DelayQueue.Enqueue: the write past the allocation goes to a spare slot, because Dafny arrays have no memory behind them; when it happens is stated exactly.
- Queue.DelayQueue.Resize: keeps a node written to the spare slot, which `realloc` of the source does not promise.
- Markov.MarkovChain.Resize: counts below 1, for which the source frees its nodes and keeps the count, leave no chain to describe.
- Markov.MarkovChain.SetCurrentNode: later steps from a node out of range read outside the matrix and are not modelled.
- Overtaking.ShortRunsNeverOvertake: bounds the whole run, because it allows negative delays; ShortQueues.ShortQueuesNeverOvertake bounds only what waits at once.
- ShortQueues.NegativeDelaysBreakFifo: lets the clock stand still for 2^32 packets; the source could only do this within 2 ms.
- Rates.KeepsRateExactlyWithoutFractions: is about exact arithmetic; near present-day timestamps a `double` moves in steps of 256 ns.
- LinkRuns.NothingBeatsTheLine: asks that no rate handler returns DROP, that is a delay of -1 ms, for a copy of the direction.
- LinkRuns.CopiesAskForFinish: asks the same.
- LinkRuns.LeavesNoSoonerThanDelay: asks the same.
- Rates.ThroughputBound: allows 1 ns per packet, because the source truncates; the plain bound has its exact condition in Rates.KeepsRateExactlyWithoutFractions.
- DeliveryRuns.EveryRunInOrder: asks for runs without overtaking; Overtaking.OrderSafeExactlyWithoutOvertaking shows that this is the exact condition, and ShortQueues.ShortQueuesNeverOvertake when it holds.
- DeliveryRuns.FifoRefinesList: asks for runs without overtaking, for the same reason.
- DeliveryRuns.TogglingKeepsFifoOrder: asks for runs without overtaking, for the same reason.
- EventLoop.Wirefilter.SentInOrder: asks for runs without overtaking, for the same reason.
- DeliveryRuns.BufferNeverOverfull: asks for a limit below 2^32; DeliveryRuns.LimitHoldsExactlyBelowCounterRange shows that this is the exact condition.
- SpeedGate.SenderKeepsSpeed: takes the computed speed of each copy as an argument of the step, and allows 1 ns per copy, because the source truncates.
- Markov.MarkovChain.SetEdge: starts from the three parsed numbers, and from a start node in range, without which Markov.SetEdgeStaysInMatrixExactly shows that the source writes outside its memory; the scanning of a list of edges is not modelled.
- EventLoop.Wirefilter.SendPacket: one atomic step that cannot fail; the right-to-left side of it is modelled in HandOff.
- WireParser.ParsePrinted: decimal fractions, exponents and signs that `%lf` also reads are not modelled, because the manual's values are printed as decimal naturals.
- Clocks that go back: the source reads the time of day, which may.
- Floating-point rounding: all arithmetic on `double` is exact.
- `noiseHandler`: changes payload only, and its index can pass the end of the buffer.
- Packet payload, flags and the memory of packets: a copy is its number, length and direction.
- The usleep of the left-to-right sender on `speed_next`: an unsynchronised read from another thread.
- Sockets, pipes, timerfd and poll as system calls: only their abstract state is kept.
- The command table, show and help output, node names, blink messages, logging, pid file, opening and closing: input and output without a hard property.
- The rejection loop for Gaussian samples: its termination is only probabilistic.
- Several receivers at once on the receive pipe: the hand-off is modelled for one.

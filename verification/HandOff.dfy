/**
 The hand-off of right-to-left frames between two threads: the handler in `sendPacket`
 (libvdeplug_wirefilter.c:475-484) and a single caller of `vde_wirefilter_recv` (194-221).

 `receive_lock` is a mutex that one thread locks and the other unlocks, so it is modelled as a
 binary semaphore; the pipe is a stream of bytes without frame boundaries. Steps of the two
 threads interleave in any order; a step is possible only when its thread is at that point and
 the lock or the pipe lets it go on.
 */
module HandOff {

  type Frame = seq<bv8>

  datatype HandlerAt = Free | Locking(frame: Frame) | Writing(frame: Frame)

  datatype ReceiverAt = Polling | Reading | Unlocking(bytes: seq<bv8>)

  datatype State = State(
    handler: HandlerAt,
    receiver: ReceiverAt,
    locked: bool,
    pipe: seq<bv8>,
    handed: seq<Frame>,    // frames written to the pipe, in the order of `sendPacket` calls
    received: seq<Frame>,  // results of `vde_wirefilter_recv`
    failed: nat)           // writes that failed

  datatype Event =
    | SendPacket(frame: Frame)  // the handler reaches the lock
    | Lock
    | Write
    | WriteFails
    | Poll                      // poll reports POLLIN on the pipe
    | Read                      // read() into a buffer of VDE_ETHBUFSIZE bytes
    | Unlock

  const INITIAL := State(Free, Polling, false, [], [], [], 0)

  function Min(a: nat, b: nat): nat {
    if a < b then a else b
  }

  /** `bufSize` is VDE_ETHBUFSIZE; the RL branch only accepts frames of 2 .. bufSize bytes. */
  predicate Enabled(s: State, e: Event, bufSize: nat) {
    match e
    case SendPacket(frame) => s.handler == Free && 1 < |frame| <= bufSize
    case Lock => s.handler.Locking? && !s.locked
    case Write => s.handler.Writing?
    case WriteFails => s.handler.Writing?
    case Poll => s.receiver == Polling && s.pipe != []
    case Read => s.receiver == Reading && s.pipe != []
    case Unlock => s.receiver.Unlocking?
  }

  function Step(s: State, e: Event, bufSize: nat): State
    requires Enabled(s, e, bufSize)
  {
    match e
    case SendPacket(frame) => s.(handler := Locking(frame))
    case Lock => s.(handler := Writing(s.handler.frame), locked := true)
    case Write => s.(handler := Free, pipe := s.pipe + s.handler.frame, handed := s.handed + [s.handler.frame])
    case WriteFails => s.(handler := Free, failed := s.failed + 1)
    case Poll => s.(receiver := Reading)
    case Read =>
      var n := Min(bufSize, |s.pipe|);
      s.(receiver := Unlocking(s.pipe[..n]), pipe := s.pipe[n..])
    case Unlock => s.(receiver := Polling, locked := false, received := s.received + [s.receiver.bytes])
  }

  ghost predicate Run(states: seq<State>, events: seq<Event>, bufSize: nat) {
    && |states| == |events| + 1 && states[0] == INITIAL
    && forall i :: 0 <= i < |events| ==> Enabled(states[i], events[i], bufSize) && states[i + 1] == Step(states[i], events[i], bufSize)
  }

  /** The frame handed over last, until the receiver has returned it: in the pipe, or read and about to be returned. */
  function InFlight(s: State): seq<Frame> {
    if s.pipe != [] then [s.pipe]
    else if s.receiver.Unlocking? then [s.receiver.bytes]
    else []
  }

  /** The lock and the pipe are one slot. */
  ghost predicate OneSlot(s: State, bufSize: nat) {
    && s.handed == s.received + InFlight(s)
    && (s.handler.Locking? || s.handler.Writing? ==> 1 < |s.handler.frame| <= bufSize)
    && |s.pipe| <= bufSize
    // whoever may touch the slot holds the lock, and only one side may
    && (s.handler.Writing? ==> s.locked && s.pipe == [] && s.receiver == Polling && s.failed == 0)
    && (s.pipe != [] ==> s.locked && !s.receiver.Unlocking? && s.failed == 0)
    && (s.receiver == Reading ==> s.pipe != [])
    && (s.receiver.Unlocking? ==> s.locked && s.pipe == [] && s.failed == 0)
    // a failed write leaves the lock held for ever
    && (s.failed > 0 ==> s.locked && s.failed == 1)
    && (s.locked ==> s.handler.Writing? || s.pipe != [] || s.receiver.Unlocking? || s.failed > 0)
  }

  lemma OneSlotStep(s: State, e: Event, bufSize: nat)
    requires OneSlot(s, bufSize) && Enabled(s, e, bufSize)
    ensures OneSlot(Step(s, e, bufSize), bufSize)
  {
    var t := Step(s, e, bufSize);
    match e
    case Write => assert t.pipe == s.handler.frame;
    case Read => assert s.pipe[..|s.pipe|] == s.pipe && t.pipe == [];
    case _ =>
  }

  lemma {:induction false} EveryInterleaving(states: seq<State>, events: seq<Event>, bufSize: nat, i: nat)
    requires Run(states, events, bufSize) && i < |states|
    ensures OneSlot(states[i], bufSize)
  {
    if i > 0 {
      EveryInterleaving(states, events, bufSize, i - 1);
      OneSlotStep(states[i - 1], events[i - 1], bufSize);
      assert states[i - 1 + 1] == Step(states[i - 1], events[i - 1], bufSize);
    }
  }

  /**
   In every interleaving the frames received are the first frames handed over, whole and in order;
   at most one more is under way, and while it is, the lock is held.
   */
  lemma FramesArriveWholeAndInOrder(states: seq<State>, events: seq<Event>, bufSize: nat, i: nat)
    requires Run(states, events, bufSize) && i < |states|
    ensures states[i].received <= states[i].handed && |states[i].handed| <= |states[i].received| + 1
    ensures states[i].pipe != [] ==> states[i].locked && states[i].handed == states[i].received + [states[i].pipe]
  {
    EveryInterleaving(states, events, bufSize, i);
  }

  // ---------- The frames the handler was asked to send ----------

  /** The frames given to `sendPacket`, in order. */
  function Asked(events: seq<Event>): seq<Frame> {
    if events == [] then []
    else
      var e := events[|events| - 1];
      Asked(events[..|events| - 1]) + if e.SendPacket? then [e.frame] else []
  }

  /** The frame `sendPacket` has not written yet. */
  function Held(s: State): seq<Frame> {
    if s.handler == Free then [] else [s.handler.frame]
  }

  ghost predicate Traced(s: State, asked: seq<Frame>) {
    && s.handed <= asked
    && (s.failed == 0 ==> asked == s.handed + Held(s))
  }

  lemma TracedStep(s: State, e: Event, bufSize: nat, asked: seq<Frame>)
    requires OneSlot(s, bufSize) && Enabled(s, e, bufSize) && Traced(s, asked)
    ensures Traced(Step(s, e, bufSize), asked + if e.SendPacket? then [e.frame] else [])
  {
  }

  lemma {:induction false} EveryFrameIsTraced(states: seq<State>, events: seq<Event>, bufSize: nat, i: nat)
    requires Run(states, events, bufSize) && i < |states|
    ensures Traced(states[i], Asked(events[..i]))
  {
    if i > 0 {
      EveryFrameIsTraced(states, events, bufSize, i - 1);
      EveryInterleaving(states, events, bufSize, i - 1);
      TracedStep(states[i - 1], events[i - 1], bufSize, Asked(events[..i - 1]));
      assert events[..i][..i - 1] == events[..i - 1] && events[..i][i - 1] == events[i - 1];
      assert states[i - 1 + 1] == Step(states[i - 1], events[i - 1], bufSize);
    }
  }

  /** In every interleaving the frames received are the first ones `sendPacket` was called with, byte for byte. */
  lemma ReceivedIsPrefixOfAsked(states: seq<State>, events: seq<Event>, bufSize: nat, i: nat)
    requires Run(states, events, bufSize) && i < |states|
    ensures states[i].received <= Asked(events[..i])
    ensures states[i].failed == 0 ==> Asked(events[..i]) == states[i].received + InFlight(states[i]) + Held(states[i])
  {
    EveryFrameIsTraced(states, events, bufSize, i);
    EveryInterleaving(states, events, bufSize, i);
  }

  /** No step of the handler can ever put a second frame behind an unread one. */
  lemma NothingJoinsAFrame(states: seq<State>, events: seq<Event>, bufSize: nat, i: nat)
    requires Run(states, events, bufSize) && i < |events| && events[i] == Write
    ensures states[i].pipe == [] && states[i].received == states[i].handed
  {
    EveryInterleaving(states, events, bufSize, i);
  }

  // ---------- Liveness ----------

  predicate CanMove(s: State, bufSize: nat) {
    Enabled(s, Lock, bufSize) || Enabled(s, Write, bufSize) || Enabled(s, Poll, bufSize)
    || Enabled(s, Read, bufSize) || Enabled(s, Unlock, bufSize)
  }

  /** While the handler wants to send, somebody can move, unless a write has failed before: then nobody ever can. */
  lemma StuckExactlyAfterFailedWrite(states: seq<State>, events: seq<Event>, bufSize: nat, i: nat)
    requires Run(states, events, bufSize) && i < |states| && states[i].handler != Free
    ensures CanMove(states[i], bufSize) <==> states[i].failed == 0
  {
    EveryInterleaving(states, events, bufSize, i);
  }

  /** After a failed write nothing is handed over or received any more. */
  lemma {:induction false} FailedWriteEndsTheChannel(states: seq<State>, events: seq<Event>, bufSize: nat, i: nat, j: nat)
    requires Run(states, events, bufSize) && i <= j < |states| && states[i].failed > 0
    ensures states[j].failed > 0 && states[j].handed == states[i].handed && states[j].received == states[i].received
  {
    if i < j {
      FailedWriteEndsTheChannel(states, events, bufSize, i, j - 1);
      EveryInterleaving(states, events, bufSize, j - 1);
      assert states[j - 1 + 1] == Step(states[j - 1], events[j - 1], bufSize);
    }
  }
}

/**
 Runs of the handler thread packet by packet, with the randomness of the MTU, loss and duplication
 checks, which the runs of `LinkRuns` start behind.
 */
module PacketRuns {
  import opened Packets
  import opened WireValues
  import opened Queue
  import opened Delivery
  import opened Handlers
  import GilbertLoss
  import Rates

  datatype Move = Packet(node: MarkovNode, frame: Frame, input: PacketInput) | Other(step: Event)

  function Initially(fifo: bool): Link {
    Link(View(Initial(fifo), RateState(PerDirection(0, 0), PerDirection(0, 0))), PerDirection(GilbertLoss.Ok, GilbertLoss.Ok))
  }

  /** There are draws for every copy. */
  predicate Supplied(l: Link, m: Move) {
    m.Packet? ==> SendTimes(m.node, m.frame, l.status.Get(m.frame.direction), m.input) <= |m.input.copies|
  }

  function Moved(l: Link, m: Move): Link
    requires Supplied(l, m)
  {
    match m
    case Packet(node, frame, input) => AfterPacket(l, node, frame, input)
    case Other(step) => l.(view := l.view.(delivery := Step(l.view.delivery, step)))
  }

  function AfterMoves(fifo: bool, moves: seq<Move>): Link {
    if moves == [] then Initially(fifo)
    else
      var before, m := AfterMoves(fifo, moves[..|moves| - 1]), moves[|moves| - 1];
      if Supplied(before, m) then Moved(before, m) else before
  }

  /** The other steps are no offers, and every packet has draws for its loss check and for one copy. */
  ghost predicate Proper(moves: seq<Move>) {
    forall i :: 0 <= i < |moves| ==>
      if moves[i].Packet? then 0.0 <= moves[i].input.loss.draw < 1.0 && moves[i].input.copies != [] else !moves[i].step.Offer?
  }

  function Frames(moves: seq<Move>): nat {
    if moves == [] then 0 else Frames(moves[..|moves| - 1]) + if moves[|moves| - 1].Packet? then 1 else 0
  }

  // ---------- A link that does nothing ----------

  /** No cell of the direction asks for anything. */
  predicate Transparent(node: MarkovNode, d: Direction) {
    var loss, burst, mtu, dup := node[LOSS].Get(d), node[BURSTYLOSS].Get(d), node[MTU].Get(d), node[DUP].Get(d);
    var size, delay, speed, bandwidth := node[CHANBUFSIZE].Get(d), node[DELAY].Get(d), node[SPEED].Get(d), node[BANDWIDTH].Get(d);
    && loss.value == 0.0 && loss.plus == 0.0 && burst.value + burst.plus <= 0.0
    && mtu.value - mtu.plus <= 0.0 && dup.value + dup.plus <= 0.0 && size.value + size.plus == 0.0
    && delay.value + delay.plus <= 0.0 && speed.value + speed.plus <= 0.0 && bandwidth.value + bandwidth.plus <= 0.0
  }

  lemma TransparentSendsOnce(node: MarkovNode, frame: Frame, status: GilbertLoss.Burst, input: PacketInput)
    requires Transparent(node, frame.direction) && 0.0 <= input.loss.draw < 1.0
    ensures SendTimes(node, frame, status, input) == 1
  {
    TooLongFromCell(node, frame);
    PlainLossInterval(node, frame.direction, status, input.loss);
  }

  lemma TransparentOffer(v: View, node: MarkovNode, frame: Frame, c: CopyInput)
    requires Transparent(node, frame.direction)
    ensures var e := OfferOf(v, node, frame, c);
            !Refused(v.delivery, e) && e.delayMs == 0.0 && e.now == c.now && e.len == frame.len && e.direction == frame.direction
  {
    var d := frame.direction;
    RefusedFromCell(v, node, frame, c);
    DelaysAreSummed(v.rates, node, frame, c, d);
    SpeedFromCell(node, v.rates.speedNext.Get(d), frame, c);
    BandwidthFromCell(node, v.rates.bandwidthNext.Get(d), frame, c);
  }

  /** A packet that has left, and when. */
  datatype Passage = Passage(packet: Packets.Packet, at: nat)

  function Passages(sent: seq<Departure>): (r: seq<Passage>)
    ensures |r| == |sent|
  {
    seq(|sent|, i requires 0 <= i < |sent| => Passage(sent[i].ticket.packet, sent[i].at))
  }

  /** Every packet once, in the order of arrival, at its own clock reading. */
  function Straight(moves: seq<Move>): seq<Passage> {
    if moves == [] then []
    else
      var before, m := moves[..|moves| - 1], moves[|moves| - 1];
      Straight(before) +
      if m.Packet? && m.input.copies != []
      then [Passage(Packets.Packet(Frames(before), m.frame.len, m.frame.direction), m.input.copies[0].now)]
      else []
  }

  ghost predicate PassedStraight(s: State, moves: seq<Move>) {
    s.waiting == [] && |s.accepted| == Frames(moves) && Passages(s.sent) == Straight(moves)
  }

  lemma TransparentPacket(l: Link, node: MarkovNode, frame: Frame, input: PacketInput)
    requires Transparent(node, frame.direction) && 0.0 <= input.loss.draw < 1.0 && input.copies != []
    requires l.view.delivery.waiting == []
    ensures SendTimes(node, frame, l.status.Get(frame.direction), input) == 1
    ensures var s, r := l.view.delivery, AfterPacket(l, node, frame, input).view.delivery;
            && r.waiting == [] && |r.accepted| == |s.accepted| + 1
            && Passages(r.sent) == Passages(s.sent) + [Passage(Packets.Packet(|s.accepted|, frame.len, frame.direction), input.copies[0].now)]
  {
    var c := input.copies[0];
    TransparentSendsOnce(node, frame, l.status.Get(frame.direction), input);
    TransparentOffer(l.view, node, frame, c);
    var e := OfferOf(l.view, node, frame, c);
    AcceptedLeavesOrWaits(l.view.delivery, e);
    assert input.copies[..1][0] == c && input.copies[..1][1..] == [];
    assert AfterCopies(l.view, node, frame, input.copies[..1]).delivery == Step(l.view.delivery, e);
  }

  lemma OtherStepMovesNothing(s: State, e: Event)
    requires s.waiting == [] && !e.Offer?
    ensures Step(s, e).waiting == [] && Step(s, e).accepted == s.accepted && Step(s, e).sent == s.sent
  {
  }

  /**
   A link on which nothing is configured is a wire: every packet passes exactly once, in the order of
   arrival, with its length and direction, at its own clock reading; whatever the draws, the timers and the
   mode changes.
   */
  lemma {:induction false} TransparentLinkIsAWire(fifo: bool, moves: seq<Move>)
    requires Proper(moves)
    requires forall i :: 0 <= i < |moves| && moves[i].Packet? ==> Transparent(moves[i].node, moves[i].frame.direction)
    ensures PassedStraight(AfterMoves(fifo, moves).view.delivery, moves)
  {
    if moves != [] {
      var before, m := moves[..|moves| - 1], moves[|moves| - 1];
      var l := AfterMoves(fifo, before);
      TransparentLinkIsAWire(fifo, before);
      if m.Packet? {
        TransparentPacket(l, m.node, m.frame, m.input);
      } else {
        OtherStepMovesNothing(l.view.delivery, m.step);
      }
    }
  }

  // ---------- A link that loses everything ----------

  /** Where every node in force has a loss of at least 100 for every packet, nothing is accepted and nothing leaves. */
  lemma {:induction false} TotalLossPassesNothing(fifo: bool, moves: seq<Move>)
    requires Proper(moves)
    requires forall i :: 0 <= i < |moves| && moves[i].Packet? ==>
               var loss := moves[i].node[LOSS].Get(moves[i].frame.direction); loss.value - loss.plus >= 100.0
    ensures var s := AfterMoves(fifo, moves).view.delivery; s.waiting == [] && s.accepted == [] && s.sent == []
  {
    if moves != [] {
      var before, m := moves[..|moves| - 1], moves[|moves| - 1];
      var l := AfterMoves(fifo, before);
      TotalLossPassesNothing(fifo, before);
      if m.Packet? {
        LossFromCells(m.node, m.frame.direction, l.status.Get(m.frame.direction), m.input.loss);
        assert m.input.copies[..0] == [];
      } else {
        OtherStepMovesNothing(l.view.delivery, m.step);
      }
    }
  }
}

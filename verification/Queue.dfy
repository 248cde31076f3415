/**
 The delay queue of includes/wf_queue.c: a binary min-heap in slots 1..size of an array, a
 sentinel with the least key in slot 0, and the key assignment that makes the heap a FIFO.

 Times are unbounded naturals. `counter` and `byteSize` wrap at 2^32, as `unsigned int` does.
 The array has one slot more than the source allocates: the growth test of the source lets a
 node land one slot past its allocation (`GrowthTestOverruns` says exactly when), and the spare
 slot gives that write a meaning.
 */
module Queue {
  import opened Packets

  datatype QueueNode = QueueNode(packet: Packet, forwardTime: nat, counter: nat)

  const QUEUE_CHUNK: nat := 100
  const SENTINEL := QueueNode(Packet(0, 0, LeftToRight), 0, 0)

  // ---------- Keys ----------

  predicate Before(a: QueueNode, b: QueueNode) {
    a.forwardTime < b.forwardTime || (a.forwardTime == b.forwardTime && a.counter < b.counter)
  }

  predicate AtMost(a: QueueNode, b: QueueNode) {
    !Before(b, a)
  }

  function CompareNode(a: QueueNode, b: QueueNode): (c: int)
    ensures c < 0 <==> Before(a, b)
    ensures c > 0 <==> Before(b, a)
  {
    if a.forwardTime == b.forwardTime && a.counter == b.counter then 0
    else if a.forwardTime < b.forwardTime || (a.forwardTime == b.forwardTime && a.counter < b.counter) then -1
    else 1
  }

  /** The queue fields from which `enqueue` computes the key of a node. */
  datatype Keying = Keying(fifo: bool, maxForwardTime: nat, counter: UInt)

  function StoredTime(k: Keying, requested: nat): nat {
    if k.fifo && requested <= k.maxForwardTime then k.maxForwardTime else requested
  }

  /** `++` on a C `unsigned int`. */
  function Incremented(c: UInt): UInt {
    if c + 1 == UINT_RANGE then 0 else c + 1
  }

  function NextKeying(k: Keying, requested: nat): Keying {
    if !k.fifo then k
    else if requested > k.maxForwardTime then k.(maxForwardTime := requested, counter := 0)
    else k.(counter := Incremented(k.counter))
  }

  function NodeFor(k: Keying, packet: Packet, requested: nat): QueueNode {
    QueueNode(packet, StoredTime(k, requested), NextKeying(k, requested).counter)
  }

  /** The one case in which the 32-bit counter of a FIFO queue falls back to 0. */
  predicate Wraps(k: Keying, requested: nat) {
    k.fifo && requested <= k.maxForwardTime && k.counter + 1 == UINT_RANGE
  }

  /** The key of the last FIFO node, as the queue fields remember it. */
  function LastFifoKey(k: Keying): QueueNode {
    QueueNode(SENTINEL.packet, k.maxForwardTime, k.counter)
  }

  /**
   A FIFO node sorts after every earlier FIFO node exactly when the counter does not wrap, and
   becomes the node later ones are compared with.
   */
  lemma FifoKeyGrows(k: Keying, packet: Packet, requested: nat)
    requires k.fifo
    ensures Before(LastFifoKey(k), NodeFor(k, packet, requested)) <==> !Wraps(k, requested)
    ensures LastFifoKey(NextKeying(k, requested)).(packet := packet) == NodeFor(k, packet, requested)
  {
  }

  /**
   A copy that is not FIFO gets the time it asks for and leaves the keys alone; under the greatest FIFO
   time it does not sort before the last FIFO copy.
   */
  lemma OtherKeyStands(k: Keying, packet: Packet, requested: nat)
    requires !k.fifo
    ensures NodeFor(k, packet, requested) == QueueNode(packet, requested, k.counter) && NextKeying(k, requested) == k
    ensures requested >= k.maxForwardTime ==> AtMost(LastFifoKey(k), NodeFor(k, packet, requested))
  {
  }

  // ---------- Memory ----------

  function CapacityAfter(size: nat, maxSize: nat): nat {
    if size >= maxSize then maxSize + QUEUE_CHUNK else maxSize
  }

  /** `enqueue` writes slot size + 1; the source allocated slots 0 .. CapacityAfter - 1. */
  predicate GrowthTestOverruns(size: nat, maxSize: nat) {
    size + 1 >= CapacityAfter(size, maxSize)
  }

  lemma OverrunExactly(size: nat, maxSize: nat)
    requires size <= maxSize
    ensures GrowthTestOverruns(size, maxSize) <==> 0 < maxSize && size == maxSize - 1
  {
  }

  datatype QueueCall = EnqueueCall | DequeueCall

  /** (size, max_size) after a run of calls on a fresh queue. */
  function SizesAfter(calls: seq<QueueCall>): (r: (nat, nat)) {
    if calls == [] then (0, 0)
    else
      var (size, maxSize) := SizesAfter(calls[..|calls| - 1]);
      match calls[|calls| - 1]
      case EnqueueCall => (size + 1, CapacityAfter(size, maxSize))
      case DequeueCall => (if size == 0 then 0 else size - 1, maxSize)
  }

  /** No `enqueue` of the run writes past the allocation. */
  predicate StaysAllocated(calls: seq<QueueCall>) {
    calls == [] ||
    var before := calls[..|calls| - 1];
    var (size, maxSize) := SizesAfter(before);
    StaysAllocated(before) && (calls[|calls| - 1] == EnqueueCall ==> !GrowthTestOverruns(size, maxSize))
  }

  /** At no point of the run are 100 packets queued. */
  predicate StaysShort(calls: seq<QueueCall>) {
    SizesAfter(calls).0 < 100 && (calls == [] || StaysShort(calls[..|calls| - 1]))
  }

  /** The source stays inside its allocation exactly in the runs that never queue 100 packets at once. */
  lemma {:induction false} AllocationHoldsExactlyBelowChunk(calls: seq<QueueCall>)
    ensures StaysAllocated(calls) <==> StaysShort(calls)
    ensures StaysShort(calls) ==> SizesAfter(calls).1 == QUEUE_CHUNK || SizesAfter(calls) == (0, 0)
  {
    if calls != [] {
      AllocationHoldsExactlyBelowChunk(calls[..|calls| - 1]);
    }
  }

  // ---------- Sequences of nodes ----------

  function Bytes(nodes: seq<QueueNode>, d: Direction): nat {
    if nodes == [] then 0
    else (if nodes[0].packet.direction == d then nodes[0].packet.len else 0) + Bytes(nodes[1..], d)
  }

  /** Removes the first occurrence of `n`. */
  function Without(nodes: seq<QueueNode>, n: QueueNode): (r: seq<QueueNode>)
    ensures n in nodes ==> |r| == |nodes| - 1
  {
    if nodes == [] then []
    else if nodes[0] == n then nodes[1..]
    else [nodes[0]] + Without(nodes[1..], n)
  }

  ghost predicate IsHead(nodes: seq<QueueNode>, n: QueueNode) {
    n in nodes && forall m <- nodes :: AtMost(n, m)
  }

  /** Adding to (or taking from) a wrapped counter wraps the sum. */
  lemma WrapShift(b: int, x: int)
    ensures Wrap(Wrap(b) + x) == Wrap(b + x)
  {
    var q := b / UINT_RANGE;
    assert b == q * UINT_RANGE + b % UINT_RANGE;
    var r := b % UINT_RANGE + x;
    assert (r + q * UINT_RANGE) % UINT_RANGE == r % UINT_RANGE;
  }

  lemma BytesOut(nodes: seq<QueueNode>, n: QueueNode, d: Direction)
    requires n in nodes
    ensures if n.packet.direction == d then Wrap(Bytes(Without(nodes, n), d)) == Wrap(Wrap(Bytes(nodes, d)) - n.packet.len)
            else Bytes(Without(nodes, n), d) == Bytes(nodes, d)
  {
    BytesWithout(nodes, n, d);
    WrapShift(Bytes(nodes, d), 0 - n.packet.len);
  }

  lemma BytesIn(nodes: seq<QueueNode>, n: QueueNode, d: Direction)
    ensures if n.packet.direction == d then Wrap(Bytes(nodes + [n], d)) == Wrap(Wrap(Bytes(nodes, d)) + n.packet.len)
            else Bytes(nodes + [n], d) == Bytes(nodes, d)
  {
    BytesAppend(nodes, n, d);
    WrapShift(Bytes(nodes, d), n.packet.len);
  }

  lemma {:induction false} BytesAppend(nodes: seq<QueueNode>, n: QueueNode, d: Direction)
    ensures Bytes(nodes + [n], d) == Bytes(nodes, d) + (if n.packet.direction == d then n.packet.len else 0)
  {
    if nodes != [] {
      assert (nodes + [n])[1..] == nodes[1..] + [n];
      BytesAppend(nodes[1..], n, d);
    }
  }

  lemma {:induction false} BytesWithout(nodes: seq<QueueNode>, n: QueueNode, d: Direction)
    requires n in nodes
    ensures Bytes(nodes, d) == Bytes(Without(nodes, n), d) + (if n.packet.direction == d then n.packet.len else 0)
  {
    if nodes[0] != n {
      BytesWithout(nodes[1..], n, d);
      var r := Without(nodes, n);
      assert r[0] == nodes[0] && r[1..] == Without(nodes[1..], n);
    }
  }

  lemma {:induction false} WithoutMultiset(nodes: seq<QueueNode>, n: QueueNode)
    requires n in nodes
    ensures multiset(Without(nodes, n)) == multiset(nodes) - multiset{n}
  {
    assert nodes == [nodes[0]] + nodes[1..];
    if nodes[0] != n {
      WithoutMultiset(nodes[1..], n);
    }
  }

  // ---------- Heap order ----------

  predicate Child(p: nat, j: nat) {
    j == 2 * p || j == 2 * p + 1
  }

  ghost predicate HeapOrdered(h: seq<QueueNode>, size: nat)
    requires size < |h|
  {
    forall p: nat, j: nat {:trigger Child(p, j)} :: 1 <= p && Child(p, j) && j <= size ==> AtMost(h[p], h[j])
  }

  lemma {:induction false} RootIsLeast(h: seq<QueueNode>, size: nat, j: nat)
    requires size < |h| && HeapOrdered(h, size) && 1 <= j <= size
    ensures AtMost(h[1], h[j])
  {
    if j > 1 {
      RootIsLeast(h, size, j / 2);
      assert Child(j / 2, j);
    }
  }

  lemma RootIsHead(h: seq<QueueNode>, size: nat, nodes: seq<QueueNode>)
    requires 0 < size < |h| && HeapOrdered(h, size)
    requires multiset(h[1..size + 1]) == multiset(nodes)
    ensures IsHead(nodes, h[1])
  {
    var live := h[1..size + 1];
    assert live[0] == h[1] && h[1] in multiset(live);
    forall m | m in nodes ensures AtMost(h[1], m) {
      assert m in multiset(live);
      var i :| 0 <= i < |live| && live[i] == m;
      RootIsLeast(h, size, i + 1);
    }
  }

  /** What slots 1..size hold once `x` fills slot k. */
  function Filled(h: seq<QueueNode>, size: nat, k: nat, x: QueueNode): multiset<QueueNode>
    requires 1 <= k <= size < |h|
  {
    multiset(h[k := x][1..size + 1])
  }

  lemma SwapFill(s: seq<QueueNode>, i: nat, j: nat, x: QueueNode)
    requires i < |s| && j < |s| && i != j
    ensures multiset(s[i := s[j]][j := x]) == multiset(s[i := x])
  {
    var t := s[i := s[j]];
    assert multiset(t) == multiset(s) - multiset{s[i]} + multiset{s[j]};
    assert multiset(t[j := x]) == multiset(t) - multiset{s[j]} + multiset{x};
    assert multiset(s[i := x]) == multiset(s) - multiset{s[i]} + multiset{x};
  }

  /** Moving an element into the hole, and the hole to where it was, keeps what the filled heap holds. */
  lemma MoveHole(h: seq<QueueNode>, size: nat, k: nat, j: nat, x: QueueNode)
    requires 1 <= k <= size < |h| && 1 <= j <= size && j != k
    ensures Filled(h[k := h[j]], size, j, x) == Filled(h, size, k, x)
  {
    var s := h[1..size + 1];
    SwapFill(s, k - 1, j - 1, x);
    assert h[k := x][1..size + 1] == s[k - 1 := x];
    assert h[k := h[j]][j := x][1..size + 1] == s[k - 1 := s[j - 1]][j - 1 := x];
  }

  /** Heap order everywhere but at a hole at k; the neighbours of the hole are in order with each other. */
  ghost predicate OrderedAroundHole(h: seq<QueueNode>, size: nat, k: nat) {
    && 1 <= k <= size < |h|
    && (forall p: nat, j: nat {:trigger Child(p, j)} ::
          1 <= p && Child(p, j) && j <= size && j != k && p != k ==> AtMost(h[p], h[j]))
    && (forall p: nat, j: nat {:trigger Child(p, k), Child(k, j)} ::
          1 <= p && Child(p, k) && Child(k, j) && j <= size ==> AtMost(h[p], h[j]))
  }

  /** `x`, travelling from a leaf towards the root, is not after anything below the hole. */
  ghost predicate RisingHole(h: seq<QueueNode>, size: nat, k: nat, x: QueueNode) {
    && OrderedAroundHole(h, size, k)
    && (forall j: nat {:trigger Child(k, j)} :: Child(k, j) && j <= size ==> AtMost(x, h[j]))
  }

  lemma RaiseHole(h: seq<QueueNode>, size: nat, k: nat, x: QueueNode)
    requires RisingHole(h, size, k, x) && 2 <= k && Before(x, h[k / 2])
    ensures RisingHole(h[k := h[k / 2]], size, k / 2, x)
  {
    assert Child(k / 2, k);
  }

  /** A longer array with the same beginning holds the same heap. */
  lemma KeepPrefix(h: seq<QueueNode>, kept: seq<QueueNode>, size: nat)
    requires size < |kept| <= |h| && h[..|kept|] == kept
    ensures h[0] == kept[0] && h[1..size + 1] == kept[1..size + 1]
    ensures HeapOrdered(kept, size) ==> HeapOrdered(h, size)
  {
    assert forall i :: 0 <= i < |kept| ==> h[i] == h[..|kept|][i];
  }

  lemma OpenHole(h: seq<QueueNode>, size: nat, x: QueueNode)
    requires 0 < size < |h| && HeapOrdered(h, size - 1)
    ensures RisingHole(h, size, size, x)
  {
  }

  lemma FillRisingHole(h: seq<QueueNode>, size: nat, k: nat, x: QueueNode)
    requires RisingHole(h, size, k, x) && !Before(x, h[k / 2])
    ensures HeapOrdered(h[k := x], size)
  {
  }

  /** `x`, travelling from the root towards the leaves, is not before anything above the hole. */
  ghost predicate SinkingHole(h: seq<QueueNode>, size: nat, k: nat, x: QueueNode) {
    && OrderedAroundHole(h, size, k)
    && (k > 1 ==> AtMost(h[k / 2], x))
  }

  ghost predicate LeastChild(h: seq<QueueNode>, size: nat, k: nat, j: nat) {
    && size < |h|
    && Child(k, j) && j <= size
    && forall i: nat {:trigger Child(k, i)} :: Child(k, i) && i <= size ==> AtMost(h[j], h[i])
  }

  lemma SinkHole(h: seq<QueueNode>, size: nat, k: nat, j: nat, x: QueueNode)
    requires SinkingHole(h, size, k, x) && LeastChild(h, size, k, j) && !Before(x, h[j])
    ensures SinkingHole(h[k := h[j]], size, j, x)
  {
    assert Child(k, j);
    assert k > 1 ==> Child(k / 2, k);
  }

  lemma OpenRoot(h: seq<QueueNode>, size: nat, x: QueueNode)
    requires 0 < size && size + 1 < |h| && HeapOrdered(h, size + 1) && x == h[size + 1]
    ensures SinkingHole(h, size, 1, x)
    ensures Filled(h, size, 1, x) == multiset(h[1..size + 2]) - multiset{h[1]}
  {
    assert h[1..size + 2] == [h[1]] + h[2..size + 1] + [x];
    assert h[1 := x][1..size + 1] == [x] + h[2..size + 1];
  }

  lemma FillSinkingHole(h: seq<QueueNode>, size: nat, k: nat, x: QueueNode)
    requires SinkingHole(h, size, k, x)
    requires Settled(h, size, k, x)
    ensures HeapOrdered(h[k := x], size)
  {
  }

  /** `x` may fill the hole at k: it is not after any child of the hole. */
  ghost predicate Settled(h: seq<QueueNode>, size: nat, k: nat, x: QueueNode) {
    size < |h| && forall j: nat {:trigger Child(k, j)} :: Child(k, j) && j <= size ==> AtMost(x, h[j])
  }

  lemma SettledAboveLeast(h: seq<QueueNode>, size: nat, k: nat, j: nat, x: QueueNode)
    requires LeastChild(h, size, k, j) && Before(x, h[j])
    ensures Settled(h, size, k, x)
  {
  }

  class DelayQueue {
    var slots: array?<QueueNode>
    var size: nat
    var maxSize: nat
    var byteSize: PerDirection<nat>
    var fifo: bool
    var maxForwardTime: nat
    var counter: UInt
    ghost var arrived: seq<QueueNode>  // the queued nodes, in the order in which they were enqueued

    ghost predicate Valid()
      reads this, slots
    {
      && Shaped()
      && Ordered()
      && multiset(arrived) == Live()
      && |arrived| == size
      && Counted()
    }

    /** The two byte counters are the sums over the queued packets, as far as 32 bits go. */
    ghost predicate Counted()
      reads this`byteSize, this`arrived
    {
      && byteSize.lr == Wrap(Bytes(arrived, LeftToRight))
      && byteSize.rl == Wrap(Bytes(arrived, RightToLeft))
    }

    /** The allocation: NULL until the first packet, then the sentinel and room for the nodes. */
    ghost predicate Shaped()
      reads this`slots, this`size, this`maxSize, slots
    {
      && (slots == null <==> maxSize == 0)
      && (slots == null ==> size == 0)
      && (slots != null ==> slots.Length == maxSize + 1 && size <= maxSize && slots[0] == SENTINEL)
    }

    ghost predicate Ordered()
      requires Shaped()
      reads this`slots, this`size, this`maxSize, slots
    {
      slots != null ==> HeapOrdered(slots[..], size)
    }

    ghost function Live(): multiset<QueueNode>
      requires Shaped()
      reads this`slots, this`size, this`maxSize, slots
    {
      if slots == null then multiset{} else multiset(slots[..][1..size + 1])
    }

    ghost function Keys(): Keying
      reads this`fifo, this`maxForwardTime, this`counter
    {
      Keying(fifo, maxForwardTime, counter)
    }

    constructor (fifo: bool)
      ensures Valid() && arrived == [] && size == 0 && slots == null
      ensures Keys() == Keying(fifo, 0, 0)
    {
      slots, size, maxSize := null, 0, 0;
      byteSize := PerDirection(0, 0);
      this.fifo, maxForwardTime, counter := fifo, 0, 0;
      arrived := [];
    }

    method SetFifo(fifo: bool)
      requires Valid()
      modifies this`fifo
      ensures Valid() && Keys() == old(Keys()).(fifo := fifo)
    {
      this.fifo := fifo;
    }

    method Resize(newSize: nat)
      requires Shaped() && newSize > maxSize
      modifies this`slots, this`maxSize
      ensures Shaped() && fresh(slots) && maxSize == newSize
      ensures Live() == old(Live())
      ensures old(Ordered()) ==> Ordered()
    {
      var kept := if slots == null then [SENTINEL] else slots[..];
      var bigger := Allocate(newSize + 1, kept);
      KeepPrefix(bigger[..], kept, size);
      slots, maxSize := bigger, newSize;
    }

    static method Allocate(length: nat, kept: seq<QueueNode>) returns (a: array<QueueNode>)
      requires |kept| <= length
      ensures fresh(a) && a.Length == length && a[..|kept|] == kept && a[..][..|kept|] == kept
    {
      a := new QueueNode[length](i => if 0 <= i < |kept| then kept[i] else SENTINEL);
    }

    /** Adds a packet under the key the FIFO fields give it; the packet leaves at `StoredTime` at the earliest. */
    method Enqueue(packet: Packet, requested: nat)
      requires Valid()
      modifies this, slots
      ensures Valid()
      ensures slots == old(slots) || fresh(slots)
      ensures Keys() == NextKeying(old(Keys()), requested)
      ensures arrived == old(arrived) + [NodeFor(old(Keys()), packet, requested)]
      ensures maxSize == CapacityAfter(old(size), old(maxSize))
      // the highest slot written is `size`; the source owns slots 0 .. maxSize - 1
      ensures size < maxSize <==> !GrowthTestOverruns(old(size), old(maxSize))
    {
      var forwardTime := AssignKey(requested);
      Insert(QueueNode(packet, forwardTime, counter));
    }

    method Insert(node: QueueNode)
      requires Valid()
      modifies this`slots, this`size, this`maxSize, this`byteSize, this`arrived, slots
      ensures Valid()
      ensures slots == old(slots) || fresh(slots)
      ensures arrived == old(arrived) + [node]
      ensures maxSize == CapacityAfter(old(size), old(maxSize)) && size == old(size) + 1
    {
      MakeRoom();
      ghost var live := Live();
      CountIn(node);
      assert Live() == live && Ordered();
      SiftUp(node);
      assert Live() == live + multiset{node} == multiset(arrived);
    }

    method MakeRoom()
      requires Valid()
      modifies this`slots, this`maxSize
      ensures Valid() && slots != null && size < maxSize == CapacityAfter(size, old(maxSize))
      ensures slots == old(slots) || fresh(slots)
    {
      if size >= maxSize {
        Resize(maxSize + QUEUE_CHUNK);
      }
    }

    /** The FIFO key: a packet due before an earlier one is put right behind it. */
    method AssignKey(requested: nat) returns (forwardTime: nat)
      modifies this`maxForwardTime, this`counter
      ensures Keys() == NextKeying(old(Keys()), requested)
      ensures forwardTime == StoredTime(old(Keys()), requested)
    {
      forwardTime := requested;
      if fifo {
        if forwardTime > maxForwardTime {
          maxForwardTime := forwardTime;
          counter := 0;
        } else {
          forwardTime := maxForwardTime;
          counter := Incremented(counter);
        }
      }
    }

    method CountIn(node: QueueNode)
      requires Counted()
      modifies this`byteSize, this`arrived
      ensures Counted() && arrived == old(arrived) + [node]
      ensures multiset(arrived) == multiset(old(arrived)) + multiset{node}
    {
      var d := node.packet.direction;
      byteSize := byteSize.Set(d, Wrap(byteSize.Get(d) + node.packet.len));
      BytesIn(arrived, node, LeftToRight);
      BytesIn(arrived, node, RightToLeft);
      arrived := arrived + [node];
    }

    /** Slot k is free; filling it with `x` makes slots 1..size hold `bag`, in heap order above and below. */
    ghost predicate Rising(k: nat, x: QueueNode, bag: multiset<QueueNode>)
      reads this`slots, this`size, this`maxSize, slots
    {
      Shaped() && slots != null && RisingHole(slots[..], size, k, x) && Filled(slots[..], size, k, x) == bag
    }

    /** Opens slot `size + 1` and places `node`, moving later parents down while there are any. */
    method SiftUp(node: QueueNode)
      requires Shaped() && slots != null && size < maxSize && Ordered()
      modifies this`size, slots
      ensures Shaped() && size == old(size) + 1 && Ordered()
      ensures Live() == old(Live()) + multiset{node}
    {
      ghost var bag := Live() + multiset{node};
      OpenLast(node);
      var k := size;
      while CompareNode(node, slots[k / 2]) < 0
        invariant Rising(k, node, bag)
        decreases k
        modifies slots
      {
        MoveDown(k, node, bag);
        k := k / 2;
      }
      Fill(k, node, bag);
    }

    method OpenLast(node: QueueNode)
      requires Shaped() && slots != null && size < maxSize && Ordered()
      modifies this`size
      ensures size == old(size) + 1 && Rising(size, node, old(Live()) + multiset{node})
    {
      size := size + 1;
      OpenHole(slots[..], size, node);
      assert slots[..][size := node][1..size + 1] == slots[..][1..size] + [node];
    }

    method MoveDown(k: nat, node: QueueNode, ghost bag: multiset<QueueNode>)
      requires Rising(k, node, bag) && Before(node, slots[k / 2])
      modifies slots
      ensures 1 <= k / 2 && Rising(k / 2, node, bag)
    {
      ghost var h := slots[..];
      RaiseHole(h, size, k, node);
      MoveHole(h, size, k, k / 2, node);
      slots[k] := slots[k / 2];
      assert slots[..] == h[k := h[k / 2]];
    }

    method Fill(k: nat, node: QueueNode, ghost bag: multiset<QueueNode>)
      requires Rising(k, node, bag) && !Before(node, slots[k / 2])
      modifies slots
      ensures Shaped() && Ordered() && Live() == bag
    {
      ghost var h := slots[..];
      FillRisingHole(h, size, k, node);
      slots[k] := node;
      assert slots[..] == h[k := node];
    }

    /** Takes out a packet with a least key; NULL (`None`) from an empty queue. */
    method Dequeue() returns (out: Option<Packet>, ghost node: QueueNode)
      requires Valid()
      modifies this`size, this`byteSize, this`arrived, slots
      ensures Valid()
      ensures old(arrived) == [] ==> out == None && arrived == []
      ensures old(arrived) != [] ==>
                && IsHead(old(arrived), node) && out == Some(node.packet)
                && arrived == Without(old(arrived), node)
    {
      if size <= 0 {
        return None, SENTINEL;
      }
      var head := Head();
      CountOut(head);
      RemoveRoot(multiset(arrived));
      return Some(head.packet), head;
    }

    method Head() returns (head: QueueNode)
      requires Valid() && size > 0
      ensures head == slots[1] && IsHead(arrived, head)
    {
      head := slots[1];
      RootIsHead(slots[..], size, arrived);
    }

    method CountOut(node: QueueNode)
      requires Counted() && node in arrived
      modifies this`byteSize, this`arrived
      ensures Counted() && arrived == Without(old(arrived), node)
      ensures multiset(arrived) == multiset(old(arrived)) - multiset{node}
    {
      var d := node.packet.direction;
      byteSize := byteSize.Set(d, Wrap(byteSize.Get(d) - node.packet.len));
      BytesOut(arrived, node, LeftToRight);
      BytesOut(arrived, node, RightToLeft);
      WithoutMultiset(arrived, node);
      arrived := Without(arrived, node);
    }

    /** Slot k is free; filling it with `x` makes slots 1..size hold `bag`, in heap order above. */
    ghost predicate Sinking(k: nat, x: QueueNode, bag: multiset<QueueNode>)
      reads this`slots, this`size, this`maxSize, slots
    {
      Shaped() && slots != null && SinkingHole(slots[..], size, k, x) && Filled(slots[..], size, k, x) == bag
    }

    /** Refills the root from the last slot, moving children up while they are not after that node. */
    method RemoveRoot(ghost bag: multiset<QueueNode>)
      requires Shaped() && Ordered() && 0 < size && bag == Live() - multiset{slots[1]}
      modifies this`size, slots
      ensures Shaped() && Ordered() && size == old(size) - 1 && Live() == bag
    {
      var last := OpenFirst(bag);
      var k := SiftDown(last, bag);
      FillLow(k, last, bag);
    }

    method SiftDown(last: QueueNode, ghost bag: multiset<QueueNode>) returns (k: nat)
      requires Lowering(1, last, bag)
      modifies slots
      ensures Lowering(k, last, bag) && Settled(slots[..], size, k, last)
    {
      k := 1;
      while k <= size / 2
        invariant Lowering(k, last, bag)
        decreases size - k
      {
        var j := LesserChild(k);
        if CompareNode(last, slots[j]) < 0 {
          SettledAboveLeast(slots[..], size, k, j, last);
          break;
        }
        MoveUp(k, j, last, bag);
        k := j;
      }
    }

    /** The state of the removal: `Sinking`, or the last node has just left and slot 1 is scratch space. */
    ghost predicate Lowering(k: nat, x: QueueNode, bag: multiset<QueueNode>)
      reads this`slots, this`size, this`maxSize, slots
    {
      if size > 0 then Sinking(k, x, bag)
      else Shaped() && maxSize > 0 && k == 1 && bag == multiset{}
    }

    method OpenFirst(ghost bag: multiset<QueueNode>) returns (last: QueueNode)
      requires Shaped() && Ordered() && 0 < size && bag == Live() - multiset{slots[1]}
      modifies this`size
      ensures size == old(size) - 1 && Lowering(1, last, bag)
    {
      size := size - 1;
      last := slots[size + 1];
      if size > 0 {
        OpenRoot(slots[..], size, last);
      } else {
        assert slots[..][1..2] == [slots[1]];
      }
    }

    method LesserChild(k: nat) returns (j: nat)
      requires Shaped() && slots != null && 1 <= k <= size / 2
      ensures LeastChild(slots[..], size, k, j)
    {
      j := 2 * k;
      if j < size && CompareNode(slots[j], slots[j + 1]) > 0 {
        j := j + 1;
      }
    }

    method MoveUp(k: nat, j: nat, x: QueueNode, ghost bag: multiset<QueueNode>)
      requires Lowering(k, x, bag) && LeastChild(slots[..], size, k, j) && !Before(x, slots[j])
      modifies slots
      ensures Lowering(j, x, bag)
    {
      ghost var h := slots[..];
      SinkHole(h, size, k, j, x);
      MoveHole(h, size, k, j, x);
      slots[k] := slots[j];
      assert slots[..] == h[k := h[j]];
    }

    method FillLow(k: nat, x: QueueNode, ghost bag: multiset<QueueNode>)
      requires Lowering(k, x, bag)
      requires Settled(slots[..], size, k, x)
      modifies slots
      ensures Shaped() && Ordered() && Live() == bag
    {
      ghost var h := slots[..];
      if size > 0 {
        FillSinkingHole(h, size, k, x);
      }
      slots[k] := x;
      assert slots[..] == h[k := x];
    }

    method NextQueueTime() returns (t: nat)
      requires Valid() && size > 0
      ensures exists head :: IsHead(arrived, head) && t == head.forwardTime
    {
      var head := Head();
      t := slots[1].forwardTime;
    }
  }
}

/** Descriptor and ring bookkeeping of kernel/virtio_disk.c, with a device that completes
    the requests it is given in any order, each once and successfully. */
module Virtio {
  import opened Blocks
  import opened Counting

  const NUM: nat := 8
  const IDX: nat := 0x1_0000

  /** What a descriptor points to: `&disk.ops[i]`, `b->data` or `&disk.info[i].status`. */
  datatype Addr = Null | Header(i: nat) | Data(b: nat) | Status(i: nat)

  /** `next` is followed exactly when `more`, the flag VRING_DESC_F_NEXT, is set; `write` says
      that the device writes there. */
  datatype Desc = Desc(addr: Addr, len: nat, more: bool, write: bool, next: nat)

  function NoDesc(): Desc { Desc(Null, 0, false, false, 0) }

  /** struct virtio_blk_req: VIRTIO_BLK_T_OUT or VIRTIO_BLK_T_IN, and the first sector. */
  datatype Op = Op(out: bool, sector: nat)

  const HEADER: nat := 16

  /** `info[h]`: the buffer of the request with head h, -1 for none, and its status byte. */
  datatype Info = Info(b: int, status: nat)

  /** A request: its second and third descriptor, its buffer, and what is to be done. */
  datatype Chain = Chain(mid: nat, last: nat, buf: nat, op: Op)

  // ---- Descriptors ----

  /** `owner[i]` is the head of the request that descriptor i belongs to, NUM if it is in
      nobody's hands and NUM + 1 while alloc3_desc holds it. */
  ghost predicate Owned(free: seq<bool>, desc: seq<Desc>, chains: map<nat, Chain>, owner: seq<nat>) {
    && |free| == |desc| == |owner| == NUM
    && (forall i: nat | i < NUM :: free[i] <==> owner[i] == NUM)
    && (forall i: nat | i < NUM && owner[i] >= NUM :: desc[i] == NoDesc())
    && (forall i: nat | i < NUM && owner[i] < NUM ::
          InChain(chains, owner[i], i))
    && (forall h | h in chains :: Linked(desc, owner, h, chains[h]))
  }

  /** Descriptor i is one of the three of request h. */
  ghost predicate InChain(chains: map<nat, Chain>, h: nat, i: nat) {
    h in chains && (i == h || i == chains[h].mid || i == chains[h].last)
  }

  /** The three descriptors of request h are linked one to the next and are its own. */
  ghost predicate Linked(desc: seq<Desc>, owner: seq<nat>, h: nat, c: Chain)
    requires |desc| == |owner| == NUM
  {
    && h < NUM && c.mid < NUM && c.last < NUM && h != c.mid && h != c.last && c.mid != c.last
    && owner[h] == owner[c.mid] == owner[c.last] == h
    && Formatted(desc, h, c)
  }

  /** What the device is told of a request (section 5.2.6 of VIRTIO 1.1): a header, the data,
      which the device writes when the disk is read, and a status byte to write. */
  ghost predicate Formatted(desc: seq<Desc>, h: nat, c: Chain)
    requires h < |desc| && c.mid < |desc| && c.last < |desc|
  {
    && desc[h] == Desc(Header(h), HEADER, true, false, c.mid)
    && desc[c.mid] == Desc(Data(c.buf), BSIZE, true, !c.op.out, c.last)
    && desc[c.last] == Desc(Status(h), 1, false, true, 0)
  }

  /** The descriptors of request h. */
  ghost function Mine(owner: seq<nat>, h: nat): (s: set<nat>)
    ensures forall i | i in s :: i < |owner| && owner[i] == h
  {
    set i: nat | i < |owner| && owner[i] == h
  }

  lemma ThreeMine(desc: seq<Desc>, owner: seq<nat>, h: nat, c: Chain)
    requires |desc| == |owner| == NUM && Linked(desc, owner, h, c)
    ensures |Mine(owner, h)| >= 3
  {
    hide Formatted;
    var three := {h} + {c.mid} + {c.last};
    assert |three| == 3 && three <= Mine(owner, h);
    assert Mine(owner, h) == three + (Mine(owner, h) - three);
  }

  lemma {:induction false} AtMost(s: set<nat>, n: nat)
    requires forall i | i in s :: i < n
    ensures |s| <= n
  {
    if n > 0 {
      AtMost(s - {n - 1}, n - 1);
    } else {
      assert s == {};
    }
  }

  /** Three times three are more than eight. */
  lemma NoThree(x: set<nat>, y: set<nat>, z: set<nat>)
    requires x !! y && x !! z && y !! z && forall i | i in x + y + z :: i < NUM
    ensures |x| < 3 || |y| < 3 || |z| < 3
  {
    AtMost(x + y + z, NUM);
    assert |x + y| == |x| + |y|;
    assert |x + y + z| == |x + y| + |z|;
  }

  /** Eight descriptors make at most two requests. */
  lemma AtMostTwo(free: seq<bool>, desc: seq<Desc>, chains: map<nat, Chain>, owner: seq<nat>)
    requires Owned(free, desc, chains, owner)
    ensures |chains.Keys| <= 2
  {
    hide Linked, Mine;
    if |chains.Keys| > 2 {
      var a, b, c := ThreeOf(chains.Keys);
      ThreeMine(desc, owner, a, chains[a]);
      ThreeMine(desc, owner, b, chains[b]);
      ThreeMine(desc, owner, c, chains[c]);
      NoThree(Mine(owner, a), Mine(owner, b), Mine(owner, c));
    }
  }

  lemma ThreeOf(s: set<nat>) returns (a: nat, b: nat, c: nat)
    requires |s| > 2
    ensures a in s && b in s && c in s && a != b && a != c && b != c
  {
    a :| a in s;
    var s1 := s - {a};
    assert |s1| == |s| - 1;
    b :| b in s1;
    var s2 := s1 - {b};
    assert |s2| == |s1| - 1;
    c :| c in s2;
  }

  // ---- Rings ----

  /** The slot of the k-th entry counted from the `from`-th. */
  function Slot(from: nat, k: nat): (i: nat)
    ensures i < NUM
  {
    (from + k) % NUM
  }

  /** Entries `from .. from + |q|` of a ring hold the heads in `q`. */
  ghost predicate OnRing(ring: seq<nat>, from: nat, q: seq<nat>) {
    |ring| == NUM && forall k: nat | k < |q| :: ring[Slot(from, k)] == q[k]
  }

  lemma RingPut(ring: seq<nat>, from: nat, q: seq<nat>, h: nat)
    requires OnRing(ring, from, q) && |q| < NUM
    ensures OnRing(ring[Slot(from, |q|) := h], from, q + [h])
  {
    forall k: nat | k < |q|
      ensures Slot(from, k) != Slot(from, |q|)
    {
      Apart(from, k, |q|);
    }
  }

  lemma Apart(from: nat, i: nat, j: nat)
    requires i < j < i + NUM
    ensures (from + i) % NUM != (from + j) % NUM
  {
    var x, y := (from + i) / NUM, (from + j) / NUM;
    assert from + i == NUM * x + (from + i) % NUM && from + j == NUM * y + (from + j) % NUM;
  }

  lemma RingTake(ring: seq<nat>, from: nat, q: seq<nat>)
    requires OnRing(ring, from, q) && q != []
    ensures ring[from % NUM] == q[0] && OnRing(ring, from + 1, q[1..])
  {
    assert ring[Slot(from, 0)] == q[0];
    forall k: nat | k < |q[1..]|
      ensures ring[Slot(from + 1, k)] == q[1..][k]
    {
      assert ring[Slot(from, k + 1)] == q[k + 1];
    }
  }

  /** A 16-bit index taken modulo NUM picks the slot the unbounded count would. */
  lemma Wrap(n: nat)
    ensures n % IDX % NUM == n % NUM && (n % IDX + 1) % IDX == (n + 1) % IDX
  {
    var q := n / IDX;
    assert n == q * IDX + n % IDX;
    assert q * IDX == q * 8192 * NUM;
    ModAdd(q * 8192, n % IDX);
    if n % IDX == IDX - 1 {
      assert n + 1 == (q + 1) * IDX;
    } else {
      assert n + 1 == q * IDX + (n % IDX + 1);
    }
  }

  lemma ModAdd(q: nat, r: nat)
    ensures (q * NUM + r) % NUM == r % NUM
  {
  }

  /** Indices that differ by less than 2^16 are equal exactly when their 16 bits are. */
  lemma WrapEqual(a: nat, b: nat)
    requires a <= b < a + IDX
    ensures a % IDX == b % IDX <==> a == b
    ensures (b % IDX - a % IDX) % IDX == b - a
  {
    var x, y := a / IDX, b / IDX;
    assert a == x * IDX + a % IDX && b == y * IDX + b % IDX;
    assert y == x || y == x + 1;
  }

  ghost predicate NoRepeats(q: seq<nat>) {
    forall i, j | 0 <= i < j < |q| :: q[i] != q[j]
  }

  lemma {:induction false} SizeOfElems(q: seq<nat>)
    requires NoRepeats(q)
    ensures |Elems(q)| == |q|
  {
    if q != [] {
      var n := |q| - 1;
      SizeOfElems(q[..n]);
      assert q == q[..n] + [q[n]];
      assert Elems(q) == Elems(q[..n]) + {q[n]};
    }
  }

  /** Where each request is: on the avail ring, in the device, on the used ring, or done. */
  ghost predicate Placed(heads: set<nat>, queue: seq<nat>, device: set<nat>, doneq: seq<nat>, finished: set<nat>) {
    && NoRepeats(queue) && NoRepeats(doneq)
    && heads == Elems(queue) + device + Elems(doneq) + finished
    && Elems(queue) !! device && Elems(queue) !! Elems(doneq) && Elems(queue) !! finished
    && device !! Elems(doneq) && device !! finished && Elems(doneq) !! finished
  }

  lemma CountPlaced(heads: set<nat>, queue: seq<nat>, device: set<nat>, doneq: seq<nat>, finished: set<nat>)
    requires Placed(heads, queue, device, doneq, finished)
    ensures |heads| == |queue| + |device| + |doneq| + |finished|
  {
    SizeOfElems(queue);
    SizeOfElems(doneq);
    assert |Elems(queue) + device| == |queue| + |device|;
    assert |Elems(queue) + device + Elems(doneq)| == |queue| + |device| + |doneq|;
  }

  lemma Enqueued(heads: set<nat>, queue: seq<nat>, device: set<nat>, doneq: seq<nat>, finished: set<nat>, h: nat)
    requires Placed(heads, queue, device, doneq, finished) && h !in heads
    ensures Placed(heads + {h}, queue + [h], device, doneq, finished)
  {
    assert Elems(queue + [h]) == Elems(queue) + {h};
    assert forall i | 0 <= i < |queue| :: queue[i] in Elems(queue);
  }

  lemma Fetched(heads: set<nat>, queue: seq<nat>, device: set<nat>, doneq: seq<nat>, finished: set<nat>)
    requires Placed(heads, queue, device, doneq, finished) && queue != []
    ensures Placed(heads, queue[1..], device + {queue[0]}, doneq, finished) && queue[0] in heads && queue[0] !in device
  {
    assert queue == [queue[0]] + queue[1..];
    assert Elems(queue) == {queue[0]} + Elems(queue[1..]);
    assert queue[0] !in Elems(queue[1..]);
  }

  lemma Completed(heads: set<nat>, queue: seq<nat>, device: set<nat>, doneq: seq<nat>, finished: set<nat>, h: nat)
    requires Placed(heads, queue, device, doneq, finished) && h in device
    ensures Placed(heads, queue, device - {h}, doneq + [h], finished)
  {
    assert Elems(doneq + [h]) == Elems(doneq) + {h};
    assert forall i | 0 <= i < |doneq| :: doneq[i] in Elems(doneq);
  }

  lemma Noticed(heads: set<nat>, queue: seq<nat>, device: set<nat>, doneq: seq<nat>, finished: set<nat>)
    requires Placed(heads, queue, device, doneq, finished) && doneq != []
    ensures Placed(heads, queue, device, doneq[1..], finished + {doneq[0]}) && doneq[0] in heads
              && doneq[0] !in finished
  {
    assert doneq == [doneq[0]] + doneq[1..];
    assert Elems(doneq) == {doneq[0]} + Elems(doneq[1..]);
    assert doneq[0] !in Elems(doneq[1..]);
  }

  lemma Removed(heads: set<nat>, queue: seq<nat>, device: set<nat>, doneq: seq<nat>, finished: set<nat>, h: nat)
    requires Placed(heads, queue, device, doneq, finished) && h in finished
    ensures Placed(heads - {h}, queue, device, doneq, finished - {h})
  {
  }

  // ---- Rings and requests together ----

  /** A ring in shared memory with its 16-bit index. */
  datatype Ring = Ring(slots: seq<nat>, idx: nat)

  /** Requests posted, fetched by the device, completed by it, and noticed by the driver, and
      the requests that are at each of these points now. */
  datatype Log = Log(posted: nat, fetched: nat, completed: nat, noticed: nat,
                     queue: seq<nat>, device: set<nat>, doneq: seq<nat>, finished: set<nat>)

  ghost predicate RingsOk(avail: Ring, used: Ring, usedIdx: nat, lastAvail: nat, heads: set<nat>, l: Log) {
    && Placed(heads, l.queue, l.device, l.doneq, l.finished) && |heads| <= 2
    && l.posted == l.fetched + |l.queue| && l.fetched == l.completed + |l.device|
    && l.completed == l.noticed + |l.doneq|
    && avail.idx == l.posted % IDX && used.idx == l.completed % IDX && usedIdx == l.noticed % IDX
    && lastAvail == l.fetched % IDX
    && OnRing(avail.slots, l.fetched, l.queue) && OnRing(used.slots, l.noticed, l.doneq)
  }

  /** Never more than two requests are under way, so no ring is ever overrun: in 16-bit
      arithmetic avail->idx - used_idx counts the requests not noticed yet. */
  lemma FewUnderWay(avail: Ring, used: Ring, usedIdx: nat, lastAvail: nat, heads: set<nat>, l: Log)
    requires RingsOk(avail, used, usedIdx, lastAvail, heads, l)
    ensures |l.queue| + |l.device| + |l.doneq| <= 2
    ensures (avail.idx - usedIdx) % IDX == |l.queue| + |l.device| + |l.doneq|
    ensures usedIdx != used.idx <==> l.doneq != []
  {
    hide Placed, OnRing;
    CountPlaced(heads, l.queue, l.device, l.doneq, l.finished);
    WrapEqual(l.noticed, l.posted);
    WrapEqual(l.noticed, l.completed);
  }

  /** `disk.avail->ring[disk.avail->idx % NUM] = h; disk.avail->idx += 1;` */
  lemma Post(avail: Ring, used: Ring, usedIdx: nat, lastAvail: nat, heads: set<nat>, l: Log, h: nat)
    requires RingsOk(avail, used, usedIdx, lastAvail, heads, l) && h !in heads && |heads + {h}| <= 2
    ensures avail.idx % NUM < |avail.slots|
    ensures RingsOk(Ring(avail.slots[avail.idx % NUM := h], (avail.idx + 1) % IDX), used, usedIdx, lastAvail,
              heads + {h},
                    l.(posted := l.posted + 1, queue := l.queue + [h]))
    ensures h !in l.doneq && h !in l.finished
  {
    hide Placed, OnRing;
    FewUnderWay(avail, used, usedIdx, lastAvail, heads, l);
    NotYetDone(heads, l.queue, l.device, l.doneq, l.finished, h);
    Wrap(l.posted);
    RingPut(avail.slots, l.fetched, l.queue, h);
    Enqueued(heads, l.queue, l.device, l.doneq, l.finished, h);
    RingSize(avail.slots, l.fetched, l.queue);
  }

  lemma RingSize(ring: seq<nat>, from: nat, q: seq<nat>)
    requires OnRing(ring, from, q)
    ensures |ring| == NUM
  {
  }

  lemma FetchNext(avail: Ring, used: Ring, usedIdx: nat, lastAvail: nat, heads: set<nat>, l: Log)
    requires RingsOk(avail, used, usedIdx, lastAvail, heads, l) && l.queue != []
    ensures lastAvail % NUM < |avail.slots| && avail.slots[lastAvail % NUM] == l.queue[0] && l.queue[0] in heads
    ensures RingsOk(avail, used, usedIdx, (lastAvail + 1) % IDX, heads,
                    l.(fetched := l.fetched + 1, queue := l.queue[1..], device := l.device + {l.queue[0]}))
  {
    hide Placed, OnRing;
    Wrap(l.fetched);
    RingTake(avail.slots, l.fetched, l.queue);
    Fetched(heads, l.queue, l.device, l.doneq, l.finished);
    SizePlus(l.device, l.queue[0]);
    RingSize(avail.slots, l.fetched, l.queue);
  }

  lemma CompleteOne(avail: Ring, used: Ring, usedIdx: nat, lastAvail: nat, heads: set<nat>, l: Log, h: nat)
    requires RingsOk(avail, used, usedIdx, lastAvail, heads, l) && h in l.device
    ensures used.idx % NUM < |used.slots| && h in heads
    ensures RingsOk(avail, Ring(used.slots[used.idx % NUM := h], (used.idx + 1) % IDX), usedIdx, lastAvail, heads,
                    l.(completed := l.completed + 1, device := l.device - {h}, doneq := l.doneq + [h]))
  {
    hide Placed, OnRing;
    FewUnderWay(avail, used, usedIdx, lastAvail, heads, l);
    InDevice(heads, l.queue, l.device, l.doneq, l.finished, h);
    Wrap(l.completed);
    RingPut(used.slots, l.noticed, l.doneq, h);
    Completed(heads, l.queue, l.device, l.doneq, l.finished, h);
    RingSize(used.slots, l.noticed, l.doneq);
  }

  lemma InDevice(heads: set<nat>, queue: seq<nat>, device: set<nat>, doneq: seq<nat>, finished: set<nat>, h: nat)
    requires Placed(heads, queue, device, doneq, finished) && h in device
    ensures h in heads && |device - {h}| == |device| - 1
  {
  }

  lemma NoticeNext(avail: Ring, used: Ring, usedIdx: nat, lastAvail: nat, heads: set<nat>, l: Log)
    requires RingsOk(avail, used, usedIdx, lastAvail, heads, l) && l.doneq != []
    ensures usedIdx % NUM < |used.slots| && used.slots[usedIdx % NUM] == l.doneq[0]
    ensures l.doneq[0] in heads && l.doneq[0] !in l.finished
    ensures RingsOk(avail, used, (usedIdx + 1) % IDX, lastAvail, heads,
                    l.(noticed := l.noticed + 1, doneq := l.doneq[1..], finished := l.finished + {l.doneq[0]}))
  {
    hide Placed, OnRing;
    Wrap(l.noticed);
    RingTake(used.slots, l.noticed, l.doneq);
    Noticed(heads, l.queue, l.device, l.doneq, l.finished);
    RingSize(used.slots, l.noticed, l.doneq);
  }

  lemma Retire(avail: Ring, used: Ring, usedIdx: nat, lastAvail: nat, heads: set<nat>, l: Log, h: nat)
    requires RingsOk(avail, used, usedIdx, lastAvail, heads, l) && h in l.finished
    ensures RingsOk(avail, used, usedIdx, lastAvail, heads - {h}, l.(finished := l.finished - {h}))
    ensures h in heads && h !in l.doneq
  {
    Removed(heads, l.queue, l.device, l.doneq, l.finished, h);
    assert h !in Elems(l.doneq) && |heads - {h}| == |heads| - 1;
  }

  // ---- Buffers ----

  /** The buffers the driver still waits for. */
  ghost function Waiting(chains: map<nat, Chain>, finished: set<nat>): set<nat> {
    set h | h in chains && h !in finished :: chains[h].buf
  }

  /** disk.ops holds the header of every request. */
  ghost predicate OpsOk(ops: seq<Op>, chains: map<nat, Chain>) {
    |ops| == NUM && forall h | h in chains :: h < NUM && ops[h] == chains[h].op
  }

  /** Every request has a buffer of its own; `info` names it, and holds status 0 once the
      device is done; b->disk is 1 for exactly the buffers not yet noticed. */
  ghost predicate BuffersOk(info: seq<Info>, chains: map<nat, Chain>, l: Log, inFlight: set<nat>) {
    && |info| == NUM && inFlight == Waiting(chains, l.finished)
    && (forall h | h in chains :: h < NUM && info[h].b == chains[h].buf)
    && (forall g, h | g in chains && h in chains && chains[g].buf == chains[h].buf :: g == h)
    && (forall h | h in l.doneq :: h < NUM && info[h].status == 0)
  }

  lemma BufferPosted(info: seq<Info>, chains: map<nat, Chain>, l: Log, inFlight: set<nat>, h: nat, c: Chain)
    requires BuffersOk(info, chains, l, inFlight) && h < NUM && h !in chains && h !in l.doneq && h !in l.finished
    requires forall g | g in chains :: chains[g].buf != c.buf
    ensures |info| == NUM
    ensures BuffersOk(info[h := Info(c.buf, 0xff)], chains[h := c], l.(posted := l.posted + 1, queue := l.queue + [h]),
                      inFlight + {c.buf})
  {
    var chains' := chains[h := c];
    assert forall g | g in chains && g !in l.finished :: chains'[g].buf == chains[g].buf;
    assert chains'[h].buf == c.buf;
    assert Waiting(chains', l.finished) == Waiting(chains, l.finished) + {c.buf};
  }

  lemma BufferNoticed(info: seq<Info>, chains: map<nat, Chain>, l: Log, inFlight: set<nat>)
    requires BuffersOk(info, chains, l, inFlight) && l.doneq != [] && l.doneq[0] in chains && l.doneq[0] !in l.finished
    ensures var h := l.doneq[0];
            && |info| == NUM && h < NUM && info[h].status == 0 && info[h].b == chains[h].buf
            && chains[h].buf in inFlight
            && BuffersOk(info, chains, l.(noticed := l.noticed + 1, doneq := l.doneq[1..],
                finished := l.finished + {h}),
                         inFlight - {chains[h].buf})
  {
    var h := l.doneq[0];
    assert h in l.doneq && forall x | x in l.doneq[1..] :: x in l.doneq;
    assert chains[h].buf in Waiting(chains, l.finished);
    assert Waiting(chains, l.finished + {h}) == Waiting(chains, l.finished) - {chains[h].buf};
  }

  lemma BufferRetired(info: seq<Info>, chains: map<nat, Chain>, l: Log, inFlight: set<nat>, h: nat)
    requires BuffersOk(info, chains, l, inFlight) && h in chains && h in l.finished && h !in l.doneq
    ensures h < |info|
    ensures BuffersOk(info[h := info[h].(b := -1)], chains - {h}, l.(finished := l.finished - {h}), inFlight)
  {
    assert Waiting(chains - {h}, l.finished - {h}) == Waiting(chains, l.finished) by {
      assert forall g | g in chains - {h} :: (chains - {h})[g] == chains[g];
    }
  }

  // ---- The device meanwhile ----

  /** How many steps device and interrupt handler can still take. */
  ghost function Work(l: Log): nat {
    3 * |l.queue| + 2 * |l.device| + |l.doneq|
  }

  /** All requests, wherever they are. */
  ghost function All(l: Log): set<nat> {
    l.finished + Elems(l.doneq) + l.device + Elems(l.queue)
  }

  /** `m` comes after `l` by steps of the device alone. */
  ghost predicate Advanced(l: Log, m: Log) {
    m.finished == l.finished && All(m) == All(l) && l.doneq <= m.doneq
  }

  lemma NotAdvanced(l: Log)
    ensures Advanced(l, l)
  {
  }

  lemma AdvanceFetch(l0: Log, l: Log, m: Log, h: nat)
    requires Advanced(l0, l) && l.queue != [] && h == l.queue[0]
    requires m == l.(fetched := m.fetched, queue := l.queue[1..], device := l.device + {h})
    ensures Advanced(l0, m) && Work(m) < Work(l)
  {
    TakeFirst(l.queue);
    assert |l.device + {h}| <= |l.device| + 1 by {
      if h in l.device {
        assert l.device + {h} == l.device;
      }
    }
    hide Elems;
    assert All(m) == All(l);
  }

  lemma AdvanceComplete(l0: Log, l: Log, m: Log, h: nat)
    requires Advanced(l0, l) && h in l.device
    requires m == l.(completed := m.completed, device := l.device - {h}, doneq := l.doneq + [h])
    ensures Advanced(l0, m) && Work(m) < Work(l)
  {
    assert Elems(l.doneq + [h]) == Elems(l.doneq) + {h};
    hide Elems;
    assert All(m) == All(l);
  }

  /** What was completed in `l` is completed or noticed in `m`, and no request is lost. */
  ghost predicate Served(l: Log, m: Log) {
    l.finished + Elems(l.doneq) <= m.finished + Elems(m.doneq) && All(m) == All(l)
  }

  lemma ServedRuns(l0: Log, l: Log, m: Log)
    requires Advanced(l, m) && (l0 == l || Served(l0, l))
    ensures Served(l0, m)
  {
    assert Elems(l.doneq) <= Elems(m.doneq);
  }

  lemma ServedNotice(l0: Log, l: Log, m: Log)
    requires Served(l0, l) && l.doneq != []
    requires m == l.(noticed := m.noticed, doneq := l.doneq[1..], finished := l.finished + {l.doneq[0]})
    ensures Served(l0, m) && Work(m) < Work(l)
  {
    TakeFirst(l.doneq);
    hide Elems;
    assert All(m) == All(l);
  }

  lemma ServedAll(l0: Log, m: Log)
    requires Served(l0, m) && m.doneq == []
    ensures l0.finished + Elems(l0.doneq) <= m.finished && All(m) == All(l0)
  {
    NoElems();
  }

  class Driver {
    var desc: seq<Desc>
    var free: seq<bool>
    var info: seq<Info>
    var ops: seq<Op>
    /** disk.avail, disk.used (which the device writes) and disk.used_idx. */
    var avail: Ring
    var used: Ring
    var usedIdx: nat
    /** How far the device has read the avail ring. */
    var lastAvail: nat
    /** The buffers with b->disk == 1. */
    var inFlight: set<nat>
    /** Where each request is, as the device and the driver together know. */
    var log: Log

    ghost var chains: map<nat, Chain>
    ghost var owner: seq<nat>

    ghost predicate Descriptors()
      reads this
    {
      Owned(free, desc, chains, owner) && (forall i | 0 <= i < NUM :: owner[i] <= NUM)
    }

    ghost predicate Valid()
      reads this
    {
      && Descriptors()
      && RingsOk(avail, used, usedIdx, lastAvail, chains.Keys, log)
      && BuffersOk(info, chains, log, inFlight) && OpsOk(ops, chains)
    }

    /** After virtio_disk_init. */
    constructor ()
      ensures Valid() && chains == map[] && inFlight == {}
    {
      desc, free := seq(NUM, i => NoDesc()), seq(NUM, i => true);
      info, ops := seq(NUM, i => Info(-1, 0)), seq(NUM, i => Op(false, 0));
      avail, used := Ring(seq(NUM, i => 0), 0), Ring(seq(NUM, i => 0), 0);
      usedIdx, lastAvail, inFlight := 0, 0, {};
      chains, owner := map[], seq(NUM, i => NUM);
      log := Log(0, 0, 0, 0, [], {}, [], {});
    }

    // ---- Descriptors ----

    /** alloc_desc: the first free descriptor, or -1. */
    method AllocDesc() returns (i: int)
      requires Owned(free, desc, chains, owner)
      modifies this`free, this`owner
      ensures Owned(free, desc, chains, owner) && |old(free)| == |old(owner)| == |free| == NUM
      ensures i == -1 ==> unchanged(this) && forall k | 0 <= k < NUM :: !free[k]
      ensures i != -1 ==>
                && 0 <= i < NUM && old(free)[i] && old(owner)[i] == NUM && free == old(free)[i := false]
                && owner == old(owner)[i := NUM + 1]
                && forall k | 0 <= k < i :: !old(free)[k]
    {
      i := 0;
      while i < NUM
        invariant 0 <= i <= NUM && unchanged(this) && forall k | 0 <= k < i :: !free[k]
      {
        if free[i] {
          free := free[i := false];
          owner := owner[i := NUM + 1];
          StillLinked(desc, desc, chains, old(owner), owner);
          return;
        }
        i := i + 1;
      }
      i := -1;
    }

    /** free_desc.  `ok` is false where it panics. */
    method FreeDesc(i: nat) returns (ok: bool)
      requires |free| == |desc| == NUM
      modifies this`free, this`desc
      ensures ok <==> i < NUM && !old(free)[i]
      ensures !ok ==> unchanged(this)
      ensures ok ==> free == old(free)[i := true] && desc == old(desc)[i := NoDesc()]
    {
      if i >= NUM || free[i] {
        return false;
      }
      desc := desc[i := NoDesc()];
      free := free[i := true];
      ok := true;
    }

    /** alloc3_desc: three different descriptors, or nothing at all. */
    method Alloc3Desc() returns (ok: bool, idx: seq<nat>)
      requires Descriptors()
      modifies this`free, this`desc, this`owner
      ensures |old(free)| == |old(owner)| == NUM && |desc| == NUM && forall i | 0 <= i < NUM :: old(owner)[i] <= NUM
      ensures !ok ==> unchanged(this)
      ensures !ok <==> FewFree(old(free))
      ensures ok ==>
                && |idx| == 3 && idx[0] < idx[1] < idx[2] < NUM && desc == old(desc)
                && owner == old(owner)[idx[0] := NUM + 1][idx[1] := NUM + 1][idx[2] := NUM + 1]
                && Owned(free, desc, chains, owner) && forall k | 0 <= k < 3 :: old(owner)[idx[k]] == NUM
    {
      hide Owned, FewFree;
      var a := AllocDesc();
      if a < 0 {
        AtMostFree(free, NUM, NUM);
        return false, [];
      }
      var b := AllocDesc();
      if b < 0 {
        assert forall k: nat | k < NUM && k != a :: free[k] == old(free)[k];
        AtMostFree(old(free), a, a);
        GiveBack(a, old(free), old(owner));
        return false, [];
      }
      var c := AllocDesc();
      if c < 0 {
        assert forall k: nat | k < NUM && k != a && k != b :: free[k] == old(free)[k];
        AtMostFree(old(free), a, b);
        GiveBack(a, old(free)[b := false], old(owner)[b := NUM + 1]);
        GiveBack(b, old(free), old(owner));
        return false, [];
      }
      ThreeFree(old(free), a, b, c);
      return true, [a, b, c];
    }

    /** free_desc on a descriptor that alloc3_desc holds. */
    method GiveBack(i: nat, ghost free0: seq<bool>, ghost owner0: seq<nat>)
      requires Owned(free, desc, chains, owner) && i < NUM && owner[i] == NUM + 1
      requires |free0| == |owner0| == NUM && free == free0[i := false] && owner == owner0[i := NUM + 1]
      requires free0[i] && owner0[i] == NUM
      modifies this`free, this`desc, this`owner
      ensures free == free0 && owner == owner0 && desc == old(desc) && Owned(free, desc, chains, owner)
    {
      var ok := FreeDesc(i);
      owner := owner[i := NUM];
      StillLinked(old(desc), desc, chains, old(owner), owner);
    }

    // ---- virtio_disk_rw ----

    /** The first half of virtio_disk_rw, up to the notification: three descriptors are
        filled in and their head is posted.  `ok` is false where the code has to sleep
        because fewer than three are free. */
    method Submit(b: nat, blockno: nat, write: bool) returns (ok: bool, head: nat)
      requires Valid() && forall h | h in chains :: chains[h].buf != b
      modifies this
      ensures Valid()
      ensures !ok ==> unchanged(this)
      ensures |old(free)| == NUM
      ensures !ok <==> FewFree(old(free))
      ensures ok ==>
                && head !in old(chains) && chains.Keys == old(chains).Keys + {head}
                && chains == old(chains)[head := chains[head]]
                && chains[head].buf == b && chains[head].op == Op(write, blockno * (BSIZE / 512))
                && log.queue == old(log).queue + [head] && inFlight == old(inFlight) + {b}
    {
      hide RingsOk, BuffersOk, Linked, Owned, FewFree;
      var idx;
      ok, idx := Alloc3Desc();
      if !ok {
        return false, 0;
      }
      head := idx[0];
      var mid, last := idx[1], idx[2];
      ghost var c := Chain(mid, last, b, Op(write, blockno * (BSIZE / 512)));
      FreshHead(free, desc, chains, owner, head);
      ops := ops[head := Op(write, blockno * (BSIZE / 512))];
      desc := desc[head := Desc(Header(head), HEADER, true, false, mid)];
      desc := desc[mid := Desc(Data(b), BSIZE, true, !write, last)];
      desc := desc[last := Desc(Status(head), 1, false, true, 0)];
      NewRequest(free, old(desc), desc, chains, owner, head, c);
      ghost var held := owner;
      owner := owner[head := head][mid := head][last := head];
      NoneHeld(old(owner), held, owner, head, mid, last);
      PostRequest(head, b, c);
    }

    /** `b->disk = 1; disk.info[idx[0]].b = b;` and the new entry of the avail ring. */
    method PostRequest(head: nat, b: nat, ghost c: Chain)
      requires Owned(free, desc, chains[head := c], owner) && forall i | 0 <= i < NUM :: owner[i] <= NUM
      requires RingsOk(avail, used, usedIdx, lastAvail, chains.Keys, log) && BuffersOk(info, chains, log, inFlight)
      requires head < NUM && head !in chains && b == c.buf && forall h | h in chains :: chains[h].buf != b
      requires OpsOk(ops, chains[head := c])
      modifies this`avail, this`info, this`inFlight, this`log, this`chains
      ensures Valid() && chains == old(chains)[head := c] && chains.Keys == old(chains).Keys + {head}
      ensures log.queue == old(log).queue + [head] && inFlight == old(inFlight) + {b}
    {
      hide RingsOk, BuffersOk, Owned, OpsOk;
      AtMostTwo(free, desc, chains[head := c], owner);
      OneMoreKey(chains, head, c);
      Post(avail, used, usedIdx, lastAvail, chains.Keys, log, head);
      BufferPosted(info, chains, log, inFlight, head, c);
      info := info[head := Info(b, 0xff)];
      inFlight := inFlight + {b};
      avail := Ring(avail.slots[avail.idx % NUM := head], (avail.idx + 1) % IDX);
      log := log.(posted := log.posted + 1, queue := log.queue + [head]);
      chains := chains[head := c];
    }

    // ---- The device ----

    /** The device takes the next request off the avail ring and follows its chain: what it
        is to do, on which buffer, and whether it is to write there. */
    method Fetch() returns (head: nat, op: Op, b: nat, fill: bool)
      requires Valid() && log.queue != []
      modifies this`lastAvail, this`log
      ensures Valid() && head == old(log).queue[0]
      ensures log == old(log).(fetched := log.fetched, queue := old(log).queue[1..], device := old(log).device + {head})
      ensures head in chains && op == chains[head].op && b == chains[head].buf && fill == !op.out
    {
      hide RingsOk, Owned;
      FetchNext(avail, used, usedIdx, lastAvail, chains.Keys, log);
      head := avail.slots[lastAvail % NUM];
      ChainOf(free, desc, chains, owner, head);
      op := ops[desc[head].addr.i];
      b, fill := desc[desc[head].next].addr.b, desc[desc[head].next].write;
      lastAvail := (lastAvail + 1) % IDX;
      log := log.(fetched := log.fetched + 1, queue := log.queue[1..], device := log.device + {log.queue[0]});
    }

    /** The device completes a request, successfully, and puts it on the used ring. */
    method Complete(head: nat)
      requires Valid() && head in log.device
      modifies this`info, this`used, this`log
      ensures Valid()
      ensures log == old(log).(completed := log.completed, device := old(log).device - {head},
                doneq := old(log).doneq + [head])
    {
      hide RingsOk, Owned;
      CompleteOne(avail, used, usedIdx, lastAvail, chains.Keys, log, head);
      ChainOf(free, desc, chains, owner, head);
      var i := desc[desc[desc[head].next].next].addr.i;
      info := info[i := info[i].(status := 0)];
      used := Ring(used.slots[used.idx % NUM := head], (used.idx + 1) % IDX);
      log := log.(completed := log.completed + 1, device := log.device - {head}, doneq := log.doneq + [head]);
    }

    // ---- virtio_disk_intr ----

    /** One round of virtio_disk_intr. */
    method Notice() returns (ok: bool)
      requires Valid() && log.doneq != []
      modifies this`inFlight, this`usedIdx, this`log
      ensures Valid() && ok
      ensures log == old(log).(noticed := log.noticed, doneq := old(log).doneq[1..],
                               finished := old(log).finished + {old(log).doneq[0]})
    {
      hide RingsOk, BuffersOk, Owned;
      NoticeNext(avail, used, usedIdx, lastAvail, chains.Keys, log);
      BufferNoticed(info, chains, log, inFlight);
      var id := used.slots[usedIdx % NUM];
      if info[id].status != 0 {
        return false;
      }
      inFlight := inFlight - {info[id].b};
      usedIdx := (usedIdx + 1) % IDX;
      log := log.(noticed := log.noticed + 1, doneq := log.doneq[1..], finished := log.finished + {log.doneq[0]});
      ok := true;
    }

    /** What the device may do while the driver looks away: it fetches requests and completes
        some of those it has, in any order. */
    method DeviceRuns()
      requires Valid()
      modifies this`lastAvail, this`info, this`used, this`log
      ensures Valid() && Work(log) <= old(Work(log)) && Advanced(old(log), log)
    {
      hide RingsOk, BuffersOk, Owned, Advanced;
      NotAdvanced(log);
      var go, fetch := *, *;
      while go && (log.queue != [] || log.device != {})
        invariant Valid() && Work(log) <= old(Work(log)) && Advanced(old(log), log)
        decreases Work(log)
      {
        ghost var l := log;
        if log.queue != [] && (log.device == {} || fetch) {
          var head, op, b, fill := Fetch();
          AdvanceFetch(old(log), l, log, head);
        } else {
          var head :| head in log.device;
          Complete(head);
          AdvanceComplete(old(log), l, log, head);
        }
        go, fetch := *, *;
      }
    }

    /** virtio_disk_intr, while the device goes on working.  `ok` is false where it panics over
        a status.  All that was completed before the last look at the used ring, and nothing
        else, is noticed, and its buffers are released. */
    method Intr() returns (ok: bool)
      requires Valid()
      modifies this`lastAvail, this`info, this`used, this`inFlight, this`usedIdx, this`log
      ensures Valid() && ok && log.doneq == []
      ensures old(log).finished + Elems(old(log).doneq) <= log.finished && All(log) == All(old(log))
      ensures inFlight == Waiting(chains, log.finished)
    {
      hide RingsOk, Owned, Elems, All, Advanced, Served, Waiting, OpsOk;
      DeviceRuns();
      ServedRuns(old(log), old(log), log);
      FewUnderWay(avail, used, usedIdx, lastAvail, chains.Keys, log);
      while usedIdx != used.idx
        invariant Valid() && (usedIdx != used.idx <==> log.doneq != []) && Served(old(log), log)
        decreases Work(log)
      {
        ghost var l := log;
        ok := Notice();
        if !ok {
          return;
        }
        ServedNotice(old(log), l, log);
        l := log;
        DeviceRuns();
        ServedRuns(old(log), l, log);
        FewUnderWay(avail, used, usedIdx, lastAvail, chains.Keys, log);
      }
      ServedAll(old(log), log);
      ok := true;
    }

    // ---- The end of virtio_disk_rw ----

    /** free_chain.  `ok` is false where free_desc panics. */
    method FreeChain(i0: nat) returns (ok: bool, ghost freed: seq<nat>)
      requires Descriptors() && i0 in chains
      modifies this`desc, this`free, this`owner
      ensures ok && freed == [i0, chains[i0].mid, chains[i0].last]
      ensures |old(free)| == NUM && freed[0] < NUM && freed[1] < NUM && freed[2] < NUM
      ensures free == old(free)[freed[0] := true][freed[1] := true][freed[2] := true]
      ensures |old(owner)| == NUM && owner == old(owner)[freed[0] := NUM][freed[1] := NUM][freed[2] := NUM]
      ensures Owned(free, desc, chains - {i0}, owner) && forall i | 0 <= i < NUM :: owner[i] <= NUM
    {
      hide Owned, FreedFirst, ClearedFirst;
      ChainOf(free, desc, chains, owner, i0);
      ghost var c := chains[i0];
      ghost var ds := [i0, c.mid, c.last];
      var i := i0;
      freed := [];
      FirstOf(old(free), old(desc), ds, 0);
      while true
        invariant owner == old(owner) && |freed| <= 2 && freed == ds[..|freed|] && i == ds[|freed|]
        invariant free == FreedFirst(old(free), ds, |freed|) && desc == ClearedFirst(old(desc), ds, |freed|)
        invariant |free| == |desc| == NUM && !free[i] && desc[i] == old(desc)[i]
        decreases 3 - |freed|
      {
        var more, next := desc[i].more, desc[i].next;
        ok := FreeDesc(i);
        FirstNext(old(free), old(desc), ds, |freed|);
        freed := freed + [i];
        if more {
          i := next;
          FirstOf(old(free), old(desc), ds, |freed|);
        } else {
          break;
        }
      }
      assert freed == ds;
      FirstThree(old(free), old(desc), ds);
      owner := owner[i0 := NUM][c.mid := NUM][c.last := NUM];
      RequestGone(old(free), old(desc), chains, old(owner), i0, c);
    }

    /** Woken up with b->disk == 0: `disk.info[idx[0]].b = 0; free_chain(idx[0]);` */
    method Finish(head: nat) returns (ok: bool)
      requires Valid() && head in log.finished
      modifies this`desc, this`free, this`owner, this`info, this`chains, this`log
      ensures Valid() && ok && head in old(chains) && chains == old(chains) - {head}
                && log.finished == old(log).finished - {head}
    {
      hide RingsOk, BuffersOk, Owned;
      Retire(avail, used, usedIdx, lastAvail, chains.Keys, log, head);
      BufferRetired(info, chains, log, inFlight, head);
      info := info[head := info[head].(b := -1)];
      ghost var freed;
      ok, freed := FreeChain(head);
      assert (chains - {head}).Keys == chains.Keys - {head};
      chains := chains - {head};
      log := log.(finished := log.finished - {head});
    }
  }

  lemma OneMoreKey(chains: map<nat, Chain>, h: nat, c: Chain)
    ensures chains[h := c].Keys == chains.Keys + {h}
  {
  }

  lemma SizePlus(s: set<nat>, x: nat)
    requires x !in s
    ensures |s + {x}| == |s| + 1
  {
  }

  lemma NoElems()
    ensures Elems([]) == {}
  {
  }

  lemma TakeFirst(q: seq<nat>)
    requires q != []
    ensures Elems(q) == {q[0]} + Elems(q[1..]) && q[0] in q
  {
    assert q == [q[0]] + q[1..];
  }

  /** At most two descriptors are free. */
  ghost predicate FewFree(free: seq<bool>) {
    |free| == NUM && forall a, b, c | 0 <= a < b < c < NUM :: !(free[a] && free[b] && free[c])
  }

  lemma AtMostFree(free: seq<bool>, a: nat, b: nat)
    requires |free| == NUM && forall k: nat | k < NUM && k != a && k != b :: !free[k]
    ensures FewFree(free)
  {
  }

  lemma ThreeFree(free: seq<bool>, a: nat, b: nat, c: nat)
    requires |free| == NUM && a < b < c < NUM && free[a] && free[b] && free[c]
    ensures !FewFree(free)
  {
  }

  /** A descriptor that was free is no request's head. */
  lemma FreshHead(free: seq<bool>, desc: seq<Desc>, chains: map<nat, Chain>, owner: seq<nat>, h: nat)
    requires Owned(free, desc, chains, owner) && h < NUM && owner[h] >= NUM
    ensures h !in chains
  {
    assert h in chains ==> Linked(desc, owner, h, chains[h]);
  }

  /** A request's descriptors are where they were. */
  lemma LinkStays(desc: seq<Desc>, desc': seq<Desc>, owner: seq<nat>, owner': seq<nat>, g: nat, c: Chain)
    requires |desc| == |desc'| == |owner| == |owner'| == NUM && Linked(desc, owner, g, c)
    requires forall i | 0 <= i < NUM && owner[i] == g :: desc'[i] == desc[i] && owner'[i] == g
    ensures Linked(desc', owner', g, c)
  {
  }

  /** The three descriptors go to their new request and all others stay where they were. */
  lemma NewOwners(free: seq<bool>, desc: seq<Desc>, desc': seq<Desc>, chains: map<nat, Chain>, owner: seq<nat>,
                  h: nat, c: Chain)
    requires Owned(free, desc, chains, owner) && h < NUM && c.mid < NUM && c.last < NUM && h !in chains
    requires owner[h] == owner[c.mid] == owner[c.last] == NUM + 1 && |desc'| == NUM
    requires forall i | 0 <= i < NUM && i != h && i != c.mid && i != c.last :: desc'[i] == desc[i]
    ensures var owner' := owner[h := h][c.mid := h][c.last := h]; var chains' := chains[h := c];
            && (forall i: nat | i < NUM :: free[i] <==> owner'[i] == NUM)
            && (forall i: nat | i < NUM && owner'[i] >= NUM :: desc'[i] == NoDesc())
            && (forall i: nat | i < NUM && owner'[i] < NUM :: InChain(chains', owner'[i], i))
  {
    hide Linked;
  }

  /** Three descriptors from alloc3_desc, filled in, are one more request. */
  lemma NewRequest(free: seq<bool>, desc: seq<Desc>, desc': seq<Desc>, chains: map<nat, Chain>, owner: seq<nat>,
                   h: nat, c: Chain)
    requires Owned(free, desc, chains, owner) && h !in chains
    requires h < NUM && c.mid < NUM && c.last < NUM && h != c.mid && h != c.last && c.mid != c.last
    requires owner[h] == owner[c.mid] == owner[c.last] == NUM + 1 && |desc'| == NUM && Formatted(desc', h, c)
    requires forall i | 0 <= i < NUM && i != h && i != c.mid && i != c.last :: desc'[i] == desc[i]
    ensures Owned(free, desc', chains[h := c], owner[h := h][c.mid := h][c.last := h])
  {
    hide Formatted;
    var owner', chains' := owner[h := h][c.mid := h][c.last := h], chains[h := c];
    NewOwners(free, desc, desc', chains, owner, h, c);
    forall g | g in chains'
      ensures Linked(desc', owner', g, chains'[g])
    {
      if g != h {
        assert Linked(desc, owner, g, chains[g]);
        LinkStays(desc, desc', owner, owner', g, chains[g]);
      }
    }
  }

  /** `free` with the first k descriptors of `ds` freed; `desc` with them cleared. */
  ghost function FreedFirst(free: seq<bool>, ds: seq<nat>, k: nat): (r: seq<bool>)
    requires |free| == NUM && k <= |ds| && forall i | 0 <= i < |ds| :: ds[i] < NUM
    ensures |r| == NUM
  {
    if k == 0 then free else FreedFirst(free, ds, k - 1)[ds[k - 1] := true]
  }

  ghost function ClearedFirst(desc: seq<Desc>, ds: seq<nat>, k: nat): (r: seq<Desc>)
    requires |desc| == NUM && k <= |ds| && forall i | 0 <= i < |ds| :: ds[i] < NUM
    ensures |r| == NUM
  {
    if k == 0 then desc else ClearedFirst(desc, ds, k - 1)[ds[k - 1] := NoDesc()]
  }

  /** A descriptor not among the first k is as it was. */
  lemma {:induction false} FirstElsewhere(free: seq<bool>, desc: seq<Desc>, ds: seq<nat>, k: nat, x: nat)
    requires |free| == |desc| == NUM && k <= |ds| && x < NUM && forall i | 0 <= i < |ds| :: ds[i] < NUM
    requires forall i | 0 <= i < k :: ds[i] != x
    ensures FreedFirst(free, ds, k)[x] == free[x] && ClearedFirst(desc, ds, k)[x] == desc[x]
  {
    if k > 0 {
      FirstElsewhere(free, desc, ds, k - 1, x);
    }
  }

  lemma FirstOf(free: seq<bool>, desc: seq<Desc>, ds: seq<nat>, k: nat)
    requires |free| == |desc| == NUM && |ds| == 3 && k < 3 && Distinct(ds) && forall i | 0 <= i < 3 :: ds[i] < NUM
    ensures FreedFirst(free, ds, k)[ds[k]] == free[ds[k]] && ClearedFirst(desc, ds, k)[ds[k]] == desc[ds[k]]
    ensures k == 0 ==> FreedFirst(free, ds, k) == free && ClearedFirst(desc, ds, k) == desc
  {
    FirstElsewhere(free, desc, ds, k, ds[k]);
  }

  lemma FirstNext(free: seq<bool>, desc: seq<Desc>, ds: seq<nat>, k: nat)
    requires |free| == |desc| == NUM && |ds| == 3 && k < 3 && forall i | 0 <= i < 3 :: ds[i] < NUM
    ensures FreedFirst(free, ds, k + 1) == FreedFirst(free, ds, k)[ds[k] := true]
    ensures ClearedFirst(desc, ds, k + 1) == ClearedFirst(desc, ds, k)[ds[k] := NoDesc()]
  {
  }

  lemma FirstThree(free: seq<bool>, desc: seq<Desc>, ds: seq<nat>)
    requires |free| == |desc| == NUM && |ds| == 3 && forall i | 0 <= i < 3 :: ds[i] < NUM
    ensures FreedFirst(free, ds, 3) == free[ds[0] := true][ds[1] := true][ds[2] := true]
    ensures ClearedFirst(desc, ds, 3) == desc[ds[0] := NoDesc()][ds[1] := NoDesc()][ds[2] := NoDesc()]
  {
    FirstNext(free, desc, ds, 0);
    FirstNext(free, desc, ds, 1);
    FirstNext(free, desc, ds, 2);
  }

  lemma ChainOf(free: seq<bool>, desc: seq<Desc>, chains: map<nat, Chain>, owner: seq<nat>, h: nat)
    requires Owned(free, desc, chains, owner) && h in chains
    ensures |free| == |desc| == |owner| == NUM && Linked(desc, owner, h, chains[h])
    ensures var c := chains[h]; Distinct([h, c.mid, c.last]) && !free[h] && !free[c.mid] && !free[c.last]
  {
    assert Linked(desc, owner, h, chains[h]);
  }

  /** alloc3_desc has given all it held to the request. */
  lemma NoneHeld(owner0: seq<nat>, owner: seq<nat>, owner': seq<nat>, h: nat, mid: nat, last: nat)
    requires |owner0| == NUM && h < NUM && mid < NUM && last < NUM && forall i | 0 <= i < NUM :: owner0[i] <= NUM
    requires owner == owner0[h := NUM + 1][mid := NUM + 1][last := NUM + 1]
    requires owner' == owner[h := h][mid := h][last := h]
    ensures forall i | 0 <= i < NUM :: owner'[i] <= NUM
  {
  }

  /** The descriptors of a request that is gone are free, and all others are where they were. */
  lemma GoneOwners(free: seq<bool>, desc: seq<Desc>, chains: map<nat, Chain>, owner: seq<nat>, h: nat, c: Chain)
    requires Owned(free, desc, chains, owner) && h in chains && c == chains[h] && Linked(desc, owner, h, c)
    ensures var free' := free[h := true][c.mid := true][c.last := true];
            var desc' := desc[h := NoDesc()][c.mid := NoDesc()][c.last := NoDesc()];
            var owner' := owner[h := NUM][c.mid := NUM][c.last := NUM];
            && (forall i: nat | i < NUM :: free'[i] <==> owner'[i] == NUM)
            && (forall i: nat | i < NUM && owner'[i] >= NUM :: desc'[i] == NoDesc())
            && (forall i: nat | i < NUM && owner'[i] < NUM ::
                  owner'[i] != h && InChain(chains, owner'[i], i))
  {
    hide Formatted;
  }

  lemma GoneLinked(desc: seq<Desc>, chains: map<nat, Chain>, owner: seq<nat>, h: nat, c: Chain)
    requires |desc| == |owner| == NUM && h in chains && c == chains[h] && Linked(desc, owner, h, c)
    requires forall g | g in chains :: Linked(desc, owner, g, chains[g])
    ensures var desc' := desc[h := NoDesc()][c.mid := NoDesc()][c.last := NoDesc()];
            var owner' := owner[h := NUM][c.mid := NUM][c.last := NUM];
            forall g | g in chains && g != h :: Linked(desc', owner', g, chains[g])
  {
    hide Formatted;
    var desc' := desc[h := NoDesc()][c.mid := NoDesc()][c.last := NoDesc()];
    var owner' := owner[h := NUM][c.mid := NUM][c.last := NUM];
    forall g | g in chains && g != h
      ensures Linked(desc', owner', g, chains[g])
    {
      LinkStays(desc, desc', owner, owner', g, chains[g]);
    }
  }

  lemma InFewer(chains: map<nat, Chain>, h: nat, o: nat, i: nat)
    requires InChain(chains, o, i) && o != h
    ensures InChain(chains - {h}, o, i)
  {
  }

  /** Its three descriptors cleared and freed, a request is gone. */
  lemma RequestGone(free: seq<bool>, desc: seq<Desc>, chains: map<nat, Chain>, owner: seq<nat>, h: nat, c: Chain)
    requires Owned(free, desc, chains, owner) && h in chains && c == chains[h] && Linked(desc, owner, h, c)
    ensures Owned(free[h := true][c.mid := true][c.last := true],
                  desc[h := NoDesc()][c.mid := NoDesc()][c.last := NoDesc()],
                  chains - {h}, owner[h := NUM][c.mid := NUM][c.last := NUM])
  {
    GoneOwners(free, desc, chains, owner, h, c);
    GoneLinked(desc, chains, owner, h, c);
    var owner' := owner[h := NUM][c.mid := NUM][c.last := NUM];
    hide Linked, InChain, NoDesc;
    forall i: nat | i < NUM && owner'[i] < NUM
      ensures InChain(chains - {h}, owner'[i], i)
    {
      InFewer(chains, h, owner'[i], i);
    }
  }

  lemma NotYetDone(heads: set<nat>, queue: seq<nat>, device: set<nat>, doneq: seq<nat>, finished: set<nat>, h: nat)
    requires Placed(heads, queue, device, doneq, finished) && h !in heads
    ensures h !in doneq && h !in finished
  {
    assert h !in Elems(doneq);
  }

  /** Descriptors that belong to requests are not touched. */
  lemma StillLinked(desc: seq<Desc>, desc': seq<Desc>, chains: map<nat, Chain>, owner: seq<nat>, owner': seq<nat>)
    requires |desc| == |desc'| == |owner| == |owner'| == NUM
    requires forall i: nat | i < NUM && owner[i] < NUM :: owner'[i] == owner[i] && desc'[i] == desc[i]
    requires forall h | h in chains :: Linked(desc, owner, h, chains[h])
    ensures forall h | h in chains :: Linked(desc', owner', h, chains[h])
  {
    hide Formatted;
    forall h | h in chains
      ensures Linked(desc', owner', h, chains[h])
    {
      LinkStays(desc, desc', owner, owner', h, chains[h]);
    }
  }
}

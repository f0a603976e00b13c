/** The chunked transfer over UDP of networks/partb: the sender of datasequencing.c, the
    receiver of retransmissions.c, and the two of them over a channel that loses,
    duplicates and reorders. */
module Chunks {
  import opened Blocks
  import opened Wrappers

  const CHUNK_SIZE: nat := 8
  const MAX_CHUNKS: nat := 1000

  type Data = d: seq<Byte> | |d| == CHUNK_SIZE witness seq(CHUNK_SIZE, i => 0)

  // ---- Cutting the message ----

  function Total(n: nat): nat { (n + CHUNK_SIZE - 1) / CHUNK_SIZE }

  /** `chunk_size` of chunk `k` of a message of `n` bytes. */
  function SizeOf(n: nat, k: nat): nat {
    var size := if k == Total(n) - 1 then n % CHUNK_SIZE else CHUNK_SIZE;
    if size == 0 then CHUNK_SIZE else size
  }

  /** The chunks lie one behind the other, and the last ends where the message does. */
  lemma ChunkBounds(n: nat, k: nat)
    requires k < Total(n)
    ensures k * CHUNK_SIZE + SizeOf(n, k) <= n
    ensures k + 1 < Total(n) ==> SizeOf(n, k) == CHUNK_SIZE
    ensures k + 1 == Total(n) ==> k * CHUNK_SIZE + SizeOf(n, k) == n
  {
  }

  function Piece(msg: seq<Byte>, k: nat): (d: seq<Byte>)
    requires k < Total(|msg|)
    ensures 0 < |d| <= CHUNK_SIZE
  {
    ChunkBounds(|msg|, k);
    msg[k * CHUNK_SIZE..k * CHUNK_SIZE + SizeOf(|msg|, k)]
  }

  // ---- The receiver ----

  datatype Packet = Packet(seqno: nat, data: seq<Byte>)

  /** `chunks`, `acked_chunks`, `chunks_received` and `flag` of receive_message, and the
      data bytes of its packet buffer. */
  datatype RState = RState(total: nat, chunks: seq<Option<Data>>, acked: seq<bool>, count: nat, flag: bool, buf: Data)

  ghost predicate ROk(r: RState) {
    |r.chunks| == |r.acked| == MAX_CHUNKS && r.total <= MAX_CHUNKS
  }

  /** recvfrom overwrites only as many bytes of the buffer as the packet has. */
  function Fill(buf: Data, payload: seq<Byte>): Data
    requires |payload| <= CHUNK_SIZE
  {
    payload + buf[|payload|..]
  }

  /** One round of the receive loop, for a packet with sequence number `k`. */
  function Receive(r: RState, k: nat, payload: seq<Byte>): (r': RState)
    requires |r.chunks| == |r.acked| == MAX_CHUNKS && k < MAX_CHUNKS && |payload| <= CHUNK_SIZE
  {
    var buf := Fill(r.buf, payload);
    var r1 := if r.chunks[k].None? then r.(chunks := r.chunks[k := Some(buf)], count := r.count + 1, buf := buf)
              else r.(buf := buf);
    if r.flag then r1.(acked := r1.acked[k := true], flag := false) else r1.(flag := true)
  }

  /** Whether that round sends an ACK: every other packet is answered. */
  predicate Answers(r: RState) { r.flag }

  /** The states of the receiver while the packets `ps` arrive, one after the other. */
  ghost predicate Receives(rs: seq<RState>, ps: seq<Packet>) {
    && |rs| == |ps| + 1 && (forall i | 0 <= i < |ps| :: ps[i].seqno < MAX_CHUNKS && |ps[i].data| <= CHUNK_SIZE)
    && (forall i | 0 <= i < |rs| :: |rs[i].chunks| == |rs[i].acked| == MAX_CHUNKS)
    && forall i | 0 <= i < |ps| :: rs[i + 1] == Receive(rs[i], ps[i].seqno, ps[i].data)
  }

  /** Exactly every other packet is answered. */
  lemma {:induction false} EveryOther(rs: seq<RState>, ps: seq<Packet>, i: nat)
    requires Receives(rs, ps) && i < |rs|
    ensures Answers(rs[i]) <==> if i % 2 == 0 then rs[0].flag else !rs[0].flag
  {
    if i > 0 {
      EveryOther(rs, ps, i - 1);
      assert rs[i - 1 + 1] == Receive(rs[i - 1], ps[i - 1].seqno, ps[i - 1].data);
    }
  }

  /** The chunks marked are those of the packets answered. */
  lemma {:induction false} MarkedAreAnswered(rs: seq<RState>, ps: seq<Packet>, n: nat, k: nat)
    requires Receives(rs, ps) && n < |rs| && k < MAX_CHUNKS
    ensures rs[n].acked[k] <==> rs[0].acked[k] || exists i :: 0 <= i < n && ps[i].seqno == k && Answers(rs[i])
  {
    if n > 0 {
      MarkedAreAnswered(rs, ps, n - 1, k);
      assert rs[n - 1 + 1] == Receive(rs[n - 1], ps[n - 1].seqno, ps[n - 1].data);
    }
  }

  /** The chunks stored are those that have arrived. */
  lemma {:induction false} StoredHaveArrived(rs: seq<RState>, ps: seq<Packet>, n: nat, k: nat)
    requires Receives(rs, ps) && n < |rs| && k < MAX_CHUNKS
    ensures rs[n].chunks[k].Some? <==> rs[0].chunks[k].Some? || exists i :: 0 <= i < n && ps[i].seqno == k
  {
    if n > 0 {
      StoredHaveArrived(rs, ps, n - 1, k);
      assert rs[n - 1 + 1] == Receive(rs[n - 1], ps[n - 1].seqno, ps[n - 1].data);
    }
  }

  ghost predicate AllAcked(acked: seq<bool>, total: nat) {
    total <= |acked| && forall i | 0 <= i < total :: acked[i]
  }

  ghost predicate Finished(r: RState) {
    r.count >= r.total && AllAcked(r.acked, r.total)
  }

  function StoredCount(chunks: seq<Option<Data>>): nat {
    if chunks == [] then 0
    else StoredCount(chunks[..|chunks| - 1]) + if chunks[|chunks| - 1].Some? then 1 else 0
  }

  lemma {:induction false} StoreOne(chunks: seq<Option<Data>>, k: nat, d: Data)
    requires k < |chunks|
    ensures StoredCount(chunks[k := Some(d)]) == StoredCount(chunks) + if chunks[k].None? then 1 else 0
  {
    var n := |chunks| - 1;
    if k < n {
      assert chunks[k := Some(d)][..n] == chunks[..n][k := Some(d)];
      StoreOne(chunks[..n], k, d);
    } else {
      assert chunks[k := Some(d)][..n] == chunks[..n];
    }
  }

  lemma {:induction false} NoneStored(chunks: seq<Option<Data>>)
    requires forall i | 0 <= i < |chunks| :: chunks[i].None?
    ensures StoredCount(chunks) == 0
  {
    if chunks != [] {
      NoneStored(chunks[..|chunks| - 1]);
    }
  }

  /** The rebuilt message: CHUNK_SIZE bytes of every chunk. */
  function Joined(chunks: seq<Option<Data>>, n: nat): (s: seq<Byte>)
    requires n <= |chunks| && forall i | 0 <= i < n :: chunks[i].Some?
    ensures |s| == n * CHUNK_SIZE
  {
    if n == 0 then [] else Joined(chunks, n - 1) + chunks[n - 1].value
  }

  class Receiver {
    const total: nat
    const chunks: array<Option<Data>>
    const acked: array<bool>
    var count: nat
    var flag: bool
    var buf: Data

    ghost predicate Valid()
      reads this
    {
      chunks.Length == acked.Length == MAX_CHUNKS && total <= MAX_CHUNKS
    }

    ghost function State(): (r: RState)
      requires Valid()
      reads this, chunks, acked
      ensures ROk(r)
    {
      RState(total, chunks[..], acked[..], count, flag, buf)
    }

    /** The count datagram has arrived.  The packet buffer is not initialised. */
    constructor (total: nat, buf: Data)
      requires total <= MAX_CHUNKS
      ensures Valid() && fresh(chunks) && fresh(acked)
      ensures State() == RState(total, seq(MAX_CHUNKS, i => None), seq(MAX_CHUNKS, i => false), 0, false, buf)
    {
      this.total, this.buf := total, buf;
      chunks := new Option<Data>[MAX_CHUNKS](i => None);
      acked := new bool[MAX_CHUNKS](i => false);
      count, flag := 0, false;
    }

    /** all_chunks_acknowledged */
    method AllChunksAcknowledged() returns (all: bool)
      requires Valid()
      ensures all <==> AllAcked(acked[..], total)
    {
      var i := 0;
      while i < total
        invariant 0 <= i <= total && forall k | 0 <= k < i :: acked[k]
      {
        if !acked[i] {
          return false;
        }
        i := i + 1;
      }
      return true;
    }

    /** The condition of the receive loop, negated. */
    method Done() returns (done: bool)
      requires Valid()
      ensures done <==> Finished(State())
    {
      var all := AllChunksAcknowledged();
      done := count >= total && all;
    }

    /** The body of the receive loop. */
    method Handle(k: nat, payload: seq<Byte>) returns (answered: bool)
      requires Valid() && k < MAX_CHUNKS && |payload| <= CHUNK_SIZE
      modifies this, chunks, acked
      ensures Valid() && State() == Receive(old(State()), k, payload) && answered == Answers(old(State()))
      // The first copy of a chunk is kept, and counted,
      ensures buf == payload + old(buf)[|payload|..]
      ensures forall i | 0 <= i < MAX_CHUNKS ::
                chunks[i] == if i == k && old(chunks[i]).None? then Some(buf) else old(chunks[i])
      ensures count == old(count) + if old(chunks[k]).None? then 1 else 0
      // and every other packet is answered: its chunk is marked, and no other.
      ensures answered == old(flag) && flag == !old(flag)
      ensures forall i | 0 <= i < MAX_CHUNKS :: acked[i] == (old(acked[i]) || (i == k && answered))
    {
      buf := payload + buf[|payload|..];
      if chunks[k].None? {
        chunks[k] := Some(buf);
        count := count + 1;
      }
      if flag {
        acked[k] := true;
        flag := false;
        answered := true;
      } else {
        flag := true;
        answered := false;
      }
    }

    /** The message put together, without the final zero byte. */
    method Rebuild() returns (message: seq<Byte>)
      requires Valid() && forall i | 0 <= i < total :: chunks[i].Some?
      ensures message == Joined(chunks[..], total)
    {
      message := [];
      var i := 0;
      while i < total
        invariant 0 <= i <= total && message == Joined(chunks[..], i)
      {
        message := message + chunks[i].value;
        i := i + 1;
      }
    }
  }

  // ---- The sender ----

  /** The packet for chunk `k`. */
  function PacketOf(msg: seq<Byte>, k: nat): Packet
    requires k < Total(|msg|)
  {
    Packet(k, Piece(msg, k))
  }

  function Payloads(ps: seq<Packet>): seq<Byte> {
    if ps == [] then [] else Payloads(ps[..|ps| - 1]) + ps[|ps| - 1].data
  }

  /** The packets of all chunks together carry the message. */
  lemma {:induction false} PayloadsPrefix(msg: seq<Byte>, ps: seq<Packet>)
    requires |ps| <= Total(|msg|) && forall k | 0 <= k < |ps| :: ps[k] == PacketOf(msg, k)
    ensures var len := if |ps| < Total(|msg|) then |ps| * CHUNK_SIZE else |msg|;
            len <= |msg| && Payloads(ps) == msg[..len]
  {
    if ps != [] {
      var n := |ps| - 1;
      PayloadsPrefix(msg, ps[..n]);
      ChunkBounds(|msg|, n);
      var at, piece := n * CHUNK_SIZE, Piece(msg, n);
      assert ps[n].data == piece && msg[..at] + piece == msg[..at + |piece|];
    }
  }

  /** `arr` after the ACKs `acks`; -1 stands for a timeout. */
  function Marked(arr: seq<bool>, acks: seq<int>): (r: seq<bool>)
    ensures |r| == |arr|
  {
    if acks == [] then arr
    else
      var r, k := Marked(arr, acks[..|acks| - 1]), acks[|acks| - 1];
      if 0 <= k < |arr| then r[k := true] else r
  }

  lemma {:induction false} MarkedAt(arr: seq<bool>, acks: seq<int>)
    ensures forall i | 0 <= i < |arr| :: Marked(arr, acks)[i] <==> arr[i] || i in acks
  {
    if acks != [] {
      MarkedAt(arr, acks[..|acks| - 1]);
      assert acks == acks[..|acks| - 1] + [acks[|acks| - 1]];
    }
  }

  /** What a pass resends: chunks below `k`, in order, that `arr` has as unacknowledged. */
  ghost predicate Resent(msg: seq<Byte>, arr: seq<bool>, sent: seq<Packet>, k: nat) {
    && k <= Total(|msg|) == |arr|
    && (forall x | 0 <= x < |sent| ::
          sent[x].seqno < k && !arr[sent[x].seqno] && sent[x] == PacketOf(msg, sent[x].seqno))
    && forall x, y | 0 <= x < y < |sent| :: sent[x].seqno < sent[y].seqno
  }

  ghost predicate Carries(sent: seq<Packet>, k: nat) {
    exists x :: 0 <= x < |sent| && sent[x].seqno == k
  }

  lemma NothingResent(msg: seq<Byte>, arr: seq<bool>)
    requires Total(|msg|) == |arr|
    ensures Resent(msg, arr, [], 0) && Marked(arr, []) == arr
  {
  }

  lemma ResentNext(msg: seq<Byte>, arr: seq<bool>, sent: seq<Packet>, k: nat)
    requires Resent(msg, arr, sent, k) && k < Total(|msg|)
    ensures Resent(msg, arr, sent, k + 1)
    ensures !arr[k] ==> Resent(msg, arr, sent + [PacketOf(msg, k)], k + 1)
    ensures Carries(sent + [PacketOf(msg, k)], k)
    ensures forall i | Carries(sent, i) :: Carries(sent + [PacketOf(msg, k)], i)
  {
    var longer := sent + [PacketOf(msg, k)];
    assert longer[|sent|].seqno == k;
    forall i | Carries(sent, i)
      ensures Carries(longer, i)
    {
      var x :| 0 <= x < |sent| && sent[x].seqno == i;
      assert longer[x].seqno == i;
    }
  }

  lemma MarkedNext(arr: seq<bool>, acks: seq<int>, n: nat)
    requires n < |acks|
    ensures var r, k := Marked(arr, acks[..n]), acks[n];
            Marked(arr, acks[..n + 1]) == if 0 <= k < |arr| then r[k := true] else r
  {
    assert acks[..n + 1][..n] == acks[..n];
  }

  /** How many times a pass over the first `k` chunks listens for an ACK: once for each chunk that
      is unacknowledged when the pass comes to it. */
  ghost function Heard(arr: seq<bool>, acks: seq<int>, k: nat): (n: nat)
    requires k <= |arr| <= |acks|
    ensures n <= k
  {
    if k == 0 then 0
    else
      var n := Heard(arr, acks, k - 1);
      if Marked(arr, acks[..n])[k - 1] then n else n + 1
  }

  /** Chunk `k` is still unacknowledged when the pass has listened for it. */
  ghost predicate StillOpen(arr: seq<bool>, acks: seq<int>, k: nat)
    requires k < |arr| <= |acks|
  {
    !Marked(arr, acks[..Heard(arr, acks, k + 1)])[k]
  }

  lemma HeardStart(arr: seq<bool>, acks: seq<int>)
    requires |arr| <= |acks|
    ensures Heard(arr, acks, 0) == 0
  {
  }

  lemma HeardNext(arr: seq<bool>, acks: seq<int>, k: nat)
    requires k < |arr| <= |acks|
    ensures var n := Heard(arr, acks, k);
            && Heard(arr, acks, k + 1) == (if Marked(arr, acks[..n])[k] then n else n + 1)
            && n < |acks| && (StillOpen(arr, acks, k) <==>
                                !Marked(arr, acks[..n])[k] && !Marked(arr, acks[..n + 1])[k])
  {
    hide Marked;
  }

  lemma OnlyLater(msg: seq<Byte>, arr: seq<bool>, sent: seq<Packet>, k: nat, i: nat)
    requires Resent(msg, arr, sent, k) && k < Total(|msg|)
    ensures !Carries(sent, k)
    ensures i < k ==> (Carries(sent + [PacketOf(msg, k)], i) <==> Carries(sent, i))
  {
    var longer := sent + [PacketOf(msg, k)];
    if i < k && Carries(longer, i) {
      var x :| 0 <= x < |longer| && longer[x].seqno == i;
      assert sent[x].seqno == i;
    }
    if Carries(sent, i) {
      var x :| 0 <= x < |sent| && sent[x].seqno == i;
      assert longer[x].seqno == i;
    }
  }

  class Sender {
    const msg: seq<Byte>
    const arr: array<bool>

    ghost predicate Valid()
      reads this
    {
      arr.Length == Total(|msg|)
    }

    constructor (msg: seq<Byte>)
      ensures Valid() && this.msg == msg && fresh(arr) && forall i | 0 <= i < arr.Length :: !arr[i]
    {
      this.msg := msg;
      arr := new bool[Total(|msg|)](i => false);
    }

    /** The packet for chunk `k`, cut out of the message as the two sending loops do. */
    method Cut(k: nat) returns (packet: Packet)
      requires Valid() && k < arr.Length
      ensures packet == PacketOf(msg, k)
    {
      var size := if k == arr.Length - 1 then |msg| % CHUNK_SIZE else CHUNK_SIZE;
      if size == 0 {
        size := CHUNK_SIZE;
      }
      ChunkBounds(|msg|, k);
      packet := Packet(k, msg[k * CHUNK_SIZE..k * CHUNK_SIZE + size]);
    }

    /** Step 1: every chunk once, in order; together the packets carry the message. */
    method SendAll() returns (sent: seq<Packet>)
      requires Valid()
      ensures |sent| == arr.Length && (forall k | 0 <= k < |sent| :: sent[k] == PacketOf(msg, k))
      ensures Payloads(sent) == msg
    {
      sent := [];
      var k := 0;
      while k < arr.Length
        invariant 0 <= k <= arr.Length && |sent| == k && forall i | 0 <= i < k :: sent[i] == PacketOf(msg, i)
      {
        var packet := Cut(k);
        sent := sent + [packet];
        k := k + 1;
      }
      PayloadsPrefix(msg, sent);
      assert msg[..|msg|] == msg;
    }

    /** One pass of the loop of step 2.  `incoming` gives what each recvfrom returns: an ACK,
        or -1 when it times out; `calls` of them happen.  Chunks that are unacknowledged when
        the pass comes to them are looked after, and a pass that found none ends the loop. */
    method Round(incoming: seq<int>) returns (all: bool, sent: seq<Packet>, calls: nat)
      requires Valid() && |incoming| >= arr.Length
      modifies arr
      ensures all <==> forall i | 0 <= i < arr.Length :: old(arr[i])
      ensures calls <= arr.Length && |sent| <= calls && (all <==> calls == 0)
      ensures arr[..] == Marked(old(arr[..]), incoming[..calls])
      ensures Resent(msg, old(arr[..]), sent, arr.Length)
      // Resent is exactly what no ACK that came before has acknowledged.
      ensures calls == Heard(old(arr[..]), incoming, arr.Length)
      ensures forall k: nat | k < arr.Length :: Carries(sent, k) <==> StillOpen(old(arr[..]), incoming, k)
      ensures forall k: nat | k < arr.Length && !arr[k] :: Carries(sent, k)
    {
      hide Resent, Carries, Marked, StillOpen, Heard;
      HeardStart(arr[..], incoming);
      all, sent, calls := true, [], 0;
      NothingResent(msg, arr[..]);
      var k := 0;
      while k < arr.Length
        invariant 0 <= k <= arr.Length && |sent| <= calls <= k && (all <==> calls == 0)
        invariant arr[..] == Marked(old(arr[..]), incoming[..calls])
        invariant all <==> forall i | 0 <= i < k :: old(arr[i])
        invariant Resent(msg, old(arr[..]), sent, k)
        invariant forall i: nat | i < k && !arr[i] :: Carries(sent, i)
        invariant calls == Heard(old(arr[..]), incoming, k)
        invariant forall i: nat | i < k :: Carries(sent, i) <==> StillOpen(old(arr[..]), incoming, i)
      {
        HeardNext(old(arr[..]), incoming, k);
        forall i: nat | i <= k {
          OnlyLater(msg, old(arr[..]), sent, k, i);
        }
        MarkedAt(old(arr[..]), incoming[..calls]);
        ResentNext(msg, old(arr[..]), sent, k);
        if !arr[k] {
          all := false;
          MarkedNext(old(arr[..]), incoming, calls);
          var ack := incoming[calls];
          calls := calls + 1;
          if 0 <= ack < arr.Length && !arr[ack] {
            arr[ack] := true;
          }
          if !arr[k] {
            var packet := Cut(k);
            sent := sent + [packet];
          }
        }
        k := k + 1;
      }
    }
  }
}

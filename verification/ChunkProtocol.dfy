/** Sender and receiver of networks/partb over a channel on which every packet may be lost,
    duplicated, delayed and overtaken.  The count datagram has arrived first, and once. */
module ChunkProtocol {
  import opened Blocks
  import opened Chunks
  import opened Wrappers

  /** `data` and `acks` are the packets ever sent, by sequence number: a packet may arrive
      any number of times, at any time, or never. */
  datatype State = State(msg: seq<Byte>, arr: seq<bool>, r: RState, data: set<nat>, acks: set<nat>)

  /** The sender sends chunk k, for the first time or again. */
  ghost predicate Send(s: State, t: State, k: nat) {
    k < |s.arr| && t == s.(data := s.data + {k})
  }

  /** A data packet reaches the receiver, which is still in its loop. */
  ghost predicate Deliver(s: State, t: State, k: nat) {
    && k in s.data && k < Total(|s.msg|) && ROk(s.r) && k < MAX_CHUNKS && !Finished(s.r)
    && t == s.(r := Receive(s.r, k, Piece(s.msg, k)), acks := if Answers(s.r) then s.acks + {k} else s.acks)
  }

  /** An ACK reaches the sender. */
  ghost predicate Ack(s: State, t: State, k: nat) {
    k in s.acks && k < |s.arr| && t == s.(arr := s.arr[k := true])
  }

  datatype Move = MSend(k: nat) | MDeliver(k: nat) | MAck(k: nat)

  ghost predicate Step(s: State, t: State, m: Move) {
    match m
    case MSend(k) => Send(s, t, k)
    case MDeliver(k) => Deliver(s, t, k)
    case MAck(k) => Ack(s, t, k)
  }

  ghost predicate Next(s: State, t: State) {
    exists m :: Step(s, t, m)
  }

  /** Whatever is in the receiver's packet buffer to begin with. */
  ghost predicate Init(s: State) {
    && Total(|s.msg|) <= MAX_CHUNKS && s.data == {} && s.acks == {}
    && s.arr == seq(Total(|s.msg|), i => false)
    && s.r == RState(Total(|s.msg|), seq(MAX_CHUNKS, i => None), seq(MAX_CHUNKS, i => false), 0, false, s.r.buf)
  }

  ghost predicate Run(tr: seq<State>) {
    |tr| > 0 && Init(tr[0]) && forall i | 0 <= i < |tr| - 1 :: Next(tr[i], tr[i + 1])
  }

  // ---- The sender's loop as steps ----

  ghost predicate Leads(tr: seq<State>, s: State, t: State) {
    && |tr| > 0 && tr[0] == s && tr[|tr| - 1] == t
    && forall i | 0 <= i < |tr| - 1 :: Next(tr[i], tr[i + 1])
  }

  lemma LeadsOn(tr: seq<State>, s: State, t: State, u: State)
    requires Leads(tr, s, t) && Next(t, u)
    ensures Leads(tr + [u], s, u)
  {
  }

  /** ACKs that have been sent, or do not name a chunk, or are timeouts. */
  ghost predicate Arrived(s: State, acks: seq<int>) {
    forall a | a in acks && 0 <= a < |s.arr| :: a in s.acks
  }

  lemma {:induction false} AcksAreSteps(s: State, acks: seq<int>) returns (tr: seq<State>)
    requires Arrived(s, acks)
    ensures Leads(tr, s, s.(arr := Marked(s.arr, acks)))
  {
    if acks == [] {
      tr := [s];
    } else {
      var n, a := |acks| - 1, acks[|acks| - 1];
      tr := AcksAreSteps(s, acks[..n]);
      var t := s.(arr := Marked(s.arr, acks[..n]));
      if 0 <= a < |s.arr| {
        var u := s.(arr := Marked(s.arr, acks));
        assert Step(t, u, MAck(a));
        LeadsOn(tr, s, t, u);
        tr := tr + [u];
      }
    }
  }

  ghost function Numbers(sent: seq<Packet>): set<nat> {
    set p | p in sent :: p.seqno
  }

  lemma {:induction false} SendsAreSteps(s: State, sent: seq<Packet>, tr0: seq<State>, s0: State)
      returns (tr: seq<State>)
    requires Leads(tr0, s0, s) && forall p | p in sent :: p.seqno < |s.arr|
    ensures Leads(tr, s0, s.(data := s.data + Numbers(sent)))
  {
    if sent == [] {
      tr := tr0;
      assert s.data + Numbers([]) == s.data;
    } else {
      var rest, p := sent[..|sent| - 1], sent[|sent| - 1];
      tr := SendsAreSteps(s, rest, tr0, s0);
      var t, u := s.(data := s.data + Numbers(rest)), s.(data := s.data + Numbers(sent));
      assert sent == rest + [p];
      assert u.data == t.data + {p.seqno};
      assert Step(t, u, MSend(p.seqno));
      LeadsOn(tr, s0, t, u);
      tr := tr + [u];
    }
  }

  /** What Chunks.Sender.Round does to `arr` and what it sends is a run of Ack and Send
      steps, so all that is proved of runs holds of the sender's loop. */
  lemma PassIsSteps(s: State, acks: seq<int>, sent: seq<Packet>) returns (tr: seq<State>)
    requires Arrived(s, acks) && Resent(s.msg, s.arr, sent, |s.arr|)
    ensures Leads(tr, s, s.(arr := Marked(s.arr, acks), data := s.data + Numbers(sent)))
  {
    tr := AcksAreSteps(s, acks);
    tr := SendsAreSteps(s.(arr := Marked(s.arr, acks)), sent, tr, s);
  }

  // ---- The invariant ----

  /** Chunk k of the message is at the start of what is stored for it; the bytes behind a
      short last chunk are whatever the buffer held. */
  ghost predicate Stored(s: State, k: nat) {
    && k < Total(|s.msg|) && k < |s.r.chunks| && s.r.chunks[k].Some?
    && Piece(s.msg, k) <= s.r.chunks[k].value
  }

  ghost predicate Inv(s: State) {
    && ROk(s.r) && s.r.total == Total(|s.msg|) == |s.arr|
    && (forall k | k in s.data :: k < |s.arr|)
    && (forall k | 0 <= k < MAX_CHUNKS && s.r.chunks[k].Some? :: Stored(s, k))
    && (forall k | 0 <= k < MAX_CHUNKS && s.r.acked[k] :: s.r.chunks[k].Some?)
    && (forall k | k in s.acks :: k < |s.arr| && s.r.acked[k])
    && (forall k | 0 <= k < |s.arr| && s.r.acked[k] :: k in s.acks)
    && (forall k | 0 <= k < |s.arr| && s.arr[k] :: k in s.acks)
    && s.r.count == StoredCount(s.r.chunks)
  }

  lemma DeliverInv(s: State, t: State, k: nat)
    requires Inv(s) && Deliver(s, t, k)
    ensures Inv(t) && t.msg == s.msg
  {
    var buf := Fill(s.r.buf, Piece(s.msg, k));
    assert Piece(s.msg, k) <= buf;
    StoreOne(s.r.chunks, k, buf);
    hide Total, Piece, StoredCount, Fill;
    assert t.r.chunks == if s.r.chunks[k].None? then s.r.chunks[k := Some(buf)] else s.r.chunks;
    forall j | 0 <= j < MAX_CHUNKS && t.r.chunks[j].Some?
      ensures Stored(t, j)
    {
      assert s.r.chunks[j].Some? ==> Stored(s, j);
    }
  }

  lemma StepInv(s: State, t: State, m: Move)
    requires Inv(s) && Step(s, t, m)
    ensures Inv(t) && t.msg == s.msg
  {
    match m
    case MDeliver(k) => DeliverInv(s, t, k);
    case _ => hide Total, Piece, StoredCount;
  }

  lemma {:induction false} RunInv(tr: seq<State>, i: nat)
    requires Run(tr) && i < |tr|
    ensures Inv(tr[i]) && tr[i].msg == tr[0].msg
  {
    if i == 0 {
      NoneStored(tr[0].r.chunks);
    } else {
      RunInv(tr, i - 1);
      assert Next(tr[i - 1], tr[i - 1 + 1]);
      var m :| Step(tr[i - 1], tr[i], m);
      StepInv(tr[i - 1], tr[i], m);
    }
  }

  /** The first bytes of the rebuilt buffer are the message so far. */
  lemma {:induction false} JoinedPrefix(s: State, n: nat)
    requires Inv(s) && n <= Total(|s.msg|) && forall k | 0 <= k < n :: s.r.chunks[k].Some?
    ensures n <= |s.r.chunks|
    ensures var len := if n < Total(|s.msg|) then n * CHUNK_SIZE else |s.msg|;
            len <= |s.msg| && len <= n * CHUNK_SIZE && s.msg[..len] == Joined(s.r.chunks, n)[..len]
  {
    if n > 0 {
      JoinedPrefix(s, n - 1);
      ChunkBounds(|s.msg|, n - 1);
      assert Stored(s, n - 1);
      var at := (n - 1) * CHUNK_SIZE;
      var piece, d := Piece(s.msg, n - 1), s.r.chunks[n - 1].value;
      assert d[..|piece|] == piece;
      var len := at + |piece|;
      assert s.msg[..len] == s.msg[..at] + piece;
      assert Joined(s.r.chunks, n)[..len] == Joined(s.r.chunks, n - 1)[..at] + d[..|piece|];
    }
  }

  /** In every state of every run: a chunk the sender takes for delivered is stored at the
      receiver, and the receiver's counter counts the stored chunks. */
  lemma AckedIsStored(tr: seq<State>, i: nat)
    requires Run(tr) && i < |tr|
    ensures forall k: nat | k < |tr[i].arr| && tr[i].arr[k] :: Stored(tr[i], k)
    ensures tr[i].r.count == StoredCount(tr[i].r.chunks)
  {
    RunInv(tr, i);
  }

  /** When the receiver leaves its loop, every chunk is there and the first bytes of the
      buffer it rebuilds are the message. */
  lemma FinishedIsDelivered(tr: seq<State>, i: nat)
    requires Run(tr) && i < |tr| && Finished(tr[i].r)
    ensures var r := tr[i].r; var msg := tr[0].msg;
            && r.total <= |r.chunks| && (forall k | 0 <= k < r.total :: r.chunks[k].Some?)
            && |msg| <= |Joined(r.chunks, r.total)| && Joined(r.chunks, r.total)[..|msg|] == msg
  {
    RunInv(tr, i);
    JoinedPrefix(tr[i], tr[i].r.total);
  }

  /** The first half of the loop condition never decides: once everything is acknowledged,
      everything has been received. */
  lemma AckedImpliesReceived(tr: seq<State>, i: nat)
    requires Run(tr) && i < |tr|
    ensures Finished(tr[i].r) <==> AllAcked(tr[i].r.acked, tr[i].r.total)
  {
    RunInv(tr, i);
    if AllAcked(tr[i].r.acked, tr[i].r.total) {
      CountAll(tr[i].r.chunks, tr[i].r.total, |tr[i].r.chunks|);
      assert tr[i].r.chunks[..|tr[i].r.chunks|] == tr[i].r.chunks;
    }
  }

  lemma {:induction false} CountAll(chunks: seq<Option<Data>>, n: nat, m: nat)
    requires n <= |chunks| && m <= |chunks| && forall k | 0 <= k < n :: chunks[k].Some?
    ensures StoredCount(chunks[..m]) >= if m < n then m else n
  {
    if m > 0 {
      assert chunks[..m][..m - 1] == chunks[..m - 1];
      CountAll(chunks, n, m - 1);
    }
  }

  // ---- The transfer can always be finished ----

  /** The chunks that are not acknowledged yet. */
  ghost function Open(acked: seq<bool>, n: nat): set<nat>
    requires n <= |acked|
  {
    set k: nat | k < n && !acked[k]
  }

  ghost predicate Complete(s: State) {
    Finished(s.r) && forall k | 0 <= k < |s.arr| :: s.arr[k]
  }

  lemma LeadsJoin(tr: seq<State>, more: seq<State>, s: State, t: State, u: State) returns (all: seq<State>)
    requires Leads(tr, s, t) && Leads(more, t, u)
    ensures Leads(all, s, u) && tr <= all
  {
    all := tr + more[1..];
    forall i | 0 <= i < |all| - 1
      ensures Next(all[i], all[i + 1])
    {
      if i >= |tr| - 1 {
        var j := i - (|tr| - 1);
        assert all[i] == more[j] && all[i + 1] == more[j + 1];
        assert Next(more[j], more[j + 1]);
      }
    }
  }

  lemma OneStep(s: State, t: State, m: Move)
    requires Step(s, t, m)
    ensures Leads([s, t], s, t)
  {
  }

  lemma UnfinishedIsOpen(s: State)
    requires Inv(s)
    ensures Finished(s.r) <==> Open(s.r.acked, s.r.total) == {}
  {
    if Open(s.r.acked, s.r.total) == {} {
      forall k: nat | k < s.r.total
        ensures s.r.acked[k]
      {
        assert k !in Open(s.r.acked, s.r.total);
      }
      CountAll(s.r.chunks, s.r.total, |s.r.chunks|);
      assert s.r.chunks[..|s.r.chunks|] == s.r.chunks;
    }
  }

  /** A chunk that is sent again and arrives gets acknowledged: at once, or the second time. */
  lemma Resend(s: State, k: nat) returns (tr: seq<State>, t: State)
    requires Inv(s) && !Finished(s.r) && k < s.r.total && !s.r.acked[k]
    ensures Inv(t) && Leads(tr, s, t) && t.msg == s.msg && t.arr == s.arr && t.r.acked == s.r.acked[k := true]
  {
    StillOpen(s, k);
    hide Inv, Total, Piece, StoredCount;
    var s1 := s.(data := s.data + {k});
    SendInv(s, s1, k);
    OneStep(s, s1, MSend(k));
    tr := [s, s1];
    t := Delivered(s1, k);
    DeliverInv(s1, t, k);
    assert Step(s1, t, MDeliver(k));
    LeadsOn(tr, s, s1, t);
    tr := tr + [t];
    if !s.r.flag {
      StillOpen(t, k);
      var u := Delivered(t, k);
      DeliverInv(t, u, k);
      assert Step(t, u, MDeliver(k));
      LeadsOn(tr, s, t, u);
      tr, t := tr + [u], u;
    }
  }

  lemma SendInv(s: State, t: State, k: nat)
    requires Inv(s) && Send(s, t, k)
    ensures Inv(t)
    ensures k < Total(|t.msg|) && ROk(t.r)
  {
    hide Total, Piece, StoredCount;
    StepInv(s, t, MSend(k));
  }

  lemma StillOpen(s: State, k: nat)
    requires Inv(s) && k < s.r.total && !s.r.acked[k]
    ensures !Finished(s.r) && k < Total(|s.msg|) == |s.arr| && k < MAX_CHUNKS && ROk(s.r)
  {
  }

  /** The state after chunk k has arrived. */
  ghost function Delivered(s: State, k: nat): State
    requires k < Total(|s.msg|) && ROk(s.r) && k < MAX_CHUNKS
  {
    s.(r := Receive(s.r, k, Piece(s.msg, k)), acks := if Answers(s.r) then s.acks + {k} else s.acks)
  }

  /** From every state that satisfies the invariant the receiver can still finish. */
  lemma {:induction false} CanFinish(s: State) returns (tr: seq<State>, t: State)
    requires Inv(s)
    ensures Inv(t) && Leads(tr, s, t) && t.msg == s.msg && t.arr == s.arr && Finished(t.r)
    decreases |Open(s.r.acked, s.r.total)|
  {
    UnfinishedIsOpen(s);
    if Finished(s.r) {
      return [s], s;
    }
    var k :| k in Open(s.r.acked, s.r.total);
    var u, more;
    tr, u := Resend(s, k);
    assert Open(u.r.acked, u.r.total) == Open(s.r.acked, s.r.total) - {k};
    more, t := CanFinish(u);
    tr := LeadsJoin(tr, more, s, u, t);
  }

  /** Whatever has been lost, doubled or overtaken so far: the run can go on to a state in which
      the receiver has finished and the sender knows of it. */
  lemma AlwaysCompletes(tr: seq<State>) returns (all: seq<State>)
    requires Run(tr)
    ensures Run(all) && tr <= all && Complete(all[|all| - 1])
  {
    var s := tr[|tr| - 1];
    RunInv(tr, |tr| - 1);
    var more, t := CanFinish(s);
    all := LeadsJoin(tr, more, tr[0], s, t);
    var acks := seq(|t.arr|, i => i);
    AllSent(t, acks);
    more := AcksAreSteps(t, acks);
    MarkedAt(t.arr, acks);
    var u := t.(arr := Marked(t.arr, acks));
    all := LeadsJoin(all, more, tr[0], t, u);
    forall k | 0 <= k < |u.arr|
      ensures u.arr[k]
    {
      assert acks[k] == k;
    }
  }

  /** When the receiver has finished, all ACKs have been sent. */
  lemma AllSent(t: State, acks: seq<int>)
    requires Inv(t) && Finished(t.r) && acks == seq(|t.arr|, i => i)
    ensures Arrived(t, acks)
  {
    forall a | a in acks && 0 <= a < |t.arr|
      ensures a in t.acks
    {
      assert t.r.acked[a];
    }
  }

  /** Every message that fits can be transferred. */
  lemma Transfers(msg: seq<Byte>, buf: Data) returns (tr: seq<State>)
    requires Total(|msg|) <= MAX_CHUNKS
    ensures Run(tr) && tr[0].msg == msg && Complete(tr[|tr| - 1])
  {
    var n := Total(|msg|);
    var r := RState(n, seq(MAX_CHUNKS, i => None), seq(MAX_CHUNKS, i => false), 0, false, buf);
    tr := AlwaysCompletes([State(msg, seq(n, i => false), r, {}, {})]);
  }
}

/** The sender's tables: sixteen frame buffers, sixteen peer records, and the
counters kept beside them, under every interleaving of send, flush, tick, reception
and acknowledgement.

The mutex is dropped while a frame is handed to the radio.  A method here runs
from one lock to the next unlock; a thread that is inside the unlocked span is
recorded in `spans` with the buffer it is sending and the place it resumes at,
so a schedule of method calls is an interleaving of the real threads.  Clock
comparisons, radio room, heap exhaustion and content hashes are inputs.

One path comes back from the radio and returns without unlocking.  From then on
only its own thread can take the mutex, which its holder may lock again. */
module AckTable {
  import opened Words
  import opened SeqWindow
  import opened AckFrame
  import opened Bundle

  type Mac = nat

  const BROADCAST: Mac := 0xFFFF_FFFF_FFFF

  const SLOTS := 16              // ACK_BUF_N
  const PEERS := 16              // ACK_MAX_PEERS
  const OVERHEAD := 28           // sizeof(ack_buf_t)
  const NEVER := 0xFFFF_FFFF

  datatype BufState = Staging | Sending | InFlight

  /** A slot of the buffer table.  The last five fields are not in the C record:
      they name the payloads the bytes hold, count the hand-overs to the radio,
      point back at the peer record and the sending thread, and number the bundle
      without wrap-around. */
  datatype Slot =
    | Free
    | Buf(state: BufState, retries: nat, len: nat, fid: U16, seq16: U16, dest: Mac, data: seq<Byte>,
          payloads: seq<Payload>, sends: nat, owner: nat, thread: nat, number: nat)

  /** A peer record; `next` is tx_seq without its wrap-around. */
  datatype Peer =
    | Vacant
    | Peer(mac: Mac, lastSeen: nat, txSeq: U16, aggIdx: nat, aggLen: nat, aggNsub: nat, next: nat)

  /** A bundle on its way. */
  datatype Parcel = Parcel(number: nat, payloads: seq<Payload>)

  /** What the layer did to the bundles of an address. */
  datatype Deed =
    | Met(mac: Mac)                                  // a new record
    | Flushed(mac: Mac, what: Parcel)
    | Resent(mac: Mac, what: Parcel)
    | Cleared(mac: Mac, what: Parcel, frame: Frame)  // on a bitmap acknowledgement
    | LetGo(mac: Mac, what: Parcel)                  // deadline, retries spent, or a content id

  /** Where a thread picks up after the radio call returns. */
  datatype Resume =
    | TxMid(peer: nat, payload: Payload, eff: nat)   // stage the payload that did not fit
    | TxEnd                                          // nothing left but the unlock
    | PlainEnd                                       // nothing left, not even the unlock
    | FlushAt(next: nat)                             // flush loop over peers
    | TickBufsAt(next: nat)                          // tick loop over buffers
    | TickPeersAt(next: nat)                         // tick loop over peers

  datatype Span = Span(slot: nat, resume: Resume)

  /** What the environment answers during one lock-held section. */
  datatype Env = Env(now: nat, malloc: bool, radio: bool, vacant: nat -> bool, expired: nat -> bool,
                     due: nat -> bool, held: nat -> bool, fid: nat -> U16)

  datatype TxResult = Accepted | Throttled | Rejected | Untracked | Broadcast | Suspended

  datatype Event =
    | Sends(t: nat, mac: Mac, payload: Payload, eff: nat, env: Env)
    | Flushes(t: nat, env: Env)
    | Ticks(t: nat, env: Env)
    | Resumes(t: nat, env: Env)
    | Hears(mac: Mac, now: nat)
    | BitmapAck(mac: Mac, frame: Frame)
    | FidAck(mac: Mac, frame: Frame)

  datatype Fate = Acknowledged | Deadline | Exhausted

  datatype FlushResult = NothingStaged | Refused | Sent

  // ------------------------------------------------------------- counting

  function Used(b: Slot): nat { if b.Free? then 0 else 1 }

  function Flying(b: Slot): nat { if b.Buf? && b.state != Staging then 1 else 0 }

  /** A frame on its own, without envelope and sequence number. */
  predicate IsPlain(b: Slot) { b.Buf? && b.state != Staging && b.seq16 == NO_SEQ }

  function Bundled(b: Slot): nat { if IsPlain(b) then 0 else Flying(b) }

  function Heap(b: Slot): nat { if b.Free? then 0 else OVERHEAD + |b.data| }

  function StagedSubs(b: Slot): nat { if b.Buf? && b.state == Staging then |b.payloads| else 0 }

  /** What a table adds up to. */
  datatype Counts = Counts(used: nat, flying: nat, bundled: nat, heap: nat, staged: nat)

  function Tally(s: seq<Slot>): Counts {
    if s == [] then Counts(0, 0, 0, 0, 0)
    else
      var c, b := Tally(s[..|s| - 1]), s[|s| - 1];
      Counts(c.used + Used(b), c.flying + Flying(b), c.bundled + Bundled(b), c.heap + Heap(b), c.staged + StagedSubs(b))
  }

  /** A buffer as the allocator leaves it. */
  function Blank(state: BufState, mac: Mac, cap: nat, owner: nat): (b: Slot)
    ensures b.Buf? && b.state == state && b.dest == mac && |b.data| == cap && b.payloads == [] && b.owner == owner
    ensures b.seq16 == NO_SEQ
  {
    Buf(state, 0, 0, 0, NO_SEQ, mac, seq(cap, _ => 0), [], 0, owner, 0, 0)
  }

  // ----------------------------------------------------------- the invariant

  ghost predicate Names(peers: seq<Peer>, p: int, mac: Mac) {
    0 <= p < |peers| && peers[p].Peer? && peers[p].mac == mac
  }

  ghost predicate UniqueMacs(peers: seq<Peer>) {
    forall p, q :: 0 <= p < q < |peers| && peers[p].Peer? && peers[q].Peer? ==> peers[p].mac != peers[q].mac
  }

  /** A frame that left staging is a sealed bundle of the payloads accepted into it, or one
      payload on its own; it has been handed to the radio once more than it was retried,
      and fits the wire. */
  ghost predicate SlotOk(b: Slot, maxRetries: nat) {
    b.Buf? && b.state != Staging ==>
      && b.len <= |b.data| && b.len <= WIRE_MAX && 1 <= |b.payloads| <= MAX_SUB
      && b.data[..b.len] == (if IsPlain(b) then b.payloads[0] else Encode(b.seq16, b.payloads))
      && b.sends == b.retries + 1 && b.retries <= maxRetries
  }

  /** Unless a thread went away with the mutex, no frame on its own waits in the table. */
  ghost predicate Settled(bufs: seq<Slot>, holder: Option<nat>) {
    holder.None? ==> forall i :: 0 <= i < |bufs| && IsPlain(bufs[i]) ==> bufs[i].state != InFlight
  }

  /** Every live buffer's destination has a peer record in use; a STAGING buffer is
      the one its peer stages into; a SENDING buffer has its thread. */
  ghost predicate SlotLinked(i: int, b: Slot, peers: seq<Peer>, spans: map<nat, Span>) {
    b.Buf? ==>
      && Names(peers, b.owner, b.dest)
      && (b.state == Staging ==> peers[b.owner].aggIdx == i + 1)
      && (b.state == Sending ==> b.thread in spans && spans[b.thread].slot == i)
  }

  /** A peer that stages names a STAGING buffer for its own address, whose bytes
      up to aggLen are the subframes accepted so far. */
  ghost predicate PeerLinked(k: int, p: Peer, bufs: seq<Slot>) {
    p.Peer? ==>
      if p.aggIdx == 0 then p.aggLen == 0 && p.aggNsub == 0
      else
        && p.aggIdx <= |bufs|
        && var b := bufs[p.aggIdx - 1];
        && b.Buf? && b.state == Staging && b.owner == k
        && Holds(b, p.aggLen, p.aggNsub)
  }

  ghost predicate Holds(b: Slot, aggLen: nat, aggNsub: nat)
    requires b.Buf?
  {
    && HDR <= aggLen <= |b.data| && aggLen <= WIRE_MAX
    && 1 <= |b.payloads| == aggNsub <= MAX_SUB
    && b.data[HDR..aggLen] == Body(b.payloads)
  }

  /** A thread in the unlocked span owns a SENDING buffer, and a peer pointer kept
      across the span still names that buffer's destination. */
  ghost predicate SpanLinked(t: nat, s: Span, bufs: seq<Slot>, peers: seq<Peer>) {
    && s.slot < |bufs| && bufs[s.slot].Buf? && bufs[s.slot].state == Sending && bufs[s.slot].thread == t
    && ResumeOk(s.resume, bufs[s.slot].owner) && (s.resume.PlainEnd? <==> IsPlain(bufs[s.slot]))
  }

  ghost predicate Linked(bufs: seq<Slot>, peers: seq<Peer>, spans: map<nat, Span>) {
    && UniqueMacs(peers)
    && (forall i :: 0 <= i < |bufs| ==> SlotLinked(i, bufs[i], peers, spans))
    && (forall k :: 0 <= k < |peers| ==> PeerLinked(k, peers[k], bufs))
    && (forall t <- spans :: SpanLinked(t, spans[t], bufs, peers))
  }

  /** All that is kept besides the counters. */
  ghost predicate Table(bufs: seq<Slot>, peers: seq<Peer>, spans: map<nat, Span>, maxRetries: nat,
                        holder: Option<nat>) {
    && (forall i :: 0 <= i < |bufs| ==> SlotOk(bufs[i], maxRetries))
    && Linked(bufs, peers, spans)
    && Settled(bufs, holder)
  }

  lemma TableLinks(bufs: seq<Slot>, peers: seq<Peer>, spans: map<nat, Span>, maxRetries: nat, holder: Option<nat>)
    requires Table(bufs, peers, spans, maxRetries, holder)
    ensures Linked(bufs, peers, spans)
  {
  }

  lemma TableSlot(bufs: seq<Slot>, peers: seq<Peer>, spans: map<nat, Span>, maxRetries: nat, holder: Option<nat>,
                  i: nat)
    requires Table(bufs, peers, spans, maxRetries, holder) && i < |bufs|
    ensures SlotOk(bufs[i], maxRetries)
    ensures IsPlain(bufs[i]) && bufs[i].state == InFlight ==> holder.Some?
  {
  }

  /** Changing a slot, with the peers and threads that go with it. */
  lemma TableWith(bufs: seq<Slot>, peers: seq<Peer>, spans: map<nat, Span>, maxRetries: nat, holder: Option<nat>,
                  i: nat, v: Slot, qs: seq<Peer>, ts: map<nat, Span>)
    requires Table(bufs, peers, spans, maxRetries, holder) && i < |bufs|
    requires SlotOk(v, maxRetries) && (IsPlain(v) && v.state == InFlight ==> holder.Some?)
    requires Linked(bufs[i := v], qs, ts)
    ensures Table(bufs[i := v], qs, ts, maxRetries, holder)
  {
    hide SlotOk, Linked;
  }

  /** Changing a peer only. */
  lemma TablePeers(bufs: seq<Slot>, peers: seq<Peer>, spans: map<nat, Span>, maxRetries: nat, holder: Option<nat>,
                   qs: seq<Peer>)
    requires Table(bufs, peers, spans, maxRetries, holder) && Linked(bufs, qs, spans)
    ensures Table(bufs, qs, spans, maxRetries, holder)
  {
  }

  // ------------------------------------------------------------- the history

  /** A bundle that waits for an acknowledgement, or is being sent. */
  predicate Waits(b: Slot) { b.Buf? && b.state != Staging && !IsPlain(b) }

  function ParcelOf(b: Slot): Parcel
    requires b.Buf?
  {
    Parcel(b.number, b.payloads)
  }

  ghost function Waiting(bufs: seq<Slot>, mac: Mac): set<Parcel> {
    set i | 0 <= i < |bufs| && Waits(bufs[i]) && bufs[i].dest == mac :: ParcelOf(bufs[i])
  }

  /** A sender as one address sees it. */
  datatype Sender = Sender(next: nat, waiting: set<Parcel>)

  /** What a deed makes of it, if the deed is a lawful one. */
  ghost function Advance(s: Sender, d: Deed): Option<Sender> {
    match d
    case Met(_) => if s.waiting == {} then Some(Sender(0, {})) else None
    case Flushed(_, x) =>
      if x.number == Drawn(s.next) && Fitting(x.payloads) then Some(Sender(x.number + 1, s.waiting + {x})) else None
    case Resent(_, x) => if x in s.waiting then Some(s) else None
    case Cleared(_, x, f) =>
      if x in s.waiting && |f| == ACK_LEN && Covers(f, x.number % WRAP) then Some(s.(waiting := s.waiting - {x}))
      else None
    case LetGo(_, x) => if x in s.waiting then Some(s.(waiting := s.waiting - {x})) else None
  }

  ghost function Replay(log: seq<Deed>, mac: Mac): Option<Sender> {
    if log == [] then Some(Sender(0, {}))
    else
      var s, d := Replay(log[..|log| - 1], mac), log[|log| - 1];
      if s.None? || d.mac != mac then s else Advance(s.value, d)
  }

  /** The table holds what the history of each address leaves waiting, and the record of an
      address, if there is one, numbers on from there. */
  ghost predicate Replays(log: seq<Deed>, bufs: seq<Slot>, peers: seq<Peer>, mac: Mac) {
    && Replay(log, mac).Some? && Replay(log, mac).value.waiting == Waiting(bufs, mac)
    && forall p :: Names(peers, p, mac) ==> peers[p].next == Replay(log, mac).value.next
  }

  /** Bundles for one address have different numbers, all drawn from its record, and the
      16-bit numbers are their residues. */
  ghost predicate Numbered(bufs: seq<Slot>, peers: seq<Peer>) {
    && (forall i :: 0 <= i < |bufs| && Waits(bufs[i]) ==> bufs[i].seq16 == bufs[i].number % WRAP)
    && (forall i, j :: 0 <= i < j < |bufs| && Waits(bufs[i]) && Waits(bufs[j]) && bufs[i].dest == bufs[j].dest ==>
          bufs[i].number != bufs[j].number)
    && (forall p :: 0 <= p < |peers| && peers[p].Peer? ==> peers[p].txSeq == peers[p].next % WRAP)
    && (forall i, p :: 0 <= i < |bufs| && Waits(bufs[i]) && Names(peers, p, bufs[i].dest) ==>
          bufs[i].number < peers[p].next)
  }

  ghost predicate Told(log: seq<Deed>, bufs: seq<Slot>, peers: seq<Peer>) {
    Numbered(bufs, peers) && forall mac :: Replays(log, bufs, peers, mac)
  }

  /** No bundle on its way came, went or changed its number. */
  ghost predicate SameWaiting(was: Slot, now: Slot) {
    && Waits(was) == Waits(now)
    && (Waits(was) ==> now.dest == was.dest && now.seq16 == was.seq16 && ParcelOf(now) == ParcelOf(was))
  }

  ghost predicate SameNumbering(was: Peer, now: Peer) {
    && was.Peer? == now.Peer?
    && (was.Peer? ==> now.mac == was.mac && now.txSeq == was.txSeq && now.next == was.next)
  }

  /** A slot and a record change without a deed. */
  lemma NothingTold(log: seq<Deed>, bufs: seq<Slot>, peers: seq<Peer>, i: nat, v: Slot, p: nat, q: Peer)
    requires Told(log, bufs, peers) && i < |bufs| && SameWaiting(bufs[i], v)
    requires p < |peers| && SameNumbering(peers[p], q)
    ensures Told(log, bufs[i := v], peers[p := q])
  {
    hide IsPlain, Replay;
    var now, qs := bufs[i := v], peers[p := q];
    forall k | 0 <= k < |bufs| ensures SameWaiting(bufs[k], now[k]) {
    }
    forall k, mac ensures Names(qs, k, mac) ==> Names(peers, k, mac) && qs[k].next == peers[k].next {
    }
    forall mac ensures Replays(log, now, qs, mac) {
      assert Replays(log, bufs, peers, mac);
      WaitingSame(bufs, now, mac);
    }
  }

  lemma WaitingSame(was: seq<Slot>, now: seq<Slot>, mac: Mac)
    requires |was| == |now| && forall i :: 0 <= i < |was| ==> SameWaiting(was[i], now[i])
    ensures Waiting(now, mac) == Waiting(was, mac)
  {
    hide IsPlain, ParcelOf;
    forall x | x in Waiting(was, mac) ensures x in Waiting(now, mac) {
      var i :| 0 <= i < |was| && Waits(was[i]) && was[i].dest == mac && ParcelOf(was[i]) == x;
      assert SameWaiting(was[i], now[i]);
    }
    forall x | x in Waiting(now, mac) ensures x in Waiting(was, mac) {
      var i :| 0 <= i < |now| && Waits(now[i]) && now[i].dest == mac && ParcelOf(now[i]) == x;
      assert SameWaiting(was[i], now[i]);
    }
  }

  lemma Further(log: seq<Deed>, d: Deed, mac: Mac)
    ensures var s := Replay(log, mac);
            Replay(log + [d], mac) == if s.None? || d.mac != mac then s else Advance(s.value, d)
  {
    assert (log + [d])[..|log|] == log;
  }

  /** A new record numbers from zero. */
  lemma MetTold(log: seq<Deed>, bufs: seq<Slot>, peers: seq<Peer>, r: nat, q: Peer)
    requires Told(log, bufs, peers) && r < |peers| && q.Peer? && q.next == 0 && q.txSeq == 0
    requires forall i :: 0 <= i < |bufs| && bufs[i].Buf? ==> bufs[i].dest != q.mac
    requires forall p :: !Names(peers, p, q.mac)
    ensures Told(log + [Met(q.mac)], bufs, peers[r := q])
  {
    hide ParcelOf, Replay, Advance;
    var qs := peers[r := q];
    forall p, mac | Names(qs, p, mac) ensures if p == r then mac == q.mac else Names(peers, p, mac) {
    }
    var later := log + [Met(q.mac)];
    forall mac ensures Replays(later, bufs, qs, mac) {
      assert Replays(log, bufs, peers, mac);
      Further(log, Met(q.mac), mac);
      if mac == q.mac {
        assert Waiting(bufs, mac) == {};
        assert Advance(Replay(log, mac).value, Met(mac)) == Some(Sender(0, {})) by {
          Meets(Replay(log, mac).value, mac);
        }
      }
    }
  }

  lemma Meets(s: Sender, mac: Mac)
    requires s.waiting == {}
    ensures Advance(s, Met(mac)) == Some(Sender(0, {}))
  {
  }

  /** The staged bundle of record p goes out under the next number. */
  lemma FlushTold(log: seq<Deed>, bufs: seq<Slot>, peers: seq<Peer>, i: nat, v: Slot, p: nat, q: Peer)
    requires Told(log, bufs, peers) && UniqueMacs(peers) && i < |bufs| && !Waits(bufs[i]) && Waits(v)
    requires Names(peers, p, v.dest) && Fitting(v.payloads)
    requires v.number == Drawn(peers[p].next) && v.seq16 == DrawnSeq(peers[p].txSeq)
    requires q.Peer? && q.mac == v.dest && q.next == v.number + 1 && q.txSeq == (v.seq16 + 1) % WRAP
    ensures Told(log + [Flushed(v.dest, ParcelOf(v))], bufs[i := v], peers[p := q])
  {
    hide Replay, IsPlain, Fitting, DrawnSeq;
    var d := Flushed(v.dest, ParcelOf(v));
    var now, qs := bufs[i := v], peers[p := q];
    DrawnIsTxSeq(peers[p].next);
    forall k, mac | Names(qs, k, mac) ensures Names(peers, k, mac) && (mac == v.dest ==> k == p) {
    }
    var later := log + [d];
    forall mac ensures Replays(later, now, qs, mac) {
      assert Replays(log, bufs, peers, mac);
      Further(log, d, mac);
      WaitingMore(bufs, i, v, mac);
    }
  }

  lemma WaitingMore(bufs: seq<Slot>, i: nat, v: Slot, mac: Mac)
    requires i < |bufs| && !Waits(bufs[i]) && Waits(v)
    ensures Waiting(bufs[i := v], mac) == Waiting(bufs, mac) + (if mac == v.dest then {ParcelOf(v)} else {})
  {
    hide IsPlain, ParcelOf;
    var now := bufs[i := v];
    forall x | x in Waiting(bufs, mac) ensures x in Waiting(now, mac) {
      var k :| 0 <= k < |bufs| && Waits(bufs[k]) && bufs[k].dest == mac && ParcelOf(bufs[k]) == x;
      assert now[k] == bufs[k];
    }
    forall x | x in Waiting(now, mac) && !(mac == v.dest && x == ParcelOf(v)) ensures x in Waiting(bufs, mac) {
      var k :| 0 <= k < |now| && Waits(now[k]) && now[k].dest == mac && ParcelOf(now[k]) == x;
      assert now[k] == bufs[k];
    }
    assert now[i] == v;
  }

  /** A waiting bundle leaves the table. */
  lemma GoneTold(log: seq<Deed>, bufs: seq<Slot>, peers: seq<Peer>, i: nat, d: Deed)
    requires Told(log, bufs, peers) && i < |bufs| && Waits(bufs[i])
    requires (d.LetGo? || (d.Cleared? && |d.frame| == ACK_LEN && Covers(d.frame, bufs[i].seq16)))
    requires d.mac == bufs[i].dest && d.what == ParcelOf(bufs[i])
    ensures Told(log + [d], bufs[i := Free], peers)
  {
    hide Replay, IsPlain, Covers;
    var now, later := bufs[i := Free], log + [d];
    forall mac ensures Replays(later, now, peers, mac) {
      assert Replays(log, bufs, peers, mac);
      Further(log, d, mac);
      WaitingLess(bufs, peers, i, mac);
    }
    FreeWaits();
  }

  lemma LeavesTold(log: seq<Deed>, bufs: seq<Slot>, peers: seq<Peer>, i: nat, on: Option<Frame>)
    requires Told(log, bufs, peers) && i < |bufs| && Waits(bufs[i])
    requires on.Some? ==> |on.value| == ACK_LEN && Covers(on.value, bufs[i].seq16)
    ensures Told(log + [Leaves(bufs[i], on)], bufs[i := Free], peers)
  {
    hide Told, Covers;
    GoneTold(log, bufs, peers, i, Leaves(bufs[i], on));
  }

  lemma FreeWaits()
    ensures !Waits(Free)
  {
  }

  lemma WaitingLess(bufs: seq<Slot>, peers: seq<Peer>, i: nat, mac: Mac)
    requires Numbered(bufs, peers) && i < |bufs| && Waits(bufs[i])
    ensures mac == bufs[i].dest ==> ParcelOf(bufs[i]) in Waiting(bufs, mac)
    ensures Waiting(bufs[i := Free], mac) ==
              Waiting(bufs, mac) - (if mac == bufs[i].dest then {ParcelOf(bufs[i])} else {})
  {
    FreeWaits();
    hide IsPlain;
    var now := bufs[i := Free];
    var out := mac == bufs[i].dest;
    forall x | x in Waiting(bufs, mac) && !(out && x == ParcelOf(bufs[i])) ensures x in Waiting(now, mac) {
      var k :| 0 <= k < |bufs| && Waits(bufs[k]) && bufs[k].dest == mac && ParcelOf(bufs[k]) == x;
      assert now[k] == bufs[k];
    }
    forall x | x in Waiting(now, mac) ensures x in Waiting(bufs, mac) && !(out && x == ParcelOf(bufs[i])) {
      var k :| 0 <= k < |now| && Waits(now[k]) && now[k].dest == mac && ParcelOf(now[k]) == x;
      assert now[k] == bufs[k];
      assert k < i || i < k;
    }
  }

  /** A waiting bundle is sent again. */
  lemma ResendTold(log: seq<Deed>, bufs: seq<Slot>, peers: seq<Peer>, i: nat, v: Slot)
    requires Told(log, bufs, peers) && i < |bufs| && Waits(bufs[i]) && SameWaiting(bufs[i], v) && |peers| > 0
    ensures Told(log + [Resent(v.dest, ParcelOf(v))], bufs[i := v], peers)
  {
    hide Replay, IsPlain;
    NothingTold(log, bufs, peers, i, v, 0, peers[0]);
    assert peers[0 := peers[0]] == peers;
    var d, now := Resent(v.dest, ParcelOf(v)), bufs[i := v];
    var later := log + [d];
    forall mac ensures Replays(later, now, peers, mac) {
      assert Replays(log, now, peers, mac);
      Further(log, d, mac);
      assert now[i] == v;
    }
  }

  lemma SlotTold(log: seq<Deed>, bufs: seq<Slot>, peers: seq<Peer>, i: nat, v: Slot)
    requires Told(log, bufs, peers) && i < |bufs| && SameWaiting(bufs[i], v) && |peers| > 0
    ensures Told(log, bufs[i := v], peers)
  {
    NothingTold(log, bufs, peers, i, v, 0, peers[0]);
    assert peers[0 := peers[0]] == peers;
  }

  lemma PlainTold(log: seq<Deed>, bufs: seq<Slot>, peers: seq<Peer>, i: nat, v: Slot)
    requires Told(log, bufs, peers) && i < |bufs| && bufs[i].Free? && IsPlain(v) && |peers| > 0
    ensures Told(log, bufs[i := v], peers)
  {
    hide Told;
    SlotTold(log, bufs, peers, i, v);
  }

  /** The history grew, and a bundle was cleared only on this acknowledgement, if at all. */
  ghost predicate Adds(was: seq<Deed>, now: seq<Deed>, on: Option<(Mac, Frame)>) {
    was <= now && forall k :: |was| <= k < |now| && now[k].Cleared? ==> on == Some((now[k].mac, now[k].frame))
  }

  lemma AddsNone(log: seq<Deed>, on: Option<(Mac, Frame)>)
    ensures Adds(log, log, on)
  {
  }

  lemma MetAdds(log: seq<Deed>, mac: Mac)
    ensures Adds(log, log, None) && Adds(log, log + [Met(mac)], None)
  {
  }

  lemma AddsBoth(was: seq<Deed>, mid: seq<Deed>, now: seq<Deed>)
    requires Adds(was, mid, None) && Adds(mid, now, None)
    ensures Adds(was, now, None)
  {
  }

  /** The deed of sending the bundle record p stages. */
  ghost function Leaving(bufs: seq<Slot>, peers: seq<Peer>, p: nat): Deed {
    if p < |peers| && peers[p].Peer? && 0 < peers[p].aggIdx <= |bufs| && bufs[peers[p].aggIdx - 1].Buf?
    then Flushed(peers[p].mac, Parcel(Drawn(peers[p].next), bufs[peers[p].aggIdx - 1].payloads))
    else Met(0)
  }

  /** The deed of releasing a buffer, on a bitmap acknowledgement or otherwise. */
  function Leaves(b: Slot, on: Option<Frame>): Deed
    requires b.Buf?
  {
    if on.Some? then Cleared(b.dest, ParcelOf(b), on.value) else LetGo(b.dest, ParcelOf(b))
  }

  lemma NothingYet(bufs: seq<Slot>, peers: seq<Peer>)
    requires (forall b <- bufs :: b.Free?) && (forall p <- peers :: p.Vacant?)
    ensures Told([], bufs, peers)
  {
    forall i | 0 <= i < |bufs| ensures bufs[i].Free? {
      assert bufs[i] in bufs;
    }
    forall p | 0 <= p < |peers| ensures peers[p].Vacant? {
      assert peers[p] in peers;
    }
    forall mac ensures Replays([], bufs, peers, mac) {
      assert Waiting(bufs, mac) == {};
    }
  }

  /** No buffer another thread is sending was touched. */
  ghost predicate LeavesSending(was: seq<Slot>, now: seq<Slot>, own: int)
  {
    |was| == |now| &&
    forall i :: 0 <= i < |was| && i != own && was[i].Buf? && was[i].state == Sending ==> now[i] == was[i]
  }

  /** A record that can serve an address: its own, a vacant one, or an idle one to evict. */
  ghost predicate Serves(bufs: seq<Slot>, p: Peer, mac: Mac) {
    p.Vacant? || p.mac == mac || (Idle(bufs, p) && p.lastSeen < NEVER)
  }

  ghost predicate Served(bufs: seq<Slot>, peers: seq<Peer>, mac: Mac) {
    exists p :: 0 <= p < |peers| && Serves(bufs, peers[p], mac)
  }

  /** No buffer is addressed to this peer. */
  ghost predicate Idle(bufs: seq<Slot>, p: Peer) {
    p.Peer? ==> forall i :: 0 <= i < |bufs| && bufs[i].Buf? ==> bufs[i].dest != p.mac
  }

  /** A bundle for this address whose newest payload is this one. */
  ghost predicate TailIs(b: Slot, mac: Mac, payload: Payload) {
    b.Buf? && b.dest == mac && b.payloads != [] && b.payloads[|b.payloads| - 1] == payload
  }

  /** The payload is the newest of the bundle being sent, or is on its own, or waits in the
      thread for that bundle to leave. */
  ghost predicate Carried(bufs: seq<Slot>, s: Span, mac: Mac, payload: Payload) {
    s.slot < |bufs| && (TailIs(bufs[s.slot], mac, payload) || (s.resume.TxMid? && s.resume.payload == payload))
  }

  lemma PlainCarried(bufs: seq<Slot>, s: Span, mac: Mac, payload: Payload)
    requires s.slot < |bufs| && TailIs(bufs[s.slot], mac, payload)
    ensures Carried(bufs, s, mac, payload)
  {
  }

  /** A thread's buffer when it is back from the radio: in flight, and still so at the next
      unlock unless a tick goes on with it. */
  ghost predicate Back(s: Span, was: seq<Slot>, now: seq<Slot>) {
    && s.slot < |was| == |now| && was[s.slot].Buf?
    && (!s.resume.TickBufsAt? ==> now[s.slot] == was[s.slot].(state := InFlight))
  }

  lemma BackAgain(s: Span, was: seq<Slot>, landed: seq<Slot>, now: seq<Slot>)
    requires s.slot < |was| && was[s.slot].Buf? && landed == was[s.slot := was[s.slot].(state := InFlight)]
    requires LeavesFlying(landed, now)
    ensures Back(s, was, now) && LeavesSending(was, now, s.slot)
  {
  }

  lemma BackTicking(s: Span, was: seq<Slot>, landed: seq<Slot>, now: seq<Slot>)
    requires s.slot < |was| && was[s.slot].Buf? && landed == was[s.slot := was[s.slot].(state := InFlight)]
    requires LeavesSending(landed, now, -1) && s.resume.TickBufsAt?
    ensures Back(s, was, now) && LeavesSending(was, now, s.slot)
  {
  }

  /** The payload is the newest of some bundle for its address. */
  ghost predicate Rides(bufs: seq<Slot>, mac: Mac, payload: Payload) {
    exists i :: 0 <= i < |bufs| && TailIs(bufs[i], mac, payload)
  }

  /** The bundle record p stages; a free slot if it stages none. */
  ghost function StagedAt(bufs: seq<Slot>, peers: seq<Peer>, p: int): Slot {
    if 0 <= p < |peers| && peers[p].Peer? && 0 < peers[p].aggIdx <= |bufs| then bufs[peers[p].aggIdx - 1] else Free
  }

  ghost function PayloadsOf(b: Slot): seq<Payload> {
    if b.Buf? then b.payloads else []
  }

  /** One more payload of this length would pass the budget, the eight subframes, the wire
      limit or the buffer of a staged bundle. */
  ghost predicate Overfills(b: Slot, len: nat, eff: nat)
    requires b.Buf?
  {
    var sum, n := Total(b.payloads), |b.payloads|;
    sum + len > eff || n >= 8 || 6 + sum + 2 * n + 2 + len > 4022 || 6 + sum + 2 * n + 2 + len > |b.data|
  }

  /** Staging is refused: by the bundle that is staged, or for want of a slot or of heap. */
  ghost predicate StageFails(b: Slot, len: nat, eff: nat, room: bool) {
    if b.Buf? then Overfills(b, len, eff) else !room
  }

  /** A bundle that is sent as soon as it has this payload: bundling is off, it has eight
      subframes, its buffer has no room for another, or its budget is used up. */
  ghost predicate Closes(b: Slot, agg: bool, eff: nat)
    requires b.Buf?
  {
    var sum, n := Total(b.payloads), |b.payloads|;
    !agg || n >= 8 || 6 + sum + 2 * n + 2 > |b.data| || sum >= eff
  }

  lemma ClosesSame(b: Slot, c: Slot, agg: bool, eff: nat)
    requires b.Buf? && c.Buf? && c.payloads == b.payloads && |c.data| == |b.data|
    ensures Closes(c, agg, eff) == Closes(b, agg, eff)
  {
  }

  /** A bundle with the payloads another held, and one more. */
  ghost predicate Holding(b: Slot, was: Slot, payload: Payload) {
    b.Buf? && b.payloads == PayloadsOf(was) + [payload]
  }

  /** The record of an address, or -1. */
  ghost function RecordOf(peers: seq<Peer>, mac: Mac): (r: int)
    ensures r == -1 || Names(peers, r, mac)
    ensures r == -1 ==> forall p :: !Names(peers, p, mac)
  {
    if exists p :: Names(peers, p, mac) then var p :| Names(peers, p, mac); p else -1
  }

  lemma RecordIs(peers: seq<Peer>, mac: Mac, p: int)
    requires UniqueMacs(peers) && Names(peers, p, mac)
    ensures RecordOf(peers, mac) == p
  {
    var r := RecordOf(peers, mac);
    assert Names(peers, r, mac);
  }

  /** Looking a record up changes no staged bundle. */
  lemma SameStaged(bufs: seq<Slot>, was: seq<Peer>, now: seq<Peer>, p: nat, mac: Mac)
    requires UniqueMacs(was) && p < |was| == |now| && now == was[p := now[p]] && Names(now, p, mac)
    requires if Names(was, p, mac) then now[p].aggIdx == was[p].aggIdx
             else now[p].aggIdx == 0 && forall q :: !Names(was, q, mac)
    ensures StagedAt(bufs, now, p) == StagedAt(bufs, was, RecordOf(was, mac))
    ensures StagedAt(bufs, now, p).Buf? ==> RecordOf(was, mac) == p
  {
    if Names(was, p, mac) {
      RecordIs(was, mac, p);
    }
  }

  /** Peer p opened a bundle with this payload in a slot that was free. */
  ghost predicate Opened(was: seq<Slot>, now: seq<Slot>, ps: seq<Peer>, qs: seq<Peer>, p: nat, payload: Payload,
                         cap: nat) {
    && |was| == |now| && p < |ps| == |qs| && ps[p].Peer? && qs[p].Peer? && 0 < qs[p].aggIdx <= |was|
    && var i := qs[p].aggIdx - 1;
    && was[i].Free? && now == was[i := now[i]] && TailIs(now[i], ps[p].mac, payload) && |now[i].payloads| == 1
    && |now[i].data| == cap
    && qs == ps[p := qs[p]] && qs[p].mac == ps[p].mac
  }

  lemma OpenedBy(was: seq<Slot>, ps: seq<Peer>, i: nat, v: Slot, p: nat, q: Peer, payload: Payload)
    requires i < |was| && was[i].Free? && q.Peer? && TailIs(v, q.mac, payload) && |v.payloads| == 1
    requires p < |ps| && ps[p].Peer? && q.Peer? && q.mac == ps[p].mac && q.aggIdx == i + 1
    ensures Opened(was, was[i := v], ps, ps[p := q], p, payload, |v.data|) && LeavesFlying(was, was[i := v])
  {
  }

  lemma SameFlying(bufs: seq<Slot>)
    ensures LeavesFlying(bufs, bufs)
  {
  }

  lemma SameSending(bufs: seq<Slot>)
    ensures LeavesSending(bufs, bufs, -1)
  {
  }

  lemma FlyingSending(was: seq<Slot>, now: seq<Slot>)
    requires LeavesFlying(was, now)
    ensures LeavesSending(was, now, -1)
  {
  }

  lemma ClearedSending(was: seq<Slot>, now: seq<Slot>, mac: Mac, frame: Frame)
    requires |frame| == ACK_LEN && |was| == |now|
    requires forall i :: 0 <= i < |now| ==> now[i] == if ClearedBy(was[i], mac, frame) then Free else was[i]
    ensures LeavesSending(was, now, -1)
  {
  }

  lemma BothFlying(was: seq<Slot>, mid: seq<Slot>, now: seq<Slot>)
    requires LeavesFlying(was, mid) && LeavesFlying(mid, now)
    ensures LeavesFlying(was, now)
  {
  }

  /** Nothing that left staging was touched. */
  ghost predicate LeavesFlying(was: seq<Slot>, now: seq<Slot>) {
    |was| == |now| && forall i :: 0 <= i < |was| && was[i].Buf? && was[i].state != Staging ==> now[i] == was[i]
  }

  class AckLayer {
    const maxRetries: nat
    const window: nat
    const agg: bool

    var bufs: seq<Slot>
    var peers: seq<Peer>
    var spans: map<nat, Span>
    var usedN: nat
    var inflightN: nat
    var heapBytes: nat
    var cwnd: nat
    var holder: Option<nat>   // the thread that went away with the mutex, if one did

    var flushed: nat        // env_tx_bundles
    var acked: nat
    var dropDeadline: nat
    var dropExhaust: nat
    var dropThrottle: nat   // subframes
    var accepted: nat       // payloads taken into a bundle
    var subsFlushed: nat    // subframes inside flushed bundles

    var log: seq<Deed>      // everything done so far; not in the C program
    var performed: seq<Event>   // the scheduling choices made so far; neither

    ghost predicate Counted()
      reads this
    {
      && usedN == Tally(bufs).used
      && inflightN == Tally(bufs).flying
      && heapBytes == Tally(bufs).heap
      && flushed == acked + dropDeadline + dropExhaust + Tally(bufs).bundled
      && accepted == subsFlushed + dropThrottle + Tally(bufs).staged
    }

    ghost predicate Valid()
      reads this
    {
      && 1 <= window <= SLOTS && 1 <= cwnd <= window && inflightN <= window
      && |bufs| == SLOTS && |peers| == PEERS
      && Table(bufs, peers, spans, maxRetries, holder)
      && Counted()
      && Told(log, bufs, peers)
    }

    /** Nothing entered flight since, or the window had room for what did. */
    ghost predicate Admits(flushed0: nat, inflight0: nat)
      reads this
    {
      (flushed == flushed0 && inflightN <= inflight0) || inflightN <= cwnd
    }

    /** The radio and both windows have room for a bundle. */
    ghost predicate MayLeave(vacant: bool)
      reads this
    {
      vacant && inflightN < cwnd && inflightN < window
    }

    /** Without bundling, a send is refused at once when the windows or the table are full. */
    ghost predicate RefusesSolo()
      reads this
    {
      !agg && (inflightN >= cwnd || inflightN >= window || usedN >= SLOTS)
    }

    /** A send through record p is refused: its bundle is full and cannot leave, or there is
        no slot or no heap for one. */
    ghost predicate Refuses(p: int, len: nat, eff: nat, env: Env)
      reads this
    {
      RefusesSolo() ||
      (var b := StagedAt(bufs, peers, p);
       if b.Buf? then Overfills(b, len, eff) && !(p >= 0 && MayLeave(env.vacant(p)))
       else !(env.malloc && usedN < SLOTS))
    }

    /** A send through record p sends the full bundle first. */
    ghost predicate Displaces(p: int, len: nat, eff: nat, env: Env)
      reads this
    {
      && !RefusesSolo() && p >= 0 && MayLeave(env.vacant(p))
      && var b := StagedAt(bufs, peers, p); b.Buf? && Overfills(b, len, eff)
    }

    /** What left the air since was acknowledged, one count each; nothing was dropped. */
    ghost predicate Booked(acked0: nat, inflight0: nat, deadline0: nat, exhaust0: nat)
      reads this
    {
      acked - acked0 == inflight0 - inflightN >= 0 && dropDeadline == deadline0 && dropExhaust == exhaust0
    }

    constructor (maxRetries: nat, window: nat, agg: bool)
      requires 1 <= window <= SLOTS
      ensures Valid() && spans == map[] && holder == None
      ensures this.maxRetries == maxRetries && this.window == window && this.agg == agg
      ensures (forall i :: 0 <= i < SLOTS ==> bufs[i].Free?) && (forall p :: 0 <= p < PEERS ==> peers[p].Vacant?)
      ensures usedN == inflightN == heapBytes == 0 && cwnd == Min(window, 4) && log == [] && performed == []
    {
      this.maxRetries, this.window, this.agg := maxRetries, window, agg;
      bufs, peers, spans := seq(SLOTS, _ => Free), seq(PEERS, _ => Vacant), map[];
      usedN, inflightN, heapBytes, holder := 0, 0, 0, None;
      cwnd := if window > 4 then 4 else window;
      flushed, acked, dropDeadline, dropExhaust, dropThrottle, accepted, subsFlushed := 0, 0, 0, 0, 0, 0, 0;
      log, performed := [], [];
      new;
      NothingYet(bufs, peers);
      TallyFree(bufs);
    }

    function EffWindow(): nat
      reads this
    {
      if cwnd < window then cwnd else window
    }

    method OnCleanClear()
      requires 1 <= cwnd <= window
      modifies this`cwnd
      ensures 1 <= cwnd <= window && cwnd == if old(cwnd) < window then old(cwnd) + 1 else old(cwnd)
    {
      if cwnd < window {
        cwnd := cwnd + 1;
      }
    }

    method OnRetransTimeout()
      requires 1 <= cwnd <= window
      modifies this`cwnd
      ensures 1 <= cwnd <= window && cwnd <= old(cwnd)
      ensures window >= 2 && old(cwnd) > 2 ==> 2 <= cwnd == old(cwnd) * 3 / 4
      ensures old(cwnd) <= 2 ==> cwnd == old(cwnd)
    {
      var floor := if window >= 2 then 2 else 1;
      if cwnd > floor {
        cwnd := Max(cwnd * 3 / 4, floor);
      }
    }

    // ---------------------------------------------------------------- peers

    method PeerFind(mac: Mac) returns (r: int)
      ensures r == -1 || Names(peers, r, mac)
      ensures r == -1 ==> forall p :: !Names(peers, p, mac)
    {
      for i := 0 to |peers|
        invariant forall p :: 0 <= p < i ==> !Names(peers, p, mac)
      {
        if peers[i].Peer? && peers[i].mac == mac {
          return i;
        }
      }
      return -1;
    }

    method BufForPeer(mac: Mac) returns (found: bool)
      ensures !found <==> forall i :: 0 <= i < |bufs| && bufs[i].Buf? ==> bufs[i].dest != mac
    {
      for i := 0 to |bufs|
        invariant forall k :: 0 <= k < i && bufs[k].Buf? ==> bufs[k].dest != mac
      {
        if bufs[i].Buf? && bufs[i].dest == mac {
          return true;
        }
      }
      return false;
    }

    /** A vacant record, else the longest unheard one that owns no buffer. */
    method EvictPick() returns (r: int)
      requires |peers| == PEERS
      ensures -1 <= r < PEERS
      ensures r >= 0 && peers[r].Peer? ==>
              peers[r].lastSeen < NEVER && Idle(bufs, peers[r]) && forall q :: 0 <= q < PEERS ==>
                peers[q].Peer? && (Idle(bufs, peers[q]) ==> peers[r].lastSeen <= peers[q].lastSeen)
      ensures r == -1 ==> forall q :: 0 <= q < PEERS ==>
                peers[q].Peer? && (Idle(bufs, peers[q]) ==> peers[q].lastSeen >= NEVER)
    {
      r := -1;
      var oldest := NEVER;
      for i := 0 to PEERS
        invariant -1 <= r < i
        invariant r >= 0 ==> peers[r].Peer? && Idle(bufs, peers[r]) && peers[r].lastSeen == oldest < NEVER
        invariant r == -1 ==> oldest == NEVER
        invariant forall q :: 0 <= q < i ==> peers[q].Peer? && (Idle(bufs, peers[q]) ==> oldest <= peers[q].lastSeen)
      {
        if peers[i].Vacant? {
          return i;
        }
        var busy := BufForPeer(peers[i].mac);
        if !busy && peers[i].lastSeen < oldest {
          oldest, r := peers[i].lastSeen, i;
        }
      }
    }

    /** Finds or creates the record of an address. */
    method PeerGet(mac: Mac, now: nat) returns (r: int)
      requires Valid()
      modifies this`peers, this`log
      ensures Valid()
      ensures r == -1 || Names(peers, r, mac)
      ensures r >= 0 <==> old(Served(bufs, peers, mac))
      ensures r == -1 ==> unchanged(this)
      ensures r >= 0 && !Names(old(peers), r, mac) ==> forall q :: !Names(old(peers), q, mac)
      ensures log == if r == -1 || Names(old(peers), r, mac) then old(log) else old(log) + [Met(mac)]
      ensures r >= 0 ==> peers == old(peers)[r := if Names(old(peers), r, mac) then old(peers)[r].(lastSeen := now)
                                                  else Peer(mac, now, 0, 0, 0, 0, 0)]
    {
      hide Table, SlotOk, Tally, Linked, Told;
      TableLinks(bufs, peers, spans, maxRetries, holder);
      r := PeerFind(mac);
      if r >= 0 {
        assert Serves(bufs, peers[r], mac);
        PeerTouched(bufs, peers, spans, r, now);
        NothingTold(log, bufs, peers, 0, bufs[0], r, peers[r].(lastSeen := now));
        assert bufs[0 := bufs[0]] == bufs;
        TablePeers(bufs, peers, spans, maxRetries, holder, peers[r := peers[r].(lastSeen := now)]);
        peers := peers[r := peers[r].(lastSeen := now)];
        return;
      }
      r := EvictPick();
      if r < 0 {
        forall q | 0 <= q < PEERS ensures !Serves(bufs, peers[q], mac) {
          assert !Names(peers, q, mac);
        }
      } else {
        assert Serves(bufs, peers[r], mac);
        NoBufferFor(bufs, peers, spans, mac);
        MetTold(log, bufs, peers, r, Peer(mac, now, 0, 0, 0, 0, 0));
        PeerReplaced(bufs, peers, spans, r, Peer(mac, now, 0, 0, 0, 0, 0));
        TablePeers(bufs, peers, spans, maxRetries, holder, peers[r := Peer(mac, now, 0, 0, 0, 0, 0)]);
        peers := peers[r := Peer(mac, now, 0, 0, 0, 0, 0)];
        log := log + [Met(mac)];
      }
    }

    // -------------------------------------------------------------- buffers

    /** Gives a slot back to the heap. */
    method BufRelease(i: nat)
      requires i < |bufs| && bufs[i].Buf?
      requires usedN == Tally(bufs).used && inflightN == Tally(bufs).flying && heapBytes == Tally(bufs).heap
      modifies this`bufs, this`usedN, this`inflightN, this`heapBytes
      ensures bufs == old(bufs)[i := Free]
      ensures usedN == Tally(bufs).used && inflightN == Tally(bufs).flying && heapBytes == Tally(bufs).heap
      ensures inflightN == old(inflightN) - Flying(old(bufs)[i])
      ensures Tally(bufs).bundled == Tally(old(bufs)).bundled - Bundled(old(bufs)[i])
      ensures Tally(bufs).staged == Tally(old(bufs)).staged - StagedSubs(old(bufs)[i])
    {
      Recount(bufs, i, Free);
      if bufs[i].state != Staging {
        inflightN := inflightN - 1;
      }
      heapBytes := heapBytes - (OVERHEAD + |bufs[i].data|);
      bufs := bufs[i := Free];
      usedN := usedN - 1;
    }

    /** Takes the first free slot; -1 when the table or the heap is full. */
    method BufAlloc(state: BufState, mac: Mac, cap: nat, owner: nat, malloc: bool) returns (r: int)
      requires usedN == Tally(bufs).used
      modifies this`bufs, this`usedN, this`inflightN, this`heapBytes
      ensures -1 <= r < |old(bufs)|
      ensures r == -1 <==> !malloc || old(usedN) >= |old(bufs)|
      ensures r == -1 ==> unchanged(this)
      ensures r >= 0 ==>
                && old(bufs)[r].Free? && bufs == old(bufs)[r := Blank(state, mac, cap, owner)]
                && usedN == old(usedN) + 1 && heapBytes == old(heapBytes) + OVERHEAD + cap
                && inflightN == old(inflightN) + (if state == Staging then 0 else 1)
    {
      AllUsed(bufs);
      for i := 0 to |bufs|
        invariant unchanged(this)
        invariant forall k :: 0 <= k < i ==> bufs[k].Buf?
      {
        if bufs[i].Free? {
          if !malloc {
            return -1;
          }
          bufs := bufs[i := Blank(state, mac, cap, owner)];
          usedN := usedN + 1;
          heapBytes := heapBytes + OVERHEAD + cap;
          if state != Staging {
            inflightN := inflightN + 1;
          }
          return i;
        }
      }
      return -1;
    }

    // -------------------------------------------------------- send and land

    /** Seals the staged bundle and hands it to the radio, up to the unlock. */
    method FlushLocked(p: nat, t: nat, resume: Resume, vacant: bool, fid: U16) returns (r: FlushResult)
      requires Valid() && p < PEERS && peers[p].Peer? && t !in spans && ResumeOk(resume, p) && !resume.PlainEnd?
      modifies this`bufs, this`peers, this`spans, this`inflightN, this`flushed, this`subsFlushed, this`log
      ensures Valid()
      ensures r == NothingStaged <==> old(peers)[p].aggIdx == 0
      ensures r == Sent <==> old(peers)[p].aggIdx != 0 && vacant && old(inflightN) < cwnd && old(inflightN) < window
      ensures r != Sent ==> unchanged(this)
      ensures r == Sent ==>
                && spans == old(spans)[t := Span(old(peers)[p].aggIdx - 1, resume)]
                && LeavesFlying(old(bufs), bufs)
                && Departed(old(bufs), bufs, old(peers), peers, p)
                && log == old(log) + [Leaving(old(bufs), old(peers), p)]
                && inflightN == old(inflightN) + 1 && flushed == old(flushed) + 1
                && subsFlushed == old(subsFlushed) + old(peers)[p].aggNsub
    {
      hide Table, SlotOk, Linked, Counted, Told;
      if peers[p].aggIdx == 0 {
        return NothingStaged;
      }
      if !vacant || inflightN >= EffWindow() {
        return Refused;
      }
      Launch(p, t, resume, fid);
      return Sent;
    }

    method Launch(p: nat, t: nat, resume: Resume, fid: U16)
      requires Valid() && p < PEERS && peers[p].Peer? && t !in spans && ResumeOk(resume, p) && !resume.PlainEnd?
      requires peers[p].aggIdx != 0 && inflightN < window
      modifies this`bufs, this`peers, this`spans, this`inflightN, this`flushed, this`subsFlushed, this`log
      ensures Valid()
      ensures spans == old(spans)[t := Span(old(peers)[p].aggIdx - 1, resume)]
      ensures LeavesFlying(old(bufs), bufs) && Departed(old(bufs), bufs, old(peers), peers, p)
      ensures log == old(log) + [Leaving(old(bufs), old(peers), p)]
      ensures inflightN == old(inflightN) + 1 && flushed == old(flushed) + 1
      ensures subsFlushed == old(subsFlushed) + old(peers)[p].aggNsub
    {
      hide Table, SlotOk, Holds, Tally, ResumeOk, Linked, Write, Header, DrawnSeq, Drawn, Told, Fitting;
      TableLinks(bufs, peers, spans, maxRetries, holder);
      StagingFacts(bufs, peers, spans, p);
      var me := peers[p];
      var i := me.aggIdx - 1;
      var b := bufs[i];
      var s := DrawnSeq(me.txSeq);
      var sealed := b.(state := Sending, retries := 0, len := me.aggLen, fid := fid, seq16 := s,
                       data := Write(b.data, 0, Header(s, me.aggNsub)), sends := 1, thread := t,
                       number := Drawn(me.next));
      var idle := me.(txSeq := (s + 1) % WRAP, aggIdx := 0, aggLen := 0, aggNsub := 0, next := Drawn(me.next) + 1);
      HeldFits(b, me.aggLen, me.aggNsub);
      LinkedMacs(bufs, peers, spans);
      FlushTold(log, bufs, peers, i, sealed, p, idle);
      SealedOk(b, me.aggLen, me.aggNsub, sealed, maxRetries);
      LaunchLinked(bufs, peers, spans, i, sealed, p, idle, t, resume);
      TableWith(bufs, peers, spans, maxRetries, holder, i, sealed, peers[p := idle], spans[t := Span(i, resume)]);
      Recount(bufs, i, sealed);
      bufs := bufs[i := sealed];
      peers := peers[p := idle];
      spans := spans[t := Span(i, resume)];
      inflightN := inflightN + 1;
      flushed := flushed + 1;
      subsFlushed := subsFlushed + me.aggNsub;
      log := log + [Flushed(sealed.dest, ParcelOf(sealed))];
    }

    /** Relocks after the radio call: the thread's buffer is now in flight. */
    method Land(t: nat)
      requires Valid() && t in spans && (spans[t].resume.PlainEnd? ==> holder.Some?)
      modifies this`bufs, this`spans
      ensures Valid() && spans == old(spans) - {t}
      ensures bufs == old(bufs)[old(spans)[t].slot := old(bufs)[old(spans)[t].slot].(state := InFlight)]
    {
      hide Table, SlotOk, Tally, Linked, Told;
      TableLinks(bufs, peers, spans, maxRetries, holder);
      SpanFacts(bufs, peers, spans, t);
      var i := spans[t].slot;
      var b := bufs[i].(state := InFlight);
      SlotTold(log, bufs, peers, i, b);
      TableSlot(bufs, peers, spans, maxRetries, holder, i);
      LandedOk(bufs[i], maxRetries);
      LandLinked(bufs, peers, spans, t);
      TableWith(bufs, peers, spans, maxRetries, holder, i, b, peers, spans - {t});
      Recount(bufs, i, b);
      bufs := bufs[i := b];
      spans := spans - {t};
    }

    /** Books why a frame is released; only one that needed no retry widens the window. */
    method Book(why: Fate, clean: bool)
      requires 1 <= cwnd <= window
      modifies this`cwnd, this`acked, this`dropDeadline, this`dropExhaust
      ensures 1 <= cwnd <= window
      ensures acked == old(acked) + (if why == Acknowledged then 1 else 0)
      ensures dropDeadline == old(dropDeadline) + (if why == Deadline then 1 else 0)
      ensures dropExhaust == old(dropExhaust) + (if why == Exhausted then 1 else 0)
      ensures cwnd == old(cwnd) + (if why == Acknowledged && clean && old(cwnd) < window then 1 else 0)
    {
      match why
      case Acknowledged =>
        acked := acked + 1;
        if clean {
          OnCleanClear();
        }
      case Deadline => dropDeadline := dropDeadline + 1;
      case Exhausted => dropExhaust := dropExhaust + 1;
    }

    /** Releases an in-flight buffer and books why. */
    method Retire(i: nat, why: Fate, on: Option<Frame>)
      requires Valid() && i < SLOTS && bufs[i].Buf? && bufs[i].state == InFlight && !IsPlain(bufs[i])
      requires on.Some? ==> |on.value| == ACK_LEN && Covers(on.value, bufs[i].seq16)
      modifies this`bufs, this`usedN, this`inflightN, this`heapBytes,
               this`cwnd, this`acked, this`dropDeadline, this`dropExhaust, this`log
      ensures Valid() && bufs == old(bufs)[i := Free]
      ensures var b := old(bufs)[i];
              log == old(log) + [if on.Some? then Cleared(b.dest, ParcelOf(b), on.value)
                                 else LetGo(b.dest, ParcelOf(b))]
      ensures inflightN == old(inflightN) - 1
      ensures acked == old(acked) + (if why == Acknowledged then 1 else 0)
      ensures dropDeadline == old(dropDeadline) + (if why == Deadline then 1 else 0)
      ensures dropExhaust == old(dropExhaust) + (if why == Exhausted then 1 else 0)
      ensures cwnd == old(cwnd) + (if why == Acknowledged && old(bufs)[i].retries == 0 &&
              old(cwnd) < window then 1 else 0)
    {
      hide Table, SlotOk, Holds, Tally, Linked, Told, Covers, SameWaiting, Used, Heap;
      TableLinks(bufs, peers, spans, maxRetries, holder);
      LeavesTold(log, bufs, peers, i, on);
      log := log + [Leaves(bufs[i], on)];
      FreedLinked(bufs, peers, spans, i);
      FreeOk(maxRetries);
      TableWith(bufs, peers, spans, maxRetries, holder, i, Free, peers, spans);
      Book(why, bufs[i].retries == 0);
      BufRelease(i);
    }

    /** Sends an in-flight buffer again, up to the unlock. */
    method Retransmit(i: nat, t: nat)
      requires Valid() && t !in spans
      requires i < SLOTS && bufs[i].Buf? && bufs[i].state == InFlight && bufs[i].retries < maxRetries
      requires !IsPlain(bufs[i])
      modifies this`bufs, this`spans, this`cwnd, this`log
      ensures Valid() && spans == old(spans)[t := Span(i, TickBufsAt(i + 1))]
      ensures log == old(log) + [Resent(old(bufs)[i].dest, ParcelOf(old(bufs)[i]))]
      ensures bufs == old(bufs)[i := bufs[i]]
      ensures bufs[i] == old(bufs)[i].(state := Sending, retries := old(bufs)[i].retries + 1,
                                       sends := old(bufs)[i].sends + 1, thread := t)
      // only the first retry of a frame narrows the window
      ensures cwnd <= old(cwnd)
      ensures old(bufs)[i].retries != 0 ==> cwnd == old(cwnd)
      ensures old(bufs)[i].retries == 0 && old(cwnd) > 2 ==> 2 <= cwnd == old(cwnd) * 3 / 4
    {
      hide Table, SlotOk, Holds, Tally, Linked, Told;
      TableLinks(bufs, peers, spans, maxRetries, holder);
      if bufs[i].retries == 0 {
        OnRetransTimeout();
      }
      var b := bufs[i].(state := Sending, retries := bufs[i].retries + 1, sends := bufs[i].sends + 1, thread := t);
      TableSlot(bufs, peers, spans, maxRetries, holder, i);
      RetriedOk(bufs[i], b, maxRetries);
      ResendTold(log, bufs, peers, i, b);
      RelaunchLinked(bufs, peers, spans, i, b, t, TickBufsAt(i + 1));
      TableWith(bufs, peers, spans, maxRetries, holder, i, b, peers, spans[t := Span(i, TickBufsAt(i + 1))]);
      Recount(bufs, i, b);
      bufs := bufs[i := b];
      spans := spans[t := Span(i, TickBufsAt(i + 1))];
      log := log + [Resent(b.dest, ParcelOf(b))];
    }

    /** Throws a staged bundle away. */
    method AggReset(p: nat)
      requires Valid() && p < PEERS && peers[p].Peer? && peers[p].aggIdx != 0
      modifies this`bufs, this`peers, this`usedN, this`inflightN, this`heapBytes, this`dropThrottle
      ensures Valid() && LeavesFlying(old(bufs), bufs)
      ensures peers == old(peers)[p := old(peers)[p].(aggIdx := 0, aggLen := 0, aggNsub := 0)]
      ensures bufs == old(bufs)[old(peers)[p].aggIdx - 1 := Free]
      ensures inflightN == old(inflightN)
      ensures dropThrottle == old(dropThrottle) + old(peers)[p].aggNsub
    {
      hide Table, SlotOk, Holds, Tally, Linked, Told;
      TableLinks(bufs, peers, spans, maxRetries, holder);
      StagingFacts(bufs, peers, spans, p);
      var idle := peers[p].(aggIdx := 0, aggLen := 0, aggNsub := 0);
      ResetLinked(bufs, peers, spans, p, idle);
      NothingTold(log, bufs, peers, peers[p].aggIdx - 1, Free, p, idle);
      FreeOk(maxRetries);
      TableWith(bufs, peers, spans, maxRetries, holder, peers[p].aggIdx - 1, Free, peers[p := idle], spans);
      dropThrottle := dropThrottle + peers[p].aggNsub;
      BufRelease(peers[p].aggIdx - 1);
      peers := peers[p := idle];
    }

    // -------------------------------------------------------------- staging

    /** Appends a payload to the bundle being staged. */
    method StageMore(p: nat, payload: Payload)
      requires Valid() && p < PEERS && peers[p].Peer? && peers[p].aggIdx != 0 && peers[p].aggNsub < MAX_SUB
      requires peers[p].aggLen + 2 + |payload| <= WIRE_MAX
      requires bufs[peers[p].aggIdx - 1].Buf? && peers[p].aggLen + 2 + |payload| <= |bufs[peers[p].aggIdx - 1].data|
      modifies this`bufs, this`peers, this`accepted
      ensures Valid() && LeavesFlying(old(bufs), bufs) && accepted == old(accepted) + 1
      ensures |bufs| == SLOTS && old(bufs[peers[p].aggIdx - 1].Buf?)
      ensures var i := old(peers[p].aggIdx) - 1;
              bufs == old(bufs)[i := bufs[i]] && bufs[i].Buf? && bufs[i].payloads == old(bufs)[i].payloads + [payload]
      ensures var me := old(peers)[p];
              peers == old(peers)[p := me.(aggLen := me.aggLen + 2 + |payload|, aggNsub := me.aggNsub + 1)]
    {
      hide Table, SlotOk, Holds, Tally, Linked, Write, Sub, Told;
      TableLinks(bufs, peers, spans, maxRetries, holder);
      StagingFacts(bufs, peers, spans, p);
      var me := peers[p];
      var i := me.aggIdx - 1;
      SubLength(payload);
      var b := bufs[i].(data := Write(bufs[i].data, me.aggLen, Sub(payload)), payloads := bufs[i].payloads + [payload]);
      var more := me.(aggLen := me.aggLen + 2 + |payload|, aggNsub := me.aggNsub + 1);
      StagedMore(bufs[i], b, me.aggLen, me.aggNsub, payload);
      StagedLinked(bufs, peers, spans, i, b, p, more);
      NothingTold(log, bufs, peers, i, b, p, more);
      StagingOk(b, maxRetries);
      TableWith(bufs, peers, spans, maxRetries, holder, i, b, peers[p := more], spans);
      Recount(bufs, i, b);
      bufs := bufs[i := b];
      peers := peers[p := more];
      accepted := accepted + 1;
    }

    /** Opens a bundle with its first payload; refused when no slot or no heap. */
    method StageFresh(p: nat, payload: Payload, eff: nat, malloc: bool) returns (ok: bool)
      requires Valid() && p < PEERS && peers[p].Peer? && peers[p].aggIdx == 0
      requires HDR + 2 + |payload| <= WIRE_MAX
      modifies this`bufs, this`peers, this`usedN, this`inflightN, this`heapBytes, this`accepted
      ensures Valid() && LeavesFlying(old(bufs), bufs)
      ensures !ok ==> unchanged(this)
      ensures ok <==> malloc && old(usedN) < SLOTS
      ensures ok ==> accepted == old(accepted) + 1 && inflightN == old(inflightN)
      ensures ok ==> Opened(old(bufs), bufs, old(peers), peers, p, payload, StagingCap(eff, |payload|))
    {
      hide Table, SlotOk, Holds, Tally, Linked, Write, Sub, StagingCap, Blank, LeavesFlying, Opened, Told;
      hide Used, Flying, Bundled, Heap, StagedSubs;
      TableLinks(bufs, peers, spans, maxRetries, holder);
      SameFlying(bufs);
      var cap := StagingCap(eff, |payload|);
      var r := BufAlloc(Staging, peers[p].mac, cap, p, malloc);
      if r < 0 {
        return false;
      }
      SubLength(payload);
      var b := bufs[r].(data := Write(bufs[r].data, HDR, Sub(payload)), payloads := [payload]);
      var me := peers[p].(aggIdx := r + 1, aggLen := HDR + 2 + |payload|, aggNsub := 1);
      StagedFirst(bufs[r], b, payload);
      StagedLinked(old(bufs), peers, spans, r, b, p, me);
      NothingTold(log, old(bufs), peers, r, b, p, me);
      StagingOk(b, maxRetries);
      TableWith(old(bufs), peers, spans, maxRetries, holder, r, b, peers[p := me], spans);
      Taken(old(bufs), r, b);
      OpenedBy(old(bufs), peers, r, b, p, me, payload);
      assert bufs[r := b] == old(bufs)[r := b];
      bufs := bufs[r := b];
      peers := peers[p := me];
      accepted := accepted + 1;
      ok := true;
    }

    /** Room check and staging; refused when the bundle, the table or the heap is full. */
    method Stage(p: nat, payload: Payload, eff: nat, malloc: bool) returns (ok: bool)
      requires Valid() && p < PEERS && peers[p].Peer?
      requires 0 < |payload| && HDR + 2 + |payload| <= WIRE_MAX
      modifies this`bufs, this`peers, this`usedN, this`inflightN, this`heapBytes, this`accepted
      ensures Valid() && LeavesFlying(old(bufs), bufs)
      ensures !ok ==> unchanged(this)
      ensures ok <==> !StageFails(StagedAt(old(bufs), old(peers), p), |payload|, eff, malloc && old(usedN) < SLOTS)
      ensures ok ==> Holding(StagedAt(bufs, peers, p), StagedAt(old(bufs), old(peers), p), payload)
      ensures ok ==> inflightN == old(inflightN)
      ensures ok ==> accepted == old(accepted) + 1 && peers[p].Peer? && 0 < peers[p].aggIdx <= |bufs|
      ensures ok ==> peers == old(peers)[p := peers[p]] && peers[p].mac == old(peers)[p].mac
      ensures ok ==> TailIs(bufs[peers[p].aggIdx - 1], peers[p].mac, payload)
    {
      hide Table, SlotOk, Linked, Counted, Told, Holds, Overfills;
      TableLinks(bufs, peers, spans, maxRetries, holder);
      if peers[p].aggIdx != 0 {
        StagingFacts(bufs, peers, spans, p);
        FullIff(bufs[peers[p].aggIdx - 1], peers[p].aggLen, peers[p].aggNsub, |payload|, eff);
        if FullFor(peers[p].aggLen, peers[p].aggNsub, |bufs[peers[p].aggIdx - 1].data|, |payload|, eff) {
          return false;
        }
        StageMore(p, payload);
      } else {
        ok := StageFresh(p, payload, eff, malloc);
        if !ok {
          return;
        }
      }
      TableLinks(bufs, peers, spans, maxRetries, holder);
      StagingFacts(bufs, peers, spans, p);
      ok := true;
    }

    /** The closing flush: the staged bundle leaves if and only if it closes and can leave. */
    method CloseBundle(t: nat, p: nat, eff: nat, env: Env) returns (sent: bool)
      requires Valid() && t !in spans && p < PEERS && peers[p].Peer? && peers[p].aggIdx != 0
      modifies this`bufs, this`peers, this`spans, this`inflightN, this`flushed, this`subsFlushed, this`log
      ensures Valid() && LeavesFlying(old(bufs), bufs) && Adds(old(log), log, None)
      ensures old(peers[p].aggIdx <= |bufs| && bufs[peers[p].aggIdx - 1].Buf?)
      ensures sent <==> Closes(old(bufs[peers[p].aggIdx - 1]), agg, eff) && old(MayLeave(env.vacant(p)))
      ensures !sent ==> unchanged(this)
      ensures sent ==>
                && spans == old(spans)[t := Span(old(peers[p].aggIdx) - 1, TxEnd)]
                && Departed(old(bufs), bufs, old(peers), peers, p) && inflightN == old(inflightN) + 1
    {
      hide Table, SlotOk, Linked, Counted, Told, Holds, Closes, LeavesFlying, Departed;
      TableLinks(bufs, peers, spans, maxRetries, holder);
      StagingFacts(bufs, peers, spans, p);
      SameFlying(bufs);
      var me := peers[p];
      ClosesIff(bufs[me.aggIdx - 1], me.aggLen, me.aggNsub, agg, eff);
      if !agg || me.aggNsub >= MAX_SUB || me.aggLen + 2 > |bufs[me.aggIdx - 1].data| ||
         me.aggLen - HDR - 2 * me.aggNsub >= eff {
        var f := FlushLocked(p, t, TxEnd, env.vacant(p), env.fid(p));
        return f == Sent;
      }
      return false;
    }

    /** The staging half of a send: staging, then the closing flush. */
    method StageTail(t: nat, p: nat, payload: Payload, eff: nat, env: Env) returns (r: TxResult)
      requires Valid() && t !in spans && p < PEERS && peers[p].Peer?
      requires 0 < |payload| && HDR + 2 + |payload| <= WIRE_MAX
      modifies this`bufs, this`peers, this`spans, this`usedN, this`inflightN,
               this`heapBytes, this`flushed, this`subsFlushed, this`accepted, this`log
      ensures Valid() && LeavesFlying(old(bufs), bufs) && Adds(old(log), log, None)
      ensures r == Throttled || r == Accepted || r == Suspended
      ensures accepted == old(accepted) + (if r == Throttled then 0 else 1)
      ensures if r == Suspended then t in spans && spans == old(spans)[t := spans[t]] else spans == old(spans)
      ensures r == Throttled <==>
                StageFails(StagedAt(old(bufs), old(peers), p), |payload|, eff, env.malloc && old(usedN) < SLOTS)
      ensures r != Throttled ==> Rides(bufs, old(peers)[p].mac, payload)
      // a bundle that closes leaves at once, if it can
      ensures r == Accepted ==>
                && Holding(StagedAt(bufs, peers, p), StagedAt(old(bufs), old(peers), p), payload)
                && !(Closes(StagedAt(bufs, peers, p), agg, eff) && old(MayLeave(env.vacant(p))))
      ensures r == Suspended ==>
                && spans[t].resume == TxEnd && spans[t].slot < |bufs| && old(MayLeave(env.vacant(p)))
                && TailIs(bufs[spans[t].slot], old(peers)[p].mac, payload)
                && Holding(bufs[spans[t].slot], StagedAt(old(bufs), old(peers), p), payload)
                && Closes(bufs[spans[t].slot], agg, eff)
      ensures Admits(old(flushed), old(inflightN))
    {
      hide Table, SlotOk, Linked, Counted, Told, Holds, Overfills, Closes, LeavesFlying, Adds;
      var ok := Stage(p, payload, eff, env.malloc);
      AddsNone(log, None);
      if !ok {
        return Throttled;
      }
      ghost var i, staged := peers[p].aggIdx - 1, bufs;
      var sent := CloseBundle(t, p, eff, env);
      BothFlying(old(bufs), staged, bufs);
      if sent {
        ClosesSame(staged[i], bufs[i], agg, eff);
        return Suspended;
      }
      return Accepted;
    }

    // ---------------------------------------------------------- entry points

    /** A frame that does not fit a bundle goes out on its own, if the radio, the window, the
        table and the heap all have room. */
    method TxPlain(t: nat, p: nat, payload: Payload, env: Env) returns (r: TxResult)
      requires Valid() && t !in spans && p < PEERS && peers[p].Peer? && |payload| <= WIRE_MAX
      modifies this`bufs, this`spans, this`usedN, this`inflightN, this`heapBytes
      ensures Valid() && LeavesFlying(old(bufs), bufs)
      ensures r == (if old(MayLeave(env.radio)) && old(usedN) < SLOTS && env.malloc then Suspended else Throttled)
      ensures r == Suspended ==> inflightN == old(inflightN) + 1
      ensures r == Throttled ==> unchanged(this)
      ensures r == Suspended ==>
                && t in spans && spans == old(spans)[t := spans[t]] && spans[t].resume == PlainEnd
                && spans[t].slot < |bufs| && TailIs(bufs[spans[t].slot], peers[p].mac, payload)
    {
      hide Table, SlotOk, Linked, Tally, Blank, LeavesFlying, TailIs, Told;
      hide Used, Flying, Bundled, Heap, StagedSubs;
      SameFlying(bufs);
      TableLinks(bufs, peers, spans, maxRetries, holder);
      if !env.radio || inflightN >= EffWindow() {
        return Throttled;
      }
      var i := BufAlloc(InFlight, peers[p].mac, |payload|, p, env.malloc);
      if i < 0 {
        return Throttled;
      }
      var b := bufs[i].(state := Sending, retries := 0, len := |payload|, fid := env.fid(p), data := payload,
                        payloads := [payload], sends := 1, thread := t);
      PlainOk(b, maxRetries);
      PlainTail(b, payload);
      PlainLinked(old(bufs), peers, spans, i, b, p, t);
      PlainTold(log, old(bufs), peers, i, b);
      TableWith(old(bufs), peers, spans, maxRetries, holder, i, b, peers, spans[t := Span(i, PlainEnd)]);
      Taken(old(bufs), i, b);
      assert bufs[i := b] == old(bufs)[i := b];
      bufs := bufs[i := b];
      spans := spans[t := Span(i, PlainEnd)];
      r := Suspended;
    }

    /** A send that rides a bundle, up to the first unlock. */
    method TxBundle(t: nat, p: nat, payload: Payload, eff: nat, env: Env) returns (r: TxResult)
      requires Valid() && t !in spans && p < PEERS && peers[p].Peer?
      requires HDR + 2 + |payload| <= WIRE_MAX && eff <= PAYLOAD_MAX
      modifies this`bufs, this`peers, this`spans, this`usedN, this`inflightN, this`heapBytes,
               this`flushed, this`subsFlushed, this`accepted, this`log
      ensures Valid() && LeavesFlying(old(bufs), bufs) && Adds(old(log), log, None)
      ensures r == Throttled || r == Rejected || r == Accepted || r == Suspended
      ensures r == Rejected <==> payload == []
      ensures if r == Suspended
              then t in spans && spans == old(spans)[t := spans[t]] &&
                  (spans[t].resume.TxMid? || spans[t].resume.TxEnd?)
              else spans == old(spans)
      ensures r == Throttled || r == Rejected ==> accepted == old(accepted)
      ensures r == Accepted ==> accepted == old(accepted) + 1
      ensures r == Accepted ==> Rides(bufs, old(peers)[p].mac, payload)
      ensures r == Suspended ==> Carried(bufs, spans[t], old(peers)[p].mac, payload)
      ensures r == Suspended && spans[t].resume != TxEnd ==> accepted == old(accepted)
      // exactly which sends are refused, and which send the full bundle first
      ensures r == Throttled <==> payload != [] && old(Refuses(p, |payload|, eff, env))
      ensures r == Suspended && spans[t].resume.TxMid? <==> payload != [] && old(Displaces(p, |payload|, eff, env))
      // a bundle that closes leaves at once, if it can
      ensures r == Accepted ==>
                && Holding(StagedAt(bufs, peers, p), StagedAt(old(bufs), old(peers), p), payload)
                && !(Closes(StagedAt(bufs, peers, p), agg, eff) && old(MayLeave(env.vacant(p))))
      ensures r == Suspended && spans[t].resume == TxEnd ==>
                && spans[t].slot < |bufs| && old(MayLeave(env.vacant(p)))
                && Holding(bufs[spans[t].slot], StagedAt(old(bufs), old(peers), p), payload)
                && Closes(bufs[spans[t].slot], agg, eff)
      ensures Admits(old(flushed), old(inflightN))
    {
      hide Table, SlotOk, Linked, Counted, Told, Holds, Overfills, Closes, LeavesFlying, Departed, Holding;
      SameFlying(bufs);
      TableLinks(bufs, peers, spans, maxRetries, holder);
      if payload == [] {
        return Rejected;
      }
      if !agg && (inflightN >= EffWindow() || SLOTS - usedN < 1) {
        return Throttled;
      }
      if peers[p].aggIdx != 0 {
        StagingFacts(bufs, peers, spans, p);
        FullIff(bufs[peers[p].aggIdx - 1], peers[p].aggLen, peers[p].aggNsub, |payload|, eff);
        if FullFor(peers[p].aggLen, peers[p].aggNsub, |bufs[peers[p].aggIdx - 1].data|, |payload|, eff) {
          var f := FlushLocked(p, t, TxMid(p, payload, eff), env.vacant(p), env.fid(p));
          return if f == Sent then Suspended else Throttled;
        }
      }
      r := StageTail(t, p, payload, eff, env);
    }

    /** A send through record p: in a bundle if it fits one, else on its own. */
    method TxTo(t: nat, p: nat, payload: Payload, eff: nat, env: Env) returns (r: TxResult)
      requires Valid() && t !in spans && p < PEERS && peers[p].Peer? && |payload| <= WIRE_MAX && eff <= PAYLOAD_MAX
      modifies this`bufs, this`peers, this`spans, this`usedN, this`inflightN, this`heapBytes,
               this`flushed, this`subsFlushed, this`accepted, this`log
      ensures Valid() && LeavesFlying(old(bufs), bufs) && Adds(old(log), log, None)
      ensures r != Broadcast && r != Untracked && (r == Rejected <==> payload == [])
      ensures if r == Suspended then t in spans && spans == old(spans)[t := spans[t]] else spans == old(spans)
      ensures r != Accepted && r != Suspended ==> accepted == old(accepted)
      ensures r == Accepted ==> accepted == old(accepted) + 1 && Rides(bufs, old(peers)[p].mac, payload)
      ensures r == Suspended ==>
                && Carried(bufs, spans[t], old(peers)[p].mac, payload)
                && (spans[t].resume != TxEnd ==> accepted == old(accepted))
                && (spans[t].resume.TxMid? || spans[t].resume.TxEnd? || spans[t].resume.PlainEnd?)
      ensures r == Throttled <==> payload != [] && if |payload| <= SHORT then old(Refuses(p, |payload|, eff, env))
                                                   else !(old(MayLeave(env.radio)) && old(usedN) < SLOTS && env.malloc)
      ensures r == Suspended && spans[t].resume.TxMid? <==>
                0 < |payload| <= SHORT && old(Displaces(p, |payload|, eff, env))
      ensures r == Suspended && spans[t].resume.PlainEnd? <==>
                |payload| > SHORT && old(MayLeave(env.radio)) && old(usedN) < SLOTS && env.malloc
      ensures Admits(old(flushed), old(inflightN))
    {
      hide Table, SlotOk, Linked, Counted, Told, Carried, LeavesFlying, Refuses, Displaces, Closes, Holding;
      hide Rides, Adds;
      AddsNone(log, None);
      if (agg && |payload| <= eff) || |payload| + HDR + 2 <= WIRE_MAX {
        r := TxBundle(t, p, payload, eff, env);
      } else {
        r := TxPlain(t, p, payload, env);
        if r == Suspended {
          PlainCarried(bufs, spans[t], peers[p].mac, payload);
        }
      }
    }

    /** A unicast send, from taking the lock to the first unlock.  An accepted payload is the
        last of a bundle for its address; a suspended one is that, or is carried by the
        thread until the full bundle has left, or is on its own. */
    method Tx(t: nat, mac: Mac, payload: Payload, eff: nat, env: Env) returns (r: TxResult)
      requires Valid() && t !in spans && eff <= PAYLOAD_MAX
      modifies this`bufs, this`peers, this`spans, this`usedN, this`inflightN, this`heapBytes,
               this`flushed, this`subsFlushed, this`accepted, this`log
      ensures Valid() && LeavesFlying(old(bufs), bufs) && Adds(old(log), log, None)
      ensures r == Broadcast <==> !WantsAck(mac, payload)
      ensures r == Untracked <==> WantsAck(mac, payload) && !old(Served(bufs, peers, mac))
      ensures r == Rejected <==> WantsAck(mac, payload) && payload == [] && old(Served(bufs, peers, mac))
      ensures if r == Suspended then t in spans && spans == old(spans)[t := spans[t]] else spans == old(spans)
      ensures r != Accepted && r != Suspended ==> accepted == old(accepted)
      ensures r == Accepted ==> accepted == old(accepted) + 1
      ensures r == Accepted ==> Rides(bufs, mac, payload)
      ensures r == Suspended ==> Carried(bufs, spans[t], mac, payload)
      ensures r == Suspended && spans[t].resume != TxEnd ==> accepted == old(accepted)
      ensures r == Suspended ==> spans[t].resume.TxMid? || spans[t].resume.TxEnd? || spans[t].resume.PlainEnd?
      // exactly which sends are refused, and which send the full bundle first
      ensures r == Throttled <==> old(Throttles(mac, payload, eff, env))
      ensures r == Suspended && spans[t].resume.TxMid? <==>
                && WantsAck(mac, payload) && old(Served(bufs, peers, mac)) && 0 < |payload| <= SHORT
                && old(Displaces(RecordOf(peers, mac), |payload|, eff, env))
      ensures Admits(old(flushed), old(inflightN))
      ensures r == Suspended && spans[t].resume == PlainEnd <==> old(GoesAlone(mac, payload, env))
    {
      hide Table, SlotOk, Linked, Counted, Told, Served, Carried, LeavesFlying, Overfills, Rides, Adds;
      SameFlying(bufs);
      AddsNone(log, None);
      TableLinks(bufs, peers, spans, maxRetries, holder);
      LinkedMacs(bufs, peers, spans);
      if maxRetries == 0 || mac == BROADCAST || |payload| > WIRE_MAX {
        return Broadcast;
      }
      var p := PeerGet(mac, env.now);
      if p < 0 {
        return Untracked;
      }
      SameStaged(bufs, old(peers), peers, p, mac);
      MetAdds(old(log), mac);
      ghost var met := log;
      r := TxTo(t, p, payload, eff, env);
      AddsBoth(old(log), met, log);
    }

    /** Sends that are to be acknowledged; all others go the way of broadcasts. */
    predicate WantsAck(mac: Mac, payload: Payload) {
      maxRetries > 0 && mac != BROADCAST && |payload| <= WIRE_MAX
    }

    /** The condition under which a send is refused for now. */
    ghost predicate Throttles(mac: Mac, payload: Payload, eff: nat, env: Env)
      reads this
    {
      && WantsAck(mac, payload) && Served(bufs, peers, mac) && payload != []
      && if |payload| <= SHORT then Refuses(RecordOf(peers, mac), |payload|, eff, env)
         else !(MayLeave(env.radio) && usedN < SLOTS && env.malloc)
    }

    /** The condition under which a send goes out on its own. */
    ghost predicate GoesAlone(mac: Mac, payload: Payload, env: Env)
      reads this
    {
      && WantsAck(mac, payload) && |payload| >= 4015 && Served(bufs, peers, mac)
      && MayLeave(env.radio) && usedN < SLOTS && env.malloc
    }

    /** A whole send by one thread, through the radio and back.  It goes away with the mutex
        if and only if it has one of eight lengths, a record can be had for its address, and
        radio, window, table and heap have room: then it went out on its own. */
    method SendReturns(t: nat, mac: Mac, payload: Payload, eff: nat, env: Env, env1: Env, env2: Env)
      returns (r: TxResult)
      requires Valid() && t !in spans && eff <= PAYLOAD_MAX && holder == None
      modifies this
      ensures Valid() && t !in spans
      ensures holder == if old(GoesAlone(mac, payload, env)) then Some(t) else None
    {
      hide Table, SlotOk, Linked, Counted, Told, Served, Carried;
      r := Tx(t, mac, payload, eff, env);
      if t in spans {
        ghost var resume := spans[t].resume;
        r := ResumeThread(t, env1);
        if t in spans {
          r := ResumeThread(t, env2);
        }
      }
    }

    /** Flushes every staging peer from record `start` on, up to the first that leaves:
        those before it were refused for want of radio room or window. */
    method FlushFrom(t: nat, start: nat, env: Env)
      requires Valid() && t !in spans && start <= PEERS
      modifies this`bufs, this`peers, this`spans, this`inflightN, this`flushed, this`subsFlushed, this`log
      ensures Valid() && LeavesFlying(old(bufs), bufs) && Adds(old(log), log, None)
      ensures if t in spans
              then var k := spans[t].resume;
                   && spans == old(spans)[t := spans[t]] && k.FlushAt? && start < k.next <= PEERS
                   && Departed(old(bufs), bufs, old(peers), peers, k.next - 1)
              else unchanged(this)
      ensures Stuck(old(peers), old(MayLeave(true)), start, Reached(spans, t), env)
      ensures Admits(old(flushed), old(inflightN))
    {
      hide Table, SlotOk, Linked, Counted, Told;
      for i := start to PEERS
        invariant unchanged(this)
        invariant forall k :: start <= k < i && Stages(peers[k]) ==> !(MayLeave(true) && env.vacant(k))
      {
        if peers[i].Peer? && peers[i].aggIdx != 0 {
          var f := FlushLocked(i, t, FlushAt(i + 1), env.vacant(i), env.fid(i));
          if f == Sent {
            return;
          }
        }
      }
    }

    /** One peer of the tick: its bundle leaves if it can, and is dropped if it cannot and has
        been held too long. */
    method TickPeer(i: nat, t: nat, env: Env) returns (sent: bool)
      requires Valid() && t !in spans && i < PEERS
      modifies this`bufs, this`peers, this`spans, this`usedN, this`inflightN, this`heapBytes,
               this`flushed, this`subsFlushed, this`dropThrottle, this`log
      ensures Valid() && LeavesFlying(old(bufs), bufs) && Adds(old(log), log, None) && |bufs| == |old(bufs)|
      ensures sent <==> Stages(old(peers)[i]) && old(MayLeave(true)) && env.vacant(i)
      ensures forall k :: 0 <= k < |bufs| && old(bufs)[k].Free? ==> bufs[k].Free?
      ensures |peers| == |old(peers)| && forall k :: 0 <= k < PEERS && k != i ==> peers[k] == old(peers)[k]
      ensures if sent
              then spans == old(spans)[t := Span(old(peers)[i].aggIdx - 1, TickPeersAt(i + 1))] &&
                   inflightN == old(inflightN) + 1
              else
                && spans == old(spans) && flushed == old(flushed) && inflightN == old(inflightN) && log == old(log)
                && peers[i] == if Stages(old(peers)[i]) && env.held(i)
                               then old(peers)[i].(aggIdx := 0, aggLen := 0, aggNsub := 0) else old(peers)[i]
    {
      hide Table, SlotOk, Linked, Counted, Told;
      sent := false;
      if peers[i].Peer? && peers[i].aggIdx != 0 {
        var f := FlushLocked(i, t, TickPeersAt(i + 1), env.vacant(i), env.fid(i));
        if f == Sent {
          return true;
        }
        if env.held(i) {
          AggReset(i);
        }
      }
    }

    /** The tick's pass over peers, up to the first bundle that leaves: one that cannot
        leave is dropped if it has been held too long and kept otherwise. */
    method TickPeers(t: nat, start: nat, env: Env)
      requires Valid() && t !in spans && start <= PEERS
      modifies this`bufs, this`peers, this`spans, this`usedN, this`inflightN, this`heapBytes,
               this`flushed, this`subsFlushed, this`dropThrottle, this`log
      ensures Valid() && LeavesFlying(old(bufs), bufs) && Adds(old(log), log, None)
      ensures Admits(old(flushed), old(inflightN))
      ensures spans == old(spans) || (t in spans && spans == old(spans)[t := spans[t]] && spans[t].resume.TickPeersAt?)
      ensures t in spans ==> start <= Reached(spans, t) < PEERS
      ensures HeldDropped(old(peers), peers, start, Reached(spans, t), env)
      ensures Stuck(old(peers), old(MayLeave(true)), start, Reached(spans, t), env)
      ensures inflightN == old(inflightN) + if t in spans then 1 else 0
      ensures forall i :: 0 <= i < |old(bufs)| && old(bufs)[i].Free? ==> bufs[i].Free?
    {
      hide Table, SlotOk, Linked, Counted, Told;
      for i := start to PEERS
        invariant |bufs| == SLOTS && forall k :: 0 <= k < SLOTS && old(bufs)[k].Free? ==> bufs[k].Free?
        invariant Valid() && spans == old(spans) && LeavesFlying(old(bufs), bufs) && log == old(log)
        invariant flushed == old(flushed) && inflightN == old(inflightN)
        invariant HeldDropped(old(peers), peers, start, i, env)
        invariant forall k :: start <= k < i && Stages(old(peers)[k]) ==> !(MayLeave(true) && env.vacant(k))
        invariant forall k :: i <= k < PEERS ==> peers[k] == old(peers)[k]
      {
        var sent := TickPeer(i, t, env);
        if sent {
          return;
        }
      }
    }

    /** One slot of the tick: expire, retry or give up. */
    method ServiceSlot(i: nat, t: nat, env: Env) returns (sent: bool)
      requires Valid() && holder == None && t !in spans && i < SLOTS
      modifies this`bufs, this`spans, this`usedN, this`inflightN, this`heapBytes,
               this`cwnd, this`acked, this`dropDeadline, this`dropExhaust, this`log
      ensures Valid() && Adds(old(log), log, None) && acked == old(acked)
      ensures |bufs| == |old(bufs)| && bufs == old(bufs)[i := bufs[i]]
      ensures inflightN <= old(inflightN)
      ensures sent <==> old(bufs)[i].Buf? && old(bufs)[i].state == InFlight && Repeats(old(bufs)[i], i, env, maxRetries)
      ensures if sent
              then spans == old(spans)[t := Span(i, TickBufsAt(i + 1))] &&
                  Retried(old(bufs), bufs, i, i, env, maxRetries)
              else spans == old(spans) &&
                   bufs[i] == if old(bufs)[i].Buf? && old(bufs)[i].state == InFlight &&
                       Ends(old(bufs)[i], i, env, maxRetries) then Free else old(bufs)[i]
    {
      hide Table, SlotOk, Linked, Counted, Told;
      sent := false;
      if bufs[i].Buf? && bufs[i].state == InFlight {
        TableSlot(bufs, peers, spans, maxRetries, holder, i);
        if env.expired(i) {
          Retire(i, Deadline, None);
        } else if env.due(i) && env.vacant(SLOTS + i) {
          // the record of the destination is always found: see SlotLinked
          if bufs[i].retries >= maxRetries {
            Retire(i, Exhausted, None);
          } else {
            Retransmit(i, t);
            sent := true;
          }
        }
      }
    }

    /** The tick's pass over buffers: expire, retry or give up, then the peers. */
    method TickBufs(t: nat, start: nat, env: Env)
      requires Valid() && t !in spans && start <= SLOTS && holder == None
      modifies this`bufs, this`peers, this`spans, this`usedN, this`inflightN,
               this`heapBytes, this`flushed, this`subsFlushed, this`dropThrottle,
               this`cwnd, this`acked, this`dropDeadline, this`dropExhaust, this`log
      ensures Valid() && LeavesSending(old(bufs), bufs, -1) && acked == old(acked) && Adds(old(log), log, None)
      ensures Admits(old(flushed), old(inflightN))
      ensures spans == old(spans) || (t in spans && spans == old(spans)[t := spans[t]])
      ensures t in spans ==> spans[t].resume.TickBufsAt? || spans[t].resume.TickPeersAt?
      ensures Ticked(old(bufs), old(View()), View(), start, t, env, maxRetries)
    {
      hide Table, SlotOk, Linked, Counted, Told, Repeats, Ends, Stuck, HeldDropped;
      for i := start to SLOTS
        invariant Valid() && spans == old(spans) && LeavesSending(old(bufs), bufs, -1) && acked == old(acked)
        invariant inflightN <= old(inflightN) && flushed == old(flushed) && peers == old(peers)
        invariant Adds(old(log), log, None)
        invariant Serviced(old(bufs), bufs, start, i, env, maxRetries)
        invariant forall k :: i <= k < SLOTS ==> bufs[k] == old(bufs)[k]
      {
        var sent := ServiceSlot(i, t, env);
        if sent {
          return;
        }
      }
      TickPeers(t, 0, env);
    }

    /** A thread keeps the mutex for good. */
    method GoAway(t: nat)
      requires Valid()
      modifies this`holder
      ensures Valid() && holder == Some(t)
    {
      hide SlotOk, Linked, Tally, Told;
      holder := Some(t);
    }

    /** A thread comes back from the radio and runs on to its next unlock; its buffer is
        in flight, and a payload it carried is staged now or refused. */
    method ResumeThread(t: nat, env: Env) returns (r: TxResult)
      requires Valid() && t in spans && (spans[t].resume.TickBufsAt? ==> holder == None)
      modifies this`bufs, this`peers, this`spans, this`usedN, this`inflightN, this`heapBytes, this`cwnd, this`holder,
               this`flushed, this`acked, this`dropDeadline, this`dropExhaust, this`dropThrottle, this`accepted,
               this`subsFlushed, this`log
      ensures Valid() && LeavesSending(old(bufs), bufs, old(spans)[t].slot) && Adds(old(log), log, None)
      ensures holder == if old(spans)[t].resume.PlainEnd? then Some(t) else old(holder)
      ensures old(spans)[t].resume.PlainEnd? || old(spans)[t].resume.TxEnd? ==> spans == old(spans) - {t}
      ensures old(spans)[t].resume.TxMid? && t in spans ==> spans[t].resume == TxEnd
      ensures t in spans ==> !spans[t].resume.PlainEnd?
      ensures spans == old(spans) - {t} || (t in spans && spans == old(spans)[t := spans[t]])
      ensures Admits(old(flushed), old(inflightN))
      ensures Back(old(spans)[t], old(bufs), bufs)
      ensures old(spans)[t].slot < |old(bufs)| && old(bufs)[old(spans)[t].slot].Buf?
      ensures var i := old(spans)[t].slot;
              var landed := old(bufs)[i := old(bufs)[i].(state := InFlight)];
              GoesOn(old(spans)[t].resume, landed, old(View()), View(), t, env, maxRetries)
      ensures old(spans)[t].resume.TxMid? ==>
                && (r == Throttled || r == Accepted || r == Suspended)
                && (r == Throttled <==>
                      var k := old(spans)[t].resume;
                      StageFails(StagedAt(old(bufs), old(peers), k.peer), |k.payload|, k.eff,
                                 env.malloc && old(usedN) < SLOTS))
                && accepted == old(accepted) + (if r == Throttled then 0 else 1)
                && (r != Throttled ==> Rides(bufs, old(bufs)[old(spans)[t].slot].dest, old(spans)[t].resume.payload))
    {
      hide Table, SlotOk, Linked, Counted, Told, LeavesFlying, LeavesSending, Back, TailIs, Rides, StageFails;
      hide Closes, Holding, StagedAt, HeldDropped, Departed, Serviced, Retried, Adds, Stuck, Reached;
      AddsNone(log, None);
      TableLinks(bufs, peers, spans, maxRetries, holder);
      SpanFacts(bufs, peers, spans, t);
      var s := spans[t];
      r := Accepted;
      if s.resume.PlainEnd? {
        GoAway(t);
      }
      Land(t);
      ghost var landed := bufs;
      SameFlying(bufs);
      match s.resume {
        case TxMid(p, payload, eff) =>
          LandedStaged(old(bufs), peers, old(spans), s.slot, p);
          r := StageTail(t, p, payload, eff, env);
        case TxEnd =>
        case PlainEnd =>
        case FlushAt(n) =>
          FlushFrom(t, n, env);
        case TickBufsAt(n) =>
          TickBufs(t, n, env);
          BackTicking(s, old(bufs), landed, bufs);
          return;
        case TickPeersAt(n) =>
          TickPeers(t, n, env);
      }
      BackAgain(s, old(bufs), landed, bufs);
    }

    /** Whatever is on its way, in any reachable state: the bytes handed to the radio hold the
        payloads accepted into the bundle, in order; a frame on its own is its payload. */
    method Arrives(i: nat) returns (out: seq<Payload>)
      requires Valid() && i < SLOTS && bufs[i].Buf? && bufs[i].state != Staging
      ensures bufs[i].len <= |bufs[i].data| && bufs[i].len <= WIRE_MAX && 1 <= |bufs[i].payloads| <= MAX_SUB
      ensures out == if IsPlain(bufs[i]) then Unbundled(bufs[i].payloads[0]) else bufs[i].payloads
    {
      hide Table, Linked, Counted, Told, Encode, Body, Unbundled;
      var b := bufs[i];
      TableSlot(bufs, peers, spans, maxRetries, holder, i);
      out := Deliver(b.data[..b.len]);
      if !IsPlain(b) {
        RoundTrip(b.data[..b.len], b.seq16, b.payloads);
      }
    }

    /** A bitmap acknowledgement from `mac`: exactly the in-flight buffers for that
        address whose numbers it covers are released. */
    method RxEnvAck(mac: Mac, frame: Frame)
      requires Valid() && |frame| == ACK_LEN
      modifies this`bufs, this`usedN, this`inflightN, this`heapBytes,
               this`cwnd, this`acked, this`dropDeadline, this`dropExhaust, this`log
      ensures Adds(old(log), log, Some((mac, frame)))
      ensures |log| - |old(log)| == acked - old(acked) && ClearedNoted(old(bufs), mac, frame, log, SLOTS)
      ensures Valid() && Booked(old(acked), old(inflightN), old(dropDeadline), old(dropExhaust))
      ensures |bufs| == |old(bufs)| && forall i :: 0 <= i < |bufs| ==>
                bufs[i] == if ClearedBy(old(bufs)[i], mac, frame) then Free else old(bufs)[i]
    {
      hide Table, SlotOk, Linked, Counted, Told, Base, BitmapBit;
      TableLinks(bufs, peers, spans, maxRetries, holder);
      var p := PeerFind(mac);
      if p < 0 {
        NoBufferFor(bufs, peers, spans, mac);
        return;
      }
      var base, bm := Parse(frame);
      for i := 0 to SLOTS
        invariant Adds(old(log), log, Some((mac, frame)))
        invariant |log| - |old(log)| == acked - old(acked) && ClearedNoted(old(bufs), mac, frame, log, i)
        invariant Valid() && Booked(old(acked), old(inflightN), old(dropDeadline), old(dropExhaust))
        invariant forall k :: i <= k < SLOTS ==> bufs[k] == old(bufs)[k]
        invariant forall k :: 0 <= k < i ==>
                    bufs[k] == if ClearedBy(old(bufs)[k], mac, frame) then Free else old(bufs)[k]
      {
        var b := bufs[i];
        if b.Buf? && b.state == InFlight && b.dest == mac && b.seq16 != NO_SEQ {
          var diff := Sub16(b.seq16, base);
          if diff < SPAN && bm[diff] {
            Retire(i, Acknowledged, Some(frame));
          }
        }
      }
    }

    /** The first in-flight buffer for an address with a given content id. */
    method BufMatch(mac: Mac, fid: U16) returns (r: int)
      ensures r == FirstMatch(bufs, mac, fid, 0)
    {
      r := -1;
      for i := 0 to |bufs|
        invariant FirstMatch(bufs, mac, fid, 0) == FirstMatch(bufs, mac, fid, i)
      {
        if Matches(bufs[i], mac, fid) {
          return i;
        }
      }
    }

    /** A content-id acknowledgement from `mac`: each id releases the first buffer
        it matches. */
    method RxFidAck(mac: Mac, frame: Frame)
      requires Valid() && holder == None && |frame| >= 3
      modifies this`bufs, this`usedN, this`inflightN, this`heapBytes,
               this`cwnd, this`acked, this`dropDeadline, this`dropExhaust, this`log
      ensures Adds(old(log), log, None)
      ensures Valid() && Booked(old(acked), old(inflightN), old(dropDeadline), old(dropExhaust))
      ensures bufs == FidCleared(old(bufs), mac, FidsOf(frame))
      ensures LeavesSending(old(bufs), bufs, -1)
    {
      hide Table, SlotOk, Linked, Counted, Told, FirstMatch, FidsOf;
      var fids := ParseFids(frame);
      for k := 0 to |fids|
        invariant Adds(old(log), log, None)
        invariant Valid() && Booked(old(acked), old(inflightN), old(dropDeadline), old(dropExhaust))
        invariant bufs == FidCleared(old(bufs), mac, fids[..k])
        invariant LeavesSending(old(bufs), bufs, -1)
      {
        assert fids[..k + 1][..k] == fids[..k];
        if fids[k] != 0 {
          var i := BufMatch(mac, fids[k]);
          if i >= 0 {
            FirstMatchIs(bufs, mac, fids[k], 0);
            TableSlot(bufs, peers, spans, maxRetries, holder, i);
            Retire(i, Acknowledged, None);
          }
        }
      }
      assert fids[..|fids|] == fids;
    }

    /** Data addressed to this node arrives: its sender is looked up, and gets a record. */
    method Hear(mac: Mac, now: nat)
      requires Valid()
      modifies this`peers, this`log
      ensures Valid() && Adds(old(log), log, None)
      ensures (exists p :: Names(peers, p, mac)) <==> old(Served(bufs, peers, mac))
    {
      hide Table, SlotOk, Linked, Counted, Told;
      var r := PeerGet(mac, now);
      if r < 0 {
        forall p | 0 <= p < PEERS ensures !Names(peers, p, mac) {
          assert !Serves(bufs, peers[p], mac);
        }
      }
    }

    /** Whether a thread can take the mutex: once a thread went away with it only that one
        can, and it neither ticks nor receives. */
    predicate CanRun(e: Event)
      reads this
    {
      holder.None? || match e {
        case Sends(t, _, _, _, _) => holder == Some(t)
        case Flushes(t, _) => holder == Some(t)
        case Resumes(t, _) => holder == Some(t) && !(t in spans && spans[t].resume.TickBufsAt?)
        case _ => false
      }
    }

    ghost function View(): Shot
      reads this
    {
      Shot(bufs, peers, spans, accepted, inflightN, cwnd, window)
    }

    /** A send that takes nothing over: it goes another way, or is rejected or refused. */
    ghost predicate TurnsAway(e: Event)
      reads this
    {
      e.Sends? && (!WantsAck(e.mac, e.payload) || !Served(bufs, peers, e.mac) || e.payload == [] ||
                   Throttles(e.mac, e.payload, e.eff, e.env))
    }

    /** A frame from the air. */
    method Overhear(e: Event)
      requires Valid() && holder == None && (e.Hears? || e.BitmapAck? || e.FidAck?)
      modifies this`bufs, this`peers, this`usedN, this`inflightN, this`heapBytes, this`cwnd,
               this`acked, this`dropDeadline, this`dropExhaust, this`log
      ensures Did(e, old(View()), View(), false, maxRetries)
      ensures Valid() && Adds(old(log), log, if e.BitmapAck? then Some((e.mac, e.frame)) else None)
      ensures LeavesSending(old(bufs), bufs, -1) && inflightN <= old(inflightN)
    {
      hide Table, SlotOk, Linked, Counted, Told, Served, LeavesSending, Adds;
      AddsNone(log, if e.BitmapAck? then Some((e.mac, e.frame)) else None);
      SameSending(bufs);
      match e {
        case Hears(mac, now) =>
          Hear(mac, now);
        case BitmapAck(mac, frame) =>
          if IsEnvAck(frame) {
            RxEnvAck(mac, frame);
            ClearedSending(old(bufs), bufs, mac, frame);
          }
        case FidAck(mac, frame) =>
          if IsFidAck(frame) {
            RxFidAck(mac, frame);
          }
      }
    }

    /** One scheduling choice, carried out.  A thread that is inside the radio call can only
        come back; a thread that is not can start any operation. */
    method Dispatch(e: Event)
      requires Valid() && CanRun(e)
      modifies this`bufs, this`peers, this`spans, this`usedN, this`inflightN, this`heapBytes, this`cwnd, this`holder,
               this`flushed, this`acked, this`dropDeadline, this`dropExhaust, this`dropThrottle, this`accepted,
               this`subsFlushed, this`log
      ensures Did(e, old(View()), View(), old(TurnsAway(e)), maxRetries)
      ensures Valid() && Adds(old(log), log, if e.BitmapAck? then Some((e.mac, e.frame)) else None)
      ensures LeavesSending(old(bufs), bufs, if e.Resumes? && e.t in old(spans) then old(spans)[e.t].slot else -1)
      // a frame enters flight only while fewer than the congestion window are in it
      ensures Admits(old(flushed), old(inflightN))
      // only a send above 4014 bytes can leave a thread that will keep the mutex
      ensures NoneAlone(old(spans)) && (e.Sends? ==> |e.payload| <= SHORT) ==> NoneAlone(spans)
      ensures holder == if e.Resumes? && e.t in old(spans) &&
              old(spans)[e.t].resume.PlainEnd? then Some(e.t) else old(holder)
    {
      hide Table, SlotOk, Linked, Counted, Told, Served, LeavesFlying, LeavesSending, Throttles, Displaces;
      hide Carried, Rides, StageFails, HeldDropped, Departed, Serviced, Retried, Back, Adds, Stuck, Reached;
      AddsNone(log, if e.BitmapAck? then Some((e.mac, e.frame)) else None);
      SameSending(bufs);
      match e {
        case Sends(t, mac, payload, eff, env) =>
          if t !in spans && eff <= PAYLOAD_MAX {
            var _ := Tx(t, mac, payload, eff, env);
            FlyingSending(old(bufs), bufs);
          }
        case Flushes(t, env) =>
          if t !in spans {
            FlushFrom(t, 0, env);
            FlyingSending(old(bufs), bufs);
          }
        case Ticks(t, env) =>
          if t !in spans && maxRetries > 0 {
            TickBufs(t, 0, env);
          }
        case Resumes(t, env) =>
          if t in spans {
            var _ := ResumeThread(t, env);
          }
        case _ =>
          Overhear(e);
      }
    }

    /** The same, and noted. */
    method Perform(e: Event)
      requires Valid() && CanRun(e)
      modifies this
      ensures Did(e, old(View()), View(), old(TurnsAway(e)), maxRetries) && performed == old(performed) + [e]
      ensures Valid() && Adds(old(log), log, if e.BitmapAck? then Some((e.mac, e.frame)) else None)
      ensures LeavesSending(old(bufs), bufs, if e.Resumes? && e.t in old(spans) then old(spans)[e.t].slot else -1)
      // a frame enters flight only while fewer than the congestion window are in it
      ensures Admits(old(flushed), old(inflightN))
      // only a send above 4014 bytes can leave a thread that will keep the mutex
      ensures NoneAlone(old(spans)) && (e.Sends? ==> |e.payload| <= SHORT) ==> NoneAlone(spans)
      ensures holder == if e.Resumes? && e.t in old(spans) &&
              old(spans)[e.t].resume.PlainEnd? then Some(e.t) else old(holder)
    {
      hide Table, Tally, Told, Did, TurnsAway, LeavesSending, NoneAlone, Adds;
      Dispatch(e);
      performed := performed + [e];
    }

    /** Every interleaving keeps every invariant; a choice that cannot take the mutex waits. */
    method Run(schedule: seq<Event>)
      requires Valid()
      modifies this
      ensures Valid() && old(log) <= log && old(performed) <= performed
      // nothing waits while no thread kept the mutex, and then only that thread goes on
      ensures holder == None ==> performed == old(performed) + schedule
      ensures old(holder).Some? ==>
                forall k :: |old(performed)| <= k < |performed| ==> By(performed[k], old(holder).value)
      ensures old(holder).Some? && (forall e <- schedule :: !e.Resumes? && By(e, old(holder).value)) ==>
                performed == old(performed) + schedule
      // a bundle is cleared only on an acknowledgement that was heard
      ensures forall k :: |old(log)| <= k < |log| && log[k].Cleared? ==>
                BitmapAck(log[k].mac, log[k].frame) in schedule
    {
      hide Table, SlotOk, Linked, Counted, Told, Did;
      for n := 0 to |schedule|
        invariant Valid() && old(log) <= log && old(performed) <= performed
        invariant old(holder).Some? ==> holder.Some?
        invariant holder == None ==> performed == old(performed) + schedule[..n]
        invariant old(holder).Some? ==> holder == old(holder)
        invariant old(holder).Some? ==>
                    forall k :: |old(performed)| <= k < |performed| ==> By(performed[k], holder.value)
        invariant old(holder).Some? && (forall e <- schedule :: !e.Resumes? && By(e, old(holder).value)) ==>
                    performed == old(performed) + schedule[..n]
        invariant forall k :: |old(log)| <= k < |log| && log[k].Cleared? ==>
                    BitmapAck(log[k].mac, log[k].frame) in schedule
      {
        assert schedule[..n + 1] == schedule[..n] + [schedule[n]];
        assert schedule[n] in schedule;
        if CanRun(schedule[n]) {
          Perform(schedule[n]);
        }
      }
      assert schedule[..|schedule|] == schedule;
    }

    /** With sends of at most 4014 bytes, as all that come out of the stream decoder are, no
        thread ever keeps the mutex and no choice ever has to wait. */
    method RunShort(schedule: seq<Event>)
      requires Valid() && holder == None && NoneAlone(spans)
      requires forall e <- schedule :: e.Sends? ==> |e.payload| <= SHORT
      modifies this
      ensures Valid() && holder == None && NoneAlone(spans) && performed == old(performed) + schedule
    {
      hide Table, SlotOk, Linked, Counted, Told, Did;
      for n := 0 to |schedule|
        invariant Valid() && holder == None && NoneAlone(spans) && performed == old(performed) + schedule[..n]
      {
        assert schedule[..n + 1] == schedule[..n] + [schedule[n]];
        Perform(schedule[n]);
      }
      assert schedule[..|schedule|] == schedule;
    }
  }

  /** What a scheduling choice changes. */
  datatype Shot = Shot(bufs: seq<Slot>, peers: seq<Peer>, spans: map<nat, Span>, accepted: nat,
                       inflight: int, cwnd: nat, window: nat)

  /** Both windows have room beside n frames in flight. */
  ghost predicate Open(s: Shot, n: int) {
    n < s.cwnd && n < s.window
  }

  /** A tick from slot `start` on: in-flight buffers met the fate due to them up to one that is
      sent again, or all of them and then the peers, with the room the freed buffers left. */
  ghost predicate Ticked(landed: seq<Slot>, was: Shot, now: Shot, start: nat, t: nat, env: Env, maxRetries: nat) {
    if t in now.spans && now.spans[t].resume.TickBufsAt? then
      && Serviced(landed, now.bufs, start, now.spans[t].slot, env, maxRetries)
      && Retried(landed, now.bufs, start, now.spans[t].slot, env, maxRetries)
    else
      && Serviced(landed, now.bufs, start, SLOTS, env, maxRetries)
      && Stuck(was.peers, Open(now, now.inflight - if t in now.spans then 1 else 0), 0, Reached(now.spans, t), env)
      && HeldDropped(was.peers, now.peers, 0, Reached(now.spans, t), env)
  }

  /** A thread back from the radio goes on where it was. */
  ghost predicate GoesOn(k: Resume, landed: seq<Slot>, was: Shot, now: Shot, t: nat, env: Env, maxRetries: nat) {
    match k
    case FlushAt(n) => Stuck(was.peers, Open(was, was.inflight), n, Reached(now.spans, t), env)
    case TickBufsAt(n) => Ticked(landed, was, now, n, t, env, maxRetries)
    case TickPeersAt(n) =>
      && Stuck(was.peers, Open(was, was.inflight), n, Reached(now.spans, t), env)
      && HeldDropped(was.peers, now.peers, n, Reached(now.spans, t), env)
    case _ => true
  }

  /** What a scheduling choice does, besides what it keeps. */
  ghost predicate Did(e: Event, was: Shot, now: Shot, away: bool, maxRetries: nat) {
    match e
    case Sends(t, mac, payload, eff, _) =>
      t !in was.spans && eff <= PAYLOAD_MAX ==>
        if away then now.accepted == was.accepted && now.spans == was.spans
        else Rides(now.bufs, mac, payload) || (t in now.spans && Carried(now.bufs, now.spans[t], mac, payload))
    case Flushes(t, env) =>
      t !in was.spans ==> Stuck(was.peers, Open(was, was.inflight), 0, Reached(now.spans, t), env)
    case Ticks(t, env) =>
      t !in was.spans ==>
        if maxRetries == 0 then now == was else Ticked(was.bufs, was, now, 0, t, env, maxRetries)
    case Resumes(t, env) =>
      t in was.spans ==>
        && Back(was.spans[t], was.bufs, now.bufs)
        && var i := was.spans[t].slot;
        && i < |was.bufs| && was.bufs[i].Buf?
        && GoesOn(was.spans[t].resume, was.bufs[i := was.bufs[i].(state := InFlight)], was, now, t, env, maxRetries)
    case Hears(mac, _) => (exists p :: Names(now.peers, p, mac)) <==> Served(was.bufs, was.peers, mac)
    case BitmapAck(mac, frame) =>
      IsEnvAck(frame) ==>
        |now.bufs| == |was.bufs| && forall i :: 0 <= i < |was.bufs| ==>
          now.bufs[i] == if ClearedBy(was.bufs[i], mac, frame) then Free else was.bufs[i]
    case FidAck(mac, frame) => IsFidAck(frame) ==> now.bufs == FidCleared(was.bufs, mac, FidsOf(frame))
  }

  /** A choice a thread that kept the mutex can still make. */
  predicate By(e: Event, t: nat) { (e.Sends? || e.Flushes? || e.Resumes?) && e.t == t }

  const SHORT := WIRE_MAX - HDR - 2

  /** No thread is at the radio with a frame on its own. */
  ghost predicate NoneAlone(spans: map<nat, Span>) {
    forall t <- spans :: !spans[t].resume.PlainEnd?
  }

  /** The failing input: on a fresh node with room everywhere a send of 4015 bytes goes away
      with the mutex. */
  method KeepsMutex(t: nat, mac: Mac, payload: Payload, eff: nat, env: Env) returns (a: AckLayer)
    requires |payload| == 4015 && mac != BROADCAST && eff <= PAYLOAD_MAX && env.radio && env.malloc
    ensures a.Valid() && a.holder == Some(t)
  {
    a := new AckLayer(3, 8, true);
    assert Serves(a.bufs, a.peers[0], mac);
    var _ := a.SendReturns(t, mac, payload, eff, env, env, env);
  }

  predicate Matches(b: Slot, mac: Mac, fid: U16) {
    b.Buf? && b.state == InFlight && b.fid == fid && b.dest == mac
  }

  function FirstMatch(bufs: seq<Slot>, mac: Mac, fid: U16, i: nat): int
    requires i <= |bufs|
    decreases |bufs| - i
  {
    if i == |bufs| then -1 else if Matches(bufs[i], mac, fid) then i else FirstMatch(bufs, mac, fid, i + 1)
  }

  lemma {:induction false} FirstMatchIs(bufs: seq<Slot>, mac: Mac, fid: U16, i: nat)
    requires i <= |bufs|
    ensures var r := FirstMatch(bufs, mac, fid, i);
            && (r == -1 || (i <= r < |bufs| && Matches(bufs[r], mac, fid)))
            && forall k :: i <= k < (if r == -1 then |bufs| else r) ==> !Matches(bufs[k], mac, fid)
    decreases |bufs| - i
  {
    if i < |bufs| && !Matches(bufs[i], mac, fid) {
      FirstMatchIs(bufs, mac, fid, i + 1);
    }
  }

  ghost function FidCleared(bufs: seq<Slot>, mac: Mac, fids: seq<U16>): seq<Slot> {
    if fids == [] then bufs
    else
      var b := FidCleared(bufs, mac, fids[..|fids| - 1]);
      var r := FirstMatch(b, mac, fids[|fids| - 1], 0);
      if fids[|fids| - 1] == 0 || r < 0 || r >= |b| then b else b[r := Free]
  }

  /** In flight for an address, with a content id. */
  ghost predicate Awaits(b: Slot, mac: Mac, id: U16) {
    b.Buf? && b.state == InFlight && b.dest == mac && b.fid == id
  }

  ghost function AwaitingIn(bufs: seq<Slot>, mac: Mac, id: U16): set<nat> {
    set i: nat | i < |bufs| && Awaits(bufs[i], mac, id)
  }

  /** Freed buffers were in flight for the address, with an id of the list that is not zero. */
  ghost predicate FreedOnly(was: seq<Slot>, now: seq<Slot>, mac: Mac, ids: seq<U16>) {
    |was| == |now| && forall i :: 0 <= i < |was| && now[i] != was[i] ==>
      now[i].Free? && exists id :: id in ids && id != 0 && Awaits(was[i], mac, id)
  }

  /** Of the buffers with one id those in lower slots are freed first. */
  ghost predicate LowestFirst(was: seq<Slot>, now: seq<Slot>, mac: Mac) {
    |was| == |now| && forall i, j, id :: 0 <= i < j < |was| && Awaits(was[i], mac, id) && Awaits(was[j], mac, id) ==>
      now[j] == was[j] || now[i] != was[i]
  }

  /** What a list of ids frees: for each id that is not zero as many buffers as the list has
      it, or all there are, lowest slots first; and nothing else. */
  lemma {:induction false} FidsFree(bufs: seq<Slot>, mac: Mac, ids: seq<U16>)
    ensures var now := FidCleared(bufs, mac, ids);
            && FreedOnly(bufs, now, mac, ids) && LowestFirst(bufs, now, mac)
            && forall id: U16 :: id != 0 ==>
                 var all, listed := |AwaitingIn(bufs, mac, id)|, multiset(ids)[id];
                 |AwaitingIn(now, mac, id)| == if listed < all then all - listed else 0
  {
    if ids != [] {
      var n := |ids| - 1;
      FidsFree(bufs, mac, ids[..n]);
      assert ids == ids[..n] + [ids[n]];
      var mid, now := FidCleared(bufs, mac, ids[..n]), FidCleared(bufs, mac, ids);
      hide FidCleared, FirstMatch;
      OneIdFreed(bufs, mac, ids[..n], ids[n], mid, now);
      forall id: U16 | id != 0
        ensures |AwaitingIn(now, mac, id)| == |AwaitingIn(mid, mac, id)| -
                  if id == ids[n] && AwaitingIn(mid, mac, id) != {} then 1 else 0
      {
        OneIdCounted(mid, mac, ids[n], now, id);
      }
    }
  }

  /** One id frees the first buffer it matches, or nothing. */
  ghost predicate OneFreed(mid: seq<Slot>, mac: Mac, id: U16, now: seq<Slot>) {
    var r := FirstMatch(mid, mac, id, 0);
    now == if id == 0 || r < 0 || r >= |mid| then mid else mid[r := Free]
  }

  lemma OneIdFreed(bufs: seq<Slot>, mac: Mac, ids: seq<U16>, id: U16, mid: seq<Slot>, now: seq<Slot>)
    requires FreedOnly(bufs, mid, mac, ids) && LowestFirst(bufs, mid, mac) && OneFreed(mid, mac, id, now)
    ensures FreedOnly(bufs, now, mac, ids + [id]) && LowestFirst(bufs, now, mac)
  {
    hide FirstMatch;
    FirstMatchIs(mid, mac, id, 0);
    var r := FirstMatch(mid, mac, id, 0);
    forall i | 0 <= i < |bufs| && now[i] != bufs[i]
      ensures now[i].Free? && exists x :: x in ids + [id] && x != 0 && Awaits(bufs[i], mac, x)
    {
      if mid[i] != bufs[i] {
        var x :| x in ids && x != 0 && Awaits(bufs[i], mac, x);
        assert x in ids + [id];
      } else {
        assert i == r && id in ids + [id] && Awaits(bufs[i], mac, id);
      }
    }
  }

  lemma OneIdCounted(mid: seq<Slot>, mac: Mac, id: U16, now: seq<Slot>, x: U16)
    requires OneFreed(mid, mac, id, now) && x != 0
    ensures |AwaitingIn(now, mac, x)| == |AwaitingIn(mid, mac, x)| -
              if x == id && AwaitingIn(mid, mac, x) != {} then 1 else 0
  {
    hide FirstMatch;
    FirstMatchIs(mid, mac, id, 0);
    var r := FirstMatch(mid, mac, id, 0);
    if id == 0 || r < 0 {
      assert x == id ==> AwaitingIn(mid, mac, x) == {};
    } else {
      assert Awaits(mid[r], mac, id);
      assert x == id ==> r in AwaitingIn(mid, mac, x);
      assert AwaitingIn(now, mac, x) == AwaitingIn(mid, mac, x) - (if x == id then {r} else {});
    }
  }

  /** The buffers a bitmap acknowledgement from an address releases. */
  ghost predicate ClearedBy(b: Slot, mac: Mac, frame: Frame)
    requires |frame| == ACK_LEN
  {
    b.Buf? && b.state == InFlight && b.dest == mac && b.seq16 != NO_SEQ && Covers(frame, b.seq16)
  }

  /** Each of the first n buffers that were released is in the history as cleared. */
  ghost predicate ClearedNoted(was: seq<Slot>, mac: Mac, frame: Frame, log: seq<Deed>, n: nat)
    requires |frame| == ACK_LEN
  {
    forall i :: 0 <= i < n && i < |was| && ClearedBy(was[i], mac, frame) ==>
      Cleared(mac, ParcelOf(was[i]), frame) in log
  }

  lemma NoBufferFor(bufs: seq<Slot>, peers: seq<Peer>, spans: map<nat, Span>, mac: Mac)
    requires Linked(bufs, peers, spans) && forall p :: !Names(peers, p, mac)
    ensures forall i :: 0 <= i < |bufs| && bufs[i].Buf? ==> bufs[i].dest != mac
  {
    forall i | 0 <= i < |bufs| && bufs[i].Buf? ensures bufs[i].dest != mac {
      assert SlotLinked(i, bufs[i], peers, spans);
      assert !Names(peers, bufs[i].owner, mac);
    }
  }

  /** What a tick owes an in-flight buffer: released when its life is over or its
      retries are spent, otherwise due for another send or left alone. */
  ghost predicate Ends(b: Slot, i: nat, env: Env, maxRetries: nat)
    requires b.Buf?
  {
    env.expired(i) || (env.due(i) && env.vacant(SLOTS + i) && b.retries >= maxRetries)
  }

  ghost predicate Repeats(b: Slot, i: nat, env: Env, maxRetries: nat)
    requires b.Buf?
  {
    !env.expired(i) && env.due(i) && env.vacant(SLOTS + i) && b.retries < maxRetries
  }

  ghost predicate Serviced(was: seq<Slot>, now: seq<Slot>, lo: nat, hi: nat, env: Env, maxRetries: nat) {
    |was| == |now| && forall i :: lo <= i < hi && i < |was| && was[i].Buf? && was[i].state == InFlight ==>
      !Repeats(was[i], i, env, maxRetries) && now[i] == if Ends(was[i], i, env, maxRetries) then Free else was[i]
  }

  ghost predicate Retried(was: seq<Slot>, now: seq<Slot>, lo: nat, i: nat, env: Env, maxRetries: nat) {
    && lo <= i < |was| == |now| && was[i].Buf? && was[i].state == InFlight && Repeats(was[i], i, env, maxRetries)
    && now[i].Buf? && now[i].state == Sending && now[i].retries == was[i].retries + 1 && now[i].data == was[i].data
  }

  ghost predicate Stages(p: Peer) { p.Peer? && p.aggIdx != 0 }

  /** How far a pass over the peers got: the record whose bundle left, or all. */
  ghost function Reached(spans: map<nat, Span>, t: nat): int {
    if t in spans && (spans[t].resume.FlushAt? || spans[t].resume.TickPeersAt?) then spans[t].resume.next - 1 else PEERS
  }

  /** Of the bundles staged by peers lo to hi none could leave, and the one of hi can. */
  ghost predicate Stuck(was: seq<Peer>, open: bool, lo: nat, hi: int, env: Env) {
    && (forall k :: lo <= k < hi && k < |was| && Stages(was[k]) ==> !(open && env.vacant(k)))
    && (0 <= hi < |was| ==> lo <= hi && Stages(was[hi]) && open && env.vacant(hi))
  }

  /** Of the bundles staged by peers lo to hi, those held too long were dropped and the
      others kept. */
  ghost predicate HeldDropped(was: seq<Peer>, now: seq<Peer>, lo: nat, hi: int, env: Env) {
    |was| == |now| && forall k :: lo <= k < hi && k < |was| ==>
      now[k] == if Stages(was[k]) && env.held(k) then was[k].(aggIdx := 0, aggLen := 0, aggNsub := 0) else was[k]
  }

  /** What the links say about a thread inside the radio call. */
  lemma SpanFacts(bufs: seq<Slot>, peers: seq<Peer>, spans: map<nat, Span>, t: nat)
    requires Linked(bufs, peers, spans) && t in spans
    ensures var s := spans[t];
            && s.slot < |bufs| && bufs[s.slot].Buf? && bufs[s.slot].state == Sending
            && ResumeOk(s.resume, bufs[s.slot].owner) && (s.resume.PlainEnd? <==> IsPlain(bufs[s.slot]))
            && Names(peers, bufs[s.slot].owner, bufs[s.slot].dest)
  {
    assert SpanLinked(t, spans[t], bufs, peers);
    assert SlotLinked(spans[t].slot, bufs[spans[t].slot], peers, spans);
  }

  lemma FreeOk(maxRetries: nat)
    ensures SlotOk(Free, maxRetries)
  {
  }

  lemma StagingOk(b: Slot, maxRetries: nat)
    requires b.Buf? && b.state == Staging
    ensures SlotOk(b, maxRetries)
  {
  }

  lemma RetriedOk(b: Slot, v: Slot, maxRetries: nat)
    requires b.Buf? && b.state == InFlight && !IsPlain(b) && SlotOk(b, maxRetries) && b.retries < maxRetries
    requires v.Buf? && v == b.(state := Sending, retries := b.retries + 1, sends := b.sends + 1, thread := v.thread)
    ensures SlotOk(v, maxRetries)
  {
  }

  lemma SubLength(p: Payload)
    ensures |Sub(p)| == 2 + |p|
  {
  }

  lemma StagedFirst(b: Slot, v: Slot, p: Payload)
    requires b.Buf? && HDR + 2 + |p| <= |b.data| && HDR + 2 + |p| <= WIRE_MAX
    requires v.Buf? && v.data == Write(b.data, HDR, Sub(p)) && v.payloads == [p]
    ensures Holds(v, HDR + 2 + |p|, 1)
  {
    StageAppends(b.data, HDR, [], p);
    assert [] + [p] == [p];
  }

  lemma StagedMore(b: Slot, v: Slot, aggLen: nat, aggNsub: nat, p: Payload)
    requires b.Buf? && Holds(b, aggLen, aggNsub) && aggNsub < MAX_SUB
    requires aggLen + 2 + |p| <= |b.data| && aggLen + 2 + |p| <= WIRE_MAX
    requires v.Buf? && v.data == Write(b.data, aggLen, Sub(p)) && v.payloads == b.payloads + [p]
    ensures Holds(v, aggLen + 2 + |p|, aggNsub + 1)
  {
    StageAppends(b.data, aggLen, b.payloads, p);
  }

  lemma PeerTouched(bufs: seq<Slot>, peers: seq<Peer>, spans: map<nat, Span>, r: nat, now: nat)
    requires Linked(bufs, peers, spans) && r < |peers| && peers[r].Peer?
    ensures Linked(bufs, peers[r := peers[r].(lastSeen := now)], spans)
  {
    hide Holds, ResumeOk;
    var peers' := peers[r := peers[r].(lastSeen := now)];
    forall k | 0 <= k < |bufs| ensures SlotLinked(k, bufs[k], peers', spans) {
      assert SlotLinked(k, bufs[k], peers, spans);
    }
    forall k | 0 <= k < |peers| ensures PeerLinked(k, peers'[k], bufs) {
      assert PeerLinked(k, peers[k], bufs);
    }
    forall u | u in spans ensures SpanLinked(u, spans[u], bufs, peers') {
      assert SpanLinked(u, spans[u], bufs, peers);
    }
  }

  /** Eviction: a record no buffer refers to can be given to another address. */
  lemma PeerReplaced(bufs: seq<Slot>, peers: seq<Peer>, spans: map<nat, Span>, r: nat, v: Peer)
    requires Linked(bufs, peers, spans) && r < |peers|
    requires v.Peer? && v.aggIdx == v.aggLen == v.aggNsub == 0 && forall p :: !Names(peers, p, v.mac)
    requires Idle(bufs, peers[r])
    ensures Linked(bufs, peers[r := v], spans)
  {
    hide Holds, ResumeOk;
    var peers' := peers[r := v];
    forall k | 0 <= k < |peers| && peers[k].Peer? ensures peers[k].mac != v.mac {
      assert !Names(peers, k, v.mac);
    }
    forall k | 0 <= k < |bufs| ensures SlotLinked(k, bufs[k], peers', spans) {
      assert SlotLinked(k, bufs[k], peers, spans);
    }
    forall k | 0 <= k < |peers| ensures PeerLinked(k, peers'[k], bufs) {
      assert PeerLinked(k, peers[k], bufs);
    }
    forall u | u in spans ensures SpanLinked(u, spans[u], bufs, peers') {
      assert SpanLinked(u, spans[u], bufs, peers);
    }
  }

  lemma FreedLinked(bufs: seq<Slot>, peers: seq<Peer>, spans: map<nat, Span>, i: nat)
    requires Linked(bufs, peers, spans)
    requires i < |bufs| && bufs[i].Buf? && bufs[i].state == InFlight
    ensures Linked(bufs[i := Free], peers, spans)
  {
    hide Holds, ResumeOk, UniqueMacs;
    var bufs' := bufs[i := Free];
    forall k | 0 <= k < |bufs| ensures SlotLinked(k, bufs'[k], peers, spans) {
      assert SlotLinked(k, bufs[k], peers, spans);
    }
    forall k | 0 <= k < |peers| ensures PeerLinked(k, peers[k], bufs') {
      assert PeerLinked(k, peers[k], bufs);
    }
  }

  lemma RelaunchLinked(bufs: seq<Slot>, peers: seq<Peer>, spans: map<nat, Span>, i: nat, v: Slot, t: nat,
                       resume: Resume)
    requires Linked(bufs, peers, spans) && t !in spans
    requires i < |bufs| && bufs[i].Buf? && bufs[i].state == InFlight && ResumeOk(resume, bufs[i].owner)
    requires !resume.PlainEnd? && v.Buf? && v.seq16 != NO_SEQ
    requires v.Buf? && v.state == Sending && v.owner == bufs[i].owner && v.dest == bufs[i].dest && v.thread == t
    ensures Linked(bufs[i := v], peers, spans[t := Span(i, resume)])
  {
    hide Holds, ResumeOk, UniqueMacs;
    var bufs', spans' := bufs[i := v], spans[t := Span(i, resume)];
    forall k | 0 <= k < |bufs| ensures SlotLinked(k, bufs'[k], peers, spans') {
      assert SlotLinked(k, bufs[k], peers, spans) && SlotLinked(i, bufs[i], peers, spans);
    }
    forall k | 0 <= k < |peers| ensures PeerLinked(k, peers[k], bufs') {
      assert PeerLinked(k, peers[k], bufs);
    }
    forall u | u in spans' ensures SpanLinked(u, spans'[u], bufs', peers) {
      assert u != t ==> SpanLinked(u, spans[u], bufs, peers);
    }
  }

  lemma ResetLinked(bufs: seq<Slot>, peers: seq<Peer>, spans: map<nat, Span>, p: nat, q: Peer)
    requires Linked(bufs, peers, spans)
    requires p < |peers| && peers[p].Peer? && 0 < peers[p].aggIdx <= |bufs|
    requires q.Peer? && q.mac == peers[p].mac && q.aggIdx == q.aggLen == q.aggNsub == 0
    ensures Linked(bufs[peers[p].aggIdx - 1 := Free], peers[p := q], spans)
  {
    hide Holds, ResumeOk;
    var i := peers[p].aggIdx - 1;
    var bufs', peers' := bufs[i := Free], peers[p := q];
    assert PeerLinked(p, peers[p], bufs);
    forall k | 0 <= k < |bufs| ensures SlotLinked(k, bufs'[k], peers', spans) {
      assert SlotLinked(k, bufs[k], peers, spans);
    }
    forall k | 0 <= k < |peers| ensures PeerLinked(k, peers'[k], bufs') {
      assert PeerLinked(k, peers[k], bufs);
    }
    forall u | u in spans ensures SpanLinked(u, spans[u], bufs', peers') {
      assert SpanLinked(u, spans[u], bufs, peers);
    }
  }

  /** Staging into a free slot, or into the slot already staged. */
  lemma StagedLinked(bufs: seq<Slot>, peers: seq<Peer>, spans: map<nat, Span>, i: nat, v: Slot, p: nat, q: Peer)
    requires Linked(bufs, peers, spans)
    requires p < |peers| && peers[p].Peer? && i < |bufs|
    requires if bufs[i].Free? then peers[p].aggIdx == 0 else peers[p].aggIdx == i + 1
    requires v.Buf? && v.state == Staging && v.owner == p && v.dest == peers[p].mac
    requires q.Peer? && q.mac == peers[p].mac && q.aggIdx == i + 1 && Holds(v, q.aggLen, q.aggNsub)
    ensures Linked(bufs[i := v], peers[p := q], spans)
  {
    hide Holds, ResumeOk;
    var bufs', peers' := bufs[i := v], peers[p := q];
    assert PeerLinked(p, peers[p], bufs);
    forall k | 0 <= k < |bufs| ensures SlotLinked(k, bufs'[k], peers', spans) {
      assert SlotLinked(k, bufs[k], peers, spans);
    }
    forall k | 0 <= k < |peers| ensures PeerLinked(k, peers'[k], bufs') {
      assert PeerLinked(k, peers[k], bufs);
    }
    forall u | u in spans ensures SpanLinked(u, spans[u], bufs', peers') {
      assert SpanLinked(u, spans[u], bufs, peers);
    }
  }

  lemma PlainTail(b: Slot, payload: Payload)
    requires b.Buf? && b.payloads == [payload]
    ensures TailIs(b, b.dest, payload)
  {
  }

  lemma PlainOk(b: Slot, maxRetries: nat)
    requires b.Buf? && b.state == Sending && b.seq16 == NO_SEQ && b.len == |b.data| <= WIRE_MAX
    requires b.payloads == [b.data] && b.sends == 1 && b.retries == 0
    ensures SlotOk(b, maxRetries)
  {
    assert b.data[..b.len] == b.data;
  }

  /** A frame on its own in a free slot. */
  lemma PlainLinked(bufs: seq<Slot>, peers: seq<Peer>, spans: map<nat, Span>, i: nat, v: Slot, p: nat, t: nat)
    requires Linked(bufs, peers, spans) && t !in spans && i < |bufs| && bufs[i].Free?
    requires p < |peers| && peers[p].Peer? && IsPlain(v) && v.state == Sending
    requires v.owner == p && v.dest == peers[p].mac && v.thread == t
    ensures Linked(bufs[i := v], peers, spans[t := Span(i, PlainEnd)])
  {
    hide Holds, UniqueMacs;
    var bufs', spans' := bufs[i := v], spans[t := Span(i, PlainEnd)];
    forall k | 0 <= k < |bufs| ensures SlotLinked(k, bufs'[k], peers, spans') {
      assert SlotLinked(k, bufs[k], peers, spans);
    }
    forall k | 0 <= k < |peers| ensures PeerLinked(k, peers[k], bufs') {
      assert PeerLinked(k, peers[k], bufs);
    }
    forall u | u in spans' ensures SpanLinked(u, spans'[u], bufs', peers) {
      assert u != t ==> SpanLinked(u, spans[u], bufs, peers);
    }
  }

  /** Back from the radio: the buffer is nobody's any more. */
  lemma LandLinked(bufs: seq<Slot>, peers: seq<Peer>, spans: map<nat, Span>, t: nat)
    requires Linked(bufs, peers, spans) && t in spans && spans[t].slot < |bufs| && bufs[spans[t].slot].Buf?
    requires bufs[spans[t].slot].state == Sending
    ensures var i := spans[t].slot; Linked(bufs[i := bufs[i].(state := InFlight)], peers, spans - {t})
  {
    hide Holds, ResumeOk, UniqueMacs;
    var i := spans[t].slot;
    var bufs', spans' := bufs[i := bufs[i].(state := InFlight)], spans - {t};
    assert SpanLinked(t, spans[t], bufs, peers);
    forall k | 0 <= k < |bufs| ensures SlotLinked(k, bufs'[k], peers, spans') {
      assert SlotLinked(k, bufs[k], peers, spans);
    }
    forall k | 0 <= k < |peers| ensures PeerLinked(k, peers[k], bufs') {
      assert PeerLinked(k, peers[k], bufs);
    }
    forall u | u in spans' ensures SpanLinked(u, spans'[u], bufs', peers) {
      assert SpanLinked(u, spans[u], bufs, peers);
    }
  }

  /** The buffer of a thread that is back is not one that is staged. */
  lemma LandedStaged(bufs: seq<Slot>, peers: seq<Peer>, spans: map<nat, Span>, i: nat, p: nat)
    requires Linked(bufs, peers, spans) && i < |bufs| && bufs[i].Buf? && bufs[i].state == Sending
    ensures StagedAt(bufs[i := bufs[i].(state := InFlight)], peers, p) == StagedAt(bufs, peers, p)
  {
    if p < |peers| {
      assert PeerLinked(p, peers[p], bufs);
    }
  }

  lemma LandedOk(b: Slot, maxRetries: nat)
    requires b.Buf? && b.state == Sending && SlotOk(b, maxRetries)
    ensures SlotOk(b.(state := InFlight), maxRetries)
  {
  }

  /** Fullness by the peer's counters is fullness by the payloads. */
  lemma FullIff(b: Slot, aggLen: nat, aggNsub: nat, len: nat, eff: nat)
    requires b.Buf? && Holds(b, aggLen, aggNsub)
    ensures aggLen >= HDR + 2 * aggNsub
    ensures FullFor(aggLen, aggNsub, |b.data|, len, eff) <==> Overfills(b, len, eff)
  {
    BodyLength(b.payloads);
  }

  lemma ClosesIff(b: Slot, aggLen: nat, aggNsub: nat, agg: bool, eff: nat)
    requires b.Buf? && Holds(b, aggLen, aggNsub)
    ensures (!agg || aggNsub >= MAX_SUB || aggLen + 2 > |b.data| || aggLen - HDR - 2 * aggNsub >= eff) <==>
              Closes(b, agg, eff)
  {
    BodyLength(b.payloads);
  }

  /** What the links say about the buffer a peer stages into. */
  lemma StagingFacts(bufs: seq<Slot>, peers: seq<Peer>, spans: map<nat, Span>, p: nat)
    requires Linked(bufs, peers, spans) && p < |peers| && peers[p].Peer? && peers[p].aggIdx != 0
    ensures peers[p].aggIdx <= |bufs|
    ensures var b := bufs[peers[p].aggIdx - 1];
            && b.Buf? && b.state == Staging && b.owner == p && b.dest == peers[p].mac
            && Holds(b, peers[p].aggLen, peers[p].aggNsub)
            && HDR + 2 * peers[p].aggNsub <= peers[p].aggLen <= |b.data|
            && 1 <= |b.payloads| == peers[p].aggNsub <= MAX_SUB
  {
    assert PeerLinked(p, peers[p], bufs);
    var i := peers[p].aggIdx - 1;
    assert SlotLinked(i, bufs[i], peers, spans);
    BodyLength(bufs[i].payloads);
  }

  /** The bundle peer p had staged is on its way with the payloads accepted into
      it, under the next sequence number, and p stages nothing. */
  ghost predicate Departed(was: seq<Slot>, now: seq<Slot>, ps: seq<Peer>, qs: seq<Peer>, p: nat) {
    && |was| == |now| && p < |ps| == |qs| && ps[p].Peer? && 0 < ps[p].aggIdx <= |was|
    && var i := ps[p].aggIdx - 1;
    && was[i].Buf? && now[i].Buf?
    && now == was[i := now[i]] && now[i].state == Sending && now[i].dest == was[i].dest
    && now[i].payloads == was[i].payloads && now[i].seq16 == DrawnSeq(ps[p].txSeq) && now[i].len == ps[p].aggLen
    && now[i].number == Drawn(ps[p].next) && |now[i].data| == |was[i].data|
    && qs == ps[p := Peer(ps[p].mac, ps[p].lastSeen, (now[i].seq16 + 1) % WRAP, 0, 0, 0, now[i].number + 1)]
  }

  lemma HeldFits(b: Slot, aggLen: nat, aggNsub: nat)
    requires b.Buf? && Holds(b, aggLen, aggNsub)
    ensures Fitting(b.payloads)
  {
  }

  lemma LinkedMacs(bufs: seq<Slot>, peers: seq<Peer>, spans: map<nat, Span>)
    requires Linked(bufs, peers, spans)
    ensures UniqueMacs(peers)
  {
  }

  lemma SealedOk(b: Slot, aggLen: nat, aggNsub: nat, v: Slot, maxRetries: nat)
    requires b.Buf? && Holds(b, aggLen, aggNsub)
    requires v.Buf? && v.state == Sending && v.len == aggLen && v.seq16 != NO_SEQ && v.payloads == b.payloads
    requires v.data == Write(b.data, 0, Header(v.seq16, aggNsub)) && v.sends == 1 && v.retries == 0
    ensures SlotOk(v, maxRetries)
  {
    SealEncodes(b.data, aggLen, b.payloads, v.seq16);
  }

  /** Sending the bundle a peer staged: buffer, peer and thread stay linked. */
  lemma LaunchLinked(bufs: seq<Slot>, peers: seq<Peer>, spans: map<nat, Span>,
                     i: nat, v: Slot, p: nat, q: Peer, t: nat, resume: Resume)
    requires Linked(bufs, peers, spans) && t !in spans && ResumeOk(resume, p) && !resume.PlainEnd? && v.Buf? &&
            v.seq16 != NO_SEQ
    requires p < |peers| && peers[p].Peer? && peers[p].aggIdx == i + 1
    requires i < |bufs| && bufs[i].Buf? && bufs[i].state == Staging && bufs[i].owner == p
    requires v.Buf? && v.state == Sending && v.owner == p && v.dest == bufs[i].dest && v.thread == t
    requires q.Peer? && q.mac == peers[p].mac && q.aggIdx == q.aggLen == q.aggNsub == 0
    ensures Linked(bufs[i := v], peers[p := q], spans[t := Span(i, resume)])
  {
    hide Holds, ResumeOk;
    var bufs', peers', spans' := bufs[i := v], peers[p := q], spans[t := Span(i, resume)];
    forall k | 0 <= k < |bufs| ensures SlotLinked(k, bufs'[k], peers', spans') {
      assert SlotLinked(k, bufs[k], peers, spans);
    }
    forall k | 0 <= k < |peers| ensures PeerLinked(k, peers'[k], bufs') {
      assert PeerLinked(k, peers[k], bufs);
    }
    forall u | u in spans' ensures SpanLinked(u, spans'[u], bufs', peers') {
      assert u != t ==> SpanLinked(u, spans[u], bufs, peers);
    }
  }

  /** A resume point that fits the peer whose bundle is being sent. */
  ghost predicate ResumeOk(r: Resume, p: nat) {
    match r
    case TxMid(q, payload, eff) => q == p && 0 < |payload| && HDR + 2 + |payload| <= WIRE_MAX && eff <= PAYLOAD_MAX
    case TxEnd => true
    case PlainEnd => true
    case FlushAt(n) => n <= PEERS
    case TickBufsAt(n) => n <= SLOTS
    case TickPeersAt(n) => n <= PEERS
  }

  /** Changing one slot changes the counts by that slot. */
  lemma {:induction false} Recount(s: seq<Slot>, i: nat, v: Slot)
    requires i < |s|
    ensures var t, u := Tally(s), Tally(s[i := v]);
            && u.used == t.used - Used(s[i]) + Used(v)
            && u.flying == t.flying - Flying(s[i]) + Flying(v)
            && u.bundled == t.bundled - Bundled(s[i]) + Bundled(v)
            && u.heap == t.heap - Heap(s[i]) + Heap(v)
            && u.staged == t.staged - StagedSubs(s[i]) + StagedSubs(v)
    decreases |s|
  {
    hide Used, Flying, Bundled, Heap, StagedSubs;
    var n := |s| - 1;
    if i == n {
      assert s[i := v][..n] == s[..n];
    } else {
      assert s[i := v][..n] == s[..n][i := v];
      Recount(s[..n], i, v);
    }
  }

  /** A slot taken by a frame on its own, or by a bundle being staged. */
  lemma Taken(s: seq<Slot>, i: nat, v: Slot)
    requires i < |s| && s[i].Free? && v.Buf? && (IsPlain(v) || v.state == Staging)
    ensures LeavesFlying(s, s[i := v])
    ensures var t := Tally(s);
            Tally(s[i := v]) ==
              if IsPlain(v) then Counts(t.used + 1, t.flying + 1, t.bundled, t.heap + OVERHEAD + |v.data|, t.staged)
              else Counts(t.used + 1, t.flying, t.bundled, t.heap + OVERHEAD + |v.data|, t.staged + |v.payloads|)
  {
    hide Tally;
    Recount(s, i, v);
  }

  /** The table is full if and only if every slot is used. */
  lemma {:induction false} AllUsed(s: seq<Slot>)
    ensures Tally(s).used <= |s|
    ensures Tally(s).used == |s| <==> forall i :: 0 <= i < |s| ==> s[i].Buf?
  {
    if s != [] {
      var n := |s| - 1;
      AllUsed(s[..n]);
      forall i | 0 <= i < n ensures s[..n][i] == s[i] {
      }
    }
  }

  lemma {:induction false} TallyFree(s: seq<Slot>)
    requires forall b <- s :: b.Free?
    ensures Tally(s) == Counts(0, 0, 0, 0, 0)
  {
    if s != [] {
      assert s[|s| - 1] in s;
      TallyFree(s[..|s| - 1]);
    }
  }
}

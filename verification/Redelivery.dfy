/** When a second copy of a frame reaches the host: the sequence filter and the ring of
content hashes together, over whole runs of a receiver. */
module Redelivery {
  import opened Words
  import opened SeqWindow
  import opened Reception

  /** A receiver's view of one sender: record and bookkeeping, and the ring. */
  datatype Node = Node(rx: Rx, ring: Ring)

  const NEW_NODE := Node(STRANGER, EMPTY)

  const OLD_NODE := Node(ACQUAINTED, EMPTY)

  datatype NodeStep =
    | Numbered(e: int, h: Hearing, id: nat)   // a bundle arrives
    | Plain(h: Hearing, id: nat)              // a frame without a number arrives
    | Looked(room: bool, stale: bool)         // a send looks the sender up
    | Lost                                    // the record is given to another address

  ghost predicate NodeOk(n: Node) {
    SenderOk(Of(n))
  }

  ghost function Of(n: Node): Sender {
    Sender(n.rx.entry, n.ring)
  }

  ghost function RxStepOf(s: NodeStep): RxStep {
    match s
    case Numbered(e, h, _) => Arrives(e, h)
    case Plain(h, _) => Looks(h.toMe && h.room, h.toMe && h.stale)
    case Looked(room, stale) => Looks(room, stale)
    case Lost => Evicted
  }

  /** A frame that gets past the sequence filter. */
  ghost predicate Fresh(n: Node, s: NodeStep) {
    match s
    case Numbered(e, _, _) => Passes(n.rx, e)
    case Plain(_, _) => true
    case _ => false
  }

  /** A frame the host gets. */
  ghost predicate Accepted(n: Node, s: NodeStep) {
    Fresh(n, s) && !Remembered(Of(n), s.h, s.id)
  }

  /** An accepted frame that goes into the ring. */
  ghost predicate Noted(n: Node, s: NodeStep) {
    Accepted(n, s) && s.h.toMe && Next(n.rx, RxStepOf(s)).entry.Present?
  }

  ghost function NodeNext(n: Node, s: NodeStep): Node {
    var rx := Next(n.rx, RxStepOf(s));
    Node(rx, if s.Lost? then EMPTY else if Noted(n, s) then Remember(n.ring, s.id) else n.ring)
  }

  lemma NodeNextOk(n: Node, s: NodeStep)
    requires NodeOk(n)
    ensures NodeOk(NodeNext(n, s))
  {
    hide Record, LedgerAfter, MemoryAfter, IsDuplicate;
  }

  /** This is what reception does with a numbered frame. */
  lemma NumberedIsReceived(n: Node, e: int, h: Hearing, id: nat)
    requires NodeOk(n)
    ensures var x, y := Of(n), Of(n).(entry := Recorded(n.rx.entry, e % WRAP, h.undef));
            && SenderOk(y)
            && Of(NodeNext(n, Numbered(e, h, id))) == (if IsRepeat(x.entry, e % WRAP) then y else Screened(y, h, id))
            && (Accepted(n, Numbered(e, h, id)) <==> !IsRepeat(x.entry, e % WRAP) && !Remembered(x, h, id))
  {
    hide Record, LedgerAfter, MemoryAfter, IsDuplicate;
  }

  /** And with a frame without a number. */
  lemma PlainIsScreened(n: Node, h: Hearing, id: nat)
    requires NodeOk(n)
    ensures Of(NodeNext(n, Plain(h, id))) == Screened(Of(n), h, id)
    ensures Accepted(n, Plain(h, id)) <==> !Remembered(Of(n), h, id)
  {
    hide Record, LedgerAfter, MemoryAfter, IsDuplicate;
  }

  // ------------------------------------------------------------------- the ring

  /** Where the hash noted `age` hashes ago stands. */
  function AgePlace(r: Ring, age: nat): int {
    if r.at > age then r.at - 1 - age else r.at + RING - 1 - age
  }

  /** The hash was noted, alone, and `age` others since: it is gone after sixteen. */
  ghost predicate Aged(r: Ring, id: nat, age: nat) {
    && RingOk(r)
    && forall k :: 0 <= k < RING ==> (r.slots[k] == id <==> age < RING && k == AgePlace(r, age))
  }

  lemma NewlyAged(r: Ring, id: nat)
    requires RingOk(r) && id !in r.slots
    ensures Aged(Remember(r, id), id, 0)
  {
  }

  lemma OlderAged(r: Ring, id: nat, age: nat, other: nat)
    requires Aged(r, id, age) && other != id
    ensures Aged(Remember(r, other), id, age + 1)
  {
    var q := Remember(r, other);
    forall k | 0 <= k < RING
      ensures q.slots[k] == id <==> age + 1 < RING && k == AgePlace(q, age + 1)
    {
      assert r.slots[k] == id <==> age < RING && k == AgePlace(r, age);
    }
  }

  lemma AgedIn(r: Ring, id: nat, age: nat)
    requires Aged(r, id, age)
    ensures id in r.slots <==> age < RING
  {
    if age < RING {
      assert r.slots[AgePlace(r, age)] == id;
    }
  }

  // ------------------------------------------------------------- whole runs

  ghost function NodeAfter(n: Node, run: seq<NodeStep>): Node {
    if run == [] then n else NodeNext(NodeAfter(n, run[..|run| - 1]), run[|run| - 1])
  }

  /** How many frames of a run went into the ring. */
  ghost function NotedIn(n: Node, run: seq<NodeStep>): nat {
    if run == [] then 0
    else
      var m := NodeAfter(n, run[..|run| - 1]);
      NotedIn(n, run[..|run| - 1]) + if Noted(m, run[|run| - 1]) then 1 else 0
  }

  ghost predicate NearStep(n: Node, s: NodeStep) {
    Near(n.rx.ledger, RxStepOf(s))
  }

  ghost predicate AllNearSteps(n: Node, run: seq<NodeStep>) {
    run != [] ==>
      AllNearSteps(n, run[..|run| - 1]) && NearStep(NodeAfter(n, run[..|run| - 1]), run[|run| - 1])
  }

  /** Steps that bring neither this number nor this hash. */
  ghost predicate Foreign(s: NodeStep, e: int, id: nat) {
    match s
    case Numbered(f, _, other) => f != e && other != id
    case Plain(_, other) => other != id
    case _ => true
  }

  /** The record stands for what arrived, and this number is not in it. */
  ghost predicate Unrecorded(rx: Rx, e: int) {
    InStep(rx.entry, rx.ledger) && Agrees(rx.ledger, rx.memory) && (rx.memory.None? || e !in rx.memory.value)
  }

  lemma StaysUnrecorded(rx: Rx, s: RxStep, e: int)
    requires Unrecorded(rx, e) && Near(rx.ledger, s) && (s.Arrives? ==> s.e != e)
    ensures Unrecorded(Next(rx, s), e)
  {
    hide InStep, Agrees, Heard, LedgerAfter;
    NextAgrees(rx, s);
    NextInStep(rx, s);
  }

  lemma UnrecordedPasses(rx: Rx, e: int, h: Hearing)
    requires Unrecorded(rx, e) && Near(rx.ledger, Arrives(e, h))
    ensures Passes(rx, e)
  {
    hide InStep, Agrees, Next, Near, Clean, Passes, Spanned;
    NextAgrees(rx, Arrives(e, h));
    NextInStep(rx, Arrives(e, h));
  }

  /** The record is kept and the hash has its age, or the record was lost and the hash with it. */
  ghost predicate Follows(n: Node, lost: bool, id: nat, age: nat) {
    if lost then id !in n.ring.slots else n.rx.entry.Present? && Aged(n.ring, id, age)
  }

  lemma FollowsStep(n: Node, s: NodeStep, lost: bool, e: int, id: nat, age: nat)
    requires NodeOk(n) && Follows(n, lost, id, age) && Foreign(s, e, id) && id != 0
    ensures Follows(NodeNext(n, s), lost || s.Lost?, id, age + if Noted(n, s) then 1 else 0)
  {
    hide Record, LedgerAfter, MemoryAfter, IsDuplicate, Aged;
    if !lost && Noted(n, s) {
      OlderAged(n.ring, id, age, s.id);
    }
  }

  ghost predicate LosesRecord(run: seq<NodeStep>) {
    exists k :: 0 <= k < |run| && run[k].Lost?
  }

  lemma LosesLater(run: seq<NodeStep>, s: NodeStep)
    ensures LosesRecord(run + [s]) <==> LosesRecord(run) || s.Lost?
  {
    var all := run + [s];
    if LosesRecord(run) {
      var k :| 0 <= k < |run| && run[k].Lost?;
      assert all[k].Lost?;
    }
    assert all[|run|] == s;
  }

  lemma {:induction false} RunFollows(n: Node, run: seq<NodeStep>, e: int, id: nat)
    requires NodeOk(n) && Follows(n, false, id, 0) && id != 0 && Unrecorded(n.rx, e)
    requires (forall k :: 0 <= k < |run| ==> Foreign(run[k], e, id)) && AllNearSteps(n, run)
    ensures var m := NodeAfter(n, run);
            NodeOk(m) && Follows(m, LosesRecord(run), id, NotedIn(n, run)) && Unrecorded(m.rx, e)
  {
    hide Follows, Unrecorded, Foreign, NodeNext, Noted, NodeOk, LosesRecord, NearStep;
    if run == [] {
      NoLoss();
    } else {
      var k := |run| - 1;
      var s := run[k];
      assert run == run[..k] + [s];
      RunFollows(n, run[..k], e, id);
      LosesLater(run[..k], s);
      KeepsFollowing(NodeAfter(n, run[..k]), s, LosesRecord(run[..k]), e, id, NotedIn(n, run[..k]));
    }
  }

  lemma KeepsFollowing(m: Node, s: NodeStep, lost: bool, e: int, id: nat, age: nat)
    requires NodeOk(m) && Follows(m, lost, id, age) && Unrecorded(m.rx, e)
    requires Foreign(s, e, id) && id != 0 && NearStep(m, s)
    ensures var n := NodeNext(m, s);
            && NodeOk(n) && Follows(n, lost || s.Lost?, id, age + if Noted(m, s) then 1 else 0)
            && Unrecorded(n.rx, e)
  {
    hide Follows, Unrecorded, Foreign, NodeNext, Noted, NodeOk;
    FollowsStep(m, s, lost, e, id, age);
    NodeNextOk(m, s);
    NodeNextRx(m, s);
    ForeignNumber(s, e, id);
    StaysUnrecorded(m.rx, RxStepOf(s), e);
  }

  lemma NoLoss()
    ensures !LosesRecord([])
  {
  }

  lemma NodeNextRx(n: Node, s: NodeStep)
    ensures NodeNext(n, s).rx == Next(n.rx, RxStepOf(s))
  {
  }

  lemma ForeignNumber(s: NodeStep, e: int, id: nat)
    requires Foreign(s, e, id)
    ensures RxStepOf(s).Arrives? ==> RxStepOf(s).e != e
  {
  }

  /** The first frame of a sender not known before, with room for its record: the host gets
      it unless its hash is zero, which the empty ring takes for one it knows; its number is
      not recorded. */
  lemma FirstFrame(e: int, h: Hearing, id: nat)
    requires h.toMe && h.room
    ensures NodeOk(NEW_NODE)
    ensures Accepted(NEW_NODE, Numbered(e, h, id)) <==> id != 0
    ensures var n := NodeNext(NEW_NODE, Numbered(e, h, id));
            NodeOk(n) && Unrecorded(n.rx, e) && (id != 0 ==> Follows(n, false, id, 0))
  {
    assert forall k :: 0 <= k < RING ==> EMPTY.slots[k] == 0;
    if id != 0 {
      NewlyAged(EMPTY, id);
    }
  }

  /** A second copy, after any near run that brings neither its number nor its hash, reaches
      the host if and only if it is not addressed to this node, the record was lost in
      between, or sixteen accepted frames pushed its hash out of the ring. */
  lemma SecondCopyHandedUpIff(e: int, h: Hearing, id: nat, between: seq<NodeStep>, again: Hearing)
    requires h.toMe && h.room && id != 0
    requires forall k :: 0 <= k < |between| ==> Foreign(between[k], e, id)
    requires var n := NodeNext(NEW_NODE, Numbered(e, h, id));
             AllNearSteps(n, between) && NearStep(NodeAfter(n, between), Numbered(e, again, id))
    ensures var n := NodeNext(NEW_NODE, Numbered(e, h, id));
            Accepted(NodeAfter(n, between), Numbered(e, again, id)) <==>
              !again.toMe || LosesRecord(between) || NotedIn(n, between) >= RING
  {
    hide NodeNext, NodeAfter, NotedIn, AllNearSteps, Aged, Unrecorded, Foreign, NodeOk, Record, LosesRecord;
    FirstFrame(e, h, id);
    var n := NodeNext(NEW_NODE, Numbered(e, h, id));
    RunFollows(n, between, e, id);
    var m := NodeAfter(n, between);
    UnrecordedPasses(m.rx, e, again);
    if !LosesRecord(between) {
      AgedIn(m.ring, id, NotedIn(n, between));
    }
  }

  /** Without room for a record there is no test: such frames all reach the host. */
  lemma NoRoomAccepts(e: int, h: Hearing, id: nat)
    requires h.toMe && !h.room
    ensures NodeOk(NEW_NODE) && Accepted(NEW_NODE, Numbered(e, h, id))
    ensures NodeNext(NEW_NODE, Numbered(e, h, id)) == NEW_NODE
  {
  }
}

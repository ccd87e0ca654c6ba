/** A sender and a receiver on a channel that loses, repeats and reorders.

Every frame ever put on the air stays deliverable for ever, so loss is a frame
never delivered, repetition a frame delivered again, reordering any choice of
the next one.  Bundles carry unbounded numbers here; only their residue mod
65536 is on the wire, and 0xFFFF is never used.  The receiver's record of the
sender may be missing, made, emptied and lost at any time. */
module AckProtocol {
  import opened Words
  import opened SeqWindow
  import opened AckFrame
  import opened Bundle
  import opened Reception
  import opened Redelivery

  /** An acknowledgement in the air, with the unbounded number its base stands for. */
  datatype AirAck = AirAck(frame: Frame, base: int)

  datatype World = World(
    next: nat,                        // sender: number the next bundle is drawn from
    inflight: set<int>,               // sender: bundles waiting for an acknowledgement
    cleared: set<int>,                // sender: bundles released on an acknowledgement
    bundles: map<int, seq<Payload>>,  // bundles ever transmitted, with their payloads
    ids: map<int, nat>,               // their content hashes
    acks: set<AirAck>,                // acknowledgements ever transmitted
    node: Node,                       // receiver: its record of the sender
    received: set<int>,               // bundles that ever reached the receiver
    passed: seq<int>,                 // bundles the receiver let through, in that order
    up: seq<Payload>,                 // payloads handed to the host
    others: set<nat>                  // hashes of other frames that reached the receiver
  )

  /** Nothing sent yet; the receiver has a record of the sender or has none. */
  const START := World(0, {}, {}, map[], map[], {}, NEW_NODE, {}, [], [], {})

  const MET := START.(node := OLD_NODE)

  datatype Step =
    | Flush(ps: seq<Payload>, id: nat)          // a new bundle goes out
    | Resend(e: int)                            // a retransmission
    | GiveUp(e: int)                            // deadline or retries exhausted
    | Deliver(e: int, h: Hearing)               // a bundle arrives
    | Turn(s: NodeStep)                         // another frame arrives, or the record is looked up or lost
    | SendAck(frame: Frame)                     // receiver reports its window
    | DeliverAck(ack: AirAck, busy: set<int>)   // an acknowledgement arrives while some are being sent

  ghost predicate Enabled(w: World, s: Step) {
    match s
    case Flush(ps, _) => Fitting(ps)
    case Resend(e) => e in w.inflight
    case GiveUp(e) => e in w.inflight
    case Deliver(e, h) => e in w.bundles && Fitting(w.bundles[e]) && Clean(w.node.rx.ledger, Arrives(e, h))
    case Turn(t) => !t.Numbered?
    case SendAck(f) => w.node.rx.entry.Present? && Reports(f, w.node.rx.entry.window)
    case DeliverAck(a, _) => a in w.acks && forall b <- w.inflight :: -(WRAP - SPAN) <= b - a.base < WRAP
  }

  /** The in-flight buffers an acknowledgement releases. */
  ghost function Released(w: World, f: Frame): set<int>
    requires |f| == ACK_LEN
  {
    set b <- w.inflight | Covers(f, b % WRAP)
  }

  /** What is on the air for a bundle. */
  function Wire(e: int, ps: seq<Payload>): (wire: Payload)
    requires |ps| <= MAX_SUB && HDR + |Body(ps)| <= WIRE_MAX
    ensures wire == Encode(e % WRAP, ps)
  {
    Encode(e % WRAP, ps)
  }

  ghost function IdOf(w: World, e: int): nat {
    if e in w.ids then w.ids[e] else 0
  }

  ghost function Delivered(w: World, e: int, h: Hearing): World
    requires e in w.bundles && Fitting(w.bundles[e])
  {
    var out := HandedUp(Of(w.node), Wire(e, w.bundles[e]), h, IdOf(w, e));
    w.(node := NodeNext(w.node, Numbered(e, h, IdOf(w, e))), received := w.received + {e},
       passed := if out == [] then w.passed else w.passed + [e], up := w.up + out)
  }

  ghost function Apply(w: World, s: Step): World
    requires Enabled(w, s)
  {
    match s
    case Flush(ps, id) =>
      var e := Drawn(w.next);
      w.(next := e + 1, inflight := w.inflight + {e}, bundles := w.bundles[e := ps], ids := w.ids[e := id])
    case Resend(_) => w
    case GiveUp(e) => w.(inflight := w.inflight - {e})
    case Deliver(e, h) => Delivered(w, e, h)
    case Turn(t) =>
      w.(node := NodeNext(w.node, t), others := if t.Plain? then w.others + {t.id} else w.others)
    case SendAck(f) =>
      // before the first arrival there is nothing to report
      if w.node.rx.ledger.NoRecord? || w.node.rx.ledger.log.NoLog? then w
      else w.(acks := w.acks + {AirAck(f, w.node.rx.ledger.log.newest - (SPAN - 1))})
    case DeliverAck(a, busy) =>
      if |a.frame| != ACK_LEN then w
      else
        var gone := Released(w, a.frame) - busy;
        w.(inflight := w.inflight - gone, cleared := w.cleared + gone)
  }

  /** Every bit an acknowledgement in the air has set is a bundle that arrived. */
  ghost predicate Truthful(a: AirAck, received: set<int>) {
    && |a.frame| == ACK_LEN
    && Base(a.frame) == a.base % WRAP
    && forall k :: 0 <= k < SPAN && BitmapBit(a.frame, k) ==> a.base + k in received
  }

  /** The window stands for arrivals only. */
  ghost predicate Backed(rx: Rx, received: set<int>) {
    && InStep(rx.entry, rx.ledger)
    && (rx.ledger.Kept? && rx.ledger.log.Log? ==> rx.ledger.log.since <= received)
  }

  /** Payloads of bundles one after the other. */
  ghost function Joined(bundles: map<int, seq<Payload>>, es: seq<int>): seq<Payload>
    requires forall e <- es :: e in bundles
  {
    if es == [] then []
    else
      var e := es[|es| - 1];
      assert e in es;
      Joined(bundles, es[..|es| - 1]) + bundles[e]
  }

  ghost predicate Inv(w: World) {
    && NodeOk(w.node) && Backed(w.node.rx, w.received)
    && (forall a <- w.acks :: Truthful(a, w.received))
    && w.inflight <= w.bundles.Keys
    && w.received <= w.bundles.Keys
    && w.ids.Keys == w.bundles.Keys
    && w.cleared <= w.received
    && (forall e <- w.bundles :: 0 <= e < w.next && e % WRAP != WRAP - 1 && Fitting(w.bundles[e]))
    && (forall e <- w.passed :: e in w.received)
    && w.up == Joined(w.bundles, w.passed)
  }

  lemma ReportIsTruthful(rx: Rx, received: set<int>, f: Frame)
    requires Backed(rx, received) && rx.entry.Present? && Reports(f, rx.entry.window)
    ensures Truthful(AirAck(f, rx.ledger.log.newest - (SPAN - 1)), received)
  {
    var newest := rx.ledger.log.newest;
    var base := newest - (SPAN - 1);
    assert Sub16(newest % WRAP, SPAN - 1) == base % WRAP by {
      SubOfExtended(newest, base);
    }
    forall k | 0 <= k < SPAN && BitmapBit(f, k) ensures base + k in received {
      var d: nat := SPAN - 1 - k;
      assert d in rx.entry.window.marks;
      assert newest - d in rx.ledger.log.since;
      assert base + k == newest - d;
    }
  }

  lemma ReleasedWereReceived(w: World, a: AirAck)
    requires Inv(w) && Enabled(w, DeliverAck(a, {}))
    ensures Released(w, a.frame) <= w.received
  {
    hide Backed, Fitting, Joined;
    assert Truthful(a, w.received);
    forall b | b in Released(w, a.frame) ensures b in w.received {
      SubOfExtended(b, a.base);
      assert BitmapBit(a.frame, b - a.base);
      assert a.base + (b - a.base) == b;
    }
  }

  lemma NextBacked(rx: Rx, s: RxStep, received: set<int>)
    requires Backed(rx, received) && Clean(rx.ledger, s)
    ensures Backed(Next(rx, s), if s.Arrives? then received + {s.e} else received)
  {
    hide InStep, Clean, Heard, LookedUp, MemoryAfter;
    NextInStep(rx, s);
  }

  lemma {:induction false} JoinedKeeps(bundles: map<int, seq<Payload>>, more: map<int, seq<Payload>>, es: seq<int>)
    requires forall e <- es :: e in bundles && e in more && more[e] == bundles[e]
    ensures Joined(more, es) == Joined(bundles, es)
  {
    if es != [] {
      assert es[|es| - 1] in es;
      JoinedKeeps(bundles, more, es[..|es| - 1]);
    }
  }

  /** What an arrival hands up: the bundle's payloads or nothing. */
  lemma DeliveredUp(w: World, e: int, h: Hearing)
    requires e in w.bundles && Fitting(w.bundles[e]) && NodeOk(w.node)
    ensures var out := HandedUp(Of(w.node), Wire(e, w.bundles[e]), h, IdOf(w, e));
            out == if Accepted(w.node, Numbered(e, h, IdOf(w, e))) then w.bundles[e] else []
    ensures w.bundles[e] != []
  {
    hide HandedUp, Screened, IsRepeat, Body, Encode, Recorded, NodeNext, Accepted, Remembered;
    BundleHandedUp(Of(w.node), Wire(e, w.bundles[e]), e % WRAP, w.bundles[e], h, IdOf(w, e));
    NumberedIsReceived(w.node, e, h, IdOf(w, e));
  }

  lemma DeliverKeepsInv(w: World, e: int, h: Hearing)
    requires Inv(w) && Enabled(w, Deliver(e, h))
    ensures Inv(Delivered(w, e, h))
  {
    hide Backed, Truthful, Clean, NodeNext, HandedUp, Fitting, NodeOk, Accepted;
    var s := Numbered(e, h, IdOf(w, e));
    NodeNextOk(w.node, s);
    NodeNextRx(w.node, s);
    NextBacked(w.node.rx, Arrives(e, h), w.received);
    DeliveredUp(w, e, h);
    forall a <- w.acks ensures Truthful(a, w.received + {e}) {
      TruthfulLater(a, w.received, w.received + {e});
    }
    assert (w.passed + [e])[..|w.passed|] == w.passed;
  }

  lemma TruthfulLater(a: AirAck, received: set<int>, more: set<int>)
    requires Truthful(a, received) && received <= more
    ensures Truthful(a, more)
  {
  }

  lemma TurnKeepsInv(w: World, t: NodeStep)
    requires Inv(w) && Enabled(w, Turn(t))
    ensures Inv(Apply(w, Turn(t)))
  {
    hide Backed, Truthful, NodeNext, Fitting, NodeOk, Joined;
    NodeNextOk(w.node, t);
    NodeNextRx(w.node, t);
    NextBacked(w.node.rx, RxStepOf(t), w.received);
  }

  lemma FlushKeepsInv(w: World, ps: seq<Payload>, id: nat)
    requires Inv(w) && Fitting(ps)
    ensures Inv(Apply(w, Flush(ps, id)))
  {
    hide Backed, Truthful, Fitting, NodeOk;
    JoinedKeeps(w.bundles, w.bundles[Drawn(w.next) := ps], w.passed);
  }

  lemma StepKeepsInv(w: World, s: Step)
    requires Inv(w) && Enabled(w, s)
    ensures Inv(Apply(w, s))
  {
    hide Backed, Truthful, NodeNext, Delivered, Joined, Fitting, NodeOk;
    match s
    case Deliver(e, h) =>
      DeliverKeepsInv(w, e, h);
    case Turn(t) =>
      TurnKeepsInv(w, t);
    case SendAck(f) =>
      ReportIsTruthful(w.node.rx, w.received, f);
    case DeliverAck(a, _) =>
      ReleasedWereReceived(w, a);
    case Flush(ps, id) =>
      FlushKeepsInv(w, ps, id);
    case Resend(_) =>
    case GiveUp(_) =>
  }

  // -------------------------------------------------------------- all runs

  ghost predicate Possible(w: World, run: seq<Step>)
    decreases |run|
  {
    run == [] || (Enabled(w, run[0]) && Possible(Apply(w, run[0]), run[1..]))
  }

  ghost function After(w: World, run: seq<Step>): World
    requires Possible(w, run)
    decreases |run|
  {
    if run == [] then w else After(Apply(w, run[0]), run[1..])
  }

  lemma {:induction false} RunKeepsInv(w: World, run: seq<Step>)
    requires Inv(w) && Possible(w, run)
    ensures Inv(After(w, run))
    decreases |run|
  {
    hide Inv, Enabled, Apply;
    if run != [] {
      StepKeepsInv(w, run[0]);
      RunKeepsInv(Apply(w, run[0]), run[1..]);
    }
  }

  lemma StartInv()
    ensures Inv(START) && Inv(MET)
  {
  }

  /** No false acknowledgement: whatever the channel does, a bundle the sender
      lets go of because of an acknowledgement did reach the receiver. */
  lemma NoFalseAck(run: seq<Step>)
    requires Possible(START, run)
    ensures After(START, run).cleared <= After(START, run).received
  {
    hide Possible, After;
    StartInv();
    RunKeepsInv(START, run);
  }

  /** And what the host gets is, bundle by bundle, whole bundles that were sent. */
  lemma WholeBundlesOnly(run: seq<Step>)
    requires Possible(START, run)
    ensures var w := After(START, run);
            (forall e <- w.passed :: e in w.received && e in w.bundles) && w.up == Joined(w.bundles, w.passed)
  {
    hide Possible, After;
    StartInv();
    RunKeepsInv(START, run);
  }

  /** An acknowledgement that arrives before anything else happens releases exactly the
      waiting bundles the receiver has and still spans. */
  lemma FreshAckReleasesExactly(run: seq<Step>, f: Frame)
    requires Possible(START, run)
    requires var w := After(START, run);
             && w.node.rx.entry.Present? && Reports(f, w.node.rx.entry.window)
             && forall b <- w.inflight :: w.node.rx.ledger.Kept? ==> NoWrap(w.node.rx.ledger.log, b)
    ensures var w := After(START, run);
            Released(w, f) == set b <- w.inflight | Spanned(w.node.rx.ledger, b)
  {
    hide Possible, After;
    StartInv();
    RunKeepsInv(START, run);
    var w := After(START, run);
    forall b <- w.inflight ensures Covers(f, b % WRAP) <==> Spanned(w.node.rx.ledger, b) {
      CoversIffMarked(f, w.node.rx.entry.window, b % WRAP);
      DuplicateExact(w.node.rx.entry.window, w.node.rx.ledger.log, b);
    }
  }

  // ------------------------------------------------------------ exactly once

  /** The receiver keeps its record and its arrivals are near. */
  ghost predicate Steady(w: World, s: Step) {
    match s
    case Deliver(e, h) => !h.stale && Near(w.node.rx.ledger, Arrives(e, h))
    case Turn(t) => (t.Plain? && !t.h.stale) || (t.Looked? && !t.stale)
    case _ => true
  }

  ghost predicate AllSteady(w: World, run: seq<Step>)
    requires Possible(w, run)
    decreases |run|
  {
    run == [] || (Steady(w, run[0]) && AllSteady(Apply(w, run[0]), run[1..]))
  }

  /** No number was let through twice, and those let through are among the recorded. */
  ghost predicate Once(w: World) {
    && w.node.rx.memory == Some(w.received) && NodeOk(w.node)
    && Agrees(w.node.rx.ledger, w.node.rx.memory) && InStep(w.node.rx.entry, w.node.rx.ledger)
    && Distinct(w.passed) && (forall e <- w.passed :: e in w.received)
  }

  lemma ArrivalKeepsOnce(w: World, e: int, h: Hearing)
    requires Once(w) && Enabled(w, Deliver(e, h)) && Steady(w, Deliver(e, h))
    ensures Once(Delivered(w, e, h))
    ensures e !in w.received ==> Passes(w.node.rx, e)
  {
    hide Agrees, InStep, HandedUp, Near, Clean, Heard, LedgerAfter, Passes, Spanned, Fitting, NodeOk, Remembered;
    hide NodeNext;
    var s, r := Arrives(e, h), Numbered(e, h, IdOf(w, e));
    NodeNextOk(w.node, r);
    NodeNextRx(w.node, r);
    NextAgrees(w.node.rx, s);
    NextInStep(w.node.rx, s);
    DeliveredUp(w, e, h);
    assert e in w.received ==> w.received + {e} == w.received;
  }

  lemma TurnKeepsOnce(w: World, t: NodeStep)
    requires Once(w) && Enabled(w, Turn(t)) && Steady(w, Turn(t))
    ensures Once(Apply(w, Turn(t)))
  {
    hide Agrees, InStep, Heard, LedgerAfter, NodeOk, Remembered, NodeNext;
    NodeNextOk(w.node, t);
    NodeNextRx(w.node, t);
    NextAgrees(w.node.rx, RxStepOf(t));
    NextInStep(w.node.rx, RxStepOf(t));
  }

  lemma StepKeepsOnce(w: World, s: Step)
    requires Once(w) && Enabled(w, s) && Steady(w, s)
    ensures Once(Apply(w, s))
  {
    hide Agrees, InStep, NodeOk, Delivered, NodeNext, Distinct;
    if s.Deliver? {
      ArrivalKeepsOnce(w, s.e, s.h);
    } else if s.Turn? {
      TurnKeepsOnce(w, s.s);
    }
  }

  lemma {:induction false} RunKeepsOnce(w: World, run: seq<Step>)
    requires Once(w) && Possible(w, run) && AllSteady(w, run)
    ensures Once(After(w, run))
    decreases |run|
  {
    hide Once, Enabled, Steady, Apply;
    if run != [] {
      StepKeepsOnce(w, run[0]);
      RunKeepsOnce(Apply(w, run[0]), run[1..]);
    }
  }

  lemma StartOnce()
    ensures Once(MET) && AllThrough(MET)
  {
  }

  /** From sender to host: whatever the channel loses, repeats and reorders, a receiver that
      had a record when the first bundle came and keeps it hands up the payloads of each
      bundle at most once, in the order they were accepted in, next to each other. */
  lemma HandedUpOnce(run: seq<Step>)
    requires Possible(MET, run) && AllSteady(MET, run)
    ensures var w := After(MET, run);
            && (forall e <- w.passed :: e in w.received && e in w.bundles)
            && w.up == Joined(w.bundles, w.passed) && Distinct(w.passed)
  {
    hide Possible, After, AllSteady;
    StartInv();
    StartOnce();
    RunKeepsInv(MET, run);
    RunKeepsOnce(MET, run);
  }

  // --------------------------------------------------------- exactly once

  /** No hash is zero and no two frames have the same. */
  ghost predicate Unclashing(w: World) {
    && (forall e <- w.ids :: w.ids[e] != 0 && w.ids[e] !in w.others)
    && (forall e, f :: e in w.ids && f in w.ids && e != f ==> w.ids[e] != w.ids[f])
  }

  /** The ring holds only hashes of what was let through. */
  ghost predicate RingKnown(w: World) {
    forall x <- w.node.ring.slots :: x == 0 || x in w.others || exists e :: e in w.passed && e in w.ids && w.ids[e] == x
  }

  /** Whatever arrived was let through. */
  ghost predicate AllThrough(w: World) {
    (forall e <- w.received :: e in w.passed && e in w.ids) && w.ids.Keys == w.bundles.Keys && RingKnown(w)
  }

  lemma RememberKnown(ring: Ring, id: nat)
    ensures forall x <- Remember(ring, id).slots :: x == id || x in ring.slots
  {
  }

  lemma ArrivalThrough(w: World, e: int, h: Hearing)
    requires Once(w) && AllThrough(w) && Unclashing(w) && Enabled(w, Deliver(e, h)) && Steady(w, Deliver(e, h))
    ensures AllThrough(Delivered(w, e, h))
  {
    hide Agrees, InStep, HandedUp, Near, Clean, Next, Passes, Fitting, NodeOk, Remember;
    var v, id := Delivered(w, e, h), IdOf(w, e);
    ArrivalKeepsOnce(w, e, h);
    DeliveredUp(w, e, h);
    RememberKnown(w.node.ring, id);
    if e !in w.received {
      assert id !in w.node.ring.slots by {
        assert e !in w.passed;
      }
    }
    forall x | x in v.node.ring.slots
      ensures x == 0 || x in v.others || exists f :: f in v.passed && f in v.ids && v.ids[f] == x
    {
      if x in w.node.ring.slots && x != 0 && x !in w.others {
        var f :| f in w.passed && f in w.ids && w.ids[f] == x;
        assert f in v.passed;
      } else if x == id && x !in w.node.ring.slots {
        assert e in v.passed && v.ids[e] == x;
      }
    }
  }

  lemma TurnThrough(w: World, t: NodeStep)
    requires AllThrough(w) && Enabled(w, Turn(t))
    ensures AllThrough(Apply(w, Turn(t)))
  {
    hide Next, Remember, Remembered;
    if t.Plain? {
      RememberKnown(w.node.ring, t.id);
    }
    var v := Apply(w, Turn(t));
    assert EMPTY.slots == seq(RING, _ => 0);
    forall x | x in v.node.ring.slots
      ensures x == 0 || x in v.others || exists f :: f in v.passed && f in v.ids && v.ids[f] == x
    {
    }
  }

  lemma FlushThrough(w: World, ps: seq<Payload>, id: nat)
    requires Inv(w) && AllThrough(w)
    requires Enabled(w, Flush(ps, id))
    ensures AllThrough(Apply(w, Flush(ps, id)))
  {
    hide Backed, Truthful, NodeOk, Joined, Fitting;
    var v := Apply(w, Flush(ps, id));
    assert Drawn(w.next) !in w.ids;
    forall x | x in v.node.ring.slots && x != 0 && x !in v.others
      ensures exists f :: f in v.passed && f in v.ids && v.ids[f] == x
    {
      var f :| f in w.passed && f in w.ids && w.ids[f] == x;
      assert f in v.passed && f in v.ids && v.ids[f] == x;
    }
  }

  lemma StepThrough(w: World, s: Step)
    requires Inv(w) && Once(w) && AllThrough(w) && Unclashing(w) && Enabled(w, s) && Steady(w, s)
    ensures AllThrough(Apply(w, s))
  {
    hide Inv, Once, Delivered, NodeNext, Unclashing;
    match s
    case Deliver(e, h) => ArrivalThrough(w, e, h);
    case Turn(t) => TurnThrough(w, t);
    case Flush(ps, id) => FlushThrough(w, ps, id);
    case _ =>
  }

  /** Hashes that do not clash at the end never did. */
  lemma ClashLater(w: World, s: Step)
    requires Inv(w) && Enabled(w, s) && Unclashing(Apply(w, s))
    ensures Unclashing(w)
  {
    hide Backed, Truthful, NodeNext, NodeOk, Joined, HandedUp;
    var v := Apply(w, s);
    forall e | e in w.ids ensures e in v.ids && v.ids[e] == w.ids[e] {
      assert e in w.bundles;
    }
  }

  lemma {:induction false} RunClash(w: World, run: seq<Step>)
    requires Inv(w) && Possible(w, run) && Unclashing(After(w, run))
    ensures Unclashing(w)
    decreases |run|
  {
    hide Inv, Enabled, Apply, Unclashing;
    if run != [] {
      StepKeepsInv(w, run[0]);
      RunClash(Apply(w, run[0]), run[1..]);
      ClashLater(w, run[0]);
    }
  }

  lemma {:induction false} RunThrough(w: World, run: seq<Step>)
    requires Inv(w) && Once(w) && AllThrough(w) && Possible(w, run) && AllSteady(w, run)
    requires Unclashing(After(w, run))
    ensures AllThrough(After(w, run))
    decreases |run|
  {
    hide Inv, Once, AllThrough, Enabled, Steady, Apply, Unclashing;
    if run != [] {
      RunClash(w, run);
      StepThrough(w, run[0]);
      StepKeepsInv(w, run[0]);
      StepKeepsOnce(w, run[0]);
      RunThrough(Apply(w, run[0]), run[1..]);
    }
  }

  /** If no hash is zero and no two frames have the same, every bundle that arrived is
      handed up, exactly once. */
  lemma HandedUpExactlyOnce(run: seq<Step>)
    requires Possible(MET, run) && AllSteady(MET, run) && Unclashing(After(MET, run))
    ensures var w := After(MET, run);
            (forall e <- w.received :: e in w.passed) && (forall e <- w.passed :: e in w.received) && Distinct(w.passed)
  {
    hide Possible, After, AllSteady, Unclashing;
    StartInv();
    StartOnce();
    RunKeepsOnce(MET, run);
    RunThrough(MET, run);
  }

  // ------------------------------------------------------- where it falls short

  ghost predicate NeverTwice(w: World) {
    forall run: seq<Step> :: Possible(w, run) && AllSteady(w, run) ==> Distinct(After(w, run).passed)
  }

  /** The record at the first arrival is not only enough but needed: while there is no room
      for one, neither filter is asked. */
  lemma NeverTwiceIff(met: bool)
    ensures NeverTwice(if met then MET else START) <==> met
  {
    if met {
      forall run: seq<Step> | Possible(MET, run) && AllSteady(MET, run) ensures Distinct(After(MET, run).passed) {
        HandedUpOnce(run);
      }
    } else {
      HandedUpTwice([0], 1);
    }
  }

  /** The failing run, for any payload and hash: one bundle, heard twice by a node that has
      no record of its sender and no room for one, sixteen other peers being busy. */
  lemma HandedUpTwice(p: Payload, id: nat)
    requires |p| == 1
    ensures !NeverTwice(START)
  {
    hide Next, Enabled, Steady, Possible, AllSteady, After, Delivered, Fitting;
    var h := Hearing(true, false, false, One32(0));
    var send, hear := Flush([p], id), Deliver(0, h);
    OneFits(p);
    SendsFirst([p], id);
    var w1 := Apply(START, send);
    HearsUnrecorded(w1, 0, h);
    var w2 := Apply(w1, hear);
    HearsUnrecorded(w2, 0, h);
    var w3 := Apply(w2, hear);
    NoStep(w3);
    StepBefore(w2, hear, []);
    StepBefore(w1, hear, [hear] + []);
    StepBefore(START, send, [hear] + ([hear] + []));
    assert w3.passed[0] == w3.passed[1];
  }

  lemma SendsFirst(ps: seq<Payload>, id: nat)
    requires Fitting(ps)
    ensures Enabled(START, Flush(ps, id)) && Steady(START, Flush(ps, id))
    ensures var w := Apply(START, Flush(ps, id));
            0 in w.bundles && w.bundles[0] == ps && w.node == NEW_NODE && w.passed == []
  {
  }

  /** A node without a record and without room for one lets every bundle through, whatever
      its hash, and is none the wiser. */
  lemma HearsUnrecorded(w: World, e: int, h: Hearing)
    requires e in w.bundles && Fitting(w.bundles[e]) && w.node == NEW_NODE && h.toMe && !h.room && !h.stale
    ensures var s := Deliver(e, h);
            && Enabled(w, s) && Steady(w, s)
            && Apply(w, s).passed == w.passed + [e] && Apply(w, s).bundles == w.bundles && Apply(w, s).node == NEW_NODE
  {
    hide HandedUp, Fitting, NodeNext, Accepted;
    NoRoomAccepts(e, h, IdOf(w, e));
    DeliveredUp(w, e, h);
  }

  lemma NoStep(w: World)
    ensures Possible(w, []) && AllSteady(w, []) && After(w, []) == w
  {
  }

  /** A run with one more step in front. */
  lemma StepBefore(w: World, s: Step, run: seq<Step>)
    requires Enabled(w, s) && Steady(w, s) && Possible(Apply(w, s), run) && AllSteady(Apply(w, s), run)
    ensures Possible(w, [s] + run) && AllSteady(w, [s] + run) && After(w, [s] + run) == After(Apply(w, s), run)
  {
    assert ([s] + run)[1..] == run;
  }

  lemma OneFits(p: Payload)
    requires |p| == 1
    ensures Fitting([p])
  {
    BodyLength([p]);
    assert [p][..0] == [];
    assert Total([p]) == 1;
  }
}

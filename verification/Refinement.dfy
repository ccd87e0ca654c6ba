/** The buffer table and the protocol are about the same sender.

The table keeps a history of what it did to the bundles of each address, and what the
history leaves waiting is what the table holds (AckTable.Told).  Here each deed of that
history is a step of the protocol: sending a staged bundle is a Flush, a retransmission a
Resend, a release on a bitmap acknowledgement a DeliverAck, any other release a GiveUp.
So what the protocol proves of its runs holds of the tables under every schedule. */
module Refinement {
  import opened Words
  import opened AckFrame
  import opened Bundle
  import opened Reception
  import opened Redelivery
  import T = AckTable
  import P = AckProtocol

  /** The protocol's sender is where the history of an address has brought the table's. */
  ghost predicate Mirrors(s: T.Sender, w: P.World) {
    && w.next == s.next
    && w.inflight == (set x <- s.waiting :: x.number as int)
    && (forall x <- s.waiting :: x.number in w.bundles && w.bundles[x.number] == x.payloads)
  }

  /** A sender that has sent nothing. */
  ghost predicate Unused(w: P.World) {
    w.next == 0 && w.inflight == {}
  }

  /** What happens next: a deed of the table, with the acknowledgement that caused it and the
      content hash of a bundle sent, or something on the air or at the receiver. */
  datatype Move =
    | Table(d: T.Deed, ack: P.AirAck, id: nat)
    | Air(s: P.Step)

  /** The protocol's steps for a move, as the sender's share with one address goes. */
  ghost function StepsFor(w: P.World, m: Move, mac: T.Mac): seq<P.Step> {
    match m
    case Air(s) => [s]
    case Table(d, a, id) =>
      if d.mac != mac then []
      else match d
        case Met(_) => []
        case Flushed(_, x) => [P.Flush(x.payloads, id)]
        case Resent(_, x) => [P.Resend(x.number)]
        case Cleared(_, x, _) => [P.DeliverAck(a, w.inflight - {x.number})]
        case LetGo(_, x) => [P.GiveUp(x.number)]
  }

  /** What is asked of the surroundings: the receiver and the channel do what they can do, an
      acknowledgement that clears a bundle was on the air and is within a turn of the counter
      of all that waits, and the record of the address is made before anything is sent. */
  ghost predicate Fair(w: P.World, m: Move, mac: T.Mac) {
    match m
    case Air(s) => (s.Deliver? || s.Turn? || s.SendAck?) && P.Enabled(w, s)
    case Table(d, a, _) =>
      && (d.Met? && d.mac == mac ==> w.next == 0)
      && (d.Cleared? && d.mac == mac ==> a.frame == d.frame && P.Enabled(w, P.DeliverAck(a, {})))
  }

  ghost function Enacted(w: P.World, steps: seq<P.Step>): P.World {
    if P.Possible(w, steps) then P.After(w, steps) else w
  }

  ghost function WorldAfter(w: P.World, moves: seq<Move>, mac: T.Mac): P.World {
    if moves == [] then w
    else
      var v := WorldAfter(w, moves[..|moves| - 1], mac);
      Enacted(v, StepsFor(v, moves[|moves| - 1], mac))
  }

  ghost function RunOf(w: P.World, moves: seq<Move>, mac: T.Mac): seq<P.Step> {
    if moves == [] then []
    else
      var before := moves[..|moves| - 1];
      RunOf(w, before, mac) + StepsFor(WorldAfter(w, before, mac), moves[|moves| - 1], mac)
  }

  ghost predicate AllFair(w: P.World, moves: seq<Move>, mac: T.Mac) {
    moves == [] ||
    (var before := moves[..|moves| - 1];
     AllFair(w, before, mac) && Fair(WorldAfter(w, before, mac), moves[|moves| - 1], mac))
  }

  /** The table's part of the moves. */
  ghost function DeedsOf(moves: seq<Move>): seq<T.Deed> {
    if moves == [] then []
    else DeedsOf(moves[..|moves| - 1]) + (if moves[|moves| - 1].Table? then [moves[|moves| - 1].d] else [])
  }

  /** A bundle the table cleared is one the protocol's sender released. */
  ghost predicate ClearedKnown(log: seq<T.Deed>, mac: T.Mac, w: P.World) {
    forall d <- log :: d.Cleared? && d.mac == mac ==> Released(d.what, w)
  }

  ghost predicate Released(x: T.Parcel, w: P.World) {
    x.number in w.cleared && x.number in w.bundles && w.bundles[x.number] == x.payloads
  }

  lemma OneStep(w: P.World, s: P.Step)
    requires P.Enabled(w, s)
    ensures P.Possible(w, [s]) && Enacted(w, [s]) == P.Apply(w, s)
  {
    hide P.Enabled, P.Apply;
    assert [s][1..] == [];
    var v := P.Apply(w, s);
    assert P.Possible(v, []) && P.After(v, []) == v;
    assert P.After(w, [s]) == P.After(v, [s][1..]);
  }

  lemma NoSteps(w: P.World)
    ensures P.Possible(w, []) && Enacted(w, []) == w
  {
  }

  /** What was sent stays what it was, and what was cleared stays cleared. */
  lemma StepKeeps(w: P.World, s: P.Step, x: T.Parcel)
    requires P.Inv(w) && P.Enabled(w, s) && x.number in w.bundles
    ensures var v := P.Apply(w, s);
            && x.number in v.bundles && v.bundles[x.number] == w.bundles[x.number]
            && w.cleared <= v.cleared
  {
    hide P.Backed, P.Truthful, NodeOk, P.Joined, HandedUp, NodeNext, P.Released;
  }

  /** One deed of the table is one step of the protocol, or none. */
  lemma DeedIsStep(s: T.Sender, w: P.World, m: Move, mac: T.Mac)
    requires m.Table? && m.d.mac == mac && !m.d.Met? && Mirrors(s, w) && P.Inv(w) && Fair(w, m, mac)
    requires T.Advance(s, m.d).Some?
    ensures var steps := StepsFor(w, m, mac);
            && |steps| == 1 && P.Enabled(w, steps[0])
            && Mirrors(T.Advance(s, m.d).value, P.Apply(w, steps[0]))
            && (m.d.Cleared? ==> Released(m.d.what, P.Apply(w, steps[0])))
  {
    hide P.Backed, P.Truthful, NodeOk, P.Joined, HandedUp, NodeNext, Fitting, Covers;
    var x, t := m.d.what, T.Advance(s, m.d).value;
    var step := StepsFor(w, m, mac)[0];
    var v := P.Apply(w, step);
    if m.d.Cleared? {
      assert x.number in w.inflight;
      assert P.Released(w, m.ack.frame) - (w.inflight - {x.number}) == {x.number as int};
    }
    if m.d.Flushed? {
      assert x.number !in w.bundles;
    }
    Apart(s, w, m.d.what);
  }

  /** Removing a parcel removes its number. */
  lemma Apart(s: T.Sender, w: P.World, x: T.Parcel)
    requires Mirrors(s, w)
    ensures x in s.waiting ==> (set y <- s.waiting - {x} :: y.number as int) == w.inflight - {x.number}
    ensures (set y <- s.waiting + {x} :: y.number as int) == w.inflight + {x.number}
  {
    if x in s.waiting {
      forall y | y in s.waiting && y.number == x.number ensures y == x {
        assert y.payloads == x.payloads;
      }
    }
  }

  /** What goes on elsewhere leaves the sender alone. */
  lemma AirMirrors(s: T.Sender, w: P.World, m: Move, mac: T.Mac)
    requires m.Air? && Fair(w, m, mac) && Mirrors(s, w)
    ensures P.Enabled(w, m.s) && Mirrors(s, P.Apply(w, m.s))
  {
    hide HandedUp, NodeNext, P.Wire;
  }

  lemma {:induction false} Appended(w: P.World, run: seq<P.Step>, more: seq<P.Step>)
    requires P.Possible(w, run) && P.Possible(P.After(w, run), more)
    ensures P.Possible(w, run + more) && P.After(w, run + more) == P.After(P.After(w, run), more)
    decreases |run|
  {
    hide P.Enabled, P.Apply;
    if run == [] {
      assert run + more == more;
    } else {
      Appended(P.Apply(w, run[0]), run[1..], more);
      assert (run + more)[1..] == run[1..] + more;
    }
  }

  /** One move more. */
  lemma MoveOn(s: T.Sender, w: P.World, m: Move, mac: T.Mac, log: seq<T.Deed>)
    requires Mirrors(s, w) && P.Inv(w) && Fair(w, m, mac) && ClearedKnown(log, mac, w)
    requires m.Table? && m.d.mac == mac ==> T.Advance(s, m.d).Some?
    ensures var steps := StepsFor(w, m, mac);
            var v := Enacted(w, steps);
            && P.Possible(w, steps) && P.Inv(v)
            && Mirrors(if m.Table? && m.d.mac == mac then T.Advance(s, m.d).value else s, v)
            && ClearedKnown(log + (if m.Table? then [m.d] else []), mac, v)
  {
    hide P.Inv, P.Enabled, P.Apply, Mirrors, Released, P.Possible, P.After, Enacted;
    var steps := StepsFor(w, m, mac);
    if m.Table? && (m.d.mac != mac || m.d.Met?) {
      NoSteps(w);
      if m.d.mac == mac {
        MetAgain(s, w, m.d);
      }
    } else {
      if m.Air? {
        AirMirrors(s, w, m, mac);
      } else {
        DeedIsStep(s, w, m, mac);
      }
      var v := P.Apply(w, steps[0]);
      assert steps == [steps[0]];
      OneStep(w, steps[0]);
      P.StepKeepsInv(w, steps[0]);
      forall d | d in log && d.Cleared? && d.mac == mac ensures Released(d.what, v) {
        ReleasedStays(w, steps[0], d.what);
      }
    }
  }

  lemma MetAgain(s: T.Sender, w: P.World, d: T.Deed)
    requires Mirrors(s, w) && d.Met? && w.next == 0 && T.Advance(s, d).Some?
    ensures T.Advance(s, d).value == s
  {
  }

  lemma ReleasedStays(w: P.World, step: P.Step, x: T.Parcel)
    requires P.Inv(w) && P.Enabled(w, step) && Released(x, w)
    ensures Released(x, P.Apply(w, step))
  {
    hide P.Inv, P.Enabled, P.Apply;
    StepKeeps(w, step, x);
  }

  /** Any history of the table, woven into anything a receiver and a channel do, is a run of
      the protocol, and leaves its sender where the history leaves the table's. */
  lemma {:induction false} HistoryIsRun(w: P.World, moves: seq<Move>, mac: T.Mac)
    requires P.Inv(w) && Unused(w)
    requires AllFair(w, moves, mac) && T.Replay(DeedsOf(moves), mac).Some?
    ensures P.Possible(w, RunOf(w, moves, mac)) && P.After(w, RunOf(w, moves, mac)) == WorldAfter(w, moves, mac)
    ensures Mirrors(T.Replay(DeedsOf(moves), mac).value, WorldAfter(w, moves, mac)) && P.Inv(WorldAfter(w, moves, mac))
    ensures ClearedKnown(DeedsOf(moves), mac, WorldAfter(w, moves, mac))
  {
    hide P.Inv, Mirrors, Fair, P.Possible, P.After, ClearedKnown, T.Advance;
    if moves == [] {
      NoSteps(w);
      StartMirrors(w, mac);
    } else {
      var before, m := moves[..|moves| - 1], moves[|moves| - 1];
      var v, log := WorldAfter(w, before, mac), DeedsOf(before);
      if m.Table? {
        T.Further(log, m.d, mac);
      } else {
        assert log + [] == log;
      }
      HistoryIsRun(w, before, mac);
      MoveOn(T.Replay(log, mac).value, v, m, mac, log);
      Appended(w, RunOf(w, before, mac), StepsFor(v, m, mac));
    }
  }

  lemma StartMirrors(w: P.World, mac: T.Mac)
    requires Unused(w)
    ensures Mirrors(T.Sender(0, {}), w) && ClearedKnown([], mac, w)
  {
  }

  /** No false acknowledgement, for the tables: under every schedule of sends, flushes, ticks
      and acknowledgements, and whatever the channel loses, repeats and reorders, a bundle
      whose buffer is released on a bitmap acknowledgement reached the receiver, with the
      payloads that were accepted into it. */
  lemma TableNoFalseAck(moves: seq<Move>, mac: T.Mac)
    requires AllFair(P.START, moves, mac) && T.Replay(DeedsOf(moves), mac).Some?
    ensures var w := WorldAfter(P.START, moves, mac);
            forall d <- DeedsOf(moves) :: d.Cleared? && d.mac == mac ==>
              && d.what.number in w.received
              && d.what.number in w.bundles && w.bundles[d.what.number] == d.what.payloads
  {
    hide AllFair, WorldAfter, RunOf, DeedsOf, T.Replay, Mirrors;
    P.StartInv();
    HistoryIsRun(P.START, moves, mac);
    P.NoFalseAck(RunOf(P.START, moves, mac));
    var w := WorldAfter(P.START, moves, mac);
    forall d | d in DeedsOf(moves) && d.Cleared? && d.mac == mac ensures Released(d.what, w) {
    }
  }
}

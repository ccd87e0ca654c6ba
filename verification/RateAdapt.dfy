/** Rate adaptation of one peer: acknowledgements, retries and drops move a loss
average, and the average moves the rate one step at a time.

Time is the 32-bit jiffy counter; one call may read it several times, so each
call takes the successive values it read.  Adaptation is on and the configured
rate is fixed. */
module RateAdapt {
  import opened Words

  const MAX_MCS := 7             // RA_MAX_MCS
  const RETRANS_STEP := 8        // RA_RETRANS_STEP_Q8
  const DROP_STEP := 32          // 256 / RA_EWMA_W

  /** `a + b` in jiffies. */
  function Add32(a: nat, b: nat): (c: nat)
    ensures a + b < WRAP32 ==> c == a + b
  {
    (a + b) % WRAP32
  }

  /** The share of the loss average that survives one report. */
  function Decay(x: nat): nat { x * 7 / 8 }

  lemma DecayBounds(x: nat)
    requires x <= 255
    ensures Decay(x) <= 255 - DROP_STEP
  {
  }

  /** The loss kept follows the average without rounding from below, by less than seven. */
  ghost predicate Follows(loss: nat, average: real) {
    loss as real <= average < loss as real + 7.0
  }

  /** One report: an eighth of the average goes, and `more` comes. */
  lemma DecayFollows(loss: nat, average: real, more: nat)
    requires Follows(loss, average)
    ensures Follows(Decay(loss) + more, average * 0.875 + more as real)
  {
    var d := Decay(loss);
    assert 8 * d <= 7 * loss <= 8 * d + 7;
    assert 8.0 * d as real <= 7.0 * loss as real <= 8.0 * d as real + 7.0;
  }

  function DecayN(x: nat, n: nat): nat {
    if n == 0 then x else Decay(DecayN(x, n - 1))
  }

  lemma {:induction false} DecayFalls(x: nat, n: nat)
    ensures DecayN(x, n) + n <= x || DecayN(x, n) == 0
  {
    if n > 0 {
      DecayFalls(x, n - 1);
    }
  }

  /** Successive clock reads of one call: entry, probe check, step guard, step
      stamp, collapse note. */
  datatype Reads = Reads(entry: nat, probe: nat, guard: nat, stamp: nat, note: nat)

  /** The reads of one call, in order, after everything read before, and early
      enough that a step gap later the counter has not wrapped. */
  ghost predicate Orderly(r: Reads, clock: nat, gap: nat) {
    0 < r.entry && clock <= r.entry <= r.probe <= r.guard <= r.stamp <= r.note && r.note + gap < WRAP32
  }

  ghost predicate Follow(rs: seq<Reads>, clock: nat, gap: nat) {
    rs != [] ==> Orderly(rs[0], clock, gap) && Follow(rs[1..], rs[0].note, gap)
  }

  datatype Event =
    | Acked(r: Reads)
    | Retried(now: nat)
    | Dropped(r: Reads)
    | Checked(now: nat, rearm: nat)

  ghost function EndOf(e: Event): nat {
    match e
    case Acked(r) => r.note
    case Retried(now) => now
    case Dropped(r) => r.note
    case Checked(now, _) => now
  }

  /** A run whose clock never goes back and does not wrap. */
  ghost predicate WellTimed(events: seq<Event>, clock: nat, gap: nat) {
    events != [] ==>
      && (match events[0]
          case Acked(r) => Orderly(r, clock, gap)
          case Retried(now) => clock <= now && now + gap < WRAP32
          case Dropped(r) => Orderly(r, clock, gap)
          case Checked(now, _) => clock <= now && now + gap < WRAP32)
      && WellTimed(events[1..], EndOf(events[0]), gap)
  }

  /** One rate step: when its gap starts, when a downshift was noted, and the rates. */
  datatype Step = Step(at: nat, noted: nat, from: nat, to: nat) {
    predicate Down() { to < from }
  }

  /** The guard that keeps a second step out until a gap after a step at t. */
  predicate Blocks(t: nat, gap: nat, now: nat) { now < Add32(t, gap) }

  /** It keeps out every step inside the gap if and only if the 32-bit sum does not
      wrap: near the wrap the next step is allowed at once.  Without a wrap it keeps out
      nothing behind the gap. */
  lemma GapHeldIff(t: nat, gap: nat)
    requires t < WRAP32 && 0 < gap < WRAP32
    ensures t + gap < WRAP32 ==> forall now: nat :: Blocks(t, gap, now) ==> now < t + gap
    ensures (forall now: nat :: t <= now < t + gap && now < WRAP32 ==> Blocks(t, gap, now)) <==> t + gap < WRAP32
  {
    if t + gap >= WRAP32 {
      assert Add32(t, gap) == t + gap - WRAP32;
      assert !Blocks(t, gap, t);
    }
  }

  // ------------------------------------------------ what a history must satisfy

  /** Steps of size one, each at least a gap after the one before. */
  ghost predicate Paced(trace: seq<Step>, gap: nat) {
    && (forall s <- trace :: s.to == s.from + 1 || s.from == s.to + 1)
    && (forall i :: 0 < i < |trace| ==> trace[i - 1].at + gap <= trace[i].at && trace[i].from == trace[i - 1].to)
  }

  /** The last downshift, or -1. */
  ghost function LastDown(trace: seq<Step>): (k: int)
    ensures -1 <= k < |trace| && (k >= 0 ==> trace[k].Down())
  {
    if trace == [] then -1
    else if trace[|trace| - 1].Down() then |trace| - 1
    else LastDown(trace[..|trace| - 1])
  }

  /** The rates abandoned in the current collapse episode: the last downshift and
      those before it, as far back as each is within the cooldown of the next. */
  ghost function Abandoned(trace: seq<Step>, cool: nat): set<nat>
    decreases |trace|
  {
    if trace == [] then {}
    else
      var s, pre := trace[|trace| - 1], trace[..|trace| - 1];
      if !s.Down() then Abandoned(pre, cool)
      else
        var k := LastDown(pre);
        (if k >= 0 && s.noted - pre[k].noted < cool then Abandoned(pre, cool) else {}) + {s.from}
  }

  ghost predicate IsMax(m: nat, s: set<nat>) {
    m in s && forall x <- s :: x <= m
  }

  lemma Appended(trace: seq<Step>, s: Step, cool: nat)
    ensures var now := trace + [s];
            && LastDown(now) == (if s.Down() then |trace| else LastDown(trace))
            && Abandoned(now, cool) ==
               if !s.Down() then Abandoned(trace, cool)
               else (var k := LastDown(trace);
                     if k >= 0 && s.noted - trace[k].noted < cool then Abandoned(trace, cool) else {}) + {s.from}
  {
    assert (trace + [s])[..|trace|] == trace;
  }

  /** The rate and the next allowed step are those the history leaves. */
  ghost predicate Tracked(trace: seq<Step>, gap: nat, clock: nat, mcs: nat, nextStep: nat) {
    && (forall s <- trace :: s.at <= clock)
    && (trace != [] ==> trace[|trace| - 1].to == mcs && nextStep == trace[|trace| - 1].at + gap)
  }

  /** The collapse memory is the last downshift and the highest rate abandoned in
      its episode. */
  ghost predicate Remembered(trace: seq<Step>, cool: nat, failedTop: nat, lastCollapse: nat) {
    var k := LastDown(trace);
    if k < 0 then lastCollapse == 0
    else lastCollapse == trace[k].noted > 0 && IsMax(failedTop, Abandoned(trace, cool))
  }

  lemma PacedAppend(trace: seq<Step>, gap: nat, clock: nat, mcs: nat, nextStep: nat, s: Step)
    requires Paced(trace, gap) && Tracked(trace, gap, clock, mcs, nextStep)
    requires s.from == mcs && (s.to == mcs + 1 || s.from == s.to + 1) && nextStep <= s.at && clock <= s.at
    ensures Paced(trace + [s], gap) && Tracked(trace + [s], gap, s.at, s.to, s.at + gap)
  {
    var now := trace + [s];
    forall i | 0 < i < |now| ensures now[i - 1].at + gap <= now[i].at && now[i].from == now[i - 1].to {
      assert now[i - 1] == trace[i - 1];
    }
  }

  lemma RememberDown(trace: seq<Step>, cool: nat, failedTop: nat, lastCollapse: nat, s: Step)
    requires Remembered(trace, cool, failedTop, lastCollapse) && s.Down() && s.noted > 0
    ensures var same := lastCollapse != 0 && s.noted - lastCollapse < cool;
            Remembered(trace + [s], cool, if !same || s.from > failedTop then s.from else failedTop, s.noted)
  {
    Appended(trace, s, cool);
  }

  lemma RememberUp(trace: seq<Step>, cool: nat, failedTop: nat, lastCollapse: nat, s: Step)
    requires Remembered(trace, cool, failedTop, lastCollapse) && !s.Down()
    ensures Remembered(trace + [s], cool, failedTop, lastCollapse)
  {
    Appended(trace, s, cool);
  }

  lemma TrackedLater(trace: seq<Step>, gap: nat, clock: nat, mcs: nat, nextStep: nat, later: nat)
    requires Tracked(trace, gap, clock, mcs, nextStep) && clock <= later
    ensures Tracked(trace, gap, later, mcs, nextStep)
  {
  }

  // ---------------------------------------------------------- the loss average

  /** The average and the last acknowledgement, as the reports alone tell them. */
  datatype Loss = Loss(average: real, lastAck: nat)

  /** One report: an acknowledgement takes an eighth off; outside the grace period a retry adds
      8, up to 255, and a drop takes an eighth off and adds 32; a peer unheard for the stale
      period starts over. */
  ghost function Reported(l: Loss, e: Event, created: nat, grace: nat, stale: nat): Loss {
    match e
    case Acked(r) => Loss(l.average * 0.875, r.entry)
    case Retried(now) =>
      if created != 0 && now - created < grace then l
      else l.(average := if l.average + 8.0 > 255.0 then 255.0 else l.average + 8.0)
    case Dropped(r) =>
      if created != 0 && r.entry - created < grace then l else l.(average := l.average * 0.875 + 32.0)
    case Checked(now, _) => if l.lastAck != 0 && now - l.lastAck > stale then l.(average := 0.0) else l
  }

  ghost function LossAfter(l: Loss, es: seq<Event>, created: nat, grace: nat, stale: nat): Loss
    decreases |es|
  {
    if es == [] then l else LossAfter(Reported(l, es[0], created, grace, stale), es[1..], created, grace, stale)
  }

  // ---------------------------------------------------------------- the peer

  class Rate {
    const floor: nat        // configured MCS
    const gap: nat          // jiffies between steps
    const cool: nat         // probe cooldown
    const grace: nat
    const stale: nat
    const upQ8: nat
    const downQ8: nat

    var mcs: nat
    var lossQ8: nat
    var nextStep: nat
    var lastAck: nat
    var created: nat
    var failedTop: nat
    var lastCollapse: nat

    ghost var average: real       // the loss without rounding
    ghost var clock: nat          // the last time read
    ghost var trace: seq<Step>    // steps since the last reset

    /** Whether a downshift was noted less than a cooldown before `now`. */
    ghost predicate Fresh(now: nat)
      reads this
    {
      lastCollapse != 0 && now - lastCollapse < cool
    }

    /** How high a climb may go: below what a fresh episode abandoned. */
    ghost function Ceiling(now: nat): nat
      reads this
    {
      if Fresh(now) && failedTop > 0 then Min(MAX_MCS, failedTop - 1) else MAX_MCS
    }

    ghost predicate Valid()
      reads this
    {
      && floor <= mcs <= MAX_MCS && lossQ8 <= 255 && Follows(lossQ8, average)
      && clock + gap < WRAP32 && lastCollapse <= clock && lastAck <= clock && created <= clock
      && Paced(trace, gap)
      && Tracked(trace, gap, clock, mcs, nextStep)
      && Remembered(trace, cool, failedTop, lastCollapse)
      // the rate stays below the highest abandoned one while the episode is fresh
      && (Fresh(clock) ==> mcs < failedTop)
    }

    constructor (floor: nat, gap: nat, cool: nat, grace: nat, stale: nat, upQ8: nat, downQ8: nat, now: nat)
      requires floor <= MAX_MCS && now + gap < WRAP32
      ensures Valid() && mcs == floor == this.floor && trace == [] && clock == now && average == 0.0
      ensures this.gap == gap && this.cool == cool && this.grace == grace && this.stale == stale
      ensures this.upQ8 == upQ8 && this.downQ8 == downQ8
      ensures lossQ8 == nextStep == lastAck == failedTop == lastCollapse == 0 && created == now
    {
      this.floor, this.gap, this.cool, this.grace, this.stale := floor, gap, cool, grace, stale;
      this.upQ8, this.downQ8 := upQ8, downQ8;
      mcs, lossQ8, nextStep, lastAck, created, failedTop, lastCollapse := floor, 0, 0, 0, now, 0, 0;
      clock, trace, average := now, [], 0.0;
    }

    /** A step down, if the floor and the step gap allow one. */
    method StepDown(r: Reads)
      requires Valid() && Orderly(r, clock, gap)
      modifies this`mcs, this`nextStep, this`failedTop, this`lastCollapse, this`clock, this`trace
      ensures Valid() && clock == r.note
      ensures if old(mcs) > floor && r.guard >= old(nextStep)
              then mcs == old(mcs) - 1 && trace == old(trace) + [Step(r.stamp, r.note, old(mcs), mcs)]
              else mcs == old(mcs) && trace == old(trace)
    {
      hide Paced, Tracked, Remembered, Sub32, Add32, Decay;
      TrackedLater(trace, gap, clock, mcs, nextStep, r.note);
      if mcs > floor && r.guard >= nextStep {
        ghost var s := Step(r.stamp, r.note, mcs, mcs - 1);
        PacedAppend(trace, gap, clock, mcs, nextStep, s);
        TrackedLater(trace + [s], gap, s.at, s.to, s.at + gap, r.note);
        RememberDown(trace, cool, failedTop, lastCollapse, s);
        mcs := mcs - 1;
        nextStep := Add32(r.stamp, gap);
        var sameEpisode := lastCollapse != 0 && Sub32(r.note, lastCollapse) < cool;
        var abandoned := mcs + 1;
        if !sameEpisode || abandoned > failedTop {
          failedTop := abandoned;
        }
        lastCollapse := r.note;
        trace := trace + [s];
      }
      clock := r.note;
    }

    /** A step up, unless loss, the (possibly capped) ceiling or the gap forbids it. */
    method StepUp(r: Reads)
      requires Valid() && Orderly(r, clock, gap)
      modifies this`mcs, this`nextStep, this`clock, this`trace
      ensures Valid() && clock == r.note
      ensures || (mcs == old(mcs) && trace == old(trace))
              || (mcs == old(mcs) + 1 && trace == old(trace) + [Step(r.stamp, r.stamp, old(mcs), mcs)])
      // the last step to the ceiling asks for the strict loss mark, the others for the loose one
      ensures mcs > old(mcs) <==>
                var top := old(Ceiling(r.probe));
                old(mcs) < top && r.guard >= old(nextStep) && lossQ8 <= if old(mcs) + 1 == top then upQ8 else downQ8
    {
      hide Paced, Tracked, Remembered, Sub32, Add32, Decay;
      TrackedLater(trace, gap, clock, mcs, nextStep, r.note);
      var ceil := MAX_MCS;
      if failedTop != 0 && lastCollapse != 0 && Sub32(r.probe, lastCollapse) < cool {
        if ceil > failedTop - 1 {
          ceil := failedTop - 1;
        }
      }
      var ready := if mcs + 1 >= ceil then lossQ8 <= upQ8 else lossQ8 <= downQ8;
      if ready && mcs < ceil && r.guard >= nextStep {
        ghost var s := Step(r.stamp, r.stamp, mcs, mcs + 1);
        PacedAppend(trace, gap, clock, mcs, nextStep, s);
        TrackedLater(trace + [s], gap, s.at, s.to, s.at + gap, r.note);
        RememberUp(trace, cool, failedTop, lastCollapse, s);
        mcs := mcs + 1;
        nextStep := Add32(r.stamp, gap);
        trace := trace + [s];
      }
      clock := r.note;
    }

    method OnAck(r: Reads)
      requires Valid() && Orderly(r, clock, gap)
      modifies this
      ensures Valid() && clock == r.note
      ensures lossQ8 == Decay(old(lossQ8)) && lastAck == r.entry && average == old(average) * 0.875
      ensures created == old(created)
      ensures trace == old(trace) || (|trace| == |old(trace)| + 1 && trace[..|old(trace)|] == old(trace))
      ensures old(mcs) <= mcs + 1 && mcs <= old(mcs) + 1
      ensures mcs < old(mcs) <==> lossQ8 >= downQ8 && old(mcs) > floor && r.guard >= old(nextStep)
      ensures mcs > old(mcs) <==>
                var top := old(Ceiling(r.probe));
                && lossQ8 < downQ8 && old(mcs) < top && r.guard >= old(nextStep)
                && (old(mcs) + 1 == top ==> lossQ8 <= upQ8)
    {
      hide Paced, Tracked, Remembered, Sub32, Add32, Decay;
      DecayBounds(lossQ8);
      TrackedLater(trace, gap, clock, mcs, nextStep, r.entry);
      clock := r.entry;
      lastAck := r.entry;
      DecayFollows(lossQ8, average, 0);
      lossQ8, average := Decay(lossQ8), average * 0.875;
      if lossQ8 >= downQ8 {
        StepDown(r);
      } else {
        StepUp(r);
      }
    }

    method OnRetrans(now: nat)
      requires Valid() && clock <= now && now + gap < WRAP32
      modifies this`lossQ8, this`average, this`clock
      ensures Valid() && clock == now
      ensures lossQ8 == if created != 0 && now - created < grace then old(lossQ8)
                        else Min(old(lossQ8) + RETRANS_STEP, 255)
      ensures average == if created != 0 && now - created < grace then old(average)
                         else if old(average) + 8.0 > 255.0 then 255.0 else old(average) + 8.0
    {
      hide Paced, Tracked, Remembered, Sub32, Add32, Decay;
      TrackedLater(trace, gap, clock, mcs, nextStep, now);
      clock := now;
      if created != 0 && Sub32(now, created) < grace {
        return;
      }
      lossQ8 := Min(lossQ8 + RETRANS_STEP, 255);
      average := if average + 8.0 > 255.0 then 255.0 else average + 8.0;
    }

    method OnDrop(r: Reads)
      requires Valid() && Orderly(r, clock, gap)
      modifies this
      ensures Valid() && clock == r.note && mcs <= old(mcs) && lastAck == old(lastAck) && created == old(created)
      ensures created != 0 && r.entry - created < grace ==>
                lossQ8 == old(lossQ8) && average == old(average) && mcs == old(mcs)
      ensures created == 0 || r.entry - created >= grace ==>
                lossQ8 == Decay(old(lossQ8)) + DROP_STEP && average == old(average) * 0.875 + 32.0
      ensures mcs < old(mcs) <==> (created == 0 || r.entry - created >= grace) && lossQ8 >= downQ8 &&
                                  old(mcs) > floor && r.guard >= old(nextStep)
    {
      hide Paced, Tracked, Remembered, Sub32, Add32, Decay;
      DecayBounds(lossQ8);
      TrackedLater(trace, gap, clock, mcs, nextStep, r.entry);
      TrackedLater(trace, gap, clock, mcs, nextStep, r.note);
      if created != 0 && Sub32(r.entry, created) < grace {
        clock := r.note;
        return;
      }
      clock := r.entry;
      DecayFollows(lossQ8, average, DROP_STEP);
      lossQ8, average := Decay(lossQ8) + DROP_STEP, average * 0.875 + 32.0;
      if lossQ8 >= downQ8 {
        StepDown(r);
      } else {
        clock := r.note;
      }
    }

    /** A peer not heard for the stale period falls back to the configured rate;
        `rearm` is when it may step again. */
    method StaleReset(now: nat, rearm: nat)
      requires Valid() && clock <= now && now + gap < WRAP32
      modifies this
      ensures Valid() && clock == now
      ensures if lastAck != 0 && now - lastAck > stale
              then mcs == floor && lossQ8 == 0 && average == 0.0 && trace == [] && nextStep == rearm &&
                   failedTop == 0 && lastCollapse == 0
              else mcs == old(mcs) && lossQ8 == old(lossQ8) && average == old(average) && trace == old(trace) &&
                   nextStep == old(nextStep) && failedTop == old(failedTop) && lastCollapse == old(lastCollapse)
      ensures lastAck == old(lastAck) && created == old(created)
    {
      hide Sub32, Add32, IsMax;
      TrackedLater(trace, gap, clock, mcs, nextStep, now);
      clock := now;
      if lastAck != 0 && Sub32(now, lastAck) > stale {
        mcs, lossQ8, nextStep, failedTop, lastCollapse := floor, 0, rearm, 0, 0;
        trace, average := [], 0.0;
      }
    }

    /** Any run of events with a clock that does not wrap. */
    method Run(events: seq<Event>)
      requires Valid() && WellTimed(events, clock, gap)
      modifies this
      ensures Valid() && created == old(created)
      ensures Loss(average, lastAck) == LossAfter(Loss(old(average), old(lastAck)), events, created, grace, stale)
    {
      hide Paced, Tracked, Remembered, Decay, Orderly;
      for n := 0 to |events|
        invariant Valid() && WellTimed(events[n..], clock, gap) && created == old(created)
        invariant LossAfter(Loss(average, lastAck), events[n..], created, grace, stale) ==
                    LossAfter(Loss(old(average), old(lastAck)), events, created, grace, stale)
      {
        assert events[n..][0] == events[n] && events[n..][1..] == events[n + 1..];
        match events[n] {
          case Acked(r) => OnAck(r);
          case Retried(now) => OnRetrans(now);
          case Dropped(r) => OnDrop(r);
          case Checked(now, rearm) => StaleReset(now, rearm);
        }
      }
    }

    /** Acknowledgements with nothing lost in between bring the loss to zero. */
    method CleanAcks(rs: seq<Reads>)
      requires Valid()
      requires Follow(rs, clock, gap)
      modifies this
      ensures Valid() && lossQ8 == DecayN(old(lossQ8), |rs|)
      ensures |rs| >= 255 ==> lossQ8 == 0
    {
      hide Paced, Tracked, Remembered, Decay, Orderly;
      for n := 0 to |rs|
        invariant Valid() && Follow(rs[n..], clock, gap)
        invariant lossQ8 == DecayN(old(lossQ8), n)
      {
        assert rs[n..][0] == rs[n] && rs[n..][1..] == rs[n + 1..];
        OnAck(rs[n]);
      }
      if |rs| >= 255 {
        DecayFalls(old(lossQ8), |rs|);
      }
    }
  }
}

/** The per-peer receive window: which bundle sequence numbers have arrived.

The firmware keeps the newest 16-bit sequence number and a 64-bit word whose
bit k stands for "newest - k".  The abstract window keeps the same facts as a
set of distances; arrivals are numbered without wrap-around, so "the sequence
number e" means the 16-bit number e mod 65536 of the e-th slot ever used. */
module SeqWindow {
  import opened Words

  const SPAN := 64          // HALOW_ACK_SEQ_WINDOW
  const WRAP := 0x1_0000

  datatype Window = Unseen | Seen(last: U16, marks: set<nat>)

  ghost predicate Proper(w: Window) {
    w.Seen? ==> 0 in w.marks && forall k <- w.marks :: k < SPAN
  }

  /** What the word the C code keeps stands for. */
  ghost function Marks(win: Word64): set<nat> {
    set k: nat | k < SPAN && win[k]
  }

  /** What recording an arrival does to the window.  `undef` is the value of the
      32-bit shift at a distance of 32 or more, which C leaves undefined. */
  ghost function Record(w: Window, seq16: U16, undef: Word32): Window {
    if w.Unseen? then Seen(seq16, {0})
    else
      var fwd := Sub16(seq16, w.last);
      var back := Sub16(w.last, seq16);
      if fwd == 0 then w
      else if fwd < SPAN then Seen(seq16, {0} + (set k <- w.marks | k + fwd < SPAN :: k + fwd))
      else if back < SPAN then
        Seen(w.last, w.marks + (if back < 32 then {back} else set k: nat | k < 32 && undef[k]))
      else Seen(seq16, {0})
  }

  /** The duplicate test made before an arrival is recorded. */
  ghost predicate IsDuplicate(w: Window, seq16: U16) {
    w.Seen? && Sub16(w.last, seq16) in w.marks
  }

  /** What a node keeps about a sender: nothing before a record is made for it. */
  datatype Entry = Absent | Present(window: Window)

  /** How a bundle was heard: whether it was addressed to this node, and what the lookup
      of the sender that follows would find: room for a new record, a stale old one. */
  datatype Hearing = Hearing(toMe: bool, room: bool, stale: bool, undef: Word32)

  ghost predicate IsRepeat(x: Entry, seq16: U16) {
    x.Present? && IsDuplicate(x.window, seq16)
  }

  ghost function Recorded(x: Entry, seq16: U16, undef: Word32): Entry {
    if x.Present? then Present(Record(x.window, seq16, undef)) else x
  }

  /** Looking a sender up makes its record if there is room, and empties a stale one. */
  ghost function LookedUp(x: Entry, room: bool, stale: bool): Entry {
    if x.Absent? then (if room then Present(Unseen) else x) else if stale then Present(Unseen) else x
  }

  /** A bundle is recorded if there is a record; one that is not a repeat and was
      addressed to this node then looks its sender up. */
  ghost function Heard(x: Entry, seq16: U16, h: Hearing): Entry {
    var y := Recorded(x, seq16, h.undef);
    if IsRepeat(x, seq16) || !h.toMe then y else LookedUp(y, h.room, h.stale)
  }

  /** The fields of a peer record that belong to the receive window. */
  class RxPeer {
    var inUse: bool
    var seen: bool
    var last: U16
    var win: Word64

    ghost function View(): Entry
      reads this
    {
      if !inUse then Absent else Present(if seen then Seen(last, Marks(win)) else Unseen)
    }

    constructor ()
      ensures View() == Absent
    {
      inUse, seen, last, win := false, false, 0, ZERO64;
    }

    method RecordSeq(seq16: U16, undef: Word32)
      requires inUse
      modifies this
      ensures View() == Recorded(old(View()), seq16, undef)
    {
      assert Marks(One64(0)) == {0};
      if !seen {
        seen, last, win := true, seq16, One64(0);
        return;
      }
      var fwd := Sub16(seq16, last);
      if fwd == 0 {
        return;
      }
      if fwd < SPAN {
        ghost var before := win;
        win := Or64(Shl64(win, fwd), One64(0));
        last := seq16;
        assert Marks(win) == {0} + (set k <- Marks(before) | k + fwd < SPAN :: k + fwd) by {
          forall k: nat | k in Marks(win) && k != 0 ensures k - fwd in Marks(before) {
          }
        }
        return;
      }
      var back := Sub16(last, seq16);
      if back < SPAN {
        ghost var before := win;
        win := Or64(win, Widen(if back < 32 then One32(back) else undef));
        assert Marks(win) == Marks(before) + (if back < 32 then {back} else set k: nat | k < 32 && undef[k]);
        return;
      }
      last, win := seq16, One64(0);
    }

    /** Tests for a repeat, then records; without a record neither happens. */
    method Receive(seq16: U16, undef: Word32) returns (retrans: bool)
      modifies this
      ensures retrans == IsRepeat(old(View()), seq16)
      ensures View() == Recorded(old(View()), seq16, undef)
    {
      retrans := false;
      if !inUse {
        return;
      }
      if seen {
        var back := Sub16(last, seq16);
        if back < SPAN && Shr64(win, back)[0] {
          retrans := true;
        }
      }
      RecordSeq(seq16, undef);
    }

    /** The lookup of the sender, as far as it concerns the window. */
    method Lookup(room: bool, stale: bool)
      modifies this
      ensures View() == LookedUp(old(View()), room, stale)
    {
      if inUse {
        if stale {
          seen, win := false, ZERO64;
        }
      } else if room {
        inUse, seen, last, win := true, false, 0, ZERO64;
      }
    }
  }

  // ---------------------------------------------------------------- exactness

  /** The unbounded bookkeeping a window stands for: the newest number and every
      number that arrived since the window last re-synchronised. */
  datatype Log = NoLog | Log(newest: int, since: set<int>)

  ghost function Note(g: Log, e: int): Log {
    if g.NoLog? then Log(e, {e})
    else if 0 < e - g.newest < SPAN then Log(e, g.since + {e})
    else if 0 <= g.newest - e < SPAN then Log(g.newest, g.since + {e})
    else Log(e, {e})
  }

  /** Window and log agree: a distance is marked exactly when its number arrived. */
  ghost predicate Exact(w: Window, g: Log) {
    && (w.Unseen? <==> g.NoLog?)
    && (w.Seen? ==>
          && w.last == g.newest % WRAP
          && g.newest in g.since
          && (forall e <- g.since :: e <= g.newest)
          && (forall k: nat :: k in w.marks <==> k < SPAN && g.newest - k in g.since))
  }

  /** No arrival is confused with one a whole 16-bit cycle away. */
  ghost predicate NoWrap(g: Log, e: int) {
    g.Log? ==> -(WRAP - SPAN) <= e - g.newest <= WRAP - SPAN
  }

  /** The shift that marks a late arrival is one C defines. */
  ghost predicate LateDefined(g: Log, e: int) {
    g.Log? ==> !(32 <= g.newest - e < SPAN)
  }

  lemma SubOfExtended(a: int, b: int)
    requires -WRAP < a - b < WRAP
    ensures Sub16(a % WRAP, b % WRAP) == if a >= b then a - b else a - b + WRAP
  {
    assert (a % WRAP - b % WRAP) % WRAP == (a - b) % WRAP by {
      assert a % WRAP - b % WRAP == (a - b) + WRAP * (b / WRAP - a / WRAP);
      ModPlusMultiple(a - b, b / WRAP - a / WRAP);
    }
  }

  lemma ModPlusMultiple(x: int, n: int)
    ensures (x + WRAP * n) % WRAP == x % WRAP
  {
  }

  /** Recording keeps the window equal to what arrived. */
  lemma RecordExact(w: Window, g: Log, e: int, undef: Word32)
    requires Exact(w, g) && NoWrap(g, e) && LateDefined(g, e)
    ensures Exact(Record(w, e % WRAP, undef), Note(g, e))
  {
    if g.Log? {
      SubOfExtended(e, g.newest);
      SubOfExtended(g.newest, e);
      var w' := Record(w, e % WRAP, undef);
      var g' := Note(g, e);
      var fwd := e - g.newest;
      if 0 < fwd < SPAN {
        forall k: nat ensures k in w'.marks <==> k < SPAN && g'.newest - k in g'.since {
          if k >= fwd {
            var j: nat := k - fwd;
            assert g'.newest - k == g.newest - j;
            assert j in w.marks <==> j < SPAN && g.newest - j in g.since;
          }
        }
      } else if 0 < g.newest - e < SPAN {
        assert w' == Seen(w.last, w.marks + {g.newest - e});
        forall k: nat ensures k in w'.marks <==> k < SPAN && g'.newest - k in g'.since {
          assert k in w.marks <==> k < SPAN && g.newest - k in g.since;
        }
      }
    }
  }

  /** The duplicate test answers exactly "this number is in the log". */
  lemma DuplicateExact(w: Window, g: Log, e: int)
    requires Exact(w, g) && NoWrap(g, e)
    ensures IsDuplicate(w, e % WRAP) <==> g.Log? && e in g.since && g.newest - e < SPAN
  {
    if g.Log? {
      SubOfExtended(g.newest, e);
    }
  }

  /** The bookkeeping of a node: none without a record. */
  datatype Ledger = NoRecord | Kept(log: Log)

  /** What a receiver holds, the bookkeeping it stands for, and the plain set of numbers
      recorded since the record was made or last emptied. */
  datatype Rx = Rx(entry: Entry, ledger: Ledger, memory: Option<set<int>>)

  const STRANGER := Rx(Absent, NoRecord, None)

  const ACQUAINTED := Rx(Present(Unseen), Kept(NoLog), Some({}))

  datatype RxStep =
    | Arrives(e: int, h: Hearing)         // a bundle arrives
    | Looks(room: bool, stale: bool)      // a send looks the sender up
    | Evicted                             // the record is given to another address

  ghost predicate Spanned(l: Ledger, e: int) {
    l.Kept? && l.log.Log? && e in l.log.since && l.log.newest - e < SPAN
  }

  ghost function LedgerLooked(l: Ledger, room: bool, stale: bool): Ledger {
    if l.NoRecord? then (if room then Kept(NoLog) else l) else if stale then Kept(NoLog) else l
  }

  ghost function LedgerAfter(l: Ledger, s: RxStep): Ledger {
    match s
    case Arrives(e, h) =>
      var k := if l.Kept? then Kept(Note(l.log, e)) else l;
      if Spanned(l, e) || !h.toMe then k else LedgerLooked(k, h.room, h.stale)
    case Looks(room, stale) => LedgerLooked(l, room, stale)
    case Evicted => NoRecord
  }

  ghost function MemoryLooked(m: Option<set<int>>, room: bool, stale: bool): Option<set<int>> {
    if m.None? then (if room then Some({}) else m) else if stale then Some({}) else m
  }

  ghost function MemoryAfter(m: Option<set<int>>, s: RxStep): Option<set<int>> {
    match s
    case Arrives(e, h) =>
      if m.Some? && e in m.value then m
      else
        var k := if m.Some? then Some(m.value + {e}) else m;
        if h.toMe then MemoryLooked(k, h.room, h.stale) else k
    case Looks(room, stale) => MemoryLooked(m, room, stale)
    case Evicted => None
  }

  ghost function Next(r: Rx, s: RxStep): Rx {
    Rx(match s
       case Arrives(e, h) => Heard(r.entry, e % WRAP, h)
       case Looks(room, stale) => LookedUp(r.entry, room, stale)
       case Evicted => Absent,
       LedgerAfter(r.ledger, s),
       MemoryAfter(r.memory, s))
  }

  ghost predicate Passes(r: Rx, e: int) {
    !IsRepeat(r.entry, e % WRAP)
  }

  /** Entry and ledger agree. */
  ghost predicate InStep(x: Entry, l: Ledger) {
    && (x.Absent? <==> l.NoRecord?)
    && (x.Present? ==> Exact(x.window, l.log))
  }

  /** The hypotheses of exactness, for a step. */
  ghost predicate Clean(l: Ledger, s: RxStep) {
    s.Arrives? && l.Kept? ==> NoWrap(l.log, s.e) && LateDefined(l.log, s.e)
  }

  /** A record stays equal to what arrived, and the filter answers from it. */
  lemma NextInStep(r: Rx, s: RxStep)
    requires InStep(r.entry, r.ledger) && Clean(r.ledger, s)
    ensures InStep(Next(r, s).entry, Next(r, s).ledger)
    ensures s.Arrives? ==> (Passes(r, s.e) <==> !Spanned(r.ledger, s.e))
  {
    if s.Arrives? && r.ledger.Kept? {
      hide Record, Note, Exact, NoWrap, LateDefined, IsDuplicate;
      RecordExact(r.entry.window, r.ledger.log, s.e, s.h.undef);
      DuplicateExact(r.entry.window, r.ledger.log, s.e);
      EmptyExact();
    }
  }

  lemma EmptyExact()
    ensures Exact(Unseen, NoLog)
  {
  }

  // ------------------------------------------------------------- whole runs

  ghost function RxAfter(r: Rx, run: seq<RxStep>): Rx {
    if run == [] then r else Next(RxAfter(r, run[..|run| - 1]), run[|run| - 1])
  }

  ghost predicate AllClean(r: Rx, run: seq<RxStep>) {
    run != [] ==> AllClean(r, run[..|run| - 1]) && Clean(RxAfter(r, run[..|run| - 1]).ledger, run[|run| - 1])
  }

  /** Whatever is made, emptied and lost on the way, entry and ledger agree after every run
      that meets the hypotheses of exactness. */
  lemma {:induction false} RunExact(r: Rx, run: seq<RxStep>)
    requires InStep(r.entry, r.ledger) && AllClean(r, run)
    ensures InStep(RxAfter(r, run).entry, RxAfter(r, run).ledger)
  {
    hide InStep, Next, Clean;
    if run != [] {
      var n := |run| - 1;
      RunExact(r, run[..n]);
      NextInStep(RxAfter(r, run[..n]), run[n]);
    }
  }

  /** An arrival within 63 of the newest so far, 31 when it is late. */
  ghost predicate Near(l: Ledger, s: RxStep) {
    s.Arrives? && l.Kept? && l.log.Log? ==> -31 <= s.e - l.log.newest < SPAN
  }

  /** Ledger and memory agree: near arrivals never make the window start over. */
  ghost predicate Agrees(l: Ledger, m: Option<set<int>>) {
    && (l.NoRecord? <==> m.None?)
    && (l.Kept? ==> m.value == if l.log.NoLog? then {} else l.log.since)
  }

  lemma NextAgrees(r: Rx, s: RxStep)
    requires Agrees(r.ledger, r.memory) && Near(r.ledger, s)
    ensures Agrees(Next(r, s).ledger, Next(r, s).memory)
    ensures s.Arrives? ==> (Spanned(r.ledger, s.e) <==> r.memory.Some? && s.e in r.memory.value)
    ensures Clean(r.ledger, s)
  {
    hide Heard, LookedUp;
  }

  ghost predicate AllNear(r: Rx, run: seq<RxStep>) {
    run != [] ==> AllNear(r, run[..|run| - 1]) && Near(RxAfter(r, run[..|run| - 1]).ledger, run[|run| - 1])
  }

  /** In a run of near arrivals the memory is exactly what the window stands for. */
  lemma {:induction false} NearKeepsAll(r: Rx, run: seq<RxStep>)
    requires Agrees(r.ledger, r.memory) && AllNear(r, run)
    ensures Agrees(RxAfter(r, run).ledger, RxAfter(r, run).memory) && AllClean(r, run)
  {
    hide Agrees, Next, Near, Clean;
    if run != [] {
      var n := |run| - 1;
      NearKeepsAll(r, run[..n]);
      NextAgrees(RxAfter(r, run[..n]), run[n]);
    }
  }

  lemma {:induction false} NearPrefix(r: Rx, run: seq<RxStep>, i: nat)
    requires AllNear(r, run) && i <= |run|
    ensures AllNear(r, run[..i]) && (i < |run| ==> Near(RxAfter(r, run[..i]).ledger, run[i]))
    decreases |run|
  {
    hide Near, RxAfter;
    if i == |run| {
      assert run[..i] == run;
    } else {
      var n := |run| - 1;
      NearPrefix(r, run[..n], i);
      assert run[..n][..i] == run[..i];
    }
  }

  /** Exactly-once delivery: in a run of near arrivals, with records made, emptied and
      lost anywhere in it, an arrival passes the filter if and only if its number was not
      recorded since the record was made or last emptied. */
  lemma FilterPassesUnrecordedOnly(r: Rx, run: seq<RxStep>, i: nat)
    requires InStep(r.entry, r.ledger) && Agrees(r.ledger, r.memory)
    requires AllNear(r, run) && i < |run| && run[i].Arrives?
    ensures var x := RxAfter(r, run[..i]);
            Passes(x, run[i].e) <==> x.memory.None? || run[i].e !in x.memory.value
  {
    hide InStep, Agrees, Next, Near, Clean, RxAfter, Passes, Spanned;
    NearPrefix(r, run, i);
    NearKeepsAll(r, run[..i]);
    RunExact(r, run[..i]);
    NextAgrees(RxAfter(r, run[..i]), run[i]);
    NextInStep(RxAfter(r, run[..i]), run[i]);
  }

  // -------------------------------------------- where the code falls short

  /** A second copy right behind the first passes if and only if there was no record at the
      first, or the first, being new, emptied a stale one. */
  lemma SecondCopyPassesIff(r: Rx, e: int, h: Hearing)
    requires InStep(r.entry, r.ledger) && Clean(r.ledger, Arrives(e, h))
    ensures Passes(Next(r, Arrives(e, h)), e) <==>
              r.entry.Absent? || (Passes(r, e) && h.toMe && h.stale)
  {
    hide Record, Note, NoWrap, LateDefined;
    if r.entry.Present? {
      RecordExact(r.entry.window, r.ledger.log, e, h.undef);
      DuplicateExact(r.entry.window, r.ledger.log, e);
      NoteKeeps(r.ledger.log, e);
      DuplicateExact(Record(r.entry.window, e % WRAP, h.undef), Note(r.ledger.log, e), e);
    }
  }

  lemma NoteKeeps(g: Log, e: int)
    requires g.Log? ==> g.newest in g.since
    ensures Note(g, e).Log? && e in Note(g, e).since && 0 <= Note(g, e).newest - e < SPAN && NoWrap(Note(g, e), e)
  {
  }

  /** Arrivals only, none of which finds a stale record. */
  ghost predicate Quiet(run: seq<RxStep>) {
    forall s <- run :: s.Arrives? && !s.h.stale
  }

  ghost function Numbers(run: seq<RxStep>): set<int> {
    set s <- run | s.Arrives? :: s.e
  }

  /** In every quiet run of near arrivals from here a number passes once, the first time. */
  ghost predicate OncePerNumber(r: Rx) {
    forall run: seq<RxStep>, i: nat :: Quiet(run) && AllNear(r, run) && i < |run| ==>
      (Passes(RxAfter(r, run[..i]), run[i].e) <==> run[i].e !in Numbers(run[..i]))
  }

  lemma {:induction false} QuietMemory(run: seq<RxStep>)
    requires Quiet(run)
    ensures RxAfter(ACQUAINTED, run).memory == Some(Numbers(run))
  {
    hide Heard, LedgerAfter;
    if run != [] {
      var n := |run| - 1;
      var m, s := RxAfter(ACQUAINTED, run[..n]).memory, run[n];
      QuietMemory(run[..n]);
      assert s.Arrives? && !s.h.stale;
      assert Numbers(run) == Numbers(run[..n]) + {s.e} by {
        assert run == run[..n] + [s];
      }
      assert MemoryAfter(m, s) == Some(m.value + {s.e}) by {
        assert s.e in m.value ==> m.value + {s.e} == m.value;
      }
    } else {
      assert Numbers(run) == {};
    }
  }

  /** That holds if and only if the sender's record is there at the first arrival: the
      bundle that makes the record is not itself recorded. */
  lemma OncePerNumberIff(known: bool)
    ensures OncePerNumber(if known then ACQUAINTED else STRANGER) <==> known
  {
    if known {
      forall run: seq<RxStep>, i: nat | Quiet(run) && AllNear(ACQUAINTED, run) && i < |run|
        ensures Passes(RxAfter(ACQUAINTED, run[..i]), run[i].e) <==> run[i].e !in Numbers(run[..i])
      {
        FilterPassesUnrecordedOnly(ACQUAINTED, run, i);
        QuietMemory(run[..i]);
      }
    } else {
      TwoCopiesPass(0);
    }
  }

  /** The failing input: two copies of a bundle from a sender not heard before. */
  lemma TwoCopiesPass(e: int)
    ensures !OncePerNumber(STRANGER)
  {
    var s := Arrives(e, Hearing(true, true, false, One32(0)));
    var run := [s, s];
    assert run[..1] == [s] && run[..1][..0] == [] && run[..2] == run;
    assert RxAfter(STRANGER, []) == STRANGER;
    assert RxAfter(STRANGER, [s]) == Next(STRANGER, s);
    assert AllNear(STRANGER, []) && AllNear(STRANGER, [s]) && AllNear(STRANGER, run);
    assert Passes(RxAfter(STRANGER, run[..1]), run[1].e);
    assert s in run[..1];
    assert run[1].e in Numbers(run[..1]);
  }

  /** The window spans 64 numbers, but the mark of a late first arrival is a
      32-bit shift: it lands if and only if the distance is below 32, whatever
      value the undefined shift takes. */
  lemma LateMarkLandsIff(w: Window, back: nat, undef: Word32)
    requires Proper(w) && w.Seen? && 0 < back < SPAN && back !in w.marks
    ensures back in Record(w, Sub16(w.last, back), undef).marks <==> back < 32
  {
    SubOfExtended(w.last, w.last - back);
    var seq16 := Sub16(w.last, back);
    assert Sub16(w.last, seq16) == back;
    assert Sub16(seq16, w.last) == WRAP - back;
  }

  /** Beyond it the shift may even mark a number that never arrived: here 40 late,
      on a core that reduces shift counts mod 32, marks distance 8. */
  lemma LateMarkCanForge()
    ensures Record(Seen(100, {0}), 60, One32(8)).marks == {0, 8}
  {
    assert (set k: nat | k < 32 && One32(8)[k]) == {8};
  }

  /** What an arrival 32 to 63 late leaves behind, for one value of the undefined shift. */
  lemma LateExact(w: Window, g: Log, e: int, undef: Word32)
    requires Exact(w, g) && g.Log? && 32 <= g.newest - e < SPAN
    ensures Exact(Record(w, e % WRAP, undef), Note(g, e)) <==>
              e in g.since && forall k: nat :: k < 32 && undef[k] ==> k in w.marks
  {
    SubOfExtended(e, g.newest);
    SubOfExtended(g.newest, e);
    var back: nat := g.newest - e;
    var w', g' := Record(w, e % WRAP, undef), Note(g, e);
    assert w' == Seen(w.last, w.marks + set k: nat | k < 32 && undef[k]);
    assert g' == Log(g.newest, g.since + {e});
    assert back in w'.marks <==> back in w.marks;
    assert back in w.marks <==> e in g.since by {
      assert g.newest - back == e;
    }
    assert e in g.since ==> g.since + {e} == g.since;
  }

  /** So such an arrival keeps the window exact, whatever the shift yields, if and only if it
      is a repeat and the last 32 numbers all arrived. */
  lemma LateExactIff(w: Window, g: Log, e: int)
    requires Exact(w, g) && w.Seen? && g.Log? && 32 <= g.newest - e < SPAN
    ensures (forall undef: Word32 :: Exact(Record(w, e % WRAP, undef), Note(g, e))) <==>
              e in g.since && forall k: nat :: k < 32 ==> k in w.marks
  {
    hide Exact, Record, Note;
    forall undef: Word32
      ensures Exact(Record(w, e % WRAP, undef), Note(g, e)) <==>
                e in g.since && forall k: nat :: k < 32 && undef[k] ==> k in w.marks
    {
      LateExact(w, g, e, undef);
    }
    var full: Word32 := seq(32, _ => true);
    assert Exact(Record(w, e % WRAP, full), Note(g, e)) <==>
             e in g.since && forall k: nat :: k < 32 && full[k] ==> k in w.marks;
    assert forall k: nat :: k < 32 ==> full[k];
  }

  /** A number a whole cycle ahead is taken for a near one, and the numbers in
      between look received: after 0, arrival 65541 leaves 65536 marked. */
  lemma WrapForgesMark(undef: Word32)
    ensures 5 in Record(Seen(0, {0}), 65541 % WRAP, undef).marks && 65541 - 5 == 65536
  {
    var marks: set<nat> := {0};
    assert 0 in marks;
    assert Record(Seen(0, marks), 5, undef) == Seen(5, {0} + (set k <- marks | k + 5 < SPAN :: k + 5));
  }

  /** Inside one cycle the window stays exact if and only if the arrival is not within the
      span of the newest number a cycle away. */
  lemma RecordExactIff(w: Window, g: Log, e: int, undef: Word32)
    requires Exact(w, g) && LateDefined(g, e) && (g.Log? ==> -WRAP < e - g.newest < WRAP)
    ensures Exact(Record(w, e % WRAP, undef), Note(g, e)) <==> NoWrap(g, e)
  {
    if NoWrap(g, e) {
      RecordExact(w, g, e, undef);
    } else {
      SubOfExtended(e, g.newest);
      SubOfExtended(g.newest, e);
      var w', g' := Record(w, e % WRAP, undef), Note(g, e);
      assert g' == Log(e, {e});
      if e > g.newest {
        assert w'.last == w.last != e % WRAP;
      } else {
        var fwd: nat := e - g.newest + WRAP;
        assert 0 in w.marks;
        assert fwd in w'.marks;
        assert g'.newest - fwd !in g'.since;
      }
    }
  }
}

/** What a record of the link table says, told from the packets alone: every field as a
statement about the packets registered since the record was made, over every run in which
the link stays in the table. */
module LinkHistory {
  import opened Words
  import opened LinkDb

  /** A packet of this link. */
  predicate About(e: Event, id: Id) { e.Registers? && e.pkg.linkId == id }

  /** The packets of a link among some events. */
  function Packets(es: seq<Event>, id: Id): (h: seq<Event>)
    ensures forall k :: 0 <= k < |h| ==> About(h[k], id)
  {
    if es == [] then []
    else Packets(es[..|es| - 1], id) + (if About(es[|es| - 1], id) then [es[|es| - 1]] else [])
  }

  /** The first event makes the record of the link, and it stays in the table. */
  ghost predicate Stays(m: map<Id, Info>, es: seq<Event>, id: Id) {
    id !in m && es != [] && forall k :: 1 <= k <= |es| ==> id in OnMapAll(m, es[..k])
  }

  ghost predicate AllPackets(h: seq<Event>) {
    forall k :: 0 <= k < |h| ==> h[k].Registers?
  }

  /** One packet after the other applied to a new record. */
  ghost function Folded(h: seq<Event>): Info
    requires h != [] && AllPackets(h)
  {
    var e := h[|h| - 1];
    Updated(if |h| == 1 then Fresh(e.pkg, e.dir, e.now) else Folded(h[..|h| - 1]),
            e.pkg, e.dir, e.mac, e.mtu, e.updateMtu, e.unicast, e.now)
  }

  /** What an event means for one link that is in the table after it. */
  lemma OneEvent(m: map<Id, Info>, e: Event, id: Id)
    requires id in OnMap(m, e)
    ensures if About(e, id)
            then OnMap(m, e)[id] == Updated(if id in m then m[id] else Fresh(e.pkg, e.dir, e.now),
                                            e.pkg, e.dir, e.mac, e.mtu, e.updateMtu, e.unicast, e.now)
            else id in m && OnMap(m, e)[id] == m[id]
  {
    hide Updated, Fresh, Expired;
  }

  lemma StaysBefore(m: map<Id, Info>, es: seq<Event>, id: Id)
    requires Stays(m, es, id) && |es| > 1
    ensures Stays(m, es[..|es| - 1], id)
  {
    hide OnMapAll;
    var pre := es[..|es| - 1];
    forall k | 1 <= k <= |pre| ensures id in OnMapAll(m, pre[..k]) {
      assert pre[..k] == es[..k];
    }
  }

  lemma FoldedNext(h: seq<Event>, e: Event)
    requires AllPackets(h) && e.Registers?
    ensures AllPackets(h + [e])
    ensures Folded(h + [e]) == Updated(if h == [] then Fresh(e.pkg, e.dir, e.now) else Folded(h),
                                       e.pkg, e.dir, e.mac, e.mtu, e.updateMtu, e.unicast, e.now)
  {
    hide Updated, Fresh;
    assert (h + [e])[..|h|] == h;
  }

  /** The record is the fold of its packets, whatever happens to other links. */
  lemma {:induction false} RecordIsFold(m: map<Id, Info>, es: seq<Event>, id: Id)
    requires Stays(m, es, id)
    ensures Packets(es, id) != [] && id in OnMapAll(m, es) && OnMapAll(m, es)[id] == Folded(Packets(es, id))
    decreases |es|
  {
    hide OnMap, Updated, Fresh, Folded;
    var n := |es| - 1;
    var pre, e := es[..n], es[n];
    assert es[..|es|] == es;
    OneEvent(OnMapAll(m, pre), e, id);
    if n > 0 {
      StaysBefore(m, es, id);
      RecordIsFold(m, pre, id);
    } else {
      assert pre == [];
    }
    if About(e, id) {
      FoldedNext(Packets(pre, id), e);
    } else {
      assert Packets(es, id) == Packets(pre, id);
    }
  }

  // ------------------------------------------------------------------ the state

  predicate Asks(e: Event) { e.Registers? && e.pkg.packetType == LinkRequest && e.dir == Tx }

  predicate Proves(e: Event) {
    e.Registers? && e.pkg.packetType != LinkRequest && (e.pkg.packetType == Proof || e.pkg.isProofContext)
  }

  predicate Opens(e: Event) {
    && e.Registers? && e.pkg.toLink
    && e.pkg.packetType != LinkRequest && e.pkg.packetType != Proof && !e.pkg.isProofContext
  }

  ghost predicate SomeAsks(h: seq<Event>) { exists k :: 0 <= k < |h| && Asks(h[k]) }

  ghost predicate SomeProves(h: seq<Event>) { exists k :: 0 <= k < |h| && Proves(h[k]) }

  ghost predicate SomeOpens(h: seq<Event>) { exists k :: 0 <= k < |h| && Opens(h[k]) }

  lemma SomeNext(h: seq<Event>)
    requires h != []
    ensures var pre, e := h[..|h| - 1], h[|h| - 1];
            && (SomeAsks(h) <==> SomeAsks(pre) || Asks(e))
            && (SomeProves(h) <==> SomeProves(pre) || Proves(e))
            && (SomeOpens(h) <==> SomeOpens(pre) || Opens(e))
  {
    var n := |h| - 1;
    forall k | 0 <= k < n ensures h[..n][k] == h[k] {
    }
    if SomeAsks(h[..n]) {
      var k :| 0 <= k < n && Asks(h[..n][k]);
      assert Asks(h[k]);
    }
    if SomeProves(h[..n]) {
      var k :| 0 <= k < n && Proves(h[..n][k]);
      assert Proves(h[k]);
    }
    if SomeOpens(h[..n]) {
      var k :| 0 <= k < n && Opens(h[..n][k]);
      assert Opens(h[k]);
    }
  }

  lemma {:induction false} FoldedState(h: seq<Event>)
    requires h != [] && AllPackets(h)
    ensures Folded(h).state == if SomeOpens(h) then Open else if SomeProves(h) then ProofReceived
                               else if SomeAsks(h) then RequestSent else Closed
    decreases |h|
  {
    SomeNext(h);
    if |h| > 1 {
      FoldedState(h[..|h| - 1]);
    } else {
      assert h[..0] == [];
    }
  }

  // --------------------------------------------------------------- the counters

  ghost function Indices(h: seq<Event>, dir: Direction): set<nat> {
    set k: nat | k < |h| && h[k].Registers? && h[k].dir == dir
  }

  function Bytes(h: seq<Event>, dir: Direction): nat {
    if h == [] then 0
    else
      var e := h[|h| - 1];
      Bytes(h[..|h| - 1], dir) + (if e.Registers? && e.dir == dir then e.pkg.payloadLen else 0)
  }

  lemma IndicesNext(h: seq<Event>, dir: Direction)
    requires h != []
    ensures var n: nat := |h| - 1;
            |Indices(h, dir)| == |Indices(h[..n], dir)| + if h[n].Registers? && h[n].dir == dir then 1 else 0
  {
    var n: nat := |h| - 1;
    assert Indices(h, dir) == Indices(h[..n], dir) + (if h[n].Registers? && h[n].dir == dir then {n} else {});
  }

  lemma {:induction false} FoldedCounts(h: seq<Event>)
    requires h != [] && AllPackets(h)
    ensures var i := Folded(h);
            && i.rxPackets == |Indices(h, Rx)| && i.txPackets == |Indices(h, Tx)|
            && i.rxBytes == Bytes(h, Rx) && i.txBytes == Bytes(h, Tx)
    decreases |h|
  {
    hide NextState, Indices;
    IndicesNext(h, Rx);
    IndicesNext(h, Tx);
    if |h| > 1 {
      FoldedCounts(h[..|h| - 1]);
    } else {
      assert h[..0] == [];
      assert Indices([], Rx) == {} && Indices([], Tx) == {} by {
        NoIndices();
      }
    }
  }

  lemma NoIndices()
    ensures Indices([], Rx) == {} && Indices([], Tx) == {}
  {
  }

  // ------------------------------------------------------------ times and values

  /** Packet k is the last one in its direction. */
  ghost predicate LastOf(h: seq<Event>, k: int, dir: Direction) {
    && 0 <= k < |h| && h[k].Registers? && h[k].dir == dir
    && forall j :: k < j < |h| && h[j].Registers? ==> h[j].dir != dir
  }

  /** Packet k is the last one that brought an MTU. */
  ghost predicate LastMtu(h: seq<Event>, k: int) {
    && 0 <= k < |h| && h[k].Registers? && h[k].updateMtu
    && forall j :: k < j < |h| && h[j].Registers? ==> !h[j].updateMtu
  }

  /** The time kept for a direction is that of the last packet that way, 0 if there is none. */
  ghost predicate TimeFits(t: int, h: seq<Event>, dir: Direction) {
    && (forall k :: LastOf(h, k, dir) ==> t == h[k].now)
    && ((forall k :: !LastOf(h, k, dir)) ==> t == 0)
  }

  lemma TimeNext(t: int, h: seq<Event>, dir: Direction)
    requires h != [] && AllPackets(h) && TimeFits(t, h[..|h| - 1], dir)
    ensures TimeFits(if h[|h| - 1].dir == dir then h[|h| - 1].now else t, h, dir)
  {
    var n := |h| - 1;
    LastNext(h);
    if h[n].dir == dir {
      assert LastOf(h, n, dir);
    } else {
      forall k ensures LastOf(h, k, dir) <==> LastOf(h[..n], k, dir) {
      }
    }
  }

  lemma {:induction false} FoldedTimes(h: seq<Event>)
    requires h != [] && AllPackets(h)
    ensures TimeFits(Folded(h).lastRx, h, Rx) && TimeFits(Folded(h).lastTx, h, Tx)
    decreases |h|
  {
    hide NextState, TimeFits;
    var n := |h| - 1;
    if n > 0 {
      FoldedTimes(h[..n]);
      TimeNext(Folded(h[..n]).lastRx, h, Rx);
      TimeNext(Folded(h[..n]).lastTx, h, Tx);
    } else {
      NoTimes(h[..0]);
      TimeNext(0, h, Rx);
      TimeNext(0, h, Tx);
    }
  }

  lemma NoTimes(h: seq<Event>)
    requires h == []
    ensures TimeFits(0, h, Rx) && TimeFits(0, h, Tx)
  {
  }

  /** What the first packet, the last one and the last with an MTU leave. */
  ghost predicate ValuesFit(i: Info, h: seq<Event>)
    requires h != [] && AllPackets(h)
  {
    && i.destination == h[0].pkg.destination && i.firstSeen == h[0].now && i.hops == h[|h| - 1].pkg.hops
    && (forall k :: LastMtu(h, k) ==> i.mtu == h[k].mtu)
    && ((forall k :: !LastMtu(h, k)) ==> i.mtu == 0)
  }

  lemma {:induction false} FoldedValues(h: seq<Event>)
    requires h != [] && AllPackets(h)
    ensures ValuesFit(Folded(h), h)
    decreases |h|
  {
    hide NextState;
    var n := |h| - 1;
    LastNext(h);
    if h[n].updateMtu {
      assert LastMtu(h, n);
    } else {
      forall k ensures LastMtu(h, k) <==> LastMtu(h[..n], k) {
      }
    }
    if n > 0 {
      var pre := h[..n];
      assert pre[0] == h[0];
      FoldedValues(pre);
    }
  }

  lemma LastNext(h: seq<Event>)
    requires h != [] && AllPackets(h)
    ensures var n := |h| - 1;
            && (forall k, dir :: LastOf(h, k, dir) <==> if h[n].dir == dir then k == n else LastOf(h[..n], k, dir))
            && (forall k :: LastMtu(h, k) <==> if h[n].updateMtu then k == n else LastMtu(h[..n], k))
  {
    var n := |h| - 1;
    forall k | 0 <= k < n ensures h[..n][k] == h[k] {
    }
  }

  // ---------------------------------------------------------------- the address

  predicate Teaches(e: Event) { e.Registers? && e.mac.Some? }

  /** The last packet addressed to this node that carried an address; -1 if there is none. */
  ghost predicate LastSure(h: seq<Event>, u: int) {
    && -1 <= u < |h| && (u >= 0 ==> Teaches(h[u]) && h[u].unicast)
    && forall j :: u < j < |h| && Teaches(h[j]) ==> !h[j].unicast
  }

  /** The first packet behind u with a proper address; |h| if there is none. */
  ghost predicate FirstProper(h: seq<Event>, u: int, k: int) {
    && -1 <= u < k <= |h| && (k < |h| ==> Teaches(h[k]) && h[k].mac.value != UNKNOWN)
    && forall j :: u < j < k && Teaches(h[j]) ==> h[j].mac.value == UNKNOWN
  }

  /** The address kept is that of the last packet addressed to this node; without one, or if
      that address is no proper one, the first proper address heard since. */
  lemma {:induction false} FoldedMac(h: seq<Event>, u: int, k: int)
    requires h != [] && AllPackets(h) && LastSure(h, u) && FirstProper(h, u, k)
    ensures Folded(h).mac == if u >= 0 && h[u].mac.value != UNKNOWN then h[u].mac.value
                             else if k < |h| then h[k].mac.value else UNKNOWN
    decreases |h|
  {
    hide NextState, Counted;
    var n := |h| - 1;
    var e := h[n];
    forall j | 0 <= j < n ensures h[..n][j] == h[j] {
    }
    FreshMac(e.pkg, e.dir, e.now);
    CountedMac(if n == 0 then Fresh(e.pkg, e.dir, e.now) else Folded(h[..n]), e.pkg, e.dir, e.now);
    if n > 0 && u < n {
      FoldedMac(h[..n], u, if k < n then k else n);
    }
  }

  lemma FreshMac(pkg: Packet, dir: Direction, now: int)
    ensures Fresh(pkg, dir, now).mac == UNKNOWN
  {
  }

  lemma CountedMac(i: Info, pkg: Packet, dir: Direction, now: int)
    ensures Counted(i, pkg, dir, now).mac == i.mac
  {
  }

  // ------------------------------------------------------------------ over runs

  /** The state of a link, over every run in which it stays in the table: open if and only if
      a packet addressed to it was neither request nor proof; else proven if and only if a
      packet other than a request was a proof; else requested if and only if a request was
      sent. */
  lemma StateTold(m: map<Id, Info>, es: seq<Event>, id: Id)
    requires Stays(m, es, id)
    ensures id in OnMapAll(m, es)
    ensures var h := Packets(es, id);
            OnMapAll(m, es)[id].state ==
              if exists k :: 0 <= k < |h| && Opens(h[k]) then Open
              else if exists k :: 0 <= k < |h| && Proves(h[k]) then ProofReceived
              else if exists k :: 0 <= k < |h| && Asks(h[k]) then RequestSent
              else Closed
  {
    hide OnMapAll, Packets, Folded;
    RecordIsFold(m, es, id);
    FoldedState(Packets(es, id));
  }

  /** The counters are the numbers and the bytes of the packets each way. */
  ghost predicate CountsFit(i: Info, h: seq<Event>) {
    && i.rxPackets == |Indices(h, Rx)| && i.txPackets == |Indices(h, Tx)|
    && i.rxBytes == Bytes(h, Rx) && i.txBytes == Bytes(h, Tx)
  }

  ghost predicate MacFits(mac: Mac, h: seq<Event>) {
    forall u, k :: LastSure(h, u) && FirstProper(h, u, k) ==>
      mac == if u >= 0 && h[u].mac.value != UNKNOWN then h[u].mac.value
             else if k < |h| then h[k].mac.value else UNKNOWN
  }

  /** Its counters, times, address and the rest, over the same runs. */
  lemma ValuesTold(m: map<Id, Info>, es: seq<Event>, id: Id)
    requires Stays(m, es, id)
    ensures id in OnMapAll(m, es) && Packets(es, id) != []
    ensures var i, h := OnMapAll(m, es)[id], Packets(es, id);
            && CountsFit(i, h) && ValuesFit(i, h) && MacFits(i.mac, h)
            && TimeFits(i.lastRx, h, Rx) && TimeFits(i.lastTx, h, Tx)
  {
    hide OnMapAll, Packets, Folded, Indices, Bytes, TimeFits, ValuesFit;
    RecordIsFold(m, es, id);
    var h := Packets(es, id);
    FoldedCounts(h);
    FoldedValues(h);
    FoldedTimes(h);
    forall u, k | LastSure(h, u) && FirstProper(h, u, k)
      ensures Folded(h).mac == if u >= 0 && h[u].mac.value != UNKNOWN then h[u].mac.value
                               else if k < |h| then h[k].mac.value else UNKNOWN
    {
      FoldedMac(h, u, k);
    }
  }

  /** Packets of this link come with a clock that started and does not go back. */
  ghost predicate Clocked(h: seq<Event>) {
    && (forall k :: 0 <= k < |h| && h[k].Registers? ==> 0 < h[k].now)
    && (forall j, k :: 0 <= j < k < |h| && h[j].Registers? && h[k].Registers? ==> h[j].now <= h[k].now)
  }

  /** A sweep drops a link if and only if its last packet was more than 900 seconds ago. */
  lemma SweptIff(m: map<Id, Info>, es: seq<Event>, id: Id, now: int)
    requires Stays(m, es, id) && Clocked(Packets(es, id))
    ensures Packets(es, id) != []
    ensures var h := Packets(es, id);
            id in OnMap(OnMapAll(m, es), Sweeps(now)) <==> now - h[|h| - 1].now <= 900
  {
    hide OnMapAll, Packets, Folded;
    RecordIsFold(m, es, id);
    LastActivityTold(Packets(es, id));
  }

  lemma LastActivityTold(h: seq<Event>)
    requires h != [] && AllPackets(h) && Clocked(h)
    ensures LastActivity(Folded(h)) == h[|h| - 1].now
  {
    hide Folded;
    FoldedTimes(h);
    var n := |h| - 1;
    var dir, other := h[n].dir, if h[n].dir == Rx then Tx else Rx;
    assert LastOf(h, n, dir);
    if k :| LastOf(h, k, other) {
      assert h[k].now <= h[n].now;
    }
  }
}

/** Fragments in any order.  A part is copied behind the earlier parts that are already
there, so a part that overtakes an earlier one is copied too far forward, and the place
it belongs to keeps whatever the buffer held before. */
module FragOrder {
  import opened Words
  import opened Frag

  /** The parts of a payload: all full but the last. */
  ghost predicate Cut(parts: seq<Packet>) {
    && 0 < |parts| <= PARTS
    && (forall i :: 0 <= i < |parts| ==> 0 < |parts[i]| <= PART)
    && (forall i :: 0 <= i < |parts| - 1 ==> |parts[i]| == PART)
  }

  /** Every part once, in some order. */
  ghost predicate Order(order: seq<nat>, n: nat) {
    && |order| == n
    && (forall k :: 0 <= k < n ==> order[k] < n)
    && (forall j, k :: 0 <= j < k < n ==> order[j] != order[k])
    && (forall i :: 0 <= i < n ==> i in order)
  }

  function Ascending(n: nat): (r: seq<nat>)
    ensures |r| == n && forall k :: 0 <= k < n ==> r[k] == k
  {
    seq(n, k => k)
  }

  /** A record just started for n parts. */
  ghost predicate Fresh(s: State, n: nat) {
    Proper(s) && s.active && s.total == n && s.received == 0 && s.part == NO_PARTS
  }

  ghost predicate Within(order: seq<nat>, n: nat) {
    forall k :: 0 <= k < |order| ==> order[k] < n
  }

  ghost function StoredAll(s: State, parts: seq<Packet>, order: seq<nat>): (t: State)
    requires Proper(s) && Within(order, |parts|)
    ensures Proper(t)
  {
    if order == [] then s
    else
      var i := order[|order| - 1];
      Stored(StoredAll(s, parts, order[..|order| - 1]), i, parts[i])
  }

  /** How many of the parts below i are among those given. */
  function Below(done: seq<nat>, i: nat): nat {
    if i == 0 then 0 else Below(done, i - 1) + if i - 1 in done then 1 else 0
  }

  lemma {:induction false} BelowBound(done: seq<nat>, i: nat)
    ensures Below(done, i) <= i
    ensures Below(done, i) == i <==> forall j :: 0 <= j < i ==> j in done
  {
    if i > 0 {
      BelowBound(done, i - 1);
    }
  }

  /** The place the k-th arrival is copied to, counted in parts. */
  function Place(order: seq<nat>, k: nat): nat
    requires k < |order|
  {
    Below(order[..k], order[k])
  }

  // --------------------------------------------------------- what is where

  /** The record after some of the arrivals. */
  ghost predicate Tracks(t: State, parts: seq<Packet>, done: seq<nat>) {
    && Proper(t) && t.total == |parts| && t.received == |done|
    && forall i :: 0 <= i < PARTS ==> t.part[i] == if i in done && i < |parts| then |parts[i]| else 0
  }

  lemma {:induction false} SumBelow(t: State, parts: seq<Packet>, done: seq<nat>, i: nat)
    requires Cut(parts) && Tracks(t, parts, done) && i < |parts|
    ensures Sum(t.part[..i]) == Below(done, i) * PART
  {
    hide Sum, Proper;
    TrackedSize(t, parts, done);
    SumNext(t.part, i);
    if i > 0 {
      SumBelow(t, parts, done, i - 1);
      SumNext(t.part, i - 1);
    }
  }

  lemma TrackedSize(t: State, parts: seq<Packet>, done: seq<nat>)
    requires Tracks(t, parts, done)
    ensures Proper(t) && |t.part| == PARTS && |t.buf| == ROOM
  {
  }

  /** One more arrival: where it goes and what it leaves alone. */
  lemma StoresNext(t: State, parts: seq<Packet>, done: seq<nat>, i: nat)
    requires Cut(parts) && Tracks(t, parts, done) && i < |parts| && i !in done
    ensures Proper(t)
    ensures var u, off := Stored(t, i, parts[i]), Below(done, i) * PART;
            && Tracks(u, parts, done + [i])
            && off + |parts[i]| <= ROOM && |t.buf| == ROOM && u.buf == Placed(t.buf, off, parts[i])
  {
    hide Sum, Placed, Below;
    SumBelow(t, parts, done, i);
    SumBound(t.part[..i]);
    assert Storable(t, i, parts[i]);
  }

  lemma FreshTracks(s: State, parts: seq<Packet>)
    requires Fresh(s, |parts|)
    ensures Tracks(s, parts, [])
  {
  }

  /** A part that is there already changes nothing, in any order: repeats can be left out. */
  lemma RepeatChangesNothing(t: State, parts: seq<Packet>, done: seq<nat>, i: nat)
    requires Cut(parts) && Tracks(t, parts, done) && i in done && i < |parts|
    ensures Proper(t) && Stored(t, i, parts[i]) == t
  {
  }

  lemma {:induction false} AllTracked(s: State, parts: seq<Packet>, order: seq<nat>, k: nat)
    requires Cut(parts) && Fresh(s, |parts|) && Order(order, |parts|) && k <= |order|
    ensures Within(order[..k], |parts|)
    ensures Tracks(StoredAll(s, parts, order[..k]), parts, order[..k])
  {
    hide Stored, Tracks, Cut, Placed, Below;
    if k == 0 {
      FreshTracks(s, parts);
    } else {
      AllTracked(s, parts, order, k - 1);
      assert order[..k][..k - 1] == order[..k - 1] && order[..k] == order[..k - 1] + [order[k - 1]];
      StoresNext(StoredAll(s, parts, order[..k - 1]), parts, order[..k - 1], order[k - 1]);
    }
  }

  /** A place no arrival is copied to keeps its bytes. */
  lemma {:induction false} Untouched(s: State, parts: seq<Packet>, order: seq<nat>, k: nat, q: nat)
    requires Cut(parts) && Fresh(s, |parts|) && Order(order, |parts|) && k <= |order| && q < PARTS
    requires forall m :: 0 <= m < |order| ==> Place(order, m) != q
    ensures Within(order[..k], |parts|)
    ensures |s.buf| == ROOM && StoredAll(s, parts, order[..k]).buf[q * PART] == s.buf[q * PART]
  {
    hide Stored, Below, Placed;
    if k > 0 {
      Untouched(s, parts, order, k - 1, q);
      AllTracked(s, parts, order, k - 1);
      assert order[..k][..k - 1] == order[..k - 1];
      var t, i := StoredAll(s, parts, order[..k - 1]), order[k - 1];
      assert i !in order[..k - 1];
      StoresNext(t, parts, order[..k - 1], i);
      assert Place(order, k - 1) != q;
      PlacedElsewhere(t.buf, Below(order[..k - 1], i), parts[i], q);
    }
  }

  lemma PlacedElsewhere(buf: Packet, at: nat, p: Packet, q: nat)
    requires |buf| == ROOM && 0 < |p| <= PART && at * PART + |p| <= ROOM && q < PARTS && q != at
    ensures Placed(buf, at * PART, p)[q * PART] == buf[q * PART]
  {
  }

  // ------------------------------------------------- an order with a gap

  /** Arrival k overtook an earlier part. */
  predicate Early(order: seq<nat>, k: nat)
    requires k < |order|
  {
    Place(order, k) < order[k]
  }

  /** Among the first k arrivals, the highest part that came early, if one did. */
  ghost function HighestEarly(order: seq<nat>, k: nat): (r: Option<nat>)
    requires k <= |order|
    ensures r.Some? ==> r.value < k && Early(order, r.value)
    ensures forall m :: 0 <= m < k && Early(order, m) ==> r.Some? && order[m] <= order[r.value]
  {
    if k == 0 then None
    else
      var r := HighestEarly(order, k - 1);
      if Early(order, k - 1) && (r.None? || order[r.value] < order[k - 1]) then Some(k - 1) else r
  }

  function At(order: seq<nat>, k: nat): int {
    if k < |order| then order[k] else -1
  }

  /** If none came early the parts came in order. */
  lemma {:induction false} NoneEarly(order: seq<nat>, n: nat, k: nat)
    requires Order(order, n) && k <= n && forall m :: 0 <= m < n ==> !Early(order, m)
    ensures order[..k] == Ascending(k)
  {
    if k > 0 {
      var m := k - 1;
      NoneEarly(order, n, m);
      BelowBound(order[..m], order[m]);
      assert !Early(order, m);
      var before := Ascending(m);
      var x := order[m];
      assert x > m ==> m in before;
      assert x < m ==> At(order, x) == x;
      assert order[..k] == order[..m] + [order[m]];
    }
  }

  /** Any other order leaves a place nothing is copied to: that of the highest part that
      came early. */
  lemma Gap(order: seq<nat>, n: nat) returns (q: nat)
    requires Order(order, n) && order != Ascending(n)
    ensures q < n && forall m :: 0 <= m < n ==> Place(order, m) != q
  {
    hide Place;
    var r := HighestEarly(order, n);
    assert r.Some? by {
      if r.None? {
        NoneEarly(order, n, n);
      }
      assert order[..n] == order;
    }
    q := order[r.value];
    forall m | 0 <= m < n ensures Place(order, m) != q {
      PlaceBound(order, m);
    }
  }

  lemma PlaceBound(order: seq<nat>, m: nat)
    requires m < |order|
    ensures Place(order, m) <= order[m]
  {
    BelowBound(order[..m], order[m]);
  }

  // ------------------------------------------------------ the exact condition

  /** A part's bytes are in its place. */
  ghost predicate Sits(buf: Packet, i: nat, p: Packet) {
    i * PART + |p| <= |buf| && buf[i * PART..i * PART + |p|] == p
  }

  /** The bytes of every part are in their place. */
  ghost predicate Intact(buf: Packet, parts: seq<Packet>) {
    forall i :: 0 <= i < |parts| ==> Sits(buf, i, parts[i])
  }

  /** In order, every part lands in its place and stays there. */
  lemma {:induction false} AscendingIntact(s: State, parts: seq<Packet>, k: nat)
    requires Cut(parts) && Fresh(s, |parts|) && k <= |parts|
    ensures Within(Ascending(|parts|)[..k], |parts|)
    ensures var t := StoredAll(s, parts, Ascending(|parts|)[..k]);
            forall i :: 0 <= i < k ==> Sits(t.buf, i, parts[i])
  {
    hide Stored, Placed, Sits, Below;
    if k > 0 {
      var order, m := Ascending(|parts|), k - 1;
      var pre := order[..m];
      AscendingOrder(|parts|);
      AscendingIntact(s, parts, m);
      AllTracked(s, parts, order, m);
      assert order[..k][..m] == pre;
      var t := StoredAll(s, parts, pre);
      AscendingBelow(|parts|, m);
      StoresNext(t, parts, pre, m);
      forall i | 0 <= i < k ensures Sits(Placed(t.buf, m * PART, parts[m]), i, parts[i]) {
        PlacedBehind(t.buf, m, parts[m], i, parts[i]);
      }
    }
  }

  lemma AscendingBelow(n: nat, m: nat)
    requires m < n
    ensures m !in Ascending(n)[..m] && Below(Ascending(n)[..m], m) == m
  {
    var pre := Ascending(n)[..m];
    BelowBound(pre, m);
    forall j | 0 <= j < m ensures j in pre {
      assert pre[j] == j;
    }
  }

  lemma AscendingOrder(n: nat)
    ensures Order(Ascending(n), n)
  {
    forall i | 0 <= i < n ensures i in Ascending(n) {
      assert Ascending(n)[i] == i;
    }
  }

  lemma PlacedBehind(buf: Packet, at: nat, p: Packet, i: nat, q: Packet)
    requires |buf| == ROOM && at * PART + |p| <= ROOM && i <= at && |q| <= PART
    requires if i == at then q == p else Sits(buf, i, q)
    ensures Sits(Placed(buf, at * PART, p), i, q)
  {
    var r := Placed(buf, at * PART, p);
    assert r[..at * PART] == buf[..at * PART];
    if i < at {
      assert r[i * PART..i * PART + |q|] == r[..at * PART][i * PART..i * PART + |q|];
      assert buf[i * PART..i * PART + |q|] == buf[..at * PART][i * PART..i * PART + |q|];
    }
  }

  ghost predicate IntactFrom(s: State, buf: Packet, parts: seq<Packet>, order: seq<nat>)
    requires |buf| == ROOM && Proper(s) && Cut(parts) && Within(order, |parts|)
  {
    Intact(StoredAll(s.(buf := buf), parts, order).buf, parts)
  }

  lemma OrderBound(order: seq<nat>, n: nat)
    requires Order(order, n)
    ensures Within(order, n)
  {
  }

  /** Whatever order the parts of a packet come in, the record counts as complete when all
      are there; and it is intact, whatever the buffer held before, if and only if they came
      in order.  This holds for each payload by itself. */
  lemma IntactIffInOrder(s: State, parts: seq<Packet>, order: seq<nat>)
    requires Cut(parts) && Fresh(s, |parts|) && Order(order, |parts|)
    ensures Within(order, |parts|)
    ensures StoredAll(s, parts, order).received == StoredAll(s, parts, order).total
    ensures (forall buf: Packet :: |buf| == ROOM ==> IntactFrom(s, buf, parts, order)) <==> order == Ascending(|parts|)
  {
    hide StoredAll, Fresh, Cut, Stored;
    var n := |parts|;
    OrderBound(order, n);
    FreshProper(s, n);
    Complete(s, parts, order);
    if order == Ascending(n) {
      forall buf: Packet | |buf| == ROOM ensures IntactFrom(s, buf, parts, order) {
        InOrderIntact(s, buf, parts);
      }
    } else {
      var q := Gap(order, n);
      GapShows(s, parts, order, q);
    }
  }

  lemma Complete(s: State, parts: seq<Packet>, order: seq<nat>)
    requires Cut(parts) && Fresh(s, |parts|) && Order(order, |parts|)
    ensures Within(order, |parts|)
    ensures StoredAll(s, parts, order).received == StoredAll(s, parts, order).total == |parts|
  {
    AllTracked(s, parts, order, |parts|);
    assert order[..|parts|] == order;
  }

  lemma FreshWith(s: State, n: nat, buf: Packet)
    requires Fresh(s, n) && |buf| == ROOM
    ensures Fresh(s.(buf := buf), n)
  {
  }

  lemma InOrderIntact(s: State, buf: Packet, parts: seq<Packet>)
    requires Cut(parts) && Fresh(s, |parts|) && |buf| == ROOM
    ensures Within(Ascending(|parts|), |parts|)
    ensures IntactFrom(s, buf, parts, Ascending(|parts|))
  {
    hide StoredAll;
    FreshWith(s, |parts|, buf);
    AscendingIntact(s.(buf := buf), parts, |parts|);
    assert Ascending(|parts|)[..|parts|] == Ascending(|parts|);
  }

  /** A buffer that differs from the payload in the gap shows it. */
  lemma GapShows(s: State, parts: seq<Packet>, order: seq<nat>, q: nat)
    requires Cut(parts) && Fresh(s, |parts|) && Order(order, |parts|) && q < |parts|
    requires forall m :: 0 <= m < |order| ==> Place(order, m) != q
    ensures Within(order, |parts|)
    ensures exists buf: Packet :: |buf| == ROOM && !IntactFrom(s, buf, parts, order)
  {
    hide StoredAll, Place;
    OrderBound(order, |parts|);
    var buf: Packet := s.buf[q * PART := (parts[q][0] as int + 1) % 256];
    FreshWith(s, |parts|, buf);
    Untouched(s.(buf := buf), parts, order, |order|, q);
    assert order[..|order|] == order;
    var t := StoredAll(s.(buf := buf), parts, order);
    assert t.buf[q * PART..q * PART + |parts[q]|][0] == t.buf[q * PART];
    assert !Sits(t.buf, q, parts[q]);
    assert !IntactFrom(s, buf, parts, order);
  }

  // ------------------------------------------------------------- on the payload

  /** The parts a payload is cut into. */
  function Parts(data: Packet): (parts: seq<Packet>)
    requires PART < |data| <= ROOM
    ensures |parts| == Count(|data|)
  {
    seq(Count(|data|), i requires 0 <= i < Count(|data|) => CountBounds(data, i); PartOf(data, i))
  }

  lemma PartsCut(data: Packet)
    requires PART < |data| <= ROOM
    ensures Cut(Parts(data))
    ensures forall i :: 0 <= i < Count(|data|) ==>
              i * PART + |Parts(data)[i]| <= |data| && Parts(data)[i] == data[i * PART..i * PART + |Parts(data)[i]|]
  {
    CountTwo(data);
    forall i | 0 <= i < Count(|data|)
      ensures 0 < |Parts(data)[i]| <= PART && (i < Count(|data|) - 1 ==> |Parts(data)[i]| == PART)
      ensures i * PART + |Parts(data)[i]| <= |data| && Parts(data)[i] == data[i * PART..i * PART + |Parts(data)[i]|]
    {
      CountBounds(data, i);
    }
  }

  /** Intact parts are the payload. */
  lemma IntactIsPayload(buf: Packet, data: Packet)
    requires PART < |data| <= ROOM && |buf| == ROOM
    ensures Cut(Parts(data))
    ensures Intact(buf, Parts(data)) <==> buf[..|data|] == data
  {
    hide Parts, Count;
    PartsCut(data);
    var parts := Parts(data);
    if Intact(buf, parts) {
      forall x | 0 <= x < |data| ensures buf[x] == data[x] {
        var i := PartAt(data, x);
        assert Sits(buf, i, parts[i]);
        assert buf[i * PART..i * PART + |parts[i]|][x - i * PART] == parts[i][x - i * PART];
      }
    } else {
      var i :| 0 <= i < |parts| && !Sits(buf, i, parts[i]);
      assert buf[..|data|][i * PART..i * PART + |parts[i]|] == buf[i * PART..i * PART + |parts[i]|];
    }
  }

  /** The part a byte belongs to. */
  lemma PartAt(data: Packet, x: nat) returns (i: nat)
    requires PART < |data| <= ROOM && x < |data|
    ensures i < |Parts(data)| && i * PART <= x < i * PART + |Parts(data)[i]|
  {
    i := x / PART;
    CountBounds(data, i);
  }

  /** The same on the payload: reassembled from any order of its parts it is the payload,
      whatever the buffer held before, if and only if the order is the sender's. */
  lemma PayloadIffInOrder(s: State, data: Packet, order: seq<nat>)
    requires PART < |data| <= ROOM && Fresh(s, Count(|data|)) && Order(order, Count(|data|))
    ensures Within(order, |Parts(data)|)
    ensures (forall buf: Packet :: |buf| == ROOM ==>
            PayloadFrom(s, buf, data, order)) <==> order == Ascending(Count(|data|))
  {
    hide Fresh, Order, StoredAll, Parts, Count, Cut, Intact;
    var parts := Parts(data);
    PartsCut(data);
    OrderBound(order, |parts|);
    IntactIffInOrder(s, parts, order);
    FreshProper(s, |parts|);
    forall buf: Packet | |buf| == ROOM ensures PayloadFrom(s, buf, data, order) <==> IntactFrom(s, buf, parts, order) {
      IntactIsPayload(StoredAll(s.(buf := buf), parts, order).buf, data);
    }
  }

  lemma FreshProper(s: State, n: nat)
    requires Fresh(s, n)
    ensures Proper(s)
  {
  }

  ghost predicate PayloadFrom(s: State, buf: Packet, data: Packet, order: seq<nat>)
    requires PART < |data| <= ROOM && |buf| == ROOM && Proper(s) && Within(order, |Parts(data)|)
  {
    StoredAll(s.(buf := buf), Parts(data), order).buf[..|data|] == data
  }

  // ----------------------------------------------------- through the receiver

  /** Times of arrival, each within the timeout of the one before. */
  ghost predicate Timely(ats: seq<nat>) {
    && (forall k :: 0 <= k < |ats| ==> ats[k] < WRAP32)
    && (forall k :: 0 < k < |ats| ==> ats[k - 1] <= ats[k] <= ats[k - 1] + TIMEOUT)
  }

  lemma StartsFresh(s: State, n: nat, uuid: Byte, at: nat)
    requires Proper(s) && n <= PARTS && (s.active ==> s.uuid != uuid || Sub32(at, s.lastTick) > TIMEOUT)
    ensures Fresh(Begun(s, n, uuid, at), n) && Begun(s, n, uuid, at).uuid == uuid
  {
  }

  /** The record after k arrivals, last heard at some time. */
  ghost predicate Reached(t: State, s: State, parts: seq<Packet>, pre: seq<nat>, uuid: Byte, at: nat)
    requires Proper(s) && Within(pre, |parts|)
  {
    t == StoredAll(s, parts, pre).(lastTick := at) && t.active && t.uuid == uuid
  }

  /** One more fragment on a record that is not complete. */
  lemma TakesOne(t: State, s: State, parts: seq<Packet>, order: seq<nat>, k: nat, uuid: Byte, at: nat, now: nat)
    requires Cut(parts) && Fresh(s, |parts|) && Order(order, |parts|) && k < |parts|
    requires Within(order[..k], |parts|) && Reached(t, s, parts, order[..k], uuid, at)
    requires at <= now <= at + TIMEOUT && now < WRAP32
    ensures Proper(t) && Within(order[..k + 1], |parts|)
    ensures var u := Taken(t, |parts|, order[k], uuid, parts[order[k]], now);
            Reached(u, s, parts, order[..k + 1], uuid, now) && u.received == k + 1 && u.total == |parts|
  {
    hide Cut, Sum, Placed, Tracks;
    AllTracked(s, parts, order, k);
    AllTracked(s, parts, order, k + 1);
    TrackedCount(StoredAll(s, parts, order[..k + 1]), parts, order[..k + 1]);
    assert order[..k + 1][..k] == order[..k];
    assert Begun(t, |parts|, uuid, now) == t;
  }

  lemma TrackedCount(t: State, parts: seq<Packet>, done: seq<nat>)
    requires Tracks(t, parts, done)
    ensures Proper(t) && t.received == |done| && t.total == |parts|
  {
  }

  /** All parts together are as long as the payload. */
  lemma FullLength(s: State, data: Packet, order: seq<nat>)
    requires PART < |data| <= ROOM && Fresh(s, Count(|data|)) && Order(order, Count(|data|))
    ensures Within(order, |Parts(data)|)
    ensures var t := StoredAll(s, Parts(data), order);
            t.total == Count(|data|) <= |t.part| && Sum(t.part[..t.total]) == |data| && |t.buf| == ROOM
  {
    hide Sum, Parts;
    PartsCut(data);
    var parts, n := Parts(data), Count(|data|);
    AllTracked(s, parts, order, n);
    assert order[..n] == order;
    var t := StoredAll(s, parts, order);
    SumBelow(t, parts, order, n - 1);
    BelowBound(order, n - 1);
    SumNext(t.part, n - 1);
    LastLength(data);
  }

  lemma LastLength(data: Packet)
    requires PART < |data| <= ROOM
    ensures Count(|data|) >= 2 && (Count(|data|) - 1) * PART + |Parts(data)[Count(|data|) - 1]| == |data|
  {
    CountTwo(data);
    CountBounds(data, Count(|data|) - 1);
  }

  /** A payload whose parts come in any order, in time, onto a record that is idle, timed
      out or another packet's: something of its length is handed up once, at the last part,
      and it is the record's buffer as the order left it. */
  method DeliverAny(r: Reassembly, data: Packet, uuid: Byte, order: seq<nat>, ats: seq<nat>) returns (ups: seq<Packet>)
    requires Proper(r.View()) && PART < |data| <= ROOM && Count(|data|) <= PARTS
    requires Order(order, Count(|data|)) && |ats| == |order| && Timely(ats) && ats != []
    requires r.active ==> r.uuid != uuid || Sub32(ats[0], r.lastTick) > TIMEOUT
    modifies r, r.buf
    ensures Within(order, |Parts(data)|)
    ensures var s := Begun(old(r.View()), Count(|data|), uuid, ats[0]);
            && |StoredAll(s, Parts(data), order).buf| == ROOM
            && ups == [StoredAll(s, Parts(data), order).buf[..|data|]]
  {
    hide Sum, Stored, Begun, Taken, Fresh, Order, StoredAll, Parts, PartOf, Count, Reached, Proper, Cut, Sub32;
    var n := Count(|data|);
    ghost var s := Begun(r.View(), n, uuid, ats[0]);
    ghost var parts := Parts(data);
    StartsFresh(r.View(), n, uuid, ats[0]);
    PartsCut(data);
    OrderBound(order, n);
    OrderLength(order, n);
    FullLength(s, data, order);
    ups := [];
    for k := 0 to n
      invariant Proper(r.View()) && ups == if k < n then [] else [StoredAll(s, parts, order).buf[..|data|]]
      invariant k == 0 ==> r.View() == old(r.View())
      invariant 0 < k < n ==> Within(order[..k], |parts|) && Reached(r.View(), s, parts, order[..k], uuid, ats[k - 1])
    {
      PartIs(data, order, k);
      ghost var t := Taken(r.View(), n, order[k], uuid, parts[order[k]], ats[k]);
      if k == 0 {
        TakesFirst(r.View(), parts, order, uuid, ats[0]);
      } else {
        TakesOne(r.View(), s, parts, order, k, uuid, ats[k - 1], ats[k]);
      }
      ups := ReceiveFragment(r, data, uuid, order[k], ats[k]);
      if k + 1 == n {
        assert order[..n] == order;
        ReachedAll(t, s, data, order, uuid, ats[k]);
      }
    }
  }

  lemma OrderLength(order: seq<nat>, n: nat)
    requires Order(order, n)
    ensures |order| == n
  {
  }

  lemma PartIs(data: Packet, order: seq<nat>, k: nat)
    requires PART < |data| <= ROOM && Order(order, Count(|data|)) && k < |order|
    ensures var i := order[k];
            i < Count(|data|) && i * PART <= |data| && i < |Parts(data)| && Parts(data)[i] == PartOf(data, i)
  {
    CountBounds(data, order[k]);
  }

  lemma TakesFirst(v: State, parts: seq<Packet>, order: seq<nat>, uuid: Byte, now: nat)
    requires Proper(v) && Cut(parts) && Order(order, |parts|) && |parts| <= PARTS
    requires Fresh(Begun(v, |parts|, uuid, now), |parts|) && Begun(v, |parts|, uuid, now).uuid == uuid
    ensures Within(order[..1], |parts|)
    ensures var s, u := Begun(v, |parts|, uuid, now), Taken(v, |parts|, order[0], uuid, parts[order[0]], now);
            Proper(s) && Reached(u, s, parts, order[..1], uuid, now) && u.received == 1 && u.total == |parts|
  {
    hide Begun, Sum, Placed, Tracks, Cut;
    var s := Begun(v, |parts|, uuid, now);
    CutSome(parts);
    AllTracked(s, parts, order, 1);
    TrackedCount(StoredAll(s, parts, order[..1]), parts, order[..1]);
    assert order[..1][..0] == [];
    assert StoredAll(s, parts, []) == s;
  }

  lemma CutSome(parts: seq<Packet>)
    requires Cut(parts)
    ensures 0 < |parts| <= PARTS
  {
  }

  lemma ReachedAll(t: State, s: State, data: Packet, order: seq<nat>, uuid: Byte, at: nat)
    requires PART < |data| <= ROOM && Fresh(s, Count(|data|)) && Order(order, Count(|data|))
    requires Proper(s) && Within(order, |Parts(data)|) && Reached(t, s, Parts(data), order, uuid, at)
    ensures t.total <= |t.part| && Sum(t.part[..t.total]) == |data| && |t.buf| == ROOM
    ensures t.buf == StoredAll(s, Parts(data), order).buf
  {
    hide Sum, StoredAll, Parts, Fresh, Order;
    FullLength(s, data, order);
  }
}

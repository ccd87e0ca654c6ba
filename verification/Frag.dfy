/** Fragmentation for MCS10: payloads above one radio frame travel in up to eight
parts, each behind [total:4|part:4][uuid], and are put together again as they
arrive. */
module Frag {
  import opened Words

  const HDR := 2                 // HALOW_FRAG_HDR_SIZE
  const PART := 300              // HALOW_FRAG_MAX_PAYLOAD
  const PARTS := 8               // HALOW_FRAG_MAX_TOTAL
  const TIMEOUT := 1000          // HALOW_FRAG_TIMEOUT_MS
  const ROOM := PART * PARTS

  type Packet = seq<Byte>

  // -------------------------------------------------------------------- sending

  function Count(len: nat): nat { (len + PART - 1) / PART }

  /** Part i of a payload. */
  function PartOf(data: Packet, i: nat): Packet
    requires i * PART <= |data|
  {
    data[i * PART..if (i + 1) * PART < |data| then (i + 1) * PART else |data|]
  }

  function Fragment(data: Packet, uuid: Byte, i: nat): Packet
    requires i < Count(|data|) <= PARTS
  {
    [16 * Count(|data|) + i, uuid] + PartOf(data, i)
  }

  /** What goes on the air for a payload; nothing when it is too long. */
  method Split(data: Packet, uuid: Byte) returns (frames: seq<Packet>)
    ensures |data| > ROOM ==> frames == []
    ensures |data| <= PART ==> frames == [[16, uuid] + data]
    ensures PART < |data| <= ROOM ==>
              |frames| == Count(|data|) <= PARTS && forall i :: 0 <= i < |frames| ==>
                  frames[i] == Fragment(data, uuid, i)
  {
    frames := [];
    if |data| > ROOM {
      return;
    }
    if |data| <= PART {
      return [[16, uuid] + data];
    }
    var n := (|data| + PART - 1) / PART;
    var off := 0;
    for i := 0 to n
      invariant off == (if i < n then i * PART else |data|) && |frames| == i
      invariant forall k :: 0 <= k < i ==> frames[k] == Fragment(data, uuid, k)
    {
      var chunk := |data| - off;
      if chunk > PART {
        chunk := PART;
      }
      frames := frames + [[16 * n + i, uuid] + data[off..off + chunk]];
      off := off + chunk;
    }
  }

  // ------------------------------------------------------------------ receiving

  function Sum(part: seq<nat>): nat {
    if part == [] then 0 else Sum(part[..|part| - 1]) + part[|part| - 1]
  }

  /** A buffer with bytes copied in at an offset. */
  function Placed(buf: Packet, off: nat, p: Packet): (r: Packet)
    requires off + |p| <= |buf|
    ensures |r| == |buf|
  {
    buf[..off] + p + buf[off + |p|..]
  }

  const NO_PARTS: seq<nat> := [0, 0, 0, 0, 0, 0, 0, 0]

  /** The reassembly record as a value. */
  datatype State = State(active: bool, uuid: Byte, total: nat, received: nat, lastTick: nat, part: seq<nat>,
                         buf: Packet)

  ghost predicate Proper(s: State) {
    |s.buf| == ROOM && |s.part| == PARTS && s.total <= PARTS && forall k :: 0 <= k < PARTS ==> s.part[k] <= PART
  }

  ghost predicate Storable(s: State, i: nat, p: Packet)
    requires Proper(s)
  {
    i < s.total && 0 < |p| <= PART && s.part[i] == 0
  }

  lemma {:induction false} SumBound(part: seq<nat>)
    requires forall k :: 0 <= k < |part| ==> part[k] <= PART
    ensures Sum(part) <= |part| * PART
  {
    if part != [] {
      SumBound(part[..|part| - 1]);
    }
  }

  /** A part goes behind the parts before it that are already there. */
  ghost function Stored(s: State, i: nat, p: Packet): State
    requires Proper(s)
    ensures Proper(Stored(s, i, p))
  {
    if !Storable(s, i, p) then s
    else
      SumBound(s.part[..i]);
      s.(buf := Placed(s.buf, Sum(s.part[..i]), p), part := s.part[i := |p|], received := s.received + 1)
  }

  /** A record that timed out, or another packet's, is started over. */
  ghost function Begun(s: State, n: nat, id: Byte, now: nat): State
    requires Proper(s) && n <= PARTS
    ensures Proper(Begun(s, n, id, now))
  {
    var s := if s.active && Sub32(now, s.lastTick) > TIMEOUT then s.(active := false) else s;
    if !s.active || s.uuid != id then s.(active := true, uuid := id, total := n, received := 0, part := NO_PARTS) else s
  }

  /** A fragment of a multi-part packet. */
  ghost function Taken(s: State, n: nat, i: nat, id: Byte, p: Packet, now: nat): (t: State)
    requires Proper(s) && n <= PARTS
    ensures Proper(t) && t.total <= |t.part| && |t.buf| == ROOM
  {
    Stored(Begun(s, n, id, now), i, p).(lastTick := now)
  }

  class Reassembly {
    var active: bool
    var uuid: Byte
    var total: nat
    var received: nat
    var lastTick: nat
    var part: seq<nat>
    const buf: array<Byte>

    ghost function View(): State
      reads this, buf
    {
      State(active, uuid, total, received, lastTick, part, buf[..])
    }

    constructor ()
      ensures Proper(View()) && !active && fresh(buf)
      ensures uuid == 0 && total == received == lastTick == 0 && part == NO_PARTS
    {
      active, uuid, total, received, lastTick, part := false, 0, 0, 0, 0, NO_PARTS;
      buf := new Byte[ROOM];
    }

    method Store(i: nat, p: Packet)
      requires Proper(View())
      modifies this`part, this`received, buf
      ensures View() == Stored(old(View()), i, p)
    {
      hide Sum;
      if i >= total || |p| <= 0 || |p| > PART {
        return;
      }
      if part[i] != 0 {
        return;
      }
      SumEmpty();
      var off := 0;
      for k := 0 to i
        invariant part == old(part) && received == old(received) && buf[..] == old(buf[..])
        invariant off == Sum(part[..k]) && 0 <= off <= k * PART
      {
        SumNext(part, k);
        off := off + part[k];
      }
      if off + |p| <= ROOM {
        PlacedNext(old(buf[..]), off, p, 0);
        for k := 0 to |p|
          invariant part == old(part) && received == old(received)
          invariant buf[..] == Placed(old(buf[..]), off, p[..k])
        {
          PlacedNext(old(buf[..]), off, p, k);
          buf[off + k] := p[k];
        }
        assert p[..|p|] == p;
        part := part[i := |p|];
        received := received + 1;
      }
    }

    method Length() returns (len: nat)
      requires Proper(View())
      ensures len == Sum(part[..total]) <= ROOM
    {
      len := 0;
      for k := 0 to total
        invariant len == Sum(part[..k]) && len <= k * PART
      {
        SumNext(part, k);
        len := len + part[k];
      }
    }

    /** One received radio frame; `up` is what is handed to the layer above.  No
        frame, whatever it says, makes a copy leave the buffer. */
    method Receive(frame: Packet, now: nat) returns (up: seq<Packet>)
      requires Proper(View())
      modifies this, buf
      ensures Proper(View())
      ensures |frame| < HDR || frame[0] / 16 == 0 ==> up == [frame] && View() == old(View())
      ensures |frame| >= HDR && frame[0] / 16 == 1 ==> up == [frame[HDR..]] && View() == old(View())
      ensures |frame| >= HDR && frame[0] / 16 > PARTS ==> up == [] && View() == old(View())
      ensures |frame| >= HDR && 2 <= frame[0] / 16 <= PARTS ==>
                var t := Taken(old(View()), frame[0] / 16, frame[0] % 16, frame[1], frame[HDR..], now);
                if t.received != t.total then up == [] && View() == t
                else
                  && View() == t.(active := false)
                  && Sum(t.part[..t.total]) <= ROOM && up == [t.buf[..Sum(t.part[..t.total])]]
    {
      hide Stored, Sum;
      up := [];
      if |frame| < HDR {
        return [frame];
      }
      var n := frame[0] / 16;
      if n == 0 {
        return [frame];
      }
      if n > PARTS {
        return;
      }
      var i, id, p := frame[0] % 16, frame[1], frame[HDR..];
      if n == 1 {
        return [p];
      }
      if active && Sub32(now, lastTick) > TIMEOUT {
        active := false;
      }
      if !active || uuid != id {
        active, uuid, total, received, part := true, id, n, 0, NO_PARTS;
      }
      assert View() == Begun(old(View()), n, id, now);
      Store(i, p);
      lastTick := now;
      if received == total {
        var len := Length();
        up := [buf[..len]];
        active := false;
      }
    }
  }

  // ----------------------------------------------------------------- round trip

  /** The record holds the first m parts of a payload and nothing else. */
  ghost predicate Holding(s: State, data: Packet, uuid: Byte, m: nat) {
    && Proper(s) && s.active && s.uuid == uuid && s.total == Count(|data|) && s.received == m < s.total
    && (forall k :: 0 <= k < PARTS ==> s.part[k] == if k < m then PART else 0)
    && m * PART <= |data| && s.buf[..m * PART] == data[..m * PART]
  }

  lemma {:induction false} SumFull(part: seq<nat>, m: nat)
    requires m <= |part| && forall k :: 0 <= k < m ==> part[k] == PART
    ensures Sum(part[..m]) == m * PART
  {
    if m > 0 {
      SumFull(part, m - 1);
      assert part[..m][..m - 1] == part[..m - 1];
    }
  }

  lemma CountBounds(data: Packet, m: nat)
    requires 0 < |data| <= ROOM && m < Count(|data|)
    ensures m * PART < |data| && Count(|data|) <= PARTS
    ensures if m + 1 == Count(|data|) then |data| <= (m + 1) * PART else (m + 1) * PART < |data|
  {
  }

  lemma PlacedPrefix(buf: Packet, off: nat, p: Packet, data: Packet)
    requires off + |p| <= |buf| && off + |p| <= |data| && buf[..off] == data[..off] && p == data[off..off + |p|]
    ensures Placed(buf, off, p)[..off + |p|] == data[..off + |p|]
  {
    assert data[..off + |p|] == data[..off] + data[off..off + |p|];
  }

  /** The next part in order extends what is held, or completes the payload. */
  lemma TakeNext(s: State, data: Packet, uuid: Byte, m: nat)
    requires Holding(s, data, uuid, m) && 0 < |data| <= ROOM
    ensures m * PART <= |data|
    ensures var t := Stored(s, m, PartOf(data, m));
            if m + 1 < Count(|data|) then Holding(t, data, uuid, m + 1)
            else t.received == t.total && Sum(t.part[..t.total]) == |data| && t.buf[..|data|] == data
  {
    CountBounds(data, m);
    var p := PartOf(data, m);
    SumFull(s.part, m);
    PlacedPrefix(s.buf, m * PART, p, data);
    var t := Stored(s, m, p);
    if m + 1 == Count(|data|) {
      SumNext(t.part, m);
      assert t.part[..m] == s.part[..m];
      assert data[..|data|] == data;
    }
  }

  /** A part that is already there changes nothing. */
  lemma TakeAgain(s: State, data: Packet, uuid: Byte, m: nat, i: nat)
    requires Holding(s, data, uuid, m) && i < m && 0 < |data| <= ROOM
    ensures i * PART <= |data| && Stored(s, i, PartOf(data, i)) == s
  {
    CountBounds(data, m);
  }

  datatype Arrival = Arrival(part: nat, at: nat)

  /** Arrivals in order with repeats: each is the next part or one seen before, within
      the timeout of the one before it; the first completion ends the run. */
  ghost predicate InOrder(xs: seq<Arrival>, m: nat, n: nat, t: nat) {
    xs != [] ==>
      && xs[0].part <= m < n && t <= xs[0].at <= t + TIMEOUT && xs[0].at < WRAP32
      && (if xs[0].part == n - 1 then |xs| == 1
          else InOrder(xs[1..], if xs[0].part == m then m + 1 else m, n, xs[0].at))
  }

  /** Whether the last part is among the arrivals. */
  ghost predicate Completes(xs: seq<Arrival>, n: nat) {
    exists k :: 0 <= k < |xs| && xs[k].part == n - 1
  }

  lemma FragmentFields(data: Packet, uuid: Byte, i: nat)
    requires PART < |data| <= ROOM && i < Count(|data|)
    ensures Count(|data|) <= PARTS
    ensures var f := Fragment(data, uuid, i);
            |f| >= HDR && f[0] / 16 == Count(|data|) >= 2 && f[0] % 16 == i && f[1] == uuid &&
                f[HDR..] == PartOf(data, i)
  {
    CountBounds(data, i);
  }

  lemma CountTwo(data: Packet)
    requires PART < |data| <= ROOM
    ensures 2 <= Count(|data|) <= PARTS
  {
  }

  lemma StartsEmpty(s: State, data: Packet, uuid: Byte, now: nat)
    requires Proper(s) && PART < |data| <= ROOM && Count(|data|) <= PARTS
    requires s.active ==> s.uuid != uuid || Sub32(now, s.lastTick) > TIMEOUT
    ensures Holding(Begun(s, Count(|data|), uuid, now), data, uuid, 0)
  {
    assert forall k :: 0 <= k < PARTS ==> NO_PARTS[k] == 0;
  }

  lemma Continues(s: State, data: Packet, uuid: Byte, m: nat, now: nat)
    requires Holding(s, data, uuid, m) && s.lastTick <= now <= s.lastTick + TIMEOUT && now < WRAP32 &&
            Count(|data|) <= PARTS
    ensures Begun(s, Count(|data|), uuid, now) == s
  {
  }

  lemma HoldingTick(s: State, data: Packet, uuid: Byte, m: nat, at: nat)
    requires Holding(s, data, uuid, m)
    ensures Holding(s.(lastTick := at), data, uuid, m) && s.received != s.total && Proper(s)
  {
  }

  /** A fragment as the sender built it. */
  method ReceiveFragment(r: Reassembly, data: Packet, uuid: Byte, i: nat, now: nat) returns (up: seq<Packet>)
    requires Proper(r.View()) && PART < |data| <= ROOM && i < Count(|data|) <= PARTS && i * PART <= |data|
    modifies r, r.buf
    ensures Proper(r.View())
    ensures var t := Taken(old(r.View()), Count(|data|), i, uuid, PartOf(data, i), now);
            if t.received != t.total then up == [] && r.View() == t
            else Sum(t.part[..t.total]) <= ROOM && up == [t.buf[..Sum(t.part[..t.total])]]
  {
    hide Sum, Taken, Proper, Fragment, PartOf, Count;
    FragmentFields(data, uuid, i);
    up := r.Receive(Fragment(data, uuid, i), now);
  }

  /** A record that holds the first m parts, last heard at some time. */
  ghost predicate Waiting(s: State, data: Packet, uuid: Byte, m: nat, at: nat) {
    Holding(s, data, uuid, m) && s.lastTick == at
  }

  method ReceiveFirst(r: Reassembly, data: Packet, uuid: Byte, now: nat) returns (up: seq<Packet>)
    requires Proper(r.View()) && PART < |data| <= ROOM && Count(|data|) <= PARTS
    requires r.active ==> r.uuid != uuid || Sub32(now, r.lastTick) > TIMEOUT
    modifies r, r.buf
    ensures Proper(r.View()) && up == [] && Waiting(r.View(), data, uuid, 1, now)
  {
    CountTwo(data);
    hide Sum, Stored, Begun, Taken, PartOf, Count, Holding, Sub32, Proper;
    ArrivesFirst(r.View(), data, uuid, now);
    up := ReceiveFragment(r, data, uuid, 0, now);
  }

  /** The next part in order, or one seen before. */
  method ReceiveNext(r: Reassembly, data: Packet, uuid: Byte, ghost m: nat, ghost at: nat, i: nat, now: nat)
    returns (up: seq<Packet>)
    requires Proper(r.View()) && Waiting(r.View(), data, uuid, m, at) && PART < |data| <= ROOM && Count(|data|) <= PARTS
    requires i <= m < Count(|data|) && at <= now <= at + TIMEOUT && now < WRAP32
    modifies r, r.buf
    ensures Proper(r.View())
    ensures if i == Count(|data|) - 1 then up == [data]
            else up == [] && Waiting(r.View(), data, uuid, if i == m then m + 1 else m, now)
  {
    hide Sum, Stored, Begun, Taken, PartOf, Count, Holding, Proper;
    Arrives(r.View(), data, uuid, m, i, now);
    up := ReceiveFragment(r, data, uuid, i, now);
  }

  /** A payload split for MCS10 and delivered in order, with repeats before completion,
      onto a record that is idle, timed out or another packet's, is handed up exactly
      once and intact when its last part arrives, and not before. */
  method Deliver(r: Reassembly, data: Packet, uuid: Byte, xs: seq<Arrival>) returns (ups: seq<Packet>)
    requires Proper(r.View()) && PART < |data| <= ROOM
    requires xs != [] && xs[0].part == 0 && xs[0].at < WRAP32 && InOrder(xs[1..], 1, Count(|data|), xs[0].at)
    requires r.active ==> r.uuid != uuid || Sub32(xs[0].at, r.lastTick) > TIMEOUT
    modifies r, r.buf
    ensures Proper(r.View())
    ensures ups == if Completes(xs, Count(|data|)) then [data] else []
  {
    CountTwo(data);
    hide Waiting, Count, Proper, InOrder, Completes, Sub32;
    ups := ReceiveFirst(r, data, uuid, xs[0].at);
    var n := Count(|data|);
    ghost var m := 1;
    var k := 1;
    while k < |xs|
      invariant 1 <= k <= |xs| && 1 <= m < n && ups == []
      invariant Proper(r.View()) && Waiting(r.View(), data, uuid, m, xs[k - 1].at)
      invariant InOrder(xs[k..], m, n, xs[k - 1].at)
      invariant forall j :: 0 <= j < k ==> xs[j].part != n - 1
    {
      var x := xs[k];
      InOrderHead(xs, k, m, n, xs[k - 1].at);
      ups := ReceiveNext(r, data, uuid, m, xs[k - 1].at, x.part, x.at);
      if x.part == n - 1 {
        CompletesIff(xs, n, k);
        return;
      }
      if x.part == m {
        m := m + 1;
      }
      k := k + 1;
    }
    CompletesIff(xs, n, k);
  }

  /** A payload of one part travels alone and leaves the record as it was. */
  method DeliverShort(r: Reassembly, data: Packet, uuid: Byte, now: nat) returns (ups: seq<Packet>)
    requires Proper(r.View()) && |data| <= PART
    modifies r, r.buf
    ensures ups == [data] && r.View() == old(r.View())
  {
    var frames := Split(data, uuid);
    ups := r.Receive(frames[0], now);
    assert frames[0][HDR..] == data;
  }

  lemma InOrderHead(xs: seq<Arrival>, k: nat, m: nat, n: nat, t: nat)
    requires k < |xs| && InOrder(xs[k..], m, n, t)
    ensures xs[k].part <= m < n && t <= xs[k].at <= t + TIMEOUT && xs[k].at < WRAP32
    ensures if xs[k].part == n - 1 then k + 1 == |xs|
            else InOrder(xs[k + 1..], if xs[k].part == m then m + 1 else m, n, xs[k].at)
  {
    assert xs[k..][0] == xs[k] && xs[k..][1..] == xs[k + 1..];
  }

  lemma CompletesIff(xs: seq<Arrival>, n: nat, k: nat)
    requires k <= |xs| && forall j :: 0 <= j < k ==> xs[j].part != n - 1
    ensures k < |xs| && xs[k].part == n - 1 ==> Completes(xs, n)
    ensures k == |xs| ==> !Completes(xs, n)
  {
  }

  /** The first part starts the record over. */
  lemma ArrivesFirst(s: State, data: Packet, uuid: Byte, at: nat)
    requires Proper(s) && PART < |data| <= ROOM && Count(|data|) <= PARTS
    requires s.active ==> s.uuid != uuid || Sub32(at, s.lastTick) > TIMEOUT
    ensures var t := Taken(s, Count(|data|), 0, uuid, PartOf(data, 0), at);
            Holding(t, data, uuid, 1) && t.received != t.total && t.lastTick == at
  {
    CountTwo(data);
    hide Stored, Begun, PartOf, Count, Holding, Sub32;
    StartsEmpty(s, data, uuid, at);
    var b := Begun(s, Count(|data|), uuid, at);
    TakeNext(b, data, uuid, 0);
    HoldingTick(Stored(b, 0, PartOf(data, 0)), data, uuid, 1, at);
  }

  /** Any later part in order, or again. */
  lemma Arrives(s: State, data: Packet, uuid: Byte, m: nat, i: nat, at: nat)
    requires Holding(s, data, uuid, m) && PART < |data| <= ROOM && Count(|data|) <= PARTS
    requires i <= m < Count(|data|) && s.lastTick <= at <= s.lastTick + TIMEOUT && at < WRAP32
    ensures Proper(s) && i * PART <= |data|
    ensures var t := Taken(s, Count(|data|), i, uuid, PartOf(data, i), at);
            if i == Count(|data|) - 1 then t.received == t.total && Sum(t.part[..t.total]) == |data| &&
                t.buf[..|data|] == data
            else Holding(t, data, uuid, if i == m then m + 1 else m) && t.received != t.total && t.lastTick == at
  {
    HoldingTick(s, data, uuid, m, at);
    CountBounds(data, i);
    hide Sum, Stored, Begun, PartOf, Count, Holding;
    Continues(s, data, uuid, m, at);
    if i == m {
      TakeNext(s, data, uuid, m);
      if m + 1 < Count(|data|) {
        HoldingTick(Stored(s, m, PartOf(data, m)), data, uuid, m + 1, at);
      }
    } else {
      TakeAgain(s, data, uuid, m, i);
    }
  }

  lemma SumEmpty()
    ensures Sum([]) == 0
  {
  }

  lemma SumNext(part: seq<nat>, k: nat)
    requires k < |part|
    ensures Sum(part[..0]) == 0 && Sum(part[..k + 1]) == Sum(part[..k]) + part[k]
  {
    assert part[..k + 1][..k] == part[..k];
  }

  lemma PlacedNext(buf: Packet, off: nat, p: Packet, k: nat)
    requires off + |p| <= |buf| && k < |p|
    ensures Placed(buf, off, p[..0]) == buf
    ensures Placed(buf, off, p[..k])[off + k := p[k]] == Placed(buf, off, p[..k + 1])
  {
  }
}

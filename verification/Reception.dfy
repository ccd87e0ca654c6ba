/** The way of a received package from the radio to the host: the acknowledgement layer
takes its own frames and repeated bundles out, then frames whose content hash it
remembers, and what is left is split and delivered.

One sender is looked at.  The content hash is any function of the package: its value
comes with the package. */
module Reception {
  import opened Words
  import opened SeqWindow
  import opened AckFrame
  import opened Bundle

  const RING := 16               // ACK_DEDUP_WIN

  /** The hashes of the frames accepted last; `at` is overwritten next. */
  datatype Ring = Ring(slots: seq<nat>, at: nat)

  const EMPTY := Ring([0, 0, 0, 0, 0, 0, 0, 0, 0, 0, 0, 0, 0, 0, 0, 0], 0)

  ghost predicate RingOk(r: Ring) { |r.slots| == RING && r.at < RING }

  function Remember(r: Ring, id: nat): Ring {
    if r.at < |r.slots| then Ring(r.slots[r.at := id], (r.at + 1) % RING) else r
  }

  /** What a node keeps about a sender; without a record there is no ring. */
  datatype Sender = Sender(entry: Entry, ring: Ring)

  ghost predicate SenderOk(x: Sender) {
    RingOk(x.ring) && (x.entry.Absent? ==> x.ring == EMPTY)
  }

  /** A bundle the acknowledgement layer accepts. */
  ghost predicate IsBundle(pkg: Payload) {
    IsEnvFrame(pkg) && IsEnvBundle(pkg) && WellFormed(pkg, HDR, pkg[5])
  }

  function SeqOf(pkg: Payload): U16
    requires |pkg| >= HDR
  {
    Le16(pkg[3], pkg[4])
  }

  /** Frames that end in the acknowledgement layer. */
  ghost predicate IsInternal(pkg: Payload) {
    if IsEnvFrame(pkg) then !IsBundle(pkg) else IsFidAck(pkg)
  }

  /** The lookup for a frame addressed to this node: a new record has an empty ring. */
  ghost function LookedFor(x: Sender, h: Hearing): Sender {
    if h.toMe then x.(entry := LookedUp(x.entry, h.room, h.stale)) else x
  }

  /** The hash test is made on frames addressed to this node from a sender with a record. */
  ghost predicate Remembered(x: Sender, h: Hearing, id: nat) {
    h.toMe && LookedFor(x, h).entry.Present? && id in x.ring.slots
  }

  ghost function Screened(x: Sender, h: Hearing, id: nat): Sender {
    var y := LookedFor(x, h);
    if h.toMe && y.entry.Present? && id !in y.ring.slots then y.(ring := Remember(y.ring, id)) else y
  }

  /** The sender's record after a package. */
  ghost function Received(x: Sender, pkg: Payload, h: Hearing, id: nat): Sender {
    if IsInternal(pkg) then x
    else if !IsBundle(pkg) then Screened(x, h, id)
    else
      var y := x.(entry := Recorded(x.entry, SeqOf(pkg), h.undef));
      if IsRepeat(x.entry, SeqOf(pkg)) then y else Screened(y, h, id)
  }

  /** What the host gets: a frame of the layer itself, a repeat, or a frame whose hash is
      remembered yields nothing. */
  ghost function HandedUp(x: Sender, pkg: Payload, h: Hearing, id: nat): seq<Payload> {
    if IsInternal(pkg) || (IsBundle(pkg) && IsRepeat(x.entry, SeqOf(pkg))) then []
    else if Remembered(x, h, id) then []
    else Unbundled(pkg)
  }

  /** The fields of a peer record that reception uses. */
  class Receiver {
    const window: RxPeer
    var dedup: seq<nat>
    var dedupIdx: nat

    ghost predicate Valid()
      reads this, window
    {
      |dedup| == RING && dedupIdx < RING && SenderOk(View())
    }

    ghost function View(): Sender
      reads this, window
    {
      Sender(window.View(), Ring(dedup, dedupIdx))
    }

    constructor ()
      ensures Valid() && fresh(window) && View() == Sender(Absent, EMPTY)
    {
      window := new RxPeer();
      dedup, dedupIdx := EMPTY.slots, EMPTY.at;
    }

    /** rx_env for anything but an acknowledgement, which touches no receive window. */
    method OnEnvelope(pkg: Payload, undef: Word32) returns (consumed: bool)
      requires Valid() && IsEnvFrame(pkg)
      modifies window
      ensures Valid()
      ensures consumed == (!IsBundle(pkg) || IsRepeat(old(View()).entry, SeqOf(pkg)))
      ensures View() == if IsBundle(pkg) then old(View()).(entry := Recorded(old(View()).entry, SeqOf(pkg), undef))
                        else old(View())
    {
      if !IsEnvBundle(pkg) {
        return true;
      }
      var ok := WalkValid(pkg, HDR, pkg[5]);
      if !ok {
        return true;
      }
      consumed := window.Receive(Le16(pkg[3], pkg[4]), undef);
    }

    /** rx_data: look the sender up, then test and remember the hash. */
    method OnData(h: Hearing, id: nat) returns (deliver: bool)
      requires Valid()
      modifies this, window
      ensures Valid() && View() == Screened(old(View()), h, id)
      ensures deliver == !Remembered(old(View()), h, id)
    {
      deliver := true;
      if !h.toMe {
        return;
      }
      window.Lookup(h.room, h.stale);
      if window.inUse {
        var seen := Seen(id);
        if seen {
          deliver := false;
        } else {
          dedup := dedup[dedupIdx := id];
          dedupIdx := (dedupIdx + 1) % RING;
        }
      }
    }

    method Seen(id: nat) returns (seen: bool)
      requires Valid()
      ensures seen == (id in dedup)
    {
      for i := 0 to RING
        invariant forall k :: 0 <= k < i ==> dedup[k] != id
      {
        if dedup[i] == id {
          return true;
        }
      }
      return false;
    }

    method RfToTcp(pkg: Payload, h: Hearing, id: nat) returns (out: seq<Payload>)
      requires Valid()
      modifies this, window
      ensures Valid() && View() == Received(old(View()), pkg, h, id)
      ensures out == HandedUp(old(View()), pkg, h, id)
    {
      hide WellFormed, Recorded, IsRepeat, LookedUp, Unbundled, Screened, Remembered;
      if IsEnvFrame(pkg) {
        var consumed := OnEnvelope(pkg, h.undef);
        if consumed {
          return [];
        }
        RecordedRemembered(old(View()), pkg, h, id);
      } else if IsFidAck(pkg) {
        return [];
      }
      var deliver := OnData(h, id);
      if !deliver {
        return [];
      }
      out := Deliver(pkg);
    }
  }

  /** Recording a number does not touch the hash test. */
  lemma RecordedRemembered(x: Sender, pkg: Payload, h: Hearing, id: nat)
    requires |pkg| >= HDR
    ensures Remembered(x.(entry := Recorded(x.entry, SeqOf(pkg), h.undef)), h, id) == Remembered(x, h, id)
  {
  }

  /** A bundle as a sender seals it hands up exactly its payloads, unless it is a repeat or
      its hash is remembered. */
  lemma BundleHandedUp(x: Sender, wire: Payload, seq16: U16, ps: seq<Payload>, h: Hearing, id: nat)
    requires 0 < |ps| <= MAX_SUB && wire == Encode(seq16, ps)
    ensures HandedUp(x, wire, h, id) == if IsRepeat(x.entry, seq16) || Remembered(x, h, id) then [] else ps
    ensures Received(x, wire, h, id) ==
              (var y := x.(entry := Recorded(x.entry, seq16, h.undef));
               if IsRepeat(x.entry, seq16) then y else Screened(y, h, id))
  {
    hide WellFormed, Recorded, IsRepeat, Unbundled, Body, Screened, Remembered;
    RoundTrip(wire, seq16, ps);
  }

  /** A bundle by its bytes: version 1, type 0, and its number of subframes. */
  ghost predicate Holds(pkg: Payload, seq16: U16, ps: seq<Payload>) {
    && |pkg| >= 8 && pkg[0] == 0xA5 && pkg[1] == 0x5A && pkg[2] == 0x10
    && pkg[3] as int + 256 * pkg[4] as int == seq16 && |ps| == pkg[5] && pkg[6..] == Body(ps)
  }

  /** What reaches the host, by the bytes of a frame whose hash is not remembered: the
      payloads of a bundle that is no repeat; nothing of any other envelope or of a list of
      ids; and any other frame as it is. */
  lemma HandedUpByBytes(x: Sender, pkg: Payload, h: Hearing, id: nat)
    requires !Remembered(x, h, id)
    ensures var out := HandedUp(x, pkg, h, id);
            if |pkg| < 3 || pkg[0] != 0xA5 || pkg[1] != 0x5A then out == [pkg]
            else if pkg[2] >= 0x80 then out == if 5 <= |pkg| <= 35 && |pkg| % 2 == 1 then [] else [pkg]
            else out == [] || exists seq16 :: Holds(pkg, seq16, out) && !IsRepeat(x.entry, seq16)
    ensures forall seq16, ps :: Holds(pkg, seq16, ps) && !IsRepeat(x.entry, seq16) ==> HandedUp(x, pkg, h, id) == ps
  {
    hide Body, IsRepeat, Remembered;
    if |pkg| >= 8 && pkg[0] == 0xA5 && pkg[1] == 0x5A && pkg[2] == 0x10 {
      var out := HandedUp(x, pkg, h, id);
      assert SeqOf(pkg) as int == pkg[3] as int + 256 * pkg[4] as int;
      assert out != [] ==> Holds(pkg, SeqOf(pkg), out);
      forall seq16, ps | Holds(pkg, seq16, ps) && !IsRepeat(x.entry, seq16) ensures HandedUp(x, pkg, h, id) == ps {
        assert WellFormed(pkg, HDR, pkg[5]);
        BodyInjective(ps, Unbundled(pkg));
      }
    }
  }
}

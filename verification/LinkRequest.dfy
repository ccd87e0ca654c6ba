/** Reticulum packet headers: what is parsed out of them, the link id derived from a
link request, and the rewriting of the MTU a link request announces.

SHA-256 is a parameter; a link id is the first 16 bytes of its digest. */
module LinkRequest {
  import opened Words

  const HASH := 16               // RNS_TRUNCATED_HASH_LEN, RNS_LINK_ID_LEN
  const CORE := 64               // RNS_LINKREQUEST_CORE_LEN
  const TYPE1 := 2 + HASH + 1
  const TYPE2 := 2 + HASH + HASH + 1
  const LINKREQUEST := 2
  const TO_LINK := 3             // RNS_DESTINATION_TYPE_LINK

  type Packet = seq<Byte>

  const NO_ID: Id := [0, 0, 0, 0, 0, 0, 0, 0, 0, 0, 0, 0, 0, 0, 0, 0]

  datatype Info = Info(hops: Byte, destType: nat, packetType: nat, context: Byte, payloadLen: nat,
                       destination: Id, linkId: Id, valid: bool)

  datatype Parsed = TooShort | BadHeader2 | Parsed(info: Info)

  function HeaderType(flags: Byte): nat { flags / 64 % 2 }

  function PacketType(flags: Byte): nat { flags % 4 }

  function DestType(flags: Byte): nat { flags / 4 % 4 }

  /** Where the destination hash starts: behind the transport id in a type-2 header. */
  function DestAt(flags: Byte): nat { if HeaderType(flags) == 0 then 2 else 2 + HASH }

  /** The hashed part of a packet: from the destination on, a link request without
      what follows the 64 core bytes of its payload. */
  function HashBody(p: Packet): Packet
    requires |p| >= TYPE1 && |p| >= DestAt(p[0]) + HASH + 1
  {
    var at := DestAt(p[0]);
    var end := at + HASH + 1 + CORE;
    if PacketType(p[0]) == LINKREQUEST && |p| > end then p[at..end] else p[at..]
  }

  function LinkId(p: Packet, sha: Packet -> Id): Id
    requires |p| >= TYPE1 && |p| >= DestAt(p[0]) + HASH + 1
  {
    sha([p[0] % 16] + HashBody(p))
  }

  function Parse(p: Packet, sha: Packet -> Id): Parsed {
    if |p| < TYPE1 then TooShort
    else if HeaderType(p[0]) == 1 && |p| < TYPE2 then BadHeader2
    else
      var at := DestAt(p[0]);
      var dest: Id := p[at..at + HASH];
      var toLink := DestType(p[0]) == TO_LINK;
      var request := PacketType(p[0]) == LINKREQUEST;
      Parsed(Info(p[1], DestType(p[0]), PacketType(p[0]), p[at + HASH], (|p| - (at + HASH + 1)) % 0x1_0000, dest,
                  if toLink then dest else if request then LinkId(p, sha) else NO_ID,
                  toLink || request))
  }

  // ------------------------------------------------------- packets by their fields

  /** The fields a packet is made of; `top` and `mid` are the flag bits nothing here reads. */
  datatype Fields = Fields(top: nat, transport: Option<Id>, mid: nat, destType: nat, packetType: nat, hops: Byte,
                           dest: Id, context: Byte, payload: Packet)

  predicate InRange(f: Fields) { f.top < 2 && f.mid < 4 && f.destType < 4 && f.packetType < 4 }

  function Flags(f: Fields): Byte
    requires InRange(f)
  {
    f.top * 128 + (if f.transport.Some? then 64 else 0) + f.mid * 16 + f.destType * 4 + f.packetType
  }

  function Built(f: Fields): Packet
    requires InRange(f)
  {
    [Flags(f), f.hops] + (if f.transport.Some? then f.transport.value else []) + f.dest + [f.context] + f.payload
  }

  /** What the link id of a request is the hash of: destination and packet type, destination,
      context, and the first 64 bytes of the payload. */
  function Hashed(f: Fields): Packet
    requires InRange(f)
  {
    [f.destType * 4 + f.packetType] + f.dest + [f.context] + (if |f.payload| > 64 then f.payload[..64] else f.payload)
  }

  lemma FlagsBack(f: Fields)
    requires InRange(f)
    ensures HeaderType(Flags(f)) == (if f.transport.Some? then 1 else 0)
    ensures DestType(Flags(f)) == f.destType && PacketType(Flags(f)) == f.packetType
    ensures Flags(f) % 16 == f.destType * 4 + f.packetType
  {
    BitsBack(f.top * 2 + (if f.transport.Some? then 1 else 0), f.mid, f.destType, f.packetType);
  }

  lemma BitsBack(a: nat, m: nat, d: nat, p: nat)
    requires m < 4 && d < 4 && p < 4
    ensures var x := a * 64 + m * 16 + d * 4 + p;
            x / 64 == a && x / 4 % 4 == d && x % 4 == p && x % 16 == d * 4 + p
  {
    By4(a * 16 + m * 4 + d, p);
    By4(a * 4 + m, d);
    By16(a * 4 + m, d * 4 + p);
    By64(a, m * 16 + d * 4 + p);
  }

  lemma By4(q: nat, r: nat)
    requires r < 4
    ensures (q * 4 + r) / 4 == q && (q * 4 + r) % 4 == r
  {
  }

  lemma By16(q: nat, r: nat)
    requires r < 16
    ensures (q * 16 + r) % 16 == r
  {
  }

  lemma By64(q: nat, r: nat)
    requires r < 64
    ensures (q * 64 + r) / 64 == q
  {
  }

  /** Where the fields of a packet lie. */
  lemma BuiltSlices(f: Fields)
    requires InRange(f)
    ensures var p, at := Built(f), if f.transport.Some? then 18 else 2;
            && |p| == at + 17 + |f.payload| && p[0] == Flags(f) && p[1] == f.hops
            && p[at..at + 16] == f.dest && p[at + 16] == f.context && p[at + 17..] == f.payload
  {
  }

  /** A packet parses to the fields it was made of; its link id is its destination if that is
      a link, else, for a request, the hash of the fields that identify it. */
  lemma BuiltParses(f: Fields, sha: Packet -> Id)
    requires InRange(f)
    ensures Parse(Built(f), sha) ==
              Parsed(Info(f.hops, f.destType, f.packetType, f.context, |f.payload| % 0x1_0000, f.dest,
                          if f.destType == 3 then f.dest else if f.packetType == 2 then sha(Hashed(f)) else NO_ID,
                          f.destType == 3 || f.packetType == 2))
  {
    FlagsBack(f);
    BuiltSlices(f);
    var p, at := Built(f), if f.transport.Some? then 18 else 2;
    hide Built, Flags;
    if f.packetType == 2 {
      HashedBody(p, at, f);
    }
  }

  lemma HashedBody(p: Packet, at: nat, f: Fields)
    requires |p| == at + 17 + |f.payload| && InRange(f) && f.packetType == 2
    requires p[at..at + 16] == f.dest && p[at + 16] == f.context && p[at + 17..] == f.payload
    requires PacketType(p[0]) == f.packetType && DestAt(p[0]) == at && p[0] % 16 == f.destType * 4 + f.packetType
    ensures [p[0] % 16] + HashBody(p) == Hashed(f)
  {
    assert p[at..] == f.dest + [f.context] + f.payload;
    if |f.payload| > 64 {
      assert p[at..at + 81] == p[at..][..81];
      assert (f.dest + [f.context] + f.payload)[..81] == f.dest + [f.context] + f.payload[..64];
    }
  }

  /** Any packet long enough for its header is made of fields, and any other is refused. */
  lemma ParsesIffBuilt(p: Packet, sha: Packet -> Id)
    ensures Parse(p, sha) == TooShort <==> |p| < 19
    ensures Parse(p, sha) == BadHeader2 <==> 19 <= |p| < 35 && p[0] / 64 % 2 == 1
    ensures Parse(p, sha).Parsed? <==> exists f :: InRange(f) && Built(f) == p
  {
    if Parse(p, sha).Parsed? {
      var f := TakenApart(p, if p[0] / 64 % 2 == 1 then 18 else 2);
    }
    forall f | InRange(f) && Built(f) == p ensures Parse(p, sha).Parsed? {
      BuiltParses(f, sha);
    }
  }

  lemma TakenApart(p: Packet, at: nat) returns (f: Fields)
    requires |p| >= at + 17 && at == if p[0] / 64 % 2 == 1 then 18 else 2
    ensures InRange(f) && Built(f) == p
  {
    f := Fields(p[0] / 128, if at == 18 then Some(p[2..18]) else None, p[0] / 16 % 4, p[0] / 4 % 4, p[0] % 4,
                p[1], p[at..at + 16], p[at + 16], p[at + 17..]);
    FlagsWhole(p[0]);
    assert Flags(f) == p[0];
    hide Flags;
    assert p[2..] == (if at == 18 then p[2..18] else []) + p[at..];
    assert p[at..] == f.dest + [f.context] + f.payload;
  }

  lemma FlagsWhole(b: Byte)
    ensures b == b / 128 * 128 + (if b / 64 % 2 == 1 then 64 else 0) + b / 16 % 4 * 16 + b / 4 % 4 * 4 + b % 4
  {
    assert b / 16 == b / 4 / 4 && b / 64 == b / 16 / 4 && b / 128 == b / 64 / 2;
  }

  /** The identity of a request: two requests have the same link id under every hash function
      if and only if destination type, destination, context and the first 64 bytes of the
      payload are the same. */
  lemma SameIdIff(f: Fields, g: Fields)
    requires InRange(f) && InRange(g) && f.packetType == g.packetType == 2 && f.destType != 3 && g.destType != 3
    ensures (forall sha: Packet -> Id :: Parse(Built(f), sha).Parsed? && Parse(Built(g), sha).Parsed? &&
               Parse(Built(f), sha).info.linkId == Parse(Built(g), sha).info.linkId) <==>
            && f.destType == g.destType && f.dest == g.dest && f.context == g.context
            && (if |f.payload| > 64 then f.payload[..64] else f.payload) ==
               (if |g.payload| > 64 then g.payload[..64] else g.payload)
  {
    hide Parse, Built;
    forall sha: Packet -> Id
      ensures Parse(Built(f), sha).Parsed? && Parse(Built(g), sha).Parsed?
      ensures Parse(Built(f), sha).info.linkId == sha(Hashed(f)) && Parse(Built(g), sha).info.linkId == sha(Hashed(g))
    {
      BuiltParses(f, sha);
      BuiltParses(g, sha);
    }
    HashedInjective(f, g);
    if Hashed(f) != Hashed(g) {
      var one: Id := NO_ID[0 := 1];
      var sha: Packet -> Id := x => if x == Hashed(f) then NO_ID else one;
      assert sha(Hashed(f)) != sha(Hashed(g)) by {
        assert NO_ID[0] == 0 && one[0] == 1;
      }
      assert Parse(Built(f), sha).info.linkId != Parse(Built(g), sha).info.linkId;
    }
  }

  lemma HashedInjective(f: Fields, g: Fields)
    requires InRange(f) && InRange(g) && f.packetType == g.packetType
    ensures Hashed(f) == Hashed(g) <==>
            && f.destType == g.destType && f.dest == g.dest && f.context == g.context
            && (if |f.payload| > 64 then f.payload[..64] else f.payload) ==
               (if |g.payload| > 64 then g.payload[..64] else g.payload)
  {
    var a, b := Hashed(f), Hashed(g);
    var x := if |f.payload| > 64 then f.payload[..64] else f.payload;
    var y := if |g.payload| > 64 then g.payload[..64] else g.payload;
    assert a[0] == f.destType * 4 + f.packetType && b[0] == g.destType * 4 + g.packetType;
    assert a[1..17] == f.dest && a[17] == f.context && a[18..] == x;
    assert b[1..17] == g.dest && b[17] == g.context && b[18..] == y;
  }

  // ---------------------------------------------------------------- signalling

  /** The 21-bit MTU and the 3 mode bits of the signalling field at an offset. */
  function Mtu(p: Packet, off: nat): nat
    requires off + 3 <= |p|
  {
    (p[off] as int) % 32 * 65536 + (p[off + 1] as int) * 256 + p[off + 2]
  }

  function Mode(p: Packet, off: nat): nat
    requires off + 3 <= |p|
  {
    p[off] / 32
  }

  /** The three bytes, most significant first, are the mode and then the MTU. */
  lemma SignallingValue(p: Packet, off: nat)
    requires off + 3 <= |p|
    ensures (p[off] as int) * 65536 + (p[off + 1] as int) * 256 + p[off + 2] == Mode(p, off) * 0x20_0000 + Mtu(p, off)
    ensures Mode(p, off) < 8 && Mtu(p, off) < 0x20_0000
  {
  }

  function SignallingAt(p: Packet, info: Info): int {
    |p| - info.payloadLen + CORE
  }

  datatype Code = Clamped | NotModified | WrongType | Short

  /** An info record that came from parsing this packet. */
  ghost predicate ParsedFrom(p: Packet, info: Info, sha: Packet -> Id) {
    |p| < 0x1_0000 && Parse(p, sha) == Parsed(info)
  }

  /** The payload of a parsed packet sits behind the header. */
  lemma SignallingInside(p: Packet, info: Info, sha: Packet -> Id)
    requires ParsedFrom(p, info, sha) && info.payloadLen >= 67
    ensures DestAt(p[0]) + HASH + 1 + CORE == SignallingAt(p, info)
    ensures 0 <= SignallingAt(p, info) && SignallingAt(p, info) + 3 <= |p|
  {
  }

  /** Lowers the MTU of a link request to a limit, in the packet buffer. */
  method ClampMtu(packet: array<Byte>, info: Info, limit: nat, ghost sha: Packet -> Id) returns (r: Code, original: nat)
    requires ParsedFrom(packet[..], info, sha)
    modifies packet
    ensures r == WrongType <==> info.packetType != LINKREQUEST
    ensures r == Short <==> info.packetType == LINKREQUEST && info.payloadLen < 67
    ensures r == WrongType || r == Short ==> original == 0 && packet[..] == old(packet[..])
    ensures r == Clamped || r == NotModified ==>
              var off := SignallingAt(packet[..], info);
              && 0 <= off && off + 3 <= packet.Length
              && original == Mtu(old(packet[..]), off)
              && Mtu(packet[..], off) == (if limit < original then limit else original)
              && Mode(packet[..], off) == Mode(old(packet[..]), off)
              && (forall k :: 0 <= k < packet.Length && !(off <= k < off + 3) ==> packet[k] == old(packet[k]))
    ensures r == NotModified ==> original <= limit && packet[..] == old(packet[..])
    ensures r == Clamped ==> original > limit
    ensures ParsedFrom(packet[..], info, sha)
  {
    original := 0;
    if info.packetType != LINKREQUEST {
      return WrongType, 0;
    }
    if info.payloadLen < 67 {
      return Short, 0;
    }
    hide Mtu, Mode;
    SignallingInside(packet[..], info, sha);
    var off := packet.Length - info.payloadLen + CORE;
    var b0, b1, b2 := packet[off] as int, packet[off + 1] as int, packet[off + 2] as int;
    original := b0 % 32 * 65536 + b1 * 256 + b2;
    SignallingRead(packet[..], off);
    if original <= limit {
      return NotModified, original;
    }
    ghost var was := packet[..];
    var mode := b0 / 32;
    SignallingFits(mode, limit);
    packet[off] := mode * 32 + limit / 65536;
    packet[off + 1] := limit / 256 % 256;
    packet[off + 2] := limit % 256;
    SignallingSet(packet[..], off, mode, limit);
    SignallingNotHashed(was, packet[..], info, sha);
    r := Clamped;
  }

  lemma SignallingRead(p: Packet, off: nat)
    requires off + 3 <= |p|
    ensures Mtu(p, off) == (p[off] as int) % 32 * 65536 + (p[off + 1] as int) * 256 + p[off + 2]
    ensures Mode(p, off) == p[off] / 32
  {
  }

  lemma SignallingFits(mode: nat, mtu: nat)
    requires mode < 8 && mtu < 0x20_0000
    ensures mode * 32 + mtu / 65536 < 256
  {
  }

  lemma SignallingSet(p: Packet, off: nat, mode: nat, mtu: nat)
    requires off + 3 <= |p| && mode < 8 && mtu < 0x20_0000
    requires p[off] == mode * 32 + mtu / 65536 && p[off + 1] == mtu / 256 % 256 && p[off + 2] == mtu % 256
    ensures Mtu(p, off) == mtu && Mode(p, off) == mode
  {
    SignallingBytes(mode, mtu);
  }

  lemma SignallingBytes(mode: nat, mtu: nat)
    requires mode < 8 && mtu < 0x20_0000
    ensures mode * 32 + mtu / 65536 < 256
    ensures (mode * 32 + mtu / 65536) / 32 == mode && (mode * 32 + mtu / 65536) % 32 == mtu / 65536
    ensures mtu / 65536 * 65536 + mtu / 256 % 256 * 256 + mtu % 256 == mtu
  {
  }

  /** The signalling field of a link request has no part in its identity: rewriting it
      changes nothing that parsing yields. */
  lemma SignallingNotHashed(p: Packet, q: Packet, info: Info, sha: Packet -> Id)
    requires ParsedFrom(p, info, sha) && info.packetType == LINKREQUEST && info.payloadLen >= 67
    requires |q| == |p|
    requires var at := SignallingAt(p, info); forall k :: 0 <= k < |p| && !(at <= k < at + 3) ==> q[k] == p[k]
    ensures ParsedFrom(q, info, sha)
  {
    SignallingInside(p, info, sha);
    var at := DestAt(p[0]);
    assert q[0] == p[0] && q[1] == p[1];
    assert q[at..at + HASH + 1 + CORE] == p[at..at + HASH + 1 + CORE];
    assert q[at..at + HASH] == p[at..at + HASH];
    assert HashBody(q) == HashBody(p);
  }

  /** Clamping twice is clamping once. */
  method ClampTwice(packet: array<Byte>, info: Info, limit: nat, ghost sha: Packet -> Id)
    returns (first: Code, second: Code)
    requires ParsedFrom(packet[..], info, sha)
    modifies packet
    ensures first == Clamped ==> second == NotModified
    ensures first != Clamped ==> second == first && packet[..] == old(packet[..])
  {
    var mtu: nat;
    first, mtu := ClampMtu(packet, info, limit, sha);
    second, mtu := ClampMtu(packet, info, limit, sha);
  }

  // -------------------------------------------------------- transport invariance

  /** The same packet on its way through a transport node: type-2 header, transport id
      in front of the destination, any hop count. */
  function Transported(p: Packet, hops: Byte, transport: Id): Packet
    requires |p| >= 2 && HeaderType(p[0]) == 0
  {
    [p[0] + 64, hops] + transport + p[2..]
  }

  /** Identity survives transport: apart from the hop count, a type-1 packet and its
      type-2 form parse to the same record, link id included. */
  lemma TransportKeepsIdentity(p: Packet, hops: Byte, transport: Id, sha: Packet -> Id)
    requires |p| >= TYPE1 && HeaderType(p[0]) == 0
    ensures var a, b := Parse(p, sha), Parse(Transported(p, hops, transport), sha);
            a.Parsed? && b == Parsed(a.info.(hops := hops))
  {
    var f := TakenApart(p, 2);
    hide Parse, Built, Transported, HeaderType, InRange;
    FieldsTransported(f, hops, transport, sha);
    SameFields(p, f, f.(hops := hops, transport := Some(transport)), hops, transport);
  }

  lemma FieldsTransported(f: Fields, hops: Byte, transport: Id, sha: Packet -> Id)
    requires InRange(f)
    ensures var g := f.(hops := hops, transport := Some(transport));
            && InRange(g) && Parse(Built(f), sha).Parsed?
            && Parse(Built(g), sha) == Parsed(Parse(Built(f), sha).info.(hops := hops))
  {
    hide Parse, Built;
    var g := f.(hops := hops, transport := Some(transport));
    BuiltParses(f, sha);
    BuiltParses(g, sha);
    assert Hashed(g) == Hashed(f);
  }

  lemma SameFields(p: Packet, f: Fields, g: Fields, hops: Byte, transport: Id)
    requires InRange(f) && Built(f) == p && HeaderType(p[0]) == 0
    requires g == f.(hops := hops, transport := Some(transport))
    ensures Built(g) == Transported(p, hops, transport)
  {
    FlagsBack(f);
    assert Flags(f) == p[0] && f.transport.None?;
    hide HeaderType;
    assert p[2..] == f.dest + [f.context] + f.payload;
  }

  /** The hop count is no part of the identity. */
  lemma HopsKeepIdentity(p: Packet, hops: Byte, sha: Packet -> Id)
    requires |p| >= 2
    ensures var a, b := Parse(p, sha), Parse(p[1 := hops], sha);
            if a.Parsed? then b == Parsed(a.info.(hops := hops)) else b == a
  {
    var q := p[1 := hops];
    if Parse(p, sha).Parsed? {
      var at := DestAt(p[0]);
      assert q[at..] == p[at..];
      assert q[at..at + HASH] == p[at..at + HASH];
      assert HashBody(q) == HashBody(p);
    }
  }
}

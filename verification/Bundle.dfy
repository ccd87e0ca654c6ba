/** The envelope bundle on the wire:
    [A5][5A][ver:4|type:4][seq le16][nsub] then nsub times [len le16][payload]. */
module Bundle {
  import opened Words
  import opened SeqWindow
  import opened AckFrame

  const HDR := 6                               // HALOW_ENV_BUNDLE_HDR, ACK_AGG_RESERVE
  const MAX_SUB := 8                           // HALOW_ACK_AGG_MAX_SUB
  const PAYLOAD_MAX := 4000                    // HALOW_ACK_AGG_PAYLOAD_MAX
  const WIRE_MAX := PAYLOAD_MAX + 6 + 2 * MAX_SUB   // ACK_WIRE_MAX

  type Payload = p: seq<Byte> | |p| < 0x1_0000

  /** One subframe. */
  function Sub(p: Payload): seq<Byte> {
    [Lo(|p|), Hi(|p|)] + p
  }

  /** All subframes in order. */
  function Body(ps: seq<Payload>): seq<Byte> {
    if ps == [] then [] else Body(ps[..|ps| - 1]) + Sub(ps[|ps| - 1])
  }

  function Header(seq16: U16, nsub: Byte): (h: seq<Byte>)
    ensures |h| == HDR
  {
    [MAGIC0, MAGIC1, ENV_VER * 16 + TYPE_BUNDLE, Lo(seq16), Hi(seq16), nsub]
  }

  function Encode(seq16: U16, ps: seq<Payload>): seq<Byte>
    requires |ps| < 256
  {
    Header(seq16, |ps|) + Body(ps)
  }

  lemma BodyAppend(ps: seq<Payload>, p: Payload)
    ensures Body(ps + [p]) == Body(ps) + Sub(p)
  {
    assert (ps + [p])[..|ps|] == ps;
  }

  lemma {:induction false} BodyCons(p: Payload, ps: seq<Payload>)
    ensures Body([p] + ps) == Sub(p) + Body(ps)
  {
    var all := [p] + ps;
    if ps == [] {
      assert all[..0] == [];
      assert Body(all) == Body([]) + Sub(p);
    } else {
      var q := ps[|ps| - 1];
      BodyCons(p, ps[..|ps| - 1]);
      assert all[..|all| - 1] == [p] + ps[..|ps| - 1];
      calc {
        Body(all);
        Body([p] + ps[..|ps| - 1]) + Sub(q);
        (Sub(p) + Body(ps[..|ps| - 1])) + Sub(q);
        Sub(p) + (Body(ps[..|ps| - 1]) + Sub(q));
        Sub(p) + Body(ps);
      }
    }
  }

  /** Payload bytes and per-subframe length fields account for the whole body. */
  function Total(ps: seq<Payload>): nat {
    if ps == [] then 0 else Total(ps[..|ps| - 1]) + |ps[|ps| - 1]|
  }

  lemma {:induction ps} BodyLength(ps: seq<Payload>)
    ensures |Body(ps)| == 2 * |ps| + Total(ps)
  {
  }

  /** The first subframe can be read off the front of any bytes that start with it. */
  lemma Peel(p: Payload, x: seq<Byte>, b: seq<Byte>)
    requires b == Sub(p) + x
    ensures |b| >= 2 + |p| && Le16(b[0], b[1]) == |p| && b[2..2 + |p|] == p && b[2 + |p|..] == x
  {
    hide Lo, Hi, Le16;
    LoHi(|p|);
  }

  /** Subframe boundaries are determined by the bytes. */
  lemma {:induction false} BodyInjective(ps: seq<Payload>, qs: seq<Payload>)
    requires Body(ps) == Body(qs)
    ensures ps == qs
    decreases |ps|
  {
    BodyLength(ps);
    BodyLength(qs);
    if ps != [] && qs != [] {
      FirstOf(ps);
      FirstOf(qs);
      BodyInjective(ps[1..], qs[1..]);
      assert ps == [ps[0]] + ps[1..] && qs == [qs[0]] + qs[1..];
    }
  }

  /** Reading the first subframe of a body. */
  lemma FirstOf(ps: seq<Payload>)
    requires ps != []
    ensures var b, p := Body(ps), ps[0];
            |b| >= 2 + |p| && Le16(b[0], b[1]) == |p| && b[2..2 + |p|] == p && b[2 + |p|..] == Body(ps[1..])
  {
    assert ps == [ps[0]] + ps[1..];
    BodyCons(ps[0], ps[1..]);
    Peel(ps[0], Body(ps[1..]), Body(ps));
  }

  // ------------------------------------------------------------ receiver side

  ghost predicate WellFormed(pkg: seq<Byte>, hdr: nat, nsub: nat) {
    hdr <= |pkg| && exists ps: seq<Payload> :: |ps| == nsub && pkg[hdr..] == Body(ps)
  }

  /** The rest of a well-formed package after the first subframes is a body too. */
  lemma {:induction false} RestOfBody(all: seq<Payload>, done: seq<Payload>, rest: seq<Byte>)
    requires Body(all) == Body(done) + rest
    requires |done| <= |all|
    ensures done == all[..|done|] && rest == Body(all[|done|..])
    decreases |done|
  {
    if done == [] {
      assert all[0..] == all;
    } else {
      var d := done[0];
      assert done == [d] + done[1..];
      BodyCons(d, done[1..]);
      assert Body(all) == Sub(d) + (Body(done[1..]) + rest);
      Peel(d, Body(done[1..]) + rest, Body(all));
      FirstOf(all);
      RestOfBody(all[1..], done[1..], rest);
      assert all[|done|..] == all[1..][|done| - 1..];
      assert all[..|done|] == [all[0]] + all[1..][..|done| - 1];
    }
  }

  /** Both receiver walks (the acknowledgement layer's and the splitter's run the
      same loop): accepted if and only if the bytes after the header are exactly
      nsub subframes, with nothing missing and nothing left over. */
  method WalkValid(pkg: seq<Byte>, hdr: nat, nsub: Byte) returns (ok: bool)
    requires hdr <= |pkg|
    ensures ok <==> WellFormed(pkg, hdr, nsub)
  {
    var off := hdr;
    ghost var done: seq<Payload> := [];
    for i := 0 to nsub
      invariant hdr <= off <= |pkg| && |done| == i
      invariant pkg[hdr..off] == Body(done)
    {
      ghost var start := off;
      assert pkg[hdr..] == Body(done) + pkg[start..];
      if off + 2 > |pkg| {
        Reject(pkg, hdr, nsub, done, start);
        return false;
      }
      var slen := Le16(pkg[off], pkg[off + 1]);
      off := off + 2;
      if off + slen > |pkg| {
        Reject(pkg, hdr, nsub, done, start);
        return false;
      }
      ghost var p: Payload := pkg[off..off + slen];
      off := off + slen;
      WalkedOne(pkg, hdr, start, done, p);
      done := done + [p];
    }
    ok := off == |pkg|;
    if ok {
      assert pkg[hdr..] == Body(done);
    } else {
      assert pkg[hdr..] == Body(done) + pkg[off..];
      RejectTail(pkg, hdr, nsub, done, off);
    }
  }

  lemma WalkedOne(pkg: seq<Byte>, hdr: nat, start: nat, done: seq<Payload>, p: Payload)
    requires hdr <= start && start + 2 + |p| <= |pkg|
    requires pkg[hdr..start] == Body(done)
    requires Le16(pkg[start], pkg[start + 1]) == |p| && p == pkg[start + 2..start + 2 + |p|]
    ensures pkg[hdr..start + 2 + |p|] == Body(done + [p])
  {
    hide Lo, Hi, Le16;
    BodyAppend(done, p);
    Le16Parts(pkg[start], pkg[start + 1]);
    assert pkg[start..start + 2 + |p|] == Sub(p);
    assert pkg[hdr..start + 2 + |p|] == pkg[hdr..start] + pkg[start..start + 2 + |p|];
  }

  lemma Reject(pkg: seq<Byte>, hdr: nat, nsub: nat, done: seq<Payload>, off: nat)
    requires hdr <= off <= |pkg| && |done| < nsub
    requires pkg[hdr..] == Body(done) + pkg[off..]
    requires off + 2 > |pkg| || off + 2 + Le16(pkg[off], pkg[off + 1]) > |pkg|
    ensures !WellFormed(pkg, hdr, nsub)
  {
    forall ps: seq<Payload> | |ps| == nsub && pkg[hdr..] == Body(ps) ensures false {
      RestOfBody(ps, done, pkg[off..]);
      FirstOf(ps[|done|..]);
    }
  }

  lemma RejectTail(pkg: seq<Byte>, hdr: nat, nsub: nat, done: seq<Payload>, off: nat)
    requires hdr <= off < |pkg| && |done| == nsub
    requires pkg[hdr..] == Body(done) + pkg[off..]
    ensures !WellFormed(pkg, hdr, nsub)
  {
    forall ps: seq<Payload> | |ps| == nsub && pkg[hdr..] == Body(ps) ensures false {
      RestOfBody(ps, done, pkg[off..]);
    }
  }

  /** Reading one subframe at offset o of a package whose tail is a body. */
  lemma NextSub(pkg: seq<Byte>, o: nat, ps: seq<Payload>)
    requires o <= |pkg| && ps != [] && pkg[o..] == Body(ps)
    ensures o + 2 + |ps[0]| <= |pkg| && Le16(pkg[o], pkg[o + 1]) == |ps[0]|
    ensures pkg[o + 2..o + 2 + |ps[0]|] == ps[0]
    ensures pkg[o + 2 + |ps[0]|..] == Body(ps[1..])
  {
    FirstOf(ps);
    var tail := pkg[o..];
    assert tail[2..2 + |ps[0]|] == pkg[o + 2..o + 2 + |ps[0]|];
    assert tail[2 + |ps[0]|..] == pkg[o + 2 + |ps[0]|..];
  }

  /** The splitter hands up the subframes of a walked package in order. */
  method SplitDeliver(pkg: seq<Byte>, hdr: nat, nsub: Byte) returns (out: seq<Payload>)
    requires WellFormed(pkg, hdr, nsub)
    ensures |out| == nsub && pkg[hdr..] == Body(out)
  {
    hide Lo, Hi, Le16, Body;
    ghost var all: seq<Payload> :| |all| == nsub && pkg[hdr..] == Body(all);
    ghost var rest := all;
    var o := hdr;
    out := [];
    for i := 0 to nsub
      invariant hdr <= o <= |pkg| && |out| == i && out + rest == all
      invariant pkg[o..] == Body(rest)
    {
      NextSub(pkg, o, rest);
      var slen := Le16(pkg[o], pkg[o + 1]);
      o := o + 2;
      out := out + [pkg[o..o + slen]];
      o := o + slen;
      rest := rest[1..];
    }
    assert out == all;
  }

  /** The classifier in front of the splitter. */
  predicate IsEnvBundle(pkg: seq<Byte>) {
    && |pkg| >= HDR + 2
    && pkg[0] == MAGIC0 && pkg[1] == MAGIC1
    && pkg[2] % 16 == TYPE_BUNDLE && pkg[2] / 16 == ENV_VER
  }

  /** What a package holds: the subframes of a well-formed bundle, nothing of a malformed
      one, anything else as it is. */
  ghost function Unbundled(pkg: Payload): (out: seq<Payload>)
    ensures IsEnvBundle(pkg) && WellFormed(pkg, HDR, pkg[5]) ==> |out| == pkg[5] && pkg[HDR..] == Body(out)
  {
    if !IsEnvBundle(pkg) then [pkg]
    else if !WellFormed(pkg, HDR, pkg[5]) then []
    else var ps: seq<Payload> :| |ps| == pkg[5] && pkg[HDR..] == Body(ps); ps
  }

  /** Classifies, walks and splits. */
  method Deliver(pkg: Payload) returns (out: seq<Payload>)
    ensures out == Unbundled(pkg)
  {
    if !IsEnvBundle(pkg) {
      return [pkg];
    }
    var ok := WalkValid(pkg, HDR, pkg[5]);
    if !ok {
      return [];
    }
    out := SplitDeliver(pkg, HDR, pkg[5]);
    BodyInjective(out, Unbundled(pkg));
  }

  /** Round trip: any non-empty list of payloads that fits a bundle is what the bundle
      holds, and the acknowledgement layer's walk accepts it too. */
  lemma RoundTrip(wire: Payload, seq16: U16, ps: seq<Payload>)
    requires 0 < |ps| <= MAX_SUB && wire == Encode(seq16, ps)
    ensures IsEnvBundle(wire) && WellFormed(wire, HDR, wire[5]) && Le16(wire[3], wire[4]) == seq16
    ensures Unbundled(wire) == ps
  {
    BodyLength(ps);
    LoHi(seq16);
    assert wire[HDR..] == Body(ps);
    assert WellFormed(wire, HDR, wire[5]);
    BodyInjective(ps, Unbundled(wire));
  }

  // -------------------------------------------------------------- sender side

  const NO_SEQ: U16 := 0xFFFF

  /** tx_seq is post-incremented, and once more when it yields the reserved 0xFFFF. */
  function DrawnSeq(txSeq: U16): (s: U16)
    ensures s != NO_SEQ
  {
    if txSeq == NO_SEQ then (txSeq + 1) % WRAP else txSeq
  }

  /** The same on an unbounded counter. */
  function Drawn(next: nat): nat {
    if next % WRAP == WRAP - 1 then next + 1 else next
  }

  /** The unbounded numbering is the sender's 16-bit counter without its wrap. */
  lemma DrawnIsTxSeq(next: nat)
    ensures DrawnSeq(next % WRAP) == Drawn(next) % WRAP
    ensures (DrawnSeq(next % WRAP) + 1) % WRAP == (Drawn(next) + 1) % WRAP
  {
    if next % WRAP == WRAP - 1 {
      assert (next + 1) % WRAP == 0;
      assert (next + 2) % WRAP == 1;
    }
  }

  /** Payloads one bundle can hold. */
  ghost predicate Fitting(ps: seq<Payload>) {
    0 < |ps| <= MAX_SUB && HDR + |Body(ps)| <= WIRE_MAX
  }

  /** Would one more payload overfill the staged bundle? */
  predicate FullFor(aggLen: nat, nsub: nat, cap: nat, len: nat, eff: nat)
    requires aggLen >= HDR + 2 * nsub
  {
    || aggLen - HDR - 2 * nsub + len > eff
    || aggLen + 2 + len > WIRE_MAX
    || aggLen + 2 + len > cap
    || nsub + 1 > MAX_SUB
  }

  /** The buffer size a fresh staging slot asks for: the least that holds the first subframe
      and any bundle within the budget. */
  function StagingCap(eff: nat, len: nat): (cap: nat)
    ensures HDR + 2 + len <= cap
    ensures cap <= HDR + 2 + len || cap <= WIRE_MAX
    ensures cap <= HDR + 2 + len || cap <= HDR + eff + 2 * MAX_SUB
  {
    var cap := HDR + eff + 2 * MAX_SUB;
    var cap := if cap > WIRE_MAX then WIRE_MAX else cap;
    if HDR + 2 + len > cap then HDR + 2 + len else cap
  }

  /** A staging buffer is never the reason a payload does not fit: a bundle within budget,
      number and wire limit has room in it. */
  lemma StagingCapSuffices(eff: nat, len: nat, ps: seq<Payload>)
    requires Total(ps) <= eff && |ps| <= MAX_SUB && HDR + |Body(ps)| <= WIRE_MAX
    ensures HDR + |Body(ps)| <= StagingCap(eff, len)
  {
    BodyLength(ps);
  }

  /** memcpy into a buffer: refuses to run past its end. */
  function Write(d: seq<Byte>, off: nat, bs: seq<Byte>): (r: seq<Byte>)
    requires off + |bs| <= |d|
    ensures |r| == |d| && r[off..off + |bs|] == bs
    ensures r[..off] == d[..off] && r[off + |bs|..] == d[off + |bs|..]
  {
    d[..off] + bs + d[off + |bs|..]
  }

  /** Staging a payload appends one subframe to the bytes already there. */
  lemma StageAppends(d: seq<Byte>, aggLen: nat, ps: seq<Payload>, p: Payload)
    requires HDR <= aggLen && aggLen + 2 + |p| <= |d|
    requires d[HDR..aggLen] == Body(ps)
    ensures Write(d, aggLen, Sub(p))[HDR..aggLen + 2 + |p|] == Body(ps + [p])
  {
    BodyAppend(ps, p);
    var r := Write(d, aggLen, Sub(p));
    assert r[HDR..aggLen] == r[..aggLen][HDR..] == d[HDR..aggLen];
    assert r[HDR..aggLen + 2 + |p|] == r[HDR..aggLen] + r[aggLen..aggLen + 2 + |p|];
  }

  /** Sealing writes the header in front and leaves the staged bytes alone. */
  lemma SealEncodes(d: seq<Byte>, aggLen: nat, ps: seq<Payload>, seq16: U16)
    requires HDR <= aggLen <= |d| && |ps| < 256
    requires d[HDR..aggLen] == Body(ps)
    ensures Write(d, 0, Header(seq16, |ps|))[..aggLen] == Encode(seq16, ps)
  {
    var r := Write(d, 0, Header(seq16, |ps|));
    assert r[..aggLen] == r[..HDR] + r[HDR..aggLen];
    assert r[HDR..aggLen] == r[HDR..][..aggLen - HDR] == d[HDR..][..aggLen - HDR] == d[HDR..aggLen];
  }
}

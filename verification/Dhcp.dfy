/** The lease core of the DHCP server (sections 4.3.1 to 4.3.4 of RFC 2131): four
slots, each with a natural address, and the decision taken on every message.

Addresses are 32-bit numbers; expiry times are milliseconds on a 64-bit clock
that is taken not to wrap. */
module Dhcp {
  import opened Words

  const LEASES := 4              // DHCPD_LEASES

  type Ip = x: int | 0 <= x < WRAP32

  type Mac = nat

  datatype Lease = Lease(used: bool, mac: Mac, ip: Ip, expires: nat)

  const BLANK := Lease(false, 0, 0, 0)

  const BLANKS := [BLANK, BLANK, BLANK, BLANK]

  datatype Kind = Discover | Request | Decline | Release | Other

  datatype Msg = Msg(kind: Kind, mac: Mac, reqIp: Ip)

  datatype Reply = Silent | Offer(ip: Ip) | Ack(ip: Ip) | Nak

  /** `net` is masking with the configured netmask, whatever it is. */
  datatype Config = Config(server: Ip, net: Ip -> Ip, base: Ip, size: nat, leaseMs: nat)

  function PoolIp(base: Ip, k: nat): Ip { (base + k) % WRAP32 }

  lemma PoolIpInjective(base: Ip, j: nat, k: nat)
    requires j < LEASES && k < LEASES && PoolIp(base, j) == PoolIp(base, k)
    ensures j == k
  {
  }

  // ------------------------------------------------------------------ lookups

  predicate Belongs(l: Lease, mac: Mac) { l.used && l.mac == mac }

  predicate Lapsed(l: Lease, now: nat) { l.expires <= now }

  /** First slot from i on that is in use by a client, or -1. */
  function ByMac(ls: seq<Lease>, mac: Mac, i: nat := 0): (r: int)
    requires i <= |ls|
    ensures r == -1 || (i <= r < |ls| && Belongs(ls[r], mac))
    ensures forall k :: i <= k < (if r == -1 then |ls| else r) ==> !Belongs(ls[k], mac)
    decreases |ls| - i
  {
    if i == |ls| then -1 else if Belongs(ls[i], mac) then i else ByMac(ls, mac, i + 1)
  }

  /** First slot from i on, below n, that is free, or -1. */
  function FirstFree(ls: seq<Lease>, n: nat, i: nat := 0): (r: int)
    requires i <= |ls|
    ensures r == -1 || (i <= r < |ls| && r < n && !ls[r].used)
    ensures forall k :: i <= k < (if r == -1 then |ls| else r) && k < n ==> ls[k].used
    decreases |ls| - i
  {
    if i == |ls| then -1 else if i < n && !ls[i].used then i else FirstFree(ls, n, i + 1)
  }

  /** First slot from i on, below n, whose lease ran out, or -1. */
  function FirstLapsed(ls: seq<Lease>, n: nat, now: nat, i: nat := 0): (r: int)
    requires i <= |ls|
    ensures r == -1 || (i <= r < |ls| && r < n && Lapsed(ls[r], now))
    ensures forall k :: i <= k < (if r == -1 then |ls| else r) && k < n ==> !Lapsed(ls[k], now)
    decreases |ls| - i
  {
    if i == |ls| then -1 else if i < n && Lapsed(ls[i], now) then i else FirstLapsed(ls, n, now, i + 1)
  }

  /** The slot a new client is given: free if there is one, else lapsed. */
  function Pick(ls: seq<Lease>, n: nat, now: nat): int {
    if FirstFree(ls, n) >= 0 then FirstFree(ls, n) else FirstLapsed(ls, n, now)
  }

  /** The slot whose natural address is asked for, if it may be taken, or -1. */
  function Takeable(c: Config, ls: seq<Lease>, ip: Ip, now: nat, i: nat := 0): (r: int)
    requires i <= |ls|
    ensures r == -1 || (i <= r < |ls| && r < c.size && PoolIp(c.base, r) == ip && (!ls[r].used || Lapsed(ls[r], now)))
    decreases |ls| - i
  {
    if i == |ls| then -1
    else if i < c.size && PoolIp(c.base, i) == ip && (!ls[i].used || Lapsed(ls[i], now)) then i
    else Takeable(c, ls, ip, now, i + 1)
  }

  predicate InPool(c: Config, ip: Ip) {
    ip != 0 && c.base <= ip < PoolIp(c.base, c.size) && c.net(ip) == c.net(c.server)
  }

  // ------------------------------------------------------------------ decision

  datatype Outcome = Outcome(leases: seq<Lease>, reply: Reply)

  function Decide(c: Config, ls: seq<Lease>, m: Msg, now: nat): Outcome {
    var i := ByMac(ls, m.mac);
    match m.kind
    case Release => Outcome(if i >= 0 then ls[i := ls[i].(used := false)] else ls, Silent)
    case Decline => Outcome(if i >= 0 then ls[i := ls[i].(used := false)] else ls, Silent)
    case Discover =>
      if i >= 0 && !Lapsed(ls[i], now) then Outcome(ls, Offer(ls[i].ip))
      else
        var j := Pick(ls, c.size, now);
        if j < 0 then Outcome(ls, Silent)
        else
          var l := Lease(true, m.mac, PoolIp(c.base, j), now + c.leaseMs);
          Outcome(ls[j := l], Offer(l.ip))
    case Request =>
      if i >= 0 then
        if m.reqIp != 0 && m.reqIp != ls[i].ip then Outcome(ls, Nak)
        else Outcome(ls[i := ls[i].(expires := now + c.leaseMs)], Ack(ls[i].ip))
      else
        var j := if InPool(c, m.reqIp) then Takeable(c, ls, m.reqIp, now) else -1;
        if j < 0 then Outcome(ls, Nak)
        else Outcome(ls[j := Lease(true, m.mac, m.reqIp, now + c.leaseMs)], Ack(m.reqIp))
    case Other => Outcome(ls, Silent)
  }

  // ---------------------------------------------------- what clients may hold

  /** Acknowledged leases that clients have not given back: expiry by (client, address). */
  type Grants = map<(Mac, Ip), nat>

  /** A client holds an address from its ACK on; RELEASE and DECLINE give back the
      address of the record they free. */
  ghost function GrantsAfter(g: Grants, c: Config, ls: seq<Lease>, m: Msg, now: nat): Grants {
    match m.kind
    case Discover => g
    case Other => g
    case Request =>
      var r := Decide(c, ls, m, now).reply;
      if r.Ack? then g[(m.mac, r.ip) := now + c.leaseMs] else g
    case _ =>
      var i := ByMac(ls, m.mac);
      if i >= 0 then g - {(m.mac, ls[i].ip)} else g
  }

  ghost predicate Backs(ls: seq<Lease>, k: int, who: (Mac, Ip), expiry: nat) {
    0 <= k < |ls| && Belongs(ls[k], who.0) && ls[k].ip == who.1 && expiry <= ls[k].expires
  }

  /** Slot k carries the k-th pool address, and every unexpired grant is backed by a
      slot in the client's name, for that address, for at least as long. */
  ghost predicate Sound(c: Config, ls: seq<Lease>, g: Grants, now: nat) {
    && |ls| == LEASES
    && (forall k :: 0 <= k < LEASES && ls[k].used ==> k < c.size && ls[k].ip == PoolIp(c.base, k))
    && (forall k :: 0 <= k < LEASES ==> ls[k].expires <= now + c.leaseMs)
    && (forall who <- g :: g[who] > now ==> exists k :: Backs(ls, k, who, g[who]))
  }

  /** Hence two clients never hold live leases on one address. */
  lemma NoDoubleLease(c: Config, ls: seq<Lease>, g: Grants, now: nat, a: Mac, b: Mac, ip: Ip)
    requires Sound(c, ls, g, now)
    requires (a, ip) in g && (b, ip) in g && g[(a, ip)] > now && g[(b, ip)] > now
    ensures a == b
  {
    var j :| Backs(ls, j, (a, ip), g[(a, ip)]);
    var k :| Backs(ls, k, (b, ip), g[(b, ip)]);
    PoolIpInjective(c.base, j, k);
  }

  /** Overwriting a free or lapsed slot, or lengthening one, takes nothing from
      anybody. */
  lemma OverwriteSound(c: Config, ls: seq<Lease>, g: Grants, now: nat, i: nat, l: Lease)
    requires Sound(c, ls, g, now) && i < LEASES && i < c.size && l.used && l.ip == PoolIp(c.base, i)
    requires l.expires == now + c.leaseMs
    requires !ls[i].used || Lapsed(ls[i], now) || l.mac == ls[i].mac
    ensures Sound(c, ls[i := l], g, now)
    ensures Sound(c, ls[i := l], g[(l.mac, l.ip) := l.expires], now)
  {
    var ls' := ls[i := l];
    forall who | who in g && g[who] > now ensures exists k :: Backs(ls', k, who, g[who]) {
      var k :| Backs(ls, k, who, g[who]);
      assert Backs(ls', k, who, g[who]);
    }
    assert Backs(ls', i, (l.mac, l.ip), l.expires);
  }

  lemma FreeSound(c: Config, ls: seq<Lease>, g: Grants, now: nat, i: nat)
    requires Sound(c, ls, g, now) && i < LEASES && ls[i].used
    ensures Sound(c, ls[i := ls[i].(used := false)], g - {(ls[i].mac, ls[i].ip)}, now)
  {
    var ls' := ls[i := ls[i].(used := false)];
    var g' := g - {(ls[i].mac, ls[i].ip)};
    forall who | who in g' && g'[who] > now ensures exists k :: Backs(ls', k, who, g'[who]) {
      var k :| Backs(ls, k, who, g[who]);
      assert Backs(ls', k, who, g[who]);
    }
  }

  lemma TimePasses(c: Config, ls: seq<Lease>, g: Grants, now: nat, later: nat)
    requires Sound(c, ls, g, now) && now <= later
    ensures Sound(c, ls, g, later)
  {
  }

  lemma SoundSlots(c: Config, ls: seq<Lease>, g: Grants, now: nat)
    requires Sound(c, ls, g, now)
    ensures |ls| == LEASES
    ensures forall k :: 0 <= k < LEASES && ls[k].used ==> k < c.size && ls[k].ip == PoolIp(c.base, k)
  {
  }

  /** Every decision keeps leases and grants in step. */
  lemma DecideSound(c: Config, ls: seq<Lease>, g: Grants, m: Msg, now: nat)
    requires Sound(c, ls, g, now)
    ensures Sound(c, Decide(c, ls, m, now).leases, GrantsAfter(g, c, ls, m, now), now)
  {
    SoundSlots(c, ls, g, now);
    hide Sound, PoolIp;
    var i := ByMac(ls, m.mac);
    match m.kind
    case Release =>
      if i >= 0 {
        FreeSound(c, ls, g, now, i);
      }
    case Decline =>
      if i >= 0 {
        FreeSound(c, ls, g, now, i);
      }
    case Discover =>
      var j := Pick(ls, c.size, now);
      if !(i >= 0 && !Lapsed(ls[i], now)) && j >= 0 {
        OverwriteSound(c, ls, g, now, j, Lease(true, m.mac, PoolIp(c.base, j), now + c.leaseMs));
      }
    case Request =>
      if i >= 0 {
        OverwriteSound(c, ls, g, now, i, ls[i].(expires := now + c.leaseMs));
      } else if InPool(c, m.reqIp) {
        var j := Takeable(c, ls, m.reqIp, now);
        if j >= 0 {
          OverwriteSound(c, ls, g, now, j, Lease(true, m.mac, m.reqIp, now + c.leaseMs));
        }
      }
    case Other =>
  }

  // ----------------------------------------------- the decisions, in numbers

  /** The client has no record. */
  ghost predicate Unknown(ls: seq<Lease>, mac: Mac) {
    forall k :: 0 <= k < |ls| && ls[k].used ==> ls[k].mac != mac
  }

  /** The client's first record is slot i. */
  ghost predicate Known(ls: seq<Lease>, mac: Mac, i: int) {
    0 <= i < |ls| && ls[i].used && ls[i].mac == mac && forall k :: 0 <= k < i && ls[k].used ==> ls[k].mac != mac
  }

  /** The pool's slot for an address is free or has expired. */
  ghost predicate ToBeHad(c: Config, ls: seq<Lease>, ip: Ip, now: nat) {
    && ip != 0 && c.net(ip) == c.net(c.server) && c.base <= ip < (c.base + c.size) % WRAP32
    && ip - c.base < |ls| && (ls[ip - c.base].used ==> ls[ip - c.base].expires <= now)
  }

  /** A REQUEST from a client without a record is granted if and only if the address lies in
      the subnet and the pool and its slot is free or expired; the slot is then the client's. */
  lemma RequestOfUnknown(c: Config, ls: seq<Lease>, m: Msg, now: nat)
    requires |ls| == LEASES && m.kind == Request && Unknown(ls, m.mac)
    ensures Decide(c, ls, m, now) ==
              if ToBeHad(c, ls, m.reqIp, now)
              then Outcome(ls[m.reqIp - c.base := Lease(true, m.mac, m.reqIp, now + c.leaseMs)], Ack(m.reqIp))
              else Outcome(ls, Nak)
  {
    var j := Takeable(c, ls, m.reqIp, now);
    if InPool(c, m.reqIp) {
      TakeableIs(c, ls, m.reqIp, now, 0);
    }
  }

  lemma {:induction false} TakeableIs(c: Config, ls: seq<Lease>, ip: Ip, now: nat, i: nat)
    requires |ls| == LEASES && i <= LEASES && c.base + i <= ip < (c.base + c.size) % WRAP32
    ensures var k := ip - c.base;
            Takeable(c, ls, ip, now, i) ==
              if k < LEASES && k < c.size && (!ls[k].used || ls[k].expires <= now) then k else -1
    decreases LEASES - i
  {
    if i < LEASES {
      if c.base + i < ip {
        TakeableIs(c, ls, ip, now, i + 1);
      } else {
        NoLaterSlot(c, ls, ip, now, i + 1);
      }
    }
  }

  lemma {:induction false} NoLaterSlot(c: Config, ls: seq<Lease>, ip: Ip, now: nat, i: nat)
    requires |ls| == LEASES && i <= LEASES && c.base <= ip < c.base + i
    ensures Takeable(c, ls, ip, now, i) == -1
    decreases LEASES - i
  {
    if i < LEASES {
      NoLaterSlot(c, ls, ip, now, i + 1);
    }
  }

  /** A REQUEST from a client with a record extends it if and only if it names the address of
      the record or none. */
  lemma RequestOfKnown(c: Config, ls: seq<Lease>, m: Msg, now: nat, i: nat)
    requires m.kind == Request && Known(ls, m.mac, i)
    ensures Decide(c, ls, m, now) ==
              if m.reqIp == 0 || m.reqIp == ls[i].ip
              then Outcome(ls[i := Lease(true, m.mac, ls[i].ip, now + c.leaseMs)], Ack(ls[i].ip))
              else Outcome(ls, Nak)
  {
  }

  /** RELEASE and DECLINE free the client's first record, without an answer. */
  lemma GivenBack(c: Config, ls: seq<Lease>, m: Msg, now: nat)
    requires m.kind == Release || m.kind == Decline
    ensures Unknown(ls, m.mac) ==> Decide(c, ls, m, now) == Outcome(ls, Silent)
    ensures forall i :: Known(ls, m.mac, i) ==>
              Decide(c, ls, m, now) == Outcome(ls[i := Lease(false, m.mac, ls[i].ip, ls[i].expires)], Silent)
  {
  }

  /** The slot a new offer goes to: the lowest free one of the pool, else the lowest expired. */
  ghost predicate Spare(c: Config, ls: seq<Lease>, now: nat, j: int) {
    && 0 <= j < |ls| && j < c.size
    && if ls[j].used
       then ls[j].expires <= now && (forall k :: 0 <= k < |ls| && k < c.size ==> ls[k].used) &&
            forall k :: 0 <= k < j ==> ls[k].expires > now
       else forall k :: 0 <= k < j ==> ls[k].used
  }

  /** A DISCOVER is answered with the client's own address while its record lasts, and from
      the spare slot otherwise; without one there is silence. */
  lemma DiscoverAnswered(c: Config, ls: seq<Lease>, m: Msg, now: nat)
    requires m.kind == Discover
    ensures forall i :: Known(ls, m.mac, i) && ls[i].expires > now ==>
              Decide(c, ls, m, now) == Outcome(ls, Offer(ls[i].ip))
    ensures (Unknown(ls, m.mac) || exists i :: Known(ls, m.mac, i) && ls[i].expires <= now) ==>
              && (forall j :: Spare(c, ls, now, j) ==>
                   var ip := (c.base + j) % WRAP32;
                   Decide(c, ls, m, now) == Outcome(ls[j := Lease(true, m.mac, ip, now + c.leaseMs)], Offer(ip)))
              && ((forall j :: !Spare(c, ls, now, j)) ==> Decide(c, ls, m, now) == Outcome(ls, Silent))
  {
    var j := Pick(ls, c.size, now);
    SpareIsPick(c, ls, now);
    hide Pick, Spare;
    assert j >= 0 ==> Spare(c, ls, now, j);
    var i := ByMac(ls, m.mac);
    assert Unknown(ls, m.mac) ==> i == -1;
    forall k | Known(ls, m.mac, k) ensures k == i {
    }
  }

  lemma SpareIsPick(c: Config, ls: seq<Lease>, now: nat)
    ensures -1 <= Pick(ls, c.size, now) < |ls|
    ensures forall j :: Spare(c, ls, now, j) <==> j >= 0 && j == Pick(ls, c.size, now)
  {
  }

  // -------------------------------------------------------- offers are honoured

  /** A client's first record is for this address and lasts at least until `till`. */
  ghost predicate Reserved(ls: seq<Lease>, mac: Mac, ip: Ip, till: nat) {
    var i := ByMac(ls, mac);
    i >= 0 && ls[i].ip == ip && till <= ls[i].expires
  }

  datatype Timed = Timed(msg: Msg, at: nat)

  ghost predicate InOrder(ms: seq<Timed>, from: nat, to: nat)
    decreases |ms|
  {
    if ms == [] then from <= to else from <= ms[0].at && InOrder(ms[1..], ms[0].at, to)
  }

  function LeasesAfter(c: Config, ls: seq<Lease>, ms: seq<Timed>): seq<Lease>
    decreases |ms|
  {
    if ms == [] then ls else LeasesAfter(c, Decide(c, ls, ms[0].msg, ms[0].at).leases, ms[1..])
  }

  function RepliesTo(c: Config, ls: seq<Lease>, ms: seq<Timed>): seq<Reply>
    decreases |ms|
  {
    if ms == [] then []
    else
      var o := Decide(c, ls, ms[0].msg, ms[0].at);
      [o.reply] + RepliesTo(c, o.leases, ms[1..])
  }

  ghost function GrantsThrough(g: Grants, c: Config, ls: seq<Lease>, ms: seq<Timed>): Grants
    decreases |ms|
  {
    if ms == [] then g
    else
      var m, now := ms[0].msg, ms[0].at;
      GrantsThrough(GrantsAfter(g, c, ls, m, now), c, Decide(c, ls, m, now).leases, ms[1..])
  }

  lemma {:induction false} SoundThrough(c: Config, ls: seq<Lease>, g: Grants, ms: seq<Timed>, from: nat, to: nat)
    requires Sound(c, ls, g, from) && InOrder(ms, from, to)
    ensures Sound(c, LeasesAfter(c, ls, ms), GrantsThrough(g, c, ls, ms), to)
    decreases |ms|
  {
    hide Sound, Decide, GrantsAfter;
    if ms == [] {
      TimePasses(c, ls, g, from, to);
    } else {
      var m, now := ms[0].msg, ms[0].at;
      TimePasses(c, ls, g, from, now);
      DecideSound(c, ls, g, m, now);
      SoundThrough(c, Decide(c, ls, m, now).leases, GrantsAfter(g, c, ls, m, now), ms[1..], now, to);
    }
  }

  /** A client gives back what it holds with a RELEASE or a DECLINE, and in no other way. */
  ghost predicate GivesBack(m: Msg, mac: Mac) {
    m.mac == mac && (m.kind == Release || m.kind == Decline)
  }

  lemma GrantStays(c: Config, ls: seq<Lease>, g: Grants, m: Msg, now: nat, who: (Mac, Ip), till: nat)
    requires Sound(c, ls, g, now) && who in g && till <= g[who] && !GivesBack(m, who.0)
    ensures var g' := GrantsAfter(g, c, ls, m, now); who in g' && (now < till ==> till <= g'[who])
  {
    if now < till {
      var k :| Backs(ls, k, who, g[who]);
    }
  }

  lemma {:induction false} GrantLasts(c: Config, ls: seq<Lease>, g: Grants, ms: seq<Timed>, from: nat, to: nat,
                                      who: (Mac, Ip), till: nat)
    requires Sound(c, ls, g, from) && InOrder(ms, from, to) && to < till
    requires who in g && till <= g[who] && forall t <- ms :: !GivesBack(t.msg, who.0)
    ensures var g' := GrantsThrough(g, c, ls, ms); who in g' && till <= g'[who]
    decreases |ms|
  {
    hide Sound, Decide, GrantsAfter, GivesBack;
    if ms != [] {
      var m, now := ms[0].msg, ms[0].at;
      InOrderEnd(ms[1..], now, to);
      TimePasses(c, ls, g, from, now);
      DecideSound(c, ls, g, m, now);
      GrantStays(c, ls, g, m, now, who, till);
      GrantLasts(c, Decide(c, ls, m, now).leases, GrantsAfter(g, c, ls, m, now), ms[1..], now, to, who, till);
    }
  }

  /** An acknowledged address is not acknowledged to anybody else before the lease is over or
      given back, whatever is sent in between. */
  lemma AckedToOneOnly(c: Config, ls: seq<Lease>, g: Grants, a: Timed, ms: seq<Timed>, b: Timed, ip: Ip)
    requires Sound(c, ls, g, a.at) && Decide(c, ls, a.msg, a.at).reply == Ack(ip)
    requires InOrder(ms, a.at, b.at) && b.at < a.at + c.leaseMs && forall t <- ms :: !GivesBack(t.msg, a.msg.mac)
    requires Decide(c, LeasesAfter(c, Decide(c, ls, a.msg, a.at).leases, ms), b.msg, b.at).reply == Ack(ip)
    ensures b.msg.mac == a.msg.mac
  {
    var ls1, g1 := Decide(c, ls, a.msg, a.at).leases, GrantsAfter(g, c, ls, a.msg, a.at);
    var till := a.at + c.leaseMs;
    DecideSound(c, ls, g, a.msg, a.at);
    GrantLasts(c, ls1, g1, ms, a.at, b.at, (a.msg.mac, ip), till);
    SoundThrough(c, ls1, g1, ms, a.at, b.at);
    var ls2, g2 := LeasesAfter(c, ls1, ms), GrantsThrough(g1, c, ls1, ms);
    DecideSound(c, ls2, g2, b.msg, b.at);
    GrantStays(c, ls2, g2, b.msg, b.at, (a.msg.mac, ip), till);
    NoDoubleLease(c, Decide(c, ls2, b.msg, b.at).leases, GrantsAfter(g2, c, ls2, b.msg, b.at), b.at,
                  a.msg.mac, b.msg.mac, ip);
  }

  lemma {:induction false} ReplyAt(c: Config, ls: seq<Lease>, ms: seq<Timed>, i: nat)
    requires i < |ms|
    ensures |RepliesTo(c, ls, ms)| == |ms|
    ensures RepliesTo(c, ls, ms)[i] == Decide(c, LeasesAfter(c, ls, ms[..i]), ms[i].msg, ms[i].at).reply
    decreases |ms|
  {
    hide Decide;
    var ls' := Decide(c, ls, ms[0].msg, ms[0].at).leases;
    if i > 0 {
      ReplyAt(c, ls', ms[1..], i - 1);
      assert ms[..i][1..] == ms[1..][..i - 1];
    } else if |ms| > 1 {
      ReplyAt(c, ls', ms[1..], 0);
    }
  }

  lemma {:induction false} LeasesConcat(c: Config, ls: seq<Lease>, xs: seq<Timed>, ys: seq<Timed>)
    ensures LeasesAfter(c, ls, xs + ys) == LeasesAfter(c, LeasesAfter(c, ls, xs), ys)
    decreases |xs|
  {
    hide Decide;
    if xs == [] {
      assert xs + ys == ys;
    } else {
      LeasesConcat(c, Decide(c, ls, xs[0].msg, xs[0].at).leases, xs[1..], ys);
      assert (xs + ys)[1..] == xs[1..] + ys;
    }
  }

  /** The clock does not go back. */
  ghost predicate Timely(ms: seq<Timed>) {
    forall i, j :: 0 <= i < j < |ms| ==> ms[i].at <= ms[j].at
  }

  lemma {:induction false} TimelyInOrder(ms: seq<Timed>, from: nat, to: nat)
    requires Timely(ms) && from <= to && forall t <- ms :: from <= t.at <= to
    ensures InOrder(ms, from, to)
    decreases |ms|
  {
    if ms != [] {
      forall t | t in ms[1..] ensures ms[0].at <= t.at <= to {
        var k :| 1 <= k < |ms| && ms[k] == t;
      }
      assert ms[0] in ms;
      TimelyInOrder(ms[1..], ms[0].at, to);
    }
  }

  lemma LeasesBetween(c: Config, ls: seq<Lease>, ms: seq<Timed>, i: nat, j: nat)
    requires i < j <= |ms|
    ensures LeasesAfter(c, ls, ms[..j]) ==
              LeasesAfter(c, Decide(c, LeasesAfter(c, ls, ms[..i]), ms[i].msg, ms[i].at).leases, ms[i + 1..j])
  {
    hide Decide;
    var mid := ms[i + 1..j];
    assert ms[..j] == ms[..i] + ([ms[i]] + mid);
    LeasesConcat(c, ls, ms[..i], [ms[i]] + mid);
    assert ([ms[i]] + mid)[1..] == mid;
  }

  lemma TimelyBetween(ms: seq<Timed>, i: nat, j: nat)
    requires Timely(ms) && i < j < |ms|
    ensures InOrder(ms[i + 1..j], ms[i].at, ms[j].at) && InOrder(ms[..i], 0, ms[i].at)
  {
    hide InOrder;
    TimelyInOrder(ms[i + 1..j], ms[i].at, ms[j].at);
    TimelyInOrder(ms[..i], 0, ms[i].at);
  }

  /** Over every run of a new server, told by its replies alone: if two messages less than a
      lease apart are both acknowledged on one address, they come from one client, or the first
      of the two has given the address back in between. */
  lemma NoDoubleAck(c: Config, ms: seq<Timed>, i: nat, j: nat, ip: Ip)
    requires Timely(ms) && i < j < |ms| && |RepliesTo(c, BLANKS, ms)| == |ms|
    requires RepliesTo(c, BLANKS, ms)[i] == RepliesTo(c, BLANKS, ms)[j] == Ack(ip)
    requires ms[j].at < ms[i].at + c.leaseMs
    ensures ms[i].msg.mac == ms[j].msg.mac || exists k :: i < k < j && GivesBack(ms[k].msg, ms[i].msg.mac)
  {
    hide Decide, Sound, GivesBack, InOrder, RepliesTo, LeasesAfter, Timely, GrantsThrough;
    var ls, mid := LeasesAfter(c, BLANKS, ms[..i]), ms[i + 1..j];
    ReplyAt(c, BLANKS, ms, i);
    ReplyAt(c, BLANKS, ms, j);
    LeasesBetween(c, BLANKS, ms, i, j);
    TimelyBetween(ms, i, j);
    BlanksSound(c);
    SoundThrough(c, BLANKS, map[], ms[..i], 0, ms[i].at);
    if forall k :: i < k < j ==> !GivesBack(ms[k].msg, ms[i].msg.mac) {
      forall t | t in mid ensures !GivesBack(t.msg, ms[i].msg.mac) {
        var k :| 0 <= k < |mid| && mid[k] == t;
        assert t == ms[i + 1 + k];
      }
      AckedToOneOnly(c, ls, GrantsThrough(map[], c, BLANKS, ms[..i]), ms[i], mid, ms[j], ip);
    }
  }

  lemma BlanksSound(c: Config)
    ensures Sound(c, BLANKS, map[], 0)
  {
  }

  /** Another client's message cannot touch a reservation that has not run out. */
  lemma OthersKeepReservation(c: Config, ls: seq<Lease>, m: Msg, now: nat, mac: Mac, ip: Ip, till: nat)
    requires Reserved(ls, mac, ip, till) && m.mac != mac && now < till
    ensures Reserved(Decide(c, ls, m, now).leases, mac, ip, till)
  {
    var i := ByMac(ls, mac);
    var ls' := Decide(c, ls, m, now).leases;
    assert |ls'| == |ls| && ls'[i] == ls[i];
    forall k | 0 <= k < i ensures !Belongs(ls'[k], mac) {
    }
  }

  lemma {:induction false} ReservationLasts(c: Config, ls: seq<Lease>, ms: seq<Timed>, from: nat, to: nat, mac: Mac,
                                            ip: Ip, till: nat)
    requires Reserved(ls, mac, ip, till) && InOrder(ms, from, to) && to < till
    requires forall t <- ms :: t.msg.mac != mac
    ensures Reserved(LeasesAfter(c, ls, ms), mac, ip, till)
    decreases |ms|
  {
    if ms != [] {
      InOrderEnd(ms[1..], ms[0].at, to);
      OthersKeepReservation(c, ls, ms[0].msg, ms[0].at, mac, ip, till);
      ReservationLasts(c, Decide(c, ls, ms[0].msg, ms[0].at).leases, ms[1..], ms[0].at, to, mac, ip, till);
    }
  }

  lemma {:induction false} InOrderEnd(ms: seq<Timed>, from: nat, to: nat)
    requires InOrder(ms, from, to)
    ensures from <= to
    decreases |ms|
  {
    if ms != [] {
      InOrderEnd(ms[1..], ms[0].at, to);
    }
  }

  /** The slot a DISCOVER leaves first for its client is the offered one, if and only
      if it does not pass over an older, lapsed record of the same client. */
  ghost predicate PassesOver(c: Config, ls: seq<Lease>, mac: Mac, now: nat) {
    var i := ByMac(ls, mac);
    i >= 0 && Lapsed(ls[i], now) && Pick(ls, c.size, now) > i
  }

  ghost function OfferTill(c: Config, ls: seq<Lease>, mac: Mac, now: nat): nat {
    var i := ByMac(ls, mac);
    if i >= 0 && !Lapsed(ls[i], now) then ls[i].expires else now + c.leaseMs
  }

  lemma OfferReserves(c: Config, ls: seq<Lease>, m: Msg, now: nat)
    requires m.kind == Discover && Decide(c, ls, m, now).reply.Offer? && !PassesOver(c, ls, m.mac, now)
    ensures Reserved(Decide(c, ls, m, now).leases, m.mac, Decide(c, ls, m, now).reply.ip, OfferTill(c, ls, m.mac, now))
    // and till then the client's record lasts
    ensures var o := Decide(c, ls, m, now);
            var l := Lease(true, m.mac, o.reply.ip, OfferTill(c, ls, m.mac, now));
            exists k :: Known(o.leases, m.mac, k) && o.leases[k] == l
  {
    var i, j := ByMac(ls, m.mac), Pick(ls, c.size, now);
    var ls' := Decide(c, ls, m, now).leases;
    if !(i >= 0 && !Lapsed(ls[i], now)) {
      assert Belongs(ls'[j], m.mac);
      forall k | 0 <= k < j ensures !Belongs(ls'[k], m.mac) {
      }
      assert Known(ls', m.mac, j);
    } else {
      assert Known(ls', m.mac, i);
    }
  }

  /** A client that asks for what it was offered, before that runs out, is given it,
      whatever other clients sent in between. */
  lemma OfferHonoured(c: Config, ls: seq<Lease>, d: Msg, t0: nat, ms: seq<Timed>, q: Msg, t1: nat)
    requires d.kind == Discover && q.kind == Request && q.mac == d.mac
    requires var o := Decide(c, ls, d, t0); o.reply.Offer? && (q.reqIp == o.reply.ip || q.reqIp == 0)
    requires InOrder(ms, t0, t1) && t1 < OfferTill(c, ls, d.mac, t0) && forall t <- ms :: t.msg.mac != d.mac
    requires !PassesOver(c, ls, d.mac, t0)
    ensures var o := Decide(c, ls, d, t0);
            Decide(c, LeasesAfter(c, o.leases, ms), q, t1).reply == Ack(o.reply.ip)
  {
    var o := Decide(c, ls, d, t0);
    OfferReserves(c, ls, d, t0);
    ReservationLasts(c, o.leases, ms, t0, t1, d.mac, o.reply.ip, OfferTill(c, ls, d.mac, t0));
  }

  /** Exactly then: right after an offer the client is acknowledged on the offered
      address if and only if no lapsed record of its own was passed over. */
  lemma OfferHonouredIff(c: Config, ls: seq<Lease>, g: Grants, d: Msg, now: nat)
    requires Sound(c, ls, g, now) && d.kind == Discover && Decide(c, ls, d, now).reply.Offer?
    requires Decide(c, ls, d, now).reply.ip != 0
    ensures var o := Decide(c, ls, d, now);
            Decide(c, o.leases, Msg(Request, d.mac, o.reply.ip), now).reply == Ack(o.reply.ip) <==>
                !PassesOver(c, ls, d.mac, now)
  {
    var o := Decide(c, ls, d, now);
    if PassesOver(c, ls, d.mac, now) {
      var i, j := ByMac(ls, d.mac), Pick(ls, c.size, now);
      assert ByMac(o.leases, d.mac) == i by {
        assert Belongs(o.leases[i], d.mac);
        forall k | 0 <= k < i ensures !Belongs(o.leases[k], d.mac) {
        }
      }
      assert PoolIp(c.base, i) != PoolIp(c.base, j) by {
        if PoolIp(c.base, i) == PoolIp(c.base, j) {
          PoolIpInjective(c.base, i, j);
        }
      }
    } else {
      OfferReserves(c, ls, d, now);
    }
  }

  /** A declined address is not kept back until its lease runs out: it is the very next one
      offered if and only if no lower slot of the pool was free. */
  lemma DeclinedIsOfferedNextIff(c: Config, ls: seq<Lease>, g: Grants, m: Msg, d: Msg, now: nat)
    requires Sound(c, ls, g, now) && m.kind == Decline && ByMac(ls, m.mac) >= 0 && d.kind == Discover
    requires var after := Decide(c, ls, m, now).leases;
             var j := ByMac(after, d.mac); j == -1 || Lapsed(after[j], now)
    ensures var i, f := ByMac(ls, m.mac), FirstFree(ls, c.size);
            Decide(c, Decide(c, ls, m, now).leases, d, now).reply == Offer(ls[i].ip) <==> f == -1 || f > i
  {
    SoundSlots(c, ls, g, now);
    var i, f := ByMac(ls, m.mac), FirstFree(ls, c.size);
    var after := Decide(c, ls, m, now).leases;
    hide Sound, PoolIp, Decide, ByMac;
    DeclineFrees(c, ls, m, now);
    FreedFirst(ls, i, c.size);
    var k := FirstFree(after, c.size);
    DiscoverTakesFree(c, after, d, now);
    if PoolIp(c.base, k) == PoolIp(c.base, i) {
      PoolIpInjective(c.base, k, i);
    }
  }

  lemma ThreeMessages(c: Config, ls: seq<Lease>, a: Timed, b: Timed, d: Timed)
    ensures var x := Decide(c, ls, a.msg, a.at);
            var y := Decide(c, x.leases, b.msg, b.at);
            RepliesTo(c, ls, [a, b, d]) == [x.reply, y.reply, Decide(c, y.leases, d.msg, d.at).reply]
  {
    hide Decide;
    var x := Decide(c, ls, a.msg, a.at);
    var y := Decide(c, x.leases, b.msg, b.at);
    assert [a, b, d][1..] == [b, d] && [b, d][1..] == [d] && [d][1..] == [];
    assert RepliesTo(c, y.leases, [d]) == [Decide(c, y.leases, d.msg, d.at).reply];
    assert RepliesTo(c, x.leases, [b, d]) == [y.reply] + RepliesTo(c, y.leases, [d]);
  }

  /** A failing exchange: a client discovers, lets the offer run out, discovers again, and is
      refused the address it has just been offered. */
  lemma OfferedThenRefused(c: Config)
    requires c.base == 10 && c.size == 4 && c.leaseMs == 1000
    ensures RepliesTo(c, BLANKS, [Timed(Msg(Discover, 1, 0), 0), Timed(Msg(Discover, 1, 0), 1000),
                                  Timed(Msg(Request, 1, 11), 1000)]) == [Offer(10), Offer(11), Nak]
  {
    var l, n := Lease(true, 1, 10, 1000), Lease(true, 1, 11, 2000);
    var ls, ms := [l, BLANK, BLANK, BLANK], [l, n, BLANK, BLANK];
    assert BLANKS[0 := l] == ls && ls[1 := n] == ms;
    ThreeMessages(c, BLANKS, Timed(Msg(Discover, 1, 0), 0), Timed(Msg(Discover, 1, 0), 1000),
                Timed(Msg(Request, 1, 11), 1000));
    assert ByMac(BLANKS, 1) == -1 && FirstFree(BLANKS, 4) == 0;
    assert Decide(c, BLANKS, Msg(Discover, 1, 0), 0) == Outcome(ls, Offer(10));
    assert ByMac(ls, 1) == 0 && FirstFree(ls, 4) == 1;
    assert Decide(c, ls, Msg(Discover, 1, 0), 1000) == Outcome(ms, Offer(11));
    assert ByMac(ms, 1) == 0;
  }

  /** Another: an address one client declines is offered to the next that asks. */
  lemma DeclinedThenOffered(c: Config)
    requires c.base == 10 && c.size == 4 && c.leaseMs == 1000
    ensures RepliesTo(c, BLANKS, [Timed(Msg(Discover, 1, 0), 0), Timed(Msg(Decline, 1, 10), 0),
                                  Timed(Msg(Discover, 2, 0), 0)]) == [Offer(10), Silent, Offer(10)]
  {
    var l := Lease(true, 1, 10, 1000);
    var ls, ms := [l, BLANK, BLANK, BLANK], [l.(used := false), BLANK, BLANK, BLANK];
    assert BLANKS[0 := l] == ls && ls[0 := l.(used := false)] == ms;
    ThreeMessages(c, BLANKS, Timed(Msg(Discover, 1, 0), 0), Timed(Msg(Decline, 1, 10), 0),
                Timed(Msg(Discover, 2, 0), 0));
    assert ByMac(BLANKS, 1) == -1 && FirstFree(BLANKS, 4) == 0;
    assert Decide(c, BLANKS, Msg(Discover, 1, 0), 0) == Outcome(ls, Offer(10));
    assert ByMac(ls, 1) == 0;
    assert Decide(c, ls, Msg(Decline, 1, 10), 0) == Outcome(ms, Silent);
    assert ByMac(ms, 2) == -1 && FirstFree(ms, 4) == 0;
  }

  lemma DeclineFrees(c: Config, ls: seq<Lease>, m: Msg, now: nat)
    requires m.kind == Decline && ByMac(ls, m.mac) >= 0
    ensures var i := ByMac(ls, m.mac); Decide(c, ls, m, now).leases == ls[i := ls[i].(used := false)]
  {
  }

  lemma DiscoverTakesFree(c: Config, ls: seq<Lease>, d: Msg, now: nat)
    requires d.kind == Discover && FirstFree(ls, c.size) >= 0
    requires ByMac(ls, d.mac) == -1 || Lapsed(ls[ByMac(ls, d.mac)], now)
    ensures Decide(c, ls, d, now).reply == Offer(PoolIp(c.base, FirstFree(ls, c.size)))
  {
  }

  /** Freeing slot i makes it the first free one unless a lower one was free already. */
  lemma FreedFirst(ls: seq<Lease>, i: nat, n: nat)
    requires i < |ls| && i < n && ls[i].used
    ensures var f := FirstFree(ls, n);
            FirstFree(ls[i := ls[i].(used := false)], n) == if f == -1 || f > i then i else f
  {
    var after := ls[i := ls[i].(used := false)];
    var f, k := FirstFree(ls, n), FirstFree(after, n);
    assert !after[i].used;
    if 0 <= f < i {
      assert after[f] == ls[f];
    }
    if 0 <= k && k != i {
      assert after[k] == ls[k];
    }
  }

  // ---------------------------------------------------------------- the server

  class Server {
    const c: Config
    var leases: seq<Lease>

    ghost var grants: Grants
    ghost var clock: nat

    ghost predicate Valid()
      reads this
    {
      Sound(c, leases, grants, clock)
    }

    constructor (c: Config)
      ensures Valid() && grants == map[] && clock == 0 && leases == BLANKS && this.c == c
    {
      this.c := c;
      leases, grants, clock := BLANKS, map[], 0;
    }

    method LeaseByMac(mac: Mac) returns (r: int)
      ensures r == ByMac(leases, mac)
    {
      r := -1;
      for k := 0 to |leases|
        invariant ByMac(leases, mac) == ByMac(leases, mac, k)
      {
        if leases[k].used && leases[k].mac == mac {
          return k;
        }
      }
    }

    method LeaseFreePick(now: nat) returns (r: int)
      requires |leases| == LEASES
      ensures r == Pick(leases, c.size, now)
    {
      var k := 0;
      while k < c.size && k < LEASES
        invariant k <= LEASES && FirstFree(leases, c.size) == FirstFree(leases, c.size, k)
      {
        if !leases[k].used {
          return k;
        }
        k := k + 1;
      }
      PastEnd(leases, c.size, now, k);
      k := 0;
      while k < c.size && k < LEASES
        invariant k <= LEASES && FirstLapsed(leases, c.size, now) == FirstLapsed(leases, c.size, now, k)
      {
        if leases[k].expires <= now {
          return k;
        }
        k := k + 1;
      }
      PastEnd(leases, c.size, now, k);
      return -1;
    }

    /** Decides one message and updates the leases in place. */
    method OnMessage(m: Msg, now: nat) returns (reply: Reply)
      requires Valid() && clock <= now
      modifies this
      ensures Valid() && clock == now
      ensures leases == Decide(c, old(leases), m, now).leases && reply == Decide(c, old(leases), m, now).reply
      ensures grants == GrantsAfter(old(grants), c, old(leases), m, now)
    {
      TimePasses(c, leases, grants, clock, now);
      SoundSlots(c, leases, grants, now);
      DecideSound(c, leases, grants, m, now);
      hide Sound, Decide, GrantsAfter;
      grants := GrantsAfter(grants, c, leases, m, now);
      clock := now;
      match m.kind {
        case Discover => reply := OnDiscover(m, now);
        case Request => reply := OnRequest(m, now);
        case _ => reply := OnOther(m, now);
      }
    }

    /** RELEASE and DECLINE free the client's record; other kinds do nothing. */
    method OnOther(m: Msg, now: nat) returns (reply: Reply)
      requires |leases| == LEASES && m.kind != Discover && m.kind != Request
      modifies this`leases
      ensures leases == Decide(c, old(leases), m, now).leases && reply == Decide(c, old(leases), m, now).reply
    {
      reply := Silent;
      if m.kind == Release || m.kind == Decline {
        var l := LeaseByMac(m.mac);
        if l >= 0 {
          leases := leases[l := leases[l].(used := false)];
        }
      }
    }

    method OnDiscover(m: Msg, now: nat) returns (reply: Reply)
      requires |leases| == LEASES && m.kind == Discover
      modifies this`leases
      ensures leases == Decide(c, old(leases), m, now).leases && reply == Decide(c, old(leases), m, now).reply
    {
      PickRange(leases, c.size, now);
      hide ByMac, Pick, PoolIp;
      reply := Silent;
      var l := LeaseByMac(m.mac);
      if l < 0 || leases[l].expires <= now {
        l := LeaseFreePick(now);
        if l < 0 {
          return;
        }
        leases := leases[l := Lease(true, m.mac, PoolIp(c.base, l), now + c.leaseMs)];
      }
      reply := Offer(leases[l].ip);
    }

    method OnRequest(m: Msg, now: nat) returns (reply: Reply)
      requires |leases| == LEASES && m.kind == Request
      modifies this`leases
      ensures leases == Decide(c, old(leases), m, now).leases && reply == Decide(c, old(leases), m, now).reply
    {
      hide ByMac, Takeable, PoolIp, InPool;
      reply := Nak;
      var l := LeaseByMac(m.mac);
      if l >= 0 {
        var ip := if m.reqIp != 0 then m.reqIp else leases[l].ip;
        if ip != leases[l].ip {
          return;
        }
        leases := leases[l := leases[l].(expires := now + c.leaseMs)];
        reply := Ack(leases[l].ip);
      } else if InPool(c, m.reqIp) {
        var f := SlotFor(m.reqIp, now);
        if f >= 0 {
          leases := leases[f := Lease(true, m.mac, m.reqIp, now + c.leaseMs)];
          reply := Ack(m.reqIp);
        }
      }
    }

    method SlotFor(ip: Ip, now: nat) returns (f: int)
      requires |leases| == LEASES
      ensures f == Takeable(c, leases, ip, now)
    {
      var k := 0;
      while k < c.size && k < LEASES
        invariant k <= LEASES && Takeable(c, leases, ip, now) == Takeable(c, leases, ip, now, k)
      {
        if PoolIp(c.base, k) == ip && (!leases[k].used || leases[k].expires <= now) {
          return k;
        }
        k := k + 1;
      }
      NotTakeable(c, leases, ip, now, k);
      return -1;
    }

    /** Any run of messages with a clock that does not go back. */
    method Run(ms: seq<Timed>, end: nat) returns (replies: seq<Reply>)
      requires Valid() && InOrder(ms, clock, end)
      modifies this
      ensures Valid() && replies == RepliesTo(c, old(leases), ms) && leases == LeasesAfter(c, old(leases), ms)
      ensures grants == GrantsThrough(old(grants), c, old(leases), ms)
    {
      hide Sound, Decide, GrantsAfter;
      replies := [];
      for n := 0 to |ms|
        invariant Valid() && |replies| == n && InOrder(ms[n..], clock, end)
        invariant LeasesAfter(c, old(leases), ms) == LeasesAfter(c, leases, ms[n..])
        invariant RepliesTo(c, old(leases), ms) == replies + RepliesTo(c, leases, ms[n..])
        invariant GrantsThrough(old(grants), c, old(leases), ms) == GrantsThrough(grants, c, leases, ms[n..])
      {
        assert ms[n..][0] == ms[n] && ms[n..][1..] == ms[n + 1..];
        var r := OnMessage(ms[n].msg, ms[n].at);
        replies := replies + [r];
      }
    }
  }

  lemma PickRange(ls: seq<Lease>, n: nat, now: nat)
    ensures -1 <= Pick(ls, n, now) < |ls|
  {
  }

  lemma {:induction false} PastEnd(ls: seq<Lease>, n: nat, now: nat, i: nat)
    requires i <= |ls| && (i == |ls| || n <= i)
    ensures FirstFree(ls, n, i) == -1 && FirstLapsed(ls, n, now, i) == -1
    decreases |ls| - i
  {
    if i < |ls| {
      PastEnd(ls, n, now, i + 1);
    }
  }

  lemma {:induction false} NotTakeable(c: Config, ls: seq<Lease>, ip: Ip, now: nat, i: nat)
    requires i <= |ls| && (i == |ls| || c.size <= i)
    ensures Takeable(c, ls, ip, now, i) == -1
    decreases |ls| - i
  {
    if i < |ls| {
      NotTakeable(c, ls, ip, now, i + 1);
    }
  }
}

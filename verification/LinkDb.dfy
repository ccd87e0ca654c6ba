/** The table of links: 255 records, found through 510 buckets of index-linked
chains, standing for a plain map from link id to record. */
module LinkDb {
  import opened Words

  const CAPACITY := 255          // RNS_DB_MAX_LINK_COUNT
  const BUCKETS := 510           // RNS_DB_HASH_SIZE
  const NONE := 0xFF             // RNS_DB_INDEX_NONE
  const TIMEOUT := 900           // RNS_LINK_TIMEOUT_S

  type Mac = s: seq<Byte> | |s| == 6 witness [0, 0, 0, 0, 0, 0]

  const UNKNOWN: Mac := [0xFF, 0xFF, 0xFF, 0xFF, 0xFF, 0xFF]

  datatype LinkState = Closed | RequestSent | ProofReceived | Open

  datatype PacketType = Data | Announce | LinkRequest | Proof

  datatype Direction = Rx | Tx

  /** What the caller parsed out of a packet. */
  datatype Packet = Packet(linkId: Id, destination: Id, packetType: PacketType, toLink: bool,
                           isClose: bool, isProofContext: bool, hops: Byte, payloadLen: nat)

  /** Everything a record says about its link. */
  datatype Info = Info(destination: Id, firstSeen: int, lastRx: int, lastTx: int, rxBytes: nat, txBytes: nat,
                       rxPackets: nat, txPackets: nat, hops: Byte, state: LinkState, mac: Mac, mtu: nat)

  /** A slot: empty, or a record with its chain pointer. */
  datatype Slot = Empty | Record(id: Id, info: Info, next: nat)

  datatype Code = Ok | NoSlot | NoMemory

  // ------------------------------------------------------- meaning of a packet

  function Fresh(pkg: Packet, dir: Direction, now: int): Info {
    Info(pkg.destination, now, if dir == Rx then now else 0, if dir == Tx then now else 0, 0, 0, 0, 0,
         pkg.hops, Closed, UNKNOWN, 0)
  }

  function NextState(s: LinkState, pkg: Packet, dir: Direction): LinkState {
    if s == Open then s
    else if pkg.packetType == LinkRequest then
      if dir == Tx && s == Closed then RequestSent else s
    else if pkg.packetType == Proof || pkg.isProofContext then ProofReceived
    else if pkg.toLink then Open
    else s
  }

  function Counted(i: Info, pkg: Packet, dir: Direction, now: int): Info {
    if dir == Rx then
      i.(hops := pkg.hops, lastRx := now, rxPackets := i.rxPackets + 1, rxBytes := i.rxBytes + pkg.payloadLen)
    else
      i.(hops := pkg.hops, lastTx := now, txPackets := i.txPackets + 1, txBytes := i.txBytes + pkg.payloadLen)
  }

  function Updated(i: Info, pkg: Packet, dir: Direction, mac: Option<Mac>, mtu: nat, updateMtu: bool,
                   unicast: bool, now: int): Info {
    var c := Counted(i, pkg, dir, now);
    c.(mac := if mac.Some? && (unicast || i.mac == UNKNOWN) then mac.value else i.mac,
       mtu := if updateMtu then mtu else i.mtu,
       state := NextState(i.state, pkg, dir))
  }

  /** How far a link has come. */
  function Rank(s: LinkState): (r: nat)
    ensures (r == 0 <==> s == Closed) && (r <= 1 <==> s == Closed || s == RequestSent) && (r <= 2 <==> s != Open)
  {
    match s case Closed => 0 case RequestSent => 1 case ProofReceived => 2 case Open => 3
  }

  /** While a record lives its state only moves forward, a learned address moves
      only for frames addressed to us, and counters only grow. */
  lemma UpdateMonotone(i: Info, pkg: Packet, dir: Direction, mac: Option<Mac>, mtu: nat, updateMtu: bool,
                       unicast: bool, now: int)
    ensures var u := Updated(i, pkg, dir, mac, mtu, updateMtu, unicast, now);
            && Rank(i.state) <= Rank(u.state)
            && (i.mac != UNKNOWN && !unicast ==> u.mac == i.mac)
            && i.rxBytes <= u.rxBytes && i.txBytes <= u.txBytes
            && i.rxPackets + i.txPackets + 1 == u.rxPackets + u.txPackets
            && u.firstSeen == i.firstSeen && u.destination == i.destination
  {
  }

  function LastActivity(i: Info): int {
    var a := if i.lastRx > 0 then i.lastRx else 0;
    if i.lastTx > a then i.lastTx else a
  }

  predicate Expired(i: Info, now: int) {
    LastActivity(i) > 0 && now - LastActivity(i) > TIMEOUT
  }

  /** Active once, and in neither direction within the last 900 seconds. */
  ghost predicate Idle(i: Info, now: int) {
    && (i.lastRx > 0 || i.lastTx > 0)
    && (i.lastRx > 0 ==> now - i.lastRx > 900) && (i.lastTx > 0 ==> now - i.lastTx > 900)
  }

  lemma ExpiredIff(i: Info, now: int)
    ensures Expired(i, now) <==> Idle(i, now)
  {
  }

  // ------------------------------------------------------------- the structure

  /** The slot a chain goes on with after position j. */
  function After(chain: seq<nat>, j: int): nat
    requires -1 <= j < |chain|
  {
    if j + 1 < |chain| then chain[j + 1] else NONE
  }

  ghost predicate Chained(head: nat, chain: seq<nat>, links: seq<Slot>) {
    && head == After(chain, -1)
    && (forall j :: 0 <= j < |chain| ==> LinkAt(chain, links, j))
    && Distinct(chain)
  }

  /** Position j of a chain is a record that points at position j + 1. */
  ghost predicate LinkAt(chain: seq<nat>, links: seq<Slot>, j: nat)
    requires j < |chain|
  {
    chain[j] < |links| && links[chain[j]].Record? && links[chain[j]].next == After(chain, j)
  }

  function Live(links: seq<Slot>): nat {
    if links == [] then 0 else Live(links[..|links| - 1]) + (if links[|links| - 1].Record? then 1 else 0)
  }

  lemma {:induction false} LiveUpdate(links: seq<Slot>, i: nat, v: Slot)
    requires i < |links|
    ensures Live(links[i := v]) == Live(links) - (if links[i].Record? then 1 else 0) + (if v.Record? then 1 else 0)
    decreases |links|
  {
    var n := |links| - 1;
    if i == n {
      assert links[i := v][..n] == links[..n];
    } else {
      assert links[i := v][..n] == links[..n][i := v];
      LiveUpdate(links[..n], i, v);
    }
  }

  lemma {:induction false} LiveFull(links: seq<Slot>)
    ensures Live(links) <= |links|
    ensures Live(links) == |links| <==> forall i :: 0 <= i < |links| ==> links[i].Record?
  {
    if links != [] {
      var n := |links| - 1;
      LiveFull(links[..n]);
      if forall i :: 0 <= i < |links| ==> links[i].Record? {
        forall i | 0 <= i < n ensures links[..n][i].Record? {
        }
      }
      if Live(links) == |links| {
        forall i | 0 <= i < |links| ensures links[i].Record? {
          if i < n {
            assert links[..n][i] == links[i];
          }
        }
      }
    }
  }

  /** Slots and the index agree: one slot per id. */
  ghost predicate Indexed(links: seq<Slot>, slotOf: map<Id, nat>) {
    && (forall i :: 0 <= i < |links| && links[i].Record? ==> links[i].id in slotOf && slotOf[links[i].id] == i)
    && (forall id <- slotOf :: slotOf[id] < |links| && links[slotOf[id]].Record? && links[slotOf[id]].id == id)
  }

  /** Every record is in the chain of its own bucket, and chains hold nothing else. */
  ghost predicate Bucketed(links: seq<Slot>, buckets: seq<nat>, chains: seq<seq<nat>>, hash: Id -> nat) {
    && |buckets| == |chains| == BUCKETS
    && (forall b :: 0 <= b < BUCKETS ==> Chained(buckets[b], chains[b], links) && Homes(chains[b], links, hash, b))
  }

  /** A chain holds exactly the records whose ids hash to its bucket. */
  ghost predicate Homes(chain: seq<nat>, links: seq<Slot>, hash: Id -> nat, b: nat) {
    forall k: nat :: k in chain <==> Lives(k, links, hash, b)
  }

  ghost predicate Lives(k: nat, links: seq<Slot>, hash: Id -> nat, b: nat) {
    k < |links| && links[k].Record? && hash(links[k].id) % BUCKETS == b
  }

  ghost function Abstract(links: seq<Slot>, slotOf: map<Id, nat>): map<Id, Info>
    requires Indexed(links, slotOf)
  {
    map id | id in slotOf :: links[slotOf[id]].info
  }

  class LinkTable {
    const hash: Id -> nat
    var links: seq<Slot>
    var buckets: seq<nat>
    var count: nat

    ghost var chains: seq<seq<nat>>
    ghost var slotOf: map<Id, nat>

    ghost predicate Valid()
      reads this
    {
      && |links| == CAPACITY
      && Indexed(links, slotOf)
      && Bucketed(links, buckets, chains, hash)
      && count == Live(links)
    }

    ghost function View(): map<Id, Info>
      reads this
      requires Valid()
    {
      Abstract(links, slotOf)
    }

    constructor (hash: Id -> nat)
      ensures Valid() && View() == map[] && this.hash == hash
    {
      this.hash := hash;
      links, buckets, count := seq(CAPACITY, _ => Empty), seq(BUCKETS, _ => NONE), 0;
      chains, slotOf := seq(BUCKETS, _ => []), map[];
      new;
      LiveNone(links);
    }

    /** Walks the chain of the id's bucket. */
    method FindIndexById(id: Id) returns (r: int)
      requires Valid()
      ensures r == if id in View() then slotOf[id] else -1
    {
      hide Live, Homes;
      var bucket := hash(id) % BUCKETS;
      var index := buckets[bucket];
      ghost var chain := chains[bucket];
      ghost var j := 0;
      assert Chained(buckets[bucket], chain, links);
      while index != NONE
        invariant 0 <= j <= |chain| && index == After(chain, j - 1) && (j < |chain| ==> LinkAt(chain, links, j))
        invariant forall k :: 0 <= k < j ==> chain[k] < |links| && links[chain[k]].Record? && links[chain[k]].id != id
        decreases |chain| - j
      {
        if links[index].id == id {
          return index;
        }
        index := links[index].next;
        j := j + 1;
      }
      forall k | 0 <= k < |chain| ensures chain[k] < |links| && links[chain[k]].Record? {
        assert LinkAt(chain, links, k);
      }
      NotHome(links, hash, chain, bucket, id);
      return -1;
    }

    method FindFreeSlot() returns (r: int)
      requires Valid()
      ensures r == -1 <==> count == CAPACITY
      ensures r != -1 ==> 0 <= r < CAPACITY && links[r].Empty?
    {
      hide Indexed, Bucketed, Live;
      LiveFull(links);
      if count >= CAPACITY {
        return -1;
      }
      for i := 0 to CAPACITY
        invariant forall k :: 0 <= k < i ==> links[k].Record?
      {
        if links[i].Empty? {
          return i;
        }
      }
      assert false;
    }

    /** Unlinks and frees a record. */
    method RemoveIndex(index: nat)
      requires Valid() && index < CAPACITY
      modifies this
      ensures Valid()
      ensures View() == if old(links)[index].Empty? then old(View()) else old(View()) - {old(links)[index].id}
      ensures slotOf == if old(links)[index].Empty? then old(slotOf) else old(slotOf) - {old(links)[index].id}
      ensures forall i :: 0 <= i < CAPACITY && i != index ==>
                links[i].Empty? == old(links)[i].Empty? &&
                (links[i].Record? ==> links[i].id == old(links)[i].id && links[i].info == old(links)[i].info)
      ensures links[index].Empty?
    {
      hide Indexed, Bucketed, Live, Distinct, Abstract;
      if links[index].Empty? {
        return;
      }
      var id, next := links[index].id, links[index].next;
      var bucket := hash(id) % BUCKETS;
      ghost var at := PlaceOf(links, buckets, chains, hash, index);
      BucketFacts(links, buckets, chains, hash, bucket);
      ghost var chain := chains[bucket];
      CutDistinct(chain, at);
      var cur := buckets[bucket];
      if cur == index {
        assert at == 0;
        buckets := buckets[bucket := next];
      } else {
        ghost var j := 0;
        assert LinkAt(chain, links, 0);
        while links[cur].next != index
          invariant unchanged(this)
          invariant 0 <= j < at && cur == chain[j] && cur < CAPACITY && links[cur].Record? && LinkAt(chain, links, j)
          decreases at - j
        {
          cur := links[cur].next;
          j := j + 1;
          assert LinkAt(chain, links, j);
        }
        assert j == at - 1;
        links := links[cur := links[cur].(next := next)];
      }
      links := links[index := Empty];
      CutSlots(old(links), links, chain, at, index);
      CutLive(old(links), links, chain, at, index);
      count := count - 1;
      UnlinkedIndex(old(links), links, chain, at, index, slotOf);
      UnlinkedBuckets(old(links), old(buckets), chains, hash, index, at, links, buckets);
      chains := chains[bucket := chain[..at] + chain[at + 1..]];
      slotOf := slotOf - {id};
    }

    /** Puts a new record at the head of its bucket's chain. */
    method Insert(slot: nat, id: Id, info: Info)
      requires Valid() && slot < CAPACITY && links[slot].Empty? && id !in View()
      modifies this
      ensures Valid() && View() == old(View())[id := info] && id in slotOf && slotOf[id] == slot
    {
      hide Indexed, Bucketed, Live;
      var bucket := hash(id) % BUCKETS;
      BucketFacts(links, buckets, chains, hash, bucket);
      var r := Record(id, info, buckets[bucket]);
      LiveUpdate(links, slot, r);
      InsertedIndex(links, slot, r, slotOf);
      InsertedBuckets(links, buckets, chains, hash, slot, r);
      links := links[slot := r];
      buckets := buckets[bucket := slot];
      count := count + 1;
      chains := chains[bucket := [slot] + chains[bucket]];
      slotOf := slotOf[id := slot];
    }

    /** Rewrites the information of a record in place. */
    method Rewrite(slot: nat, info: Info)
      requires Valid() && slot < CAPACITY && links[slot].Record?
      modifies this`links
      ensures Valid() && View() == old(View())[links[slot].id := info]
      ensures links == old(links)[slot := old(links)[slot].(info := info)]
    {
      hide Indexed, Bucketed, Live;
      var r := links[slot].(info := info);
      LiveUpdate(links, slot, r);
      RewrittenIndex(links, slot, r, slotOf);
      RewrittenBuckets(links, buckets, chains, hash, slot, r);
      links := links[slot := r];
    }

    /** Registers one packet: on the map, a close removes its id, anything else
        creates the record if there is room and applies the packet to it. */
    method Register(pkg: Packet, dir: Direction, mac: Option<Mac>, mtu: nat, updateMtu: bool, unicast: bool,
                    now: int, malloc: bool) returns (r: Code)
      requires Valid()
      modifies this
      ensures Valid()
      ensures pkg.isClose ==> r == Ok && View() == old(View()) - {pkg.linkId}
      ensures !pkg.isClose && pkg.linkId in old(View()) ==> r == Ok
      ensures !pkg.isClose && pkg.linkId !in old(View()) ==>
                r == if old(count) == CAPACITY then NoSlot else if !malloc then NoMemory else Ok
      ensures r != Ok ==> View() == old(View())
      ensures !pkg.isClose && r == Ok ==>
                View() == old(View())[pkg.linkId := Updated(
                  if pkg.linkId in old(View()) then old(View())[pkg.linkId] else Fresh(pkg, dir, now),
                  pkg, dir, mac, mtu, updateMtu, unicast, now)]
    {
      hide Bucketed, Live, Updated, Fresh;
      var index := FindIndexById(pkg.linkId);
      if pkg.isClose {
        if index >= 0 {
          RemoveIndex(index);
        }
        return Ok;
      }
      if index < 0 {
        index := FindFreeSlot();
        if index < 0 {
          return NoSlot;
        }
        if !malloc {
          return NoMemory;
        }
        Insert(index, pkg.linkId, Fresh(pkg, dir, now));
      }
      Rewrite(index, Updated(links[index].info, pkg, dir, mac, mtu, updateMtu, unicast, now));
      return Ok;
    }

    /** Drops every link idle for longer than the timeout, and no other. */
    method SweepExpired(now: int)
      requires Valid()
      modifies this
      ensures Valid()
      ensures View() == map id | id in old(View()) && !Expired(old(View())[id], now) :: old(View())[id]
      // a link stays if it was never active, or was within the last 900 seconds
      ensures forall id <- old(View()) ::
                var i := old(View())[id];
                id in View() <==> || (i.lastRx <= 0 && i.lastTx <= 0)
                                  || (i.lastRx > 0 && now - i.lastRx <= 900) || (i.lastTx > 0 && now - i.lastTx <= 900)
    {
      hide Bucketed, Live, Expired, Indexed, Abstract, Kept, Homed;
      ghost var all, home := View(), slotOf;
      KeptNone(links, slotOf, now);
      for i := 0 to CAPACITY
        invariant Valid()
        invariant View() == Kept(all, home, i, now) && slotOf == Homed(View(), home)
      {
        SlotHolds(links, slotOf, i);
        KeptNext(all, home, i, now, View(), slotOf, links[i]);
        if links[i].Record? && Expired(links[i].info, now) {
          RemoveIndex(i);
        }
      }
      KeptAll(all, home, CAPACITY, now);
      forall id | id in all ensures Expired(all[id], now) <==> Idle(all[id], now) {
        ExpiredIff(all[id], now);
      }
    }
  }

  /** What a sweep has left of a map after visiting the slots below i. */
  ghost function Kept(all: map<Id, Info>, home: map<Id, nat>, i: nat, now: int): map<Id, Info> {
    map id | id in all && id in home && !(home[id] < i && Expired(all[id], now)) :: all[id]
  }

  /** The slots of what is left. */
  ghost function Homed(left: map<Id, Info>, home: map<Id, nat>): map<Id, nat> {
    map id | id in left && id in home :: home[id]
  }

  /** Visiting one more slot drops its record if that is expired, and nothing else. */
  lemma KeptNext(all: map<Id, Info>, home: map<Id, nat>, i: nat, now: int,
                 left: map<Id, Info>, slots: map<Id, nat>, s: Slot)
    requires left == Kept(all, home, i, now) && slots == Homed(left, home)
    requires forall id :: id in slots && slots[id] == i <==> s.Record? && s.id == id
    requires s.Record? ==> s.id in left && left[s.id] == s.info
    requires left.Keys == slots.Keys
    ensures var drop := s.Record? && Expired(s.info, now);
            && Kept(all, home, i + 1, now) == (if drop then left - {s.id} else left)
            && Homed(Kept(all, home, i + 1, now), home) == (if drop then slots - {s.id} else slots)
  {
    hide Expired;
    var next := Kept(all, home, i + 1, now);
    forall id | id in left ensures id in next <==> !(s.Record? && s.id == id && Expired(s.info, now)) {
      assert id in slots && slots[id] == home[id];
    }
  }

  lemma KeptAll(all: map<Id, Info>, home: map<Id, nat>, n: nat, now: int)
    requires all.Keys == home.Keys && forall id <- home :: home[id] < n
    ensures Kept(all, home, n, now) == map id | id in all && !Expired(all[id], now) :: all[id]
  {
    hide Expired;
  }

  lemma SlotHolds(links: seq<Slot>, slotOf: map<Id, nat>, i: nat)
    requires Indexed(links, slotOf) && i < |links|
    ensures forall id :: id in slotOf && slotOf[id] == i <==> links[i].Record? && links[i].id == id
    ensures links[i].Record? ==>
              links[i].id in Abstract(links, slotOf) && Abstract(links, slotOf)[links[i].id] == links[i].info
    ensures Abstract(links, slotOf).Keys == slotOf.Keys
  {
  }

  lemma KeptNone(links: seq<Slot>, slotOf: map<Id, nat>, now: int)
    requires Indexed(links, slotOf)
    ensures Abstract(links, slotOf) == Kept(Abstract(links, slotOf), slotOf, 0, now)
    ensures slotOf == Homed(Abstract(links, slotOf), slotOf) && Abstract(links, slotOf).Keys == slotOf.Keys
    ensures forall id <- slotOf :: slotOf[id] < |links|
  {
  }

  /** The position of a record in the chain of its bucket. */
  ghost function PlaceOf(links: seq<Slot>, buckets: seq<nat>, chains: seq<seq<nat>>, hash: Id -> nat, i: nat): (j: nat)
    requires Bucketed(links, buckets, chains, hash) && i < |links| && links[i].Record?
    ensures j < |chains[hash(links[i].id) % BUCKETS]| && chains[hash(links[i].id) % BUCKETS][j] == i
  {
    var c := chains[hash(links[i].id) % BUCKETS];
    assert Homes(c, links, hash, hash(links[i].id) % BUCKETS);
    assert Lives(i, links, hash, hash(links[i].id) % BUCKETS);
    var j :| 0 <= j < |c| && c[j] == i;
    j
  }

  /** An id that is not met on its chain is in no slot. */
  lemma NotHome(links: seq<Slot>, hash: Id -> nat, chain: seq<nat>, b: nat, id: Id)
    requires Homes(chain, links, hash, b) && b == hash(id) % BUCKETS
    requires forall j :: 0 <= j < |chain| ==> chain[j] < |links| && links[chain[j]].Record? && links[chain[j]].id != id
    ensures forall k :: 0 <= k < |links| && links[k].Record? ==> links[k].id != id
  {
    forall k | 0 <= k < |links| && links[k].Record? ensures links[k].id != id {
      if links[k].id == id {
        assert Lives(k, links, hash, b);
      }
    }
  }

  lemma BucketFacts(links: seq<Slot>, buckets: seq<nat>, chains: seq<seq<nat>>, hash: Id -> nat, b: nat)
    requires Bucketed(links, buckets, chains, hash) && b < BUCKETS
    ensures |buckets| == |chains| == BUCKETS && Chained(buckets[b], chains[b], links)
  {
  }

  /** Links after a record at position `at` of its chain is cut out. */
  ghost predicate Cut(was: seq<Slot>, now: seq<Slot>, chain: seq<nat>, at: nat, i: nat) {
    && at < |chain| && i < |was| && was[i].Record?
    && (at > 0 ==> chain[at - 1] < |was| && was[chain[at - 1]].Record?)
    && now == (if at > 0 then was[chain[at - 1] := was[chain[at - 1]].(next := was[i].next)] else was)[i := Empty]
  }

  /** A chain without position `at`: what is where. */
  lemma CutSeq(chain: seq<nat>, at: nat)
    requires at < |chain|
    ensures var c := chain[..at] + chain[at + 1..];
            |c| == |chain| - 1 && forall j :: 0 <= j < |c| ==> c[j] == if j < at then chain[j] else chain[j + 1]
  {
  }

  lemma CutDistinct(chain: seq<nat>, at: nat)
    requires at < |chain| && Distinct(chain)
    ensures forall j :: 0 <= j < |chain| && j != at ==> chain[j] != chain[at]
    ensures Distinct(chain[..at] + chain[at + 1..])
  {
    CutSeq(chain, at);
  }

  lemma CutChain(was: seq<Slot>, now: seq<Slot>, head: nat, chain: seq<nat>, at: nat, i: nat)
    requires Chained(head, chain, was) && at < |chain| && chain[at] == i && Cut(was, now, chain, at, i)
    ensures Chained(if at == 0 then was[i].next else head, chain[..at] + chain[at + 1..], now)
  {
    var c := chain[..at] + chain[at + 1..];
    CutSeq(chain, at);
    CutSlots(was, now, chain, at, i);
    CutDistinct(chain, at);
    assert at > 0 ==> now[chain[at - 1]].next == was[i].next;
    hide Cut, Distinct;
    assert LinkAt(chain, was, at);
    forall j | 0 <= j < |c| ensures LinkAt(c, now, j) {
      var o := if j < at then j else j + 1;
      assert LinkAt(chain, was, o);
      assert c[j] == chain[o] != i;
      assert j + 1 == at || now[c[j]] == was[chain[o]];
    }
  }

  /** A chain that does not meet the slots being changed is unaffected. */
  lemma OtherChain(was: seq<Slot>, now: seq<Slot>, head: nat, chain: seq<nat>, changed: set<nat>)
    requires Chained(head, chain, was) && |was| == |now|
    requires forall j :: 0 <= j < |chain| ==> chain[j] !in changed
    requires forall i :: 0 <= i < |was| && i !in changed ==> now[i] == was[i]
    ensures Chained(head, chain, now)
  {
    hide Distinct;
    forall j | 0 <= j < |chain| ensures LinkAt(chain, now, j) {
      assert LinkAt(chain, was, j);
    }
  }

  /** What cutting changes: the slot is empty, every other record keeps its id and
      its information. */
  lemma CutSlots(was: seq<Slot>, now: seq<Slot>, chain: seq<nat>, at: nat, i: nat)
    requires Cut(was, now, chain, at, i)
    ensures |now| == |was| && now[i].Empty?
    ensures forall k :: 0 <= k < |was| && k != i ==>
              now[k].Record? == was[k].Record? && (now[k].Record? ==>
                  now[k].id == was[k].id && now[k].info == was[k].info)
    ensures forall k :: 0 <= k < |was| && k != i && (at > 0 ==> k != chain[at - 1]) ==> now[k] == was[k]
  {
  }

  lemma CutLive(was: seq<Slot>, now: seq<Slot>, chain: seq<nat>, at: nat, i: nat)
    requires Cut(was, now, chain, at, i) && (at > 0 ==> chain[at - 1] != i)
    ensures Live(now) == Live(was) - 1
  {
    if at > 0 {
      var p := chain[at - 1];
      LiveUpdate(was, p, was[p].(next := was[i].next));
      LiveUpdate(was[p := was[p].(next := was[i].next)], i, Empty);
    } else {
      LiveUpdate(was, i, Empty);
    }
  }

  lemma UnlinkedIndex(was: seq<Slot>, now: seq<Slot>, chain: seq<nat>, at: nat, i: nat, slotOf: map<Id, nat>)
    requires Indexed(was, slotOf) && Cut(was, now, chain, at, i)
    ensures Indexed(now, slotOf - {was[i].id})
    ensures Abstract(now, slotOf - {was[i].id}) == Abstract(was, slotOf) - {was[i].id}
  {
    CutSlots(was, now, chain, at, i);
    hide Cut;
    var less := slotOf - {was[i].id};
    forall id | id in less ensures less[id] < |now| && now[less[id]].Record? && now[less[id]].id == id {
      assert slotOf[id] != i;
    }
  }

  lemma UnlinkedBuckets(was: seq<Slot>, heads: seq<nat>, chains: seq<seq<nat>>, hash: Id -> nat,
                        i: nat, at: nat, now: seq<Slot>, heads': seq<nat>)
    requires Bucketed(was, heads, chains, hash)
    requires i < |was| && was[i].Record?
    requires var b := hash(was[i].id) % BUCKETS;
             && at < |chains[b]| && chains[b][at] == i
             && Cut(was, now, chains[b], at, i)
             && heads' == heads[b := if at == 0 then was[i].next else heads[b]]
    ensures var b := hash(was[i].id) % BUCKETS;
            Bucketed(now, heads', chains[b := chains[b][..at] + chains[b][at + 1..]], hash)
  {
    var b := hash(was[i].id) % BUCKETS;
    var chain := chains[b];
    var chains' := chains[b := chain[..at] + chain[at + 1..]];
    assert Chained(heads[b], chain, was) && Homes(chain, was, hash, b);
    CutSlots(was, now, chain, at, i);
    CutChain(was, now, heads[b], chain, at, i);
    CutHomes(was, now, hash, heads[b], chain, at, i, b);
    hide Cut, Chained, Homes, Lives;
    forall e | 0 <= e < BUCKETS ensures Chained(heads'[e], chains'[e], now) && Homes(chains'[e], now, hash, e) {
      if e != b {
        assert Chained(heads[e], chains[e], was) && Homes(chains[e], was, hash, e);
        AwayFrom(was, now, hash, heads[e], chains[e], e, if at > 0 then {i, chain[at - 1]} else {i}, b) by {
          assert chain[at] in chain;
          if at > 0 {
            assert chain[at - 1] in chain;
          }
          HomesMember(chain, was, hash, b);
        }
      }
    }
  }

  lemma HomesMember(chain: seq<nat>, links: seq<Slot>, hash: Id -> nat, b: nat)
    requires Homes(chain, links, hash, b)
    ensures forall k <- chain :: Lives(k, links, hash, b)
  {
  }

  lemma CutMembers(chain: seq<nat>, at: nat)
    requires at < |chain| && Distinct(chain)
    ensures forall k: nat :: k in chain[..at] + chain[at + 1..] <==> k in chain && k != chain[at]
  {
    CutSeq(chain, at);
    CutDistinct(chain, at);
    hide Distinct;
    var c := chain[..at] + chain[at + 1..];
    forall k: nat | k in chain && k != chain[at] ensures k in c {
      var j :| 0 <= j < |chain| && chain[j] == k;
      assert c[if j < at then j else j - 1] == k;
    }
  }

  lemma CutHomes(was: seq<Slot>, now: seq<Slot>, hash: Id -> nat, head: nat, chain: seq<nat>, at: nat, i: nat, b: nat)
    requires Chained(head, chain, was) && Homes(chain, was, hash, b) && at < |chain| && chain[at] == i &&
            Cut(was, now, chain, at, i)
    ensures Homes(chain[..at] + chain[at + 1..], now, hash, b)
  {
    CutSlots(was, now, chain, at, i);
    CutSeq(chain, at);
    CutMembers(chain, at);
    hide Cut, Chained;
    var c := chain[..at] + chain[at + 1..];
    forall k: nat ensures k in c <==> Lives(k, now, hash, b) {
      assert k in chain <==> Lives(k, was, hash, b);
    }
  }

  /** Changing records of bucket b leaves every other bucket as it was. */
  lemma AwayFrom(was: seq<Slot>, now: seq<Slot>, hash: Id -> nat, head: nat, chain: seq<nat>, e: nat,
                 changed: set<nat>, b: nat)
    requires Chained(head, chain, was) && Homes(chain, was, hash, e) && e != b && |was| == |now|
    requires forall k <- changed :: (k < |was| && was[k].Record? ==> Lives(k, was, hash, b)) &&
                                    (k < |now| && now[k].Record? ==> Lives(k, now, hash, b))
    requires forall k :: 0 <= k < |was| && k !in changed ==> now[k] == was[k]
    ensures Chained(head, chain, now) && Homes(chain, now, hash, e)
  {
    forall j | 0 <= j < |chain| ensures chain[j] !in changed {
      assert chain[j] in chain;
      assert Lives(chain[j], was, hash, e);
    }
    OtherChain(was, now, head, chain, changed);
    forall k: nat ensures k in chain <==> Lives(k, now, hash, e) {
      assert k in chain <==> Lives(k, was, hash, e);
    }
  }

  lemma InsertedIndex(was: seq<Slot>, i: nat, r: Slot, slotOf: map<Id, nat>)
    requires Indexed(was, slotOf) && i < |was| && was[i].Empty? && r.Record? && r.id !in slotOf
    ensures Indexed(was[i := r], slotOf[r.id := i])
    ensures Abstract(was[i := r], slotOf[r.id := i]) == Abstract(was, slotOf)[r.id := r.info]
  {
  }

  lemma InsertedBuckets(was: seq<Slot>, heads: seq<nat>, chains: seq<seq<nat>>, hash: Id -> nat, i: nat, r: Slot)
    requires Bucketed(was, heads, chains, hash) && i < |was| && was[i].Empty? && r.Record?
    requires r.next == heads[hash(r.id) % BUCKETS]
    ensures var b := hash(r.id) % BUCKETS;
            Bucketed(was[i := r], heads[b := i], chains[b := [i] + chains[b]], hash)
  {
    var b := hash(r.id) % BUCKETS;
    var now, heads', chains' := was[i := r], heads[b := i], chains[b := [i] + chains[b]];
    assert Chained(heads[b], chains[b], was) && Homes(chains[b], was, hash, b);
    Prepended(was, i, r, heads[b], chains[b], hash, b);
    hide Chained, Homes;
    forall e | 0 <= e < BUCKETS ensures Chained(heads'[e], chains'[e], now) && Homes(chains'[e], now, hash, e) {
      if e != b {
        assert Chained(heads[e], chains[e], was) && Homes(chains[e], was, hash, e);
        AwayFrom(was, now, hash, heads[e], chains[e], e, {i}, b);
      }
    }
  }

  lemma Prepended(was: seq<Slot>, i: nat, r: Slot, head: nat, chain: seq<nat>, hash: Id -> nat, b: nat)
    requires Chained(head, chain, was) && Homes(chain, was, hash, b) && i < |was| && was[i].Empty?
    requires r.Record? && r.next == head && hash(r.id) % BUCKETS == b
    ensures Chained(i, [i] + chain, was[i := r]) && Homes([i] + chain, was[i := r], hash, b)
  {
    var c, now := [i] + chain, was[i := r];
    forall j | 0 < j < |c| ensures c[j] == chain[j - 1] && c[j] != i {
      assert LinkAt(chain, was, j - 1);
    }
    forall j | 0 <= j < |c| ensures LinkAt(c, now, j) {
      assert j > 0 ==> LinkAt(chain, was, j - 1);
    }
    forall k: nat ensures k in c <==> Lives(k, now, hash, b) {
      assert k in chain <==> Lives(k, was, hash, b);
    }
  }

  lemma RewrittenIndex(was: seq<Slot>, i: nat, r: Slot, slotOf: map<Id, nat>)
    requires Indexed(was, slotOf) && i < |was| && was[i].Record? && r.Record? && r.id == was[i].id
    ensures Indexed(was[i := r], slotOf)
    ensures Abstract(was[i := r], slotOf) == Abstract(was, slotOf)[r.id := r.info]
  {
  }

  lemma RewrittenBuckets(was: seq<Slot>, heads: seq<nat>, chains: seq<seq<nat>>, hash: Id -> nat, i: nat, r: Slot)
    requires Bucketed(was, heads, chains, hash) && i < |was| && was[i].Record?
    requires r.Record? && r.id == was[i].id && r.next == was[i].next
    ensures Bucketed(was[i := r], heads, chains, hash)
  {
    var now := was[i := r];
    forall b | 0 <= b < BUCKETS ensures Chained(heads[b], chains[b], now) && Homes(chains[b], now, hash, b) {
      assert Chained(heads[b], chains[b], was) && Homes(chains[b], was, hash, b);
      forall j | 0 <= j < |chains[b]| ensures LinkAt(chains[b], now, j) {
        assert LinkAt(chains[b], was, j);
      }
      forall k: nat ensures k in chains[b] <==> Lives(k, now, hash, b) {
        assert k in chains[b] <==> Lives(k, was, hash, b);
      }
    }
  }

  // ------------------------------------------------------------------- size

  ghost function LiveSet(links: seq<Slot>): set<nat> {
    set i: nat | i < |links| && links[i].Record?
  }

  lemma {:induction false} LiveIsSetSize(links: seq<Slot>)
    ensures Live(links) == |LiveSet(links)|
  {
    if links != [] {
      var n := |links| - 1;
      LiveIsSetSize(links[..n]);
      assert LiveSet(links) == LiveSet(links[..n]) + (if links[n].Record? then {n} else {});
    }
  }

  lemma {:induction false} InjectiveSize(m: map<Id, nat>)
    requires forall a, b :: a in m && b in m && m[a] == m[b] ==> a == b
    ensures |m.Values| == |m|
    decreases |m|
  {
    if m != map[] {
      var a :| a in m;
      var less := m - {a};
      InjectiveSize(less);
      assert less.Keys == m.Keys - {a};
      forall v | v in m.Values ensures v in less.Values + {m[a]} {
        var k :| k in m && m[k] == v;
        assert k != a ==> k in less;
      }
      assert m.Values == less.Values + {m[a]} && m[a] !in less.Values;
    }
  }

  /** The kept count is the number of links in the map. */
  lemma CountIsSize(links: seq<Slot>, slotOf: map<Id, nat>)
    requires Indexed(links, slotOf)
    ensures Live(links) == |Abstract(links, slotOf)|
  {
    LiveIsSetSize(links);
    InjectiveSize(slotOf);
    assert slotOf.Values == LiveSet(links) by {
      forall i | i in LiveSet(links) ensures i in slotOf.Values {
        assert links[i].id in slotOf;
      }
    }
    assert Abstract(links, slotOf).Keys == slotOf.Keys;
  }

  // ------------------------------------------------------------------- runs

  datatype Event =
    | Registers(pkg: Packet, dir: Direction, mac: Option<Mac>, mtu: nat, updateMtu: bool, unicast: bool, now: int,
                malloc: bool)
    | Sweeps(now: int)

  /** What an event does to the plain map. */
  ghost function OnMap(m: map<Id, Info>, e: Event): map<Id, Info> {
    match e
    case Sweeps(now) => map id | id in m && !Expired(m[id], now) :: m[id]
    case Registers(pkg, dir, mac, mtu, updateMtu, unicast, now, malloc) =>
      if pkg.isClose then m - {pkg.linkId}
      else if pkg.linkId in m then
        m[pkg.linkId := Updated(m[pkg.linkId], pkg, dir, mac, mtu, updateMtu, unicast, now)]
      else if |m| == CAPACITY || !malloc then m
      else m[pkg.linkId := Updated(Fresh(pkg, dir, now), pkg, dir, mac, mtu, updateMtu, unicast, now)]
  }

  ghost function OnMapAll(m: map<Id, Info>, es: seq<Event>): map<Id, Info> {
    if es == [] then m else OnMap(OnMapAll(m, es[..|es| - 1]), es[|es| - 1])
  }

  lemma StepForward(m: map<Id, Info>, e: Event, id: Id)
    requires id in m && id in OnMap(m, e)
    ensures Rank(m[id].state) <= Rank(OnMap(m, e)[id].state)
    ensures m[id].mac != UNKNOWN && (e.Registers? ==> !e.unicast) ==> OnMap(m, e)[id].mac == m[id].mac
  {
    if e.Registers? {
      UpdateMonotone(m[id], e.pkg, e.dir, e.mac, e.mtu, e.updateMtu, e.unicast, e.now);
      hide Updated;
    }
  }

  /** Along any run, as long as a link stays in the table its state never moves
      backwards, and its learned address changes only for frames sent to us. */
  lemma {:induction false} NeverBackwards(m: map<Id, Info>, es: seq<Event>, id: Id)
    requires forall k :: 0 <= k <= |es| ==> id in OnMapAll(m, es[..k])
    ensures id in m && id in OnMapAll(m, es)
    ensures Rank(m[id].state) <= Rank(OnMapAll(m, es)[id].state)
    ensures m[id].mac != UNKNOWN && (forall e <- es :: e.Registers? ==> !e.unicast) ==>
            OnMapAll(m, es)[id].mac == m[id].mac
  {
    assert es[..|es|] == es && es[..0] == [];
    if es != [] {
      var n := |es| - 1;
      forall k | 0 <= k <= n ensures id in OnMapAll(m, es[..n][..k]) {
        assert es[..n][..k] == es[..k];
      }
      NeverBackwards(m, es[..n], id);
      assert forall e <- es[..n] :: e in es;
      hide OnMap;
      StepForward(OnMapAll(m, es[..n]), es[n], id);
    }
  }

  /** The table refines the map over every run. */
  method Run(table: LinkTable, es: seq<Event>)
    requires table.Valid()
    modifies table
    ensures table.Valid() && table.View() == OnMapAll(old(table.View()), es)
  {
    hide Indexed, Bucketed, Live, Expired, Updated, Fresh, Abstract;
    for n := 0 to |es|
      invariant table.Valid() && table.View() == OnMapAll(old(table.View()), es[..n])
    {
      assert es[..n + 1][..n] == es[..n];
      CountIsSize(table.links, table.slotOf);
      match es[n] {
        case Registers(pkg, dir, mac, mtu, updateMtu, unicast, now, malloc) =>
          var _ := table.Register(pkg, dir, mac, mtu, updateMtu, unicast, now, malloc);
        case Sweeps(now) =>
          table.SweepExpired(now);
      }
    }
    assert es[..|es|] == es;
  }

  lemma {:induction false} LiveNone(links: seq<Slot>)
    requires forall i :: 0 <= i < |links| ==> links[i].Empty?
    ensures Live(links) == 0
  {
    if links != [] {
      LiveNone(links[..|links| - 1]);
    }
  }
}

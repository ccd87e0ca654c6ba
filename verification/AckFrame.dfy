/** The bitmap acknowledgement on the wire:
    [A5][5A][ver:4|type:4][evm][base le16][bitmap, 8 bytes, low byte first].

Bit i of the bitmap stands for sequence number base + i, which is the reverse of
the order the receive window keeps its bits in.  A peer no bundle was heard from is
acknowledged by a list of content ids instead: [A5][5A][evm, at least 80][id le16]... */
module AckFrame {
  import opened Words
  import opened SeqWindow

  const MAGIC0: Byte := 0xA5
  const MAGIC1: Byte := 0x5A
  const ENV_VER := 1
  const TYPE_BUNDLE := 0
  const TYPE_ACK := 1
  const ACK_LEN := 14
  const FIDS_MAX := 16           // HALOW_ACK_ACK_FIDS_MAX

  type Frame = seq<Byte>

  /** Bit k of the bitmap field. */
  predicate BitmapBit(f: Frame, k: nat)
    requires |f| == ACK_LEN && k < SPAN
  {
    Bits8(f[6 + k / 8])[k % 8]
  }

  function Base(f: Frame): U16
    requires |f| == ACK_LEN
  {
    Le16(f[4], f[5])
  }

  /** The sender's test: does this acknowledgement clear a buffer numbered seq16? */
  predicate Covers(f: Frame, seq16: U16)
    requires |f| == ACK_LEN
  {
    var diff := Sub16(seq16, Base(f));
    diff < SPAN && BitmapBit(f, diff)
  }

  /** Base and bitmap of the window, bit by bit; false when nothing was heard. */
  method Capture(p: RxPeer) returns (ok: bool, base: U16, bm: Word64)
    requires p.inUse
    ensures ok == p.seen
    ensures ok ==> base == Sub16(p.last, SPAN - 1)
    ensures ok ==> forall i :: 0 <= i < SPAN ==> (bm[i] <==> SPAN - 1 - i in Marks(p.win))
  {
    ok, base, bm := p.seen, 0, ZERO64;
    if !ok {
      return;
    }
    base := Sub16(p.last, SPAN - 1);
    for i := 0 to SPAN
      invariant forall k :: 0 <= k < SPAN ==> (bm[k] <==> k < i && p.win[SPAN - 1 - k])
    {
      if Shr64(p.win, SPAN - 1 - i)[0] {
        bm := Or64(bm, One64(i));
      }
    }
  }

  /** Serialises an acknowledgement. */
  method Build(evm: Byte, base: U16, bm: Word64) returns (f: Frame)
    ensures |f| == ACK_LEN && f[..3] == [MAGIC0, MAGIC1, ENV_VER * 16 + TYPE_ACK] && f[3] == evm
    ensures Base(f) == base
    ensures forall k :: 0 <= k < SPAN ==> BitmapBit(f, k) == bm[k]
  {
    ghost var head := [MAGIC0, MAGIC1, ENV_VER * 16 + TYPE_ACK, evm, Lo(base), Hi(base)];
    f := [MAGIC0, MAGIC1, ENV_VER * 16 + TYPE_ACK, evm, Lo(base), Hi(base)];
    for b := 0 to 8
      invariant |f| == 6 + b && f[..6] == head
      invariant forall j {:trigger f[6 + j]} :: 0 <= j < b ==> Bits8(f[6 + j]) == bm[8 * j..8 * j + 8]
    {
      var octet := Low8(Shr64(bm, 8 * b));
      BitsOfValue(octet);
      assert octet == bm[8 * b..8 * b + 8];
      f := f + [Value8(octet)];
    }
    assert f[..3] == head[..3];
    forall k | 0 <= k < SPAN ensures BitmapBit(f, k) == bm[k] {
      assert Bits8(f[6 + k / 8]) == bm[8 * (k / 8)..8 * (k / 8) + 8];
    }
  }

  /** Reads base and bitmap back out of a received frame. */
  method Parse(f: Frame) returns (base: U16, bm: Word64)
    requires |f| == ACK_LEN
    ensures base == Base(f)
    ensures forall k :: 0 <= k < SPAN ==> bm[k] == BitmapBit(f, k)
  {
    base, bm := Le16(f[4], f[5]), ZERO64;
    for b := 0 to 8
      invariant forall k :: 0 <= k < SPAN ==> (bm[k] <==> k < 8 * b && BitmapBit(f, k))
    {
      bm := Or64(bm, Shl64(Widen8(Bits8(f[6 + b])), 8 * b));
    }
  }

  /** A frame that reports exactly this window. */
  ghost predicate Reports(f: Frame, w: Window) {
    && w.Seen?
    && |f| == ACK_LEN
    && Base(f) == Sub16(w.last, SPAN - 1)
    && forall i :: 0 <= i < SPAN ==> (BitmapBit(f, i) <==> SPAN - 1 - i in w.marks)
  }

  predicate IsEnvFrame(f: Frame) {
    |f| >= 3 && f[0] == MAGIC0 && f[1] == MAGIC1 && f[2] < 0x80
  }

  /** A bitmap acknowledgement. */
  predicate IsEnvAck(f: Frame) {
    |f| == ACK_LEN && f[0] == MAGIC0 && f[1] == MAGIC1 && f[2] == ENV_VER * 16 + TYPE_ACK
  }

  /** A list of content ids: 5 to 35 bytes, odd, with the top bit of the third set. */
  predicate IsFidAck(f: Frame) {
    && 5 <= |f| <= 3 + 2 * FIDS_MAX && (|f| - 3) % 2 == 0
    && f[0] == MAGIC0 && f[1] == MAGIC1 && f[2] >= 0x80
  }

  function FidAt(f: Frame, k: nat): U16
    requires 3 + 2 * k + 1 < |f|
  {
    Le16(f[3 + 2 * k], f[4 + 2 * k])
  }

  /** The number of ids configured, at least one and at most sixteen. */
  function Configured(want: nat): (n: nat)
    ensures 1 <= n <= 16 && (1 <= want <= 16 ==> n == want) && (want < 1 ==> n == 1) && (want > 16 ==> n == 16)
  {
    var n := Min(want, FIDS_MAX);
    if n == 0 then 1 else n
  }

  /** A frame that carries exactly these ids. */
  ghost predicate Lists(f: Frame, evm: Byte, fids: seq<U16>) {
    && |f| == 3 + 2 * |fids|
    && f[0] == MAGIC0 && f[1] == MAGIC1 && f[2] == (if evm != 0 then evm else 0x80)
    && forall k :: 0 <= k < |fids| ==> FidAt(f, k) == fids[k]
  }

  method BuildFids(evm: Byte, fids: seq<U16>, want: nat) returns (f: Frame)
    requires |fids| == FIDS_MAX
    ensures Lists(f, evm, fids[..Configured(want)])
  {
    var n := Configured(want);
    f := [MAGIC0, MAGIC1, if evm != 0 then evm else 0x80];
    for i := 0 to n
      invariant Lists(f, evm, fids[..i])
    {
      LoHi(fids[i]);
      ghost var was := f;
      f := f + [Lo(fids[i]), Hi(fids[i])];
      forall k | 0 <= k < i + 1 ensures FidAt(f, k) == fids[..i + 1][k] {
        assert k < i ==> FidAt(was, k) == fids[..i][k];
      }
    }
  }

  /** The ids a frame is read as carrying, sixteen at most. */
  ghost function FidsOf(f: Frame): seq<U16>
    requires |f| >= 3
  {
    seq(Min((|f| - 3) / 2, FIDS_MAX), k requires 0 <= k < Min((|f| - 3) / 2, FIDS_MAX) => FidAt(f, k))
  }

  method ParseFids(f: Frame) returns (fids: seq<U16>)
    requires |f| >= 3
    ensures fids == FidsOf(f)
  {
    var n := Min((|f| - 3) / 2, FIDS_MAX);
    fids := [];
    for k := 0 to n
      invariant |fids| == k && forall j :: 0 <= j < k ==> fids[j] == FidAt(f, j)
    {
      fids := fids + [FidAt(f, k)];
    }
  }

  /** The list frame is taken for one by the far side if and only if the signal quality it
      carries is zero or negative: a positive byte makes it look like an envelope. */
  lemma FidAckTakenIff(f: Frame, evm: Byte, fids: seq<U16>)
    requires Lists(f, evm, fids) && 1 <= |fids| <= FIDS_MAX
    ensures IsFidAck(f) <==> evm == 0 || evm >= 0x80
    ensures IsEnvFrame(f) <==> !IsFidAck(f)
    ensures FidsOf(f) == fids
  {
  }

  /** One acknowledgement: the bitmap of the window if a bundle was heard, else the ids. */
  method Acknowledge(p: RxPeer, evm: Byte, fids: seq<U16>, want: nat) returns (f: Frame)
    requires |fids| == FIDS_MAX
    ensures if p.View().Present? && p.View().window.Seen? then Reports(f, p.View().window) && IsEnvAck(f)
            else Lists(f, evm, fids[..Configured(want)])
  {
    if p.inUse {
      var ok, base, bm := Capture(p);
      if ok {
        f := Build(evm, base, bm);
        return;
      }
    }
    f := BuildFids(evm, fids, want);
  }

  /** From one end to the other: after capture, bit reversal, serialisation and
      the subtraction on the far side, an acknowledgement clears a sequence
      number if and only if the window it was taken from has that number marked. */
  lemma CoversIffMarked(f: Frame, w: Window, seq16: U16)
    requires Reports(f, w) && Proper(w)
    ensures Covers(f, seq16) <==> Sub16(w.last, seq16) in w.marks
  {
    var back := Sub16(w.last, seq16);
    var diff := Sub16(seq16, Base(f));
    MirrorDistance(w.last, seq16);
    if diff < SPAN {
      assert BitmapBit(f, diff) <==> SPAN - 1 - diff in w.marks;
    }
  }

  /** The two 16-bit distances mirror each other inside the span. */
  lemma MirrorDistance(last: U16, seq16: U16)
    ensures var back, diff := Sub16(last, seq16), Sub16(seq16, Sub16(last, SPAN - 1));
            (diff < SPAN <==> back < SPAN) && (diff < SPAN ==> diff == SPAN - 1 - back)
  {
    var b := last - (SPAN - 1);
    var base := if b < 0 then b + WRAP else b;
    assert Sub16(last, SPAN - 1) == base;
    assert Sub16(last, seq16) == if last >= seq16 then last - seq16 else last - seq16 + WRAP;
    assert Sub16(seq16, base) == if seq16 >= base then seq16 - base else seq16 - base + WRAP;
  }
}

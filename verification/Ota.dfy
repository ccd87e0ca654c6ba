/** A firmware update session over the firmware partition: begin, chunks at any
offsets, and a closing read-back whose CRC decides. */
module Ota {
  import opened Flash

  const FW_LEN := 800 * 1024      // firmware partition, at flash address 0
  const BLOCK := 1024             // read-back buffer

  // ------------------------------------------------------------------- CRC-32

  function Xor(x: bv32, y: bv32): bv32 { x ^ y }

  predicate Odd(c: bv32) { c & 1 == 1 }

  function Half(c: bv32): bv32 { c >> 1 }

  function Shift(c: bv32): bv32 {
    if Odd(c) then Xor(0xEDB8_8320, Half(c)) else Half(c)
  }

  function Shifts(c: bv32, n: nat): bv32 {
    if n == 0 then c else Shift(Shifts(c, n - 1))
  }

  function Mix(c: bv32, b: bv8): bv32 { Xor(c, b as bv32) }

  function Invert(c: bv32): bv32 { Xor(c, 0xFFFF_FFFF) }

  lemma InvertTwice(c: bv32)
    ensures Invert(Invert(c)) == c
  {
  }

  /** The register after some bytes. */
  function Roll(c: bv32, p: Octets): bv32 {
    if p == [] then c else Shifts(Mix(Roll(c, p[..|p| - 1]), p[|p| - 1]), 8)
  }

  function Crc(crc: bv32, p: Octets): bv32 {
    Invert(Roll(Invert(crc), p))
  }

  lemma {:induction false} RollConcat(c: bv32, p: Octets, q: Octets)
    ensures Roll(c, p + q) == Roll(Roll(c, p), q)
    decreases |q|
  {
    hide Mix, Shifts;
    if q == [] {
      assert p + q == p;
    } else {
      var n := |q| - 1;
      RollConcat(c, p, q[..n]);
      assert (p + q)[..|p| + n] == p + q[..n];
    }
  }

  /** Running the CRC over blocks is the CRC of the whole. */
  lemma CrcConcat(crc: bv32, p: Octets, q: Octets)
    ensures Crc(crc, p + q) == Crc(Crc(crc, p), q)
  {
    hide Roll, Invert;
    RollConcat(Invert(crc), p, q);
    InvertTwice(Roll(Invert(crc), p));
  }

  method Crc32(crc: bv32, p: Octets) returns (r: bv32)
    ensures r == Crc(crc, p)
  {
    hide Mix, Invert, Shift;
    var c := Invert(crc);
    for i := 0 to |p|
      invariant c == Roll(Invert(crc), p[..i])
    {
      assert p[..i + 1][..i] == p[..i];
      c := Mix(c, p[i]);
      ghost var c0 := c;
      for k := 0 to 8
        invariant c == Shifts(c0, k)
      {
        c := Shift(c);
      }
    }
    assert p[..|p|] == p;
    r := Invert(c);
  }

  // --------------------------------------------------- what the CRC tells apart

  lemma XorUnit(x: bv32)
    ensures Xor(x, 0) == Xor(0, x) == x && Xor(x, x) == 0
  {
  }

  lemma XorSwaps(x: bv32, y: bv32)
    ensures Xor(x, y) == Xor(y, x)
  {
  }

  lemma XorJoins(x: bv32, y: bv32, z: bv32)
    ensures Xor(Xor(x, y), z) == Xor(x, Xor(y, z))
  {
  }

  lemma XorCancels(x: bv32, y: bv32, z: bv32)
    requires Xor(x, y) == Xor(x, z)
    ensures y == z
  {
    hide Xor;
    XorUnit(x);
    XorUnit(y);
    XorUnit(z);
    XorJoins(x, x, y);
    XorJoins(x, x, z);
  }

  lemma XorHalf(x: bv32, y: bv32)
    ensures Half(Xor(x, y)) == Xor(Half(x), Half(y))
  {
  }

  lemma XorOdd(x: bv32, y: bv32)
    ensures Odd(Xor(x, y)) <==> Odd(x) != Odd(y)
  {
  }

  /** The register shift is linear. */
  lemma ShiftXor(x: bv32, y: bv32)
    ensures Shift(Xor(x, y)) == Xor(Shift(x), Shift(y))
  {
    XorHalf(x, y);
    XorOdd(x, y);
    hide Xor, Half, Odd;
    var g, a, b := 0xEDB8_8320, Half(x), Half(y);
    if Odd(x) && Odd(y) {
      XorSwaps(g, a);
      XorJoins(a, g, Xor(g, b));
      XorJoins(g, g, b);
      XorUnit(g);
      XorUnit(b);
    } else if Odd(x) {
      XorJoins(g, a, b);
    } else if Odd(y) {
      XorJoins(a, g, b);
      XorJoins(g, a, b);
      XorSwaps(a, g);
    }
  }

  lemma ShiftZero(x: bv32)
    ensures Shift(x) == 0 <==> x == 0
  {
  }

  lemma {:induction false} ShiftsXor(x: bv32, y: bv32, n: nat)
    ensures Shifts(Xor(x, y), n) == Xor(Shifts(x, n), Shifts(y, n))
  {
    hide Shift, Xor;
    if n > 0 {
      ShiftsXor(x, y, n - 1);
      ShiftXor(Shifts(x, n - 1), Shifts(y, n - 1));
    }
  }

  lemma {:induction false} ShiftsZero(x: bv32, n: nat)
    ensures Shifts(x, n) == 0 <==> x == 0
  {
    hide Shift;
    if n > 0 {
      ShiftsZero(x, n - 1);
      ShiftZero(Shifts(x, n - 1));
    }
  }

  /** And a bijection. */
  lemma ShiftsInjective(x: bv32, y: bv32, n: nat)
    requires Shifts(x, n) == Shifts(y, n)
    ensures x == y
  {
    hide Shifts, Xor;
    ShiftsXor(x, y, n);
    XorUnit(Shifts(x, n));
    ShiftsZero(Xor(x, y), n);
    XorUnit(x);
    XorCancels(x, x, y);
  }

  /** Registers that differ stay different over the same bytes. */
  lemma {:induction false} RollInjective(c: bv32, d: bv32, p: Octets)
    requires Roll(c, p) == Roll(d, p)
    ensures c == d
  {
    hide Shifts, Xor;
    if p != [] {
      var n := |p| - 1;
      var x, y, b := Roll(c, p[..n]), Roll(d, p[..n]), p[n] as bv32;
      ShiftsInjective(Xor(x, b), Xor(y, b), 8);
      XorSwaps(x, b);
      XorSwaps(y, b);
      XorCancels(b, x, y);
      RollInjective(c, d, p[..n]);
    }
  }

  lemma {:induction false} ShiftsAdd(x: bv32, m: nat, n: nat)
    ensures Shifts(x, m + n) == Shifts(Shifts(x, m), n)
  {
    hide Shift;
    if n > 0 {
      ShiftsAdd(x, m, n - 1);
    }
  }

  /** Byte k of a word. */
  function Place(b: bv8, k: nat): bv32 {
    if k == 0 then b as bv32 else if k == 1 then (b as bv32) << 8 else if k == 2 then (b as bv32) << 16
    else (b as bv32) << 24
  }

  function Halves(x: bv32, n: nat): bv32 {
    if n == 0 then x else Half(Halves(x, n - 1))
  }

  lemma {:induction false} EvenShifts(x: bv32, n: nat)
    requires forall k :: 0 <= k < n ==> !Odd(Halves(x, k))
    ensures Shifts(x, n) == Halves(x, n)
  {
    hide Odd, Half, Xor;
    if n > 0 {
      EvenShifts(x, n - 1);
    }
  }

  /** Eight shifts of a word whose low byte is clear just move it down. */
  lemma ByteShift(x: bv32)
    requires x & 0xFF == 0
    ensures Shifts(x, 8) == x >> 8
  {
    LowByte(x);
    hide Odd, Half;
    forall k | 0 <= k < 8 ensures !Odd(Halves(x, k)) {
      Halves8(x);
    }
    EvenShifts(x, 8);
    Halves8(x);
  }

  lemma Halves8(x: bv32)
    ensures Halves(x, 0) == x && Halves(x, 1) == Half(x) && Halves(x, 2) == Half(Half(x))
    ensures Halves(x, 3) == Half(Half(Half(x))) && Halves(x, 4) == Half(Half(Half(Half(x))))
    ensures Halves(x, 5) == Half(Half(Half(Half(Half(x))))) && Halves(x, 6) == Half(Half(Half(Half(Half(Half(x))))))
    ensures Halves(x, 7) == Half(Half(Half(Half(Half(Half(Half(x)))))))
    ensures Halves(x, 8) == Half(Half(Half(Half(Half(Half(Half(Half(x))))))))
  {
    hide Half;
    assert Halves(x, 1) == Half(x);
    assert Halves(x, 2) == Half(Halves(x, 1));
    assert Halves(x, 3) == Half(Halves(x, 2));
    assert Halves(x, 4) == Half(Halves(x, 3));
    assert Halves(x, 5) == Half(Halves(x, 4));
    assert Halves(x, 6) == Half(Halves(x, 5));
    assert Halves(x, 7) == Half(Halves(x, 6));
    assert Halves(x, 8) == Half(Halves(x, 7));
  }

  lemma LowByte(x: bv32)
    requires x & 0xFF == 0
    ensures !Odd(x) && !Odd(Half(x)) && !Odd(Half(Half(x))) && !Odd(Half(Half(Half(x))))
    ensures !Odd(Half(Half(Half(Half(x))))) && !Odd(Half(Half(Half(Half(Half(x))))))
    ensures !Odd(Half(Half(Half(Half(Half(Half(x))))))) && !Odd(Half(Half(Half(Half(Half(Half(Half(x))))))))
    ensures Half(Half(Half(Half(Half(Half(Half(Half(x)))))))) == x >> 8
  {
  }

  lemma PlaceDown(b: bv8, k: nat)
    requires 1 <= k < 4
    ensures Shifts(Place(b, k), 8) == Place(b, k - 1)
  {
    hide Shifts;
    PlaceBytes(b as bv32);
    ByteShift(Place(b, k));
  }

  lemma {:induction false} PlaceShifts(b: bv8, k: nat)
    requires k < 4
    ensures Shifts(Place(b, k), 8 * k) == b as bv32
  {
    if k > 0 {
      hide Shift, Place;
      PlaceDown(b, k);
      ShiftsAdd(Place(b, k), 8, 8 * (k - 1));
      PlaceShifts(b, k - 1);
    }
  }

  lemma PlaceBytes(w: bv32)
    requires w <= 0xFF
    ensures (w << 8) & 0xFF == 0 && (w << 16) & 0xFF == 0 && (w << 24) & 0xFF == 0
    ensures (w << 8) >> 8 == w && (w << 16) >> 8 == w << 8 && (w << 24) >> 8 == w << 16
  {
  }

  /** Up to four bytes as a little-endian word. */
  function Word(u: Octets): bv32 {
    if u == [] then 0 else Xor(Word(u[..|u| - 1]), Place(u[|u| - 1], |u| - 1))
  }

  /** Up to four bytes enter the register as one word. */
  lemma {:induction false} RollWord(c: bv32, u: Octets)
    requires |u| <= 4
    ensures Roll(c, u) == Shifts(Xor(c, Word(u)), 8 * |u|)
  {
    hide Place, Shift, Xor;
    if u == [] {
      XorUnit(c);
    } else {
      var k := |u| - 1;
      var w, b := Word(u[..k]), Place(u[k], k);
      RollWord(c, u[..k]);
      PlaceShifts(u[k], k);
      ShiftsXor(Xor(c, w), b, 8 * k);
      ShiftsAdd(Xor(Xor(c, w), b), 8 * k, 8);
      XorJoins(c, w, b);
    }
  }

  lemma {:induction false} WordInjective(u: Octets, v: Octets)
    requires |u| == |v| <= 4 && Word(u) == Word(v)
    ensures u == v
  {
    if u != [] {
      var k := |u| - 1;
      hide Xor, Place, Below;
      WordBelow(u[..k]);
      WordBelow(v[..k]);
      TopByte(Word(u[..k]), u[k], Word(v[..k]), v[k], k);
      WordInjective(u[..k], v[..k]);
    }
  }

  /** A word with nothing above its first k bytes. */
  predicate Below(w: bv32, k: nat) {
    if k == 0 then w == 0 else if k == 1 then w >> 8 == 0 else if k == 2 then w >> 16 == 0
    else if k == 3 then w >> 24 == 0 else true
  }

  lemma PlaceBelow(w: bv32, b: bv8, k: nat)
    requires k < 4 && Below(w, k)
    ensures Below(Xor(w, Place(b, k)), k + 1)
  {
  }

  lemma {:induction false} WordBelow(u: Octets)
    requires |u| <= 4
    ensures Below(Word(u), |u|)
  {
    if u != [] {
      hide Xor, Place, Below;
      WordBelow(u[..|u| - 1]);
      PlaceBelow(Word(u[..|u| - 1]), u[|u| - 1], |u| - 1);
    }
  }

  lemma TopByte(w: bv32, b: bv8, x: bv32, d: bv8, k: nat)
    requires k < 4 && Below(w, k) && Below(x, k) && Xor(w, Place(b, k)) == Xor(x, Place(d, k))
    ensures w == x && b == d
  {
  }

  /** Images that are the same but for four bytes in a row at most. */
  ghost predicate OneBurst(p: Octets, q: Octets, at: nat, n: nat) {
    && |p| == |q| && n <= 4 && at + n <= |p|
    && p[..at] == q[..at] && p[at + n..] == q[at + n..]
  }

  /** Two images that differ, and in four bytes in a row at most, have different CRCs. */
  lemma BurstDetected(crc: bv32, p: Octets, q: Octets, at: nat, n: nat)
    requires OneBurst(p, q, at, n) && Crc(crc, p) == Crc(crc, q)
    ensures p == q
  {
    hide Roll, Shifts, Word, Invert, Xor;
    var c := Invert(crc);
    var pre, u, v, rest := p[..at], p[at..at + n], q[at..at + n], p[at + n..];
    assert p == pre + u + rest && q == pre + v + rest;
    InvertTwice(Roll(c, p));
    InvertTwice(Roll(c, q));
    RollConcat(c, pre + u, rest);
    RollConcat(c, pre + v, rest);
    RollConcat(c, pre, u);
    RollConcat(c, pre, v);
    RollInjective(Roll(c, pre + u), Roll(c, pre + v), rest);
    SameRoll(Roll(c, pre), u, v);
  }

  lemma SameRoll(d: bv32, u: Octets, v: Octets)
    requires |u| == |v| <= 4 && Roll(d, u) == Roll(d, v)
    ensures u == v
  {
    hide Roll, Shifts, Word, Xor;
    RollWord(d, u);
    RollWord(d, v);
    ShiftsInjective(Xor(d, Word(u)), Xor(d, Word(v)), 8 * |u|);
    XorCancels(d, Word(u), Word(v));
    WordInjective(u, v);
  }

  /** No other image with this CRC differs from the one on flash in one burst only. */
  ghost predicate OnlyImage(flash: Octets, crc: bv32) {
    forall img: Octets, at: nat, n: nat :: OneBurst(img, flash, at, n) && Crc(0, img) == crc ==> img == flash
  }

  lemma OnlyOne(flash: Octets)
    ensures OnlyImage(flash, Crc(0, flash))
  {
    hide Crc;
    forall img: Octets, at: nat, n: nat | OneBurst(img, flash, at, n) && Crc(0, img) == Crc(0, flash)
      ensures img == flash
    {
      BurstDetected(0, img, flash, at, n);
    }
  }

  const CHECK_TEXT: Octets := [0x31, 0x32, 0x33, 0x34, 0x35, 0x36, 0x37, 0x38, 0x39]

  /** The register over the check text, a few bytes at a time. */
  lemma CheckStart(t: Octets)
    requires t == CHECK_TEXT
    ensures Roll(0xFFFF_FFFF, t[..3]) == 0x77B7_9C2D
  {
    hide Roll, Mix;
    CheckNone(t);
    assert Shifts(0xFFFF_FFCE, 8) == 0x7C23_1048;
    CheckStep(t, 0, 0xFFFF_FFFF, 0xFFFF_FFCE, 0x7C23_1048);
    assert Shifts(0x7C23_107A, 8) == 0xB0AC_BB32;
    CheckStep(t, 1, 0x7C23_1048, 0x7C23_107A, 0xB0AC_BB32);
    assert Shifts(0xB0AC_BB01, 8) == 0x77B7_9C2D;
    CheckStep(t, 2, 0xB0AC_BB32, 0xB0AC_BB01, 0x77B7_9C2D);
  }

  lemma CheckMiddle(t: Octets)
    requires t == CHECK_TEXT && Roll(0xFFFF_FFFF, t[..3]) == 0x77B7_9C2D
    ensures Roll(0xFFFF_FFFF, t[..6]) == 0xF68D_2C9E
  {
    hide Roll, Mix;
    assert Shifts(0x77B7_9C19, 8) == 0x641C_1F5C;
    CheckStep(t, 3, 0x77B7_9C2D, 0x77B7_9C19, 0x641C_1F5C);
    assert Shifts(0x641C_1F69, 8) == 0x340A_C5E3;
    CheckStep(t, 4, 0x641C_1F5C, 0x641C_1F69, 0x340A_C5E3);
    assert Shifts(0x340A_C5D5, 8) == 0xF68D_2C9E;
    CheckStep(t, 5, 0x340A_C5E3, 0x340A_C5D5, 0xF68D_2C9E);
  }

  lemma CheckEnd(t: Octets)
    requires t == CHECK_TEXT && Roll(0xFFFF_FFFF, t[..6]) == 0xF68D_2C9E
    ensures Roll(0xFFFF_FFFF, t[..9]) == 0x340B_C6D9
  {
    hide Roll, Mix;
    assert Shifts(0xF68D_2CA9, 8) == 0xAFFC_9660;
    CheckStep(t, 6, 0xF68D_2C9E, 0xF68D_2CA9, 0xAFFC_9660);
    assert Shifts(0xAFFC_9658, 8) == 0x651F_2550;
    CheckStep(t, 7, 0xAFFC_9660, 0xAFFC_9658, 0x651F_2550);
    assert Shifts(0x651F_2569, 8) == 0x340B_C6D9;
    CheckStep(t, 8, 0x651F_2550, 0x651F_2569, 0x340B_C6D9);
  }

  lemma CheckNone(t: Octets)
    ensures Roll(0xFFFF_FFFF, t[..0]) == 0xFFFF_FFFF
  {
  }

  lemma CheckStep(t: Octets, i: nat, c: bv32, m: bv32, d: bv32)
    requires i < |t| && Roll(0xFFFF_FFFF, t[..i]) == c && m == c ^ (t[i] as bv32) && Shifts(m, 8) == d
    ensures Roll(0xFFFF_FFFF, t[..i + 1]) == d
  {
    hide Shifts;
    assert t[..i + 1][..i] == t[..i];
  }

  /** The check value of this CRC: of the nine digits in ASCII. */
  lemma CheckValue()
    ensures Crc(0, CHECK_TEXT) == 0xCBF4_3926
  {
    var t := CHECK_TEXT;
    CheckStart(t);
    CheckMiddle(t);
    CheckEnd(t);
    assert t[..9] == t;
  }

  // ----------------------------------------------------------------- the image

  datatype Chunk = Chunk(off: nat, data: Octets)

  /** A chunk at offset 0 restarts the image on erased flash; any other is written
      into it. */
  function Patch(img: Octets, c: Chunk): Octets
    requires c.off + |c.data| <= |img|
  {
    Splice(if c.off == 0 then Fill(|img|) else img, c.off, c.data)
  }

  ghost predicate Fits(cs: seq<Chunk>, n: nat) {
    forall i :: 0 <= i < |cs| ==> cs[i].data != [] && cs[i].off + |cs[i].data| <= n
  }

  function Patched(img: Octets, cs: seq<Chunk>): (r: Octets)
    requires Fits(cs, |img|)
    ensures |r| == |img|
  {
    if cs == [] then img else Patch(Patched(img, cs[..|cs| - 1]), cs[|cs| - 1])
  }

  /** Plain array writes, in order. */
  function Written(img: Octets, cs: seq<Chunk>): (r: Octets)
    requires Fits(cs, |img|)
    ensures |r| == |img|
  {
    if cs == [] then img else Splice(Written(img, cs[..|cs| - 1]), cs[|cs| - 1].off, cs[|cs| - 1].data)
  }

  /** A session whose first chunk is its only one at offset 0 leaves the plain writes
      of its chunks over erased flash, whatever was there before. */
  lemma {:induction false} OneStartIsPlain(img: Octets, cs: seq<Chunk>)
    requires Fits(cs, |img|) && cs != [] && cs[0].off == 0 && forall i :: 0 < i < |cs| ==> cs[i].off != 0
    ensures Patched(img, cs) == Written(Fill(|img|), cs)
    decreases |cs|
  {
    hide Splice, Fill;
    var n := |cs| - 1;
    if n > 0 {
      OneStartIsPlain(img, cs[..n]);
      assert cs[n].off != 0;
    } else {
      assert cs[..0] == [] && cs[n] == cs[0];
    }
  }

  function Joined(cs: seq<Chunk>): Octets {
    if cs == [] then [] else Joined(cs[..|cs| - 1]) + cs[|cs| - 1].data
  }

  /** Chunks laid end to end from offset 0. */
  ghost predicate EndToEnd(cs: seq<Chunk>) {
    cs != [] ==> EndToEnd(cs[..|cs| - 1]) && cs[|cs| - 1].off == |Joined(cs[..|cs| - 1])| && cs[|cs| - 1].data != []
  }

  lemma {:induction false} JoinedFits(cs: seq<Chunk>, n: nat)
    requires EndToEnd(cs) && |Joined(cs)| <= n
    ensures Fits(cs, n)
    ensures cs != [] ==> |Joined(cs)| > 0 && cs[0].off == 0
  {
    if cs != [] {
      var k := |cs| - 1;
      JoinedFits(cs[..k], n);
      assert k > 0 ==> cs[..k][0] == cs[0];
      forall i | 0 <= i < k ensures cs[i].data != [] && cs[i].off + |cs[i].data| <= n {
        assert cs[..k][i] == cs[i];
      }
    }
  }

  lemma SplicePrefix(m: Octets, at: nat, bs: Octets)
    requires at + |bs| <= |m|
    ensures Splice(m, at, bs)[..at + |bs|] == m[..at] + bs
  {
  }

  /** An image sent in order, piece after piece, ends up on flash as sent. */
  lemma {:induction false} InOrderImage(img: Octets, cs: seq<Chunk>)
    requires EndToEnd(cs) && cs != [] && |Joined(cs)| <= |img|
    ensures Fits(cs, |img|) && Patched(img, cs)[..|Joined(cs)|] == Joined(cs)
  {
    hide Splice, Fill;
    JoinedFits(cs, |img|);
    var k := |cs| - 1;
    var done := Joined(cs[..k]);
    JoinedFits(cs[..k], |img|);
    if k > 0 {
      InOrderImage(img, cs[..k]);
      SplicePrefix(Patched(img, cs[..k]), |done|, cs[k].data);
    } else {
      SplicePrefix(Fill(|img|), 0, cs[k].data);
      assert Fill(|img|)[..0] == [];
    }
  }

  // --------------------------------------------------------------- the session

  class Session {
    const nor: Nor
    var active: bool
    var total: nat
    var wantCrc: bv32
    var erased: bool         // g_ota_erased
    var erasedTotal: nat     // g_ota_total

    ghost predicate Valid()
      reads this, nor
    {
      && nor.Valid() && FW_LEN <= |nor.mem|
      && (active ==> 0 < total <= FW_LEN)
      && (active && erased ==> erasedTotal == total)
    }

    /** The firmware partition. */
    ghost function Image(): Octets
      reads this, nor
      requires Valid()
    {
      nor.mem[..FW_LEN]
    }

    constructor (nor: Nor)
      requires nor.Valid() && FW_LEN <= |nor.mem|
      ensures Valid() && this.nor == nor && !active && !erased && total == erasedTotal == 0 && wantCrc == 0
    {
      this.nor := nor;
      active, total, wantCrc, erased, erasedTotal := false, 0, 0, false, 0;
    }

    method Begin(size: nat, crc: bv32) returns (r: int)
      requires Valid()
      modifies this
      ensures Valid() && nor.mem == old(nor.mem)
      ensures r == if size == 0 then -1 else if size > FW_LEN then -3 else 0
      ensures r == 0 ==> active && total == size && wantCrc == crc && !erased
      ensures r != 0 ==> unchanged(this)
    {
      if size == 0 {
        return -1;
      }
      if size > FW_LEN {
        return -3;
      }
      erased, erasedTotal := false, 0;
      active, total, wantCrc := true, size, crc;
      return 0;
    }

    /** Erases the partition for the first chunk; refuses a session that did not
        start at offset 0. */
    method EraseIfNeeded(off: nat) returns (r: int)
      requires Valid() && active
      modifies this, nor
      ensures Valid() && active && total == old(total) && wantCrc == old(wantCrc)
      ensures r == if off == 0 || old(erased) then 0 else -12
      ensures r == 0 ==> erased && nor.mem == if off == 0 then Splice(old(nor.mem), 0, Fill(FW_LEN)) else old(nor.mem)
      ensures r != 0 ==> nor.mem == old(nor.mem) && erased == old(erased)
    {
      hide Splice, Fill, AlignDown, AlignUp, End32, AtSector;
      WholeSectors();
      if off == 0 {
        erased, erasedTotal := false, total;
      }
      if erased {
        return 0;
      }
      if off != 0 {
        return -12;
      }
      var er := nor.Erase(0, FW_LEN);
      erased := true;
      return 0;
    }

    /** Takes a chunk if the session is open, the chunk lies inside the announced
        size, and the image was started. */
    method WriteChunk(c: Chunk) returns (r: int)
      requires Valid()
      modifies this, nor
      ensures Valid() && active == old(active) && total == old(total) && wantCrc == old(wantCrc)
      ensures r == if !old(active) then -1 else if c.data == [] then -2 else if c.off > total then -5
                   else if c.off + |c.data| > total then -6 else if c.off == 0 || old(erased) then 0 else -12
      ensures r == 0 ==> c.off + |c.data| <= FW_LEN && erased && Image() == Patch(old(Image()), c)
      ensures r != 0 ==> Image() == old(Image()) && erased == old(erased)
      ensures nor.mem[FW_LEN..] == old(nor.mem)[FW_LEN..]
    {
      hide Splice, Fill, End32, AtSector;
      if !active {
        return -1;
      }
      if c.data == [] {
        return -2;
      }
      if c.off > total {
        return -5;
      }
      if c.off + |c.data| > total {
        return -6;
      }
      var er := EraseIfNeeded(c.off);
      if er != 0 {
        return er;
      }
      ghost var mid := nor.mem;
      var wr := nor.Write(c.off, c.data);
      InPartition(old(nor.mem), c, FW_LEN);
      return 0;
    }

    /** Reads the image back block by block; success if and only if its CRC is the
        announced one. */
    method End() returns (r: int)
      requires Valid()
      modifies this
      ensures Valid() && nor.mem == old(nor.mem) && !active && wantCrc == old(wantCrc)
      ensures r == if !old(active) then -1 else if Crc(0, nor.mem[..old(total)]) == wantCrc then 0 else -4
      // so an image changed in one to four bytes in a row is refused
      ensures r == 0 ==> OnlyImage(nor.mem[..old(total)], wantCrc)
    {
      hide Crc, OnlyImage;
      if !active {
        return -1;
      }
      active := false;
      var left, offset, crc := total, 0, 0 as bv32;
      CrcNone();
      assert nor.mem[..0] == [];
      while left > 0
        invariant 0 <= offset && 0 <= left && offset + left == total <= FW_LEN && nor.mem == old(nor.mem)
        invariant unchanged(`total) && unchanged(`wantCrc) && !active
        invariant crc == Crc(0, nor.mem[..offset])
      {
        var n := if left > BLOCK then BLOCK else left;
        CrcConcat(0, nor.mem[..offset], nor.mem[offset..offset + n]);
        assert nor.mem[..offset] + nor.mem[offset..offset + n] == nor.mem[..offset + n];
        crc := Crc32(crc, nor.mem[offset..offset + n]);
        offset := offset + n;
        left := left - n;
      }
      if crc != wantCrc {
        return -4;
      }
      OnlyOne(nor.mem[..total]);
      return 0;
    }
  }

  lemma WholeSectors()
    ensures AlignDown(0) == 0 && AlignUp(FW_LEN) == FW_LEN
  {
  }

  lemma CrcNone()
    ensures Crc(0, []) == 0
  {
  }

  /** Writing inside the partition patches its image and nothing behind it. */
  lemma InPartition(mem: Octets, c: Chunk, n: nat)
    requires c.off + |c.data| <= n <= |mem|
    ensures var base := if c.off == 0 then Splice(mem, 0, Fill(n)) else mem;
            && Splice(base, c.off, c.data)[..n] == Patch(mem[..n], c)
            && Splice(base, c.off, c.data)[n..] == mem[n..]
  {
  }

  /** A whole update: begin, chunks, end.  Every chunk is taken if and only if the first
      is at offset 0 and all lie inside the announced size.  Then the partition holds
      the chunks' fold, and in any case the session succeeds if and only if the CRC of
      the announced length of the image is the announced one. */
  method Update(s: Session, size: nat, crc: bv32, cs: seq<Chunk>) returns (ok: bool, all: bool)
    requires s.Valid()
    modifies s, s.nor
    ensures s.Valid()
    ensures !(0 < size <= FW_LEN) ==> !ok && !all && s.nor.mem == old(s.nor.mem)
    ensures 0 < size <= FW_LEN ==> (all <==> Taken(cs, size)) && (ok <==> Crc(0, s.Image()[..size]) == crc)
    ensures all ==> Fits(cs, FW_LEN) && s.Image() == Patched(old(s.Image()), cs)
  {
    hide Crc, Patch;
    all := false;
    var b := s.Begin(size, crc);
    if b != 0 {
      return false, false;
    }
    all := true;
    ghost var img := s.Image();
    for i := 0 to |cs|
      invariant s.Valid() && s.active && s.total == size && s.wantCrc == crc
      invariant all <==> Taken(cs[..i], size)
      invariant all ==> Fits(cs[..i], FW_LEN) && s.Image() == Patched(img, cs[..i])
      invariant i == 0 ==> !s.erased
      invariant all && i > 0 ==> s.erased
    {
      assert cs[..i + 1] == cs[..i] + [cs[i]];
      TakenNext(cs[..i], cs[i], size);
      var r := s.WriteChunk(cs[i]);
      all := all && r == 0;
    }
    assert cs[..|cs|] == cs;
    var e := s.End();
    assert s.Image()[..size] == s.nor.mem[..size];
    ok := e == 0;
  }

  /** The chunks a session of this size takes. */
  ghost predicate Taken(cs: seq<Chunk>, size: nat) {
    Fits(cs, size) && (cs != [] ==> cs[0].off == 0)
  }

  lemma TakenNext(cs: seq<Chunk>, c: Chunk, size: nat)
    ensures Taken(cs + [c], size) <==>
              Taken(cs, size) && c.data != [] && c.off + |c.data| <= size && (cs == [] ==> c.off == 0)
  {
    var all := cs + [c];
    assert all[|cs|] == c;
    forall i | 0 <= i < |cs| ensures all[i] == cs[i] {
    }
  }

  /** An image sent in order and in full: the update succeeds if and only if the
      announced CRC is the image's, and the image is then on flash byte for byte. */
  method UpdateInOrder(s: Session, crc: bv32, cs: seq<Chunk>) returns (ok: bool)
    requires s.Valid() && cs != [] && EndToEnd(cs) && |Joined(cs)| <= FW_LEN
    modifies s, s.nor
    ensures s.Valid() && s.Image()[..|Joined(cs)|] == Joined(cs)
    ensures ok <==> Crc(0, Joined(cs)) == crc
    ensures ok ==> OnlyImage(Joined(cs), crc)
  {
    hide Crc, Patched, EndToEnd, OnlyImage;
    OnlyOne(Joined(cs));
    JoinedFits(cs, |Joined(cs)|);
    InOrderImage(s.Image(), cs);
    var all;
    ok, all := Update(s, |Joined(cs)|, crc, cs);
  }
}

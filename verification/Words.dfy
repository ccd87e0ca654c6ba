/** Fixed-width machine words and bytes, shared by the wire formats.

A word is its list of bits, least significant first, so a shift that pushes a
bit past the width loses it exactly as the C operator on that width does. */
module Words {

  const WRAP32 := 0x1_0000_0000

  datatype Option<+T> = None | Some(value: T)

  ghost predicate Distinct<T>(s: seq<T>) {
    forall i, j :: 0 <= i < j < |s| ==> s[i] != s[j]
  }

  /** `a - b` on a 32-bit clock. */
  function Sub32(a: nat, b: nat): (d: nat)
    ensures b <= a < WRAP32 ==> d == a - b
  {
    (a - b) % WRAP32
  }

  function Min(a: nat, b: nat): (m: nat)
    ensures m <= a && m <= b && (m == a || m == b)
  {
    if a < b then a else b
  }

  function Max(a: nat, b: nat): (m: nat)
    ensures m >= a && m >= b && (m == a || m == b)
  {
    if a < b then b else a
  }

  type Byte = x: int | 0 <= x < 256

  /** A truncated hash: a link id or a destination. */
  type Id = s: seq<Byte> | |s| == 16 witness [0, 0, 0, 0, 0, 0, 0, 0, 0, 0, 0, 0, 0, 0, 0, 0]

  type U16 = x: int | 0 <= x < 0x1_0000

  type Word8 = w: seq<bool> | |w| == 8 witness seq(8, _ => false)

  type Word32 = w: seq<bool> | |w| == 32 witness seq(32, _ => false)

  type Word64 = w: seq<bool> | |w| == 64 witness seq(64, _ => false)

  const ZERO64: Word64 := seq(64, _ => false)

  /** `w << n` on 64 bits. */
  function Shl64(w: Word64, n: nat): Word64 {
    seq(64, k requires 0 <= k < 64 => k >= n && w[k - n])
  }

  /** `w >> n` on 64 bits. */
  function Shr64(w: Word64, n: nat): Word64 {
    seq(64, k requires 0 <= k < 64 => k + n < 64 && w[k + n])
  }

  /** `a | b` on 64 bits. */
  function Or64(a: Word64, b: Word64): Word64 {
    seq(64, k requires 0 <= k < 64 => a[k] || b[k])
  }

  /** `1u << n` on 32 bits, where C defines it. */
  function One32(n: nat): Word32
    requires n < 32
  {
    seq(32, k => k == n)
  }

  /** `(uint64_t)1u << n`. */
  function One64(n: nat): Word64
    requires n < 64
  {
    seq(64, k => k == n)
  }

  /** Zero extension in the usual arithmetic conversions. */
  function Widen(w: Word32): Word64 {
    w + seq(32, _ => false)
  }

  /** `(uint8_t)w`: the low eight bits. */
  function Low8(w: Word64): Word8 {
    w[..8]
  }

  /** `(uint64_t)b`. */
  function Widen8(w: Word8): Word64 {
    w + seq(56, _ => false)
  }

  function Pow2(n: nat): nat {
    if n == 0 then 1 else 2 * Pow2(n - 1)
  }

  /** The number a list of bits stands for. */
  function ValueOf(w: seq<bool>): (v: nat)
    ensures v < Pow2(|w|)
  {
    if w == [] then 0 else (if w[0] then 1 else 0) + 2 * ValueOf(w[1..])
  }

  /** The low n bits of a number. */
  function BitsOf(v: nat, n: nat): (w: seq<bool>)
    ensures |w| == n
  {
    if n == 0 then [] else [v % 2 == 1] + BitsOf(v / 2, n - 1)
  }

  lemma {:induction false} BitsOfValue(w: seq<bool>)
    ensures BitsOf(ValueOf(w), |w|) == w
  {
    if w != [] {
      BitsOfValue(w[1..]);
      assert ValueOf(w) / 2 == ValueOf(w[1..]);
    }
  }

  /** The value a byte of bits puts on the wire. */
  function Value8(w: Word8): Byte {
    assert Pow2(8) == 2 * (2 * (2 * (2 * (2 * (2 * (2 * (2 * Pow2(0))))))));
    ValueOf(w)
  }

  /** The bits of a received byte. */
  function Bits8(b: Byte): Word8 {
    BitsOf(b, 8)
  }

  function Lo(x: U16): Byte { x % 256 }

  function Hi(x: U16): Byte { x / 256 }

  /** A little-endian 16-bit field. */
  function Le16(lo: Byte, hi: Byte): U16 { lo + 256 * hi }

  lemma Le16Parts(lo: Byte, hi: Byte)
    ensures Lo(Le16(lo, hi)) == lo && Hi(Le16(lo, hi)) == hi
  {
  }

  lemma LoHi(x: U16)
    ensures Le16(Lo(x), Hi(x)) == x
  {
  }

  /** `(uint16_t)(a - b)`. */
  function Sub16(a: int, b: int): U16 { (a - b) % 0x1_0000 }
}

/** JSON strings (section 7 of RFC 8259): escaping on the way out, unescaping on the
way in, with UTF-16 escapes turned into UTF-8 (section 3 of RFC 3629). */
module JsonString {
  import opened Words

  type Bytes = seq<Byte>

  const QUOTE: Byte := 0x22
  const BSLASH: Byte := 0x5C
  const LOWER_U: Byte := 0x75

  // ------------------------------------------------------------------ printing

  /** The letter of a two-character escape, or 0. */
  function Letter(b: Byte): Byte {
    if b == 0x22 || b == 0x5C then b
    else if b == 0x08 then 0x62 else if b == 0x0C then 0x66 else if b == 0x0A then 0x6E
    else if b == 0x0D then 0x72 else if b == 0x09 then 0x74 else 0
  }

  /** A lower-case hexadecimal digit. */
  function HexDigit(v: nat): Byte
    requires v < 16
  {
    if v < 10 then 0x30 + v else 0x57 + v
  }

  function EscapeByte(b: Byte): Bytes {
    if Letter(b) != 0 then [BSLASH, Letter(b)]
    else if b < 32 then [BSLASH, LOWER_U, 0x30, 0x30, HexDigit(b / 16), HexDigit(b % 16)]
    else [b]
  }

  function Escape(s: Bytes): Bytes {
    if s == [] then [] else Escape(s[..|s| - 1]) + EscapeByte(s[|s| - 1])
  }

  lemma EscapeNext(s: Bytes, i: nat)
    requires i < |s|
    ensures Escape(s[..0]) == [] && Escape(s[..i + 1]) == Escape(s[..i]) + EscapeByte(s[i])
  {
    assert s[..i + 1][..i] == s[..i];
  }

  lemma {:induction false} EscapePrefix(s: Bytes, i: nat)
    requires i <= |s|
    ensures |Escape(s[..i])| <= |Escape(s)|
    decreases |s|
  {
    if i == |s| {
      assert s[..i] == s;
    } else {
      EscapePrefix(s[..|s| - 1], i);
      assert s[..|s| - 1][..i] == s[..i];
    }
  }

  lemma {:induction false} NothingToEscape(s: Bytes)
    requires |Escape(s)| == |s|
    ensures Escape(s) == s
  {
    if s != [] {
      EscapeGrows(s[..|s| - 1]);
      NothingToEscape(s[..|s| - 1]);
    }
  }

  lemma {:induction false} EscapeGrows(s: Bytes)
    ensures |Escape(s)| >= |s|
  {
    if s != [] {
      EscapeGrows(s[..|s| - 1]);
    }
  }

  /** How many characters escaping adds. */
  method CountExtra(s: Bytes) returns (extra: nat)
    ensures |s| + extra == |Escape(s)|
  {
    hide Escape;
    extra := 0;
    EscapeEmpty();
    for i := 0 to |s|
      invariant i + extra == |Escape(s[..i])|
    {
      EscapeNext(s, i);
      if Letter(s[i]) != 0 {
        extra := extra + 1;
      } else if s[i] < 32 {
        extra := extra + 5;
      }
    }
    assert s[..|s|] == s;
  }

  /** Writes one character at o; a formatted escape puts its terminator behind it. */
  method WriteByte(out: array<Byte>, o: nat, b: Byte) returns (n: nat)
    requires o + |EscapeByte(b)| < out.Length
    modifies out
    ensures n == o + |EscapeByte(b)| && out[..n] == old(out[..o]) + EscapeByte(b)
  {
    ghost var was := out[..o];
    if b > 31 && b != QUOTE && b != BSLASH {
      out[o] := b;
      n := o + 1;
    } else {
      out[o] := BSLASH;
      if Letter(b) != 0 {
        out[o + 1] := Letter(b);
        n := o + 2;
      } else {
        out[o + 1], out[o + 2], out[o + 3] := LOWER_U, 0x30, 0x30;
        out[o + 4], out[o + 5], out[o + 6] := HexDigit(b / 16), HexDigit(b % 16), 0;
        n := o + 6;
      }
    }
    assert out[..o] == was;
    assert out[o..n] == EscapeByte(b);
    assert out[..n] == out[..o] + out[o..n];
  }

  /** Prints a string between quotes into a buffer of exactly the size counted first;
      the terminator a formatted escape leaves behind is always overwritten. */
  method PrintString(s: Bytes) returns (out: array<Byte>)
    ensures fresh(out) && out[..] == [QUOTE] + Escape(s) + [QUOTE, 0]
  {
    hide Escape, EscapeByte;
    var extra := CountExtra(s);
    var len := |s| + extra;
    out := new Byte[len + 3];
    out[0] := QUOTE;
    if extra == 0 {
      NothingToEscape(s);
      for k := 0 to |s|
        invariant out[..1 + k] == [QUOTE] + s[..k]
      {
        out[1 + k] := s[k];
      }
      assert s[..|s|] == s;
    } else {
      var o := 1;
      EscapeEmpty();
      for i := 0 to |s|
        invariant o == 1 + |Escape(s[..i])| <= 1 + len
        invariant out[..o] == [QUOTE] + Escape(s[..i])
      {
        EscapeNext(s, i);
        EscapePrefix(s, i + 1);
        o := WriteByte(out, o, s[i]);
      }
      assert s[..|s|] == s;
    }
    assert out[..1 + len] == [QUOTE] + Escape(s);
    out[len + 1] := QUOTE;
    out[len + 2] := 0;
  }

  lemma EscapeEmpty()
    ensures Escape([]) == []
  {
  }

  // ------------------------------------------------------------- UTF-16 to UTF-8

  /** The value of a hexadecimal digit of either case, or -1. */
  function HexVal(c: Byte): int {
    if 0x30 <= c <= 0x39 then c - 0x30
    else if 0x41 <= c <= 0x46 then c - 0x37
    else if 0x61 <= c <= 0x66 then c - 0x57
    else -1
  }

  const UPPER: Bytes := [0x30, 0x31, 0x32, 0x33, 0x34, 0x35, 0x36, 0x37, 0x38, 0x39, 0x41, 0x42, 0x43, 0x44, 0x45, 0x46]

  const LOWER: Bytes := [0x30, 0x31, 0x32, 0x33, 0x34, 0x35, 0x36, 0x37, 0x38, 0x39, 0x61, 0x62, 0x63, 0x64, 0x65, 0x66]

  /** Exactly the digits of either case have a value, and it is their place. */
  lemma HexValIff(c: Byte)
    ensures HexVal(c) >= 0 <==> c in UPPER || c in LOWER
    ensures HexVal(c) >= 0 ==> HexVal(c) < 16 && (UPPER[HexVal(c)] == c || LOWER[HexVal(c)] == c)
  {
    var v := HexVal(c);
    assert 0 <= v < 16 ==> UPPER[v] == c || LOWER[v] == c;
  }

  predicate IsHex4(b: Bytes, p: nat)
    requires p + 4 <= |b|
  {
    HexVal(b[p]) >= 0 && HexVal(b[p + 1]) >= 0 && HexVal(b[p + 2]) >= 0 && HexVal(b[p + 3]) >= 0
  }

  /** Four hexadecimal digits; anything else counts as zero. */
  function Hex4(b: Bytes, p: nat): (v: nat)
    requires p + 4 <= |b|
    ensures v < 0x1_0000
  {
    if IsHex4(b, p) then
      HexVal(b[p]) * 4096 + HexVal(b[p + 1]) * 256 + HexVal(b[p + 2]) * 16 + HexVal(b[p + 3])
    else 0
  }

  /** Section 3 of RFC 3629. */
  function Utf8(cp: nat): Bytes
    requires cp <= 0x10_FFFF
  {
    if cp < 0x80 then [cp]
    else if cp < 0x800 then [0xC0 + cp / 64, 0x80 + cp % 64]
    else if cp < 0x1_0000 then [0xE0 + cp / 4096, 0x80 + cp / 64 % 64, 0x80 + cp % 64]
    else [0xF0 + cp / 262144, 0x80 + cp / 4096 % 64, 0x80 + cp / 64 % 64, 0x80 + cp % 64]
  }

  /** The number a UTF-8 sequence stands for: six bits from each continuation byte. */
  function FromUtf8(u: Bytes): int {
    if |u| == 1 then u[0]
    else if |u| == 2 then (u[0] as int - 0xC0) * 64 + (u[1] as int - 0x80)
    else if |u| == 3 then ((u[0] as int - 0xE0) * 64 + (u[1] as int - 0x80)) * 64 + (u[2] as int - 0x80)
    else if |u| == 4 then
      (((u[0] as int - 0xF0) * 64 + (u[1] as int - 0x80)) * 64 + (u[2] as int - 0x80)) * 64 + (u[3] as int - 0x80)
    else -1
  }

  lemma SixBits(x: nat)
    ensures x / 4096 == x / 64 / 64 && x / 262144 == x / 64 / 64 / 64
    ensures x == x / 64 * 64 + x % 64
  {
  }

  lemma Utf8RoundTrip(cp: nat)
    requires cp <= 0x10_FFFF
    ensures FromUtf8(Utf8(cp)) == cp
  {
    SixBits(cp);
    SixBits(cp / 64);
    SixBits(cp / 64 / 64);
  }

  /** What a \u escape at p is worth: its length in the input and its code point. */
  function Literal(b: Bytes, p: nat, end: nat): (r: Option<(nat, nat)>)
    requires p < end <= |b|
    ensures r.Some? ==> (r.value.0 == 6 || r.value.0 == 12) && p + r.value.0 <= end && r.value.1 <= 0x10_FFFF
    ensures r.Some? && r.value.0 == 6 ==> r.value.1 < 0x1_0000
  {
    if end - p < 6 then None
    else
      var first := Hex4(b, p + 2);
      if 0xDC00 <= first <= 0xDFFF then None
      else if !(0xD800 <= first <= 0xDBFF) then Some((6, first))
      else if end - p < 12 || b[p + 6] != BSLASH || b[p + 7] != LOWER_U then None
      else
        var second := Hex4(b, p + 8);
        if !(0xDC00 <= second <= 0xDFFF) then None
        else Some((12, 0x1_0000 + (first - 0xD800) * 1024 + (second - 0xDC00)))
  }

  /** What section 7 of RFC 8259 makes of the same text: four hexadecimal digits are required,
      and a surrogate counts only in a pair. */
  function Grammatical(b: Bytes, p: nat, end: nat): (r: Option<(nat, nat)>)
    requires p < end <= |b|
    ensures r.Some? ==> (r.value.0 == 6 || r.value.0 == 12) && p + r.value.0 <= end && r.value.1 <= 0x10_FFFF
  {
    if end - p < 6 || !IsHex4(b, p + 2) then None
    else if 0xD800 <= Hex4(b, p + 2) <= 0xDBFF then
      if end - p < 12 || b[p + 6] != BSLASH || b[p + 7] != LOWER_U || !IsHex4(b, p + 8) then None
      else if !(0xDC00 <= Hex4(b, p + 8) <= 0xDFFF) then None
      else Some((12, 0x1_0000 + (Hex4(b, p + 2) - 0xD800) * 1024 + (Hex4(b, p + 8) - 0xDC00)))
    else if 0xDC00 <= Hex4(b, p + 2) <= 0xDFFF then None
    else Some((6, Hex4(b, p + 2)))
  }

  /** An escape is read as the grammar says if and only if it is cut short or its first four
      digits are hexadecimal.  Otherwise it is not refused but read as NUL. */
  lemma LiteralGrammaticalIff(b: Bytes, p: nat, end: nat)
    requires p < end <= |b|
    ensures Literal(b, p, end) == Grammatical(b, p, end) <==> end - p < 6 || IsHex4(b, p + 2)
    ensures end - p >= 6 && !IsHex4(b, p + 2) ==> Literal(b, p, end) == Some((6, 0))
  {
  }

  /** An accepted escape has hexadecimal digits throughout if and only if its first four are:
      a malformed second half is always refused. */
  lemma AcceptedDigitsIff(b: Bytes, p: nat, end: nat)
    requires p < end <= |b| && Literal(b, p, end).Some?
    ensures IsHex4(b, p + 2) && (Literal(b, p, end).value.0 == 12 ==> IsHex4(b, p + 8)) <==> IsHex4(b, p + 2)
    ensures !IsHex4(b, p + 2) ==> Literal(b, p, end).value == (6, 0)
  {
  }

  /** Four lower-case digits. */
  function HexText(v: nat): Bytes
    requires v < 0x1_0000
  {
    [HexDigit(v / 4096), HexDigit(v / 256 % 16), HexDigit(v / 16 % 16), HexDigit(v % 16)]
  }

  lemma HexTextBack(b: Bytes, p: nat, v: nat)
    requires v < 0x1_0000 && p + 4 <= |b| && b[p..p + 4] == HexText(v)
    ensures IsHex4(b, p) && Hex4(b, p) == v
  {
    var t := b[p..p + 4];
    assert b[p] == t[0] && b[p + 1] == t[1] && b[p + 2] == t[2] && b[p + 3] == t[3];
    HexPlain(v / 4096);
    HexPlain(v / 256 % 16);
    HexPlain(v / 16 % 16);
    HexPlain(v % 16);
    HexSplit(v);
  }

  lemma HexSplit(v: nat)
    requires v < 0x1_0000
    ensures v == v / 4096 * 4096 + v / 256 % 16 * 256 + v / 16 % 16 * 16 + v % 16
  {
    var a, b, c := v / 16, v / 256, v / 4096;
    Nibble(v);
    Nibble(a);
    Nibble(b);
    assert b == a / 16 && c == b / 16 by {
      NextNibble(v);
    }
  }

  lemma Nibble(x: nat)
    ensures x == x / 16 * 16 + x % 16
  {
  }

  lemma NextNibble(x: nat)
    ensures x / 256 == x / 16 / 16 && x / 4096 == x / 256 / 16
  {
  }

  function High(cp: nat): nat { 0xD800 + (if cp < 0x1_0000 then 0 else (cp - 0x1_0000) / 1024) }

  function Low(cp: nat): nat { 0xDC00 + cp % 1024 }

  lemma SurrogateValues(cp: nat)
    requires 0x1_0000 <= cp <= 0x10_FFFF
    ensures 0xD800 <= High(cp) <= 0xDBFF && 0xDC00 <= Low(cp) <= 0xDFFF
    ensures 0x1_0000 + (High(cp) - 0xD800) * 1024 + (Low(cp) - 0xDC00) == cp
  {
  }

  /** The two escapes of a code point beyond the first plane. */
  function PairText(cp: nat): (t: Bytes)
    requires 0x1_0000 <= cp <= 0x10_FFFF
    ensures |t| == 12
  {
    SurrogateValues(cp);
    [BSLASH, LOWER_U] + HexText(High(cp)) + [BSLASH, LOWER_U] + HexText(Low(cp))
  }

  /** Every code point beyond the first plane has its surrogate pair, and the twelve
      characters of the pair are read back as that code point. */
  lemma SurrogatesCover(cp: nat, b: Bytes, p: nat, end: nat)
    requires 0x1_0000 <= cp <= 0x10_FFFF && p + 12 <= end <= |b| && b[p..p + 12] == PairText(cp)
    ensures Literal(b, p, end) == Some((12, cp))
  {
    hide HexText, High, Low, Literal, Hex4, IsHex4;
    SurrogateValues(cp);
    HexTextLength(High(cp));
    HexTextLength(Low(cp));
    PairSlices(HexText(High(cp)), HexText(Low(cp)));
    PairRead(b, p, b[p..p + 12]);
    HexTextBack(b, p + 2, High(cp));
    HexTextBack(b, p + 8, Low(cp));
    PairLiteral(b, p, end, cp);
  }

  lemma PairRead(b: Bytes, p: nat, t: Bytes)
    requires p + 12 <= |b| && t == b[p..p + 12]
    ensures b[p + 2..p + 6] == t[2..6] && b[p + 8..p + 12] == t[8..12] && b[p + 6] == t[6] && b[p + 7] == t[7]
  {
    SliceOfSlice(b, p, 12, 2, 6);
    SliceOfSlice(b, p, 12, 8, 12);
    assert t[6] == b[p + 6] && t[7] == b[p + 7];
  }

  lemma SliceOfSlice(b: Bytes, p: nat, n: nat, i: nat, j: nat)
    requires p + n <= |b| && i <= j <= n
    ensures b[p..p + n][i..j] == b[p + i..p + j]
  {
    var x, y := b[p..p + n][i..j], b[p + i..p + j];
    assert |x| == |y|;
    forall k | 0 <= k < |x| ensures x[k] == y[k] {
      assert x[k] == b[p..p + n][i + k];
    }
  }

  lemma PairLiteral(b: Bytes, p: nat, end: nat, cp: nat)
    requires 0x1_0000 <= cp <= 0x10_FFFF && p + 12 <= end <= |b| && b[p + 6] == BSLASH && b[p + 7] == LOWER_U
    requires Hex4(b, p + 2) == High(cp) && Hex4(b, p + 8) == Low(cp)
    ensures Literal(b, p, end) == Some((12, cp))
  {
    hide Hex4, High, Low;
    SurrogateValues(cp);
  }

  lemma PairSlices(h: Bytes, l: Bytes)
    requires |h| == |l| == 4
    ensures var t: Bytes := [BSLASH, LOWER_U] + h + [BSLASH, LOWER_U] + l;
            t[2..6] == h && t[6] == BSLASH && t[7] == LOWER_U && t[8..12] == l
  {
  }

  lemma HexTextLength(v: nat)
    requires v < 0x1_0000
    ensures |HexText(v)| == 4
  {
  }

  method WriteUtf8(out: array<Byte>, o: nat, codepoint: nat) returns (n: nat)
    requires codepoint <= 0x10_FFFF && o + |Utf8(codepoint)| <= out.Length
    modifies out
    ensures n == o + |Utf8(codepoint)| && out[..n] == old(out[..o]) + Utf8(codepoint)
  {
    hide Shifted, Utf8;
    Utf8Length(codepoint);
    var cp := codepoint;
    var len := if cp < 0x80 then 1 else if cp < 0x800 then 2 else if cp < 0x1_0000 then 3 else 4;
    var mark := if len == 1 then 0 else if len == 2 then 0xC0 else if len == 3 then 0xE0 else 0xF0;
    ghost var u := Utf8(codepoint);
    Utf8Shifted(codepoint);
    ShiftedZero(codepoint);
    var pos := len - 1;
    while pos > 0
      invariant 0 <= pos < len && cp == Shifted(codepoint, len - 1 - pos)
      invariant out[..o] == old(out[..o])
      invariant forall k :: pos < k < len ==> out[o + k] == u[k]
    {
      ShiftedNext(codepoint, len - 1 - pos);
      out[o + pos] := 0x80 + cp % 64;
      cp := cp / 64;
      pos := pos - 1;
    }
    out[o] := mark + cp;
    n := o + len;
    assert out[o..n] == u;
    assert out[..n] == out[..o] + out[o..n];
  }

  function Shifted(cp: nat, n: nat): nat {
    if n == 0 then cp else Shifted(cp, n - 1) / 64
  }

  lemma ShiftedZero(cp: nat)
    ensures Shifted(cp, 0) == cp
  {
  }

  lemma ShiftedNext(cp: nat, n: nat)
    ensures Shifted(cp, n + 1) == Shifted(cp, n) / 64
  {
  }

  /** The bytes of a UTF-8 sequence by how far the code point has been shifted. */
  lemma Utf8Shifted(cp: nat)
    requires cp <= 0x10_FFFF
    ensures var u := Utf8(cp);
            && (forall k :: 0 < k < |u| ==> u[k] == 0x80 + Shifted(cp, |u| - 1 - k) % 64)
            && u[0] == Shifted(cp, |u| - 1) + if |u| == 1 then 0 else if |u| == 2
                then 0xC0 else if |u| == 3 then 0xE0 else 0xF0
  {
    SixBits(cp);
    assert Shifted(cp, 1) == Shifted(cp, 0) / 64 == cp / 64;
    assert Shifted(cp, 2) == cp / 64 / 64;
    assert Shifted(cp, 3) == cp / 64 / 64 / 64;
  }

  // ------------------------------------------------------------------- parsing

  /** The closing quote seen by the first pass from p on, or -1: an escape is a
      backslash and whatever follows it. */
  function ScanEnd(b: Bytes, p: nat): (r: int)
    ensures r == -1 || (p <= r < |b| && b[r] == QUOTE)
    decreases |b| - p
  {
    if p >= |b| then -1
    else if b[p] == QUOTE then p
    else if b[p] == BSLASH then ScanEnd(b, p + 2)
    else ScanEnd(b, p + 1)
  }

  /** How many such units lie between p and the closing quote. */
  function Units(b: Bytes, p: nat, end: nat): nat
    requires end <= |b|
    decreases end - p
  {
    if p >= end then 0 else if b[p] == BSLASH then 1 + Units(b, p + 2, end) else 1 + Units(b, p + 1, end)
  }

  function Simple(c: Byte): Option<Byte> {
    if c == 0x62 then Some(0x08) else if c == 0x66 then Some(0x0C) else if c == 0x6E then Some(0x0A)
    else if c == 0x72 then Some(0x0D) else if c == 0x74 then Some(0x09)
    else if c == 0x22 || c == 0x5C || c == 0x2F then Some(c)
    else None
  }

  function Then(pre: Bytes, r: Option<Bytes>): Option<Bytes> {
    if r.None? then None else Some(pre + r.value)
  }

  lemma ThenThen(x: Bytes, y: Bytes, r: Option<Bytes>)
    ensures Then(x, Then(y, r)) == Then(x + y, r)
  {
    if r.Some? {
      assert x + (y + r.value) == (x + y) + r.value;
    }
  }

  /** What the second pass makes of the text from p up to the closing quote. */
  function Unescape(b: Bytes, p: nat, end: nat): Option<Bytes>
    requires end < |b|
    decreases end - p
  {
    if p >= end then Some([])
    else if b[p] != BSLASH then Then([b[p]], Unescape(b, p + 1, end))
    else if b[p + 1] == LOWER_U then
      var l := Literal(b, p, end);
      if l.None? then None else Then(Utf8(l.value.1), Unescape(b, p + l.value.0, end))
    else
      var c := Simple(b[p + 1]);
      if c.None? then None else Then([c.value], Unescape(b, p + 2, end))
  }

  /** A quoted string at the start of b: its value and where it ends. */
  function Parse(b: Bytes): Option<(Bytes, nat)> {
    if b == [] || b[0] != QUOTE then None
    else
      var end := ScanEnd(b, 1);
      if end < 0 || Unescape(b, 1, end).None? then None
      else Some((Unescape(b, 1, end).value, end + 1))
  }

  /** The failing input: an escape of four letters Z is a string of one NUL. */
  lemma MalformedEscapeIsNul()
    ensures Parse([QUOTE, BSLASH, LOWER_U, 0x5A, 0x5A, 0x5A, 0x5A, QUOTE]) == Some(([0], 8))
  {
    var b: Bytes := [QUOTE, BSLASH, LOWER_U, 0x5A, 0x5A, 0x5A, 0x5A, QUOTE];
    assert ScanEnd(b, 7) == 7 && ScanEnd(b, 6) == 7 && ScanEnd(b, 5) == 7 && ScanEnd(b, 4) == 7;
    assert ScanEnd(b, 3) == 7 && ScanEnd(b, 1) == 7;
    assert Literal(b, 1, 7) == Some((6, 0));
    assert Unescape(b, 7, 7) == Some([]);
    assert Unescape(b, 1, 7) == Then([0], Some([]));
    assert [0] + [] == [0];
  }

  // -------------------------------------------------- against the grammar

  /** The two-character escapes of the grammar: quote, backslash, slash, and the letters of
      backspace, form feed, line feed, carriage return and tab. */
  const ESCAPES: map<Byte, Byte> :=
    map[0x22 := 0x22, 0x5C := 0x5C, 0x2F := 0x2F, 0x62 := 0x08, 0x66 := 0x0C, 0x6E := 0x0A, 0x72 := 0x0D, 0x74 := 0x09]

  function Meant(c: Byte): Option<Byte> {
    if c in ESCAPES then Some(ESCAPES[c]) else None
  }

  lemma SimpleIsGrammar(c: Byte)
    ensures Simple(c) == Meant(c)
  {
  }

  /** Printing escapes exactly the characters the grammar does not let stand for themselves,
      and with two characters whenever there is such an escape. */
  lemma EscapedAsNeeded(c: Byte)
    ensures EscapeByte(c) == [c] <==> c >= 0x20 && c != QUOTE && c != BSLASH
    ensures EscapeByte(c) != [c] ==> (|EscapeByte(c)| == 2 <==> exists x :: x in ESCAPES && ESCAPES[x] == c)
  {
    assert ESCAPES[0x22] == 0x22 && ESCAPES[0x5C] == 0x5C && ESCAPES[0x62] == 0x08 && ESCAPES[0x66] == 0x0C;
    assert ESCAPES[0x6E] == 0x0A && ESCAPES[0x72] == 0x0D && ESCAPES[0x74] == 0x09;
  }

  function Before(pre: Bytes, r: Option<(Bytes, nat)>): Option<(Bytes, nat)> {
    if r.None? then None else Some((pre + r.value.0, r.value.1))
  }

  /** The characters of a string from p on and its closing quote, read in one go by the
      grammar of section 7 of RFC 8259. */
  function Text(b: Bytes, p: nat): (r: Option<(Bytes, nat)>)
    ensures r.Some? ==> p < r.value.1
    decreases |b| - p
  {
    if p >= |b| then None
    else if b[p] == QUOTE then Some(([], p + 1))
    else if b[p] < 0x20 then None
    else if b[p] != BSLASH then Before([b[p]], Text(b, p + 1))
    else if p + 1 >= |b| then None
    else if b[p + 1] == LOWER_U then
      var l := Grammatical(b, p, |b|);
      if l.None? then None else Before(Utf8(l.value.1), Text(b, p + l.value.0))
    else
      var c := Meant(b[p + 1]);
      if c.None? then None else Before([c.value], Text(b, p + 2))
  }

  function ByGrammar(b: Bytes): Option<(Bytes, nat)> {
    if b == [] || b[0] != QUOTE then None else Text(b, 1)
  }

  /** No control character stands for itself, and every \u has its four digits. */
  predicate Tidy(b: Bytes, p: nat, end: nat)
    requires end < |b|
    decreases end - p
  {
    if p >= end then true
    else if b[p] != BSLASH then b[p] >= 0x20 && Tidy(b, p + 1, end)
    else if b[p + 1] == LOWER_U then
      var l := Literal(b, p, end);
      l.Some? && IsHex4(b, p + 2) && Tidy(b, p + l.value.0, end)
    else Tidy(b, p + 2, end)
  }

  lemma HexSkips(b: Bytes, a: nat)
    requires a + 4 <= |b| && IsHex4(b, a)
    ensures ScanEnd(b, a) == ScanEnd(b, a + 4)
  {
    assert ScanEnd(b, a) == ScanEnd(b, a + 1) && ScanEnd(b, a + 1) == ScanEnd(b, a + 2);
    assert ScanEnd(b, a + 2) == ScanEnd(b, a + 3) && ScanEnd(b, a + 3) == ScanEnd(b, a + 4);
  }

  /** A well-formed \u is skipped as a whole by the first pass. */
  lemma EscapeSkips(b: Bytes, p: nat)
    requires p + 1 < |b| && b[p] == BSLASH && b[p + 1] == LOWER_U && Grammatical(b, p, |b|).Some?
    ensures ScanEnd(b, p) == ScanEnd(b, p + Grammatical(b, p, |b|).value.0)
  {
    assert ScanEnd(b, p) == ScanEnd(b, p + 2);
    HexSkips(b, p + 2);
    if Grammatical(b, p, |b|).value.0 == 12 {
      assert ScanEnd(b, p + 6) == ScanEnd(b, p + 8);
      HexSkips(b, p + 8);
    }
  }

  lemma GrammaticalLiteral(b: Bytes, p: nat, end: nat)
    requires p + 1 < |b| && Grammatical(b, p, |b|).Some? && p + Grammatical(b, p, |b|).value.0 <= end <= |b|
    ensures p < end && Literal(b, p, end) == Grammatical(b, p, |b|) && p + 6 <= end && IsHex4(b, p + 2)
    ensures Grammatical(b, p, |b|).value.0 >= 6 && Grammatical(b, p, |b|).value.1 <= 0x10_FFFF
  {
  }

  /** The two passes read a tidy text from p up to the closing quote as v. */
  ghost predicate ReadAs(b: Bytes, p: nat, end: nat, v: Bytes) {
    p <= end < |b| && ScanEnd(b, p) == end && Unescape(b, p, end) == Some(v) && Tidy(b, p, end)
  }

  lemma ReadNone(b: Bytes, p: nat)
    requires p < |b| && b[p] == QUOTE
    ensures ReadAs(b, p, p, [])
  {
  }

  lemma ReadPlain(b: Bytes, p: nat, end: nat, v: Bytes)
    requires p < |b| && b[p] != QUOTE && b[p] != BSLASH && b[p] >= 0x20 && ReadAs(b, p + 1, end, v)
    ensures ReadAs(b, p, end, [b[p]] + v)
  {
  }

  lemma ReadSimple(b: Bytes, p: nat, end: nat, v: Bytes)
    requires p + 1 < |b| && b[p] == BSLASH && b[p + 1] != LOWER_U && Simple(b[p + 1]).Some? && ReadAs(b, p + 2, end, v)
    ensures ReadAs(b, p, end, [Simple(b[p + 1]).value] + v)
  {
  }

  lemma ReadEscape(b: Bytes, p: nat, end: nat, v: Bytes)
    requires p + 1 < |b| && b[p] == BSLASH && b[p + 1] == LOWER_U && Grammatical(b, p, |b|).Some?
    requires ReadAs(b, p + Grammatical(b, p, |b|).value.0, end, v)
    ensures ReadAs(b, p, end, Utf8(Grammatical(b, p, |b|).value.1) + v)
  {
    hide Utf8, Grammatical, Literal, IsHex4;
    EscapeSkips(b, p);
    GrammaticalLiteral(b, p, end);
  }

  /** What the grammar reads, the two passes read the same. */
  lemma {:induction false} GrammarRead(b: Bytes, p: nat)
    requires Text(b, p).Some?
    ensures ReadAs(b, p, Text(b, p).value.1 - 1, Text(b, p).value.0)
    decreases |b| - p
  {
    hide Utf8, Simple, Meant, Grammatical, ReadAs;
    if b[p] == QUOTE {
      ReadNone(b, p);
    } else if b[p] != BSLASH {
      GrammarRead(b, p + 1);
      ReadPlain(b, p, Text(b, p).value.1 - 1, Text(b, p + 1).value.0);
    } else if b[p + 1] == LOWER_U {
      var n := Grammatical(b, p, |b|).value.0;
      GrammarRead(b, p + n);
      ReadEscape(b, p, Text(b, p).value.1 - 1, Text(b, p + n).value.0);
    } else {
      SimpleIsGrammar(b[p + 1]);
      GrammarRead(b, p + 2);
      ReadSimple(b, p, Text(b, p).value.1 - 1, Text(b, p + 2).value.0);
    }
  }

  /** What the two passes read of a tidy text, the grammar reads the same. */
  lemma {:induction false} TidyRead(b: Bytes, p: nat, end: nat)
    requires ScanEnd(b, p) == end && Unescape(b, p, end).Some? && Tidy(b, p, end)
    ensures Text(b, p) == Some((Unescape(b, p, end).value, end + 1))
    decreases |b| - p
  {
    hide Utf8, Simple, Meant;
    if p < end {
      if b[p] != BSLASH {
        TidyRead(b, p + 1, end);
      } else if b[p + 1] == LOWER_U {
        var l := Literal(b, p, end);
        assert Grammatical(b, p, |b|) == l;
        EscapeSkips(b, p);
        TidyRead(b, p + l.value.0, end);
      } else {
        SimpleIsGrammar(b[p + 1]);
        TidyRead(b, p + 2, end);
      }
    }
  }

  /** Every string of the grammar is parsed to its value.  A text is treated as the grammar
      says if and only if it is refused or tidy: what is accepted beyond the grammar is text
      with control characters and with \u not followed by four hexadecimal digits. */
  lemma ParseGrammaticalIff(b: Bytes)
    ensures ByGrammar(b).Some? ==> Parse(b) == ByGrammar(b)
    ensures Parse(b) == ByGrammar(b) <==> Parse(b).None? || Tidy(b, 1, ScanEnd(b, 1))
  {
    hide Text, Unescape, Tidy, ScanEnd;
    if ByGrammar(b).Some? {
      GrammarRead(b, 1);
    } else if Parse(b).Some? && Tidy(b, 1, ScanEnd(b, 1)) {
      TidyRead(b, 1, ScanEnd(b, 1));
    }
  }

  /** A failing input: after three letters the escape takes the backslash of the next one
      as its last digit, and the closing quote becomes part of the value. */
  lemma QuoteSwallowed()
    ensures var b: Bytes := [QUOTE, BSLASH, LOWER_U, 0x5A, 0x5A, 0x5A, BSLASH, BSLASH, QUOTE];
            Parse(b) == Some(([0, QUOTE], 9)) && ByGrammar(b) == None
  {
    var b: Bytes := [QUOTE, BSLASH, LOWER_U, 0x5A, 0x5A, 0x5A, BSLASH, BSLASH, QUOTE];
    assert ScanEnd(b, 8) == 8 && ScanEnd(b, 6) == 8 && ScanEnd(b, 5) == 8 && ScanEnd(b, 4) == 8;
    assert ScanEnd(b, 3) == 8 && ScanEnd(b, 1) == 8;
    assert Literal(b, 1, 8) == Some((6, 0));
    assert Unescape(b, 9, 8) == Some([]);
    assert Unescape(b, 7, 8) == Then([QUOTE], Some([]));
    assert Unescape(b, 1, 8) == Then([0], Then([QUOTE], Some([])));
    assert [0] + ([QUOTE] + []) == [0, QUOTE];
  }

  /** Another: a line feed stands for itself. */
  lemma NewlineAccepted()
    ensures var b: Bytes := [QUOTE, 0x0A, QUOTE]; Parse(b) == Some(([0x0A], 3)) && ByGrammar(b) == None
  {
    var b: Bytes := [QUOTE, 0x0A, QUOTE];
    assert ScanEnd(b, 2) == 2 && ScanEnd(b, 1) == 2;
    assert Unescape(b, 2, 2) == Some([]);
    assert Unescape(b, 1, 2) == Then([0x0A], Some([]));
    assert [0x0A] + [] == [0x0A];
  }

  // -------------------------------------------------- the allocation is enough

  /** The unit boundary at or just behind a target position, and that units are at
      most two bytes long. */
  lemma {:induction false} Boundary(b: Bytes, a: nat, target: nat, end: nat) returns (q: nat)
    requires ScanEnd(b, a) == end && a <= target + 1 && target <= end
    ensures (q == target || q == target + 1 || q == a) && q >= target && q <= end + (if a <= end then 0 else 1)
    ensures ScanEnd(b, q) == end && 2 * (Units(b, a, end) - Units(b, q, end)) >= q - a
    decreases target + 1 - a
  {
    if a >= target {
      q := a;
    } else if b[a] == BSLASH {
      q := Boundary(b, a + 2, target, end);
    } else {
      q := Boundary(b, a + 1, target, end);
    }
  }

  /** Hexadecimal digits are units of their own. */
  lemma FourDigits(b: Bytes, a: nat, end: nat)
    requires ScanEnd(b, a) == end && a + 4 <= end && IsHex4(b, a)
    ensures ScanEnd(b, a + 4) == end && Units(b, a, end) == 4 + Units(b, a + 4, end)
  {
    assert ScanEnd(b, a) == ScanEnd(b, a + 1) && Units(b, a, end) == 1 + Units(b, a + 1, end);
    assert ScanEnd(b, a + 1) == ScanEnd(b, a + 2) && Units(b, a + 1, end) == 1 + Units(b, a + 2, end);
    assert ScanEnd(b, a + 2) == ScanEnd(b, a + 3) && Units(b, a + 2, end) == 1 + Units(b, a + 3, end);
    assert ScanEnd(b, a + 3) == ScanEnd(b, a + 4) && Units(b, a + 3, end) == 1 + Units(b, a + 4, end);
  }

  /** The second pass at p: q is the next unit boundary (a malformed escape can leave
      the pass inside a unit), and what is still to come fits what is still free. */
  ghost predicate Budget(b: Bytes, p: nat, q: nat, end: nat, o: nat, room: nat)
    requires end <= |b|
  {
    if p > end then o <= room
    else (q == p || q == p + 1) && ScanEnd(b, q) == end && o + Units(b, q, end) + (q - p) <= room
  }

  lemma BudgetPlain(b: Bytes, p: nat, q: nat, end: nat, o: nat, room: nat)
    requires end < |b| && p < end && Budget(b, p, q, end, o, room) && b[p] != BSLASH
    ensures Budget(b, p + 1, p + 1, end, o + 1, room)
  {
    if q == p {
      assert ScanEnd(b, p + 1) == end;
    }
  }

  lemma BudgetSimple(b: Bytes, p: nat, q: nat, end: nat, o: nat, room: nat) returns (q': nat)
    requires end < |b| && p < end && Budget(b, p, q, end, o, room) && b[p] == BSLASH
    ensures Budget(b, p + 2, q', end, o + 1, room)
  {
    q' := p + 2;
    if q == p + 1 && p + 1 < end && b[p + 1] == BSLASH {
      q' := p + 3;
    }
  }

  /** The text behind the u of an escape, up to where the escape ends. */
  lemma BudgetDigits(b: Bytes, a: nat, end: nat, n: nat) returns (q': nat)
    requires end < |b| && ScanEnd(b, a) == end && a >= 2 && Literal(b, a - 2, end).Some?
    requires n == Literal(b, a - 2, end).value.0
    ensures var stop := a - 2 + n;
            && (q' == stop || q' == stop + 1) && q' <= end && ScanEnd(b, q') == end
            && |Utf8(Literal(b, a - 2, end).value.1)| + Units(b, q', end) + (q' - stop) <= 1 + Units(b, a, end)
  {
    hide Utf8;
    Utf8Length(Literal(b, a - 2, end).value.1);
    if IsHex4(b, a) {
      FourDigits(b, a, end);
      q' := a + 4;
      if n == 12 {
        assert ScanEnd(b, a + 6) == end && Units(b, a + 4, end) == 1 + Units(b, a + 6, end);
        FourDigits(b, a + 6, end);
        q' := a + 10;
      }
    } else {
      q' := Boundary(b, a, a + 4, end);
    }
  }

  lemma Utf8Length(cp: nat)
    requires cp <= 0x10_FFFF
    ensures |Utf8(cp)| == if cp < 0x80 then 1 else if cp < 0x800 then 2 else if cp < 0x1_0000 then 3 else 4
  {
  }

  lemma BudgetLiteral(b: Bytes, p: nat, q: nat, end: nat, o: nat, room: nat) returns (q': nat)
    requires end < |b| && p < end && Budget(b, p, q, end, o, room)
    requires b[p] == BSLASH && b[p + 1] == LOWER_U && Literal(b, p, end).Some?
    ensures var l := Literal(b, p, end).value;
            Budget(b, p + l.0, q', end, o + |Utf8(l.1)|, room)
  {
    hide Utf8, Literal;
    assert ScanEnd(b, p + 2) == end;
    assert Units(b, q, end) == 1 + Units(b, p + 2, end);
    q' := BudgetDigits(b, p + 2, end, Literal(b, p, end).value.0);
  }

  /** The first pass: where the string ends and how many escapes it has. */
  method FindEnd(b: Bytes) returns (end: int, skipped: nat)
    requires b != []
    ensures end == ScanEnd(b, 1)
    ensures end >= 0 ==> end - 1 - skipped == Units(b, 1, end)
  {
    end, skipped := 1, 0;
    ghost var stop := ScanEnd(b, 1);
    while end < |b| && b[end] != QUOTE
      invariant 1 <= end && ScanEnd(b, end) == stop
      invariant stop >= 0 ==> end <= stop && Units(b, 1, stop) == end - 1 - skipped + Units(b, end, stop)
      decreases |b| - end
    {
      if b[end] == BSLASH {
        if end + 1 >= |b| {
          return -1, skipped;
        }
        skipped := skipped + 1;
        end := end + 1;
      }
      end := end + 1;
    }
    if end >= |b| {
      end := -1;
    }
  }

  /** Where the second pass stands: what is written and what is to come make up the whole,
      and there is room for it. */
  ghost predicate Standing(b: Bytes, p: nat, q: nat, end: nat, written: Bytes, room: nat, all: Option<Bytes>)
    requires end < |b|
  {
    |written| <= room && Budget(b, p, q, end, |written|, room) && all == Then(written, Unescape(b, p, end))
  }

  /** One character or escape of the second pass. */
  method UnpackOne(b: Bytes, p: nat, end: nat, out: array<Byte>, o: nat, ghost q: nat, ghost all: Option<Bytes>)
    returns (ok: bool, p': nat, o': nat, ghost q': nat)
    requires p < end < |b| && out.Length >= 2 && o <= out.Length - 2
    requires Standing(b, p, q, end, out[..o], out.Length - 2, all)
    modifies out
    ensures !ok ==> all == None
    ensures ok ==> p < p' && o' <= out.Length - 2 && Standing(b, p', q', end, out[..o'], out.Length - 2, all)
  {
    hide Units, Literal, Utf8, Unescape, ScanEnd, Budget, Simple, Then;
    ghost var was, room := out[..o], out.Length - 2;
    ok, p', o', q' := true, p, o, q;
    if b[p] != BSLASH {
      StepPlain(b, p, q, end, o, room, all, was);
      q' := p + 1;
      out[o] := b[p];
      assert out[..o + 1] == was + [b[p]];
      p', o' := p + 1, o + 1;
    } else if b[p + 1] == LOWER_U {
      var l := Literal(b, p, end);
      q' := StepLiteral(b, p, q, end, o, room, all, was);
      if l.None? {
        ok := false;
        return;
      }
      o' := WriteUtf8(out, o, l.value.1);
      p' := p + l.value.0;
    } else {
      var c := Simple(b[p + 1]);
      q' := StepSimple(b, p, q, end, o, room, all, was);
      if c.None? {
        ok := false;
        return;
      }
      out[o] := c.value;
      assert out[..o + 1] == was + [c.value];
      p', o' := p + 2, o + 1;
    }
  }

  /** The second pass: unescapes into a buffer with one byte per unit, and two over.
      No input, however malformed its escapes, makes it write past that. */
  method Unpack(b: Bytes, end: nat, out: array<Byte>) returns (ok: bool, o: nat)
    requires end < |b| && ScanEnd(b, 1) == end && out.Length == Units(b, 1, end) + 2
    modifies out
    ensures ok <==> Unescape(b, 1, end).Some?
    ensures ok ==> o < out.Length && out[..o] == Unescape(b, 1, end).value && out[o] == 0
  {
    ghost var q: nat := 1;
    ghost var all := Unescape(b, 1, end);
    ThenEmpty(all);
    var p: nat := 1;
    ok, o := true, 0;
    assert out[..0] == [];
    assert Standing(b, 1, q, end, out[..0], out.Length - 2, all);
    hide Standing, Units, Unescape, ScanEnd, Budget;
    while p < end
      invariant o <= out.Length - 2 && Standing(b, p, q, end, out[..o], out.Length - 2, all)
      decreases end - p
    {
      ok, p, o, q := UnpackOne(b, p, end, out, o, q, all);
      if !ok {
        return;
      }
    }
    StandsAtEnd(b, p, q, end, out[..o], out.Length - 2, all);
    out[o] := 0;
    ok := true;
  }

  lemma StandsAtEnd(b: Bytes, p: nat, q: nat, end: nat, written: Bytes, room: nat, all: Option<Bytes>)
    requires end < |b| && end <= p && Standing(b, p, q, end, written, room, all)
    ensures all == Some(written)
  {
    StepEnd(b, p, end, written);
  }

  lemma StepPlain(b: Bytes, p: nat, q: nat, end: nat, o: nat, room: nat, all: Option<Bytes>, was: Bytes)
    requires p < end < |b| && Budget(b, p, q, end, o, room) && b[p] != BSLASH && all == Then(was, Unescape(b, p, end))
    ensures Budget(b, p + 1, p + 1, end, o + 1, room) && o + 1 <= room
    ensures all == Then(was + [b[p]], Unescape(b, p + 1, end))
  {
    hide Units, Unescape, ScanEnd;
    UnescapeAt(b, p, end);
    BudgetPlain(b, p, q, end, o, room);
    ThenThen(was, [b[p]], Unescape(b, p + 1, end));
  }

  lemma StepSimple(b: Bytes, p: nat, q: nat, end: nat, o: nat, room: nat, all: Option<Bytes>, was: Bytes)
    returns (q': nat)
    requires p < end < |b| && Budget(b, p, q, end, o, room) && b[p] == BSLASH && b[p + 1] != LOWER_U
    requires all == Then(was, Unescape(b, p, end))
    ensures var c := Simple(b[p + 1]);
            if c.None? then all == None
            else
              && Budget(b, p + 2, q', end, o + 1, room) && o + 1 <= room
              && all == Then(was + [c.value], Unescape(b, p + 2, end))
  {
    hide Units, Unescape, ScanEnd, Simple;
    UnescapeAt(b, p, end);
    q' := BudgetSimple(b, p, q, end, o, room);
    var c := Simple(b[p + 1]);
    if c.Some? {
      ThenThen(was, [c.value], Unescape(b, p + 2, end));
    }
  }

  lemma StepLiteral(b: Bytes, p: nat, q: nat, end: nat, o: nat, room: nat, all: Option<Bytes>, was: Bytes)
    returns (q': nat)
    requires p < end < |b| && Budget(b, p, q, end, o, room) && b[p] == BSLASH && b[p + 1] == LOWER_U
    requires all == Then(was, Unescape(b, p, end))
    ensures var l := Literal(b, p, end);
            if l.None? then all == None
            else
              var u := Utf8(l.value.1);
              && Budget(b, p + l.value.0, q', end, o + |u|, room) && o + |u| <= room
              && all == Then(was + u, Unescape(b, p + l.value.0, end))
  {
    hide Units, Unescape, ScanEnd, Literal, Utf8;
    UnescapeAt(b, p, end);
    var l := Literal(b, p, end);
    q' := 0;
    if l.Some? {
      q' := BudgetLiteral(b, p, q, end, o, room);
      ThenThen(was, Utf8(l.value.1), Unescape(b, p + l.value.0, end));
    }
  }

  lemma StepEnd(b: Bytes, p: nat, end: nat, was: Bytes)
    requires end < |b| && end <= p
    ensures Then(was, Unescape(b, p, end)) == Some(was)
  {
    assert was + [] == was;
  }

  /** Parses a quoted string, sizing the buffer by the first pass. */
  method ParseString(b: Bytes) returns (r: Option<(Bytes, nat)>)
    ensures r == Parse(b)
  {
    hide Units, Unescape, ScanEnd;
    if b == [] || b[0] != QUOTE {
      return None;
    }
    var end, skipped := FindEnd(b);
    if end < 0 {
      return None;
    }
    var allocation := end - skipped;
    var out := new Byte[allocation + 1];
    var ok, o := Unpack(b, end, out);
    return if ok then Some((out[..o], end + 1)) else None;
  }

  lemma ThenEmpty(r: Option<Bytes>)
    ensures Then([], r) == r
  {
    if r.Some? {
      assert [] + r.value == r.value;
    }
  }

  /** One step of the second pass. */
  lemma UnescapeAt(b: Bytes, p: nat, end: nat)
    requires end < |b|
    ensures p >= end ==> Unescape(b, p, end) == Some([])
    ensures p < end && b[p] != BSLASH ==> Unescape(b, p, end) == Then([b[p]], Unescape(b, p + 1, end))
    ensures p < end && b[p] == BSLASH && b[p + 1] == LOWER_U ==>
              var l := Literal(b, p, end);
              Unescape(b, p, end) == if l.None? then None else Then(Utf8(l.value.1), Unescape(b, p + l.value.0, end))
    ensures p < end && b[p] == BSLASH && b[p + 1] != LOWER_U ==>
              var c := Simple(b[p + 1]);
              Unescape(b, p, end) == if c.None? then None else Then([c.value], Unescape(b, p + 2, end))
  {
  }

  // ---------------------------------------------------------------- round trip

  function EscapeFront(s: Bytes): Bytes {
    if s == [] then [] else EscapeByte(s[0]) + EscapeFront(s[1..])
  }

  lemma {:induction false} EscapeFrontAppend(s: Bytes, c: Byte)
    ensures EscapeFront(s + [c]) == EscapeFront(s) + EscapeByte(c)
  {
    hide EscapeByte;
    if s == [] {
      assert EscapeFront([c]) == EscapeByte(c) + EscapeFront([c][1..]);
    } else {
      EscapeFrontAppend(s[1..], c);
      assert (s + [c])[1..] == s[1..] + [c];
    }
  }

  lemma {:induction false} EscapeIsFront(s: Bytes)
    ensures Escape(s) == EscapeFront(s)
  {
    if s != [] {
      var n := |s| - 1;
      EscapeIsFront(s[..n]);
      EscapeFrontAppend(s[..n], s[n]);
      assert s == s[..n] + [s[n]];
    }
  }

  /** One escaped character is scanned over as a whole and read back as itself. */
  lemma OneBack(b: Bytes, p: nat, end: nat, c: Byte)
    requires p + |EscapeByte(c)| <= end < |b| && b[p..p + |EscapeByte(c)|] == EscapeByte(c)
    ensures ScanEnd(b, p) == ScanEnd(b, p + |EscapeByte(c)|)
    ensures Unescape(b, p, end) == Then([c], Unescape(b, p + |EscapeByte(c)|, end))
    ensures Tidy(b, p, end) <==> Tidy(b, p + |EscapeByte(c)|, end)
  {
    hide Unescape, ScanEnd, HexDigit, Literal, Utf8;
    var n := |EscapeByte(c)|;
    var e := b[p..p + n];
    assert b[p] == e[0];
    UnescapeAt(b, p, end);
    ScanAt(b, p);
    if Letter(c) != 0 {
      assert b[p + 1] == e[1];
    } else if c < 32 {
      assert b[p + 1] == e[1] && b[p + 2] == e[2] && b[p + 3] == e[3] && b[p + 4] == e[4] && b[p + 5] == e[5];
      ControlBack(b, p, end, c);
      HexPlain(c / 16);
      HexPlain(c % 16);
      ScanAt(b, p + 2);
      ScanAt(b, p + 3);
      ScanAt(b, p + 4);
      ScanAt(b, p + 5);
    }
  }

  lemma ScanAt(b: Bytes, p: nat)
    requires p < |b|
    ensures b[p] == BSLASH ==> ScanEnd(b, p) == ScanEnd(b, p + 2)
    ensures b[p] != BSLASH && b[p] != QUOTE ==> ScanEnd(b, p) == ScanEnd(b, p + 1)
    ensures b[p] == QUOTE ==> ScanEnd(b, p) == p
  {
  }

  lemma HexPlain(v: nat)
    requires v < 16
    ensures HexDigit(v) != BSLASH && HexDigit(v) != QUOTE && HexVal(HexDigit(v)) == v
  {
  }

  lemma ControlBack(b: Bytes, p: nat, end: nat, c: Byte)
    requires p + 6 <= end <= |b| && c < 32
    requires b[p + 2] == 0x30 && b[p + 3] == 0x30 && b[p + 4] == HexDigit(c / 16) && b[p + 5] == HexDigit(c % 16)
    ensures Literal(b, p, end) == Some((6, c as nat)) && Utf8(c) == [c]
  {
    HexPlain(c / 16);
    HexPlain(c % 16);
    hide HexDigit;
    assert Hex4(b, p + 2) == c;
  }

  lemma {:induction false} AllBack(b: Bytes, p: nat, end: nat, s: Bytes)
    requires p <= end < |b| && b[p..end] == EscapeFront(s) && b[end] == QUOTE
    ensures ScanEnd(b, p) == end && Unescape(b, p, end) == Some(s) && Tidy(b, p, end)
    decreases |s|
  {
    hide EscapeByte, ScanEnd, Unescape, Tidy;
    if s == [] {
      ScanAt(b, end);
      UnescapeAt(b, end, end);
      TidyNone(b, end);
    } else {
      hide EscapeFront;
      var e := EscapeByte(s[0]);
      FrontSplit(b, p, end, s);
      OneBack(b, p, end, s[0]);
      AllBack(b, p + |e|, end, s[1..]);
      assert [s[0]] + s[1..] == s;
    }
  }

  lemma FrontSplit(b: Bytes, p: nat, end: nat, s: Bytes)
    requires s != [] && p <= end < |b| && b[p..end] == EscapeFront(s)
    ensures var e := EscapeByte(s[0]);
            && p + |e| + |EscapeFront(s[1..])| == end
            && b[p..p + |e|] == e && b[p + |e|..end] == EscapeFront(s[1..])
  {
    hide EscapeByte;
    var e := EscapeByte(s[0]);
    assert b[p..end][..|e|] == e && b[p..end][|e|..] == EscapeFront(s[1..]);
    assert b[p..p + |e|] == b[p..end][..|e|];
    assert b[p + |e|..end] == b[p..end][|e|..];
  }

  lemma TidyNone(b: Bytes, end: nat)
    requires end < |b|
    ensures Tidy(b, end, end)
  {
  }

  /** Any string, printed and parsed, whatever follows it in the text, is itself; what is
      printed is a string of the grammar. */
  lemma RoundTrip(s: Bytes, rest: Bytes)
    ensures ByGrammar([QUOTE] + Escape(s) + [QUOTE] + rest) == Some((s, |Escape(s)| + 2))
    ensures Parse([QUOTE] + Escape(s) + [QUOTE] + rest) == Some((s, |Escape(s)| + 2))
  {
    EscapeIsFront(s);
    var b := [QUOTE] + Escape(s) + [QUOTE] + rest;
    assert b[1..1 + |Escape(s)|] == Escape(s);
    hide Escape, EscapeFront, ScanEnd, Unescape, Tidy, Text;
    AllBack(b, 1, 1 + |Escape(s)|, s);
    TidyRead(b, 1, 1 + |Escape(s)|);
  }
}

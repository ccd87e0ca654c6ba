/** The octet-stuffed byte stream between the host and the radio: frames are set
off by 0x7E, and 0x7E or 0x7D inside a frame travel as 0x7D and the byte xor
0x20, the transparency rule of section 4.2 of RFC 1662.

The reference decoder is a machine that takes one byte at a time and always
delivers; the decoder of the firmware copies runs of plain bytes, may be told to
hold a frame back, and is then fed the rest of its input again. */
module StreamCodec {
  import opened Words

  const FLAG: Byte := 0x7E
  const ESC: Byte := 0x7D
  const CAP := 2048              // RNS_STREAM_MAX_FRAME_SIZE
  const THROTTLE := -7           // HALOW_ACK_TX_THROTTLE

  type Frame = seq<Byte>

  /** `b ^ 0x20`. */
  function Flip(b: Byte): (r: Byte)
    ensures r != b && (b == FLAG || b == ESC ==> r != FLAG && r != ESC)
  {
    if b / 32 % 2 == 1 then b - 32 else b + 32
  }

  lemma FlipFlip(b: Byte)
    ensures Flip(Flip(b)) == b
  {
  }

  // ------------------------------------------------------ the reference machine

  datatype Mode = Hunt | InFrame | Escaped

  datatype Machine = Machine(mode: Mode, buf: seq<Byte>)

  const START := Machine(Hunt, [])

  const BOUNDARY := Machine(InFrame, [])

  function Append(buf: seq<Byte>, b: Byte): Machine {
    if |buf| >= CAP then Machine(Hunt, []) else Machine(InFrame, buf + [b])
  }

  function Step(m: Machine, b: Byte): Machine {
    if b == FLAG then BOUNDARY
    else if m.mode == Hunt then m
    else if m.mode == Escaped then Append(m.buf, Flip(b))
    else if b == ESC then Machine(Escaped, m.buf)
    else Append(m.buf, b)
  }

  function Emit(m: Machine, b: Byte): seq<Frame> {
    if b == FLAG && m.mode != Hunt && m.buf != [] then [m.buf] else []
  }

  function Feed(m: Machine, bs: seq<Byte>): Machine {
    if bs == [] then m else Step(Feed(m, bs[..|bs| - 1]), bs[|bs| - 1])
  }

  function Frames(m: Machine, bs: seq<Byte>): seq<Frame> {
    if bs == [] then []
    else Frames(m, bs[..|bs| - 1]) + Emit(Feed(m, bs[..|bs| - 1]), bs[|bs| - 1])
  }

  lemma FeedNil(m: Machine)
    ensures Feed(m, []) == m && Frames(m, []) == []
  {
  }

  lemma FeedSnoc(m: Machine, bs: seq<Byte>, b: Byte)
    ensures Feed(m, bs + [b]) == Step(Feed(m, bs), b)
    ensures Frames(m, bs + [b]) == Frames(m, bs) + Emit(Feed(m, bs), b)
  {
    assert (bs + [b])[..|bs|] == bs;
  }

  lemma {:induction false} FeedConcat(m: Machine, xs: seq<Byte>, ys: seq<Byte>)
    ensures Feed(m, xs + ys) == Feed(Feed(m, xs), ys)
    ensures Frames(m, xs + ys) == Frames(m, xs) + Frames(Feed(m, xs), ys)
    decreases |ys|
  {
    hide Feed, Frames, Step, Emit;
    if ys == [] {
      assert xs + ys == xs;
      FeedNil(Feed(m, xs));
    } else {
      var n := |ys| - 1;
      FeedConcat(m, xs, ys[..n]);
      assert xs + ys == (xs + ys[..n]) + [ys[n]];
      FeedSnoc(m, xs + ys[..n], ys[n]);
      assert ys == ys[..n] + [ys[n]];
      FeedSnoc(Feed(m, xs), ys[..n], ys[n]);
    }
  }

  /** Whatever the bytes, no frame comes out empty or longer than the buffer. */
  lemma {:induction false} FramesBounded(m: Machine, bs: seq<Byte>)
    requires |m.buf| <= CAP
    ensures |Feed(m, bs).buf| <= CAP && forall f <- Frames(m, bs) :: 1 <= |f| <= CAP
  {
    if bs != [] {
      FramesBounded(m, bs[..|bs| - 1]);
    }
  }

  // ------------------------------------------------------------------ encoding

  function Escape(p: seq<Byte>): seq<Byte> {
    if p == [] then []
    else
      var b := p[|p| - 1];
      Escape(p[..|p| - 1]) + (if b == FLAG || b == ESC then [ESC, Flip(b)] else [b])
  }

  function Encode(p: seq<Byte>): seq<Byte> {
    [FLAG] + Escape(p) + [FLAG]
  }

  method EscapeSize(p: seq<Byte>) returns (n: nat)
    ensures n == |Escape(p)|
  {
    n := |p|;
    for i := 0 to |p|
      invariant n == |p| - i + |Escape(p[..i])|
    {
      assert p[..i + 1][..i] == p[..i];
      if p[i] == FLAG || p[i] == ESC {
        n := n + 1;
      }
    }
    assert p[..|p|] == p;
  }

  method EscapeWrite(dst: array<Byte>, at: nat, p: seq<Byte>)
    requires at + |Escape(p)| <= dst.Length
    modifies dst
    ensures dst[..] == old(dst[..at]) + Escape(p) + old(dst[at + |Escape(p)|..])
  {
    hide Escape, Flip;
    EscapeSteps(p, 0);
    var o := at;
    for i := 0 to |p|
      invariant o == at + |Escape(p[..i])| && |Escape(p[..i])| <= |Escape(p)|
      invariant dst[..o] == old(dst[..at]) + Escape(p[..i])
      invariant dst[o..] == old(dst[..])[o..]
    {
      EscapeSteps(p, i);
      var b := p[i];
      ghost var pre, rest := dst[..o], dst[o..];
      if b == FLAG || b == ESC {
        dst[o] := ESC;
        dst[o + 1] := Flip(b);
        assert dst[..o + 2] == pre + [ESC, Flip(b)];
        assert dst[o + 2..] == rest[2..];
        o := o + 2;
      } else {
        dst[o] := b;
        assert dst[..o + 1] == pre + [b];
        assert dst[o + 1..] == rest[1..];
        o := o + 1;
      }
    }
    assert p[..|p|] == p;
    assert dst[..] == dst[..o] + dst[o..];
  }

  lemma EscapeSteps(p: seq<Byte>, i: nat)
    requires i <= |p|
    ensures Escape(p[..0]) == []
    ensures i < |p| ==>
              Escape(p[..i + 1]) == Escape(p[..i]) + (if p[i] == FLAG || p[i] == ESC then [ESC, Flip(p[i])] else [p[i]])
    ensures i < |p| ==> |Escape(p[..i + 1])| <= |Escape(p)|
  {
    if i < |p| {
      assert p[..i + 1][..i] == p[..i];
      EscapeConcat(p[..i + 1], p[i + 1..]);
      assert p == p[..i + 1] + p[i + 1..];
    }
  }

  /** Escaping does not care where a payload is cut. */
  lemma {:induction false} EscapeConcat(p: seq<Byte>, q: seq<Byte>)
    ensures Escape(p + q) == Escape(p) + Escape(q)
    decreases |q|
  {
    hide Flip;
    if q == [] {
      assert p + q == p;
    } else {
      var n := |q| - 1;
      EscapeConcat(p, q[..n]);
      assert (p + q)[..|p| + n] == p + q[..n];
    }
  }

  /** Frames a payload into `dst`; too small a buffer is left alone and told the
      size it needs. */
  method EncodeFrame(dst: array<Byte>, p: seq<Byte>) returns (n: nat)
    modifies dst
    ensures n == |Encode(p)|
    ensures if dst.Length < n then dst[..] == old(dst[..]) else dst[..n] == Encode(p) && dst[n..] == old(dst[n..])
  {
    var esc := EscapeSize(p);
    n := esc + 2;
    if dst.Length < n {
      return;
    }
    dst[0] := FLAG;
    EscapeWrite(dst, 1, p);
    dst[n - 1] := FLAG;
  }

  // ---------------------------------------------------------------- round trip

  /** What a machine that has taken the payload so far stands at. */
  ghost predicate Took(m: Machine, p: seq<Byte>) {
    if |p| <= CAP then m == Machine(InFrame, p) else m.mode == Hunt
  }

  /** One payload byte in its escaped form takes the machine one byte further. */
  lemma TakesByte(m: Machine, p: seq<Byte>, b: Byte)
    requires Took(m, p)
    ensures if b == FLAG || b == ESC
            then Took(Step(Step(m, ESC), Flip(b)), p + [b]) && Emit(m, ESC) == [] && Emit(Step(m, ESC), Flip(b)) == []
            else Took(Step(m, b), p + [b]) && Emit(m, b) == []
  {
    FlipFlip(b);
  }

  lemma {:induction false} EscapedRun(p: seq<Byte>)
    ensures Took(Feed(BOUNDARY, Escape(p)), p) && Frames(BOUNDARY, Escape(p)) == []
  {
    hide Feed, Frames, Step, Emit, Flip, Took;
    if p == [] {
      FeedNil(BOUNDARY);
      TookNone();
    } else {
      var n := |p| - 1;
      var b, pre := p[n], Escape(p[..n]);
      EscapedRun(p[..n]);
      assert p == p[..n] + [b];
      TakesByte(Feed(BOUNDARY, pre), p[..n], b);
      if b == FLAG || b == ESC {
        assert Escape(p) == (pre + [ESC]) + [Flip(b)];
        FeedSnoc(BOUNDARY, pre, ESC);
        FeedSnoc(BOUNDARY, pre + [ESC], Flip(b));
      } else {
        FeedSnoc(BOUNDARY, pre, b);
      }
    }
  }

  lemma TookNone()
    ensures Took(BOUNDARY, [])
  {
  }

  /** Decoding an encoded payload, wherever the decoder stood, finishes what was
      pending and then yields the payload if and only if it has 1 to 2048 bytes. */
  lemma RoundTrip(m: Machine, p: seq<Byte>)
    ensures Feed(m, Encode(p)) == BOUNDARY
    ensures Frames(m, Encode(p)) == Emit(m, FLAG) + if 1 <= |p| <= CAP then [p] else []
  {
    hide Feed, Frames, Escape, Append;
    var e := Escape(p);
    FeedNil(m);
    FeedSnoc(m, [], FLAG);
    assert [] + [FLAG] == [FLAG];
    FeedConcat(m, [FLAG], e);
    FeedSnoc(m, [FLAG] + e, FLAG);
    EscapedRun(p);
  }

  function EncodeAll(ps: seq<Frame>): seq<Byte> {
    if ps == [] then [] else EncodeAll(ps[..|ps| - 1]) + Encode(ps[|ps| - 1])
  }

  /** A stream of encoded payloads decodes to exactly those payloads in order. */
  lemma {:induction false} StreamRoundTrip(ps: seq<Frame>)
    requires forall p <- ps :: 1 <= |p| <= CAP
    ensures Feed(BOUNDARY, EncodeAll(ps)) == BOUNDARY && Frames(BOUNDARY, EncodeAll(ps)) == ps
  {
    hide Feed, Frames, Encode, Step;
    if ps == [] {
      FeedNil(BOUNDARY);
    } else {
      var n := |ps| - 1;
      StreamRoundTrip(ps[..n]);
      FeedConcat(BOUNDARY, EncodeAll(ps[..n]), Encode(ps[n]));
      RoundTrip(BOUNDARY, ps[n]);
      assert ps == ps[..n] + [ps[n]];
    }
  }

  // ------------------------------------------------------------- the decoder

  /** The frame callback: whatever it answers, only THROTTLE means "not taken". */
  class Sink {
    var accepted: seq<Frame>
    var verdicts: seq<int>       // answers still to come; 0 once they run out

    constructor (verdicts: seq<int>)
      ensures accepted == [] && this.verdicts == verdicts
    {
      accepted, this.verdicts := [], verdicts;
    }

    method OnFrame(f: Frame) returns (r: int)
      modifies this
      ensures accepted == if r == THROTTLE then old(accepted) else old(accepted) + [f]
      ensures verdicts == if old(verdicts) == [] then [] else old(verdicts)[1..]
      ensures r == if old(verdicts) == [] then 0 else old(verdicts)[0]
    {
      r := 0;
      if verdicts != [] {
        r, verdicts := verdicts[0], verdicts[1..];
      }
      if r != THROTTLE {
        accepted := accepted + [f];
      }
    }
  }

  class Decoder {
    const sink: Sink
    const buffer: array<Byte>
    var mode: Mode
    var len: nat
    var held: bool

    ghost var fed: seq<Byte>     // bytes consumed this session
    ghost var base: nat          // frames accepted before it

    ghost predicate Shaped()
      reads this, sink, buffer
    {
      buffer.Length == CAP && len <= CAP && base <= |sink.accepted| && (mode == Hunt ==> len == 0)
    }

    /** Accepted so far, plus the one frame held back, is exactly what the reference
        machine emits on the bytes consumed. */
    ghost predicate Valid()
      reads this, sink, buffer
    {
      && Shaped()
      && (var m, out := Feed(START, fed), Frames(START, fed);
          if held then mode != Hunt && len > 0 && m == BOUNDARY && out == sink.accepted[base..] + [buffer[..len]]
          else m == Machine(mode, buffer[..len]) && out == sink.accepted[base..])
    }

    /** The decoder may have run ahead of the reference machine, but not so far that
        the next byte would tell them apart. */
    ghost predicate Agrees(byte: Byte)
      reads this, sink, buffer
    {
      && Shaped() && !held && Frames(START, fed) == sink.accepted[base..]
      && (var m, d := Feed(START, fed), Machine(mode, buffer[..len]);
          Step(m, byte) == Step(d, byte) && Emit(m, byte) == Emit(d, byte))
    }

    constructor (sink: Sink)
      ensures Valid() && fresh(buffer) && this.sink == sink && fed == [] && !held && base == |sink.accepted|
    {
      this.sink := sink;
      buffer := new Byte[CAP];
      mode, len, held, fed, base := Hunt, 0, false, [], |sink.accepted|;
    }

    /** A new session forgets whatever was pending. */
    method Reset()
      modifies this
      requires Valid()
      ensures Valid() && fed == [] && base == |sink.accepted| && !held
    {
      mode, len, held := Hunt, 0, false;
      fed, base := [], |sink.accepted|;
    }

    /** Offers a held frame again. */
    method RetryHeld() returns (r: int)
      requires Valid()
      modifies this, sink
      ensures Valid() && fed == old(fed) && base == old(base)
      ensures (r == THROTTLE <==> held) && (!old(held) ==> r == 0)
      ensures |sink.verdicts| <= |old(sink.verdicts)|
      ensures held ==> |sink.verdicts| < |old(sink.verdicts)|
    {
      if !held {
        return 0;
      }
      r := sink.OnFrame(buffer[..len]);
      if r == THROTTLE {
        return;
      }
      held, mode, len := false, InFrame, 0;
    }

    /** The generic path: one byte. */
    method TakeByte(byte: Byte) returns (r: int)
      requires Agrees(byte)
      modifies this, sink, buffer
      ensures Valid() && base == old(base) && fed == old(fed) + [byte]
      ensures r == if held then THROTTLE else 0
      ensures |sink.verdicts| <= |old(sink.verdicts)|
      ensures held ==> |sink.verdicts| < |old(sink.verdicts)|
    {
      hide Feed, Frames, Flip;
      FeedSnoc(START, fed, byte);
      fed := fed + [byte];
      r := 0;
      if byte == FLAG {
        if mode != Hunt && len > 0 {
          r := sink.OnFrame(buffer[..len]);
          if r == THROTTLE {
            held := true;
            return;
          }
          r := 0;
        }
        mode, len := InFrame, 0;
        return;
      }
      if mode == Hunt {
        return;
      }
      var b := byte;
      if mode == Escaped {
        b := Flip(byte);
        mode := InFrame;
      } else if byte == ESC {
        mode := Escaped;
        return;
      }
      if len >= CAP {
        mode, len := Hunt, 0;
        return;
      }
      ghost var was := buffer[..len];
      buffer[len] := b;
      len := len + 1;
      assert buffer[..len] == was + [b];
    }

    /** The fast path: copies a run of plain bytes; stops at the end of the input,
        at a special byte, or where the frame overflows. */
    method CopyRun(data: seq<Byte>, i: nat) returns (src: nat)
      requires Valid() && !held && mode == InFrame && i < |data|
      modifies this, buffer
      ensures i <= src <= |data| && base == old(base) && fed == old(fed) + data[i..src]
      ensures !held && Shaped()
      ensures if src < |data| then Agrees(data[src]) else Valid()
    {
      hide Feed, Frames, Flip;
      src := i;
      var dst: nat := len;
      while src < |data| && data[src] != FLAG && data[src] != ESC
        invariant i <= src <= |data| && dst <= CAP && !held && mode == InFrame && base == old(base) && len == old(len)
        invariant fed == old(fed) + data[i..src]
        invariant Feed(START, fed) == Machine(InFrame, buffer[..dst]) && Frames(START, fed) == sink.accepted[base..]
      {
        if dst >= CAP {
          mode, len := Hunt, 0;
          return;
        }
        FeedSnoc(START, fed, data[src]);
        fed := fed + [data[src]];
        ghost var was := buffer[..dst];
        buffer[dst] := data[src];
        dst := dst + 1;
        assert buffer[..dst] == was + [data[src]];
        src := src + 1;
      }
      len := dst;
    }

    /** Takes input until it runs out or a frame is refused; says how much it took. */
    method Process(data: seq<Byte>) returns (r: int, consumed: nat)
      requires Valid()
      modifies this, sink, buffer
      ensures Valid() && base == old(base)
      ensures consumed <= |data| && fed == old(fed) + data[..consumed]
      ensures r == THROTTLE <==> data != [] && held
      ensures r != THROTTLE ==> r == 0 && consumed == |data|
      ensures |sink.verdicts| <= |old(sink.verdicts)|
      ensures r == THROTTLE ==> |sink.verdicts| < |old(sink.verdicts)|
    {
      hide Feed, Frames, Step, Emit;
      if data == [] {
        return 0, 0;
      }
      if held {
        r := RetryHeld();
        if r == THROTTLE {
          return r, 0;
        }
      }
      var i := 0;
      while i < |data|
        invariant i <= |data| && !held && Valid() && base == old(base)
        invariant fed == old(fed) + data[..i]
        invariant |sink.verdicts| <= |old(sink.verdicts)|
        decreases |data| - i
      {
        if mode == InFrame && data[i] != FLAG && data[i] != ESC {
          var from := i;
          i := CopyRun(data, i);
          assert data[..i] == data[..from] + data[from..i];
          if i >= |data| {
            break;
          }
        }
        r := TakeByte(data[i]);
        i := i + 1;
        if r == THROTTLE {
          return r, i;
        }
      }
      return 0, |data|;
    }
  }

  // ------------------------------------------------------ feeding a chunked input

  function Flatten(chunks: seq<seq<Byte>>): seq<Byte> {
    if chunks == [] then [] else chunks[0] + Flatten(chunks[1..])
  }

  /** A resume position.  Zero-length chunks are stepped over without moving the
      chunk index, so an offset behind one counts into the chunk after it. */
  predicate CursorOk(chunks: seq<seq<Byte>>, chunk: nat, ofs: nat) {
    if chunk >= |chunks| then chunk == |chunks| && ofs == 0
    else ofs == 0 || ofs < |chunks[chunk]| || (chunks[chunk] == [] && chunk + 1 < |chunks| && ofs < |chunks[chunk + 1]|)
  }

  /** The bytes from a resume position on. */
  function Rest(chunks: seq<seq<Byte>>, chunk: nat, ofs: nat): seq<Byte>
    requires CursorOk(chunks, chunk, ofs)
  {
    if chunk == |chunks| then []
    else if ofs <= |chunks[chunk]| then chunks[chunk][ofs..] + Flatten(chunks[chunk + 1..])
    else chunks[chunk + 1][ofs..] + Flatten(chunks[chunk + 2..])
  }

  lemma RestAtStart(chunks: seq<seq<Byte>>, chunk: nat)
    requires chunk <= |chunks|
    ensures CursorOk(chunks, chunk, 0) && Rest(chunks, chunk, 0) == Flatten(chunks[chunk..])
  {
    if chunk < |chunks| {
      assert chunks[chunk..][1..] == chunks[chunk + 1..];
      assert chunks[chunk][0..] == chunks[chunk];
    }
  }

  /** Whether the cursor names chunk ci itself or the empty chunk before it. */
  lemma RestHere(chunks: seq<seq<Byte>>, chunk: nat, ofs: nat, ci: nat)
    requires CursorOk(chunks, chunk, ofs) && ci < |chunks| && ofs <= |chunks[ci]|
    requires chunk == ci || (chunk + 1 == ci && chunks[chunk] == [])
    ensures Rest(chunks, chunk, ofs) == chunks[ci][ofs..] + Flatten(chunks[ci + 1..])
  {
    if chunk + 1 == ci && ofs == 0 {
      assert chunks[chunk + 1..][0] == chunks[ci] && chunks[chunk + 1..][1..] == chunks[ci + 1..];
      assert chunks[ci][0..] == chunks[ci];
    }
  }

  /** The cursor lies in chunk ci, or names the empty chunk before it. */
  ghost predicate Near(chunks: seq<seq<Byte>>, chunk: nat, ci: nat) {
    ci < |chunks| && (chunk == ci || (chunk + 1 == ci && chunks[chunk] == []))
  }

  lemma CursorFacts(chunks: seq<seq<Byte>>, chunk: nat, ofs: nat, ci: nat)
    requires CursorOk(chunks, chunk, ofs) && ci < |chunks|
    ensures Near(chunks, chunk, ci) && chunk < ci ==> ofs <= |chunks[ci]|
    ensures chunk == ci && ofs >= |chunks[ci]| ==> chunks[ci] == []
  {
  }

  lemma CursorMoves(chunks: seq<seq<Byte>>, chunk: nat, ofs: nat, ci: nat, more: nat)
    requires CursorOk(chunks, chunk, ofs) && Near(chunks, chunk, ci) && more < |chunks[ci]|
    ensures CursorOk(chunks, chunk, more)
  {
  }

  /** Feeds the rest of one chunk: the new position is right behind the bytes taken. */
  method FeedChunk(d: Decoder, chunks: seq<seq<Byte>>, chunk0: nat, ofs0: nat, ci: nat)
    returns (r: int, chunk: nat, ofs: nat)
    requires d.Valid() && CursorOk(chunks, chunk0, ofs0) && Near(chunks, chunk0, ci) && ofs0 <= |chunks[ci]|
    modifies d, d.sink, d.buffer
    ensures d.Valid() && d.base == old(d.base) && CursorOk(chunks, chunk, ofs)
    ensures d.fed + Rest(chunks, chunk, ofs) == old(d.fed) + Rest(chunks, chunk0, ofs0)
    ensures r == THROTTLE || (r == 0 && chunk == ci + 1 && ofs == 0)
    ensures |d.sink.verdicts| <= |old(d.sink.verdicts)|
    ensures r == THROTTLE ==> d.held && |d.sink.verdicts| < |old(d.sink.verdicts)|
  {
    hide Decoder.Valid, Rest, Flatten, CursorOk;
    RestHere(chunks, chunk0, ofs0, ci);
    RestAtStart(chunks, ci + 1);
    ghost var here, tail := chunks[ci][ofs0..], Flatten(chunks[ci + 1..]);
    var consumed;
    r, consumed := d.Process(chunks[ci][ofs0..]);
    chunk, ofs := chunk0, ofs0 + consumed;
    if r != THROTTLE || ofs >= |chunks[ci]| {
      chunk, ofs := ci + 1, 0;
      assert here[..consumed] == here;
    } else {
      CursorMoves(chunks, chunk0, ofs0, ci, ofs);
      RestHere(chunks, chunk, ofs, ci);
      assert here == here[..consumed] + chunks[ci][ofs..];
    }
  }

  /** Feeds a network buffer from a resume position: on THROTTLE the new position
      is exactly behind the bytes the decoder took, otherwise nothing is left. */
  method FeedNetbuf(d: Decoder, chunks: seq<seq<Byte>>, chunk0: nat, ofs0: nat) returns (r: int, chunk: nat, ofs: nat)
    requires d.Valid() && CursorOk(chunks, chunk0, ofs0)
    modifies d, d.sink, d.buffer
    ensures d.Valid() && d.base == old(d.base) && CursorOk(chunks, chunk, ofs)
    ensures d.fed + Rest(chunks, chunk, ofs) == old(d.fed) + Rest(chunks, chunk0, ofs0)
    ensures r == THROTTLE || (r == 0 && Rest(chunks, chunk, ofs) == [])
    ensures |d.sink.verdicts| <= |old(d.sink.verdicts)|
    ensures r == THROTTLE ==> d.held && |d.sink.verdicts| < |old(d.sink.verdicts)|
  {
    hide Decoder.Valid, Rest, Flatten, CursorOk;
    r, chunk, ofs := 0, chunk0, ofs0;
    for ci := 0 to |chunks|
      invariant CursorOk(chunks, chunk, ofs) && (chunk >= ci || (chunk + 1 == ci && chunks[chunk] == []))
      invariant d.Valid() && d.base == old(d.base) && r == 0
      invariant d.fed + Rest(chunks, chunk, ofs) == old(d.fed) + Rest(chunks, chunk0, ofs0)
      invariant |d.sink.verdicts| <= |old(d.sink.verdicts)|
    {
      CursorFacts(chunks, chunk, ofs, ci);
      if ci > chunk || (ci == chunk && ofs < |chunks[ci]|) {
        r, chunk, ofs := FeedChunk(d, chunks, chunk, ofs, ci);
        if r == THROTTLE {
          return;
        }
      }
    }
    RestAtEnd(chunks, chunk, ofs);
  }

  lemma RestAtEnd(chunks: seq<seq<Byte>>, chunk: nat, ofs: nat)
    requires CursorOk(chunks, chunk, ofs)
    requires chunk >= |chunks| || (chunk + 1 == |chunks| && chunks[chunk] == [])
    ensures Rest(chunks, chunk, ofs) == []
  {
  }

  function FlattenAll(bufs: seq<seq<seq<Byte>>>): seq<Byte> {
    if bufs == [] then [] else FlattenAll(bufs[..|bufs| - 1]) + Flatten(bufs[|bufs| - 1])
  }

  /** The retries made while no network buffer is parked. */
  method RetrySome(d: Decoder, times: nat)
    requires d.Valid()
    modifies d, d.sink
    ensures d.Valid() && d.base == old(d.base) && d.fed == old(d.fed)
    ensures |d.sink.verdicts| <= |old(d.sink.verdicts)|
    // a frame still held was refused each time
    ensures d.held ==> |d.sink.verdicts| + times <= |old(d.sink.verdicts)|
  {
    hide Decoder.Valid;
    for i := 0 to times
      invariant d.Valid() && d.base == old(d.base) && d.fed == old(d.fed)
      invariant |d.sink.verdicts| <= |old(d.sink.verdicts)|
      invariant d.held ==> |d.sink.verdicts| + i <= |old(d.sink.verdicts)|
    {
      var _ := d.RetryHeld();
    }
  }

  /** One network buffer: fed, and while it is parked fed again from where it stopped, until
      it is used up. */
  method FeedWhole(d: Decoder, chunks: seq<seq<Byte>>)
    requires d.Valid()
    modifies d, d.sink, d.buffer
    ensures d.Valid() && d.base == old(d.base) && d.fed == old(d.fed) + Flatten(chunks)
    ensures |d.sink.verdicts| <= |old(d.sink.verdicts)|
  {
    hide Decoder.Valid, Rest, Flatten;
    RestAtStart(chunks, 0);
    assert chunks[0..] == chunks;
    var r, chunk, ofs := FeedNetbuf(d, chunks, 0, 0);
    while r == THROTTLE
      invariant d.Valid() && d.base == old(d.base) && CursorOk(chunks, chunk, ofs)
      invariant d.fed + Rest(chunks, chunk, ofs) == old(d.fed) + Flatten(chunks)
      invariant r == THROTTLE || Rest(chunks, chunk, ofs) == []
      invariant |d.sink.verdicts| <= |old(d.sink.verdicts)|
      decreases r == THROTTLE, |d.sink.verdicts|
    {
      r, chunk, ofs := FeedNetbuf(d, chunks, chunk, ofs);
    }
  }

  /** A whole session: network buffers fed one after the other, with the held frame offered
      again any number of times before each and after the last.  However the bytes are cut up
      and whatever the answers, the frames accepted are, in order, those of the reference
      machine on all the bytes, but for at most one still held. */
  method Session(d: Decoder, bufs: seq<seq<seq<Byte>>>, retries: nat -> nat)
    requires d.Valid() && d.fed == []
    modifies d, d.sink, d.buffer
    ensures d.Valid() && d.base == old(d.base) && d.fed == FlattenAll(bufs)
    ensures |d.sink.accepted| >= d.base
    ensures var out := Frames(START, FlattenAll(bufs));
            d.sink.accepted[d.base..] == if d.held && out != [] then out[..|out| - 1] else out
    ensures d.held ==> Frames(START, FlattenAll(bufs)) != []
    // and none is, if after the last buffer it is offered more often than there are refusals
    ensures retries(|bufs|) > |old(d.sink.verdicts)| ==> !d.held
  {
    hide Feed, Frames, Flatten;
    for n := 0 to |bufs|
      invariant d.Valid() && d.base == old(d.base) && d.fed == FlattenAll(bufs[..n])
      invariant |d.sink.verdicts| <= |old(d.sink.verdicts)|
    {
      assert bufs[..n + 1][..n] == bufs[..n];
      RetrySome(d, retries(n));
      FeedWhole(d, bufs[n]);
    }
    RetrySome(d, retries(|bufs|));
    assert bufs[..|bufs|] == bufs;
  }
}

/** NOR flash behind the FAL port: programming can only clear bits, erasing sets a
whole sector, and the port turns both into writes to a plain byte array. */
module Flash {
  import opened Words

  const SECTOR := 4096           // flash0.sector_size, sizeof(sect_buf)
  const PAGE := 256              // flash0.page_size
  const ERASED: bv8 := 0xFF

  type Octets = seq<bv8>

  /** The plain array write. */
  function Splice(m: Octets, at: nat, bs: Octets): (r: Octets)
    requires at + |bs| <= |m|
    ensures |r| == |m|
    ensures forall k :: 0 <= k < |m| ==> r[k] == if at <= k < at + |bs| then bs[k - at] else m[k]
  {
    m[..at] + bs + m[at + |bs|..]
  }

  /** What a program command does: every written bit is anded in. */
  function Anded(m: Octets, at: nat, bs: Octets): (r: Octets)
    requires at + |bs| <= |m|
    ensures |r| == |m|
    ensures forall k :: 0 <= k < |m| ==> r[k] == if at <= k < at + |bs| then m[k] & bs[k - at] else m[k]
  {
    seq(|m|, k requires 0 <= k < |m| => if at <= k < at + |bs| then m[k] & bs[k - at] else m[k])
  }

  predicate Clear(m: Octets, at: nat, n: nat)
    requires at + n <= |m|
  {
    forall k :: at <= k < at + n ==> m[k] == ERASED
  }

  /** On erased bytes, programming is the plain write. */
  lemma AndedClear(m: Octets, at: nat, bs: Octets)
    requires at + |bs| <= |m| && Clear(m, at, |bs|)
    ensures Anded(m, at, bs) == Splice(m, at, bs)
  {
    forall k | at <= k < at + |bs| ensures m[k] & bs[k - at] == bs[k - at] {
      AndFF(bs[k - at]);
    }
  }

  lemma AndFF(x: bv8)
    ensures ERASED & x == x
  {
  }

  lemma AndedConcat(m: Octets, at: nat, xs: Octets, ys: Octets)
    requires at + |xs| + |ys| <= |m|
    ensures Anded(m, at, xs + ys) == Anded(Anded(m, at, xs), at + |xs|, ys)
  {
    hide Anded;
    var l, r := Anded(m, at, xs + ys), Anded(Anded(m, at, xs), at + |xs|, ys);
    forall k | 0 <= k < |m| ensures l[k] == r[k] {
    }
  }

  lemma SpliceConcat(m: Octets, at: nat, xs: Octets, ys: Octets)
    requires at + |xs| + |ys| <= |m|
    ensures Splice(m, at, xs + ys) == Splice(Splice(m, at, xs), at + |xs|, ys)
  {
  }

  predicate AtSector(a: nat) { a % SECTOR == 0 }

  /** ALIGN_DOWN and ALIGN_UP to a sector. */
  function AlignDown(a: nat): (r: nat)
    ensures r <= a < r + SECTOR && AtSector(r)
  {
    a / SECTOR * SECTOR
  }

  function AlignUp(a: nat): (r: nat)
    ensures a <= r < a + SECTOR && AtSector(r)
  {
    (a + SECTOR - 1) / SECTOR * SECTOR
  }

  lemma AlignUpFits(a: nat, n: nat)
    requires a <= n && AtSector(n)
    ensures AlignUp(a) <= n
  {
  }

  lemma NextSector(a: nat, b: nat)
    requires AtSector(a) && AtSector(b) && a < b
    ensures a + SECTOR <= b && AtSector(a + SECTOR)
  {
  }

  /** Where byte k of a program command for an address goes: the chip wraps inside the page. */
  function Target(addr: nat, k: nat): nat {
    addr / PAGE * PAGE + (addr % PAGE + k) % PAGE
  }

  /** What the chip does with a program command. */
  function Programmed(m: Octets, addr: nat, bs: Octets): (r: Octets)
    ensures |r| == |m|
  {
    if bs == [] then m
    else
      var k := |bs| - 1;
      var r, at := Programmed(m, addr, bs[..k]), Target(addr, k);
      if at < |r| then r[at := r[at] & bs[k]] else r
  }

  /** Inside a page it is the plain and over the range. */
  lemma {:induction false} ProgrammedInPage(m: Octets, addr: nat, bs: Octets)
    requires addr + |bs| <= |m| && InPage(addr, |bs|)
    ensures Programmed(m, addr, bs) == Anded(m, addr, bs)
  {
    if bs == [] {
      AndedNone(m, addr);
    } else {
      var k := |bs| - 1;
      ProgrammedInPage(m, addr, bs[..k]);
      NoWrapInPage(addr, k);
    }
  }

  lemma NoWrapInPage(addr: nat, k: nat)
    requires addr % PAGE + k < PAGE
    ensures Target(addr, k) == addr + k
  {
  }

  /** A range that crosses no page boundary. */
  predicate InPage(addr: nat, n: nat) { addr % PAGE + n <= PAGE }

  lemma InPageFits(addr: nat, n: nat)
    requires InPage(addr, n)
    ensures n <= PAGE
  {
  }

  predicate AtPage(addr: nat) { addr % PAGE == 0 }

  function PageLeft(addr: nat): nat { PAGE - addr % PAGE }

  /** What is left of a page, and where that ends. */
  lemma PageRest(addr: nat)
    ensures var n := PageLeft(addr);
            0 < n <= PAGE && InPage(addr, n) && AtPage(addr + n) && forall k: nat :: k <= n ==> InPage(addr, k)
  {
  }

  lemma WholePage(addr: nat)
    requires AtPage(addr)
    ensures AtPage(addr + PAGE) && forall k: nat :: k <= PAGE ==> InPage(addr, k)
  {
  }

  /** Where a range ends, as a 32-bit sum. */
  function End32(addr: nat, n: nat): (end: nat)
    requires addr < WRAP32 && n < WRAP32
    ensures end == if addr + n < WRAP32 then addr + n else addr + n - WRAP32
  {
    (addr + n) % WRAP32
  }

  /** `(int)n` of a 32-bit size. */
  function AsInt(n: nat): (i: int)
    requires n < WRAP32
    ensures -0x8000_0000 <= i < 0x8000_0000 && (i - n) % WRAP32 == 0
  {
    if n < WRAP32 / 2 then n else n - WRAP32
  }

  /** The range now holds the bytes and nothing else changed. */
  ghost predicate Wrote(was: Octets, addr: nat, bs: Octets, now: Octets) {
    addr + |bs| <= |was| && now == Splice(was, addr, bs)
  }

  function Fill(n: nat): (r: Octets)
    ensures |r| == n && forall k :: 0 <= k < n ==> r[k] == ERASED
  {
    seq(n, _ => ERASED)
  }

  /** A command of n more bytes after the first part of a buffer. */
  lemma AndedNext(m: Octets, at: nat, bs: Octets, done: nat, n: nat)
    requires done + n <= |bs| && at + |bs| <= |m|
    ensures Anded(Anded(m, at, bs[..done]), at + done, bs[done..done + n]) == Anded(m, at, bs[..done + n])
  {
    AndedConcat(m, at, bs[..done], bs[done..done + n]);
    assert bs[..done + n] == bs[..done] + bs[done..done + n];
  }

  lemma SpliceNext(m: Octets, at: nat, bs: Octets, done: nat, n: nat)
    requires done + n <= |bs| && at + |bs| <= |m|
    ensures Splice(Splice(m, at, bs[..done]), at + done, bs[done..done + n]) == Splice(m, at, bs[..done + n])
  {
    SpliceConcat(m, at, bs[..done], bs[done..done + n]);
    assert bs[..done + n] == bs[..done] + bs[done..done + n];
  }

  class Nor {
    var mem: Octets
    var erases: nat          // sectors erased so far; not in the C program

    ghost predicate Valid()
      reads this
    {
      AtSector(|mem|) && |mem| < WRAP32
    }

    constructor (mem: Octets)
      requires AtSector(|mem|) && |mem| < WRAP32
      ensures Valid() && this.mem == mem && erases == 0
    {
      this.mem, erases := mem, 0;
    }

    /** One program command of at most a page, as the chip performs it. */
    method Program(addr: nat, bs: Octets)
      requires Valid() && addr + |bs| <= |mem| && |bs| <= PAGE
      modifies this
      ensures Valid() && mem == Programmed(old(mem), addr, bs) && erases == old(erases)
    {
      mem := Programmed(mem, addr, bs);
    }

    method EraseSector(addr: nat)
      requires Valid() && AtSector(addr) && addr + SECTOR <= |mem|
      modifies this
      ensures Valid() && mem == Splice(old(mem), addr, Fill(SECTOR)) && erases == old(erases) + 1
    {
      erases := erases + 1;
      mem := Splice(mem, addr, Fill(SECTOR));
    }

    /** spi_nor_write: any length, cut at page boundaries. */
    method SpiNorWrite(addr: nat, bs: Octets)
      requires Valid() && addr + |bs| <= |mem|
      modifies this
      ensures Valid() && mem == Anded(old(mem), addr, bs) && erases == old(erases)
    {
      hide Anded, InPage, AtPage, PageLeft, AtSector;
      var done := 0;
      AndedNone(mem, addr);
      assert bs[..0] == [];
      PageRest(addr);
      var remain := PageLeft(addr);
      if |bs| > remain {
        ProgramNext(mem, addr, bs, 0, remain);
        done := remain;
      }
      while |bs| - done > PAGE
        invariant Valid() && |mem| == |old(mem)| && 0 <= done <= |bs| && mem == Anded(old(mem), addr, bs[..done])
        invariant erases == old(erases)
        invariant AtPage(addr + done) || (done == 0 && |bs| <= remain)
      {
        WholePage(addr + done);
        ProgramNext(old(mem), addr, bs, done, PAGE);
        done := done + PAGE;
      }
      if AtPage(addr + done) {
        WholePage(addr + done);
      }
      ProgramNext(old(mem), addr, bs, done, |bs| - done);
      assert bs[..|bs|] == bs;
    }

    /** One command for the n bytes behind those done. */
    method ProgramNext(ghost was: Octets, addr: nat, bs: Octets, done: nat, n: nat)
      requires Valid() && |was| == |mem| && addr + |bs| <= |mem| && done + n <= |bs| && InPage(addr + done, n)
      requires mem == Anded(was, addr, bs[..done])
      modifies this
      ensures Valid() && |mem| == |was| && mem == Anded(was, addr, bs[..done + n]) && erases == old(erases)
    {
      hide Anded, InPage, AtSector, Programmed;
      AndedNext(was, addr, bs, done, n);
      InPageFits(addr + done, n);
      ProgrammedInPage(mem, addr + done, bs[done..done + n]);
      Program(addr + done, bs[done..done + n]);
    }

    method ProgramPages(addr: nat, bs: Octets)
      requires Valid() && addr + |bs| <= |mem|
      modifies this
      ensures Valid() && mem == Anded(old(mem), addr, bs) && erases == old(erases)
    {
      hide Anded;
      AndedNone(mem, addr);
      assert bs[..0] == [];
      var done := 0;
      while done < |bs|
        invariant erases == old(erases)
        invariant Valid() && 0 <= done <= |bs| && mem == Anded(old(mem), addr, bs[..done])
      {
        var off := (addr + done) % PAGE;
        var chunk := PAGE - off;
        if chunk > |bs| - done {
          chunk := |bs| - done;
        }
        AndedNext(old(mem), addr, bs, done, chunk);
        SpiNorWrite(addr + done, bs[done..done + chunk]);
        done := done + chunk;
      }
      assert bs[..|bs|] == bs;
    }

    static method NeedErase(p: Octets) returns (dirty: bool)
      ensures dirty <==> !Clear(p, 0, |p|)
    {
      for i := 0 to |p|
        invariant forall k :: 0 <= k < i ==> p[k] == ERASED
      {
        if p[i] != ERASED {
          return true;
        }
      }
      return false;
    }

    /** Read-modify-write of one sector, without an erase when the target is blank: in
        either case the plain write.  A range that leaves the sector is refused. */
    method WriteOneSector(sector: nat, addr: nat, bs: Octets) returns (r: int)
      requires Valid() && AtSector(sector) && sector + SECTOR <= |mem|
      requires sector <= addr && addr - sector + |bs| < WRAP32
      modifies this
      ensures Valid()
      // a sector is erased only if it has to be
      ensures erases == old(erases) +
                if addr + |bs| <= sector + SECTOR && !Clear(old(mem), addr, |bs|) then 1 else 0
      ensures if addr + |bs| > sector + SECTOR then r == -1 && mem == old(mem)
              else r == AsInt(|bs|) && mem == Splice(old(mem), addr, bs)
    {
      hide Anded, Splice;
      var off := addr - sector;
      if off + |bs| > SECTOR {
        return -1;
      }
      r := AsInt(|bs|);
      var sectBuf := mem[sector..sector + SECTOR];
      var target := sectBuf[off..off + |bs|];
      var dirty := NeedErase(target);
      if !dirty {
        assert Clear(mem, addr, |bs|) by {
          forall k | addr <= k < addr + |bs| ensures mem[k] == ERASED {
            assert target[k - addr] == mem[k];
          }
        }
        AndedClear(mem, addr, bs);
        ProgramPages(addr, bs);
        return;
      }
      assert !Clear(mem, addr, |bs|) by {
        if k :| 0 <= k < |target| && target[k] != ERASED {
          assert mem[addr + k] != ERASED;
        }
      }
      sectBuf := Splice(sectBuf, off, bs);
      EraseSector(sector);
      AndedClear(mem, sector, sectBuf);
      ProgramPages(sector, sectBuf);
      SectorRewritten(old(mem), sector, addr, bs);
    }

    /** The port's write: an ideal array write for any prior contents.  The end of the range
        is a 32-bit sum: when it wraps nothing is written, and that is reported as success
        whenever the wrapped end is inside the flash. */
    method Write(addr: nat, bs: Octets) returns (r: int)
      requires Valid() && addr < WRAP32 && |bs| < WRAP32
      modifies this
      ensures Valid()
      ensures var end := End32(addr, |bs|);
              if bs == [] then r == 0 && mem == old(mem)
              else if end > |old(mem)| then r == -1 && mem == old(mem)
              else r == AsInt(|bs|) && (addr + |bs| < WRAP32 ==> mem == Splice(old(mem), addr, bs))
      ensures addr + |bs| >= WRAP32 ==> mem == old(mem)
      // a positive answer means the bytes are there if and only if the sum did not wrap
      ensures r > 0 ==> (Wrote(old(mem), addr, bs, mem) <==> addr + |bs| < WRAP32)
    {
      hide Splice, End32;
      if bs == [] {
        return 0;
      }
      var end := End32(addr, |bs|);
      if end > |mem| {
        return -1;
      }
      SpliceNone(mem, addr);
      assert bs[..0] == [];
      var cur := addr;
      while cur < end
        invariant Valid() && |mem| == |old(mem)| && addr <= cur
        invariant addr + |bs| < WRAP32 ==> cur <= end && mem == Splice(old(mem), addr, bs[..cur - addr])
        invariant addr + |bs| >= WRAP32 ==> cur == addr && mem == old(mem)
      {
        var sector := AlignDown(cur);
        var next := sector + SECTOR;
        var chunk := if end < next then end - cur else next - cur;
        SpliceNext(old(mem), addr, bs, cur - addr, chunk);
        var rc := WriteOneSector(sector, cur, bs[cur - addr..cur - addr + chunk]);
        if rc < 0 {
          return rc;
        }
        cur := cur + chunk;
      }
      assert bs[..|bs|] == bs;
      return AsInt(|bs|);
    }

    /** The port's erase: every sector the range touches.  When the 32-bit end wraps, the only
        sector it can touch is one that both ends lie in. */
    method Erase(addr: nat, size: nat) returns (r: int)
      requires Valid() && addr < WRAP32 && size < WRAP32
      modifies this
      ensures Valid()
      ensures var end := End32(addr, size);
              var lo, hi := AlignDown(addr), AlignUp(end);
              if size == 0 then r == 0 && mem == old(mem)
              else if end > |old(mem)| then r == -1 && mem == old(mem)
              else
                && r == AsInt(size) && hi <= |old(mem)|
                && mem == (if lo < hi then Splice(old(mem), lo, Fill(hi - lo)) else old(mem))
                && (addr + size >= WRAP32 ==> hi <= lo + SECTOR)
    {
      if size == 0 {
        return 0;
      }
      var end := End32(addr, size);
      if end > |mem| {
        return -1;
      }
      if addr + size >= WRAP32 {
        WrappedErase(addr, size);
      }
      AlignUpFits(end, |mem|);
      hide AlignDown, AlignUp, Fill;
      EraseRange(AlignDown(addr), AlignUp(end));
      return AsInt(size);
    }

    /** The erase loop, from one sector boundary to another. */
    method EraseRange(lo: nat, hi: nat)
      requires Valid() && AtSector(lo) && AtSector(hi) && hi <= |mem|
      modifies this
      ensures Valid() && mem == if lo < hi then Splice(old(mem), lo, Fill(hi - lo)) else old(mem)
    {
      hide Splice, Fill, AtSector;
      SpliceNone(mem, lo);
      var cur := lo;
      while cur < hi
        invariant Valid() && lo <= cur && AtSector(cur) && |mem| == |old(mem)|
        invariant if lo < hi then cur <= hi && mem == Splice(old(mem), lo, Fill(cur - lo)) else mem == old(mem)
      {
        NextSector(cur, hi);
        FillNext(old(mem), lo, cur - lo);
        EraseSector(cur);
        cur := cur + SECTOR;
      }
    }
  }

  /** A failing write: two bytes at the last address of the 32-bit range are reported as
      written and are nowhere. */
  method WrappedWrite(mem: Octets) returns (r: int, after: Octets)
    requires |mem| == 4096
    ensures r == 2 && after == mem
  {
    var f := new Nor(mem);
    r := f.Write(WRAP32 - 1, [0, 0]);
    after := f.mem;
  }

  lemma WrappedErase(addr: nat, size: nat)
    requires addr < WRAP32 && size < WRAP32 && addr + size >= WRAP32
    ensures AlignUp(End32(addr, size)) <= AlignDown(addr) + SECTOR
  {
    var end := End32(addr, size);
    assert end < addr;
    AlignUpFits(end, AlignDown(addr) + SECTOR);
  }

  lemma FillNext(m: Octets, at: nat, n: nat)
    requires at + n + SECTOR <= |m|
    ensures Splice(Splice(m, at, Fill(n)), at + n, Fill(SECTOR)) == Splice(m, at, Fill(n + SECTOR))
  {
  }

  lemma AndedNone(m: Octets, at: nat)
    requires at <= |m|
    ensures Anded(m, at, []) == m
  {
  }

  lemma SpliceNone(m: Octets, at: nat)
    ensures at <= |m| ==> Splice(m, at, []) == m
  {
  }

  /** Rewriting a sector with a patched copy of itself patches the flash. */
  lemma SectorRewritten(m: Octets, sector: nat, addr: nat, bs: Octets)
    requires sector <= addr && addr + |bs| <= sector + SECTOR <= |m|
    ensures var buf := Splice(m[sector..sector + SECTOR], addr - sector, bs);
            Splice(Splice(m, sector, Fill(SECTOR)), sector, buf) == Splice(m, addr, bs)
  {
  }
}

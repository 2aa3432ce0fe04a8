/** The two ELF image loaders (uboot/cmd/elf.c): by program headers and by section headers. */
module Elf {
  import opened Machine

  /** The fields of program and section headers that the loaders use. */
  datatype Phdr = Phdr(paddr: nat, offset: nat, filesz: nat, memsz: nat)

  datatype Shdr = Shdr(alloc: bool, nobits: bool, addr: nat, offset: nat, size: nat)

  /** Where the image lies in memory. */
  datatype Image = Image(addr: nat, len: nat)

  /** The segment fits its place, comes from memory, and does not overlap the bytes it is copied
      from. */
  ghost predicate ValidPhdr(p: Phdr, image: Image, size: nat) {
    && p.filesz <= p.memsz && p.paddr + p.memsz <= size
    && Copyable(p.paddr, image.addr + p.offset, p.filesz, size)
  }

  ghost predicate Copyable(dst: nat, src: nat, n: nat, size: nat) {
    n == 0 || (dst + n <= size && src + n <= size && (dst + n <= src || src + n <= dst))
  }

  predicate Loaded(s: Shdr) { s.alloc && s.addr != 0 && s.size != 0 }

  ghost predicate ValidShdr(s: Shdr, image: Image, size: nat) {
    Loaded(s) ==>
      && s.addr + s.size <= size
      && (!s.nobits ==> Copyable(s.addr, image.addr + s.offset, s.size, size))
  }

  predicate InPhdr(p: Phdr, a: int) { p.paddr <= a < p.paddr + p.memsz }

  predicate InShdr(s: Shdr, a: int) { Loaded(s) && s.addr <= a < s.addr + s.size }

  /** Memory at `a` after the first `n` segments, or sections, are loaded one after the other. */
  ghost function AfterPhdrs(m: seq<byte>, image: Image, ps: seq<Phdr>, n: nat, a: nat): byte
    requires n <= |ps|
  {
    if n == 0 then (if a < |m| then m[a] else 0)
    else
      var p := ps[n - 1];
      if !InPhdr(p, a) then AfterPhdrs(m, image, ps, n - 1, a)
      else if a < p.paddr + p.filesz then AfterPhdrs(m, image, ps, n - 1, image.addr + p.offset + (a - p.paddr))
      else 0
  }

  ghost function AfterShdrs(m: seq<byte>, image: Image, ss: seq<Shdr>, n: nat, a: nat): byte
    requires n <= |ss|
  {
    if n == 0 then (if a < |m| then m[a] else 0)
    else
      var s := ss[n - 1];
      if !InShdr(s, a) then AfterShdrs(m, image, ss, n - 1, a)
      else if s.nobits then 0
      else AfterShdrs(m, image, ss, n - 1, image.addr + s.offset + (a - s.addr))
  }

  // ---------------------------------------------------------------- the loaders

  method Memcpy(mem: array<byte>, dst: nat, src: nat, n: nat)
    requires dst + n <= mem.Length && src + n <= mem.Length && (dst + n <= src || src + n <= dst || n == 0)
    modifies mem
    ensures forall a :: 0 <= a < mem.Length ==>
      mem[a] == if dst <= a < dst + n then old(mem[src + (a - dst)]) else old(mem[a])
  {
    for i := 0 to n
      invariant forall a :: 0 <= a < mem.Length ==>
        mem[a] == if dst <= a < dst + i then old(mem[src + (a - dst)]) else old(mem[a])
    {
      mem[dst + i] := mem[src + i];
    }
  }

  method Memset(mem: array<byte>, dst: nat, n: nat)
    requires dst + n <= mem.Length
    modifies mem
    ensures forall a :: 0 <= a < mem.Length ==> mem[a] == if dst <= a < dst + n then 0 else old(mem[a])
  {
    for i := 0 to n
      invariant forall a :: 0 <= a < mem.Length ==> mem[a] == if dst <= a < dst + i then 0 else old(mem[a])
    {
      mem[dst + i] := 0;
    }
  }

  method LoadPhdr(mem: array<byte>, image: Image, p: Phdr)
    requires ValidPhdr(p, image, mem.Length)
    modifies mem
    ensures forall a :: 0 <= a < p.paddr || p.paddr + p.memsz <= a < mem.Length ==> mem[a] == old(mem[a])
    ensures forall a :: p.paddr <= a < p.paddr + p.filesz ==> mem[a] == old(mem[image.addr + p.offset + (a - p.paddr)])
    ensures forall a :: p.paddr + p.filesz <= a < p.paddr + p.memsz ==> mem[a] == 0
  {
    if p.filesz != 0 {
      Memcpy(mem, p.paddr, image.addr + p.offset, p.filesz);
    }
    if p.filesz != p.memsz {
      Memset(mem, p.paddr + p.filesz, p.memsz - p.filesz);
    }
  }

  /** `load_elf_image_phdr`. */
  method LoadImagePhdr(mem: array<byte>, image: Image, ps: seq<Phdr>, ghost m: seq<byte>)
    requires m == mem[..] && forall i :: 0 <= i < |ps| ==> ValidPhdr(ps[i], image, mem.Length)
    modifies mem
    ensures forall a :: 0 <= a < mem.Length ==> mem[a] == AfterPhdrs(m, image, ps, |ps|, a)
  {
    for i := 0 to |ps|
      invariant forall a :: 0 <= a < mem.Length ==> mem[a] == AfterPhdrs(m, image, ps, i, a)
    {
      LoadPhdr(mem, image, ps[i]);
    }
  }

  method LoadShdr(mem: array<byte>, image: Image, s: Shdr)
    requires ValidShdr(s, image, mem.Length)
    modifies mem
    ensures !s.alloc || s.addr == 0 ==> forall a :: 0 <= a < mem.Length ==> mem[a] == old(mem[a])
    ensures forall a :: 0 <= a < mem.Length && (a < s.addr || s.addr + s.size <= a) ==> mem[a] == old(mem[a])
    ensures s.alloc && s.addr != 0 && s.nobits ==> forall a :: s.addr <= a < s.addr + s.size ==> mem[a] == 0
    ensures s.alloc && s.addr != 0 && !s.nobits ==>
      forall a :: s.addr <= a < s.addr + s.size ==> mem[a] == old(mem[image.addr + s.offset + (a - s.addr)])
  {
    if !s.alloc || s.addr == 0 || s.size == 0 {
      return;
    }
    if s.nobits {
      Memset(mem, s.addr, s.size);
    } else {
      Memcpy(mem, s.addr, image.addr + s.offset, s.size);
    }
  }

  /** `load_elf_image_shdr`. */
  method LoadImageShdr(mem: array<byte>, image: Image, ss: seq<Shdr>, ghost m: seq<byte>)
    requires m == mem[..] && forall i :: 0 <= i < |ss| ==> ValidShdr(ss[i], image, mem.Length)
    modifies mem
    ensures forall a :: 0 <= a < mem.Length ==> mem[a] == AfterShdrs(m, image, ss, |ss|, a)
  {
    for i := 0 to |ss|
      invariant forall a :: 0 <= a < mem.Length ==> mem[a] == AfterShdrs(m, image, ss, i, a)
    {
      LoadShdr(mem, image, ss[i]);
    }
  }

  // ---------------------------------------------------------------- properties

  /** Sections are loaded in order: the last one that holds an address, by its header fields,
      decides what is there. */
  lemma {:induction false} LastSectionWins(m: seq<byte>, image: Image, ss: seq<Shdr>, n: nat, j: nat, a: nat)
    requires j < n <= |ss| && ss[j].alloc && ss[j].addr != 0 && ss[j].addr <= a < ss[j].addr + ss[j].size
    requires forall k :: j < k < n ==> !(ss[k].alloc && ss[k].addr != 0 && ss[k].addr <= a < ss[k].addr + ss[k].size)
    ensures AfterShdrs(m, image, ss, n, a) ==
            if ss[j].nobits then 0 else AfterShdrs(m, image, ss, j, image.addr + ss[j].offset + (a - ss[j].addr))
    decreases n
  {
    if j < n - 1 { LastSectionWins(m, image, ss, n - 1, j, a); }
  }

  /** The same for segments. */
  lemma {:induction false} LastSegmentWins(m: seq<byte>, image: Image, ps: seq<Phdr>, n: nat, j: nat, a: nat)
    requires j < n <= |ps| && ps[j].paddr <= a < ps[j].paddr + ps[j].memsz
    requires forall k :: j < k < n ==> !(ps[k].paddr <= a < ps[k].paddr + ps[k].memsz)
    ensures AfterPhdrs(m, image, ps, n, a) ==
            if a < ps[j].paddr + ps[j].filesz
            then AfterPhdrs(m, image, ps, j, image.addr + ps[j].offset + (a - ps[j].paddr)) else 0
    decreases n
  {
    if j < n - 1 { LastSegmentWins(m, image, ps, n - 1, j, a); }
  }

  ghost predicate Apart(image: Image, addr: nat, size: nat) {
    addr + size <= image.addr || image.addr + image.len <= addr || size == 0
  }

  /** The segments come from inside the image, go to memory outside of it, and do not overlap. */
  ghost predicate Disjoint(ps: seq<Phdr>, image: Image) {
    && (forall i :: 0 <= i < |ps| ==>
          && ps[i].filesz <= ps[i].memsz && ps[i].offset + ps[i].filesz <= image.len
          && Apart(image, ps[i].paddr, ps[i].memsz))
    && forall i, j :: 0 <= i < j < |ps| ==>
         ps[i].paddr + ps[i].memsz <= ps[j].paddr || ps[j].paddr + ps[j].memsz <= ps[i].paddr
  }

  /** Byte `i` of the image, as found in memory `m` before loading. */
  ghost function ImageByte(m: seq<byte>, image: Image, i: int): byte {
    if 0 <= i < image.len && image.addr + i < |m| then m[image.addr + i] else 0
  }

  ghost function PhdrByte(m: seq<byte>, image: Image, p: Phdr, a: int): byte {
    if a < p.paddr + p.filesz then ImageByte(m, image, p.offset + (a - p.paddr)) else 0
  }

  /** Loading leaves the image as it was. */
  lemma {:induction false} ImageKept(m: seq<byte>, image: Image, ps: seq<Phdr>, n: nat, i: nat)
    requires n <= |ps| && Disjoint(ps, image) && i < image.len
    ensures AfterPhdrs(m, image, ps, n, image.addr + i) == ImageByte(m, image, i)
    decreases n
  {
    if n > 0 { ImageKept(m, image, ps, n - 1, i); }
  }

  /** Each of any number of disjoint segments holds its file bytes followed by zeros, and
      memory outside all segments is unchanged. */
  lemma {:induction false} SegmentsLoaded(m: seq<byte>, image: Image, ps: seq<Phdr>, n: nat, a: nat)
    requires n <= |ps| && a < |m| && Disjoint(ps, image)
    ensures forall i :: 0 <= i < n && InPhdr(ps[i], a) ==>
      AfterPhdrs(m, image, ps, n, a) == PhdrByte(m, image, ps[i], a)
    ensures (forall i :: 0 <= i < n ==> !InPhdr(ps[i], a)) ==> AfterPhdrs(m, image, ps, n, a) == m[a]
    decreases n
  {
    if n > 0 {
      var p := ps[n - 1];
      SegmentsLoaded(m, image, ps, n - 1, a);
      if InPhdr(p, a) && a < p.paddr + p.filesz { ImageKept(m, image, ps, n - 1, p.offset + (a - p.paddr)); }
    }
  }

  /** What is in a segment that was loaded with disjoint others, by its header fields: the bytes of
      the image at its offset, and zeros behind them. */
  lemma SegmentBytes(m: seq<byte>, image: Image, ps: seq<Phdr>, i: nat, k: nat)
    requires Disjoint(ps, image) && i < |ps| && k < ps[i].memsz && ps[i].paddr + k < |m| &&
      image.addr + image.len <= |m|
    ensures AfterPhdrs(m, image, ps, |ps|, ps[i].paddr + k) ==
            if k < ps[i].filesz then m[image.addr + ps[i].offset + k] else 0
  {
    SegmentsLoaded(m, image, ps, |ps|, ps[i].paddr + k);
    assert InPhdr(ps[i], ps[i].paddr + k);
  }

  /** Memory in no segment is as it was. */
  lemma OutsideSegments(m: seq<byte>, image: Image, ps: seq<Phdr>, a: nat)
    requires Disjoint(ps, image) && a < |m|
    requires forall i :: 0 <= i < |ps| ==> a < ps[i].paddr || ps[i].paddr + ps[i].memsz <= a
    ensures AfterPhdrs(m, image, ps, |ps|, a) == m[a]
  {
    SegmentsLoaded(m, image, ps, |ps|, a);
  }

  /** Section `s` lies in segment `p`, its file bytes where the segment has them and its
      cleared bytes where the segment has none. */
  ghost predicate Within(s: Shdr, p: Phdr) {
    if s.nobits then p.paddr + p.filesz <= s.addr && s.addr + s.size <= p.paddr + p.memsz
    else p.paddr <= s.addr && s.addr + s.size <= p.paddr + p.filesz && s.offset + p.paddr == p.offset + s.addr
  }

  /** The loaded sections tile the segments consistently. */
  ghost predicate Tiles(ss: seq<Shdr>, ps: seq<Phdr>) {
    && (forall j :: 0 <= j < |ss| && Loaded(ss[j]) ==> exists i :: 0 <= i < |ps| && Within(ss[j], ps[i]))
    && (forall i, a :: 0 <= i < |ps| && InPhdr(ps[i], a) ==> Covered(ss, a))
  }

  ghost predicate Covered(ss: seq<Shdr>, a: int) { exists j :: 0 <= j < |ss| && InShdr(ss[j], a) }

  lemma NotInImage(image: Image, ss: seq<Shdr>, ps: seq<Phdr>, j: nat, i: nat)
    requires Disjoint(ps, image) && Tiles(ss, ps) && j < |ss| && i < image.len
    ensures !InShdr(ss[j], image.addr + i)
  {
  }

  lemma {:induction false} ImageKeptByShdrs(m: seq<byte>, image: Image, ss: seq<Shdr>, ps: seq<Phdr>, n: nat, i: nat)
    requires n <= |ss| && Disjoint(ps, image) && Tiles(ss, ps) && i < image.len
    ensures AfterShdrs(m, image, ss, n, image.addr + i) == ImageByte(m, image, i)
    decreases n
  {
    if n > 0 {
      NotInImage(image, ss, ps, n - 1, i);
      ImageKeptByShdrs(m, image, ss, ps, n - 1, i);
    }
  }

  /** A section that tiles writes at each address what the segments have there. */
  lemma {:induction false} SectionAgrees(m: seq<byte>, image: Image, ss: seq<Shdr>, ps: seq<Phdr>, j: nat, a: nat)
    requires Disjoint(ps, image) && Tiles(ss, ps) && j < |ss| && a < |m| && InShdr(ss[j], a)
    ensures
      var s := ss[j];
      AfterPhdrs(m, image, ps, |ps|, a) ==
      if s.nobits then 0 else AfterShdrs(m, image, ss, j, image.addr + s.offset + (a - s.addr))
  {
    var s := ss[j];
    var i :| 0 <= i < |ps| && Within(s, ps[i]);
    SegmentsLoaded(m, image, ps, |ps|, a);
    assert InPhdr(ps[i], a);
    if !s.nobits { ImageKeptByShdrs(m, image, ss, ps, j, s.offset + (a - s.addr)); }
  }

  lemma {:induction false} SectionsAgree(m: seq<byte>, image: Image, ss: seq<Shdr>, ps: seq<Phdr>, n: nat, a: nat)
    requires Disjoint(ps, image) && Tiles(ss, ps) && n <= |ss| && a < |m|
    ensures AfterShdrs(m, image, ss, n, a) ==
            if (exists j :: 0 <= j < n && InShdr(ss[j], a)) then AfterPhdrs(m, image, ps, |ps|, a) else m[a]
    decreases n
  {
    if n > 0 {
      SectionsAgree(m, image, ss, ps, n - 1, a);
      if InShdr(ss[n - 1], a) { SectionAgrees(m, image, ss, ps, n - 1, a); }
    }
  }

  /** Both loaders leave the same memory when the sections tile the segments. */
  lemma {:induction false} LoadersAgree(m: seq<byte>, image: Image, ss: seq<Shdr>, ps: seq<Phdr>, a: nat)
    requires Disjoint(ps, image) && Tiles(ss, ps) && a < |m|
    ensures AfterShdrs(m, image, ss, |ss|, a) == AfterPhdrs(m, image, ps, |ps|, a)
  {
    SectionsAgree(m, image, ss, ps, |ss|, a);
    SegmentsLoaded(m, image, ps, |ps|, a);
    if i :| 0 <= i < |ps| && InPhdr(ps[i], a) { assert Covered(ss, a); }
  }
}

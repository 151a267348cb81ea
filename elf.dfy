/**
 * The part of the 32-bit ELF format (Tool Interface Standard ELF
 * Specification v1.2, Book I: the ELF header on pages 1-4 to 1-8, the
 * program header on pages 2-2 to 2-4) that the Pintos loader reads:
 * decoding of the two headers from the little-endian file image, the
 * executable-header check, the per-entry dispatch on the segment type,
 * the segment validation and the page plan of an accepted segment.
 */
module Elf {
  import opened Wrappers
  import opened Bytes
  import opened Vaddr

  /** sizeof (struct Elf32_Ehdr) and sizeof (struct Elf32_Phdr). */
  const EHDR_SIZE: nat := 52
  const PHDR_SIZE: nat := 32

  /** "\177ELF", then ELFCLASS32, ELFDATA2LSB and EV_CURRENT: the identification bytes the loader compares. */
  const ELF_MAGIC: seq<byte> := [0x7f, 0x45, 0x4c, 0x46, 1, 1, 1]

  const ET_EXEC: nat := 2
  const EM_386: nat := 3
  const EV_CURRENT: nat := 1
  /** Upper bound on e_phnum, so that the scan of the program headers stays bounded. */
  const MAX_PHNUM: nat := 1024

  const PT_NULL: nat := 0
  const PT_LOAD: nat := 1
  const PT_DYNAMIC: nat := 2
  const PT_INTERP: nat := 3
  const PT_NOTE: nat := 4
  const PT_SHLIB: nat := 5
  const PT_PHDR: nat := 6
  const PT_STACK: nat := 0x6474_e551

  /** The writable bit of p_flags. */
  const PF_W: nat := 2

  datatype Ehdr = Ehdr(
    ident: seq<byte>,
    etype: u16, machine: u16,
    version: u32, entry: u32, phoff: u32, shoff: u32, flags: u32,
    ehsize: u16, phentsize: u16, phnum: u16, shentsize: u16, shnum: u16, shstrndx: u16)

  datatype Phdr = Phdr(
    ptype: u32, offset: u32, vaddr: u32, paddr: u32,
    filesz: u32, memsz: u32, flags: u32, align: u32)

  /** struct Elf32_Ehdr as it lies in the first 52 bytes of the file. */
  function DecodeEhdr(b: seq<byte>): Ehdr
    requires |b| >= EHDR_SIZE
  {
    Ehdr(b[..16],
         U16At(b, 16), U16At(b, 18),
         U32At(b, 20), U32At(b, 24), U32At(b, 28), U32At(b, 32), U32At(b, 36),
         U16At(b, 40), U16At(b, 42), U16At(b, 44), U16At(b, 46), U16At(b, 48), U16At(b, 50))
  }

  /** The bytes of a header whose identification field is 16 bytes long. */
  function EncodeEhdr(e: Ehdr): (b: seq<byte>)
    requires |e.ident| == 16
    ensures |b| == EHDR_SIZE
  {
    e.ident
    + Halves([e.etype, e.machine])
    + Words([e.version, e.entry, e.phoff, e.shoff, e.flags])
    + Halves([e.ehsize, e.phentsize, e.phnum, e.shentsize, e.shnum, e.shstrndx])
  }

  /** Decoding the encoding of a header gives back every field. */
  lemma DecodeEncodeEhdr(e: Ehdr)
    requires |e.ident| == 16
    ensures DecodeEhdr(EncodeEhdr(e)) == e
  {
    var hs1 := [e.etype, e.machine];
    var ws := [e.version, e.entry, e.phoff, e.shoff, e.flags];
    var hs2 := [e.ehsize, e.phentsize, e.phnum, e.shentsize, e.shnum, e.shstrndx];
    var a := e.ident + Halves(hs1);
    var b := a + Words(ws);
    var enc := b + Halves(hs2);
    assert EncodeEhdr(e) == enc;
    assert enc[..16] == e.ident;
    HalfField(e.ident, hs1, Words(ws) + Halves(hs2), 0);
    HalfField(e.ident, hs1, Words(ws) + Halves(hs2), 1);
    WordField(a, ws, Halves(hs2), 0);
    WordField(a, ws, Halves(hs2), 1);
    WordField(a, ws, Halves(hs2), 2);
    WordField(a, ws, Halves(hs2), 3);
    WordField(a, ws, Halves(hs2), 4);
    HalfField(b, hs2, [], 0);
    HalfField(b, hs2, [], 1);
    HalfField(b, hs2, [], 2);
    HalfField(b, hs2, [], 3);
    HalfField(b, hs2, [], 4);
    HalfField(b, hs2, [], 5);
    assert b + Halves(hs2) + [] == enc;
  }

  /** Field k of a run of halves placed between two byte strings. */
  lemma HalfField(pre: seq<byte>, hs: seq<u16>, post: seq<byte>, k: nat)
    requires k < |hs|
    ensures U16At(pre + Halves(hs) + post, |pre| + 2 * k) == hs[k]
  {
    HalvesAt(hs, k);
    U16AtConcat(pre, Halves(hs), 2 * k);
    U16AtPrefix(pre + Halves(hs), post, |pre| + 2 * k);
  }

  /** Field k of a run of words placed between two byte strings. */
  lemma WordField(pre: seq<byte>, ws: seq<u32>, post: seq<byte>, k: nat)
    requires k < |ws|
    ensures U32At(pre + Words(ws) + post, |pre| + 4 * k) == ws[k]
  {
    WordsAt(ws, k);
    U32AtConcat(pre, Words(ws), 4 * k);
    U32AtPrefix(pre + Words(ws), post, |pre| + 4 * k);
  }

  /** struct Elf32_Phdr as it lies in 32 bytes of the file. */
  function DecodePhdr(b: seq<byte>): Phdr
    requires |b| >= PHDR_SIZE
  {
    Phdr(U32At(b, 0), U32At(b, 4), U32At(b, 8), U32At(b, 12),
         U32At(b, 16), U32At(b, 20), U32At(b, 24), U32At(b, 28))
  }

  function EncodePhdr(ph: Phdr): (b: seq<byte>)
    ensures |b| == PHDR_SIZE
  {
    Words([ph.ptype, ph.offset, ph.vaddr, ph.paddr, ph.filesz, ph.memsz, ph.flags, ph.align])
  }

  /** Decoding the encoding of a program header gives back every field. */
  lemma DecodeEncodePhdr(ph: Phdr)
    ensures DecodePhdr(EncodePhdr(ph)) == ph
  {
    var ws := [ph.ptype, ph.offset, ph.vaddr, ph.paddr, ph.filesz, ph.memsz, ph.flags, ph.align];
    WordsAt(ws, 0); WordsAt(ws, 1); WordsAt(ws, 2); WordsAt(ws, 3);
    WordsAt(ws, 4); WordsAt(ws, 5); WordsAt(ws, 6); WordsAt(ws, 7);
  }

  /** The conditions under which load accepts a decoded executable header. */
  predicate HeaderAcceptable(e: Ehdr) {
    |e.ident| == 16 && e.ident[..7] == ELF_MAGIC
    && e.etype == ET_EXEC && e.machine == EM_386 && e.version == EV_CURRENT
    && e.phentsize == PHDR_SIZE && e.phnum <= MAX_PHNUM
  }

  /**
   * Reads the executable header from the start of the file and checks it.
   * None when fewer than 52 bytes could be read or any check fails; only
   * the first 7 identification bytes take part in the check.
   */
  function ReadHeader(file: seq<byte>): (r: Option<Ehdr>)
    ensures r.Some? <==>
      |file| >= EHDR_SIZE && file[..7] == ELF_MAGIC
      && U16At(file, 16) == ET_EXEC && U16At(file, 18) == EM_386
      && U32At(file, 20) == EV_CURRENT
      && U16At(file, 42) == PHDR_SIZE && U16At(file, 44) <= MAX_PHNUM
    ensures r.Some? ==>
      r.value.entry == U32At(file, 24) && r.value.phoff == U32At(file, 28)
      && r.value.phnum == U16At(file, 44) <= MAX_PHNUM
  {
    if |file| < EHDR_SIZE then None
    else
      var e := DecodeEhdr(file[..EHDR_SIZE]);
      assert e.ident[..7] == file[..7];
      if HeaderAcceptable(e) then Some(e) else None
  }

  /** The file offset of program header i: e_phoff held in an off_t, advanced by one entry per header. */
  function PhdrOffset(e: Ehdr, i: nat): (ofs: int)
    ensures e.phoff < 0x8000_0000 ==> ofs == e.phoff + PHDR_SIZE * i
  {
    Signed32(e.phoff) + PHDR_SIZE * i
  }

  /**
   * Seeks to ofs and reads one program header. None when the offset is
   * negative or beyond the end of the file, or the read comes back short.
   */
  function ReadPhdr(file: seq<byte>, ofs: int): (r: Option<Phdr>)
    ensures r.Some? <==> 0 <= ofs && ofs + PHDR_SIZE <= |file|
  {
    if ofs < 0 || ofs > |file| then None
    else if ofs + PHDR_SIZE > |file| then None
    else Some(DecodePhdr(file[ofs..ofs + PHDR_SIZE]))
  }

  /** What load does with a program header of each type. */
  datatype PhdrKind = Ignored | Unsupported | Loadable

  function Classify(ptype: u32): (k: PhdrKind)
    ensures k == Loadable <==> ptype == PT_LOAD
    ensures k == Unsupported <==> ptype == PT_DYNAMIC || ptype == PT_INTERP || ptype == PT_SHLIB
    ensures ptype == PT_NULL || ptype == PT_NOTE || ptype == PT_PHDR || ptype == PT_STACK ==> k == Ignored
  {
    match ptype
    case 1 => Loadable
    case 2 | 3 | 5 => Unsupported
    case _ => Ignored
  }

  /**
   * validate_segment: whether a PT_LOAD header describes a segment that may
   * be mapped. The end address p_vaddr + p_memsz is computed in 32 bits, as
   * in the C code; the checks together amount to PGSIZE <= p_vaddr and
   * p_vaddr + p_memsz < PHYS_BASE in exact arithmetic: the one-past-end
   * address itself must be a user address.
   */
  function ValidateSegment(ph: Phdr, fileLength: nat): (r: bool)
    ensures r <==>
      PgOfs(ph.offset) == PgOfs(ph.vaddr)
      && ph.offset <= fileLength
      && ph.filesz <= ph.memsz
      && ph.memsz != 0
      && PGSIZE <= ph.vaddr
      && ph.vaddr + ph.memsz < PHYS_BASE
    ensures ph.vaddr < PGSIZE ==> !r
  {
    var end := Wrap32(ph.vaddr + ph.memsz);
    if PgOfs(ph.offset) != PgOfs(ph.vaddr) then false
    else if ph.offset > fileLength then false
    else if ph.memsz < ph.filesz then false
    else if ph.memsz == 0 then false
    else if !IsUserVaddr(ph.vaddr) then false
    else if !IsUserVaddr(end) then false
    else if end < ph.vaddr then false
    else if ph.vaddr < PGSIZE then false
    else true
  }

  /** How an accepted PT_LOAD segment is brought in: load_segment's arguments. */
  datatype SegmentPlan = SegmentPlan(filePage: u32, memPage: u32, readBytes: u32, zeroBytes: u32, writable: bool)

  /**
   * The page-granular plan for a PT_LOAD header, computed in uint32_t
   * arithmetic as load does: the page-aligned file offset and user address,
   * the bytes to read from the file and the bytes to zero after them.
   */
  function PlanSegment(ph: Phdr): (p: SegmentPlan)
    ensures p.filePage % PGSIZE == 0 && p.memPage % PGSIZE == 0
    ensures p.filePage <= ph.offset < p.filePage + PGSIZE
    ensures p.memPage <= ph.vaddr < p.memPage + PGSIZE
    ensures p.writable <==> (ph.flags / PF_W) % 2 == 1
    ensures ph.filesz == 0 ==> p.readBytes == 0
  {
    var writable := ph.flags % (2 * PF_W) >= PF_W;
    var filePage := PgRoundDown(ph.offset);
    var memPage := PgRoundDown(ph.vaddr);
    var pageOffset := PgOfs(ph.vaddr);
    if ph.filesz > 0 then
      var readBytes := Wrap32(pageOffset + ph.filesz);
      var zeroBytes := Wrap32(PgRoundUp32(Wrap32(pageOffset + ph.memsz)) - readBytes);
      SegmentPlan(filePage, memPage, readBytes, zeroBytes, writable)
    else
      SegmentPlan(filePage, memPage, 0, PgRoundUp32(Wrap32(pageOffset + ph.memsz)), writable)
  }

  /**
   * For a segment that passed validation nothing in the plan wraps around:
   * the read and zero parts together cover exactly the pages spanned by
   * [p_vaddr, p_vaddr + p_memsz), starting no lower than page 1 and ending
   * no higher than PHYS_BASE, and the read part ends exactly at the end of
   * the segment's file bytes.
   */
  lemma {:induction false} PlanOfValidSegment(ph: Phdr, fileLength: nat)
    requires ValidateSegment(ph, fileLength)
    ensures var p := PlanSegment(ph);
      && p.readBytes + p.zeroBytes == PgRoundUp(PgOfs(ph.vaddr) + ph.memsz)
      && (p.readBytes + p.zeroBytes) % PGSIZE == 0
      && PGSIZE <= p.memPage
      && p.memPage + p.readBytes + p.zeroBytes <= PHYS_BASE
      && p.memPage + PgOfs(ph.vaddr) == ph.vaddr
      && ph.vaddr + ph.memsz <= p.memPage + p.readBytes + p.zeroBytes
      && p.filePage <= fileLength
      && (ph.filesz > 0 ==> p.filePage + p.readBytes == ph.offset + ph.filesz)
  {
    var p := PlanSegment(ph);
    PlanCovers(ph, fileLength);
    PlanFits(ph, fileLength);
    assert p.filePage + PgOfs(ph.vaddr) == ph.offset;
  }

  /** The read and zero parts of a valid segment's plan add up to the pages it spans, with no wrap-around. */
  lemma PlanCovers(ph: Phdr, fileLength: nat)
    requires ValidateSegment(ph, fileLength)
    ensures PlanSegment(ph).readBytes + PlanSegment(ph).zeroBytes == PgRoundUp(PgOfs(ph.vaddr) + ph.memsz)
  {
    var po := PgOfs(ph.vaddr);
    assert po + ph.memsz < PHYS_BASE;
    assert PgRoundUp32(Wrap32(po + ph.memsz)) == PgRoundUp(po + ph.memsz);
  }

  /** The pages a valid segment spans lie between page 1 and PHYS_BASE. */
  lemma PlanFits(ph: Phdr, fileLength: nat)
    requires ValidateSegment(ph, fileLength)
    ensures PgRoundDown(ph.vaddr) + PgRoundUp(PgOfs(ph.vaddr) + ph.memsz) <= PHYS_BASE
  {
    var memPage := PgRoundDown(ph.vaddr);
    var total := PgRoundUp(PgOfs(ph.vaddr) + ph.memsz);
    assert memPage + PgOfs(ph.vaddr) == ph.vaddr;
    // memPage + total is a multiple of PGSIZE below PHYS_BASE + PGSIZE.
    var q := (memPage + total) / PGSIZE;
    assert memPage + total == q * PGSIZE;
    assert q * PGSIZE < PHYS_BASE + PGSIZE;
    assert q <= PHYS_BASE / PGSIZE;
  }
}

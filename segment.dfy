/**
 * load_segment: brings one loadable segment into the address space page by
 * page. Each page gets a fresh frame, is filled with up to PGSIZE bytes of
 * the file followed by zeros, and is installed at the next user page.
 */
module Segment {
  import opened Bytes
  import opened Vaddr
  import opened PageDir

  function Min(a: nat, b: nat): (r: nat)
    ensures r <= a && r <= b && (r == a || r == b)
  {
    if a < b then a else b
  }

  /** file_read of n bytes at position pos returns fewer than n bytes. */
  predicate ShortRead(file: seq<byte>, pos: nat, n: nat) {
    n > 0 && pos + n > |file|
  }

  /** A page filled with n bytes of the file read at pos and zeroed after them. */
  function PageImage(file: seq<byte>, pos: nat, n: nat): (r: seq<byte>)
    requires n <= PGSIZE && !ShortRead(file, pos, n)
    ensures |r| == PGSIZE
  {
    if n == 0 then Zeros(PGSIZE) else file[pos..pos + n] + Zeros(PGSIZE - n)
  }

  lemma PageImageContents(file: seq<byte>, pos: nat, n: nat)
    requires n <= PGSIZE && !ShortRead(file, pos, n)
    ensures forall i :: 0 <= i < n ==> PageImage(file, pos, n)[i] == file[pos + i]
    ensures forall i :: n <= i < PGSIZE ==> PageImage(file, pos, n)[i] == 0
  {
  }

  /** The address space after one page has been filled from the file and installed at upage. */
  function NextMem(m: Mem, file: seq<byte>, pos: nat, upage: nat, pageRead: nat, writable: bool): Mem
    requires m.pool != [] && pageRead <= PGSIZE && !ShortRead(file, pos, pageRead)
  {
    Mem(m.pagedir[upage := Mapping(m.pool[0], writable)],
        m.frames[m.pool[0] := PageImage(file, pos, pageRead)],
        m.pool[1..])
  }

  /** A step keeps the address space valid and extends it. */
  lemma NextMemExtends(m: Mem, file: seq<byte>, pos: nat, upage: nat, pageRead: nat, writable: bool)
    requires MemValid(m) && pageRead <= PGSIZE && StepOk(m, file, pos, upage, pageRead)
    ensures MemValid(NextMem(m, file, pos, upage, pageRead, writable))
    ensures Extends(m, NextMem(m, file, pos, upage, pageRead, writable))
  {
  }

  /** Whether the page of this step can be brought in: a frame is free, the read is full, the page is unmapped. */
  predicate StepOk(m: Mem, file: seq<byte>, pos: nat, upage: nat, pageRead: nat) {
    m.pool != [] && !ShortRead(file, pos, pageRead) && upage !in m.pagedir
  }

  /**
   * The effect of load_segment on an address space when the segment covers
   * `pages` pages, of which the first readBytes bytes come from the file at
   * pos: the resulting address space and whether every page was brought in.
   * It stops at the first page for which no frame is free, the file read
   * comes back short, or the user page is already mapped; the frame taken
   * for that page goes back to the pool, and the pages installed before it
   * stay mapped.
   */
  function SegmentSpec(m: Mem, file: seq<byte>, pos: nat, upage: nat, readBytes: nat, pages: nat, writable: bool): (r: (Mem, bool))
    decreases pages
  {
    if pages == 0 then (m, true)
    else
      var pageRead := Min(readBytes, PGSIZE);
      if !StepOk(m, file, pos, upage, Min(readBytes, PGSIZE)) then (m, false)
      else
        SegmentSpec(NextMem(m, file, pos, upage, pageRead, writable), file, pos + pageRead, upage + PGSIZE,
                    readBytes - pageRead, pages - 1, writable)
  }

  /** The number of file bytes that go into page k of a segment. */
  function PageReadBytes(readBytes: nat, k: nat): (n: nat)
    ensures n <= PGSIZE
    ensures n > 0 ==> k * PGSIZE + n <= readBytes
  {
    if readBytes <= k * PGSIZE then 0 else Min(readBytes - k * PGSIZE, PGSIZE)
  }

  /** All the file bytes of a segment can be read. */
  predicate ReadFits(file: seq<byte>, pos: nat, readBytes: nat) {
    readBytes == 0 || pos + readBytes <= |file|
  }

  /** The contents of page k of a segment whose file bytes start at pos. */
  function SegmentPage(file: seq<byte>, pos: nat, readBytes: nat, k: nat): (r: seq<byte>)
    requires ReadFits(file, pos, readBytes)
    ensures |r| == PGSIZE
  {
    PageImage(file, pos + k * PGSIZE, PageReadBytes(readBytes, k))
  }

  /**
   * Byte i of page k of a segment is byte k * PGSIZE + i of its file part
   * while that is below readBytes, and zero after it.
   */
  lemma SegmentPageContents(file: seq<byte>, pos: nat, readBytes: nat, k: nat)
    requires ReadFits(file, pos, readBytes)
    ensures forall i :: 0 <= i < PGSIZE && k * PGSIZE + i < readBytes ==>
      SegmentPage(file, pos, readBytes, k)[i] == file[pos + k * PGSIZE + i]
    ensures forall i :: 0 <= i < PGSIZE && k * PGSIZE + i >= readBytes ==> SegmentPage(file, pos, readBytes, k)[i] == 0
  {
    PageImageContents(file, pos + k * PGSIZE, PageReadBytes(readBytes, k));
  }

  lemma SegmentPageStep(file: seq<byte>, pos: nat, readBytes: nat, k: nat)
    requires ReadFits(file, pos, readBytes)
    ensures ReadFits(file, pos + Min(readBytes, PGSIZE), readBytes - Min(readBytes, PGSIZE))
    ensures SegmentPage(file, pos + Min(readBytes, PGSIZE), readBytes - Min(readBytes, PGSIZE), k)
         == SegmentPage(file, pos, readBytes, k + 1)
  {
  }

  /** One successful step of SegmentSpec: the next page is brought in and the rest of the segment follows. */
  lemma SegmentSpecUnfold(m: Mem, file: seq<byte>, pos: nat, upage: nat, readBytes: nat, pages: nat, writable: bool)
    requires pages > 0 && SegmentSpec(m, file, pos, upage, readBytes, pages, writable).1
    ensures StepOk(m, file, pos, upage, Min(readBytes, PGSIZE))
    ensures SegmentSpec(m, file, pos, upage, readBytes, pages, writable)
         == SegmentSpec(NextMem(m, file, pos, upage, Min(readBytes, PGSIZE), writable), file,
                        pos + Min(readBytes, PGSIZE), upage + PGSIZE,
                        readBytes - Min(readBytes, PGSIZE), pages - 1, writable)
  {
  }

  /**
   * A successful load_segment of n pages takes exactly n frames, the next
   * ones of the free pool, and all the file bytes it needs could be read.
   */
  lemma {:induction false} SuccessUsesFrames(m: Mem, file: seq<byte>, pos: nat, upage: nat, readBytes: nat, pages: nat, writable: bool)
    requires readBytes <= pages * PGSIZE
    requires SegmentSpec(m, file, pos, upage, readBytes, pages, writable).1
    ensures pages <= |m.pool|
    ensures SegmentSpec(m, file, pos, upage, readBytes, pages, writable).0.pool == m.pool[pages..]
    ensures ReadFits(file, pos, readBytes)
    decreases pages
  {
    if pages > 0 {
      SegmentSpecUnfold(m, file, pos, upage, readBytes, pages, writable);
      var pageRead := Min(readBytes, PGSIZE);
      SuccessUsesFrames(NextMem(m, file, pos, upage, pageRead, writable), file, pos + pageRead, upage + PGSIZE,
                        readBytes - pageRead, pages - 1, writable);
      assert m.pool[1..][pages - 1..] == m.pool[pages..];
    }
  }

  /** A successful load_segment of n pages adds exactly n mappings. */
  lemma {:induction false} SuccessAddsPages(m: Mem, file: seq<byte>, pos: nat, upage: nat, readBytes: nat, pages: nat, writable: bool)
    requires SegmentSpec(m, file, pos, upage, readBytes, pages, writable).1
    ensures |SegmentSpec(m, file, pos, upage, readBytes, pages, writable).0.pagedir| == |m.pagedir| + pages
    decreases pages
  {
    if pages > 0 {
      SegmentSpecUnfold(m, file, pos, upage, readBytes, pages, writable);
      var pageRead := Min(readBytes, PGSIZE);
      var next := NextMem(m, file, pos, upage, pageRead, writable);
      assert |next.pagedir| == |m.pagedir| + 1;
      SuccessAddsPages(next, file, pos + pageRead, upage + PGSIZE, readBytes - pageRead, pages - 1, writable);
    }
  }

  /** The pages a successful load_segment installs were none of them mapped before. */
  lemma {:induction false} SuccessFreshPages(m: Mem, file: seq<byte>, pos: nat, upage: nat, readBytes: nat, pages: nat, writable: bool)
    requires SegmentSpec(m, file, pos, upage, readBytes, pages, writable).1
    ensures forall k :: 0 <= k < pages ==> upage + k * PGSIZE !in m.pagedir
    decreases pages
  {
    if pages > 0 {
      SegmentSpecUnfold(m, file, pos, upage, readBytes, pages, writable);
      var pageRead := Min(readBytes, PGSIZE);
      var next := NextMem(m, file, pos, upage, pageRead, writable);
      SuccessFreshPages(next, file, pos + pageRead, upage + PGSIZE, readBytes - pageRead, pages - 1, writable);
      forall k | 0 < k < pages
        ensures upage + k * PGSIZE !in m.pagedir
      {
        assert upage + k * PGSIZE == (upage + PGSIZE) + (k - 1) * PGSIZE;
      }
    }
  }

  /**
   * Page k of a successful load_segment maps to frame k of the free pool,
   * with the segment's writable bit, and the frame holds the k-th page of
   * the segment: the file bytes that fall into it, then zeros.
   */
  lemma {:induction false} SuccessFillsPage(m: Mem, file: seq<byte>, pos: nat, upage: nat, readBytes: nat, pages: nat, writable: bool, k: nat)
    requires MemValid(m)
    requires readBytes <= pages * PGSIZE && k < pages
    requires SegmentSpec(m, file, pos, upage, readBytes, pages, writable).1
    ensures ReadFits(file, pos, readBytes) && pages <= |m.pool|
    ensures var m' := SegmentSpec(m, file, pos, upage, readBytes, pages, writable).0;
      && upage + k * PGSIZE in m'.pagedir
      && m'.pagedir[upage + k * PGSIZE].kpage == m.pool[k]
      && PageResident(m', upage + k * PGSIZE, writable, SegmentPage(file, pos, readBytes, k))
    decreases k, 1
  {
    SuccessUsesFrames(m, file, pos, upage, readBytes, pages, writable);
    if k == 0 {
      SuccessFillsFirstPage(m, file, pos, upage, readBytes, pages, writable);
    } else {
      SuccessFillsLaterPage(m, file, pos, upage, readBytes, pages, writable, k);
    }
  }

  /** Page k > 0 of a successful load_segment is page k - 1 of the rest after the first step. */
  lemma {:induction false} SuccessFillsLaterPage(m: Mem, file: seq<byte>, pos: nat, upage: nat, readBytes: nat, pages: nat, writable: bool, k: nat)
    requires MemValid(m) && ReadFits(file, pos, readBytes) && pages <= |m.pool|
    requires readBytes <= pages * PGSIZE && 0 < k < pages
    requires SegmentSpec(m, file, pos, upage, readBytes, pages, writable).1
    ensures var m' := SegmentSpec(m, file, pos, upage, readBytes, pages, writable).0;
      && upage + k * PGSIZE in m'.pagedir
      && m'.pagedir[upage + k * PGSIZE].kpage == m.pool[k]
      && PageResident(m', upage + k * PGSIZE, writable, SegmentPage(file, pos, readBytes, k))
    decreases k, 0
  {
    SegmentSpecUnfold(m, file, pos, upage, readBytes, pages, writable);
    var pageRead := Min(readBytes, PGSIZE);
    var next := NextMem(m, file, pos, upage, pageRead, writable);
    NextMemExtends(m, file, pos, upage, pageRead, writable);
    SuccessFillsPage(next, file, pos + pageRead, upage + PGSIZE, readBytes - pageRead, pages - 1, writable, k - 1);
    SegmentPageStep(file, pos, readBytes, k - 1);
    assert (upage + PGSIZE) + (k - 1) * PGSIZE == upage + k * PGSIZE;
    assert next.pool[k - 1] == m.pool[k];
  }

  /** The page a step installs holds page 0 of the rest of the segment. */
  lemma NextMemResident(m: Mem, file: seq<byte>, pos: nat, upage: nat, readBytes: nat, writable: bool)
    requires ReadFits(file, pos, readBytes) && StepOk(m, file, pos, upage, Min(readBytes, PGSIZE))
    ensures var next := NextMem(m, file, pos, upage, Min(readBytes, PGSIZE), writable);
      && next.pagedir[upage].kpage == m.pool[0]
      && PageResident(next, upage, writable, SegmentPage(file, pos, readBytes, 0))
  {
    assert PageReadBytes(readBytes, 0) == Min(readBytes, PGSIZE);
  }

  /** What a successful load_segment leaves behind extends the address space after its first step. */
  lemma SuccessExtendsFirstStep(m: Mem, file: seq<byte>, pos: nat, upage: nat, readBytes: nat, pages: nat, writable: bool)
    requires MemValid(m)
    requires pages > 0 && SegmentSpec(m, file, pos, upage, readBytes, pages, writable).1
    ensures StepOk(m, file, pos, upage, Min(readBytes, PGSIZE))
    ensures Extends(NextMem(m, file, pos, upage, Min(readBytes, PGSIZE), writable),
                    SegmentSpec(m, file, pos, upage, readBytes, pages, writable).0)
  {
    SegmentSpecUnfold(m, file, pos, upage, readBytes, pages, writable);
    var pageRead := Min(readBytes, PGSIZE);
    NextMemExtends(m, file, pos, upage, pageRead, writable);
    SegmentSpecExtends(NextMem(m, file, pos, upage, pageRead, writable), file, pos + pageRead, upage + PGSIZE,
                       readBytes - pageRead, pages - 1, writable);
  }

  /** The first page of a successful load_segment is installed by its first step and stays resident. */
  lemma SuccessFillsFirstPage(m: Mem, file: seq<byte>, pos: nat, upage: nat, readBytes: nat, pages: nat, writable: bool)
    requires MemValid(m) && ReadFits(file, pos, readBytes)
    requires pages > 0 && SegmentSpec(m, file, pos, upage, readBytes, pages, writable).1
    ensures var m' := SegmentSpec(m, file, pos, upage, readBytes, pages, writable).0;
      && m.pool != []
      && upage in m'.pagedir
      && m'.pagedir[upage].kpage == m.pool[0]
      && PageResident(m', upage, writable, SegmentPage(file, pos, readBytes, 0))
  {
    SuccessExtendsFirstStep(m, file, pos, upage, readBytes, pages, writable);
    NextMemResident(m, file, pos, upage, readBytes, writable);
    ExtendsKeepsResident(NextMem(m, file, pos, upage, Min(readBytes, PGSIZE), writable),
                         SegmentSpec(m, file, pos, upage, readBytes, pages, writable).0,
                         upage, writable, SegmentPage(file, pos, readBytes, 0));
  }

  /**
   * Conversely, load_segment succeeds when enough frames are free, all the
   * file bytes can be read, and none of the pages it will use is mapped yet.
   */
  lemma {:induction false} SegmentSpecSucceeds(m: Mem, file: seq<byte>, pos: nat, upage: nat, readBytes: nat, pages: nat, writable: bool)
    requires pages <= |m.pool|
    requires ReadFits(file, pos, readBytes)
    requires forall k :: 0 <= k < pages ==> upage + k * PGSIZE !in m.pagedir
    ensures SegmentSpec(m, file, pos, upage, readBytes, pages, writable).1
    decreases pages
  {
    if pages > 0 {
      var pageRead := Min(readBytes, PGSIZE);
      var next := NextMem(m, file, pos, upage, pageRead, writable);
      assert upage + 0 * PGSIZE == upage;
      forall k | 0 <= k < pages - 1
        ensures (upage + PGSIZE) + k * PGSIZE !in next.pagedir
      {
        assert (upage + PGSIZE) + k * PGSIZE == upage + (k + 1) * PGSIZE;
      }
      SegmentSpecSucceeds(next, file, pos + pageRead, upage + PGSIZE, readBytes - pageRead, pages - 1, writable);
    }
  }

  /** load_segment keeps the address space valid and never takes back or rewrites a mapping, whatever its outcome. */
  lemma {:induction false} SegmentSpecExtends(m: Mem, file: seq<byte>, pos: nat, upage: nat, readBytes: nat, pages: nat, writable: bool)
    requires MemValid(m)
    ensures MemValid(SegmentSpec(m, file, pos, upage, readBytes, pages, writable).0)
    ensures Extends(m, SegmentSpec(m, file, pos, upage, readBytes, pages, writable).0)
    decreases pages
  {
    if pages > 0 && StepOk(m, file, pos, upage, Min(readBytes, PGSIZE)) {
      var pageRead := Min(readBytes, PGSIZE);
      var next := NextMem(m, file, pos, upage, pageRead, writable);
      NextMemExtends(m, file, pos, upage, pageRead, writable);
      SegmentSpecExtends(next, file, pos + pageRead, upage + PGSIZE, readBytes - pageRead, pages - 1, writable);
    }
  }

  /**
   * One iteration of the load_segment loop: takes a frame, reads pageRead
   * bytes of the file at pos into it and zeroes the rest, and installs it at
   * upage. On failure the frame goes back to the pool and nothing changes.
   */
  method LoadPage(space: AddressSpace, file: seq<byte>, pos: nat, upage: nat, pageRead: nat, writable: bool)
    returns (ok: bool)
    requires space.Valid() && pageRead <= PGSIZE
    modifies space
    ensures space.Valid()
    ensures ok == StepOk(old(space.State()), file, pos, upage, pageRead)
    ensures ok ==> space.State() == NextMem(old(space.State()), file, pos, upage, pageRead, writable)
    ensures !ok ==> space.State() == old(space.State())
  {
    ghost var before := space.State();
    var kpage := space.AllocPage();
    if kpage.None? {
      return false;
    }
    if ShortRead(file, pos, pageRead) {
      space.FreePage(kpage.value);
      assert space.frames == before.frames;
      return false;
    }
    space.FillPage(kpage.value, PageImage(file, pos, pageRead));
    ok := space.InstallOrFree(upage, kpage.value, writable);
    if !ok {
      assert space.frames == before.frames;
    }
  }

  /**
   * load_segment (file, ofs, upage, read_bytes, zero_bytes, writable): the
   * loop of the C code, one page per iteration, returning false at the first
   * failure. Proved to have exactly the effect SegmentSpec describes for the
   * (read_bytes + zero_bytes) / PGSIZE pages of the segment.
   */
  method LoadSegment(space: AddressSpace, file: seq<byte>, ofs: nat, upage: u32, readBytes: u32, zeroBytes: u32, writable: bool)
    returns (ok: bool)
    requires space.Valid()
    requires (readBytes + zeroBytes) % PGSIZE == 0
    requires upage % PGSIZE == 0 && ofs % PGSIZE == 0
    modifies space
    ensures space.Valid()
    ensures (space.State(), ok)
         == SegmentSpec(old(space.State()), file, ofs, upage, readBytes, (readBytes + zeroBytes) / PGSIZE, writable)
  {
    var pos: nat := ofs;
    var up: nat := upage;
    var rb: nat, zb: nat := readBytes, zeroBytes;
    ghost var pages: nat := (readBytes + zeroBytes) / PGSIZE;
    while rb > 0 || zb > 0
      invariant space.Valid()
      invariant rb + zb == pages * PGSIZE
      invariant SegmentSpec(space.State(), file, pos, up, rb, pages, writable)
             == SegmentSpec(old(space.State()), file, ofs, upage, readBytes, (readBytes + zeroBytes) / PGSIZE, writable)
      decreases pages
    {
      var pageRead := if rb < PGSIZE then rb else PGSIZE;
      var pageZero := PGSIZE - pageRead;
      var loaded := LoadPage(space, file, pos, up, pageRead, writable);
      if !loaded {
        return false;
      }
      pos := pos + pageRead;
      rb, zb := rb - pageRead, zb - pageZero;
      up := up + PGSIZE;
      pages := pages - 1;
    }
    return true;
  }
}

/**
 * load: opens the executable named by the first word of the command line,
 * checks its ELF header, walks its program headers loading every PT_LOAD
 * segment, and finally builds the initial user stack. On success the
 * entry point is e_entry. Every failure abandons the load where it
 * happens; what was mapped before stays mapped.
 */
module Loader {
  import opened Wrappers
  import opened Bytes
  import opened Vaddr
  import opened Elf
  import opened PageDir
  import opened Segment
  import opened Strtok
  import opened Stack

  /** The file system as load sees it: file names to file contents. */
  type FileSys = map<seq<byte>, seq<byte>>

  /** The contents of the executable named by the first word of the command line, if it exists. */
  function ProgramOf(fs: FileSys, cmdline: seq<byte>): Option<seq<byte>> {
    if Tokens(cmdline) != [] && Tokens(cmdline)[0] in fs then Some(fs[Tokens(cmdline)[0]]) else None
  }

  /** The program header at index i, read at e_phoff + 32 i. */
  function HeaderAt(file: seq<byte>, e: Ehdr, i: nat): (r: Option<Phdr>)
    ensures e.phoff < 0x8000_0000 ==>
      (r.Some? <==> e.phoff + PHDR_SIZE * i + PHDR_SIZE <= |file|)
  {
    ReadPhdr(file, PhdrOffset(e, i))
  }

  /** The number of pages load_segment brings in for a plan. */
  function PlanPages(p: SegmentPlan): nat {
    (p.readBytes + p.zeroBytes) / PGSIZE
  }

  /**
   * What load_segment needs of its arguments: page-aligned offset and
   * address, a whole number of pages, and the read part within them.
   */
  predicate PlanSound(p: SegmentPlan) {
    p.filePage % PGSIZE == 0 && p.memPage % PGSIZE == 0
    && (p.readBytes + p.zeroBytes) % PGSIZE == 0
    && p.readBytes <= PlanPages(p) * PGSIZE
  }

  /** What load does about one program header. */
  datatype Action =
    | Skip                        // an ignored type: go on with the next header
    | Fail                        // goto done
    | LoadPlan(plan: SegmentPlan) // load_segment with these arguments, then go on

  /** Whether a header lets the scan go on: it was read in full, its type is supported, and a PT_LOAD is valid. */
  predicate Accepted(ph: Option<Phdr>, fileLength: nat) {
    ph.Some? && Classify(ph.value.ptype) != Unsupported
    && (Classify(ph.value.ptype) == Loadable ==> ValidateSegment(ph.value, fileLength))
  }

  /**
   * The switch on p_type for the header read at some index (None when the
   * read failed or came back short).
   */
  function ActionOf(ph: Option<Phdr>, fileLength: nat): (a: Action)
    ensures a == Fail <==> !Accepted(ph, fileLength)
    ensures a.LoadPlan? <==> ph.Some? && Classify(ph.value.ptype) == Loadable && ValidateSegment(ph.value, fileLength)
    ensures a.LoadPlan? ==> a.plan == PlanSegment(ph.value) && PlanSound(a.plan)
  {
    match ph
    case None => Fail
    case Some(h) =>
      match Classify(h.ptype)
      case Ignored => Skip
      case Unsupported => Fail
      case Loadable =>
        if !ValidateSegment(h, fileLength) then Fail
        else
          PlanOfValidSegment(h, fileLength);
          LoadPlan(PlanSegment(h))
  }

  /**
   * The pages a PT_LOAD segment is loaded into lie in user memory above
   * page 0, and together they cover [p_vaddr, p_vaddr + p_memsz).
   */
  lemma LoadPlanInUserMemory(ph: Phdr, fileLength: nat)
    requires ActionOf(Some(ph), fileLength).LoadPlan?
    ensures var p := ActionOf(Some(ph), fileLength).plan;
      && PGSIZE <= p.memPage
      && p.memPage + PlanPages(p) * PGSIZE <= PHYS_BASE
      && p.memPage <= ph.vaddr
      && ph.vaddr + ph.memsz <= p.memPage + PlanPages(p) * PGSIZE
  {
    PlanOfValidSegment(ph, fileLength);
  }

  /** What load does about program headers 0 .. e_phnum - 1. */
  function Actions(file: seq<byte>, e: Ehdr): (acts: seq<Action>)
    ensures |acts| == e.phnum && forall i :: 0 <= i < e.phnum ==> acts[i] == ActionOf(HeaderAt(file, e, i), |file|)
  {
    seq(e.phnum, i requires 0 <= i => ActionOf(HeaderAt(file, e, i), |file|))
  }

  /** One pass of the loop over the program headers: the new address space and whether the scan goes on. */
  function HeaderStep(m: Mem, file: seq<byte>, a: Action): (r: (Mem, bool))
  {
    match a
    case Skip => (m, true)
    case Fail => (m, false)
    case LoadPlan(p) => SegmentSpec(m, file, p.filePage, p.memPage, p.readBytes, PlanPages(p), p.writable)
  }

  /** The loop over the program headers, in order, stopping at the first failure. */
  function ScanSpec(m: Mem, file: seq<byte>, acts: seq<Action>): (r: (Mem, bool))
    decreases |acts|
  {
    if acts == [] then (m, true)
    else
      var step := HeaderStep(m, file, acts[0]);
      if !step.1 then (step.0, false) else ScanSpec(step.0, file, acts[1..])
  }

  /** A scan that gets past its first header goes on from the state that header left. */
  lemma ScanUnfold(m: Mem, file: seq<byte>, acts: seq<Action>)
    requires acts != [] && ScanSpec(m, file, acts).1
    ensures HeaderStep(m, file, acts[0]).1
    ensures ScanSpec(m, file, acts) == ScanSpec(HeaderStep(m, file, acts[0]).0, file, acts[1..])
  {
  }

  /** A step of the scan keeps the address space valid and keeps every earlier mapping; Fail changes nothing. */
  lemma HeaderStepExtends(m: Mem, file: seq<byte>, a: Action)
    requires MemValid(m)
    ensures MemValid(HeaderStep(m, file, a).0) && Extends(m, HeaderStep(m, file, a).0)
    ensures a == Fail ==> !HeaderStep(m, file, a).1
  {
    if a.LoadPlan? {
      var p := a.plan;
      SegmentSpecExtends(m, file, p.filePage, p.memPage, p.readBytes, PlanPages(p), p.writable);
    }
  }

  /** The whole scan keeps the address space valid and keeps every earlier mapping, also when it fails. */
  lemma {:induction false} ScanExtends(m: Mem, file: seq<byte>, acts: seq<Action>)
    requires MemValid(m)
    ensures MemValid(ScanSpec(m, file, acts).0) && Extends(m, ScanSpec(m, file, acts).0)
    decreases |acts|
  {
    if acts != [] {
      var step := HeaderStep(m, file, acts[0]);
      HeaderStepExtends(m, file, acts[0]);
      if step.1 {
        ScanExtends(step.0, file, acts[1..]);
        ExtendsTransitive(m, step.0, ScanSpec(step.0, file, acts[1..]).0);
      }
    }
  }

  /** A scan that succeeds met no Fail: every header it went through was accepted. */
  lemma {:induction false} ScanAccepts(m: Mem, file: seq<byte>, acts: seq<Action>)
    requires ScanSpec(m, file, acts).1
    ensures forall j :: 0 <= j < |acts| ==> acts[j] != Fail
    decreases |acts|
  {
    if acts != [] {
      ScanUnfold(m, file, acts);
      ScanAccepts(HeaderStep(m, file, acts[0]).0, file, acts[1..]);
      forall j | 0 < j < |acts|
        ensures acts[j] != Fail
      {
        assert acts[j] == acts[1..][j - 1];
      }
    }
  }

  /**
   * After a successful scan, page k of the segment loaded for header j is
   * mapped at mem_page + k PGSIZE with the segment's writable bit, and its
   * frame holds the file bytes of that page followed by zeros.
   */
  lemma {:induction false} ScanLoadsSegment(m: Mem, file: seq<byte>, acts: seq<Action>, j: nat, k: nat)
    requires MemValid(m) && j < |acts| && ScanSpec(m, file, acts).1
    requires acts[j].LoadPlan? && PlanSound(acts[j].plan) && k < PlanPages(acts[j].plan)
    ensures var p := acts[j].plan;
      && ReadFits(file, p.filePage, p.readBytes)
      && PageResident(ScanSpec(m, file, acts).0, p.memPage + k * PGSIZE, p.writable, SegmentPage(file, p.filePage, p.readBytes, k))
    decreases j
  {
    ScanUnfold(m, file, acts);
    HeaderStepExtends(m, file, acts[0]);
    var m' := HeaderStep(m, file, acts[0]).0;
    if j == 0 {
      var p := acts[0].plan;
      SuccessFillsPage(m, file, p.filePage, p.memPage, p.readBytes, PlanPages(p), p.writable, k);
      ScanExtends(m', file, acts[1..]);
      ExtendsKeepsResident(m', ScanSpec(m', file, acts[1..]).0, p.memPage + k * PGSIZE, p.writable,
                           SegmentPage(file, p.filePage, p.readBytes, k));
    } else {
      assert acts[1..][j - 1] == acts[j];
      ScanLoadsSegment(m', file, acts[1..], j - 1, k);
    }
  }

  /**
   * The effect of load on the process's address space for a command line
   * whose first word names the executable, and whether it succeeded.
   */
  ghost function LoadSpec(m: Mem, fs: FileSys, cmdline: seq<byte>): (Mem, bool)
    requires StackFits(Tokens(cmdline))
  {
    match ProgramOf(fs, cmdline)
    case None => (m, false)
    case Some(file) =>
      match ReadHeader(file)
      case None => (m, false)
      case Some(e) =>
        var scan := ScanSpec(m, file, Actions(file, e));
        if !scan.1 then (scan.0, false) else SetupStackSpec(scan.0, Tokens(cmdline))
  }

  /**
   * What load promises: the address space stays valid and no mapping is
   * lost; and a successful load found the executable, accepted its ELF
   * header and every program header, and left the stack page resident and
   * writable with the argument block laid out below PHYS_BASE.
   */
  lemma LoadSpecFacts(m: Mem, fs: FileSys, cmdline: seq<byte>)
    requires MemValid(m) && StackFits(Tokens(cmdline))
    ensures MemValid(LoadSpec(m, fs, cmdline).0) && Extends(m, LoadSpec(m, fs, cmdline).0)
    ensures LoadSpec(m, fs, cmdline).1 ==>
      && Tokens(cmdline) != [] && Tokens(cmdline)[0] in fs
      && var file := fs[Tokens(cmdline)[0]];
      && ReadHeader(file).Some?
      && (forall j :: 0 <= j < ReadHeader(file).value.phnum ==> Accepted(HeaderAt(file, ReadHeader(file).value, j), |file|))
      && var image := StackImage(Zeros(PGSIZE), Tokens(cmdline));
      && PageResident(LoadSpec(m, fs, cmdline).0, STACK_PAGE, true, image)
      && StackLayout(image, PHYS_BASE - StackSize(Tokens(cmdline)), Tokens(cmdline))
  {
    var prog := ProgramOf(fs, cmdline);
    if prog.Some? && ReadHeader(prog.value).Some? {
      var file, e := prog.value, ReadHeader(prog.value).value;
      LoadSpecUnfold(m, fs, cmdline, file, e);
      ScanThenStackFacts(m, file, e, Tokens(cmdline));
    }
  }

  /** The scan of an accepted executable followed by setup_stack: LoadSpecFacts once the header is known. */
  lemma ScanThenStackFacts(m: Mem, file: seq<byte>, e: Ehdr, toks: seq<seq<byte>>)
    requires MemValid(m) && StackFits(toks)
    ensures MemValid(ScanSpec(m, file, Actions(file, e)).0) && Extends(m, ScanSpec(m, file, Actions(file, e)).0)
    ensures ScanSpec(m, file, Actions(file, e)).1 ==>
      var r := SetupStackSpec(ScanSpec(m, file, Actions(file, e)).0, toks);
      && MemValid(r.0) && Extends(m, r.0)
      && (forall j :: 0 <= j < e.phnum ==> Accepted(HeaderAt(file, e, j), |file|))
      && (r.1 ==> PageResident(r.0, STACK_PAGE, true, StackImage(Zeros(PGSIZE), toks)))
      && (r.1 ==> StackLayout(StackImage(Zeros(PGSIZE), toks), PHYS_BASE - StackSize(toks), toks))
  {
    var acts := Actions(file, e);
    ScanExtends(m, file, acts);
    var m' := ScanSpec(m, file, acts).0;
    if ScanSpec(m, file, acts).1 {
      ScanAccepts(m, file, acts);
      SetupStackSpecFacts(m', toks);
      ExtendsTransitive(m, m', SetupStackSpec(m', toks).0);
    }
  }

  /**
   * A successful load leaves page k of every PT_LOAD segment of the
   * executable resident with the segment's bytes: the file from the
   * page-aligned p_offset on, then zeros.
   */
  lemma LoadedSegmentResident(m: Mem, fs: FileSys, cmdline: seq<byte>, file: seq<byte>, e: Ehdr, j: nat, k: nat)
    requires MemValid(m) && StackFits(Tokens(cmdline)) && LoadSpec(m, fs, cmdline).1
    requires ProgramOf(fs, cmdline) == Some(file) && ReadHeader(file) == Some(e)
    requires j < e.phnum && HeaderAt(file, e, j).Some? && Classify(HeaderAt(file, e, j).value.ptype) == Loadable
    requires k < PlanPages(PlanSegment(HeaderAt(file, e, j).value))
    ensures var p := PlanSegment(HeaderAt(file, e, j).value);
      && ReadFits(file, p.filePage, p.readBytes)
      && PageResident(LoadSpec(m, fs, cmdline).0, p.memPage + k * PGSIZE, p.writable, SegmentPage(file, p.filePage, p.readBytes, k))
  {
    LoadSpecUnfold(m, fs, cmdline, file, e);
    HeaderThenStackKeepsSegment(m, file, e, Tokens(cmdline), j, k);
  }

  /** How load goes on once the executable was found and its header accepted. */
  lemma LoadSpecUnfold(m: Mem, fs: FileSys, cmdline: seq<byte>, file: seq<byte>, e: Ehdr)
    requires StackFits(Tokens(cmdline))
    requires ProgramOf(fs, cmdline) == Some(file) && ReadHeader(file) == Some(e)
    ensures !ScanSpec(m, file, Actions(file, e)).1 ==> LoadSpec(m, fs, cmdline) == (ScanSpec(m, file, Actions(file, e)).0, false)
    ensures ScanSpec(m, file, Actions(file, e)).1 ==>
      LoadSpec(m, fs, cmdline) == SetupStackSpec(ScanSpec(m, file, Actions(file, e)).0, Tokens(cmdline))
  {
  }

  /** The segment of PT_LOAD header j stays resident through the rest of the scan and the stack setup. */
  lemma HeaderThenStackKeepsSegment(m: Mem, file: seq<byte>, e: Ehdr, toks: seq<seq<byte>>, j: nat, k: nat)
    requires MemValid(m) && StackFits(toks) && j < e.phnum && ScanSpec(m, file, Actions(file, e)).1
    requires HeaderAt(file, e, j).Some? && Classify(HeaderAt(file, e, j).value.ptype) == Loadable
    requires k < PlanPages(PlanSegment(HeaderAt(file, e, j).value))
    ensures var p := PlanSegment(HeaderAt(file, e, j).value);
      && ReadFits(file, p.filePage, p.readBytes)
      && PageResident(SetupStackSpec(ScanSpec(m, file, Actions(file, e)).0, toks).0, p.memPage + k * PGSIZE, p.writable,
                      SegmentPage(file, p.filePage, p.readBytes, k))
  {
    var acts := Actions(file, e);
    var ph := HeaderAt(file, e, j).value;
    ScanAccepts(m, file, acts);
    assert acts[j] == ActionOf(Some(ph), |file|) != Fail;
    LoadableAction(ph, |file|);
    ScanThenStackKeepsSegment(m, file, acts, toks, j, k);
  }

  /** An accepted PT_LOAD header is loaded with the plan computed from it. */
  lemma LoadableAction(ph: Phdr, fileLength: nat)
    requires Classify(ph.ptype) == Loadable && ActionOf(Some(ph), fileLength) != Fail
    ensures ActionOf(Some(ph), fileLength) == LoadPlan(PlanSegment(ph))
  {
  }

  /** Setting up the stack after a successful scan keeps the loaded segments resident. */
  lemma ScanThenStackKeepsSegment(m: Mem, file: seq<byte>, acts: seq<Action>, toks: seq<seq<byte>>, j: nat, k: nat)
    requires MemValid(m) && StackFits(toks) && j < |acts| && ScanSpec(m, file, acts).1
    requires acts[j].LoadPlan? && PlanSound(acts[j].plan) && k < PlanPages(acts[j].plan)
    ensures var p := acts[j].plan;
      && ReadFits(file, p.filePage, p.readBytes)
      && PageResident(SetupStackSpec(ScanSpec(m, file, acts).0, toks).0, p.memPage + k * PGSIZE, p.writable,
                      SegmentPage(file, p.filePage, p.readBytes, k))
  {
    var p := acts[j].plan;
    var m' := ScanSpec(m, file, acts).0;
    ScanLoadsSegment(m, file, acts, j, k);
    ScanExtends(m, file, acts);
    SetupStackSpecFacts(m', toks);
    ExtendsKeepsResident(m', SetupStackSpec(m', toks).0, p.memPage + k * PGSIZE, p.writable,
                         SegmentPage(file, p.filePage, p.readBytes, k));
  }

  /** The body of the program-header loop: the switch on p_type for the header just read, or the failed read. */
  method LoadHeader(space: AddressSpace, file: seq<byte>, ph: Option<Phdr>) returns (go: bool)
    requires space.Valid()
    modifies space
    ensures space.Valid()
    ensures (space.State(), go) == HeaderStep(old(space.State()), file, ActionOf(ph, |file|))
  {
    var action := ActionOf(ph, |file|);
    match action
    case Skip =>
      go := true;
    case Fail =>
      go := false;
    case LoadPlan(p) =>
      go := LoadSegment(space, file, p.filePage, p.memPage, p.readBytes, p.zeroBytes, p.writable);
  }

  /**
   * The loop over the program headers: file_ofs starts at e_phoff, as an
   * off_t, and advances by one header per iteration.
   */
  method ScanHeaders(space: AddressSpace, file: seq<byte>, e: Ehdr) returns (ok: bool)
    requires space.Valid()
    modifies space
    ensures space.Valid()
    ensures (space.State(), ok) == ScanSpec(old(space.State()), file, Actions(file, e))
  {
    ghost var acts := Actions(file, e);
    var ofs: int := Signed32(e.phoff);
    var i: nat := 0;
    while i < e.phnum
      invariant i <= e.phnum && space.Valid()
      invariant ofs == PhdrOffset(e, i)
      invariant ScanSpec(space.State(), file, acts[i..]) == ScanSpec(old(space.State()), file, acts)
    {
      var ph := ReadPhdr(file, ofs);
      assert acts[i..][0] == ActionOf(ph, |file|) && acts[i..][1..] == acts[i + 1..];
      ofs := ofs + PHDR_SIZE;
      var go := LoadHeader(space, file, ph);
      if !go {
        return false;
      }
      i := i + 1;
    }
    return true;
  }

  /**
   * load (file_name, &eip, &esp) on the process's new address space: on
   * success eip is the header's e_entry and esp points at the fake return
   * address of the argument block.
   */
  method Load(space: AddressSpace, fs: FileSys, cmdline: seq<byte>) returns (ok: bool, eip: u32, esp: nat)
    requires space.Valid() && CString(cmdline) && |cmdline| < PGSIZE && StackFits(Tokens(cmdline))
    modifies space
    ensures space.Valid()
    ensures (space.State(), ok) == LoadSpec(old(space.State()), fs, cmdline)
    ensures ok ==>
      && ProgramOf(fs, cmdline).Some?
      && |ProgramOf(fs, cmdline).value| >= EHDR_SIZE
      && eip == U32At(ProgramOf(fs, cmdline).value, 24)
      && esp == PHYS_BASE - StackSize(Tokens(cmdline))
  {
    var name := NextToken(cmdline);
    NextTokenSplits(cmdline);
    if name.None? || name.value.0 !in fs {
      return false, 0, 0;
    }
    var file := fs[name.value.0];
    var header := ReadHeader(file);
    if header.None? {
      return false, 0, 0;
    }
    var e := header.value;
    var scanned := ScanHeaders(space, file, e);
    if !scanned {
      return false, 0, 0;
    }
    ok, esp := SetupStack(space, cmdline);
    if !ok {
      return false, 0, 0;
    }
    eip := e.entry;
  }
}

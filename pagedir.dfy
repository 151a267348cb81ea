/**
 * The user address space a process builds while it is loaded: its page
 * directory (user page -> frame and writable bit), the contents of the
 * user frames it has been handed, and the pool of free user frames from
 * which palloc_get_page (PAL_USER) draws.
 */
module PageDir {
  import opened Wrappers
  import opened Bytes
  import opened Vaddr

  /** A page-directory entry: the frame a user page maps to and whether the user may write it. */
  datatype Mapping = Mapping(kpage: nat, writable: bool)

  /** A snapshot of an address space, for specifications and lemmas. */
  datatype Mem = Mem(pagedir: map<nat, Mapping>, frames: map<nat, seq<byte>>, pool: seq<nat>)

  /**
   * Every mapped page points to an allocated frame, every allocated frame
   * holds one page of bytes, and the free pool holds distinct frames that
   * are not allocated.
   */
  ghost predicate MemValid(m: Mem) {
    && (forall u :: u in m.pagedir ==> m.pagedir[u].kpage in m.frames)
    && (forall k :: k in m.frames ==> |m.frames[k]| == PGSIZE)
    && (forall i :: 0 <= i < |m.pool| ==> m.pool[i] !in m.frames)
    && (forall i, j :: 0 <= i < j < |m.pool| ==> m.pool[i] != m.pool[j])
  }

  /** Page u is mapped, with the given writable bit, to a frame holding exactly image. */
  ghost predicate PageResident(m: Mem, u: nat, writable: bool, image: seq<byte>) {
    u in m.pagedir && m.pagedir[u].writable == writable
    && m.pagedir[u].kpage in m.frames && m.frames[m.pagedir[u].kpage] == image
  }

  /**
   * m2 keeps everything m1 had mapped: the same pages map to the same
   * frames, whose contents are unchanged. Loading never unmaps or rewrites
   * an installed page, also not on a failure path.
   */
  ghost predicate Extends(m1: Mem, m2: Mem) {
    forall u :: u in m1.pagedir ==>
      && u in m2.pagedir && m2.pagedir[u] == m1.pagedir[u]
      && (m1.pagedir[u].kpage in m1.frames ==>
            m1.pagedir[u].kpage in m2.frames
            && m2.frames[m1.pagedir[u].kpage] == m1.frames[m1.pagedir[u].kpage])
  }

  lemma ExtendsTransitive(m1: Mem, m2: Mem, m3: Mem)
    requires Extends(m1, m2) && Extends(m2, m3)
    ensures Extends(m1, m3)
  {
  }

  lemma ExtendsKeepsResident(m1: Mem, m2: Mem, u: nat, writable: bool, image: seq<byte>)
    requires Extends(m1, m2) && PageResident(m1, u, writable, image)
    ensures PageResident(m2, u, writable, image)
  {
  }

  /** Installing page u on top of m: the mapping is added only when u is not mapped yet. */
  function Install(m: Mem, upage: nat, kpage: nat, writable: bool): (r: (Mem, bool))
    ensures r.1 <==> upage !in m.pagedir
    ensures r.0.frames == m.frames && r.0.pool == m.pool
    ensures r.1 ==>
      && r.0.pagedir.Keys == m.pagedir.Keys + {upage}
      && r.0.pagedir[upage] == Mapping(kpage, writable)
      && (forall u :: u in m.pagedir ==> r.0.pagedir[u] == m.pagedir[u])
    ensures !r.1 ==> r.0 == m
  {
    if upage in m.pagedir then (m, false)
    else (m.(pagedir := m.pagedir[upage := Mapping(kpage, writable)]), true)
  }

  /** A successful install keeps the address space valid and extends it. */
  lemma InstallExtends(m: Mem, upage: nat, kpage: nat, writable: bool)
    requires MemValid(m) && kpage in m.frames
    ensures MemValid(Install(m, upage, kpage, writable).0)
    ensures Extends(m, Install(m, upage, kpage, writable).0)
  {
  }

  class AddressSpace {
    var pagedir: map<nat, Mapping>
    var frames: map<nat, seq<byte>>
    var pool: seq<nat>

    ghost predicate Valid()
      reads this
    {
      MemValid(State())
    }

    function State(): Mem
      reads this
    {
      Mem(pagedir, frames, pool)
    }

    /** A fresh address space: nothing mapped, the given frames free. */
    constructor (free: seq<nat>)
      requires forall i, j :: 0 <= i < j < |free| ==> free[i] != free[j]
      ensures Valid() && pagedir == map[] && frames == map[] && pool == free
    {
      pagedir, frames, pool := map[], map[], free;
    }

    /**
     * palloc_get_page (PAL_USER | PAL_ZERO): takes the next free frame and
     * zeroes it, or returns None when the user pool is exhausted.
     */
    method AllocPage() returns (kpage: Option<nat>)
      requires Valid()
      modifies this
      ensures Valid() && pagedir == old(pagedir)
      ensures old(pool) == [] ==> kpage == None && State() == old(State())
      ensures old(pool) != [] ==>
        && kpage == Some(old(pool)[0])
        && kpage.value !in old(frames)
        && pool == old(pool)[1..]
        && frames == old(frames)[kpage.value := Zeros(PGSIZE)]
    {
      if pool == [] {
        return None;
      }
      var k := pool[0];
      pool := pool[1..];
      frames := frames[k := Zeros(PGSIZE)];
      kpage := Some(k);
    }

    /** palloc_free_page of a frame that is not mapped: it goes back to the head of the pool. */
    method FreePage(kpage: nat)
      requires Valid() && kpage in frames
      requires forall u :: u in pagedir ==> pagedir[u].kpage != kpage
      modifies this
      ensures Valid() && pagedir == old(pagedir)
      ensures frames == old(frames) - {kpage} && pool == [kpage] + old(pool)
    {
      frames := frames - {kpage};
      pool := [kpage] + pool;
    }

    /** Writes one page of bytes into an allocated frame (file_read followed by memset). */
    method FillPage(kpage: nat, image: seq<byte>)
      requires Valid() && kpage in frames && |image| == PGSIZE
      modifies this
      ensures Valid() && pagedir == old(pagedir) && pool == old(pool)
      ensures frames == old(frames)[kpage := image]
    {
      frames := frames[kpage := image];
    }

    /**
     * install_page: maps upage to kpage only if upage is not mapped yet;
     * otherwise fails and leaves the page directory as it was.
     */
    method InstallPage(upage: nat, kpage: nat, writable: bool) returns (ok: bool)
      requires Valid() && kpage in frames
      modifies this
      ensures Valid() && Extends(old(State()), State())
      ensures (State(), ok) == Install(old(State()), upage, kpage, writable)
    {
      ok := upage !in pagedir;
      if ok {
        pagedir := pagedir[upage := Mapping(kpage, writable)];
      }
    }

    /**
     * What load_segment and setup_stack both do with a fresh frame: install
     * it at upage, and give it back to the pool if that fails.
     */
    method InstallOrFree(upage: nat, kpage: nat, writable: bool) returns (ok: bool)
      requires Valid() && kpage in frames
      requires forall u :: u in pagedir ==> pagedir[u].kpage != kpage
      modifies this
      ensures Valid()
      ensures ok <==> upage !in old(pagedir)
      ensures ok ==> pagedir == old(pagedir)[upage := Mapping(kpage, writable)] && frames == old(frames) && pool == old(pool)
      ensures !ok ==> pagedir == old(pagedir) && frames == old(frames) - {kpage} && pool == [kpage] + old(pool)
    {
      ok := InstallPage(upage, kpage, writable);
      if !ok {
        FreePage(kpage);
      }
    }
  }
}

/**
 * The wait/exit bookkeeping of user processes. Each process shares one
 * wait_status record with its parent: the child fills in the exit code
 * and signals that it has exited, the parent consumes the code with
 * process_wait at most once, and whichever of the two exits last frees
 * the record. The locks and semaphores are left out; the model is the
 * sequence of events (a wait, a process exit) on a table of records.
 */
module Lifecycle {
  import opened Wrappers

  /** tid_t. */
  type Tid = int

  /** The address of a wait_status record. */
  type Rid = nat

  /**
   * A struct wait_status: the child's pid, its exit code and whether one
   * has been recorded (valid), whether the parent has already waited for
   * it, the number of processes still holding it, and whether its
   * semaphore has been raised (the child has exited).
   */
  datatype Record = Record(pid: Tid, exitCode: int, valid: bool, parentWaited: bool, refCount: int, exited: bool)

  /** A live process: its own record and the records of its children, in list order. */
  datatype Proc = Proc(own: Rid, children: seq<Rid>)

  /** The live records (a freed record is absent) and the live processes. */
  datatype Table = Table(records: map<Rid, Record>, procs: map<Tid, Proc>)

  /** What process_wait does: return a value, or block until the child exits. */
  datatype WaitOutcome = Returned(code: int) | Blocked

  predicate Distinct(cs: seq<Rid>) {
    forall i, j :: 0 <= i < j < |cs| ==> cs[i] != cs[j]
  }

  /** The records a process refers to are live, and its own record is not among its children. */
  predicate ProcOk(records: map<Rid, Record>, p: Proc) {
    p.own in records
    && forall i :: 0 <= i < |p.children| ==> p.children[i] in records && p.children[i] != p.own
  }

  /** The live processes that hold record r: its own process and its parent. */
  function Holders(t: Table, r: Rid): set<Tid> {
    set u | u in t.procs && (t.procs[u].own == r || r in t.procs[u].children)
  }

  /**
   * The invariant of the table: every live process refers only to live
   * records, lists each child once, and the ref_count of every live record
   * is the number of live processes holding it, which is never zero.
   */
  ghost predicate Valid(t: Table) {
    && (forall u :: u in t.procs ==> ProcOk(t.records, t.procs[u]) && Distinct(t.procs[u].children))
    && (forall r :: r in t.records ==> t.records[r].refCount == |Holders(t, r)| && t.records[r].refCount >= 1)
  }

  // ---------------------------------------------------------------- wait

  /** The first record in cs whose pid is the given tid, as the list walk of process_wait finds it. */
  function FindChild(records: map<Rid, Record>, cs: seq<Rid>, tid: Tid): (r: Option<Rid>)
    requires forall i :: 0 <= i < |cs| ==> cs[i] in records
    ensures r.None? <==> forall i :: 0 <= i < |cs| ==> records[cs[i]].pid != tid
    ensures r.Some? ==> r.value in cs && records[r.value].pid == tid
    ensures forall i :: 0 <= i < |cs| && records[cs[i]].pid == tid && (forall j :: 0 <= j < i ==> records[cs[j]].pid != tid) ==>
      r == Some(cs[i])
    decreases |cs|
  {
    if cs == [] then None
    else if records[cs[0]].pid == tid then Some(cs[0])
    else
      var r := FindChild(records, cs[1..], tid);
      assert forall i :: 0 < i < |cs| ==> cs[i] == cs[1..][i - 1];
      r
  }

  /**
   * process_wait (tid) called by process self. A tid that is not a child,
   * or one already waited for, gives -1 at once. A child that has not
   * exited blocks the caller (the step is not enabled yet). Otherwise the
   * record is marked as waited for and its exit code is returned.
   */
  function WaitSpec(t: Table, self: Tid, tid: Tid): (Table, WaitOutcome)
    requires self in t.procs && ProcOk(t.records, t.procs[self])
  {
    match FindChild(t.records, t.procs[self].children, tid)
    case None => (t, Returned(-1))
    case Some(r) =>
      var rec := t.records[r];
      if rec.parentWaited then (t, Returned(-1))
      else if !rec.exited then (t, Blocked)
      else (t.(records := t.records[r := rec.(parentWaited := true)]), Returned(rec.exitCode))
  }

  /**
   * What process_wait promises: -1 and no change unless tid names a child
   * not yet waited for; a child that has not exited blocks without any
   * change; otherwise exactly that child's parent_waited flag is set and
   * its exit code is returned.
   */
  lemma WaitFacts(t: Table, self: Tid, tid: Tid)
    requires self in t.procs && ProcOk(t.records, t.procs[self])
    ensures var cs := t.procs[self].children;
      var (t', res) := WaitSpec(t, self, tid);
      && ((forall i :: 0 <= i < |cs| ==> t.records[cs[i]].pid != tid) ==> t' == t && res == Returned(-1))
      && (forall i :: 0 <= i < |cs| && t.records[cs[i]].pid == tid && (forall j :: 0 <= j < i ==> t.records[cs[j]].pid != tid) ==>
            var rec := t.records[cs[i]];
            if rec.parentWaited then t' == t && res == Returned(-1)
            else if !rec.exited then t' == t && res == Blocked
            else
              && t'.procs == t.procs
              && t'.records == t.records[cs[i] := rec.(parentWaited := true)]
              && res == Returned(rec.exitCode))
  {
  }

  /** A second wait for the same child, after one that returned its exit code, gives -1. */
  lemma WaitTwice(t: Table, self: Tid, tid: Tid)
    requires self in t.procs && ProcOk(t.records, t.procs[self])
    requires WaitSpec(t, self, tid).0 != t
    ensures var t' := WaitSpec(t, self, tid).0;
      self in t'.procs && ProcOk(t'.records, t'.procs[self]) && WaitSpec(t', self, tid) == (t', Returned(-1))
  {
    var cs := t.procs[self].children;
    var r := FindChild(t.records, cs, tid).value;
    var t' := WaitSpec(t, self, tid).0;
    FindChildSamePids(t.records, t'.records, cs, tid);
  }

  /** The list walk finds the same record in two tables whose records have the same pids. */
  lemma {:induction false} FindChildSamePids(a: map<Rid, Record>, b: map<Rid, Record>, cs: seq<Rid>, tid: Tid)
    requires forall i :: 0 <= i < |cs| ==> cs[i] in a && cs[i] in b && a[cs[i]].pid == b[cs[i]].pid
    ensures FindChild(a, cs, tid) == FindChild(b, cs, tid)
    decreases |cs|
  {
    if cs != [] {
      FindChildSamePids(a, b, cs[1..], tid);
    }
  }

  /** A wait keeps the invariant: it only sets a parent_waited flag. */
  lemma WaitKeepsValid(t: Table, self: Tid, tid: Tid)
    requires Valid(t) && self in t.procs
    ensures Valid(WaitSpec(t, self, tid).0)
  {
    var t' := WaitSpec(t, self, tid).0;
    assert t'.procs == t.procs && t'.records.Keys == t.records.Keys;
    forall r | r in t'.records
      ensures t'.records[r].refCount == |Holders(t', r)| && t'.records[r].refCount >= 1
    {
      assert Holders(t', r) == Holders(t, r);
    }
  }

  // ---------------------------------------------------------------- exit

  /**
   * The exiting process's own record: an exit code is forced to -1 unless
   * one was recorded, the count drops by one and the semaphore is raised.
   */
  function ExitOwn(rec: Record): (r: Record)
    ensures r.exitCode == (if rec.valid then rec.exitCode else -1)
    ensures r.valid && r.exited && r.refCount == rec.refCount - 1
    ensures r.pid == rec.pid && r.parentWaited == rec.parentWaited
  {
    var rec1 := if !rec.valid then rec.(exitCode := -1, valid := true) else rec;
    rec1.(refCount := rec1.refCount - 1, exited := true)
  }

  /** Updates the own record and frees it when its count reached zero. */
  function ReleaseOwn(records: map<Rid, Record>, own: Rid): (r: map<Rid, Record>)
    requires own in records
    ensures own in r <==> records[own].refCount != 1
    ensures own in r ==> r[own] == ExitOwn(records[own])
    ensures forall x :: x != own ==> (x in r <==> x in records) && (x in r ==> r[x] == records[x])
  {
    var rec := ExitOwn(records[own]);
    if rec.refCount == 0 then records - {own} else records[own := rec]
  }

  /** One decrement of a child's ref_count. */
  function Decrement(records: map<Rid, Record>, c: Rid): map<Rid, Record>
    requires c in records
  {
    records[c := records[c].(refCount := records[c].refCount - 1)]
  }

  /** The records after the loop over children cs has decremented each of them. */
  function DecrementAll(records: map<Rid, Record>, cs: seq<Rid>): (r: map<Rid, Record>)
    requires forall c :: c in cs ==> c in records
    ensures r.Keys == records.Keys
    decreases |cs|
  {
    if cs == [] then records
    else Decrement(DecrementAll(records, cs[..|cs| - 1]), cs[|cs| - 1])
  }

  /** The children the loop puts in dead_children: those whose count it brought to zero, in list order. */
  function DeadChildren(records: map<Rid, Record>, cs: seq<Rid>): (d: seq<Rid>)
    requires forall c :: c in cs ==> c in records
    ensures |d| <= |cs|
    decreases |cs|
  {
    if cs == [] then []
    else
      var c := cs[|cs| - 1];
      DeadChildren(records, cs[..|cs| - 1]) + (if DecrementAll(records, cs)[c].refCount == 0 then [c] else [])
  }

  /** The records after the records in ds are freed one by one. */
  function FreeAll(records: map<Rid, Record>, ds: seq<Rid>): (r: map<Rid, Record>)
    ensures forall x :: x in r <==> x in records && x !in ds
    ensures forall x :: x in r ==> r[x] == records[x]
    decreases |ds|
  {
    if ds == [] then records
    else
      var r := FreeAll(records, ds[..|ds| - 1]) - {ds[|ds| - 1]};
      assert forall x :: x in ds <==> x in ds[..|ds| - 1] || x == ds[|ds| - 1];
      r
  }

  /**
   * process_exit by process self, followed by its disappearance from the
   * table: the own record is finished and released, every child record
   * is released once, and the records whose count reached zero are freed.
   */
  function ExitSpec(t: Table, self: Tid): (t': Table)
    requires self in t.procs && ProcOk(t.records, t.procs[self])
  {
    var p := t.procs[self];
    var recs := ReleaseOwn(t.records, p.own);
    Table(FreeAll(DecrementAll(recs, p.children), DeadChildren(recs, p.children)), t.procs - {self})
  }

  /** After the loop over distinct children, each of them has lost exactly one from its count. */
  lemma {:induction false} DecrementAllAt(records: map<Rid, Record>, cs: seq<Rid>, x: Rid)
    requires forall c :: c in cs ==> c in records
    requires Distinct(cs) && x in records
    ensures DecrementAll(records, cs)[x]
         == if x in cs then records[x].(refCount := records[x].refCount - 1) else records[x]
    decreases |cs|
  {
    if cs != [] {
      var init := cs[..|cs| - 1];
      DecrementAllAt(records, init, x);
      assert x in cs <==> x in init || x == cs[|cs| - 1];
      if x == cs[|cs| - 1] {
        assert x !in init;
      }
    }
  }

  /** A child lands in dead_children exactly when its count was one before the loop. */
  lemma {:induction false} DeadChildrenAre(records: map<Rid, Record>, cs: seq<Rid>, x: Rid)
    requires forall c :: c in cs ==> c in records
    requires Distinct(cs)
    ensures x in DeadChildren(records, cs) <==> x in cs && records[x].refCount == 1
    decreases |cs|
  {
    if cs != [] {
      var init := cs[..|cs| - 1];
      var c := cs[|cs| - 1];
      DeadChildrenAre(records, init, x);
      DecrementAllAt(records, cs, c);
      assert x in cs <==> x in init || x == c;
      if x == c {
        assert x !in init;
      }
    }
  }

  /**
   * What process_exit promises: the process is gone; its own record gets
   * exit code -1 unless one was recorded, is marked exited, loses one from
   * its count and is freed exactly when that count reaches zero; every
   * child record loses exactly one from its count and is freed exactly
   * when it reaches zero; nothing else changes and nothing is allocated.
   */
  lemma ExitFacts(t: Table, self: Tid)
    requires self in t.procs && ProcOk(t.records, t.procs[self]) && Distinct(t.procs[self].children)
    ensures var t' := ExitSpec(t, self); var p := t.procs[self];
      && t'.procs == t.procs - {self}
      && (forall r :: r in t'.records ==> r in t.records)
      && (p.own in t'.records <==> t.records[p.own].refCount != 1)
      && (p.own in t'.records ==> t'.records[p.own] == ExitOwn(t.records[p.own]))
      && (forall c :: c in p.children ==>
            && (c in t'.records <==> t.records[c].refCount != 1)
            && (c in t'.records ==> t'.records[c] == t.records[c].(refCount := t.records[c].refCount - 1)))
      && (forall r :: r in t.records && r != p.own && r !in p.children ==> r in t'.records && t'.records[r] == t.records[r])
  {
    var p := t.procs[self];
    var recs := ReleaseOwn(t.records, p.own);
    forall r | r in recs
      ensures DecrementAll(recs, p.children)[r]
           == if r in p.children then recs[r].(refCount := recs[r].refCount - 1) else recs[r]
      ensures r in DeadChildren(recs, p.children) <==> r in p.children && recs[r].refCount == 1
    {
      DecrementAllAt(recs, p.children, r);
      DeadChildrenAre(recs, p.children, r);
    }
    forall r | r !in recs
      ensures r !in DeadChildren(recs, p.children)
    {
      DeadChildrenAre(recs, p.children, r);
    }
  }

  /** Only the processes a record's holders change: exit removes the exiting process from every holder set. */
  lemma HoldersAfterExit(t: Table, self: Tid, r: Rid)
    requires self in t.procs && ProcOk(t.records, t.procs[self])
    ensures Holders(ExitSpec(t, self), r) == Holders(t, r) - {self}
    ensures self in Holders(t, r) <==> r == t.procs[self].own || r in t.procs[self].children
  {
  }

  /** process_exit keeps the invariant: no count is decremented below zero and no live process loses a record. */
  lemma ExitKeepsValid(t: Table, self: Tid)
    requires Valid(t) && self in t.procs
    ensures Valid(ExitSpec(t, self))
  {
    var t' := ExitSpec(t, self);
    var p := t.procs[self];
    ExitFacts(t, self);
    forall r | r in t'.records
      ensures t'.records[r].refCount == |Holders(t', r)| && t'.records[r].refCount >= 1
    {
      HoldersAfterExit(t, self, r);
      CardRemove(Holders(t, r), self);
    }
    forall u | u in t'.procs
      ensures ProcOk(t'.records, t'.procs[u]) && Distinct(t'.procs[u].children)
    {
      var q := t.procs[u];
      assert q == t'.procs[u];
      KeptByHolder(t, self, u, q.own);
      forall i | 0 <= i < |q.children|
        ensures q.children[i] in t'.records
      {
        KeptByHolder(t, self, u, q.children[i]);
      }
    }
  }

  /** A record that another live process holds survives the exit. */
  lemma KeptByHolder(t: Table, self: Tid, u: Tid, r: Rid)
    requires Valid(t) && self in t.procs && u in t.procs && u != self
    requires t.procs[u].own == r || r in t.procs[u].children
    ensures r in ExitSpec(t, self).records
  {
    ExitFacts(t, self);
    HoldersAfterExit(t, self, r);
    assert u in Holders(t, r) && u in Holders(t, r) - {self};
    assert r in t.records;
    CardRemove(Holders(t, r), self);
    assert |Holders(t, r) - {self}| >= 1;
  }

  lemma CardRemove(s: set<Tid>, x: Tid)
    ensures |s - {x}| == if x in s then |s| - 1 else |s|
  {
    if x in s {
      assert s == (s - {x}) + {x};
    } else {
      assert s - {x} == s;
    }
  }

  /**
   * A record is freed by the exit of the last process holding it, and by
   * no other: whether the parent or the child exits first, the record
   * survives the first exit and is freed by the second, once.
   */
  lemma LastHolderFrees(t: Table, self: Tid, r: Rid)
    requires Valid(t) && self in t.procs && r in t.records
    ensures r !in ExitSpec(t, self).records <==> Holders(t, r) == {self}
  {
    ExitFacts(t, self);
    HoldersAfterExit(t, self, r);
    CardRemove(Holders(t, r), self);
    if Holders(t, r) == {self} {
      assert |Holders(t, r)| == 1;
    }
    if r !in ExitSpec(t, self).records {
      assert self in Holders(t, r) && t.records[r].refCount == 1;
      assert Holders(t, r) - {self} == {};
    }
  }

  // ---------------------------------------------------------------- spawn

  /**
   * The record a new child process gets when it is created: count 2
   * (child and parent), no exit code recorded, not waited for, not exited;
   * it becomes the child's own record and is appended to the parent's
   * children.
   */
  function SpawnSpec(t: Table, parent: Tid, tid: Tid, rid: Rid): (t': Table)
    requires parent in t.procs && tid !in t.procs && rid !in t.records
  {
    var p := t.procs[parent];
    Table(t.records[rid := Record(tid, 0, false, false, 2, false)],
          t.procs[tid := Proc(rid, [])][parent := p.(children := p.children + [rid])])
  }

  /** Creating a child keeps the invariant, with the new record held by exactly the parent and the child. */
  lemma SpawnKeepsValid(t: Table, parent: Tid, tid: Tid, rid: Rid)
    requires Valid(t) && parent in t.procs && tid !in t.procs && rid !in t.records
    ensures Valid(SpawnSpec(t, parent, tid, rid))
    ensures Holders(SpawnSpec(t, parent, tid, rid), rid) == {parent, tid}
  {
    var t' := SpawnSpec(t, parent, tid, rid);
    forall u | u in t.procs && u != parent
      ensures u !in Holders(t', rid)
    {
      assert t'.procs[u] == t.procs[u] && ProcOk(t.records, t.procs[u]);
    }
    assert t'.procs[parent].children[|t'.procs[parent].children| - 1] == rid;
    assert Holders(t', rid) == {parent, tid};
    forall r | r in t.records
      ensures Holders(t', r) == Holders(t, r)
    {
      assert r != rid;
    }
    forall u | u in t'.procs
      ensures ProcOk(t'.records, t'.procs[u]) && Distinct(t'.procs[u].children)
    {
      if u == parent {
        var cs := t'.procs[u].children;
        assert forall i :: 0 <= i < |cs| - 1 ==> cs[i] == t.procs[parent].children[i];
      }
    }
  }

  /** One turn of the loop over the children extends both the decrements and dead_children by child cs[i]. */
  lemma ReleaseStep(start: map<Rid, Record>, cs: seq<Rid>, i: nat, recs: map<Rid, Record>, dead: seq<Rid>)
    requires i < |cs| && forall c :: c in cs ==> c in start
    requires recs == DecrementAll(start, cs[..i]) && dead == DeadChildren(start, cs[..i])
    ensures cs[i] in recs
    ensures Decrement(recs, cs[i]) == DecrementAll(start, cs[..i + 1])
    ensures DeadChildren(start, cs[..i + 1])
         == dead + (if Decrement(recs, cs[i])[cs[i]].refCount == 0 then [cs[i]] else [])
  {
    assert cs[..i + 1][..i] == cs[..i];
  }

  // ---------------------------------------------------------------- the code

  /** The process table, as the kernel's threads and their wait_status records form it. */
  class ProcessTable {
    var records: map<Rid, Record>
    var procs: map<Tid, Proc>

    function State(): Table
      reads this
    {
      Table(records, procs)
    }

    /** process_wait (tid) called by process self: the walk of the children list, then the flag and the code. */
    method ProcessWait(self: Tid, tid: Tid) returns (res: WaitOutcome)
      requires self in procs && ProcOk(records, procs[self])
      modifies this
      ensures (State(), res) == WaitSpec(old(State()), self, tid)
    {
      var cs := procs[self].children;
      var found: Option<Rid> := None;
      var i := 0;
      while i < |cs| && found.None?
        invariant 0 <= i <= |cs|
        invariant found.None? ==> FindChild(records, cs, tid) == FindChild(records, cs[i..], tid)
        invariant found.Some? ==> found == FindChild(records, cs, tid)
      {
        assert cs[i..][1..] == cs[i + 1..];
        if records[cs[i]].pid == tid {
          found := Some(cs[i]);
        }
        i := i + 1;
      }
      if found.None? || records[found.value].parentWaited {
        return Returned(-1);
      }
      var rec := records[found.value];
      if !rec.exited {
        return Blocked;
      }
      records := records[found.value := rec.(parentWaited := true)];
      return Returned(rec.exitCode);
    }

    /**
     * process_exit of process self, and its removal from the table: the
     * own record is finished and released, then the loop over the children
     * releases each child record and collects in dead_children those it
     * brought to zero, which the second loop frees.
     */
    method ProcessExit(self: Tid)
      requires self in procs && ProcOk(records, procs[self])
      modifies this
      ensures State() == ExitSpec(old(State()), self)
    {
      var p := procs[self];
      ReleaseOwnRecord(p.own);
      var dead, freeCount := ReleaseChildren(p.children);
      FreeDead(dead, freeCount);
      procs := procs - {self};
    }

    /** The first half of process_exit: the exit code, the count and the semaphore of the own record. */
    method ReleaseOwnRecord(own: Rid)
      requires own in records
      modifies this
      ensures records == ReleaseOwn(old(records), own) && procs == old(procs)
    {
      var rec := records[own];
      if !rec.valid {
        rec := rec.(exitCode := -1, valid := true);
      }
      rec := rec.(refCount := rec.refCount - 1, exited := true);
      if rec.refCount == 0 {
        records := records - {own};
      } else {
        records := records[own := rec];
      }
    }

    /** The loop over the children: one decrement each, and the ones brought to zero in dead_children. */
    method ReleaseChildren(cs: seq<Rid>) returns (dead: array<Rid>, freeCount: nat)
      requires forall c :: c in cs ==> c in records
      modifies this
      ensures fresh(dead) && freeCount <= dead.Length
      ensures records == DecrementAll(old(records), cs) && procs == old(procs)
      ensures dead[..freeCount] == DeadChildren(old(records), cs)
    {
      ghost var start := records;
      ghost var ds: seq<Rid> := [];
      var recs := records;
      dead := new Rid[|cs|];
      freeCount := 0;
      var i := 0;
      while i < |cs|
        invariant 0 <= freeCount <= i <= |cs|
        invariant recs == DecrementAll(start, cs[..i])
        invariant ds == DeadChildren(start, cs[..i]) && dead[..freeCount] == ds
        modifies dead
      {
        var c := cs[i];
        ReleaseStep(start, cs, i, recs, ds);
        recs := Decrement(recs, c);
        if recs[c].refCount == 0 {
          dead[freeCount] := c;
          ds := ds + [c];
          freeCount := freeCount + 1;
        }
        i := i + 1;
      }
      assert cs[..|cs|] == cs;
      records := recs;
    }

    /** The second loop: every record in dead_children is freed. */
    method FreeDead(dead: array<Rid>, freeCount: nat)
      requires freeCount <= dead.Length
      modifies this
      ensures records == FreeAll(old(records), dead[..freeCount]) && procs == old(procs)
    {
      var i := 0;
      while i < freeCount
        invariant 0 <= i <= freeCount
        invariant records == FreeAll(old(records), dead[..i]) && procs == old(procs)
      {
        assert dead[..i + 1][..i] == dead[..i];
        records := records - {dead[i]};
        i := i + 1;
      }
    }
  }
}

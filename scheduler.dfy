/** The scheduler object of scheduler.c: the head and current pointers into the
    ring of task records, with the records themselves kept in an arena
    (`threads`, indexed by record address) and the heap blocks the scheduler
    owns kept as a set (`live`) with a log of every free() it made (`freed`).
    The ghost fields Ring and Cur give the meaning of the pointers: Ring lists
    the records in link order starting at head, and current is Ring[Cur]. */
module Scheduler {
  import opened ReadyRing
  import opened StackRegion

  /** The only signal scheduler_yield accepts. */
  const SIGALRM: int := 14

  /** The stack fields of a record once setup_stack has succeeded: the base is
      page-aligned and lies within the first page of the raw block, which is
      exactly what MemoryAlign(stackRaw, pageSize) is (StackRegion.MemoryAlign
      states that it is the least such multiple, and there is only one). */
  ghost predicate StackSetUp(t: Thread, pageSize: nat) {
    pageSize > 0 && 0 <= t.stackRaw <= t.stackBase < t.stackRaw + pageSize &&
    IsMultiple(t.stackBase, pageSize)
  }

  /** The records of the ring form a ring and all have their stacks set up. */
  ghost predicate Wf(ts: seq<Thread>, ring: seq<nat>, pageSize: nat) {
    IsRing(ts, ring) &&
    forall k {:trigger ts[ring[k]]} :: 0 <= k < |ring| ==> StackSetUp(ts[ring[k]], pageSize)
  }

  /** Changing records outside the ring, or adding records, keeps Wf and the
      ring's statuses. */
  lemma OutsideRing(ts: seq<Thread>, ts': seq<Thread>, ring: seq<nat>, pageSize: nat)
    requires Wf(ts, ring, pageSize)
    requires forall k :: 0 <= k < |ring| ==> ring[k] < |ts'| && ts'[ring[k]] == ts[ring[k]]
    ensures Wf(ts', ring, pageSize) && StatusesOf(ts', ring) == StatusesOf(ts, ring)
  {
    SameRingRecords(ts, ts', ring);
  }

  /** Setting one member's status keeps Wf and changes only that status. */
  lemma StatusChange(ts: seq<Thread>, ring: seq<nat>, k: nat, s: Status, pageSize: nat)
    requires Wf(ts, ring, pageSize) && k < |ring|
    ensures Wf(ts[ring[k] := ts[ring[k]].(status := s)], ring, pageSize)
    ensures StatusesOf(ts[ring[k] := ts[ring[k]].(status := s)], ring) == StatusesOf(ts, ring)[k := s]
  {
    SetStatus(ts, ring, k, s);
    var ts' := ts[ring[k] := ts[ring[k]].(status := s)];
    forall j | 0 <= j < |ring| ensures StackSetUp(ts'[ring[j]], pageSize) {
      assert ts'[ring[j]].stackRaw == ts[ring[j]].stackRaw;
      assert ts'[ring[j]].stackBase == ts[ring[j]].stackBase;
    }
  }

  /** Linking t, whose stack is set up, in after position cur keeps Wf; the
      statuses gain t's right after cur. */
  lemma Insertion(ts: seq<Thread>, ring: seq<nat>, cur: nat, t: nat, pageSize: nat)
    requires Wf(ts, ring, pageSize) && cur < |ring| && t < |ts| && t !in ring
    requires StackSetUp(ts[t], pageSize)
    ensures Wf(Relink(ts, ring[cur], t), InsertAfter(ring, cur, t), pageSize)
    ensures StatusesOf(Relink(ts, ring[cur], t), InsertAfter(ring, cur, t))
         == InsertAfter(StatusesOf(ts, ring), cur, ts[t].status)
  {
    InsertLinks(ts, ring, cur, t);
    InsertStatuses(ts, ring, cur, t);
    var ts', r := Relink(ts, ring[cur], t), InsertAfter(ring, cur, t);
    forall k | 0 <= k < |r| ensures StackSetUp(ts'[r[k]], pageSize) {
      InsertAfterAt(ring, cur, t, k);
      assert ts'[r[k]] == ts[r[k]].(next := ts'[r[k]].next);
    }
  }

  /** Once every member but the one at cur has had its blocks freed, the
      blocks left are exactly that member's two. */
  lemma OnlyCurrentLeft(ring: seq<nat>, cur: nat)
    requires cur < |ring| && Distinct(ring)
    ensures BlocksOf(ring) - BlocksOf(After(ring, cur)) == {StackMem(ring[cur]), RecordMem(ring[cur])}
  {
    var n, others := |ring|, After(ring, cur);
    forall b: Block
      ensures b in BlocksOf(ring) - BlocksOf(others) <==> b in {StackMem(ring[cur]), RecordMem(ring[cur])}
    {
      BlocksOfOwner(ring, b);
      BlocksOfOwner(others, b);
      if b.owner == ring[cur] {
        assert ring[cur] !in others by {
          forall j | 0 <= j < n - 1 ensures others[j] != ring[cur] {
            assert AfterPos(cur, j, n) != cur;
          }
        }
      } else if b.owner in ring {
        var k :| 0 <= k < n && ring[k] == b.owner;
        assert others[Gap(cur, k, n)] == b.owner;
      }
    }
  }

  /** The d-th member met after cur still owns both its blocks once the
      members met before it have been freed. */
  lemma NextStillOwned(ring: seq<nat>, cur: nat, d: nat)
    requires cur < |ring| && d < |ring| - 1 && Distinct(ring)
    ensures var others := After(ring, cur);
      StackMem(others[d]) in BlocksOf(ring) - BlocksOf(others[..d]) &&
      RecordMem(others[d]) in BlocksOf(ring) - BlocksOf(others[..d])
  {
    var others := After(ring, cur);
    var t := others[d];
    assert t == ring[AfterPos(cur, d, |ring|)];
    AfterFresh(ring, cur, d);
    BlocksOfOwner(ring, StackMem(t));
    BlocksOfOwner(ring, RecordMem(t));
    BlocksOfOwner(others[..d], StackMem(t));
    BlocksOfOwner(others[..d], RecordMem(t));
  }

  /** Freeing the next member's two blocks extends the freed prefix by one. */
  lemma FreedOneMore(live0: set<Block>, freed0: seq<Block>, s: seq<nat>, d: nat)
    requires d < |s|
    ensures live0 - BlocksOf(s[..d]) - {StackMem(s[d]), RecordMem(s[d])} == live0 - BlocksOf(s[..d + 1])
    ensures freed0 + FreeCalls(s[..d]) + FreeCalls([s[d]]) == freed0 + FreeCalls(s[..d + 1])
  {
    assert s[..d + 1] == s[..d] + [s[d]];
    BlocksOfConcat(s[..d], [s[d]]);
    FreeCallsConcat(s[..d], [s[d]]);
  }

  /** ts differs from ts0 at most in the statuses of its records: no record
      is added, and no entry routine, argument, stack or link changes. */
  ghost predicate OnlyStatusesChanged(ts0: seq<Thread>, ts: seq<Thread>) {
    |ts| == |ts0| && forall i :: 0 <= i < |ts| ==> ts[i] == ts0[i].(status := ts[i].status)
  }

  /** One more status write keeps the other fields of every record. */
  lemma StatusWriteKeepsRecords(ts0: seq<Thread>, ts: seq<Thread>, c: nat, s: Status)
    requires OnlyStatusesChanged(ts0, ts) && c < |ts|
    ensures OnlyStatusesChanged(ts0, ts[c := ts[c].(status := s)])
  {
    var ts' := ts[c := ts[c].(status := s)];
    forall i | 0 <= i < |ts'| ensures ts'[i] == ts0[i].(status := ts'[i].status) {
      if i == c {
        assert ts'[i] == ts0[i].(status := s);
      } else {
        assert ts'[i] == ts[i];
      }
    }
  }

  /** Filling in the stack fields of the record just appended gives the
      arena with the finished record appended. */
  lemma StackFilledIn(ts: seq<Thread>, r: Thread, raw: int, base: int)
    ensures var ts1 := ts + [r];
      ts1[|ts| := ts1[|ts|].(stackRaw := raw, stackBase := base)] == ts + [r.(stackRaw := raw, stackBase := base)]
  {
  }

  /** Inserting t into the ring adds exactly t's two blocks to the owned ones. */
  lemma InsertedBlocks(ring: seq<nat>, cur: nat, t: nat)
    requires ring == [] || cur < |ring|
    ensures BlocksOf(InsertAfter(ring, cur, t)) == BlocksOf(ring) + {StackMem(t), RecordMem(t)}
  {
    forall b: Block
      ensures b in BlocksOf(InsertAfter(ring, cur, t)) <==> b in BlocksOf(ring) + {StackMem(t), RecordMem(t)}
    {
      BlocksOfOwner(InsertAfter(ring, cur, t), b);
      BlocksOfOwner(ring, b);
      InsertAfterMembers(ring, cur, t, b.owner);
    }
  }

  class ThreadScheduler {
    /** What page_size() returns; fixed for the life of the process. */
    const pageSize: nat
    var threads: seq<Thread>
    var head: int
    var current: int
    var live: set<Block>
    var freed: seq<Block>
    ghost var Ring: seq<nat>
    ghost var Cur: nat

    /** head and current point into a well-formed ring of records whose
        stacks are set up; an empty ring has both pointers NULL. */
    ghost predicate Valid()
      reads this
    {
      pageSize > 0 &&
      Wf(threads, Ring, pageSize) &&
      (Ring == [] ==> head == NULL && current == NULL && Cur == 0) &&
      (Ring != [] ==> Cur < |Ring| && head == Ring[0] && current == Ring[Cur])
    }

    /** The scheduler owns exactly the record and stack blocks of the ring
        members. */
    ghost predicate Owned()
      reads this
    {
      live == BlocksOf(Ring)
    }

    /** The statuses of the ring members, in ring order. */
    ghost function Statuses(): seq<Status>
      reads this
      requires forall k :: 0 <= k < |Ring| ==> Ring[k] < |threads|
    {
      StatusesOf(threads, Ring)
    }

    /** The scheduler before any scheduler_create: both pointers NULL. */
    constructor (page: nat)
      requires page > 0
      ensures Valid() && Owned()
      ensures pageSize == page && Ring == [] && threads == [] && live == {} && freed == []
    {
      pageSize := page;
      threads := [];
      head := NULL;
      current := NULL;
      live := {};
      freed := [];
      Ring := [];
      Cur := 0;
    }

    /** The walks from current->next in thread_candidate and free_all_threads
        follow ring members only and are back at current after |Ring| steps,
        never sooner. */
    lemma CurrentWalkReturns()
      requires Valid() && Ring != []
      ensures current >= 0 && current in Ring
      ensures Follow(threads, Ring, current, |Ring|) == current
      ensures forall j :: 0 < j < |Ring| ==> Follow(threads, Ring, current, j) != current
    {
      Circular(threads, Ring, Cur);
    }

    /** free() of one block the scheduler owns. */
    method FreeBlock(b: Block)
      requires b in live
      modifies this
      ensures live == old(live) - {b} && freed == old(freed) + [b]
      ensures threads == old(threads) && head == old(head) && current == old(current)
      ensures Ring == old(Ring) && Cur == old(Cur)
    {
      live := live - {b};
      freed := freed + [b];
    }

    /** allocate_thread: a fresh NOT_STARTED record with no successor, or NULL
        when malloc fails (mallocOk is malloc's outcome). The ring is not
        touched either way. */
    method AllocateThread(fnc: int, arg: int, mallocOk: bool) returns (t: int)
      requires Valid()
      modifies this
      ensures Valid()
      ensures Ring == old(Ring) && Cur == old(Cur) && Statuses() == old(Statuses())
      ensures head == old(head) && current == old(current) && freed == old(freed)
      ensures !mallocOk ==> t == NULL && threads == old(threads) && live == old(live)
      ensures mallocOk ==> t == |old(threads)| && t !in Ring && live == old(live) + {RecordMem(t)}
      ensures mallocOk ==> threads == old(threads) + [Thread(NotStarted, fnc, arg, NULL, NULL, NULL)]
    {
      if !mallocOk {
        t := NULL;
        return;
      }
      t := |threads|;
      var ts := threads + [Thread(NotStarted, fnc, arg, NULL, NULL, NULL)];
      OutsideRing(threads, ts, Ring, pageSize);
      threads := ts;
      live := live + {RecordMem(t)};
    }

    /** setup_stack: malloc of SZ_STACK + page bytes (mallocAddr is its result,
        NULL on failure), then the aligned base inside that block. */
    method SetupStack(t: nat, mallocAddr: int) returns (rc: int)
      requires Valid() && t < |threads| && t !in Ring
      requires mallocAddr == NULL || mallocAddr >= 0
      modifies this
      ensures Valid()
      ensures Ring == old(Ring) && Cur == old(Cur) && Statuses() == old(Statuses())
      ensures head == old(head) && current == old(current) && freed == old(freed)
      ensures mallocAddr == NULL ==> rc == -1 && threads == old(threads) && live == old(live)
      ensures mallocAddr != NULL ==> rc == 0 && live == old(live) + {StackMem(t)}
      ensures |threads| == |old(threads)|
      ensures mallocAddr != NULL ==> StackSetUp(threads[t], pageSize) && threads[t].stackRaw == mallocAddr
      ensures mallocAddr != NULL ==>
        threads == old(threads)[t := old(threads)[t].(stackRaw := mallocAddr, stackBase := MemoryAlign(mallocAddr, pageSize))]
    {
      if mallocAddr == NULL {
        rc := -1;
        return;
      }
      var region := StackRegionOf(mallocAddr, pageSize);
      var ts := threads[t := threads[t].(stackRaw := mallocAddr, stackBase := region.base)];
      forall k | 0 <= k < |Ring| ensures Ring[k] < |ts| && ts[Ring[k]] == threads[Ring[k]] {
        assert Ring[k] != t;
      }
      OutsideRing(threads, ts, Ring, pageSize);
      threads := ts;
      live := live + {StackMem(t)};
      rc := 0;
    }

    /** The first branch of insert_thread_into_scheduler: with no records
        yet, t becomes head and current and is its own successor. */
    method LinkAsOnlyTask(t: nat)
      requires Valid() && Ring == [] && t < |threads| && StackSetUp(threads[t], pageSize)
      modifies this
      ensures Valid()
      ensures Ring == [t] && Cur == 0 && head == t && current == t && threads[t].next == t
      ensures Statuses() == [old(threads)[t].status]
      ensures live == old(live) && freed == old(freed)
      ensures threads == old(threads)[t := old(threads)[t].(next := t)]
    {
      head := t;
      current := t;
      threads := threads[t := threads[t].(next := t)];
      Ring := [t];
      Cur := 0;
      assert Succ(0, 1) == 0;
    }

    /** The second branch of insert_thread_into_scheduler: t is linked in
        between current and current->next. */
    method LinkAfterCurrent(t: nat)
      requires Valid() && Ring != [] && t < |threads| && t !in Ring && StackSetUp(threads[t], pageSize)
      modifies this
      ensures Valid()
      ensures Ring == InsertAfter(old(Ring), old(Cur), t)
      ensures Statuses() == InsertAfter(old(Statuses()), old(Cur), old(threads)[t].status)
      ensures head == old(head) && current == old(current) && Cur == old(Cur)
      ensures live == old(live) && freed == old(freed)
      ensures threads == Relink(old(threads), old(current), t)
    {
      Insertion(threads, Ring, Cur, t, pageSize);
      threads := Relink(threads, current, t);
      Ring := InsertAfter(Ring, Cur, t);
    }

    /** insert_thread_into_scheduler: into an empty ring the record becomes
        head and current and its own successor; otherwise it is linked in
        right after current, and head and current stay where they were. Only
        next links change. */
    method InsertThreadIntoScheduler(t: nat)
      requires Valid() && t < |threads| && t !in Ring && StackSetUp(threads[t], pageSize)
      modifies this
      ensures Valid()
      ensures Ring == InsertAfter(old(Ring), old(Cur), t)
      ensures Statuses() == InsertAfter(old(Statuses()), old(Cur), old(threads)[t].status)
      ensures old(Ring) == [] ==> head == t && current == t && threads[t].next == t
      ensures old(Ring) != [] ==> head == old(head) && current == old(current) && Cur == old(Cur)
      ensures live == old(live) && freed == old(freed)
      ensures old(Ring) == [] ==> threads == old(threads)[t := old(threads)[t].(next := t)]
      ensures old(Ring) != [] ==> threads == Relink(old(threads), old(current), t)
    {
      if head == NULL {
        LinkAsOnlyTask(t);
      } else {
        LinkAfterCurrent(t);
      }
    }

    /** scheduler_create: -1 with nothing changed but the rollback when either
        malloc fails (recordOk is the record malloc's outcome, stackAddr the
        stack malloc's result), otherwise 0 with a NOT_STARTED record for fnc
        and arg inserted after current. */
    method Create(fnc: int, arg: int, recordOk: bool, stackAddr: int) returns (rc: int)
      requires Valid() && Owned()
      requires stackAddr == NULL || stackAddr >= 0
      modifies this
      ensures Valid() && Owned()
      ensures rc == (if recordOk && stackAddr != NULL then 0 else -1)
      ensures rc != 0 ==> Ring == old(Ring) && Cur == old(Cur) && Statuses() == old(Statuses())
      ensures rc != 0 ==> head == old(head) && current == old(current) && live == old(live)
      ensures rc != 0 ==> freed == old(freed) + (if recordOk then [RecordMem(|old(threads)|)] else [])
      ensures rc != 0 ==> threads == old(threads) + (if recordOk then [Thread(NotStarted, fnc, arg, NULL, NULL, NULL)] else [])
      ensures rc == 0 ==> Ring == InsertAfter(old(Ring), old(Cur), |old(threads)|)
      ensures rc == 0 ==> Statuses() == InsertAfter(old(Statuses()), old(Cur), NotStarted)
      ensures rc == 0 ==> |threads| == |old(threads)| + 1
      ensures rc == 0 ==> threads[|old(threads)|].fnc == fnc && threads[|old(threads)|].arg == arg
      ensures rc == 0 ==> threads[|old(threads)|].stackRaw == stackAddr && StackSetUp(threads[|old(threads)|], pageSize)
      ensures rc == 0 ==>
        var t := |old(threads)|;
        var record := Thread(NotStarted, fnc, arg, stackAddr, MemoryAlign(stackAddr, pageSize), NULL);
        var ts := old(threads) + [record];
        threads == if old(Ring) == [] then ts[t := record.(next := t)] else Relink(ts, old(current), t)
      ensures rc == 0 ==> freed == old(freed)
      ensures rc == 0 && old(Ring) == [] ==> head == |old(threads)| && current == head
      ensures rc == 0 && old(Ring) != [] ==> head == old(head) && current == old(current) && Cur == old(Cur)
    {
      var t := AllocateThread(fnc, arg, recordOk);
      if t == NULL {
        return -1;
      }
      BlocksOfOwner(Ring, RecordMem(t));
      BlocksOfOwner(Ring, StackMem(t));
      rc := SetupStack(t, stackAddr);
      if rc < 0 {
        FreeBlock(RecordMem(t));
        assert live == old(live);
        return -1;
      }
      StackFilledIn(old(threads), Thread(NotStarted, fnc, arg, NULL, NULL, NULL), stackAddr, MemoryAlign(stackAddr, pageSize));
      InsertedBlocks(Ring, Cur, t);
      InsertThreadIntoScheduler(t);
      rc := 0;
    }

    /** thread_candidate: walking from current->next, the first record that is
        not TERMINATED, or NULL once the walk is back at current. */
    method ThreadCandidate() returns (c: int)
      requires Valid() && Ring != []
      ensures match CandidatePos(Statuses(), Cur)
        case None => c == NULL
        case Some(p) => c == Ring[p]
    {
      ghost var ring, cur, n := Ring, Cur, |Ring|;
      ghost var sts := Statuses();
      var curr := threads[current].next;
      if n > 1 {
        assert AfterPos(cur, 0, n) == Succ(cur, n);
      }
      ghost var d := 0;
      while curr != current
        invariant 0 <= d <= n - 1
        invariant curr == if d < n - 1 then ring[AfterPos(cur, d, n)] else ring[cur]
        invariant forall j :: 0 <= j < d ==> sts[AfterPos(cur, j, n)] == Terminated
        decreases n - 1 - d
      {
        ghost var q := AfterPos(cur, d, n);
        assert curr == ring[q];
        assert sts[q] == threads[curr].status;
        if threads[curr].status != Terminated {
          CandidateAt(sts, cur, d);
          return curr;
        }
        assert sts[q] == Terminated;
        assert forall j :: 0 <= j < d + 1 ==> sts[AfterPos(cur, j, n)] == Terminated;
        AfterPosStep(cur, d, n);
        assert threads[curr].next == ring[Succ(q, n)];
        curr := threads[curr].next;
        d := d + 1;
        if d < n - 1 {
          assert curr == ring[AfterPos(cur, d, n)];
        } else {
          assert curr == ring[cur];
        }
      }
      NoCandidate(sts, cur);
      return NULL;
    }

    /** select_next_thread: the candidate. */
    method SelectNextThread() returns (c: int)
      requires Valid() && Ring != []
      ensures match CandidatePos(Statuses(), Cur)
        case None => c == NULL
        case Some(p) => c == Ring[p]
    {
      c := ThreadCandidate();
    }

    /** setup_stack_pointer: the initial stack pointer of a ring member is
        SZ_STACK above its aligned base and inside its raw block. */
    method SetupStackPointer(t: nat) returns (rsp: int)
      requires Valid() && t in Ring
      ensures t < |threads|
      ensures rsp - threads[t].stackBase == SZ_STACK
      ensures threads[t].stackRaw <= threads[t].stackBase < rsp
      ensures rsp <= threads[t].stackRaw + SZ_STACK + pageSize
    {
      rsp := StackTop(threads[t].stackRaw, threads[t].stackBase, pageSize);
    }

    /** run_new_thread, up to the call of the entry routine: the record is
        RUNNING. The call itself is the slice that EndSlice concludes. */
    method RunNewThread(t: nat)
      requires Valid() && Ring != [] && t == current
      modifies this`threads
      ensures Valid()
      ensures threads == old(threads)[t := old(threads)[t].(status := Running)]
      ensures Statuses() == old(Statuses())[Cur := Running]
    {
      StatusChange(threads, Ring, Cur, Running, pageSize);
      threads := threads[t := threads[t].(status := Running)];
    }

    /** schedule: NULL and nothing changed when there is no candidate;
        otherwise the candidate becomes current and RUNNING (whether it is
        started afresh or resumed). */
    method Schedule() returns (c: int)
      requires Valid() && Ring != []
      modifies this`threads, this`Cur, this`current
      ensures Valid()
      ensures CandidatePos(old(Statuses()), old(Cur)).None? ==>
        c == NULL && current == old(current) && Cur == old(Cur) && threads == old(threads)
      ensures CandidatePos(old(Statuses()), old(Cur)).Some? ==>
        var p := CandidatePos(old(Statuses()), old(Cur)).value;
        c == Ring[p] && current == c && Cur == p && Statuses() == old(Statuses())[p := Running] &&
        threads == old(threads)[c := old(threads)[c].(status := Running)]
    {
      c := SelectNextThread();
      if c == NULL {
        return;
      }
      ghost var p := CandidatePos(Statuses(), Cur).value;
      MakeCurrent(c, p);
      StartOrResume();
    }

    /** The two branches of schedule once the candidate is current: a
        NOT_STARTED record is started on its own stack, any other is resumed;
        either way it is RUNNING and nothing else changes. */
    method StartOrResume()
      requires Valid() && Ring != []
      modifies this`threads
      ensures Valid()
      ensures threads == old(threads)[current := old(threads)[current].(status := Running)]
      ensures Statuses() == old(Statuses())[Cur := Running]
    {
      if threads[current].status == NotStarted {
        var rsp := SetupStackPointer(current);
        RunNewThread(current);
      } else {
        ResumeThread();
      }
    }

    /** scheduler.current = candidate, for the member at ring position p. */
    method MakeCurrent(c: int, ghost p: nat)
      requires Valid() && p < |Ring| && c == Ring[p]
      modifies this`Cur, this`current
      ensures Valid() && Ring != []
      ensures Cur == p && current == c
    {
      Cur := p;
      current := c;
    }

    /** The resume branch of schedule: a record that has run before is marked
        RUNNING again before its saved context is restored. */
    method ResumeThread()
      requires Valid() && Ring != []
      modifies this`threads
      ensures Valid()
      ensures threads == old(threads)[current := old(threads)[current].(status := Running)]
      ensures Statuses() == old(Statuses())[Cur := Running]
    {
      StatusChange(threads, Ring, Cur, Running, pageSize);
      threads := threads[current := threads[current].(status := Running)];
    }

    /** put_thread_to_sleep: current becomes SLEEPING. */
    method PutThreadToSleep()
      requires Valid() && Ring != []
      modifies this`threads
      ensures Valid()
      ensures threads == old(threads)[current := old(threads)[current].(status := Sleeping)]
      ensures Statuses() == old(Statuses())[Cur := Sleeping]
    {
      StatusChange(threads, Ring, Cur, Sleeping, pageSize);
      threads := threads[current := threads[current].(status := Sleeping)];
    }

    /** scheduler_yield, as far as the scheduler's state goes: only for
        SIGALRM, and current goes to sleep. */
    method SchedulerYield(signum: int)
      requires signum == SIGALRM
      requires Valid() && Ring != []
      modifies this`threads
      ensures Valid()
      ensures threads == old(threads)[current := old(threads)[current].(status := Sleeping)]
      ensures Statuses() == old(Statuses())[Cur := Sleeping]
    {
      PutThreadToSleep();
    }

    /** The end of a slice of current: a yield puts it to sleep, a return from
        its entry routine makes run_new_thread mark it TERMINATED. */
    method EndSlice(o: Outcome)
      requires Valid() && Ring != []
      modifies this`threads
      ensures Valid()
      ensures threads == old(threads)[current := old(threads)[current].(status := SliceEnd(o))]
      ensures Statuses() == old(Statuses())[Cur := SliceEnd(o)]
    {
      if o == Yielded {
        SchedulerYield(SIGALRM);
      } else {
        StatusChange(threads, Ring, Cur, Terminated, pageSize);
        threads := threads[current := threads[current].(status := Terminated)];
      }
    }

    /** free_thread_memory: the stack block, then the record. */
    method FreeThreadMemory(t: nat)
      requires StackMem(t) in live && RecordMem(t) in live
      modifies this
      ensures live == old(live) - {StackMem(t), RecordMem(t)}
      ensures freed == old(freed) + FreeCalls([t])
      ensures threads == old(threads) && head == old(head) && current == old(current)
      ensures Ring == old(Ring) && Cur == old(Cur)
    {
      FreeBlock(StackMem(t));
      FreeBlock(RecordMem(t));
    }

    /** free_all_threads: frees every member but current, in ring order from
        current->next; current's blocks are all that is left. */
    method FreeAllThreads()
      requires Valid() && Owned() && Ring != []
      modifies this
      ensures threads == old(threads) && head == old(head) && current == old(current)
      ensures Ring == old(Ring) && Cur == old(Cur)
      ensures Valid()
      ensures live == {StackMem(current), RecordMem(current)}
      ensures freed == old(freed) + FreeCalls(After(Ring, Cur))
    {
      ghost var ring, cur, n := Ring, Cur, |Ring|;
      ghost var others := After(ring, cur);
      var curr := threads[current].next;
      if n > 1 {
        assert AfterPos(cur, 0, n) == Succ(cur, n);
      }
      ghost var d := 0;
      while curr != current
        invariant 0 <= d <= n - 1
        invariant curr == if d < n - 1 then ring[AfterPos(cur, d, n)] else ring[cur]
        invariant threads == old(threads) && head == old(head) && current == old(current)
        invariant Ring == old(Ring) && Cur == old(Cur)
        invariant live == old(live) - BlocksOf(others[..d])
        invariant freed == old(freed) + FreeCalls(others[..d])
        decreases n - 1 - d
      {
        assert others[d] == curr;
        var next := threads[curr].next;
        NextStillOwned(ring, cur, d);
        FreedOneMore(old(live), old(freed), others, d);
        FreeThreadMemory(curr);
        AfterPosStep(cur, d, n);
        assert next == ring[Succ(AfterPos(cur, d, n), n)];
        curr := next;
        d := d + 1;
        if d < n - 1 {
          assert curr == ring[AfterPos(cur, d, n)];
        } else {
          assert curr == ring[cur];
        }
      }
      assert others[..d] == others;
      OnlyCurrentLeft(ring, cur);
    }

    /** reset_scheduler: frees current, then both pointers are NULL and the
        ring is empty. */
    method ResetScheduler()
      requires Valid() && Ring != [] && live == {StackMem(current), RecordMem(current)}
      modifies this
      ensures Valid() && Owned()
      ensures Ring == [] && head == NULL && current == NULL && live == {}
      ensures freed == old(freed) + FreeCalls([old(current)])
      ensures threads == old(threads)
    {
      FreeThreadMemory(current);
      current := NULL;
      head := NULL;
      Ring := [];
      Cur := 0;
    }

    /** destroy: a no-op when current is NULL; otherwise every member is freed
        exactly once, the others in ring order from current->next and current
        last, and the scheduler is empty again. */
    method Destroy()
      requires Valid() && Owned()
      modifies this
      ensures Valid() && Owned()
      ensures Ring == [] && head == NULL && current == NULL && live == {}
      ensures threads == old(threads)
      ensures old(current) == NULL ==> freed == old(freed)
      ensures old(current) != NULL ==> freed == old(freed) + FreeCalls(FreeOrder(old(Ring), old(Cur)))
    {
      if current == NULL {
        assert Ring == [];
        return;
      }
      FreeAllThreads();
      ghost var others := After(Ring, Cur);
      ResetScheduler();
      FreeCallsConcat(others, [old(current)]);
    }

    /** One turn of the scheduler_execute loop: schedule, then the dispatched
        task runs until its slice ends as o says. Exactly what Slice says of
        the statuses and of the current position. */
    method RunSlice(o: Outcome) returns (c: int)
      requires Valid() && Ring != []
      modifies this`threads, this`Cur, this`current
      ensures Valid()
      ensures c == NULL <==> Slice(old(Statuses()), old(Cur), o).None?
      ensures c == NULL ==> current == old(current) && Cur == old(Cur) && threads == old(threads)
      ensures c != NULL ==>
                Slice(old(Statuses()), old(Cur), o) == Some((Statuses(), Cur)) &&
                Cur < |Ring| && c == Ring[Cur] && current == c &&
                threads == old(threads)[c := old(threads)[c].(status := SliceEnd(o))]
    {
      ghost var top := Statuses();
      ghost var ts := threads;
      c := Schedule();
      if c == NULL {
        return;
      }
      ghost var p := Cur;
      EndSlice(o);
      UpdateTwice(top, p, Running, SliceEnd(o));
      UpdateTwice(ts, c, ts[c].(status := Running), ts[c].(status := SliceEnd(o)));
    }

    /** The dispatch loop of scheduler_execute: one slice per entry of
        script (script[i] is how the i-th slice ends) until there is no
        candidate. The tasks dispatched, the statuses and current follow Run;
        nothing else changes. */
    method Dispatch(script: seq<Outcome>) returns (finished: bool, ghost trace: seq<nat>)
      requires Valid() && Ring != []
      modifies this`threads, this`Cur, this`current
      ensures Valid()
      ensures var r := Run(old(Statuses()), old(Cur), script);
        finished == r.finished && trace == r.trace && Cur == r.cur && Statuses() == r.sts
      ensures OnlyStatusesChanged(old(threads), threads)
    {
      ghost var S0 := Statuses();
      ghost var C0 := Cur;
      ghost var T0 := threads;
      ghost var whole := Run(S0, C0, script);
      RunStarts(S0, C0, script);
      trace := [];
      var i := 0;
      while i < |script|
        invariant 0 <= i <= |script|
        invariant Valid()
        invariant OnlyStatusesChanged(T0, threads)
        invariant RunSoFar(whole, trace, Statuses(), Cur, script, i)
      {
        ghost var top := Statuses();
        ghost var topCur := Cur;
        ghost var topThreads := threads;
        var c := RunSlice(script[i]);
        if c == NULL {
          break;
        }
        StatusWriteKeepsRecords(T0, topThreads, c, SliceEnd(script[i]));
        ghost var p := Cur;
        RunContinues(whole, trace, top, topCur, script, i, Statuses(), p);
        trace := trace + [p];
        i := i + 1;
      }
      finished := i < |script|;
      RunStops(whole, trace, Statuses(), Cur, script, i);
    }

    /** scheduler_execute: schedule until there is no candidate, then destroy.
        When the loop stops for want of a candidate the scheduler has freed
        every member as FreeOrder says and is empty; when the script runs out
        first, nothing but the statuses and current has changed. */
    method Execute(script: seq<Outcome>) returns (finished: bool, ghost trace: seq<nat>)
      requires Valid() && Owned() && Ring != []
      modifies this
      ensures Valid() && Owned()
      ensures var r := Run(old(Statuses()), old(Cur), script);
        finished == r.finished && trace == r.trace &&
        (finished ==> Ring == [] && head == NULL && current == NULL && live == {} &&
                      freed == old(freed) + FreeCalls(FreeOrder(old(Ring), r.cur))) &&
        (!finished ==> Ring == old(Ring) && Cur == r.cur && Statuses() == r.sts &&
                       head == old(head) && live == old(live) && freed == old(freed))
      ensures OnlyStatusesChanged(old(threads), threads)
    {
      finished, trace := Dispatch(script);
      if finished {
        Destroy();
      }
    }
  }
}

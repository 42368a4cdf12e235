/** The ready ring of the scheduler, stated on values: task records in an
    arena, the circular order of the ring as a sequence of arena indices
    (starting at head), round-robin candidate selection, the status changes
    of one time slice, a whole run of the dispatcher, and the order in which
    the teardown frees memory. The class in module Scheduler is proved
    against these definitions. */
module ReadyRing {

  datatype Option<T> = None | Some(value: T)

  /** Arena indices and addresses are naturals; NULL stands for C's NULL. */
  const NULL: int := -1

  datatype Status = NotStarted | Running | Sleeping | Terminated

  /** How a task's time slice ends: it yields (voluntarily or on SIGALRM), or
      its entry routine returns. */
  datatype Outcome = Yielded | Returned

  /** One task record. fnc and arg are opaque identities of the entry routine
      and its argument; stackRaw is what malloc returned for the stack,
      stackBase the aligned address; next is the arena index of the next
      record, or NULL. */
  datatype Thread = Thread(status: Status, fnc: int, arg: int, stackRaw: int, stackBase: int, next: int)

  /** The heap blocks a task owns: its stack block and the record itself. */
  datatype Block = StackMem(owner: nat) | RecordMem(owner: nat)

  // ---------------------------------------------------------------------------
  // Ring shape

  /** Ring position after position k in a ring of n records. */
  function Succ(k: nat, n: nat): nat
    requires k < n
  {
    if k + 1 < n then k + 1 else 0
  }

  ghost predicate Distinct<T>(s: seq<T>) {
    forall i, j :: 0 <= i < j < |s| ==> s[i] != s[j]
  }

  /** ring lists arena indices of distinct records of ts in link order: each
      record's next is the one after it, and the last links back to the first. */
  ghost predicate IsRing(ts: seq<Thread>, ring: seq<nat>) {
    (forall k :: 0 <= k < |ring| ==> ring[k] < |ts|) &&
    Distinct(ring) &&
    forall k :: 0 <= k < |ring| ==> ts[ring[k]].next == ring[Succ(k, |ring|)]
  }

  /** The list is closed: every member's next is a member again, never NULL,
      even when the ring holds a single record. */
  lemma RingClosed(ts: seq<Thread>, ring: seq<nat>)
    requires IsRing(ts, ring)
    ensures forall k :: 0 <= k < |ring| ==> ts[ring[k]].next != NULL && ts[ring[k]].next in ring
  {
    forall k | 0 <= k < |ring| ensures ts[ring[k]].next in ring {
      assert ts[ring[k]].next == ring[Succ(k, |ring|)];
    }
  }

  /** The statuses of the ring members, in ring order. */
  function StatusesOf(ts: seq<Thread>, ring: seq<nat>): (r: seq<Status>)
    requires forall k :: 0 <= k < |ring| ==> ring[k] < |ts|
    ensures |r| == |ring|
    ensures forall k {:trigger r[k]} :: 0 <= k < |ring| ==> r[k] == ts[ring[k]].status
  {
    if ring == [] then [] else [ts[ring[0]].status] + StatusesOf(ts, ring[1..])
  }

  /** Replacing records outside the ring, or adding records, changes neither
      the ring's links nor its statuses. */
  lemma SameRingRecords(ts: seq<Thread>, ts': seq<Thread>, ring: seq<nat>)
    requires IsRing(ts, ring)
    requires forall k :: 0 <= k < |ring| ==> ring[k] < |ts'| && ts'[ring[k]] == ts[ring[k]]
    ensures IsRing(ts', ring) && StatusesOf(ts', ring) == StatusesOf(ts, ring)
  {
  }

  /** Setting the status of the member at position k keeps the ring and
      changes only that member's status. */
  lemma SetStatus(ts: seq<Thread>, ring: seq<nat>, k: nat, s: Status)
    requires IsRing(ts, ring) && k < |ring|
    ensures IsRing(ts[ring[k] := ts[ring[k]].(status := s)], ring)
    ensures StatusesOf(ts[ring[k] := ts[ring[k]].(status := s)], ring) == StatusesOf(ts, ring)[k := s]
  {
    var ts' := ts[ring[k] := ts[ring[k]].(status := s)];
    forall j | 0 <= j < |ring| && j != k ensures ts'[ring[j]] == ts[ring[j]] {
      assert ring[j] != ring[k];
    }
  }

  /** One link step from a member stays in the ring. */
  lemma RingStep(ts: seq<Thread>, ring: seq<nat>, x: nat)
    requires IsRing(ts, ring) && x in ring
    ensures x < |ts| && ts[x].next in ring && ts[x].next >= 0
  {
    var k :| 0 <= k < |ring| && ring[k] == x;
    assert ts[x].next == ring[Succ(k, |ring|)];
  }

  /** Following next links j times from the member x; only ring members are
      ever visited, whatever the records outside the ring hold. */
  ghost function Follow(ts: seq<Thread>, ring: seq<nat>, x: nat, j: nat): (y: nat)
    requires IsRing(ts, ring) && x in ring
    ensures y in ring
    decreases j
  {
    RingStep(ts, ring, x);
    if j == 0 then x else Follow(ts, ring, ts[x].next, j - 1)
  }

  /** Walking j < |ring| - k steps from ring[k] reaches ring[k + j]. */
  lemma {:induction false} FollowWithin(ts: seq<Thread>, ring: seq<nat>, k: nat, j: nat)
    requires IsRing(ts, ring)
    requires k + j < |ring|
    ensures Follow(ts, ring, ring[k], j) == ring[k + j]
    decreases j
  {
    if j > 0 {
      assert ts[ring[k]].next == ring[k + 1];
      FollowWithin(ts, ring, k + 1, j - 1);
    }
  }

  lemma {:induction false} FollowSplit(ts: seq<Thread>, ring: seq<nat>, x: nat, a: nat, b: nat)
    requires IsRing(ts, ring) && x in ring
    ensures Follow(ts, ring, x, a + b) == Follow(ts, ring, Follow(ts, ring, x, a), b)
    decreases a
  {
    RingStep(ts, ring, x);
    if a > 0 {
      FollowSplit(ts, ring, ts[x].next, a - 1, b);
    }
  }

  /** The ring is circular: following next |ring| times from any member
      returns to it, and fewer steps never do. Records outside the ring
      (such as one left behind by a failed creation) play no part. */
  lemma Circular(ts: seq<Thread>, ring: seq<nat>, k: nat)
    requires IsRing(ts, ring)
    requires k < |ring|
    ensures Follow(ts, ring, ring[k], |ring|) == ring[k]
    ensures forall j :: 0 < j < |ring| ==> Follow(ts, ring, ring[k], j) != ring[k]
  {
    var n := |ring|;
    FollowWithin(ts, ring, k, n - 1 - k);
    FollowSplit(ts, ring, ring[k], n - 1 - k, k + 1);
    assert ts[ring[n - 1]].next == ring[0];
    FollowSplit(ts, ring, ring[n - 1], 1, k);
    FollowWithin(ts, ring, 0, k);
    forall j | 0 < j < n ensures Follow(ts, ring, ring[k], j) != ring[k] {
      FollowShort(ts, ring, k, j);
    }
  }

  /** Fewer than |ring| steps from ring[k] land on ring[(k + j) mod |ring|],
      which is another member. */
  lemma FollowShort(ts: seq<Thread>, ring: seq<nat>, k: nat, j: nat)
    requires IsRing(ts, ring) && k < |ring| && 0 < j < |ring|
    ensures Follow(ts, ring, ring[k], j) != ring[k]
  {
    var n := |ring|;
    if k + j < n {
      FollowWithin(ts, ring, k, j);
    } else {
      FollowWithin(ts, ring, k, n - 1 - k);
      FollowSplit(ts, ring, ring[k], n - 1 - k, j - (n - 1 - k));
      assert ts[ring[n - 1]].next == ring[0];
      FollowSplit(ts, ring, ring[n - 1], 1, k + j - n);
      FollowWithin(ts, ring, 0, k + j - n);
    }
  }

  // ---------------------------------------------------------------------------
  // Insertion directly after the current record

  /** The ring after inserting t directly after position cur (or the ring
      holding only t, when it was empty). */
  function InsertAfter<T>(ring: seq<T>, cur: nat, t: T): (r: seq<T>)
    requires ring == [] || cur < |ring|
    ensures |r| == |ring| + 1
    ensures ring == [] ==> r == [t]
    ensures ring != [] ==> r[cur + 1] == t && r[0] == ring[0]
  {
    if ring == [] then [t] else ring[..cur + 1] + [t] + ring[cur + 1..]
  }

  /** Inserting t lands it right after cur, keeps the head and the position of
      cur, adds exactly one member, and keeps the other members' relative
      order. */
  lemma InsertAfterShape<T>(ring: seq<T>, cur: nat, t: T)
    requires cur < |ring|
    ensures var r := InsertAfter(ring, cur, t);
      |r| == |ring| + 1 && r[cur + 1] == t && r[0] == ring[0] && r[cur] == ring[cur] &&
      r[..cur + 1] + r[cur + 2..] == ring
  {
    var r := InsertAfter(ring, cur, t);
    assert r[cur + 2..] == ring[cur + 1..];
    assert r[..cur + 1] == ring[..cur + 1];
  }

  /** Inserting adds t to the members and nothing else. */
  lemma InsertAfterMembers<T>(ring: seq<T>, cur: nat, t: T, x: T)
    requires ring == [] || cur < |ring|
    ensures x in InsertAfter(ring, cur, t) <==> x in ring || x == t
  {
    if ring != [] {
      assert ring == ring[..cur + 1] + ring[cur + 1..];
    }
  }

  /** The ring with next links after insert_thread_into_scheduler rewired them:
      c now links to t, and t to c's old successor. */
  function Relink(ts: seq<Thread>, c: nat, t: nat): (r: seq<Thread>)
    requires c < |ts| && t < |ts| && c != t
    ensures |r| == |ts|
    ensures r[c].next == t && r[t].next == ts[c].next
    ensures forall i :: 0 <= i < |ts| && i != c && i != t ==> r[i] == ts[i]
    ensures forall i :: 0 <= i < |ts| ==> r[i] == ts[i].(next := r[i].next)
  {
    var nx := ts[c].next;
    ts[c := ts[c].(next := t)][t := ts[t].(next := nx)]
  }

  /** Where each member of the ring sits after inserting t after cur. */
  lemma InsertAfterAt<T>(ring: seq<T>, cur: nat, t: T, k: nat)
    requires cur < |ring| && k <= |ring|
    ensures InsertAfter(ring, cur, t)[k] ==
      if k <= cur then ring[k] else if k == cur + 1 then t else ring[k - 1]
  {
  }

  /** Relinking keeps the ring circular, now with t as a member right after cur. */
  lemma InsertLinks(ts: seq<Thread>, ring: seq<nat>, cur: nat, t: nat)
    requires IsRing(ts, ring) && cur < |ring| && t < |ts| && t !in ring
    ensures IsRing(Relink(ts, ring[cur], t), InsertAfter(ring, cur, t))
  {
    var n := |ring|;
    var ts' := Relink(ts, ring[cur], t);
    var r := InsertAfter(ring, cur, t);
    forall k | 0 <= k < n + 1 ensures r[k] < |ts'| && ts'[r[k]].next == r[Succ(k, n + 1)] {
      InsertLinkAt(ts, ring, cur, t, k);
    }
    InsertDistinct(ring, cur, t);
  }

  lemma InsertLinkAt(ts: seq<Thread>, ring: seq<nat>, cur: nat, t: nat, k: nat)
    requires IsRing(ts, ring) && cur < |ring| && t < |ts| && t !in ring && k <= |ring|
    ensures var r := InsertAfter(ring, cur, t);
      r[k] < |ts| && Relink(ts, ring[cur], t)[r[k]].next == r[Succ(k, |ring| + 1)]
  {
    var n := |ring|;
    InsertAfterAt(ring, cur, t, k);
    InsertAfterAt(ring, cur, t, Succ(k, n + 1));
    if k < cur {
      assert ring[k] != ring[cur];
      assert ts[ring[k]].next == ring[Succ(k, n)];
    } else if k > cur + 1 {
      assert ring[k - 1] != ring[cur];
      assert ts[ring[k - 1]].next == ring[Succ(k - 1, n)];
    } else if k == cur + 1 {
      assert ts[ring[cur]].next == ring[Succ(cur, n)];
    }
  }

  lemma InsertDistinct<T>(ring: seq<T>, cur: nat, t: T)
    requires Distinct(ring) && cur < |ring| && t !in ring
    ensures Distinct(InsertAfter(ring, cur, t))
  {
    var r := InsertAfter(ring, cur, t);
    forall i, j | 0 <= i < j < |r| ensures r[i] != r[j] {
      InsertAfterAt(ring, cur, t, i);
      InsertAfterAt(ring, cur, t, j);
    }
  }

  /** Relinking changes no status, so the ring's statuses gain only t's. */
  lemma InsertStatuses(ts: seq<Thread>, ring: seq<nat>, cur: nat, t: nat)
    requires IsRing(ts, ring) && cur < |ring| && t < |ts| && t !in ring
    ensures StatusesOf(Relink(ts, ring[cur], t), InsertAfter(ring, cur, t))
         == InsertAfter(StatusesOf(ts, ring), cur, ts[t].status)
  {
    InsertLinks(ts, ring, cur, t);
    var a := StatusesOf(Relink(ts, ring[cur], t), InsertAfter(ring, cur, t));
    var b := InsertAfter(StatusesOf(ts, ring), cur, ts[t].status);
    var ts', r, sts := Relink(ts, ring[cur], t), InsertAfter(ring, cur, t), StatusesOf(ts, ring);
    assert |a| == |b|;
    forall k | 0 <= k < |a| ensures a[k] == b[k] {
      InsertAfterAt(ring, cur, t, k);
      InsertAfterAt(sts, cur, ts[t].status, k);
      assert a[k] == ts'[r[k]].status;
      if k <= cur {
        assert sts[k] == ts[ring[k]].status;
      } else if k > cur + 1 {
        assert sts[k - 1] == ts[ring[k - 1]].status;
      }
    }
  }

  /** The ring built by creating the tasks ids in order before the run:
      the cursor stays on the first one, so each later task is inserted
      right after it. */
  function CreatedBeforeRun(ids: seq<nat>): (r: seq<nat>)
    ensures |r| == |ids|
    ensures ids != [] ==> r[0] == ids[0]
  {
    if ids == [] then []
    else InsertAfter(CreatedBeforeRun(ids[..|ids| - 1]), 0, ids[|ids| - 1])
  }

  function Reverse<T>(s: seq<T>): (r: seq<T>)
    ensures |r| == |s|
  {
    if s == [] then [] else Reverse(s[1..]) + [s[0]]
  }

  lemma {:induction false} ReverseSnoc<T>(s: seq<T>, x: T)
    ensures Reverse(s + [x]) == [x] + Reverse(s)
  {
    if s != [] {
      assert (s + [x])[1..] == s[1..] + [x];
      ReverseSnoc(s[1..], x);
    }
  }

  /** Tasks created before the run sit after the head in reverse creation order. */
  lemma {:induction false} CreationOrder(ids: seq<nat>)
    requires ids != []
    ensures CreatedBeforeRun(ids) == [ids[0]] + Reverse(ids[1..])
  {
    if |ids| > 1 {
      var xs, x := ids[..|ids| - 1], ids[|ids| - 1];
      CreationOrder(xs);
      assert ids[1..] == xs[1..] + [x];
      ReverseSnoc(xs[1..], x);
    }
  }

  // ---------------------------------------------------------------------------
  // Round-robin candidate selection

  /** Ring position of the d-th record met walking forward from the one after
      cur (d < n - 1, so the walk has not come back to cur). */
  function AfterPos(cur: nat, d: nat, n: nat): (p: nat)
    requires cur < n && d < n - 1
    ensures p < n && p != cur
  {
    if cur + 1 + d < n then cur + 1 + d else cur + 1 + d - n
  }

  /** Number of records strictly between cur and p walking forward. */
  function Gap(cur: nat, p: nat, n: nat): (d: nat)
    requires cur < n && p < n && p != cur
    ensures d < n - 1 && AfterPos(cur, d, n) == p
  {
    if p > cur then p - cur - 1 else p + n - cur - 1
  }

  /** The members other than cur, in the order the walk from cur->next meets them. */
  function After<T>(s: seq<T>, cur: nat): (r: seq<T>)
    requires cur < |s|
    ensures |r| == |s| - 1
    ensures forall d :: 0 <= d < |r| ==> r[d] == s[AfterPos(cur, d, |s|)]
  {
    s[cur + 1..] + s[..cur]
  }

  /** Walking from cur->next over distinct members never meets a record twice. */
  lemma AfterFresh<T>(s: seq<T>, cur: nat, d: nat)
    requires Distinct(s) && cur < |s| && d < |s| - 1
    ensures After(s, cur)[d] !in After(s, cur)[..d]
  {
    var r, n := After(s, cur), |s|;
    forall j | 0 <= j < d ensures r[..d][j] != r[d] {
      assert r[j] == s[AfterPos(cur, j, n)];
      assert AfterPos(cur, j, n) != AfterPos(cur, d, n);
    }
  }

  /** Index of the first status that is not Terminated. */
  function FirstLive(s: seq<Status>): (r: Option<nat>)
    ensures r.Some? ==> r.value < |s| && s[r.value] != Terminated
    ensures r.Some? ==> forall e :: 0 <= e < r.value ==> s[e] == Terminated
    ensures r.None? <==> forall e :: 0 <= e < |s| ==> s[e] == Terminated
  {
    if s == [] then None
    else if s[0] != Terminated then Some(0)
    else match FirstLive(s[1..])
      case None => None
      case Some(e) => Some(e + 1)
  }

  /** thread_candidate on ring positions: the first non-terminated record met
      walking forward from cur->next, stopping (with None) when the walk is
      back at cur. It never yields cur itself; it yields None exactly when
      every record other than cur is Terminated. */
  function CandidatePos(sts: seq<Status>, cur: nat): (r: Option<nat>)
    requires cur < |sts|
    ensures r.Some? ==> r.value < |sts| && r.value != cur && sts[r.value] != Terminated
    ensures r.Some? ==> forall d :: 0 <= d < Gap(cur, r.value, |sts|) ==> sts[AfterPos(cur, d, |sts|)] == Terminated
    ensures r.None? <==> forall q :: 0 <= q < |sts| && q != cur ==> sts[q] == Terminated
  {
    var n := |sts|;
    match FirstLive(After(sts, cur))
    case None =>
      assert forall q :: 0 <= q < n && q != cur ==> sts[q] == After(sts, cur)[Gap(cur, q, n)];
      None
    case Some(d) =>
      assert Gap(cur, AfterPos(cur, d, n), n) == d;
      Some(AfterPos(cur, d, n))
  }

  /** One step of the walk from cur->next: the successor of the d-th member
      after cur is the (d+1)-th, or cur itself once every other member has
      been met. */
  lemma AfterPosStep(cur: nat, d: nat, n: nat)
    requires cur < n && d < n - 1
    ensures Succ(AfterPos(cur, d, n), n) == if d + 1 < n - 1 then AfterPos(cur, d + 1, n) else cur
  {
  }

  /** The walk met d terminated members after cur and then a live one: that
      one is the candidate. */
  lemma CandidateAt(sts: seq<Status>, cur: nat, d: nat)
    requires cur < |sts| && d < |sts| - 1
    requires sts[AfterPos(cur, d, |sts|)] != Terminated
    requires forall j :: 0 <= j < d ==> sts[AfterPos(cur, j, |sts|)] == Terminated
    ensures CandidatePos(sts, cur) == Some(AfterPos(cur, d, |sts|))
  {
    var n := |sts|;
    var p := AfterPos(cur, d, n);
    assert Gap(cur, p, n) == d;
  }

  /** The walk came back to cur having met only terminated members: there is
      no candidate. */
  lemma NoCandidate(sts: seq<Status>, cur: nat)
    requires cur < |sts|
    requires forall j :: 0 <= j < |sts| - 1 ==> sts[AfterPos(cur, j, |sts|)] == Terminated
    ensures CandidatePos(sts, cur) == None
  {
    forall q | 0 <= q < |sts| && q != cur ensures sts[q] == Terminated {
      assert AfterPos(cur, Gap(cur, q, |sts|), |sts|) == q;
    }
  }

  // ---------------------------------------------------------------------------
  // Dispatch and the run of the dispatcher

  /** The status a dispatched task has once its slice ends. */
  function SliceEnd(o: Outcome): (s: Status)
    ensures s == Sleeping || s == Terminated
    ensures s == Terminated <==> o == Returned
  {
    match o
    case Yielded => Sleeping
    case Returned => Terminated
  }

  /** One pass of the trampoline on ring statuses: select a candidate after
      cur; None when there is none, otherwise the new cursor and statuses. */
  function Slice(sts: seq<Status>, cur: nat, o: Outcome): (r: Option<(seq<Status>, nat)>)
    requires cur < |sts|
    ensures r.None? <==> forall q :: 0 <= q < |sts| && q != cur ==> sts[q] == Terminated
    ensures r.Some? ==> var (sts', p) := r.value;
      |sts'| == |sts| && p < |sts| && p != cur && sts[p] != Terminated &&
      sts'[p] == SliceEnd(o) && (forall q :: 0 <= q < |sts| && q != p ==> sts'[q] == sts[q])
  {
    match CandidatePos(sts, cur)
    case None => None
    case Some(p) => Some((sts[p := SliceEnd(o)], p))
  }

  /** What a run of the dispatcher produced: the ring positions dispatched, in
      order, the statuses and cursor it ended with, and whether it found no
      candidate (and so went on to destroy). */
  datatype RunResult = RunResult(trace: seq<nat>, sts: seq<Status>, cur: nat, finished: bool)

  /** scheduler_execute driven by script: one slice per outcome, until no
      candidate is left or the script is used up. */
  function Run(sts: seq<Status>, cur: nat, script: seq<Outcome>): (r: RunResult)
    requires cur < |sts|
    ensures |r.sts| == |sts| && r.cur < |sts|
    ensures r.finished ==> forall q :: 0 <= q < |sts| && q != r.cur ==> r.sts[q] == Terminated
    ensures r.finished || |r.trace| == |script|
    ensures |r.trace| <= |script|
    decreases |script|
  {
    if script == [] then RunResult([], sts, cur, false)
    else match Slice(sts, cur, script[0])
      case None => RunResult([], sts, cur, true)
      case Some((sts', p)) =>
        var rest := Run(sts', p, script[1..]);
        RunResult([p] + rest.trace, rest.sts, rest.cur, rest.finished)
  }

  /** A Terminated record is never dispatched again and stays Terminated for
      the rest of the run. */
  lemma {:induction false} TerminatedStays(sts: seq<Status>, cur: nat, script: seq<Outcome>)
    requires cur < |sts|
    ensures var r := Run(sts, cur, script);
      forall q :: 0 <= q < |sts| && sts[q] == Terminated ==> r.sts[q] == Terminated
    decreases |script|
  {
    if script != [] && CandidatePos(sts, cur).Some? {
      var p := CandidatePos(sts, cur).value;
      var sts' := sts[p := SliceEnd(script[0])];
      RunStep(sts, cur, script);
      TerminatedStays(sts', p, script[1..]);
    }
  }

  /** Every position a run dispatches is a ring position. */
  lemma {:induction false} TraceInRing(sts: seq<Status>, cur: nat, script: seq<Outcome>)
    requires cur < |sts|
    ensures var r := Run(sts, cur, script);
      forall k :: 0 <= k < |r.trace| ==> r.trace[k] < |sts|
    decreases |script|
  {
    if script != [] && CandidatePos(sts, cur).Some? {
      var p := CandidatePos(sts, cur).value;
      var sts' := sts[p := SliceEnd(script[0])];
      RunStep(sts, cur, script);
      TraceInRing(sts', p, script[1..]);
    }
  }

  /** Number of records not yet Terminated. */
  function LiveCount(s: seq<Status>): (c: nat)
    ensures c <= |s|
  {
    if s == [] then 0 else (if s[0] != Terminated then 1 else 0) + LiveCount(s[1..])
  }

  lemma {:induction false} LiveCountTerminate(s: seq<Status>, p: nat)
    requires p < |s| && s[p] != Terminated
    ensures LiveCount(s[p := Terminated]) == LiveCount(s) - 1
  {
    if p > 0 {
      assert s[p := Terminated][1..] == s[1..][p - 1 := Terminated];
      LiveCountTerminate(s[1..], p - 1);
    }
  }

  lemma {:induction false} LiveCountAllTerminated(s: seq<Status>)
    requires forall q :: 0 <= q < |s| ==> s[q] == Terminated
    ensures LiveCount(s) == 0
  {
    if s != [] {
      LiveCountAllTerminated(s[1..]);
    }
  }

  /** One slice of a run, unfolded. */
  lemma RunStep(sts: seq<Status>, cur: nat, script: seq<Outcome>)
    requires cur < |sts| && script != [] && CandidatePos(sts, cur).Some?
    ensures var p := CandidatePos(sts, cur).value;
      var rest := Run(sts[p := SliceEnd(script[0])], p, script[1..]);
      Run(sts, cur, script) == RunResult([p] + rest.trace, rest.sts, rest.cur, rest.finished)
  {
  }

  /** A run that will produce whole is under way: it has used the first i
      entries of script, dispatched trace, and stands at statuses sts with
      cursor cur. */
  ghost predicate RunSoFar(whole: RunResult, trace: seq<nat>, sts: seq<Status>, cur: nat,
                           script: seq<Outcome>, i: nat) {
    i <= |script| && cur < |sts| &&
    var r := Run(sts, cur, script[i..]);
    whole == RunResult(trace + r.trace, r.sts, r.cur, r.finished)
  }

  /** Before the first slice nothing has been dispatched. */
  lemma RunStarts(sts: seq<Status>, cur: nat, script: seq<Outcome>)
    requires cur < |sts|
    ensures RunSoFar(Run(sts, cur, script), [], sts, cur, script, 0)
  {
    assert script[0..] == script;
    assert [] + Run(sts, cur, script).trace == Run(sts, cur, script).trace;
  }

  /** One more slice of a run already under way, at entry i of script: the
      dispatched position is appended to the trace so far, and the rest of the
      run continues from the statuses and position the slice left. */
  lemma RunContinues(whole: RunResult, trace: seq<nat>, sts: seq<Status>, cur: nat,
                     script: seq<Outcome>, i: nat, sts': seq<Status>, p: nat)
    requires RunSoFar(whole, trace, sts, cur, script, i)
    requires i < |script| && Slice(sts, cur, script[i]) == Some((sts', p))
    ensures RunSoFar(whole, trace + [p], sts', p, script, i + 1)
  {
    assert script[i..][0] == script[i];
    assert script[i..][1..] == script[i + 1..];
    var rest := Run(sts', p, script[i + 1..]);
    assert trace + ([p] + rest.trace) == (trace + [p]) + rest.trace;
  }

  /** A run under way ends at entry i of script when the script is used up or
      there is no candidate; it is finished exactly in the second case. */
  lemma RunStops(whole: RunResult, trace: seq<nat>, sts: seq<Status>, cur: nat, script: seq<Outcome>, i: nat)
    requires RunSoFar(whole, trace, sts, cur, script, i)
    requires i == |script| || Slice(sts, cur, script[i]).None?
    ensures whole == RunResult(trace, sts, cur, i < |script|)
  {
    if i < |script| {
      assert script[i..][0] == script[i];
    } else {
      assert script[i..] == [];
    }
    assert trace + [] == trace;
  }

  /** A second update of the same position overrides the first. */
  lemma UpdateTwice<T>(s: seq<T>, p: nat, a: T, b: T)
    requires p < |s|
    ensures s[p := a][p := b] == s[p := b]
  {
  }

  /** Putting p, which was live and is now Terminated, in front of a trace of
      records live after that keeps the trace free of repeats. */
  lemma PrependDispatched(sts: seq<Status>, p: nat, trace: seq<nat>)
    requires p < |sts| && sts[p] != Terminated
    requires Distinct(trace)
    requires forall k :: 0 <= k < |trace| ==> trace[k] < |sts| && sts[p := Terminated][trace[k]] != Terminated
    ensures Distinct([p] + trace)
    ensures forall k :: 0 <= k < |[p] + trace| ==> ([p] + trace)[k] < |sts| && sts[([p] + trace)[k]] != Terminated
  {
    var t := [p] + trace;
    forall k | 0 < k < |t| ensures t[k] != p && t[k] < |sts| && sts[t[k]] != Terminated {
      assert t[k] == trace[k - 1];
    }
  }

  /** When every slice ends with the entry routine returning, no record is
      dispatched twice and only records live at the start are dispatched. */
  lemma {:induction false} ReturnedRunsAtMostOnce(sts: seq<Status>, cur: nat, script: seq<Outcome>)
    requires cur < |sts|
    requires forall i :: 0 <= i < |script| ==> script[i] == Returned
    ensures var r := Run(sts, cur, script);
      Distinct(r.trace) && forall k :: 0 <= k < |r.trace| ==> r.trace[k] < |sts| && sts[r.trace[k]] != Terminated
    decreases |script|
  {
    if script != [] && CandidatePos(sts, cur).Some? {
      var p := CandidatePos(sts, cur).value;
      var sts' := sts[p := Terminated];
      RunStep(sts, cur, script);
      ReturnedRunsAtMostOnce(sts', p, script[1..]);
      PrependDispatched(sts, p, Run(sts', p, script[1..]).trace);
    }
  }

  /** When every slice ends with the entry routine returning, some record
      other than cur is live and the script is long enough, the run stops for
      want of a candidate after one slice per live record, with every record
      Terminated. */
  lemma {:induction false} AllReturnedFinishes(sts: seq<Status>, cur: nat, script: seq<Outcome>)
    requires cur < |sts|
    requires forall i :: 0 <= i < |script| ==> script[i] == Returned
    requires |script| > LiveCount(sts)
    requires CandidatePos(sts, cur).Some?
    ensures var r := Run(sts, cur, script);
      r.finished && |r.trace| == LiveCount(sts) && forall q :: 0 <= q < |sts| ==> r.sts[q] == Terminated
    decreases |script|
  {
    var p := CandidatePos(sts, cur).value;
    var sts' := sts[p := Terminated];
    LiveCountTerminate(sts, p);
    RunStep(sts, cur, script);
    if CandidatePos(sts', p).None? {
      NothingLeft(sts', p, script[1..]);
    } else {
      AllReturnedFinishes(sts', p, script[1..]);
    }
  }

  /** No candidate and cur Terminated: the run ends at once, with every
      record Terminated. */
  lemma NothingLeft(sts: seq<Status>, cur: nat, script: seq<Outcome>)
    requires cur < |sts| && script != [] && sts[cur] == Terminated
    requires CandidatePos(sts, cur).None?
    ensures Run(sts, cur, script) == RunResult([], sts, cur, true)
    ensures LiveCount(sts) == 0 && forall q :: 0 <= q < |sts| ==> sts[q] == Terminated
  {
    LiveCountAllTerminated(sts);
  }

  /** Together: each live record is dispatched exactly once and the run ends
      with all of them Terminated. */
  lemma AllReturnedRunsEachOnce(sts: seq<Status>, cur: nat, script: seq<Outcome>)
    requires cur < |sts|
    requires forall i :: 0 <= i < |script| ==> script[i] == Returned
    requires |script| > LiveCount(sts)
    requires CandidatePos(sts, cur).Some?
    ensures var r := Run(sts, cur, script);
      r.finished && |r.trace| == LiveCount(sts) && Distinct(r.trace) &&
      (forall k :: 0 <= k < |r.trace| ==> r.trace[k] < |sts| && sts[r.trace[k]] != Terminated) &&
      forall q :: 0 <= q < |sts| ==> r.sts[q] == Terminated
  {
    ReturnedRunsAtMostOnce(sts, cur, script);
    AllReturnedFinishes(sts, cur, script);
  }

  /** The record k steps forward from cur. */
  function Advance(cur: nat, k: nat, n: nat): (p: nat)
    requires cur < n
    ensures p < n
    decreases k
  {
    if k == 0 then cur else Advance(Succ(cur, n), k - 1, n)
  }

  /** When the record right after cur is live, it is the candidate. */
  lemma NextLiveIsCandidate(sts: seq<Status>, cur: nat)
    requires cur < |sts| && |sts| >= 2 && sts[Succ(cur, |sts|)] != Terminated
    ensures CandidatePos(sts, cur) == Some(Succ(cur, |sts|))
  {
    assert AfterPos(cur, 0, |sts|) == Succ(cur, |sts|);
  }

  /** Round-robin fairness: while no task terminates and every slice ends in a
      yield, the slices go to the records in ring order, one per slice,
      starting with the one after cur. */
  lemma {:induction false} YieldingRotation(sts: seq<Status>, cur: nat, script: seq<Outcome>)
    requires cur < |sts| && |sts| >= 2
    requires forall q :: 0 <= q < |sts| ==> sts[q] != Terminated
    requires forall i :: 0 <= i < |script| ==> script[i] == Yielded
    ensures var r := Run(sts, cur, script);
      !r.finished && |r.trace| == |script| &&
      forall i :: 0 <= i < |script| ==> r.trace[i] == Advance(cur, i + 1, |sts|)
    decreases |script|
  {
    if script != [] {
      var n := |sts|;
      var p := Succ(cur, n);
      NextLiveIsCandidate(sts, cur);
      RunStep(sts, cur, script);
      var sts' := sts[p := Sleeping];
      YieldingRotation(sts', p, script[1..]);
      var rest := Run(sts', p, script[1..]);
      var r := Run(sts, cur, script);
      forall i | 0 <= i < |script| ensures r.trace[i] == Advance(cur, i + 1, n) {
        if i > 0 {
          assert r.trace[i] == rest.trace[i - 1];
        }
      }
    }
  }

  /** Three tasks A, B, C (arena 0, 1, 2) created in that order sit in the
      ring as A, C, B, so the first rotation goes C, B, A. */
  lemma ThreeTaskRing()
    ensures CreatedBeforeRun([0, 1, 2]) == [0, 2, 1]
  {
    CreationOrder([0, 1, 2]);
    assert [0, 1, 2][1..] == [1, 2];
    assert Reverse([1, 2]) == [2, 1];
  }

  // ---------------------------------------------------------------------------
  // Teardown

  /** The order destroy frees records: the others in ring order starting at
      current->next, then current. */
  function FreeOrder(ring: seq<nat>, cur: nat): (r: seq<nat>)
    requires cur < |ring|
    ensures |r| == |ring| && r[|r| - 1] == ring[cur]
  {
    After(ring, cur) + [ring[cur]]
  }

  /** The free() calls free_thread_memory makes for each record, in order:
      its stack block, then the record. */
  function FreeCalls(rs: seq<nat>): (r: seq<Block>)
    ensures |r| == 2 * |rs|
  {
    if rs == [] then [] else [StackMem(rs[0]), RecordMem(rs[0])] + FreeCalls(rs[1..])
  }

  lemma {:induction false} FreeCallsConcat(a: seq<nat>, b: seq<nat>)
    ensures FreeCalls(a + b) == FreeCalls(a) + FreeCalls(b)
  {
    if a == [] {
      assert a + b == b;
    } else {
      assert (a + b)[0] == a[0] && (a + b)[1..] == a[1..] + b;
      FreeCallsConcat(a[1..], b);
    }
  }

  /** The heap blocks owned by the records rs. */
  function BlocksOf(rs: seq<nat>): set<Block> {
    if rs == [] then {} else {StackMem(rs[0]), RecordMem(rs[0])} + BlocksOf(rs[1..])
  }

  lemma {:induction false} BlocksOfOwner(rs: seq<nat>, b: Block)
    ensures b in BlocksOf(rs) <==> b.owner in rs
  {
    if rs != [] {
      BlocksOfOwner(rs[1..], b);
      assert rs == [rs[0]] + rs[1..];
    }
  }

  lemma {:induction false} BlocksOfConcat(a: seq<nat>, b: seq<nat>)
    ensures BlocksOf(a + b) == BlocksOf(a) + BlocksOf(b)
  {
    if a == [] {
      assert a + b == b;
    } else {
      assert (a + b)[0] == a[0] && (a + b)[1..] == a[1..] + b;
      BlocksOfConcat(a[1..], b);
    }
  }

  lemma {:induction false} FreeCallsCount(rs: seq<nat>, b: Block)
    ensures multiset(FreeCalls(rs))[b] == multiset(rs)[b.owner]
  {
    if rs != [] {
      assert rs == [rs[0]] + rs[1..];
      FreeCallsCount(rs[1..], b);
    }
  }

  lemma {:induction false} DistinctCount(s: seq<nat>, x: nat)
    requires Distinct(s)
    ensures multiset(s)[x] == if x in s then 1 else 0
  {
    if s != [] {
      assert s == [s[0]] + s[1..];
      DistinctCount(s[1..], x);
    }
  }

  /** destroy frees every block of every ring member exactly once, and no other. */
  lemma FreedExactlyOnce(ring: seq<nat>, cur: nat)
    requires Distinct(ring) && cur < |ring|
    ensures forall b :: multiset(FreeCalls(FreeOrder(ring, cur)))[b] == if b.owner in ring then 1 else 0
  {
    var order := FreeOrder(ring, cur);
    assert ring == ring[..cur] + ring[cur..];
    assert ring[cur..] == [ring[cur]] + ring[cur + 1..];
    assert multiset(order) == multiset(ring);
    forall b ensures multiset(FreeCalls(order))[b] == if b.owner in ring then 1 else 0 {
      FreeCallsCount(order, b);
      DistinctCount(ring, b.owner);
    }
  }

  // ---------------------------------------------------------------------------
  // Finding: the last live task can be cut off

  /** A single task is never dispatched, whatever its status: the run ends at
      once with nothing changed (a NotStarted task never starts), and destroy
      frees it. */
  lemma SingleTaskNeverRuns(sts: seq<Status>, script: seq<Outcome>)
    requires |sts| == 1 && script != []
    ensures Run(sts, 0, script) == RunResult([], sts, 0, true)
  {
    assert CandidatePos(sts, 0).None?;
  }

  /** Whenever current is the only record that may not be Terminated, the
      run ends at once, so a live current is never dispatched again. */
  lemma LoneLiveCurrentCutShort(sts: seq<Status>, cur: nat, script: seq<Outcome>)
    requires cur < |sts| && script != []
    requires forall q :: 0 <= q < |sts| && q != cur ==> sts[q] == Terminated
    ensures Run(sts, cur, script) == RunResult([], sts, cur, true)
  {
    assert CandidatePos(sts, cur).None?;
  }

  /** Two tasks: once the first returns and the second yields, the second is
      the only live task and is current, so the run ends with it Sleeping. */
  lemma LastSurvivorCutShort()
    ensures Run([NotStarted, NotStarted], 0, [Yielded, Returned, Yielded, Returned])
         == RunResult([1, 0, 1], [Terminated, Sleeping], 1, true)
  {
    var s0: seq<Status> := [NotStarted, NotStarted];
    assert CandidatePos(s0, 0) == Some(1);
    var s1 := s0[1 := Sleeping];
    assert CandidatePos(s1, 1) == Some(0);
    var s2 := s1[0 := Terminated];
    assert CandidatePos(s2, 0) == Some(1);
    var s3 := s2[1 := Sleeping];
    assert CandidatePos(s3, 1).None?;
  }

  /** Selection as intended: fall back to cur itself when it is the only
      record left that is not Terminated. */
  function CandidateFixed(sts: seq<Status>, cur: nat): (r: Option<nat>)
    requires cur < |sts|
    ensures r.Some? ==> r.value < |sts| && sts[r.value] != Terminated
    ensures r.None? <==> forall q :: 0 <= q < |sts| ==> sts[q] == Terminated
    ensures CandidatePos(sts, cur).Some? ==> r == CandidatePos(sts, cur)
  {
    match CandidatePos(sts, cur)
    case Some(p) => Some(p)
    case None => if sts[cur] != Terminated then Some(cur) else None
  }

  /** The run with the intended selection: it only finishes once every task
      is Terminated. */
  function RunFixed(sts: seq<Status>, cur: nat, script: seq<Outcome>): (r: RunResult)
    requires cur < |sts|
    ensures |r.sts| == |sts| && r.cur < |sts|
    ensures r.finished ==> forall q :: 0 <= q < |sts| ==> r.sts[q] == Terminated
    ensures forall q :: 0 <= q < |sts| && sts[q] == Terminated ==> r.sts[q] == Terminated
    decreases |script|
  {
    if script == [] then RunResult([], sts, cur, false)
    else match CandidateFixed(sts, cur)
      case None => RunResult([], sts, cur, true)
      case Some(p) =>
        var rest := RunFixed(sts[p := SliceEnd(script[0])], p, script[1..]);
        RunResult([p] + rest.trace, rest.sts, rest.cur, rest.finished)
  }

  /** With the intended selection a lone live task is dispatched once per
      slice, Yielded after Yielded, up to and including the slice at k where
      its entry routine returns; the run then ends TERMINATED, and is finished
      exactly when the script goes on past k. */
  lemma {:induction false} SingleTaskRunsWhenFixed(s: Status, script: seq<Outcome>, k: nat)
    requires s != Terminated
    requires k < |script| && script[k] == Returned
    requires forall j :: 0 <= j < k ==> script[j] == Yielded
    ensures RunFixed([s], 0, script) == RunResult(seq(k + 1, _ => 0), [Terminated], 0, k < |script| - 1)
    decreases k
  {
    assert CandidatePos([s], 0).None?;
    assert CandidateFixed([s], 0) == Some(0);
    var rest := RunFixed([s][0 := SliceEnd(script[0])], 0, script[1..]);
    if k == 0 {
      assert [s][0 := SliceEnd(script[0])] == [Terminated];
      if |script| > 1 {
        assert CandidatePos([Terminated], 0).None?;
        assert CandidateFixed([Terminated], 0).None?;
      }
      assert rest == RunResult([], [Terminated], 0, k < |script| - 1);
    } else {
      assert [s][0 := SliceEnd(script[0])] == [Sleeping];
      forall j | 0 <= j < k - 1 ensures script[1..][j] == Yielded {
        assert script[j + 1] == Yielded;
      }
      SingleTaskRunsWhenFixed(Sleeping, script[1..], k - 1);
    }
    assert seq(k + 1, _ => 0) == [0] + seq(k, _ => 0);
  }

  /** The single task of the Findings example: NotStarted, it yields, then
      returns, and the next pass finds nothing left to run. */
  lemma SingleTaskExampleFixed()
    ensures RunFixed([NotStarted], 0, [Yielded, Returned, Yielded])
         == RunResult([0, 0], [Terminated], 0, true)
  {
    SingleTaskRunsWhenFixed(NotStarted, [Yielded, Returned, Yielded], 1);
    assert seq(2, _ => 0) == [0, 0];
  }
}

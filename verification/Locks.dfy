/**
 The two-level locking of the AC-DC engine: for each chunk a thread takes the lock of an LBA bucket and then at
 most one lock of a fingerprint bucket at a time, which after a failed lookup it gives back and takes another.
 */
module Locks {

  /** A chunk to process: the LBA bucket of its address and the fingerprint bucket of its content. */
  datatype Job = Job(read: bool, lba: nat, fp: nat)

  /** Where a thread is with its first job. */
  datatype Phase =
    | Start
    | LbaHeld
    | Verifying(found: nat)
    | Missed
    | Updating(held: nat)
    | FpReleased

  datatype Thread = Thread(todo: seq<Job>, phase: Phase)

  /** The threads and who holds each bucket's lock. */
  datatype System = System(threads: seq<Thread>, lbaHolder: map<nat, nat>, fpHolder: map<nat, nat>)

  /** What a thread meets at its next step: what the LBA index says, what verification says, or nothing to say. */
  datatype Outcome = Found(fp: nat) | NotFound | Hit | Miss | Go

  predicate Finished(t: Thread) { t.todo == [] }

  predicate Wf(t: Thread) { t.todo == [] ==> t.phase == Start }

  /** The outcomes a thread may meet; it cannot choose among them. */
  predicate Possible(t: Thread, o: Outcome) {
    && t.todo != []
    && match t.phase
       case LbaHeld => if t.todo[0].read then o.Found? || o == NotFound else o == NotFound
       case Verifying(_) => o == Hit || o == Miss
       case _ => o == Go
  }

  /** A step that takes a lock waits until nobody holds it. */
  predicate Enabled(s: System, i: nat, o: Outcome) {
    && i < |s.threads| && Possible(s.threads[i], o)
    && match s.threads[i].phase
       case Start => s.threads[i].todo[0].lba !in s.lbaHolder
       case LbaHeld => o.Found? ==> o.fp !in s.fpHolder
       case Missed => s.threads[i].todo[0].fp !in s.fpHolder
       case _ => true
  }

  function Next(s: System, i: nat, o: Outcome): System
    requires i < |s.threads| && Possible(s.threads[i], o)
  {
    var t := s.threads[i];
    var job := t.todo[0];
    match t.phase
    case Start =>
      s.(threads := s.threads[i := t.(phase := LbaHeld)], lbaHolder := s.lbaHolder[job.lba := i])
    case LbaHeld =>
      if o.Found? then s.(threads := s.threads[i := t.(phase := Verifying(o.fp))], fpHolder := s.fpHolder[o.fp := i])
      else s.(threads := s.threads[i := t.(phase := Missed)])
    case Verifying(f) =>
      if o == Hit then s.(threads := s.threads[i := t.(phase := Updating(f))])
      else s.(threads := s.threads[i := t.(phase := Missed)], fpHolder := s.fpHolder - {f})
    case Missed =>
      s.(threads := s.threads[i := t.(phase := Updating(job.fp))], fpHolder := s.fpHolder[job.fp := i])
    case Updating(f) =>
      s.(threads := s.threads[i := t.(phase := FpReleased)], fpHolder := s.fpHolder - {f})
    case FpReleased =>
      s.(threads := s.threads[i := Thread(t.todo[1..], Start)], lbaHolder := s.lbaHolder - {job.lba})
  }

  // ----- Who may touch what

  /** The thread reads or updates LBA bucket `b` in its present phase. */
  predicate UsesLba(t: Thread, b: nat) {
    t.todo != [] && t.phase != Start && t.todo[0].lba == b
  }

  /** The thread reads or updates fingerprint bucket `f`. */
  predicate UsesFp(t: Thread, f: nat) {
    t.todo != [] && (t.phase == Verifying(f) || t.phase == Updating(f))
  }

  /** The LBA locks are held by exactly the threads that use the buckets. */
  ghost predicate LbaInv(s: System) {
    && (forall b: nat, i: nat :: i < |s.threads| ==>
          (UsesLba(s.threads[i], b) <==> b in s.lbaHolder && s.lbaHolder[b] == i))
    && forall b :: b in s.lbaHolder ==> s.lbaHolder[b] < |s.threads|
  }

  /** So are the fingerprint locks. */
  ghost predicate FpInv(s: System) {
    && (forall f: nat, i: nat :: i < |s.threads| ==>
          (UsesFp(s.threads[i], f) <==> f in s.fpHolder && s.fpHolder[f] == i))
    && forall f :: f in s.fpHolder ==> s.fpHolder[f] < |s.threads|
  }

  ghost predicate Inv(s: System) {
    LbaInv(s) && FpInv(s) && forall i :: 0 <= i < |s.threads| ==> Wf(s.threads[i])
  }

  lemma NextKeepsLbaInv(s: System, i: nat, o: Outcome)
    requires LbaInv(s) && Enabled(s, i, o)
    ensures LbaInv(Next(s, i, o))
  {
    var r, t := Next(s, i, o), s.threads[i];
    assert UsesLba(t, t.todo[0].lba) <==> t.phase != Start;
    forall b: nat, j: nat | j < |r.threads|
      ensures UsesLba(r.threads[j], b) <==> b in r.lbaHolder && r.lbaHolder[b] == j
    {
      assert UsesLba(s.threads[j], b) <==> b in s.lbaHolder && s.lbaHolder[b] == j;
    }
  }

  lemma NextKeepsFpInv(s: System, i: nat, o: Outcome)
    requires FpInv(s) && Enabled(s, i, o)
    ensures FpInv(Next(s, i, o))
  {
    var r, t := Next(s, i, o), s.threads[i];
    forall f: nat, j: nat | j < |r.threads| ensures UsesFp(r.threads[j], f) <==> f in r.fpHolder && r.fpHolder[f] == j {
      assert UsesFp(s.threads[j], f) <==> f in s.fpHolder && s.fpHolder[f] == j;
      if t.phase.Verifying? { assert UsesFp(t, t.phase.found); }
      if t.phase.Updating? { assert UsesFp(t, t.phase.held); }
    }
  }

  lemma NextKeepsInv(s: System, i: nat, o: Outcome)
    requires Inv(s) && Enabled(s, i, o)
    ensures Inv(Next(s, i, o)) && |Next(s, i, o).threads| == |s.threads|
  {
    NextKeepsLbaInv(s, i, o);
    NextKeepsFpInv(s, i, o);
  }

  /** No two threads use one bucket, and a fingerprint bucket is used only under an LBA lock. */
  lemma BucketsUsedAlone(s: System, i: nat, j: nat, b: nat)
    requires Inv(s) && i < |s.threads| && j < |s.threads|
    ensures UsesLba(s.threads[i], b) && UsesLba(s.threads[j], b) ==> i == j
    ensures UsesFp(s.threads[i], b) && UsesFp(s.threads[j], b) ==> i == j
    ensures UsesFp(s.threads[i], b) ==> UsesLba(s.threads[i], s.threads[i].todo[0].lba)
  {
    assert UsesLba(s.threads[i], b) <==> b in s.lbaHolder && s.lbaHolder[b] == i;
    assert UsesLba(s.threads[j], b) <==> b in s.lbaHolder && s.lbaHolder[b] == j;
    assert UsesFp(s.threads[i], b) <==> b in s.fpHolder && s.fpHolder[b] == i;
    assert UsesFp(s.threads[j], b) <==> b in s.fpHolder && s.fpHolder[b] == j;
  }

  // ----- No deadlock

  /** A thread that uses a fingerprint bucket never waits. */
  lemma FpUserRuns(s: System, j: nat, f: nat, o: Outcome)
    requires j < |s.threads| && UsesFp(s.threads[j], f) && Possible(s.threads[j], o)
    ensures Enabled(s, j, o)
  {
  }

  /** The thread whose step must be possible if thread `i`'s is not. */
  function Blocker(s: System, i: nat, o: Outcome): nat
    requires i < |s.threads| && Possible(s.threads[i], o)
  {
    var t := s.threads[i];
    if t.phase == Start && t.todo[0].lba in s.lbaHolder then s.lbaHolder[t.todo[0].lba]
    else if t.phase == LbaHeld && o.Found? && o.fp in s.fpHolder then s.fpHolder[o.fp]
    else if t.phase == Missed && t.todo[0].fp in s.fpHolder then s.fpHolder[t.todo[0].fp]
    else i
  }

  /**
   Whatever outcomes the unfinished threads are about to meet, one of them can step: the thread itself, the one
   holding the lock it waits for, or the one that thread waits for.
   */
  lemma SomeThreadRuns(s: System, os: seq<Outcome>, i: nat) returns (j: nat)
    requires Inv(s) && i < |s.threads| && !Finished(s.threads[i]) && |os| == |s.threads|
    requires forall k :: 0 <= k < |os| && !Finished(s.threads[k]) ==> Possible(s.threads[k], os[k])
    ensures j < |s.threads| && Enabled(s, j, os[j])
  {
    j := i;
    if !Enabled(s, j, os[j]) {
      j := HolderOf(s, os, j);
      if !Enabled(s, j, os[j]) {
        j := HolderOf(s, os, j);
      }
    }
  }

  /** The holder of the lock a thread waits for uses that lock's bucket; a holder of a fingerprint lock runs. */
  lemma HolderOf(s: System, os: seq<Outcome>, i: nat) returns (j: nat)
    requires Inv(s) && i < |s.threads| && !Finished(s.threads[i]) && |os| == |s.threads|
    requires forall k :: 0 <= k < |os| && !Finished(s.threads[k]) ==> Possible(s.threads[k], os[k])
    requires !Enabled(s, i, os[i])
    ensures j < |s.threads| && !Finished(s.threads[j])
    ensures s.threads[i].phase != Start ==> Enabled(s, j, os[j])
    ensures s.threads[i].phase == Start ==> s.threads[j].phase != Start
  {
    var t := s.threads[i];
    j := Blocker(s, i, os[i]);
    if t.phase == Start {
      assert UsesLba(s.threads[j], t.todo[0].lba);
    } else {
      var f := if t.phase == LbaHeld then os[i].fp else t.todo[0].fp;
      assert UsesFp(s.threads[j], f);
      FpUserRuns(s, j, f, os[j]);
    }
  }

  // ----- Every run ends

  /** The steps a thread has left at most. */
  function Left(t: Thread): nat {
    6 * |t.todo| - match t.phase
                   case Start => 0
                   case LbaHeld => if t.todo == [] then 0 else 1
                   case Verifying(_) => if t.todo == [] then 0 else 2
                   case Missed => if t.todo == [] then 0 else 3
                   case Updating(_) => if t.todo == [] then 0 else 4
                   case FpReleased => if t.todo == [] then 0 else 5
  }

  function StepsLeft(ts: seq<Thread>): nat {
    if ts == [] then 0 else Left(ts[0]) + StepsLeft(ts[1..])
  }

  lemma {:induction false} LeftReplaced(ts: seq<Thread>, i: nat, t: Thread)
    requires i < |ts| && Left(t) < Left(ts[i])
    ensures StepsLeft(ts[i := t]) < StepsLeft(ts)
  {
    if i == 0 {
      assert ts[i := t][1..] == ts[1..];
    } else {
      assert ts[i := t][1..] == ts[1..][i - 1 := t];
      LeftReplaced(ts[1..], i - 1, t);
    }
  }

  lemma NextLeavesLess(s: System, i: nat, o: Outcome)
    requires Inv(s) && Enabled(s, i, o)
    ensures StepsLeft(Next(s, i, o).threads) < StepsLeft(s.threads)
  {
    var t := s.threads[i];
    LeftReplaced(s.threads, i, Next(s, i, o).threads[i]);
  }

  datatype Step = Step(thread: nat, outcome: Outcome)

  /** An interleaving of the threads' steps. */
  ghost predicate Schedule(s: System, steps: seq<Step>)
    decreases |steps|
  {
    steps != [] ==> Enabled(s, steps[0].thread, steps[0].outcome)
                    && Schedule(Next(s, steps[0].thread, steps[0].outcome), steps[1..])
  }

  function After(s: System, steps: seq<Step>): System
    decreases |steps|
  {
    if steps == [] || !Enabled(s, steps[0].thread, steps[0].outcome) then s
    else After(Next(s, steps[0].thread, steps[0].outcome), steps[1..])
  }

  /** Threads that have not begun and locks that nobody holds. */
  ghost predicate Initial(s: System) {
    s.lbaHolder == map[] && s.fpHolder == map[] && forall i :: 0 <= i < |s.threads| ==> s.threads[i].phase == Start
  }

  /** Every interleaving keeps the locks right and is no longer than the steps left at its start. */
  lemma {:induction false} SchedulesAreShort(s: System, steps: seq<Step>)
    requires Inv(s) && Schedule(s, steps)
    ensures Inv(After(s, steps)) && |steps| + StepsLeft(After(s, steps).threads) <= StepsLeft(s.threads)
    decreases |steps|
  {
    if steps != [] {
      NextKeepsInv(s, steps[0].thread, steps[0].outcome);
      NextLeavesLess(s, steps[0].thread, steps[0].outcome);
      SchedulesAreShort(Next(s, steps[0].thread, steps[0].outcome), steps[1..]);
    }
  }

  /** An interleaving stops only when every thread has finished, and then no lock is held. */
  lemma StoppedIsFinished(s: System, steps: seq<Step>, os: seq<Outcome>)
    requires Initial(s) && Schedule(s, steps)
    requires var r := After(s, steps);
             && |os| == |r.threads|
             && (forall k :: 0 <= k < |os| && !Finished(r.threads[k]) ==> Possible(r.threads[k], os[k]))
             && forall k :: 0 <= k < |os| ==> !Enabled(r, k, os[k])
    ensures var r := After(s, steps);
            (forall k :: 0 <= k < |r.threads| ==> Finished(r.threads[k])) && r.lbaHolder == map[] && r.fpHolder == map[]
  {
    SchedulesAreShort(s, steps);
    var r := After(s, steps);
    forall b | b in r.lbaHolder ensures !Finished(r.threads[r.lbaHolder[b]]) {
      assert UsesLba(r.threads[r.lbaHolder[b]], b);
    }
    forall f | f in r.fpHolder ensures !Finished(r.threads[r.fpHolder[f]]) {
      assert UsesFp(r.threads[r.fpHolder[f]], f);
    }
    forall k: nat | k < |r.threads| ensures Finished(r.threads[k]) {
      if !Finished(r.threads[k]) { var j := SomeThreadRuns(r, os, k); }
    }
  }

  // ----- Every chunk's buckets are used

  /** Thread `i` is at the chunk `todo[0]` and updates fingerprint bucket `f` under its lock. */
  ghost predicate Uses(s: System, i: nat, todo: seq<Job>, f: nat) {
    && i < |s.threads| && s.threads[i].todo == todo && s.threads[i].phase == Updating(f)
    && f in s.fpHolder && s.fpHolder[f] == i
  }

  /** At some point of the schedule it does. */
  ghost predicate UsesSometime(s: System, steps: seq<Step>, i: nat, todo: seq<Job>, f: nat) {
    exists k: nat :: k <= |steps| && Uses(After(s, steps[..k]), i, todo, f)
  }

  /** At some point the thread's verification of that chunk succeeds. */
  ghost predicate HitsSometime(s: System, steps: seq<Step>, i: nat, todo: seq<Job>) {
    exists k: nat :: k < |steps| && HitsAt(After(s, steps[..k]), steps[k], i, todo)
  }

  predicate HitsAt(s: System, step: Step, i: nat, todo: seq<Job>) {
    i < |s.threads| && s.threads[i].todo == todo && step == Step(i, Hit)
  }

  /** A later point of the schedule, seen from the system after its first step. */
  lemma AfterFirst(s: System, steps: seq<Step>, k: nat)
    requires steps != [] && Enabled(s, steps[0].thread, steps[0].outcome) && k <= |steps| - 1
    ensures After(s, steps[..k + 1]) == After(Next(s, steps[0].thread, steps[0].outcome), steps[1..][..k])
  {
    assert steps[..k + 1][0] == steps[0] && steps[..k + 1][1..] == steps[1..][..k];
  }

  lemma UsesLater(s: System, steps: seq<Step>, i: nat, todo: seq<Job>, f: nat)
    requires steps != [] && Enabled(s, steps[0].thread, steps[0].outcome)
    requires UsesSometime(Next(s, steps[0].thread, steps[0].outcome), steps[1..], i, todo, f)
    ensures UsesSometime(s, steps, i, todo, f)
  {
    var s1 := Next(s, steps[0].thread, steps[0].outcome);
    var k: nat :| k <= |steps[1..]| && Uses(After(s1, steps[1..][..k]), i, todo, f);
    AfterFirst(s, steps, k);
    assert Uses(After(s, steps[..k + 1]), i, todo, f);
  }

  lemma HitsLater(s: System, steps: seq<Step>, i: nat, todo: seq<Job>)
    requires steps != [] && Enabled(s, steps[0].thread, steps[0].outcome)
    requires HitsSometime(Next(s, steps[0].thread, steps[0].outcome), steps[1..], i, todo)
    ensures HitsSometime(s, steps, i, todo)
  {
    var s1 := Next(s, steps[0].thread, steps[0].outcome);
    var k: nat :| k < |steps[1..]| && HitsAt(After(s1, steps[1..][..k]), steps[1..][k], i, todo);
    AfterFirst(s, steps, k);
    assert HitsAt(After(s, steps[..k + 1]), steps[k + 1], i, todo);
  }

  lemma UsesNow(s: System, steps: seq<Step>, i: nat, todo: seq<Job>, f: nat)
    requires Uses(s, i, todo, f)
    ensures UsesSometime(s, steps, i, todo, f)
  {
    assert steps[..0] == [] && Uses(After(s, steps[..0]), i, todo, f);
  }

  /** The thread has yet to use its chunk's own bucket. */
  predicate Early(t: Thread) {
    t.todo != [] && !t.phase.Updating? && t.phase != FpReleased && (t.phase.Verifying? ==> t.todo[0].read)
  }

  /**
   A thread goes on to its next chunk only after it used the fingerprint bucket of this one's content under its lock,
   unless the chunk is a read whose verification succeeded.
   */
  lemma {:induction false} ChunkUsesOwnBucket(s: System, steps: seq<Step>, i: nat)
    requires Schedule(s, steps) && i < |s.threads| && Early(s.threads[i])
    requires |After(s, steps).threads| == |s.threads| && After(s, steps).threads[i].todo != s.threads[i].todo
    ensures var todo := s.threads[i].todo;
            || UsesSometime(s, steps, i, todo, todo[0].fp)
            || (todo[0].read && HitsSometime(s, steps, i, todo))
    decreases |steps|
  {
    var s1, todo := Next(s, steps[0].thread, steps[0].outcome), s.threads[i].todo;
    if steps[0] == Step(i, Hit) {
      assert steps[..0] == [] && HitsAt(After(s, steps[..0]), steps[0], i, todo);
    } else if s1.threads[i].phase.Updating? {
      UsesNow(s1, steps[1..], i, todo, todo[0].fp);
      UsesLater(s, steps, i, todo, todo[0].fp);
    } else {
      ChunkUsesOwnBucket(s1, steps[1..], i);
      if UsesSometime(s1, steps[1..], i, todo, todo[0].fp) {
        UsesLater(s, steps, i, todo, todo[0].fp);
      } else {
        HitsLater(s, steps, i, todo);
      }
    }
  }
}

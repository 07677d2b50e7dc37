/**
  The circular run list of kernel/sched.c.  `threads` is the list from the running thread on.
 */
module RunList {
  import opened Bits
  import opened Scheduling

  class Thread {
    const id: nat
    var rsp: Word
    var next: Thread?

    constructor (id: nat)
      ensures this.id == id
    {
      this.id := id;
      rsp := 0;
      next := null;
    }
  }

  function Ids(threads: seq<Thread>): (ids: seq<nat>)
    ensures |ids| == |threads|
  {
    seq(|threads|, i requires 0 <= i < |threads| => threads[i].id)
  }

  function Rsps(threads: seq<Thread>): (r: seq<Word>)
    reads threads
    ensures |r| == |threads|
  {
    seq(|threads|, i requires 0 <= i < |threads| reads threads => threads[i].rsp)
  }

  /** What a tick does to the list, with the interrupted thread's stack pointer, and what it returns. */
  ghost predicate TickStep(ids: seq<nat>, rsps: seq<Word>, ticks: nat, rsp: Word,
                           ids': seq<nat>, rsps': seq<Word>, ticks': nat, r: Word)
    requires |rsps| == |ids|
  {
    if |ids| > 1 && (ticks + 1) % SCHED_SLICE == 0 then
      ids' == ids[1..] + ids[..1] && rsps' == rsps[1..] + [rsp] && ticks' == ticks + 1 && r == rsps[1]
    else
      ids' == ids && rsps' == rsps && r == 0 && ticks' == if |ids| > 1 then ticks + 1 else ticks
  }

  /** The thread after the one at position i of the cycle. */
  function After(threads: seq<Thread>, i: nat): Thread
    requires i < |threads|
  {
    threads[if i + 1 < |threads| then i + 1 else 0]
  }

  ghost predicate LinkOk(threads: seq<Thread>, i: nat)
    requires i < |threads|
    reads threads
  {
    threads[i].next == After(threads, i)
  }

  class Scheduler {
    /** `current_thread`, `tick_count`, `next_thread_id` */
    var current: Thread?
    var ticks: nat
    var nextId: nat

    ghost var threads: seq<Thread>

    ghost predicate Valid()
      reads this, threads
    {
      && nextId == |threads|
      && (threads == [] <==> current == null)
      && (threads != [] ==> current == threads[0])
      && Distinct(Ids(threads))
      && forall i: nat | i < |threads| :: LinkOk(threads, i)
    }

    constructor ()
      ensures Valid() && threads == [] && ticks == 0
    {
      current := null;
      ticks := 0;
      nextId := 0;
      threads := [];
    }

    /** `sched_init`: the code that is running becomes thread 0. */
    method InitMain()
      requires Valid() && threads == []
      modifies this
      ensures Valid() && Ids(threads) == [0] && ticks == old(ticks) && fresh(threads)
    {
      var main := new Thread(nextId);
      nextId := nextId + 1;
      main.next := main;
      current := main;
      threads := [main];
    }

    /** The list part of `thread_create`: the new thread comes right after the running one. */
    method Insert(rsp: Word) returns (thread: Thread)
      requires Valid() && |threads| > 0 && forall i | 0 <= i < |threads| :: threads[i].id < nextId
      modifies this, threads
      ensures Valid() && fresh(thread) && thread.id == |old(threads)|
      ensures Ids(threads) == old(Ids(threads))[..1] + [thread.id] + old(Ids(threads))[1..]
      ensures Rsps(threads) == old(Rsps(threads))[..1] + [rsp] + old(Rsps(threads))[1..]
      ensures ticks == old(ticks)
      ensures forall i | 0 <= i < |threads| :: threads[i] in old(threads) || threads[i] == thread
    {
      DistinctThreads();
      ghost var before := threads;
      assert LinkOk(before, 0);
      thread := new Thread(nextId);
      nextId := nextId + 1;
      thread.rsp := rsp;
      thread.next := current.next;
      current.next := thread;
      threads := threads[..1] + [thread] + threads[1..];
      InsertedDistinct(before, thread);
      forall i: nat | i < |threads|
        ensures LinkOk(threads, i)
      {
        if i > 1 {
          assert old(LinkOk(before, i - 1)) && threads[i] == before[i - 1] && before[i - 1] != before[0];
        }
      }
    }

    /** `sched_tick`: 0, or the stack pointer of the thread to switch to. */
    method Tick(rsp: Word) returns (r: Word)
      requires Valid()
      modifies this, threads
      ensures Valid()
      ensures TickStep(old(Ids(threads)), old(Rsps(threads)), old(ticks), rsp, Ids(threads), Rsps(threads), ticks, r)
      ensures forall i | 0 <= i < |threads| :: threads[i] in old(threads)
    {
      DistinctThreads();
      ghost var before := threads;
      assert |before| > 0 ==> LinkOk(before, 0);
      if current == null || current.next == current {
        return 0;
      }
      ticks := ticks + 1;
      if ticks % SCHED_SLICE != 0 {
        return 0;
      }
      current.rsp := rsp;
      current := current.next;
      r := current.rsp;
      threads := threads[1..] + threads[..1];
      RotatedThreads(before);
      forall i: nat | i < |threads|
        ensures LinkOk(threads, i)
      {
        assert old(LinkOk(before, if i + 1 < |before| then i + 1 else 0));
      }
    }

    lemma DistinctThreads()
      requires Valid()
      ensures forall i, j | 0 <= i < j < |threads| :: threads[i] != threads[j]
    {
      assert forall i | 0 <= i < |threads| :: Ids(threads)[i] == threads[i].id;
    }
  }

  lemma InsertedDistinct(threads: seq<Thread>, thread: Thread)
    requires |threads| > 0 && Distinct(Ids(threads)) && forall i | 0 <= i < |threads| :: threads[i].id != thread.id
    ensures Distinct(Ids(threads[..1] + [thread] + threads[1..]))
  {
    var ids, ids' := Ids(threads), Ids(threads[..1] + [thread] + threads[1..]);
    forall i, j | 0 <= i < j < |ids'|
      ensures ids'[i] != ids'[j]
    {
      assert i != 1 ==> ids'[i] == ids[if i == 0 then 0 else i - 1];
      assert j != 1 ==> ids'[j] == ids[j - 1];
      assert i != 1 ==> threads[if i == 0 then 0 else i - 1].id != thread.id;
      assert j != 1 ==> threads[j - 1].id != thread.id;
    }
  }

  lemma RotatedThreads(threads: seq<Thread>)
    requires |threads| > 1 && Distinct(Ids(threads))
    ensures Ids(threads[1..] + threads[..1]) == Rotated(Ids(threads))
    ensures Distinct(Ids(threads[1..] + threads[..1]))
  {
    var ids := Ids(threads);
    assert ids == [ids[0]] + ([ids[1]] + ids[2..]);
    RotatedDistinct(ids[0], ids[1], ids[2..]);
    assert Rotated(ids) == [ids[1]] + (ids[2..] + [ids[0]]);
    assert Ids(threads[1..] + threads[..1]) == Rotated(ids);
  }
}

/**
 * The ETL job scheduler and its dependency resolver.
 *
 * `JobScheduler` is a min-priority queue: a `heapq` list of
 * `(priority, counter, job)` tuples, a counter that numbers scheduled jobs,
 * and a count of completed jobs. `DependencyResolver` records, per job id, the
 * ids that must complete first, and either schedules a job or parks it on a
 * waiting queue.
 */
module Scheduling {
  import opened Wrappers
  import opened JobHeap

  /** The snapshot returned by `JobScheduler.stats`. */
  datatype SchedulerStats = SchedulerStats(pending: nat, completed: nat, nextPriority: Option<int>)

  class JobScheduler {
    /** The `heapq` list of pending entries. */
    var heap: seq<Entry>
    /** The counter the next scheduled job receives. */
    var counter: nat
    /** How many jobs were reported complete. */
    var jobsCompleted: nat

    /** The pending entries, regardless of their place in the heap. */
    ghost function Pending(): multiset<Entry>
      reads this
    {
      multiset(heap)
    }

    /**
     * The list is a heap, every pending entry got a distinct counter below the
     * next one, and each entry's priority is its job's priority.
     */
    ghost predicate Valid()
      reads this
    {
      && IsHeap(heap)
      && DistinctCounters(multiset(heap))
      && (forall e | e in multiset(heap) :: e.counter < counter && e.job.priority == e.priority)
    }

    constructor ()
      ensures Valid()
      ensures heap == [] && counter == 0 && jobsCompleted == 0
    {
      heap := [];
      counter := 0;
      jobsCompleted := 0;
    }

    /**
     * `schedule_job`: create the job record, push `(priority, counter, job)`
     * and advance the counter. The new entry's counter exceeds that of every
     * job already pending, which is what makes equal priorities FIFO.
     */
    method ScheduleJob(jobId: string, jobType: string, priority: JobPriority := Normal, config: Config := map[])
      requires Valid()
      modifies this
      ensures Valid()
      ensures Pending() == old(Pending()) + multiset{NewEntry(jobId, jobType, priority, config, old(counter))}
      ensures forall e | e in old(Pending()) :: e.counter < old(counter)
      ensures counter == old(counter) + 1 && jobsCompleted == old(jobsCompleted)
      ensures |heap| == |old(heap)| + 1
    {
      var e := NewEntry(jobId, jobType, priority, config, counter);
      heap := HeapPush(heap, e);
      counter := counter + 1;
    }

    /**
     * `get_next_job`: `None` on an empty scheduler, which is left as it was;
     * otherwise remove and return the pending job with the least
     * `(priority, counter)`. That job is the head of
     * `DispatchOrder(old(Pending()))`, and by `DispatchStep` what stays
     * pending drains as its tail.
     */
    method GetNextJob() returns (job: Option<ETLJob>)
      requires Valid()
      modifies this
      ensures Valid()
      ensures counter == old(counter) && jobsCompleted == old(jobsCompleted)
      ensures old(Pending()) == multiset{} ==> job == None && heap == old(heap)
      ensures old(Pending()) != multiset{} ==>
        && job == Some(MinOf(old(Pending())).job)
        && Pending() == old(Pending()) - multiset{MinOf(old(Pending()))}
    {
      if |heap| == 0 {
        return None;
      }
      RootIsMin(heap);
      var top, rest := HeapPop(heap);
      heap := rest;
      job := Some(top.job);
    }

    /**
     * `peek_next`: the job `GetNextJob` would return, or `None` when nothing
     * is pending. Being a query it changes nothing.
     */
    function PeekNext(): (job: Option<ETLJob>)
      reads this
      requires Valid()
      ensures Pending() == multiset{} ==> job == None
      ensures Pending() != multiset{} ==> job == Some(MinOf(Pending()).job)
    {
      if |heap| == 0 then None
      else
        RootIsMin(heap);
        Some(heap[0].job)
    }

    /** `is_empty`: whether no job is pending. */
    function IsEmpty(): (empty: bool)
      reads this
      ensures empty <==> Pending() == multiset{}
    {
      |heap| == 0
    }

    /** `pending_jobs`: the number of pending jobs. */
    function PendingJobs(): (n: nat)
      reads this
      ensures n == |Pending()|
      ensures n == 0 <==> IsEmpty()
    {
      |heap|
    }

    /** `__len__`: the number of pending jobs, as `pending_jobs` reports it. */
    function Len(): (n: nat)
      reads this
      ensures n == PendingJobs() && n == |Pending()|
    {
      |heap|
    }

    /**
     * `complete_job`: count one more completed job. The job passed in is not
     * inspected, and the pending jobs are untouched.
     */
    method CompleteJob(job: ETLJob)
      requires Valid()
      modifies this`jobsCompleted
      ensures Valid()
      ensures jobsCompleted == old(jobsCompleted) + 1
    {
      jobsCompleted := jobsCompleted + 1;
    }

    /**
     * `stats`: the pending count, the completed count, and the priority of the
     * job `peek_next` shows, which no pending job's priority undercuts.
     */
    function Stats(): (s: SchedulerStats)
      reads this
      requires Valid()
      ensures s.pending == Len() && s.completed == jobsCompleted
      ensures s.nextPriority == None <==> IsEmpty()
      ensures s.nextPriority.Some? ==> PeekNext().Some? && s.nextPriority.value == PeekNext().value.priority
      ensures s.nextPriority.Some? ==> forall e | e in Pending() :: s.nextPriority.value <= e.priority
    {
      var next := PeekNext();
      SchedulerStats(|heap|, jobsCompleted, if next.Some? then Some(next.value.priority) else None)
    }
  }

  /** The entry `schedule_job` pushes for a job scheduled with counter `n`. */
  function NewEntry(jobId: string, jobType: string, priority: JobPriority, config: Config, n: nat): (e: Entry)
    ensures e.counter == n && 1 <= e.priority <= 5 && DeclaredLevels[e.priority - 1] == priority
    ensures e.job.priority == e.priority
    ensures e.job.jobId == jobId && e.job.jobType == jobType && e.job.config == config
  {
    Entry(priority.Level(), n, ETLJob(priority.Level(), jobId, jobType, config))
  }

  /** The entries `ScheduleExampleJobs` pushes, in the order it pushes them. */
  function ExampleEntries(): (es: seq<Entry>)
    ensures |es| == 3
    ensures es[1].priority == es[2].priority < es[0].priority
    ensures es[0].counter < es[1].counter < es[2].counter
  {
    [NewEntry("j1", "extract", Normal, map[], 0),
     NewEntry("j2", "transform", High, map[], 1),
     NewEntry("j3", "load", High, map[], 2)]
  }

  /**
   * Calls `GetNextJob` on a scheduler whose pending entries are `m`, of which
   * `e` is the least.
   */
  method PopExpecting(s: JobScheduler, ghost m: multiset<Entry>, e: Entry) returns (job: Option<ETLJob>)
    requires s.Valid() && s.Pending() == m && IsMin(e, m)
    modifies s
    ensures s.Valid() && job == Some(e.job)
    ensures s.Pending() == m - multiset{e}
  {
    MinIsUnique(s.Pending(), e, MinOf(s.Pending()));
    job := s.GetNextJob();
  }

  /** A fresh scheduler given jobs "j1" (NORMAL), "j2" (HIGH) and "j3" (HIGH), in that order. */
  method ScheduleExampleJobs() returns (s: JobScheduler)
    ensures fresh(s) && s.Valid()
    ensures s.Pending() == multiset(ExampleEntries())
  {
    s := new JobScheduler();
    s.ScheduleJob("j1", "extract", Normal);
    s.ScheduleJob("j2", "transform", High);
    s.ScheduleJob("j3", "load", High);
  }

  /** The last three requests of `DispatchExample`, with "j1" and the later "j3" pending. */
  method FinishExample(s: JobScheduler) returns (second: Option<ETLJob>, third: Option<ETLJob>, fourth: Option<ETLJob>)
    requires s.Valid()
    requires s.Pending() == multiset{ExampleEntries()[0], ExampleEntries()[2]}
    modifies s
    ensures second == Some(ExampleEntries()[2].job)
    ensures third == Some(ExampleEntries()[0].job)
    ensures fourth == None
  {
    var e1, e3 := ExampleEntries()[0], ExampleEntries()[2];
    second := PopExpecting(s, multiset{e1, e3}, e3);
    assert multiset{e1, e3} - multiset{e3} == multiset{e1};
    third := PopExpecting(s, multiset{e1}, e1);
    assert multiset{e1} - multiset{e1} == multiset{};
    fourth := s.GetNextJob();
  }

  /**
   * A client of the scheduler: jobs scheduled as NORMAL, HIGH, HIGH leave as
   * the first HIGH, then the second HIGH, then the NORMAL one, and a fourth
   * request finds the scheduler empty.
   */
  method DispatchExample() returns (first: Option<ETLJob>, second: Option<ETLJob>,
                                    third: Option<ETLJob>, fourth: Option<ETLJob>)
    ensures first.Some? && first.value.jobId == "j2"
    ensures second.Some? && second.value.jobId == "j3"
    ensures third.Some? && third.value.jobId == "j1"
    ensures fourth == None
  {
    var s := ScheduleExampleJobs();
    var es := ExampleEntries();
    assert multiset(es) == multiset{es[0], es[1], es[2]};
    first := PopExpecting(s, multiset(es), es[1]);
    assert multiset(es) - multiset{es[1]} == multiset{es[0], es[2]};
    second, third, fourth := FinishExample(s);
  }

  /** A job parked by `schedule_with_dependencies` because a prerequisite is not done. */
  datatype WaitingJob = WaitingJob(jobId: string, jobType: string, priority: JobPriority)

  /** Every prerequisite in `deps` is in `done` (Python's `all(d in done for d in deps)`). */
  function AllCompleted(deps: seq<string>, done: set<string>): (r: bool)
    ensures r <==> forall i :: 0 <= i < |deps| ==> deps[i] in done
  {
    if deps == [] then true else deps[0] in done && AllCompleted(deps[1..], done)
  }

  /** No job with a prerequisite is schedulable while nothing has completed. */
  lemma {:induction false} NothingCompletedBlocksEveryPrerequisite(deps: seq<string>)
    ensures AllCompleted(deps, {}) <==> deps == []
  {
    if deps != [] {
      assert deps[0] !in {};
    }
  }

  class DependencyResolver {
    /** The scheduler jobs are handed to once schedulable. */
    const scheduler: JobScheduler
    /** Job id to the ids that must complete first. */
    var dependencies: map<string, seq<string>>
    /** Ids of completed jobs. */
    var completed: set<string>
    /** Jobs whose prerequisites were not all complete when they were submitted. */
    var waiting: seq<WaitingJob>

    ghost predicate Valid()
      reads this, scheduler
    {
      scheduler.Valid()
    }

    constructor (scheduler: JobScheduler)
      requires scheduler.Valid()
      ensures Valid()
      ensures this.scheduler == scheduler
      ensures dependencies == map[] && completed == {} && waiting == []
    {
      this.scheduler := scheduler;
      dependencies := map[];
      completed := {};
      waiting := [];
    }

    /** `add_dependency`: record (or replace) the prerequisites of `jobId`. */
    method AddDependency(jobId: string, dependsOn: seq<string>)
      modifies this`dependencies
      ensures dependencies == old(dependencies)[jobId := dependsOn]
    {
      dependencies := dependencies[jobId := dependsOn];
    }

    /** The recorded prerequisites of `jobId`; none when nothing was recorded. */
    function Prerequisites(jobId: string): seq<string>
      reads this
    {
      if jobId in dependencies then dependencies[jobId] else []
    }

    /** `can_schedule`: every prerequisite of `jobId` has completed. */
    function CanSchedule(jobId: string): (ok: bool)
      reads this
      ensures ok <==> forall d | d in Prerequisites(jobId) :: d in completed
      ensures Prerequisites(jobId) == [] ==> ok
    {
      AllCompleted(Prerequisites(jobId), completed)
    }

    /**
     * `schedule_with_dependencies`: record the prerequisites when given, then
     * put the job in exactly one place: the scheduler when it can be
     * scheduled, otherwise the end of the waiting queue.
     */
    method ScheduleWithDependencies(jobId: string, jobType: string, priority: JobPriority,
                                    dependsOn: Option<seq<string>> := None)
      requires Valid()
      modifies this`dependencies, this`waiting, scheduler
      ensures Valid()
      ensures dependencies == if dependsOn.Some? then old(dependencies)[jobId := dependsOn.value]
                              else old(dependencies)
      ensures CanSchedule(jobId) ==>
        && scheduler.Pending() == old(scheduler.Pending()) + multiset{NewEntry(jobId, jobType, priority, map[], old(scheduler.counter))}
        && scheduler.counter == old(scheduler.counter) + 1
        && waiting == old(waiting)
      ensures !CanSchedule(jobId) ==>
        && scheduler.heap == old(scheduler.heap) && scheduler.counter == old(scheduler.counter)
        && waiting == old(waiting) + [WaitingJob(jobId, jobType, priority)]
      ensures scheduler.jobsCompleted == old(scheduler.jobsCompleted)
    {
      if dependsOn.Some? {
        AddDependency(jobId, dependsOn.value);
      }
      if CanSchedule(jobId) {
        scheduler.ScheduleJob(jobId, jobType, priority);
      } else {
        waiting := waiting + [WaitingJob(jobId, jobType, priority)];
      }
    }
  }
}

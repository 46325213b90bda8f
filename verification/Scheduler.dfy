/** The scheduler in memory: linked ready queues, counters, and the state fields
    of the tasks, changed in place. */
module Scheduler {
  import opened Wrappers
  import opened Scheduling
  import opened SchedulerRuns

  class Task {
    var state: TaskState
    var priority: int
  }

  class QueueItem {
    const data: Task
    var next: QueueItem?
    /** The queue whose list the node was made for. */
    ghost const owner: Queue

    constructor (data: Task, owner: Queue)
      ensures this.data == data && this.owner == owner && next == null
    {
      this.data := data;
      this.owner := owner;
      next := null;
    }
  }

  class Queue {
    var head: QueueItem?
    var tail: QueueItem?
    /** The nodes from head to tail, and the tasks they hold. */
    ghost var items: seq<QueueItem>
    ghost var contents: seq<Task>
    ghost var nodes: set<QueueItem>
    ghost const level: int

    ghost predicate Valid()
      reads this, nodes
    {
      |contents| == |items|
      && (forall i :: 0 <= i < |items| ==> items[i] in nodes && items[i].data == contents[i])
      && (forall n :: n in nodes ==> n.owner == this)
      && (if items == [] then head == null && tail == null
          else head == items[0] && tail == items[|items| - 1] && tail.next == null)
      && (forall i, j :: 0 <= i && j == i + 1 && j < |items| ==> items[i].next == items[j])
      && (forall i, j :: 0 <= i < j < |items| ==> items[i] != items[j])
    }

    constructor (level: int)
      ensures Valid() && items == [] && contents == [] && nodes == {} && this.level == level
    {
      this.level := level;
      head, tail := null, null;
      items, contents, nodes := [], [], {};
    }

    /** `appendItem`. */
    method AppendItem(data: Task)
      requires Valid()
      modifies this, tail
      ensures Valid() && contents == old(contents) + [data]
      ensures fresh(tail) && items == old(items) + [tail] && nodes == old(nodes) + {tail}
    {
      var newNode := new QueueItem(data, this);
      if tail != null {
        tail.next := newNode;
      } else {
        head := newNode;
      }
      tail := newNode;
      items, contents, nodes := items + [newNode], contents + [data], nodes + {newNode};
    }

    /** Forget every node. */
    method Clear()
      requires Valid()
      modifies this
      ensures Valid() && items == [] && contents == [] && nodes == old(nodes)
    {
      head, tail := null, null;
      items, contents := [], [];
    }

    /** `removeFirstItem`. */
    method RemoveFirstItem() returns (data: Task?)
      requires Valid()
      modifies this
      ensures Valid() && nodes == old(nodes)
      ensures old(items) == [] ==> data == null && items == [] && contents == []
      ensures old(items) != [] ==>
        data == old(contents)[0] && contents == old(contents)[1..] && items == old(items)[1..]
    {
      if head == null { return null; }
      data := head.data;
      var nextItem := head.next;
      head := nextItem;
      items := items[1..];
      contents := contents[1..];
      if head == null { tail := null; }
    }
  }

  ghost function States(tasks: set<Task>): (m: map<Task, TaskState>)
    reads tasks
  {
    map t | t in tasks :: t.state
  }

  ghost function Priorities(tasks: set<Task>): map<Task, int>
    reads tasks
  {
    map t | t in tasks :: t.priority
  }

  ghost predicate HeadsIn(queues: seq<seq<Task>>, tasks: set<Task>) {
    forall p :: 0 <= p < |queues| && queues[p] != [] ==> queues[p][0] in tasks
  }

  /** What every run keeps covers what `scheduleNextTask` asks for. */
  lemma QueuedTasksAreKnown(s: Sched<Task>)
    requires Inv(s)
    ensures HeadsIn(s.queues, s.state.Keys)
  {
  }

  lemma PreemptThenSchedule(s: Sched<Task>, t: Task)
    requires Inv(s) && t in s.state
    ensures s.state[t] == Running ==> 0 <= s.priority[t] < LEVELS
    ensures var s1 := OnPreempted(s, t);
      Shape(s1) && s1.state.Keys == s.state.Keys && HeadsIn(s1.queues, s1.state.Keys) && Inv(Schedule(s1).0)
  {
    DoKeeps(s, Preempt(t));
    QueuedTasksAreKnown(OnPreempted(s, t));
    ScheduleKeeps(OnPreempted(s, t));
  }

  ghost function Found(task: Task?): Option<Task> {
    if task == null then None else var t: Task := task; Some(t)
  }

  /** One search loop: dispatch from the first non-empty queue at or after `start`. */
  ghost function First(s: Sched<Task>, start: nat): (Sched<Task>, Option<Task>)
    requires Shape(s) && start <= LEVELS
  {
    var p := FirstFrom(s.queues, start);
    if p == LEVELS then (s, None)
    else (Dispatch(s, p, if p == s.current then s.counter[p] + 1 else 1), Some(s.queues[p][0]))
  }

  lemma ScheduleIsTwoSearches(s: Sched<Task>)
    requires Shape(s)
    ensures Schedule(s) ==
      if s.counter[s.current] < MAX_SAMEPRIO_LENGTH then First(s, 0)
      else if First(s, s.current + 1).1.Some? then First(s, s.current + 1)
      else First(s.(counter := s.counter[s.current := 0]), 0)
  {
  }

  class Scheduler {
    const priorityQueues: seq<Queue>
    const samePrioCounter: array<int>
    var currentPriority: int
    /** The queues as a set, and the nodes of all queues. */
    ghost const queueSet: set<Queue>
    ghost var nodes: set<QueueItem>

    ghost predicate Valid()
      reads this, queueSet, nodes
    {
      0 <= currentPriority < LEVELS && samePrioCounter.Length == LEVELS && ValidQueues()
    }

    ghost predicate ValidQueues()
      reads this`nodes, queueSet, nodes
    {
      Fixed() && forall p {:trigger ValidQueue(p, priorityQueues[p])} :: 0 <= p < LEVELS ==> ValidQueue(p, priorityQueues[p])
    }

    ghost predicate ValidQueue(p: int, queue: Queue)
      reads this`nodes, queue, nodes
    {
      queue.level == p && queue.nodes <= nodes && queue.Valid()
    }

    ghost predicate Fixed() {
      |priorityQueues| == LEVELS && forall p :: 0 <= p < LEVELS ==> priorityQueues[p] in queueSet
    }

    ghost function Queued(): (qs: seq<seq<Task>>)
      requires Fixed()
      reads queueSet
      ensures |qs| == LEVELS && forall p :: 0 <= p < LEVELS ==> qs[p] == priorityQueues[p].contents
    {
      seq(LEVELS, p requires 0 <= p < LEVELS reads queueSet => priorityQueues[p].contents)
    }

    /** The scheduler and the fields of `tasks` as a value. */
    ghost function Value(tasks: set<Task>): Sched<Task>
      requires Fixed()
      reads this, samePrioCounter, queueSet, tasks
    {
      Sched(Queued(), currentPriority, samePrioCounter[..], States(tasks), Priorities(tasks))
    }

    /** The static storage: empty queues and zero counters. */
    constructor ()
      ensures Valid() && fresh(samePrioCounter) && fresh(queueSet) && nodes == {}
      ensures forall p :: 0 <= p < LEVELS ==> Queued()[p] == [] && samePrioCounter[p] == 0
      ensures currentPriority == 0
    {
      var queues: seq<Queue> := [];
      for p := 0 to LEVELS
        invariant |queues| == p && fresh(queues)
        invariant forall q :: 0 <= q < p ==> queues[q].level == q && queues[q].nodes == {} && queues[q].contents == [] && queues[q].Valid()
      {
        var queue := new Queue(p);
        queues := queues + [queue];
      }
      var counter := new int[LEVELS](_ => 0);
      priorityQueues := queues;
      queueSet := set q | q in queues;
      samePrioCounter := counter;
      currentPriority := 0;
      nodes := {};
    }

    /** `initScheduler`. */
    method InitScheduler(ghost tasks: set<Task>)
      requires Valid()
      requires forall t :: t in tasks ==> t.state != Ready && t.state != Running
      modifies this, samePrioCounter, queueSet
      ensures Valid() && nodes == old(nodes) && Init(Value(tasks))
    {
      for i := 0 to LEVELS
        invariant Valid() && nodes == old(nodes)
        invariant forall p :: 0 <= p < i ==> priorityQueues[p].contents == [] && samePrioCounter[p] == 0
      {
        ClearQueue(i);
        samePrioCounter[i] := 0;
      }
      currentPriority := 0;
    }

    method ClearQueue(p: int)
      requires Valid() && 0 <= p < LEVELS
      modifies priorityQueues[p]
      ensures Valid() && Queued() == old(Queued())[p := []]
    {
      assert ValidQueue(p, priorityQueues[p]);
      priorityQueues[p].Clear();
      forall q | 0 <= q < LEVELS ensures ValidQueue(q, priorityQueues[q]) && (q != p ==> priorityQueues[q].contents == old(priorityQueues[q].contents)) {
        assert old(ValidQueue(q, priorityQueues[q]));
      }
    }

    /** Append `task` to queue `p`, leaving the other queues alone. */
    method Enqueue(p: int, task: Task, ghost tasks: set<Task>)
      requires Valid() && 0 <= p < LEVELS
      modifies this`nodes, queueSet, nodes
      ensures Valid() && fresh(nodes - old(nodes))
      ensures Queued() == old(Queued())[p := old(Queued())[p] + [task]]
      ensures States(tasks) == old(States(tasks)) && Priorities(tasks) == old(Priorities(tasks))
    {
      var queue := priorityQueues[p];
      assert ValidQueue(p, queue);
      ghost var last := queue.tail;
      queue.AppendItem(task);
      nodes := nodes + {queue.tail};
      forall q | 0 <= q < LEVELS && q != p
        ensures ValidQueue(q, priorityQueues[q]) && priorityQueues[q].contents == old(priorityQueues[q].contents)
      {
        assert old(ValidQueue(q, priorityQueues[q]));
        assert priorityQueues[q] != queue;
        assert last == null || last !in priorityQueues[q].items;
      }
      assert ValidQueue(p, queue);
    }

    /** The head of queue `p`, taken off it. */
    method Dequeue(p: int, ghost tasks: set<Task>) returns (task: Task)
      requires Valid() && 0 <= p < LEVELS
      requires Queued()[p] != []
      modifies priorityQueues[p]
      ensures Valid()
      ensures task == old(Queued())[p][0] && Queued() == old(Queued())[p := old(Queued())[p][1..]]
      ensures States(tasks) == old(States(tasks)) && Priorities(tasks) == old(Priorities(tasks))
    {
      var queue := priorityQueues[p];
      assert ValidQueue(p, queue);
      var data := queue.RemoveFirstItem();
      task := data;
      forall q | 0 <= q < LEVELS ensures ValidQueue(q, priorityQueues[q]) && (q != p ==> priorityQueues[q].contents == old(priorityQueues[q].contents)) {
        assert old(ValidQueue(q, priorityQueues[q]));
      }
    }

    method ClampPriority(task: Task, ghost tasks: set<Task>)
      requires Valid() && task in tasks
      modifies task`priority
      ensures Valid() && task.priority == Clamp(old(task.priority))
      ensures Value(tasks) == var was := old(Value(tasks)); was.(priority := was.priority[task := task.priority])
    {
      if task.priority < 0 {
        task.priority := 0;
      } else if task.priority > MAX_PRIORITY {
        task.priority := MAX_PRIORITY;
      }
      assert Priorities(tasks) == old(Priorities(tasks))[task := task.priority];
    }

    /** The end of `onTaskReady` and `onTaskPreempted`. */
    method MakeReady(task: Task, ghost tasks: set<Task>)
      requires Valid() && task in tasks && 0 <= task.priority < LEVELS
      modifies this`nodes, queueSet, nodes, task`state
      ensures Valid() && fresh(nodes - old(nodes))
      ensures Value(tasks) == Scheduling.Enqueue(old(Value(tasks)), task.priority, task)
    {
      task.state := Ready;
      assert Priorities(tasks) == old(Priorities(tasks)) && States(tasks) == old(States(tasks))[task := Ready];
      Enqueue(task.priority, task, tasks);
    }

    /** `onTaskReady`. */
    method OnTaskReady(task: Task, ghost tasks: set<Task>)
      requires Valid() && task in tasks
      modifies this`nodes, queueSet, nodes, task
      ensures Valid() && fresh(nodes - old(nodes))
      ensures Value(tasks) == OnReady(old(Value(tasks)), task)
    {
      if task.state == Ready { return; }
      ClampPriority(task, tasks);
      MakeReady(task, tasks);
    }

    /** `onTaskPreempted`. */
    method OnTaskPreempted(task: Task, ghost tasks: set<Task>)
      requires Valid() && task in tasks
      requires task.state == Running ==> 0 <= task.priority < LEVELS
      modifies this`nodes, queueSet, nodes, task
      ensures Valid() && fresh(nodes - old(nodes))
      ensures Value(tasks) == OnPreempted(old(Value(tasks)), task)
    {
      if task.state != Running { return; }
      MakeReady(task, tasks);
    }

    /** `onTaskWaiting`. */
    method OnTaskWaiting(task: Task, ghost tasks: set<Task>)
      requires Valid() && task in tasks
      modifies task
      ensures Valid() && Value(tasks) == OnWaiting(old(Value(tasks)), task)
    {
      if task.state != Running { return; }
      task.state := Waiting;
    }

    /** Make `p` the current priority, with counter `c`. */
    method SetCurrent(p: int, c: int, ghost tasks: set<Task>)
      requires Valid() && 0 <= p < LEVELS
      modifies this`currentPriority, samePrioCounter
      ensures Valid() && currentPriority == p && samePrioCounter[..] == old(samePrioCounter[..])[old(currentPriority) := 0][p := c]
      ensures Queued() == old(Queued()) && States(tasks) == old(States(tasks)) && Priorities(tasks) == old(Priorities(tasks))
    {
      samePrioCounter[currentPriority] := 0;
      currentPriority := p;
      samePrioCounter[p] := c;
    }

    /** Make queue `p` current with counter `c`, and run its head. */
    method DispatchFrom(p: int, c: int, ghost tasks: set<Task>) returns (task: Task)
      requires Valid() && 0 <= p < LEVELS && Queued()[p] != [] && Queued()[p][0] in tasks
      modifies this`currentPriority, samePrioCounter, priorityQueues[p], tasks
      ensures Valid() && task == old(Queued())[p][0]
      ensures Value(tasks) == Dispatch(old(Value(tasks)), p, c)
    {
      task := Dequeue(p, tasks);
      SetCurrent(p, c, tasks);
      task.state := Running;
      assert Valid() && Queued() == old(Queued())[p := old(Queued())[p][1..]];
      assert Priorities(tasks) == old(Priorities(tasks)) && States(tasks) == old(States(tasks))[task := Running];
    }

    /** Whether queue `p` has a head. */
    predicate HasTask(p: int)
      requires Valid() && 0 <= p < LEVELS
      reads this, queueSet, nodes
      ensures HasTask(p) == (Queued()[p] != [])
    {
      assert ValidQueue(p, priorityQueues[p]);
      priorityQueues[p].head != null
    }

    /** Both search loops of `scheduleNextTask`: run the head of the first
        non-empty queue at or after `start`. */
    method DispatchFirst(start: int, ghost tasks: set<Task>) returns (task: Task?)
      requires Valid() && 0 <= start <= LEVELS
      requires HeadsIn(Queued(), tasks)
      modifies this`currentPriority, samePrioCounter, queueSet, tasks
      ensures Valid()
      ensures Found(task) == First(old(Value(tasks)), start).1
      ensures Value(tasks) == First(old(Value(tasks)), start).0
    {
      for p := start to LEVELS
        invariant FirstFrom(Queued(), start) == FirstFrom(Queued(), p)
      {
        if HasTask(p) {
          task := DispatchFrom(p, if p == currentPriority then samePrioCounter[p] + 1 else 1, tasks);
          return;
        }
      }
      task := null;
    }

    /** `scheduleNextTask`. */
    method ScheduleNextTask(ghost tasks: set<Task>) returns (task: Task?)
      requires Valid() && HeadsIn(Queued(), tasks)
      modifies this`currentPriority, samePrioCounter, queueSet, tasks
      ensures Valid()
      ensures Found(task) == Schedule(old(Value(tasks))).1
      ensures Value(tasks) == Schedule(old(Value(tasks))).0
    {
      ScheduleIsTwoSearches(Value(tasks));
      if samePrioCounter[currentPriority] >= MAX_SAMEPRIO_LENGTH {
        task := DispatchFirst(currentPriority + 1, tasks);
        if task != null { return; }
        ResetCounter(tasks);
      }
      task := DispatchFirst(0, tasks);
    }

    /** What the example program does again and again: the running task is
        preempted and the scheduler called.  In any state a run can reach, that is
        all the calls ask for. */
    method Reschedule(running: Task, ghost tasks: set<Task>) returns (task: Task?)
      requires Valid() && Inv(Value(tasks)) && running in tasks
      modifies this, samePrioCounter, queueSet, nodes, tasks
      ensures Valid() && Inv(Value(tasks))
      ensures Value(tasks) == Schedule(OnPreempted(old(Value(tasks)), running)).0
      ensures Found(task) == Schedule(OnPreempted(old(Value(tasks)), running)).1
    {
      ghost var s := Value(tasks);
      PreemptThenSchedule(s, running);
      OnTaskPreempted(running, tasks);
      assert Value(tasks) == OnPreempted(s, running);
      task := ScheduleNextTask(tasks);
    }

    method ResetCounter(ghost tasks: set<Task>)
      requires Valid()
      modifies samePrioCounter
      ensures Valid()
      ensures Value(tasks) == var was := old(Value(tasks)); was.(counter := was.counter[was.current := 0])
    {
      samePrioCounter[currentPriority] := 0;
    }
  }
}

/** The task queue of an event loop. */
module EventLoops {
  import opened Words

  /** A task, by what running it asks of the loop: tasks to execute next, and tasks to run after a delay. */
  datatype Task = Task(id: nat, executes: seq<Task>, delays: seq<Request>)
  datatype Request = Request(millis: int, task: Task)

  /** A delayed task with its due time, of which 32 bits are kept. */
  datatype Entry = Entry(due: uint32, task: Task)

  // ---------- immediate tasks ----------

  /** How many tasks a queue gives rise to. */
  function Weight(queue: seq<Task>): nat {
    if queue == [] then 0 else 1 + Weight(queue[0].executes) + Weight(queue[1..])
  }

  lemma {:induction false} WeightAppend(a: seq<Task>, b: seq<Task>)
    ensures Weight(a + b) == Weight(a) + Weight(b)
    decreases |a|
  {
    if a == [] {
      assert a + b == b;
    } else {
      WeightAppend(a[1..], b);
      assert (a + b)[1..] == a[1..] + b;
    }
  }

  /** The tasks run from a queue: the front one, then the rest followed by what it asked for. */
  function AllRun(queue: seq<Task>): seq<Task>
    decreases Weight(queue)
  {
    if queue == [] then []
    else
      WeightAppend(queue[1..], queue[0].executes);
      [queue[0]] + AllRun(queue[1..] + queue[0].executes)
  }

  function Executed(tasks: seq<Task>): seq<Task> {
    if tasks == [] then [] else tasks[0].executes + Executed(tasks[1..])
  }

  function Delayed(tasks: seq<Task>): seq<Request> {
    if tasks == [] then [] else tasks[0].delays + Delayed(tasks[1..])
  }

  /** Running the front task of a queue. */
  lemma QueueStep(queue: seq<Task>)
    requires queue != []
    ensures Weight(queue[1..] + queue[0].executes) < Weight(queue)
    ensures AllRun(queue) == [queue[0]] + AllRun(queue[1..] + queue[0].executes)
    ensures AllRun([]) == []
  {
    WeightAppend(queue[1..], queue[0].executes);
  }

  lemma Requests(t: Task, rest: seq<Task>)
    ensures Executed([t] + rest) == t.executes + Executed(rest)
    ensures Delayed([t] + rest) == t.delays + Delayed(rest)
    ensures Executed([]) == [] && Delayed([]) == []
  {
    assert ([t] + rest)[1..] == rest;
  }

  lemma {:induction false} RequestsAppend(tasks: seq<Task>, t: Task)
    ensures Executed(tasks + [t]) == Executed(tasks) + t.executes
    ensures Delayed(tasks + [t]) == Delayed(tasks) + t.delays
  {
    hide *;
    if tasks == [] {
      assert tasks + [t] == [t] + [];
      Requests(t, []);
    } else {
      var h, rest := tasks[0], tasks[1..];
      assert [h] + rest == tasks;
      JoinAssociates([h], rest, [t]);
      Requests(h, rest);
      Requests(h, rest + [t]);
      RequestsAppend(rest, t);
      JoinAssociates(h.executes, Executed(rest), t.executes);
      JoinAssociates(h.delays, Delayed(rest), t.delays);
    }
  }

  /** Every task submitted is run exactly once, in submission order: the tasks run are those queued at the
      start, followed by those that the tasks run have asked for, in the order they were asked for. */
  lemma {:induction false} RunsAllInOrder(queue: seq<Task>)
    ensures AllRun(queue) == queue + Executed(AllRun(queue))
    decreases Weight(queue)
  {
    hide *;
    if queue == [] {
      EmptyQueue();
    } else {
      var front, rest := queue[0], queue[1..];
      var run := AllRun(rest + front.executes);
      QueueStep(queue);
      RunsAllInOrder(rest + front.executes);
      Requests(front, run);
      JoinAssociates(rest, front.executes, Executed(run));
      JoinAssociates([front], rest, front.executes + Executed(run));
      assert [front] + rest == queue;
    }
  }

  lemma EmptyQueue()
    ensures AllRun([]) == [] && Executed([]) == [] && Delayed([]) == []
  {
  }

  // ---------- delayed tasks ----------

  /** The entries for a list of requests, each with its own reading of the clock. */
  function Entries(requests: seq<Request>, clock: nat -> nat, reading: nat): (es: seq<Entry>)
    ensures |es| == |requests|
  {
    if requests == [] then []
    else [Entry(Truncated(clock(reading) + requests[0].millis), requests[0].task)]
         + Entries(requests[1..], clock, reading + 1)
  }

  lemma EntriesFront(q: Request, rest: seq<Request>, clock: nat -> nat, reading: nat)
    ensures Entries([q] + rest, clock, reading)
            == [Entry(Truncated(clock(reading) + q.millis), q.task)] + Entries(rest, clock, reading + 1)
  {
    assert ([q] + rest)[1..] == rest;
  }

  lemma {:induction false} EntriesAppend(a: seq<Request>, b: seq<Request>, clock: nat -> nat, reading: nat)
    ensures Entries(a + b, clock, reading) == Entries(a, clock, reading) + Entries(b, clock, reading + |a|)
    decreases |a|
  {
    hide *;
    if a == [] {
      assert a + b == b;
      assert Entries(a, clock, reading) == [];
    } else {
      var q, rest := a[0], a[1..];
      assert [q] + rest == a;
      JoinAssociates([q], rest, b);
      EntriesFront(q, rest, clock, reading);
      EntriesFront(q, rest + b, clock, reading);
      EntriesAppend(rest, b, clock, reading + 1);
    }
  }

  /** What a pass over the delayed list runs, and what it keeps. */
  function Due(list: seq<Entry>, now: uint32): seq<Entry> {
    if list == [] then []
    else (if list[0].due <= now then [list[0]] else []) + Due(list[1..], now)
  }

  function Kept(list: seq<Entry>, now: uint32): seq<Entry> {
    if list == [] then []
    else (if list[0].due <= now then [] else [list[0]]) + Kept(list[1..], now)
  }

  function Tasks(list: seq<Entry>): seq<Task> {
    if list == [] then [] else [list[0].task] + Tasks(list[1..])
  }

  lemma {:induction false} TasksAppend(list: seq<Entry>, e: Entry)
    ensures Tasks(list + [e]) == Tasks(list) + [e.task]
  {
    if list != [] {
      TasksAppend(list[1..], e);
      assert (list + [e])[1..] == list[1..] + [e];
    }
  }

  /** Looking at the next entry of the list. */
  lemma PassStep(list: seq<Entry>, now: uint32, due: seq<Entry>, kept: seq<Entry>)
    requires list != []
    ensures var e := list[0];
            if e.due <= now then
              due + Due(list, now) == due + [e] + Due(list[1..], now) && Kept(list, now) == Kept(list[1..], now)
            else
              Due(list, now) == Due(list[1..], now) && kept + Kept(list, now) == kept + [e] + Kept(list[1..], now)
    ensures Due([], now) == [] && Kept([], now) == []
  {
    JoinAssociates(due, [list[0]], Due(list[1..], now));
    JoinAssociates(kept, [list[0]], Kept(list[1..], now));
  }

  lemma EmptyPass()
    ensures forall now :: Due([], now) == [] && Kept([], now) == []
    ensures Tasks([]) == []
    ensures forall clock, reading :: Entries([], clock, reading) == []
  {
  }

  /** A pass treats entries one by one, in the order of the list. */
  lemma {:induction false} PassAppend(a: seq<Entry>, b: seq<Entry>, now: uint32)
    ensures Due(a + b, now) == Due(a, now) + Due(b, now)
    ensures Kept(a + b, now) == Kept(a, now) + Kept(b, now)
  {
    if a == [] {
      assert a + b == b;
    } else {
      var c := a + b;
      assert c[0] == a[0] && c[1..] == a[1..] + b;
      PassAppend(a[1..], b, now);
      hide *;
      PassStep(a, now, [], []);
      PassStep(c, now, [], []);
    }
  }

  /** A pass splits the list: every entry is run or kept, by its due time alone, and none is lost or repeated. */
  lemma {:induction false} PassSplits(list: seq<Entry>, now: uint32)
    ensures multiset(Due(list, now)) + multiset(Kept(list, now)) == multiset(list)
    ensures forall e :: e in Due(list, now) ==> e.due <= now
    ensures forall e :: e in Kept(list, now) ==> e.due > now
  {
    if list != [] {
      PassSplits(list[1..], now);
      assert list == [list[0]] + list[1..];
    }
  }

  /** Keeping 32 bits of the times, a pass agrees with the clock within one window of 2^32 milliseconds;
      across windows it runs a task early, or holds back one that is due, by the low bits alone. */
  lemma DueExact(dueTime: int, task: Task, now: nat)
    ensures var runs := Due([Entry(Truncated(dueTime), task)], Truncated(now)) != [];
            && (dueTime / TWO_32 == now / TWO_32 ==> (runs <==> dueTime <= now))
            && (runs && now < dueTime <==> dueTime / TWO_32 > now / TWO_32 && dueTime % TWO_32 <= now % TWO_32)
            && (!runs && dueTime <= now <==> dueTime / TWO_32 < now / TWO_32 && dueTime % TWO_32 > now % TWO_32)
  {
    var list := [Entry(Truncated(dueTime), task)];
    assert list[1..] == [];
    assert Due(list, Truncated(now)) == (if list[0].due <= Truncated(now) then list else []);
  }

  /** Requests with a positive delay, made at clock readings that do not fall below a pass's own and with due
      times in the same window of 2^32 milliseconds. */
  predicate AllLater(requests: seq<Request>, clock: nat -> nat, reading: nat, now: nat) {
    requests == []
    || (&& requests[0].millis > 0 && clock(reading) >= now
        && (clock(reading) + requests[0].millis) / TWO_32 == now / TWO_32
        && AllLater(requests[1..], clock, reading + 1, now))
  }

  /** They are not due in that pass. */
  lemma {:induction false} AskedAreNotDue(requests: seq<Request>, clock: nat -> nat, reading: nat, now: nat)
    requires AllLater(requests, clock, reading, now)
    ensures Due(Entries(requests, clock, reading), Truncated(now)) == []
    ensures Kept(Entries(requests, clock, reading), Truncated(now)) == Entries(requests, clock, reading)
  {
    if requests != [] {
      AskedAreNotDue(requests[1..], clock, reading + 1, now);
      NotDue(clock(reading) + requests[0].millis, now);
    }
  }

  lemma NotDue(dueTime: int, now: nat)
    requires dueTime > now && dueTime / TWO_32 == now / TWO_32
    ensures Truncated(dueTime) > Truncated(now)
  {
  }

  /** For such requests it makes no difference whether a walk goes on to the entries that are added while it
      runs: they are neither run nor moved. */
  lemma VisitingMakesNoDifference(list: seq<Entry>, requests: seq<Request>, clock: nat -> nat, reading: nat, now: nat)
    requires AllLater(requests, clock, reading, now)
    ensures var asked := Entries(requests, clock, reading);
            && Due(list + asked, Truncated(now)) == Due(list, Truncated(now))
            && Kept(list + asked, Truncated(now)) == Kept(list, Truncated(now)) + asked
  {
    hide *;
    AskedAreNotDue(requests, clock, reading, now);
    PassAppend(list, Entries(requests, clock, reading), Truncated(now));
    assert Due(list, Truncated(now)) + [] == Due(list, Truncated(now));
  }

  // ---------- what a whole run keeps ----------

  /** Immediate tasks: those run, then those queued, are the ones submitted. */
  ghost predicate InOrder(ran: seq<Task>, queue: seq<Task>, submitted: seq<Task>) {
    ran + queue == submitted
  }

  /** Delayed tasks: those run and those waiting are together the ones requested. */
  ghost predicate NoneLost(fired: seq<Entry>, waiting: seq<Entry>, requested: seq<Entry>) {
    multiset(fired) + multiset(waiting) == multiset(requested)
  }

  lemma Submit(ran: seq<Task>, queue: seq<Task>, submitted: seq<Task>, more: seq<Task>)
    requires InOrder(ran, queue, submitted)
    ensures InOrder(ran, queue + more, submitted + more)
    ensures queue != [] ==> InOrder(ran + [queue[0]], queue[1..], submitted)
  {
    JoinAssociates(ran, queue, more);
    if queue != [] {
      assert queue == [queue[0]] + queue[1..];
      JoinAssociates(ran, [queue[0]], queue[1..]);
    }
  }

  lemma Ask(fired: seq<Entry>, waiting: seq<Entry>, requested: seq<Entry>, more: seq<Entry>)
    requires NoneLost(fired, waiting, requested)
    ensures NoneLost(fired, waiting + more, requested + more)
  {
  }

  lemma Fire(fired: seq<Entry>, list: seq<Entry>, requested: seq<Entry>, k: nat)
    requires k < |list| && NoneLost(fired, list, requested)
    ensures NoneLost(fired + [list[k]], list[..k] + list[k + 1..], requested)
  {
    assert list == list[..k] + [list[k]] + list[k + 1..];
  }

  /** The entry a walk is at, the list without it, and the walk one entry further. */
  lemma Walk(kept: seq<Entry>, todo: seq<Entry>, asked: seq<Entry>)
    requires todo != []
    ensures var list, k := kept + todo + asked, |kept|;
            && list[k] == todo[0]
            && list[..k] + list[k + 1..] == kept + todo[1..] + asked
            && kept + [todo[0]] + todo[1..] + asked == list
  {
  }

  class EventLoop {
    /** The clock's successive readings, and how many have been taken. */
    const clock: nat -> nat
    var readings: nat
    var immediateTasks: seq<Task>
    var delayedTasks: seq<Entry>

    /** All that Execute and Delay have been given, and all that has been run. */
    ghost var submitted: seq<Task>
    ghost var ran: seq<Task>
    ghost var requested: seq<Entry>
    ghost var fired: seq<Entry>

    ghost predicate Valid()
      reads this
      ensures Valid() <==> InOrder(ran, immediateTasks, submitted) && NoneLost(fired, delayedTasks, requested)
    {
      InOrder(ran, immediateTasks, submitted) && NoneLost(fired, delayedTasks, requested)
    }

    constructor (time: nat -> nat)
      ensures Valid()
      ensures clock == time && readings == 0
      ensures immediateTasks == [] && delayedTasks == []
      ensures ran == [] && fired == [] && submitted == [] && requested == []
    {
      clock, readings := time, 0;
      immediateTasks, delayedTasks, submitted, ran, requested, fired := [], [], [], [], [], [];
    }

    method Execute(task: Task)
      requires Valid()
      modifies this`immediateTasks, this`submitted
      ensures Valid()
      ensures immediateTasks == old(immediateTasks) + [task] && submitted == old(submitted) + [task]
    {
      Submit(ran, immediateTasks, submitted, [task]);
      immediateTasks := immediateTasks + [task];
      submitted := submitted + [task];
    }

    method Delay(task: Task, millis: int)
      requires Valid()
      modifies this`delayedTasks, this`requested, this`readings
      ensures Valid()
      ensures var entry := Entry(Truncated(clock(old(readings)) + millis), task);
              delayedTasks == old(delayedTasks) + [entry] && requested == old(requested) + [entry]
      ensures readings == old(readings) + 1
    {
      var entry := Entry(Truncated(clock(readings) + millis), task);
      Ask(fired, delayedTasks, requested, [entry]);
      delayedTasks := delayedTasks + [entry];
      requested := requested + [entry];
      readings := readings + 1;
    }

    /** Running a task makes the requests it stands for. */
    method Call(task: Task)
      requires Valid()
      modifies this`immediateTasks, this`submitted, this`delayedTasks, this`requested, this`readings
      ensures Valid()
      ensures immediateTasks == old(immediateTasks) + task.executes
      ensures submitted == old(submitted) + task.executes
      ensures var entries := Entries(task.delays, clock, old(readings));
              delayedTasks == old(delayedTasks) + entries && requested == old(requested) + entries
      ensures readings == old(readings) + |task.delays|
    {
      ExecuteAll(task.executes);
      DelayAll(task.delays);
    }

    method ExecuteAll(tasks: seq<Task>)
      requires Valid()
      modifies this`immediateTasks, this`submitted
      ensures Valid()
      ensures immediateTasks == old(immediateTasks) + tasks && submitted == old(submitted) + tasks
    {
      hide *;
      for i := 0 to |tasks|
        invariant Valid()
        invariant immediateTasks == old(immediateTasks) + tasks[..i] && submitted == old(submitted) + tasks[..i]
      {
        assert tasks[..i + 1] == tasks[..i] + [tasks[i]];
        JoinAssociates(old(immediateTasks), tasks[..i], [tasks[i]]);
        JoinAssociates(old(submitted), tasks[..i], [tasks[i]]);
        Execute(tasks[i]);
      }
      assert tasks[..|tasks|] == tasks;
    }

    method DelayAll(requests: seq<Request>)
      requires Valid()
      modifies this`delayedTasks, this`requested, this`readings
      ensures Valid()
      ensures var entries := Entries(requests, clock, old(readings));
              delayedTasks == old(delayedTasks) + entries && requested == old(requested) + entries
      ensures readings == old(readings) + |requests|
    {
      hide *;
      for i := 0 to |requests|
        invariant Valid()
        invariant delayedTasks == old(delayedTasks) + Entries(requests[..i], clock, old(readings))
        invariant requested == old(requested) + Entries(requests[..i], clock, old(readings))
        invariant readings == old(readings) + i
      {
        var q := requests[i];
        assert requests[..i + 1] == requests[..i] + [q];
        EntriesAppend(requests[..i], [q], clock, old(readings));
        assert [q] == [q] + [];
        EntriesFront(q, [], clock, readings);
        ghost var before, entry := Entries(requests[..i], clock, old(readings)), Entries([q], clock, readings);
        JoinAssociates(old(delayedTasks), before, entry);
        JoinAssociates(old(requested), before, entry);
        Delay(q.task, q.millis);
      }
      assert requests[..|requests|] == requests;
    }

    /** The first half of a pass: immediate tasks, including those queued by the ones that run. */
    method ProceedImmediate()
      requires Valid()
      modifies this
      ensures Valid()
      ensures immediateTasks == [] && fired == old(fired)
      ensures ran == old(ran) + AllRun(old(immediateTasks))
      ensures var asked := Delayed(AllRun(old(immediateTasks)));
              && delayedTasks == old(delayedTasks) + Entries(asked, clock, old(readings))
              && readings == old(readings) + |asked|
    {
      hide *;
      EmptyQueue();
      ghost var done: seq<Task> := [];
      ghost var all := AllRun(immediateTasks);
      while immediateTasks != []
        invariant Valid()
        invariant all == done + AllRun(immediateTasks)
        invariant ran == old(ran) + done && fired == old(fired)
        invariant delayedTasks == old(delayedTasks) + Entries(Delayed(done), clock, old(readings))
        invariant readings == old(readings) + |Delayed(done)|
        decreases Weight(immediateTasks)
      {
        ghost var queue, before := immediateTasks, Entries(Delayed(done), clock, old(readings));
        var front := immediateTasks[0];
        QueueStep(queue);
        RequestsAppend(done, front);
        EntriesAppend(Delayed(done), front.delays, clock, old(readings));
        JoinAssociates(old(delayedTasks), before, Entries(front.delays, clock, readings));
        JoinAssociates(done, [front], AllRun(queue[1..] + front.executes));
        JoinAssociates(old(ran), done, [front]);
        Call(front);
        Submit(ran, immediateTasks, submitted, []);
        immediateTasks := immediateTasks[1..];
        assert immediateTasks == queue[1..] + front.executes;
        ran := ran + [front];
        done := done + [front];
      }
      assert done + [] == done;
    }

    /** The second half: the delayed tasks that are due, each removed as it runs. */
    method ProceedDelayed()
      requires Valid() && immediateTasks == []
      modifies this
      ensures Valid()
      ensures ran == old(ran)
      ensures var now := Truncated(clock(old(readings)));
              var due := Due(old(delayedTasks), now);
              && fired == old(fired) + due
              && immediateTasks == Executed(Tasks(due))
              && delayedTasks == Kept(old(delayedTasks), now)
                                 + Entries(Delayed(Tasks(due)), clock, old(readings) + 1)
              && readings == old(readings) + 1 + |Delayed(Tasks(due))|
    {
      hide *;
      EmptyQueue();
      EmptyPass();
      ghost var list, reading := delayedTasks, readings + 1;
      var currentTime := Truncated(clock(readings));
      readings := readings + 1;
      ghost var due, kept, todo := [], [], list;
      var position, end := 0, |delayedTasks|;
      assert [] + list + [] == list;
      while position < end
        invariant Valid()
        invariant position == |kept| && end == |kept| + |todo|
        invariant Due(list, currentTime) == due + Due(todo, currentTime)
        invariant Kept(list, currentTime) == kept + Kept(todo, currentTime)
        invariant ran == old(ran) && fired == old(fired) + due
        invariant immediateTasks == Executed(Tasks(due))
        invariant delayedTasks == kept + todo + Entries(Delayed(Tasks(due)), clock, reading)
        invariant readings == reading + |Delayed(Tasks(due))|
        decreases end - position
      {
        var entry := delayedTasks[position];
        ghost var asked := Entries(Delayed(Tasks(due)), clock, reading);
        PassStep(todo, currentTime, due, kept);
        Walk(kept, todo, asked);
        if entry.due <= currentTime {
          ghost var more := Entries(entry.task.delays, clock, readings);
          TasksAppend(due, entry);
          RequestsAppend(Tasks(due), entry.task);
          EntriesAppend(Delayed(Tasks(due)), entry.task.delays, clock, reading);
          JoinAssociates(kept + todo, asked, more);
          Walk(kept, todo, asked + more);
          JoinAssociates(old(fired), due, [entry]);
          Call(entry.task);
          Fire(fired, delayedTasks, requested, position);
          delayedTasks := delayedTasks[..position] + delayedTasks[position + 1..];
          fired := fired + [entry];
          end := end - 1;
          due, todo := due + [entry], todo[1..];
        } else {
          position := position + 1;
          kept, todo := kept + [entry], todo[1..];
        }
      }
      assert due + [] == due && kept + [] + Entries(Delayed(Tasks(due)), clock, reading)
             == kept + Entries(Delayed(Tasks(due)), clock, reading);
      assert kept + [] == kept;
    }

    /** One pass of the loop. */
    method ProceedTasks()
      requires Valid()
      modifies this
      ensures Valid()
      ensures ran == old(ran) + AllRun(old(immediateTasks))
      ensures var asked := Delayed(AllRun(old(immediateTasks)));
              var list := old(delayedTasks) + Entries(asked, clock, old(readings));
              var reading := old(readings) + |asked|;
              var now := Truncated(clock(reading));
              var due := Due(list, now);
              && fired == old(fired) + due
              && immediateTasks == Executed(Tasks(due))
              && delayedTasks == Kept(list, now) + Entries(Delayed(Tasks(due)), clock, reading + 1)
              && readings == reading + if list == [] then 0 else 1 + |Delayed(Tasks(due))|
    {
      hide *;
      EmptyQueue();
      EmptyPass();
      ProceedImmediate();
      if delayedTasks != [] {
        ProceedDelayed();
      }
    }
  }
}

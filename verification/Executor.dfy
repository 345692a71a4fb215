/**
 * An executor that runs each task on a thread of its own. A finishing thread can't join itself, so
 * it leaves its identifier behind and the next one to come along joins it.
 */
module Execution {
  import opened Wrappers

  type ThreadId = nat

  datatype Error = LogicError

  /** `tasks` has the keys of the task map. `joined` is history: which threads were joined, and by whom. */
  datatype State = State(
    tasks: set<ThreadId>,
    doneThreadId: Option<ThreadId>,
    closed: bool,
    running: set<ThreadId>,
    started: set<ThreadId>,
    joined: seq<(ThreadId, Option<ThreadId>)>)

  const INITIAL := State({}, None, false, {}, {}, [])

  /**
   * Erasing an entry destroys its thread object, which joins the thread. `joiner` is the task
   * thread that does it, if it's one.
   */
  function RemoveDone(s: State, joiner: Option<ThreadId>): State {
    match s.doneThreadId
    case None => s
    case Some(t) => s.(tasks := s.tasks - {t}, doneThreadId := None, joined := s.joined + [(t, joiner)])
  }

  function Submit(s: State, t: ThreadId): (State, Result<(), Error>) {
    if s.closed then (s, Failure(LogicError))
    else
      var s' := RemoveDone(s, None);
      (s'.(tasks := s'.tasks + {t}, running := s'.running + {t}, started := s'.started + {t}), Success(()))
  }

  /** The cleanup routine of a thread that has done its task. */
  function Finish(s: State, t: ThreadId): State {
    RemoveDone(s, Some(t)).(doneThreadId := Some(t), running := s.running - {t})
  }

  datatype Event = SubmitTask(thread: ThreadId) | FinishTask(thread: ThreadId) | Shutdown

  predicate Enabled(s: State, e: Event) {
    match e
    case SubmitTask(t) => t !in s.started
    case FinishTask(t) => t in s.running
    case Shutdown => true
  }

  function Fire(s: State, e: Event): State
    requires Enabled(s, e)
  {
    match e
    case SubmitTask(t) => Submit(s, t).0
    case FinishTask(t) => Finish(s, t)
    case Shutdown => s.(closed := true)
  }

  ghost predicate Legal(events: seq<Event>)
    decreases |events|, 0
  {
    events == [] ||
    (Legal(events[..|events| - 1]) && Enabled(Exec(events[..|events| - 1]), events[|events| - 1]))
  }

  ghost function Exec(events: seq<Event>): State
    requires Legal(events)
    decreases |events|, 1
  {
    if events == [] then INITIAL else Fire(Exec(events[..|events| - 1]), events[|events| - 1])
  }

  /** The task map is the running threads and at most one more, which has finished and isn't joined. */
  ghost predicate OneUnjoined(s: State) {
    && s.tasks == s.running + (if s.doneThreadId.Some? then {s.doneThreadId.value} else {})
    && (s.doneThreadId.Some? ==> s.doneThreadId.value !in s.running)
  }

  /** Every thread was started, and is in the task map or was joined, once and not by itself. */
  ghost predicate JoinedOnce(s: State) {
    && s.tasks <= s.started
    && (forall i :: 0 <= i < |s.joined| ==> s.joined[i].0 in s.started && s.joined[i].0 !in s.tasks)
    && (forall i, j :: 0 <= i < j < |s.joined| ==> s.joined[i].0 != s.joined[j].0)
    && (forall i :: 0 <= i < |s.joined| ==> s.joined[i].1 != Some(s.joined[i].0))
    && (forall t :: t in s.started ==> t in s.tasks || exists i :: 0 <= i < |s.joined| && s.joined[i].0 == t)
  }

  lemma RemoveDoneJoins(s: State, joiner: Option<ThreadId>)
    requires OneUnjoined(s) && JoinedOnce(s)
    requires joiner.Some? ==> joiner.value in s.running
    ensures var s' := RemoveDone(s, joiner);
            && OneUnjoined(s') && JoinedOnce(s')
            && s'.doneThreadId.None? && s'.running == s.running && s'.started == s.started
  {
    var s' := RemoveDone(s, joiner);
    if s.doneThreadId.Some? {
      assert s'.tasks == s.running;
      forall t | t in s'.started
        ensures t in s'.tasks || exists i :: 0 <= i < |s'.joined| && s'.joined[i].0 == t
      {
        if t == s.doneThreadId.value {
          assert s'.joined[|s.joined|].0 == t;
        } else if t !in s.tasks {
          var i :| 0 <= i < |s.joined| && s.joined[i].0 == t;
          assert s'.joined[i].0 == t;
        }
      }
    }
  }

  /**
   * In every run: the task map is the running threads plus at most one that has finished and isn't
   * joined; no thread joins itself; and each thread is joined at most once, and was if it's
   * neither running nor that one.
   */
  lemma {:induction false} ThreadsAreJoined(events: seq<Event>)
    requires Legal(events)
    ensures OneUnjoined(Exec(events)) && JoinedOnce(Exec(events))
  {
    if events == [] {
    } else {
      var prefix, last := events[..|events| - 1], events[|events| - 1];
      ThreadsAreJoined(prefix);
      var s := Exec(prefix);
      match last
      case SubmitTask(t) =>
        RemoveDoneJoins(s, None);
      case FinishTask(t) =>
        RemoveDoneJoins(s, Some(t));
      case Shutdown =>
    }
  }

  /**
   * Submitting fails exactly if the executor is closed, and then nothing happens. Otherwise the thread
   * starts: it's running and in the task map.
   */
  lemma SubmitStarts(s: State, t: ThreadId)
    ensures var (s', r) := Submit(s, t);
            && s'.closed == s.closed
            && match r
               case Failure(_) => s.closed && s' == s
               case Success(_) =>
                 && !s.closed
                 && s'.running == s.running + {t} && s'.started == s.started + {t} && t in s'.tasks
                 && s'.doneThreadId.None?
  {
  }

  /** A thread was submitted before the first shutdown. */
  ghost predicate SubmittedInTime(events: seq<Event>, t: ThreadId) {
    exists i :: 0 <= i < |events| && events[i] == SubmitTask(t) && Shutdown !in events[..i]
  }

  lemma SubmittedOneMore(prefix: seq<Event>, last: Event, t: ThreadId)
    ensures SubmittedInTime(prefix + [last], t) <==>
            SubmittedInTime(prefix, t) || (last == SubmitTask(t) && Shutdown !in prefix)
  {
    var events := prefix + [last];
    assert forall i :: 0 <= i <= |prefix| ==> events[..i] == prefix[..i];
    assert prefix[..|prefix|] == prefix;
    if SubmittedInTime(prefix, t) {
      var i :| 0 <= i < |prefix| && prefix[i] == SubmitTask(t) && Shutdown !in prefix[..i];
      assert events[i] == SubmitTask(t);
    }
    if last == SubmitTask(t) && Shutdown !in prefix {
      assert events[|prefix|] == SubmitTask(t);
    }
  }

  /**
   * In every run, exactly those threads were started that were submitted before the first shutdown,
   * and exactly those of them are running that haven't finished.
   */
  lemma {:induction false} StartedExactly(events: seq<Event>)
    requires Legal(events)
    ensures Exec(events).closed <==> Shutdown in events
    ensures forall t :: t in Exec(events).started <==> SubmittedInTime(events, t)
    ensures forall t :: t in Exec(events).running <==> SubmittedInTime(events, t) && FinishTask(t) !in events
    ensures forall t :: FinishTask(t) in events ==> t in Exec(events).started
  {
    if events == [] {
    } else {
      var prefix, last := events[..|events| - 1], events[|events| - 1];
      assert events == prefix + [last];
      StartedExactly(prefix);
      forall t
        ensures SubmittedInTime(events, t) <==>
                SubmittedInTime(prefix, t) || (last == SubmitTask(t) && Shutdown !in prefix)
      {
        SubmittedOneMore(prefix, last, t);
      }
      hide SubmittedInTime;
      if last.SubmitTask? {
        SubmitStarts(Exec(prefix), last.thread);
      }
    }
  }

  lemma {:induction false} NoneStartsAfterShutdown(events: seq<Event>, more: seq<Event>)
    requires Legal(events + more) && Legal(events) && Exec(events).closed
    ensures Exec(events + more).closed && Exec(events + more).started == Exec(events).started
    ensures Exec(events + more).running <= Exec(events).running
    decreases |more|
  {
    if more == [] {
      assert events + more == events;
    } else {
      assert (events + more)[..|events + more| - 1] == events + more[..|more| - 1];
      NoneStartsAfterShutdown(events, more[..|more| - 1]);
    }
  }

  /**
   * After shutdown no thread starts any more, so once the running ones have finished, the task map
   * has at most one entry, which is what the termination wait is for; it's exactly one if any task
   * was submitted.
   */
  lemma TerminationIsReached(events: seq<Event>, more: seq<Event>)
    requires Legal(events + more) && Legal(events) && Exec(events).closed
    requires forall t :: t in Exec(events).running ==> FinishTask(t) in more
    ensures |Exec(events + more).tasks| <= 1
    ensures |Exec(events + more).tasks| == 1 <==> Exec(events + more).started != {}
  {
    AllFinish(events, more);
    NoneStartsAfterShutdown(events, more);
    ThreadsAreJoined(events + more);
    LastIsKept(events + more);
    var s := Exec(events + more);
    assert s.running == {};
    if s.doneThreadId.Some? {
      assert s.tasks == {s.doneThreadId.value};
    } else {
      assert s.tasks == {};
    }
  }

  lemma {:induction false} AllFinish(events: seq<Event>, more: seq<Event>)
    requires Legal(events + more) && Legal(events) && Exec(events).closed
    ensures forall t :: FinishTask(t) in more ==> t !in Exec(events + more).running
    decreases |more|
  {
    if more == [] {
    } else {
      var front := more[..|more| - 1];
      assert (events + more)[..|events + more| - 1] == events + front;
      AllFinish(events, front);
      NoneStartsAfterShutdown(events, front);
      assert more == front + [more[|more| - 1]];
    }
  }

  /** When nothing is running, the last thread to finish is still unjoined. */
  lemma {:induction false} LastIsKept(events: seq<Event>)
    requires Legal(events)
    ensures Exec(events).running == {} && Exec(events).started != {} ==> Exec(events).doneThreadId.Some?
  {
    if events == [] {
    } else {
      var prefix, last := events[..|events| - 1], events[|events| - 1];
      LastIsKept(prefix);
      if last.SubmitTask? && !Exec(prefix).closed {
        assert last.thread in Exec(events).running;
      }
    }
  }

  // ---------------------------------------------------------------- the mutable executor

  class Executor {
    var tasks: set<ThreadId>
    var doneThreadId: Option<ThreadId>
    var closed: bool
    ghost var running: set<ThreadId>
    ghost var started: set<ThreadId>
    ghost var joined: seq<(ThreadId, Option<ThreadId>)>

    ghost function Value(): State
      reads this
    {
      State(tasks, doneThreadId, closed, running, started, joined)
    }

    constructor ()
      ensures Value() == INITIAL
    {
      tasks := {};
      doneThreadId := None;
      closed := false;
      running, started, joined := {}, {}, [];
    }

    /** The source asserts that the erased thread has an entry. */
    method RemoveAndDestroyDoneThread(ghost joiner: Option<ThreadId>)
      requires doneThreadId.Some? ==> doneThreadId.value in tasks
      modifies this`tasks, this`doneThreadId, this`joined
      ensures Value() == RemoveDone(old(Value()), joiner)
      ensures doneThreadId.None?
      ensures match old(doneThreadId)
              case None => tasks == old(tasks) && joined == old(joined)
              case Some(t) => tasks == old(tasks) - {t} && joined == old(joined) + [(t, joiner)]
    {
      if doneThreadId.Some? {
        tasks := tasks - {doneThreadId.value};
        joined := joined + [(doneThreadId.value, joiner)];
        doneThreadId := None;
      }
    }

    /** The source asserts that the new thread's identifier isn't in the map. */
    method SubmitTask(thread: ThreadId) returns (r: Result<(), Error>)
      requires OneUnjoined(Value()) && thread !in tasks
      modifies this
      ensures (Value(), r) == Submit(old(Value()), thread)
    {
      if closed {
        return Failure(LogicError);
      }
      RemoveAndDestroyDoneThread(None);
      tasks := tasks + {thread};
      running := running + {thread};
      started := started + {thread};
      return Success(());
    }

    method PurgeDoneThreadAndSaveThisThread(thread: ThreadId)
      requires OneUnjoined(Value()) && thread in running
      modifies this
      ensures Value() == Finish(old(Value()), thread)
    {
      RemoveAndDestroyDoneThread(Some(thread));
      doneThreadId := Some(thread);
      running := running - {thread};
    }

    method Close()
      modifies this`closed
      ensures Value() == old(Value()).(closed := true)
    {
      closed := true;
    }
  }
}

/** The lifetime protocol of a thread context (src/cr/cr_thread.c): a parent and a spawned thread share
    a two-count reference count and a test-and-set flag, and the thread may die at any point. Every
    interleaving of their atomic steps is a run of this transition system. */
module ThreadContext {

  import opened Bits

  /** Where the thread stands in `_entry`. `Gone(at)` has terminated, at that point. */
  datatype ThreadPc =
    | NotStarted
    | Body                  // creating the lua_State, running the chunk, copying the result
    | Signalling            // status stored, about to set the done event
    | Flagging              // about to set thread_released
    | Releasing             // about to decrement the reference count
    | ThreadFreeing         // decremented to zero, about to run _free_all
    | Exiting               // done with the context, about to terminate itself
    | Gone(at: ThreadPc)

  /** Where the parent stands: in `_cr_thread_spawn`, between calls, or in `_cr_thread_close`. */
  datatype ParentPc =
    | Spawning              // context set up, about to create the thread
    | Storing               // thread created, about to store its handle
    | Open                  // holds the context
    | Polling               // closing: about to poll the thread handle
    | Claiming              // the handle was signaled: about to test and set thread_released
    | ReleasingForThread    // the flag was clear: about to decrement for the dead thread
    | FreeingForThread      // that decrement reached zero
    | Dropping              // about to decrement its own reference
    | ParentFreeing         // that decrement reached zero
    | Closed                // has let go of the context
    | Failed                // spawning failed

  const STATUS_OK: int := 0
  const STATUS_LUA_ERROR: int := 1
  const STATUS_PANIC: int := 2
  const STATUS_CRASH: int := 3

  /** The context's fields, the two program counters, and what the runs are judged by: how often
      `_free_all` ran, whether close found the thread terminated and whether it claimed its reference. */
  datatype Snapshot = Snapshot(
    refcount: int, released: bool, status: int, handle: bool,
    thread: ThreadPc, parent: ParentPc,
    frees: nat, sawDead: bool, claimed: bool)

  const INITIAL := Snapshot(2, false, STATUS_CRASH, false, NotStarted, Spawning, 0, false, false)

  datatype Action =
    | Finish(status: int) | Signal | SetFlag | ThreadRelease | ThreadFree | Exit | Die
    | Create | CreateFails | Store | PollDone | ReadResult | Close | CloseAgain
    | Poll | Claim | ReleaseForThread | FreeForThread | Drop | ParentFree

  predicate Alive(t: ThreadPc) { !t.NotStarted? && !t.Gone? }

  /** The atomic steps of the thread. */
  function ThreadStep(s: Snapshot, a: Action): Option<Snapshot> {
    match a
    case Finish(status) =>
      if s.thread.Body? && status in {STATUS_OK, STATUS_LUA_ERROR, STATUS_PANIC}
      then Some(s.(status := status, thread := Signalling)) else None
    case Signal => if s.thread.Signalling? then Some(s.(thread := Flagging)) else None
    case SetFlag => if s.thread.Flagging? then Some(s.(released := true, thread := Releasing)) else None
    case ThreadRelease =>
      if s.thread.Releasing?
      then Some(s.(refcount := s.refcount - 1, thread := if s.refcount - 1 == 0 then ThreadFreeing else Exiting))
      else None
    case ThreadFree =>
      if s.thread.ThreadFreeing? then Some(s.(frees := s.frees + 1, thread := Exiting)) else None
    case Exit => if s.thread.Exiting? then Some(s.(thread := Gone(Exiting))) else None
    case Die => if Alive(s.thread) then Some(s.(thread := Gone(s.thread))) else None
    case _ => None
  }

  /** The atomic steps of the parent. */
  function ParentStep(s: Snapshot, a: Action): Option<Snapshot> {
    match a
    case Create => if s.parent.Spawning? then Some(s.(parent := Storing, thread := Body)) else None
    case CreateFails => if s.parent.Spawning? then Some(s.(parent := Failed, frees := s.frees + 1)) else None
    case Store => if s.parent.Storing? then Some(s.(parent := Open, handle := true)) else None
    case PollDone => if s.parent.Open? then Some(s) else None
    case ReadResult => if s.parent.Open? then Some(s) else None
    case Close => if s.parent.Open? then Some(s.(parent := if s.handle then Polling else Dropping)) else None
    case CloseAgain => if s.parent.Closed? then Some(s) else None
    case Poll =>
      if s.parent.Polling?
      then Some(s.(sawDead := s.thread.Gone?, parent := if s.thread.Gone? then Claiming else Dropping)) else None
    case Claim =>
      if s.parent.Claiming?
      then Some(s.(released := true, parent := if s.released then Dropping else ReleasingForThread)) else None
    case ReleaseForThread =>
      if s.parent.ReleasingForThread?
      then Some(s.(refcount := s.refcount - 1, claimed := true,
                   parent := if s.refcount - 1 == 0 then FreeingForThread else Dropping)) else None
    case FreeForThread =>
      if s.parent.FreeingForThread? then Some(s.(frees := s.frees + 1, parent := Dropping)) else None
    case Drop =>
      if s.parent.Dropping?
      then Some(s.(refcount := s.refcount - 1, parent := if s.refcount - 1 == 0 then ParentFreeing else Closed))
      else None
    case ParentFree =>
      if s.parent.ParentFreeing? then Some(s.(frees := s.frees + 1, parent := Closed)) else None
    case _ => None
  }

  function Step(s: Snapshot, a: Action): Option<Snapshot> {
    match ThreadStep(s, a)
    case Some(t) => Some(t)
    case None => ParentStep(s, a)
  }

  /** The state after a run of actions, `None` if one of them was not enabled. */
  function Run(s: Snapshot, run: seq<Action>): Option<Snapshot>
    decreases |run|
  {
    if run == [] then Some(s) else
    match Step(s, run[0])
    case None => None
    case Some(t) => Run(t, run[1..])
  }

  ghost predicate Reachable(s: Snapshot) {
    exists run: seq<Action> :: Run(INITIAL, run) == Some(s)
  }

  // ---------------------------------------------------------------- what every step keeps

  /** The place in `_entry` the thread has got to, dead or alive. */
  function At(t: ThreadPc): ThreadPc
  {
    if t.Gone? then t.at else t
  }

  predicate BeforeDecrement(t: ThreadPc) {
    var at := At(t);
    at.NotStarted? || at.Body? || at.Signalling? || at.Flagging? || at.Releasing?
  }

  predicate BeforeFlag(t: ThreadPc) {
    var at := At(t);
    at.NotStarted? || at.Body? || at.Signalling? || at.Flagging?
  }

  /** The references not dropped yet. */
  function OwedByThread(s: Snapshot): int {
    if BeforeDecrement(s.thread) && !s.claimed then 1 else 0
  }
  function OwedByParent(s: Snapshot): int {
    if s.parent.ParentFreeing? || s.parent.Closed? then 0 else 1
  }

  predicate Inv(s: Snapshot) {
    if s.parent.Failed? then s.thread.NotStarted? && s.frees == 1
    else
      && (s.thread.Gone? ==> !s.thread.at.Gone? && !s.thread.at.NotStarted?)
      && (s.thread.NotStarted? <==> s.parent.Spawning?)
      && (s.handle <==> !s.parent.Spawning? && !s.parent.Storing?)
      && s.refcount == OwedByThread(s) + OwedByParent(s)
      && (s.released <==> !BeforeFlag(s.thread) || s.claimed || s.parent.ReleasingForThread?)
      && (s.claimed || s.parent.Claiming? || s.parent.ReleasingForThread? ==> s.sawDead)
      && (s.sawDead ==> s.thread.Gone?)
      && (s.claimed || s.parent.ReleasingForThread? ==> BeforeFlag(s.thread))
      && (s.parent.ReleasingForThread? ==> !s.claimed) && (s.parent.Claiming? ==> !s.claimed)
      && !s.parent.FreeingForThread?
      && (s.sawDead && BeforeFlag(s.thread) && (s.parent.Dropping? || s.parent.ParentFreeing? || s.parent.Closed?)
          ==> s.claimed)
      && (s.parent.Storing? || s.parent.Open? || s.parent.Polling? ==> !s.sawDead && !s.claimed)
      && (At(s.thread).ThreadFreeing? || s.parent.ParentFreeing? ==> s.refcount == 0)
      && s.frees == (if s.refcount == 0 && !At(s.thread).ThreadFreeing? && !s.parent.ParentFreeing? then 1 else 0)
      && !(At(s.thread).ThreadFreeing? && s.parent.ParentFreeing?)
      && (s.status == STATUS_CRASH <==> At(s.thread).NotStarted? || At(s.thread).Body?)
  }

  lemma {:induction false} ThreadStepKeepsInv(s: Snapshot, a: Action)
    requires Inv(s) && ThreadStep(s, a).Some?
    ensures Inv(ThreadStep(s, a).value)
  {
  }

  lemma {:induction false} ParentStepKeepsInv(s: Snapshot, a: Action)
    requires Inv(s) && ParentStep(s, a).Some?
    ensures Inv(ParentStep(s, a).value)
  {
  }

  lemma {:induction false} StepKeepsInv(s: Snapshot, a: Action)
    requires Inv(s) && Step(s, a).Some?
    ensures Inv(Step(s, a).value)
  {
    hide Inv, ThreadStep, ParentStep;
    if ThreadStep(s, a).Some? {
      ThreadStepKeepsInv(s, a);
    } else {
      ParentStepKeepsInv(s, a);
    }
  }

  lemma {:induction false} RunKeepsInv(s: Snapshot, run: seq<Action>)
    requires Inv(s) && Run(s, run).Some?
    ensures Inv(Run(s, run).value)
    decreases |run|
  {
    if run != [] {
      StepKeepsInv(s, run[0]);
      RunKeepsInv(Step(s, run[0]).value, run[1..]);
    }
  }

  lemma {:induction false} ReachableInv(s: Snapshot)
    requires Reachable(s)
    ensures Inv(s)
  {
    var run: seq<Action> :| Run(INITIAL, run) == Some(s);
    RunKeepsInv(INITIAL, run);
  }

  // ---------------------------------------------------------------- safety

  /** Steps that read or write the context, `_free_all` included. */
  predicate Touches(s: Snapshot, a: Action) {
    match a
    case Exit => false
    case Die => false
    case CloseAgain => false
    case _ => Step(s, a).Some?
  }

  /** Over every interleaving: the count is the references still owed, the context is freed at most once,
      and no step touches it after that. */
  lemma {:induction false} Safety(s: Snapshot, a: Action)
    requires Reachable(s)
    ensures !s.parent.Failed? ==> s.refcount == OwedByThread(s) + OwedByParent(s)
    ensures s.frees <= 1
    ensures s.frees == 1 ==> !Touches(s, a)
  {
    ReachableInv(s);
  }

  /** Whoever frees finds the thread handle stored, so it is closed with the rest, unless the thread was
      never created; and it frees a context whose other party is through with it. */
  lemma {:induction false} FreeFindsHandle(s: Snapshot, a: Action)
    requires Reachable(s) && Step(s, a).Some? && Step(s, a).value.frees > s.frees
    ensures a == CreateFails || s.handle
    ensures a == ThreadFree ==> s.parent.Closed?
    ensures a == ParentFree ==> At(s.thread).Exiting? || s.claimed
    ensures a != FreeForThread
  {
    ReachableInv(s);
  }

  // ---------------------------------------------------------------- no leak, exactly when

  /** Both parties are through. */
  predicate Over(s: Snapshot) {
    s.parent.Closed? && s.thread.Gone?
  }

  /** When a run is over the context was freed exactly once, unless the thread died after setting its flag
      but before it was through with the context, or died before that and only after close had polled. */
  lemma {:induction false} FreedExactlyWhen(s: Snapshot)
    requires Reachable(s) && Over(s)
    ensures s.frees == 1 <==>
            s.thread.at.Exiting? || (BeforeFlag(s.thread) && s.sawDead)
    ensures s.frees == 0 <==>
            s.thread.at.Releasing? || s.thread.at.ThreadFreeing? || (BeforeFlag(s.thread) && !s.sawDead)
  {
    ReachableInv(s);
  }

  /** The status a parent reads once the thread has terminated: CRASH exactly when the thread died before
      it stored a result. */
  lemma {:induction false} CrashStatus(s: Snapshot)
    requires Reachable(s) && s.thread.Gone?
    ensures s.status == STATUS_CRASH <==> s.thread.at.Body?
  {
    ReachableInv(s);
  }

  /** The thread has stored a result. */
  predicate HasResult(s: Snapshot) { !At(s.thread).NotStarted? && !At(s.thread).Body? }

  lemma {:induction false} StepStatus(s: Snapshot, a: Action)
    requires Inv(s) && Step(s, a).Some?
    ensures var t := Step(s, a).value;
      && (a.Finish? ==> !HasResult(s) && HasResult(t) && t.status == a.status && 0 <= t.status <= 2)
      && (!a.Finish? ==> t.status == s.status && HasResult(t) == HasResult(s))
  {
  }

  lemma {:induction false} RunStatus(s: Snapshot, run: seq<Action>)
    requires Inv(s) && Run(s, run).Some?
    ensures var t := Run(s, run).value;
      && ((forall i | 0 <= i < |run| :: !run[i].Finish?) ==> t.status == s.status)
      && (forall i | 0 <= i < |run| && run[i].Finish? :: !HasResult(s) && 0 <= t.status == run[i].status <= 2)
    decreases |run|
  {
    if run != [] {
      var mid, rest := Step(s, run[0]).value, run[1..];
      StepKeepsInv(s, run[0]);
      StepStatus(s, run[0]);
      RunStatus(mid, rest);
      hide Inv, Step, HasResult;
      forall i | 0 <= i < |run| && run[i].Finish?
        ensures !HasResult(s) && 0 <= Run(s, run).value.status == run[i].status <= 2
      {
        if i > 0 {
          assert rest[i - 1] == run[i];
        } else {
          assert forall j | 0 <= j < |rest| :: !rest[j].Finish?;
        }
      }
    }
  }

  /** Over every interleaving the status is the one the thread finished with, once it has, and 3, a crash, until then;
      it finishes with 0, 1 or 2, and once only. */
  lemma {:induction false} StatusIs(run: seq<Action>, s: Snapshot)
    requires Run(INITIAL, run) == Some(s)
    ensures (forall i | 0 <= i < |run| :: !run[i].Finish?) <==> s.status == 3
    ensures forall i | 0 <= i < |run| && run[i].Finish? :: s.status == run[i].status
    ensures 0 <= s.status <= 3
  {
    RunStatus(INITIAL, run);
  }

  /** It can finish with each of the three. */
  lemma {:induction false} EachStatus(st: int)
    ensures Run(INITIAL, [Create, Finish(st)]).Some? <==> 0 <= st <= 2
  {
    var s := Step(INITIAL, Create).value;
    assert [Create, Finish(st)][1..] == [Finish(st)];
    assert [Finish(st)][1..] == [];
    assert Run(s, [Finish(st)]).Some? <==> Step(s, Finish(st)).Some?;
  }

  // ---------------------------------------------------------------- nobody waits

  /** Steps left to a party, at most. */
  function ThreadLeft(t: ThreadPc): nat {
    match t
    case NotStarted => 7 case Body => 6 case Signalling => 5 case Flagging => 4 case Releasing => 3
    case ThreadFreeing => 2 case Exiting => 1 case Gone(_) => 0
  }
  function ParentLeft(p: ParentPc): nat {
    match p
    case Spawning => 10 case Storing => 9 case Open => 8 case Polling => 7 case Claiming => 6
    case ReleasingForThread => 5 case FreeingForThread => 4 case Dropping => 3 case ParentFreeing => 2
    case Closed => 0 case Failed => 0
  }

  /** The step of each party that moves it on. */
  function ThreadNext(t: ThreadPc): Action {
    match t
    case Body => Finish(STATUS_OK) case Signalling => Signal case Flagging => SetFlag
    case Releasing => ThreadRelease case ThreadFreeing => ThreadFree case _ => Exit
  }
  function ParentNext(p: ParentPc): Action {
    match p
    case Spawning => Create case Storing => Store case Open => Close case Polling => Poll case Claiming => Claim
    case ReleasingForThread => ReleaseForThread case FreeingForThread => FreeForThread case Dropping => Drop
    case ParentFreeing => ParentFree case _ => CloseAgain
  }

  /** Neither party ever blocks the other: whatever the other has done, each has an enabled step of its own
      that takes it nearer its end, so close is over after a bounded number of the parent's own steps. */
  lemma {:induction false} NobodyBlocks(s: Snapshot)
    ensures Alive(s.thread) ==>
      var t := Step(s, ThreadNext(s.thread));
      t.Some? && ThreadLeft(t.value.thread) < ThreadLeft(s.thread) && t.value.parent == s.parent
    ensures !s.parent.Closed? && !s.parent.Failed? ==>
      var t := Step(s, ParentNext(s.parent));
      t.Some? && ParentLeft(t.value.parent) < ParentLeft(s.parent)
  {
    hide ThreadStep, ParentStep, ThreadNext, ParentNext, ThreadLeft, ParentLeft;
    if Alive(s.thread) {
      ThreadGoesOn(s);
    }
    if !s.parent.Closed? && !s.parent.Failed? {
      ParentGoesOn(s);
    }
  }

  lemma {:induction false} ThreadGoesOn(s: Snapshot)
    requires Alive(s.thread)
    ensures var t := ThreadStep(s, ThreadNext(s.thread));
      t.Some? && ThreadLeft(t.value.thread) < ThreadLeft(s.thread) && t.value.parent == s.parent
  {
  }

  lemma {:induction false} ParentGoesOn(s: Snapshot)
    requires !s.parent.Closed? && !s.parent.Failed?
    ensures var t := ParentStep(s, ParentNext(s.parent));
      t.Some? && ParentLeft(t.value.parent) < ParentLeft(s.parent) && ThreadStep(s, ParentNext(s.parent)).None?
  {
  }

  lemma {:induction false} RunThen(s: Snapshot, run: seq<Action>, a: Action)
    requires Run(s, run).Some?
    ensures Run(s, run + [a]) == Step(Run(s, run).value, a)
    decreases |run|
  {
    hide Step;
    if run == [] {
      assert [a][1..] == [];
    } else {
      assert (run + [a])[1..] == run[1..] + [a];
      RunThen(Step(s, run[0]).value, run[1..], a);
    }
  }

  lemma {:induction false} ReachableThen(s: Snapshot, a: Action) returns (t: Snapshot)
    requires Reachable(s) && Step(s, a).Some?
    ensures Reachable(t) && Step(s, a) == Some(t)
  {
    t := Step(s, a).value;
    hide Step;
    var run: seq<Action> :| Run(INITIAL, run) == Some(s);
    RunThen(INITIAL, run, a);
  }

  /** A thread that ran its chunk, set its flag and then died. */
  lemma {:induction false} DiedAfterFlag() returns (s: Snapshot)
    ensures Reachable(s) && s == INITIAL.(released := true, status := STATUS_OK, handle := true,
                                          thread := Gone(Releasing), parent := Open)
  {
    s := INITIAL;
    assert Run(INITIAL, []) == Some(s);
    hide Reachable, Run;
    s := ReachableThen(s, Create);
    s := ReachableThen(s, Store);
    s := ReachableThen(s, Finish(STATUS_OK));
    s := ReachableThen(s, Signal);
    s := ReachableThen(s, SetFlag);
    s := ReachableThen(s, Die);
  }

  /** The promise that a crashed thread's reference is always reclaimed does not hold: a thread that dies
      between setting its flag and its decrement leaves the context behind, even if close finds it dead. */
  lemma {:induction false} LeakAfterFlag() returns (s: Snapshot)
    ensures Reachable(s) && Over(s) && s.frees == 0 && s.sawDead && s.thread.at.Releasing?
  {
    hide Reachable, Run;
    s := DiedAfterFlag();
    s := ReachableThen(s, Close);
    s := ReachableThen(s, Poll);
    s := ReachableThen(s, Claim);
    s := ReachableThen(s, Drop);
  }
}

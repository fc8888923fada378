/**
 * The accept loop and its worker threads as a step machine: one runner, any
 * number of workers, and a stop flag that anyone may set at any time. Reads time
 * out, writes do not: a worker in `InWrite` waits for its peer.
 */
module AcceptLoop {
  import opened Wrappers

  const MAX_CONNECTIONS: nat := 16

  /** The bytes of the longest message, mark included: a peer that trickles keeps one read of a message going that long. */
  const LONGEST_MESSAGE: nat := 4 + 0x4_0000

  /** Where a worker is in `serve_connection`. */
  datatype Pc =
    | AtCheck      // about to load the stop flag
    | InRead(got: nat)   // loaded it clear, reading a message; this many reads have returned bytes
    | InHandle     // a message has arrived, its reply not yet made
    | InWrite      // writing the reply, for as long as the peer takes
    | Finished

  /** A worker, and how many replies it has sent since stop was set. */
  datatype Worker = Worker(pc: Pc, lateReplies: nat)

  /** Where the runner is in `run`. */
  datatype Runner =
    | LoopTop               // about to load the stop flag
    | Reaping(next: nat)    // about to ask whether tracked worker `next` is finished
    | Capping               // about to compare the tracked workers with the cap
    | Accepting             // below the cap, about to accept
    | Joining               // left the loop, joining what is tracked
    | Returned

  /** Workers are named by the order they were spawned in; `tracked` is the `workers` vector. */
  datatype State = State(stop: bool, runner: Runner, workers: seq<Worker>, tracked: seq<nat>)

  const INITIAL := State(false, LoopTop, [], [])

  datatype Step =
    | SetStop
    | RunnerCheck | Reap | Cap | AcceptOne | AcceptNone | JoinNext | Leave
    | WorkerCheck(w: nat)
    | Trickle(w: nat) | Receive(w: nat) | TimeOut(w: nat) | Close(w: nat)   // a read returns
    | Answer(w: nat) | Abandon(w: nat)                                      // a reply is made, or there is none
    | SendReply(w: nat) | WriteFails(w: nat)                                // a write returns

  predicate At(s: State, w: nat, pc: Pc) {
    w < |s.workers| && s.workers[w].pc == pc
  }

  predicate Reading(s: State, w: nat) {
    w < |s.workers| && s.workers[w].pc.InRead?
  }

  function Move(s: State, w: nat, pc: Pc): State
    requires w < |s.workers|
  {
    s.(workers := s.workers[w := s.workers[w].(pc := pc)])
  }

  predicate Allowed(s: State, step: Step) {
    match step
    case SetStop => true
    case RunnerCheck => s.runner == LoopTop
    case Reap => s.runner.Reaping?
    case Cap => s.runner == Capping
    case AcceptOne => s.runner == Accepting
    case AcceptNone => s.runner == Accepting
    case JoinNext => s.runner == Joining && s.tracked != [] && At(s, s.tracked[0], Finished)
    case Leave => s.runner == Joining && s.tracked == []
    case WorkerCheck(w) => At(s, w, AtCheck)
    case Trickle(w) => Reading(s, w) && s.workers[w].pc.got + 1 < LONGEST_MESSAGE
    case Receive(w) => Reading(s, w)
    case TimeOut(w) => Reading(s, w)
    case Close(w) => Reading(s, w)
    case Answer(w) => At(s, w, InHandle)
    case Abandon(w) => At(s, w, InHandle)
    case SendReply(w) => At(s, w, InWrite)
    case WriteFails(w) => At(s, w, InWrite)
  }

  /** `retain` looks at one worker at a time, while the others keep running. */
  function ReapStep(s: State): State
    requires Allowed(s, Reap)
  {
    var next := s.runner.next;
    if next >= |s.tracked| then s.(runner := Capping)
    else if At(s, s.tracked[next], Finished) then
      s.(tracked := s.tracked[..next] + s.tracked[next + 1..])
    else s.(runner := Reaping(next + 1))
  }

  function Take(s: State, step: Step): State
    requires Allowed(s, step)
  {
    match step
    case SetStop => s.(stop := true)
    case RunnerCheck => s.(runner := if s.stop then Joining else Reaping(0))
    case Reap => ReapStep(s)
    case Cap => s.(runner := if |s.tracked| >= MAX_CONNECTIONS then LoopTop else Accepting)
    case AcceptOne =>
      s.(runner := LoopTop, workers := s.workers + [Worker(AtCheck, 0)], tracked := s.tracked + [|s.workers|])
    case AcceptNone => s.(runner := LoopTop)
    case JoinNext => s.(tracked := s.tracked[1..])
    case Leave => s.(runner := Returned)
    case WorkerCheck(w) => Move(s, w, if s.stop then Finished else InRead(0))
    case Trickle(w) => Move(s, w, InRead(s.workers[w].pc.got + 1))
    case Receive(w) => Move(s, w, InHandle)
    case TimeOut(w) => Move(s, w, AtCheck)
    case Close(w) => Move(s, w, Finished)
    case Answer(w) => Move(s, w, InWrite)
    case Abandon(w) => Move(s, w, Finished)
    case SendReply(w) =>
      var old' := s.workers[w];
      s.(workers := s.workers[w := Worker(AtCheck, if s.stop then old'.lateReplies + 1 else old'.lateReplies)])
    case WriteFails(w) => Move(s, w, Finished)
  }

  // ---------------------------------------------------------------- the invariant

  /** Different workers, all spawned. */
  predicate Names(tracked: seq<nat>, spawned: nat) {
    && (forall i | 0 <= i < |tracked| :: tracked[i] < spawned)
    && (forall i, j | 0 <= i < j < |tracked| :: tracked[i] != tracked[j])
  }

  predicate TrackedOk(s: State) {
    && Names(s.tracked, |s.workers|)
    && |s.tracked| <= MAX_CONNECTIONS
    && (s.runner == Accepting ==> |s.tracked| < MAX_CONNECTIONS)
    && (s.runner == Returned ==> s.tracked == [])
  }

  predicate LiveTracked(s: State) {
    forall w | 0 <= w < |s.workers| :: s.workers[w].pc == Finished || w in s.tracked
  }

  /** A worker that has passed the check since stop can send one reply, and only one. */
  predicate RepliesOk(s: State) {
    forall w | 0 <= w < |s.workers| ::
      && s.workers[w].lateReplies <= 1
      && (s.workers[w].pc.InRead? || s.workers[w].pc == InHandle || s.workers[w].pc == InWrite ==> s.workers[w].lateReplies == 0)
      && (!s.stop ==> s.workers[w].lateReplies == 0)
  }

  predicate StopSeen(s: State) {
    s.runner == Joining || s.runner == Returned ==> s.stop
  }

  predicate ReadsBounded(s: State) {
    forall w | 0 <= w < |s.workers| && s.workers[w].pc.InRead? :: s.workers[w].pc.got < LONGEST_MESSAGE
  }

  predicate Inv(s: State) {
    TrackedOk(s) && LiveTracked(s) && RepliesOk(s) && StopSeen(s) && ReadsBounded(s)
  }

  lemma TrackedKept(s: State, step: Step)
    requires Inv(s) && Allowed(s, step)
    ensures TrackedOk(Take(s, step))
  {
    var t := Take(s, step);
    if step == Reap && s.runner.next < |s.tracked| {
      NamesLess(s.tracked, |s.workers|, s.runner.next);
    } else if step == AcceptOne {
      NamesMore(s.tracked, |s.workers|);
    } else if step == JoinNext {
      NamesLess(s.tracked, |s.workers|, 0);
      assert s.tracked[..0] + s.tracked[1..] == s.tracked[1..];
    } else {
      assert t.tracked == s.tracked && |t.workers| == |s.workers|;
    }
  }

  lemma NamesLess(tracked: seq<nat>, spawned: nat, k: nat)
    requires Names(tracked, spawned) && k < |tracked|
    ensures Names(tracked[..k] + tracked[k + 1..], spawned)
  {
  }

  lemma NamesMore(tracked: seq<nat>, spawned: nat)
    requires Names(tracked, spawned)
    ensures Names(tracked + [spawned], spawned + 1)
  {
  }

  lemma LiveKept(s: State, step: Step)
    requires Inv(s) && Allowed(s, step)
    ensures LiveTracked(Take(s, step))
  {
    var t := Take(s, step);
    forall w | 0 <= w < |t.workers|
      ensures t.workers[w].pc == Finished || w in t.tracked
    {
      if step == AcceptOne && w == |s.workers| {
        assert t.tracked[|s.tracked|] == w;
      } else if w in s.tracked {
        var i :| 0 <= i < |s.tracked| && s.tracked[i] == w;
        match step
        case Reap =>
          var next := s.runner.next;
          if |t.tracked| < |s.tracked| {
            if i < next { assert t.tracked[i] == w; }
            else if i > next { assert t.tracked[i - 1] == w; }
          }
        case AcceptOne => assert t.tracked[i] == w;
        case JoinNext => if i > 0 { assert t.tracked[i - 1] == w; }
        case _ =>
      }
    }
  }

  lemma RepliesKept(s: State, step: Step)
    requires Inv(s) && Allowed(s, step)
    ensures RepliesOk(Take(s, step)) && ReadsBounded(Take(s, step)) && StopSeen(Take(s, step))
  {
  }

  lemma InvKept(s: State, step: Step)
    requires Inv(s) && Allowed(s, step)
    ensures Inv(Take(s, step))
  {
    TrackedKept(s, step);
    LiveKept(s, step);
    RepliesKept(s, step);
  }

  // ---------------------------------------------------------------- runs

  /** A run: the steps taken, and the state before and after each. */
  ghost predicate Run(states: seq<State>, steps: seq<Step>) {
    && |states| == |steps| + 1
    && states[0] == INITIAL
    && forall i | 0 <= i < |steps| :: Allowed(states[i], steps[i]) && states[i + 1] == Take(states[i], steps[i])
  }

  lemma {:induction false} InvHolds(states: seq<State>, steps: seq<Step>, n: nat)
    requires Run(states, steps) && n < |states|
    ensures Inv(states[n])
  {
    if n > 0 {
      InvHolds(states, steps, n - 1);
      assert Allowed(states[n - 1], steps[n - 1]) && states[n] == Take(states[n - 1], steps[n - 1]);
      InvKept(states[n - 1], steps[n - 1]);
    }
  }

  function Live(s: State): set<nat> {
    set w: nat | w < |s.workers| && s.workers[w].pc != Finished
  }

  lemma {:induction false} DistinctCount(xs: seq<nat>, within: set<nat>)
    requires forall x | x in within :: x in xs
    ensures |within| <= |xs|
  {
    if xs == [] {
      assert within == {};
    } else {
      DistinctCount(xs[1..], within - {xs[0]});
      assert within <= (within - {xs[0]}) + {xs[0]};
    }
  }

  /**
   * Safety over every interleaving: at most 16 workers are live; every worker
   * ever spawned is finished or still tracked; the loop returns only after all
   * have finished and stop was set; and no worker sends more than one reply
   * after stop.
   */
  lemma ServerSafety(states: seq<State>, steps: seq<Step>, n: nat)
    requires Run(states, steps) && n < |states|
    ensures
      var s := states[n];
      && |Live(s)| <= 16
      && (forall w | 0 <= w < |s.workers| :: s.workers[w].pc == Finished || w in s.tracked)
      && (s.runner == Returned ==> s.stop && Live(s) == {})
      && (forall w | 0 <= w < |s.workers| :: s.workers[w].lateReplies <= 1)
  {
    InvHolds(states, steps, n);
    DistinctCount(states[n].tracked, Live(states[n]));
  }

  // ---------------------------------------------------------------- availability

  /** A way to `Accepting` by steps of the runner alone. */
  ghost predicate Reaches(states: seq<State>, steps: seq<Step>, s: State) {
    && |states| == |steps| + 1 && states[0] == s && states[|steps|].runner == Accepting
    && forall i | 0 <= i < |steps| ::
         && steps[i] in {RunnerCheck, Reap, Cap, AcceptOne, AcceptNone, JoinNext, Leave}
         && Allowed(states[i], steps[i]) && states[i + 1] == Take(states[i], steps[i])
  }

  ghost predicate CanAccept(s: State) {
    exists states, steps :: Reaches(states, steps, s)
  }

  lemma StepFirst(s: State, step: Step)
    requires step in {RunnerCheck, Reap, Cap} && Allowed(s, step) && CanAccept(Take(s, step))
    ensures CanAccept(s)
  {
    var states, steps :| Reaches(states, steps, Take(s, step));
    assert Reaches([s] + states, [step] + steps, s);
  }

  lemma CappingAccepts(s: State)
    requires Inv(s) && s.runner == Capping && |Live(s)| < 16
    requires forall i | 0 <= i < |s.tracked| :: s.tracked[i] in Live(s)
    ensures CanAccept(s)
  {
    LiveCount(s.tracked, Live(s));
    assert Reaches([s, Take(s, Cap)], [Cap], s);
  }

  /** Passing over the tracked workers drops the finished ones, so that only live ones count against the cap. */
  lemma {:induction false} ReapingAccepts(s: State)
    requires Inv(s) && s.runner.Reaping? && s.runner.next <= |s.tracked| && |Live(s)| < 16
    requires forall i | 0 <= i < s.runner.next :: s.tracked[i] in Live(s)
    ensures CanAccept(s)
    decreases |s.tracked| - s.runner.next
  {
    var t := Take(s, Reap);
    assert t.workers == s.workers && Live(t) == Live(s);
    InvKept(s, Reap);
    if s.runner.next < |s.tracked| {
      ReapingAccepts(t);
    } else {
      CappingAccepts(t);
    }
    StepFirst(s, Reap);
  }

  /** Distinct names within a set are no more than it has. */
  lemma {:induction false} LiveCount(tracked: seq<nat>, live: set<nat>)
    requires forall i | 0 <= i < |tracked| :: tracked[i] in live
    requires forall i, j | 0 <= i < j < |tracked| :: tracked[i] != tracked[j]
    ensures |tracked| <= |live|
  {
    if tracked != [] {
      LiveCount(tracked[1..], live - {tracked[0]});
    }
  }

  /** With 16 live workers, the runner alone never gets to accept. */
  lemma {:induction false} FullStays(states: seq<State>, steps: seq<Step>, s: State, n: nat)
    requires Reaches(states, steps, s) && n < |states|
    requires Inv(s) && s.runner != Accepting && |Live(s)| >= 16
    ensures Inv(states[n]) && states[n].runner != Accepting && Live(states[n]) == Live(s)
  {
    if n > 0 {
      FullStays(states, steps, s, n - 1);
      var before, step := states[n - 1], steps[n - 1];
      assert Allowed(before, step) && states[n] == Take(before, step);
      InvKept(before, step);
      DistinctCount(before.tracked, Live(before));
    }
  }

  /**
   * The server is available exactly below the cap: with the stop flag clear, the
   * runner by itself gets from the top of its loop to accepting a connection if
   * and only if fewer than 16 workers are live, however many have come and gone.
   */
  lemma AcceptsExactly(states: seq<State>, steps: seq<Step>, n: nat)
    requires Run(states, steps) && n < |states|
    requires !states[n].stop && states[n].runner == LoopTop
    ensures CanAccept(states[n]) <==> |Live(states[n])| < 16
  {
    var s := states[n];
    InvHolds(states, steps, n);
    if |Live(s)| < 16 {
      ReapingAccepts(Take(s, RunnerCheck));
      StepFirst(s, RunnerCheck);
    } else if CanAccept(s) {
      var states', steps' :| Reaches(states', steps', s);
      FullStays(states', steps', s, |steps'|);
    }
  }

  /** Where these steps lead, if they are all allowed. */
  function Follow(s: State, steps: seq<Step>): Option<State>
    decreases |steps|
  {
    if steps == [] then Some(s)
    else if Allowed(s, steps[0]) then Follow(Take(s, steps[0]), steps[1..])
    else None
  }

  /** The server goes on with `w` through a request and its reply, a read that times out, or a message in two reads. */
  lemma KeepsServing(s: State, w: nat)
    requires !s.stop && At(s, w, AtCheck)
    ensures Follow(s, [WorkerCheck(w), Receive(w), Answer(w), SendReply(w)]) == Some(s)
    ensures Follow(s, [WorkerCheck(w), TimeOut(w)]) == Some(s)
    ensures Follow(s, [WorkerCheck(w), Trickle(w), Receive(w), Answer(w), SendReply(w)]) == Some(s)
  {
    var reading := Move(s, w, InRead(0));
    MoveAgain(s, w, InRead(0), InRead(1));
    MoveAgain(s, w, InRead(0), AtCheck);
    FollowFirst(reading, TimeOut(w), []);
    FollowFirst(s, WorkerCheck(w), [TimeOut(w)]);
    ServesRead(s, w, 0);
    FollowFirst(s, WorkerCheck(w), [Receive(w), Answer(w), SendReply(w)]);
    ServesRead(s, w, 1);
    FollowFirst(reading, Trickle(w), [Receive(w), Answer(w), SendReply(w)]);
    FollowFirst(s, WorkerCheck(w), [Trickle(w), Receive(w), Answer(w), SendReply(w)]);
  }

  lemma ServesRead(s: State, w: nat, got: nat)
    requires !s.stop && At(s, w, AtCheck)
    ensures Follow(Move(s, w, InRead(got)), [Receive(w), Answer(w), SendReply(w)]) == Some(s)
  {
    var reading, handling, writing := Move(s, w, InRead(got)), Move(s, w, InHandle), Move(s, w, InWrite);
    MoveAgain(s, w, InRead(got), InHandle);
    MoveAgain(s, w, InHandle, InWrite);
    MoveAgain(s, w, InWrite, AtCheck);
    FollowFirst(writing, SendReply(w), []);
    FollowFirst(handling, Answer(w), [SendReply(w)]);
    FollowFirst(reading, Receive(w), [Answer(w), SendReply(w)]);
  }

  lemma MoveAgain(s: State, w: nat, first: Pc, second: Pc)
    requires w < |s.workers|
    ensures Move(Move(s, w, first), w, second) == Move(s, w, second)
    ensures Move(s, w, s.workers[w].pc) == s
  {
  }

  lemma FollowFirst(s: State, step: Step, steps: seq<Step>)
    requires Allowed(s, step)
    ensures Follow(s, [step] + steps) == Follow(Take(s, step), steps)
  {
    assert ([step] + steps)[1..] == steps;
  }

  // ---------------------------------------------------------------- shutdown

  /** How far a worker is from finished once stop is set: a read may return bytes until the longest message is there. */
  function WorkerDistance(w: Worker): nat {
    match w.pc
    case InRead(got) => if got < LONGEST_MESSAGE then 4 + (LONGEST_MESSAGE - got) else 4
    case InHandle => 3
    case InWrite => 2
    case AtCheck => 1
    case Finished => 0
  }

  const WORKER_STEPS: nat := 4 + LONGEST_MESSAGE

  /** The steps left to the runner and its workers once stop is set, at most. */
  const SHUTDOWN_STEPS: nat := 39 + MAX_CONNECTIONS * WORKER_STEPS

  function TotalDistance(ws: seq<Worker>): nat {
    if ws == [] then 0 else WorkerDistance(ws[0]) + TotalDistance(ws[1..])
  }

  lemma {:induction false} DistanceUpdate(ws: seq<Worker>, i: nat, w: Worker)
    requires i < |ws|
    ensures TotalDistance(ws[i := w]) == TotalDistance(ws) - WorkerDistance(ws[i]) + WorkerDistance(w)
  {
    if i > 0 {
      assert ws[i := w][1..] == ws[1..][i - 1 := w];
      DistanceUpdate(ws[1..], i - 1, w);
    } else {
      assert ws[i := w][1..] == ws[1..];
    }
  }

  /** After stop, every step of a worker brings the workers strictly closer to being all finished. */
  lemma ShutdownProgress(s: State, step: Step, w: nat)
    requires s.stop && Allowed(s, step)
    requires step in {WorkerCheck(w), Trickle(w), Receive(w), TimeOut(w), Close(w), Answer(w), Abandon(w), SendReply(w), WriteFails(w)}
    ensures TotalDistance(Take(s, step).workers) < TotalDistance(s.workers)
  {
    var t := Take(s, step);
    DistanceUpdate(s.workers, w, t.workers[w]);
  }

  /** How far the runner is from returning, counting what it would start on the way. */
  function RunnerDistance(s: State): nat {
    match s.runner
    case Reaping(next) => 7 + 2 * |s.tracked| - (if next <= |s.tracked| then next else |s.tracked|)
    case Capping => 6 + |s.tracked|
    case Accepting => 5 + |s.tracked|
    case LoopTop => 2 + |s.tracked|
    case Joining => 1 + |s.tracked|
    case Returned => 0
  }

  function Distance(s: State): nat {
    RunnerDistance(s) + TotalDistance(s.workers)
  }

  lemma {:induction false} DistanceSpawn(ws: seq<Worker>, w: Worker)
    ensures TotalDistance(ws + [w]) == TotalDistance(ws) + WorkerDistance(w)
  {
    if ws == [] {
      assert ws + [w] == [w] && [w][1..] == [];
    } else {
      assert (ws + [w])[1..] == ws[1..] + [w];
      DistanceSpawn(ws[1..], w);
    }
  }

  /** After stop, every step of the runner or a worker brings the server strictly closer to having returned. */
  lemma StepProgress(s: State, step: Step)
    requires s.stop && Allowed(s, step) && step != SetStop
    ensures Take(s, step).stop && Distance(Take(s, step)) < Distance(s)
  {
    match step
    case AcceptOne => DistanceSpawn(s.workers, Worker(AtCheck, 0));
    case WorkerCheck(w) => ShutdownProgress(s, step, w);
    case Trickle(w) => ShutdownProgress(s, step, w);
    case Receive(w) => ShutdownProgress(s, step, w);
    case TimeOut(w) => ShutdownProgress(s, step, w);
    case Close(w) => ShutdownProgress(s, step, w);
    case Answer(w) => ShutdownProgress(s, step, w);
    case Abandon(w) => ShutdownProgress(s, step, w);
    case SendReply(w) => ShutdownProgress(s, step, w);
    case WriteFails(w) => ShutdownProgress(s, step, w);
    case _ =>
  }

  lemma {:induction false} LiveBound(ws: seq<Worker>, live: set<nat>)
    requires forall w: nat | w < |ws| && ws[w].pc != Finished :: w in live
    ensures TotalDistance(ws) <= WORKER_STEPS * |live|
    decreases |ws|
  {
    if ws != [] {
      var n := |ws| - 1;
      assert ws == ws[..n] + [ws[n]];
      DistanceSpawn(ws[..n], ws[n]);
      if ws[n].pc == Finished {
        LiveBound(ws[..n], live);
      } else {
        LiveBound(ws[..n], live - {n});
      }
    }
  }

  /** The cap bounds the distance: 16 tracked workers, each at most `WORKER_STEPS` from finished. */
  lemma DistanceBound(s: State)
    requires Inv(s)
    ensures Distance(s) <= SHUTDOWN_STEPS
  {
    LiveBound(s.workers, Live(s));
    DistinctCount(s.tracked, Live(s));
  }

  lemma {:induction false} DistanceFalls(states: seq<State>, steps: seq<Step>, n: nat, m: nat)
    requires Run(states, steps) && n <= m < |states| && states[n].stop
    requires forall i | n <= i < m :: steps[i] != SetStop
    ensures states[m].stop && Distance(states[m]) + (m - n) <= Distance(states[n])
    decreases m
  {
    if n < m {
      DistanceFalls(states, steps, n, m - 1);
      assert Allowed(states[m - 1], steps[m - 1]) && states[m] == Take(states[m - 1], steps[m - 1]);
      StepProgress(states[m - 1], steps[m - 1]);
    }
  }

  /**
   * Shutdown is bounded in every interleaving: from wherever stop is set, the
   * runner and all workers together take at most `SHUTDOWN_STEPS` more steps, a
   * last accepted connection and peers that trickle included; and a server that
   * has taken them has returned.
   */
  lemma ShutdownBounded(states: seq<State>, steps: seq<Step>, n: nat, m: nat)
    requires Run(states, steps) && n <= m < |states| && states[n].stop
    requires forall i | n <= i < m :: steps[i] != SetStop
    ensures m - n <= SHUTDOWN_STEPS
    ensures m - n == SHUTDOWN_STEPS ==> states[m].runner == Returned && Live(states[m]) == {}
  {
    InvHolds(states, steps, n);
    DistanceBound(states[n]);
    DistanceFalls(states, steps, n, m);
    if m - n == SHUTDOWN_STEPS {
      ServerSafety(states, steps, m);
    }
  }

  // ---------------------------------------------------------------- waiting for a peer

  /**
   * Steps the server comes to by itself if its peers do nothing: a silent peer
   * makes a read time out, but does nothing for a write.
   */
  predicate Unaided(step: Step) {
    || step in {RunnerCheck, Reap, Cap, AcceptNone, JoinNext, Leave}
    || step.WorkerCheck? || step.TimeOut? || step.Answer? || step.Abandon?
  }

  ghost predicate CanMove(s: State) {
    exists step :: Unaided(step) && Allowed(s, step)
  }

  /** The runner is joining a worker that has not finished, and every live worker is writing to its peer. */
  predicate Stalled(s: State) {
    && s.runner == Joining && s.tracked != [] && !At(s, s.tracked[0], Finished)
    && forall w | w in Live(s) :: s.workers[w].pc == InWrite
  }

  /** The step a live worker takes by itself, unless it is writing. */
  function OwnStep(s: State, w: nat): Step
    requires w in Live(s)
  {
    match s.workers[w].pc
    case AtCheck => WorkerCheck(w)
    case InRead(_) => TimeOut(w)
    case _ => Answer(w)
  }

  function RunnerStep(s: State): Step
    requires s.runner != Returned
  {
    match s.runner
    case LoopTop => RunnerCheck
    case Reaping(_) => Reap
    case Capping => Cap
    case Accepting => AcceptNone
    case Joining => if s.tracked == [] then Leave else JoinNext
  }

  /**
   * A server that was told to stop comes to a halt short of returning exactly
   * when it joins a worker while every live worker waits for its peer to take a
   * reply: reads time out, writes do not.
   */
  lemma StallsExactly(s: State)
    requires Inv(s) && s.stop && s.runner != Returned
    ensures CanMove(s) <==> !Stalled(s)
  {
    if Stalled(s) {
      StalledWorkers(s);
    } else if s.runner == Joining && s.tracked != [] && !At(s, s.tracked[0], Finished) {
      var w :| w in Live(s) && s.workers[w].pc != InWrite;
      assert Unaided(OwnStep(s, w)) && Allowed(s, OwnStep(s, w));
    } else {
      assert Unaided(RunnerStep(s)) && Allowed(s, RunnerStep(s));
    }
  }

  /** Then only a peer can end the wait, by taking a reply or dropping its connection. */
  lemma StalledNeedsPeer(s: State, step: Step)
    requires Inv(s) && Stalled(s) && Allowed(s, step) && step != SetStop
    ensures step.SendReply? || step.WriteFails?
  {
    StalledWorkers(s);
  }

  lemma StalledWorkers(s: State)
    requires Stalled(s)
    ensures forall w | 0 <= w < |s.workers| :: s.workers[w].pc == InWrite || s.workers[w].pc == Finished
  {
    forall w | 0 <= w < |s.workers|
      ensures s.workers[w].pc == InWrite || s.workers[w].pc == Finished
    {
      if s.workers[w].pc != Finished {
        assert w in Live(s);
      }
    }
  }

  const STALLING: seq<Step> :=
    [RunnerCheck, Reap, Cap, AcceptOne, WorkerCheck(0), Receive(0), Answer(0), SetStop, RunnerCheck]

  /** A server with one worker, the runner about to load the stop flag. */
  function OneWorker(pc: Pc): State {
    State(false, LoopTop, [Worker(pc, 0)], [0])
  }

  /** The states `STALLING` leads through. */
  const STALLING_STATES: seq<State> :=
    [INITIAL, State(false, Reaping(0), [], []), State(false, Capping, [], []), State(false, Accepting, [], []),
     OneWorker(AtCheck), OneWorker(InRead(0)), OneWorker(InHandle), OneWorker(InWrite),
     OneWorker(InWrite).(stop := true), OneWorker(InWrite).(stop := true, runner := Joining)]

  predicate Leads(s: State, step: Step, t: State) {
    Allowed(s, step) && t == Take(s, step)
  }

  lemma Connects()
    ensures Leads(INITIAL, RunnerCheck, State(false, Reaping(0), [], []))
    ensures Leads(State(false, Reaping(0), [], []), Reap, State(false, Capping, [], []))
    ensures Leads(State(false, Capping, [], []), Cap, State(false, Accepting, [], []))
    ensures Leads(State(false, Accepting, [], []), AcceptOne, OneWorker(AtCheck))
  {
    assert [Worker(AtCheck, 0)] == [] + [Worker(AtCheck, 0)];
  }

  lemma Works()
    ensures Leads(OneWorker(AtCheck), WorkerCheck(0), OneWorker(InRead(0)))
    ensures Leads(OneWorker(InRead(0)), Receive(0), OneWorker(InHandle))
    ensures Leads(OneWorker(InHandle), Answer(0), OneWorker(InWrite))
  {
    assert [Worker(AtCheck, 0)][0 := Worker(InRead(0), 0)] == [Worker(InRead(0), 0)];
    assert [Worker(InRead(0), 0)][0 := Worker(InHandle, 0)] == [Worker(InHandle, 0)];
    assert [Worker(InHandle, 0)][0 := Worker(InWrite, 0)] == [Worker(InWrite, 0)];
  }

  /** It happens: one client that sends a request and does not read its reply is enough. */
  lemma CanStall()
    ensures Run(STALLING_STATES, STALLING) && Stalled(STALLING_STATES[9])
  {
    Connects();
    Works();
    forall i | 0 <= i < 9
      ensures Leads(STALLING_STATES[i], STALLING[i], STALLING_STATES[i + 1])
    {
    }
  }
}

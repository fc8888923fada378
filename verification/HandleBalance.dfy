/**
 * Concurrent READs over the in-memory filesystem. Opening is two steps, the
 * counter bump and the map insert, and any other READ may run between them.
 */
module HandleBalance {
  import opened Xdr

  /** Where a READ is. */
  datatype Pc =
    | Idle
    | Bumped(handle: u64, ino: u64)    // holds a handle value, not yet in the map
    | Holding(handle: u64, ino: u64)   // the handle is in the map
    | Done

  /** `issued` is every handle the counter has given out, in order. */
  datatype State = State(next: nat, open: map<u64, u64>, procs: seq<Pc>, issued: seq<u64>)

  datatype Step = Bump(r: nat, ino: u64) | Refuse(r: nat) | Insert(r: nat) | Release(r: nat)

  predicate Allowed(s: State, step: Step) {
    match step
    case Bump(r, _) => r < |s.procs| && s.procs[r] == Idle && s.next <= U64_MAX
    case Refuse(r) => r < |s.procs| && s.procs[r] == Idle   // not a file: no handle is taken
    case Insert(r) => r < |s.procs| && s.procs[r].Bumped?
    case Release(r) => r < |s.procs| && s.procs[r].Holding?
  }

  function Take(s: State, step: Step): State
    requires Allowed(s, step)
  {
    match step
    case Bump(r, ino) =>
      s.(next := s.next + 1, procs := s.procs[r := Bumped(s.next, ino)], issued := s.issued + [s.next])
    case Refuse(r) => s.(procs := s.procs[r := Done])
    case Insert(r) =>
      var p := s.procs[r];
      s.(open := s.open[p.handle := p.ino], procs := s.procs[r := Holding(p.handle, p.ino)])
    case Release(r) => s.(open := s.open - {s.procs[r].handle}, procs := s.procs[r := Done])
  }

  predicate HasHandle(p: Pc) {
    p.Bumped? || p.Holding?
  }

  /** The handle belongs to some READ that has it in the map. */
  predicate Held(s: State, h: u64) {
    exists r | 0 <= r < |s.procs| :: s.procs[r].Holding? && s.procs[r].handle == h
  }

  /** `before` is the map and the counter as they were when the READs started. */
  predicate Inv(s: State, before: map<u64, u64>, first: nat) {
    && first <= s.next <= 0x1_0000_0000_0000_0000
    && (forall h | h in before :: h < first)
    && (forall i | 0 <= i < |s.issued| :: s.issued[i] == first + i) && |s.issued| == s.next - first
    && (forall r | 0 <= r < |s.procs| && HasHandle(s.procs[r]) :: first <= s.procs[r].handle < s.next)
    && (forall r, q | 0 <= r < q < |s.procs| && HasHandle(s.procs[r]) && HasHandle(s.procs[q]) ::
          s.procs[r].handle != s.procs[q].handle)
    && (forall h | h in before :: h in s.open && s.open[h] == before[h])
    && (forall h | h in s.open :: h in before || Held(s, h))
    && (forall r | 0 <= r < |s.procs| && s.procs[r].Holding? ::
          s.procs[r].handle in s.open && s.open[s.procs[r].handle] == s.procs[r].ino)
  }

  lemma HeldKept(s: State, step: Step, h: u64)
    requires Allowed(s, step) && Held(s, h)
    requires step.Release? ==> s.procs[step.r].handle != h
    ensures Held(Take(s, step), h)
  {
    var q :| 0 <= q < |s.procs| && s.procs[q].Holding? && s.procs[q].handle == h;
    assert Take(s, step).procs[q] == s.procs[q];
  }

  lemma InvKept(s: State, step: Step, before: map<u64, u64>, first: nat)
    requires Inv(s, before, first) && Allowed(s, step)
    ensures Inv(Take(s, step), before, first)
  {
    var t := Take(s, step);
    forall h | h in t.open
      ensures h in before || Held(t, h)
    {
      if step.Insert? && h == s.procs[step.r].handle {
        assert t.procs[step.r].Holding?;
      } else if h !in before {
        HeldKept(s, step, h);
      }
    }
  }

  ghost predicate Run(states: seq<State>, steps: seq<Step>) {
    && |states| == |steps| + 1
    && forall i | 0 <= i < |steps| :: Allowed(states[i], steps[i]) && states[i + 1] == Take(states[i], steps[i])
  }

  /** READs about to start, over a map whose handles came from the counter. */
  predicate Fresh(s: State) {
    && s.next <= 0x1_0000_0000_0000_0000 && s.issued == []
    && (forall r | 0 <= r < |s.procs| :: s.procs[r] == Idle)
    && forall h | h in s.open :: h < s.next
  }

  lemma {:induction false} InvHolds(states: seq<State>, steps: seq<Step>, n: nat)
    requires Run(states, steps) && n < |states| && Fresh(states[0])
    ensures Inv(states[n], states[0].open, states[0].next)
  {
    if n > 0 {
      InvHolds(states, steps, n - 1);
      assert Allowed(states[n - 1], steps[n - 1]) && states[n] == Take(states[n - 1], steps[n - 1]);
      InvKept(states[n - 1], steps[n - 1], states[0].open, states[0].next);
    }
  }

  /**
   * In every interleaving: no handle is ever issued twice, a handle in the map
   * that was not there before belongs to exactly one READ in flight, and a READ
   * that holds a handle finds the file it opened behind it.
   */
  lemma HandlesBalanced(states: seq<State>, steps: seq<Step>, n: nat)
    requires Run(states, steps) && n < |states| && Fresh(states[0])
    ensures
      var s := states[n];
      && (forall i, j | 0 <= i < j < |s.issued| :: s.issued[i] != s.issued[j])
      && (forall h :: h in s.open <==> h in states[0].open || Held(s, h))
      && (forall r, q | 0 <= r < |s.procs| && 0 <= q < |s.procs| && s.procs[r].Holding? && s.procs[q].Holding?
            && s.procs[r].handle == s.procs[q].handle :: r == q)
      && (forall r | 0 <= r < |s.procs| && s.procs[r].Holding? ::
            s.procs[r].handle in s.open && s.open[s.procs[r].handle] == s.procs[r].ino)
  {
    InvHolds(states, steps, n);
  }

  /** Once every READ is done, the open files are what they were. */
  lemma NothingLeaks(states: seq<State>, steps: seq<Step>)
    requires Run(states, steps) && Fresh(states[0])
    requires forall r | 0 <= r < |states[|steps|].procs| :: states[|steps|].procs[r] == Done
    ensures states[|steps|].open == states[0].open
  {
    InvHolds(states, steps, |steps|);
    assert states[|steps|].open.Keys == states[0].open.Keys;
  }
}
